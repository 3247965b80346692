/** Merging lists of keyed entries: an override replaces the last entry of its key, or is appended. */
module KeyedMerge {

  /** The list being built, and where each key was last put. */
  datatype Merge<T> = Merge(merged: seq<T>, index: map<string, nat>)

  predicate IndexOk<T>(m: Merge<T>) {
    forall k :: k in m.index ==> m.index[k] < |m.merged|
  }

  function AddBase<T>(m: Merge<T>, entry: T, key: T -> string): Merge<T> {
    Merge(m.merged + [entry], m.index[key(entry) := |m.merged|])
  }

  function AddOverride<T>(m: Merge<T>, entry: T, key: T -> string): (r: Merge<T>)
    requires IndexOk(m)
    ensures IndexOk(r)
  {
    if key(entry) in m.index then m.(merged := m.merged[m.index[key(entry)] := entry])
    else AddBase(m, entry, key)
  }

  function AddAllBase<T>(base: seq<T>, key: T -> string): (m: Merge<T>)
    ensures IndexOk(m)
  {
    if base == [] then Merge([], map[])
    else AddBase(AddAllBase(base[..|base| - 1], key), base[|base| - 1], key)
  }

  function AddAllOverrides<T>(m: Merge<T>, overrides: seq<T>, key: T -> string): (r: Merge<T>)
    requires IndexOk(m)
    ensures IndexOk(r)
  {
    if overrides == [] then m
    else AddOverride(AddAllOverrides(m, overrides[..|overrides| - 1], key), overrides[|overrides| - 1], key)
  }

  lemma AddNextBase<T>(base: seq<T>, i: nat, key: T -> string)
    requires i < |base|
    ensures AddAllBase(base[..i + 1], key) == AddBase(AddAllBase(base[..i], key), base[i], key)
  {
    assert base[..i + 1][..i] == base[..i];
  }

  lemma AddNextOverride<T>(m: Merge<T>, overrides: seq<T>, i: nat, key: T -> string)
    requires IndexOk(m) && i < |overrides|
    ensures AddAllOverrides(m, overrides[..i + 1], key) ==
            AddOverride(AddAllOverrides(m, overrides[..i], key), overrides[i], key)
  {
    assert overrides[..i + 1][..i] == overrides[..i];
  }

  function MergeAll<T>(base: seq<T>, overrides: seq<T>, key: T -> string): seq<T> {
    AddAllOverrides(AddAllBase(base, key), overrides, key).merged
  }

  // ----- the index knows the last position of every key -----

  /** `index` maps exactly the keys of `merged`, each to its last position. */
  ghost predicate IndexExact<T>(m: Merge<T>, key: T -> string) {
    && (forall k :: k in m.index ==> m.index[k] < |m.merged| && key(m.merged[m.index[k]]) == k)
    && (forall i :: 0 <= i < |m.merged| ==> key(m.merged[i]) in m.index && i <= m.index[key(m.merged[i])])
  }

  lemma AddBaseExact<T>(m: Merge<T>, entry: T, key: T -> string)
    requires IndexExact(m, key)
    ensures IndexExact(AddBase(m, entry, key), key)
  {
  }

  lemma AddOverrideExact<T>(m: Merge<T>, entry: T, key: T -> string)
    requires IndexExact(m, key)
    ensures IndexExact(AddOverride(m, entry, key), key)
  {
  }

  lemma AddLastOfBase<T>(m: Merge<T>, base: seq<T>, key: T -> string)
    requires base != [] && m.merged == base[..|base| - 1]
    ensures AddBase(m, base[|base| - 1], key).merged == base
  {
  }

  lemma {:induction false} BaseIsKept<T>(base: seq<T>, key: T -> string)
    ensures AddAllBase(base, key).merged == base
  {
    if base != [] {
      BaseIsKept(base[..|base| - 1], key);
      AddLastOfBase(AddAllBase(base[..|base| - 1], key), base, key);
    }
  }

  lemma {:induction false} BaseIndexExact<T>(base: seq<T>, key: T -> string)
    ensures IndexExact(AddAllBase(base, key), key)
  {
    if base != [] {
      BaseIndexExact(base[..|base| - 1], key);
      AddBaseExact(AddAllBase(base[..|base| - 1], key), base[|base| - 1], key);
    }
  }

  lemma BaseExact<T>(base: seq<T>, key: T -> string)
    ensures IndexExact(AddAllBase(base, key), key)
    ensures AddAllBase(base, key).merged == base
  {
    BaseIsKept(base, key);
    BaseIndexExact(base, key);
  }

  lemma {:induction false} OverridesExact<T>(m: Merge<T>, overrides: seq<T>, key: T -> string)
    requires IndexExact(m, key)
    ensures IndexExact(AddAllOverrides(m, overrides, key), key)
  {
    if overrides != [] {
      var n := |overrides| - 1;
      OverridesExact(m, overrides[..n], key);
      AddOverrideExact(AddAllOverrides(m, overrides[..n], key), overrides[n], key);
    }
  }

  /** An exact index is determined by the list. */
  lemma IndexIsDetermined<T>(m: Merge<T>, n: Merge<T>, key: T -> string)
    requires IndexExact(m, key) && IndexExact(n, key) && m.merged == n.merged
    ensures m == n
  {
  }

  // ----- merging in two steps -----

  lemma {:induction false} OverridesConcat<T>(m: Merge<T>, first: seq<T>, second: seq<T>, key: T -> string)
    requires IndexOk(m)
    ensures AddAllOverrides(m, first + second, key) == AddAllOverrides(AddAllOverrides(m, first, key), second, key)
  {
    if second == [] {
      assert first + second == first;
    } else {
      var n := |second| - 1;
      assert (first + second)[..|first + second| - 1] == first + second[..n];
      OverridesConcat(m, first, second[..n], key);
    }
  }

  /** Merging in two steps is merging in one, even when keys repeat. */
  lemma MergeAllInTwoSteps<T>(base: seq<T>, first: seq<T>, second: seq<T>, key: T -> string)
    ensures MergeAll(MergeAll(base, first, key), second, key) == MergeAll(base, first + second, key)
  {
    var m := AddAllOverrides(AddAllBase(base, key), first, key);
    BaseExact(base, key);
    OverridesExact(AddAllBase(base, key), first, key);
    BaseExact(m.merged, key);
    IndexIsDetermined(AddAllBase(m.merged, key), m, key);
    OverridesConcat(AddAllBase(base, key), first, second, key);
  }

  // ----- which entry wins -----

  /** The position of the last entry with this key, or -1. */
  function LastWithKey<T>(entries: seq<T>, k: string, key: T -> string): (i: int)
    ensures -1 <= i < |entries|
    ensures i >= 0 ==> key(entries[i]) == k
    ensures forall j :: i < j < |entries| ==> key(entries[j]) != k
  {
    if entries == [] then -1
    else if key(entries[|entries| - 1]) == k then |entries| - 1
    else LastWithKey(entries[..|entries| - 1], k, key)
  }

  lemma LastIsIndexed<T>(m: Merge<T>, k: string, key: T -> string)
    requires IndexExact(m, key)
    ensures k in m.index <==> LastWithKey(m.merged, k, key) >= 0
    ensures k in m.index ==> m.index[k] == LastWithKey(m.merged, k, key)
  {
  }

  /** Overrides never move a key that is already there. */
  lemma {:induction false} OverridesKeepIndex<T>(m: Merge<T>, overrides: seq<T>, key: T -> string)
    requires IndexOk(m)
    ensures |AddAllOverrides(m, overrides, key).merged| >= |m.merged|
    ensures forall k :: k in m.index ==>
      k in AddAllOverrides(m, overrides, key).index && AddAllOverrides(m, overrides, key).index[k] == m.index[k]
    ensures forall k :: k in AddAllOverrides(m, overrides, key).index && k !in m.index ==>
      AddAllOverrides(m, overrides, key).index[k] >= |m.merged|
  {
    if overrides != [] {
      OverridesKeepIndex(m, overrides[..|overrides| - 1], key);
    }
  }

  /** What an entry at position i has become: the last override of its key takes the place the index gives to the key. */
  function Replaced<T>(start: Merge<T>, overrides: seq<T>, key: T -> string, i: nat): T
    requires IndexOk(start) && i < |start.merged|
  {
    var k := key(start.merged[i]);
    var winner := LastWithKey(overrides, k, key);
    if winner >= 0 && k in start.index && start.index[k] == i then overrides[winner] else start.merged[i]
  }

  /** One more override changes position i only when the index points there for its key. */
  lemma ReplacedStep<T>(start: Merge<T>, before: Merge<T>, overrides: seq<T>, entry: T, key: T -> string, i: nat)
    requires IndexExact(start, key) && IndexOk(before) && i < |start.merged| <= |before.merged|
    requires forall k :: k in start.index ==> k in before.index && before.index[k] == start.index[k]
    requires forall k :: k in before.index && k !in start.index ==> before.index[k] >= |start.merged|
    requires before.merged[i] == Replaced(start, overrides, key, i)
    ensures AddOverride(before, entry, key).merged[i] == Replaced(start, overrides + [entry], key, i)
  {
  }

  lemma {:induction false} OverridesReplace<T>(start: Merge<T>, overrides: seq<T>, key: T -> string, i: nat)
    requires IndexExact(start, key) && i < |start.merged|
    ensures i < |AddAllOverrides(start, overrides, key).merged|
    ensures AddAllOverrides(start, overrides, key).merged[i] == Replaced(start, overrides, key, i)
  {
    OverridesKeepIndex(start, overrides, key);
    if overrides != [] {
      var n := |overrides| - 1;
      OverridesReplace(start, overrides[..n], key, i);
      OverridesKeepIndex(start, overrides[..n], key);
      assert overrides == overrides[..n] + [overrides[n]];
      ReplacedStep(start, AddAllOverrides(start, overrides[..n], key), overrides[..n], overrides[n], key, i);
    }
  }

  /**
   The result starts with the base, entry by entry: an entry is replaced exactly when it is the last of
   its key in the base and some override has that key, and then by the last such override.
   */
  lemma BasePositions<T>(base: seq<T>, overrides: seq<T>, key: T -> string, i: nat)
    requires i < |base|
    ensures |MergeAll(base, overrides, key)| >= |base|
    ensures var winner := LastWithKey(overrides, key(base[i]), key);
      MergeAll(base, overrides, key)[i] ==
        if winner >= 0 && LastWithKey(base, key(base[i]), key) == i then overrides[winner] else base[i]
  {
    var start := AddAllBase(base, key);
    BaseExact(base, key);
    OverridesKeepIndex(start, overrides, key);
    OverridesReplace(start, overrides, key, i);
    LastIsIndexed(start, key(base[i]), key);
  }

  /** Behind the base stands one entry for every new key, the last override of that key. */
  ghost predicate AppendedOk<T>(start: Merge<T>, r: Merge<T>, overrides: seq<T>, key: T -> string, i: nat)
    requires i < |r.merged|
  {
    var k := key(r.merged[i]);
    && k !in start.index && k in r.index && r.index[k] == i
    && LastWithKey(overrides, k, key) >= 0
    && r.merged[i] == overrides[LastWithKey(overrides, k, key)]
  }

  lemma AppendedStep<T>(start: Merge<T>, before: Merge<T>, overrides: seq<T>, entry: T, key: T -> string, i: nat)
    requires IndexOk(before) && IndexExact(before, key) && |start.merged| <= i < |AddOverride(before, entry, key).merged|
    requires forall k :: k in start.index ==> k in before.index && before.index[k] < |start.merged|
    requires i < |before.merged| ==> AppendedOk(start, before, overrides, key, i)
    ensures AppendedOk(start, AddOverride(before, entry, key), overrides + [entry], key, i)
  {
  }

  lemma {:induction false} OverridesAppend<T>(start: Merge<T>, overrides: seq<T>, key: T -> string, i: nat)
    requires IndexExact(start, key)
    requires |start.merged| <= i < |AddAllOverrides(start, overrides, key).merged|
    ensures AppendedOk(start, AddAllOverrides(start, overrides, key), overrides, key, i)
  {
    if overrides != [] {
      var n := |overrides| - 1;
      var before := AddAllOverrides(start, overrides[..n], key);
      OverridesExact(start, overrides[..n], key);
      OverridesKeepIndex(start, overrides[..n], key);
      if i < |before.merged| {
        OverridesAppend(start, overrides[..n], key, i);
      }
      assert overrides == overrides[..n] + [overrides[n]];
      AppendedStep(start, before, overrides[..n], overrides[n], key, i);
    }
  }

  lemma AppendedEntries<T>(base: seq<T>, overrides: seq<T>, key: T -> string, i: nat)
    requires |base| <= i < |MergeAll(base, overrides, key)|
    ensures forall j :: |base| <= j < i ==> key(MergeAll(base, overrides, key)[j]) != key(MergeAll(base, overrides, key)[i])
    ensures var entry := MergeAll(base, overrides, key)[i];
      && LastWithKey(base, key(entry), key) < 0
      && LastWithKey(overrides, key(entry), key) >= 0
      && entry == overrides[LastWithKey(overrides, key(entry), key)]
  {
    var start := AddAllBase(base, key);
    BaseExact(base, key);
    OverridesAppend(start, overrides, key, i);
    forall j | |base| <= j < i
      ensures key(MergeAll(base, overrides, key)[j]) != key(MergeAll(base, overrides, key)[i])
    {
      OverridesAppend(start, overrides, key, j);
    }
    LastIsIndexed(start, key(MergeAll(base, overrides, key)[i]), key);
  }

  /** The position of the first entry with this key, or the length. */
  function FirstWithKey<T>(entries: seq<T>, k: string, key: T -> string): (i: nat)
    ensures i <= |entries|
    ensures i < |entries| ==> key(entries[i]) == k
    ensures forall j :: 0 <= j < i ==> key(entries[j]) != k
  {
    if entries == [] then 0
    else
      var front := FirstWithKey(entries[..|entries| - 1], k, key);
      if front < |entries| - 1 || key(entries[|entries| - 1]) == k then front else |entries|
  }

  lemma FirstWithKeyExtends<T>(entries: seq<T>, last: T, k: string, key: T -> string)
    ensures var front := FirstWithKey(entries, k, key);
      FirstWithKey(entries + [last], k, key) == if front < |entries| || key(last) == k then front else |entries| + 1
  {
    assert (entries + [last])[..|entries|] == entries;
  }

  /** Positions i < j behind the base hold keys whose first overrides are in this order. */
  ghost predicate InFirstOrder<T>(r: Merge<T>, overrides: seq<T>, key: T -> string, i: nat, j: nat)
    requires i < j < |r.merged|
  {
    FirstWithKey(overrides, key(r.merged[i]), key) < FirstWithKey(overrides, key(r.merged[j]), key) < |overrides|
  }

  lemma KeysStay<T>(before: Merge<T>, entry: T, key: T -> string, i: nat)
    requires IndexExact(before, key) && i < |AddOverride(before, entry, key).merged|
    ensures key(AddOverride(before, entry, key).merged[i]) == key(if i < |before.merged| then before.merged[i] else entry)
  {
  }

  lemma FirstOrderStep<T>(before: Merge<T>, overrides: seq<T>, entry: T, key: T -> string, i: nat, j: nat)
    requires IndexExact(before, key) && i < j < |AddOverride(before, entry, key).merged|
    requires FirstWithKey(overrides, key(before.merged[i]), key) < |overrides|
    requires j < |before.merged| ==> InFirstOrder(before, overrides, key, i, j)
    requires j == |before.merged| ==> FirstWithKey(overrides, key(entry), key) == |overrides|
    ensures InFirstOrder(AddOverride(before, entry, key), overrides + [entry], key, i, j)
  {
    var after := AddOverride(before, entry, key);
    KeysStay(before, entry, key, i);
    KeysStay(before, entry, key, j);
    FirstWithKeyExtends(overrides, entry, key(after.merged[i]), key);
    FirstWithKeyExtends(overrides, entry, key(after.merged[j]), key);
  }

  lemma AppendedHasFirst<T>(start: Merge<T>, overrides: seq<T>, key: T -> string, i: nat)
    requires IndexExact(start, key) && |start.merged| <= i < |AddAllOverrides(start, overrides, key).merged|
    ensures FirstWithKey(overrides, key(AddAllOverrides(start, overrides, key).merged[i]), key) < |overrides|
  {
    OverridesAppend(start, overrides, key, i);
  }

  lemma GrowsOnNewKey<T>(start: Merge<T>, overrides: seq<T>, entry: T, key: T -> string)
    requires IndexOk(start)
    requires key(entry) !in AddAllOverrides(start, overrides, key).index
    ensures FirstWithKey(overrides, key(entry), key) == |overrides|
  {
    var first := FirstWithKey(overrides, key(entry), key);
    if first < |overrides| {
      OverrideKeysIndexed(start, overrides, key, first);
    }
  }

  lemma {:induction false} NewKeysInFirstOrder<T>(start: Merge<T>, overrides: seq<T>, key: T -> string, i: nat, j: nat)
    requires IndexExact(start, key) && |start.merged| <= i < j < |AddAllOverrides(start, overrides, key).merged|
    ensures InFirstOrder(AddAllOverrides(start, overrides, key), overrides, key, i, j)
  {
    if overrides != [] {
      var n := |overrides| - 1;
      var front, last := overrides[..n], overrides[n];
      var before := AddAllOverrides(start, front, key);
      OverridesExact(start, front, key);
      AppendedHasFirst(start, front, key, i);
      if j < |before.merged| {
        NewKeysInFirstOrder(start, front, key, i, j);
      } else {
        GrowsOnNewKey(start, front, last, key);
      }
      FirstOrderStep(before, front, last, key, i, j);
      assert overrides == front + [last];
    }
  }

  lemma {:induction false} OverridesGrow<T>(m: Merge<T>, overrides: seq<T>, key: T -> string)
    requires IndexOk(m)
    ensures |AddAllOverrides(m, overrides, key).merged| <= |m.merged| + |overrides|
  {
    if overrides != [] {
      OverridesGrow(m, overrides[..|overrides| - 1], key);
    }
  }

  lemma MergeAllGrows<T>(base: seq<T>, overrides: seq<T>, key: T -> string)
    ensures |MergeAll(base, overrides, key)| <= |base| + |overrides|
  {
    BaseExact(base, key);
    OverridesGrow(AddAllBase(base, key), overrides, key);
  }

  lemma {:induction false} OverrideKeysIndexed<T>(m: Merge<T>, overrides: seq<T>, key: T -> string, j: nat)
    requires IndexOk(m) && j < |overrides|
    ensures key(overrides[j]) in AddAllOverrides(m, overrides, key).index
  {
    var n := |overrides| - 1;
    if j < n {
      OverrideKeysIndexed(m, overrides[..n], key, j);
    }
  }

  /** The last override of a key is in the result. */
  lemma LastOverrideIsPlaced<T>(base: seq<T>, overrides: seq<T>, key: T -> string, j: nat) returns (p: nat)
    requires j < |overrides| && LastWithKey(overrides, key(overrides[j]), key) == j
    ensures p < |MergeAll(base, overrides, key)| && MergeAll(base, overrides, key)[p] == overrides[j]
  {
    var k := key(overrides[j]);
    var q := LastWithKey(base, k, key);
    if q >= 0 {
      p := q;
      BasePositions(base, overrides, key, p);
    } else {
      var start := AddAllBase(base, key);
      var r := AddAllOverrides(start, overrides, key);
      BaseExact(base, key);
      OverridesExact(start, overrides, key);
      OverrideKeysIndexed(start, overrides, key, j);
      p := r.index[k];
      if p < |base| {
        BasePositions(base, overrides, key, p);
        assert false;
      }
      AppendedEntries(base, overrides, key, p);
    }
  }

  // ----- merging what is normalised on the way in -----

  function Map<T>(norm: T -> T, entries: seq<T>): (normal: seq<T>)
    ensures |normal| == |entries|
    ensures forall i :: 0 <= i < |entries| ==> normal[i] == norm(entries[i])
  {
    seq(|entries|, i requires 0 <= i < |entries| => norm(entries[i]))
  }

  function MergeNormal<T>(base: seq<T>, overrides: seq<T>, norm: T -> T, key: T -> string): seq<T> {
    MergeAll(Map(norm, base), Map(norm, overrides), key)
  }

  lemma MapConcat<T>(norm: T -> T, first: seq<T>, second: seq<T>)
    ensures Map(norm, first + second) == Map(norm, first) + Map(norm, second)
  {
  }

  ghost predicate SettledBy<T>(norm: T -> T, entries: seq<T>) {
    forall x :: x in entries ==> norm(norm(x)) == norm(x)
  }

  lemma MergeNothing<T>(base: seq<T>, norm: T -> T, key: T -> string)
    ensures MergeNormal(base, [], norm, key) == Map(norm, base)
  {
    BaseExact(Map(norm, base), key);
    assert Map(norm, []) == [];
  }

  lemma NormalTwiceIff<T>(base: seq<T>, norm: T -> T)
    ensures Map(norm, Map(norm, base)) == Map(norm, base) <==> SettledBy(norm, base)
  {
  }

  lemma MergeNothingTwice<T>(base: seq<T>, norm: T -> T, key: T -> string)
    ensures MergeNormal(MergeNormal(base, [], norm, key), [], norm, key) == MergeNormal(base, [], norm, key)
            <==> SettledBy(norm, base)
  {
    MergeNothing(base, norm, key);
    MergeNothing(Map(norm, base), norm, key);
    NormalTwiceIff(base, norm);
  }

  // ----- when two steps are one -----

  /** The entry of the base is replaced: it is the last of its key, and some override has the key. */
  ghost predicate IsReplaced<T>(base: seq<T>, overrides: seq<T>, key: T -> string, i: nat)
    requires i < |base|
  {
    LastWithKey(base, key(base[i]), key) == i && LastWithKey(overrides, key(base[i]), key) >= 0
  }

  /** Normalising a second time leaves alone what a merge keeps: unreplaced base entries and last overrides. */
  ghost predicate SurvivorsSettled<T>(base: seq<T>, overrides: seq<T>, norm: T -> T, key: T -> string) {
    var bases, others := Map(norm, base), Map(norm, overrides);
    && (forall i :: 0 <= i < |base| && !IsReplaced(bases, others, key, i) ==> norm(bases[i]) == bases[i])
    && (forall j :: 0 <= j < |overrides| && LastWithKey(others, key(others[j]), key) == j ==> norm(others[j]) == others[j])
  }

  lemma SurvivorsAreKept<T>(base: seq<T>, overrides: seq<T>, norm: T -> T, key: T -> string)
    requires Map(norm, MergeNormal(base, overrides, norm, key)) == MergeNormal(base, overrides, norm, key)
    ensures SurvivorsSettled(base, overrides, norm, key)
  {
    var bases, others := Map(norm, base), Map(norm, overrides);
    var merged := MergeAll(bases, others, key);
    assert forall p :: 0 <= p < |merged| ==> Map(norm, merged)[p] == norm(merged[p]);
    forall i | 0 <= i < |base| && !IsReplaced(bases, others, key, i)
      ensures norm(bases[i]) == bases[i]
    {
      BasePositions(bases, others, key, i);
      assert merged[i] == bases[i];
    }
    forall j | 0 <= j < |overrides| && LastWithKey(others, key(others[j]), key) == j
      ensures norm(others[j]) == others[j]
    {
      var p := LastOverrideIsPlaced(bases, others, key, j);
    }
  }

  lemma KeptAreSurvivors<T>(base: seq<T>, overrides: seq<T>, norm: T -> T, key: T -> string)
    requires SurvivorsSettled(base, overrides, norm, key)
    ensures Map(norm, MergeNormal(base, overrides, norm, key)) == MergeNormal(base, overrides, norm, key)
  {
    var bases, others := Map(norm, base), Map(norm, overrides);
    var merged := MergeAll(bases, others, key);
    forall p | 0 <= p < |merged|
      ensures norm(merged[p]) == merged[p]
    {
      if p < |base| {
        BasePositions(bases, others, key, p);
        LastIsItsOwnLast(others, key(bases[p]), key);
      } else {
        AppendedEntries(bases, others, key, p);
        LastIsItsOwnLast(others, key(merged[p]), key);
      }
    }
  }

  lemma LastIsItsOwnLast<T>(entries: seq<T>, k: string, key: T -> string)
    ensures var last := LastWithKey(entries, k, key);
      last >= 0 ==> LastWithKey(entries, key(entries[last]), key) == last
  {
  }

  lemma NormalMergesOn<T>(base: seq<T>, first: seq<T>, second: seq<T>, norm: T -> T, key: T -> string)
    requires Map(norm, MergeNormal(base, first, norm, key)) == MergeNormal(base, first, norm, key)
    ensures MergeNormal(MergeNormal(base, first, norm, key), second, norm, key) == MergeNormal(base, first + second, norm, key)
  {
    MergeAllInTwoSteps(Map(norm, base), Map(norm, first), Map(norm, second), key);
    MapConcat(norm, first, second);
  }

  /** Merging in two steps is merging in one, for all second overrides, iff the survivors of the first step are settled. */
  lemma TwoStepsIff<T(!new)>(base: seq<T>, first: seq<T>, norm: T -> T, key: T -> string)
    ensures (forall second :: MergeNormal(MergeNormal(base, first, norm, key), second, norm, key) ==
                              MergeNormal(base, first + second, norm, key))
            <==> SurvivorsSettled(base, first, norm, key)
  {
    var merged := MergeNormal(base, first, norm, key);
    if SurvivorsSettled(base, first, norm, key) {
      KeptAreSurvivors(base, first, norm, key);
      forall second
        ensures MergeNormal(merged, second, norm, key) == MergeNormal(base, first + second, norm, key)
      {
        NormalMergesOn(base, first, second, norm, key);
      }
    }
    if forall second :: MergeNormal(merged, second, norm, key) == MergeNormal(base, first + second, norm, key) {
      assert MergeNormal(merged, [], norm, key) == MergeNormal(base, first + [], norm, key);
      assert first + [] == first;
      MergeNothing(merged, norm, key);
      SurvivorsAreKept(base, first, norm, key);
    }
  }
}
