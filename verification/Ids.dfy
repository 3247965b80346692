/** Normalising the id lists that the MCP tools accept. */
module Ids {
  import opened Wrappers
  import opened GoStrings

  ghost predicate Distinct<T>(s: seq<T>) {
    forall i, j :: 0 <= i < j < |s| ==> s[i] != s[j]
  }

  /** What normalising leaves of a list whose earlier elements were `seen`; None when an id is blank. */
  function NormalizeAfter(ids: seq<string>, seen: set<string>): Option<seq<string>> {
    if ids == [] then Some([])
    else
      var id := TrimSpace(ids[0]);
      if id == "" then None
      else if id in seen then NormalizeAfter(ids[1..], seen)
      else
        match NormalizeAfter(ids[1..], seen + {id})
        case None => None
        case Some(rest) => Some([id] + rest)
  }

  function Normalize(ids: seq<string>): Option<seq<string>> {
    NormalizeAfter(ids, {})
  }

  method NormalizeMCPIDs(ids: seq<string>) returns (result: Option<seq<string>>)
    ensures result == Normalize(ids)
  {
    var unique: seq<string> := [];
    var seen: set<string> := {};
    assert ids[0..] == ids;
    for i := 0 to |ids|
      invariant NormalizeAfter(ids[i..], seen).None? ==> Normalize(ids).None?
      invariant NormalizeAfter(ids[i..], seen).Some? ==>
        Normalize(ids).Some? && Normalize(ids).value == unique + NormalizeAfter(ids[i..], seen).value
    {
      assert ids[i..][1..] == ids[i + 1..];
      var id := TrimSpace(ids[i]);
      if id == "" {
        return None;
      }
      if id in seen {
        continue;
      }
      seen := seen + {id};
      unique := unique + [id];
    }
    assert ids[|ids|..] == [] && unique + [] == unique;
    result := Some(unique);
  }

  lemma {:induction false} NormalizeAfterFacts(ids: seq<string>, seen: set<string>)
    ensures NormalizeAfter(ids, seen).None? <==> exists i :: 0 <= i < |ids| && TrimSpace(ids[i]) == ""
    ensures var r := NormalizeAfter(ids, seen);
      r.Some? ==>
        && Distinct(r.value)
        && (forall id :: id in r.value ==> id !in seen && id != "" && Trimmed(id))
        && (forall id :: id in r.value <==> id !in seen && exists i :: 0 <= i < |ids| && TrimSpace(ids[i]) == id)
  {
    if ids != [] {
      var id := TrimSpace(ids[0]);
      TrimSpaceIsTrimmed(ids[0]);
      assert forall i :: 1 <= i < |ids| ==> ids[i] == ids[1..][i - 1];
      if id != "" {
        NormalizeAfterFacts(ids[1..], if id in seen then seen else seen + {id});
        var r := NormalizeAfter(ids, seen);
        if r.Some? {
          forall x
            ensures x in r.value <==> x !in seen && exists i :: 0 <= i < |ids| && TrimSpace(ids[i]) == x
          {
            assert (exists i :: 0 <= i < |ids| && TrimSpace(ids[i]) == x)
              <==> (x == id || exists i :: 0 <= i < |ids[1..]| && TrimSpace(ids[1..][i]) == x);
          }
        }
      }
    }
  }

  /**
   Normalising fails exactly when some id is blank; otherwise it yields the trimmed ids, each once.
   */
  lemma NormalizeFacts(ids: seq<string>)
    ensures Normalize(ids).None? <==> exists i :: 0 <= i < |ids| && TrimSpace(ids[i]) == ""
    ensures Normalize(ids).Some? ==>
      && Distinct(Normalize(ids).value)
      && (forall id :: id in Normalize(ids).value ==> id != "" && Trimmed(id))
      && (forall id :: id in Normalize(ids).value <==> exists i :: 0 <= i < |ids| && TrimSpace(ids[i]) == id)
  {
    NormalizeAfterFacts(ids, {});
  }

  lemma {:induction false} NormalizeAfterKeeps(ids: seq<string>, seen: set<string>)
    requires Distinct(ids)
    requires forall i :: 0 <= i < |ids| ==> ids[i] != "" && Trimmed(ids[i]) && ids[i] !in seen
    ensures NormalizeAfter(ids, seen) == Some(ids)
  {
    if ids != [] {
      var tail := ids[1..];
      TrimSpaceFixedIff(ids[0]);
      assert forall i :: 0 <= i < |tail| ==> tail[i] == ids[i + 1];
      NormalizeAfterKeeps(tail, seen + {ids[0]});
      assert ids == [ids[0]] + tail;
    }
  }

  /** A list is its own normal form exactly when it is distinct and every id is trimmed and not empty. */
  lemma NormalFormIff(ids: seq<string>)
    ensures Normalize(ids) == Some(ids) <==> Distinct(ids) && forall id :: id in ids ==> id != "" && Trimmed(id)
  {
    if Normalize(ids) == Some(ids) {
      NormalizeFacts(ids);
    }
    if Distinct(ids) && forall id :: id in ids ==> id != "" && Trimmed(id) {
      assert forall i :: 0 <= i < |ids| ==> ids[i] in ids;
      NormalizeAfterKeeps(ids, {});
    }
  }

  lemma NormalizeIdempotent(ids: seq<string>)
    requires Normalize(ids).Some?
    ensures Normalize(Normalize(ids).value) == Normalize(ids)
  {
    NormalizeFacts(ids);
    NormalFormIff(Normalize(ids).value);
  }

  lemma {:induction false} NormalizeAfterPrefix(ids: seq<string>, more: seq<string>, seen: set<string>)
    requires NormalizeAfter(ids + more, seen).Some?
    ensures NormalizeAfter(ids, seen).Some? && NormalizeAfter(ids, seen).value <= NormalizeAfter(ids + more, seen).value
  {
    if ids != [] {
      var id := TrimSpace(ids[0]);
      assert (ids + more)[1..] == ids[1..] + more;
      NormalizeAfterPrefix(ids[1..], more, if id in seen then seen else seen + {id});
    }
  }

  /** Ids keep the order of their first occurrence: a longer list only appends to the result. */
  lemma NormalizePrefix(ids: seq<string>, more: seq<string>)
    requires Normalize(ids + more).Some?
    ensures Normalize(ids).Some? && Normalize(ids).value <= Normalize(ids + more).value
  {
    NormalizeAfterPrefix(ids, more, {});
  }

  ghost function Elements<T>(s: seq<T>): set<T> {
    set x | x in s
  }

  lemma DistinctTail<T>(s: seq<T>)
    requires s != []
    ensures Distinct(s) <==> s[0] !in s[1..] && Distinct(s[1..])
  {
  }

  lemma {:induction false} DistinctCardinality<T>(s: seq<T>)
    ensures |Elements(s)| <= |s|
    ensures Distinct(s) <==> |Elements(s)| == |s|
  {
    if s == [] {
      assert Elements(s) == {};
    } else {
      DistinctCardinality(s[1..]);
      DistinctTail(s);
      assert s == [s[0]] + s[1..];
      assert Elements(s) == {s[0]} + Elements(s[1..]);
    }
  }

  lemma SubsetOfSameSize<T>(a: set<T>, b: set<T>)
    requires a <= b && |a| >= |b|
    ensures a == b
  {
    if a != b {
      var x :| x in b && x !in a;
      assert a <= b - {x};
      SubsetSize(a, b - {x});
    }
  }

  lemma {:induction false} SubsetSize<T>(a: set<T>, b: set<T>)
    requires a <= b
    ensures |a| <= |b|
    decreases |a|
  {
    if a != {} {
      var x :| x in a;
      SubsetSize(a - {x}, b - {x});
    }
  }
}
