/** Turning the selectors of --accounts into account ids. */
module AccountPicker {
  import opened Wrappers
  import opened GoStrings
  import opened Ids
  import opened Sequences

  datatype SocialAccount = SocialAccount(
    id: string,
    slug: string,
    platform: string,
    username: string,
    instanceUrl: string,
    isActive: bool)

  // The match classes, best first; 0 is no match.
  const NO_MATCH := 0
  const ID_MATCH := 1
  const SLUG_MATCH := 2
  const PLATFORM_USERNAME_MATCH := 3
  const BARE_PLATFORM_MATCH := 4
  const MASTODON_HOST_MATCH := 5

  function HostOf(url: string): string {
    var u := TrimPrefix(TrimPrefix(url, "https://"), "http://");
    var i := IndexOf(u, '/');
    if i > 0 then u[..i] else u
  }

  /** "platform:handle" or "platform:@handle", for the account's platform and, up to case, its username. */
  predicate MatchesHandle(a: SocialAccount, selector: string) {
    var i := IndexOf(selector, ':');
    i > 0 && a.platform == selector[..i] && ToLower(a.username) == ToLower(TrimPrefix(selector[i + 1..], "@"))
  }

  function AccountMatches(a: SocialAccount, selector: string): (kind: nat)
    ensures kind <= MASTODON_HOST_MATCH
  {
    if a.id == selector then ID_MATCH
    else if a.slug != "" && a.slug == selector then SLUG_MATCH
    else if MatchesHandle(a, selector) then PLATFORM_USERNAME_MATCH
    else if a.platform == selector then BARE_PLATFORM_MATCH
    else if HasPrefix(selector, "mastodon:") && a.platform == "mastodon" && HostOf(a.instanceUrl) == TrimPrefix(selector, "mastodon:")
    then MASTODON_HOST_MATCH
    else NO_MATCH
  }

  datatype Resolution = Picked(id: string) | NoAccount | Ambiguous(candidates: seq<SocialAccount>)

  /** The accounts of the class in a list of one. */
  function OneInClass(a: SocialAccount, selector: string, kind: nat): seq<SocialAccount> {
    if a.isActive && AccountMatches(a, selector) == kind then [a] else []
  }

  /** The active accounts in one match class, in account order. */
  function InClass(accounts: seq<SocialAccount>, selector: string, kind: nat): seq<SocialAccount> {
    if accounts == [] then []
    else
      OneInClass(accounts[0], selector, kind) + InClass(accounts[1..], selector, kind)
  }

  /** Which classes, 0 to 5, have an account. */
  function ClassesHeld(accounts: seq<SocialAccount>, selector: string): (held: seq<bool>)
    ensures |held| == MASTODON_HOST_MATCH + 1
    ensures forall kind :: 0 <= kind <= MASTODON_HOST_MATCH ==> (held[kind] <==> InClass(accounts, selector, kind) != [])
  {
    seq(MASTODON_HOST_MATCH + 1, kind requires kind >= 0 => InClass(accounts, selector, kind) != [])
  }

  /** The lowest class from `kind` on that is held; NO_MATCH when there is none. */
  function Lowest(held: seq<bool>, kind: nat): nat
    decreases |held| - kind
  {
    if kind >= |held| then NO_MATCH else if held[kind] then kind else Lowest(held, kind + 1)
  }

  function LowestClass(accounts: seq<SocialAccount>, selector: string): nat {
    Lowest(ClassesHeld(accounts, selector), ID_MATCH)
  }

  function Pick(matches: seq<SocialAccount>): Resolution {
    if |matches| == 0 then NoAccount
    else if |matches| == 1 then Picked(matches[0].id)
    else Ambiguous(matches)
  }

  function ResolveSelector(selector: string, accounts: seq<SocialAccount>): Resolution {
    var best := LowestClass(accounts, selector);
    if best == NO_MATCH then NoAccount else Pick(InClass(accounts, selector, best))
  }

  lemma {:induction false} InClassAppend(accounts: seq<SocialAccount>, a: SocialAccount, selector: string, kind: nat)
    ensures InClass(accounts + [a], selector, kind) == InClass(accounts, selector, kind) + OneInClass(a, selector, kind)
  {
    if accounts == [] {
      assert accounts + [a] == [a] && [a][1..] == [];
    } else {
      InClassAppend(accounts[1..], a, selector, kind);
      ConsConcat(accounts, [a]);
      Assoc(OneInClass(accounts[0], selector, kind), InClass(accounts[1..], selector, kind), OneInClass(a, selector, kind));
    }
  }

  /** `best` is the lowest class with an account, and 0 when there is none. */
  ghost predicate IsLowest(accounts: seq<SocialAccount>, selector: string, best: nat) {
    && best <= MASTODON_HOST_MATCH
    && (best != NO_MATCH ==> InClass(accounts, selector, best) != [])
    && (forall kind :: 1 <= kind <= MASTODON_HOST_MATCH && (best == NO_MATCH || kind < best) ==> InClass(accounts, selector, kind) == [])
  }

  lemma {:induction false} LowestIs(held: seq<bool>, from: nat, best: nat)
    requires 1 <= from && (best == NO_MATCH || (from <= best < |held| && held[best]))
    requires forall kind :: from <= kind < |held| && (best == NO_MATCH || kind < best) ==> !held[kind]
    ensures Lowest(held, from) == best
    decreases |held| - from
  {
    if from < |held| && from != best {
      LowestIs(held, from + 1, best);
    }
  }

  lemma {:induction false} LowestIsHeld(held: seq<bool>, from: nat)
    requires 1 <= from
    ensures var best := Lowest(held, from);
      && (best == NO_MATCH || (from <= best < |held| && held[best]))
      && (forall kind :: from <= kind < |held| && (best == NO_MATCH || kind < best) ==> !held[kind])
    decreases |held| - from
  {
    if from < |held| && !held[from] {
      LowestIsHeld(held, from + 1);
    }
  }

  lemma LowestClassIs(accounts: seq<SocialAccount>, selector: string, best: nat)
    requires IsLowest(accounts, selector, best)
    ensures LowestClass(accounts, selector) == best
  {
    var held := ClassesHeld(accounts, selector);
    LowestIs(held, ID_MATCH, best);
  }

  lemma LowestClassIsLowest(accounts: seq<SocialAccount>, selector: string)
    ensures IsLowest(accounts, selector, LowestClass(accounts, selector))
  {
    var held := ClassesHeld(accounts, selector);
    LowestIsHeld(held, ID_MATCH);
    assert forall kind :: 0 <= kind <= MASTODON_HOST_MATCH ==> (held[kind] <==> InClass(accounts, selector, kind) != []);
  }

  method ResolveOne(selector: string, accounts: seq<SocialAccount>) returns (resolution: Resolution)
    ensures resolution == ResolveSelector(selector, accounts)
  {
    var matches: seq<SocialAccount> := [];
    var best := NO_MATCH;
    for i := 0 to |accounts|
      invariant 0 <= best
      invariant IsLowest(accounts[..i], selector, best)
      invariant matches == if best == NO_MATCH then [] else InClass(accounts[..i], selector, best)
    {
      var a := accounts[i];
      ghost var before := best;
      NextAccount(accounts[..i], a, selector, best);
      assert accounts[..i + 1] == accounts[..i] + [a];
      if !a.isActive {
        continue;
      }
      var kind := AccountMatches(a, selector);
      if kind == NO_MATCH {
        continue;
      }
      if best == NO_MATCH || kind < best {
        best := kind;
        matches := [];
      }
      if kind == best {
        matches := matches + [a];
      }
    }
    assert accounts[..|accounts|] == accounts;
    LowestClassIs(accounts, selector, best);
    if |matches| == 0 {
      resolution := NoAccount;
    } else if |matches| == 1 {
      resolution := Picked(matches[0].id);
    } else {
      resolution := Ambiguous(matches);
    }
  }

  /** One more account either belongs to a better class, which it then has to itself, or joins its class. */
  lemma NextAccount(accounts: seq<SocialAccount>, a: SocialAccount, selector: string, best: nat)
    requires IsLowest(accounts, selector, best)
    ensures var kind := AccountMatches(a, selector);
      var next := if a.isActive && kind != NO_MATCH && (best == NO_MATCH || kind < best) then kind else best;
      && IsLowest(accounts + [a], selector, next)
      && (next != NO_MATCH ==>
            InClass(accounts + [a], selector, next) ==
              (if next == best then InClass(accounts, selector, best) else []) + (if a.isActive && kind == next then [a] else []))
  {
    forall k
      ensures InClass(accounts + [a], selector, k) == InClass(accounts, selector, k) + OneInClass(a, selector, k)
    {
      InClassAppend(accounts, a, selector, k);
    }
  }

  /** The class holds one account, this one, and no better class holds any. */
  ghost predicate DecidedBy(accounts: seq<SocialAccount>, selector: string, id: string, kind: nat) {
    && 1 <= kind <= MASTODON_HOST_MATCH
    && |InClass(accounts, selector, kind)| == 1 && InClass(accounts, selector, kind)[0].id == id
    && forall k: nat :: 1 <= k < kind ==> InClass(accounts, selector, k) == []
  }

  /** A selector is resolved exactly when its lowest non-empty match class holds one active account, and then to its id. */
  lemma PickedIff(selector: string, accounts: seq<SocialAccount>, id: string)
    ensures ResolveSelector(selector, accounts) == Picked(id) <==> exists kind: nat :: DecidedBy(accounts, selector, id, kind)
  {
    LowestClassIsLowest(accounts, selector);
    var best := LowestClass(accounts, selector);
    if ResolveSelector(selector, accounts) == Picked(id) {
      assert DecidedBy(accounts, selector, id, best);
    }
    if kind: nat :| DecidedBy(accounts, selector, id, kind) {
      LowestClassIs(accounts, selector, kind);
    }
  }

  // ----- the order of the accounts -----

  lemma {:induction false} InClassCounts(accounts: seq<SocialAccount>, selector: string, kind: nat, a: SocialAccount)
    ensures multiset(InClass(accounts, selector, kind))[a] ==
            if a.isActive && AccountMatches(a, selector) == kind then multiset(accounts)[a] else 0
  {
    if accounts != [] {
      InClassCounts(accounts[1..], selector, kind, a);
      assert accounts == [accounts[0]] + accounts[1..];
      assert multiset(accounts) == multiset{accounts[0]} + multiset(accounts[1..]);
    }
  }

  lemma SameMultiset<T>(here: seq<T>, there: seq<T>)
    requires multiset(here) == multiset(there)
    ensures |here| == |there|
    ensures |here| == 1 ==> here == there
  {
    assert |multiset(here)| == |here| && |multiset(there)| == |there|;
    if |here| == 1 {
      assert here[0] in multiset(here);
      assert here[0] in multiset(there);
    }
  }

  lemma InClassOfPermutation(accounts: seq<SocialAccount>, others: seq<SocialAccount>, selector: string, kind: nat)
    requires multiset(accounts) == multiset(others)
    ensures |InClass(accounts, selector, kind)| == |InClass(others, selector, kind)|
    ensures |InClass(accounts, selector, kind)| == 1 ==> InClass(accounts, selector, kind) == InClass(others, selector, kind)
  {
    var here, there := InClass(accounts, selector, kind), InClass(others, selector, kind);
    forall a
      ensures multiset(here)[a] == multiset(there)[a]
    {
      InClassCounts(accounts, selector, kind, a);
      InClassCounts(others, selector, kind, a);
    }
    SameMultiset(here, there);
  }

  /** Whether a selector is resolved, and to which id, does not depend on the order of the accounts. */
  lemma ResolveSelectorOrder(selector: string, accounts: seq<SocialAccount>, others: seq<SocialAccount>)
    requires multiset(accounts) == multiset(others)
    ensures ResolveSelector(selector, accounts).Ambiguous? <==> ResolveSelector(selector, others).Ambiguous?
    ensures !ResolveSelector(selector, accounts).Ambiguous? ==> ResolveSelector(selector, accounts) == ResolveSelector(selector, others)
  {
    LowestClassIsLowest(accounts, selector);
    var best := LowestClass(accounts, selector);
    forall kind: nat
      ensures |InClass(accounts, selector, kind)| == |InClass(others, selector, kind)|
    {
      InClassOfPermutation(accounts, others, selector, kind);
    }
    LowestClassIs(others, selector, best);
    InClassOfPermutation(accounts, others, selector, best);
  }

  // ----- lists of selectors -----

  /** `out` in front of what the rest gives. */
  function Joined(out: seq<string>, rest: Option<seq<string>>): Option<seq<string>> {
    match rest
    case None => None
    case Some(ids) => Some(out + ids)
  }

  lemma JoinedToNothing(rest: Option<seq<string>>)
    ensures Joined([], rest) == rest
  {
    if rest.Some? {
      assert [] + rest.value == rest.value;
    }
  }

  lemma JoinedTwice(out: seq<string>, id: string, rest: Option<seq<string>>)
    ensures Joined(out, Joined([id], rest)) == Joined(out + [id], rest)
  {
    if rest.Some? {
      assert out + ([id] + rest.value) == out + [id] + rest.value;
    }
  }

  /** The ids of a list of selectors whose predecessors gave `seen`; None when one is not resolved. */
  function ResolveAfter(selectors: seq<string>, accounts: seq<SocialAccount>, seen: set<string>): Option<seq<string>> {
    if selectors == [] then Some([])
    else
      var s := TrimSpace(selectors[0]);
      if s == "" then ResolveAfter(selectors[1..], accounts, seen)
      else
        match ResolveSelector(s, accounts)
        case Picked(id) =>
          if id in seen then ResolveAfter(selectors[1..], accounts, seen)
          else Joined([id], ResolveAfter(selectors[1..], accounts, seen + {id}))
        case _ => None
  }

  function ResolveAll(selectors: seq<string>, accounts: seq<SocialAccount>): Option<seq<string>> {
    ResolveAfter(selectors, accounts, {})
  }

  /** What selector i contributes: nothing, an id, or failure. */
  lemma ResolveAfterStep(selectors: seq<string>, accounts: seq<SocialAccount>, seen: set<string>, i: nat)
    requires i < |selectors|
    ensures var s, rest := TrimSpace(selectors[i]), selectors[i + 1..];
      var resolution := ResolveSelector(s, accounts);
      ResolveAfter(selectors[i..], accounts, seen) ==
        if s == "" then ResolveAfter(rest, accounts, seen)
        else if !resolution.Picked? then None
        else if resolution.id in seen then ResolveAfter(rest, accounts, seen)
        else Joined([resolution.id], ResolveAfter(rest, accounts, seen + {resolution.id}))
  {
    assert selectors[i..][1..] == selectors[i + 1..];
  }

  method Resolve(selectors: seq<string>, accounts: seq<SocialAccount>) returns (ids: Option<seq<string>>)
    ensures ids == ResolveAll(selectors, accounts)
  {
    if |selectors| == 0 {
      return Some([]);
    }
    var out: seq<string> := [];
    var seen: set<string> := {};
    assert selectors[0..] == selectors;
    JoinedToNothing(ResolveAll(selectors, accounts));
    for i := 0 to |selectors|
      invariant ResolveAll(selectors, accounts) == Joined(out, ResolveAfter(selectors[i..], accounts, seen))
    {
      ResolveAfterStep(selectors, accounts, seen, i);
      var s := TrimSpace(selectors[i]);
      if s == "" {
        continue;
      }
      var resolution := ResolveOne(s, accounts);
      if !resolution.Picked? {
        return None;
      }
      if resolution.id in seen {
        continue;
      }
      JoinedTwice(out, resolution.id, ResolveAfter(selectors[i + 1..], accounts, seen + {resolution.id}));
      seen := seen + {resolution.id};
      out := out + [resolution.id];
    }
    assert selectors[|selectors|..] == [] && out + [] == out;
    ids := Some(out);
  }

  /** The id that one selector of the list stands for. */
  ghost predicate Selects(selector: string, accounts: seq<SocialAccount>, id: string) {
    TrimSpace(selector) != "" && ResolveSelector(TrimSpace(selector), accounts) == Picked(id)
  }

  ghost predicate SomeSelects(selectors: seq<string>, accounts: seq<SocialAccount>, id: string) {
    exists i :: 0 <= i < |selectors| && Selects(selectors[i], accounts, id)
  }

  lemma SomeSelectsTail(selectors: seq<string>, accounts: seq<SocialAccount>, id: string)
    requires selectors != []
    ensures SomeSelects(selectors, accounts, id) <==>
            Selects(selectors[0], accounts, id) || SomeSelects(selectors[1..], accounts, id)
  {
  }

  ghost predicate AllResolved(selectors: seq<string>, accounts: seq<SocialAccount>) {
    forall i :: 0 <= i < |selectors| && TrimSpace(selectors[i]) != "" ==> ResolveSelector(TrimSpace(selectors[i]), accounts).Picked?
  }

  lemma AllResolvedTail(selectors: seq<string>, accounts: seq<SocialAccount>)
    requires selectors != []
    ensures AllResolved(selectors, accounts) <==>
            AllResolved(selectors[1..], accounts) &&
            (TrimSpace(selectors[0]) == "" || ResolveSelector(TrimSpace(selectors[0]), accounts).Picked?)
  {
    assert forall i :: 1 <= i < |selectors| ==> selectors[i] == selectors[1..][i - 1];
  }

  lemma {:induction false} ResolveAfterSucceedsIff(selectors: seq<string>, accounts: seq<SocialAccount>, seen: set<string>)
    ensures ResolveAfter(selectors, accounts, seen).Some? <==> AllResolved(selectors, accounts)
  {
    if selectors != [] {
      var s, rest := TrimSpace(selectors[0]), selectors[1..];
      AllResolvedTail(selectors, accounts);
      var resolution := ResolveSelector(s, accounts);
      ResolveAfterSucceedsIff(rest, accounts, seen);
      if s != "" && resolution.Picked? {
        ResolveAfterSucceedsIff(rest, accounts, seen + {resolution.id});
      }
    }
  }

  /** What a list of ids has to be for a list of selectors whose predecessors gave `seen`. */
  ghost predicate IsResolved(ids: seq<string>, selectors: seq<string>, accounts: seq<SocialAccount>, seen: set<string>) {
    && Distinct(ids)
    && forall id :: id in ids <==> id !in seen && SomeSelects(selectors, accounts, id)
  }

  lemma IsResolvedNext(ids: seq<string>, selectors: seq<string>, accounts: seq<SocialAccount>, seen: set<string>, id: string)
    requires selectors != [] && forall k :: Selects(selectors[0], accounts, k) <==> k == id
    requires id !in seen && IsResolved(ids, selectors[1..], accounts, seen + {id})
    ensures IsResolved([id] + ids, selectors, accounts, seen)
  {
    forall k
      ensures k in [id] + ids <==> k !in seen && SomeSelects(selectors, accounts, k)
    {
      SomeSelectsTail(selectors, accounts, k);
    }
    assert ([id] + ids)[1..] == ids;
    DistinctTail([id] + ids);
  }

  lemma IsResolvedSkip(ids: seq<string>, selectors: seq<string>, accounts: seq<SocialAccount>, seen: set<string>)
    requires selectors != [] && forall k :: Selects(selectors[0], accounts, k) ==> k in seen
    requires IsResolved(ids, selectors[1..], accounts, seen)
    ensures IsResolved(ids, selectors, accounts, seen)
  {
    forall k
      ensures k in ids <==> k !in seen && SomeSelects(selectors, accounts, k)
    {
      SomeSelectsTail(selectors, accounts, k);
    }
  }

  lemma {:induction false} ResolveAfterIs(selectors: seq<string>, accounts: seq<SocialAccount>, seen: set<string>)
    requires ResolveAfter(selectors, accounts, seen).Some?
    ensures IsResolved(ResolveAfter(selectors, accounts, seen).value, selectors, accounts, seen)
  {
    if selectors != [] {
      var s, rest := TrimSpace(selectors[0]), selectors[1..];
      var resolution := ResolveSelector(s, accounts);
      if s == "" || resolution.id in seen {
        ResolveAfterIs(rest, accounts, seen);
        IsResolvedSkip(ResolveAfter(rest, accounts, seen).value, selectors, accounts, seen);
      } else {
        ResolveAfterIs(rest, accounts, seen + {resolution.id});
        IsResolvedNext(ResolveAfter(rest, accounts, seen + {resolution.id}).value, selectors, accounts, seen, resolution.id);
      }
    }
  }

  /**
   Resolving a list succeeds exactly when every selector that is not blank is resolved; the result holds
   each of their ids once and nothing else.
   */
  lemma ResolveFacts(selectors: seq<string>, accounts: seq<SocialAccount>)
    ensures ResolveAll(selectors, accounts).Some? <==> AllResolved(selectors, accounts)
    ensures ResolveAll(selectors, accounts).Some? ==>
      && Distinct(ResolveAll(selectors, accounts).value)
      && (forall id :: id in ResolveAll(selectors, accounts).value <==> SomeSelects(selectors, accounts, id))
  {
    ResolveAfterSucceedsIff(selectors, accounts, {});
    if ResolveAll(selectors, accounts).Some? {
      ResolveAfterIs(selectors, accounts, {});
    }
  }

  lemma {:induction false} ResolveAfterPrefix(selectors: seq<string>, more: seq<string>, accounts: seq<SocialAccount>, seen: set<string>)
    requires ResolveAfter(selectors + more, accounts, seen).Some?
    ensures ResolveAfter(selectors, accounts, seen).Some?
    ensures ResolveAfter(selectors, accounts, seen).value <= ResolveAfter(selectors + more, accounts, seen).value
  {
    if selectors != [] {
      assert (selectors + more)[1..] == selectors[1..] + more;
      var s := TrimSpace(selectors[0]);
      var resolution := ResolveSelector(s, accounts);
      ResolveAfterPrefix(selectors[1..], more, accounts,
                         if s == "" || resolution.id in seen then seen else seen + {resolution.id});
    }
  }

  /** Ids come in the order in which their first selector does: more selectors only append. */
  lemma ResolvePrefix(selectors: seq<string>, more: seq<string>, accounts: seq<SocialAccount>)
    requires ResolveAll(selectors + more, accounts).Some?
    ensures ResolveAll(selectors, accounts).Some?
    ensures ResolveAll(selectors, accounts).value <= ResolveAll(selectors + more, accounts).value
  {
    ResolveAfterPrefix(selectors, more, accounts, {});
  }

  lemma {:induction false} ResolveAfterOrder(selectors: seq<string>, accounts: seq<SocialAccount>, others: seq<SocialAccount>, seen: set<string>)
    requires multiset(accounts) == multiset(others)
    ensures ResolveAfter(selectors, accounts, seen) == ResolveAfter(selectors, others, seen)
  {
    if selectors != [] {
      var s := TrimSpace(selectors[0]);
      ResolveSelectorOrder(s, accounts, others);
      var resolution := ResolveSelector(s, accounts);
      ResolveAfterOrder(selectors[1..], accounts, others,
                        if s != "" && resolution.Picked? then seen + {resolution.id} else seen);
      ResolveAfterOrder(selectors[1..], accounts, others, seen);
    }
  }

  /** Success and result do not depend on the order in which the accounts are listed. */
  lemma ResolveOrder(selectors: seq<string>, accounts: seq<SocialAccount>, others: seq<SocialAccount>)
    requires multiset(accounts) == multiset(others)
    ensures ResolveAll(selectors, accounts) == ResolveAll(selectors, others)
  {
    ResolveAfterOrder(selectors, accounts, others, {});
  }
}
