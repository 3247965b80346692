/** Variants and the destination rows they belong to, over every run of the handlers. */
module Destinations {
  import opened Wrappers
  import opened GoStrings
  import opened Ids
  import opened Sequences
  import JobQueue
  import opened Tables
  import opened RowFacts
  import opened References

  // ----- one variant per account -----

  lemma {:induction false} UpsertAllKeys(rows: seq<Variant>, post: Id, renditions: seq<Rendition>)
    requires forall r :: r in renditions ==> Normalize(r.media).Some?
    requires Distinct(Keys(rows))
    ensures Distinct(Keys(UpsertAll(rows, post, renditions)))
  {
    if renditions != [] {
      var n := |renditions| - 1;
      var r := renditions[n];
      UpsertAllKeys(rows, post, renditions[..n]);
      UpsertKeys(UpsertAll(rows, post, renditions[..n]), post, TrimSpace(r.account), r.content, Normalize(r.media).value);
    }
  }

  lemma StripKeys(db: Db, rows: seq<Variant>, workspace: Id, id: Id)
    ensures Keys(StripMedia(db, rows, workspace, id)) == Keys(rows)
  {
  }

  lemma {:induction false} BatchKeys(db: Db, request: Request, ids: seq<Id>)
    ensures Keys(BatchDelete(db, request, ids).variants) == Keys(db.variants)
    ensures BatchDelete(db, request, ids).destinations == db.destinations
    ensures BatchDelete(db, request, ids).posts == db.posts
  {
    if ids != [] {
      var before, id := BatchDelete(db, request, ids[..|ids| - 1]), ids[|ids| - 1];
      BatchKeys(db, request, ids[..|ids| - 1]);
      if CanDelete(before, request, id) {
        StripKeys(before, before.variants, before.media[id].workspace, id);
      }
    }
  }

  lemma OneVariantMedia(db: Db, op: Op)
    requires op.DeleteMediaOp? || op.BatchDeleteOp?
    ensures Keys(Exec(db, op).variants) == Keys(db.variants)
    ensures Exec(db, op).destinations == db.destinations && Exec(db, op).posts == db.posts
  {
    if op.DeleteMediaOp? {
      if op.id in db.media {
        StripKeys(db, db.variants, db.media[op.id].workspace, op.id);
      }
    } else {
      BatchKeys(db, op.request, op.ids);
    }
  }

  /** What the transaction of the two draft tools does to destinations and variants. */
  ghost predicate DraftRowsOk(db: Db, after: Db, post: Id, accounts: Option<seq<string>>) {
    && post in db.posts && after.posts.Keys == db.posts.Keys
    && if accounts.Some? then
         && Normalize(accounts.value).Some?
         && after.destinations == ReplaceDestinations(db.destinations, post, Normalize(accounts.value).value)
         && after.variants == PruneVariants(db.variants, post, Normalize(accounts.value).value)
       else after.destinations == db.destinations && after.variants == db.variants
  }

  lemma UpdateDraftRows(db: Db, post: Id, workspace: Id, content: Option<string>, accounts: Option<seq<string>>, media: Option<seq<string>>)
    requires UpdateDraft(db, post, workspace, content, accounts, media).Some?
    ensures DraftRowsOk(db, UpdateDraft(db, post, workspace, content, accounts, media).value, post, accounts)
  {
  }

  lemma ScheduleDraftRows(db: Db, post: Id, workspace: Id, accounts: Option<seq<string>>, media: Option<seq<string>>)
    requires ScheduleDraft(db, post, workspace, accounts, media).Some?
    ensures DraftRowsOk(db, ScheduleDraft(db, post, workspace, accounts, media).value, post, accounts)
  {
  }

  lemma DraftRows(db: Db, op: Op)
    requires op.UpdateDraftOp? || op.ScheduleDraftOp?
    ensures Exec(db, op) == db || DraftRowsOk(db, Exec(db, op), op.post, op.newAccounts)
  {
    if op.UpdateDraftOp? {
      if UpdateDraft(db, op.post, op.workspace, op.text, op.newAccounts, op.newMedia).Some? {
        UpdateDraftRows(db, op.post, op.workspace, op.text, op.newAccounts, op.newMedia);
      }
    } else {
      if ScheduleDraft(db, op.post, op.workspace, op.newAccounts, op.newMedia).Some? {
        ScheduleDraftRows(db, op.post, op.workspace, op.newAccounts, op.newMedia);
      }
    }
  }

  lemma OneVariantDrafts(db: Db, op: Op)
    requires Distinct(Keys(db.variants))
    requires op.UpdateDraftOp? || op.ScheduleDraftOp?
    ensures Distinct(Keys(Exec(db, op).variants))
  {
    if Exec(db, op) != db {
      DraftRows(db, op);
      if op.newAccounts.Some? {
        PruneFacts(db.variants, op.post, Normalize(op.newAccounts.value).value);
      }
    }
  }

  lemma OneVariantStep(db: Db, op: Op)
    requires Distinct(Keys(db.variants))
    ensures Distinct(Keys(Exec(db, op).variants))
  {
    if op.UpdateDraftOp? || op.ScheduleDraftOp? {
      OneVariantDrafts(db, op);
    } else if op.DeleteMediaOp? || op.BatchDeleteOp? {
      OneVariantMedia(db, op);
    } else if op.SetPostRenditionsOp? {
      if SetPostRenditions(db, op.post, op.workspace, op.renditions).Some? {
        UpsertAllKeys(db.variants, op.post, op.renditions);
      }
    } else {
      assert Exec(db, op).variants == db.variants;
    }
  }

  /** After any run, a post has at most one variant per account. */
  lemma {:induction false} OneVariantPerAccount(ops: seq<Op>)
    ensures forall i, j :: 0 <= i < j < |Run(ops).variants| ==>
      (Run(ops).variants[i].post, Run(ops).variants[i].account) != (Run(ops).variants[j].post, Run(ops).variants[j].account)
    ensures Distinct(Keys(Run(ops).variants))
  {
    if ops != [] {
      OneVariantPerAccount(ops[..|ops| - 1]);
      OneVariantStep(Run(ops[..|ops| - 1]), ops[|ops| - 1]);
    }
    var keys := Keys(Run(ops).variants);
    assert forall i :: 0 <= i < |keys| ==> keys[i] == (Run(ops).variants[i].post, Run(ops).variants[i].account);
  }

  // ----- the destination check -----

  function CountIn(list: seq<Id>, wanted: seq<Id>): nat {
    if list == [] then 0 else CountIn(list[1..], wanted) + if list[0] in wanted then 1 else 0
  }

  lemma {:induction false} CountRowsIsCountIn(rows: seq<Destination>, post: Id, wanted: seq<Id>)
    ensures CountRows(rows, post, wanted) == CountIn(DestinationAccounts(rows, post), wanted)
  {
    if rows != [] {
      CountRowsIsCountIn(rows[1..], post, wanted);
      if rows[0].post == post {
        assert DestinationAccounts(rows, post)[1..] == DestinationAccounts(rows[1..], post);
      } else {
        assert DestinationAccounts(rows, post) == DestinationAccounts(rows[1..], post);
      }
    }
  }

  /** The wanted accounts that are in the list. */
  ghost function Hits(list: seq<Id>, wanted: seq<Id>): set<Id> {
    set a | a in wanted && a in list
  }

  lemma HitsCons(head: Id, tail: seq<Id>, wanted: seq<Id>)
    requires head !in tail || head !in wanted
    ensures |Hits([head] + tail, wanted)| == |Hits(tail, wanted)| + if head in wanted then 1 else 0
  {
    assert Hits([head] + tail, wanted) == if head in wanted then Hits(tail, wanted) + {head} else Hits(tail, wanted);
  }

  lemma {:induction false} CountInOnce(list: seq<Id>, wanted: seq<Id>)
    requires forall i, j :: 0 <= i < j < |list| && list[i] == list[j] ==> list[i] !in wanted
    ensures CountIn(list, wanted) == |Hits(list, wanted)|
  {
    if list == [] {
      assert Hits(list, wanted) == {};
    } else {
      var tail := list[1..];
      assert list == [list[0]] + tail;
      assert forall i :: 0 <= i < |tail| ==> tail[i] == list[i + 1];
      CountInOnce(tail, wanted);
      HitsCons(list[0], tail, wanted);
    }
  }

  lemma {:induction false} CountInSingle(list: seq<Id>, a: Id)
    ensures CountIn(list, [a]) == multiset(list)[a]
  {
    if list != [] {
      CountInSingle(list[1..], a);
      assert list == [list[0]] + list[1..];
      assert multiset(list) == multiset{list[0]} + multiset(list[1..]);
    }
  }

  /** What normalising can leave in a list of ids. */
  predicate IsNormalId(a: Id) {
    a != "" && Trimmed(a)
  }

  /** No normal id is listed twice. */
  ghost predicate NoRepeats(list: seq<Id>) {
    forall i, j :: 0 <= i < j < |list| && list[i] == list[j] ==> !IsNormalId(list[i])
  }

  /**
   The handler compares the number of destination rows with the number of requested accounts. That says
   "all requested accounts are destinations" for every request exactly when no account has two rows.
   */
  lemma DestinationCheckExactIff(db: Db, post: Id)
    ensures (forall ids: seq<string> :: Normalize(ids).Some? ==>
               (DestinationsOk(db, post, ids) <==>
                  forall a :: a in Normalize(ids).value ==> a in DestinationAccounts(db.destinations, post)))
            <==> NoRepeats(DestinationAccounts(db.destinations, post))
  {
    var list := DestinationAccounts(db.destinations, post);
    if NoRepeats(list) {
      forall ids: seq<string> | Normalize(ids).Some?
        ensures DestinationsOk(db, post, ids) <==> forall a :: a in Normalize(ids).value ==> a in list
      {
        NormalizeFacts(ids);
        DestinationCheckSound(db.destinations, post, Normalize(ids).value);
      }
    } else {
      var i, j :| 0 <= i < j < |list| && list[i] == list[j] && IsNormalId(list[i]);
      NormalFormIff([list[i]]);
      RepeatIsCounted(db.destinations, post, i, j);
      assert !DestinationsOk(db, post, [list[i]]);
    }
  }

  /** Asked for alone, an account with two rows counts twice. */
  lemma RepeatIsCounted(rows: seq<Destination>, post: Id, i: nat, j: nat)
    requires i < j < |DestinationAccounts(rows, post)|
    requires DestinationAccounts(rows, post)[i] == DestinationAccounts(rows, post)[j]
    ensures CountRows(rows, post, [DestinationAccounts(rows, post)[i]]) >= 2
  {
    var list := DestinationAccounts(rows, post);
    CountRowsIsCountIn(rows, post, [list[i]]);
    CountInSingle(list, list[i]);
    TwiceInMultiset(list, i, j);
  }

  lemma TwiceInMultiset(list: seq<Id>, i: nat, j: nat)
    requires i < j < |list| && list[i] == list[j]
    ensures multiset(list)[list[i]] >= 2
  {
    assert list == list[..j] + [list[j]] + list[j + 1..];
    assert list[..j][i] == list[i];
    assert multiset(list) == multiset(list[..j]) + multiset{list[j]} + multiset(list[j + 1..]);
  }

  lemma DestinationCheckSound(rows: seq<Destination>, post: Id, wanted: seq<Id>)
    requires NoRepeats(DestinationAccounts(rows, post))
    requires Distinct(wanted) && forall a :: a in wanted ==> IsNormalId(a)
    ensures CountRows(rows, post, wanted) == |wanted| <==> forall a :: a in wanted ==> a in DestinationAccounts(rows, post)
  {
    var list := DestinationAccounts(rows, post);
    var hits := Hits(list, wanted);
    CountRowsIsCountIn(rows, post, wanted);
    CountInOnce(list, wanted);
    DistinctCardinality(wanted);
    if forall a :: a in wanted ==> a in list {
      assert hits == Elements(wanted);
    }
    if CountRows(rows, post, wanted) == |wanted| {
      SubsetOfSameSize(hits, Elements(wanted));
      assert forall a :: a in wanted ==> a in Elements(wanted);
    }
  }

  // ----- every variant has its destination -----

  lemma {:induction false} AccountsOfConcat(rows: seq<Destination>, more: seq<Destination>, post: Id)
    ensures DestinationAccounts(rows + more, post) == DestinationAccounts(rows, post) + DestinationAccounts(more, post)
  {
    if rows == [] {
      assert rows + more == more;
    } else {
      AccountsOfConcat(rows[1..], more, post);
      ConsConcat(rows, more);
      Assoc(OneAccount(rows[0], post), DestinationAccounts(rows[1..], post), DestinationAccounts(more, post));
    }
  }

  lemma {:induction false} AccountsOfRows(p: Id, accounts: seq<Id>, post: Id)
    ensures DestinationAccounts(DestinationRows(p, accounts), post) == if p == post then accounts else []
  {
    if accounts != [] {
      AccountsOfRows(p, accounts[1..], post);
      assert DestinationRows(p, accounts)[1..] == DestinationRows(p, accounts[1..]);
    }
  }

  lemma AccountsOfOne(row: Destination, post: Id)
    ensures DestinationAccounts([row], post) == OneAccount(row, post)
  {
    assert [row][1..] == [];
  }

  lemma {:induction false} AccountsOfOthers(rows: seq<Destination>, p: Id, post: Id)
    ensures DestinationAccounts(OtherDestinations(rows, p), post) == if p == post then [] else DestinationAccounts(rows, post)
  {
    if rows != [] {
      var kept := if rows[0].post == p then [] else [rows[0]];
      AccountsOfOthers(rows[1..], p, post);
      AccountsOfConcat(kept, OtherDestinations(rows[1..], p), post);
      AccountsOfOne(rows[0], post);
    }
  }

  lemma AccountsAfterReplace(rows: seq<Destination>, p: Id, accounts: seq<Id>, post: Id)
    ensures DestinationAccounts(ReplaceDestinations(rows, p, accounts), post) ==
            if p == post then accounts else DestinationAccounts(rows, post)
  {
    AccountsOfConcat(OtherDestinations(rows, p), DestinationRows(p, accounts), post);
    AccountsOfRows(p, accounts, post);
    AccountsOfOthers(rows, p, post);
  }

  lemma AccountsAfterInsert(rows: seq<Destination>, p: Id, accounts: seq<Id>, post: Id)
    ensures DestinationAccounts(rows + DestinationRows(p, accounts), post) ==
            DestinationAccounts(rows, post) + if p == post then accounts else []
  {
    AccountsOfConcat(rows, DestinationRows(p, accounts), post);
    AccountsOfRows(p, accounts, post);
  }

  ghost predicate TargetOk(db: Db, v: Variant) {
    v.account in DestinationAccounts(db.destinations, v.post)
  }

  ghost predicate RowsOk(db: Db, post: Id) {
    NoRepeats(DestinationAccounts(db.destinations, post)) && NoStrayRows(db, post)
  }

  /** A post that does not exist has no destination rows. */
  ghost predicate NoStrayRows(db: Db, post: Id) {
    post !in db.posts ==> DestinationAccounts(db.destinations, post) == []
  }

  ghost predicate TargetInv(db: Db) {
    && (forall p :: RowsOk(db, p))
    && (forall v :: v in db.variants ==> TargetOk(db, v))
  }

  /** The caller's side of the condition: create_draft is given every account once. */
  ghost predicate ListsAccountsOnce(op: Op) {
    op.CreateDraftOp? ==> NoRepeats(op.accounts)
  }

  ghost predicate AllListAccountsOnce(ops: seq<Op>) {
    forall op :: op in ops ==> ListsAccountsOnce(op)
  }

  lemma TargetInvNewPost(db: Db, after: Db, post: Id, accounts: seq<Id>)
    requires TargetInv(db) && post !in db.posts && NoRepeats(accounts)
    requires after.posts.Keys == db.posts.Keys + {post} && after.variants == db.variants
    requires after.destinations == db.destinations + DestinationRows(post, accounts)
    ensures TargetInv(after)
  {
    forall p
      ensures RowsOk(after, p)
    {
      assert RowsOk(db, p);
      AccountsAfterInsert(db.destinations, post, accounts, p);
    }
    forall v | v in after.variants
      ensures TargetOk(after, v)
    {
      assert TargetOk(db, v);
      AccountsAfterInsert(db.destinations, post, accounts, v.post);
    }
  }

  lemma TargetInvReplace(db: Db, after: Db, post: Id, accounts: seq<Id>)
    requires TargetInv(db) && post in db.posts && NoRepeats(accounts)
    requires after.posts.Keys == db.posts.Keys
    requires after.destinations == ReplaceDestinations(db.destinations, post, accounts)
    requires after.variants == PruneVariants(db.variants, post, accounts)
    ensures TargetInv(after)
  {
    PruneFacts(db.variants, post, accounts);
    forall p
      ensures RowsOk(after, p)
    {
      assert RowsOk(db, p);
      AccountsAfterReplace(db.destinations, post, accounts, p);
    }
    forall v | v in after.variants
      ensures TargetOk(after, v)
    {
      assert TargetOk(db, v);
      AccountsAfterReplace(db.destinations, post, accounts, v.post);
    }
  }

  lemma TargetInvSame(before: Db, after: Db)
    requires TargetInv(before)
    requires after.destinations == before.destinations && after.posts.Keys == before.posts.Keys
    requires Keys(after.variants) == Keys(before.variants)
    ensures TargetInv(after)
  {
    forall p
      ensures RowsOk(after, p)
    {
      assert RowsOk(before, p);
    }
    forall v | v in after.variants
      ensures TargetOk(after, v)
    {
      var i :| 0 <= i < |after.variants| && after.variants[i] == v;
      assert Keys(after.variants)[i] == Keys(before.variants)[i];
      assert TargetOk(before, before.variants[i]);
    }
  }

  lemma TargetInvDrafts(db: Db, op: Op)
    requires TargetInv(db)
    requires op.UpdateDraftOp? || op.ScheduleDraftOp?
    ensures TargetInv(Exec(db, op))
  {
    var after := Exec(db, op);
    if after != db {
      DraftRows(db, op);
      if op.newAccounts.Some? {
        NormalizeFacts(op.newAccounts.value);
        TargetInvReplace(db, after, op.post, Normalize(op.newAccounts.value).value);
      } else {
        TargetInvSame(db, after);
      }
    }
  }

  lemma RenditionAccountsAreIds(renditions: seq<Rendition>)
    requires forall r :: r in renditions ==> !IsBlank(r.account)
    ensures forall a :: a in RenditionAccounts(renditions) ==> IsNormalId(a)
  {
    var wanted := RenditionAccounts(renditions);
    forall a | a in wanted
      ensures IsNormalId(a)
    {
      var i :| 0 <= i < |wanted| && wanted[i] == a;
      assert renditions[i] in renditions;
      TrimSpaceIsTrimmed(renditions[i].account);
    }
  }

  /** What the destination check means for a post without repeats. */
  lemma WantedAreTargets(db: Db, post: Id, wanted: seq<Id>)
    requires RowsOk(db, post) && DestinationsOk(db, post, wanted)
    requires Distinct(wanted) && forall a :: a in wanted ==> IsNormalId(a)
    ensures forall a :: a in wanted ==> a in DestinationAccounts(db.destinations, post)
  {
    NormalFormIff(wanted);
    DestinationCheckSound(db.destinations, post, wanted);
  }

  lemma UpsertedTarget(db: Db, post: Id, renditions: seq<Rendition>, v: Variant)
    requires forall u :: u in db.variants ==> TargetOk(db, u)
    requires forall r :: r in renditions ==> Normalize(r.media).Some?
    requires forall a :: a in RenditionAccounts(renditions) ==> a in DestinationAccounts(db.destinations, post)
    requires v in UpsertAll(db.variants, post, renditions)
    ensures TargetOk(db, v)
  {
    var i := UpsertAllMembers(db.variants, post, renditions, v);
    if i >= 0 {
      assert v.account == RenditionAccounts(renditions)[i];
    }
  }

  lemma TargetInvUpserts(db: Db, post: Id, renditions: seq<Rendition>)
    requires TargetInv(db)
    requires forall r :: r in renditions ==> Normalize(r.media).Some? && !IsBlank(r.account)
    requires Distinct(RenditionAccounts(renditions)) && DestinationsOk(db, post, RenditionAccounts(renditions))
    ensures TargetInv(db.(variants := UpsertAll(db.variants, post, renditions)))
  {
    var after := db.(variants := UpsertAll(db.variants, post, renditions));
    RenditionAccountsAreIds(renditions);
    assert RowsOk(db, post);
    WantedAreTargets(db, post, RenditionAccounts(renditions));
    forall p
      ensures RowsOk(after, p)
    {
      assert RowsOk(db, p);
    }
    forall v | v in after.variants
      ensures TargetOk(after, v)
    {
      UpsertedTarget(db, post, renditions, v);
    }
  }

  lemma TargetInvNewPosts(db: Db, op: Op)
    requires TargetInv(db) && ListsAccountsOnce(op)
    requires op.CreateDraftOp? || op.SchedulePostOp?
    ensures TargetInv(Exec(db, op))
  {
    var after := Exec(db, op);
    if after != db {
      if op.CreateDraftOp? {
        TargetInvNewPost(db, after, op.post, op.accounts);
      } else {
        NormalizeFacts(op.accounts);
        TargetInvNewPost(db, after, op.post, Normalize(op.accounts).value);
      }
    }
  }

  lemma TargetInvStep(db: Db, op: Op)
    requires TargetInv(db) && ListsAccountsOnce(op)
    ensures TargetInv(Exec(db, op))
  {
    if op.CreateDraftOp? || op.SchedulePostOp? {
      TargetInvNewPosts(db, op);
    } else if op.UpdateDraftOp? || op.ScheduleDraftOp? {
      TargetInvDrafts(db, op);
    } else if op.SetPostRenditionsOp? {
      ExecRenditions(db, op.post, op.workspace, op.renditions);
      if SetPostRenditions(db, op.post, op.workspace, op.renditions).Some? {
        TargetInvUpserts(db, op.post, op.renditions);
      }
    } else if op.DeleteMediaOp? || op.BatchDeleteOp? {
      OneVariantMedia(db, op);
      TargetInvSame(db, Exec(db, op));
    } else {
      TargetInvSame(db, Exec(db, op));
    }
  }

  lemma {:induction false} TargetInvAlong(db: Db, ops: seq<Op>)
    requires TargetInv(db) && AllListAccountsOnce(ops)
    ensures TargetInv(RunFrom(db, ops))
  {
    if ops != [] {
      TargetInvAlong(db, ops[..|ops| - 1]);
      TargetInvStep(RunFrom(db, ops[..|ops| - 1]), ops[|ops| - 1]);
    }
  }

  /** Every variant belongs to an account that its post is sent to. */
  ghost predicate VariantsTargeted(db: Db) {
    forall v :: v in db.variants ==> Destination(v.post, v.account) in db.destinations
  }

  lemma TargetInvMeans(db: Db)
    requires TargetInv(db)
    ensures VariantsTargeted(db)
  {
    forall v | v in db.variants
      ensures Destination(v.post, v.account) in db.destinations
    {
      assert TargetOk(db, v);
      AccountsAreRows(db.destinations, v.post, v.account);
    }
  }

  /**
   After any run in which create_draft was always given each account once, every variant belongs to an
   account that the post is sent to.
   */
  lemma VariantsHaveDestinations(ops: seq<Op>)
    requires AllListAccountsOnce(ops)
    ensures VariantsTargeted(Run(ops))
  {
    TargetInvAlong(Db(map[], map[], map[], [], [], map[]), ops);
    TargetInvMeans(Run(ops));
  }

  lemma {:induction false} AccountsAreRows(rows: seq<Destination>, post: Id, account: Id)
    ensures account in DestinationAccounts(rows, post) <==> Destination(post, account) in rows
  {
    if rows != [] {
      AccountsAreRows(rows[1..], post, account);
      assert rows == [rows[0]] + rows[1..];
    }
  }

  // ----- the condition is exact -----

  /** How the list and the wanted accounts meet is all that counts. */
  lemma {:induction false} CountInAgree(list: seq<Id>, wanted: seq<Id>, others: seq<Id>)
    requires forall a :: a in list ==> (a in wanted <==> a in others)
    ensures CountIn(list, wanted) == CountIn(list, others)
  {
    if list != [] {
      CountInAgree(list[1..], wanted, others);
    }
  }

  /** Ids longer than any in the list. */
  function NewId(length: nat): (id: Id)
    ensures |id| == length && (length > 0 ==> IsNormalId(id))
  {
    seq(length, i => 'x')
  }

  lemma {:induction false} LengthBound(list: seq<Id>) returns (n: nat)
    ensures forall a :: a in list ==> |a| < n
  {
    if list == [] {
      n := 0;
    } else {
      var rest := LengthBound(list[1..]);
      n := if rest > |list[0]| then rest else |list[0]| + 1;
      assert list == [list[0]] + list[1..];
    }
  }

  /** A request that the count accepts although only its first account is in the list. */
  lemma AcceptedRequest(list: seq<Id>, a: Id) returns (wanted: seq<Id>)
    requires IsNormalId(a) && multiset(list)[a] >= 2
    ensures |wanted| >= 2 && Distinct(wanted) && (forall b :: b in wanted ==> IsNormalId(b))
    ensures CountIn(list, wanted) == |wanted|
    ensures wanted[1] !in list
  {
    var n := LengthBound(list + [a]);
    assert a in list + [a] && forall b :: b in list ==> b in list + [a];
    wanted := [a] + seq(multiset(list)[a] - 1, i requires i >= 0 => NewId(n + i + 1));
    forall i | 1 <= i < |wanted|
      ensures wanted[i] == NewId(n + i)
    {
    }
    forall b | b in wanted
      ensures IsNormalId(b) && (b in list ==> b == a)
    {
      var i :| 0 <= i < |wanted| && wanted[i] == b;
      assert i > 0 ==> b == NewId(n + i);
    }
    CountInAgree(list, wanted, [a]);
    CountInSingle(list, a);
  }

  /** Renditions without media, one for each account. */
  function RenditionsFor(accounts: seq<Id>): seq<Rendition> {
    seq(|accounts|, i requires 0 <= i < |accounts| => Rendition(accounts[i], "x", []))
  }

  lemma {:induction false} NoRenditionMedia(renditions: seq<Rendition>)
    requires forall r :: r in renditions ==> r.media == []
    ensures RenditionMedia(renditions) == []
  {
    if renditions != [] {
      NoRenditionMedia(renditions[1..]);
    }
  }

  lemma RenditionsForOk(wanted: seq<Id>)
    requires Distinct(wanted) && forall a :: a in wanted ==> IsNormalId(a)
    ensures RenditionAccounts(RenditionsFor(wanted)) == wanted
    ensures RenditionsOk(RenditionsFor(wanted)) && RenditionMedia(RenditionsFor(wanted)) == []
  {
    forall i | 0 <= i < |wanted|
      ensures TrimSpace(wanted[i]) == wanted[i] != ""
    {
      assert wanted[i] in wanted;
      TrimSpaceFixedIff(wanted[i]);
    }
    assert RenditionAccounts(RenditionsFor(wanted)) == wanted;
    TrimSpaceFixedIff("x");
    NoRenditionMedia(RenditionsFor(wanted));
  }

  lemma CountedIsOk(db: Db, post: Id, wanted: seq<Id>)
    requires Distinct(wanted) && forall a :: a in wanted ==> IsNormalId(a)
    requires CountIn(DestinationAccounts(db.destinations, post), wanted) == |wanted|
    ensures DestinationsOk(db, post, wanted)
  {
    NormalFormIff(wanted);
    CountRowsIsCountIn(db.destinations, post, wanted);
  }

  lemma RenditionsAccepted(db: Db, post: Id, wanted: seq<Id>)
    requires post in db.posts && !db.posts[post].status.Published? && !db.posts[post].status.Publishing?
    requires wanted != [] && Distinct(wanted) && (forall a :: a in wanted ==> IsNormalId(a))
    requires CountIn(DestinationAccounts(db.destinations, post), wanted) == |wanted|
    requires forall a :: a in wanted ==> IsActive(db, db.posts[post].workspace, a)
    ensures SetPostRenditions(db, post, db.posts[post].workspace, RenditionsFor(wanted)) ==
            Some(db.(variants := UpsertAll(db.variants, post, RenditionsFor(wanted))))
  {
    RenditionsForOk(wanted);
    CountedIsOk(db, post, wanted);
    ActiveAccountsPass(db, db.posts[post].workspace, wanted);
  }

  predicate IsActive(db: Db, workspace: Id, a: Id) {
    a in db.accounts && db.accounts[a].workspace == workspace && db.accounts[a].active
  }

  lemma ActiveAccountsPass(db: Db, workspace: Id, ids: seq<string>)
    requires Distinct(ids) && forall a :: a in ids ==> IsNormalId(a) && IsActive(db, workspace, a)
    ensures AccountsOk(db, workspace, ids)
  {
    NormalFormIff(ids);
    DistinctCardinality(ids);
    assert (set a | a in db.accounts && db.accounts[a].workspace == workspace && db.accounts[a].active && a in ids) == Elements(ids);
  }

  lemma UpsertAdds(rows: seq<Variant>, post: Id, account: Id, content: string, media: seq<Id>)
    ensures (post, account) in Keys(Upsert(rows, post, account, content, media))
    ensures forall k :: k in Keys(rows) ==> k in Keys(Upsert(rows, post, account, content, media))
  {
    var keys := Keys(rows);
    UpsertKeys(rows, post, account, content, media);
    assert (keys + [(post, account)])[|keys|] == (post, account);
    assert forall k :: k in keys ==> k in keys + [(post, account)];
  }

  /** Every rendition leaves a variant for its account. */
  lemma {:induction false} UpsertAllAdds(rows: seq<Variant>, post: Id, renditions: seq<Rendition>, i: nat)
    requires forall r :: r in renditions ==> Normalize(r.media).Some?
    requires i < |renditions|
    ensures (post, TrimSpace(renditions[i].account)) in Keys(UpsertAll(rows, post, renditions))
  {
    var n := |renditions| - 1;
    var r := renditions[n];
    UpsertAdds(UpsertAll(rows, post, renditions[..n]), post, TrimSpace(r.account), r.content, Normalize(r.media).value);
    if i < n {
      UpsertAllAdds(rows, post, renditions[..n], i);
    }
  }

  lemma {:induction false} RunFromConcat(db: Db, first: seq<Op>, second: seq<Op>)
    ensures RunFrom(db, first + second) == RunFrom(RunFrom(db, first), second)
  {
    if second == [] {
      assert first + second == first;
    } else {
      var n := |second| - 1;
      assert (first + second)[..|first| + n] == first + second[..n];
      RunFromConcat(db, first, second[..n]);
    }
  }

  lemma RunOne(db: Db, op: Op)
    ensures RunFrom(db, [op]) == Exec(db, op)
  {
    assert [op][..0] == [];
  }

  lemma RunTwo(db: Db, first: Op, second: Op)
    ensures RunFrom(db, [first, second]) == Exec(Exec(db, first), second)
  {
    RunOne(db, first);
    assert [first, second][..1] == [first];
  }

  /** The renditions of an accepted request leave a variant for each account, wanted by the post or not. */
  lemma RenditionsBreak(db: Db, post: Id, wanted: seq<Id>)
    requires |wanted| >= 2 && wanted[1] !in DestinationAccounts(db.destinations, post)
    requires IsNormalId(wanted[1])
    ensures !VariantsTargeted(db.(variants := UpsertAll(db.variants, post, RenditionsFor(wanted))))
  {
    var rows := UpsertAll(db.variants, post, RenditionsFor(wanted));
    TrimSpaceFixedIff(wanted[1]);
    UpsertAllAdds(db.variants, post, RenditionsFor(wanted), 1);
    KeysMembers(rows);
    AccountsAreRows(db.destinations, post, wanted[1]);
  }

  /** A post whose destinations repeat an account, after an accepted request that asks for more. */
  lemma RenditionsBreakRepeat(db: Db, post: Id, wanted: seq<Id>)
    requires post in db.posts && !db.posts[post].status.Published? && !db.posts[post].status.Publishing?
    requires |wanted| >= 2 && Distinct(wanted) && (forall a :: a in wanted ==> IsNormalId(a))
    requires CountIn(DestinationAccounts(db.destinations, post), wanted) == |wanted|
    requires forall a :: a in wanted ==> IsActive(db, db.posts[post].workspace, a)
    requires wanted[1] !in DestinationAccounts(db.destinations, post)
    ensures var after := SetPostRenditions(db, post, db.posts[post].workspace, RenditionsFor(wanted));
      after.Some? && !VariantsTargeted(after.value)
  {
    RenditionsAccepted(db, post, wanted);
    assert wanted[1] in wanted;
    RenditionsBreak(db, post, wanted);
  }

  /** Accounts are connected, then renditions are set. */
  lemma ActivateThenRender(db: Db, post: Id, table: map<Id, Account>, workspace: Id, renditions: seq<Rendition>)
    returns (ops: seq<Op>)
    ensures AllListAccountsOnce(ops)
    ensures RunFrom(db, ops) ==
            OrElse(SetPostRenditions(db.(accounts := table), post, workspace, renditions), db.(accounts := table))
  {
    var activate, render := AccountsOp(table), SetPostRenditionsOp(post, workspace, renditions);
    RunTwo(db, activate, render);
    ExecRenditions(db.(accounts := table), post, workspace, renditions);
    ops := [activate, render];
  }

  /** A post that can be edited and repeats a destination: one accepted request leaves a variant it is not sent as. */
  lemma EditableRepeatCanBreak(db: Db, post: Id, a: Id) returns (ops: seq<Op>)
    requires post in db.posts && !db.posts[post].status.Published? && !db.posts[post].status.Publishing?
    requires IsNormalId(a) && multiset(DestinationAccounts(db.destinations, post))[a] >= 2
    ensures AllListAccountsOnce(ops) && !VariantsTargeted(RunFrom(db, ops))
  {
    var wanted := AcceptedRequest(DestinationAccounts(db.destinations, post), a);
    var workspace := db.posts[post].workspace;
    var table := map b | b in wanted :: Account(workspace, true);
    RenditionsBreakRepeat(db.(accounts := table), post, wanted);
    ops := ActivateThenRender(db, post, table, workspace, RenditionsFor(wanted));
  }

  lemma ExecPublishFails(db: Db, post: Id)
    requires post in db.posts
    ensures Exec(db, PublisherOp(post, JobQueue.PublishFailed)) ==
            db.(posts := db.posts[post := db.posts[post].(status := JobQueue.PublishFailed)])
  {
  }

  /** The same for any post: one that is out of reach of editing has to fail to publish first. */
  lemma RepeatCanBreak(db: Db, post: Id, a: Id) returns (ops: seq<Op>)
    requires post in db.posts && IsNormalId(a)
    requires multiset(DestinationAccounts(db.destinations, post))[a] >= 2
    ensures AllListAccountsOnce(ops) && !VariantsTargeted(RunFrom(db, ops))
  {
    if db.posts[post].status.Published? || db.posts[post].status.Publishing? {
      var fail := PublisherOp(post, JobQueue.PublishFailed);
      ExecPublishFails(db, post);
      RunOne(db, fail);
      var more := EditableRepeatCanBreak(Exec(db, fail), post, a);
      RunFromConcat(db, [fail], more);
      ops := [fail] + more;
    } else {
      ops := EditableRepeatCanBreak(db, post, a);
    }
  }

  /**
   The condition is exact: from tables whose variants are targeted and whose destination rows belong to
   posts, every run in which create_draft gets each account once keeps the variants targeted, iff no
   post's destinations repeat an account.
   */
  lemma TargetsKeptIff(db: Db)
    requires VariantsTargeted(db)
    requires forall d :: d in db.destinations ==> d.post in db.posts
    ensures (forall ops :: AllListAccountsOnce(ops) ==> VariantsTargeted(RunFrom(db, ops))) <==>
            (forall p :: p in db.posts ==> NoRepeats(DestinationAccounts(db.destinations, p)))
  {
    if forall p :: p in db.posts ==> NoRepeats(DestinationAccounts(db.destinations, p)) {
      TargetInvFrom(db);
      forall ops | AllListAccountsOnce(ops)
        ensures VariantsTargeted(RunFrom(db, ops))
      {
        TargetInvAlong(db, ops);
        TargetInvMeans(RunFrom(db, ops));
      }
    } else {
      var p :| p in db.posts && !NoRepeats(DestinationAccounts(db.destinations, p));
      var list := DestinationAccounts(db.destinations, p);
      var i, j :| 0 <= i < j < |list| && list[i] == list[j] && IsNormalId(list[i]);
      TwiceInMultiset(list, i, j);
      var ops := RepeatCanBreak(db, p, list[i]);
    }
  }

  lemma {:induction false} NoRowsNoAccounts(rows: seq<Destination>, post: Id)
    requires forall d :: d in rows ==> d.post != post
    ensures DestinationAccounts(rows, post) == []
  {
    if rows != [] {
      NoRowsNoAccounts(rows[1..], post);
    }
  }

  lemma TargetInvFrom(db: Db)
    requires VariantsTargeted(db)
    requires forall d :: d in db.destinations ==> d.post in db.posts
    requires forall p :: p in db.posts ==> NoRepeats(DestinationAccounts(db.destinations, p))
    ensures TargetInv(db)
  {
    forall p
      ensures RowsOk(db, p)
    {
      if p !in db.posts {
        NoRowsNoAccounts(db.destinations, p);
      }
    }
    forall v | v in db.variants
      ensures TargetOk(db, v)
    {
      AccountsAreRows(db.destinations, v.post, v.account);
    }
  }

  /** One create_draft: whatever follows it keeps the variants targeted iff its account list has no repeats. */
  lemma CreateDraftSafeIff(db: Db, post: Id, workspace: Id, content: string, accounts: seq<string>, media: seq<string>)
    requires TargetInv(db) && post !in db.posts
    requires CreateDraft(db, post, workspace, content, accounts, media).Some?
    ensures var after := CreateDraft(db, post, workspace, content, accounts, media).value;
      (forall ops :: AllListAccountsOnce(ops) ==> VariantsTargeted(RunFrom(after, ops))) <==> NoRepeats(accounts)
  {
    CreatedDraftSafeIff(db, CreateDraft(db, post, workspace, content, accounts, media).value, post, accounts);
  }

  lemma AccountsOfNewPost(db: Db, post: Id, accounts: seq<Id>)
    requires TargetInv(db) && post !in db.posts
    ensures DestinationAccounts(db.destinations + DestinationRows(post, accounts), post) == accounts
  {
    assert RowsOk(db, post);
    AccountsAfterInsert(db.destinations, post, accounts, post);
    assert [] + accounts == accounts;
  }

  lemma CreatedDraftSafeIff(db: Db, after: Db, post: Id, accounts: seq<Id>)
    requires TargetInv(db) && post !in db.posts
    requires after.posts.Keys == db.posts.Keys + {post} && after.variants == db.variants
    requires after.destinations == db.destinations + DestinationRows(post, accounts)
    ensures (forall ops :: AllListAccountsOnce(ops) ==> VariantsTargeted(RunFrom(after, ops))) <==> NoRepeats(accounts)
  {
    if NoRepeats(accounts) {
      TargetInvNewPost(db, after, post, accounts);
      forall ops | AllListAccountsOnce(ops)
        ensures VariantsTargeted(RunFrom(after, ops))
      {
        TargetInvAlong(after, ops);
        TargetInvMeans(RunFrom(after, ops));
      }
    } else {
      var i, j :| 0 <= i < j < |accounts| && accounts[i] == accounts[j] && IsNormalId(accounts[i]);
      TwiceInMultiset(accounts, i, j);
      AccountsOfNewPost(db, post, accounts);
      var ops := RepeatCanBreak(after, post, accounts[i]);
    }
  }
}
