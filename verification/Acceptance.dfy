/** When the handlers accept a request, and what an accepted request does, in terms of the rows themselves. */
module Acceptance {
  import opened Wrappers
  import opened GoStrings
  import opened Ids
  import JobQueue
  import opened Tables
  import opened RowFacts
  import opened References
  import opened Destinations

  ghost predicate IsMedia(db: Db, workspace: Id, id: Id) {
    id in db.media && db.media[id].workspace == workspace
  }

  /** Every id, once trimmed, names an active account of the workspace. */
  ghost predicate AllActive(db: Db, workspace: Id, ids: seq<string>) {
    forall id :: id in ids ==> !IsBlank(id) && IsActive(db, workspace, TrimSpace(id))
  }

  ghost predicate AllMedia(db: Db, workspace: Id, ids: seq<string>) {
    forall id :: id in ids ==> !IsBlank(id) && IsMedia(db, workspace, TrimSpace(id))
  }

  /** Blank is: nothing but white space. */
  lemma BlankIff(s: string)
    ensures IsBlank(s) <==> AllSpace(s)
  {
    TrimSpaceIff(s, "");
    if before, after :| AllSpace(before) && AllSpace(after) && s == before + "" + after {
      assert s == before + after;
    }
    if AllSpace(s) {
      assert s == s + "" + "" && AllSpace("");
    }
  }

  // ----- the counting checks -----

  lemma NormalizeCovers(ids: seq<string>)
    ensures Normalize(ids).None? <==> exists id :: id in ids && IsBlank(id)
    ensures Normalize(ids).Some? ==>
      && (forall id :: id in ids ==> TrimSpace(id) in Normalize(ids).value)
      && (forall a :: a in Normalize(ids).value ==> TrimSpace(a) == a && exists id :: id in ids && TrimSpace(id) == a)
      && (Normalize(ids).value == [] <==> ids == [])
  {
    NormalizeFacts(ids);
    if i :| 0 <= i < |ids| && TrimSpace(ids[i]) == "" {
      assert ids[i] in ids && IsBlank(ids[i]);
    }
    if Normalize(ids).Some? {
      forall a | a in Normalize(ids).value
        ensures TrimSpace(a) == a && exists id :: id in ids && TrimSpace(id) == a
      {
        var i :| 0 <= i < |ids| && TrimSpace(ids[i]) == a;
        assert ids[i] in ids;
        TrimSpaceFixedIff(a);
      }
      if ids != [] {
        assert TrimSpace(ids[0]) in Normalize(ids).value;
      }
    }
  }

  /** As many rows as distinct ids were found iff each of the ids was. */
  lemma CountMeansAll(found: set<Id>, unique: seq<Id>)
    requires Distinct(unique) && found <= Elements(unique)
    ensures |found| == |unique| <==> forall a :: a in unique ==> a in found
  {
    DistinctCardinality(unique);
    if |found| == |unique| {
      SubsetOfSameSize(found, Elements(unique));
      assert forall a :: a in unique ==> a in Elements(unique);
    }
    if forall a :: a in unique ==> a in found {
      assert found == Elements(unique);
    }
  }

  lemma AccountsOkIff(db: Db, workspace: Id, ids: seq<string>)
    ensures AccountsOk(db, workspace, ids) <==> AllActive(db, workspace, ids)
  {
    NormalizeCovers(ids);
    if ids != [] && Normalize(ids).Some? {
      var unique := Normalize(ids).value;
      NormalizeFacts(ids);
      CountMeansAll((set a | a in db.accounts && db.accounts[a].workspace == workspace && db.accounts[a].active && a in unique), unique);
    }
  }

  lemma MediaOkIff(db: Db, workspace: Id, ids: seq<string>)
    ensures MediaOk(db, workspace, ids) <==> AllMedia(db, workspace, ids)
  {
    NormalizeCovers(ids);
    if ids != [] && Normalize(ids).Some? {
      var unique := Normalize(ids).value;
      NormalizeFacts(ids);
      CountMeansAll((set m | m in db.media && db.media[m].workspace == workspace && m in unique), unique);
    }
  }

  /** The checks on a normalised list are those on the list itself. */
  lemma NormalChecks(db: Db, workspace: Id, ids: seq<string>)
    requires Normalize(ids).Some?
    ensures AccountsOk(db, workspace, Normalize(ids).value) <==> AllActive(db, workspace, ids)
    ensures MediaOk(db, workspace, Normalize(ids).value) <==> AllMedia(db, workspace, ids)
  {
    NormalizeCovers(ids);
    NormalizeFacts(ids);
    AccountsOkIff(db, workspace, Normalize(ids).value);
    MediaOkIff(db, workspace, Normalize(ids).value);
  }

  lemma BlankIsRefused(db: Db, workspace: Id, ids: seq<string>)
    requires Normalize(ids).None?
    ensures !AllActive(db, workspace, ids) && !AllMedia(db, workspace, ids)
  {
    NormalizeCovers(ids);
  }

  // ----- which requests are accepted -----

  lemma CreateDraftIff(db: Db, post: Id, workspace: Id, content: string, accounts: seq<string>, media: seq<string>)
    requires post !in db.posts
    ensures CreateDraft(db, post, workspace, content, accounts, media).Some? <==>
            !IsBlank(content) && AllActive(db, workspace, accounts) && AllMedia(db, workspace, media)
  {
    AccountsOkIff(db, workspace, accounts);
    if Normalize(media).Some? {
      NormalChecks(db, workspace, media);
    } else {
      BlankIsRefused(db, workspace, media);
    }
  }

  lemma SchedulePostIff(db: Db, post: Id, workspace: Id, content: string, accounts: seq<string>, media: seq<string>)
    requires post !in db.posts
    ensures SchedulePost(db, post, workspace, content, accounts, media).Some? <==>
            !IsBlank(content) && accounts != [] && AllActive(db, workspace, accounts) && AllMedia(db, workspace, media)
  {
    if Normalize(accounts).None? {
      BlankIsRefused(db, workspace, accounts);
    } else if Normalize(media).None? {
      BlankIsRefused(db, workspace, media);
    } else {
      NormalizeCovers(accounts);
      NormalChecks(db, workspace, accounts);
      NormalChecks(db, workspace, media);
    }
  }

  /** The lists of update_draft and schedule_draft, each optional. */
  ghost predicate ListsOk(db: Db, workspace: Id, accounts: Option<seq<string>>, media: Option<seq<string>>) {
    && (accounts.Some? ==> AllActive(db, workspace, accounts.value))
    && (media.Some? ==> AllMedia(db, workspace, media.value))
  }

  lemma OptionalListsIff(db: Db, workspace: Id, accounts: Option<seq<string>>, media: Option<seq<string>>)
    ensures ListsOk(db, workspace, accounts, media) <==>
      && NormalizeOptional(accounts).Some? && OptionalAccountsOk(db, workspace, NormalizeOptional(accounts).value)
      && NormalizeOptional(media).Some? && OptionalMediaOk(db, workspace, NormalizeOptional(media).value)
  {
    if accounts.Some? {
      if Normalize(accounts.value).Some? {
        NormalChecks(db, workspace, accounts.value);
      } else {
        BlankIsRefused(db, workspace, accounts.value);
      }
    }
    if media.Some? {
      if Normalize(media.value).Some? {
        NormalChecks(db, workspace, media.value);
      } else {
        BlankIsRefused(db, workspace, media.value);
      }
    }
  }

  lemma UpdateDraftIff(db: Db, post: Id, workspace: Id, content: Option<string>, accounts: Option<seq<string>>, media: Option<seq<string>>)
    ensures UpdateDraft(db, post, workspace, content, accounts, media).Some? <==>
      && IsDraft(db, post, workspace) && ListsOk(db, workspace, accounts, media)
      && (content.Some? || accounts.Some? || media.Some?) && (content.Some? ==> !IsBlank(content.value))
  {
    OptionalListsIff(db, workspace, accounts, media);
  }

  lemma ScheduleDraftIff(db: Db, post: Id, workspace: Id, accounts: Option<seq<string>>, media: Option<seq<string>>)
    ensures ScheduleDraft(db, post, workspace, accounts, media).Some? <==>
      && IsDraft(db, post, workspace) && ListsOk(db, workspace, accounts, media)
      && var targets := if accounts.Some? then accounts.value else DestinationAccounts(db.destinations, post);
         targets != [] && AllActive(db, workspace, targets)
  {
    OptionalListsIff(db, workspace, accounts, media);
    AccountsOkIff(db, workspace, DestinationAccounts(db.destinations, post));
    if accounts.Some? {
      NormalizeCovers(accounts.value);
    }
  }

  /** What each rendition has to satisfy on its own. */
  ghost predicate RenditionValid(db: Db, workspace: Id, r: Rendition) {
    && !IsBlank(r.account) && !IsBlank(r.content)
    && IsActive(db, workspace, TrimSpace(r.account))
    && AllMedia(db, workspace, r.media)
  }

  lemma {:induction false} RenditionMediaIff(db: Db, workspace: Id, renditions: seq<Rendition>)
    requires forall r :: r in renditions ==> Normalize(r.media).Some?
    ensures AllMedia(db, workspace, RenditionMedia(renditions)) <==> forall r :: r in renditions ==> AllMedia(db, workspace, r.media)
  {
    if renditions != [] {
      var first, rest := renditions[0], renditions[1..];
      var unique := Normalize(first.media).value;
      RenditionMediaIff(db, workspace, rest);
      NormalChecks(db, workspace, first.media);
      MediaOkIff(db, workspace, unique);
      assert forall id :: id in RenditionMedia(renditions) <==> id in unique || id in RenditionMedia(rest);
      assert forall r :: r in renditions <==> r == first || r in rest;
    }
  }

  lemma RenditionAccountsMembers(renditions: seq<Rendition>)
    ensures forall r :: r in renditions ==> TrimSpace(r.account) in RenditionAccounts(renditions)
    ensures forall a :: a in RenditionAccounts(renditions) ==> exists r :: r in renditions && TrimSpace(r.account) == a
  {
    var all := RenditionAccounts(renditions);
    forall r | r in renditions
      ensures TrimSpace(r.account) in all
    {
      var i :| 0 <= i < |renditions| && renditions[i] == r;
      assert all[i] == TrimSpace(r.account);
    }
    forall a | a in all
      ensures exists r :: r in renditions && TrimSpace(r.account) == a
    {
      var i :| 0 <= i < |all| && all[i] == a;
      assert renditions[i] in renditions;
    }
  }

  /** The accounts of well-formed renditions are their own normal form. */
  lemma RenditionAccountsAreNormal(renditions: seq<Rendition>)
    requires RenditionsOk(renditions)
    ensures Normalize(RenditionAccounts(renditions)) == Some(RenditionAccounts(renditions))
    ensures forall a :: a in RenditionAccounts(renditions) ==> IsNormalId(a) && TrimSpace(a) == a
  {
    var all := RenditionAccounts(renditions);
    RenditionAccountsMembers(renditions);
    forall a | a in all
      ensures IsNormalId(a) && TrimSpace(a) == a
    {
      var r :| r in renditions && TrimSpace(r.account) == a;
      TrimSpaceIsTrimmed(r.account);
      TrimSpaceFixedIff(a);
    }
    NormalFormIff(all);
  }

  lemma CountOfNothing(list: seq<Id>)
    ensures CountIn(list, []) == 0
  {
  }

  /** The destination check counts rows, and several rows of one account count several times. */
  lemma DestinationsOkIsCount(db: Db, post: Id, renditions: seq<Rendition>)
    requires RenditionsOk(renditions)
    ensures DestinationsOk(db, post, RenditionAccounts(renditions)) <==>
            CountIn(DestinationAccounts(db.destinations, post), RenditionAccounts(renditions)) == |renditions|
  {
    var all := RenditionAccounts(renditions);
    RenditionAccountsAreNormal(renditions);
    CountRowsIsCountIn(db.destinations, post, all);
    if all == [] {
      CountOfNothing(DestinationAccounts(db.destinations, post));
    }
  }

  /** The checks of accounts and media on well-formed renditions, one rendition at a time. */
  lemma RenditionChecksIff(db: Db, workspace: Id, renditions: seq<Rendition>)
    requires RenditionsOk(renditions)
    ensures (AccountsOk(db, workspace, RenditionAccounts(renditions)) && MediaOk(db, workspace, RenditionMedia(renditions))) <==>
            forall r :: r in renditions ==> RenditionValid(db, workspace, r)
  {
    RenditionAccountsMembers(renditions);
    RenditionAccountsAreNormal(renditions);
    AccountsOkIff(db, workspace, RenditionAccounts(renditions));
    MediaOkIff(db, workspace, RenditionMedia(renditions));
    RenditionMediaIff(db, workspace, renditions);
  }

  lemma MalformedIsInvalid(db: Db, workspace: Id, r: Rendition)
    requires IsBlank(r.account) || IsBlank(r.content) || Normalize(r.media).None?
    ensures !RenditionValid(db, workspace, r)
  {
    if Normalize(r.media).None? {
      BlankIsRefused(db, workspace, r.media);
    }
  }

  /**
   Exactly these requests are accepted, for every post: valid renditions for different accounts, as many
   as the post has destination rows for these accounts.
   */
  lemma SetPostRenditionsIff(db: Db, post: Id, workspace: Id, renditions: seq<Rendition>)
    ensures SetPostRenditions(db, post, workspace, renditions).Some? <==>
      && renditions != [] && InWorkspace(db, post, workspace)
      && !db.posts[post].status.Published? && !db.posts[post].status.Publishing?
      && Distinct(RenditionAccounts(renditions))
      && (forall r :: r in renditions ==> RenditionValid(db, workspace, r))
      && CountIn(DestinationAccounts(db.destinations, post), RenditionAccounts(renditions)) == |renditions|
  {
    if RenditionsOk(renditions) {
      RenditionChecksIff(db, workspace, renditions);
      DestinationsOkIsCount(db, post, renditions);
    } else if Distinct(RenditionAccounts(renditions)) {
      var r :| r in renditions && !(!IsBlank(r.account) && !IsBlank(r.content) && Normalize(r.media).Some?);
      MalformedIsInvalid(db, workspace, r);
    }
  }

  /** For a post that repeats no destination, that means that every account is a destination of the post. */
  lemma SetPostRenditionsWithoutRepeats(db: Db, post: Id, workspace: Id, renditions: seq<Rendition>)
    requires NoRepeats(DestinationAccounts(db.destinations, post))
    ensures SetPostRenditions(db, post, workspace, renditions).Some? <==>
      && renditions != [] && InWorkspace(db, post, workspace)
      && !db.posts[post].status.Published? && !db.posts[post].status.Publishing?
      && Distinct(RenditionAccounts(renditions))
      && forall r :: r in renditions ==>
           RenditionValid(db, workspace, r) && TrimSpace(r.account) in DestinationAccounts(db.destinations, post)
  {
    SetPostRenditionsIff(db, post, workspace, renditions);
    if Distinct(RenditionAccounts(renditions)) && forall r :: r in renditions ==> RenditionValid(db, workspace, r) {
      ValidIsWellFormed(db, workspace, renditions);
      RenditionAccountsAreNormal(renditions);
      RenditionAccountsMembers(renditions);
      DestinationCheckSound(db.destinations, post, RenditionAccounts(renditions));
      CountRowsIsCountIn(db.destinations, post, RenditionAccounts(renditions));
    }
  }

  lemma ValidIsWellFormed(db: Db, workspace: Id, renditions: seq<Rendition>)
    requires Distinct(RenditionAccounts(renditions))
    requires forall r :: r in renditions ==> RenditionValid(db, workspace, r)
    ensures RenditionsOk(renditions)
  {
    forall r | r in renditions
      ensures Normalize(r.media).Some?
    {
      if Normalize(r.media).None? {
        MalformedIsInvalid(db, workspace, r);
      }
    }
  }

  // ----- what accepted requests do -----

  /** The attachments of the post are these media, in this order. */
  ghost predicate AttachedAs(attachments: map<(Id, Id), nat>, post: Id, media: seq<Id>) {
    && (forall m :: (post, m) in attachments <==> m in media)
    && (forall i :: 0 <= i < |media| ==> (post, media[i]) in attachments && attachments[(post, media[i])] == i)
  }

  ghost predicate Kept(before: Db, after: Db, p: Id) {
    && (p in after.posts <==> p in before.posts) && (p in before.posts ==> after.posts[p] == before.posts[p])
    && DestinationAccounts(after.destinations, p) == DestinationAccounts(before.destinations, p)
    && AttachmentsOf(after, p) == AttachmentsOf(before, p)
    && VariantsOf(after.variants, p) == VariantsOf(before.variants, p)
  }

  /** Nothing of the other posts changes. */
  ghost predicate OthersKept(before: Db, after: Db, post: Id) {
    forall p :: p != post ==> Kept(before, after, p)
  }

  lemma NewAttachments(attachments: map<(Id, Id), nat>, post: Id, media: seq<Id>)
    requires Distinct(media) && forall k :: k in attachments ==> k.0 != post
    ensures AttachedAs(Attach(attachments, post, media), post, media)
  {
    AttachFacts(attachments, post, media);
    forall m
      ensures (post, m) !in attachments
    {
      assert (post, m).0 == post;
    }
  }

  lemma OtherAttachments(before: Db, after: Db, post: Id, media: seq<Id>, p: Id)
    requires p != post
    requires after.attachments == Attach(before.attachments, post, media) ||
             after.attachments == Attach(Detach(before.attachments, post), post, media)
    ensures AttachmentsOf(after, p) == AttachmentsOf(before, p)
  {
    AttachFacts(before.attachments, post, media);
    AttachFacts(Detach(before.attachments, post), post, media);
  }

  lemma NewPostKeepsOther(db: Db, after: Db, post: Id, row: Post, accounts: seq<Id>, media: seq<Id>, p: Id)
    requires p != post
    requires after == db.(posts := db.posts[post := row],
                          destinations := db.destinations + DestinationRows(post, accounts),
                          attachments := Attach(db.attachments, post, media))
    ensures Kept(db, after, p)
  {
    AccountsAfterInsert(db.destinations, post, accounts, p);
    assert DestinationAccounts(db.destinations, p) + [] == DestinationAccounts(db.destinations, p);
    OtherAttachments(db, after, post, media, p);
  }

  lemma NewPostEffect(db: Db, after: Db, post: Id, row: Post, accounts: seq<Id>, media: seq<Id>)
    requires MediaInv(db) && NoStrayRows(db, post) && post !in db.posts && Distinct(media)
    requires after == db.(posts := db.posts[post := row],
                          destinations := db.destinations + DestinationRows(post, accounts),
                          attachments := Attach(db.attachments, post, media))
    ensures DestinationAccounts(after.destinations, post) == accounts
    ensures AttachedAs(after.attachments, post, media) && OthersKept(db, after, post)
  {
    AccountsAfterInsert(db.destinations, post, accounts, post);
    assert [] + accounts == accounts;
    forall k | k in db.attachments
      ensures k.0 != post
    {
      assert Owned(db, k.0, k.1);
    }
    NewAttachments(db.attachments, post, media);
    forall p | p != post
      ensures Kept(db, after, p)
    {
      NewPostKeepsOther(db, after, post, row, accounts, media, p);
    }
  }

  /** create_draft keeps the account ids as they were given and the media ids in normal form. */
  lemma CreateDraftEffect(db: Db, post: Id, workspace: Id, content: string, accounts: seq<string>, media: seq<string>)
    requires MediaInv(db) && NoStrayRows(db, post) && post !in db.posts
    requires CreateDraft(db, post, workspace, content, accounts, media).Some?
    ensures var after := CreateDraft(db, post, workspace, content, accounts, media).value;
      && post in after.posts && after.posts[post] == Post(workspace, JobQueue.Draft)
      && DestinationAccounts(after.destinations, post) == accounts
      && AttachedAs(after.attachments, post, Normalize(media).value) && OthersKept(db, after, post)
  {
    var after := CreateDraft(db, post, workspace, content, accounts, media).value;
    NormalizeFacts(media);
    NewPostEffect(db, after, post, Post(workspace, JobQueue.Draft), accounts, Normalize(media).value);
  }

  /** schedule_post normalises both lists. */
  lemma SchedulePostEffect(db: Db, post: Id, workspace: Id, content: string, accounts: seq<string>, media: seq<string>)
    requires MediaInv(db) && NoStrayRows(db, post) && post !in db.posts
    requires SchedulePost(db, post, workspace, content, accounts, media).Some?
    ensures var after := SchedulePost(db, post, workspace, content, accounts, media).value;
      && post in after.posts && after.posts[post] == Post(workspace, JobQueue.Scheduled)
      && Normalize(accounts).Some? && Normalize(media).Some?
      && DestinationAccounts(after.destinations, post) == Normalize(accounts).value
      && AttachedAs(after.attachments, post, Normalize(media).value) && OthersKept(db, after, post)
  {
    var after := SchedulePost(db, post, workspace, content, accounts, media).value;
    NormalizeFacts(media);
    NewPostEffect(db, after, post, Post(workspace, JobQueue.Scheduled), Normalize(accounts).value, Normalize(media).value);
  }

  lemma {:induction false} PruneKeepsOthers(rows: seq<Variant>, post: Id, accounts: seq<Id>, p: Id)
    requires p != post
    ensures VariantsOf(PruneVariants(rows, post, accounts), p) == VariantsOf(rows, p)
  {
    if rows != [] {
      var rest := PruneVariants(rows[1..], post, accounts);
      PruneKeepsOthers(rows[1..], post, accounts, p);
      if rows[0].post == post && rows[0].account !in accounts {
        assert PruneVariants(rows, post, accounts) == rest;
      } else {
        assert PruneVariants(rows, post, accounts)[1..] == rest;
      }
    }
  }

  /** A list that is given replaces what the post has, in normal form; one that is not leaves it alone. */
  ghost predicate Replaced(db: Db, after: Db, post: Id, accounts: Option<seq<Id>>, media: Option<seq<Id>>) {
    && DestinationAccounts(after.destinations, post) ==
         (if accounts.Some? then accounts.value else DestinationAccounts(db.destinations, post))
    && (forall v :: v in after.variants && v.post == post <==>
          v in db.variants && v.post == post && (accounts.Some? ==> v.account in accounts.value))
    && (if media.Some? then AttachedAs(after.attachments, post, media.value) else AttachmentsOf(after, post) == AttachmentsOf(db, post))
    && OthersKept(db, after, post)
  }

  lemma ReplaceEffect(db: Db, post: Id, accounts: Option<seq<Id>>, media: Option<seq<Id>>)
    requires media.Some? ==> Distinct(media.value)
    ensures Replaced(db, WithMedia(WithAccounts(db, post, accounts), post, media), post, accounts, media)
  {
    var after := WithMedia(WithAccounts(db, post, accounts), post, media);
    if accounts.Some? {
      PruneFacts(db.variants, post, accounts.value);
      AccountsAfterReplace(db.destinations, post, accounts.value, post);
    }
    if media.Some? {
      NewAttachments(Detach(db.attachments, post), post, media.value);
    }
    forall p | p != post
      ensures Kept(db, after, p)
    {
      ReplaceKeepsOther(db, post, accounts, media, p);
    }
  }

  lemma UpdateDraftEffect(db: Db, post: Id, workspace: Id, content: Option<string>, accounts: Option<seq<string>>, media: Option<seq<string>>)
    requires UpdateDraft(db, post, workspace, content, accounts, media).Some?
    ensures var after := UpdateDraft(db, post, workspace, content, accounts, media).value;
      && NormalizeOptional(accounts).Some? && NormalizeOptional(media).Some?
      && after.posts == db.posts && after.media == db.media && after.accounts == db.accounts
      && Replaced(db, after, post, NormalizeOptional(accounts).value, NormalizeOptional(media).value)
  {
    if media.Some? {
      NormalizeFacts(media.value);
    }
    ReplaceEffect(db, post, NormalizeOptional(accounts).value, NormalizeOptional(media).value);
  }

  lemma ScheduleDraftEffect(db: Db, post: Id, workspace: Id, accounts: Option<seq<string>>, media: Option<seq<string>>)
    requires ScheduleDraft(db, post, workspace, accounts, media).Some?
    ensures var after := ScheduleDraft(db, post, workspace, accounts, media).value;
      && NormalizeOptional(accounts).Some? && NormalizeOptional(media).Some?
      && post in after.posts && after.posts[post] == Post(workspace, JobQueue.Scheduled)
      && after.media == db.media && after.accounts == db.accounts
      && Replaced(db, after, post, NormalizeOptional(accounts).value, NormalizeOptional(media).value)
  {
    var accountIds, mediaIds := NormalizeOptional(accounts).value, NormalizeOptional(media).value;
    var scheduled := db.(posts := db.posts[post := db.posts[post].(status := JobQueue.Scheduled)]);
    if media.Some? {
      NormalizeFacts(media.value);
    }
    ReplaceEffect(scheduled, post, accountIds, mediaIds);
    StatusIsNoRow(db, scheduled, WithMedia(WithAccounts(scheduled, post, accountIds), post, mediaIds), post, accountIds, mediaIds);
  }

  /** Changing the status of the post first makes no difference to the rows. */
  lemma StatusIsNoRow(db: Db, scheduled: Db, after: Db, post: Id, accounts: Option<seq<Id>>, media: Option<seq<Id>>)
    requires post in db.posts && scheduled.posts.Keys == db.posts.Keys
    requires forall p :: p in db.posts && p != post ==> scheduled.posts[p] == db.posts[p]
    requires scheduled == db.(posts := scheduled.posts)
    requires Replaced(scheduled, after, post, accounts, media)
    ensures Replaced(db, after, post, accounts, media)
  {
    assert AttachmentsOf(scheduled, post) == AttachmentsOf(db, post);
    forall p | p != post
      ensures Kept(db, after, p)
    {
      assert Kept(scheduled, after, p);
      assert AttachmentsOf(scheduled, p) == AttachmentsOf(db, p);
    }
  }

  lemma ReplaceKeepsOther(db: Db, post: Id, accounts: Option<seq<Id>>, media: Option<seq<Id>>, p: Id)
    requires p != post
    ensures Kept(db, WithMedia(WithAccounts(db, post, accounts), post, media), p)
  {
    if accounts.Some? {
      AccountsAfterReplace(db.destinations, post, accounts.value, p);
      PruneKeepsOthers(db.variants, post, accounts.value, p);
    }
    if media.Some? {
      OtherAttachments(db, WithMedia(WithAccounts(db, post, accounts), post, media), post, media.value, p);
    }
  }

  function VariantFor(post: Id, r: Rendition): Variant
    requires Normalize(r.media).Some?
  {
    Variant(post, TrimSpace(r.account), r.content, Normalize(r.media).value)
  }

  lemma {:induction false} UpsertEffect(rows: seq<Variant>, post: Id, account: Id, content: string, media: seq<Id>)
    ensures Variant(post, account, content, media) in Upsert(rows, post, account, content, media)
    ensures forall v: Variant :: (v.post, v.account) != (post, account) ==> (v in Upsert(rows, post, account, content, media) <==> v in rows)
  {
    if rows != [] {
      assert rows == [rows[0]] + rows[1..];
      if rows[0].post == post && rows[0].account == account {
        assert Upsert(rows, post, account, content, media)[0] == Variant(post, account, content, media);
      } else {
        UpsertEffect(rows[1..], post, account, content, media);
      }
    }
  }

  lemma {:induction false} UpsertAllEffect(rows: seq<Variant>, post: Id, renditions: seq<Rendition>)
    requires forall r :: r in renditions ==> Normalize(r.media).Some?
    requires Distinct(RenditionAccounts(renditions))
    ensures forall r :: r in renditions ==> VariantFor(post, r) in UpsertAll(rows, post, renditions)
    ensures forall v: Variant :: v.post != post || v.account !in RenditionAccounts(renditions) ==>
      (v in UpsertAll(rows, post, renditions) <==> v in rows)
  {
    if renditions != [] {
      var n := |renditions| - 1;
      var front, last := renditions[..n], renditions[n];
      var accounts := RenditionAccounts(renditions);
      assert RenditionAccounts(front) == accounts[..n] && accounts[n] == TrimSpace(last.account);
      assert renditions == front + [last] && accounts == accounts[..n] + [accounts[n]];
      UpsertAllEffect(rows, post, front);
      UpsertEffect(UpsertAll(rows, post, front), post, TrimSpace(last.account), last.content, Normalize(last.media).value);
      forall r | r in front
        ensures VariantFor(post, r) in UpsertAll(rows, post, renditions)
      {
        RenditionAccountsMembers(front);
        assert TrimSpace(r.account) != accounts[n];
      }
    }
  }

  /** Accepted renditions are the variants of their accounts afterwards; all other variants stay as they were. */
  lemma SetPostRenditionsEffect(db: Db, post: Id, workspace: Id, renditions: seq<Rendition>)
    requires SetPostRenditions(db, post, workspace, renditions).Some?
    ensures var after := SetPostRenditions(db, post, workspace, renditions).value;
      && RenditionsOk(renditions)
      && (forall r :: r in renditions ==> VariantFor(post, r) in after.variants)
      && (forall v: Variant :: v.post != post || v.account !in RenditionAccounts(renditions) ==> (v in after.variants <==> v in db.variants))
      && after == db.(variants := after.variants)
  {
    UpsertAllEffect(db.variants, post, renditions);
  }

  // ----- an account listed twice -----

  /** The accounts "a" and "b" are connected, "a" is listed twice, and renditions are set for both. */
  function RepeatedAccountOps(): (ops: seq<Op>)
    ensures |ops| == 3
  {
    [AccountsOp(map["a" := Account("ws", true), "b" := Account("ws", true)]),
     CreateDraftOp("p", "ws", "hello", ["a", "a"], []),
     SetPostRenditionsOp("p", "ws", [Rendition("a", "for a", []), Rendition("b", "for b", [])])]
  }

  lemma TrimmedLetters()
    ensures TrimSpace("a") == "a" && TrimSpace("b") == "b"
    ensures !IsBlank("hello") && !IsBlank("for a") && !IsBlank("for b")
  {
    TrimSpaceFixedIff("a");
    TrimSpaceFixedIff("b");
    TrimSpaceFixedIff("hello");
    TrimSpaceFixedIff("for a");
    TrimSpaceFixedIff("for b");
  }

  lemma RepeatedDraftIsAccepted(db: Db)
    requires "p" !in db.posts && IsActive(db, "ws", "a") && db.destinations == []
    ensures CreateDraft(db, "p", "ws", "hello", ["a", "a"], []).Some?
    ensures var after := CreateDraft(db, "p", "ws", "hello", ["a", "a"], []).value;
      && after.destinations == [Destination("p", "a"), Destination("p", "a")]
      && IsDraft(after, "p", "ws") && after.accounts == db.accounts
  {
    TrimmedLetters();
    CreateDraftIff(db, "p", "ws", "hello", ["a", "a"], []);
    assert [] + DestinationRows("p", ["a", "a"]) == [Destination("p", "a"), Destination("p", "a")];
  }

  lemma RepeatedRenditionsAreAccepted(db: Db, renditions: seq<Rendition>)
    requires IsDraft(db, "p", "ws") && IsActive(db, "ws", "a") && IsActive(db, "ws", "b")
    requires db.destinations == [Destination("p", "a"), Destination("p", "a")]
    requires renditions == [Rendition("a", "for a", []), Rendition("b", "for b", [])]
    ensures SetPostRenditions(db, "p", "ws", renditions).Some?
    ensures var after := SetPostRenditions(db, "p", "ws", renditions).value;
      Variant("p", "b", "for b", []) in after.variants && after.destinations == db.destinations
  {
    TrimmedLetters();
    assert RenditionAccounts(renditions) == ["a", "b"];
    assert db.destinations == DestinationRows("p", ["a", "a"]);
    AccountsOfRows("p", ["a", "a"], "p");
    assert DestinationAccounts(db.destinations, "p") == ["a", "a"];
    assert ["a", "a"][1..] == ["a"] && ["a"][1..] == [];
    assert CountIn(["a"], ["a", "b"]) == 1;
    assert CountIn(["a", "a"], ["a", "b"]) == 2;
    SetPostRenditionsIff(db, "p", "ws", renditions);
    SetPostRenditionsEffect(db, "p", "ws", renditions);
    assert renditions[1] in renditions;
    assert VariantFor("p", renditions[1]) == Variant("p", "b", "for b", []);
  }

  /** From the empty tables, with literal requests: all are accepted, and the post has a variant for "b", to which it is not sent. */
  lemma RepeatedAccountRun()
    ensures Variant("p", "b", "for b", []) in Run(RepeatedAccountOps()).variants
    ensures Run(RepeatedAccountOps()).destinations == [Destination("p", "a"), Destination("p", "a")]
  {
    var ops := RepeatedAccountOps();
    var start := Db(map[], map[], map[], [], [], map[]);
    RunTwo(start, ops[0], ops[1]);
    RunOne(RunFrom(start, [ops[0], ops[1]]), ops[2]);
    RunFromConcat(start, [ops[0], ops[1]], [ops[2]]);
    assert ops == [ops[0], ops[1]] + [ops[2]];
    var connected := Exec(start, ops[0]);
    RepeatedDraftIsAccepted(connected);
    var drafted := Exec(connected, ops[1]);
    RepeatedRenditionsAreAccepted(drafted, ops[2].renditions);
    ExecRenditions(drafted, "p", "ws", ops[2].renditions);
  }
}
