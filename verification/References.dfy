/** References between posts, destinations, variants and media over every run of the handlers. */
module References {
  import opened Wrappers
  import opened GoStrings
  import opened Ids
  import JobQueue
  import opened Tables
  import opened RowFacts

  /** One request, one background cleanup, or one change made by code outside the model. */
  datatype Op =
    | CreateDraftOp(post: Id, workspace: Id, content: string, accounts: seq<string>, media: seq<string>)
    | SchedulePostOp(post: Id, workspace: Id, content: string, accounts: seq<string>, media: seq<string>)
    | UpdateDraftOp(post: Id, workspace: Id, text: Option<string>, newAccounts: Option<seq<string>>, newMedia: Option<seq<string>>)
    | ScheduleDraftOp(post: Id, workspace: Id, newAccounts: Option<seq<string>>, newMedia: Option<seq<string>>)
    | CancelPostOp(post: Id, workspace: Id)
    | SetPostRenditionsOp(post: Id, workspace: Id, renditions: seq<Rendition>)
    | DeleteMediaOp(request: Request, id: Id)
    | BatchDeleteOp(request: Request, ids: seq<Id>)
    | CleanupOp(workspace: Id, cutoff: int)
    | UploadOp(id: Id, row: Media)
    | FavoriteOp(id: Id, favorite: bool)
    | PublisherOp(post: Id, status: PostStatus)
    | AccountsOp(table: map<Id, Account>)

  function OrElse(result: Option<Db>, db: Db): Db {
    if result.Some? then result.value else db
  }

  /** Ids of new rows are fresh UUIDs; an operation that finds its id taken is not possible and changes nothing. */
  ghost function Exec(db: Db, op: Op): Db {
    match op
    case CreateDraftOp(p, ws, content, accounts, media) =>
      if p in db.posts then db else OrElse(CreateDraft(db, p, ws, content, accounts, media), db)
    case SchedulePostOp(p, ws, content, accounts, media) =>
      if p in db.posts then db else OrElse(SchedulePost(db, p, ws, content, accounts, media), db)
    case UpdateDraftOp(p, ws, text, accounts, media) => OrElse(UpdateDraft(db, p, ws, text, accounts, media), db)
    case ScheduleDraftOp(p, ws, accounts, media) => OrElse(ScheduleDraft(db, p, ws, accounts, media), db)
    case CancelPostOp(p, ws) => OrElse(CancelPost(db, p, ws), db)
    case SetPostRenditionsOp(p, ws, renditions) => OrElse(SetPostRenditions(db, p, ws, renditions), db)
    case DeleteMediaOp(request, id) => DeleteMedia(db, request, id)
    case BatchDeleteOp(request, ids) => BatchDelete(db, request, ids)
    case CleanupOp(ws, cutoff) => Cleanup(db, ws, cutoff)
    case UploadOp(id, row) => if id in db.media then db else db.(media := db.media[id := row])
    case FavoriteOp(id, favorite) =>
      if id in db.media then db.(media := db.media[id := db.media[id].(favorite := favorite)]) else db
    case PublisherOp(p, status) =>
      if p in db.posts && (status.Publishing? || status.Published? || status.PublishFailed?)
      then db.(posts := db.posts[p := db.posts[p].(status := status)]) else db
    case AccountsOp(table) => db.(accounts := table)
  }

  ghost function RunFrom(db: Db, ops: seq<Op>): Db {
    if ops == [] then db else Exec(RunFrom(db, ops[..|ops| - 1]), ops[|ops| - 1])
  }

  /** What a run makes of the empty tables. */
  ghost function Run(ops: seq<Op>): Db {
    RunFrom(Db(map[], map[], map[], [], [], map[]), ops)
  }

  lemma ExecRenditions(db: Db, post: Id, workspace: Id, renditions: seq<Rendition>)
    ensures Exec(db, SetPostRenditionsOp(post, workspace, renditions)) ==
            OrElse(SetPostRenditions(db, post, workspace, renditions), db)
  {
  }

  // ----- every media reference is good -----

  ghost predicate Owned(db: Db, post: Id, id: Id) {
    post in db.posts && id in db.media && db.media[id].workspace == db.posts[post].workspace
  }

  ghost predicate VariantOwned(db: Db, v: Variant) {
    v.post in db.posts && forall id :: id in v.media ==> Owned(db, v.post, id)
  }

  ghost predicate MediaInv(db: Db) {
    && (forall k :: k in db.attachments ==> Owned(db, k.0, k.1))
    && (forall v :: v in db.variants ==> VariantOwned(db, v))
  }

  /** Passing the counting check means that every id names a media row of the workspace. */
  lemma MediaOkMeans(db: Db, workspace: Id, ids: seq<string>)
    requires MediaOk(db, workspace, ids) && Normalize(ids).Some?
    ensures forall id :: id in Normalize(ids).value ==> id in db.media && db.media[id].workspace == workspace
  {
    if ids != [] {
      var unique := Normalize(ids).value;
      NormalizeFacts(ids);
      DistinctCardinality(unique);
      var found := set m | m in db.media && db.media[m].workspace == workspace && m in unique;
      SubsetOfSameSize(found, Elements(unique));
      assert forall id :: id in unique ==> id in Elements(unique);
    }
  }

  /** Rows of `after` keep the workspace they have in `before`. */
  ghost predicate Extends(before: Db, after: Db) {
    && (forall p :: p in before.posts ==> p in after.posts && after.posts[p].workspace == before.posts[p].workspace)
    && (forall m :: m in before.media ==> m in after.media && after.media[m].workspace == before.media[m].workspace)
  }

  lemma MediaInvFrame(before: Db, after: Db)
    requires MediaInv(before) && Extends(before, after)
    requires forall k :: k in after.attachments ==> k in before.attachments || Owned(after, k.0, k.1)
    requires forall v :: v in after.variants ==> v in before.variants || VariantOwned(after, v)
    ensures MediaInv(after)
  {
  }

  /** A new post with its destinations and attachments. */
  lemma MediaInvNewPost(db: Db, after: Db, post: Id, row: Post, media: seq<Id>)
    requires MediaInv(db) && post !in db.posts
    requires after.posts == db.posts[post := row] && after.media == db.media && after.variants == db.variants
    requires after.attachments == Attach(db.attachments, post, media)
    requires forall id :: id in media ==> id in db.media && db.media[id].workspace == row.workspace
    ensures MediaInv(after)
  {
    AttachFacts(db.attachments, post, media);
    MediaInvFrame(db, after);
  }

  /** Replacing destinations, pruning variants and replacing attachments of an existing post. */
  lemma MediaInvReplace(db: Db, post: Id, accounts: Option<seq<Id>>, media: Option<seq<Id>>)
    requires MediaInv(db) && post in db.posts
    requires media.Some? ==> forall id :: id in media.value ==> Owned(db, post, id)
    ensures MediaInv(WithMedia(WithAccounts(db, post, accounts), post, media))
  {
    var after := WithMedia(WithAccounts(db, post, accounts), post, media);
    if accounts.Some? {
      PruneFacts(db.variants, post, accounts.value);
    }
    if media.Some? {
      AttachFacts(Detach(db.attachments, post), post, media.value);
    }
    MediaInvFrame(db, after);
  }

  lemma OptionalMediaMeans(db: Db, workspace: Id, raw: Option<seq<string>>)
    requires NormalizeOptional(raw).Some? && OptionalMediaOk(db, workspace, NormalizeOptional(raw).value)
    ensures var media := NormalizeOptional(raw).value;
      media.Some? ==> forall id :: id in media.value ==> id in db.media && db.media[id].workspace == workspace
  {
    if raw.Some? {
      NormalizeIdempotent(raw.value);
      MediaOkMeans(db, workspace, Normalize(raw.value).value);
    }
  }

  lemma MediaInvDrafts(db: Db, op: Op)
    requires MediaInv(db)
    requires op.UpdateDraftOp? || op.ScheduleDraftOp?
    ensures MediaInv(Exec(db, op))
  {
    if Exec(db, op) != db {
      OptionalMediaMeans(db, op.workspace, op.newMedia);
      var accounts := NormalizeOptional(op.newAccounts).value;
      var media := NormalizeOptional(op.newMedia).value;
      if op.UpdateDraftOp? {
        MediaInvReplace(db, op.post, accounts, media);
      } else {
        var scheduled := db.(posts := db.posts[op.post := db.posts[op.post].(status := JobQueue.Scheduled)]);
        MediaInvFrame(db, scheduled);
        MediaInvReplace(scheduled, op.post, accounts, media);
      }
    }
  }

  lemma MediaInvNewPosts(db: Db, op: Op)
    requires MediaInv(db)
    requires op.CreateDraftOp? || op.SchedulePostOp?
    ensures MediaInv(Exec(db, op))
  {
    var after := Exec(db, op);
    if after != db {
      var media := Normalize(op.media).value;
      NormalizeIdempotent(op.media);
      MediaOkMeans(db, op.workspace, media);
      MediaInvNewPost(db, after, op.post, after.posts[op.post], media);
    }
  }

  lemma {:induction false} RenditionMediaMembers(renditions: seq<Rendition>)
    requires forall q :: q in renditions ==> Normalize(q.media).Some?
    ensures forall id :: id in RenditionMedia(renditions) ==> id != "" && Trimmed(id)
    ensures forall i, id :: 0 <= i < |renditions| && id in Normalize(renditions[i].media).value ==> id in RenditionMedia(renditions)
  {
    if renditions != [] {
      NormalizeFacts(renditions[0].media);
      RenditionMediaMembers(renditions[1..]);
      forall i, id | 0 <= i < |renditions| && id in Normalize(renditions[i].media).value
        ensures id in RenditionMedia(renditions)
      {
        if i > 0 {
          assert renditions[i] == renditions[1..][i - 1];
        }
      }
    }
  }

  /** Once the handler's check has passed, every media id of the renditions is one of the workspace. */
  lemma RenditionMediaMeans(db: Db, workspace: Id, renditions: seq<Rendition>)
    requires forall q :: q in renditions ==> Normalize(q.media).Some?
    requires MediaOk(db, workspace, RenditionMedia(renditions))
    ensures forall id :: id in RenditionMedia(renditions) ==> id in db.media && db.media[id].workspace == workspace
  {
    var all := RenditionMedia(renditions);
    if all != [] {
      RenditionMediaMembers(renditions);
      NormalizeFacts(all);
      MediaOkMeans(db, workspace, all);
      forall id | id in all
        ensures id in Normalize(all).value
      {
        TrimSpaceFixedIff(id);
      }
    }
  }

  /** A row of the upserted table is an old one, or one of the post with a rendition's account and media. */
  lemma {:induction false} UpsertAllMembers(rows: seq<Variant>, post: Id, renditions: seq<Rendition>, v: Variant)
    returns (i: int)
    requires forall r :: r in renditions ==> Normalize(r.media).Some?
    requires v in UpsertAll(rows, post, renditions)
    ensures -1 <= i < |renditions|
    ensures i < 0 ==> v in rows
    ensures i >= 0 ==>
      v.post == post && v.account == TrimSpace(renditions[i].account) && v.media == Normalize(renditions[i].media).value
  {
    if renditions == [] {
      i := -1;
    } else {
      var n := |renditions| - 1;
      var r := renditions[n];
      var before := UpsertAll(rows, post, renditions[..n]);
      UpsertMembers(before, post, TrimSpace(r.account), r.content, Normalize(r.media).value);
      if v in before {
        i := UpsertAllMembers(rows, post, renditions[..n], v);
      } else {
        i := n;
      }
    }
  }

  lemma MediaInvUpserts(db: Db, post: Id, workspace: Id, renditions: seq<Rendition>)
    requires MediaInv(db) && InWorkspace(db, post, workspace)
    requires forall q :: q in renditions ==> Normalize(q.media).Some?
    requires MediaOk(db, workspace, RenditionMedia(renditions))
    ensures MediaInv(db.(variants := UpsertAll(db.variants, post, renditions)))
  {
    var after := db.(variants := UpsertAll(db.variants, post, renditions));
    RenditionMediaMembers(renditions);
    RenditionMediaMeans(db, workspace, renditions);
    forall v | v in after.variants
      ensures VariantOwned(after, v)
    {
      var i := UpsertAllMembers(db.variants, post, renditions, v);
      assert i < 0 ==> VariantOwned(db, v);
    }
  }

  lemma MediaInvRenditions(db: Db, op: Op)
    requires MediaInv(db) && op.SetPostRenditionsOp?
    ensures MediaInv(Exec(db, op))
  {
    ExecRenditions(db, op.post, op.workspace, op.renditions);
    if SetPostRenditions(db, op.post, op.workspace, op.renditions).Some? {
      MediaInvUpserts(db, op.post, op.workspace, op.renditions);
    }
  }

  // ----- deletions -----

  lemma MediaInvDelete(db: Db, request: Request, id: Id)
    requires MediaInv(db)
    ensures MediaInv(DeleteMedia(db, request, id))
  {
    if CanDelete(db, request, id) {
      var workspace := db.media[id].workspace;
      var after := DeleteMedia(db, request, id);
      StripFacts(db, db.variants, workspace, id);
      forall v | v in after.variants
        ensures VariantOwned(after, v)
      {
        var i :| 0 <= i < |db.variants| && after.variants[i] == v;
        var was := db.variants[i];
        assert VariantOwned(db, was);
        WithoutFacts(was.media, id);
      }
    }
  }

  lemma {:induction false} MediaInvBatch(db: Db, request: Request, ids: seq<Id>)
    requires MediaInv(db)
    ensures MediaInv(BatchDelete(db, request, ids))
  {
    if ids != [] {
      MediaInvBatch(db, request, ids[..|ids| - 1]);
      MediaInvDelete(BatchDelete(db, request, ids[..|ids| - 1]), request, ids[|ids| - 1]);
    }
  }

  lemma MediaInvCleanup(db: Db, workspace: Id, cutoff: int)
    requires MediaInv(db)
    ensures MediaInv(Cleanup(db, workspace, cutoff))
  {
  }

  lemma MediaInvPostStatus(db: Db, post: Id, status: PostStatus)
    requires MediaInv(db) && post in db.posts
    ensures MediaInv(db.(posts := db.posts[post := db.posts[post].(status := status)]))
  {
  }

  lemma MediaInvMediaRow(db: Db, id: Id, row: Media)
    requires MediaInv(db) && (id in db.media ==> row.workspace == db.media[id].workspace)
    ensures MediaInv(db.(media := db.media[id := row]))
  {
  }

  lemma MediaInvAccounts(db: Db, table: map<Id, Account>)
    requires MediaInv(db)
    ensures MediaInv(db.(accounts := table))
  {
  }

  lemma MediaInvOthers(db: Db, op: Op)
    requires MediaInv(db)
    requires op.CancelPostOp? || op.UploadOp? || op.FavoriteOp? || op.PublisherOp? || op.AccountsOp?
    ensures MediaInv(Exec(db, op))
  {
    match op {
      case CancelPostOp(p, _) =>
        if p in db.posts {
          MediaInvPostStatus(db, p, JobQueue.Draft);
        }
      case PublisherOp(p, status) =>
        if p in db.posts {
          MediaInvPostStatus(db, p, status);
        }
      case UploadOp(id, row) =>
        if id !in db.media {
          MediaInvMediaRow(db, id, row);
        }
      case FavoriteOp(id, favorite) =>
        if id in db.media {
          MediaInvMediaRow(db, id, db.media[id].(favorite := favorite));
        }
      case AccountsOp(table) => MediaInvAccounts(db, table);
    }
  }

  lemma MediaInvStep(db: Db, op: Op)
    requires MediaInv(db)
    ensures MediaInv(Exec(db, op))
  {
    if op.CreateDraftOp? || op.SchedulePostOp? {
      MediaInvNewPosts(db, op);
    } else if op.UpdateDraftOp? || op.ScheduleDraftOp? {
      MediaInvDrafts(db, op);
    } else if op.SetPostRenditionsOp? {
      MediaInvRenditions(db, op);
    } else if op.DeleteMediaOp? {
      MediaInvDelete(db, op.request, op.id);
    } else if op.BatchDeleteOp? {
      MediaInvBatch(db, op.request, op.ids);
    } else if op.CleanupOp? {
      MediaInvCleanup(db, op.workspace, op.cutoff);
    } else {
      MediaInvOthers(db, op);
    }
  }

  /** After any run, every media id in post_media or in a variant names a media row of the post's workspace. */
  lemma {:induction false} NoDanglingMedia(ops: seq<Op>)
    ensures MediaInv(Run(ops))
  {
    if ops != [] {
      NoDanglingMedia(ops[..|ops| - 1]);
      MediaInvStep(Run(ops[..|ops| - 1]), ops[|ops| - 1]);
    }
  }

  // ----- deletions leave unpublished posts alone -----

  ghost function AttachmentsOf(db: Db, post: Id): map<Id, nat> {
    map k | k in db.attachments && k.0 == post :: k.1 := db.attachments[k]
  }

  ghost function VariantsOf(rows: seq<Variant>, post: Id): seq<Variant> {
    if rows == [] then []
    else (if rows[0].post == post then [rows[0]] else []) + VariantsOf(rows[1..], post)
  }

  lemma {:induction false} StripKeepsVariantsOf(db: Db, rows: seq<Variant>, workspace: Id, id: Id, post: Id)
    requires forall v :: v in rows && v.post == post ==> id !in v.media
    ensures VariantsOf(StripMedia(db, rows, workspace, id), post) == VariantsOf(rows, post)
  {
    if rows != [] {
      StripKeepsVariantsOf(db, rows[1..], workspace, id, post);
      WithoutFacts(rows[0].media, id);
      var head := if InWorkspace(db, rows[0].post, workspace) then rows[0].(media := Without(rows[0].media, id)) else rows[0];
      assert StripMedia(db, rows, workspace, id)[1..] == StripMedia(db, rows[1..], workspace, id);
      assert StripMedia(db, rows, workspace, id)[0] == head;
      if rows[0].post == post {
        assert head == rows[0];
      }
    }
  }

  /** The usage check, which looks only at posts of the media's workspace, sees every unpublished user. */
  lemma BlockedIff(db: Db, id: Id)
    requires MediaInv(db) && id in db.media
    ensures BlockingPosts(db, db.media[id].workspace, id) == {} <==>
            forall p :: p in db.posts && Uses(db, p, id) ==> db.posts[p].status.Published?
  {
    forall p | p in db.posts && Uses(db, p, id)
      ensures db.posts[p].workspace == db.media[id].workspace
    {
      if (p, id) in db.attachments {
        assert Owned(db, p, id);
      } else {
        var v :| v in db.variants && v.post == p && id in v.media;
        assert VariantOwned(db, v) && Owned(db, p, id);
      }
    }
    assert forall p :: p in db.posts && Uses(db, p, id) && !db.posts[p].status.Published? ==>
      p in BlockingPosts(db, db.media[id].workspace, id);
  }

  ghost predicate SameContent(before: Db, after: Db, post: Id) {
    && after.posts == before.posts
    && AttachmentsOf(after, post) == AttachmentsOf(before, post)
    && VariantsOf(after.variants, post) == VariantsOf(before.variants, post)
  }

  lemma DeleteKeepsUnpublished(db: Db, request: Request, id: Id, post: Id)
    requires MediaInv(db) && post in db.posts && !db.posts[post].status.Published?
    ensures SameContent(db, DeleteMedia(db, request, id), post)
  {
    if CanDelete(db, request, id) {
      BlockedIff(db, id);
      assert !Uses(db, post, id);
      StripKeepsVariantsOf(db, db.variants, db.media[id].workspace, id, post);
    }
  }

  lemma {:induction false} BatchKeepsUnpublished(db: Db, request: Request, ids: seq<Id>, post: Id)
    requires MediaInv(db) && post in db.posts && !db.posts[post].status.Published?
    ensures SameContent(db, BatchDelete(db, request, ids), post)
  {
    if ids != [] {
      var front := ids[..|ids| - 1];
      BatchKeepsUnpublished(db, request, front, post);
      MediaInvBatch(db, request, front);
      DeleteKeepsUnpublished(BatchDelete(db, request, front), request, ids[|ids| - 1], post);
    }
  }

  lemma CleanupKeepsUnpublished(db: Db, workspace: Id, cutoff: int, post: Id)
    ensures SameContent(db, Cleanup(db, workspace, cutoff), post)
  {
  }

  lemma DeletionKeepsUnpublished(db: Db, op: Op, post: Id)
    requires op.DeleteMediaOp? || op.BatchDeleteOp? || op.CleanupOp?
    requires MediaInv(db) && post in db.posts && !db.posts[post].status.Published?
    ensures SameContent(db, Exec(db, op), post)
  {
    match op {
      case DeleteMediaOp(request, id) => DeleteKeepsUnpublished(db, request, id, post);
      case BatchDeleteOp(request, ids) => BatchKeepsUnpublished(db, request, ids, post);
      case CleanupOp(workspace, cutoff) => CleanupKeepsUnpublished(db, workspace, cutoff, post);
    }
  }

  /** No deletion, whether asked for or in the background, changes the attachments of an unpublished post. */
  lemma DeletionsKeepUnpublished(ops: seq<Op>, op: Op, post: Id)
    requires op.DeleteMediaOp? || op.BatchDeleteOp? || op.CleanupOp?
    requires post in Run(ops).posts && !Run(ops).posts[post].status.Published?
    ensures SameContent(Run(ops), Exec(Run(ops), op), post)
  {
    NoDanglingMedia(ops);
    DeletionKeepsUnpublished(Run(ops), op, post);
  }

  /** The cleanup looks only at variants of its workspace, yet removes exactly what no post at all uses. */
  lemma CleanupRemovesIff(db: Db, workspace: Id, cutoff: int, id: Id)
    requires MediaInv(db) && id in db.media
    ensures id !in Cleanup(db, workspace, cutoff).media <==>
            && db.media[id].workspace == workspace && !db.media[id].favorite && db.media[id].createdAt < cutoff
            && forall p :: !Uses(db, p, id)
  {
    if db.media[id].workspace == workspace {
      forall v | v in db.variants && id in v.media
        ensures InWorkspace(db, v.post, workspace) && Uses(db, v.post, id)
      {
        assert VariantOwned(db, v) && Owned(db, v.post, id);
      }
      forall k | k in db.attachments && k.1 == id
        ensures Uses(db, k.0, id)
      {
        assert (k.0, id) == k;
      }
      assert forall p :: (p, id) in db.attachments ==> (p, id).1 == id;
    }
  }

  // ----- a batch of deletions -----

  /** Deleting one media row does not change who uses another. */
  lemma UsesAfterDelete(db: Db, request: Request, other: Id, id: Id, p: Id)
    requires id != other
    ensures Uses(DeleteMedia(db, request, other), p, id) <==> Uses(db, p, id)
  {
    if CanDelete(db, request, other) {
      var after := DeleteMedia(db, request, other);
      StripFacts(db, db.variants, db.media[other].workspace, other);
      forall i | 0 <= i < |db.variants|
        ensures after.variants[i].post == db.variants[i].post
        ensures id in after.variants[i].media <==> id in db.variants[i].media
      {
        WithoutFacts(db.variants[i].media, other);
      }
      if v :| v in db.variants && v.post == p && id in v.media {
        var i :| 0 <= i < |db.variants| && db.variants[i] == v;
        assert after.variants[i] in after.variants;
      }
      if v :| v in after.variants && v.post == p && id in v.media {
        var i :| 0 <= i < |after.variants| && after.variants[i] == v;
        assert db.variants[i] in db.variants;
      }
    }
  }

  lemma CanDeleteAfterDelete(db: Db, request: Request, other: Id, id: Id)
    ensures CanDelete(DeleteMedia(db, request, other), request, id) <==>
            CanDelete(db, request, id) && id != other
  {
    if id != other && id in db.media {
      var after, workspace := DeleteMedia(db, request, other), db.media[id].workspace;
      forall p
        ensures Uses(after, p, id) <==> Uses(db, p, id)
      {
        UsesAfterDelete(db, request, other, id, p);
      }
      assert BlockingPosts(after, workspace, id) == BlockingPosts(db, workspace, id);
    }
  }

  lemma {:induction false} CanDeleteAfterBatch(db: Db, request: Request, ids: seq<Id>, id: Id)
    ensures CanDelete(BatchDelete(db, request, ids), request, id) <==> CanDelete(db, request, id) && id !in ids
  {
    if ids != [] {
      var front, last := ids[..|ids| - 1], ids[|ids| - 1];
      CanDeleteAfterBatch(db, request, front, id);
      CanDeleteAfterDelete(BatchDelete(db, request, front), request, last, id);
      assert ids == front + [last];
    }
  }

  /**
   What a batch removes is decided by the tables before it: the listed media that could be deleted then,
   whatever the order of the list.
   */
  lemma {:induction false} BatchDeletesIff(db: Db, request: Request, ids: seq<Id>, id: Id)
    ensures id in BatchDelete(db, request, ids).media <==> id in db.media && !(id in ids && CanDelete(db, request, id))
  {
    if ids != [] {
      var front, last := ids[..|ids| - 1], ids[|ids| - 1];
      BatchDeletesIff(db, request, front, id);
      CanDeleteAfterBatch(db, request, front, last);
      assert ids == front + [last];
    }
  }

  // ----- attachments stay in order -----

  /** No two attachments of a post have the same display_order. */
  ghost predicate Ordered(attachments: map<(Id, Id), nat>) {
    forall k, l :: k in attachments && l in attachments && k.0 == l.0 && attachments[k] == attachments[l] ==> k == l
  }

  lemma OrderedAttach(attachments: map<(Id, Id), nat>, post: Id, media: seq<Id>)
    requires Ordered(attachments) && Distinct(media)
    requires forall k :: k in attachments ==> k.0 != post
    ensures Ordered(Attach(attachments, post, media))
  {
    var after := Attach(attachments, post, media);
    AttachFacts(attachments, post, media);
    forall k, l | k in after && l in after && k.0 == l.0 && after[k] == after[l]
      ensures k == l
    {
      if k.0 == post {
        var i :| 0 <= i < |media| && media[i] == k.1;
        var j :| 0 <= j < |media| && media[j] == l.1;
        assert after[(post, media[i])] == i && after[(post, media[j])] == j;
      }
    }
  }

  lemma OrderedFewer(before: map<(Id, Id), nat>, after: map<(Id, Id), nat>)
    requires Ordered(before) && after.Keys <= before.Keys && forall k :: k in after ==> after[k] == before[k]
    ensures Ordered(after)
  {
  }

  lemma OrderedNewPosts(db: Db, op: Op)
    requires MediaInv(db) && Ordered(db.attachments)
    requires op.CreateDraftOp? || op.SchedulePostOp?
    ensures Ordered(Exec(db, op).attachments)
  {
    if Exec(db, op) != db {
      NormalizeFacts(op.media);
      assert forall k :: k in db.attachments ==> Owned(db, k.0, k.1);
      OrderedAttach(db.attachments, op.post, Normalize(op.media).value);
    }
  }

  lemma OrderedReplace(db: Db, post: Id, accounts: Option<seq<Id>>, media: Option<seq<Id>>)
    requires Ordered(db.attachments) && (media.Some? ==> Distinct(media.value))
    ensures Ordered(WithMedia(WithAccounts(db, post, accounts), post, media).attachments)
  {
    if media.Some? {
      OrderedFewer(db.attachments, Detach(db.attachments, post));
      OrderedAttach(Detach(db.attachments, post), post, media.value);
    }
  }

  lemma OrderedDrafts(db: Db, op: Op)
    requires Ordered(db.attachments)
    requires op.UpdateDraftOp? || op.ScheduleDraftOp?
    ensures Ordered(Exec(db, op).attachments)
  {
    if Exec(db, op) != db {
      var accounts := NormalizeOptional(op.newAccounts).value;
      var media := NormalizeOptional(op.newMedia).value;
      if media.Some? {
        NormalizeFacts(op.newMedia.value);
      }
      if op.UpdateDraftOp? {
        OrderedReplace(db, op.post, accounts, media);
      } else {
        OrderedReplace(db.(posts := db.posts[op.post := db.posts[op.post].(status := JobQueue.Scheduled)]), op.post, accounts, media);
      }
    }
  }

  /** Deletions only take attachments away: whatever is left keeps its place. */
  lemma {:induction false} BatchTakesAway(db: Db, request: Request, ids: seq<Id>)
    ensures BatchDelete(db, request, ids).attachments.Keys <= db.attachments.Keys
    ensures forall k :: k in BatchDelete(db, request, ids).attachments ==>
      BatchDelete(db, request, ids).attachments[k] == db.attachments[k]
  {
    if ids != [] {
      BatchTakesAway(db, request, ids[..|ids| - 1]);
    }
  }

  lemma OrderedStep(db: Db, op: Op)
    requires MediaInv(db) && Ordered(db.attachments)
    ensures Ordered(Exec(db, op).attachments)
  {
    if op.CreateDraftOp? || op.SchedulePostOp? {
      OrderedNewPosts(db, op);
    } else if op.UpdateDraftOp? || op.ScheduleDraftOp? {
      OrderedDrafts(db, op);
    } else if op.BatchDeleteOp? {
      BatchTakesAway(db, op.request, op.ids);
      OrderedFewer(db.attachments, Exec(db, op).attachments);
    } else {
      OrderedFewer(db.attachments, Exec(db, op).attachments);
    }
  }

  /** After any run, the display_orders of a post's attachments are all different, gaps or not. */
  lemma {:induction false} AttachmentsStayOrdered(ops: seq<Op>)
    ensures Ordered(Run(ops).attachments)
  {
    if ops != [] {
      AttachmentsStayOrdered(ops[..|ops| - 1]);
      NoDanglingMedia(ops[..|ops| - 1]);
      OrderedStep(Run(ops[..|ops| - 1]), ops[|ops| - 1]);
    }
  }
}
