/**
 Posts, their destinations, variants and media, and what the MCP handlers, the media handlers and the
 media cleanup do to these rows. Each handler is a function from tables to tables; a handler that
 refuses its input leaves them alone. Id lists stored as JSON are sequences here.
 */
module Tables {
  import opened Wrappers
  import opened GoStrings
  import opened Ids
  import JobQueue

  type Id = string
  type PostStatus = JobQueue.PostStatus

  datatype Account = Account(workspace: Id, active: bool)

  datatype Media = Media(workspace: Id, favorite: bool, createdAt: int)

  datatype Post = Post(workspace: Id, status: PostStatus)

  datatype Destination = Destination(post: Id, account: Id)

  datatype Variant = Variant(post: Id, account: Id, content: string, media: seq<Id>)

  /** `attachments` is the post_media table: (post, media) to display_order. */
  datatype Db = Db(
    accounts: map<Id, Account>,
    media: map<Id, Media>,
    posts: map<Id, Post>,
    destinations: seq<Destination>,
    variants: seq<Variant>,
    attachments: map<(Id, Id), nat>)

  datatype Rendition = Rendition(account: string, content: string, media: seq<string>)

  // ----- validation -----

  predicate IsBlank(s: string) {
    TrimSpace(s) == ""
  }

  /** ensureActiveAccounts: as many active accounts of the workspace as distinct trimmed ids. */
  predicate AccountsOk(db: Db, workspace: Id, ids: seq<string>) {
    ids == [] ||
    match Normalize(ids)
    case None => false
    case Some(unique) =>
      |set a | a in db.accounts && db.accounts[a].workspace == workspace && db.accounts[a].active && a in unique| == |unique|
  }

  /** ensureMediaBelongsToWorkspace, by counting rows. */
  predicate MediaOk(db: Db, workspace: Id, ids: seq<string>) {
    ids == [] ||
    match Normalize(ids)
    case None => false
    case Some(unique) =>
      |set m | m in db.media && db.media[m].workspace == workspace && m in unique| == |unique|
  }

  /** How many destination rows of the post name one of the accounts. */
  function CountRows(rows: seq<Destination>, post: Id, accounts: seq<Id>): nat {
    if rows == [] then 0
    else CountRows(rows[1..], post, accounts) + if rows[0].post == post && rows[0].account in accounts then 1 else 0
  }

  /** ensurePostDestinationAccounts: it compares the number of rows with the number of accounts. */
  predicate DestinationsOk(db: Db, post: Id, ids: seq<string>) {
    ids == [] ||
    match Normalize(ids)
    case None => false
    case Some(unique) => CountRows(db.destinations, post, unique) == |unique|
  }

  // ----- row changes -----

  function DestinationRows(post: Id, accounts: seq<Id>): seq<Destination> {
    seq(|accounts|, i requires 0 <= i < |accounts| => Destination(post, accounts[i]))
  }

  function OtherDestinations(rows: seq<Destination>, post: Id): seq<Destination> {
    if rows == [] then []
    else (if rows[0].post == post then [] else [rows[0]]) + OtherDestinations(rows[1..], post)
  }

  function ReplaceDestinations(rows: seq<Destination>, post: Id, accounts: seq<Id>): seq<Destination> {
    OtherDestinations(rows, post) + DestinationRows(post, accounts)
  }

  /** The variants that stay when those of the post for other accounts are deleted. */
  function PruneVariants(rows: seq<Variant>, post: Id, accounts: seq<Id>): seq<Variant> {
    if rows == [] then []
    else (if rows[0].post == post && rows[0].account !in accounts then [] else [rows[0]]) +
         PruneVariants(rows[1..], post, accounts)
  }

  /** post_media rows for the list, display_order being the position. */
  function Attach(attachments: map<(Id, Id), nat>, post: Id, media: seq<Id>): map<(Id, Id), nat> {
    if media == [] then attachments
    else Attach(attachments, post, media[..|media| - 1])[(post, media[|media| - 1]) := |media| - 1]
  }

  function Detach(attachments: map<(Id, Id), nat>, post: Id): map<(Id, Id), nat> {
    map k | k in attachments && k.0 != post :: attachments[k]
  }

  function Upsert(rows: seq<Variant>, post: Id, account: Id, content: string, media: seq<Id>): seq<Variant> {
    if rows == [] then [Variant(post, account, content, media)]
    else if rows[0].post == post && rows[0].account == account then [rows[0].(content := content, media := media)] + rows[1..]
    else [rows[0]] + Upsert(rows[1..], post, account, content, media)
  }

  function UpsertAll(rows: seq<Variant>, post: Id, renditions: seq<Rendition>): seq<Variant>
    requires forall r :: r in renditions ==> Normalize(r.media).Some?
  {
    if renditions == [] then rows
    else
      var r := renditions[|renditions| - 1];
      Upsert(UpsertAll(rows, post, renditions[..|renditions| - 1]), post, TrimSpace(r.account), r.content, Normalize(r.media).value)
  }

  function Without(media: seq<Id>, id: Id): seq<Id> {
    if media == [] then [] else (if media[0] == id then [] else [media[0]]) + Without(media[1..], id)
  }

  predicate InWorkspace(db: Db, post: Id, workspace: Id) {
    post in db.posts && db.posts[post].workspace == workspace
  }

  function StripMedia(db: Db, rows: seq<Variant>, workspace: Id, id: Id): seq<Variant> {
    if rows == [] then []
    else [if InWorkspace(db, rows[0].post, workspace) then rows[0].(media := Without(rows[0].media, id)) else rows[0]] +
         StripMedia(db, rows[1..], workspace, id)
  }

  // ----- create_draft, schedule_post, update_draft, schedule_draft, cancel_post -----

  function CreateDraft(db: Db, post: Id, workspace: Id, content: string, accounts: seq<string>, media: seq<string>): Option<Db>
    requires post !in db.posts
  {
    if IsBlank(content) || !AccountsOk(db, workspace, accounts) then None
    else
      match Normalize(media)
      case None => None
      case Some(mediaIds) =>
        if !MediaOk(db, workspace, mediaIds) then None
        else
          Some(db.(posts := db.posts[post := Post(workspace, JobQueue.Draft)],
                   destinations := db.destinations + DestinationRows(post, accounts),
                   attachments := Attach(db.attachments, post, mediaIds)))
  }

  function SchedulePost(db: Db, post: Id, workspace: Id, content: string, accounts: seq<string>, media: seq<string>): Option<Db>
    requires post !in db.posts
  {
    match (Normalize(accounts), Normalize(media))
    case (Some(accountIds), Some(mediaIds)) =>
      if IsBlank(content) || accountIds == [] || !AccountsOk(db, workspace, accountIds) || !MediaOk(db, workspace, mediaIds)
      then None
      else
        Some(db.(posts := db.posts[post := Post(workspace, JobQueue.Scheduled)],
                 destinations := db.destinations + DestinationRows(post, accountIds),
                 attachments := Attach(db.attachments, post, mediaIds)))
    case _ => None
  }

  /** An optional id list: absent, or present and normalised; None when it is malformed. */
  function NormalizeOptional(ids: Option<seq<string>>): Option<Option<seq<string>>> {
    match ids
    case None => Some(None)
    case Some(list) =>
      match Normalize(list)
      case None => None
      case Some(unique) => Some(Some(unique))
  }

  function WithAccounts(db: Db, post: Id, accounts: Option<seq<Id>>): Db {
    match accounts
    case None => db
    case Some(ids) =>
      db.(destinations := ReplaceDestinations(db.destinations, post, ids), variants := PruneVariants(db.variants, post, ids))
  }

  function WithMedia(db: Db, post: Id, media: Option<seq<Id>>): Db {
    match media
    case None => db
    case Some(ids) => db.(attachments := Attach(Detach(db.attachments, post), post, ids))
  }

  predicate OptionalAccountsOk(db: Db, workspace: Id, accounts: Option<seq<Id>>) {
    accounts.None? || AccountsOk(db, workspace, accounts.value)
  }

  predicate OptionalMediaOk(db: Db, workspace: Id, media: Option<seq<Id>>) {
    media.None? || MediaOk(db, workspace, media.value)
  }

  predicate IsDraft(db: Db, post: Id, workspace: Id) {
    InWorkspace(db, post, workspace) && db.posts[post].status.Draft?
  }

  function UpdateDraft(db: Db, post: Id, workspace: Id, content: Option<string>,
                       accounts: Option<seq<string>>, media: Option<seq<string>>): Option<Db> {
    match (NormalizeOptional(accounts), NormalizeOptional(media))
    case (Some(accountIds), Some(mediaIds)) =>
      if !IsDraft(db, post, workspace) || (content.None? && accounts.None? && media.None?) ||
         (content.Some? && IsBlank(content.value)) ||
         !OptionalAccountsOk(db, workspace, accountIds) || !OptionalMediaOk(db, workspace, mediaIds)
      then None
      else Some(WithMedia(WithAccounts(db, post, accountIds), post, mediaIds))
    case _ => None
  }

  function OneAccount(row: Destination, post: Id): seq<Id> {
    if row.post == post then [row.account] else []
  }

  /** The accounts of the destination rows of a post. */
  function DestinationAccounts(rows: seq<Destination>, post: Id): seq<Id> {
    if rows == [] then []
    else OneAccount(rows[0], post) + DestinationAccounts(rows[1..], post)
  }

  function ScheduleDraft(db: Db, post: Id, workspace: Id, accounts: Option<seq<string>>, media: Option<seq<string>>): Option<Db> {
    match (NormalizeOptional(accounts), NormalizeOptional(media))
    case (Some(accountIds), Some(mediaIds)) =>
      var targets := if accountIds.Some? then accountIds.value else DestinationAccounts(db.destinations, post);
      if !IsDraft(db, post, workspace) || targets == [] || !AccountsOk(db, workspace, targets) ||
         !OptionalMediaOk(db, workspace, mediaIds)
      then None
      else
        var scheduled := db.(posts := db.posts[post := db.posts[post].(status := JobQueue.Scheduled)]);
        Some(WithMedia(WithAccounts(scheduled, post, accountIds), post, mediaIds))
    case _ => None
  }

  function CancelPost(db: Db, post: Id, workspace: Id): Option<Db> {
    if !InWorkspace(db, post, workspace) || db.posts[post].status.Published? || db.posts[post].status.Publishing? then None
    else Some(db.(posts := db.posts[post := db.posts[post].(status := JobQueue.Draft)]))
  }

  // ----- set_post_renditions -----

  function RenditionAccounts(renditions: seq<Rendition>): seq<Id> {
    seq(|renditions|, i requires 0 <= i < |renditions| => TrimSpace(renditions[i].account))
  }

  function RenditionMedia(renditions: seq<Rendition>): seq<Id>
    requires forall r :: r in renditions ==> Normalize(r.media).Some?
  {
    if renditions == [] then [] else Normalize(renditions[0].media).value + RenditionMedia(renditions[1..])
  }

  /** validateMCPRenditionRequests. */
  ghost predicate RenditionsOk(renditions: seq<Rendition>) {
    && Distinct(RenditionAccounts(renditions))
    && forall r :: r in renditions ==> !IsBlank(r.account) && !IsBlank(r.content) && Normalize(r.media).Some?
  }

  ghost function SetPostRenditions(db: Db, post: Id, workspace: Id, renditions: seq<Rendition>): Option<Db> {
    if renditions == [] || !InWorkspace(db, post, workspace) ||
       db.posts[post].status.Published? || db.posts[post].status.Publishing? || !RenditionsOk(renditions)
    then None
    else if !AccountsOk(db, workspace, RenditionAccounts(renditions)) ||
            !DestinationsOk(db, post, RenditionAccounts(renditions)) ||
            !MediaOk(db, workspace, RenditionMedia(renditions))
    then None
    else Some(db.(variants := UpsertAll(db.variants, post, renditions)))
  }

  // ----- deleting media -----

  /** Does the post use the media, as an attachment or in a variant? */
  predicate Uses(db: Db, post: Id, id: Id) {
    (post, id) in db.attachments || exists v :: v in db.variants && v.post == post && id in v.media
  }

  /** Posts of the workspace that use the media and are not published. */
  function BlockingPosts(db: Db, workspace: Id, id: Id): set<Id> {
    set p | p in db.posts && db.posts[p].workspace == workspace && Uses(db, p, id) && !db.posts[p].status.Published?
  }

  function RemoveMediaReferences(db: Db, workspace: Id, id: Id): Db {
    db.(attachments := map k | k in db.attachments && k.1 != id :: db.attachments[k],
        variants := StripMedia(db, db.variants, workspace, id))
  }

  /** Who asks, and which blobs the storage refuses to delete. */
  datatype Request = Request(workspaces: set<Id>, undeletable: set<Id>)

  predicate CanDelete(db: Db, request: Request, id: Id) {
    && id in db.media
    && db.media[id].workspace in request.workspaces
    && BlockingPosts(db, db.media[id].workspace, id) == {}
    && id !in request.undeletable
  }

  function DeleteMedia(db: Db, request: Request, id: Id): Db {
    if !CanDelete(db, request, id) then db
    else
      var removed := RemoveMediaReferences(db, db.media[id].workspace, id);
      removed.(media := removed.media - {id})
  }

  function BatchDelete(db: Db, request: Request, ids: seq<Id>): Db {
    if ids == [] then db
    else DeleteMedia(BatchDelete(db, request, ids[..|ids| - 1]), request, ids[|ids| - 1])
  }

  /** The ids that a batch reports as failed: not deletable, or listed before. */
  function BatchFailures(db: Db, request: Request, ids: seq<Id>): seq<Id> {
    if ids == [] then []
    else
      var front, last := ids[..|ids| - 1], ids[|ids| - 1];
      BatchFailures(db, request, front) + if CanDelete(db, request, last) && last !in front then [] else [last]
  }

  /** The rows that a cleanup with this cutoff removes. */
  predicate IsUnused(db: Db, workspace: Id, cutoff: int, id: Id) {
    && id in db.media
    && db.media[id].workspace == workspace && !db.media[id].favorite && db.media[id].createdAt < cutoff
    && (forall k :: k in db.attachments ==> k.1 != id)
    && (forall v :: v in db.variants && InWorkspace(db, v.post, workspace) ==> id !in v.media)
  }

  function Cleanup(db: Db, workspace: Id, cutoff: int): Db {
    db.(media := map m | m in db.media && !IsUnused(db, workspace, cutoff, m) :: db.media[m])
  }
}
