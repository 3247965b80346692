/** The handlers themselves, working on the tables in place; each is proved to do what `Tables` says. */
module Handlers {
  import opened Wrappers
  import opened GoStrings
  import opened Ids
  import opened Sequences
  import JobQueue
  import opened Tables
  import opened RowFacts
  import opened References

  const NANOS_PER_DAY: int := 24 * 3_600_000_000_000

  class Handler {
    var db: Db

    constructor (db: Db)
      ensures this.db == db
    {
      this.db := db;
    }

    // ----- posts -----

    method InsertPostMedia(post: Id, media: seq<Id>)
      modifies this
      ensures db == old(db).(attachments := Attach(old(db).attachments, post, media))
    {
      for i := 0 to |media|
        invariant db == old(db).(attachments := Attach(old(db).attachments, post, media[..i]))
      {
        assert media[..i + 1][..i] == media[..i];
        db := db.(attachments := db.attachments[(post, media[i]) := i]);
      }
      assert media[..|media|] == media;
    }

    method ReplacePostMedia(post: Id, media: seq<Id>)
      modifies this
      ensures db == old(db).(attachments := Attach(Detach(old(db).attachments, post), post, media))
    {
      db := db.(attachments := map k | k in db.attachments && k.0 != post :: db.attachments[k]);
      InsertPostMedia(post, media);
    }

    method InsertDestinations(post: Id, accounts: seq<Id>)
      modifies this
      ensures db == old(db).(destinations := old(db).destinations + DestinationRows(post, accounts))
    {
      var rows: seq<Destination> := [];
      for i := 0 to |accounts|
        invariant rows == DestinationRows(post, accounts[..i])
      {
        rows := rows + [Destination(post, accounts[i])];
      }
      assert accounts[..|accounts|] == accounts;
      db := db.(destinations := db.destinations + rows);
    }

    method ReplacePostDestinations(post: Id, accounts: seq<Id>)
      modifies this
      ensures db == old(db).(destinations := ReplaceDestinations(old(db).destinations, post, accounts))
    {
      db := db.(destinations := OtherDestinations(db.destinations, post));
      if accounts == [] {
        assert OtherDestinations(old(db).destinations, post) + DestinationRows(post, accounts) ==
               OtherDestinations(old(db).destinations, post);
        return;
      }
      InsertDestinations(post, accounts);
    }

    method CreateDraft(post: Id, workspace: Id, content: string, accounts: seq<string>, media: seq<string>) returns (ok: bool)
      requires post !in db.posts
      modifies this
      ensures ok == Tables.CreateDraft(old(db), post, workspace, content, accounts, media).Some?
      ensures db == OrElse(Tables.CreateDraft(old(db), post, workspace, content, accounts, media), old(db))
    {
      if IsBlank(content) || !AccountsOk(db, workspace, accounts) {
        return false;
      }
      var mediaIds := NormalizeMCPIDs(media);
      if mediaIds.None? || !MediaOk(db, workspace, mediaIds.value) {
        return false;
      }
      db := db.(posts := db.posts[post := Post(workspace, JobQueue.Draft)]);
      InsertDestinations(post, accounts);
      InsertPostMedia(post, mediaIds.value);
      ok := true;
    }

    method SchedulePost(post: Id, workspace: Id, content: string, accounts: seq<string>, media: seq<string>) returns (ok: bool)
      requires post !in db.posts
      modifies this
      ensures ok == Tables.SchedulePost(old(db), post, workspace, content, accounts, media).Some?
      ensures db == OrElse(Tables.SchedulePost(old(db), post, workspace, content, accounts, media), old(db))
    {
      if IsBlank(content) {
        return false;
      }
      var accountIds := NormalizeMCPIDs(accounts);
      if accountIds.None? || accountIds.value == [] || !AccountsOk(db, workspace, accountIds.value) {
        return false;
      }
      var mediaIds := NormalizeMCPIDs(media);
      if mediaIds.None? || !MediaOk(db, workspace, mediaIds.value) {
        return false;
      }
      db := db.(posts := db.posts[post := Post(workspace, JobQueue.Scheduled)]);
      InsertDestinations(post, accountIds.value);
      InsertPostMedia(post, mediaIds.value);
      ok := true;
    }

    method NormalizeOptionalIDs(ids: Option<seq<string>>) returns (result: Option<Option<seq<string>>>)
      ensures result == NormalizeOptional(ids)
    {
      if ids.None? {
        return Some(None);
      }
      var unique := NormalizeMCPIDs(ids.value);
      result := if unique.None? then None else Some(unique);
    }

    /** The transaction that update_draft and schedule_draft share. */
    method ReplaceRows(post: Id, accounts: Option<seq<Id>>, media: Option<seq<Id>>)
      modifies this
      ensures db == WithMedia(WithAccounts(old(db), post, accounts), post, media)
    {
      if accounts.Some? {
        ReplacePostDestinations(post, accounts.value);
        db := db.(variants := PruneVariants(db.variants, post, accounts.value));
      }
      if media.Some? {
        ReplacePostMedia(post, media.value);
      }
    }

    method UpdateDraft(post: Id, workspace: Id, content: Option<string>, accounts: Option<seq<string>>, media: Option<seq<string>>)
      returns (ok: bool)
      modifies this
      ensures ok == Tables.UpdateDraft(old(db), post, workspace, content, accounts, media).Some?
      ensures db == OrElse(Tables.UpdateDraft(old(db), post, workspace, content, accounts, media), old(db))
    {
      if !IsDraft(db, post, workspace) || (content.None? && accounts.None? && media.None?) ||
         (content.Some? && IsBlank(content.value)) {
        return false;
      }
      var accountIds := NormalizeOptionalIDs(accounts);
      if accountIds.None? || !OptionalAccountsOk(db, workspace, accountIds.value) {
        return false;
      }
      var mediaIds := NormalizeOptionalIDs(media);
      if mediaIds.None? || !OptionalMediaOk(db, workspace, mediaIds.value) {
        return false;
      }
      ReplaceRows(post, accountIds.value, mediaIds.value);
      ok := true;
    }

    method ScheduleDraft(post: Id, workspace: Id, accounts: Option<seq<string>>, media: Option<seq<string>>) returns (ok: bool)
      modifies this
      ensures ok == Tables.ScheduleDraft(old(db), post, workspace, accounts, media).Some?
      ensures db == OrElse(Tables.ScheduleDraft(old(db), post, workspace, accounts, media), old(db))
    {
      if !IsDraft(db, post, workspace) {
        return false;
      }
      var accountIds := NormalizeOptionalIDs(accounts);
      if accountIds.None? {
        return false;
      }
      var targets := if accountIds.value.Some? then accountIds.value.value else DestinationAccounts(db.destinations, post);
      if targets == [] || !AccountsOk(db, workspace, targets) {
        return false;
      }
      var mediaIds := NormalizeOptionalIDs(media);
      if mediaIds.None? || !OptionalMediaOk(db, workspace, mediaIds.value) {
        return false;
      }
      db := db.(posts := db.posts[post := db.posts[post].(status := JobQueue.Scheduled)]);
      ReplaceRows(post, accountIds.value, mediaIds.value);
      ok := true;
    }

    // ----- renditions -----

    /** validateMCPRenditionRequests: the account and media ids, or None for a malformed request. */
    method ValidateRenditions(renditions: seq<Rendition>) returns (ids: Option<(seq<Id>, seq<Id>)>)
      ensures ids.Some? <==> RenditionsOk(renditions)
      ensures ids.Some? ==> ids.value.0 == RenditionAccounts(renditions)
      ensures ids.Some? ==> Some(ids.value.1) == Normalize(RenditionMedia(renditions))
    {
      var accounts: seq<Id> := [];
      var media: seq<Id> := [];
      var seen: set<Id> := {};
      ghost var all := RenditionAccounts(renditions);
      for i := 0 to |renditions|
        invariant ScannedAccounts(all, i, accounts, seen)
        invariant ScannedMedia(renditions[..i], media)
      {
        var r := renditions[i];
        var account := TrimSpace(r.account);
        if account == "" {
          assert r in renditions;
          return None;
        }
        if account in seen {
          RepeatedAccount(renditions, i, accounts);
          return None;
        }
        ScanAccount(all, i, accounts, seen);
        seen := seen + {account};
        if TrimSpace(r.content) == "" {
          assert r in renditions;
          return None;
        }
        accounts := accounts + [account];
        var normalized := NormalizeMCPIDs(r.media);
        if normalized.None? {
          assert r in renditions;
          return None;
        }
        ScanMedia(renditions[..i], r, media);
        assert renditions[..i + 1] == renditions[..i] + [r];
        media := media + normalized.value;
      }
      assert renditions[..|renditions|] == renditions && all[..|renditions|] == all;
      RenditionMediaNormal(renditions);
      var unique := NormalizeMCPIDs(media);
      ids := Some((accounts, unique.value));
    }

    method UpsertRendition(post: Id, r: Rendition)
      requires Normalize(r.media).Some?
      modifies this
      ensures db == old(db).(variants := Upsert(old(db).variants, post, TrimSpace(r.account), r.content, Normalize(r.media).value))
    {
      var media := NormalizeMCPIDs(r.media);
      var account := TrimSpace(r.account);
      var i := 0;
      while i < |db.variants| && !(db.variants[i].post == post && db.variants[i].account == account)
        invariant i <= |db.variants|
        invariant forall j :: 0 <= j < i ==> !(db.variants[j].post == post && db.variants[j].account == account)
      {
        i := i + 1;
      }
      UpsertAt(db.variants, post, account, r.content, media.value, i);
      if i < |db.variants| {
        db := db.(variants := db.variants[i := db.variants[i].(content := r.content, media := media.value)]);
      } else {
        db := db.(variants := db.variants + [Variant(post, account, r.content, media.value)]);
      }
    }

    /** The loop of the transaction. */
    method UpsertRenditions(post: Id, renditions: seq<Rendition>)
      requires RenditionsOk(renditions)
      modifies this
      ensures db == old(db).(variants := UpsertAll(old(db).variants, post, renditions))
    {
      for i := 0 to |renditions|
        invariant db == old(db).(variants := UpsertAll(old(db).variants, post, renditions[..i]))
      {
        assert renditions[i] in renditions;
        assert renditions[..i + 1][..i] == renditions[..i];
        UpsertRendition(post, renditions[i]);
      }
      assert renditions[..|renditions|] == renditions;
    }

    method SetPostRenditions(post: Id, workspace: Id, renditions: seq<Rendition>) returns (ok: bool)
      modifies this
      ensures ok == Tables.SetPostRenditions(old(db), post, workspace, renditions).Some?
      ensures db == OrElse(Tables.SetPostRenditions(old(db), post, workspace, renditions), old(db))
    {
      if renditions == [] || !InWorkspace(db, post, workspace) {
        return false;
      }
      if db.posts[post].status.Published? || db.posts[post].status.Publishing? {
        return false;
      }
      var ids := ValidateRenditions(renditions);
      if ids.None? {
        return false;
      }
      var (accounts, media) := ids.value;
      SameMediaCheck(db, workspace, RenditionMedia(renditions));
      if !AccountsOk(db, workspace, accounts) || !DestinationsOk(db, post, accounts) || !MediaOk(db, workspace, media) {
        return false;
      }
      UpsertRenditions(post, renditions);
      ok := true;
    }

    // ----- deleting media -----

    /** mediaUsageSummary: how many unpublished posts of the workspace use the media. */
    method BlockingUsage(workspace: Id, id: Id) returns (blocking: nat)
      ensures blocking == |BlockingPosts(db, workspace, id)|
    {
      var posts := set k | k in db.attachments && k.1 == id && InWorkspace(db, k.0, workspace) :: k.0;
      for i := 0 to |db.variants|
        invariant forall p :: p in posts <==>
          InWorkspace(db, p, workspace) &&
          ((p, id) in db.attachments || exists v :: v in db.variants[..i] && v.post == p && id in v.media)
      {
        var v := db.variants[i];
        assert forall u :: u in db.variants[..i + 1] <==> u in db.variants[..i] || u == v;
        if id in v.media && InWorkspace(db, v.post, workspace) {
          posts := posts + {v.post};
        }
      }
      assert db.variants[..|db.variants|] == db.variants;
      var unpublished := set p | p in posts && !db.posts[p].status.Published?;
      assert unpublished == BlockingPosts(db, workspace, id);
      blocking := |unpublished|;
    }

    method FilterIds(media: seq<Id>, id: Id) returns (filtered: seq<Id>, changed: bool)
      ensures filtered == Without(media, id)
      ensures changed <==> filtered != media
    {
      filtered, changed := [], false;
      assert media[0..] == media;
      for i := 0 to |media|
        invariant Without(media, id) == filtered + Without(media[i..], id)
        invariant |filtered| <= i && (changed <==> |filtered| < i)
      {
        WithoutStep(media, i, id);
        if media[i] == id {
          changed := true;
        } else {
          Assoc(filtered, [media[i]], Without(media[i + 1..], id));
          filtered := filtered + [media[i]];
        }
      }
      assert media[|media|..] == [] && filtered + [] == filtered;
      WithoutOfSameLength(media, id);
    }

    method RemoveMediaReferences(workspace: Id, id: Id)
      modifies this
      ensures db == Tables.RemoveMediaReferences(old(db), workspace, id)
    {
      db := db.(attachments := map k | k in db.attachments && k.1 != id :: db.attachments[k]);
      StripFacts(old(db), db.variants, workspace, id);
      StripVariants(workspace, id, StripMedia(old(db), db.variants, workspace, id));
    }

    /** The loop over the variants; `stripped` is what they are to become. */
    method StripVariants(workspace: Id, id: Id, ghost stripped: seq<Variant>)
      requires |stripped| == |db.variants|
      requires forall i :: 0 <= i < |stripped| ==>
        stripped[i] ==
          if InWorkspace(db, db.variants[i].post, workspace) then db.variants[i].(media := Without(db.variants[i].media, id))
          else db.variants[i]
      modifies this
      ensures db == old(db).(variants := stripped)
    {
      var variants := db.variants;
      for i := 0 to |variants|
        invariant db == old(db).(variants := db.variants) && |db.variants| == |variants|
        invariant forall j :: 0 <= j < i ==> db.variants[j] == stripped[j]
        invariant forall j :: i <= j < |variants| ==> db.variants[j] == variants[j]
      {
        StripVariant(workspace, id, i, variants[i]);
      }
      assert db.variants == stripped;
    }

    /** One round of the loop: the row is written back only when the id was in it. */
    method StripVariant(workspace: Id, id: Id, i: nat, v: Variant)
      requires i < |db.variants| && db.variants[i] == v
      modifies this
      ensures var row := if InWorkspace(old(db), v.post, workspace) then v.(media := Without(v.media, id)) else v;
        db == old(db).(variants := old(db).variants[i := row])
    {
      if !InWorkspace(db, v.post, workspace) {
        return;
      }
      var filtered, changed := FilterIds(v.media, id);
      if !changed {
        assert v.(media := filtered) == v;
        return;
      }
      db := db.(variants := db.variants[i := v.(media := filtered)]);
    }

    method DeleteMedia(request: Request, id: Id) returns (ok: bool)
      modifies this
      ensures ok == CanDelete(old(db), request, id)
      ensures db == Tables.DeleteMedia(old(db), request, id)
    {
      if id !in db.media || db.media[id].workspace !in request.workspaces {
        return false;
      }
      var workspace := db.media[id].workspace;
      var blocking := BlockingUsage(workspace, id);
      if blocking > 0 || id in request.undeletable {
        return false;
      }
      RemoveMediaReferences(workspace, id);
      db := db.(media := db.media - {id});
      ok := true;
    }

    /** batch-delete-media: None when the list is empty or too long. */
    method BatchDeleteMedia(request: Request, ids: seq<Id>) returns (result: Option<(nat, seq<Id>)>)
      modifies this
      ensures result.None? <==> ids == [] || |ids| > 100
      ensures result.None? ==> db == old(db)
      ensures result.Some? ==>
        && db == BatchDelete(old(db), request, ids)
        && result.value.1 == BatchFailures(old(db), request, ids)
        && result.value.0 == |ids| - |result.value.1|
    {
      if ids == [] || |ids| > 100 {
        return None;
      }
      var deleted := 0;
      var failed: seq<Id> := [];
      for i := 0 to |ids|
        invariant db == BatchDelete(old(db), request, ids[..i])
        invariant failed == BatchFailures(old(db), request, ids[..i])
        invariant deleted + |failed| == i
      {
        assert ids[..i + 1][..i] == ids[..i];
        CanDeleteAfterBatch(old(db), request, ids[..i], ids[i]);
        var ok := DeleteMedia(request, ids[i]);
        if ok {
          deleted := deleted + 1;
        } else {
          failed := failed + [ids[i]];
        }
      }
      assert ids[..|ids|] == ids;
      result := Some((deleted, failed));
    }

    /** variantMediaIDs. */
    method VariantMediaIds(workspace: Id) returns (ids: set<Id>)
      ensures forall id :: id in ids <==> exists v :: v in db.variants && InWorkspace(db, v.post, workspace) && id in v.media
    {
      ids := {};
      for i := 0 to |db.variants|
        invariant forall id :: id in ids <==>
          exists v :: v in db.variants[..i] && InWorkspace(db, v.post, workspace) && id in v.media
      {
        var v := db.variants[i];
        assert forall u :: u in db.variants[..i + 1] <==> u in db.variants[..i] || u == v;
        if InWorkspace(db, v.post, workspace) {
          ids := ids + set id | id in v.media;
        }
      }
      assert db.variants[..|db.variants|] == db.variants;
    }

    /** Unfavourited old media of the workspace that no post_media row names. */
    method CleanupCandidates(workspace: Id, cutoff: int) returns (candidates: set<Id>)
      ensures forall m :: m in candidates <==>
        && m in db.media && db.media[m].workspace == workspace && !db.media[m].favorite && db.media[m].createdAt < cutoff
        && forall k :: k in db.attachments ==> k.1 != m
    {
      var attached := set k | k in db.attachments :: k.1;
      candidates := set m | m in db.media && db.media[m].workspace == workspace && !db.media[m].favorite &&
        db.media[m].createdAt < cutoff && m !in attached;
      assert forall k :: k in db.attachments ==> k.1 in attached;
    }

    method DeleteUnused(candidates: set<Id>, used: set<Id>)
      modifies this
      ensures db == old(db).(media := old(db).media - (candidates - used))
    {
      var todo := candidates;
      while todo != {}
        invariant todo <= candidates
        invariant db == old(db).(media := old(db).media - (candidates - todo - used))
        decreases |todo|
      {
        var m :| m in todo;
        todo := todo - {m};
        if m in used {
          assert candidates - todo - used == candidates - (todo + {m}) - used;
          continue;
        }
        db := db.(media := db.media - {m});
      }
      assert candidates - todo - used == candidates - used;
    }

    /**
     handleMediaCleanup for a job that asks for this many days. `setting` is the number of days that the
     workspace row has when the cleanup is over, at time `later`; None when the row is gone. `next` is the
     cleanup job that is queued then: its days and its run_at.
     */
    method MediaCleanup(workspace: Id, days: int, now: int, setting: Option<int>, later: int) returns (next: Option<(int, int)>)
      modifies this
      ensures db == if days <= 0 then old(db) else Cleanup(old(db), workspace, now - days * NANOS_PER_DAY)
      ensures next.Some? <==> days > 0 && setting.Some? && setting.value > 0
      ensures next.Some? ==> next.value == (setting.value, later + NANOS_PER_DAY)
    {
      if days <= 0 {
        return None;
      }
      var cutoff := now - days * NANOS_PER_DAY;
      var candidates := CleanupCandidates(workspace, cutoff);
      var used := VariantMediaIds(workspace);
      assert forall m :: IsUnused(db, workspace, cutoff, m) <==> m in candidates && m !in used;
      DeleteUnused(candidates, used);
      next := None;
      if setting.Some? && setting.value > 0 {
        next := Some((setting.value, later + NANOS_PER_DAY));
      }
    }
  }

  lemma UpsertBehind(row: Variant, rows: seq<Variant>, post: Id, account: Id, content: string, media: seq<Id>)
    requires !(row.post == post && row.account == account)
    ensures Upsert([row] + rows, post, account, content, media) == [row] + Upsert(rows, post, account, content, media)
  {
    assert ([row] + rows)[1..] == rows;
  }

  lemma UpdateBehind<T>(head: T, tail: seq<T>, i: nat, x: T)
    requires i < |tail|
    ensures ([head] + tail)[i + 1 := x] == [head] + tail[i := x]
  {
  }

  lemma {:induction false} UpsertAt(rows: seq<Variant>, post: Id, account: Id, content: string, media: seq<Id>, i: nat)
    requires i <= |rows| && forall j :: 0 <= j < i ==> !(rows[j].post == post && rows[j].account == account)
    requires i < |rows| ==> rows[i].post == post && rows[i].account == account
    ensures Upsert(rows, post, account, content, media) ==
      if i < |rows| then rows[i := rows[i].(content := content, media := media)] else rows + [Variant(post, account, content, media)]
  {
    if i == 0 {
      if rows != [] {
        assert [rows[0].(content := content, media := media)] + rows[1..] == rows[0 := rows[0].(content := content, media := media)];
      }
    } else {
      var head, tail := rows[0], rows[1..];
      assert rows == [head] + tail;
      UpsertAt(tail, post, account, content, media, i - 1);
      UpsertBehind(head, tail, post, account, content, media);
      if i < |rows| {
        UpdateBehind(head, tail, i - 1, tail[i - 1].(content := content, media := media));
      }
    }
  }

  lemma WithoutStep(media: seq<Id>, i: nat, id: Id)
    requires i < |media|
    ensures Without(media[i..], id) == (if media[i] == id then [] else [media[i]]) + Without(media[i + 1..], id)
  {
    assert media[i..][1..] == media[i + 1..];
  }

  lemma {:induction false} WithoutOfSameLength(media: seq<Id>, id: Id)
    ensures |Without(media, id)| <= |media|
    ensures |Without(media, id)| == |media| ==> Without(media, id) == media
  {
    if media != [] {
      WithoutOfSameLength(media[1..], id);
      assert media == [media[0]] + media[1..];
    }
  }

  ghost predicate RenditionOk(r: Rendition) {
    !IsBlank(r.account) && !IsBlank(r.content) && Normalize(r.media).Some?
  }

  /** The first i account ids are distinct, and these are what has been collected from them. */
  ghost predicate ScannedAccounts(all: seq<Id>, i: nat, accounts: seq<Id>, seen: set<Id>) {
    i <= |all| && accounts == all[..i] && Distinct(accounts) && seen == Elements(accounts)
  }

  lemma ScanAccount(all: seq<Id>, i: nat, accounts: seq<Id>, seen: set<Id>)
    requires ScannedAccounts(all, i, accounts, seen) && i < |all| && all[i] !in seen
    ensures ScannedAccounts(all, i + 1, accounts + [all[i]], seen + {all[i]})
  {
  }

  ghost predicate ScannedMedia(renditions: seq<Rendition>, media: seq<Id>) {
    (forall r :: r in renditions ==> RenditionOk(r)) && media == RenditionMedia(renditions)
  }

  lemma ScanMedia(renditions: seq<Rendition>, r: Rendition, media: seq<Id>)
    requires ScannedMedia(renditions, media) && RenditionOk(r)
    ensures ScannedMedia(renditions + [r], media + Normalize(r.media).value)
  {
    RenditionMediaAppend(renditions, r);
  }

  lemma RepeatedAccount(renditions: seq<Rendition>, i: nat, accounts: seq<Id>)
    requires i < |renditions| && accounts == RenditionAccounts(renditions)[..i]
    requires TrimSpace(renditions[i].account) in accounts
    ensures !Distinct(RenditionAccounts(renditions))
  {
    var all := RenditionAccounts(renditions);
    var j :| 0 <= j < i && accounts[j] == all[i];
    assert all[j] == all[i];
  }

  lemma RenditionMediaNormal(renditions: seq<Rendition>)
    requires forall q :: q in renditions ==> Normalize(q.media).Some?
    ensures Normalize(RenditionMedia(renditions)).Some?
  {
    var media := RenditionMedia(renditions);
    RenditionMediaMembers(renditions);
    NormalizeFacts(media);
    forall i | 0 <= i < |media|
      ensures TrimSpace(media[i]) != ""
    {
      assert media[i] in media;
      TrimSpaceFixedIff(media[i]);
    }
  }

  lemma {:induction false} RenditionMediaAppend(renditions: seq<Rendition>, r: Rendition)
    requires forall q :: q in renditions ==> Normalize(q.media).Some?
    requires Normalize(r.media).Some?
    ensures RenditionMedia(renditions + [r]) == RenditionMedia(renditions) + Normalize(r.media).value
  {
    if renditions == [] {
      assert [r][1..] == [] && renditions + [r] == [r];
    } else {
      assert (renditions + [r])[1..] == renditions[1..] + [r];
      RenditionMediaAppend(renditions[1..], r);
    }
  }

  /** The media check gives the same answer on a list and on its normal form. */
  lemma SameMediaCheck(db: Db, workspace: Id, media: seq<Id>)
    requires Normalize(media).Some?
    ensures MediaOk(db, workspace, Normalize(media).value) == MediaOk(db, workspace, media)
  {
    NormalizeIdempotent(media);
    NormalizeFacts(media);
    if media != [] {
      assert TrimSpace(media[0]) in Normalize(media).value;
    }
  }
}
