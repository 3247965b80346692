/** What deleting media and cleaning up do to every table. */
module MediaDeletion {
  import opened Sequences
  import opened Tables
  import opened RowFacts
  import opened References

  // ----- one deletion -----

  /** Every row that names the media belongs to a published post. */
  ghost predicate OnlyInPublished(db: Db, id: Id) {
    && (forall k :: k in db.attachments && k.1 == id ==> k.0 in db.posts && db.posts[k.0].status.Published?)
    && (forall v :: v in db.variants && id in v.media ==> v.post in db.posts && db.posts[v.post].status.Published?)
  }

  lemma NotBlockedIff(db: Db, id: Id)
    requires MediaInv(db) && id in db.media
    ensures BlockingPosts(db, db.media[id].workspace, id) == {} <==> OnlyInPublished(db, id)
  {
    BlockedIff(db, id);
    if BlockingPosts(db, db.media[id].workspace, id) == {} {
      forall k | k in db.attachments && k.1 == id
        ensures k.0 in db.posts && db.posts[k.0].status.Published?
      {
        assert Owned(db, k.0, k.1) && k == (k.0, id) && Uses(db, k.0, id);
      }
      forall v | v in db.variants && id in v.media
        ensures v.post in db.posts && db.posts[v.post].status.Published?
      {
        assert VariantOwned(db, v) && Uses(db, v.post, id);
      }
    }
    if OnlyInPublished(db, id) {
      forall p | p in db.posts && Uses(db, p, id)
        ensures db.posts[p].status.Published?
      {
        assert (p, id).1 == id;
      }
    }
  }

  /** A media row is deleted exactly when the user may, no unpublished post names it and its files go. */
  lemma DeletedIff(db: Db, request: Request, id: Id)
    requires MediaInv(db) && id in db.media
    ensures id !in DeleteMedia(db, request, id).media <==>
            db.media[id].workspace in request.workspaces && id !in request.undeletable && OnlyInPublished(db, id)
  {
    NotBlockedIff(db, id);
  }

  lemma {:induction false} WithoutConcat(before: seq<Id>, after: seq<Id>, id: Id)
    ensures Without(before + after, id) == Without(before, id) + Without(after, id)
  {
    if before == [] {
      assert before + after == after;
    } else {
      WithoutConcat(before[1..], after, id);
      ConsConcat(before, after);
      Assoc(if before[0] == id then [] else [before[0]], Without(before[1..], id), Without(after, id));
    }
  }

  /** The list without the id is what is left when its mentions are cut out one by one. */
  lemma WithoutOneMention(before: seq<Id>, id: Id, after: seq<Id>)
    ensures Without(before + [id] + after, id) == Without(before + after, id)
    ensures id !in before + after ==> Without(before + [id] + after, id) == before + after
  {
    WithoutConcat(before + [id], after, id);
    WithoutConcat(before, [id], id);
    WithoutConcat(before, after, id);
    assert Without([id], id) == [] && Without(before, id) + [] == Without(before, id);
    WithoutFacts(before + after, id);
  }

  /** The variants before and after: row by row the same but for the media id. */
  ghost predicate StrippedOf(before: seq<Variant>, after: seq<Variant>, id: Id) {
    && |after| == |before|
    && forall i :: 0 <= i < |before| ==> after[i] == before[i].(media := Without(before[i].media, id)) && id !in after[i].media
  }

  lemma StripsEverywhere(db: Db, id: Id)
    requires MediaInv(db) && id in db.media
    ensures StrippedOf(db.variants, StripMedia(db, db.variants, db.media[id].workspace, id), id)
  {
    StripFacts(db, db.variants, db.media[id].workspace, id);
    forall i | 0 <= i < |db.variants|
      ensures id !in Without(db.variants[i].media, id)
      ensures InWorkspace(db, db.variants[i].post, db.media[id].workspace) || Without(db.variants[i].media, id) == db.variants[i].media
    {
      WithoutFacts(db.variants[i].media, id);
      assert VariantOwned(db, db.variants[i]);
    }
  }

  /** A deletion removes one media row and every mention of it; it changes nothing else, or nothing at all. */
  lemma DeletionEffect(db: Db, request: Request, id: Id)
    requires MediaInv(db)
    ensures var after := DeleteMedia(db, request, id);
      if id in db.media && id !in after.media then
        && after == db.(media := after.media, attachments := after.attachments, variants := after.variants)
        && after.media == db.media - {id}
        && after.attachments == (map k | k in db.attachments && k.1 != id :: db.attachments[k])
        && StrippedOf(db.variants, after.variants, id)
      else after == db
  {
    if id in db.media {
      StripsEverywhere(db, id);
    }
  }

  // ----- a batch -----

  /** Each entry of a batch is either reported as failed or stands for one media row that is gone. */
  lemma {:induction false} BatchAddsUp(db: Db, request: Request, ids: seq<Id>)
    ensures |BatchDelete(db, request, ids).media| + |ids| == |db.media| + |BatchFailures(db, request, ids)|
  {
    if ids != [] {
      var front, last := ids[..|ids| - 1], ids[|ids| - 1];
      var before := BatchDelete(db, request, front);
      BatchAddsUp(db, request, front);
      CanDeleteAfterBatch(db, request, front, last);
      if CanDelete(before, request, last) {
        OneRowLess(before.media, last);
      }
    }
  }

  lemma OneRowLess(media: map<Id, Media>, id: Id)
    requires id in media
    ensures |media - {id}| == |media| - 1
  {
    assert (media - {id}).Keys == media.Keys - {id};
    assert |(media - {id}).Keys| == |media - {id}| && |media.Keys| == |media|;
  }

  lemma CountSnoc(ids: seq<Id>, last: Id, id: Id)
    ensures multiset(ids + [last])[id] == multiset(ids)[id] + if id == last then 1 else 0
  {
  }

  lemma OneMoreReport(failed: seq<Id>, front: seq<Id>, last: Id, lastOk: bool, id: Id, ok: bool)
    requires id == last ==> ok == lastOk
    requires multiset(failed)[id] == multiset(front)[id] - if id in front && ok then 1 else 0
    ensures multiset(failed + if lastOk && last !in front then [] else [last])[id] ==
            multiset(front + [last])[id] - if id in front + [last] && ok then 1 else 0
  {
    CountSnoc(front, last, id);
    CountSnoc(failed, last, id);
    assert failed + [] == failed;
  }

  lemma FailuresSnoc(db: Db, request: Request, front: seq<Id>, last: Id)
    ensures BatchFailures(db, request, front + [last]) ==
            BatchFailures(db, request, front) + if CanDelete(db, request, last) && last !in front then [] else [last]
  {
    assert (front + [last])[..|front|] == front;
  }

  /** An id is reported once for each time it is listed, less the one time that it could be deleted. */
  ghost predicate ReportsAddUp(failed: seq<Id>, ids: seq<Id>, id: Id, ok: bool) {
    multiset(failed)[id] == multiset(ids)[id] - if id in ids && ok then 1 else 0
  }

  lemma ReportsSnoc(db: Db, request: Request, front: seq<Id>, last: Id, id: Id)
    requires ReportsAddUp(BatchFailures(db, request, front), front, id, CanDelete(db, request, id))
    ensures ReportsAddUp(BatchFailures(db, request, front + [last]), front + [last], id, CanDelete(db, request, id))
  {
    FailuresSnoc(db, request, front, last);
    OneMoreReport(BatchFailures(db, request, front), front, last, CanDelete(db, request, last), id, CanDelete(db, request, id));
  }

  lemma {:induction false} BatchReports(db: Db, request: Request, ids: seq<Id>, id: Id)
    ensures ReportsAddUp(BatchFailures(db, request, ids), ids, id, CanDelete(db, request, id))
  {
    if ids != [] {
      var front, last := ids[..|ids| - 1], ids[|ids| - 1];
      BatchReports(db, request, front, id);
      ReportsSnoc(db, request, front, last, id);
      assert ids == front + [last];
    }
  }

  // ----- the cleanup -----

  /** No row of any table names the media. */
  ghost predicate Unmentioned(db: Db, id: Id) {
    (forall k :: k in db.attachments ==> k.1 != id) && (forall v :: v in db.variants ==> id !in v.media)
  }

  /** The cleanup takes away the old media rows of the workspace that nothing names, and changes nothing else. */
  lemma CleanupEffect(db: Db, workspace: Id, cutoff: int)
    requires MediaInv(db)
    ensures var after := Cleanup(db, workspace, cutoff);
      && after == db.(media := after.media)
      && after.media == map m | m in db.media &&
           !(db.media[m].workspace == workspace && !db.media[m].favorite && db.media[m].createdAt < cutoff && Unmentioned(db, m))
         :: db.media[m]
  {
    forall m | m in db.media && db.media[m].workspace == workspace
      ensures IsUnused(db, workspace, cutoff, m) <==> !db.media[m].favorite && db.media[m].createdAt < cutoff && Unmentioned(db, m)
    {
      forall v | v in db.variants && m in v.media
        ensures InWorkspace(db, v.post, workspace)
      {
        assert VariantOwned(db, v) && Owned(db, v.post, m);
      }
    }
  }
}
