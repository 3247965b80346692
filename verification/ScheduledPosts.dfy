/** A post in the queue always has somewhere to go. */
module ScheduledPosts {
  import opened Wrappers
  import opened Ids
  import JobQueue
  import opened Tables
  import opened References
  import opened Destinations

  /** Destination rows belong to posts, and a scheduled post has some. */
  ghost predicate TargetsOk(db: Db, post: Id) {
    && NoStrayRows(db, post)
    && (post in db.posts && db.posts[post].status.Scheduled? ==> DestinationAccounts(db.destinations, post) != [])
  }

  ghost predicate AllTargetsOk(db: Db) {
    forall p :: TargetsOk(db, p)
  }

  lemma NewPostTargets(db: Db, after: Db, post: Id, accounts: seq<Id>)
    requires AllTargetsOk(db) && post !in db.posts && post in after.posts
    requires after.posts == db.posts[post := after.posts[post]]
    requires after.destinations == db.destinations + DestinationRows(post, accounts)
    requires after.posts[post].status.Scheduled? ==> accounts != []
    ensures AllTargetsOk(after)
  {
    forall p
      ensures TargetsOk(after, p)
    {
      assert TargetsOk(db, p);
      AccountsAfterInsert(db.destinations, post, accounts, p);
    }
  }

  lemma NewPostsTargets(db: Db, op: Op)
    requires AllTargetsOk(db)
    requires op.CreateDraftOp? || op.SchedulePostOp?
    ensures AllTargetsOk(Exec(db, op))
  {
    var after := Exec(db, op);
    if after != db {
      if op.CreateDraftOp? {
        NewPostTargets(db, after, op.post, op.accounts);
      } else {
        NewPostTargets(db, after, op.post, Normalize(op.accounts).value);
      }
    }
  }

  /** What schedule_draft leaves the post: the given accounts, or the ones it had, and in either case some. */
  lemma ScheduledDraftTargets(db: Db, post: Id, workspace: Id, accounts: Option<seq<string>>, media: Option<seq<string>>)
    requires ScheduleDraft(db, post, workspace, accounts, media).Some?
    ensures DestinationAccounts(ScheduleDraft(db, post, workspace, accounts, media).value.destinations, post) != []
  {
    ScheduleDraftRows(db, post, workspace, accounts, media);
    if accounts.Some? {
      AccountsAfterReplace(db.destinations, post, Normalize(accounts.value).value, post);
    }
  }

  /** The two draft tools touch the rows of their post alone. */
  lemma OtherPostsTargets(db: Db, after: Db, post: Id, accounts: Option<seq<string>>, p: Id)
    requires TargetsOk(db, p) && p != post && DraftRowsOk(db, after, post, accounts)
    requires p in db.posts ==> after.posts[p] == db.posts[p]
    ensures TargetsOk(after, p)
  {
    if accounts.Some? {
      AccountsAfterReplace(db.destinations, post, Normalize(accounts.value).value, p);
    }
  }

  /** The post itself: update_draft leaves it a draft, schedule_draft gives it destinations. */
  lemma DraftOwnTargets(db: Db, op: Op)
    requires op.UpdateDraftOp? || op.ScheduleDraftOp?
    requires Exec(db, op) != db
    ensures TargetsOk(Exec(db, op), op.post)
  {
    if op.ScheduleDraftOp? {
      ScheduledDraftTargets(db, op.post, op.workspace, op.newAccounts, op.newMedia);
    }
  }

  lemma DraftTargets(db: Db, op: Op)
    requires AllTargetsOk(db)
    requires op.UpdateDraftOp? || op.ScheduleDraftOp?
    ensures AllTargetsOk(Exec(db, op))
  {
    var after := Exec(db, op);
    if after != db {
      DraftRows(db, op);
      DraftOwnTargets(db, op);
      DraftKeepsPosts(db, op);
      forall p
        ensures TargetsOk(after, p)
      {
        assert TargetsOk(db, p);
        if p != op.post {
          OtherPostsTargets(db, after, op.post, op.newAccounts, p);
        }
      }
    }
  }

  lemma DraftKeepsPosts(db: Db, op: Op)
    requires op.UpdateDraftOp? || op.ScheduleDraftOp?
    ensures forall p :: p in db.posts && p != op.post ==> p in Exec(db, op).posts && Exec(db, op).posts[p] == db.posts[p]
  {
  }

  lemma SameTargets(db: Db, after: Db)
    requires AllTargetsOk(db) && after.destinations == db.destinations && after.posts.Keys == db.posts.Keys
    requires forall p :: p in after.posts && after.posts[p].status.Scheduled? ==> db.posts[p].status.Scheduled?
    ensures AllTargetsOk(after)
  {
    forall p
      ensures TargetsOk(after, p)
    {
      assert TargetsOk(db, p);
    }
  }

  lemma TargetsStep(db: Db, op: Op)
    requires AllTargetsOk(db)
    ensures AllTargetsOk(Exec(db, op))
  {
    if op.CreateDraftOp? || op.SchedulePostOp? {
      NewPostsTargets(db, op);
    } else if op.UpdateDraftOp? || op.ScheduleDraftOp? {
      DraftTargets(db, op);
    } else if op.DeleteMediaOp? || op.BatchDeleteOp? {
      OneVariantMedia(db, op);
      SameTargets(db, Exec(db, op));
    } else {
      SameTargets(db, Exec(db, op));
    }
  }

  lemma {:induction false} TargetsAlong(ops: seq<Op>)
    ensures AllTargetsOk(Run(ops))
  {
    if ops != [] {
      TargetsAlong(ops[..|ops| - 1]);
      TargetsStep(Run(ops[..|ops| - 1]), ops[|ops| - 1]);
    }
  }

  /** After any run, every scheduled post has a destination row, and every destination row has its post. */
  lemma ScheduledPostsHaveDestinations(ops: seq<Op>)
    ensures forall p :: p in Run(ops).posts && Run(ops).posts[p].status.Scheduled? ==>
      exists a :: Destination(p, a) in Run(ops).destinations
    ensures forall d :: d in Run(ops).destinations ==> d.post in Run(ops).posts
  {
    TargetsAlong(ops);
    var db := Run(ops);
    forall p | p in db.posts && db.posts[p].status.Scheduled?
      ensures exists a :: Destination(p, a) in db.destinations
    {
      assert TargetsOk(db, p);
      AccountsAreRows(db.destinations, p, DestinationAccounts(db.destinations, p)[0]);
    }
    forall d | d in db.destinations
      ensures d.post in db.posts
    {
      assert TargetsOk(db, d.post);
      AccountsAreRows(db.destinations, d.post, d.account);
    }
  }
}
