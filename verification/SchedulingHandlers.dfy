/**
 The scheduling tools of the MCP handler, as transactions on the tables. Each commit is proved to be
 one step of `QueueProtocol`; the ghost parameter `s` is the protocol state the tables belong to.
 */
module SchedulingHandlers {
  import opened Wrappers
  import opened JobQueue
  import opened QueueProtocol

  datatype Reply = Done | PostNotFound | WrongStatus

  class SchedulingHandler {
    const db: JobStore

    constructor (db: JobStore)
      ensures this.db == db
    {
      this.db := db;
    }

    method DeletePublishJobsOf(postId: Id)
      modifies db`jobs
      ensures db.jobs == DeletePublishJobs(old(db.jobs), postId)
    {
      var all := db.jobs;
      var todo := all.Keys;
      while todo != {}
        invariant todo <= all.Keys
        invariant db.jobs == map id | id in all && (id in todo || all[id].kind != PublishPost(postId)) :: all[id]
        decreases |todo|
      {
        var id :| id in todo;
        if all[id].kind == PublishPost(postId) {
          db.jobs := db.jobs - {id};
        }
        todo := todo - {id};
      }
    }

    method CommitSchedulePost(postId: Id, jobId: Id, scheduledAt: Instant, maxAttempts: nat, ghost s: State)
      requires s.jobs == db.jobs && s.posts == db.posts
      requires Enabled({}, s, SchedulePostStep(postId, jobId, scheduledAt, maxAttempts))
      modifies db`jobs, db`posts
      ensures var t := Apply({}, s, SchedulePostStep(postId, jobId, scheduledAt, maxAttempts));
        db.jobs == t.jobs && db.posts == t.posts
    {
      var post := Post(Scheduled, Some(scheduledAt), Some(scheduledAt));
      var job := NewJob(PublishPost(postId), scheduledAt, maxAttempts);
      db.posts := db.posts[postId := post];
      db.jobs := db.jobs[jobId := job];
    }

    method CommitScheduleDraft(postId: Id, jobId: Id, scheduledAt: Instant, jobRunAt: Instant, maxAttempts: nat, ghost s: State)
      requires s.jobs == db.jobs && s.posts == db.posts
      requires Enabled({}, s, ScheduleDraftStep(postId, jobId, scheduledAt, jobRunAt, maxAttempts))
      modifies db`jobs, db`posts
      ensures var t := Apply({}, s, ScheduleDraftStep(postId, jobId, scheduledAt, jobRunAt, maxAttempts));
        db.jobs == t.jobs && db.posts == t.posts
    {
      var job := NewJob(PublishPost(postId), jobRunAt, maxAttempts);
      db.posts := db.posts[postId := Post(Scheduled, Some(scheduledAt), Some(jobRunAt))];
      DeletePublishJobsOf(postId);
      db.jobs := db.jobs[jobId := job];
    }

    method CommitCancelPost(postId: Id, ghost s: State)
      requires s.jobs == db.jobs && s.posts == db.posts && postId in db.posts
      modifies db`jobs, db`posts
      ensures var t := Apply({}, s, CancelPostStep(postId)); db.jobs == t.jobs && db.posts == t.posts
    {
      db.posts := db.posts[postId := Post(Draft, None, None)];
      DeletePublishJobsOf(postId);
    }

    /** cancel_post when nothing runs between its check and its transaction. */
    method CancelPost(postId: Id, ghost s: State) returns (reply: Reply)
      requires s.jobs == db.jobs && s.posts == db.posts
      modifies db`jobs, db`posts
      ensures reply.PostNotFound? <==> postId !in s.posts
      ensures reply.WrongStatus? <==> postId in s.posts && (s.posts[postId].status.Published? || s.posts[postId].status.Publishing?)
      ensures !reply.Done? ==> db.jobs == s.jobs && db.posts == s.posts
      ensures reply.Done? ==> var t := Apply({}, s, CancelPostStep(postId)); db.jobs == t.jobs && db.posts == t.posts
    {
      if postId !in db.posts {
        return PostNotFound;
      }
      var status := db.posts[postId].status;
      if status.Published? || status.Publishing? {
        return WrongStatus;
      }
      CommitCancelPost(postId, s);
      reply := Done;
    }

    /** schedule_draft, likewise; choosing accounts, media and the random delay is not part of this model. */
    method ScheduleDraft(postId: Id, jobId: Id, scheduledAt: Instant, jobRunAt: Instant, maxAttempts: nat, ghost s: State)
      returns (reply: Reply)
      requires s.jobs == db.jobs && s.posts == db.posts && jobId !in s.born && 1 <= maxAttempts
      modifies db`jobs, db`posts
      ensures reply.PostNotFound? <==> postId !in s.posts
      ensures reply.WrongStatus? <==> postId in s.posts && !s.posts[postId].status.Draft?
      ensures !reply.Done? ==> db.jobs == s.jobs && db.posts == s.posts
      ensures reply.Done? ==>
        var t := Apply({}, s, ScheduleDraftStep(postId, jobId, scheduledAt, jobRunAt, maxAttempts));
        db.jobs == t.jobs && db.posts == t.posts
    {
      if postId !in db.posts {
        return PostNotFound;
      }
      if !db.posts[postId].status.Draft? {
        return WrongStatus;
      }
      CommitScheduleDraft(postId, jobId, scheduledAt, jobRunAt, maxAttempts, s);
      reply := Done;
    }
  }
}
