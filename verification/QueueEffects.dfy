/** What each step of the queue does to the rows, said in terms of the rows alone. */
module QueueEffects {
  import opened Wrappers
  import Backoff
  import opened JobQueue
  import opened QueueProtocol
  import opened QueueSafety

  /** Every row but this one is as it was. */
  ghost predicate OtherRowsKept(before: JobTable, after: JobTable, id: Id) {
    && (forall k :: k != id ==> (k in after <==> k in before))
    && (forall k :: k != id && k in before && k in after ==> after[k] == before[k])
  }

  /** Nothing but status, attempts and run_at differs. */
  ghost predicate SameIdentity(before: Job, after: Job) {
    && after.kind == before.kind && after.maxAttempts == before.maxAttempts
    && after.lockedAt == before.lockedAt && after.lockedBy == before.lockedBy
  }

  /** After one more failure at time `at`: used up, or waiting for the doubling delay. */
  ghost predicate FailedOnce(before: Job, after: Job, at: Instant) {
    && SameIdentity(before, after)
    && after.attempts == before.attempts + 1
    && (after.attempts < before.maxAttempts ==>
          && after.status.Pending? && after.runAt == at + Backoff.Delay(after.attempts)
          && (after.attempts <= 28 ==> after.runAt == at + Backoff.Pow2(before.attempts) * Backoff.NANOS_PER_MINUTE))
    && (after.attempts >= before.maxAttempts ==> after.status.Failed? && after.runAt == before.runAt)
  }

  /**
   A failure reaches the row: one attempt more, and either the row is failed or it is pending and due the
   doubling delay after the failure. The worker is free, and no other row changes.
   */
  lemma FailureReachesRow(workers: set<WorkerId>, run: seq<State>, steps: seq<Step>, i: nat, w: WorkerId, at: Instant)
    requires IsRun(workers, run, steps) && SafeRequeues(run, steps) && i < |steps| && steps[i] == FailStep(w, at)
    requires w in run[i].holds && run[i].holds[w].id in run[i].jobs
    ensures var id := run[i].holds[w].id;
      && id in run[i + 1].jobs && FailedOnce(run[i].jobs[id], run[i + 1].jobs[id], at)
      && OtherRowsKept(run[i].jobs, run[i + 1].jobs, id)
    ensures run[i + 1].holds == run[i].holds - {w} && run[i + 1].posts == run[i].posts
  {
    LockInvAlong(workers, run, steps, i);
    StepAt(workers, run, steps, i);
    FailureStep(workers, run[i], w, at);
  }

  lemma FailureStep(workers: set<WorkerId>, s: State, w: WorkerId, at: Instant)
    requires LockInv(workers, s) && Enabled(workers, s, FailStep(w, at)) && s.holds[w].id in s.jobs
    ensures var id, t := s.holds[w].id, Apply(workers, s, FailStep(w, at));
      id in t.jobs && FailedOnce(s.jobs[id], t.jobs[id], at)
  {
    var h := s.holds[w];
    assert HoldOk(s, h);
    if h.copy.attempts + 1 <= 28 {
      Backoff.DelayIsExact(h.copy.attempts + 1);
    }
  }

  /** A completion reaches the row and changes nothing but its status. */
  lemma CompletionReachesRow(workers: set<WorkerId>, run: seq<State>, steps: seq<Step>, i: nat, w: WorkerId)
    requires IsRun(workers, run, steps) && i < |steps| && steps[i] == CompleteStep(w)
    requires w in run[i].holds && run[i].holds[w].id in run[i].jobs
    ensures var id := run[i].holds[w].id;
      && id in run[i + 1].jobs && OtherRowsKept(run[i].jobs, run[i + 1].jobs, id)
      && SameIdentity(run[i].jobs[id], run[i + 1].jobs[id])
      && run[i + 1].jobs[id].status.Completed?
      && run[i + 1].jobs[id].attempts == run[i].jobs[id].attempts && run[i + 1].jobs[id].runAt == run[i].jobs[id].runAt
    ensures run[i + 1].holds == run[i].holds - {w} && run[i + 1].posts == run[i].posts
  {
    StepAt(workers, run, steps, i);
  }

  /** A claim locks the row for the worker, now, and hands it a copy; attempts and run_at stay. */
  lemma ClaimReachesRow(workers: set<WorkerId>, run: seq<State>, steps: seq<Step>, i: nat, w: WorkerId, id: Id)
    requires IsRun(workers, run, steps) && i < |steps| && steps[i] == ClaimStep(w, id)
    ensures id in run[i].jobs && id in run[i + 1].jobs && OtherRowsKept(run[i].jobs, run[i + 1].jobs, id)
    ensures var before, after := run[i].jobs[id], run[i + 1].jobs[id];
      && before.status.Pending? && before.runAt <= run[i].now
      && after.status.Processing? && after.lockedAt == Some(run[i].now) && after.lockedBy == w
      && after.kind == before.kind && after.maxAttempts == before.maxAttempts
      && after.attempts == before.attempts && after.runAt == before.runAt
      && w in run[i + 1].holds && run[i + 1].holds[w].id == id && run[i + 1].holds[w].copy == after
  {
    StepAt(workers, run, steps, i);
  }

  /** A free worker has something to claim exactly when some row is pending and its time has come. */
  lemma ClaimIsPossibleIff(workers: set<WorkerId>, s: State, w: WorkerId)
    requires w in workers && w !in s.holds
    ensures (exists id :: Enabled(workers, s, ClaimStep(w, id))) <==>
            exists id :: id in s.jobs && s.jobs[id].status.Pending? && s.jobs[id].runAt <= s.now
  {
    if id :| id in s.jobs && s.jobs[id].status.Pending? && s.jobs[id].runAt <= s.now {
      var due := set k | k in s.jobs && IsDue(s.jobs[k], s.now);
      assert id in due;
      var least := NextDueExists(s.jobs, s.now, due);
      assert forall k :: k in s.jobs && IsDue(s.jobs[k], s.now) ==> k in due;
      assert Enabled(workers, s, ClaimStep(w, least));
    }
  }

  /** A requeue unlocks exactly the rows locked for 15 minutes or more, and changes nothing else. */
  lemma RequeueReachesRows(workers: set<WorkerId>, run: seq<State>, steps: seq<Step>, i: nat, id: Id)
    requires IsRun(workers, run, steps) && i < |steps| && steps[i].RequeueStep? && id in run[i].jobs
    ensures id in run[i + 1].jobs
    ensures var before, after := run[i].jobs[id], run[i + 1].jobs[id];
      if before.status.Processing? && before.lockedAt.Some? && run[i].now - before.lockedAt.value >= 15 * 60_000_000_000 then
        && after.status.Pending? && after.lockedAt.None? && after.lockedBy == ""
        && after.kind == before.kind && after.maxAttempts == before.maxAttempts
        && after.attempts == before.attempts && after.runAt == before.runAt
      else after == before
    ensures run[i + 1].jobs.Keys == run[i].jobs.Keys
  {
    StepAt(workers, run, steps, i);
  }

  // ----- scheduling and cancelling -----

  ghost predicate OtherPostsKept(before: PostTable, after: PostTable, post: Id) {
    && (forall p :: p != post ==> (p in after <==> p in before))
    && (forall p :: p != post && p in before && p in after ==> after[p] == before[p])
  }

  /** The row of a publish job that nobody has touched yet. */
  ghost predicate FreshPublishRow(job: Job, post: Id, runAt: Instant, maxAttempts: nat) {
    && job.kind.PublishPost? && job.kind.postId == post
    && job.status.Pending? && job.runAt == runAt && job.attempts == 0 && job.maxAttempts == maxAttempts
    && job.lockedAt.None? && job.lockedBy == ""
  }

  /** The rows of other kinds and of other posts are as they were; `newId` is the one id that may be new. */
  ghost predicate OtherJobsKept(before: JobTable, after: JobTable, post: Id, newId: Option<Id>) {
    forall k :: Some(k) != newId ==>
      && (k in after <==> k in before && before[k].kind != PublishPost(post))
      && (k in after ==> after[k] == before[k])
  }

  /** schedule_post: the post is scheduled at the requested time, and its one job is due then. */
  lemma SchedulePostReachesRows(workers: set<WorkerId>, run: seq<State>, steps: seq<Step>, i: nat,
                                p: Id, id: Id, at: Instant, maxAttempts: nat)
    requires IsRun(workers, run, steps) && i < |steps| && steps[i] == SchedulePostStep(p, id, at, maxAttempts)
    ensures var s, t := run[i], run[i + 1];
      && p !in s.posts && p in t.posts && OtherPostsKept(s.posts, t.posts, p)
      && t.posts[p].status.Scheduled? && t.posts[p].scheduledAt == Some(at) && t.posts[p].actualRunAt == Some(at)
      && id !in s.jobs && id in t.jobs && FreshPublishRow(t.jobs[id], p, at, maxAttempts)
      && OtherRowsKept(s.jobs, t.jobs, id) && t.holds == s.holds
  {
    BirthInvAlong(workers, run, steps, i);
    StepAt(workers, run, steps, i);
    forall k | k in run[i].jobs
      ensures k in run[i].born
    {
      assert BirthRowOk(run[i], k);
    }
  }

  /**
   schedule_draft: the post is scheduled at the requested time and runs at the delayed one, its earlier
   publish jobs are gone, and the new one is due at the delayed time.
   */
  lemma ScheduleDraftReachesRows(workers: set<WorkerId>, run: seq<State>, steps: seq<Step>, i: nat,
                                 p: Id, id: Id, at: Instant, runAt: Instant, maxAttempts: nat)
    requires IsRun(workers, run, steps) && i < |steps| && steps[i] == ScheduleDraftStep(p, id, at, runAt, maxAttempts)
    ensures var s, t := run[i], run[i + 1];
      && p in s.posts && p in t.posts && OtherPostsKept(s.posts, t.posts, p)
      && t.posts[p].status.Scheduled? && t.posts[p].scheduledAt == Some(at) && t.posts[p].actualRunAt == Some(runAt)
      && id in t.jobs && FreshPublishRow(t.jobs[id], p, runAt, maxAttempts)
      && OtherJobsKept(s.jobs, t.jobs, p, Some(id)) && t.holds == s.holds
  {
    StepAt(workers, run, steps, i);
  }

  /** cancel_post: the post is a draft without times, and all its publish jobs are gone. */
  lemma CancelPostReachesRows(workers: set<WorkerId>, run: seq<State>, steps: seq<Step>, i: nat, p: Id)
    requires IsRun(workers, run, steps) && i < |steps| && steps[i] == CancelPostStep(p)
    ensures var s, t := run[i], run[i + 1];
      && p in s.posts && p in t.posts && OtherPostsKept(s.posts, t.posts, p)
      && t.posts[p].status.Draft? && t.posts[p].scheduledAt.None? && t.posts[p].actualRunAt.None?
      && OtherJobsKept(s.jobs, t.jobs, p, None) && t.holds == s.holds
  {
    StepAt(workers, run, steps, i);
  }
}
