/**
 The job rows of the publish queue, the statements that workers run on them, and the drain loop.

 Each SQL statement is a function from the table before to the table after; the methods of
 `BackgroundWorker` change the table in place and are proved against those functions.
 */
module JobQueue {
  import opened Wrappers
  import Backoff

  type Id = string

  /** Nanoseconds on the one clock that the database and the workers share. */
  type Instant = int

  const STALE_PROCESSING_JOB_AGE: int := 15 * Backoff.NANOS_PER_MINUTE

  /** Job type and payload; only publish jobs have a payload that other code looks into. */
  datatype JobKind = PublishPost(postId: Id) | Other(name: string)

  datatype JobStatus = Pending | Processing | Completed | Failed

  datatype Job = Job(
    kind: JobKind,
    status: JobStatus,
    runAt: Instant,
    attempts: nat,
    maxAttempts: nat,
    lockedAt: Option<Instant>,
    lockedBy: string)

  type JobTable = map<Id, Job>

  datatype PostStatus = Draft | Scheduled | Publishing | Published | PublishFailed

  datatype Post = Post(status: PostStatus, scheduledAt: Option<Instant>, actualRunAt: Option<Instant>)

  type PostTable = map<Id, Post>

  // ----- the statements -----

  predicate IsStale(job: Job, now: Instant) {
    job.status.Processing? && job.lockedAt.Some? && job.lockedAt.value <= now - STALE_PROCESSING_JOB_AGE
  }

  function Requeued(job: Job, now: Instant): Job {
    if IsStale(job, now) then job.(status := Pending, lockedAt := None, lockedBy := "") else job
  }

  /** The bulk UPDATE that puts every stale processing row back in the queue. */
  function RequeueStale(jobs: JobTable, now: Instant): JobTable {
    map id | id in jobs :: Requeued(jobs[id], now)
  }

  predicate IsDue(job: Job, now: Instant) {
    job.status.Pending? && job.runAt <= now
  }

  /** `id` is a row that the claiming sub-select may return: due, with the least run_at. */
  predicate IsNextDue(jobs: JobTable, now: Instant, id: Id) {
    id in jobs && IsDue(jobs[id], now) &&
    forall k :: k in jobs && IsDue(jobs[k], now) ==> jobs[id].runAt <= jobs[k].runAt
  }

  function Claimed(job: Job, now: Instant, workerId: string): Job {
    job.(status := Processing, lockedAt := Some(now), lockedBy := workerId)
  }

  /** What a worker turns its in-memory copy of the row into when the handler fails at time `at`. */
  function AfterFailure(job: Job, at: Instant): Job {
    var attempts := job.attempts + 1;
    if attempts >= job.maxAttempts then
      job.(attempts := attempts, status := Failed)
    else
      job.(attempts := attempts, status := Pending, runAt := at + Backoff.Delay(attempts))
  }

  /** UPDATE of status, attempts and run_at by id: nothing happens when the row is gone. */
  function WriteFailure(jobs: JobTable, id: Id, copy: Job): JobTable {
    if id in jobs then
      jobs[id := jobs[id].(status := copy.status, attempts := copy.attempts, runAt := copy.runAt)]
    else jobs
  }

  /** UPDATE of status alone, by id. */
  function WriteCompleted(jobs: JobTable, id: Id): JobTable {
    if id in jobs then jobs[id := jobs[id].(status := Completed)] else jobs
  }

  function NewJob(kind: JobKind, runAt: Instant, maxAttempts: nat): Job {
    Job(kind, Pending, runAt, 0, maxAttempts, None, "")
  }

  /** DELETE of the publish_post rows whose payload names this post. */
  function DeletePublishJobs(jobs: JobTable, postId: Id): JobTable {
    map id | id in jobs && jobs[id].kind != PublishPost(postId) :: jobs[id]
  }

  // ----- a job whose handler always fails -----

  /** The row after failing at each of these times in turn. */
  function FailRepeatedly(job: Job, times: seq<Instant>): Job {
    if times == [] then job else AfterFailure(FailRepeatedly(job, times[..|times| - 1]), times[|times| - 1])
  }

  /**
   A fresh job whose handler always fails is pending with k attempts after k < maxAttempts failures, its
   run_at a back-off after the last failure, and is failed after the last one. Up to the 28th failure the
   back-off is exactly the doubling delay.
   */
  lemma {:induction false} AlwaysFailingJob(job: Job, times: seq<Instant>)
    requires job.attempts == 0 && job.status.Pending?
    requires 1 <= job.maxAttempts && |times| <= job.maxAttempts
    ensures var last := FailRepeatedly(job, times);
      && last.attempts == |times|
      && last.maxAttempts == job.maxAttempts
      && (last.status.Failed? <==> |times| == job.maxAttempts)
      && (last.status.Pending? <==> |times| < job.maxAttempts)
      && (0 < |times| < job.maxAttempts ==>
            && last.runAt == times[|times| - 1] + Backoff.Delay(|times|)
            && (|times| <= 28 ==> last.runAt == times[|times| - 1] + Backoff.Pow2(|times| - 1) * Backoff.NANOS_PER_MINUTE))
  {
    if times != [] {
      AlwaysFailingJob(job, times[..|times| - 1]);
      if |times| <= 28 {
        Backoff.DelayIsExact(|times|);
      }
    }
  }

  /**
   If every attempt fails the moment it is due, the next one after k failures is due 2^k - 1 minutes after
   the first; with at most 29 attempts allowed that covers all of them.
   */
  lemma {:induction false} BackoffsAddUp(job: Job, times: seq<Instant>)
    requires job.attempts == 0 && job.status.Pending?
    requires |times| < job.maxAttempts && |times| <= 28
    requires forall i :: 0 <= i < |times| ==> times[i] == FailRepeatedly(job, times[..i]).runAt
    ensures FailRepeatedly(job, times).runAt == job.runAt + (Backoff.Pow2(|times|) - 1) * Backoff.NANOS_PER_MINUTE
  {
    if times == [] {
    } else {
      var n := |times| - 1;
      var before := times[..n];
      forall i | 0 <= i < n
        ensures before[i] == FailRepeatedly(job, before[..i]).runAt
      {
        assert before[..i] == times[..i];
      }
      BackoffsAddUp(job, before);
      AlwaysFailingJob(job, times);
      assert times[n] == FailRepeatedly(job, before).runAt;
    }
  }

  // ----- the amount of work left in the table -----

  /** An upper bound on how often a row can still be handed to a worker. */
  function Weight(job: Job): nat {
    if !job.status.Pending? then 0
    else if job.maxAttempts <= job.attempts then 1
    else job.maxAttempts - job.attempts
  }

  ghost function Work(jobs: JobTable): nat
    decreases |jobs|
  {
    if jobs == map[] then 0
    else
      var id :| id in jobs;
      Weight(jobs[id]) + Work(jobs - {id})
  }

  lemma {:induction false} WorkSplits(jobs: JobTable, id: Id)
    requires id in jobs
    ensures Work(jobs) == Weight(jobs[id]) + Work(jobs - {id})
    decreases |jobs|
  {
    var k :| k in jobs && Work(jobs) == Weight(jobs[k]) + Work(jobs - {k});
    if k != id {
      WorkSplits(jobs - {k}, id);
      WorkSplits(jobs - {id}, k);
      assert (jobs - {k}) - {id} == (jobs - {id}) - {k};
    }
  }

  lemma WorkAfterUpdate(jobs: JobTable, id: Id, job: Job)
    requires id in jobs
    ensures Work(jobs[id := job]) == Work(jobs) - Weight(jobs[id]) + Weight(job)
  {
    WorkSplits(jobs, id);
    WorkSplits(jobs[id := job], id);
    assert jobs[id := job] - {id} == jobs - {id};
  }

  /** The table after the claimed copy `locked` replaced row `id` and its handler was done at time `at`. */
  function Handled(jobs: JobTable, id: Id, locked: Job, failed: bool, at: Instant): JobTable {
    if failed then WriteFailure(jobs[id := locked], id, AfterFailure(locked, at)) else WriteCompleted(jobs[id := locked], id)
  }

  /** Handling one claimed row, however it goes, uses up work and leaves the other rows alone. */
  lemma HandlingUsesWork(jobs: JobTable, id: Id, locked: Job, failed: bool, at: Instant)
    requires id in jobs && jobs[id].status.Pending?
    requires locked.status.Processing? && locked.attempts == jobs[id].attempts && locked.maxAttempts == jobs[id].maxAttempts
    ensures var after := Handled(jobs, id, locked, failed, at);
      && Work(after) < Work(jobs)
      && after.Keys == jobs.Keys && forall k :: k in jobs && k != id ==> after[k] == jobs[k]
  {
    var after := Handled(jobs, id, locked, failed, at);
    assert after == jobs[id := after[id]];
    WorkAfterUpdate(jobs, id, after[id]);
  }

  /** How far an undisturbed drain loop has come since the rows were `start`. */
  ghost predicate Draining(start: JobTable, jobs: JobTable, claims: seq<Id>, now: Instant) {
    && jobs.Keys == start.Keys
    && (forall id :: id in start && id !in claims ==> jobs[id] == start[id])
    && (forall id :: id in claims ==> id in start && start[id].status.Pending? && start[id].runAt <= now)
    && (forall id :: id in jobs && jobs[id].status.Pending? ==> start[id].status.Pending?)
    && |claims| + Work(jobs) <= Work(start)
  }

  /** The drain loop is over: what was due at `since` is claimed, nothing is due, the rest is as it was. */
  ghost predicate Drained(start: JobTable, since: Instant, jobs: JobTable, claims: seq<Id>, now: Instant) {
    && (forall id :: id in jobs ==> !IsDue(jobs[id], now))
    && (forall id :: id in start && IsDue(start[id], since) ==> id in claims)
    && |claims| <= Work(start)
    && (forall id :: id in claims ==> id in start && start[id].status.Pending? && start[id].runAt <= now)
    && jobs.Keys == start.Keys
    && (forall id :: id in start && id !in claims ==> jobs[id] == start[id])
  }

  lemma DrainEnds(start: JobTable, since: Instant, jobs: JobTable, claims: seq<Id>, now: Instant)
    requires Draining(start, jobs, claims, now) && since <= now
    requires forall id :: id in jobs ==> !IsDue(jobs[id], now)
    ensures Drained(start, since, jobs, claims, now)
  {
  }

  lemma DrainStep(start: JobTable, jobs: JobTable, claims: seq<Id>, now: Instant, id: Id, after: JobTable, later: Instant)
    requires Draining(start, jobs, claims, now) && now <= later
    requires id in jobs && IsDue(jobs[id], now)
    requires Work(after) < Work(jobs)
    requires after.Keys == jobs.Keys && forall k :: k in jobs && k != id ==> after[k] == jobs[k]
    ensures Draining(start, after, claims + [id], later)
  {
  }

  /** One round of the drain loop: a row is claimed at `now`, and its handler is done at `at`. */
  lemma DrainRound(start: JobTable, jobs: JobTable, claims: seq<Id>, now: Instant, id: Id, locked: Job,
                   failed: bool, at: Instant, later: Instant)
    requires Draining(start, jobs, claims, now) && now <= later
    requires IsNextDue(jobs, now, id)
    requires locked.status.Processing? && locked.attempts == jobs[id].attempts && locked.maxAttempts == jobs[id].maxAttempts
    ensures var after := Handled(jobs, id, locked, failed, at);
      Work(after) < Work(jobs) && Draining(start, after, claims + [id], later)
  {
    HandlingUsesWork(jobs, id, locked, failed, at);
    DrainStep(start, jobs, claims, now, id, Handled(jobs, id, locked, failed, at), later);
  }

  lemma {:induction false} NextDueExists(jobs: JobTable, now: Instant, ids: set<Id>) returns (least: Id)
    requires ids != {}
    requires forall id :: id in ids ==> id in jobs
    ensures least in ids
    ensures forall k :: k in ids ==> jobs[least].runAt <= jobs[k].runAt
  {
    var id :| id in ids;
    if ids == {id} {
      least := id;
    } else {
      var rest := NextDueExists(jobs, now, ids - {id});
      least := if jobs[id].runAt <= jobs[rest].runAt then id else rest;
      forall k | k in ids
        ensures jobs[least].runAt <= jobs[k].runAt
      {
        assert k == id || k in ids - {id};
      }
    }
  }

  // ----- the worker -----

  /** How one handler call goes: how long it runs, how long the final write takes, and whether it fails. */
  datatype Outcome = Outcome(failed: bool, running: nat, writing: nat)

  class JobStore {
    var now: Instant
    var jobs: JobTable
    var posts: PostTable

    constructor (now: Instant)
      ensures this.now == now && jobs == map[] && posts == map[]
    {
      this.now, jobs, posts := now, map[], map[];
    }
  }

  class BackgroundWorker {
    const db: JobStore
    const workerId: string

    constructor (db: JobStore, workerId: string)
      ensures this.db == db && this.workerId == workerId
    {
      this.db := db;
      this.workerId := workerId;
    }

    method RequeueStaleProcessingJobs()
      modifies db`jobs
      ensures db.jobs == RequeueStale(old(db.jobs), db.now)
    {
      var cutoff := db.now - STALE_PROCESSING_JOB_AGE;
      var jobs := db.jobs;
      db.jobs := map id | id in jobs ::
        if jobs[id].status.Processing? && jobs[id].lockedAt.Some? && jobs[id].lockedAt.value <= cutoff
        then jobs[id].(status := Pending, lockedAt := None, lockedBy := "")
        else jobs[id];
    }

    /** The claiming UPDATE with its sub-select; which of several equally early rows it takes is left open. */
    method ClaimNext() returns (claim: Option<(Id, Job)>)
      modifies db`jobs
      ensures claim.None? ==> db.jobs == old(db.jobs) && forall id :: id in db.jobs ==> !IsDue(db.jobs[id], db.now)
      ensures claim.Some? ==>
        && IsNextDue(old(db.jobs), db.now, claim.value.0)
        && claim.value.1 == Claimed(old(db.jobs)[claim.value.0], db.now, workerId)
        && db.jobs == old(db.jobs)[claim.value.0 := claim.value.1]
    {
      var due := set id | id in db.jobs && IsDue(db.jobs[id], db.now);
      assert forall id :: id in db.jobs && IsDue(db.jobs[id], db.now) ==> id in due;
      if due == {} {
        return None;
      }
      ghost var least := NextDueExists(db.jobs, db.now, due);
      assert IsNextDue(db.jobs, db.now, least);
      var id :| id in due && IsNextDue(db.jobs, db.now, id);
      var job := Claimed(db.jobs[id], db.now, workerId);
      db.jobs := db.jobs[id := job];
      claim := Some((id, job));
    }

    /** Runs the handler on the claimed copy and writes its outcome back by id. */
    method HandleLockedJob(id: Id, claimed: Job, outcome: Outcome)
      modifies db`now, db`jobs
      ensures db.now == old(db.now) + outcome.running + outcome.writing
      ensures db.jobs ==
        if outcome.failed then WriteFailure(old(db.jobs), id, AfterFailure(claimed, old(db.now) + outcome.running))
        else WriteCompleted(old(db.jobs), id)
      ensures db.jobs.Keys == old(db.jobs).Keys && forall k :: k in db.jobs && k != id ==> db.jobs[k] == old(db.jobs)[k]
      ensures id in db.jobs && !outcome.failed ==> db.jobs[id] == old(db.jobs)[id].(status := Completed)
      ensures id in db.jobs && outcome.failed ==>
        && db.jobs[id].attempts == claimed.attempts + 1
        && db.jobs[id].kind == old(db.jobs)[id].kind && db.jobs[id].maxAttempts == old(db.jobs)[id].maxAttempts
        && db.jobs[id].lockedAt == old(db.jobs)[id].lockedAt && db.jobs[id].lockedBy == old(db.jobs)[id].lockedBy
      ensures id in db.jobs && outcome.failed && claimed.attempts + 1 >= claimed.maxAttempts ==>
        db.jobs[id].status.Failed? && db.jobs[id].runAt == claimed.runAt
      ensures id in db.jobs && outcome.failed && claimed.attempts + 1 < claimed.maxAttempts ==>
        && db.jobs[id].status.Pending?
        && (claimed.attempts + 1 <= 28 ==>
              db.jobs[id].runAt == old(db.now) + outcome.running + Backoff.Pow2(claimed.attempts) * Backoff.NANOS_PER_MINUTE)
    {
      db.now := db.now + outcome.running;
      if outcome.failed {
        var job := claimed.(attempts := claimed.attempts + 1);
        if job.attempts >= job.maxAttempts {
          job := job.(status := Failed);
        } else {
          job := job.(status := Pending);
          job := job.(runAt := db.now + Backoff.Delay(job.attempts));
          if job.attempts <= 28 {
            Backoff.DelayIsExact(job.attempts);
          }
        }
        db.now := db.now + outcome.writing;
        if id in db.jobs {
          db.jobs := db.jobs[id := db.jobs[id].(status := job.status, attempts := job.attempts, runAt := job.runAt)];
        }
        return;
      }
      db.now := db.now + outcome.writing;
      if id in db.jobs {
        db.jobs := db.jobs[id := db.jobs[id].(status := Completed)];
      }
    }

    /** One poll: claims a row if one is due, and handles it. */
    method ProcessNextJobIfAvailable(outcome: Outcome) returns (claimed: Option<Id>)
      modifies db`now, db`jobs
      ensures claimed.None? ==>
        db.now == old(db.now) && db.jobs == old(db.jobs) && forall id :: id in db.jobs ==> !IsDue(db.jobs[id], db.now)
      ensures claimed.Some? ==>
        && IsNextDue(old(db.jobs), old(db.now), claimed.value)
        && db.now == old(db.now) + outcome.running + outcome.writing
        && db.jobs == Handled(old(db.jobs), claimed.value, Claimed(old(db.jobs)[claimed.value], old(db.now), workerId),
                              outcome.failed, old(db.now) + outcome.running)
    {
      var claim := ClaimNext();
      if claim.None? {
        return None;
      }
      var (id, job) := claim.value;
      HandleLockedJob(id, job, outcome);
      claimed := Some(id);
    }

    /** One round of the drain loop, seen from its start: the rows `start`, of which `claims` were claimed so far. */
    method DrainOnce(outcome: Outcome, ghost start: JobTable, ghost claims: seq<Id>) returns (claimed: Option<Id>)
      requires Draining(start, db.jobs, claims, db.now)
      modifies db`now, db`jobs
      ensures old(db.now) <= db.now
      ensures claimed.None? ==> db.jobs == old(db.jobs) && forall id :: id in db.jobs ==> !IsDue(db.jobs[id], db.now)
      ensures claimed.None? ==> Draining(start, db.jobs, claims, db.now)
      ensures claimed.Some? ==> Draining(start, db.jobs, claims + [claimed.value], db.now) && Work(db.jobs) < Work(old(db.jobs))
    {
      ghost var polled, poll := db.jobs, db.now;
      claimed := ProcessNextJobIfAvailable(outcome);
      if claimed.Some? {
        ghost var id := claimed.value;
        DrainRound(start, polled, claims, poll, id, Claimed(polled[id], poll, workerId), outcome.failed, poll + outcome.running, db.now);
      }
    }

    /**
     The drain loop, for a worker that nobody disturbs. However long the handlers take and whichever
     of them fail, it stops after at most `Work` claims; nothing is due at the final poll; whatever was
     due at the start has been claimed; rows it never claimed are as the requeue left them.
     */
    method ProcessDueJobs(environment: nat -> Outcome) returns (claims: seq<Id>)
      modifies db`now, db`jobs
      ensures Drained(RequeueStale(old(db.jobs), old(db.now)), old(db.now), db.jobs, claims, db.now)
    {
      claims := [];
      RequeueStaleProcessingJobs();
      ghost var start := db.jobs;
      while true
        invariant old(db.now) <= db.now
        invariant Draining(start, db.jobs, claims, db.now)
        decreases Work(db.jobs)
      {
        var claimed := DrainOnce(environment(|claims|), start, claims);
        if claimed.None? {
          DrainEnds(start, old(db.now), db.jobs, claims, db.now);
          return;
        }
        claims := claims + [claimed.value];
      }
    }
  }
}
