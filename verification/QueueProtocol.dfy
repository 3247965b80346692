/**
 Any number of workers and API transactions on one job table.

 A state holds the tables, the clock, what each busy worker has in memory, and (history) the run_at
 that every job id was inserted with. Every statement or transaction is one step; a crash drops what a
 worker has in memory, and so does a final write that fails. The publisher, which the model does not
 contain, may at any moment move a post to publishing, published or failed.
 */
module QueueProtocol {
  import opened Wrappers
  import opened JobQueue

  type WorkerId = string

  /** A busy worker: the id and the row its claim returned, and when it claimed. */
  datatype Hold = Hold(id: Id, copy: Job, since: Instant)

  datatype State = State(
    now: Instant,
    jobs: JobTable,
    posts: PostTable,
    holds: map<WorkerId, Hold>,
    born: map<Id, Instant>)

  datatype Step =
    | Tick(to: Instant)
    | RequeueStep(worker: WorkerId)
    | ClaimStep(worker: WorkerId, id: Id)
    | CompleteStep(worker: WorkerId)
    | FailStep(worker: WorkerId, at: Instant)
    | CrashStep(worker: WorkerId)
    | PublisherStep(post: Id, status: PostStatus)
    | CreateDraftStep(post: Id)
    | SchedulePostStep(post: Id, id: Id, at: Instant, maxAttempts: nat)
    | ScheduleDraftStep(post: Id, id: Id, at: Instant, runAt: Instant, maxAttempts: nat)
    | CancelPostStep(post: Id)
    | InsertOtherStep(id: Id, name: string, runAt: Instant, maxAttempts: nat)
    | DeleteOtherStep(id: Id)

  /**
   Row ids are fresh UUIDs. The commits of schedule_draft and cancel_post look at the post only by id,
   so whatever they validated before may have changed: any status is allowed here.
   */
  predicate Enabled(workers: set<WorkerId>, s: State, step: Step) {
    match step
    case Tick(to) => s.now <= to
    case RequeueStep(w) => w in workers && w !in s.holds
    case ClaimStep(w, id) => w in workers && w !in s.holds && IsNextDue(s.jobs, s.now, id)
    case CompleteStep(w) => w in s.holds
    case FailStep(w, at) => w in s.holds && s.holds[w].since <= at <= s.now
    case CrashStep(w) => w in s.holds
    case PublisherStep(p, status) => p in s.posts && (status.Publishing? || status.Published? || status.PublishFailed?)
    case CreateDraftStep(p) => p !in s.posts
    case SchedulePostStep(p, id, _, max) => p !in s.posts && id !in s.born && 1 <= max
    case ScheduleDraftStep(p, id, _, _, max) => p in s.posts && id !in s.born && 1 <= max
    case CancelPostStep(p) => p in s.posts
    case InsertOtherStep(id, _, _, max) => id !in s.born && 1 <= max
    case DeleteOtherStep(id) => id in s.jobs && s.jobs[id].kind.Other?
  }

  function Insert(s: State, id: Id, kind: JobKind, runAt: Instant, maxAttempts: nat): State {
    s.(jobs := s.jobs[id := NewJob(kind, runAt, maxAttempts)], born := s.born[id := runAt])
  }

  function Release(s: State, w: WorkerId): State {
    s.(holds := s.holds - {w})
  }

  function Apply(workers: set<WorkerId>, s: State, step: Step): State
    requires Enabled(workers, s, step)
  {
    match step
    case Tick(to) => s.(now := to)
    case RequeueStep(_) => s.(jobs := RequeueStale(s.jobs, s.now))
    case ClaimStep(w, id) =>
      var job := Claimed(s.jobs[id], s.now, w);
      s.(jobs := s.jobs[id := job], holds := s.holds[w := Hold(id, job, s.now)])
    case CompleteStep(w) => Release(s.(jobs := WriteCompleted(s.jobs, s.holds[w].id)), w)
    case FailStep(w, at) =>
      Release(s.(jobs := WriteFailure(s.jobs, s.holds[w].id, AfterFailure(s.holds[w].copy, at))), w)
    case CrashStep(w) => Release(s, w)
    case PublisherStep(p, status) => s.(posts := s.posts[p := s.posts[p].(status := status)])
    case CreateDraftStep(p) => s.(posts := s.posts[p := Post(Draft, None, None)])
    case SchedulePostStep(p, id, at, max) =>
      Insert(s.(posts := s.posts[p := Post(Scheduled, Some(at), Some(at))]), id, PublishPost(p), at, max)
    case ScheduleDraftStep(p, id, at, runAt, max) =>
      Insert(s.(posts := s.posts[p := Post(Scheduled, Some(at), Some(runAt))], jobs := DeletePublishJobs(s.jobs, p)),
             id, PublishPost(p), runAt, max)
    case CancelPostStep(p) =>
      s.(posts := s.posts[p := Post(Draft, None, None)], jobs := DeletePublishJobs(s.jobs, p))
    case InsertOtherStep(id, name, runAt, max) => Insert(s, id, Other(name), runAt, max)
    case DeleteOtherStep(id) => s.(jobs := s.jobs - {id})
  }

  /** The run that these steps take from an empty database. */
  ghost predicate IsRun(workers: set<WorkerId>, run: seq<State>, steps: seq<Step>) {
    |run| == |steps| + 1 &&
    run[0].jobs == map[] && run[0].posts == map[] && run[0].holds == map[] && run[0].born == map[] &&
    forall i :: 0 <= i < |steps| ==> IsStep(workers, run, steps, i)
  }

  ghost predicate IsStep(workers: set<WorkerId>, run: seq<State>, steps: seq<Step>, i: nat)
    requires i < |steps| < |run|
  {
    Enabled(workers, run[i], steps[i]) && run[i + 1] == Apply(workers, run[i], steps[i])
  }

  lemma StepAt(workers: set<WorkerId>, run: seq<State>, steps: seq<Step>, i: nat)
    requires IsRun(workers, run, steps) && i < |steps|
    ensures Enabled(workers, run[i], steps[i]) && run[i + 1] == Apply(workers, run[i], steps[i])
  {
    assert IsStep(workers, run, steps, i);
  }

  // ----- when workers cannot get into each other's way -----

  /** No busy worker whose row still exists claimed it 15 minutes ago or earlier. */
  ghost predicate NoStaleHolder(s: State) {
    forall w :: w in s.holds && s.holds[w].id in s.jobs ==> s.now < s.holds[w].since + STALE_PROCESSING_JOB_AGE
  }

  /** The condition of the exclusion results: whenever a worker requeues, no busy worker's row is stale. */
  ghost predicate SafeRequeues(run: seq<State>, steps: seq<Step>)
    requires |run| == |steps| + 1
  {
    forall i :: 0 <= i < |steps| && steps[i].RequeueStep? ==> NoStaleHolder(run[i])
  }

  /** No worker is still busy 15 minutes after its claim. */
  ghost predicate Timely(s: State) {
    forall w :: w in s.holds ==> s.now < s.holds[w].since + STALE_PROCESSING_JOB_AGE
  }

  ghost predicate OneWorker(workers: set<WorkerId>) {
    forall v, w :: v in workers && w in workers ==> v == w
  }

  /** Two ways to meet it: one worker, or final writes within 15 minutes of the claim. */
  ghost predicate Orderly(workers: set<WorkerId>, run: seq<State>) {
    OneWorker(workers) || forall i :: 0 <= i < |run| ==> Timely(run[i])
  }

  ghost predicate RowOk(job: Job, now: Instant) {
    && job.attempts <= job.maxAttempts && 1 <= job.maxAttempts
    && (job.status.Failed? <==> job.attempts == job.maxAttempts)
    && (job.status.Processing? ==> job.lockedAt.Some? && job.lockedAt.value <= now)
  }

  /** A busy worker's copy is the row itself, as long as the row exists. */
  ghost predicate HoldOk(s: State, h: Hold) {
    && h.id in s.born
    && h.since <= s.now
    && h.copy.status.Processing? && h.copy.lockedAt == Some(h.since)
    && h.copy.runAt <= h.since
    && h.copy.attempts < h.copy.maxAttempts
    && (h.id in s.jobs ==> s.jobs[h.id] == h.copy)
  }

  ghost predicate Exclusive(s: State) {
    forall v, w :: v in s.holds && w in s.holds && v != w ==> s.holds[v].id != s.holds[w].id
  }

  ghost predicate LockInv(workers: set<WorkerId>, s: State) {
    && s.holds.Keys <= workers
    && s.jobs.Keys <= s.born.Keys
    && (forall id :: id in s.jobs ==> RowOk(s.jobs[id], s.now))
    && (forall w :: w in s.holds ==> HoldOk(s, s.holds[w]))
    && Exclusive(s)
  }

  lemma LockInvStep(workers: set<WorkerId>, s: State, step: Step)
    requires LockInv(workers, s) && Enabled(workers, s, step)
    requires step.RequeueStep? ==> NoStaleHolder(s)
    ensures LockInv(workers, Apply(workers, s, step))
  {
    match step {
      case RequeueStep(_) => RequeueKeepsLocks(workers, s);
      case ClaimStep(w, id) => ClaimKeepsLocks(workers, s, w, id);
      case CompleteStep(w) => FinishKeepsLocks(workers, s, w, s.holds[w].copy.(status := Completed));
      case FailStep(w, at) =>
        var after := AfterFailure(s.holds[w].copy, at);
        assert HoldOk(s, s.holds[w]);
        FinishKeepsLocks(workers, s, w, after);
      case CrashStep(w) => FinishKeepsLocks(workers, s, w, s.holds[w].copy);
      case Tick(_) =>
      case _ => ApiKeepsLocks(workers, s, step);
    }
  }

  lemma ApiKeepsLocks(workers: set<WorkerId>, s: State, step: Step)
    requires LockInv(workers, s) && Enabled(workers, s, step)
    requires !(step.Tick? || step.RequeueStep? || step.ClaimStep? || step.CompleteStep? || step.FailStep? || step.CrashStep?)
    ensures LockInv(workers, Apply(workers, s, step))
  {
    match step {
      case SchedulePostStep(p, id, at, max) => InsertKeepsLocks(workers, s, id, PublishPost(p), at, max);
      case ScheduleDraftStep(p, id, _, runAt, max) =>
        DropKeepsLocks(workers, s, DeletePublishJobs(s.jobs, p));
        InsertKeepsLocks(workers, s.(jobs := DeletePublishJobs(s.jobs, p)), id, PublishPost(p), runAt, max);
      case CancelPostStep(p) => DropKeepsLocks(workers, s, DeletePublishJobs(s.jobs, p));
      case InsertOtherStep(id, name, runAt, max) => InsertKeepsLocks(workers, s, id, Other(name), runAt, max);
      case DeleteOtherStep(id) => DropKeepsLocks(workers, s, s.jobs - {id});
      case _ =>
    }
  }

  lemma RequeueKeepsLocks(workers: set<WorkerId>, s: State)
    requires LockInv(workers, s) && NoStaleHolder(s)
    ensures LockInv(workers, s.(jobs := RequeueStale(s.jobs, s.now)))
  {
  }

  lemma ClaimKeepsLocks(workers: set<WorkerId>, s: State, w: WorkerId, id: Id)
    requires LockInv(workers, s) && Enabled(workers, s, ClaimStep(w, id))
    ensures LockInv(workers, Apply(workers, s, ClaimStep(w, id)))
  {
  }

  /** A worker that lets go of its job may leave any well-formed row behind. */
  lemma FinishKeepsLocks(workers: set<WorkerId>, s: State, w: WorkerId, row: Job)
    requires LockInv(workers, s) && w in s.holds && RowOk(row, s.now)
    ensures var id := s.holds[w].id;
      LockInv(workers, Release(s.(jobs := if id in s.jobs then s.jobs[id := row] else s.jobs), w))
  {
    var id := s.holds[w].id;
    var t := Release(s.(jobs := if id in s.jobs then s.jobs[id := row] else s.jobs), w);
    forall v | v in t.holds
      ensures HoldOk(t, t.holds[v])
    {
      assert HoldOk(s, s.holds[v]) && s.holds[v].id != id;
    }
  }

  lemma InsertKeepsLocks(workers: set<WorkerId>, s: State, id: Id, kind: JobKind, runAt: Instant, maxAttempts: nat)
    requires LockInv(workers, s) && id !in s.born && 1 <= maxAttempts
    ensures LockInv(workers, Insert(s, id, kind, runAt, maxAttempts))
  {
  }

  lemma DropKeepsLocks(workers: set<WorkerId>, s: State, fewer: JobTable)
    requires LockInv(workers, s)
    requires fewer.Keys <= s.jobs.Keys && forall id :: id in fewer ==> fewer[id] == s.jobs[id]
    ensures LockInv(workers, s.(jobs := fewer))
  {
  }
}
