/** What holds in every state, and between any two states, of every run of the publish queue. */
module QueueSafety {
  import opened Wrappers
  import Backoff
  import opened JobQueue
  import opened QueueProtocol

  // ----- exclusion -----

  lemma {:induction false} LockInvAlong(workers: set<WorkerId>, run: seq<State>, steps: seq<Step>, i: nat)
    requires IsRun(workers, run, steps) && SafeRequeues(run, steps) && i < |run|
    ensures LockInv(workers, run[i])
  {
    if i > 0 {
      LockInvAlong(workers, run, steps, i - 1);
      StepAt(workers, run, steps, i - 1);
      LockInvStep(workers, run[i - 1], steps[i - 1]);
    }
  }

  /** No job is ever in the hands of two workers, and a worker's copy is the current row while the row exists. */
  lemma MutualExclusion(workers: set<WorkerId>, run: seq<State>, steps: seq<Step>, i: nat, v: WorkerId, w: WorkerId)
    requires IsRun(workers, run, steps) && SafeRequeues(run, steps) && i < |run|
    requires v in run[i].holds && w in run[i].holds
    ensures v != w ==> run[i].holds[v].id != run[i].holds[w].id
    ensures var h := run[i].holds[w]; h.id in run[i].jobs ==> run[i].jobs[h.id] == h.copy && h.copy.status.Processing?
  {
    LockInvAlong(workers, run, steps, i);
    assert HoldOk(run[i], run[i].holds[w]);
  }

  /** The timing condition is exact: a requeue keeps copies and rows in step iff no busy worker's row is stale. */
  lemma RequeueSafeIff(workers: set<WorkerId>, s: State, w: WorkerId)
    requires LockInv(workers, s) && Enabled(workers, s, RequeueStep(w))
    ensures LockInv(workers, Apply(workers, s, RequeueStep(w))) <==> NoStaleHolder(s)
  {
  }

  /**
   Over runs: workers and rows stay in step at all times, which rules out two workers on one job, exactly
   when no requeue ever meets a busy worker whose row is stale.
   */
  lemma ExclusionIff(workers: set<WorkerId>, run: seq<State>, steps: seq<Step>)
    requires IsRun(workers, run, steps)
    ensures (forall i :: 0 <= i < |run| ==> LockInv(workers, run[i])) <==> SafeRequeues(run, steps)
  {
    if SafeRequeues(run, steps) {
      forall i | 0 <= i < |run|
        ensures LockInv(workers, run[i])
      {
        LockInvAlong(workers, run, steps, i);
      }
    }
    if forall i :: 0 <= i < |run| ==> LockInv(workers, run[i]) {
      forall i | 0 <= i < |steps| && steps[i].RequeueStep?
        ensures NoStaleHolder(run[i])
      {
        assert LockInv(workers, run[i]) && LockInv(workers, run[i + 1]);
        StepAt(workers, run, steps, i);
        RequeueSafeIff(workers, run[i], steps[i].worker);
      }
    }
  }

  lemma {:induction false} HoldersAreWorkers(workers: set<WorkerId>, run: seq<State>, steps: seq<Step>, i: nat)
    requires IsRun(workers, run, steps) && i < |run|
    ensures run[i].holds.Keys <= workers
  {
    if i > 0 {
      HoldersAreWorkers(workers, run, steps, i - 1);
      StepAt(workers, run, steps, i - 1);
      HoldersStayWorkers(workers, run[i - 1], steps[i - 1]);
    }
  }

  lemma HoldersStayWorkers(workers: set<WorkerId>, s: State, step: Step)
    requires Enabled(workers, s, step) && s.holds.Keys <= workers
    ensures Apply(workers, s, step).holds.Keys <= workers
  {
  }

  /** One worker alone needs no assumption on timing, and neither do several that finish in time. */
  lemma OrderlyIsSafe(workers: set<WorkerId>, run: seq<State>, steps: seq<Step>)
    requires IsRun(workers, run, steps) && Orderly(workers, run)
    ensures SafeRequeues(run, steps)
  {
    forall i | 0 <= i < |steps| && steps[i].RequeueStep?
      ensures NoStaleHolder(run[i])
    {
      if OneWorker(workers) {
        StepAt(workers, run, steps, i);
        HoldersAreWorkers(workers, run, steps, i);
        assert forall w :: w in run[i].holds ==> w == steps[i].worker;
      } else {
        assert Timely(run[i]);
      }
    }
  }

  /** The table row of the counterexample below at each of its seven steps. */
  ghost function SlowRow(i: nat): Job {
    var late := STALE_PROCESSING_JOB_AGE;
    var born := NewJob(Other("refresh_token"), 0, 3);
    if i == 1 then born
    else if i == 2 || i == 3 then Claimed(born, 0, "a")
    else if i == 4 then born
    else if i == 5 then Claimed(born, late, "b")
    else if i == 6 then Claimed(born, late, "b").(status := Completed)
    else Claimed(born, late, "b").(attempts := 1, runAt := late + Backoff.Delay(1))
      .(status := Pending)
  }

  ghost function SlowState(i: nat): State {
    var late := STALE_PROCESSING_JOB_AGE;
    var a := Hold("job", SlowRow(2), 0);
    var b := Hold("job", SlowRow(5), late);
    State(
      if i < 3 then 0 else late,
      if i == 0 then map[] else map["job" := SlowRow(i)],
      map[],
      if i < 2 || i == 7 then map[] else if i == 5 then map["a" := a, "b" := b] else map["a" := a],
      if i == 0 then map[] else map["job" := 0])
  }

  /** Two workers, one of them slow: the job is in two hands at once, and a completed job goes back to pending. */
  lemma SlowWorkerBreaksExclusion() returns (run: seq<State>, steps: seq<Step>)
    ensures IsRun({"a", "b"}, run, steps) && |steps| == 7
    ensures "a" in run[5].holds && "b" in run[5].holds && run[5].holds["a"].id == run[5].holds["b"].id == "job"
    ensures "job" in run[6].jobs && run[6].jobs["job"].status.Completed?
    ensures "job" in run[7].jobs && run[7].jobs["job"].status.Pending?
  {
    var late := STALE_PROCESSING_JOB_AGE;
    steps := [InsertOtherStep("job", "refresh_token", 0, 3), ClaimStep("a", "job"), Tick(late), RequeueStep("b"),
              ClaimStep("b", "job"), CompleteStep("b"), FailStep("a", late)];
    run := seq(8, i requires i >= 0 => SlowState(i));
    forall i | 0 <= i < 7
      ensures IsStep({"a", "b"}, run, steps, i)
    {
      SlowStep(i, steps[i]);
    }
  }

  lemma SlowStep(i: nat, step: Step)
    requires i < 7
    requires step == [InsertOtherStep("job", "refresh_token", 0, 3), ClaimStep("a", "job"), Tick(STALE_PROCESSING_JOB_AGE),
                      RequeueStep("b"), ClaimStep("b", "job"), CompleteStep("b"), FailStep("a", STALE_PROCESSING_JOB_AGE)][i]
    ensures Enabled({"a", "b"}, SlowState(i), step) && SlowState(i + 1) == Apply({"a", "b"}, SlowState(i), step)
  {
  }

  // ----- rows only move forward -----

  ghost predicate RowEvolves(before: Job, after: Job) {
    && after.kind == before.kind && after.maxAttempts == before.maxAttempts
    && before.attempts <= after.attempts
    && (before.status.Completed? || before.status.Failed? ==> after == before)
    && (before.maxAttempts <= 29 ==> before.runAt <= after.runAt)
  }

  /** Ids are never used twice, and a row that is present later was present before. */
  ghost predicate Evolves(s: State, t: State) {
    && s.now <= t.now
    && s.born.Keys <= t.born.Keys
    && forall id :: id in s.born ==>
         t.born[id] == s.born[id] && (id in t.jobs ==> id in s.jobs && RowEvolves(s.jobs[id], t.jobs[id]))
  }

  lemma FailureEvolves(workers: set<WorkerId>, s: State, w: WorkerId, at: Instant)
    requires LockInv(workers, s) && Enabled(workers, s, FailStep(w, at))
    ensures Evolves(s, Apply(workers, s, FailStep(w, at)))
  {
    var h := s.holds[w];
    assert HoldOk(s, h);
    var n := h.copy.attempts + 1;
    if n < h.copy.maxAttempts <= 29 {
      Backoff.DelayIsExact(n);
    }
  }

  lemma StepEvolves(workers: set<WorkerId>, s: State, step: Step)
    requires LockInv(workers, s) && Enabled(workers, s, step)
    ensures Evolves(s, Apply(workers, s, step))
  {
    match step {
      case FailStep(w, at) => FailureEvolves(workers, s, w, at);
      case CompleteStep(w) => assert HoldOk(s, s.holds[w]);
      case _ =>
    }
  }

  /**
   Between any two moments of a run with safe requeues: completed and failed rows are frozen, attempts only grow,
   run_at only moves later (for rows allowed at most 29 attempts), and a deleted row never comes back.
   */
  lemma {:induction false} RowsOnlyMoveForward(workers: set<WorkerId>, run: seq<State>, steps: seq<Step>, i: nat, j: nat)
    requires IsRun(workers, run, steps) && SafeRequeues(run, steps) && i <= j < |run|
    ensures Evolves(run[i], run[j])
    decreases j
  {
    LockInvAlong(workers, run, steps, i);
    if i < j {
      RowsOnlyMoveForward(workers, run, steps, i, j - 1);
      LockInvAlong(workers, run, steps, j - 1);
      StepAt(workers, run, steps, j - 1);
      StepEvolves(workers, run[j - 1], steps[j - 1]);
    }
  }

  lemma AttemptsBounded(workers: set<WorkerId>, run: seq<State>, steps: seq<Step>, i: nat, id: Id)
    requires IsRun(workers, run, steps) && SafeRequeues(run, steps) && i < |run| && id in run[i].jobs
    ensures run[i].jobs[id].attempts <= run[i].jobs[id].maxAttempts
    ensures run[i].jobs[id].attempts == run[i].jobs[id].maxAttempts <==> run[i].jobs[id].status.Failed?
  {
    LockInvAlong(workers, run, steps, i);
  }

  /** A retry is always scheduled after the failure it follows exactly when at most 29 attempts are allowed. */
  lemma RetryIsLaterIff(maxAttempts: nat)
    ensures (forall job: Job, at: Instant ::
               job.maxAttempts == maxAttempts && AfterFailure(job, at).status.Pending? ==> AfterFailure(job, at).runAt > at)
            <==> maxAttempts <= 29
  {
    Backoff.DelaysExactIff(maxAttempts);
    if maxAttempts > 29 {
      Backoff.DelayOverflows();
      var job := NewJob(Other(""), 0, maxAttempts).(attempts := 28);
      assert AfterFailure(job, 0).status.Pending? && AfterFailure(job, 0).runAt == Backoff.Delay(29);
    }
  }

  // ----- no job starts early, whatever the timing -----

  ghost predicate BirthRowOk(s: State, id: Id)
    requires id in s.jobs
  {
    && id in s.born
    && (s.born[id] <= s.jobs[id].runAt || s.born[id] <= s.now)
    && (s.jobs[id].maxAttempts <= 29 ==> s.born[id] <= s.jobs[id].runAt)
  }

  ghost predicate BirthHoldOk(s: State, h: Hold) {
    && h.id in s.born && h.copy.runAt <= h.since && s.born[h.id] <= h.since <= s.now
    && (h.copy.maxAttempts <= 29 ==> s.born[h.id] <= h.copy.runAt)
    && (h.id in s.jobs ==> s.jobs[h.id].maxAttempts == h.copy.maxAttempts)
  }

  ghost predicate BirthInv(s: State) {
    && (forall id :: id in s.jobs ==> BirthRowOk(s, id))
    && (forall w :: w in s.holds ==> BirthHoldOk(s, s.holds[w]))
  }

  /** A final write keeps the limit of the row and never takes its run_at before the insertion time. */
  lemma BirthInvFinish(s: State, w: WorkerId, row: Job)
    requires BirthInv(s) && w in s.holds
    requires var h := s.holds[w];
      h.id in s.jobs ==>
        row.maxAttempts == h.copy.maxAttempts && (row.maxAttempts <= 29 ==> s.born[h.id] <= row.runAt)
    ensures var id := s.holds[w].id;
      BirthInv(Release(s.(jobs := if id in s.jobs then s.jobs[id := row] else s.jobs), w))
  {
  }

  lemma BirthInvFailure(workers: set<WorkerId>, s: State, w: WorkerId, at: Instant)
    requires BirthInv(s) && Enabled(workers, s, FailStep(w, at))
    ensures BirthInv(Apply(workers, s, FailStep(w, at)))
  {
    var h := s.holds[w];
    assert BirthHoldOk(s, h);
    if h.copy.attempts + 1 < h.copy.maxAttempts <= 29 {
      Backoff.DelayIsExact(h.copy.attempts + 1);
    }
    if h.id in s.jobs {
      var after := AfterFailure(h.copy, at);
      BirthInvFinish(s, w, s.jobs[h.id].(status := after.status, attempts := after.attempts, runAt := after.runAt));
    } else {
      BirthInvFinish(s, w, h.copy);
    }
  }

  lemma BirthInvInsert(s: State, id: Id, kind: JobKind, runAt: Instant, maxAttempts: nat)
    requires BirthInv(s) && id !in s.born
    ensures BirthInv(Insert(s, id, kind, runAt, maxAttempts))
  {
  }

  lemma BirthInvDrop(s: State, fewer: JobTable)
    requires BirthInv(s)
    requires fewer.Keys <= s.jobs.Keys && forall id :: id in fewer ==> fewer[id] == s.jobs[id]
    ensures BirthInv(s.(jobs := fewer))
  {
  }

  lemma BirthInvRequeue(s: State)
    requires BirthInv(s)
    ensures BirthInv(s.(jobs := RequeueStale(s.jobs, s.now)))
  {
  }

  lemma BirthInvClaim(workers: set<WorkerId>, s: State, w: WorkerId, id: Id)
    requires BirthInv(s) && Enabled(workers, s, ClaimStep(w, id))
    ensures BirthInv(Apply(workers, s, ClaimStep(w, id)))
  {
  }

  lemma BirthInvStep(workers: set<WorkerId>, s: State, step: Step)
    requires BirthInv(s) && Enabled(workers, s, step)
    ensures BirthInv(Apply(workers, s, step))
  {
    match step {
      case RequeueStep(_) => BirthInvRequeue(s);
      case ClaimStep(w, id) => BirthInvClaim(workers, s, w, id);
      case CompleteStep(w) =>
        var h := s.holds[w];
        assert BirthHoldOk(s, h) && (h.id in s.jobs ==> BirthRowOk(s, h.id));
        BirthInvFinish(s, w, if h.id in s.jobs then s.jobs[h.id].(status := Completed) else h.copy);
      case FailStep(w, at) => BirthInvFailure(workers, s, w, at);
      case SchedulePostStep(p, id, at, max) => BirthInvInsert(s, id, PublishPost(p), at, max);
      case ScheduleDraftStep(p, id, _, runAt, max) =>
        BirthInvDrop(s, DeletePublishJobs(s.jobs, p));
        BirthInvInsert(s.(jobs := DeletePublishJobs(s.jobs, p)), id, PublishPost(p), runAt, max);
      case CancelPostStep(p) => BirthInvDrop(s, DeletePublishJobs(s.jobs, p));
      case InsertOtherStep(id, name, runAt, max) => BirthInvInsert(s, id, Other(name), runAt, max);
      case DeleteOtherStep(id) => BirthInvDrop(s, s.jobs - {id});
      case _ =>
    }
  }

  lemma {:induction false} BirthInvAlong(workers: set<WorkerId>, run: seq<State>, steps: seq<Step>, i: nat)
    requires IsRun(workers, run, steps) && i < |run|
    ensures BirthInv(run[i])
  {
    if i > 0 {
      BirthInvAlong(workers, run, steps, i - 1);
      StepAt(workers, run, steps, i - 1);
      BirthInvStep(workers, run[i - 1], steps[i - 1]);
    }
  }

  // ----- one publish job per scheduled post, whatever the timing -----

  ghost predicate IsPublishRow(jobs: JobTable, id: Id, post: Id) {
    id in jobs && jobs[id].kind == PublishPost(post)
  }

  ghost predicate PublishInv(s: State) {
    && s.jobs.Keys <= s.born.Keys
    && (forall id, p :: IsPublishRow(s.jobs, id, p) ==> p in s.posts && !s.posts[p].status.Draft?)
    && (forall id, k, p :: IsPublishRow(s.jobs, id, p) && IsPublishRow(s.jobs, k, p) ==> id == k)
    && (forall p :: p in s.posts && s.posts[p].status.Scheduled? ==>
          exists id :: IsPublishRow(s.jobs, id, p) && Some(s.born[id]) == s.posts[p].actualRunAt)
  }

  /** Workers change no kind, add no row and remove none. */
  lemma PublishInvWorker(workers: set<WorkerId>, s: State, step: Step)
    requires PublishInv(s) && Enabled(workers, s, step)
    requires step.RequeueStep? || step.ClaimStep? || step.CompleteStep? || step.FailStep?
    ensures PublishInv(Apply(workers, s, step))
  {
    var t := Apply(workers, s, step);
    assert t.posts == s.posts && t.born == s.born;
    assert forall id, p :: IsPublishRow(t.jobs, id, p) <==> IsPublishRow(s.jobs, id, p);
  }

  /** Putting a post in the queue: its old rows are gone, and the new row carries its actual_run_at. */
  lemma PublishInvSchedule(s: State, p: Id, post: Post, id: Id, runAt: Instant, maxAttempts: nat)
    requires PublishInv(s) && id !in s.born
    requires post.status.Scheduled? && post.actualRunAt == Some(runAt)
    ensures PublishInv(Insert(s.(posts := s.posts[p := post], jobs := DeletePublishJobs(s.jobs, p)), id, PublishPost(p), runAt, maxAttempts))
  {
    var t := Insert(s.(posts := s.posts[p := post], jobs := DeletePublishJobs(s.jobs, p)), id, PublishPost(p), runAt, maxAttempts);
    assert IsPublishRow(t.jobs, id, p);
    assert forall k, q :: q != p ==> (IsPublishRow(t.jobs, k, q) <==> IsPublishRow(s.jobs, k, q));
    assert forall k :: IsPublishRow(t.jobs, k, p) ==> k == id;
  }

  lemma PublishInvUnchanged(s: State, t: State)
    requires PublishInv(s)
    requires t.jobs.Keys <= t.born.Keys && forall id :: id in s.jobs ==> id in t.born && t.born[id] == s.born[id]
    requires forall id, p :: IsPublishRow(t.jobs, id, p) <==> IsPublishRow(s.jobs, id, p)
    requires s.posts.Keys <= t.posts.Keys
    requires forall p :: p in t.posts ==>
      (p in s.posts && t.posts[p] == s.posts[p]) || (p !in s.posts && t.posts[p].status.Draft?)
    ensures PublishInv(t)
  {
  }

  lemma PublishInvCancel(s: State, p: Id)
    requires PublishInv(s)
    ensures PublishInv(s.(posts := s.posts[p := Post(Draft, None, None)], jobs := DeletePublishJobs(s.jobs, p)))
  {
    var t := s.(posts := s.posts[p := Post(Draft, None, None)], jobs := DeletePublishJobs(s.jobs, p));
    assert forall k :: !IsPublishRow(t.jobs, k, p);
    assert forall k, q :: q != p ==> (IsPublishRow(t.jobs, k, q) <==> IsPublishRow(s.jobs, k, q));
  }

  lemma PublishInvStep(workers: set<WorkerId>, s: State, step: Step)
    requires PublishInv(s) && Enabled(workers, s, step)
    ensures PublishInv(Apply(workers, s, step))
  {
    match step {
      case SchedulePostStep(p, id, at, max) =>
        assert DeletePublishJobs(s.jobs, p) == s.jobs by {
          assert forall k :: k in s.jobs && s.jobs[k].kind == PublishPost(p) ==> IsPublishRow(s.jobs, k, p);
        }
        PublishInvSchedule(s, p, Post(Scheduled, Some(at), Some(at)), id, at, max);
      case ScheduleDraftStep(p, id, at, runAt, max) =>
        PublishInvSchedule(s, p, Post(Scheduled, Some(at), Some(runAt)), id, runAt, max);
      case CancelPostStep(p) => PublishInvCancel(s, p);
      case InsertOtherStep(_, _, _, _) => PublishInvUnchanged(s, Apply(workers, s, step));
      case DeleteOtherStep(_) => PublishInvUnchanged(s, Apply(workers, s, step));
      case CreateDraftStep(_) => PublishInvUnchanged(s, Apply(workers, s, step));
      case Tick(_) =>
      case CrashStep(_) =>
      case PublisherStep(_, _) =>
      case _ => PublishInvWorker(workers, s, step);
    }
  }

  lemma {:induction false} PublishInvAlong(workers: set<WorkerId>, run: seq<State>, steps: seq<Step>, i: nat)
    requires IsRun(workers, run, steps) && i < |run|
    ensures PublishInv(run[i])
  {
    if i > 0 {
      PublishInvAlong(workers, run, steps, i - 1);
      StepAt(workers, run, steps, i - 1);
      PublishInvStep(workers, run[i - 1], steps[i - 1]);
    }
  }

  ghost function PublishRows(jobs: JobTable, post: Id): set<Id> {
    set id | id in jobs && jobs[id].kind == PublishPost(post)
  }

  /** At most one publish_post row per post at all times: none for a draft, exactly one for a scheduled post. */
  lemma OnePublishJobPerPost(workers: set<WorkerId>, run: seq<State>, steps: seq<Step>, i: nat, post: Id)
    requires IsRun(workers, run, steps) && i < |run| && post in run[i].posts
    ensures |PublishRows(run[i].jobs, post)| <= 1
    ensures run[i].posts[post].status.Draft? ==> PublishRows(run[i].jobs, post) == {}
    ensures run[i].posts[post].status.Scheduled? ==> |PublishRows(run[i].jobs, post)| == 1
  {
    PublishInvAlong(workers, run, steps, i);
    var rows := PublishRows(run[i].jobs, post);
    forall id | id in rows
      ensures IsPublishRow(run[i].jobs, id, post) && rows == {id}
    {
      assert IsPublishRow(run[i].jobs, id, post);
      assert forall k :: k in rows ==> IsPublishRow(run[i].jobs, k, post);
    }
    if run[i].posts[post].status.Scheduled? {
      var id :| IsPublishRow(run[i].jobs, id, post);
      assert id in rows;
    }
    if rows != {} {
      var id :| id in rows;
      assert rows == {id};
    }
  }

  /**
   Whatever its attempt limit, a job is never claimed before the run_at it was inserted with; the job of a
   post that is still scheduled is never claimed before the post's actual_run_at.
   */
  lemma NeverClaimedEarly(workers: set<WorkerId>, run: seq<State>, steps: seq<Step>, i: nat, w: WorkerId, id: Id)
    requires IsRun(workers, run, steps) && i < |steps| && steps[i] == ClaimStep(w, id)
    ensures id in run[i].jobs && id in run[i].born && run[i].born[id] <= run[i].now
    ensures var kind := run[i].jobs[id].kind;
      kind.PublishPost? ==> kind.postId in run[i].posts && (run[i].posts[kind.postId].status.Scheduled? ==>
        run[i].posts[kind.postId].actualRunAt.Some? && run[i].posts[kind.postId].actualRunAt.value <= run[i].now)
  {
    StepAt(workers, run, steps, i);
    BirthInvAlong(workers, run, steps, i);
    assert BirthRowOk(run[i], id);
    PublishInvAlong(workers, run, steps, i);
    var kind := run[i].jobs[id].kind;
    if kind.PublishPost? {
      assert IsPublishRow(run[i].jobs, id, kind.postId);
    }
  }

  // ----- cancelled jobs -----

  /** The id was used, and its row is gone. */
  ghost predicate Gone(s: State, id: Id) {
    id in s.born && id !in s.jobs
  }

  lemma GoneStep(workers: set<WorkerId>, s: State, step: Step, id: Id)
    requires Enabled(workers, s, step) && Gone(s, id)
    ensures Gone(Apply(workers, s, step), id)
  {
  }

  lemma {:induction false} GoneAlong(run: seq<State>, i: nat, j: nat, id: Id)
    requires i <= j < |run| && Gone(run[i], id)
    requires forall k :: 0 < k < |run| && Gone(run[k - 1], id) ==> Gone(run[k], id)
    ensures Gone(run[j], id)
  {
    if i < j {
      GoneAlong(run, i, j - 1, id);
    }
  }

  /** Ids are never used twice, with no assumption on timing. */
  lemma DeletedStaysDeleted(workers: set<WorkerId>, run: seq<State>, steps: seq<Step>, i: nat, j: nat, id: Id)
    requires IsRun(workers, run, steps) && i <= j < |run|
    requires id in run[i].born && id !in run[i].jobs
    ensures id in run[j].born && id !in run[j].jobs
  {
    forall k | 0 < k < |run| && Gone(run[k - 1], id)
      ensures Gone(run[k], id)
    {
      StepAt(workers, run, steps, k - 1);
      GoneStep(workers, run[k - 1], steps[k - 1], id);
    }
    GoneAlong(run, i, j, id);
  }

  /**
   Once a publish job has been deleted by cancel_post or schedule_draft, whatever a worker that still
   holds it writes afterwards changes no row at all: neither the deleted one nor its replacement.
   */
  lemma CancelledJobIsInert(workers: set<WorkerId>, run: seq<State>, steps: seq<Step>, i: nat, j: nat, w: WorkerId)
    requires IsRun(workers, run, steps) && i < j < |steps|
    requires steps[i].CancelPostStep? || steps[i].ScheduleDraftStep?
    requires w in run[i].holds && IsPublishRow(run[i].jobs, run[i].holds[w].id, steps[i].post)
    requires w in run[j].holds && run[j].holds[w].id == run[i].holds[w].id
    requires steps[j].CompleteStep? || steps[j].FailStep?
    requires steps[j].worker == w
    ensures run[j + 1].jobs == run[j].jobs
    ensures run[i].holds[w].id !in run[j].jobs
  {
    var id := run[i].holds[w].id;
    BirthInvAlong(workers, run, steps, i);
    assert BirthHoldOk(run[i], run[i].holds[w]);
    StepAt(workers, run, steps, i);
    assert Gone(run[i + 1], id);
    DeletedStaysDeleted(workers, run, steps, i + 1, j, id);
    StepAt(workers, run, steps, j);
  }

  // ----- nothing is lost -----

  /** A processing row says since when. */
  ghost predicate LockedRows(s: State) {
    && (forall id :: id in s.jobs && s.jobs[id].status.Processing? ==> s.jobs[id].lockedAt.Some?)
  }

  lemma LockedRowsStep(workers: set<WorkerId>, s: State, step: Step)
    requires LockedRows(s) && Enabled(workers, s, step)
    ensures LockedRows(Apply(workers, s, step))
  {
  }

  lemma {:induction false} LockedRowsAlong(workers: set<WorkerId>, run: seq<State>, steps: seq<Step>, i: nat)
    requires IsRun(workers, run, steps) && i < |run|
    ensures LockedRows(run[i])
  {
    if i > 0 {
      LockedRowsAlong(workers, run, steps, i - 1);
      StepAt(workers, run, steps, i - 1);
      LockedRowsStep(workers, run[i - 1], steps[i - 1]);
    }
  }

  /** Whatever the timing, a row left in processing is back in the queue at the first requeue 15 minutes after its claim. */
  lemma CrashedJobIsRecovered(workers: set<WorkerId>, run: seq<State>, steps: seq<Step>, i: nat, id: Id)
    requires IsRun(workers, run, steps) && i < |steps| && steps[i].RequeueStep?
    requires id in run[i].jobs && run[i].jobs[id].status.Processing?
    ensures run[i].jobs[id].lockedAt.Some? && id in run[i + 1].jobs
    ensures run[i].jobs[id].lockedAt.value + STALE_PROCESSING_JOB_AGE <= run[i].now <==> run[i + 1].jobs[id].status.Pending?
    ensures run[i + 1].jobs[id].attempts == run[i].jobs[id].attempts && run[i + 1].jobs[id].runAt == run[i].jobs[id].runAt
  {
    LockedRowsAlong(workers, run, steps, i);
    StepAt(workers, run, steps, i);
  }
}
