/** Counting what happens to one job over a whole run. */
module QueueAccounting {
  import opened JobQueue
  import opened QueueProtocol
  import opened QueueSafety

  datatype Event = ClaimEvent | CompleteEvent | FailEvent | CrashEvent

  ghost predicate Happens(s: State, step: Step, event: Event, id: Id) {
    match event
    case ClaimEvent => step.ClaimStep? && step.id == id
    case CompleteEvent => step.CompleteStep? && step.worker in s.holds && s.holds[step.worker].id == id
    case FailEvent => step.FailStep? && step.worker in s.holds && s.holds[step.worker].id == id
    case CrashEvent => step.CrashStep? && step.worker in s.holds && s.holds[step.worker].id == id
  }

  /** How often the event happened to the job in the first n steps. */
  ghost function Count(run: seq<State>, steps: seq<Step>, event: Event, id: Id, n: nat): nat
    requires n <= |steps| < |run|
  {
    if n == 0 then 0
    else Count(run, steps, event, id, n - 1) + if Happens(run[n - 1], steps[n - 1], event, id) then 1 else 0
  }

  /** The busy workers that hold this job. */
  ghost function Holders(holds: map<WorkerId, Hold>, id: Id): set<WorkerId> {
    set w | w in holds && holds[w].id == id
  }

  /** The change in the number of holders: one more for a claim, one fewer when a holder lets go. */
  ghost function HoldersChange(s: State, step: Step, id: Id): int {
    if Happens(s, step, ClaimEvent, id) then 1
    else if Happens(s, step, CompleteEvent, id) || Happens(s, step, FailEvent, id) || Happens(s, step, CrashEvent, id) then -1
    else 0
  }

  /** The busy workers after a step. */
  lemma HoldsAfter(workers: set<WorkerId>, s: State, step: Step)
    requires Enabled(workers, s, step)
    ensures var t := Apply(workers, s, step);
      if step.ClaimStep? then
        step.worker !in s.holds && exists copy :: t.holds == s.holds[step.worker := Hold(step.id, copy, s.now)]
      else if step.CompleteStep? || step.FailStep? || step.CrashStep? then
        step.worker in s.holds && t.holds == s.holds - {step.worker}
      else t.holds == s.holds
  {
  }

  lemma HoldersAfter(workers: set<WorkerId>, s: State, t: State, step: Step, id: Id)
    requires Enabled(workers, s, step) && t == Apply(workers, s, step)
    ensures |Holders(t.holds, id)| == |Holders(s.holds, id)| + HoldersChange(s, step, id)
  {
    HoldsAfter(workers, s, step);
    if step.ClaimStep? {
      HoldersAfterClaim(s.holds, t.holds, step.worker, id);
    } else if step.CompleteStep? || step.FailStep? || step.CrashStep? {
      HoldersAfterRelease(s.holds, t.holds, step.worker, id);
    }
  }

  lemma HoldersAfterClaim(before: map<WorkerId, Hold>, after: map<WorkerId, Hold>, w: WorkerId, id: Id)
    requires w !in before && w in after && after == before[w := after[w]]
    ensures |Holders(after, id)| == |Holders(before, id)| + if after[w].id == id then 1 else 0
  {
    assert Holders(after, id) == if after[w].id == id then Holders(before, id) + {w} else Holders(before, id);
  }

  lemma HoldersAfterRelease(before: map<WorkerId, Hold>, after: map<WorkerId, Hold>, w: WorkerId, id: Id)
    requires w in before && after == before - {w}
    ensures |Holders(after, id)| == |Holders(before, id)| - if before[w].id == id then 1 else 0
  {
    assert Holders(after, id) == Holders(before, id) - {w};
  }

  /** Every claim of a job ended in a completion, a failure or a crash, or is still in some worker's hands. */
  lemma {:induction false} EveryClaimIsAccountedFor(workers: set<WorkerId>, run: seq<State>, steps: seq<Step>, id: Id, n: nat)
    requires IsRun(workers, run, steps) && n <= |steps|
    ensures Count(run, steps, ClaimEvent, id, n) ==
            Count(run, steps, CompleteEvent, id, n) + Count(run, steps, FailEvent, id, n)
            + Count(run, steps, CrashEvent, id, n) + |Holders(run[n].holds, id)|
  {
    if n > 0 {
      EveryClaimIsAccountedFor(workers, run, steps, id, n - 1);
      StepAt(workers, run, steps, n - 1);
      HoldersAfter(workers, run[n - 1], run[n], steps[n - 1], id);
    }
  }

  lemma UnbornStep(workers: set<WorkerId>, s: State, step: Step, event: Event, id: Id)
    requires BirthInv(s) && Enabled(workers, s, step) && id !in Apply(workers, s, step).born
    ensures id !in s.born && !Happens(s, step, event, id)
  {
  }

  lemma {:induction false} UnbornIsUntouched(workers: set<WorkerId>, run: seq<State>, steps: seq<Step>, event: Event, id: Id, n: nat)
    requires IsRun(workers, run, steps) && n <= |steps| && id !in run[n].born
    ensures Count(run, steps, event, id, n) == 0
  {
    if n > 0 {
      BirthInvAlong(workers, run, steps, n - 1);
      StepAt(workers, run, steps, n - 1);
      UnbornStep(workers, run[n - 1], steps[n - 1], event, id);
      UnbornIsUntouched(workers, run, steps, event, id, n - 1);
    }
  }

  /** What the row says agrees with what happened: attempts counts the failures, completed means completed once. */
  lemma {:induction false} RowTellsHistory(workers: set<WorkerId>, run: seq<State>, steps: seq<Step>, id: Id, n: nat)
    requires IsRun(workers, run, steps) && SafeRequeues(run, steps) && n <= |steps| && id in run[n].jobs
    ensures run[n].jobs[id].attempts == Count(run, steps, FailEvent, id, n)
    ensures Count(run, steps, CompleteEvent, id, n) == if run[n].jobs[id].status.Completed? then 1 else 0
  {
    if n > 0 {
      var s, step := run[n - 1], steps[n - 1];
      LockInvAlong(workers, run, steps, n - 1);
      StepAt(workers, run, steps, n - 1);
      if id in s.jobs {
        RowTellsHistory(workers, run, steps, id, n - 1);
        HistoryStep(workers, s, step, id);
      } else {
        assert id !in s.born by {
          if id in s.born {
            DeletedStaysDeleted(workers, run, steps, n - 1, n, id);
          }
        }
        UnbornIsUntouched(workers, run, steps, FailEvent, id, n - 1);
        UnbornIsUntouched(workers, run, steps, CompleteEvent, id, n - 1);
        InsertedIsFresh(workers, s, step, id);
      }
    }
  }

  lemma HistoryStep(workers: set<WorkerId>, s: State, step: Step, id: Id)
    requires LockInv(workers, s) && Enabled(workers, s, step) && id in s.jobs
    ensures var t := Apply(workers, s, step);
      id in t.jobs ==>
        && t.jobs[id].attempts == s.jobs[id].attempts + (if Happens(s, step, FailEvent, id) then 1 else 0)
        && (t.jobs[id].status.Completed? <==> s.jobs[id].status.Completed? || Happens(s, step, CompleteEvent, id))
        && (Happens(s, step, CompleteEvent, id) ==> !s.jobs[id].status.Completed?)
  {
    match step {
      case CompleteStep(w) => assert HoldOk(s, s.holds[w]);
      case FailStep(w, _) => assert HoldOk(s, s.holds[w]);
      case _ =>
    }
  }

  lemma InsertedIsFresh(workers: set<WorkerId>, s: State, step: Step, id: Id)
    requires LockInv(workers, s) && Enabled(workers, s, step) && id !in s.born
    requires id in Apply(workers, s, step).jobs
    ensures Apply(workers, s, step).jobs[id].attempts == 0 && Apply(workers, s, step).jobs[id].status.Pending?
    ensures !Happens(s, step, FailEvent, id) && !Happens(s, step, CompleteEvent, id)
  {
  }

  /**
   A job that ended failed was claimed exactly maxAttempts times, plus once for every crash; a completed
   one was claimed once more than it failed and crashed.
   */
  lemma FinishedJobClaims(workers: set<WorkerId>, run: seq<State>, steps: seq<Step>, id: Id, n: nat)
    requires IsRun(workers, run, steps) && SafeRequeues(run, steps) && n <= |steps| && id in run[n].jobs
    ensures run[n].jobs[id].status.Failed? ==>
      Count(run, steps, ClaimEvent, id, n) == run[n].jobs[id].maxAttempts + Count(run, steps, CrashEvent, id, n)
    ensures run[n].jobs[id].status.Completed? ==>
      Count(run, steps, ClaimEvent, id, n) == run[n].jobs[id].attempts + 1 + Count(run, steps, CrashEvent, id, n)
  {
    LockInvAlong(workers, run, steps, n);
    RowTellsHistory(workers, run, steps, id, n);
    EveryClaimIsAccountedFor(workers, run, steps, id, n);
    if Holders(run[n].holds, id) != {} {
      HeldIsProcessing(workers, run[n], id);
    }
  }

  lemma HeldIsProcessing(workers: set<WorkerId>, s: State, id: Id)
    requires LockInv(workers, s) && id in s.jobs && Holders(s.holds, id) != {}
    ensures s.jobs[id].status.Processing?
  {
  }
}
