/** What a state of the scheduler tells about the run that led to it, by counting its steps. */
module SchedulerHistory {
  import opened Sequences
  import opened TaskQueues
  import opened SchedulerState
  import opened SchedulerRuns
  import opened SchedulerProgress

  /** How often the task has been reported as failed. */
  function TimesFailed(steps: seq<Step>, id: Id): nat {
    if steps == [] then 0
    else (if steps[0] == TaskFailed(id) then 1 else 0) + TimesFailed(steps[1..], id)
  }

  predicate NoneUnregistered(steps: seq<Step>) {
    forall k :: 0 <= k < |steps| ==> !steps[k].UnregisterWorker?
  }

  /** Everything a task was submitted with. */
  predicate SameOrder(t: Task, u: Task) {
    && t.sliceId == u.sliceId && t.priority == u.priority && t.requirements == u.requirements
    && t.maxRetries == u.maxRetries && t.createdAt == u.createdAt
  }

  /** How often a task that was not cancelled must have been assigned. */
  function Begun(t: Task): nat {
    if t.InFlight() || t.status.Completed? then t.retryCount + 1 else t.retryCount
  }

  /** A task that is given up was tried as often as it may be, and once in any case. */
  ghost predicate GivenUpInTime(t: Task) {
    t.status.Failed? ==> t.retryCount == if t.maxRetries < 1 then 1 else t.maxRetries
  }

  lemma UnregisterCounts(s: State, w: Id, id: Id)
    requires Places(s) && id in s.tasks && w in s.workers
    ensures id in Unregister(s, w).tasks
    ensures
      var t, u := s.tasks[id], Unregister(s, w).tasks[id];
      SameOrder(t, u) && (u == t || u.status.Pending?) && u.retryCount == t.retryCount && (t.status.Cancelled? ==> u == t)
  {
    hide Requeue, Without;
    assert WorkerHolds(s, w);
    RequeueMoves(s, s.workers[w].runningTasks);
  }

  lemma ReportCounts(s: State, step: Step, id: Id)
    requires AttemptsLeft(s) && Enabled(s, step) && id in s.tasks && GivenUpInTime(s.tasks[id])
    requires step.TaskCompleted? || step.TaskFailed? || step.CancelTask?
    ensures id in Apply(s, step).tasks
    ensures
      var t, u := s.tasks[id], Apply(s, step).tasks[id];
      && SameOrder(t, u) && GivenUpInTime(u)
      && u.retryCount == t.retryCount + (if step == TaskFailed(id) then 1 else 0)
      && (t.status.Cancelled? ==> u.status.Cancelled?)
      && (!u.status.Cancelled? ==> Begun(u) == Begun(t))
  {
    hide Detach, SortQueue, Without;
  }

  lemma StepCounts(s: State, step: Step, id: Id)
    requires Places(s) && AttemptsLeft(s) && Enabled(s, step) && id in s.tasks && GivenUpInTime(s.tasks[id])
    ensures id in Apply(s, step).tasks
    ensures
      var t, u := s.tasks[id], Apply(s, step).tasks[id];
      && SameOrder(t, u) && GivenUpInTime(u)
      && u.retryCount == t.retryCount + (if step == TaskFailed(id) then 1 else 0)
      && (t.status.Cancelled? ==> u.status.Cancelled?)
      && (!step.UnregisterWorker? && !u.status.Cancelled? ==>
            Begun(u) == Begun(t) + if step.AssignTask? && step.id == id then 1 else 0)
  {
    hide Detach, SortQueue, Requeue, Unregister, Complete, Fail, Cancel, AttemptsLeft;
    if step.TaskCompleted? || step.TaskFailed? || step.CancelTask? {
      ReportCounts(s, step, id);
    } else if step.UnregisterWorker? {
      if step.worker in s.workers {
        UnregisterCounts(s, step.worker, id);
      } else {
        UnknownWorker(s, step.worker);
      }
    }
  }

  lemma UnknownWorker(s: State, w: Id)
    requires w !in s.workers
    ensures Unregister(s, w) == s
  {
  }

  lemma {:induction false} RunCounts(s: State, steps: seq<Step>, id: Id)
    requires Places(s) && AttemptsLeft(s) && EnabledRun(s, steps) && id in s.tasks && GivenUpInTime(s.tasks[id])
    ensures id in Run(s, steps).tasks
    ensures
      var t, u := s.tasks[id], Run(s, steps).tasks[id];
      && SameOrder(t, u) && GivenUpInTime(u)
      && u.retryCount == t.retryCount + TimesFailed(steps, id)
      && (t.status.Cancelled? ==> u.status.Cancelled?)
      && (NoneUnregistered(steps) && !u.status.Cancelled? ==> Begun(u) == Begun(t) + TimesAssigned(steps, id))
    decreases |steps|
  {
    hide Places, AttemptsLeft, Apply, Enabled, GivenUpInTime, Begun;
    if steps != [] {
      StepKeepsPlaces(s, steps[0]);
      StepKeepsAttempts(s, steps[0]);
      StepCounts(s, steps[0], id);
      RunCounts(Apply(s, steps[0]), steps[1..], id);
      assert NoneUnregistered(steps) ==> !steps[0].UnregisterWorker? && NoneUnregistered(steps[1..]);
    }
  }

  /** The task is what the submission asked for. */
  predicate OrderedBy(t: Task, step: Step, id: Id) {
    && step.SubmitTask? && step.id == id
    && t.sliceId == step.sliceId && t.priority == step.priority && t.requirements == step.requirements
    && t.maxRetries == step.maxRetries && t.createdAt == step.now
  }

  /** Before it is submitted a task is named by no step but its submission. */
  lemma UnknownStep(s: State, step: Step, id: Id)
    requires Places(s) && Enabled(s, step) && id !in s.tasks
    ensures step != TaskFailed(id) && !(step.AssignTask? && step.id == id)
    ensures
      if step.SubmitTask? && step.id == id then
        && id in Apply(s, step).tasks && OrderedBy(Apply(s, step).tasks[id], step, id)
        && Apply(s, step).tasks[id].status.Pending? && Apply(s, step).tasks[id].retryCount == 0
      else id !in Apply(s, step).tasks
  {
    if step.UnregisterWorker? && step.worker in s.workers {
      assert WorkerHolds(s, step.worker);
      RequeueMoves(s, s.workers[step.worker].runningTasks);
    }
  }

  /** What is known of a task at the end of a run in which it was submitted. */
  ghost predicate Recounted(t: Task, steps: seq<Step>, id: Id) {
    && (exists k :: 0 <= k < |steps| && OrderedBy(t, steps[k], id))
    && GivenUpInTime(t) && t.retryCount == TimesFailed(steps, id)
    && (NoneUnregistered(steps) && !t.status.Cancelled? ==> Begun(t) == TimesAssigned(steps, id))
  }

  lemma {:induction false} RunRecounts(s: State, steps: seq<Step>, id: Id)
    requires Places(s) && AttemptsLeft(s) && EnabledRun(s, steps) && id !in s.tasks
    ensures id in Run(s, steps).tasks ==> Recounted(Run(s, steps).tasks[id], steps, id)
    decreases |steps|
  {
    hide Places, AttemptsLeft, Apply, Enabled;
    if steps != [] {
      var t, rest := Apply(s, steps[0]), steps[1..];
      StepKeepsPlaces(s, steps[0]);
      StepKeepsAttempts(s, steps[0]);
      UnknownStep(s, steps[0], id);
      assert NoneUnregistered(steps) ==> NoneUnregistered(rest);
      if steps[0].SubmitTask? && steps[0].id == id {
        RunCounts(t, rest, id);
        assert OrderedBy(Run(s, steps).tasks[id], steps[0], id);
      } else {
        RunRecounts(t, rest, id);
        if id in Run(s, steps).tasks {
          var k :| 0 <= k < |rest| && OrderedBy(Run(s, steps).tasks[id], rest[k], id);
          assert steps[k + 1] == rest[k];
        }
      }
    }
  }

  /**
   * Retries are used up, neither more nor fewer. In every run from an empty scheduler a task keeps what
   * it was submitted with. A live task has been reported as failed as often as its retry count says, and
   * less often than it may be tried; one that has been given up exactly as often. Unless workers are
   * unregistered it has been assigned as often, and once more when it is on a worker or completed.
   */
  lemma RetriesAreUsedUp(steps: seq<Step>, id: Id)
    requires EnabledRun(EMPTY, steps) && id in Run(EMPTY, steps).tasks
    ensures
      var t := Run(EMPTY, steps).tasks[id];
      var attempts := if t.maxRetries < 1 then 1 else t.maxRetries;
      var failed, given := TimesFailed(steps, id), TimesAssigned(steps, id);
      && (exists k :: 0 <= k < |steps| && OrderedBy(t, steps[k], id))
      && failed == t.retryCount
      && (t.Live() ==> failed < attempts)
      && (t.status.Failed? ==> failed == attempts)
      && (NoneUnregistered(steps) ==>
            && (t.status.Failed? || t.status.Pending? ==> given == failed)
            && (t.InFlight() || t.status.Completed? ==> given == failed + 1))
  {
    RunRecounts(EMPTY, steps, id);
    RunKeepsAttempts(EMPTY, steps);
  }

  // ----- what is counted of a worker -----

  /** The completion or failure reports on tasks that were on worker `w`. */
  function ReportsOn(s: State, steps: seq<Step>, w: Id, success: bool): nat
    decreases |steps|
  {
    if steps == [] then 0
    else
      (if (if success then steps[0].TaskCompleted? else steps[0].TaskFailed?) && steps[0].id in s.tasks
          && s.tasks[steps[0].id].workerId == Some(w) then 1 else 0)
      + ReportsOn(Apply(s, steps[0]), steps[1..], w, success)
  }

  lemma OneReport(s: State, step: Step, w: Id, success: bool)
    ensures ReportsOn(s, [step], w, success) ==
            if (if success then step.TaskCompleted? else step.TaskFailed?) && step.id in s.tasks
               && s.tasks[step.id].workerId == Some(w) then 1 else 0
  {
    assert ReportsOn(Apply(s, step), [step][1..], w, success) == 0;
  }

  lemma StepCountsOnWorker(s: State, step: Step, w: Id)
    requires Places(s) && Enabled(s, step) && w in s.workers && step != UnregisterWorker(w)
    ensures w in Apply(s, step).workers && Apply(s, step).workers[w].capacity == s.workers[w].capacity
    ensures Apply(s, step).workers[w].totalCompleted == s.workers[w].totalCompleted + ReportsOn(s, [step], w, true)
    ensures Apply(s, step).workers[w].totalFailed == s.workers[w].totalFailed + ReportsOn(s, [step], w, false)
  {
    hide ReportsOn, SortQueue, Requeue, Without;
    OneReport(s, step, w, true);
    OneReport(s, step, w, false);
    if step.UnregisterWorker? && step.worker in s.workers {
      assert WorkerHolds(s, step.worker);
      RequeueMoves(s, s.workers[step.worker].runningTasks);
    }
  }

  lemma FirstReport(s: State, steps: seq<Step>, w: Id, success: bool)
    requires steps != []
    ensures ReportsOn(s, steps, w, success)
         == ReportsOn(s, [steps[0]], w, success) + ReportsOn(Apply(s, steps[0]), steps[1..], w, success)
  {
    assert [steps[0]][1..] == [];
    assert ReportsOn(Apply(s, steps[0]), [steps[0]][1..], w, success) == 0;
  }

  /** While it is registered a worker's counters count the reports on its tasks, and its capacity stays. */
  lemma {:induction false} RunCountsOnWorker(s: State, steps: seq<Step>, w: Id)
    requires Places(s) && EnabledRun(s, steps) && w in s.workers
    requires forall k :: 0 <= k < |steps| ==> steps[k] != UnregisterWorker(w)
    ensures w in Run(s, steps).workers && Run(s, steps).workers[w].capacity == s.workers[w].capacity
    ensures Run(s, steps).workers[w].totalCompleted == s.workers[w].totalCompleted + ReportsOn(s, steps, w, true)
    ensures Run(s, steps).workers[w].totalFailed == s.workers[w].totalFailed + ReportsOn(s, steps, w, false)
    decreases |steps|
  {
    hide Places, Apply, Enabled;
    if steps != [] {
      StepKeepsPlaces(s, steps[0]);
      StepCountsOnWorker(s, steps[0], w);
      FirstReport(s, steps, w, true);
      FirstReport(s, steps, w, false);
      RunCountsOnWorker(Apply(s, steps[0]), steps[1..], w);
    }
  }

  // ----- heartbeats -----

  /** A worker that reports times out exactly when more than 30 seconds pass without another report. */
  lemma ReportingWorkerTimesOutIff(s: State, w: Id, load: Resources, now: int, later: int)
    requires w in s.workers
    ensures TimedOut(Heartbeat(s, w, load, now), w, later) <==> later - now > 30000
  {
  }

  lemma RegisteredWorkerTimesOutIff(s: State, w: Id, capacity: Resources, load: Resources, now: int, later: int)
    ensures TimedOut(Register(s, w, capacity, load, now), w, later) <==> later - now > 30000
  {
  }
}
