/** The load the scheduler accounts for on each worker: exact, within capacity, never clipped. */
module SchedulerLoad {
  import opened Sequences
  import opened TaskQueues
  import opened SchedulerState
  import opened SchedulerRuns

  function Requirements(tasks: map<Id, Task>, id: Id): Resources {
    if id in tasks then tasks[id].requirements else NO_RESOURCES
  }

  function Total(tasks: map<Id, Task>, ids: seq<Id>): Resources {
    if ids == [] then NO_RESOURCES else Requirements(tasks, ids[0]).Plus(Total(tasks, ids[1..]))
  }

  lemma {:induction false} TotalSnoc(tasks: map<Id, Task>, ids: seq<Id>, id: Id)
    ensures Total(tasks, ids + [id]) == Total(tasks, ids).Plus(Requirements(tasks, id))
  {
    if ids != [] {
      assert (ids + [id])[1..] == ids[1..] + [id];
      TotalSnoc(tasks, ids[1..], id);
    }
  }

  lemma {:induction false} TotalWithout(tasks: map<Id, Task>, ids: seq<Id>, id: Id)
    requires Distinct(ids) && id in ids
    ensures Total(tasks, ids) == Total(tasks, Without(ids, id)).Plus(Requirements(tasks, id))
  {
    if ids[0] == id {
      assert id !in ids[1..];
    } else {
      TotalWithout(tasks, ids[1..], id);
      assert Without(ids, id) == [ids[0]] + Without(ids[1..], id);
    }
  }

  lemma {:induction false} TotalFrame(tasks: map<Id, Task>, other: map<Id, Task>, ids: seq<Id>)
    requires forall id :: id in ids ==> Requirements(tasks, id) == Requirements(other, id)
    ensures Total(tasks, ids) == Total(other, ids)
  {
    if ids != [] {
      TotalFrame(tasks, other, ids[1..]);
    }
  }

  ghost predicate WorkerLoadExact(s: State, base: map<Id, Resources>, w: Id)
    requires w in s.workers
  {
    w in base && s.workers[w].load == base[w].Plus(Total(s.tasks, s.workers[w].runningTasks))
  }

  /** Each worker's load is the one it registered with plus what its running tasks require. */
  ghost predicate LoadExact(s: State, base: map<Id, Resources>) {
    forall w :: w in s.workers ==> WorkerLoadExact(s, base, w)
  }

  ghost predicate WithinCapacity(s: State) {
    forall w :: w in s.workers ==> s.workers[w].load.AtMost(s.workers[w].capacity)
  }

  /** The registered loads, kept along a run. */
  function BaseAfter(base: map<Id, Resources>, step: Step): map<Id, Resources> {
    if step.RegisterWorker? then base[step.worker := step.load] else base
  }

  function RunBase(base: map<Id, Resources>, steps: seq<Step>): map<Id, Resources>
    decreases |steps|
  {
    if steps == [] then base else RunBase(BaseAfter(base, steps[0]), steps[1..])
  }

  /** Heartbeats report the load the scheduler already has, and no worker registers overloaded. */
  predicate ReportsFaithfully(s: State, step: Step) {
    && (step.WorkerHeartbeat? && step.worker in s.workers ==> step.load == s.workers[step.worker].load)
    && (step.RegisterWorker? ==> step.load.AtMost(step.capacity))
  }

  predicate FaithfulRun(s: State, steps: seq<Step>)
    decreases |steps|
  {
    steps == [] || (ReportsFaithfully(s, steps[0]) && FaithfulRun(Apply(s, steps[0]), steps[1..]))
  }

  /** Giving back the requirements of a task in flight never meets the zero bound. */
  lemma ReleaseNeverClips(s: State, base: map<Id, Resources>, id: Id)
    requires Places(s) && LoadExact(s, base) && id in s.tasks && s.tasks[id].InFlight()
    ensures s.tasks[id].workerId.Some? && s.tasks[id].workerId.value in s.workers
    ensures s.tasks[id].requirements.AtMost(s.workers[s.tasks[id].workerId.value].load)
  {
    TaskInOnePlace(s, id);
    var w := s.tasks[id].workerId.value;
    assert WorkerHolds(s, w) && WorkerLoadExact(s, base, w);
    TotalWithout(s.tasks, s.workers[w].runningTasks, id);
  }

  /** A state whose tasks require what they did keeps the loads of the workers it did not touch. */
  lemma LoadKept(s: State, t: State, base: map<Id, Resources>, w: Id)
    requires Places(s) && w in s.workers && WorkerLoadExact(s, base, w)
    requires forall id :: id in s.tasks ==> id in t.tasks && t.tasks[id].requirements == s.tasks[id].requirements
    requires w in t.workers && t.workers[w].load == s.workers[w].load
    requires t.workers[w].runningTasks == s.workers[w].runningTasks
    ensures WorkerLoadExact(t, base, w)
  {
    assert WorkerHolds(s, w);
    TotalFrame(s.tasks, t.tasks, s.workers[w].runningTasks);
  }

  lemma DetachKeepsLoad(s: State, t: State, base: map<Id, Resources>, id: Id, completed: nat, failed: nat)
    requires Places(s) && LoadExact(s, base) && id in s.tasks
    requires s.tasks[id].Live()
    requires t.workers == Detach(s, id, completed, failed).workers
    requires forall x :: x in s.tasks ==> x in t.tasks && t.tasks[x].requirements == s.tasks[x].requirements
    ensures LoadExact(t, base)
    ensures WithinCapacity(s) ==> WithinCapacity(t)
  {
    forall w | w in t.workers
      ensures WorkerLoadExact(t, base, w)
      ensures t.workers[w].load.AtMost(s.workers[w].load) && t.workers[w].capacity == s.workers[w].capacity
    {
      DetachKeepsWorkerLoad(s, t, base, id, completed, failed, w);
    }
  }

  lemma DetachKeepsWorkerLoad(s: State, t: State, base: map<Id, Resources>, id: Id, completed: nat, failed: nat, w: Id)
    requires Places(s) && LoadExact(s, base) && id in s.tasks && s.tasks[id].Live() && w in s.workers
    requires t.workers == Detach(s, id, completed, failed).workers
    requires forall x :: x in s.tasks ==> x in t.tasks && t.tasks[x].requirements == s.tasks[x].requirements
    ensures WorkerLoadExact(t, base, w)
    ensures t.workers[w].load.AtMost(s.workers[w].load) && t.workers[w].capacity == s.workers[w].capacity
  {
    hide Total;
    assert WorkerKnown(s, id) && WorkerLoadExact(s, base, w) && WorkerHolds(s, w);
    if s.tasks[id].workerId == Some(w) {
      var ids := s.workers[w].runningTasks;
      TotalWithout(s.tasks, ids, id);
      TotalFrame(s.tasks, t.tasks, Without(ids, id));
      assert t.workers[w].load == s.workers[w].load.Minus(s.tasks[id].requirements);
    } else {
      LoadKept(s, t, base, w);
    }
  }

  lemma AssignKeepsLoad(s: State, base: map<Id, Resources>, id: Id, w: Id)
    requires Places(s) && LoadExact(s, base) && Suitable(s, id, w)
    ensures LoadExact(Assign(s, id, w), base)
    ensures WithinCapacity(s) ==> WithinCapacity(Assign(s, id, w))
  {
    var t := Assign(s, id, w);
    forall v | v in t.workers ensures WorkerLoadExact(t, base, v) {
      assert WorkerLoadExact(s, base, v) && WorkerHolds(s, v);
      if v == w {
        var ids := s.workers[w].runningTasks;
        TotalFrame(s.tasks, t.tasks, ids);
        TotalSnoc(t.tasks, ids, id);
      } else {
        LoadKept(s, t, base, v);
      }
    }
  }

  lemma OtherStepsKeepLoad(s: State, t: State, base: map<Id, Resources>)
    requires Places(s) && LoadExact(s, base)
    requires forall x :: x in s.tasks ==> x in t.tasks && t.tasks[x].requirements == s.tasks[x].requirements
    requires forall w :: w in t.workers ==>
               && w in s.workers && t.workers[w].load == s.workers[w].load
               && t.workers[w].capacity == s.workers[w].capacity
               && t.workers[w].runningTasks == s.workers[w].runningTasks
    ensures LoadExact(t, base)
    ensures WithinCapacity(s) ==> WithinCapacity(t)
  {
    forall w | w in t.workers ensures WorkerLoadExact(t, base, w) {
      assert WorkerLoadExact(s, base, w);
      LoadKept(s, t, base, w);
    }
  }

  lemma RegisterKeepsLoad(s: State, base: map<Id, Resources>, w: Id, capacity: Resources, load: Resources, now: int)
    requires Places(s) && LoadExact(s, base) && w !in s.workers
    ensures LoadExact(Register(s, w, capacity, load, now), base[w := load])
  {
    var t := Register(s, w, capacity, load, now);
    forall v | v in t.workers ensures WorkerLoadExact(t, base[w := load], v) {
      if v != w {
        assert WorkerLoadExact(s, base, v);
        LoadKept(s, t, base, v);
      }
    }
  }

  lemma UnregisterKeepsLoad(s: State, base: map<Id, Resources>, w: Id)
    requires Places(s) && LoadExact(s, base) && w in s.workers
    ensures LoadExact(Unregister(s, w), base)
    ensures WithinCapacity(s) ==> WithinCapacity(Unregister(s, w))
  {
    assert WorkerHolds(s, w);
    RequeueMoves(s, s.workers[w].runningTasks);
    OtherStepsKeepLoad(s, Unregister(s, w), base);
  }

  lemma StepKeepsLoad(s: State, base: map<Id, Resources>, step: Step)
    requires Places(s) && LoadExact(s, base) && WithinCapacity(s)
    requires Enabled(s, step) && ReportsFaithfully(s, step)
    ensures LoadExact(Apply(s, step), BaseAfter(base, step))
    ensures WithinCapacity(Apply(s, step))
  {
    hide Places, LoadExact;
    var t := Apply(s, step);
    match step
    case SubmitTask(_, _, _, _, _, _) => OtherStepsKeepLoad(s, t, base);
    case RegisterWorker(w, capacity, load, now) => RegisterKeepsLoad(s, base, w, capacity, load, now);
    case UnregisterWorker(w) =>
      if w in s.workers {
        UnregisterKeepsLoad(s, base, w);
      }
    case WorkerHeartbeat(_, _, _) => OtherStepsKeepLoad(s, t, base);
    case WorkerOffline(_) => OtherStepsKeepLoad(s, t, base);
    case AssignTask(id, w) => AssignKeepsLoad(s, base, id, w);
    case StartTask(_) => OtherStepsKeepLoad(s, t, base);
    case TaskCompleted(_) => ReportKeepsLoad(s, base, step);
    case TaskFailed(_) => ReportKeepsLoad(s, base, step);
    case CancelTask(_) => ReportKeepsLoad(s, base, step);
  }

  lemma ReportKeepsLoad(s: State, base: map<Id, Resources>, step: Step)
    requires Places(s) && LoadExact(s, base) && WithinCapacity(s) && Enabled(s, step)
    requires step.TaskCompleted? || step.TaskFailed? || step.CancelTask?
    ensures LoadExact(Apply(s, step), base) && WithinCapacity(Apply(s, step))
  {
    hide Places, LoadExact, WithinCapacity, Detach;
    DetachKeepsLoad(s, Apply(s, step), base, step.id,
                    if step.TaskCompleted? then 1 else 0, if step.TaskFailed? then 1 else 0);
  }

  /** Over every run, each load is exact and within the capacity of its worker. */
  lemma {:induction false} RunKeepsLoad(s: State, base: map<Id, Resources>, steps: seq<Step>)
    requires Places(s) && LoadExact(s, base) && WithinCapacity(s)
    requires EnabledRun(s, steps) && FaithfulRun(s, steps)
    ensures LoadExact(Run(s, steps), RunBase(base, steps)) && WithinCapacity(Run(s, steps))
    decreases |steps|
  {
    if steps != [] {
      StepKeepsPlaces(s, steps[0]);
      StepKeepsLoad(s, base, steps[0]);
      RunKeepsLoad(Apply(s, steps[0]), BaseAfter(base, steps[0]), steps[1..]);
    }
  }

  /** A heartbeat keeps the account exact if and only if it reports the load the scheduler has. */
  lemma HeartbeatKeepsLoadIff(s: State, base: map<Id, Resources>, w: Id, load: Resources, now: int)
    requires Places(s) && LoadExact(s, base) && w in s.workers
    ensures LoadExact(Heartbeat(s, w, load, now), base) <==> load == s.workers[w].load
  {
    var t := Heartbeat(s, w, load, now);
    if load == s.workers[w].load {
      OtherStepsKeepLoad(s, t, base);
    } else {
      assert WorkerLoadExact(s, base, w);
      assert !WorkerLoadExact(t, base, w);
    }
  }

  /** Whatever has happened, as long as heartbeats report the current load, the loads are exact and fit. */
  lemma ReachableKeepsLoad(steps: seq<Step>)
    requires EnabledRun(EMPTY, steps) && FaithfulRun(EMPTY, steps)
    ensures LoadExact(Run(EMPTY, steps), RunBase(map[], steps)) && WithinCapacity(Run(EMPTY, steps))
    ensures forall w :: w in Run(EMPTY, steps).workers ==>
              var worker := Run(EMPTY, steps).workers[w];
              && worker.load.cpu <= worker.capacity.cpu
              && worker.load.memory <= worker.capacity.memory
              && worker.load.disk <= worker.capacity.disk
  {
    RunKeepsLoad(EMPTY, map[], steps);
  }

  /** A heartbeat that reports another load, concretely. */
  lemma HeartbeatOverwritesLoad(s: State, capacity: Resources)
    requires s == Register(EMPTY, "w", capacity, NO_RESOURCES, 0)
    ensures LoadExact(s, map["w" := NO_RESOURCES])
    ensures !LoadExact(Heartbeat(s, "w", Resources(1, 0, 0), 1), map["w" := NO_RESOURCES])
  {
    RegisterKeepsPlaces(EMPTY, "w", capacity, NO_RESOURCES, 0);
    RegisterKeepsLoad(EMPTY, map[], "w", capacity, NO_RESOURCES, 0);
    assert map[]["w" := NO_RESOURCES] == map["w" := NO_RESOURCES];
    HeartbeatKeepsLoadIff(s, map["w" := NO_RESOURCES], "w", Resources(1, 0, 0), 1);
  }

  // ----- reports on a task that has ended -----

  /** Taking the task's requirements off the worker it still names changes no load. */
  predicate NothingToRelease(s: State, id: Id)
    requires id in s.tasks
  {
    var task := s.tasks[id];
    task.workerId.Some? && task.workerId.value in s.workers ==>
      var load := s.workers[task.workerId.value].load;
      && (task.requirements.cpu == 0 || load.cpu == 0)
      && (task.requirements.memory == 0 || load.memory == 0)
      && (task.requirements.disk == 0 || load.disk == 0)
  }

  lemma LateReleaseKeepsLoadIff(s: State, t: State, base: map<Id, Resources>, id: Id, completed: nat, failed: nat)
    requires Places(s) && LoadExact(s, base) && id in s.tasks && !s.tasks[id].Live()
    requires t.workers == Detach(s, id, completed, failed).workers
    requires forall x :: x in s.tasks ==> x in t.tasks && t.tasks[x].requirements == s.tasks[x].requirements
    ensures LoadExact(t, base) <==> NothingToRelease(s, id)
  {
    hide Total;
    TaskInOnePlace(s, id);
    forall w | w in s.workers
      ensures WorkerLoadExact(t, base, w) <==> t.workers[w].load == s.workers[w].load
    {
      assert WorkerHolds(s, w) && WorkerLoadExact(s, base, w);
      TotalFrame(s.tasks, t.tasks, s.workers[w].runningTasks);
      assert t.workers[w].runningTasks == s.workers[w].runningTasks;
    }
  }

  /**
   * A second report on a task that has ended takes its requirements off the worker again: the account
   * stays exact if and only if there is nothing to take.
   */
  lemma LateReportKeepsLoadIff(s: State, base: map<Id, Resources>, id: Id)
    requires Places(s) && LoadExact(s, base) && id in s.tasks && !s.tasks[id].Live()
    ensures LoadExact(Complete(s, id), base) <==> NothingToRelease(s, id)
    ensures LoadExact(Fail(s, id), base) <==> NothingToRelease(s, id)
    ensures LoadExact(Cancel(s, id), base) <==> NothingToRelease(s, id)
  {
    hide Places, LoadExact, Detach, NothingToRelease;
    LateReleaseKeepsLoadIff(s, Complete(s, id), base, id, 1, 0);
    LateReleaseKeepsLoadIff(s, Fail(s, id), base, id, 0, 1);
    LateReleaseKeepsLoadIff(s, Cancel(s, id), base, id, 0, 0);
  }

  /** A second completion report, concretely: the worker seems to carry nothing of what it registered with. */
  lemma SecondReportReleasesAgain(s: State, task: Task, worker: Worker, base: map<Id, Resources>)
    requires task.status.Completed? && task.workerId == Some("w") && task.requirements == Resources(1, 0, 0)
    requires worker.load == Resources(1, 0, 0) && worker.runningTasks == []
    requires s == State(map["t" := task], map["w" := worker], ["w"], []) && base == map["w" := Resources(1, 0, 0)]
    ensures Places(s) && LoadExact(s, base)
    ensures !LoadExact(Complete(s, "t"), base)
  {
    assert Elements(s.workerOrder) == {"w"};
    LateReportKeepsLoadIff(s, base, "t");
  }
}
