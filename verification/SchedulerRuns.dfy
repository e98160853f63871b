/**
 * Runs of the distributed scheduler: where the tasks are, what the workers are charged, and how
 * long it can go on.
 */
module SchedulerRuns {
  import opened Sequences
  import opened TaskQueues
  import opened SchedulerState

  datatype Step =
    | SubmitTask(id: Id, sliceId: string, priority: Priority, requirements: Resources, maxRetries: int, now: int)
    | RegisterWorker(worker: Id, capacity: Resources, load: Resources, now: int)
    | UnregisterWorker(worker: Id)
    | WorkerHeartbeat(worker: Id, load: Resources, now: int)
    | WorkerOffline(worker: Id)
    | AssignTask(id: Id, worker: Id)
    | StartTask(id: Id)
    | TaskCompleted(id: Id)
    | TaskFailed(id: Id)
    | CancelTask(id: Id)

  function Apply(s: State, step: Step): State {
    match step
    case SubmitTask(id, sliceId, priority, requirements, maxRetries, now) => Submit(s, id, sliceId, priority, requirements, maxRetries, now)
    case RegisterWorker(w, capacity, load, now) => Register(s, w, capacity, load, now)
    case UnregisterWorker(w) => Unregister(s, w)
    case WorkerHeartbeat(w, load, now) => Heartbeat(s, w, load, now)
    case WorkerOffline(w) => MarkOffline(s, w)
    case AssignTask(id, w) => Assign(s, id, w)
    case StartTask(id) => Start(s, id)
    case TaskCompleted(id) => Complete(s, id)
    case TaskFailed(id) => Fail(s, id)
    case CancelTask(id) => Cancel(s, id)
  }

  /** Ids are fresh, reports name tasks that are on a worker, and a task is assigned where it fits. */
  predicate Enabled(s: State, step: Step) {
    match step
    case SubmitTask(id, _, _, _, _, _) => id !in s.tasks
    case RegisterWorker(w, _, _, _) => w !in s.workers
    case UnregisterWorker(_) => true
    case WorkerHeartbeat(_, _, _) => true
    case WorkerOffline(_) => true
    case AssignTask(id, w) => id in s.queue && Suitable(s, id, w)
    case StartTask(_) => true
    case TaskCompleted(id) => id in s.tasks && s.tasks[id].InFlight()
    case TaskFailed(id) => id in s.tasks && s.tasks[id].InFlight()
    case CancelTask(id) => id in s.tasks && s.tasks[id].Live()
  }

  function Run(s: State, steps: seq<Step>): State
    decreases |steps|
  {
    if steps == [] then s else Run(Apply(s, steps[0]), steps[1..])
  }

  predicate EnabledRun(s: State, steps: seq<Step>)
    decreases |steps|
  {
    steps == [] || (Enabled(s, steps[0]) && EnabledRun(Apply(s, steps[0]), steps[1..]))
  }

  const EMPTY := State(map[], map[], [], [])

  // ----- each task is in one place -----

  ghost predicate QueueHoldsPending(s: State) {
    && Distinct(s.queue)
    && forall id :: id in s.queue <==> id in s.tasks && s.tasks[id].status.Pending?
  }

  ghost predicate WorkerHolds(s: State, w: Id)
    requires w in s.workers
  {
    && Distinct(s.workers[w].runningTasks)
    && forall id :: id in s.workers[w].runningTasks <==>
         id in s.tasks && s.tasks[id].InFlight() && s.tasks[id].workerId == Some(w)
  }

  ghost predicate WorkerKnown(s: State, id: Id)
    requires id in s.tasks
  {
    && (s.tasks[id].InFlight() ==> s.tasks[id].workerId.Some? && s.tasks[id].workerId.value in s.workers)
    && (s.tasks[id].status.Pending? ==> s.tasks[id].workerId.None?)
  }

  /**
   * The queue holds exactly the pending tasks, and the list of a worker exactly the tasks in flight
   * that name it.
   */
  ghost predicate Places(s: State) {
    && QueueHoldsPending(s)
    && (forall w :: w in s.workers ==> WorkerHolds(s, w))
    && (forall id :: id in s.tasks ==> WorkerKnown(s, id))
    && Distinct(s.workerOrder) && Elements(s.workerOrder) == s.workers.Keys
  }

  /** How often `id` is in the queue and in the lists of the workers. */
  lemma TaskInOnePlace(s: State, id: Id)
    requires Places(s) && id in s.tasks
    ensures s.tasks[id].status.Pending? ==>
              && (exists k :: 0 <= k < |s.queue| && s.queue[k] == id && id !in s.queue[..k] && id !in s.queue[k + 1..])
              && forall w :: w in s.workers ==> id !in s.workers[w].runningTasks
    ensures s.tasks[id].InFlight() ==>
              && id !in s.queue
              && s.tasks[id].workerId.Some? && s.tasks[id].workerId.value in s.workers
              && forall w :: w in s.workers ==> (id in s.workers[w].runningTasks <==> s.tasks[id].workerId == Some(w))
    ensures !s.tasks[id].Live() ==>
              id !in s.queue && forall w :: w in s.workers ==> id !in s.workers[w].runningTasks
  {
    assert WorkerKnown(s, id);
    forall w | w in s.workers
      ensures id in s.workers[w].runningTasks <==> s.tasks[id].InFlight() && s.tasks[id].workerId == Some(w)
    {
      assert WorkerHolds(s, w);
    }
    if s.tasks[id].status.Pending? {
      var k :| 0 <= k < |s.queue| && s.queue[k] == id;
      assert id !in s.queue[..k] && id !in s.queue[k + 1..];
    }
  }

  /** A state that differs from one with every task in its place in one task and, perhaps, one worker. */
  lemma PlacesAfterMove(s: State, t: State, id: Id, w: Option<Id>)
    requires Places(s)
    requires t.tasks.Keys == s.tasks.Keys + {id}
    requires forall x :: x in s.tasks && x != id ==> t.tasks[x] == s.tasks[x]
    requires t.workers.Keys == s.workers.Keys && t.workerOrder == s.workerOrder
    requires forall v :: v in s.workers && w != Some(v) ==> t.workers[v].runningTasks == s.workers[v].runningTasks
    requires QueueHoldsPending(t) && WorkerKnown(t, id)
    requires w.Some? ==> w.value in t.workers && WorkerHolds(t, w.value)
    requires forall v :: v in s.workers && w != Some(v) ==>
               id !in s.workers[v].runningTasks && (t.tasks[id].InFlight() ==> t.tasks[id].workerId != Some(v))
    ensures Places(t)
  {
    forall v | v in t.workers ensures WorkerHolds(t, v) {
      if w != Some(v) {
        assert WorkerHolds(s, v);
      }
    }
    forall x | x in t.tasks ensures WorkerKnown(t, x) {
      if x != id {
        assert WorkerKnown(s, x);
      }
    }
  }

  lemma SubmitKeepsPlaces(s: State, id: Id, sliceId: string, priority: Priority, requirements: Resources, maxRetries: int, now: int)
    requires Places(s) && id !in s.tasks
    ensures Places(Submit(s, id, sliceId, priority, requirements, maxRetries, now))
  {
    var t := Submit(s, id, sliceId, priority, requirements, maxRetries, now);
    assert id !in s.queue;
    SortQueueSorts(Keys(t.tasks), s.queue + [id]);
    SortQueueDistinct(Keys(t.tasks), s.queue + [id]);
    forall v | v in s.workers ensures id !in s.workers[v].runningTasks {
      assert WorkerHolds(s, v);
    }
    PlacesAfterMove(s, t, id, None);
  }

  lemma AssignKeepsPlaces(s: State, id: Id, w: Id)
    requires Places(s) && id in s.queue && w in s.workers
    ensures Places(Assign(s, id, w))
  {
    var t := Assign(s, id, w);
    TaskInOnePlace(s, id);
    WithoutDistinct(s.queue, id);
    assert WorkerHolds(s, w);
    PlacesAfterMove(s, t, id, Some(w));
  }

  /** Taking a task off its worker, for a task that is not queued. */
  lemma DetachMoves(s: State, id: Id, completed: nat, failed: nat)
    requires Places(s) && id in s.tasks
    ensures
      var t := Detach(s, id, completed, failed);
      && t.tasks == s.tasks && t.queue == s.queue
      && t.workers.Keys == s.workers.Keys && t.workerOrder == s.workerOrder
      && (forall v :: v in s.workers ==>
            && Distinct(t.workers[v].runningTasks)
            && forall x :: x in t.workers[v].runningTasks <==> x in s.workers[v].runningTasks && x != id)
  {
    var t := Detach(s, id, completed, failed);
    TaskInOnePlace(s, id);
    forall v | v in s.workers
      ensures Distinct(t.workers[v].runningTasks)
      ensures forall x :: x in t.workers[v].runningTasks <==> x in s.workers[v].runningTasks && x != id
    {
      assert WorkerHolds(s, v);
      WithoutDistinct(s.workers[v].runningTasks, id);
    }
  }

  lemma PlacesAfterDetach(s: State, t: State, id: Id, completed: nat, failed: nat)
    requires Places(s) && id in s.tasks
    requires t.workers == Detach(s, id, completed, failed).workers && t.workerOrder == s.workerOrder
    requires t.tasks.Keys == s.tasks.Keys && forall x :: x in s.tasks && x != id ==> t.tasks[x] == s.tasks[x]
    requires QueueHoldsPending(t) && !t.tasks[id].InFlight()
    requires t.tasks[id].status.Pending? ==> t.tasks[id].workerId.None?
    ensures Places(t)
  {
    DetachMoves(s, id, completed, failed);
    forall v | v in t.workers ensures WorkerHolds(t, v) {
      assert WorkerHolds(s, v);
    }
    forall x | x in t.tasks ensures WorkerKnown(t, x) {
      assert WorkerKnown(s, x);
    }
  }

  /** A completion report keeps every task in its place if and only if the task is not queued. */
  lemma CompleteKeepsPlacesIff(s: State, id: Id)
    requires Places(s) && id in s.tasks
    ensures Places(Complete(s, id)) <==> !s.tasks[id].status.Pending?
  {
    if !s.tasks[id].status.Pending? {
      PlacesAfterDetach(s, Complete(s, id), id, 1, 0);
    } else {
      assert id in Complete(s, id).queue;
    }
  }

  /** So does a failure report. */
  lemma FailKeepsPlacesIff(s: State, id: Id)
    requires Places(s) && id in s.tasks
    ensures Places(Fail(s, id)) <==> !s.tasks[id].status.Pending?
  {
    var t := Fail(s, id);
    SortQueueSorts(Keys(t.tasks), s.queue + [id]);
    if !s.tasks[id].status.Pending? {
      SortQueueDistinct(Keys(t.tasks), s.queue + [id]);
      PlacesAfterDetach(s, t, id, 0, 1);
    } else if t.tasks[id].status.Pending? {
      assert Elements(t.queue) == Elements(s.queue);
      LongerRepeats(s.queue, t.queue);
    }
  }

  lemma CancelKeepsPlaces(s: State, id: Id)
    requires Places(s) && id in s.tasks
    ensures Places(Cancel(s, id))
  {
    WithoutDistinct(s.queue, id);
    PlacesAfterDetach(s, Cancel(s, id), id, 0, 0);
  }

  lemma StartKeepsPlaces(s: State, id: Id)
    requires Places(s)
    ensures Places(Start(s, id))
  {
    var t := Start(s, id);
    forall v | v in t.workers ensures WorkerHolds(t, v) {
      assert WorkerHolds(s, v);
    }
    forall x | x in t.tasks ensures WorkerKnown(t, x) {
      assert WorkerKnown(s, x);
    }
  }

  /** Re-queueing tasks in flight makes each of them pending and appends it. */
  lemma {:induction false} RequeueMoves(s: State, ids: seq<Id>)
    requires Distinct(ids) && forall id :: id in ids ==> id in s.tasks
    ensures
      var t := Requeue(s, ids);
      && t.queue == s.queue + ids && t.tasks.Keys == s.tasks.Keys
      && t.workers == s.workers && t.workerOrder == s.workerOrder
      && forall x :: x in s.tasks ==>
           t.tasks[x] == if x in ids then s.tasks[x].(status := Pending, workerId := None) else s.tasks[x]
  {
    if ids != [] {
      var front, last := ids[..|ids| - 1], ids[|ids| - 1];
      assert ids == front + [last];
      RequeueMoves(s, front);
    }
  }

  /** Every task of a worker that leaves is back in the queue. */
  lemma UnregisterKeepsPlaces(s: State, w: Id)
    requires Places(s) && w in s.workers
    ensures Places(Unregister(s, w))
    ensures forall id :: id in s.workers[w].runningTasks ==>
              id in Unregister(s, w).tasks && Unregister(s, w).tasks[id].status.Pending?
    ensures Unregister(s, w).queue == s.queue + s.workers[w].runningTasks
    ensures Unregister(s, w).workers == s.workers - {w}
  {
    hide Requeue, Without;
    var t := Unregister(s, w);
    var ids := s.workers[w].runningTasks;
    assert WorkerHolds(s, w);
    RequeueMoves(s, ids);
    WithoutDistinct(s.workerOrder, w);
    forall v | v in t.workers ensures WorkerHolds(t, v) {
      assert WorkerHolds(s, v);
    }
    forall x | x in t.tasks ensures WorkerKnown(t, x) {
      assert WorkerKnown(s, x);
    }
    QueueTakesBack(s, t, ids);
  }

  lemma QueueTakesBack(s: State, t: State, ids: seq<Id>)
    requires QueueHoldsPending(s) && Distinct(ids)
    requires forall id :: id in ids ==> id in s.tasks && s.tasks[id].InFlight()
    requires t.queue == s.queue + ids && t.tasks.Keys == s.tasks.Keys
    requires forall x :: x in s.tasks ==>
               t.tasks[x] == if x in ids then s.tasks[x].(status := Pending, workerId := None) else s.tasks[x]
    ensures QueueHoldsPending(t)
  {
    assert forall id :: id in ids ==> id !in s.queue;
    DistinctConcat(s.queue, ids);
  }

  lemma RegisterKeepsPlaces(s: State, w: Id, capacity: Resources, load: Resources, now: int)
    requires Places(s) && w !in s.workers
    ensures Places(Register(s, w, capacity, load, now))
  {
    var t := Register(s, w, capacity, load, now);
    assert w !in Elements(s.workerOrder);
    forall v | v in t.workers ensures WorkerHolds(t, v) {
      if v != w {
        assert WorkerHolds(s, v);
      } else {
        forall id | id in s.tasks && s.tasks[id].InFlight() ensures s.tasks[id].workerId != Some(w) {
          assert WorkerKnown(s, id);
        }
      }
    }
    forall x | x in t.tasks ensures WorkerKnown(t, x) {
      assert WorkerKnown(s, x);
    }
  }

  lemma WorkerFieldsKeepPlaces(s: State, t: State)
    requires Places(s) && t.tasks == s.tasks && t.queue == s.queue && t.workerOrder == s.workerOrder
    requires t.workers.Keys == s.workers.Keys
    requires forall w :: w in s.workers ==> t.workers[w].runningTasks == s.workers[w].runningTasks
    ensures Places(t)
  {
    forall v | v in t.workers ensures WorkerHolds(t, v) {
      assert WorkerHolds(s, v);
    }
    forall x | x in t.tasks ensures WorkerKnown(t, x) {
      assert WorkerKnown(s, x);
    }
  }

  /** No step takes a task out of its place, loses it or duplicates it. */
  lemma StepKeepsPlaces(s: State, step: Step)
    requires Places(s) && Enabled(s, step)
    ensures Places(Apply(s, step))
    ensures s.tasks.Keys <= Apply(s, step).tasks.Keys
  {
    hide Places, Submit, Fail, Cancel, Complete, Requeue, Start, Assign;
    match step
    case SubmitTask(id, sliceId, priority, requirements, maxRetries, now) =>
      SubmitKeepsPlaces(s, id, sliceId, priority, requirements, maxRetries, now);
      KeepsTasks(s, step);
    case RegisterWorker(w, capacity, load, now) =>
      RegisterKeepsPlaces(s, w, capacity, load, now);
    case UnregisterWorker(w) =>
      if w in s.workers {
        UnregisterKeepsPlaces(s, w);
        KeepsTasks(s, step);
      }
    case WorkerHeartbeat(w, load, now) => WorkerFieldsKeepPlaces(s, Apply(s, step));
    case WorkerOffline(w) => WorkerFieldsKeepPlaces(s, Apply(s, step));
    case AssignTask(id, w) =>
      AssignKeepsPlaces(s, id, w);
      KeepsTasks(s, step);
    case StartTask(id) =>
      StartKeepsPlaces(s, id);
      KeepsTasks(s, step);
    case TaskCompleted(id) =>
      CompleteKeepsPlacesIff(s, id);
      KeepsTasks(s, step);
    case TaskFailed(id) =>
      FailKeepsPlacesIff(s, id);
      KeepsTasks(s, step);
    case CancelTask(id) =>
      CancelKeepsPlaces(s, id);
      KeepsTasks(s, step);
  }

  lemma KeepsTasks(s: State, step: Step)
    requires Places(s)
    ensures s.tasks.Keys <= Apply(s, step).tasks.Keys
  {
    if step.UnregisterWorker? && step.worker in s.workers {
      assert WorkerHolds(s, step.worker);
      RequeueMoves(s, s.workers[step.worker].runningTasks);
    }
  }

  lemma {:induction false} RunKeepsPlaces(s: State, steps: seq<Step>)
    requires Places(s) && EnabledRun(s, steps)
    ensures Places(Run(s, steps))
    ensures s.tasks.Keys <= Run(s, steps).tasks.Keys
    decreases |steps|
  {
    if steps != [] {
      StepKeepsPlaces(s, steps[0]);
      RunKeepsPlaces(Apply(s, steps[0]), steps[1..]);
    }
  }

  /** Whatever has happened, every task is in its place. */
  lemma ReachableKeepsPlaces(steps: seq<Step>)
    requires EnabledRun(EMPTY, steps)
    ensures Places(Run(EMPTY, steps))
  {
    RunKeepsPlaces(EMPTY, steps);
  }

  // ----- reports on a queued task, concretely -----

  lemma QueuedTask(s: State, priority: Priority, requirements: Resources)
    requires s == Submit(EMPTY, "t", "slice", priority, requirements, 3, 0)
    ensures Places(s) && s.queue == ["t"] && "t" in s.tasks
    ensures s.tasks["t"].status.Pending? && s.tasks["t"].retryCount == 0 && s.tasks["t"].maxRetries == 3
  {
    SubmitKeepsPlaces(EMPTY, "t", "slice", priority, requirements, 3, 0);
    SortQueueSorts(Keys(s.tasks), ["t"]);
    assert s.queue[0] in s.queue;
  }

  /** Reported as completed, a queued task stays in the queue; reported as failed, it is queued twice. */
  lemma ReportOnQueuedTask(s: State, priority: Priority, requirements: Resources)
    requires s == Submit(EMPTY, "t", "slice", priority, requirements, 3, 0)
    ensures "t" in s.tasks && s.queue == ["t"]
    ensures "t" in Complete(s, "t").tasks && Complete(s, "t").tasks["t"].status.Completed? && Complete(s, "t").queue == ["t"]
    ensures !Places(Complete(s, "t"))
    ensures |Fail(s, "t").queue| == 2 && !Places(Fail(s, "t"))
  {
    hide Places, Submit;
    QueuedTask(s, priority, requirements);
    CompleteKeepsPlacesIff(s, "t");
    FailKeepsPlacesIff(s, "t");
    assert s.queue + ["t"] == ["t", "t"];
    SortQueueSorts(Keys(Fail(s, "t").tasks), ["t", "t"]);
  }
}
