/** The distributed scheduler object. */
module DistributedScheduler {
  import opened Sequences
  import opened TaskQueues
  import opened SchedulerState
  import opened WorkerSelection
  import SchedulerRuns

  /** If a worker takes the `k`-th queued task at its turn, it is the one the strategy chooses. */
  ghost predicate ByStrategy(strategy: Strategy, s: State, queue: seq<Id>, choices: Choices, available: seq<Id>, k: nat)
    requires |choices| <= |queue| && k < |choices|
  {
    choices[k].Some? ==> ChosenBy(strategy, Pass(s, queue[..k], choices[..k]), queue[k], available, choices[k].value)
  }

  /**
   * The task is off the worker it names: its requirements are taken off the load, down to nothing, the
   * worker is idle if nothing is left to do, and its counters have gone up.
   */
  ghost predicate Released(before: map<Id, Worker>, after: map<Id, Worker>, task: Task, id: Id, completed: nat, failed: nat) {
    && after.Keys == before.Keys
    && forall w :: w in before ==>
         if task.workerId != Some(w) then after[w] == before[w]
         else ReleasedFrom(before[w], after[w], task.requirements, id, completed, failed)
  }

  ghost predicate ReleasedFrom(b: Worker, a: Worker, requirements: Resources, id: Id, completed: nat, failed: nat) {
    && a.capacity == b.capacity && a.lastHeartbeat == b.lastHeartbeat
    && a.load.cpu == (if b.load.cpu < requirements.cpu then 0 else b.load.cpu - requirements.cpu)
    && a.load.memory == (if b.load.memory < requirements.memory then 0 else b.load.memory - requirements.memory)
    && a.load.disk == (if b.load.disk < requirements.disk then 0 else b.load.disk - requirements.disk)
    && (forall x :: x in a.runningTasks <==> x in b.runningTasks && x != id)
    && (a.status.Idle? <==> a.runningTasks == []) && (a.status.Busy? <==> a.runningTasks != [])
    && a.totalCompleted == b.totalCompleted + completed && a.totalFailed == b.totalFailed + failed
  }

  /** Tried less often than it may be, the task is pending and queued again, in order; else it has failed. */
  ghost predicate RetriedOrGivenUp(before: map<Id, Task>, after: map<Id, Task>, id: Id, queue: seq<Id>, newQueue: seq<Id>)
    requires id in before
  {
    var was := before[id];
    if was.retryCount + 1 < was.maxRetries then
      && after == before[id := was.(retryCount := was.retryCount + 1, status := Pending, workerId := None)]
      && multiset(newQueue) == multiset(queue) + multiset{id} && Ordered(Keys(after), newQueue)
    else
      after == before[id := was.(retryCount := was.retryCount + 1, status := Failed)] && newQueue == queue
  }

  lemma FailRetriesOrGivesUp(s: State, id: Id)
    requires id in s.tasks
    ensures RetriedOrGivenUp(s.tasks, Fail(s, id).tasks, id, s.queue, Fail(s, id).queue)
  {
    SortQueuePermutes(Keys(Fail(s, id).tasks), s.queue + [id]);
    SortQueueSorts(Keys(Fail(s, id).tasks), s.queue + [id]);
  }

  class Scheduler {
    var strategy: Strategy
    var tasks: map<Id, Task>
    var workers: map<Id, Worker>
    var workerOrder: seq<Id>
    var taskQueue: seq<Id>

    constructor (strategy: Strategy)
      ensures View() == SchedulerRuns.EMPTY && this.strategy == strategy
    {
      this.strategy := strategy;
      tasks, workers, workerOrder, taskQueue := map[], map[], [], [];
    }

    method SetStrategy(strategy: Strategy)
      modifies this`strategy
      ensures this.strategy == strategy
    {
      this.strategy := strategy;
    }

    function View(): State
      reads this
    {
      State(tasks, workers, workerOrder, taskQueue)
    }

    method SortTaskQueue()
      modifies this`taskQueue
      ensures taskQueue == SortQueue(Keys(tasks), old(taskQueue))
    {
      taskQueue := SortQueue(Keys(tasks), taskQueue);
    }

    /** `id` is the fresh random id. */
    method SubmitTask(id: Id, sliceId: string, priority: Priority, requirements: Resources, maxRetries: Option<int>, now: int)
      requires id !in tasks
      modifies this`tasks, this`workers, this`workerOrder, this`taskQueue
      ensures View() == Submit(old(View()), id, sliceId, priority, requirements, maxRetries.GetOr(3), now)
      ensures tasks == old(tasks)[id := Task(sliceId, priority, Pending, None, requirements, 0,
                                             if maxRetries.Some? then maxRetries.value else 3, now)]
    {
      tasks := tasks[id := Task(sliceId, priority, Pending, None, requirements, 0, maxRetries.GetOr(3), now)];
      taskQueue := taskQueue + [id];
      SortTaskQueue();
    }

    method RegisterWorker(id: Id, capacity: Resources, currentLoad: Resources, now: int)
      modifies this`tasks, this`workers, this`workerOrder, this`taskQueue
      ensures View() == Register(old(View()), id, capacity, currentLoad, now)
      ensures workers == old(workers)[id := Worker(Idle, capacity, currentLoad, [], now, 0, 0)]
      ensures workerOrder == if id in old(workers) then old(workerOrder) else old(workerOrder) + [id]
      ensures tasks == old(tasks) && taskQueue == old(taskQueue)
    {
      if id !in workers {
        workerOrder := workerOrder + [id];
      }
      workers := workers[id := Worker(Idle, capacity, currentLoad, [], now, 0, 0)];
    }

    method UnregisterWorker(workerId: Id)
      modifies this`tasks, this`workers, this`workerOrder, this`taskQueue
      ensures View() == Unregister(old(View()), workerId)
      ensures workerId in old(workers) ==> workers == old(workers) - {workerId} && workerId !in workerOrder
    {
      if workerId !in workers {
        return;
      }
      var runningTasks := workers[workerId].runningTasks;
      ghost var was := View();
      for k := 0 to |runningTasks|
        invariant View() == Requeue(was, runningTasks[..k]) && workers == was.workers
      {
        var taskId := runningTasks[k];
        assert runningTasks[..k + 1][..k] == runningTasks[..k];
        if taskId in tasks {
          tasks := tasks[taskId := tasks[taskId].(status := Pending, workerId := None)];
          taskQueue := taskQueue + [taskId];
        }
      }
      assert runningTasks[..|runningTasks|] == runningTasks;
      workers := workers - {workerId};
      workerOrder := Without(workerOrder, workerId);
    }

    method WorkerHeartbeat(workerId: Id, currentLoad: Resources, now: int)
      modifies this`workers
      ensures View() == Heartbeat(old(View()), workerId, currentLoad, now)
      ensures workerId in old(workers) ==>
                workers == old(workers)[workerId := old(workers)[workerId].(
                  lastHeartbeat := now, load := currentLoad,
                  status := if old(workers)[workerId].runningTasks == [] then Idle else Busy)]
    {
      if workerId !in workers {
        return;
      }
      var worker := workers[workerId].(lastHeartbeat := now, load := currentLoad);
      if |worker.runningTasks| == 0 {
        worker := worker.(status := Idle);
      } else {
        worker := worker.(status := Busy);
      }
      workers := workers[workerId := worker];
    }

    method ReleaseFromWorker(taskId: Id, completed: nat, failed: nat)
      requires taskId in tasks
      modifies this`workers
      ensures View() == Detach(old(View()), taskId, completed, failed)
      ensures Released(old(workers), workers, tasks[taskId], taskId, completed, failed)
    {
      var task := tasks[taskId];
      if task.workerId.Some? && task.workerId.value in workers {
        var worker := workers[task.workerId.value];
        worker := worker.(load := worker.load.Minus(task.requirements));
        worker := worker.(runningTasks := Without(worker.runningTasks, taskId));
        worker := worker.(totalCompleted := worker.totalCompleted + completed, totalFailed := worker.totalFailed + failed);
        worker := worker.(status := if |worker.runningTasks| == 0 then Idle else Busy);
        workers := workers[task.workerId.value := worker];
      }
    }

    method TaskCompleted(taskId: Id)
      modifies this`tasks, this`workers, this`workerOrder, this`taskQueue
      ensures View() == Complete(old(View()), taskId)
      ensures taskId in old(tasks) ==>
                && tasks == old(tasks)[taskId := old(tasks)[taskId].(status := Completed)] && taskQueue == old(taskQueue)
                && Released(old(workers), workers, old(tasks)[taskId], taskId, 1, 0)
    {
      if taskId !in tasks {
        return;
      }
      ReleaseFromWorker(taskId, 1, 0);
      tasks := tasks[taskId := tasks[taskId].(status := Completed)];
    }

    method TaskFailed(taskId: Id)
      modifies this`tasks, this`workers, this`workerOrder, this`taskQueue
      ensures View() == Fail(old(View()), taskId)
      ensures taskId in old(tasks) ==>
                && RetriedOrGivenUp(old(tasks), tasks, taskId, old(taskQueue), taskQueue)
                && Released(old(workers), workers, old(tasks)[taskId], taskId, 0, 1)
    {
      hide Released, RetriedOrGivenUp, SortQueue;
      if taskId !in tasks {
        return;
      }
      ghost var was := View();
      ReleaseFromWorker(taskId, 0, 1);
      var task := tasks[taskId].(retryCount := tasks[taskId].retryCount + 1);
      if task.retryCount < task.maxRetries {
        tasks := tasks[taskId := task.(status := Pending, workerId := None)];
        taskQueue := taskQueue + [taskId];
        SortTaskQueue();
      } else {
        tasks := tasks[taskId := task.(status := Failed)];
      }
      FailRetriesOrGivesUp(was, taskId);
    }

    method CancelTask(taskId: Id)
      modifies this`tasks, this`workers, this`workerOrder, this`taskQueue
      ensures View() == Cancel(old(View()), taskId)
      ensures taskId in old(tasks) ==>
                && tasks == old(tasks)[taskId := old(tasks)[taskId].(status := Cancelled)]
                && taskId !in taskQueue && (forall id :: id in taskQueue <==> id in old(taskQueue) && id != taskId)
                && Released(old(workers), workers, old(tasks)[taskId], taskId, 0, 0)
    {
      if taskId !in tasks {
        return;
      }
      ReleaseFromWorker(taskId, 0, 0);
      tasks := tasks[taskId := tasks[taskId].(status := Cancelled)];
      taskQueue := Without(taskQueue, taskId);
    }

    method AssignTask(taskId: Id, workerId: Id)
      requires taskId in tasks && workerId in workers
      modifies this`tasks, this`workers, this`taskQueue
      ensures View() == Assign(old(View()), taskId, workerId)
      ensures tasks == old(tasks)[taskId := old(tasks)[taskId].(status := Assigned, workerId := Some(workerId))]
      ensures workers.Keys == old(workers).Keys && forall w :: w in workers && w != workerId ==> workers[w] == old(workers)[w]
      ensures workers[workerId].runningTasks == old(workers)[workerId].runningTasks + [taskId]
      ensures
        var before, after := old(workers)[workerId].load, workers[workerId].load;
        && after.cpu == before.cpu + tasks[taskId].requirements.cpu
        && after.memory == before.memory + tasks[taskId].requirements.memory
        && after.disk == before.disk + tasks[taskId].requirements.disk
      ensures taskId !in taskQueue
    {
      var task, worker := tasks[taskId], workers[workerId];
      tasks := tasks[taskId := task.(status := Assigned, workerId := Some(workerId))];
      worker := worker.(runningTasks := worker.runningTasks + [taskId]);
      worker := worker.(load := worker.load.Plus(task.requirements));
      workers := workers[workerId := worker];
      taskQueue := Without(taskQueue, taskId);
    }

    /** A suitable worker, if there is one, and one that the strategy puts first. */
    method SelectWorker(taskId: Id, available: seq<Id>) returns (choice: Option<Id>)
      requires taskId in tasks
      requires forall w :: w in available <==> w in workers && !workers[w].status.Offline?
      ensures choice.None? ==> forall w :: !Suitable(View(), taskId, w)
      ensures choice.Some? ==> Suitable(View(), taskId, choice.value)
      ensures choice.Some? ==> ChosenBy(strategy, View(), taskId, available, choice.value)
    {
      var suitable := SuitableAmong(View(), taskId, available);
      if |suitable| == 0 {
        assert forall w :: Suitable(View(), taskId, w) ==> w in suitable;
        return None;
      }
      var competing := Competing(strategy, View(), taskId, suitable);
      assert forall w :: w in competing ==> w in suitable;
      var best := ReduceToBest(strategy, workers, competing);
      choice := Some(best);
    }

    /** The workers that are not offline, in the order of their registration. */
    method AvailableWorkers() returns (available: seq<Id>)
      requires Elements(workerOrder) == workers.Keys
      ensures available == OnlineAmong(workers, workerOrder)
      ensures forall w :: w in available <==> w in workers && !workers[w].status.Offline?
    {
      available := [];
      for k := 0 to |workerOrder|
        invariant available == OnlineAmong(workers, workerOrder[..k])
      {
        assert workerOrder[k] in Elements(workerOrder);
        assert workerOrder[..k + 1][..k] == workerOrder[..k];
        if !workers[workerOrder[k]].status.Offline? {
          available := available + [workerOrder[k]];
        }
      }
      assert workerOrder[..|workerOrder|] == workerOrder;
      assert forall w :: w in workers <==> w in Elements(workerOrder);
    }

    /** The turn of one task. */
    method TryAssign(taskId: Id, available: seq<Id>) returns (worker: Option<Id>)
      requires taskId in tasks
      requires forall w :: w in available <==> w in workers && !workers[w].status.Offline?
      modifies this`tasks, this`workers, this`taskQueue
      ensures worker.None? ==> View() == old(View()) && forall w :: !Suitable(old(View()), taskId, w)
      ensures worker.Some? ==>
                Suitable(old(View()), taskId, worker.value) && View() == Assign(old(View()), taskId, worker.value)
      ensures worker.Some? ==> ChosenBy(strategy, old(View()), taskId, available, worker.value)
      ensures tasks.Keys == old(tasks).Keys && workers.Keys == old(workers).Keys
      ensures forall w :: w in workers ==> workers[w].status == old(workers)[w].status
    {
      hide ChosenBy;
      worker := SelectWorker(taskId, available);
      if worker.Some? {
        AssignTask(taskId, worker.value);
      }
    }

    /** One pass over the queue. `choices` records what it decided for each queued task. */
    method ScheduleTasks() returns (ghost choices: Choices)
      requires SchedulerRuns.Places(View())
      modifies this`tasks, this`workers, this`workerOrder, this`taskQueue
      ensures |choices| == |old(taskQueue)|
      ensures PassChoices(old(View()), old(taskQueue), choices)
      ensures View() == Pass(old(View()), old(taskQueue), choices)
      ensures forall k :: 0 <= k < |choices| ==>
                ByStrategy(strategy, old(View()), old(taskQueue), choices, OnlineAmong(old(workers), old(workerOrder)), k)
    {
      ghost var was := View();
      var tasksToSchedule := taskQueue;
      var available := AvailableWorkers();
      assert forall id :: id in tasksToSchedule ==> id in tasks;
      hide SchedulerRuns.Places, PassChoices, Suitable, Assign, ChosenBy, ByStrategy;
      NoTurns(was);
      choices := [];
      for k := 0 to |tasksToSchedule|
        invariant |choices| == k
        invariant View() == Pass(was, tasksToSchedule[..k], choices)
        invariant PassChoices(was, tasksToSchedule[..k], choices)
        invariant forall i :: 0 <= i < k ==> ByStrategy(strategy, was, tasksToSchedule, choices, available, i)
        invariant tasks.Keys == was.tasks.Keys && workers.Keys == was.workers.Keys
        invariant forall w :: w in workers ==> workers[w].status == was.workers[w].status
      {
        var worker := TryAssign(tasksToSchedule[k], available);
        OneMoreTurn(was, tasksToSchedule, choices, worker, k);
        OneMoreByStrategy(strategy, was, tasksToSchedule, choices, available, worker);
        choices := choices + [worker];
      }
      assert tasksToSchedule[..|tasksToSchedule|] == tasksToSchedule;
    }

    method CheckWorkerHeartbeats(now: int)
      modifies this`tasks, this`workers, this`workerOrder, this`taskQueue
      ensures View() == CheckHeartbeats(old(View()), old(workerOrder), now)
    {
      ghost var was := View();
      var order := workerOrder;
      for k := 0 to |order|
        invariant View() == CheckHeartbeats(was, order[..k], now)
      {
        assert order[..k + 1][..k] == order[..k];
        CheckOneWorker(order[k], now);
      }
      assert order[..|order|] == order;
    }

    method CheckOneWorker(workerId: Id, now: int)
      modifies this`tasks, this`workers, this`workerOrder, this`taskQueue
      ensures View() == CheckWorker(old(View()), workerId, now)
    {
      if workerId !in workers {
        return;
      }
      var worker := workers[workerId];
      if now - worker.lastHeartbeat > HEARTBEAT_TIMEOUT && !worker.status.Offline? {
        workers := workers[workerId := worker.(status := Offline)];
        ghost var was := View();
        var runningTasks := worker.runningTasks;
        for k := 0 to |runningTasks|
          invariant View() == FailAll(was, runningTasks[..k])
        {
          assert runningTasks[..k + 1][..k] == runningTasks[..k];
          if runningTasks[k] in tasks {
            TaskFailed(runningTasks[k]);
          }
        }
        assert runningTasks[..|runningTasks|] == runningTasks;
      }
    }
  }

  lemma NoTurns(s: State)
    ensures PassChoices(s, [], []) && Pass(s, [], []) == s
  {
  }

  lemma OneMoreByStrategy(strategy: Strategy, s: State, queue: seq<Id>, choices: Choices, available: seq<Id>, choice: Option<Id>)
    requires |choices| < |queue|
    requires forall i :: 0 <= i < |choices| ==> ByStrategy(strategy, s, queue, choices, available, i)
    requires choice.Some? ==>
               ChosenBy(strategy, Pass(s, queue[..|choices|], choices), queue[|choices|], available, choice.value)
    ensures forall i :: 0 <= i <= |choices| ==> ByStrategy(strategy, s, queue, choices + [choice], available, i)
  {
    hide ChosenBy, Pass;
    var more := choices + [choice];
    forall i | 0 <= i <= |choices| ensures ByStrategy(strategy, s, queue, more, available, i) {
      assert more[..i] == choices[..i];
      if i < |choices| {
        assert ByStrategy(strategy, s, queue, choices, available, i);
      } else {
        assert choices[..i] == choices;
      }
    }
  }

  lemma OneMoreTurn(s: State, queue: seq<Id>, choices: Choices, choice: Option<Id>, k: nat)
    requires k < |queue| && |choices| == k
    requires PassChoices(s, queue[..k], choices)
    requires choice.Some? ==> Suitable(Pass(s, queue[..k], choices), queue[k], choice.value)
    requires choice.None? ==> forall w :: !Suitable(Pass(s, queue[..k], choices), queue[k], w)
    ensures PassChoices(s, queue[..k + 1], choices + [choice])
    ensures Pass(s, queue[..k + 1], choices + [choice]) ==
            match choice
            case None => Pass(s, queue[..k], choices)
            case Some(w) => Assign(Pass(s, queue[..k], choices), queue[k], w)
  {
    var todo, more := queue[..k + 1], choices + [choice];
    assert todo[..k] == queue[..k] && more[..k] == choices;
    forall i | 0 <= i < |todo| ensures ChoiceAtTurn(s, todo, more, i) {
      if i < k {
        assert todo[..i] == queue[..k][..i] && more[..i] == choices[..i];
        assert ChoiceAtTurn(s, queue[..k], choices, i);
      }
    }
  }
}
