/** The state of the distributed scheduler and what each of its operations does to it. */
module SchedulerState {
  import opened Sequences
  import opened TaskQueues

  datatype TaskStatus = Pending | Assigned | Running | Completed | Failed | Cancelled

  datatype WorkerStatus = Idle | Busy | Offline

  datatype Resources = Resources(cpu: nat, memory: nat, disk: nat) {
    function Plus(other: Resources): Resources {
      Resources(cpu + other.cpu, memory + other.memory, disk + other.disk)
    }

    /** `Math.max(0, ...)` in each component. */
    function Minus(other: Resources): Resources {
      Resources(Max(0, cpu - other.cpu), Max(0, memory - other.memory), Max(0, disk - other.disk))
    }

    predicate AtMost(other: Resources) {
      cpu <= other.cpu && memory <= other.memory && disk <= other.disk
    }
  }

  const NO_RESOURCES := Resources(0, 0, 0)

  datatype Task = Task(
    sliceId: string,
    priority: Priority,
    status: TaskStatus,
    workerId: Option<Id>,
    requirements: Resources,
    retryCount: nat,
    maxRetries: int,
    createdAt: int)
  {
    /** On a worker. `Running` is set by the worker when it starts the task. */
    predicate InFlight() {
      status.Assigned? || status.Running?
    }

    predicate Live() {
      status.Pending? || InFlight()
    }
  }

  datatype Worker = Worker(
    status: WorkerStatus,
    capacity: Resources,
    load: Resources,
    runningTasks: seq<Id>,
    lastHeartbeat: int,
    totalCompleted: nat,
    totalFailed: nat)
  {
    /** The worker has room for the requirements. */
    predicate Fits(requirements: Resources) {
      && capacity.cpu - load.cpu >= requirements.cpu
      && capacity.memory - load.memory >= requirements.memory
      && capacity.disk - load.disk >= requirements.disk
    }
  }

  /** `workerOrder` lists the keys of `workers` as the JavaScript map iterates over them. */
  datatype State = State(
    tasks: map<Id, Task>, workers: map<Id, Worker>, workerOrder: seq<Id>, queue: seq<Id>)

  function Keys(tasks: map<Id, Task>): map<Id, Key> {
    map id | id in tasks :: Key(Rank(tasks[id].priority), tasks[id].createdAt)
  }

  // ----- the operations -----

  function Submit(s: State, id: Id, sliceId: string, priority: Priority, requirements: Resources, maxRetries: int, now: int): State {
    var tasks := s.tasks[id := Task(sliceId, priority, Pending, None, requirements, 0, maxRetries, now)];
    s.(tasks := tasks, queue := SortQueue(Keys(tasks), s.queue + [id]))
  }

  function Register(s: State, id: Id, capacity: Resources, load: Resources, now: int): State {
    s.(workers := s.workers[id := Worker(Idle, capacity, load, [], now, 0, 0)],
       workerOrder := if id in s.workers then s.workerOrder else s.workerOrder + [id])
  }

  /** Back to pending, at the end of the queue. */
  function Requeue(s: State, ids: seq<Id>): State {
    if ids == [] then s
    else
      var front := Requeue(s, ids[..|ids| - 1]);
      var id := ids[|ids| - 1];
      if id in front.tasks then
        front.(tasks := front.tasks[id := front.tasks[id].(status := Pending, workerId := None)],
               queue := front.queue + [id])
      else front
  }

  function Unregister(s: State, w: Id): State {
    if w !in s.workers then s
    else
      var requeued := Requeue(s, s.workers[w].runningTasks);
      requeued.(workers := requeued.workers - {w}, workerOrder := Without(requeued.workerOrder, w))
  }

  function Heartbeat(s: State, w: Id, load: Resources, now: int): State {
    if w !in s.workers then s
    else
      var worker := s.workers[w];
      s.(workers := s.workers[w := worker.(lastHeartbeat := now, load := load,
                                           status := if worker.runningTasks == [] then Idle else Busy)])
  }

  /** Takes a task off the worker it names and gives the resources back. */
  function Detach(s: State, id: Id, completed: nat, failed: nat): State
    requires id in s.tasks
  {
    var task := s.tasks[id];
    if task.workerId.Some? && task.workerId.value in s.workers then
      var worker := s.workers[task.workerId.value];
      var rest := Without(worker.runningTasks, id);
      s.(workers := s.workers[task.workerId.value :=
           worker.(load := worker.load.Minus(task.requirements),
                   runningTasks := rest,
                   status := if rest == [] then Idle else Busy,
                   totalCompleted := worker.totalCompleted + completed,
                   totalFailed := worker.totalFailed + failed)])
    else s
  }

  function Complete(s: State, id: Id): State {
    if id !in s.tasks then s
    else Detach(s, id, 1, 0).(tasks := s.tasks[id := s.tasks[id].(status := Completed)])
  }

  function Fail(s: State, id: Id): State {
    if id !in s.tasks then s
    else
      var detached := Detach(s, id, 0, 1);
      var task := s.tasks[id].(retryCount := s.tasks[id].retryCount + 1);
      if task.retryCount < task.maxRetries then
        var tasks := s.tasks[id := task.(status := Pending, workerId := None)];
        detached.(tasks := tasks, queue := SortQueue(Keys(tasks), s.queue + [id]))
      else
        detached.(tasks := s.tasks[id := task.(status := Failed)])
  }

  function Cancel(s: State, id: Id): State {
    if id !in s.tasks then s
    else
      Detach(s, id, 0, 0).(tasks := s.tasks[id := s.tasks[id].(status := Cancelled)],
                           queue := Without(s.queue, id))
  }

  /** The worker starts an assigned task. */
  function Start(s: State, id: Id): State {
    if id !in s.tasks || !s.tasks[id].status.Assigned? then s
    else s.(tasks := s.tasks[id := s.tasks[id].(status := Running)])
  }

  function Assign(s: State, id: Id, w: Id): State {
    if id !in s.tasks || w !in s.workers then s
    else
      var task, worker := s.tasks[id], s.workers[w];
      s.(tasks := s.tasks[id := task.(status := Assigned, workerId := Some(w))],
         workers := s.workers[w := worker.(runningTasks := worker.runningTasks + [id],
                                           load := worker.load.Plus(task.requirements))],
         queue := Without(s.queue, id))
  }

  function MarkOffline(s: State, w: Id): State {
    if w !in s.workers then s else s.(workers := s.workers[w := s.workers[w].(status := Offline)])
  }

  function FailAll(s: State, ids: seq<Id>): State {
    if ids == [] then s else Fail(FailAll(s, ids[..|ids| - 1]), ids[|ids| - 1])
  }

  const HEARTBEAT_TIMEOUT := 30000

  predicate TimedOut(s: State, w: Id, now: int) {
    w in s.workers && now - s.workers[w].lastHeartbeat > HEARTBEAT_TIMEOUT && !s.workers[w].status.Offline?
  }

  /** The heartbeat check of one worker. */
  function CheckWorker(s: State, w: Id, now: int): State {
    if TimedOut(s, w, now) then FailAll(MarkOffline(s, w), s.workers[w].runningTasks) else s
  }

  function CheckHeartbeats(s: State, order: seq<Id>, now: int): State {
    if order == [] then s
    else CheckWorker(CheckHeartbeats(s, order[..|order| - 1], now), order[|order| - 1], now)
  }

  // ----- a scheduling pass -----

  /** What one pass decides for each queued task: a worker, or none. */
  type Choices = seq<Option<Id>>

  function Pass(s: State, todo: seq<Id>, choices: Choices): State
    requires |choices| == |todo|
  {
    if todo == [] then s
    else
      var before := Pass(s, todo[..|todo| - 1], choices[..|todo| - 1]);
      match choices[|todo| - 1]
      case None => before
      case Some(w) => Assign(before, todo[|todo| - 1], w)
  }

  /** The worker is not offline and has room for the task. */
  predicate Suitable(s: State, id: Id, w: Id) {
    id in s.tasks && w in s.workers && !s.workers[w].status.Offline? && s.workers[w].Fits(s.tasks[id].requirements)
  }

  /** A task goes to a worker that suits it at its turn, and is passed over only if none does. */
  ghost predicate ChoiceAtTurn(s: State, todo: seq<Id>, choices: Choices, k: nat)
    requires |choices| == |todo| && k < |todo|
  {
    var before := Pass(s, todo[..k], choices[..k]);
    match choices[k]
    case None => forall w :: !Suitable(before, todo[k], w)
    case Some(w) => Suitable(before, todo[k], w)
  }

  ghost predicate PassChoices(s: State, todo: seq<Id>, choices: Choices)
    requires |choices| == |todo|
  {
    forall k :: 0 <= k < |todo| ==> ChoiceAtTurn(s, todo, choices, k)
  }
}
