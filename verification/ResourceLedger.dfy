/** Allocations of one worker's resources, and the table of which task holds which allocation. */
module ResourceLedger {
  import opened Sums
  import opened SchedulerState

  type Id = string

  /** `requirements` are copied from the task when it is charged. */
  datatype Allocation = Allocation(id: Id, ownerId: Id, taskId: Id, requirements: Resources)

  // ----- one resource manager -----

  datatype Manager = Manager(capacity: Resources, allocations: map<Id, Allocation>, idsByOwner: map<Id, set<Id>>)

  ghost function CpuOf(allocations: map<Id, Allocation>): map<Id, nat> {
    map id | id in allocations :: allocations[id].requirements.cpu
  }

  ghost function MemoryOf(allocations: map<Id, Allocation>): map<Id, nat> {
    map id | id in allocations :: allocations[id].requirements.memory
  }

  ghost function DiskOf(allocations: map<Id, Allocation>): map<Id, nat> {
    map id | id in allocations :: allocations[id].requirements.disk
  }

  ghost function Used(allocations: map<Id, Allocation>): Resources {
    Resources(Sum(CpuOf(allocations)), Sum(MemoryOf(allocations)), Sum(DiskOf(allocations)))
  }

  lemma UsedRemove(allocations: map<Id, Allocation>, id: Id)
    requires id in allocations
    ensures Used(allocations) == Used(allocations - {id}).Plus(allocations[id].requirements)
  {
    var rest := allocations - {id};
    SumRemove(CpuOf(allocations), id);
    SumRemove(MemoryOf(allocations), id);
    SumRemove(DiskOf(allocations), id);
    assert CpuOf(rest) == CpuOf(allocations) - {id};
    assert MemoryOf(rest) == MemoryOf(allocations) - {id};
    assert DiskOf(rest) == DiskOf(allocations) - {id};
  }

  lemma UsedAdd(allocations: map<Id, Allocation>, id: Id, a: Allocation)
    requires id !in allocations
    ensures Used(allocations[id := a]) == Used(allocations).Plus(a.requirements)
  {
    UsedRemove(allocations[id := a], id);
    assert allocations[id := a] - {id} == allocations;
  }

  lemma {:induction false} UsedOfFewer(allocations: map<Id, Allocation>, gone: set<Id>)
    ensures Used(allocations - gone).AtMost(Used(allocations))
    decreases |gone|
  {
    if gone == {} {
      assert allocations - gone == allocations;
    } else {
      var id :| id in gone;
      var less := gone - {id};
      UsedOfFewer(allocations, less);
      if id in allocations {
        UsedRemove(allocations - less, id);
        assert allocations - less - {id} == allocations - gone;
      } else {
        assert allocations - less == allocations - gone;
      }
    }
  }

  ghost function Available(m: Manager): Resources {
    m.capacity.Minus(Used(m.allocations))
  }

  ghost predicate CanAllocate(m: Manager, requested: Resources) {
    requested.AtMost(Available(m))
  }

  /** A request is granted exactly when, with it, no more is used than there is. */
  lemma GrantedIff(m: Manager, requested: Resources)
    requires Sound(m)
    ensures CanAllocate(m, requested) <==> Used(m.allocations).Plus(requested).AtMost(m.capacity)
  {
  }

  ghost function IdsOf(allocations: map<Id, Allocation>, owner: Id): set<Id> {
    set id | id in allocations && allocations[id].ownerId == owner
  }

  ghost predicate IndexExact(allocations: map<Id, Allocation>, idsByOwner: map<Id, set<Id>>) {
    && (forall o :: o in idsByOwner <==> IdsOf(allocations, o) != {})
    && (forall o :: o in idsByOwner ==> idsByOwner[o] == IdsOf(allocations, o))
  }

  /** The owner index is the allocation map filtered by owner, and no more is used than there is. */
  ghost predicate Sound(m: Manager) {
    && (forall id :: id in m.allocations ==> m.allocations[id].id == id)
    && IndexExact(m.allocations, m.idsByOwner)
    && Used(m.allocations).AtMost(m.capacity)
  }

  function NewManager(capacity: Resources): Manager {
    Manager(capacity, map[], map[])
  }

  function WithAllocation(m: Manager, a: Allocation): Manager {
    var ids := if a.ownerId in m.idsByOwner then m.idsByOwner[a.ownerId] else {};
    m.(allocations := m.allocations[a.id := a], idsByOwner := m.idsByOwner[a.ownerId := ids + {a.id}])
  }

  function WithoutAllocation(m: Manager, id: Id): Manager {
    if id !in m.allocations then m
    else
      var owner := m.allocations[id].ownerId;
      if owner !in m.idsByOwner then m.(allocations := m.allocations - {id})
      else
        var rest := m.idsByOwner[owner] - {id};
        m.(allocations := m.allocations - {id},
           idsByOwner := if rest == {} then m.idsByOwner - {owner} else m.idsByOwner[owner := rest])
  }

  function WithoutOwner(m: Manager, owner: Id): Manager {
    if owner !in m.idsByOwner then m
    else m.(allocations := m.allocations - m.idsByOwner[owner], idsByOwner := m.idsByOwner - {owner})
  }

  lemma NewManagerSound(capacity: Resources)
    ensures Sound(NewManager(capacity))
  {
    assert CpuOf(map[]) == map[] && MemoryOf(map[]) == map[] && DiskOf(map[]) == map[];
  }

  lemma AllocateKeepsSound(m: Manager, a: Allocation)
    requires Sound(m) && a.id !in m.allocations && CanAllocate(m, a.requirements)
    ensures Sound(WithAllocation(m, a))
    ensures Used(WithAllocation(m, a).allocations) == Used(m.allocations).Plus(a.requirements)
  {
    hide Used, IndexExact;
    UsedAdd(m.allocations, a.id, a);
    IndexAdd(m, a);
  }

  lemma IndexAdd(m: Manager, a: Allocation)
    requires IndexExact(m.allocations, m.idsByOwner) && a.id !in m.allocations
    ensures IndexExact(WithAllocation(m, a).allocations, WithAllocation(m, a).idsByOwner)
  {
    var n := WithAllocation(m, a);
    forall o ensures IdsOf(n.allocations, o) == IdsOf(m.allocations, o) + if o == a.ownerId then {a.id} else {} {
    }
  }

  lemma ReleaseKeepsSound(m: Manager, id: Id)
    requires Sound(m)
    ensures Sound(WithoutAllocation(m, id))
    ensures WithoutAllocation(m, id).allocations == m.allocations - {id}
    ensures id in m.allocations ==>
              Used(m.allocations) == Used(WithoutAllocation(m, id).allocations).Plus(m.allocations[id].requirements)
  {
    var n := WithoutAllocation(m, id);
    if id in m.allocations {
      UsedRemove(m.allocations, id);
      assert id in IdsOf(m.allocations, m.allocations[id].ownerId);
      forall o ensures IdsOf(n.allocations, o) == IdsOf(m.allocations, o) - {id} {
      }
    } else {
      assert m.allocations - {id} == m.allocations;
    }
  }

  lemma ReleaseOwnerKeepsSound(m: Manager, owner: Id)
    requires Sound(m)
    ensures Sound(WithoutOwner(m, owner))
    ensures WithoutOwner(m, owner).allocations == m.allocations - IdsOf(m.allocations, owner)
  {
    var n := WithoutOwner(m, owner);
    if owner in m.idsByOwner {
      UsedOfFewer(m.allocations, m.idsByOwner[owner]);
      forall o ensures IdsOf(n.allocations, o) == if o == owner then {} else IdsOf(m.allocations, o) {
      }
    } else {
      assert m.allocations - IdsOf(m.allocations, owner) == m.allocations;
    }
  }

  // ----- the ledger of the runtime -----

  datatype Ledger = Ledger(managers: map<Id, Manager>, taskAllocations: map<Id, Allocation>)

  datatype Step =
    | AddWorker(worker: Id, capacity: Resources)
    | AllocateTask(worker: Id, task: Id, requirements: Resources, freshId: Id)
    | ReleaseTask(task: Id)
    | ReleaseWorker(worker: Id)
    | Stop

  /** Whether a task is charged by the step. */
  ghost predicate Charges(l: Ledger, worker: Id, task: Id, requirements: Resources) {
    task !in l.taskAllocations && worker in l.managers && CanAllocate(l.managers[worker], requirements)
  }

  ghost function Apply(l: Ledger, step: Step): Ledger {
    match step
    case AddWorker(w, capacity) =>
      if w in l.managers then l else l.(managers := l.managers[w := NewManager(capacity)])
    case AllocateTask(w, t, requirements, freshId) =>
      if !Charges(l, w, t, requirements) then l
      else
        var a := Allocation(freshId, w, t, requirements);
        Ledger(l.managers[w := WithAllocation(l.managers[w], a)], l.taskAllocations[t := a])
    case ReleaseTask(t) =>
      if t !in l.taskAllocations then l
      else
        var a := l.taskAllocations[t];
        Ledger(if a.ownerId in l.managers
               then l.managers[a.ownerId := WithoutAllocation(l.managers[a.ownerId], a.id)] else l.managers,
               l.taskAllocations - {t})
    case ReleaseWorker(w) =>
      Ledger(if w in l.managers then l.managers[w := WithoutOwner(l.managers[w], w)] else l.managers,
             map t | t in l.taskAllocations && l.taskAllocations[t].ownerId != w :: l.taskAllocations[t])
    case Stop => Ledger(map[], map[])
  }

  /** Allocation ids are fresh. */
  ghost predicate Enabled(l: Ledger, step: Step) {
    step.AllocateTask? && step.worker in l.managers ==> step.freshId !in l.managers[step.worker].allocations
  }

  /** `a` is in the books of worker `w`. */
  ghost predicate Booked(l: Ledger, w: Id, a: Allocation) {
    w in l.managers && a.id in l.managers[w].allocations && l.managers[w].allocations[a.id] == a
  }

  /** The task table and the managers hold the same allocations, each under its own worker. */
  ghost predicate Balanced(l: Ledger) {
    && (forall w :: w in l.managers ==> Sound(l.managers[w]))
    && (forall t :: t in l.taskAllocations ==>
          l.taskAllocations[t].taskId == t && Booked(l, l.taskAllocations[t].ownerId, l.taskAllocations[t]))
    && (forall w, a :: Booked(l, w, a) ==>
          a.ownerId == w && a.taskId in l.taskAllocations && l.taskAllocations[a.taskId] == a)
  }

  lemma StepKeepsBalanced(l: Ledger, step: Step)
    requires Balanced(l) && Enabled(l, step)
    ensures Balanced(Apply(l, step))
  {
    match step
    case AddWorker(w, capacity) => AddWorkerKeepsBalanced(l, w, capacity);
    case AllocateTask(w, t, requirements, freshId) =>
      if Charges(l, w, t, requirements) {
        AllocateKeepsBalanced(l, w, t, requirements, freshId);
      }
    case ReleaseTask(t) =>
      if t in l.taskAllocations {
        ReleaseTaskKeepsBalanced(l, t);
      }
    case ReleaseWorker(w) => ReleaseWorkerKeepsBalanced(l, w);
    case Stop =>
  }

  lemma AddWorkerKeepsBalanced(l: Ledger, w: Id, capacity: Resources)
    requires Balanced(l)
    ensures Balanced(Apply(l, AddWorker(w, capacity)))
  {
    hide Sound;
    var n := Apply(l, AddWorker(w, capacity));
    NewManagerSound(capacity);
    if w !in l.managers {
      assert forall v, a :: Booked(n, v, a) <==> Booked(l, v, a);
    }
  }

  lemma AllocateKeepsBalanced(l: Ledger, w: Id, t: Id, requirements: Resources, freshId: Id)
    requires Balanced(l) && Charges(l, w, t, requirements) && freshId !in l.managers[w].allocations
    ensures Balanced(Apply(l, AllocateTask(w, t, requirements, freshId)))
  {
    var n := Apply(l, AllocateTask(w, t, requirements, freshId));
    var a := Allocation(freshId, w, t, requirements);
    AllocateKeepsSound(l.managers[w], a);
    BalancedAfterBooking(l, n, w, a);
  }

  lemma BalancedAfterBooking(l: Ledger, n: Ledger, w: Id, a: Allocation)
    requires Balanced(l) && w in l.managers && a.ownerId == w
    requires a.taskId !in l.taskAllocations && a.id !in l.managers[w].allocations
    requires n.managers == l.managers[w := WithAllocation(l.managers[w], a)]
    requires n.taskAllocations == l.taskAllocations[a.taskId := a]
    requires Sound(n.managers[w])
    ensures Balanced(n)
  {
    hide Sound;
    assert forall v, b :: Booked(n, v, b) <==> Booked(l, v, b) || (v == w && b == a);
  }

  lemma ReleaseTaskKeepsBalanced(l: Ledger, t: Id)
    requires Balanced(l) && t in l.taskAllocations
    ensures Balanced(Apply(l, ReleaseTask(t)))
  {
    hide Sound;
    var n := Apply(l, ReleaseTask(t));
    var a := l.taskAllocations[t];
    assert Booked(l, a.ownerId, a);
    ReleaseKeepsSound(l.managers[a.ownerId], a.id);
    forall v, b ensures Booked(n, v, b) <==> Booked(l, v, b) && b != a {
      if Booked(l, v, b) && v == a.ownerId && b.id == a.id {
        assert b == a;
      }
    }
  }

  lemma ReleaseWorkerKeepsBalanced(l: Ledger, w: Id)
    requires Balanced(l)
    ensures Balanced(Apply(l, ReleaseWorker(w)))
  {
    hide Sound;
    var n := Apply(l, ReleaseWorker(w));
    if w in l.managers {
      ReleaseOwnerKeepsSound(l.managers[w], w);
    }
    forall v, b ensures Booked(n, v, b) <==> Booked(l, v, b) && v != w {
      if Booked(l, v, b) && v == w {
        assert b.id in IdsOf(l.managers[w].allocations, w);
      }
    }
  }

  // ----- runs -----

  ghost function Run(l: Ledger, steps: seq<Step>): Ledger
    decreases |steps|
  {
    if steps == [] then l else Run(Apply(l, steps[0]), steps[1..])
  }

  ghost predicate EnabledRun(l: Ledger, steps: seq<Step>)
    decreases |steps|
  {
    steps == [] || (Enabled(l, steps[0]) && EnabledRun(Apply(l, steps[0]), steps[1..]))
  }

  /** Over every run the books stay balanced. */
  lemma {:induction false} RunKeepsBalanced(l: Ledger, steps: seq<Step>)
    requires Balanced(l) && EnabledRun(l, steps)
    ensures Balanced(Run(l, steps))
    decreases |steps|
  {
    if steps != [] {
      StepKeepsBalanced(l, steps[0]);
      RunKeepsBalanced(Apply(l, steps[0]), steps[1..]);
    }
  }

  /**
   * A task is charged exactly when it is not charged already and a known worker has enough left; the
   * charge is what was asked for, and nothing else changes.
   */
  lemma ChargedIff(l: Ledger, w: Id, t: Id, requirements: Resources, freshId: Id)
    requires Balanced(l)
    ensures
      var n := Apply(l, AllocateTask(w, t, requirements, freshId));
      if t !in l.taskAllocations && w in l.managers
         && Used(l.managers[w].allocations).Plus(requirements).AtMost(l.managers[w].capacity)
      then
        && t in n.taskAllocations && n.taskAllocations == l.taskAllocations[t := n.taskAllocations[t]]
        && n.taskAllocations[t].requirements == requirements && n.taskAllocations[t].ownerId == w
        && n.taskAllocations[t].taskId == t && n.taskAllocations[t].id == freshId
        && n.managers.Keys == l.managers.Keys && forall v :: v in l.managers && v != w ==> n.managers[v] == l.managers[v]
      else n == l
  {
    if w in l.managers {
      GrantedIff(l.managers[w], requirements);
    }
  }

  /** A task is charged at most once, on one worker. */
  lemma ChargedAtMostOnce(l: Ledger, w: Id, a: Allocation, v: Id, b: Allocation)
    requires Balanced(l) && Booked(l, w, a) && Booked(l, v, b) && a.taskId == b.taskId
    ensures w == v && a == b
  {
  }

  /** The step gives back what task `t` holds. */
  predicate ReleasesTask(step: Step, w: Id, t: Id) {
    || step == ReleaseTask(t)
    || step == ReleaseWorker(w)
    || step == Stop
  }

  lemma StepKeepsAllocation(l: Ledger, step: Step, t: Id)
    requires Balanced(l) && Enabled(l, step) && t in l.taskAllocations
    requires !ReleasesTask(step, l.taskAllocations[t].ownerId, t)
    ensures t in Apply(l, step).taskAllocations && Apply(l, step).taskAllocations[t] == l.taskAllocations[t]
  {
    hide Sound, CanAllocate, WithAllocation, WithoutAllocation, WithoutOwner, Booked;
  }

  /** Until it is released, an allocation stays as it was made, whatever is asked for the task meanwhile. */
  lemma {:induction false} AllocationStays(l: Ledger, steps: seq<Step>, t: Id)
    requires Balanced(l) && EnabledRun(l, steps) && t in l.taskAllocations
    requires forall k :: 0 <= k < |steps| ==> !ReleasesTask(steps[k], l.taskAllocations[t].ownerId, t)
    ensures t in Run(l, steps).taskAllocations && Run(l, steps).taskAllocations[t] == l.taskAllocations[t]
    decreases |steps|
  {
    hide Balanced, Apply;
    if steps != [] {
      StepKeepsBalanced(l, steps[0]);
      StepKeepsAllocation(l, steps[0], t);
      AllocationStays(Apply(l, steps[0]), steps[1..], t);
    }
  }

  /**
   * A release gives back exactly what was charged, however long ago and whatever was asked for the
   * task in between.
   */
  lemma ReleaseReturnsCharge(l: Ledger, w: Id, t: Id, requirements: Resources, freshId: Id, steps: seq<Step>)
    requires Balanced(l) && Charges(l, w, t, requirements) && Enabled(l, AllocateTask(w, t, requirements, freshId))
    requires EnabledRun(Apply(l, AllocateTask(w, t, requirements, freshId)), steps)
    requires forall k :: 0 <= k < |steps| ==> !ReleasesTask(steps[k], w, t)
    ensures
      var charged := Apply(l, AllocateTask(w, t, requirements, freshId));
      var before := Run(charged, steps);
      var after := Apply(before, ReleaseTask(t));
      && Used(charged.managers[w].allocations) == Used(l.managers[w].allocations).Plus(requirements)
      && w in before.managers && w in after.managers
      && Used(before.managers[w].allocations) == Used(after.managers[w].allocations).Plus(requirements)
      && t !in after.taskAllocations
  {
    var charged := Apply(l, AllocateTask(w, t, requirements, freshId));
    AllocateKeepsBalanced(l, w, t, requirements, freshId);
    AllocateKeepsSound(l.managers[w], Allocation(freshId, w, t, requirements));
    AllocationStays(charged, steps, t);
    RunKeepsBalanced(charged, steps);
    var before := Run(charged, steps);
    assert Booked(before, w, before.taskAllocations[t]);
    ReleaseKeepsSound(before.managers[w], freshId);
  }

  /** Whatever has happened, the books are balanced. */
  lemma ReachableKeepsBalanced(steps: seq<Step>)
    requires EnabledRun(Ledger(map[], map[]), steps)
    ensures Balanced(Run(Ledger(map[], map[]), steps))
  {
    RunKeepsBalanced(Ledger(map[], map[]), steps);
  }

  /** A new worker has its capacity to itself; one whose resources are released has it again, and no task of its is charged. */
  lemma WorkerEntersAndLeaves(l: Ledger, w: Id, capacity: Resources)
    requires Balanced(l)
    ensures w !in l.managers ==>
              var n := Apply(l, AddWorker(w, capacity));
              && n.managers.Keys == l.managers.Keys + {w} && n.taskAllocations == l.taskAllocations
              && n.managers[w].capacity == capacity && n.managers[w].allocations == map[]
              && forall v :: v in l.managers ==> n.managers[v] == l.managers[v]
    ensures
      var n := Apply(l, ReleaseWorker(w));
      && n.managers.Keys == l.managers.Keys
      && (w in l.managers ==> n.managers[w].allocations == map[] && n.managers[w].capacity == l.managers[w].capacity)
      && (forall v :: v in l.managers && v != w ==> n.managers[v] == l.managers[v])
      && forall t :: t in n.taskAllocations <==> t in l.taskAllocations && l.taskAllocations[t].ownerId != w
  {
    hide Used;
    if w in l.managers {
      ReleaseOwnerKeepsSound(l.managers[w], w);
      forall id | id in l.managers[w].allocations ensures l.managers[w].allocations[id].ownerId == w {
        assert Booked(l, w, l.managers[w].allocations[id]);
      }
      assert IdsOf(l.managers[w].allocations, w) == l.managers[w].allocations.Keys;
      assert l.managers[w].allocations - l.managers[w].allocations.Keys == map[];
    }
  }
}
