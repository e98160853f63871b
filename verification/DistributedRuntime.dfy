/** The resource ledger of the distributed runtime. */
module DistributedRuntime {
  import opened Sequences
  import opened SchedulerState
  import opened ResourceLedger
  import opened ResourceManager

  datatype Error = WorkerExists | NoManager | InsufficientResources

  class Runtime {
    var resourceManagers: map<Id, ResourceManager>
    var taskAllocations: map<Id, Allocation>

    constructor ()
      ensures Valid() && resourceManagers == map[] && View() == Ledger(map[], map[])
    {
      resourceManagers, taskAllocations := map[], map[];
    }

    /** No two workers share a resource manager. */
    ghost predicate Valid()
      reads this
    {
      forall v, w :: v in resourceManagers && w in resourceManagers && v != w ==>
        resourceManagers[v] != resourceManagers[w]
    }

    ghost function Managers(): set<object>
      reads this
    {
      set w | w in resourceManagers :: resourceManagers[w]
    }

    ghost function View(): Ledger
      reads this, Managers()
    {
      Ledger(map w | w in resourceManagers :: resourceManagers[w].View(), taskAllocations)
    }

    method AddWorker(workerId: Id, capacity: Resources) returns (r: Result<(), Error>)
      requires Valid()
      modifies this
      ensures Valid()
      ensures r.Failure? <==> workerId in old(resourceManagers)
      ensures View() == Apply(old(View()), ResourceLedger.AddWorker(workerId, capacity))
      ensures fresh(Managers() - old(Managers()))
    {
      if workerId in resourceManagers {
        return Failure(WorkerExists);
      }
      var manager := new ResourceManager(capacity);
      resourceManagers := resourceManagers[workerId := manager];
      r := Success(());
    }

    /** Charges a task to a worker, once. */
    method AllocateTaskResources(workerId: Id, taskId: Id, requirements: Resources,
                                 freshId: Id)
      returns (r: Result<(), Error>)
      requires Valid()
      modifies this, Managers()
      ensures Valid() && resourceManagers == old(resourceManagers)
      ensures r == if taskId in old(taskAllocations) then Success(())
                   else if workerId !in resourceManagers then Failure(NoManager)
                   else if CanAllocate(old(View()).managers[workerId], requirements) then Success(())
                   else Failure(InsufficientResources)
      ensures View() == Apply(old(View()), AllocateTask(workerId, taskId, requirements, freshId))
    {
      if taskId in taskAllocations {
        return Success(());
      }
      if workerId !in resourceManagers {
        return Failure(NoManager);
      }
      var allocation := resourceManagers[workerId].AllocateResources(workerId, taskId, requirements, freshId);
      if allocation.Failure? {
        return Failure(InsufficientResources);
      }
      taskAllocations := taskAllocations[taskId := allocation.value];
      r := Success(());
    }

    method ReleaseTaskAllocation(taskId: Id)
      requires Valid()
      modifies this, Managers()
      ensures Valid() && resourceManagers == old(resourceManagers)
      ensures View() == Apply(old(View()), ReleaseTask(taskId))
    {
      hide WithoutAllocation;
      if taskId !in taskAllocations {
        return;
      }
      var allocation := taskAllocations[taskId];
      if allocation.ownerId in resourceManagers {
        resourceManagers[allocation.ownerId].ReleaseResources(allocation.id);
      }
      taskAllocations := taskAllocations - {taskId};
    }

    /** Also what quarantining a worker does to the ledger. */
    method ReleaseWorkerResources(workerId: Id)
      requires Valid()
      modifies this, Managers()
      ensures Valid() && resourceManagers == old(resourceManagers)
      ensures View() == Apply(old(View()), ReleaseWorker(workerId))
    {
      hide WithoutOwner;
      if workerId in resourceManagers {
        resourceManagers[workerId].ReleaseOwnerResources(workerId);
      }
      DropAllocationsOf(workerId);
    }

    method DropAllocationsOf(workerId: Id)
      modifies this`taskAllocations
      ensures taskAllocations == map t | t in old(taskAllocations) && old(taskAllocations)[t].ownerId != workerId
                                   :: old(taskAllocations)[t]
    {
      var rest := taskAllocations.Keys;
      while rest != {}
        invariant rest <= old(taskAllocations).Keys
        invariant taskAllocations == map t | t in old(taskAllocations)
                                       && (t in rest || old(taskAllocations)[t].ownerId != workerId)
                                     :: old(taskAllocations)[t]
        decreases rest
      {
        var taskId :| taskId in rest;
        if taskAllocations[taskId].ownerId == workerId {
          taskAllocations := taskAllocations - {taskId};
        }
        rest := rest - {taskId};
      }
    }

    method StopRuntime()
      modifies this
      ensures Valid() && View() == Apply(old(View()), Stop)
    {
      resourceManagers, taskAllocations := map[], map[];
    }
  }
}
