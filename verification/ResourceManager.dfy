/** The resource manager of one worker. */
module ResourceManager {
  import opened Sequences
  import opened SchedulerState
  import opened ResourceLedger

  class ResourceManager {
    const capacity: Resources
    var allocations: map<Id, Allocation>
    var idsByOwner: map<Id, set<Id>>

    constructor (capacity: Resources)
      ensures View() == NewManager(capacity)
    {
      this.capacity, allocations, idsByOwner := capacity, map[], map[];
    }

    function View(): Manager
      reads this
    {
      Manager(capacity, allocations, idsByOwner)
    }

    method GetUsedResources() returns (used: Resources)
      ensures used == Used(allocations)
    {
      used := NO_RESOURCES;
      NothingUsed();
      assert allocations - allocations.Keys == map[];
      var rest := allocations.Keys;
      while rest != {}
        invariant rest <= allocations.Keys
        invariant used == Used(allocations - rest)
        decreases rest
      {
        var id :| id in rest;
        used := used.Plus(allocations[id].requirements);
        UsedRemove(allocations - (rest - {id}), id);
        assert allocations - (rest - {id}) - {id} == allocations - rest;
        rest := rest - {id};
      }
      assert allocations - rest == allocations;
    }

    method GetAvailableResources() returns (available: Resources)
      ensures available == Available(View())
    {
      var used := GetUsedResources();
      available := capacity.Minus(used);
    }

    method CanAllocateResources(requested: Resources) returns (r: bool)
      ensures r <==> CanAllocate(View(), requested)
      ensures Used(allocations).AtMost(capacity) ==>
                (r <==> && Used(allocations).cpu + requested.cpu <= capacity.cpu
                        && Used(allocations).memory + requested.memory <= capacity.memory
                        && Used(allocations).disk + requested.disk <= capacity.disk)
    {
      var available := GetAvailableResources();
      r := requested.AtMost(available);
    }

    /** `freshId` is the fresh random id; fails when not enough is available. */
    method AllocateResources(ownerId: Id, taskId: Id, requirements: Resources,
                             freshId: Id)
      returns (r: Result<Allocation, ()>)
      modifies this
      ensures r.Success? <==> CanAllocate(old(View()), requirements)
      ensures r.Success? ==>
                && r.value == Allocation(freshId, ownerId, taskId, requirements)
                && View() == WithAllocation(old(View()), r.value)
      ensures r.Failure? ==> View() == old(View())
    {
      var can := CanAllocateResources(requirements);
      if !can {
        return Failure(());
      }
      var allocation := Allocation(freshId, ownerId, taskId, requirements);
      allocations := allocations[allocation.id := allocation];
      var ownerAllocations := if ownerId in idsByOwner then idsByOwner[ownerId] else {};
      ownerAllocations := ownerAllocations + {allocation.id};
      idsByOwner := idsByOwner[ownerId := ownerAllocations];
      r := Success(allocation);
    }

    method ReleaseResources(allocationId: Id)
      modifies this
      ensures View() == WithoutAllocation(old(View()), allocationId)
    {
      if allocationId !in allocations {
        return;
      }
      var allocation := allocations[allocationId];
      allocations := allocations - {allocationId};
      if allocation.ownerId !in idsByOwner {
        return;
      }
      var ownerAllocations := idsByOwner[allocation.ownerId] - {allocationId};
      if ownerAllocations == {} {
        idsByOwner := idsByOwner - {allocation.ownerId};
      } else {
        idsByOwner := idsByOwner[allocation.ownerId := ownerAllocations];
      }
    }

    method ReleaseOwnerResources(ownerId: Id)
      modifies this
      ensures View() == WithoutOwner(old(View()), ownerId)
    {
      if ownerId !in idsByOwner {
        return;
      }
      var allocationIds := idsByOwner[ownerId];
      var rest := allocationIds;
      while rest != {}
        invariant rest <= allocationIds
        invariant allocations == old(allocations) - (allocationIds - rest)
        invariant idsByOwner == old(idsByOwner)
        decreases rest
      {
        var id :| id in rest;
        allocations := allocations - {id};
        rest := rest - {id};
      }
      assert allocationIds - rest == allocationIds;
      idsByOwner := idsByOwner - {ownerId};
    }
  }

  lemma NothingUsed()
    ensures Used(map[]) == NO_RESOURCES
  {
    assert CpuOf(map[]) == map[] && MemoryOf(map[]) == map[] && DiskOf(map[]) == map[];
  }
}
