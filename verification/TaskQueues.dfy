/** The order of the task queue: a stable sort by priority, then by time of creation. */
module TaskQueues {
  import opened Sequences

  type Id = string

  datatype Priority = Critical | High | Normal | Low

  datatype Key = Key(rank: int, createdAt: int)

  function Rank(p: Priority): int {
    match p
    case Critical => 0
    case High => 1
    case Normal => 2
    case Low => 3
  }

  predicate NotAfter(a: Key, b: Key) {
    a.rank < b.rank || (a.rank == b.rank && a.createdAt <= b.createdAt)
  }

  /** The key of a task; ids that name none sort first. */
  function KeyOf(keys: map<Id, Key>, id: Id): Key {
    if id in keys then keys[id] else Key(-1, 0)
  }

  /** Puts `id` after everything that does not come after it. */
  function InsertSorted(keys: map<Id, Key>, sorted: seq<Id>, id: Id): seq<Id> {
    if sorted == [] || NotAfter(KeyOf(keys, sorted[|sorted| - 1]), KeyOf(keys, id)) then sorted + [id]
    else InsertSorted(keys, sorted[..|sorted| - 1], id) + [sorted[|sorted| - 1]]
  }

  /** A stable sort, as `Array.prototype.sort` is. */
  function SortQueue(keys: map<Id, Key>, queue: seq<Id>): seq<Id> {
    if queue == [] then []
    else InsertSorted(keys, SortQueue(keys, queue[..|queue| - 1]), queue[|queue| - 1])
  }

  ghost predicate Ordered(keys: map<Id, Key>, queue: seq<Id>) {
    forall i, j :: 0 <= i < j < |queue| ==> NotAfter(KeyOf(keys, queue[i]), KeyOf(keys, queue[j]))
  }

  /** The entries of one key, in queue order. */
  ghost function WithKey(keys: map<Id, Key>, queue: seq<Id>, key: Key): seq<Id> {
    if queue == [] then []
    else
      WithKey(keys, queue[..|queue| - 1], key)
      + if KeyOf(keys, queue[|queue| - 1]) == key then [queue[|queue| - 1]] else []
  }

  lemma {:induction false} InsertIsOrdered(keys: map<Id, Key>, sorted: seq<Id>, id: Id)
    requires Ordered(keys, sorted)
    ensures Ordered(keys, InsertSorted(keys, sorted, id))
    ensures forall x :: x in InsertSorted(keys, sorted, id) <==> x in sorted || x == id
    ensures |InsertSorted(keys, sorted, id)| == |sorted| + 1
  {
    if !(sorted == [] || NotAfter(KeyOf(keys, sorted[|sorted| - 1]), KeyOf(keys, id))) {
      var front, last := sorted[..|sorted| - 1], sorted[|sorted| - 1];
      InsertIsOrdered(keys, front, id);
      assert sorted == front + [last];
      var inserted := InsertSorted(keys, front, id);
      forall i | 0 <= i < |inserted| ensures NotAfter(KeyOf(keys, inserted[i]), KeyOf(keys, last)) {
        assert inserted[i] in inserted;
        assert inserted[i] in front || inserted[i] == id;
      }
    }
  }

  lemma {:induction false} InsertIsStable(keys: map<Id, Key>, sorted: seq<Id>, id: Id, key: Key)
    requires Ordered(keys, sorted)
    ensures WithKey(keys, InsertSorted(keys, sorted, id), key) == WithKey(keys, sorted + [id], key)
  {
    assert (sorted + [id])[..|sorted|] == sorted;
    if !(sorted == [] || NotAfter(KeyOf(keys, sorted[|sorted| - 1]), KeyOf(keys, id))) {
      var front, last := sorted[..|sorted| - 1], sorted[|sorted| - 1];
      InsertIsStable(keys, front, id, key);
      assert (front + [id])[..|front|] == front;
      var inserted := InsertSorted(keys, front, id);
      assert (inserted + [last])[..|inserted|] == inserted;
    }
  }

  /** Sorting orders the queue, keeps its entries, and keeps those of one key in their order. */
  lemma {:induction false} SortQueueSorts(keys: map<Id, Key>, queue: seq<Id>)
    ensures Ordered(keys, SortQueue(keys, queue))
    ensures |SortQueue(keys, queue)| == |queue|
    ensures forall x :: x in SortQueue(keys, queue) <==> x in queue
    ensures forall key :: WithKey(keys, SortQueue(keys, queue), key) == WithKey(keys, queue, key)
  {
    if queue != [] {
      var front, last := queue[..|queue| - 1], queue[|queue| - 1];
      assert queue == front + [last];
      SortQueueSorts(keys, front);
      var sorted := SortQueue(keys, front);
      InsertIsOrdered(keys, sorted, last);
      forall key ensures WithKey(keys, SortQueue(keys, queue), key) == WithKey(keys, queue, key) {
        InsertIsStable(keys, sorted, last, key);
        assert (sorted + [last])[..|sorted|] == sorted;
      }
    }
  }

  lemma SortQueueDistinct(keys: map<Id, Key>, queue: seq<Id>)
    requires Distinct(queue)
    ensures Distinct(SortQueue(keys, queue))
  {
    SortQueueSorts(keys, queue);
    var sorted := SortQueue(keys, queue);
    DistinctLength(queue);
    assert Elements(sorted) == Elements(queue);
    CountDistinct(sorted);
  }

  lemma {:induction false} InsertPermutes(keys: map<Id, Key>, sorted: seq<Id>, id: Id)
    ensures multiset(InsertSorted(keys, sorted, id)) == multiset(sorted) + multiset{id}
  {
    if !(sorted == [] || NotAfter(KeyOf(keys, sorted[|sorted| - 1]), KeyOf(keys, id))) {
      assert sorted == sorted[..|sorted| - 1] + [sorted[|sorted| - 1]];
      InsertPermutes(keys, sorted[..|sorted| - 1], id);
    }
  }

  lemma {:induction false} SortQueuePermutes(keys: map<Id, Key>, queue: seq<Id>)
    ensures multiset(SortQueue(keys, queue)) == multiset(queue)
  {
    if queue != [] {
      assert queue == queue[..|queue| - 1] + [queue[|queue| - 1]];
      SortQueuePermutes(keys, queue[..|queue| - 1]);
      InsertPermutes(keys, SortQueue(keys, queue[..|queue| - 1]), queue[|queue| - 1]);
    }
  }
}
