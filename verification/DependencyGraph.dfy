/** Slice dependency graphs: building, topological order, cycles, upstream and downstream slices. */
module DependencyGraph {
  import opened Sequences
  import opened Walks

  /** A lifecycle state, by name. */
  type State = string

  datatype Dependency = Dependency(sliceId: Id, kind: string, requiredState: State, optional: bool)

  datatype Node = Node(state: State, dependencies: seq<Dependency>)

  datatype Edge = Edge(from: Id, to: Id, kind: string, requiredState: State, optional: bool)

  /** `order` lists the keys of `nodes` as the JavaScript map iterates over them. */
  datatype Graph = Graph(
    nodes: map<Id, Node>, order: seq<Id>, edges: seq<Edge>, reverseEdges: map<Id, seq<Edge>>)

  datatype SliceRecord = SliceRecord(id: Id, node: Node)

  // ----- the relations the algorithms work on -----

  function Targets(dependencies: seq<Dependency>): (r: seq<Id>)
    ensures |r| == |dependencies|
    ensures forall k :: 0 <= k < |r| ==> r[k] == dependencies[k].sliceId
  {
    seq(|dependencies|, k requires 0 <= k < |dependencies| => dependencies[k].sliceId)
  }

  function Sources(edges: seq<Edge>): (r: seq<Id>)
    ensures |r| == |edges|
    ensures forall k :: 0 <= k < |r| ==> r[k] == edges[k].from
  {
    seq(|edges|, k requires 0 <= k < |edges| => edges[k].from)
  }

  function RequiredOf(dependencies: seq<Dependency>): (r: seq<Dependency>)
    ensures forall d :: d in r <==> d in dependencies && !d.optional
  {
    if dependencies == [] then []
    else (if dependencies[0].optional then [] else [dependencies[0]]) + RequiredOf(dependencies[1..])
  }

  /** Every dependency, optional ones included. */
  function AllEdges(graph: Graph): Adjacency {
    map u | u in graph.nodes :: Targets(graph.nodes[u].dependencies)
  }

  /** The non-optional dependencies. */
  function RequiredEdges(graph: Graph): Adjacency {
    map u | u in graph.nodes :: Targets(RequiredOf(graph.nodes[u].dependencies))
  }

  /** From a slice to the slices that depend on it. */
  function ReverseEdges(graph: Graph): Adjacency {
    map u | u in graph.reverseEdges :: Sources(graph.reverseEdges[u])
  }

  ghost predicate WellFormed(graph: Graph) {
    Distinct(graph.order) && Elements(graph.order) == graph.nodes.Keys
  }

  /** What the edge half of `build` establishes. */
  ghost predicate EdgesMatchNodes(graph: Graph) {
    && graph.edges == EdgesOf(graph.nodes, graph.order)
    && Grouped(graph.edges, graph.reverseEdges)
  }

  /** `reverseEdges` lists the edges by target, in order, and has no empty list. */
  ghost predicate Grouped(edges: seq<Edge>, reverseEdges: map<Id, seq<Edge>>) {
    && (forall v :: v in reverseEdges <==> EdgesTo(edges, v) != [])
    && (forall v :: v in reverseEdges ==> reverseEdges[v] == EdgesTo(edges, v))
  }

  function EdgeOf(from: Id, d: Dependency): Edge {
    Edge(from, d.sliceId, d.kind, d.requiredState, d.optional)
  }

  function NodeEdges(from: Id, dependencies: seq<Dependency>): (r: seq<Edge>)
    ensures |r| == |dependencies|
    ensures forall k :: 0 <= k < |r| ==> r[k] == EdgeOf(from, dependencies[k])
  {
    seq(|dependencies|, k requires 0 <= k < |dependencies| => EdgeOf(from, dependencies[k]))
  }

  /** All edges, node by node in map order. */
  ghost function EdgesOf(nodes: map<Id, Node>, order: seq<Id>): seq<Edge> {
    if order == [] then []
    else
      var last := order[|order| - 1];
      EdgesOf(nodes, order[..|order| - 1])
      + if last in nodes then NodeEdges(last, nodes[last].dependencies) else []
  }

  /** The edges into `v`, in order. */
  ghost function EdgesTo(edges: seq<Edge>, v: Id): seq<Edge> {
    if edges == [] then []
    else EdgesTo(edges[..|edges| - 1], v) + if edges[|edges| - 1].to == v then [edges[|edges| - 1]] else []
  }

  lemma {:induction false} InEdgesTo(edges: seq<Edge>, v: Id, e: Edge)
    ensures e in EdgesTo(edges, v) <==> e in edges && e.to == v
  {
    if edges != [] {
      assert edges == edges[..|edges| - 1] + [edges[|edges| - 1]];
      InEdgesTo(edges[..|edges| - 1], v, e);
    }
  }

  lemma {:induction false} InEdgesOf(nodes: map<Id, Node>, order: seq<Id>, e: Edge)
    ensures e in EdgesOf(nodes, order) <==>
            e.from in order && e.from in nodes &&
            exists k :: 0 <= k < |nodes[e.from].dependencies| && e == EdgeOf(e.from, nodes[e.from].dependencies[k])
  {
    if order != [] {
      assert order == order[..|order| - 1] + [order[|order| - 1]];
      InEdgesOf(nodes, order[..|order| - 1], e);
    }
  }

  /** The edges are the dependencies: from the slice to the one it depends on, with everything stated there. */
  lemma EdgesStateDependencies(graph: Graph, e: Edge)
    requires WellFormed(graph) && EdgesMatchNodes(graph)
    ensures e in graph.edges <==>
            e.from in graph.nodes &&
            exists d :: d in graph.nodes[e.from].dependencies && d.sliceId == e.to && d.kind == e.kind &&
                        d.requiredState == e.requiredState && d.optional == e.optional
  {
    InEdgesOf(graph.nodes, graph.order, e);
    assert e.from in graph.order <==> e.from in Elements(graph.order);
    if e.from in graph.nodes {
      var dependencies := graph.nodes[e.from].dependencies;
      if d :| d in dependencies && d.sliceId == e.to && d.kind == e.kind &&
              d.requiredState == e.requiredState && d.optional == e.optional {
        var k :| 0 <= k < |dependencies| && dependencies[k] == d;
        assert e == EdgeOf(e.from, dependencies[k]);
      }
    }
  }

  /** The reverse map `build` makes is the reversal of the dependencies. */
  lemma ReverseEdgesReverse(graph: Graph)
    requires WellFormed(graph) && EdgesMatchNodes(graph)
    ensures Reversed(AllEdges(graph), ReverseEdges(graph))
  {
    hide AllEdges, ReverseEdges, Next, WellFormed, EdgesMatchNodes;
    forall u, v ensures v in Next(AllEdges(graph), u) <==> u in Next(ReverseEdges(graph), v) {
      if v in Next(AllEdges(graph), u) {
        DependencyIsReversed(graph, u, v);
      }
      if u in Next(ReverseEdges(graph), v) {
        ReverseIsDependency(graph, u, v);
      }
    }
  }

  lemma DependencyIsReversed(graph: Graph, u: Id, v: Id)
    requires WellFormed(graph) && EdgesMatchNodes(graph) && v in Next(AllEdges(graph), u)
    ensures u in Next(ReverseEdges(graph), v)
  {
    var k :| 0 <= k < |graph.nodes[u].dependencies| && graph.nodes[u].dependencies[k].sliceId == v;
    var e := EdgeOf(u, graph.nodes[u].dependencies[k]);
    assert u in Elements(graph.order);
    InEdgesOf(graph.nodes, graph.order, e);
    InEdgesTo(graph.edges, v, e);
    var i :| 0 <= i < |graph.reverseEdges[v]| && graph.reverseEdges[v][i] == e;
    assert Sources(graph.reverseEdges[v])[i] == u;
  }

  lemma ReverseIsDependency(graph: Graph, u: Id, v: Id)
    requires EdgesMatchNodes(graph) && u in Next(ReverseEdges(graph), v)
    ensures v in Next(AllEdges(graph), u)
  {
    var i :| 0 <= i < |graph.reverseEdges[v]| && graph.reverseEdges[v][i].from == u;
    var e := graph.reverseEdges[v][i];
    InEdgesTo(graph.edges, v, e);
    InEdgesOf(graph.nodes, graph.order, e);
    var k :| 0 <= k < |graph.nodes[u].dependencies| && e == EdgeOf(u, graph.nodes[u].dependencies[k]);
    assert Targets(graph.nodes[u].dependencies)[k] == v;
  }

  /** y is upstream of x exactly when x is downstream of y. */
  lemma UpstreamDownstreamDual(graph: Graph, x: Id, y: Id)
    requires WellFormed(graph) && EdgesMatchNodes(graph)
    ensures Reaches(AllEdges(graph), x, y) <==> Reaches(ReverseEdges(graph), y, x)
  {
    ReverseEdgesReverse(graph);
    ReachesReversed(AllEdges(graph), ReverseEdges(graph), x, y);
  }

  // ----- depth-first searches -----

  /**
   * What `topologicalOrder` keeps: `path` holds the slices whose visits are under way, outermost
   * first, and `stack` the finished ones.
   */
  ghost predicate SortState(a: Adjacency, path: seq<Id>, visiting: set<Id>, visited: set<Id>, stack: seq<Id>) {
    && visiting == Elements(path)
    && visited == Elements(stack)
    && visited !! visiting
    && visited + visiting <= Universe(a)
    && IsWalk(a, path) && Distinct(path)
    && FinishOrder(a, stack)
  }

  lemma EnterSlice(a: Adjacency, path: seq<Id>, visiting: set<Id>, visited: set<Id>, stack: seq<Id>, id: Id)
    requires SortState(a, path, visiting, visited, stack)
    requires id in Universe(a) && id !in visited && id !in visiting
    requires path != [] ==> id in Next(a, path[|path| - 1])
    ensures SortState(a, path + [id], visiting + {id}, visited, stack)
  {
  }

  lemma LeaveSlice(a: Adjacency, path: seq<Id>, visiting: set<Id>, visited: set<Id>, stack: seq<Id>, id: Id)
    requires SortState(a, path + [id], visiting, visited, stack)
    requires forall w :: w in Next(a, id) ==> w in visited
    ensures SortState(a, path, visiting - {id}, visited + {id}, stack + [id])
  {
    var inner := path + [id];
    assert inner[|path|] == id && id in visiting;
    assert forall k :: 0 <= k < |path| ==> path[k] == inner[k];
    FinishOrderSnoc(a, stack, id);
  }

  lemma BackEdgeSort(a: Adjacency, path: seq<Id>, visiting: set<Id>, visited: set<Id>, stack: seq<Id>, id: Id)
    requires SortState(a, path, visiting, visited, stack) && id in visiting
    requires path != [] ==> id in Next(a, path[|path| - 1])
    ensures Reaches(a, id, id)
  {
    ClosedWalk(a, path, id);
  }

  /** The state of `topologicalOrder`. */
  class TopologicalSort {
    const graph: Graph
    ghost const edges: Adjacency
    var visited: set<Id>
    var visiting: set<Id>
    var stack: seq<Id>

    constructor (graph: Graph)
      ensures this.graph == graph && edges == RequiredEdges(graph)
      ensures visited == {} && visiting == {} && stack == []
    {
      this.graph, visited, visiting, stack := graph, {}, {}, [];
      edges := RequiredEdges(graph);
    }

    ghost predicate Inv(path: seq<Id>)
      reads this
    {
      SortState(edges, path, visiting, visited, stack)
    }

    method Visit(sliceId: Id, ghost path: seq<Id>) returns (r: Result<(), Id>)
      requires edges == RequiredEdges(graph)
      requires Inv(path) && sliceId in Universe(edges)
      requires path != [] ==> sliceId in Next(edges, path[|path| - 1])
      modifies this
      ensures r.Success? ==> Inv(path) && visiting == old(visiting)
      ensures r.Success? ==> sliceId in visited && old(visited) <= visited
      ensures r.Failure? ==> Reaches(edges, r.error, r.error)
      decreases Universe(edges) - visiting
    {
      hide SortState, RequiredEdges, Reaches;
      if sliceId in visited {
        return Success(());
      }
      if sliceId in visiting {
        BackEdgeSort(edges, path, visiting, visited, stack, sliceId);
        return Failure(sliceId);
      }
      EnterSlice(edges, path, visiting, visited, stack, sliceId);
      visiting := visiting + {sliceId};
      ghost var inner := path + [sliceId];
      if sliceId in graph.nodes {
        var dependencies := graph.nodes[sliceId].dependencies;
        for k := 0 to |dependencies|
          invariant Inv(inner) && old(visited) <= visited && visiting == old(visiting) + {sliceId}
          invariant forall i :: 0 <= i < k && !dependencies[i].optional ==> dependencies[i].sliceId in visited
        {
          if !dependencies[k].optional {
            RequiredDependency(graph, sliceId, k);
            assert inner[|inner| - 1] == sliceId;
            var v := Visit(dependencies[k].sliceId, inner);
            if v.Failure? {
              return Failure(v.error);
            }
          }
        }
      }
      RequiredDependencies(graph, sliceId, visited);
      LeaveSlice(edges, path, visiting, visited, stack, sliceId);
      visiting := visiting - {sliceId};
      visited := visited + {sliceId};
      stack := stack + [sliceId];
      assert visiting == old(visiting);
      r := Success(());
    }
  }

  lemma RequiredDependency(graph: Graph, u: Id, k: nat)
    requires u in graph.nodes && k < |graph.nodes[u].dependencies| && !graph.nodes[u].dependencies[k].optional
    ensures graph.nodes[u].dependencies[k].sliceId in Next(RequiredEdges(graph), u)
    ensures graph.nodes[u].dependencies[k].sliceId in Universe(RequiredEdges(graph))
  {
    var required := RequiredOf(graph.nodes[u].dependencies);
    var i :| 0 <= i < |required| && required[i] == graph.nodes[u].dependencies[k];
    assert Targets(required)[i] == graph.nodes[u].dependencies[k].sliceId;
  }

  lemma RequiredDependencies(graph: Graph, u: Id, s: set<Id>)
    requires u in graph.nodes ==>
               forall i :: 0 <= i < |graph.nodes[u].dependencies| && !graph.nodes[u].dependencies[i].optional
                 ==> graph.nodes[u].dependencies[i].sliceId in s
    ensures forall w :: w in Next(RequiredEdges(graph), u) ==> w in s
  {
    forall w | w in Next(RequiredEdges(graph), u) ensures w in s {
      var required := RequiredOf(graph.nodes[u].dependencies);
      var i :| 0 <= i < |required| && required[i].sliceId == w;
      assert required[i] in graph.nodes[u].dependencies;
    }
  }

  /**
   * Throws exactly when the non-optional dependencies contain a cycle, and names a slice on one. Otherwise the result lists
   * every slice and every missing required id once, each after all its non-optional dependencies.
   */
  method TopologicalOrder(graph: Graph) returns (r: Result<seq<Id>, Id>)
    requires WellFormed(graph)
    ensures r.Failure? <==> !Acyclic(RequiredEdges(graph))
    ensures r.Failure? ==> Reaches(RequiredEdges(graph), r.error, r.error)
    ensures r.Success? ==>
              && FinishOrder(RequiredEdges(graph), r.value)
              && Elements(r.value) == Universe(RequiredEdges(graph))
  {
    hide SortState, RequiredEdges, WellFormed, Reaches, FinishOrder, Universe;
    var sort := new TopologicalSort(graph);
    SortStart(sort.edges);
    for k := 0 to |graph.order|
      invariant fresh(sort) && sort.graph == graph && sort.edges == RequiredEdges(graph)
      invariant sort.Inv([])
      invariant forall i :: 0 <= i < k ==> graph.order[i] in sort.visited
    {
      ListedInUniverse(graph, k);
      var v := sort.Visit(graph.order[k], []);
      if v.Failure? {
        return Failure(v.error);
      }
    }
    SortDone(graph, sort.visiting, sort.visited, sort.stack);
    r := Success(sort.stack);
  }

  lemma SortStart(a: Adjacency)
    ensures SortState(a, [], {}, {}, [])
  {
  }

  lemma ListedInUniverse(graph: Graph, k: nat)
    requires WellFormed(graph) && k < |graph.order|
    ensures graph.order[k] in Universe(RequiredEdges(graph)) && graph.order[k] in Universe(AllEdges(graph))
  {
    assert graph.order[k] in Elements(graph.order);
  }

  lemma SortDone(graph: Graph, visiting: set<Id>, visited: set<Id>, stack: seq<Id>)
    requires WellFormed(graph) && SortState(RequiredEdges(graph), [], visiting, visited, stack)
    requires forall i :: 0 <= i < |graph.order| ==> graph.order[i] in visited
    ensures Acyclic(RequiredEdges(graph)) && FinishOrder(RequiredEdges(graph), stack)
    ensures Elements(stack) == Universe(RequiredEdges(graph))
  {
    AllFinished(graph, RequiredEdges(graph), stack);
  }

  lemma AllFinished(graph: Graph, a: Adjacency, order: seq<Id>)
    requires WellFormed(graph) && a.Keys == graph.nodes.Keys && FinishOrder(a, order)
    requires forall i :: 0 <= i < |graph.order| ==> graph.order[i] in order
    ensures Acyclic(a) && Universe(a) <= Elements(order)
  {
    assert a.Keys <= Elements(order) by {
      assert graph.nodes.Keys == Elements(graph.order);
    }
    FinishOrderAcyclic(a, order);
    forall u, v | u in a && v in a[u] ensures v in order {
      var k :| 0 <= k < |order| && order[k] == u;
      assert v in Next(a, order[k]);
    }
  }

  // ----- cycles -----

  /** Some list ends with the edge from `u` to `v`. */
  ghost predicate Closes(cycles: seq<seq<Id>>, u: Id, v: Id) {
    exists k :: 0 <= k < |cycles| && EndsWith(cycles[k], u, v)
  }

  ghost predicate EndsWith(c: seq<Id>, u: Id, v: Id) {
    2 <= |c| && c[|c| - 2] == u && c[|c| - 1] == v
  }

  ghost function NotClosed(targets: seq<Id>, u: Id, cycles: seq<seq<Id>>): (r: seq<Id>)
    ensures forall v :: v in r <==> v in targets && !Closes(cycles, u, v)
  {
    if targets == [] then []
    else (if Closes(cycles, u, targets[0]) then [] else [targets[0]]) + NotClosed(targets[1..], u, cycles)
  }

  /** The graph without the closing edges of the lists. */
  ghost function Opened(a: Adjacency, cycles: seq<seq<Id>>): (r: Adjacency)
    ensures r.Keys == a.Keys
    ensures forall u, v :: v in Next(r, u) <==> v in Next(a, u) && !Closes(cycles, u, v)
  {
    map u | u in a :: NotClosed(a[u], u, cycles)
  }

  /** No slice lists a dependency twice. */
  ghost predicate ListsOnce(a: Adjacency) {
    forall u :: Distinct(Next(a, u))
  }

  /** No two lists close with the same edge. */
  ghost predicate ClosedOnce(cycles: seq<seq<Id>>) {
    forall k, l, u, v :: 0 <= k < l < |cycles| && EndsWith(cycles[k], u, v) ==> !EndsWith(cycles[l], u, v)
  }

  /** The edge from `u` to `v` runs back along the path, or to a slice that is left after `u`. */
  ghost predicate RunsBack(path: seq<Id>, finished: seq<Id>, u: Id, v: Id) {
    || (exists i, j :: 0 <= i <= j < |path| && path[j] == u && path[i] == v)
    || (exists j :: 0 <= j < |finished| && finished[j] == u && v !in finished[..j])
  }

  ghost predicate AllRunBack(path: seq<Id>, finished: seq<Id>, cycles: seq<seq<Id>>) {
    forall u, v :: Closes(cycles, u, v) ==> RunsBack(path, finished, u, v)
  }

  /** What `findCycles` keeps. `finished` holds the slices left, oldest first. */
  ghost predicate CycleState(a: Adjacency, path: seq<Id>, visiting: set<Id>, visited: set<Id>,
                             finished: seq<Id>, cycles: seq<seq<Id>>) {
    && visiting == Elements(path)
    && visited == Elements(finished)
    && visited !! visiting
    && visited + visiting <= Universe(a)
    && IsWalk(a, path) && Distinct(path)
    && (forall k :: 0 <= k < |cycles| ==> IsCycle(a, cycles[k]))
    && FinishOrder(Opened(a, cycles), finished)
    && AllRunBack(path, finished, cycles)
  }

  lemma EnterPath(a: Adjacency, path: seq<Id>, visiting: set<Id>, visited: set<Id>,
                  finished: seq<Id>, cycles: seq<seq<Id>>, id: Id)
    requires CycleState(a, path, visiting, visited, finished, cycles)
    requires id in Universe(a) && id !in visited && id !in visiting
    requires path != [] ==> id in Next(a, path[|path| - 1])
    ensures CycleState(a, path + [id], visiting + {id}, visited, finished, cycles)
    ensures forall v :: !Closes(cycles, id, v)
  {
    hide FinishOrder, IsCycle, Universe, Closes;
    var inner := path + [id];
    forall u, v | Closes(cycles, u, v) ensures RunsBack(inner, finished, u, v) && u != id {
      assert RunsBack(path, finished, u, v);
      if i, j :| 0 <= i <= j < |path| && path[j] == u && path[i] == v {
        assert inner[j] == u && inner[i] == v;
        assert u in Elements(path);
      } else {
        assert u in Elements(finished);
      }
    }
  }

  /** What ran back along the path when its end was `id` still does when `id` is left. */
  lemma StillRunsBack(path: seq<Id>, finished: seq<Id>, id: Id, u: Id, v: Id)
    requires RunsBack(path + [id], finished, u, v)
    requires forall x :: x in path + [id] ==> x !in finished
    ensures RunsBack(path, finished + [id], u, v)
  {
    var inner, longer := path + [id], finished + [id];
    if i, j :| 0 <= i <= j < |inner| && inner[j] == u && inner[i] == v {
      assert v in inner;
      if j < |path| {
        assert path[j] == u && path[i] == v;
      } else {
        assert longer[|finished|] == u && longer[..|finished|] == finished;
      }
    } else {
      var j :| 0 <= j < |finished| && finished[j] == u && v !in finished[..j];
      assert longer[j] == u && longer[..j] == finished[..j];
    }
  }

  lemma LeavePath(a: Adjacency, path: seq<Id>, visiting: set<Id>, visited: set<Id>,
                  finished: seq<Id>, cycles: seq<seq<Id>>, id: Id)
    requires CycleState(a, path + [id], visiting, visited, finished, cycles)
    requires forall w :: w in Next(a, id) ==> w in visited || Closes(cycles, id, w)
    ensures CycleState(a, path, visiting - {id}, visited + {id}, finished + [id], cycles)
  {
    hide IsCycle, Universe, Closes, RunsBack;
    var inner := path + [id];
    assert inner[|path|] == id;
    assert forall k :: 0 <= k < |path| ==> path[k] == inner[k];
    assert forall x :: x in inner ==> x in Elements(inner);
    assert forall x :: x in finished ==> x in Elements(finished);
    FinishOrderSnoc(Opened(a, cycles), finished, id);
    forall u, v | Closes(cycles, u, v) ensures RunsBack(path, finished + [id], u, v) {
      StillRunsBack(path, finished, id, u, v);
    }
  }

  lemma OneMoreCloses(cycles: seq<seq<Id>>, c: seq<Id>, x: Id, y: Id)
    requires EndsWith(c, x, y)
    ensures forall u, v :: Closes(cycles + [c], u, v) <==> Closes(cycles, u, v) || (u == x && v == y)
    ensures !Closes(cycles, x, y) && ClosedOnce(cycles) ==> ClosedOnce(cycles + [c])
  {
    var more := cycles + [c];
    assert more[|cycles|] == c;
    forall u, v | Closes(cycles, u, v) ensures Closes(more, u, v) {
      var k :| 0 <= k < |cycles| && EndsWith(cycles[k], u, v);
      assert more[k] == cycles[k];
    }
    if !Closes(cycles, x, y) && ClosedOnce(cycles) {
      forall k, l, u, v | 0 <= k < l < |more| && EndsWith(more[k], u, v) ensures !EndsWith(more[l], u, v) {
        assert more[k] == cycles[k];
      }
    }
  }

  /** Without more edges a finish order stays one. */
  lemma FewerEdges(a: Adjacency, b: Adjacency, order: seq<Id>)
    requires FinishOrder(a, order) && forall u, v :: v in Next(b, u) ==> v in Next(a, u)
    ensures FinishOrder(b, order)
  {
  }

  lemma RecordCycle(a: Adjacency, path: seq<Id>, visiting: set<Id>, visited: set<Id>,
                    finished: seq<Id>, cycles: seq<seq<Id>>, id: Id)
    requires CycleState(a, path, visiting, visited, finished, cycles) && id in visiting
    requires path != [] ==> id in Next(a, path[|path| - 1])
    ensures path != [] && 0 <= IndexOf(path, id)
    ensures
      var c := path[IndexOf(path, id)..] + [id];
      && EndsWith(c, path[|path| - 1], id)
      && CycleState(a, path, visiting, visited, finished, cycles + [c])
  {
    hide Universe, Closes, FinishOrder, IsCycle, RunsBack, IsWalk;
    assert id in path;
    var at, end := IndexOf(path, id), path[|path| - 1];
    var c := path[at..] + [id];
    BackEdgeCycle(a, path, at, id);
    OneMoreCloses(cycles, c, end, id);
    FewerEdges(Opened(a, cycles), Opened(a, cycles + [c]), finished);
    RunsBackAlong(path, finished, at);
  }

  lemma RunsBackAlong(path: seq<Id>, finished: seq<Id>, at: nat)
    requires at < |path|
    ensures RunsBack(path, finished, path[|path| - 1], path[at])
  {
  }

  /** The state of `findCycles`. */
  class CycleFinder {
    const graph: Graph
    ghost const edges: Adjacency
    var cycles: seq<seq<Id>>
    var visited: set<Id>
    var visiting: set<Id>
    var path: seq<Id>
    ghost var finished: seq<Id>

    constructor (graph: Graph)
      ensures this.graph == graph && edges == AllEdges(graph)
      ensures cycles == [] && visited == {} && visiting == {} && path == [] && finished == []
    {
      this.graph, cycles, visited, visiting, path, finished := graph, [], {}, {}, [], [];
      edges := AllEdges(graph);
    }

    ghost predicate Inv()
      reads this
    {
      CycleState(edges, path, visiting, visited, finished, cycles)
    }

    /** The edge along which `sliceId` is visited closes a recorded list. */
    ghost predicate ClosesHere(sliceId: Id)
      reads this
    {
      path != [] && Closes(cycles, path[|path| - 1], sliceId)
    }

    method Visit(sliceId: Id)
      requires edges == AllEdges(graph)
      requires Inv() && sliceId in Universe(edges)
      requires path != [] ==> sliceId in Next(edges, path[|path| - 1])
      modifies this
      ensures Inv() && path == old(path) && visiting == old(visiting)
      ensures old(cycles) <= cycles && old(visited) <= visited
      ensures sliceId in visited || ClosesHere(sliceId)
      ensures NewClosings(old(cycles), cycles, path, sliceId, old(visited) + visiting)
      ensures ListsOnce(edges) && ClosedOnce(old(cycles)) && !old(ClosesHere(sliceId)) ==> ClosedOnce(cycles)
      decreases Universe(edges) - visiting
    {
      hide CycleState, AllEdges, IsCycle, Closes, ClosedOnce, EndsWith, NewClosings, ClosedSoFar, Universe;
      if sliceId in visited {
        NothingNew(cycles, path, sliceId, visited + visiting);
        return;
      }
      if sliceId in visiting {
        var cycleStart := IndexOf(path, sliceId);
        RecordCycle(edges, path, visiting, visited, finished, cycles, sliceId);
        OneMoreCloses(cycles, path[cycleStart..] + [sliceId], path[|path| - 1], sliceId);
        OneNew(cycles, path[cycleStart..] + [sliceId], path, sliceId, visited + visiting);
        cycles := cycles + [path[cycleStart..] + [sliceId]];
        return;
      }
      EnterPath(edges, path, visiting, visited, finished, cycles, sliceId);
      visiting := visiting + {sliceId};
      path := path + [sliceId];
      ghost var targets := Next(edges, sliceId);
      NoneNew(cycles, sliceId, targets, old(visited) + old(visiting));
      if sliceId in graph.nodes {
        var dependencies := graph.nodes[sliceId].dependencies;
        AsManyTargets(graph, sliceId);
        for k := 0 to |dependencies|
          invariant Inv() && path == old(path) + [sliceId] && visiting == old(visiting) + {sliceId}
          invariant old(cycles) <= cycles && old(visited) <= visited
          invariant forall i :: 0 <= i < k && i < |targets| ==> targets[i] in visited || Closes(cycles, sliceId, targets[i])
          invariant ClosedSoFar(old(cycles), cycles, sliceId, targets, k, old(visited) + old(visiting))
          invariant ListsOnce(edges) && ClosedOnce(old(cycles)) ==> ClosedOnce(cycles)
        {
          AnyDependency(graph, sliceId, k);
          NotClosedYet(old(cycles), cycles, sliceId, targets, k, old(visited) + old(visiting));
          ghost var before, seen := cycles, visited + visiting;
          Visit(dependencies[k].sliceId);
          ClosedFurther(old(cycles), before, cycles, path, sliceId, targets, k, old(visited) + old(visiting), seen);
        }
      } else {
        NoDependencies(graph, sliceId);
      }
      LeavePath(edges, old(path), visiting, visited, finished, cycles, sliceId);
      ClosedByAll(old(cycles), cycles, old(path), sliceId, targets, old(visited) + old(visiting));
      path := path[..|path| - 1];
      assert path == old(path);
      visiting := visiting - {sliceId};
      visited := visited + {sliceId};
      finished := finished + [sliceId];
      assert visiting == old(visiting);
    }
  }

  /**
   * What a visit has recorded: lists that close with the edge it came along, or with an edge from a slice
   * that was not seen before.
   */
  ghost predicate NewClosings(before: seq<seq<Id>>, cycles: seq<seq<Id>>, path: seq<Id>, id: Id, seen: set<Id>) {
    forall u, v :: Closes(cycles, u, v) ==>
      || Closes(before, u, v)
      || (path != [] && u == path[|path| - 1] && v == id)
      || u !in seen
  }

  /** The same while slice `id`, not seen before, goes through its targets: `k` of them are done. */
  ghost predicate ClosedSoFar(before: seq<seq<Id>>, cycles: seq<seq<Id>>, id: Id, targets: seq<Id>, k: nat, seen: set<Id>) {
    && id !in seen
    && (forall v :: !Closes(before, id, v))
    && forall u, v :: Closes(cycles, u, v) ==>
         || Closes(before, u, v)
         || (u == id && k <= |targets| && v in targets[..k])
         || (u != id && u !in seen)
  }

  lemma NothingNew(cycles: seq<seq<Id>>, path: seq<Id>, id: Id, seen: set<Id>)
    ensures NewClosings(cycles, cycles, path, id, seen)
  {
  }

  lemma OneNew(cycles: seq<seq<Id>>, c: seq<Id>, path: seq<Id>, id: Id, seen: set<Id>)
    requires path != [] && EndsWith(c, path[|path| - 1], id)
    ensures NewClosings(cycles, cycles + [c], path, id, seen)
  {
    hide Closes;
    OneMoreCloses(cycles, c, path[|path| - 1], id);
  }

  lemma NoneNew(cycles: seq<seq<Id>>, id: Id, targets: seq<Id>, seen: set<Id>)
    requires id !in seen && forall v :: !Closes(cycles, id, v)
    ensures ClosedSoFar(cycles, cycles, id, targets, 0, seen)
  {
  }

  lemma NotClosedYet(before: seq<seq<Id>>, cycles: seq<seq<Id>>, id: Id, targets: seq<Id>, k: nat, seen: set<Id>)
    requires ClosedSoFar(before, cycles, id, targets, k, seen) && k < |targets|
    ensures Distinct(targets) ==> !Closes(cycles, id, targets[k])
  {
  }

  lemma ClosedFurther(before: seq<seq<Id>>, mid: seq<seq<Id>>, cycles: seq<seq<Id>>, path: seq<Id>, id: Id,
                      targets: seq<Id>, k: nat, seen0: set<Id>, seen: set<Id>)
    requires ClosedSoFar(before, mid, id, targets, k, seen0) && k < |targets|
    requires path != [] && path[|path| - 1] == id && seen0 + {id} <= seen && mid <= cycles
    requires NewClosings(mid, cycles, path, targets[k], seen)
    ensures ClosedSoFar(before, cycles, id, targets, k + 1, seen0)
    ensures forall v :: Closes(mid, id, v) ==> Closes(cycles, id, v)
  {
    hide Closes;
    assert targets[..k + 1] == targets[..k] + [targets[k]];
    forall v | Closes(mid, id, v) ensures Closes(cycles, id, v) {
      ClosesStill(mid, cycles, id, v);
    }
  }

  lemma ClosedByAll(before: seq<seq<Id>>, cycles: seq<seq<Id>>, path: seq<Id>, id: Id, targets: seq<Id>, seen: set<Id>)
    requires ClosedSoFar(before, cycles, id, targets, |targets|, seen)
    ensures NewClosings(before, cycles, path, id, seen)
  {
  }

  lemma AsManyTargets(graph: Graph, u: Id)
    requires u in graph.nodes
    ensures |Next(AllEdges(graph), u)| == |graph.nodes[u].dependencies|
  {
  }

  lemma NoDependencies(graph: Graph, u: Id)
    requires u !in graph.nodes
    ensures Next(AllEdges(graph), u) == []
  {
  }

  lemma ClosesStill(before: seq<seq<Id>>, cycles: seq<seq<Id>>, u: Id, v: Id)
    requires before <= cycles && Closes(before, u, v)
    ensures Closes(cycles, u, v)
  {
    var k :| 0 <= k < |before| && EndsWith(before[k], u, v);
    assert cycles[k] == before[k];
  }

  lemma AnyDependency(graph: Graph, u: Id, k: nat)
    requires u in graph.nodes && k < |graph.nodes[u].dependencies|
    ensures k < |Next(AllEdges(graph), u)|
    ensures Next(AllEdges(graph), u)[k] == graph.nodes[u].dependencies[k].sliceId
    ensures graph.nodes[u].dependencies[k].sliceId in Next(AllEdges(graph), u)
    ensures graph.nodes[u].dependencies[k].sliceId in Universe(AllEdges(graph))
  {
    assert Targets(graph.nodes[u].dependencies)[k] == graph.nodes[u].dependencies[k].sliceId;
  }

  lemma AnyDependencies(graph: Graph, u: Id)
    ensures forall w :: w in Next(AllEdges(graph), u) ==>
              u in graph.nodes &&
              exists i :: 0 <= i < |graph.nodes[u].dependencies| && graph.nodes[u].dependencies[i].sliceId == w
  {
  }

  /** The walk takes the closing edge of a reported list. */
  ghost predicate RunsAlong(c: seq<Id>, cycles: seq<seq<Id>>) {
    exists i :: 0 <= i < |c| - 1 && Closes(cycles, c[i], c[i + 1])
  }

  /** The edge goes from a slice to one that is left after it, or to itself. */
  ghost predicate GoesAgainst(order: seq<Id>, u: Id, v: Id) {
    exists j :: 0 <= j < |order| && order[j] == u && v !in order[..j]
  }

  /**
   * Each reported list is a cycle, and every cycle there is takes the closing edge of a reported list.
   * These edges are exactly the ones that go against the order in which the slices are left, and each is
   * reported once.
   */
  method FindCycles(graph: Graph) returns (cycles: seq<seq<Id>>, ghost order: seq<Id>)
    requires WellFormed(graph)
    ensures forall k :: 0 <= k < |cycles| ==> IsCycle(AllEdges(graph), cycles[k])
    ensures cycles == [] <==> Acyclic(AllEdges(graph))
    ensures forall c :: IsCycle(AllEdges(graph), c) ==> RunsAlong(c, cycles)
    ensures FinishOrder(Opened(AllEdges(graph), cycles), order) && graph.nodes.Keys <= Elements(order)
    ensures forall u, v :: Closes(cycles, u, v) ==> v in Next(AllEdges(graph), u) && GoesAgainst(order, u, v)
    ensures ListsOnce(AllEdges(graph)) ==> ClosedOnce(cycles)
  {
    hide CycleState, AllEdges, WellFormed, Acyclic, IsCycle, Universe, Closes, ListsOnce, ClosedOnce, FinishOrder;
    var finder := new CycleFinder(graph);
    CyclesStart(finder.edges);
    for k := 0 to |graph.order|
      invariant fresh(finder) && finder.graph == graph && finder.edges == AllEdges(graph)
      invariant finder.Inv() && finder.path == []
      invariant forall i :: 0 <= i < k ==> graph.order[i] in finder.visited
      invariant ListsOnce(AllEdges(graph)) ==> ClosedOnce(finder.cycles)
    {
      ListedInUniverse(graph, k);
      finder.Visit(graph.order[k]);
    }
    CyclesDone(graph, finder.visiting, finder.visited, finder.finished, finder.cycles);
    cycles, order := finder.cycles, finder.finished;
  }

  lemma CyclesStart(a: Adjacency)
    ensures CycleState(a, [], {}, {}, [], []) && ClosedOnce([])
  {
  }

  /** A cycle that takes no closing edge would be one of the opened graph. */
  lemma CycleRunsAlong(a: Adjacency, cycles: seq<seq<Id>>, c: seq<Id>)
    requires IsCycle(a, c) && Acyclic(Opened(a, cycles))
    ensures RunsAlong(c, cycles)
  {
    hide Opened, Closes;
    if !RunsAlong(c, cycles) {
      forall i | 0 <= i < |c| - 1 ensures c[i + 1] in Next(Opened(a, cycles), c[i]) {
        OpenedNext(a, cycles, c[i], c[i + 1]);
      }
      CycleReaches(Opened(a, cycles), c);
    }
  }

  lemma OpenedNext(a: Adjacency, cycles: seq<seq<Id>>, u: Id, v: Id)
    ensures v in Next(Opened(a, cycles), u) <==> v in Next(a, u) && !Closes(cycles, u, v)
  {
  }

  lemma NothingClosed(a: Adjacency)
    requires Acyclic(Opened(a, []))
    ensures Acyclic(a)
  {
    forall u ensures !Reaches(a, u, u) {
      if p :| Connects(a, p, u, u) {
        assert forall k :: 0 <= k < |p| - 1 ==> p[k + 1] in Next(Opened(a, []), p[k]);
        assert Connects(Opened(a, []), p, u, u);
        assert Reaches(Opened(a, []), u, u);
      }
    }
  }

  lemma ClosingIsEdge(a: Adjacency, cycles: seq<seq<Id>>, u: Id, v: Id)
    requires Closes(cycles, u, v) && forall k :: 0 <= k < |cycles| ==> IsCycle(a, cycles[k])
    ensures v in Next(a, u)
  {
    var k :| 0 <= k < |cycles| && EndsWith(cycles[k], u, v);
    var c := cycles[k];
    assert c[|c| - 2 + 1] in Next(a, c[|c| - 2]);
  }

  lemma CyclesDone(graph: Graph, visiting: set<Id>, visited: set<Id>, finished: seq<Id>, cycles: seq<seq<Id>>)
    requires WellFormed(graph) && CycleState(AllEdges(graph), [], visiting, visited, finished, cycles)
    requires forall i :: 0 <= i < |graph.order| ==> graph.order[i] in visited
    ensures forall k :: 0 <= k < |cycles| ==> IsCycle(AllEdges(graph), cycles[k])
    ensures cycles == [] <==> Acyclic(AllEdges(graph))
    ensures forall c :: IsCycle(AllEdges(graph), c) ==> RunsAlong(c, cycles)
    ensures FinishOrder(Opened(AllEdges(graph), cycles), finished) && graph.nodes.Keys <= Elements(finished)
    ensures forall u, v :: Closes(cycles, u, v) ==> v in Next(AllEdges(graph), u) && GoesAgainst(finished, u, v)
  {
    hide IsCycle, Acyclic, Closes, RunsAlong, AllEdges;
    var a := AllEdges(graph);
    assert a.Keys == graph.nodes.Keys by { NodesAreKeys(graph); }
    AllFinished(graph, Opened(a, cycles), finished);
    forall c | IsCycle(a, c) ensures RunsAlong(c, cycles) {
      CycleRunsAlong(a, cycles, c);
    }
    if cycles == [] {
      NothingClosed(a);
    } else {
      CycleReaches(a, cycles[0]);
    }
    forall u, v | Closes(cycles, u, v) ensures v in Next(a, u) && GoesAgainst(finished, u, v) {
      ClosingIsEdge(a, cycles, u, v);
      assert RunsBack([], finished, u, v);
    }
  }

  lemma NodesAreKeys(graph: Graph)
    ensures AllEdges(graph).Keys == graph.nodes.Keys
  {
  }

  /** What the closures keep. `open` are the ids whose successors have not all been seen yet. */
  ghost predicate ClosureState(a: Adjacency, source: Id, open: set<Id>, visited: set<Id>, found: seq<Id>) {
    && Distinct(found)
    && visited <= {source} + Elements(found)
    && (forall v :: v in found ==> v in Universe(a) && Reaches(a, source, v))
    && (forall u, v :: u in visited && u !in open && v in Next(a, u) ==> v in found)
  }

  lemma EnterId(a: Adjacency, source: Id, open: set<Id>, visited: set<Id>, found: seq<Id>, id: Id)
    requires ClosureState(a, source, open, visited, found) && (id == source || id in found)
    ensures ClosureState(a, source, open + {id}, visited + {id}, found)
    ensures visited + {id} <= {source} + Universe(a)
  {
    assert visited + {id} <= {source} + Elements(found);
  }

  lemma FoundId(a: Adjacency, source: Id, open: set<Id>, visited: set<Id>, found: seq<Id>, id: Id, v: Id)
    requires ClosureState(a, source, open, visited, found) && id in visited && v in Next(a, id)
    ensures ClosureState(a, source, open, visited, if v in found then found else found + [v])
  {
    EdgeReaches(a, id, v);
    if id != source {
      ReachesTransitive(a, source, id, v);
    }
    assert v in Universe(a);
  }

  lemma LeaveId(a: Adjacency, source: Id, open: set<Id>, visited: set<Id>, found: seq<Id>, id: Id)
    requires ClosureState(a, source, open + {id}, visited, found)
    requires forall i :: 0 <= i < |Next(a, id)| ==> Next(a, id)[i] in found
    ensures ClosureState(a, source, open, visited, found)
  {
  }

  /** The state of `getUpstream` and `getDownstream`, which differ only in the edges they follow. */
  class Closure {
    const edges: Adjacency
    var found: seq<Id>
    var visited: set<Id>

    constructor (edges: Adjacency)
      ensures this.edges == edges && found == [] && visited == {}
    {
      this.edges, found, visited := edges, [], {};
    }

    method Visit(id: Id, ghost source: Id, ghost open: set<Id>)
      requires ClosureState(edges, source, open, visited, found)
      requires id == source || id in found
      requires Elements(found) <= visited + {id}
      modifies this
      ensures ClosureState(edges, source, open, visited, found)
      ensures Elements(found) <= visited && id in visited
      ensures old(visited) <= visited && Elements(old(found)) <= Elements(found)
      decreases {source} + Universe(edges) - visited
    {
      hide ClosureState, Universe, Next;
      if id in visited {
        return;
      }
      EnterId(edges, source, open, visited, found, id);
      visited := visited + {id};
      var successors := Next(edges, id);
      for k := 0 to |successors|
        invariant ClosureState(edges, source, open + {id}, visited, found)
        invariant Elements(found) <= visited
        invariant old(visited) + {id} <= visited && Elements(old(found)) <= Elements(found)
        invariant forall i :: 0 <= i < k ==> successors[i] in Elements(found)
      {
        FoundId(edges, source, open + {id}, visited, found, id, successors[k]);
        if successors[k] !in found {
          found := found + [successors[k]];
        }
        Visit(successors[k], source, open + {id});
      }
      LeaveId(edges, source, open, visited, found, id);
    }
  }

  /** All that `source` reaches by one edge or more, each id once. */
  method ReachableFrom(edges: Adjacency, source: Id) returns (found: seq<Id>)
    ensures Distinct(found)
    ensures forall v :: v in found <==> Reaches(edges, source, v)
  {
    var closure := new Closure(edges);
    closure.Visit(source, source, {});
    found := closure.found;
    forall v | Reaches(edges, source, v) ensures v in found {
      var p :| Connects(edges, p, source, v);
      assert p[0 + 1] in Next(edges, p[0]);
      ClosedContainsReached(edges, Elements(found), p);
    }
  }

  method GetUpstream(graph: Graph, sliceId: Id) returns (upstream: seq<Id>)
    ensures Distinct(upstream)
    ensures forall v :: v in upstream <==> Reaches(AllEdges(graph), sliceId, v)
  {
    upstream := ReachableFrom(AllEdges(graph), sliceId);
  }

  /** The slices that depend on `sliceId`, directly or not. */
  method GetDownstream(graph: Graph, sliceId: Id) returns (downstream: seq<Id>)
    requires WellFormed(graph) && EdgesMatchNodes(graph)
    ensures Distinct(downstream)
    ensures forall v :: v in downstream <==> Reaches(ReverseEdges(graph), sliceId, v)
    ensures forall v :: v in downstream <==> Reaches(AllEdges(graph), v, sliceId)
  {
    downstream := ReachableFrom(ReverseEdges(graph), sliceId);
    forall v ensures Reaches(ReverseEdges(graph), sliceId, v) <==> Reaches(AllEdges(graph), v, sliceId) {
      UpstreamDownstreamDual(graph, v, sliceId);
    }
  }

  // ----- building -----

  /** The last record of a slice wins; the key keeps the place of the first one. */
  method Build(records: seq<Option<SliceRecord>>) returns (graph: Graph)
    ensures WellFormed(graph) && EdgesMatchNodes(graph)
    ensures forall u :: u in graph.nodes <==> exists k :: 0 <= k < |records| && records[k].Some? && records[k].value.id == u
    ensures forall u :: u in graph.nodes ==> LastNode(records, u) == Some(graph.nodes[u])
    ensures forall k :: 0 <= k < |records| && IsLastOf(records, k) ==> IsNode(graph.nodes, records[k])
    ensures InOrderOfRecords(records, graph.order)
  {
    hide IsLastOf, InOrderOfRecords;
    var nodes: map<Id, Node>, order: seq<Id> := map[], [];
    assert InOrderOfRecords([], []) by { NothingRecorded(); }
    for k := 0 to |records|
      invariant Distinct(order) && Elements(order) == nodes.Keys
      invariant forall u :: u in nodes <==> LastNode(records[..k], u).Some?
      invariant forall u :: u in nodes ==> LastNode(records[..k], u) == Some(nodes[u])
      invariant InOrderOfRecords(records[..k], order)
    {
      assert records[..k + 1][..k] == records[..k] && records[..k + 1] == records[..k] + [records[k]];
      OneMoreRecord(records[..k], order, records[k]);
      if records[k].Some? {
        var record := records[k].value;
        if record.id !in nodes {
          assert record.id !in Elements(order);
          order := order + [record.id];
        } else {
          assert record.id in Elements(order);
        }
        nodes := nodes[record.id := record.node];
      }
    }
    assert records[..|records|] == records;
    forall u { LastNodeExists(records, u); }
    LastRecordsWin(records, nodes);
    var edges, reverseEdges := BuildEdges(nodes, order);
    graph := Graph(nodes, order, edges, reverseEdges);
  }

  /** No later record has the id of this one. */
  ghost predicate IsLastOf(records: seq<Option<SliceRecord>>, k: nat)
    requires k < |records|
  {
    records[k].Some? &&
    forall m :: k < m < |records| && records[m].Some? ==> records[m].value.id != records[k].value.id
  }

  predicate IsNode(nodes: map<Id, Node>, record: Option<SliceRecord>) {
    record.Some? && record.value.id in nodes && nodes[record.value.id] == record.value.node
  }

  ghost predicate Recorded(records: seq<Option<SliceRecord>>, u: Id) {
    exists k :: 0 <= k < |records| && records[k].Some? && records[k].value.id == u
  }

  /** There is a record of `u` before any of `v`. */
  ghost predicate ComesFirst(records: seq<Option<SliceRecord>>, u: Id, v: Id) {
    exists k :: 0 <= k < |records| && records[k].Some? && records[k].value.id == u &&
                forall m :: 0 <= m <= k && records[m].Some? ==> records[m].value.id != v
  }

  /** The ids of the records are listed in the order in which they come up. */
  ghost predicate InOrderOfRecords(records: seq<Option<SliceRecord>>, order: seq<Id>) {
    && (forall k :: 0 <= k < |records| && records[k].Some? ==> records[k].value.id in order)
    && (forall i :: 0 <= i < |order| ==> Recorded(records, order[i]))
    && forall i, j :: 0 <= i < j < |order| ==> ComesFirst(records, order[i], order[j])
  }

  lemma NothingRecorded()
    ensures InOrderOfRecords([], [])
  {
  }

  lemma StillComesFirst(records: seq<Option<SliceRecord>>, record: Option<SliceRecord>, u: Id, v: Id)
    requires ComesFirst(records, u, v)
    ensures ComesFirst(records + [record], u, v)
  {
    var k :| 0 <= k < |records| && records[k].Some? && records[k].value.id == u &&
             forall m :: 0 <= m <= k && records[m].Some? ==> records[m].value.id != v;
    assert (records + [record])[..|records|] == records;
    assert (records + [record])[k] == records[k];
  }

  lemma NewComesLast(records: seq<Option<SliceRecord>>, record: Option<SliceRecord>, u: Id, v: Id)
    requires forall m :: 0 <= m < |records| && records[m].Some? ==> records[m].value.id != v
    requires Recorded(records, u)
    ensures ComesFirst(records + [record], u, v)
  {
    var k :| 0 <= k < |records| && records[k].Some? && records[k].value.id == u;
    assert (records + [record])[k] == records[k];
  }

  lemma RecordedSnoc(records: seq<Option<SliceRecord>>, record: Option<SliceRecord>, u: Id)
    ensures Recorded(records + [record], u) <==> Recorded(records, u) || (record.Some? && record.value.id == u)
  {
    var more := records + [record];
    if Recorded(records, u) {
      var k :| 0 <= k < |records| && records[k].Some? && records[k].value.id == u;
      assert more[k].Some? && more[k].value.id == u;
    }
    if record.Some? && record.value.id == u {
      assert more[|records|].Some? && more[|records|].value.id == u;
    }
  }

  lemma OneMoreRecord(records: seq<Option<SliceRecord>>, order: seq<Id>, record: Option<SliceRecord>)
    requires InOrderOfRecords(records, order)
    ensures record.None? ==> InOrderOfRecords(records + [record], order)
    ensures record.Some? ==>
              InOrderOfRecords(records + [record], if record.value.id in order then order else order + [record.value.id])
  {
    hide ComesFirst, Recorded;
    var more := records + [record];
    var longer := if record.None? || record.value.id in order then order else order + [record.value.id];
    forall u ensures Recorded(more, u) <==> Recorded(records, u) || (record.Some? && record.value.id == u) {
      RecordedSnoc(records, record, u);
    }
    assert forall k :: 0 <= k < |more| ==> more[k] == if k < |records| then records[k] else record;
    forall i, j | 0 <= i < j < |longer| ensures ComesFirst(more, longer[i], longer[j]) {
      if j < |order| {
        StillComesFirst(records, record, order[i], order[j]);
      } else {
        NewComesLast(records, record, order[i], longer[j]);
      }
    }
  }

  lemma LastRecordsWin(records: seq<Option<SliceRecord>>, nodes: map<Id, Node>)
    requires forall u :: u in nodes <==> LastNode(records, u).Some?
    requires forall u :: u in nodes ==> LastNode(records, u) == Some(nodes[u])
    ensures forall k :: 0 <= k < |records| && IsLastOf(records, k) ==> IsNode(nodes, records[k])
  {
    forall k | 0 <= k < |records| && IsLastOf(records, k) ensures IsNode(nodes, records[k]) {
      LastNodeIsLast(records, k);
    }
  }

  lemma {:induction false} LastNodeIsLast(records: seq<Option<SliceRecord>>, k: nat)
    requires k < |records| && IsLastOf(records, k)
    ensures LastNode(records, records[k].value.id) == Some(records[k].value.node)
  {
    if k < |records| - 1 {
      LastNodeIsLast(records[..|records| - 1], k);
    }
  }

  ghost function LastNode(records: seq<Option<SliceRecord>>, u: Id): Option<Node> {
    if records == [] then None
    else
      var last := records[|records| - 1];
      if last.Some? && last.value.id == u then Some(last.value.node) else LastNode(records[..|records| - 1], u)
  }

  lemma {:induction false} LastNodeExists(records: seq<Option<SliceRecord>>, u: Id)
    ensures LastNode(records, u).Some? <==>
            exists k :: 0 <= k < |records| && records[k].Some? && records[k].value.id == u
  {
    if records != [] {
      LastNodeExists(records[..|records| - 1], u);
    }
  }

  lemma GroupedSnoc(edges: seq<Edge>, reverseEdges: map<Id, seq<Edge>>, edge: Edge)
    requires Grouped(edges, reverseEdges)
    ensures
      var into := if edge.to in reverseEdges then reverseEdges[edge.to] else [];
      Grouped(edges + [edge], reverseEdges[edge.to := into + [edge]])
  {
    var longer := edges + [edge];
    assert longer[..|longer| - 1] == edges;
    assert edge.to !in reverseEdges ==> EdgesTo(edges, edge.to) == [];
    assert forall v :: EdgesTo(longer, v) == EdgesTo(edges, v) + if v == edge.to then [edge] else [];
  }

  method BuildEdges(nodes: map<Id, Node>, order: seq<Id>) returns (edges: seq<Edge>, reverseEdges: map<Id, seq<Edge>>)
    requires Elements(order) == nodes.Keys
    ensures edges == EdgesOf(nodes, order)
    ensures Grouped(edges, reverseEdges)
  {
    edges, reverseEdges := [], map[];
    for i := 0 to |order|
      invariant edges == EdgesOf(nodes, order[..i])
      invariant Grouped(edges, reverseEdges)
    {
      assert order[i] in Elements(order);
      edges, reverseEdges := AddNodeEdges(order[i], nodes[order[i]].dependencies, edges, reverseEdges);
      assert order[..i + 1][..i] == order[..i];
    }
    assert order[..|order|] == order;
  }

  method AddNodeEdges(from: Id, dependencies: seq<Dependency>, edges0: seq<Edge>, reverseEdges0: map<Id, seq<Edge>>)
    returns (edges: seq<Edge>, reverseEdges: map<Id, seq<Edge>>)
    requires Grouped(edges0, reverseEdges0)
    ensures edges == edges0 + NodeEdges(from, dependencies)
    ensures Grouped(edges, reverseEdges)
  {
    hide Grouped;
    edges, reverseEdges := edges0, reverseEdges0;
    for k := 0 to |dependencies|
      invariant edges == edges0 + NodeEdges(from, dependencies)[..k]
      invariant Grouped(edges, reverseEdges)
    {
      var edge := EdgeOf(from, dependencies[k]);
      GroupedSnoc(edges, reverseEdges, edge);
      edges := edges + [edge];
      var into := if edge.to in reverseEdges then reverseEdges[edge.to] else [];
      reverseEdges := reverseEdges[edge.to := into + [edge]];
    }
  }
}
