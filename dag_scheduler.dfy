/**
 * The workflow graph of src/workflow/dag_scheduler.py: tasks added with their
 * dependencies as edges `dependency -> task`, validation by topological sorting, and
 * which tasks have no predecessor.
 *
 * networkx's own sorting algorithm is not modelled: validation is specified by its
 * result (a topological order exactly when the graph has no cycle) and computed by
 * repeatedly taking some node with no remaining predecessor.
 */
module DagScheduling {
  type NodeId = string

  /** `TaskNode`. */
  datatype Task = Task(id: NodeId, dependencies: seq<NodeId>)

  /** A `DiGraph`: its nodes in insertion order and its edges. */
  datatype Graph = Graph(nodes: seq<NodeId>, edges: set<(NodeId, NodeId)>)

  predicate Distinct(s: seq<NodeId>)
  {
    forall i, j | 0 <= i < j < |s| :: s[i] != s[j]
  }

  /** No node is listed twice and every edge joins two nodes of the graph. */
  ghost predicate GraphOk(g: Graph)
  {
    Distinct(g.nodes) && forall e | e in g.edges :: e.0 in g.nodes && e.1 in g.nodes
  }

  // ---------------------------------------------------------------------------
  // add_task
  // ---------------------------------------------------------------------------

  /** `add_node`: a node already present keeps its place. */
  function AddNode(g: Graph, n: NodeId): Graph
  {
    if n in g.nodes then g else Graph(g.nodes + [n], g.edges)
  }

  /** `add_edge(u, v)`: adds `u`, then `v`, as nodes if absent, then the edge. */
  function AddEdge(g: Graph, u: NodeId, v: NodeId): Graph
  {
    var g' := AddNode(AddNode(g, u), v);
    Graph(g'.nodes, g'.edges + {(u, v)})
  }

  /** The loop of `add_task` over `deps`. */
  function AddDependencies(g: Graph, id: NodeId, deps: seq<NodeId>): Graph
  {
    if deps == [] then g
    else AddEdge(AddDependencies(g, id, deps[..|deps| - 1]), deps[|deps| - 1], id)
  }

  /** `add_task`. */
  function AddTaskTo(g: Graph, t: Task): Graph
  {
    AddDependencies(AddNode(g, t.id), t.id, t.dependencies)
  }

  /** `b` starts with `a`. */
  predicate Extends(a: seq<NodeId>, b: seq<NodeId>)
  {
    |a| <= |b| && b[..|a|] == a
  }

  lemma ExtendsTransitive(a: seq<NodeId>, b: seq<NodeId>, c: seq<NodeId>)
    requires Extends(a, b) && Extends(b, c)
    ensures Extends(a, c)
  {
    assert c[..|a|] == c[..|b|][..|a|];
  }

  /** Adding a node keeps the graph well formed and appends it, unless it was there. */
  lemma AddNodeOk(g: Graph, n: NodeId)
    requires GraphOk(g)
    ensures GraphOk(AddNode(g, n))
    ensures forall x :: x in AddNode(g, n).nodes <==> x in g.nodes || x == n
    ensures AddNode(g, n).edges == g.edges && Extends(g.nodes, AddNode(g, n).nodes)
  {
    if n !in g.nodes {
      var s := g.nodes + [n];
      assert forall i | 0 <= i < |g.nodes| :: s[i] == g.nodes[i];
      assert s[..|g.nodes|] == g.nodes;
    }
  }

  /**
   * `g'` is `g` after adding the edges `d -> id` for the dependencies `deps`: the old
   * nodes come first, then the new dependencies, and the edges are the old ones plus
   * one per dependency.
   */
  ghost predicate AddsDependencies(g: Graph, g': Graph, id: NodeId, deps: seq<NodeId>)
  {
    && GraphOk(g')
    && Extends(g.nodes, g'.nodes)
    && (forall x :: x in g'.nodes <==> x in g.nodes || x in deps)
    && forall e :: e in g'.edges <==> e in g.edges || (e.1 == id && e.0 in deps)
  }

  lemma {:induction false} AddDependenciesEffect(g: Graph, id: NodeId, deps: seq<NodeId>)
    requires GraphOk(g) && id in g.nodes
    ensures AddsDependencies(g, AddDependencies(g, id, deps), id, deps)
    decreases |deps|
  {
    if deps == [] {
      assert g.nodes[..|g.nodes|] == g.nodes;
    } else {
      var init := deps[..|deps| - 1];
      var d := deps[|deps| - 1];
      AddDependenciesEffect(g, id, init);
      AddEdgeStep(g, AddDependencies(g, id, init), id, init, d);
      assert init + [d] == deps;
    }
  }

  /** One more dependency edge after the earlier ones. */
  lemma AddEdgeStep(g: Graph, g1: Graph, id: NodeId, init: seq<NodeId>, d: NodeId)
    requires GraphOk(g) && id in g.nodes
    requires AddsDependencies(g, g1, id, init)
    ensures AddsDependencies(g, AddEdge(g1, d, id), id, init + [d])
  {
    AddNodeOk(g1, d);
    AddNodeOk(AddNode(g1, d), id);
    assert forall x :: x in init + [d] <==> x in init || x == d;
    ExtendsTransitive(g.nodes, g1.nodes, AddNode(g1, d).nodes);
    ExtendsTransitive(g.nodes, AddNode(g1, d).nodes, AddNode(AddNode(g1, d), id).nodes);
  }

  /**
   * `add_task` adds a task and its dependencies as nodes after the existing ones,
   * and exactly the edges from each dependency to that task.
   */
  ghost predicate AddsTask(g: Graph, g': Graph, t: Task)
  {
    && GraphOk(g')
    && Extends(g.nodes, g'.nodes)
    && (forall x :: x in g'.nodes <==> x in g.nodes || x == t.id || x in t.dependencies)
    && forall e :: e in g'.edges <==> e in g.edges || (e.1 == t.id && e.0 in t.dependencies)
  }

  lemma AddTaskEffect(g: Graph, t: Task)
    requires GraphOk(g)
    ensures AddsTask(g, AddTaskTo(g, t), t)
  {
    AddNodeOk(g, t.id);
    var g1 := AddNode(g, t.id);
    AddDependenciesEffect(g1, t.id, t.dependencies);
    ExtendsTransitive(g.nodes, g1.nodes, AddTaskTo(g, t).nodes);
  }

  /** The dependency loop changes nothing once a task, its dependencies and their edges are present. */
  lemma {:induction false} AddDependenciesPresent(g: Graph, id: NodeId, deps: seq<NodeId>)
    requires id in g.nodes
    requires forall d | d in deps :: d in g.nodes && (d, id) in g.edges
    ensures AddDependencies(g, id, deps) == g
    decreases |deps|
  {
    if deps != [] {
      var init := deps[..|deps| - 1];
      assert forall d | d in init :: d in deps;
      AddDependenciesPresent(g, id, init);
      assert deps[|deps| - 1] in deps;
      assert g.edges + {(deps[|deps| - 1], id)} == g.edges;
    }
  }

  /** Adding the same task twice is the same as adding it once. */
  lemma AddTaskIdempotent(g: Graph, t: Task)
    requires GraphOk(g)
    ensures AddTaskTo(AddTaskTo(g, t), t) == AddTaskTo(g, t)
  {
    AddTaskEffect(g, t);
    var g' := AddTaskTo(g, t);
    AddDependenciesPresent(g', t.id, t.dependencies);
  }

  // ---------------------------------------------------------------------------
  // cycles and topological orders
  // ---------------------------------------------------------------------------

  /** Consecutive elements of `p` are joined by edges. */
  predicate IsPath(edges: set<(NodeId, NodeId)>, p: seq<NodeId>)
  {
    forall k | 0 <= k < |p| - 1 :: (p[k], p[k + 1]) in edges
  }

  /** A path of at least one edge that ends where it starts. */
  predicate IsCycle(edges: set<(NodeId, NodeId)>, p: seq<NodeId>)
  {
    |p| >= 2 && p[0] == p[|p| - 1] && IsPath(edges, p)
  }

  ghost predicate Acyclic(g: Graph)
  {
    forall p :: !IsCycle(g.edges, p)
  }

  /** `order` lists every node once and every edge points forward in it. */
  ghost predicate Topological(order: seq<NodeId>, g: Graph)
  {
    && Distinct(order)
    && (forall x :: x in order <==> x in g.nodes)
    && forall i, j | 0 <= i < |order| && 0 <= j < |order| && (order[i], order[j]) in g.edges :: i < j
  }

  /** The position of `x` in `s`. */
  function Position(s: seq<NodeId>, x: NodeId): (i: nat)
    requires x in s
    ensures i < |s| && s[i] == x
  {
    if s[0] == x then 0 else 1 + Position(s[1..], x)
  }

  lemma {:induction false} PathClimbs(order: seq<NodeId>, g: Graph, p: seq<NodeId>, k: nat)
    requires GraphOk(g) && Topological(order, g) && IsPath(g.edges, p) && 1 <= k < |p| && p[0] in order
    ensures p[k] in order && Position(order, p[0]) < Position(order, p[k])
  {
    assert (p[k - 1], p[k]) in g.edges;
    GraphOkEdge(g, (p[k - 1], p[k]));
    if k > 1 {
      PathClimbs(order, g, p, k - 1);
    }
    var i, j := Position(order, p[k - 1]), Position(order, p[k]);
    assert (order[i], order[j]) in g.edges;
  }

  /** A graph with a topological order has no cycle. */
  lemma TopologicalAcyclic(order: seq<NodeId>, g: Graph)
    requires GraphOk(g) && Topological(order, g)
    ensures Acyclic(g)
  {
    forall p | IsCycle(g.edges, p) ensures false {
      assert (p[0], p[1]) in g.edges;
      GraphOkEdge(g, (p[0], p[1]));
      PathClimbs(order, g, p, |p| - 1);
    }
  }

  /** A sequence longer than the set its elements come from repeats an element. */
  lemma {:induction false} Pigeonhole(s: seq<NodeId>, r: set<NodeId>) returns (i: nat, j: nat)
    requires forall k | 0 <= k < |s| :: s[k] in r
    requires |s| > |r|
    ensures i < j < |s| && s[i] == s[j]
  {
    var tail := s[1..];
    if s[0] in tail {
      var k :| 0 <= k < |tail| && tail[k] == s[0];
      return 0, k + 1;
    }
    assert forall k | 0 <= k < |tail| :: tail[k] == s[k + 1] && tail[k] in r - {s[0]};
    i, j := Pigeonhole(tail, r - {s[0]});
    i, j := i + 1, j + 1;
  }

  /** Some node of `r` has an edge to `v`. */
  predicate HasPredecessorIn(edges: set<(NodeId, NodeId)>, r: set<NodeId>, v: NodeId)
  {
    exists u | u in r :: (u, v) in edges
  }

  /** Every node of `r` has a predecessor in `r`. */
  ghost predicate NoSource(edges: set<(NodeId, NodeId)>, r: set<NodeId>)
  {
    forall v | v in r :: HasPredecessorIn(edges, r, v)
  }

  /** A path of `n + 1` nodes of `r` ending at `v`, found by walking back through predecessors in `r`. */
  lemma {:induction false} WalkBack(edges: set<(NodeId, NodeId)>, r: set<NodeId>, v: NodeId, n: nat) returns (p: seq<NodeId>)
    requires NoSource(edges, r) && v in r
    ensures |p| == n + 1 && IsPath(edges, p) && p[n] == v
    ensures forall k | 0 <= k < |p| :: p[k] in r
  {
    if n == 0 {
      p := [v];
    } else {
      var q := WalkBack(edges, r, v, n - 1);
      assert q[0] in r;
      assert HasPredecessorIn(edges, r, q[0]);
      var u :| u in r && (u, q[0]) in edges;
      p := [u] + q;
      assert forall k | 1 <= k < |p| :: p[k] == q[k - 1];
      forall k | 0 <= k < |p| - 1 ensures (p[k], p[k + 1]) in edges {
        if k > 0 {
          assert (q[k - 1], q[k]) in edges;
        }
      }
    }
  }

  /** A non-empty set of nodes each of which has a predecessor in the set contains a cycle. */
  lemma NoSourceCycle(edges: set<(NodeId, NodeId)>, r: set<NodeId>) returns (c: seq<NodeId>)
    requires r != {} && NoSource(edges, r)
    ensures IsCycle(edges, c)
  {
    var v :| v in r;
    var p := WalkBack(edges, r, v, |r|);
    var i, j := Pigeonhole(p, r);
    c := p[i..j + 1];
    assert forall k | 0 <= k < |c| :: c[k] == p[i + k];
    forall k | 0 <= k < |c| - 1 ensures (c[k], c[k + 1]) in edges {
      assert (p[i + k], p[i + k + 1]) in edges;
    }
  }

  // ---------------------------------------------------------------------------
  // next_tasks
  // ---------------------------------------------------------------------------

  /** No edge ends at `n`. */
  predicate Ready(edges: set<(NodeId, NodeId)>, n: NodeId)
  {
    forall e | e in edges :: e.1 != n
  }

  /** The ready nodes among `ns`, in the order of `ns`. */
  function ReadyAmong(edges: set<(NodeId, NodeId)>, ns: seq<NodeId>): (r: seq<NodeId>)
    ensures |r| <= |ns|
    ensures forall x :: x in r <==> x in ns && Ready(edges, x)
    ensures ns != [] && Ready(edges, ns[0]) ==> r[0] == ns[0]
    decreases |ns|
  {
    if ns == [] then []
    else
      var rest := ReadyAmong(edges, ns[1..]);
      assert forall x :: x in ns <==> x == ns[0] || x in ns[1..];
      if Ready(edges, ns[0]) then [ns[0]] + rest else rest
  }

  /** `next_tasks`: the nodes with no predecessor, in node order. */
  function NextTasks(g: Graph): (r: seq<NodeId>)
    ensures forall x :: x in r <==> x in g.nodes && Ready(g.edges, x)
  {
    ReadyAmong(g.edges, g.nodes)
  }

  lemma SomeEdgeInto(edges: set<(NodeId, NodeId)>, v: NodeId) returns (e: (NodeId, NodeId))
    requires !Ready(edges, v)
    ensures e in edges && e.1 == v
  {
    e :| e in edges && e.1 == v;
  }

  function NodeSet(g: Graph): set<NodeId>
  {
    set x | x in g.nodes
  }

  /** With no ready task, every node of a well-formed graph has a predecessor among the nodes. */
  lemma NothingReady(g: Graph)
    requires GraphOk(g) && NextTasks(g) == []
    ensures NoSource(g.edges, NodeSet(g))
  {
    var r := NodeSet(g);
    forall v | v in r ensures HasPredecessorIn(g.edges, r, v) {
      var e := SomeEdgeInto(g.edges, v);
      GraphOkEdge(g, e);
      assert e.0 in r && (e.0, v) in g.edges;
    }
  }

  /** A well-formed acyclic graph with some node has a task ready to run. */
  lemma AcyclicHasNextTask(g: Graph)
    requires GraphOk(g) && Acyclic(g) && g.nodes != []
    ensures NextTasks(g) != []
  {
    if NextTasks(g) == [] {
      NothingReady(g);
      assert g.nodes[0] in NodeSet(g);
      var c := NoSourceCycle(g.edges, NodeSet(g));
    }
  }

  // ---------------------------------------------------------------------------
  // the DAGScheduler object
  // ---------------------------------------------------------------------------

  /** `DAGScheduler`: the graph and the last execution order computed. */
  class DAGScheduler {
    var graph: Graph
    var executionOrder: seq<NodeId>

    ghost predicate Valid()
      reads this
    {
      GraphOk(graph)
    }

    constructor ()
      ensures Valid() && graph == Graph([], {}) && executionOrder == []
    {
      graph := Graph([], {});
      executionOrder := [];
    }

    /** `add_task`. */
    method AddTask(t: Task)
      requires Valid()
      modifies this
      ensures Valid() && graph == AddTaskTo(old(graph), t) && executionOrder == old(executionOrder)
    {
      AddTaskEffect(graph, t);
      graph := AddNode(graph, t.id);
      var i := 0;
      while i < |t.dependencies|
        invariant 0 <= i <= |t.dependencies|
        invariant executionOrder == old(executionOrder)
        invariant graph == AddDependencies(AddNode(old(graph), t.id), t.id, t.dependencies[..i])
      {
        assert t.dependencies[..i + 1][..i] == t.dependencies[..i];
        graph := AddEdge(graph, t.dependencies[i], t.id);
        i := i + 1;
      }
      assert t.dependencies[..i] == t.dependencies;
    }

    /**
     * `validate_dag`: succeeds exactly when the graph has no cycle, and then stores a
     * topological order; otherwise the previous order is kept.
     */
    method ValidateDag() returns (ok: bool)
      requires Valid()
      modifies this
      ensures Valid() && graph == old(graph)
      ensures ok <==> Acyclic(graph)
      ensures ok ==> Topological(executionOrder, graph)
      ensures !ok ==> executionOrder == old(executionOrder)
    {
      var order, found := TopologicalSort(graph);
      if found {
        executionOrder := order;
        TopologicalAcyclic(order, graph);
      }
      ok := found;
    }
  }

  /** Repeatedly take some node none of whose predecessors is still waiting. */
  method TopologicalSort(g: Graph) returns (order: seq<NodeId>, found: bool)
    requires GraphOk(g)
    ensures found ==> Topological(order, g)
    ensures !found ==> !Acyclic(g)
  {
    order := [];
    var waiting := NodeSet(g);
    while waiting != {}
      invariant Sorting(g, order, waiting)
      decreases |waiting|
    {
      if v :| v in waiting && !HasPredecessorIn(g.edges, waiting, v) {
        TakeSource(g, order, waiting, v);
        order := order + [v];
        waiting := waiting - {v};
      } else {
        var c := NoSourceCycle(g.edges, waiting);
        return order, false;
      }
    }
    return order, true;
  }

  /**
   * The state of the sort: every node is either placed or waiting, once, the placed
   * nodes respect every edge between them, and every predecessor of a placed node
   * is placed.
   */
  ghost predicate Sorting(g: Graph, order: seq<NodeId>, waiting: set<NodeId>)
  {
    && Distinct(order)
    && (forall x :: x in g.nodes <==> x in order || x in waiting)
    && (forall x | x in waiting :: x !in order)
    && (forall i, j | 0 <= i < |order| && 0 <= j < |order| && (order[i], order[j]) in g.edges :: i < j)
    && forall e | e in g.edges && e.1 in order :: e.0 in order
  }

  /** Placing a waiting node none of whose waiting predecessors remain keeps the sort's state. */
  lemma TakeSource(g: Graph, order: seq<NodeId>, waiting: set<NodeId>, v: NodeId)
    requires GraphOk(g) && Sorting(g, order, waiting)
    requires v in waiting && !HasPredecessorIn(g.edges, waiting, v)
    ensures Sorting(g, order + [v], waiting - {v})
  {
    var o := order + [v];
    assert forall k | 0 <= k < |order| :: o[k] == order[k];
    forall e | e in g.edges && e.1 in o ensures e.0 in o {
      if e.1 == v {
        GraphOkEdge(g, e);
      }
    }
    forall i, j | 0 <= i < |o| && 0 <= j < |o| && (o[i], o[j]) in g.edges ensures i < j {
      if j == |order| {
        GraphOkEdge(g, (o[i], o[j]));
      }
    }
  }

  lemma GraphOkEdge(g: Graph, e: (NodeId, NodeId))
    requires GraphOk(g) && e in g.edges
    ensures e.0 in g.nodes && e.1 in g.nodes
  {
  }
}
