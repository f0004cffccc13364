/** The dependency graph: nodes are task names in the order they were first
    added, edges run from a prerequisite to the task that waits for it. */
module Graphs {
  import opened Prelude
  import opened Tasks

  type Edge = (string, string)

  datatype Graph = Graph(nodes: seq<string>, edges: set<Edge>)

  /** What every directed graph satisfies: each node once, and both ends of
      every edge are nodes. */
  predicate WellFormed(g: Graph) {
    && Distinct(g.nodes)
    && forall e :: e in g.edges ==> e.0 in g.nodes && e.1 in g.nodes
  }

  /** Adding a node that is already present changes nothing; a new node goes
      to the end. */
  function AddNode(nodes: seq<string>, n: string): (r: seq<string>)
    ensures Distinct(nodes) ==> Distinct(r)
    ensures forall x :: x in r <==> x in nodes || x == n
    ensures n in nodes ==> r == nodes
  {
    if n in nodes then nodes else nodes + [n]
  }

  /** Adding several nodes one after the other. */
  function AddNodes(nodes: seq<string>, ns: seq<string>): (r: seq<string>)
    ensures Distinct(nodes) ==> Distinct(r)
    ensures forall x :: x in r <==> x in nodes || x in ns
    ensures (forall x :: x in ns ==> x in nodes) ==> r == nodes
    decreases |ns|
  {
    if ns == [] then nodes else AddNodes(AddNode(nodes, ns[0]), ns[1..])
  }

  /** The graph built from the task rows: each row adds its own name as a node,
      then one edge `dep -> name` per declared dependency, adding `dep` as a
      node if it is new. */
  function BuildGraph(tasks: seq<Task>): (g: Graph)
    ensures WellFormed(g)
    ensures forall x :: x in g.nodes <==> x in Declared(tasks)
    ensures forall e :: e in g.edges <==> e in DeclaredEdges(tasks)
    decreases |tasks|
  {
    if tasks == [] then Graph([], {})
    else
      var last := |tasks| - 1;
      var t := tasks[last];
      var g := BuildGraph(tasks[..last]);
      DeclaredSnoc(tasks);
      Graph(AddNodes(AddNode(g.nodes, t.name), t.deps), g.edges + EdgesInto(t))
  }

  /** The edges one row contributes: `dep -> name` for each dependency. */
  function EdgesInto(t: Task): set<Edge> {
    set d | d in t.deps :: (d, t.name)
  }

  /** Every name the rows mention, as a task or as a dependency. */
  ghost function Declared(tasks: seq<Task>): set<string> {
    (set i | 0 <= i < |tasks| :: tasks[i].name) + (set i, x | 0 <= i < |tasks| && x in tasks[i].deps :: x)
  }

  /** The edges the rows declare: `dep -> tasks[i].name` for every dependency
      `dep` of row `i`, and no others. */
  ghost function DeclaredEdges(tasks: seq<Task>): set<Edge> {
    set i, d | 0 <= i < |tasks| && d in tasks[i].deps :: (d, tasks[i].name)
  }

  /** What the last row adds to the declared names and edges. */
  lemma DeclaredSnoc(tasks: seq<Task>)
    requires |tasks| > 0
    ensures var last := |tasks| - 1;
      && Declared(tasks) == Declared(tasks[..last]) + {tasks[last].name} + Elements(tasks[last].deps)
      && DeclaredEdges(tasks) == DeclaredEdges(tasks[..last]) + EdgesInto(tasks[last])
  {
    var last := |tasks| - 1;
    var init := tasks[..last];
    assert forall i :: 0 <= i < last ==> init[i] == tasks[i];
    assert (set i | 0 <= i < |tasks| :: tasks[i].name) == (set i | 0 <= i < last :: init[i].name) + {tasks[last].name};
    assert (set i, x | 0 <= i < |tasks| && x in tasks[i].deps :: x)
        == (set i, x | 0 <= i < last && x in init[i].deps :: x) + Elements(tasks[last].deps);
  }

  /** A closed walk along edges: `p[0] -> p[1] -> ... -> p[|p|-1] -> p[0]`.
      A self-loop is a cycle of length one. */
  ghost predicate IsCycle(g: Graph, p: seq<string>) {
    && |p| > 0
    && (forall k :: 0 <= k < |p| - 1 ==> (p[k], p[k + 1]) in g.edges)
    && (p[|p| - 1], p[0]) in g.edges
  }

  ghost predicate HasCycle(g: Graph) {
    exists p :: IsCycle(g, p)
  }

  /** An execution order: a permutation of the nodes in which the source of
      every edge comes before its target. */
  predicate IsTopologicalOrder(g: Graph, order: seq<string>) {
    && multiset(order) == multiset(g.nodes)
    && forall i, j :: 0 <= i < |order| && 0 <= j < |order| && (order[i], order[j]) in g.edges ==> i < j
  }

  /** Along a walk, positions in a topological order strictly increase. */
  lemma {:induction false} WalkClimbs(g: Graph, order: seq<string>, p: seq<string>, k: nat)
    requires IsTopologicalOrder(g, order)
    requires forall m :: 0 <= m < |p| ==> p[m] in order
    requires forall m :: 0 <= m < |p| - 1 ==> (p[m], p[m + 1]) in g.edges
    requires k < |p|
    ensures IndexOf(order, p[0]) + k <= IndexOf(order, p[k])
  {
    if k > 0 {
      WalkClimbs(g, order, p, k - 1);
      assert (order[IndexOf(order, p[k - 1])], order[IndexOf(order, p[k])]) in g.edges;
    }
  }

  /** In a graph with an execution order, no walk can be closed by an edge
      back to its start. */
  lemma NoClosingEdge(g: Graph, order: seq<string>, p: seq<string>)
    requires WellFormed(g)
    requires IsTopologicalOrder(g, order)
    requires |p| > 0
    requires forall m :: 0 <= m < |p| - 1 ==> (p[m], p[m + 1]) in g.edges
    ensures (p[|p| - 1], p[0]) !in g.edges
  {
    if p[|p| - 1] in g.nodes && p[0] in g.nodes {
      forall m | 0 <= m < |p|
        ensures p[m] in order
      {
        if m < |p| - 1 {
          assert (p[m], p[m + 1]) in g.edges;
        }
        assert p[m] in multiset(g.nodes);
      }
      WalkClimbs(g, order, p, |p| - 1);
      var a, b := IndexOf(order, p[|p| - 1]), IndexOf(order, p[0]);
      assert order[a] == p[|p| - 1] && order[b] == p[0];
    }
  }

  /** A graph that has an execution order has no cycle. */
  lemma TopologicalOrderExcludesCycle(g: Graph, order: seq<string>)
    requires WellFormed(g)
    requires IsTopologicalOrder(g, order)
    ensures !HasCycle(g)
  {
    forall p | |p| > 0 && forall m :: 0 <= m < |p| - 1 ==> (p[m], p[m + 1]) in g.edges
      ensures !IsCycle(g, p)
    {
      NoClosingEdge(g, order, p);
    }
  }
}
