/** Cycle check and execution order in one pass: Kahn's algorithm, which
    repeatedly emits a node none of whose predecessors is still waiting. Among
    the nodes that are ready at the same time it takes the one added to the
    graph first, so the order is a function of the input. Insertion order is
    row order only when every dependency names an earlier row; a dependency on
    a later row adds that name to the graph early. It emits every node
    exactly when the graph has no cycle. */
module Kahn {
  import opened Prelude
  import opened Graphs

  /** No edge into `v` starts at a node that is still waiting: `v` has
      in-degree zero in the graph restricted to `rem`. */
  predicate Ready(g: Graph, rem: seq<string>, v: string) {
    forall e :: e in g.edges && e.1 == v ==> e.0 !in rem
  }

  /** Position of the first ready node of `rem` at or after `from`. */
  function FindReady(g: Graph, rem: seq<string>, from: nat): (r: Option<nat>)
    requires from <= |rem|
    ensures r.Some? ==> from <= r.value < |rem| && Ready(g, rem, rem[r.value])
    ensures r.Some? ==> forall j :: from <= j < r.value ==> !Ready(g, rem, rem[j])
    ensures r.None? <==> forall j :: from <= j < |rem| ==> !Ready(g, rem, rem[j])
    decreases |rem| - from
  {
    if from == |rem| then None
    else if Ready(g, rem, rem[from]) then Some(from)
    else FindReady(g, rem, from + 1)
  }

  /** What holds between steps: `done` and `rem` together are the nodes, `done`
      is already in execution order, and every predecessor of an emitted node
      has been emitted. */
  ghost predicate KahnInvariant(g: Graph, rem: seq<string>, done: seq<string>) {
    && WellFormed(g)
    && multiset(done + rem) == multiset(g.nodes)
    && (forall i, j :: 0 <= i < |done| && 0 <= j < |done| && (done[i], done[j]) in g.edges ==> i < j)
    && (forall e :: e in g.edges && e.1 in done ==> e.0 in done)
  }

  /** A node still waiting has not been emitted. */
  lemma WaitingNotDone(g: Graph, rem: seq<string>, done: seq<string>, v: string)
    requires KahnInvariant(g, rem, done)
    requires v in rem
    ensures v !in done
  {
    PermutationKeepsDistinct(g.nodes, done + rem);
    var k :| 0 <= k < |rem| && rem[k] == v;
    forall i | 0 <= i < |done| ensures done[i] != v {
      assert (done + rem)[i] == done[i] && (done + rem)[|done| + k] == v;
    }
  }

  /** The waiting nodes once the one at position `k` is emitted: the others,
      in the same order. */
  function Without(rem: seq<string>, k: nat): (r: seq<string>)
    requires k < |rem|
    ensures |r| == |rem| - 1
    ensures forall i :: 0 <= i < k ==> r[i] == rem[i]
    ensures forall i :: k <= i < |r| ==> r[i] == rem[i + 1]
  {
    rem[..k] + rem[k + 1..]
  }

  /** Emitting a ready node keeps the invariant. */
  lemma EmitKeepsInvariant(g: Graph, rem: seq<string>, done: seq<string>, k: nat)
    requires KahnInvariant(g, rem, done)
    requires k < |rem| && Ready(g, rem, rem[k])
    ensures KahnInvariant(g, Without(rem, k), done + [rem[k]])
  {
    var v := rem[k];
    var rem', done' := Without(rem, k), done + [v];
    assert rem' == rem[..k] + rem[k + 1..];
    assert rem == rem[..k] + [v] + rem[k + 1..];
    assert done' + rem' == done + ([v] + rem[..k] + rem[k + 1..]);
    assert multiset(done' + rem') == multiset(done + rem);
    WaitingNotDone(g, rem, done, v);
    forall i, j | 0 <= i < |done'| && 0 <= j < |done'| && (done'[i], done'[j]) in g.edges
      ensures i < j
    {
      if j < |done| {
        assert done'[j] == done[j];
        assert done'[i] in done;
        if i < |done| {
          assert done'[i] == done[i];
        }
      } else {
        assert done'[j] == v;
        assert done'[i] !in rem;
      }
    }
    forall e | e in g.edges && e.1 in done'
      ensures e.0 in done'
    {
      if e.1 !in done {
        assert e.0 !in rem;
        assert e.0 in multiset(done + rem);
      }
    }
  }

  /** No waiting node is ready. The trigger keeps the solver from chasing
      predecessors on its own. */
  predicate Stuck(g: Graph, rem: seq<string>) {
    forall v {:trigger Ready(g, rem, v)} :: v in rem ==> !Ready(g, rem, v)
  }

  /** A backward walk of `n` steps from `v` that never leaves `rem`, possible
      when every node of `rem` has a predecessor in `rem`. */
  lemma {:induction false} BackwardWalk(g: Graph, rem: seq<string>, v: string, n: nat) returns (w: seq<string>)
    requires v in rem
    requires Stuck(g, rem)
    ensures |w| == n + 1 && w[0] == v
    ensures forall k :: 0 <= k < |w| ==> w[k] in rem
    ensures forall k :: 0 <= k < |w| - 1 ==> (w[k + 1], w[k]) in g.edges
  {
    if n == 0 {
      w := [v];
    } else {
      var w' := BackwardWalk(g, rem, v, n - 1);
      var x := w'[n - 1];
      assert !Ready(g, rem, x);
      var e :| e in g.edges && e.1 == x && e.0 in rem;
      w := w' + [e.0];
      assert forall k :: 0 <= k < n ==> w[k] == w'[k];
    }
  }

  /** When no waiting node is ready, the waiting nodes contain a cycle. */
  lemma StuckMeansCycle(g: Graph, rem: seq<string>)
    requires |rem| > 0
    requires Stuck(g, rem)
    ensures HasCycle(g)
  {
    CardinalityOfElements(rem);
    var w := BackwardWalk(g, rem, rem[0], |rem|);
    assert forall k :: 0 <= k < |w| ==> w[k] in Elements(rem);
    Pigeonhole(w, Elements(rem));
    var i, j :| 0 <= i < j < |w| && w[i] == w[j];
    RepeatGivesCycle(g, w, i, j);
  }

  /** A backward walk that revisits a node, read forwards between the two
      visits, is a cycle. */
  lemma RepeatGivesCycle(g: Graph, w: seq<string>, i: nat, j: nat)
    requires i < j < |w| && w[i] == w[j]
    requires forall k :: 0 <= k < |w| - 1 ==> (w[k + 1], w[k]) in g.edges
    ensures HasCycle(g)
  {
    var p := seq(j - i, m requires 0 <= m < j - i => w[j - m]);
    forall m | 0 <= m < |p| - 1
      ensures (p[m], p[m + 1]) in g.edges
    {
      var k := j - m - 1;
      assert p[m] == w[k + 1] && p[m + 1] == w[k];
    }
    assert p[|p| - 1] == w[i + 1] && p[0] == w[i];
    assert IsCycle(g, p);
  }

  /** Kahn's loop: emit the first ready node, or stop when none is ready. */
  function KahnLoop(g: Graph, rem: seq<string>, done: seq<string>): (r: Option<seq<string>>)
    requires KahnInvariant(g, rem, done)
    ensures r.Some? ==> IsTopologicalOrder(g, r.value)
    ensures r.None? ==> HasCycle(g)
    decreases |rem|
  {
    if rem == [] then
      assert done + rem == done;
      Some(done)
    else
      match FindReady(g, rem, 0)
      case None =>
        StuckMeansCycle(g, rem);
        None
      case Some(k) =>
        EmitKeepsInvariant(g, rem, done, k);
        KahnLoop(g, Without(rem, k), done + [rem[k]])
  }

  /** `nx.is_directed_acyclic_graph` and `nx.topological_sort` together: an
      execution order exactly when the graph has no cycle. */
  function TopoSort(g: Graph): (r: Option<seq<string>>)
    requires WellFormed(g)
    ensures r.Some? <==> !HasCycle(g)
    ensures r.Some? ==> IsTopologicalOrder(g, r.value)
  {
    assert [] + g.nodes == g.nodes;
    var r := KahnLoop(g, g.nodes, []);
    if r.Some? then TopologicalOrderExcludesCycle(g, r.value); r else r
  }

  /** One turn of Kahn's loop: the first ready node is emitted. */
  lemma KahnTurn(g: Graph, rem: seq<string>, done: seq<string>, k: nat)
    requires KahnInvariant(g, rem, done)
    requires |rem| > 0 && FindReady(g, rem, 0) == Some(k)
    ensures KahnInvariant(g, Without(rem, k), done + [rem[k]])
    ensures KahnLoop(g, rem, done) == KahnLoop(g, Without(rem, k), done + [rem[k]])
  {
    EmitKeepsInvariant(g, rem, done, k);
  }

  /** No edge of `g` runs backwards along `rem`. */
  predicate Forward(g: Graph, rem: seq<string>) {
    forall i, j :: 0 <= i < |rem| && 0 <= j < |rem| && (rem[i], rem[j]) in g.edges ==> i < j
  }

  /** When no edge runs backwards along the waiting nodes, the first of them
      is ready, and it is the one Kahn's loop picks. */
  lemma FrontIsReady(g: Graph, rem: seq<string>)
    requires |rem| > 0 && Forward(g, rem)
    ensures FindReady(g, rem, 0) == Some(0)
  {
    assert Ready(g, rem, rem[0]);
  }

  /** Emitting the first waiting node leaves the rest in order. */
  lemma FrontLeaves(g: Graph, rem: seq<string>)
    requires |rem| > 0 && Forward(g, rem)
    ensures Forward(g, Without(rem, 0))
  {
    var rest := Without(rem, 0);
    forall i, j | 0 <= i < |rest| && 0 <= j < |rest| && (rest[i], rest[j]) in g.edges
      ensures i < j
    {
      assert rest[i] == rem[i + 1] && rest[j] == rem[j + 1];
    }
  }

  /** Moving the first waiting node to the emitted ones keeps the sequence
      of all nodes. */
  lemma FrontMoves(rem: seq<string>, done: seq<string>)
    requires |rem| > 0
    ensures done + [rem[0]] + Without(rem, 0) == done + rem
  {
    var rest := Without(rem, 0);
    assert [rem[0]] + rest == rem;
    assert done + [rem[0]] + rest == done + ([rem[0]] + rest);
  }

  /** When no edge runs backwards along the waiting nodes, Kahn's loop with
      this tie-break emits them in the order they wait. */
  lemma {:induction false} KahnKeepsOrder(g: Graph, rem: seq<string>, done: seq<string>)
    requires KahnInvariant(g, rem, done)
    requires Forward(g, rem)
    ensures KahnLoop(g, rem, done) == Some(done + rem)
    decreases |rem|
  {
    if rem == [] {
      assert done + rem == done;
    } else {
      FrontIsReady(g, rem);
      KahnTurn(g, rem, done, 0);
      FrontLeaves(g, rem);
      FrontMoves(rem, done);
      KahnKeepsOrder(g, Without(rem, 0), done + [rem[0]]);
    }
  }

  /** When the order in which nodes were added is already an execution order,
      Kahn's algorithm with this tie-break returns it unchanged. */
  lemma DeclarationOrderIsKept(g: Graph)
    requires WellFormed(g)
    requires IsTopologicalOrder(g, g.nodes)
    ensures TopoSort(g) == Some(g.nodes)
  {
    assert [] + g.nodes == g.nodes;
    KahnKeepsOrder(g, g.nodes, []);
  }
}
