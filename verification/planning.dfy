/** Everything the engine decides before the first trial: the name check, the
    dependency graph, the cycle check and the execution order. The two
    crashes of the trial loop that do not depend on the random draws (a
    dependency that names no task, and an empty task list) are decided here
    too, so that a run either fails with one error or gets an order every
    trial can walk. */
module Planning {
  import opened Prelude
  import opened Tasks
  import opened Graphs
  import opened Kahn
  import opened Trial

  /** What the trials need: the tasks by name and the execution order. */
  datatype Schedule = Schedule(tasks: map<string, Task>, order: seq<string>)

  /** Every dependency names a task; otherwise looking the dependency up by
      name fails when the trial loop reaches it. */
  predicate DepsKnown(tasks: seq<Task>) {
    forall i, d :: 0 <= i < |tasks| && d in tasks[i].deps ==> d in Names(tasks)
  }

  /** Validation, graph, cycle check and order, in the order the engine runs
      them; the first failing step decides the error. */
  function Plan(tasks: seq<Task>): (r: Result<Schedule>)
    ensures r == Err(InvalidNames) <==> !NamesValid(tasks)
    ensures r == Err(CyclicDependencies) <==> NamesValid(tasks) && HasCycle(BuildGraph(tasks))
    ensures r == Err(UnknownDependency) <==> NamesValid(tasks) && !HasCycle(BuildGraph(tasks)) && !DepsKnown(tasks)
    ensures r == Err(NoTasks) <==> NamesValid(tasks) && |tasks| == 0
    ensures r.Ok? ==> && r.value.tasks == TaskMap(tasks)
                      && IsTopologicalOrder(BuildGraph(tasks), r.value.order)
                      && multiset(r.value.order) == multiset(Names(tasks))
                      && (forall n :: n in r.value.order <==> n in Names(tasks))
                      && Distinct(r.value.order)
                      && Executable(r.value.tasks, r.value.order)
                      && |r.value.order| > 0
  {
    if !NamesOk(tasks) then Err(InvalidNames)
    else
      var g := BuildGraph(tasks);
      match TopoSort(g)
      case None => Err(CyclicDependencies)
      case Some(order) =>
        if !DepsKnown(tasks) then Err(UnknownDependency)
        else if |tasks| == 0 then Err(NoTasks)
        else
          OrderIsExecutable(tasks, order);
          Ok(Schedule(TaskMap(tasks), order))
  }

  /** With known dependencies the names the rows declare are the task names. */
  lemma DeclaredAreNames(tasks: seq<Task>)
    requires DepsKnown(tasks)
    ensures forall x :: x in Declared(tasks) <==> x in Names(tasks)
  {
    var names := Names(tasks);
    forall x ensures x in Declared(tasks) <==> x in names {
      if x in (set i, y | 0 <= i < |tasks| && y in tasks[i].deps :: y) {
        var i, d :| 0 <= i < |tasks| && d in tasks[i].deps && d == x;
        assert x in names;
      }
      if x in (set i | 0 <= i < |tasks| :: tasks[i].name) {
        var i :| 0 <= i < |tasks| && tasks[i].name == x;
        assert names[i] == x;
      }
      if x in names {
        var i :| 0 <= i < |names| && names[i] == x;
        assert x in (set i | 0 <= i < |tasks| :: tasks[i].name);
      }
    }
  }

  /** With known dependencies the graph's nodes are exactly the task names. */
  lemma NodesAreNames(tasks: seq<Task>)
    requires DepsKnown(tasks)
    ensures Elements(BuildGraph(tasks).nodes) == Elements(Names(tasks))
  {
    DeclaredAreNames(tasks);
  }

  /** In an execution order of the graph, the dependencies of the task at
      position `k` all come earlier. */
  lemma DepsComeFirst(tasks: seq<Task>, order: seq<string>, k: nat)
    requires NamesValid(tasks) && DepsKnown(tasks)
    requires IsTopologicalOrder(BuildGraph(tasks), order)
    requires multiset(order) == multiset(Names(tasks))
    requires k < |order|
    ensures order[k] in TaskMap(tasks) && ReadyAt(TaskMap(tasks), order, k)
  {
    var g := BuildGraph(tasks);
    var names := Names(tasks);
    var n := order[k];
    assert n in multiset(names);
    var i :| 0 <= i < |tasks| && names[i] == n;
    TaskMapFindsTask(tasks, i);
    forall d | d in tasks[i].deps
      ensures d in order[..k]
    {
      assert (d, n) in DeclaredEdges(tasks);
      assert d in names;
      assert d in multiset(order);
      var j :| 0 <= j < |order| && order[j] == d;
      assert (order[j], order[k]) in g.edges;
      assert order[..k][j] == d;
    }
  }

  /** With valid names and known dependencies, an execution order of the
      graph is a repetition-free arrangement of the names that the trial loop
      can walk. */
  lemma OrderIsExecutable(tasks: seq<Task>, order: seq<string>)
    requires NamesValid(tasks) && DepsKnown(tasks)
    requires IsTopologicalOrder(BuildGraph(tasks), order)
    ensures multiset(order) == multiset(Names(tasks))
    ensures forall n :: n in order <==> n in Names(tasks)
    ensures Distinct(order)
    ensures Executable(TaskMap(tasks), order)
  {
    var g := BuildGraph(tasks);
    NodesAreNames(tasks);
    SameElementsPermutation(g.nodes, Names(tasks));
    forall n ensures n in order <==> n in Names(tasks) {
      assert n in order <==> n in multiset(order);
    }
    PermutationKeepsDistinct(g.nodes, order);
    forall k | 0 <= k < |order|
      ensures order[k] in TaskMap(tasks) && ReadyAt(TaskMap(tasks), order, k)
    {
      DepsComeFirst(tasks, order, k);
    }
  }

  /** Each dependency names an earlier row: the shape the form produces, whose
      dependency choices are the names of the rows above. */
  predicate DepsEarlier(tasks: seq<Task>) {
    forall i, d :: 0 <= i < |tasks| && d in tasks[i].deps ==> exists j :: 0 <= j < i && tasks[j].name == d
  }

  /** When every dependency names an earlier row, building the graph adds the
      task names as nodes in row order and nothing else. */
  lemma {:induction false} EarlierDepsGraphNodes(tasks: seq<Task>)
    requires Distinct(Names(tasks)) && DepsEarlier(tasks)
    ensures BuildGraph(tasks).nodes == Names(tasks)
    decreases |tasks|
  {
    if tasks != [] {
      var last := |tasks| - 1;
      var init := tasks[..last];
      var t := tasks[last];
      assert Names(tasks) == Names(init) + [t.name];
      DistinctPrefix(Names(tasks), last);
      assert Names(tasks)[..last] == Names(init);
      assert DepsEarlier(init) by {
        forall i, d | 0 <= i < |init| && d in init[i].deps
          ensures exists j :: 0 <= j < i && init[j].name == d
        {
          assert tasks[i] == init[i];
          var j :| 0 <= j < i && tasks[j].name == d;
          assert init[j].name == d;
        }
      }
      EarlierDepsGraphNodes(init);
      var g := BuildGraph(init);
      assert t.name !in g.nodes by {
        forall k | 0 <= k < last ensures Names(tasks)[k] != t.name {
          assert Names(tasks)[last] == t.name;
        }
      }
      forall d | d in t.deps
        ensures d in AddNode(g.nodes, t.name)
      {
        var j :| 0 <= j < last && tasks[j].name == d;
        assert Names(init)[j] == d;
      }
    }
  }

  /** When every dependency names an earlier row, a declared edge between
      two rows runs from the earlier row to the later one. */
  lemma EdgeRunsForward(tasks: seq<Task>, a: nat, b: nat)
    requires Distinct(Names(tasks)) && DepsEarlier(tasks)
    requires a < |tasks| && b < |tasks|
    requires (tasks[a].name, tasks[b].name) in DeclaredEdges(tasks)
    ensures a < b
  {
    var names := Names(tasks);
    var i, d :| 0 <= i < |tasks| && d in tasks[i].deps && (d, tasks[i].name) == (tasks[a].name, tasks[b].name);
    assert names[i] == names[b];
    var j :| 0 <= j < i && tasks[j].name == d;
    assert names[j] == names[a];
  }

  /** When every dependency names an earlier row, the rows in order are an
      execution order of the graph. */
  lemma EarlierDepsRowOrder(tasks: seq<Task>)
    requires Distinct(Names(tasks)) && DepsEarlier(tasks)
    ensures IsTopologicalOrder(BuildGraph(tasks), Names(tasks))
  {
    var g := BuildGraph(tasks);
    var names := Names(tasks);
    EarlierDepsGraphNodes(tasks);
    forall a, b | 0 <= a < |names| && 0 <= b < |names| && (names[a], names[b]) in g.edges
      ensures a < b
    {
      EdgeRunsForward(tasks, a, b);
    }
  }

  /** Dependencies that name earlier rows name tasks. */
  lemma EarlierDepsKnown(tasks: seq<Task>)
    requires DepsEarlier(tasks)
    ensures DepsKnown(tasks)
  {
    forall i, d | 0 <= i < |tasks| && d in tasks[i].deps
      ensures d in Names(tasks)
    {
      var j :| 0 <= j < i && tasks[j].name == d;
      assert Names(tasks)[j] == d;
    }
  }

  /** Valid rows whose dependencies all name earlier rows are accepted, and
      the execution order is the row order: the tie-break of the model keeps
      rows that are already in order where they are. */
  lemma EarlierDepsAccepted(tasks: seq<Task>)
    requires NamesValid(tasks) && DepsEarlier(tasks) && |tasks| > 0
    ensures Plan(tasks) == Ok(Schedule(TaskMap(tasks), Names(tasks)))
  {
    EarlierDepsRowOrder(tasks);
    EarlierDepsGraphNodes(tasks);
    DeclarationOrderIsKept(BuildGraph(tasks));
    EarlierDepsKnown(tasks);
  }
}
