/** Concrete task lists and what the engine does with them. */
module Scenarios {
  import opened Tasks
  import opened Graphs
  import opened Trial
  import opened CriticalPath
  import opened Planning

  /** A single task without dependencies is accepted and is the whole
      execution order. */
  lemma SingleTaskAccepted(name: string, lo: real, hi: real)
    requires !Blank(name)
    ensures Plan([Task(name, lo, hi, [])]) == Ok(Schedule(map[name := Task(name, lo, hi, [])], [name]))
  {
    var tasks := [Task(name, lo, hi, [])];
    assert Names(tasks) == [name];
    assert tasks[..0] == [];
    EarlierDepsAccepted(tasks);
  }

  /** A task that depends on itself is a cycle of length one. */
  lemma SelfDependencyRejected(name: string, lo: real, hi: real)
    requires !Blank(name)
    ensures Plan([Task(name, lo, hi, [name])]) == Err(CyclicDependencies)
  {
    var tasks := [Task(name, lo, hi, [name])];
    var g := BuildGraph(tasks);
    assert Names(tasks) == [name];
    assert (name, name) in DeclaredEdges(tasks);
    assert IsCycle(g, [name]);
  }

  /** Two tasks that wait for each other are rejected as a cycle. */
  lemma MutualDependencyRejected(a: Task, b: Task)
    requires a.name != b.name && !Blank(a.name) && !Blank(b.name)
    requires a.deps == [b.name] && b.deps == [a.name]
    ensures Plan([a, b]) == Err(CyclicDependencies)
  {
    TwoNamesValid(a, b);
    MutualDependencyCycle(a, b);
  }

  /** One name that is not blank passes the name check. */
  lemma OneNameValid(t: Task)
    requires !Blank(t.name)
    ensures NamesValid([t])
  {
    assert Names([t]) == [t.name];
  }

  /** Two different names that are not blank pass the name check. */
  lemma TwoNamesValid(a: Task, b: Task)
    requires a.name != b.name && !Blank(a.name) && !Blank(b.name)
    ensures NamesValid([a, b])
  {
    assert Names([a, b]) == [a.name, b.name];
  }

  /** The two edges between `a` and `b` close a cycle. */
  lemma MutualDependencyCycle(a: Task, b: Task)
    requires a.deps == [b.name] && b.deps == [a.name]
    ensures IsCycle(BuildGraph([a, b]), [a.name, b.name])
  {
    var tasks := [a, b];
    assert (a.name, b.name) in DeclaredEdges(tasks) by {
      assert tasks[1].name == b.name && a.name in tasks[1].deps;
    }
    assert (b.name, a.name) in DeclaredEdges(tasks) by {
      assert tasks[0].name == a.name && b.name in tasks[0].deps;
    }
  }

  /** Two tasks called "Design" are rejected, whatever else they say. */
  lemma DuplicateNamesRejected(a: Task, b: Task)
    requires a.name == "Design" && b.name == "Design"
    ensures Plan([a, b]) == Err(InvalidNames)
  {
    assert Names([a, b])[0] == Names([a, b])[1];
  }

  /** A name made only of spaces is rejected. */
  lemma BlankNameRejected(t: Task)
    requires t.name == "   "
    ensures Plan([t]) == Err(InvalidNames)
  {
    BlankRowRejected([t], 0);
  }

  /** One blank name anywhere in the list is enough to reject it. */
  lemma BlankRowRejected(tasks: seq<Task>, i: nat)
    requires i < |tasks| && forall k :: 0 <= k < |tasks[i].name| ==> tasks[i].name[k] == ' '
    ensures Plan(tasks) == Err(InvalidNames)
  {
    assert Blank(tasks[i].name);
  }

  /** An empty form passes every check before the trials, then has no end
      time to take the maximum of. */
  lemma NoTasksRejected()
    ensures Plan([]) == Err(NoTasks)
  {
    assert NamesValid([]);
  }

  /** A task whose one dependency names no task: the graph gets the unknown
      name as a second node, and the edge from it is no cycle. */
  lemma UnknownDependencyIsAcyclic(t: Task, z: string)
    requires z != t.name && t.deps == [z]
    ensures !HasCycle(BuildGraph([t]))
  {
    var g := BuildGraph([t]);
    OneDependencyGraph(t, z);
    var order := [z, t.name];
    assert multiset(order) == multiset(g.nodes);
    assert IsTopologicalOrder(g, order) by {
      forall i, j | 0 <= i < |order| && 0 <= j < |order| && (order[i], order[j]) in g.edges
        ensures i < j
      {
      }
    }
    TopologicalOrderExcludesCycle(g, order);
  }

  /** The graph of one task with one dependency on another name: the task,
      then the new name, and the one edge between them. */
  lemma OneDependencyGraph(t: Task, z: string)
    requires z != t.name && t.deps == [z]
    ensures BuildGraph([t]).nodes == [t.name, z]
    ensures forall e :: e in BuildGraph([t]).edges <==> e == (z, t.name)
  {
    var tasks := [t];
    assert tasks[..0] == [];
    assert AddNode([], t.name) == [t.name];
    assert AddNodes([t.name], [z]) == AddNodes([t.name, z], []);
    assert EdgesInto(t) == {(z, t.name)};
  }

  /** A dependency that names no task is not a cycle; it fails the lookup by
      name in the trial loop. */
  lemma UnknownDependencyRejected(t: Task, z: string)
    requires !Blank(t.name) && z != t.name && t.deps == [z]
    ensures Plan([t]) == Err(UnknownDependency)
  {
    var tasks := [t];
    OneNameValid(t);
    UnknownDependencyIsAcyclic(t, z);
    assert !DepsKnown(tasks) by {
      assert z in tasks[0].deps && z !in Names(tasks);
    }
  }

  /** Task `b` waits for task `a`: the rows are accepted in order. */
  lemma TwoInARowAccepted(a: Task, b: Task)
    requires a.name != b.name && !Blank(a.name) && !Blank(b.name)
    requires a.deps == [] && b.deps == [a.name]
    ensures Plan([a, b]) == Ok(Schedule(TaskMap([a, b]), [a.name, b.name]))
    ensures Executable(TaskMap([a, b]), [a.name, b.name])
    ensures TaskMap([a, b])[a.name] == a && TaskMap([a, b])[b.name] == b
  {
    var tasks := [a, b];
    TwoNamesValid(a, b);
    assert Names(tasks) == [a.name, b.name];
    assert DepsEarlier(tasks) by {
      forall i, d | 0 <= i < |tasks| && d in tasks[i].deps
        ensures exists j :: 0 <= j < i && tasks[j].name == d
      {
        assert i == 1 && d == a.name && tasks[0].name == d;
      }
    }
    EarlierDepsAccepted(tasks);
    TaskMapFindsTask(tasks, 0);
    TaskMapFindsTask(tasks, 1);
  }

  /** Task `b` waits for task `a`, neither has a range (and `b` is not
      negative, as the form ensures): every trial takes the two durations one
      after the other. */
  lemma TwoInARow(a: Task, b: Task, dur: Draw)
    requires a.name != b.name && !Blank(a.name) && !Blank(b.name)
    requires a.deps == [] && b.deps == [a.name]
    requires a.lo == a.hi && 0.0 <= b.lo == b.hi
    requires Sampled(TaskMap([a, b]), [a.name, b.name], dur)
    ensures Plan([a, b]) == Ok(Schedule(TaskMap([a, b]), [a.name, b.name]))
    ensures Executable(TaskMap([a, b]), [a.name, b.name])
    ensures TrialTotal(TaskMap([a, b]), [a.name, b.name], dur) == a.lo + b.lo
  {
    TwoInARowAccepted(a, b);
    TwoTasksInOrder(TaskMap([a, b]), a.name, b.name, dur);
  }

  /** The trial of a two-task order where the second waits for the first. */
  lemma TwoTasksInOrder(m: map<string, Task>, x: string, y: string, dur: Draw)
    requires x != y && x in m && y in m && m[x].deps == [] && m[y].deps == [x]
    requires Executable(m, [x, y]) && Sampled(m, [x, y], dur)
    requires 0.0 <= dur[y]
    ensures TrialTotal(m, [x, y], dur) == dur[x] + dur[y]
  {
    var order := [x, y];
    var tl := RunTrial(m, order, dur);
    PropagateIsScheduled(m, order, dur);
    assert ScheduledAt(x, m[x], dur[x], tl);
    assert ScheduledAt(y, m[y], dur[y], tl);
    assert tl.end[x] == dur[x];
    assert tl.end[y] == dur[x] + dur[y];
  }

  /** "T1" (2 to 2 days) then "T2" (3 to 3 days, after "T1"): every trial
      takes exactly 5 days. */
  lemma TwoInARowTakesFiveDays(a: Task, b: Task, dur: Draw)
    requires a == Task("T1", 2.0, 2.0, []) && b == Task("T2", 3.0, 3.0, ["T1"])
    requires Sampled(TaskMap([a, b]), ["T1", "T2"], dur)
    ensures Plan([a, b]) == Ok(Schedule(TaskMap([a, b]), ["T1", "T2"]))
    ensures Executable(TaskMap([a, b]), ["T1", "T2"])
    ensures TrialTotal(TaskMap([a, b]), ["T1", "T2"], dur) == 5.0
  {
    assert a.name[0] == 'T' && b.name[0] == 'T' && !IsSpace('T');
    TwoInARow(a, b, dur);
  }
}
