/** One simulated trial: walk the tasks in execution order; a task with no
    prerequisite starts at day 0, any other task starts when the last of its
    prerequisites ends, and ends its sampled duration later. The trial's total
    is the latest end. The random draw is an input: `dur` gives each task's
    sampled duration for this trial. */
module Trial {
  import opened Prelude
  import opened Tasks

  /** One trial's sampled durations, by task name. */
  type Draw = map<string, real>

  /** `task_start` and `task_end` of one trial. */
  datatype Timeline = Timeline(start: map<string, real>, end: map<string, real>)

  /** Python's `max` of a non-empty list: an element that no element exceeds. */
  function SeqMax(xs: seq<real>): (m: real)
    requires |xs| > 0
    ensures forall i :: 0 <= i < |xs| ==> xs[i] <= m
    ensures exists i :: 0 <= i < |xs| && xs[i] == m
  {
    if |xs| == 1 then xs[0]
    else
      var r := SeqMax(xs[1..]);
      assert forall i :: 1 <= i < |xs| ==> xs[i] == xs[1..][i - 1];
      if xs[0] >= r then xs[0] else r
  }

  /** The end times of the named tasks, in the order named. */
  function Ends(names: seq<string>, end: map<string, real>): (r: seq<real>)
    requires forall n :: n in names ==> n in end
    ensures |r| == |names|
    ensures forall i :: 0 <= i < |names| ==> r[i] == end[names[i]]
  {
    seq(|names|, i requires 0 <= i < |names| => end[names[i]])
  }

  /** The start time of a task given the end times known so far: day 0 without
      prerequisites, otherwise no earlier than any prerequisite's end and equal
      to one of them (an AND-join). */
  function StartTime(t: Task, end: map<string, real>): (s: real)
    requires forall d :: d in t.deps ==> d in end
    ensures |t.deps| == 0 ==> s == 0.0
    ensures forall d :: d in t.deps ==> end[d] <= s
    ensures |t.deps| > 0 ==> exists d :: d in t.deps && end[d] == s
  {
    if |t.deps| == 0 then 0.0
    else
      var xs := Ends(t.deps, end);
      var s := SeqMax(xs);
      assert forall d :: d in t.deps ==> end[d] in xs by {
        forall d | d in t.deps ensures end[d] in xs {
          var i :| 0 <= i < |t.deps| && t.deps[i] == d;
          assert xs[i] == end[d];
        }
      }
      var i :| 0 <= i < |xs| && xs[i] == s;
      assert t.deps[i] in t.deps && end[t.deps[i]] == s;
      s
  }

  /** An order the trial loop can walk: every name is a task, and every
      prerequisite of a task comes earlier in the order. */
  predicate Executable(tasks: map<string, Task>, order: seq<string>) {
    && (forall n :: n in order ==> n in tasks)
    && (forall k :: 0 <= k < |order| ==> ReadyAt(tasks, order, k))
  }

  /** The prerequisites of the task at position `k` come earlier. */
  predicate ReadyAt(tasks: map<string, Task>, order: seq<string>, k: nat)
    requires k < |order| && order[k] in tasks
  {
    forall d :: d in tasks[order[k]].deps ==> d in order[..k]
  }

  predicate Covers(order: seq<string>, dur: Draw) {
    forall n :: n in order ==> n in dur
  }

  /** The scheduling equations of one task `n` in a finished timeline. */
  ghost predicate ScheduledAt(n: string, t: Task, d: real, tl: Timeline) {
    && n in tl.start && n in tl.end
    && (forall x :: x in t.deps ==> x in tl.end)
    && tl.end[n] == tl.start[n] + d
    && (|t.deps| == 0 ==> tl.start[n] == 0.0)
    && (forall x :: x in t.deps ==> tl.end[x] <= tl.start[n])
    && (|t.deps| > 0 ==> exists x :: x in t.deps && tl.end[x] == tl.start[n])
  }

  /** A timeline over exactly the ordered tasks that meets every task's
      equations. */
  ghost predicate Scheduled(tasks: map<string, Task>, order: seq<string>, dur: Draw, tl: Timeline)
    requires Executable(tasks, order) && Covers(order, dur)
  {
    && (forall n :: n in tl.start <==> n in order)
    && (forall n :: n in tl.end <==> n in order)
    && forall n {:trigger ScheduledAt(n, tasks[n], dur[n], tl)} :: n in order ==> ScheduledAt(n, tasks[n], dur[n], tl)
  }

  lemma ExecutablePrefix(tasks: map<string, Task>, order: seq<string>, dur: Draw, m: nat)
    requires Executable(tasks, order) && Covers(order, dur)
    requires m <= |order|
    ensures Executable(tasks, order[..m]) && Covers(order[..m], dur)
  {
    forall k | 0 <= k < m ensures ReadyAt(tasks, order[..m], k) {
      assert ReadyAt(tasks, order, k);
      assert order[..m][..k] == order[..k];
    }
  }

  /** The trial loop: process `order` from left to right, recording each
      task's start and end. */
  function Propagate(tasks: map<string, Task>, order: seq<string>, dur: Draw): (tl: Timeline)
    requires Executable(tasks, order) && Covers(order, dur)
    ensures forall n :: n in tl.start <==> n in order
    ensures forall n :: n in tl.end <==> n in order
    decreases |order|
  {
    if order == [] then Timeline(map[], map[])
    else
      var m := |order| - 1;
      var n := order[m];
      ExecutablePrefix(tasks, order, dur, m);
      var prev := Propagate(tasks, order[..m], dur);
      assert order == order[..m] + [n];
      assert ReadyAt(tasks, order, m);
      Extend(prev, n, tasks[n], dur[n])
  }

  /** Process one more task `n`: record its start and its end `d` days later. */
  function Extend(prev: Timeline, n: string, t: Task, d: real): (tl: Timeline)
    requires forall x :: x in t.deps ==> x in prev.end
    ensures tl.start.Keys == prev.start.Keys + {n} && tl.end.Keys == prev.end.Keys + {n}
    ensures tl.end[n] == tl.start[n] + d
    ensures forall x :: x in prev.start && x != n ==> tl.start[x] == prev.start[x]
    ensures forall x :: x in prev.end && x != n ==> tl.end[x] == prev.end[x]
  {
    var s := StartTime(t, prev.end);
    Timeline(prev.start[n := s], prev.end[n := s + d])
  }

  /** The timeline of one trial: it records exactly the ordered tasks, and on
      an order without repetitions it meets every task's scheduling
      equations. */
  function RunTrial(tasks: map<string, Task>, order: seq<string>, dur: Draw): (tl: Timeline)
    requires Executable(tasks, order) && Covers(order, dur)
    ensures forall n :: n in tl.start <==> n in order
    ensures forall n :: n in tl.end <==> n in order
    ensures Distinct(order) ==> Scheduled(tasks, order, dur, tl)
  {
    ScheduledIfDistinct(tasks, order, dur);
    Propagate(tasks, order, dur)
  }

  lemma ScheduledIfDistinct(tasks: map<string, Task>, order: seq<string>, dur: Draw)
    requires Executable(tasks, order) && Covers(order, dur)
    ensures Distinct(order) ==> Scheduled(tasks, order, dur, Propagate(tasks, order, dur))
  {
    if Distinct(order) {
      PropagateIsScheduled(tasks, order, dur);
    }
  }

  /** `max(task_end.values())`: the project ends when its last task ends. */
  function Total(order: seq<string>, tl: Timeline): (m: real)
    requires |order| > 0
    requires forall n :: n in order ==> n in tl.end
    ensures forall n :: n in order ==> tl.end[n] <= m
    ensures exists n :: n in order && tl.end[n] == m
  {
    var xs := Ends(order, tl.end);
    var m := SeqMax(xs);
    assert forall n :: n in order ==> tl.end[n] in xs by {
      forall n | n in order ensures tl.end[n] in xs {
        var i :| 0 <= i < |order| && order[i] == n;
        assert xs[i] == tl.end[n];
      }
    }
    var i :| 0 <= i < |xs| && xs[i] == m;
    assert order[i] in order && tl.end[order[i]] == m;
    m
  }

  /** The total of one trial: the latest end of the trial's timeline. */
  function TrialTotal(tasks: map<string, Task>, order: seq<string>, dur: Draw): (r: real)
    requires Executable(tasks, order) && Covers(order, dur) && |order| > 0
    ensures forall n :: n in order ==> RunTrial(tasks, order, dur).end[n] <= r
    ensures exists n :: n in order && RunTrial(tasks, order, dur).end[n] == r
  {
    Total(order, RunTrial(tasks, order, dur))
  }

  /** The task just processed meets its equations. */
  lemma ExtendSchedules(prev: Timeline, n: string, t: Task, d: real)
    requires forall x :: x in t.deps ==> x in prev.end
    requires n !in prev.end
    ensures ScheduledAt(n, t, d, Extend(prev, n, t, d))
  {
    var tl := Extend(prev, n, t, d);
    var s := StartTime(t, prev.end);
    assert tl.start[n] == s;
    assert forall x :: x in t.deps ==> tl.end[x] == prev.end[x];
  }

  /** Processing a task `n` that was not yet recorded keeps the equations of
      every task recorded before it: their times and their prerequisites'
      ends stay as they were. */
  lemma ExtendKeeps(x: string, t: Task, d: real, prev: Timeline, n: string, u: Task, e: real)
    requires ScheduledAt(x, t, d, prev) && n !in prev.start && n !in prev.end
    requires forall y :: y in u.deps ==> y in prev.end
    ensures ScheduledAt(x, t, d, Extend(prev, n, u, e))
  {
    var tl := Extend(prev, n, u, e);
    assert forall y :: y in t.deps ==> tl.end[y] == prev.end[y];
    assert tl.start[x] == prev.start[x] && tl.end[x] == prev.end[x];
    if |t.deps| > 0 {
      var y :| y in t.deps && prev.end[y] == prev.start[x];
      assert tl.end[y] == tl.start[x];
    }
  }

  /** On a repetition-free order the trial's timeline meets every task's
      scheduling equations: start 0 without prerequisites, otherwise the
      latest prerequisite end, and end = start + sampled duration. */
  lemma {:induction false} PropagateIsScheduled(tasks: map<string, Task>, order: seq<string>, dur: Draw)
    requires Executable(tasks, order) && Covers(order, dur) && Distinct(order)
    ensures Scheduled(tasks, order, dur, Propagate(tasks, order, dur))
    decreases |order|
  {
    if order != [] {
      var m := |order| - 1;
      var n := order[m];
      var init := order[..m];
      ExecutablePrefix(tasks, order, dur, m);
      DistinctPrefix(order, m);
      PropagateIsScheduled(tasks, init, dur);
      var prev := Propagate(tasks, init, dur);
      assert ReadyAt(tasks, order, m);
      var tl := Extend(prev, n, tasks[n], dur[n]);
      assert Propagate(tasks, order, dur) == tl;
      assert n !in init by {
        forall k | 0 <= k < m ensures init[k] != n {
          assert init[k] == order[k];
        }
      }
      forall x | x in order
        ensures ScheduledAt(x, tasks[x], dur[x], tl)
      {
        if x == n {
          ExtendSchedules(prev, n, tasks[n], dur[n]);
        } else {
          var k :| 0 <= k < |order| && order[k] == x;
          assert init[k] == x;
          ExtendKeeps(x, tasks[x], dur[x], prev, n, tasks[n], dur[n]);
        }
      }
    }
  }

  /** The equations of one task fix its start and end once its prerequisites'
      ends are fixed. */
  lemma SameStart(n: string, t: Task, d: real, a: Timeline, b: Timeline)
    requires ScheduledAt(n, t, d, a) && ScheduledAt(n, t, d, b)
    requires forall x :: x in t.deps ==> a.end[x] == b.end[x]
    ensures a.start[n] == b.start[n] && a.end[n] == b.end[n]
  {
    if |t.deps| > 0 {
      var xa :| xa in t.deps && a.end[xa] == a.start[n];
      var xb :| xb in t.deps && b.end[xb] == b.start[n];
      assert a.start[n] >= a.end[xb] == b.start[n];
      assert b.start[n] >= b.end[xa] == a.start[n];
    }
  }

  /** Two timelines meeting the scheduling equations agree on the task at
      position `k`. */
  lemma {:induction false} AgreeAt(tasks: map<string, Task>, order: seq<string>, dur: Draw, a: Timeline, b: Timeline, k: nat)
    requires Executable(tasks, order) && Covers(order, dur)
    requires Scheduled(tasks, order, dur, a) && Scheduled(tasks, order, dur, b)
    requires k < |order|
    ensures a.start[order[k]] == b.start[order[k]] && a.end[order[k]] == b.end[order[k]]
    decreases k
  {
    var n := order[k];
    var t := tasks[n];
    assert ReadyAt(tasks, order, k);
    forall x | x in t.deps
      ensures a.end[x] == b.end[x]
    {
      var j :| 0 <= j < k && order[..k][j] == x;
      assert order[j] == x;
      AgreeAt(tasks, order, dur, a, b, j);
    }
    SameStart(n, t, dur[n], a, b);
  }

  /** Two timelines that both meet the scheduling equations over the order
      are the same timeline. */
  lemma SchedulesAgree(tasks: map<string, Task>, order: seq<string>, dur: Draw, a: Timeline, b: Timeline)
    requires Executable(tasks, order) && Covers(order, dur)
    requires Scheduled(tasks, order, dur, a) && Scheduled(tasks, order, dur, b)
    ensures a == b
  {
    forall n | n in order
      ensures a.start[n] == b.start[n] && a.end[n] == b.end[n]
    {
      var k :| 0 <= k < |order| && order[k] == n;
      AgreeAt(tasks, order, dur, a, b, k);
    }
    assert a.start == b.start;
    assert a.end == b.end;
  }

  /** The scheduling equations have exactly one solution, the trial's
      timeline: whatever meets them is what the trial loop computes. */
  lemma ScheduleIsUnique(tasks: map<string, Task>, order: seq<string>, dur: Draw, tl: Timeline)
    requires Executable(tasks, order) && Covers(order, dur) && Distinct(order)
    requires Scheduled(tasks, order, dur, tl)
    ensures tl == Propagate(tasks, order, dur)
  {
    PropagateIsScheduled(tasks, order, dur);
    SchedulesAgree(tasks, order, dur, tl, Propagate(tasks, order, dur));
  }

  /** A trial's timeline does not depend on which execution order the trial
      loop walks: any two repetition-free executable orders over the same
      tasks give the same start and end times, so the total and the sample
      rows do not depend on how ties between ready tasks are broken. */
  lemma OrderIndependent(tasks: map<string, Task>, o1: seq<string>, o2: seq<string>, dur: Draw)
    requires Executable(tasks, o1) && Covers(o1, dur) && Distinct(o1)
    requires Executable(tasks, o2) && Covers(o2, dur) && Distinct(o2)
    requires forall n :: n in o1 <==> n in o2
    ensures RunTrial(tasks, o1, dur) == RunTrial(tasks, o2, dur)
  {
    var tl := Propagate(tasks, o1, dur);
    PropagateIsScheduled(tasks, o1, dur);
    assert Scheduled(tasks, o2, dur, tl);
    ScheduleIsUnique(tasks, o2, dur, tl);
  }
}
