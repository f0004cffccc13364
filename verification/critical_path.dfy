/** What a trial's total means: the length of the longest chain of dependent
    tasks (the critical path) under that trial's sampled durations. With
    degenerate ranges (minimum equal to maximum) every trial therefore gives
    the same total. */
module CriticalPath {
  import opened Prelude
  import opened Tasks
  import opened Trial

  /** A dependency chain: each task is a prerequisite of the next one. */
  ghost predicate IsChain(tasks: map<string, Task>, c: seq<string>) {
    && |c| > 0
    && (forall k :: 0 <= k < |c| ==> c[k] in tasks)
    && (forall k :: 0 <= k < |c| - 1 ==> c[k] in tasks[c[k + 1]].deps)
  }

  /** The summed durations of a chain. */
  function Weight(dur: Draw, c: seq<string>): real
    requires forall k :: 0 <= k < |c| ==> c[k] in dur
  {
    if c == [] then 0.0 else Weight(dur, c[..|c| - 1]) + dur[c[|c| - 1]]
  }

  /** No sampled duration is negative (the form's minimum is 0 days). */
  predicate NonNegative(order: seq<string>, dur: Draw) {
    forall n :: n in order && n in dur ==> 0.0 <= dur[n]
  }

  /** The sampled durations of one trial lie in each task's range. */
  predicate Sampled(tasks: map<string, Task>, order: seq<string>, dur: Draw) {
    && Covers(order, dur)
    && forall n :: n in order ==> n in tasks && n in dur && tasks[n].lo <= dur[n] <= tasks[n].hi
  }

  /** With non-negative durations every task starts on or after day 0 and ends
      no earlier than it starts. */
  lemma {:induction false} TimesNonNegative(tasks: map<string, Task>, order: seq<string>, dur: Draw, tl: Timeline, k: nat)
    requires Executable(tasks, order) && Covers(order, dur) && NonNegative(order, dur)
    requires Scheduled(tasks, order, dur, tl)
    requires k < |order|
    ensures 0.0 <= tl.start[order[k]] <= tl.end[order[k]]
    decreases k
  {
    var n := order[k];
    assert ScheduledAt(n, tasks[n], dur[n], tl);
    if |tasks[n].deps| > 0 {
      var x :| x in tasks[n].deps && tl.end[x] == tl.start[n];
      assert ReadyAt(tasks, order, k);
      var j :| 0 <= j < k && order[..k][j] == x;
      assert order[j] == x;
      TimesNonNegative(tasks, order, dur, tl, j);
    }
  }

  /** No chain of tasks is longer than the end time of its last task. */
  lemma {:induction false} ChainBound(tasks: map<string, Task>, order: seq<string>, dur: Draw, tl: Timeline, c: seq<string>)
    requires Executable(tasks, order) && Covers(order, dur) && NonNegative(order, dur)
    requires Scheduled(tasks, order, dur, tl)
    requires IsChain(tasks, c) && forall k :: 0 <= k < |c| ==> c[k] in order
    ensures Weight(dur, c) <= tl.end[c[|c| - 1]]
    decreases |c|
  {
    var last := c[|c| - 1];
    var init := c[..|c| - 1];
    assert ScheduledAt(last, tasks[last], dur[last], tl);
    if |c| == 1 {
      var k := IndexOf(order, last);
      TimesNonNegative(tasks, order, dur, tl, k);
    } else {
      assert forall k :: 0 <= k < |init| ==> init[k] == c[k];
      assert IsChain(tasks, init);
      ChainBound(tasks, order, dur, tl, init);
      assert init[|init| - 1] == c[|c| - 2] && c[|c| - 2] in tasks[last].deps;
    }
  }

  /** Every task ends exactly at the weight of some chain that leads to it from
      a task without prerequisites. */
  lemma {:induction false} CriticalChain(tasks: map<string, Task>, order: seq<string>, dur: Draw, tl: Timeline, k: nat)
      returns (c: seq<string>)
    requires Executable(tasks, order) && Covers(order, dur)
    requires Scheduled(tasks, order, dur, tl)
    requires k < |order|
    ensures IsChain(tasks, c) && c[|c| - 1] == order[k]
    ensures forall i :: 0 <= i < |c| ==> c[i] in order
    ensures tasks[c[0]].deps == []
    ensures Weight(dur, c) == tl.end[order[k]]
    decreases k
  {
    var n := order[k];
    assert ScheduledAt(n, tasks[n], dur[n], tl);
    if |tasks[n].deps| == 0 {
      c := [n];
      assert c[..0] == [];
    } else {
      var x :| x in tasks[n].deps && tl.end[x] == tl.start[n];
      assert ReadyAt(tasks, order, k);
      var j :| 0 <= j < k && order[..k][j] == x;
      assert order[j] == x;
      var c' := CriticalChain(tasks, order, dur, tl, j);
      c := c' + [n];
      assert c[..|c| - 1] == c';
      assert forall i :: 0 <= i < |c'| ==> c[i] == c'[i];
    }
  }

  /** A trial's total is its critical-path length: no chain of dependent tasks
      is longer, and some chain from a task without prerequisites is exactly
      as long. */
  lemma TotalIsCriticalPath(tasks: map<string, Task>, order: seq<string>, dur: Draw)
    requires Executable(tasks, order) && Covers(order, dur) && Distinct(order) && |order| > 0
    requires NonNegative(order, dur)
    ensures forall c :: IsChain(tasks, c) && (forall k :: 0 <= k < |c| ==> c[k] in order)
              ==> Weight(dur, c) <= TrialTotal(tasks, order, dur)
    ensures exists c :: && IsChain(tasks, c) && (forall k :: 0 <= k < |c| ==> c[k] in order)
                        && tasks[c[0]].deps == [] && Weight(dur, c) == TrialTotal(tasks, order, dur)
  {
    var tl := RunTrial(tasks, order, dur);
    var total := TrialTotal(tasks, order, dur);
    PropagateIsScheduled(tasks, order, dur);
    forall c | IsChain(tasks, c) && (forall k :: 0 <= k < |c| ==> c[k] in order)
      ensures Weight(dur, c) <= total
    {
      ChainBound(tasks, order, dur, tl, c);
    }
    var n :| n in order && tl.end[n] == total;
    var c := CriticalChain(tasks, order, dur, tl, IndexOf(order, n));
  }

  /** A trial reads nothing but its own draw: two draws that agree on every
      task give the same timeline. */
  lemma {:induction false} SameDrawsSameTimeline(tasks: map<string, Task>, order: seq<string>, d1: Draw, d2: Draw)
    requires Executable(tasks, order) && Covers(order, d1) && Covers(order, d2)
    requires forall n :: n in order ==> d1[n] == d2[n]
    ensures RunTrial(tasks, order, d1) == RunTrial(tasks, order, d2)
    decreases |order|
  {
    if order != [] {
      var m := |order| - 1;
      var n := order[m];
      ExecutablePrefix(tasks, order, d1, m);
      ExecutablePrefix(tasks, order, d2, m);
      assert ReadyAt(tasks, order, m);
      assert forall x :: x in order[..m] ==> x in order;
      SameDrawsSameTimeline(tasks, order[..m], d1, d2);
      assert d1[n] == d2[n];
    }
  }

  /** With minimum equal to maximum for every task there is nothing random
      left: every trial gives the same total. */
  lemma FixedRangesFixTotal(tasks: map<string, Task>, order: seq<string>, d1: Draw, d2: Draw)
    requires Executable(tasks, order) && |order| > 0
    requires Sampled(tasks, order, d1) && Sampled(tasks, order, d2)
    requires forall n :: n in order ==> tasks[n].lo == tasks[n].hi
    ensures Covers(order, d1) && Covers(order, d2)
    ensures TrialTotal(tasks, order, d1) == TrialTotal(tasks, order, d2)
  {
    SameDrawsSameTimeline(tasks, order, d1, d2);
  }

  /** A chain cannot get lighter when no duration gets shorter. */
  lemma {:induction false} WeightMonotone(d1: Draw, d2: Draw, c: seq<string>)
    requires forall k :: 0 <= k < |c| ==> c[k] in d1 && c[k] in d2 && d1[c[k]] <= d2[c[k]]
    ensures Weight(d1, c) <= Weight(d2, c)
    decreases |c|
  {
    if c != [] {
      WeightMonotone(d1, d2, c[..|c| - 1]);
    }
  }

  /** Lengthening some tasks never shortens the project. */
  lemma TotalMonotone(tasks: map<string, Task>, order: seq<string>, d1: Draw, d2: Draw)
    requires Executable(tasks, order) && Distinct(order) && |order| > 0
    requires Covers(order, d1) && Covers(order, d2) && NonNegative(order, d1)
    requires forall n :: n in order ==> d1[n] <= d2[n]
    ensures TrialTotal(tasks, order, d1) <= TrialTotal(tasks, order, d2)
  {
    TotalIsCriticalPath(tasks, order, d1);
    TotalIsCriticalPath(tasks, order, d2);
    var c :| && IsChain(tasks, c) && (forall k :: 0 <= k < |c| ==> c[k] in order)
             && tasks[c[0]].deps == [] && Weight(d1, c) == TrialTotal(tasks, order, d1);
    WeightMonotone(d1, d2, c);
  }

  /** The draw that gives every task its minimum (`Low`) or maximum (`High`)
      number of days. */
  function Low(tasks: map<string, Task>, order: seq<string>): (d: Draw)
    ensures forall n :: n in order && n in tasks ==> n in d && d[n] == tasks[n].lo
  {
    map n | n in order && n in tasks :: tasks[n].lo
  }

  function High(tasks: map<string, Task>, order: seq<string>): (d: Draw)
    ensures forall n :: n in order && n in tasks ==> n in d && d[n] == tasks[n].hi
  {
    map n | n in order && n in tasks :: tasks[n].hi
  }

  /** With non-negative minimums, every trial's total lies between the total
      with all tasks at their minimum and the total with all at their
      maximum. */
  lemma TotalWithinExtremes(tasks: map<string, Task>, order: seq<string>, dur: Draw)
    requires Executable(tasks, order) && Distinct(order) && |order| > 0
    requires Sampled(tasks, order, dur)
    requires forall n :: n in order ==> 0.0 <= tasks[n].lo
    ensures Covers(order, Low(tasks, order)) && Covers(order, High(tasks, order))
    ensures TrialTotal(tasks, order, Low(tasks, order)) <= TrialTotal(tasks, order, dur)
              <= TrialTotal(tasks, order, High(tasks, order))
  {
    TotalMonotone(tasks, order, Low(tasks, order), dur);
    TotalMonotone(tasks, order, dur, High(tasks, order));
  }
}
