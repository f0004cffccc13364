/** The optional sample timeline: one more trial, laid out as one row per task
    (name, start day, duration) and sorted by start day for the Gantt chart. */
module SampleTimeline {
  import opened Prelude
  import opened Tasks
  import opened Trial
  import opened CriticalPath

  /** One row of the timeline table: `Task`, `Start` and `Duration`. */
  datatype Row = Row(task: string, start: real, duration: real)

  /** The table before sorting: one row per task in the order the trial
      recorded them, with duration `end - start`. */
  function Rows(order: seq<string>, tl: Timeline): (rows: seq<Row>)
    requires forall n :: n in order ==> n in tl.start && n in tl.end
    ensures |rows| == |order|
    ensures forall i :: 0 <= i < |order| ==> rows[i].task == order[i]
    ensures forall i :: 0 <= i < |order| ==> rows[i].start == tl.start[order[i]]
    ensures forall i :: 0 <= i < |order| ==> rows[i].start + rows[i].duration == tl.end[order[i]]
    decreases |order|
  {
    if order == [] then []
    else
      var n := order[0];
      [Row(n, tl.start[n], tl.end[n] - tl.start[n])] + Rows(order[1..], tl)
  }

  predicate SortedByStart(rows: seq<Row>) {
    forall i, j :: 0 <= i < j < |rows| ==> rows[i].start <= rows[j].start
  }

  /** A row that starts no later than any sorted row can go first. */
  lemma SortedCons(r: Row, rows: seq<Row>)
    requires SortedByStart(rows)
    requires forall k :: 0 <= k < |rows| ==> r.start <= rows[k].start
    ensures SortedByStart([r] + rows)
  {
    var res := [r] + rows;
    forall i, j | 0 <= i < j < |res| ensures res[i].start <= res[j].start {
      assert res[j] == rows[j - 1];
      if i > 0 {
        assert res[i] == rows[i - 1];
      }
    }
  }

  /** A lower bound on every start day survives any rearrangement. */
  lemma StartsFrom(b: real, rows: seq<Row>, res: seq<Row>)
    requires forall k :: 0 <= k < |rows| ==> b <= rows[k].start
    requires multiset(res) == multiset(rows)
    ensures forall k :: 0 <= k < |res| ==> b <= res[k].start
  {
    forall k | 0 <= k < |res| ensures b <= res[k].start {
      assert res[k] in multiset(rows);
      var m :| 0 <= m < |rows| && rows[m] == res[k];
    }
  }

  /** Place one row after every row that starts no later. */
  function Insert(r: Row, rows: seq<Row>): (res: seq<Row>)
    requires SortedByStart(rows)
    ensures SortedByStart(res)
    ensures multiset(res) == multiset(rows) + multiset{r}
    ensures |res| == |rows| + 1
    decreases |rows|
  {
    if rows == [] then [r]
    else if r.start < rows[0].start then
      SortedCons(r, rows);
      [r] + rows
    else
      var rest := rows[1..];
      var tail := Insert(r, rest);
      assert rows == [rows[0]] + rest;
      assert multiset(rest + [r]) == multiset(rest) + multiset{r};
      StartsFrom(rows[0].start, rest + [r], tail);
      SortedCons(rows[0], tail);
      [rows[0]] + tail
  }

  /** `sort_values("Start")`: the same rows, by non-decreasing start day. */
  function SortByStart(rows: seq<Row>): (res: seq<Row>)
    ensures SortedByStart(res)
    ensures multiset(res) == multiset(rows)
    ensures |res| == |rows|
    decreases |rows|
  {
    if rows == [] then []
    else
      assert rows == rows[..|rows| - 1] + [rows[|rows| - 1]];
      Insert(rows[|rows| - 1], SortByStart(rows[..|rows| - 1]))
  }

  /** The sample timeline of the trial with draw `dur`. */
  function Sample(tasks: map<string, Task>, order: seq<string>, dur: Draw): (rows: seq<Row>)
    requires Executable(tasks, order) && Covers(order, dur)
    ensures SortedByStart(rows)
  {
    SortByStart(Rows(order, RunTrial(tasks, order, dur)))
  }

  /** A table with one row per task of a repetition-free order repeats no
      row. */
  lemma TableDistinct(order: seq<string>, rows: seq<Row>)
    requires Distinct(order) && |rows| == |order|
    requires forall i :: 0 <= i < |order| ==> rows[i].task == order[i]
    ensures Distinct(rows)
  {
    forall i, j | 0 <= i < j < |rows| ensures rows[i] != rows[j] {
      assert rows[i].task == order[i] && rows[j].task == order[j];
    }
  }

  /** A task's row is fixed by the timeline: any table over an order that
      contains the task holds the same row for it. */
  lemma TableRowFound(o1: seq<string>, o2: seq<string>, tl: Timeline, r1: seq<Row>, r2: seq<Row>, i: nat)
    requires forall n :: n in o1 ==> n in o2
    requires forall n :: n in o2 ==> n in tl.start && n in tl.end
    requires i < |o1| && |r1| == |o1| && |r2| == |o2|
    requires r1[i].task == o1[i] && r1[i].start == tl.start[o1[i]]
    requires r1[i].start + r1[i].duration == tl.end[o1[i]]
    requires forall j :: 0 <= j < |o2| ==> r2[j].task == o2[j]
    requires forall j :: 0 <= j < |o2| ==> r2[j].start == tl.start[o2[j]]
    requires forall j :: 0 <= j < |o2| ==> r2[j].start + r2[j].duration == tl.end[o2[j]]
    ensures r1[i] in r2
  {
    assert o1[i] in o2;
    var j :| 0 <= j < |o2| && o2[j] == o1[i];
    assert r2[j] == r1[i];
  }

  /** Over one timeline, two repetition-free orders of the same tasks give
      the same rows, possibly in another order. */
  lemma RowsPermute(o1: seq<string>, o2: seq<string>, tl: Timeline)
    requires Distinct(o1) && Distinct(o2)
    requires forall n :: n in o1 <==> n in o2
    requires forall n :: n in o1 ==> n in tl.start && n in tl.end
    ensures multiset(Rows(o1, tl)) == multiset(Rows(o2, tl))
  {
    var r1 := Rows(o1, tl);
    var r2 := Rows(o2, tl);
    TableDistinct(o1, r1);
    TableDistinct(o2, r2);
    forall r | r in r1 ensures r in r2 {
      var i :| 0 <= i < |r1| && r1[i] == r;
      TableRowFound(o1, o2, tl, r1, r2, i);
    }
    forall r | r in r2 ensures r in r1 {
      var i :| 0 <= i < |r2| && r2[i] == r;
      TableRowFound(o2, o1, tl, r2, r1, i);
    }
    SameElementsPermute(r1, r2);
  }

  /** The sample timeline does not depend on which execution order the trial
      walks, up to the order of rows: any two repetition-free executable
      orders over the same tasks give the same rows, with the same start days
      and durations. Only rows that start on the same day can come out in a
      different order. */
  lemma SampleRowsIndependent(tasks: map<string, Task>, o1: seq<string>, o2: seq<string>, dur: Draw)
    requires Executable(tasks, o1) && Covers(o1, dur) && Distinct(o1)
    requires Executable(tasks, o2) && Covers(o2, dur) && Distinct(o2)
    requires forall n :: n in o1 <==> n in o2
    ensures multiset(Sample(tasks, o1, dur)) == multiset(Sample(tasks, o2, dur))
  {
    OrderIndependent(tasks, o1, o2, dur);
    RowsPermute(o1, o2, RunTrial(tasks, o1, dur));
  }

  /** A row that reports task `r.task` of the trial faithfully: the trial's
      start day, the sampled duration, and a duration inside the task's
      range. */
  predicate Faithful(tasks: map<string, Task>, order: seq<string>, dur: Draw, tl: Timeline, r: Row) {
    && r.task in order && r.task in tasks && r.task in dur && r.task in tl.start
    && r.start == tl.start[r.task]
    && r.duration == dur[r.task]
    && tasks[r.task].lo <= r.duration <= tasks[r.task].hi
  }

  /** Rows built from any timeline that meets the scheduling equations
      report their tasks faithfully. */
  lemma RowsFollowTimeline(tasks: map<string, Task>, order: seq<string>, dur: Draw, tl: Timeline)
    requires Sampled(tasks, order, dur)
    requires forall n :: n in order ==> n in tl.start && n in tl.end
    requires forall n :: n in order ==> ScheduledAt(n, tasks[n], dur[n], tl)
    ensures forall k :: 0 <= k < |order| ==> Faithful(tasks, order, dur, tl, Rows(order, tl)[k])
  {
    var raw := Rows(order, tl);
    forall k | 0 <= k < |order|
      ensures Faithful(tasks, order, dur, tl, raw[k])
    {
      var n := order[k];
      assert ScheduledAt(n, tasks[n], dur[n], tl);
      assert raw[k].start + raw[k].duration == tl.start[n] + dur[n];
    }
  }

  /** Before sorting, row `k` reports task `order[k]` faithfully. */
  lemma RowsAreFaithful(tasks: map<string, Task>, order: seq<string>, dur: Draw)
    requires Executable(tasks, order) && Distinct(order) && Sampled(tasks, order, dur)
    ensures Covers(order, dur)
    ensures forall k :: 0 <= k < |order| ==>
              Faithful(tasks, order, dur, RunTrial(tasks, order, dur), Rows(order, RunTrial(tasks, order, dur))[k])
  {
    PropagateIsScheduled(tasks, order, dur);
    RowsFollowTimeline(tasks, order, dur, RunTrial(tasks, order, dur));
  }

  /** The sample timeline has exactly one row per task, each reporting its
      task faithfully, and with non-negative durations no row starts before
      day 0. */
  lemma SampleMatchesTrial(tasks: map<string, Task>, order: seq<string>, dur: Draw)
    requires Executable(tasks, order) && Distinct(order) && Sampled(tasks, order, dur)
    ensures Covers(order, dur)
    ensures |Sample(tasks, order, dur)| == |order|
    ensures forall n :: n in order <==> exists i :: 0 <= i < |order| && Sample(tasks, order, dur)[i].task == n
    ensures forall i :: 0 <= i < |order| ==> Faithful(tasks, order, dur, RunTrial(tasks, order, dur), Sample(tasks, order, dur)[i])
    ensures NonNegative(order, dur) ==> forall i :: 0 <= i < |order| ==> 0.0 <= Sample(tasks, order, dur)[i].start
  {
    var tl := RunTrial(tasks, order, dur);
    RowsAreFaithful(tasks, order, dur);
    var raw := Rows(order, tl);
    var rows := Sample(tasks, order, dur);
    assert multiset(rows) == multiset(raw);
    forall i | 0 <= i < |order|
      ensures Faithful(tasks, order, dur, tl, rows[i])
    {
      assert rows[i] in multiset(raw);
    }
    forall n | n in order
      ensures exists i :: 0 <= i < |order| && rows[i].task == n
    {
      var k :| 0 <= k < |order| && order[k] == n;
      assert raw[k] in multiset(rows);
    }
    if NonNegative(order, dur) {
      PropagateIsScheduled(tasks, order, dur);
      forall i | 0 <= i < |order|
        ensures 0.0 <= rows[i].start
      {
        var k := IndexOf(order, rows[i].task);
        TimesNonNegative(tasks, order, dur, tl, k);
      }
    }
  }
}
