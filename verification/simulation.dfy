/** The whole engine: plan once, then run one trial per draw and collect the
    totals, and optionally one more trial for the sample timeline. Random
    numbers come in as draws, one per trial. */
module Simulation {
  import opened Prelude
  import opened Tasks
  import opened Trial
  import opened CriticalPath
  import opened SampleTimeline
  import opened Planning

  /** Appending the next trial's total keeps `totals[k]` the total of draw
      `k`. */
  lemma TotalsExtend(tasks: map<string, Task>, order: seq<string>, draws: seq<Draw>, totals: seq<real>, t: real)
    requires Executable(tasks, order) && |order| > 0
    requires forall i :: 0 <= i < |draws| ==> Covers(order, draws[i])
    requires |totals| < |draws|
    requires forall k :: 0 <= k < |totals| ==> totals[k] == TrialTotal(tasks, order, draws[k])
    requires t == TrialTotal(tasks, order, draws[|totals|])
    ensures forall k :: 0 <= k < |totals| + 1 ==> (totals + [t])[k] == TrialTotal(tasks, order, draws[k])
  {
  }

  /** The simulation loop: one total per draw, trial `i` reading only draw
      `i`. */
  method Simulate(s: Schedule, draws: seq<Draw>) returns (totals: seq<real>)
    requires Executable(s.tasks, s.order) && |s.order| > 0
    requires forall i :: 0 <= i < |draws| ==> Covers(s.order, draws[i])
    ensures |totals| == |draws|
    ensures forall i :: 0 <= i < |draws| ==> totals[i] == TrialTotal(s.tasks, s.order, draws[i])
  {
    totals := [];
    var i := 0;
    while i < |draws|
      invariant 0 <= i <= |draws|
      invariant |totals| == i
      invariant forall k :: 0 <= k < i ==> totals[k] == TrialTotal(s.tasks, s.order, draws[k])
    {
      var t := TrialTotal(s.tasks, s.order, draws[i]);
      TotalsExtend(s.tasks, s.order, draws, totals, t);
      totals := totals + [t];
      i := i + 1;
    }
  }

  /** Over a whole simulation with non-negative minimums, every total lies
      between the all-minimum and the all-maximum totals, and when no task has
      a range every total is the same. */
  lemma SimulatedTotalsBounded(s: Schedule, draws: seq<Draw>, totals: seq<real>)
    requires Executable(s.tasks, s.order) && Distinct(s.order) && |s.order| > 0
    requires forall n :: n in s.order ==> 0.0 <= s.tasks[n].lo
    requires |totals| == |draws|
    requires forall i :: 0 <= i < |draws| ==>
               Sampled(s.tasks, s.order, draws[i]) && totals[i] == TrialTotal(s.tasks, s.order, draws[i])
    ensures Covers(s.order, Low(s.tasks, s.order)) && Covers(s.order, High(s.tasks, s.order))
    ensures forall i :: 0 <= i < |totals| ==>
              TrialTotal(s.tasks, s.order, Low(s.tasks, s.order)) <= totals[i] <= TrialTotal(s.tasks, s.order, High(s.tasks, s.order))
    ensures (forall n :: n in s.order ==> s.tasks[n].lo == s.tasks[n].hi) ==>
              forall i, j :: 0 <= i < |totals| && 0 <= j < |totals| ==> totals[i] == totals[j]
  {
    forall i | 0 <= i < |totals|
      ensures TrialTotal(s.tasks, s.order, Low(s.tasks, s.order)) <= totals[i] <= TrialTotal(s.tasks, s.order, High(s.tasks, s.order))
    {
      TotalWithinExtremes(s.tasks, s.order, draws[i]);
    }
    if forall n :: n in s.order ==> s.tasks[n].lo == s.tasks[n].hi {
      forall i, j | 0 <= i < |totals| && 0 <= j < |totals|
        ensures totals[i] == totals[j]
      {
        FixedRangesFixTotal(s.tasks, s.order, draws[i], draws[j]);
      }
    }
  }

  /** What a successful run produces: the execution order, one total per
      simulation, and the sample timeline when it was asked for. */
  datatype Report = Report(order: seq<string>, totals: seq<real>, sample: Option<seq<Row>>)

  /** One press of the button: plan, simulate `numSimulations` trials, and
      build the sample timeline from `sampleDraw` when one is given. A draw
      holds a sampled duration for every task name. */
  method Estimate(tasks: seq<Task>, numSimulations: nat, draws: seq<Draw>, sampleDraw: Option<Draw>)
      returns (r: Result<Report>)
    requires numSimulations > 0 && |draws| == numSimulations
    requires forall i :: 0 <= i < |draws| ==> Covers(Names(tasks), draws[i])
    requires sampleDraw.Some? ==> Covers(Names(tasks), sampleDraw.value)
    ensures r.Err? <==> Plan(tasks).Err?
    ensures r.Err? ==> r.error == Plan(tasks).error
    ensures r.Ok? ==>
              var s := Plan(tasks).value;
              && r.value.order == s.order
              && (forall i :: 0 <= i < numSimulations ==> Covers(s.order, draws[i]))
              && (sampleDraw.Some? ==> Covers(s.order, sampleDraw.value))
              && |r.value.totals| == numSimulations
              && (forall i :: 0 <= i < numSimulations ==> r.value.totals[i] == TrialTotal(s.tasks, s.order, draws[i]))
              && (r.value.sample.Some? <==> sampleDraw.Some?)
              && (sampleDraw.Some? ==> r.value.sample.value == Sample(s.tasks, s.order, sampleDraw.value))
  {
    var plan := Plan(tasks);
    if plan.Err? {
      return Err(plan.error);
    }
    var s := plan.value;
    var totals := Simulate(s, draws);
    var sample := None;
    if sampleDraw.Some? {
      sample := Some(Sample(s.tasks, s.order, sampleDraw.value));
    }
    return Ok(Report(s.order, totals, sample));
  }
}
