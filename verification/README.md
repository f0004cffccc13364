# Project timeline Monte Carlo engine, modelled in Dafny

This project models the scheduling engine of `run()` in
`project_timeline_estimator/project_timelines_monte_carlo.py`. A user enters
tasks: each has a name, a minimum and maximum number of days, and the tasks it
waits for. The engine then does the following:

1. It checks that the names are unique and not blank.
2. It builds a dependency graph with an edge from each prerequisite to the task
   that waits for it, rejects a graph with a cycle, and computes an execution
   order.
3. It runs `num_simulations` trials. In each trial, a task without
   prerequisites starts on day 0. Any other task starts when the last of its
   prerequisites ends, and ends its sampled duration later. The trial's total
   is the latest end.
4. Optionally, it runs one more trial and lays it out as a timeline sorted by
   start day.

Files and modules:

| file | module | what it holds |
|---|---|---|
| `prelude.dfy` | `Prelude` | `Option`, repetition-free sequences, element sets, index lookup, counting lemmas |
| `tasks.dfy` | `Tasks` | task rows, error outcomes, Python's `str.isspace`/`strip`, the name check, the name-to-task map |
| `graph.dfy` | `Graphs` | the graph built from the rows, cycles, execution orders |
| `kahn.dfy` | `Kahn` | Kahn's algorithm, ties broken by graph insertion order (row order when every dependency names an earlier row, `Planning.EarlierDepsGraphNodes`): cycle check and order in one |
| `trial.dfy` | `Trial` | one trial: start and end times, the total, and the scheduling equations they solve |
| `critical_path.dfy` | `CriticalPath` | the total as the longest dependency chain; dependence on the draw; bounds |
| `timeline.dfy` | `SampleTimeline` | the sample timeline's rows and their sort by start day |
| `planning.dfy` | `Planning` | everything decided before the first trial, and the acyclicity shortcut for the form |
| `simulation.dfy` | `Simulation` | the simulation loop and the whole run |
| `scenarios.dfy` | `Scenarios` | concrete task lists and their outcomes |

Randomness is an input. A `Draw` maps each task name to the duration sampled
for it in one trial. `Sampled` states that every sampled duration lies in its
task's `[min, max]` range. Times are exact `real` numbers.

## Model

| member | source | states |
|---|---|---|
| Tasks.NamesOk | project_timeline_estimator/project_timelines_monte_carlo.py:72-73 | the name check accepts exactly the lists whose names are pairwise different and none empty or white space only |
| Tasks.Names | project_timeline_estimator/project_timelines_monte_carlo.py:72 | the names column has one entry per row, entry `i` being row `i`'s name, so the name check sees every row in order |
| Tasks.TrimStart | project_timeline_estimator/project_timelines_monte_carlo.py:73 | `lstrip` keeps a suffix of the string, drops only white space, and leaves a result that does not begin with white space |
| Tasks.TrimEnd | project_timeline_estimator/project_timelines_monte_carlo.py:73 | `rstrip` keeps a prefix of the string, drops only white space, and leaves a result that does not end with white space |
| Tasks.Strip | project_timeline_estimator/project_timelines_monte_carlo.py:73 | `strip` returns the slice of the name that starts after its leading white space; every character outside that slice is white space, and the slice neither begins nor ends with white space |
| Tasks.StripEmptyIffBlank | project_timeline_estimator/project_timelines_monte_carlo.py:73 | `strip()` gives the empty string exactly when every character is white space in Python's sense |
| Prelude.CardinalityOfElements | project_timeline_estimator/project_timelines_monte_carlo.py:73 | the set of a list's elements is never larger than the list, and is as large exactly when the list has no repeats |
| Tasks.TaskMap | project_timeline_estimator/project_timelines_monte_carlo.py:77 | the name-to-task dictionary has exactly the names as keys and files each task under its own name |
| Tasks.TaskMapFindsTask | project_timeline_estimator/project_timelines_monte_carlo.py:77 | with unique names, every row is found under its name |
| Graphs.AddNode | project_timeline_estimator/project_timelines_monte_carlo.py:82 | adding a node keeps nodes unique, adds exactly that node, and changes nothing when it is present |
| Graphs.AddNodes | project_timeline_estimator/project_timelines_monte_carlo.py:83-84 | adding an edge's source node for each dependency adds exactly the missing dependency names |
| Graphs.BuildGraph | project_timeline_estimator/project_timelines_monte_carlo.py:80-84 | the graph's nodes are every task name and every dependency name, each once; its edges are exactly `dep -> t` for each declared dependency `dep` of task `t` |
| Graphs.TopologicalOrderExcludesCycle | project_timeline_estimator/project_timelines_monte_carlo.py:86-90 | a graph that has an execution order has no cycle |
| Kahn.FindReady | project_timeline_estimator/project_timelines_monte_carlo.py:90 | finds the first waiting node all of whose predecessors are emitted, or reports that none is |
| Kahn.StuckMeansCycle | project_timeline_estimator/project_timelines_monte_carlo.py:86 | when no waiting node can be emitted, the graph has a cycle |
| Kahn.KahnLoop | project_timeline_estimator/project_timelines_monte_carlo.py:86-90 | the emission loop either returns an execution order or stops on a graph that has a cycle |
| Kahn.KahnTurn | project_timeline_estimator/project_timelines_monte_carlo.py:90 | one turn of the loop emits the first ready node and keeps the loop invariant |
| Kahn.TopoSort | project_timeline_estimator/project_timelines_monte_carlo.py:86-90 | an order is returned exactly when the graph has no cycle, and it is a permutation of the nodes in which every edge's source comes before its target |
| Kahn.KahnKeepsOrder | project_timeline_estimator/project_timelines_monte_carlo.py:90 | when no edge runs backwards along the waiting nodes, the loop emits them in the order they wait |
| Kahn.DeclarationOrderIsKept | project_timeline_estimator/project_timelines_monte_carlo.py:90 | under the model's tie-break, when insertion order already respects every edge, the order returned is insertion order |
| Planning.Plan | project_timeline_estimator/project_timelines_monte_carlo.py:71-108 | bad names, then a cycle, then an unknown dependency, then an empty list are each rejected exactly when they are the first problem; otherwise the order is a repetition-free permutation of the names that respects every edge and lets every task find its prerequisites already processed |
| Planning.DeclaredAreNames | project_timeline_estimator/project_timelines_monte_carlo.py:80-84 | when every dependency names a task, the names the rows declare are exactly the task names |
| Planning.NodesAreNames | project_timeline_estimator/project_timelines_monte_carlo.py:80-84 | when every dependency names a task, the graph's nodes are exactly the task names |
| Planning.DepsComeFirst | project_timeline_estimator/project_timelines_monte_carlo.py:97-103 | in an execution order, every dependency of a task is processed before it |
| Planning.OrderIsExecutable | project_timeline_estimator/project_timelines_monte_carlo.py:90-103 | an execution order of the graph is a permutation of the task names without repeats that the trial loop can walk |
| Planning.EarlierDepsGraphNodes | project_timeline_estimator/project_timelines_monte_carlo.py:80-84 | when every dependency names an earlier row, the nodes are the task names in row order |
| Planning.EdgeRunsForward | project_timeline_estimator/project_timelines_monte_carlo.py:80-84 | when every dependency names an earlier row, each edge runs from an earlier row to a later one |
| Planning.EarlierDepsRowOrder | project_timeline_estimator/project_timelines_monte_carlo.py:51-84 | when every dependency names an earlier row, row order respects every edge |
| Planning.EarlierDepsKnown | project_timeline_estimator/project_timelines_monte_carlo.py:97-98 | dependencies that name earlier rows never fail the lookup by name |
| Planning.EarlierDepsAccepted | project_timeline_estimator/project_timelines_monte_carlo.py:51-90 | valid rows whose dependencies all name earlier rows, which is what the form offers, are accepted; under the model's tie-break the execution order is row order |
| Trial.SeqMax | project_timeline_estimator/project_timelines_monte_carlo.py:103 | `max` of a non-empty list is an element that no element exceeds |
| Trial.StartTime | project_timeline_estimator/project_timelines_monte_carlo.py:100-103 | a task without dependencies starts at 0; otherwise at an end time of one of its dependencies that no other dependency's end exceeds |
| Trial.Extend | project_timeline_estimator/project_timelines_monte_carlo.py:104-106 | processing a task records it with end = start + duration and leaves every other task's times alone |
| Trial.Propagate | project_timeline_estimator/project_timelines_monte_carlo.py:97-106 | the loop over the execution order records a start and an end for exactly the ordered tasks; its equations are stated by `Trial.PropagateIsScheduled` and `Trial.ScheduleIsUnique` |
| Trial.RunTrial | project_timeline_estimator/project_timelines_monte_carlo.py:95-106 | a trial's `task_start` and `task_end` have exactly the ordered tasks as keys, and on an order without repetitions every task meets its equations |
| Trial.ExtendSchedules | project_timeline_estimator/project_timelines_monte_carlo.py:100-106 | the task just processed meets its equations: start 0 without dependencies, otherwise the latest dependency end, and end = start + sampled duration |
| Trial.ExtendKeeps | project_timeline_estimator/project_timelines_monte_carlo.py:97-106 | processing a task that was not processed before leaves the equations of every earlier task satisfied |
| Trial.PropagateIsScheduled | project_timeline_estimator/project_timelines_monte_carlo.py:97-106 | every task of the trial meets its equations: start 0 without dependencies, otherwise the latest dependency end, and end = start + sampled duration |
| Trial.SchedulesAgree | project_timeline_estimator/project_timelines_monte_carlo.py:97-106 | two timelines that both meet the equations over an order are equal |
| Trial.ScheduleIsUnique | project_timeline_estimator/project_timelines_monte_carlo.py:97-106 | any timeline meeting those equations over the order is the trial's timeline |
| Trial.OrderIndependent | project_timeline_estimator/project_timelines_monte_carlo.py:90-108 | any two repetition-free execution orders over the same tasks give the same trial timeline (the same start and end for every task), so a trial's total does not depend on how `topological_sort` breaks ties |
| Trial.Total | project_timeline_estimator/project_timelines_monte_carlo.py:108 | the total is no smaller than any task's end and equals some task's end |
| Trial.TrialTotal | project_timeline_estimator/project_timelines_monte_carlo.py:95-108 | one trial's total is no smaller than any task's end in that trial's timeline and equals one of them |
| CriticalPath.TimesNonNegative | project_timeline_estimator/project_timelines_monte_carlo.py:100-104 | with non-negative durations every task starts on or after day 0 and ends no earlier than it starts |
| CriticalPath.ChainBound | project_timeline_estimator/project_timelines_monte_carlo.py:100-106 | no chain of dependent tasks is longer than its last task's end |
| CriticalPath.CriticalChain | project_timeline_estimator/project_timelines_monte_carlo.py:100-106 | every task's end is the length of some chain from a task without dependencies |
| CriticalPath.TotalIsCriticalPath | project_timeline_estimator/project_timelines_monte_carlo.py:97-108 | the total is the longest dependency chain: no chain is longer and some chain from a task without dependencies is exactly as long |
| CriticalPath.SameDrawsSameTimeline | project_timeline_estimator/project_timelines_monte_carlo.py:93-106 | a trial reads only its own draw: equal draws give equal timelines |
| CriticalPath.FixedRangesFixTotal | project_timeline_estimator/project_timelines_monte_carlo.py:99-108 | with min = max for every task, every trial has the same total |
| CriticalPath.WeightMonotone | project_timeline_estimator/project_timelines_monte_carlo.py:104 | a chain gets no shorter when no duration gets shorter |
| CriticalPath.TotalMonotone | project_timeline_estimator/project_timelines_monte_carlo.py:97-108 | lengthening tasks never shortens the total |
| CriticalPath.Low | project_timeline_estimator/project_timelines_monte_carlo.py:99 | not a draw the engine makes: the draw giving each task the lower end of its `uniform` range at line 99, used only to state `CriticalPath.TotalWithinExtremes` |
| CriticalPath.High | project_timeline_estimator/project_timelines_monte_carlo.py:99 | not a draw the engine makes: the draw giving each task the upper end of its `uniform` range at line 99, used only to state `CriticalPath.TotalWithinExtremes` |
| CriticalPath.TotalWithinExtremes | project_timeline_estimator/project_timelines_monte_carlo.py:97-108 | every trial's total lies between the all-minimum total and the all-maximum total |
| SampleTimeline.Rows | project_timeline_estimator/project_timelines_monte_carlo.py:146-149 | one row per recorded task in recording order, carrying its start, with start + duration equal to its end |
| SampleTimeline.Insert | project_timeline_estimator/project_timelines_monte_carlo.py:150 | inserting into rows sorted by start keeps them sorted and adds exactly the one row |
| SampleTimeline.SortByStart | project_timeline_estimator/project_timelines_monte_carlo.py:150 | the result is sorted by start day and is a permutation of the input rows |
| SampleTimeline.Sample | project_timeline_estimator/project_timelines_monte_carlo.py:132-150 | the sample timeline is sorted by start day |
| SampleTimeline.RowsPermute | project_timeline_estimator/project_timelines_monte_carlo.py:146-149 | over one timeline, two repetition-free orders of the same tasks build the same rows, possibly in another order |
| SampleTimeline.SampleRowsIndependent | project_timeline_estimator/project_timelines_monte_carlo.py:90-150 | any two repetition-free execution orders over the same tasks give sample timelines with the same rows (task, start day, duration); only the order of rows that start on the same day can differ |
| SampleTimeline.RowsFollowTimeline | project_timeline_estimator/project_timelines_monte_carlo.py:135-149 | rows built from any timeline that meets the equations carry each task's start and its sampled duration |
| SampleTimeline.RowsAreFaithful | project_timeline_estimator/project_timelines_monte_carlo.py:135-149 | each unsorted row carries its task's start in the trial and exactly the sampled duration, which is within the task's range |
| SampleTimeline.SampleMatchesTrial | project_timeline_estimator/project_timelines_monte_carlo.py:132-150 | the sorted timeline has exactly one row per task; each row carries the trial's start and the sampled duration within its range; with non-negative durations no row starts before day 0 |
| Simulation.TotalsExtend | project_timeline_estimator/project_timelines_monte_carlo.py:93-108 | one step of the simulation loop (a helper of `Simulation.Simulate`): appending the next trial's total keeps each collected total matched to its own draw |
| Simulation.Simulate | project_timeline_estimator/project_timelines_monte_carlo.py:93-108 | exactly one total per trial, in trial order, total `i` being the total of draw `i` alone |
| Simulation.SimulatedTotalsBounded | project_timeline_estimator/project_timelines_monte_carlo.py:93-108 | every collected total lies between the all-minimum and all-maximum totals, and all totals are equal when no task has a range |
| Simulation.Estimate | project_timeline_estimator/project_timelines_monte_carlo.py:71-150 | a run fails exactly when planning fails, with planning's error and no trials; otherwise it reports the order, one total per simulation from its own draw, and the sample timeline exactly when one was asked for |
| Scenarios.SingleTaskAccepted | project_timeline_estimator/project_timelines_monte_carlo.py:80-90 | one isolated task is accepted and is the whole order |
| Scenarios.SelfDependencyRejected | project_timeline_estimator/project_timelines_monte_carlo.py:83-88 | a task that depends on itself is rejected as a cycle |
| Scenarios.MutualDependencyRejected | project_timeline_estimator/project_timelines_monte_carlo.py:83-88 | two tasks that wait for each other are rejected as a cycle |
| Scenarios.DuplicateNamesRejected | project_timeline_estimator/project_timelines_monte_carlo.py:72-75 | two tasks named "Design" are rejected for their names |
| Scenarios.BlankNameRejected | project_timeline_estimator/project_timelines_monte_carlo.py:72-75 | a name of three spaces is rejected |
| Scenarios.NoTasksRejected | project_timeline_estimator/project_timelines_monte_carlo.py:108 | an empty task list passes the name and cycle checks and fails on the maximum of no end times |
| Scenarios.UnknownDependencyIsAcyclic | project_timeline_estimator/project_timelines_monte_carlo.py:80-86 | a dependency on an unknown name adds that name as a node, and the graph has no cycle |
| Scenarios.UnknownDependencyRejected | project_timeline_estimator/project_timelines_monte_carlo.py:97-98 | a dependency that names no task passes the cycle check and fails the lookup by name |
| Scenarios.TwoInARowAccepted | project_timeline_estimator/project_timelines_monte_carlo.py:77-90 | a task and a task waiting for it are accepted in row order |
| Scenarios.TwoTasksInOrder | project_timeline_estimator/project_timelines_monte_carlo.py:97-108 | when the second of two tasks waits for the first, the total is the sum of their durations |
| Scenarios.TwoInARow | project_timeline_estimator/project_timelines_monte_carlo.py:77-108 | with fixed durations, the two tasks in a row take the sum of their durations in every trial |
| Scenarios.TwoInARowTakesFiveDays | project_timeline_estimator/project_timelines_monte_carlo.py:93-108 | T1 (2 to 2 days) then T2 (3 to 3 days, after T1) takes exactly 5 days in every trial |

## Left out

- The Streamlit form, sidebar, messages and page layout are not modelled. They are user interface only. The form's own limits are not imposed by the model: 1 to 20 tasks, minimum at least 0, maximum at least the minimum, dependencies offered only from rows above. `Planning.EarlierDepsAccepted` and `CriticalPath.TotalWithinExtremes` take the form's limits they need as hypotheses.
- The mean, the 90th percentile, the histogram and both charts are left out. They are floating-point statistics and drawing over numpy and matplotlib.
- `np.random.uniform` is replaced by a supplied draw per trial. Its half-open range `[min, max)` is modelled as the closed range `[min, max]`, which also covers `min == max`.
- Floating-point times are modelled as exact reals, so rounding is not modelled.
- The exact order `nx.topological_sort` returns (line 90) is not modelled. networkx emits the nodes generation by generation: first every node without predecessors, in insertion order, then every node whose predecessors are all in the first generation, and so on. The model's Kahn loop instead emits the first ready node in insertion order after each step. The two differ: rows A, B (after A), C give `[A, C, B]` in the source and `[A, B, C]` in the model. Only the ordering properties (a repetition-free permutation of the nodes that respects every edge) are claimed for the source's order. `Trial.OrderIndependent` shows that a trial's timeline, and so its total, is the same for every such order. `SampleTimeline.SampleRowsIndependent` shows that the sample timeline has the same rows, with the same start days and durations, for every such order; only the order of rows that start on the same day can differ.
- Kahn.DeclarationOrderIsKept: holds for the model's tie-break only. networkx may return a different order even when insertion order respects every edge (the example above).
- Planning.EarlierDepsAccepted: acceptance holds for the source as well, but that the order is row order holds only for the model's tie-break; networkx returns a different order for rows A, B (after A), C.
- The order of sample rows that start on the same day is not modelled, for two reasons. First, the model's sort stands in for `sort_values("Start")`, whose default algorithm is not stable, while the model's sort is stable. Second, the rows are built in execution order, and the model's execution order can differ from networkx's. For example, rows A, B (after A), Q (after B), C, P (after C) with A, B and C each taking a fixed 1, 1 and 2 days give the order `[A, B, Q, C, P]` in the model and `[A, C, B, P, Q]` in networkx. P and Q both start on day 2, so the model's sample ends Q, P, while a stable sort of the source's rows ends P, Q.
- A lookup of a dependency that names no task raises an uncaught `KeyError` (line 98). An empty task list raises a `ValueError` (line 108). Both happen in the first trial, which does not depend on the draw, so the model reports them as `UnknownDependency` and `NoTasks` before any trial. A cycle is reported first, as in the source.
- Simulation.Estimate: requires at least one simulation, as the slider's range 100 to 10000 guarantees. It also requires every draw to give a duration for every task name, standing in for the random source.
- Scenarios.TwoInARow: assumes the second task's duration is not negative, as the form's minimum of 0 ensures. Otherwise the first task's end could be the larger.
- Duplicate and blank names give the same error, `InvalidNames`, because the engine shows one message for both (lines 72-75).
- An unknown dependency is only found by the trial loop, after the cycle check (line 98), so the graph build accepts it as a new node.
- An empty task list fails at line 108 instead of giving a zero total.
