# CPU scheduling simulator: a Dafny model

This project models the scheduling core of `SchedulingAlgorithms.java`, a console program. It reads
process descriptors from a file: a process id, an arrival time, a burst time and a priority, where a
lower priority value is more urgent. It then simulates one of six policies on them:

- first come first served (FCFS);
- non-preemptive shortest job first (SJF);
- shortest remaining time first (SRTF);
- non-preemptive priority (NPPS);
- preemptive priority (PPS);
- Round Robin (RR) with a quantum.

Each policy produces a Gantt chart, a finish time per process, and the waiting and turnaround
figures derived from them.

The model is in eight modules:

- `Processes` (processes.dfy): the process row `Proc`, the chart piece `Interval` and what a chart
  gives each process (`Served`, `Ends`, `Contiguous`).
- `Sorting` (sorting.dfy): the source's in-place exchange sort, proved equal to a functional
  definition (`ExchangeSorted`) that is sorted and a permutation, and `sortIntArray`. It also builds
  the sorted list of distinct arrival times.
- `Fcfs` (fcfs.dfy): FCFS, as an in-place sort followed by a clock loop, proved against the
  chart function `FcfsTimeline`.
- `NonPreemptive` (nonpreemptive.dfy): SJF and NPPS. One dispatch loop is proved against a
  recursive reference schedule, `Dispatch`. The loop's timing arithmetic is proved to start each
  job at max(clock, earliest pending arrival). Because the rows are sorted by a static key, the job
  picked first in scan order has the least key among the ready jobs.
- `Preemptive` (preemptive.dfy): SRTF and PPS, one routine with the sort key as a parameter. It
  runs on a fresh copy of the rows and follows the source's boundary arithmetic on the
  distinct-arrival list. The do-while loop is restarted only after a job completes, and the tail
  pass runs whatever is left. Each loop is proved against a step-by-step reference schedule
  (`Serve`, `Passes`, `IntervalsFrom`, `Tail`, `Reference`), so the contracts say which row
  receives each piece of the chart.
- `RoundRobin` (roundrobin.dfy): RR, with remaining times, the pass over the rows in fixed index
  order and the one-unit idle tick. Each turn, pass and round is proved equal to a reference
  function on snapshots of the arrays (`Give`, `PassFrom`, `RoundOf`).
- `Metrics` (metrics.dfy): the two sum loops and the process table.
- `Driver` (driver.dfy): `main`'s grouping of the integers read into triples, and the copy made
  before each dispatch.

Integers are unbounded. The source's parallel `int` arrays (`pid`, `at`, `bt`, `pr`, plus `ft`,
`cm` and `cbrt` in SRTF/PPS) are modelled as one array of row records (`Proc` or `Task`). Every swap
in the source moves all these arrays at the same pair of indices, so keeping a row together is exact.

Two observations about the code, both proved:

- The comment at `SchedulingAlgorithms.java:72` calls FCFS's arrival sort a stable selection, but
  the exchange sort beneath it is not stable. `Fcfs.ArrivalSortNotStable` exhibits three rows where
  two with equal arrivals come out in reverse input order. The model follows the code.
- On P1 (arrival 0, burst 5), P2 (1, 3) and P3 (2, 1), the SRTF code finishes P3 at 3, P2 at 5 and
  P1 at 9. It runs P1 over [0, 1) and P2 over [1, 2), then the last loop runs P3, P2 and P1 back to
  back. `Preemptive.ShortestRemainingExample` proves this on the reference schedule that
  `Preemptive.Schedule` is proved to compute.

## Model

| member | source | states |
|---|---|---|
| Sorting.Swap | SchedulingAlgorithms.java:18-22 | the array afterwards is the old one with entries i and j exchanged, and holds the same multiset |
| Sorting.CompareExchange | SchedulingAlgorithms.java:74-81 | one inner step of the exchange sort: moves the functional pass model one index further, and keeps the multiset |
| Sorting.ExchangePass | SchedulingAlgorithms.java:73-82 | one outer iteration: the array becomes the pass function of the old contents; same multiset |
| Sorting.ExchangeSort | SchedulingAlgorithms.java:73-82 | the in-place exchange sort leaves `ExchangeSorted(old contents)`, which is sorted by the key and a permutation of the input |
| Sorting.SortIntArray | SchedulingAlgorithms.java:24-36 | `sortIntArray` leaves the array sorted ascending, a permutation of its old contents, equal to the functional exchange sort |
| Sorting.PassKeepsPrefix | SchedulingAlgorithms.java:27-35 | an outer pass at i leaves positions before i untouched |
| Sorting.PassBound | SchedulingAlgorithms.java:27-35 | a lower bound on all keys from position i on survives a pass |
| Sorting.PassLeast | SchedulingAlgorithms.java:27-35 | after the pass at i, the entry at i has the least key among positions i and later |
| Sorting.SortFromProperties | SchedulingAlgorithms.java:27-35 | finishing the outer loop from a sorted prefix whose keys lie below the rest yields a sorted sequence |
| Sorting.ExchangeSortedProperties | SchedulingAlgorithms.java:24-36 | the exchange sort's result has the input's length and is sorted by the key |
| Sorting.DistinctSorted | SchedulingAlgorithms.java:259-266 | the loop that collects first-seen arrivals and sorts them with `sortIntArray` yields `Distinct`, strictly increasing and holding exactly the values of the input |
| Sorting.FirstSeenProperties | SchedulingAlgorithms.java:259-265 | the first-seen list (the `LinkedHashSet`) has no duplicates and holds exactly the values of the input |
| Sorting.DistinctProperties | SchedulingAlgorithms.java:259-266 | the decision points are strictly increasing and are exactly the input's values |
| Sorting.SortFromPermutation | SchedulingAlgorithms.java:73-82 | the exchange sort's outer loop from any index only reorders: same multiset |
| Sorting.PassPermutation | SchedulingAlgorithms.java:74-81 | one pass of the inner loop only reorders: same multiset |
| Sorting.NoDuplicatesPermutation | SchedulingAlgorithms.java:247-257 | a permutation of a duplicate-free sequence is duplicate-free, so sorting never makes two rows share a pid |
| Fcfs.FcfsTimelineShape | SchedulingAlgorithms.java:99-111 | piece j of the FCFS chart runs row j from max(previous end, its arrival) for exactly its burst |
| Fcfs.FcfsPieceAt | SchedulingAlgorithms.java:99-111 | the same, for one given j |
| Fcfs.FcfsFinishBounds | SchedulingAlgorithms.java:99-111 | every row starts no earlier than its arrival and the previous finish, runs its burst, and finishes at or after arrival + burst |
| Fcfs.FcfsFinishNondecreasing | SchedulingAlgorithms.java:99-111 | with non-negative bursts, finish times do not decrease along the sorted order |
| Fcfs.FcfsClock | SchedulingAlgorithms.java:84-111 | the clock loop produces exactly the FCFS chart and `ft[j]` is the end of row j's piece |
| Fcfs.FirstComeFirstServed | SchedulingAlgorithms.java:69-117 | the rows are left sorted by arrival (the exchange sort, a permutation), the chart is the FCFS chart of the sorted rows and `ft` its ends |
| Fcfs.ArrivalSortNotStable | SchedulingAlgorithms.java:73-82 | two rows with equal arrival come out of the sort in reverse input order |
| NonPreemptive.PendingMark | SchedulingAlgorithms.java:163-166 | marking one pending row complete lowers the pending count by one |
| NonPreemptive.PendingZero | SchedulingAlgorithms.java:159 | nothing is pending exactly when every row is marked complete |
| NonPreemptive.ReadyAtEarliestArrival | SchedulingAlgorithms.java:183-193 | at the earliest pending arrival some pending row is ready |
| NonPreemptive.DispatchIndices | SchedulingAlgorithms.java:159-195 | the reference schedule dispatches each pending row exactly once and no completed row |
| NonPreemptive.DispatchCovers | SchedulingAlgorithms.java:159-195 | the reference schedule dispatches every pending row |
| NonPreemptive.DispatchTiming | SchedulingAlgorithms.java:159-195 | each dispatched job starts no earlier than its arrival or the previous end, and runs exactly its burst |
| NonPreemptive.DispatchFirst | SchedulingAlgorithms.java:161-181 | a correct first step is the head of the reference schedule |
| NonPreemptive.DispatchIsRightTrace | SchedulingAlgorithms.java:159-195 | every step of the reference schedule is the first ready row, in scan order, at max(clock, earliest pending arrival) |
| NonPreemptive.RightTraceIsDispatch | SchedulingAlgorithms.java:159-195 | any complete trace made only of such steps is the reference schedule |
| NonPreemptive.DispatchCharacterized | SchedulingAlgorithms.java:159-195 | both directions: a trace is the reference schedule exactly when each step is the first ready row and all rows end up complete |
| NonPreemptive.LeastKeyAmongReady | SchedulingAlgorithms.java:138-181 | rows sorted by a key: every dispatched row has the least key among rows ready at its start, ties going to the earlier position |
| NonPreemptive.FinishNotEarly | SchedulingAlgorithms.java:163-166 | every finish time is at least arrival + burst, so no waiting time is negative |
| NonPreemptive.ScanReady | SchedulingAlgorithms.java:161-181 | the scan stops at the first ready row (or runs off the end) and lowers `time` to the least arrival among the pending rows passed |
| NonPreemptive.NextArrival | SchedulingAlgorithms.java:188-192 | finds the least pending arrival after `current`, and reports whether one exists |
| NonPreemptive.IdleAdvance | SchedulingAlgorithms.java:183-194 | with nothing ready, the clock advances and never passes a pending arrival; a measure decreases, so the loop terminates |
| NonPreemptive.DispatchLoop | SchedulingAlgorithms.java:155-195 | the while loop's dispatches are exactly the reference schedule from clock 0, the chart is its pieces, `ft` its ends, and every finish is at least arrival + burst |
| NonPreemptive.SortAndDispatch | SchedulingAlgorithms.java:137-195 | sorts by the key (a permutation), then dispatches as above |
| NonPreemptive.ShortestJobFirst | SchedulingAlgorithms.java:134-234 | SJF: rows sorted by burst, the chart is the reference schedule, every finish is at least arrival + burst |
| NonPreemptive.NonPreemptivePriority | SchedulingAlgorithms.java:352-444 | NPPS: the same with rows sorted by priority |
| Preemptive.Initial | SchedulingAlgorithms.java:239-244 | the fresh working copy satisfies the schedule invariant with an empty chart at time 0 |
| Preemptive.PendingUpdate | SchedulingAlgorithms.java:296-297 | how the count of incomplete rows changes when one row is updated |
| Preemptive.CompleteStep | SchedulingAlgorithms.java:292-309 | running a row to completion from `time` keeps the invariant (chart contiguous, service accounted, permutation of the input) |
| Preemptive.SliceStep | SchedulingAlgorithms.java:310-314 | running a row for part of its remaining burst keeps the invariant |
| Preemptive.IdleStep | SchedulingAlgorithms.java:275-277 | an idle piece from the clock to a later time keeps the invariant |
| Preemptive.PermuteKeeps | SchedulingAlgorithms.java:319-331 | re-sorting the rows keeps the invariant and keeps "nothing ready" |
| Preemptive.SortedUpdate | SchedulingAlgorithms.java:292-314 | changing a row without changing its sort key keeps the rows sorted |
| Preemptive.FirstReadyAt | SchedulingAlgorithms.java:290-291 | the scan's answer is the first row from the start index on that is incomplete and arrived by the clock, or the row count if none is |
| Preemptive.FirstReady | SchedulingAlgorithms.java:290-291 | the scan loop returns exactly `FirstReadyAt` from row 0 |
| Preemptive.CompleteRow | SchedulingAlgorithms.java:292-309 | the row finishes at time + remaining burst and is marked complete; the chart gains that piece; the pending count drops; the new state is `Complete` of the old |
| Preemptive.SliceRow | SchedulingAlgorithms.java:310-314 | the row's remaining burst drops by smin - fmin, the clock becomes smin, the chart gains that piece; the new state is `Slice` of the old |
| Preemptive.ServeRestarts | SchedulingAlgorithms.java:292-300 | a pass restarts only after completing a row, so the pending count strictly drops and the do-while terminates |
| Preemptive.ServeLeastKey | SchedulingAlgorithms.java:288-315 | on rows sorted by the key, the row a pass serves is at or before every ready row and has a key no larger: SRTF serves a least remaining burst, PPS a most urgent priority, ties to the earlier position |
| Preemptive.ServeKeepsSorted | SchedulingAlgorithms.java:292-300 | a restarting pass only completes a row, so the rows stay sorted and the next pass again picks the least key |
| Preemptive.TailCompletes | SchedulingAlgorithms.java:334-344 | the last loop leaves every row complete and keeps the row count |
| Preemptive.ServeRow | SchedulingAlgorithms.java:292-314 | on the first ready row: completes and restarts when its remaining burst is below smin - fmin, completes without restart when equal, else runs to smin; the new state is exactly `Serve` of the old; on well-formed input the clock ends at the new fmin after a restart and at smin otherwise |
| Preemptive.Decide | SchedulingAlgorithms.java:289-315 | one pass of the do-while body: the new rows, clock, chart, fmin and restart flag are exactly `Serve` of the old state (which row is served, and where the piece ends); the invariant is kept; a restart lowers the pending count |
| Preemptive.RunInterval | SchedulingAlgorithms.java:285-331 | one interval: the new state is `AfterInterval` (the passes until one does not restart, then the re-sort by the key); the rows end sorted; on well-formed input the clock ends at smin or with nothing ready |
| Preemptive.FinishRow | SchedulingAlgorithms.java:336-342 | one turn of the last loop advances `Tail` by one row |
| Preemptive.RunRest | SchedulingAlgorithms.java:334-344 | the last loop's new state is exactly `Tail` from row 0: each incomplete row, in array order, runs its remaining burst back to back from the clock; every row ends complete |
| Preemptive.CopySorted | SchedulingAlgorithms.java:238-257 | the working copy is the input rows reset and exchange-sorted by the key; it keeps the input's arrival values |
| Preemptive.ArrivalsOfRows | SchedulingAlgorithms.java:259-261 | rows copied from the input, in any order, carry exactly the input's arrival values |
| Preemptive.Prepare | SchedulingAlgorithms.java:238-280 | the copy is the input exchange-sorted by the key; the decision points are `Distinct` of its arrivals, strictly increasing and exactly the input's arrival values; an idle piece from 0 to the first point and the clock there exactly when that point is positive; the whole result is `Setup` |
| Preemptive.NextInterval | SchedulingAlgorithms.java:284-332 | interval i from `arr[i]` to `arr[i + 1]` advances `IntervalsFrom` by one interval and keeps the clock at or before the next point |
| Preemptive.RunIntervals | SchedulingAlgorithms.java:284-332 | the outer loop's new state is exactly `IntervalsFrom` over all consecutive decision points |
| Preemptive.FinishAll | SchedulingAlgorithms.java:334-344 | the last loop runs only if some row is incomplete, giving `Tail`; afterwards every row is complete |
| Preemptive.Outcome | SchedulingAlgorithms.java:334-346 | once all rows are complete, each finish time ends one of its row's pieces; for well-formed input (arrivals at least 0, bursts positive) every piece has positive length; for well-formed input with distinct pids each row is served exactly its original burst |
| Preemptive.Schedule | SchedulingAlgorithms.java:237-349 | the final rows and chart are exactly `Reference` (set-up, intervals, last loop), so each piece goes to the row the source picks; the rows are a permutation of the input sorted by the key, the chart starts at 0 and is contiguous, every row is complete with its finish on its own piece, and (for well-formed input) each row is served exactly its burst |
| Preemptive.ShortestRemainingTimeFirst | SchedulingAlgorithms.java:237-349 | SRTF: as `Schedule` with the remaining-burst key, the rows ending sorted by remaining burst |
| Preemptive.PreemptivePriority | SchedulingAlgorithms.java:447-558 | PPS: as `Schedule` with the priority key, the rows ending sorted by priority |
| Preemptive.SortInOrder | SchedulingAlgorithms.java:319-331 | the exchange sort leaves three entries already in key order unchanged |
| Preemptive.SortReversed | SchedulingAlgorithms.java:319-331 | the exchange sort reverses three entries in strictly decreasing key order |
| Preemptive.SortPairInOrder | SchedulingAlgorithms.java:319-331 | the exchange sort leaves two entries already in key order unchanged |
| Preemptive.ExampleSetup | SchedulingAlgorithms.java:238-280 | on P1(0,5), P2(1,3), P3(2,1) the set-up sorts to P3, P2, P1 with decision points 0, 1, 2 and no idle piece |
| Preemptive.ExampleIntervals | SchedulingAlgorithms.java:284-332 | on that input the intervals run P1 over [0, 1) and P2 over [1, 2) |
| Preemptive.ExampleTail | SchedulingAlgorithms.java:334-344 | on that input the last loop runs P3, P2, P1 back to back from 2, to 3, 5 and 9 |
| Preemptive.ShortestRemainingExample | SchedulingAlgorithms.java:237-349 | SRTF on P1(0,5), P2(1,3), P3(2,1): final order P3, P2, P1, finishing at 3, 5, 9, chart [0,1) P1, [1,2) P2, [2,3) P3, [3,5) P2, [5,9) P1 |
| Preemptive.TailBeforeArrival | SchedulingAlgorithms.java:334-344 | on P1(0,1), P2(5,1) the last loop runs P2 over [1, 2), before its arrival at 5, so it finishes at 2 |
| RoundRobin.UpdateCounts | SchedulingAlgorithms.java:585-601 | how the total remaining time and the count of unfinished rows change when one remaining time changes |
| RoundRobin.UnfinishedZero | SchedulingAlgorithms.java:581 | no row is unfinished exactly when every remaining time is at most 0 |
| RoundRobin.FinishKeeps | SchedulingAlgorithms.java:585-594 | running a row's last piece (at most qt) keeps the RR invariant and records ft, tat = ft - at and wt = tat - bt |
| RoundRobin.SliceKeeps | SchedulingAlgorithms.java:595-601 | running a full quantum keeps the RR invariant |
| RoundRobin.IdleKeeps | SchedulingAlgorithms.java:605-608 | a one-unit idle tick keeps the RR invariant |
| RoundRobin.PassIdle | SchedulingAlgorithms.java:583-604 | a pass that serves nobody changes nothing, and then no row has both arrived by the clock and burst left |
| RoundRobin.PassLowersTotal | SchedulingAlgorithms.java:583-604 | no turn raises the total remaining burst, and a pass that serves some row lowers it |
| RoundRobin.PassInIndexOrder | SchedulingAlgorithms.java:582-604 | a pass only appends to the chart, and what it appends are turns of rows in strictly increasing index order, so no row gets two turns in one pass |
| RoundRobin.GiveFullTurns | SchedulingAlgorithms.java:585-601 | after a turn, every turn on the chart is a full quantum or its row's last turn, ending at the row's finish time |
| RoundRobin.PassFullTurns | SchedulingAlgorithms.java:582-604 | the same after a whole pass |
| RoundRobin.RoundFullTurns | SchedulingAlgorithms.java:581-609 | the same after a round |
| RoundRobin.TraceExtend | SchedulingAlgorithms.java:581-609 | a round applied to the last snapshot, which has a row with burst left, extends the recorded run of the outer loop |
| RoundRobin.FinishTurn | SchedulingAlgorithms.java:585-594 | a row with at most a quantum left runs to the end of its burst: rt becomes 0, the clock moves by that burst, the chart gains the piece, ft, tat and wt are recorded; the new state is `Give` of the old |
| RoundRobin.SliceTurn | SchedulingAlgorithms.java:595-601 | a row with more than a quantum left runs one quantum: rt drops by qt, the clock by qt, the chart gains the piece, ft, tat and wt unchanged; the new state is `Give` of the old |
| RoundRobin.Serve | SchedulingAlgorithms.java:584-603 | one turn of an arrived row with burst left: rt[i] becomes 0 or drops by qt, the clock moves by what it ran, the chart gains exactly that piece of row i + 1, ft/tat/wt are recorded exactly when the row completes; the new state is `Give` of the old; the invariant is kept and the total drops |
| RoundRobin.Pass | SchedulingAlgorithms.java:582-604 | one pass over the rows in index order: the new state and the served flag are exactly `PassFrom` from row 0; either nothing was eligible and nothing changed, or the total remaining time dropped |
| RoundRobin.Round | SchedulingAlgorithms.java:581-609 | one iteration of the outer loop is exactly `RoundOf` (the pass, then an idle tick if nobody was served): the total remaining time drops, or the clock advances by one idle tick and stays at or below the latest arrival |
| RoundRobin.IdleTick | SchedulingAlgorithms.java:605-608 | with nobody eligible and some row unfinished, the clock moves one tick without passing the latest arrival and the chart gains that idle piece |
| RoundRobin.NextRound | SchedulingAlgorithms.java:581-609 | one iteration, recorded in the run: the new state is the round of the old one; the total drops, or it stays and the clock moves towards the latest arrival |
| RoundRobin.RunRounds | SchedulingAlgorithms.java:581-611 | the outer loop terminates with no row unfinished; the recorded run starts from the initial arrays and each snapshot is a round of the one before |
| RoundRobin.LoadBursts | SchedulingAlgorithms.java:579 | the remaining times start as a copy of the bursts |
| RoundRobin.Start | SchedulingAlgorithms.java:579 | copying the bursts into `rt` satisfies the invariant, with every row unfinished |
| RoundRobin.Done | SchedulingAlgorithms.java:581-611 | when no row is unfinished, each row has finished, and the chart serves each row exactly its burst |
| RoundRobin.RoundRobin | SchedulingAlgorithms.java:561-629 | with qt > 0 and positive bursts the loop terminates; tat = ft - at, wt = tat - bt and ft >= at + bt for each row; every chart piece is at most a quantum of an arrived row or a one-unit idle tick; each row is served exactly its burst and finishes at the end of one of its pieces; every turn is a full quantum or the row's last; the outputs are the last snapshot of a run of `RoundOf` rounds from the initial arrays |
| RoundRobin.UnfinishedAll | SchedulingAlgorithms.java:579 | with all remaining times positive, every row is unfinished |
| Metrics.WaitingSum | SchedulingAlgorithms.java:38-45 | the loop adds up finish - arrival - burst over all rows |
| Metrics.TurnaroundSum | SchedulingAlgorithms.java:47-54 | the loop adds up finish - arrival over all rows |
| Metrics.WaitingIsTurnaroundLessBurst | SchedulingAlgorithms.java:38-54 | total waiting is total turnaround minus total burst |
| Metrics.WaitingNonNegative | SchedulingAlgorithms.java:38-54 | when every finish is at least arrival + burst, total waiting is not negative and total turnaround is at least total burst |
| Metrics.ProcessTable | SchedulingAlgorithms.java:56-66 | one table line per row; its turnaround and waiting columns are exactly the terms the two sums add up |
| Driver.GroupTriples | SchedulingAlgorithms.java:664-698 | the grouping code returns exactly `Grouped`: an error with no integers or no complete triple, else the triples and the last integer |
| Driver.GroupedOk | SchedulingAlgorithms.java:664-698 | reading succeeds exactly when there are at least four integers; then the rows are numbered 1, 2, ..., their integers are a prefix of the input, the context switch is the last integer and at most two integers are dropped |
| Driver.GroupedFlatten | SchedulingAlgorithms.java:674-698 | round trip: rows numbered 1, 2, ... written out with a context switch are read back unchanged |
| Driver.Sums | SchedulingAlgorithms.java:113-116 | the two sums a routine reports, and waiting sum = turnaround sum - burst sum |
| Driver.RunPreemptive | SchedulingAlgorithms.java:739-746 | SRTF or PPS reports a permutation of the rows; the rows, finish times and chart are those of `Preemptive.Reference` for that policy |
| Driver.RunInPlace | SchedulingAlgorithms.java:733-749 | FCFS, SJF, NPPS or RR on the copy reports a permutation of the rows, each finishing at or after arrival + burst, and what the named routine computes: the FCFS chart of the arrival-sorted rows, the reference dispatch of the burst- or priority-sorted rows, or the finish times and chart of the last snapshot of a run of RR rounds on the rows in input order |
| Driver.RunPolicy | SchedulingAlgorithms.java:723-755 | an operation outside 1..6 is refused and nothing else is; otherwise the report is the one the routine that operation names produces on a copy of the input (`Outcome`; for RR, the last snapshot of its run of rounds), a permutation of the input; waiting sum = turnaround sum - burst sum; for FCFS, SJF, NPPS and RR the waiting sum is not negative |

## Left out

- Reading `inputfile.txt`, the header line, the regular expression that extracts integers and `Integer.parseInt` are left out. The integers are a parameter of `Driver.GroupTriples`.
- All console output is left out, including the printed Gantt-chart text. For example, SJF/NPPS print a gap as `end next.end` rather than `end next.start`; only the chart's pieces are modelled.
- The menu loop, the `y/n` prompt and the `Scanner` reads of the operation and of the RR quantum are left out. They become the parameters `operation` and `qt`.
- The averages (the sums divided by the row count in floating point) are left out. The sums are modelled.
- Java's 32-bit `int` overflow is not modelled: integers are unbounded.
- The context switch is read and returned, but no routine uses it. This matches the source, where `roundRobin` ignores its `contextSwitch` argument.
- `Integer.MAX_VALUE` is used as the "no next arrival" sentinel in SJF/NPPS. The model uses a `found` flag instead, which is equivalent unless some arrival equals that value.
- The linked list of `ExecNode`s is modelled as a sequence of chart pieces. So are the SRTF/PPS `LinkedHashSet` of arrivals and other local scratch arrays.
- The SRTF/PPS initial sort does not swap `ft` and `cm`, unlike the later re-sort. The model moves whole rows in both, which is equivalent because `ft` and `cm` are all zero at that point.
- RoundRobin.RoundRobin: requires qt > 0 and all bursts positive, because otherwise the source's loop never ends.
- RoundRobin.RoundRobin: the chart labels row i as `i + 1`, as the source prints `P(i+1)`, not its pid.
- NonPreemptive.ShortestJobFirst: requires at least one row, because the source reads `at[0]`. NonPreemptivePriority and `Driver.RunPolicy` require it for the same reason. `main` never calls them with no rows.
- Driver.RunPolicy: for operation 6 it also requires a positive quantum and positive bursts, inherited from `RoundRobin.RoundRobin`, because otherwise the source's Round Robin loop never ends.
- Preemptive.Schedule: no bound on waiting times is claimed. The SRTF/PPS last loop can run a row before its arrival (`Preemptive.TailBeforeArrival`), so a waiting time there may be negative.
- Preemptive.Schedule: the service and positive-length guarantees are stated only for well-formed input (arrivals at least 0, bursts positive) with distinct pids. The source does not check its input.
- Driver.RunPolicy: its report reuses the generic sums for RR as well. RR's own `sum1` and `sum2` add the same `tat` and `wt` columns, by `RoundRobin.RoundRobin`'s contract.
