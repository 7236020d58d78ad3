/** The driver (SchedulingAlgorithms.java:631-760): the integers read after the header line are
    grouped into (arrival, burst, priority) triples, the last integer being the context switch;
    then each chosen routine runs on a fresh copy of the rows, so one run cannot disturb the
    next. Reading the file, the regular expression that finds the integers and the menu dialogue
    are not part of this model: the integers and the operation number are parameters. */
module Driver {
  import opened Processes
  import opened Sorting
  import Metrics
  import Fcfs
  import NonPreemptive
  import Preemptive
  import RoundRobin

  /** The rows (pid i + 1 for triple i) and the context switch read from the file. */
  datatype Input = Input(procs: seq<Proc>, contextSwitch: int)

  datatype InputError = NoIntegers | NoTriples

  /** Triple k of the integers as row k, whose pid is k + 1. */
  function Triple(ints: seq<int>, k: nat): Proc
    requires 3 * k + 2 < |ints|
  {
    Proc(k + 1, ints[3 * k], ints[3 * k + 1], ints[3 * k + 2])
  }

  /** How the integers are read: none at all is an error; the last one is the context switch;
      the others form complete triples, a leftover one or two being dropped; no complete triple
      is an error. */
  function Grouped(ints: seq<int>): Result<Input, InputError>
  {
    if |ints| == 0 then Err(NoIntegers)
    else
      var count := (|ints| - 1) / 3;
      if count == 0 then Err(NoTriples)
      else Ok(Input(seq(count, k requires 0 <= k < count => Triple(ints, k)), ints[|ints| - 1]))
  }

  /** The integers a list of rows is written as: arrival, burst and priority of each row in turn. */
  function Flatten(procs: seq<Proc>): (ints: seq<int>)
    ensures |ints| == 3 * |procs|
  {
    if procs == [] then []
    else
      var last := procs[|procs| - 1];
      Flatten(procs[..|procs| - 1]) + [last.at, last.bt, last.pr]
  }

  /** Row k of the rows is written as integers 3k, 3k + 1 and 3k + 2. */
  lemma {:induction false} FlattenAt(procs: seq<Proc>, k: nat)
    requires k < |procs|
    ensures Flatten(procs)[3 * k] == procs[k].at && Flatten(procs)[3 * k + 1] == procs[k].bt &&
            Flatten(procs)[3 * k + 2] == procs[k].pr
  {
    var n := |procs| - 1;
    if k < n {
      FlattenAt(procs[..n], k);
      assert procs[..n][k] == procs[k];
    }
  }

  /** The grouping loop (SchedulingAlgorithms.java:661-698). */
  method GroupTriples(ints: seq<int>) returns (r: Result<Input, InputError>)
    ensures r == Grouped(ints)
  {
    if |ints| == 0 {
      return Err(NoIntegers);
    }
    var contextSwitch := ints[|ints| - 1];
    var procIntCount := Max(0, |ints| - 1);
    if procIntCount % 3 != 0 {
      procIntCount := (procIntCount / 3) * 3;
    }
    var procCount := procIntCount / 3;
    assert procCount == (|ints| - 1) / 3 by {
      if (|ints| - 1) % 3 != 0 {
        assert procIntCount == ((|ints| - 1) / 3) * 3;
      }
    }
    if procCount == 0 {
      return Err(NoTriples);
    }
    var procs: seq<Proc> := [];
    for i := 0 to procCount
      invariant |procs| == i && forall k :: 0 <= k < i ==> procs[k] == Triple(ints, k)
    {
      procs := procs + [Proc(i + 1, ints[i * 3], ints[i * 3 + 1], ints[i * 3 + 2])];
    }
    assert procCount == (|ints| - 1) / 3;
    assert procs == seq(procCount, k requires 0 <= k < procCount => Triple(ints, k));
    return Ok(Input(procs, contextSwitch));
  }

  /** Reading succeeds exactly when there are at least four integers; the rows are then numbered
      1, 2, ... and written out again they give back the integers read, less the context switch
      and at most two dropped ones. */
  lemma GroupedOk(ints: seq<int>)
    ensures Grouped(ints).Ok? <==> |ints| >= 4
    ensures |ints| == 0 ==> Grouped(ints) == Err(NoIntegers)
    ensures 1 <= |ints| < 4 ==> Grouped(ints) == Err(NoTriples)
    ensures Grouped(ints).Ok? ==>
              var inp := Grouped(ints).value;
              inp.contextSwitch == ints[|ints| - 1] &&
              (forall k :: 0 <= k < |inp.procs| ==> inp.procs[k].pid == k + 1) &&
              Flatten(inp.procs) == ints[..3 * |inp.procs|] &&
              3 * |inp.procs| <= |ints| - 1 < 3 * |inp.procs| + 3
  {
    if Grouped(ints).Ok? {
      var procs := Grouped(ints).value.procs;
      forall i | 0 <= i < 3 * |procs| ensures Flatten(procs)[i] == ints[i] {
        var k := i / 3;
        assert 3 * k <= i < 3 * k + 3;
        FlattenAt(procs, k);
        assert procs[k] == Triple(ints, k);
      }
    }
  }

  /** Reading integers that are exactly n triples and a context switch. */
  lemma GroupedExact(ints: seq<int>, n: nat)
    requires n > 0 && |ints| == 3 * n + 1
    ensures Grouped(ints) == Ok(Input(seq(n, k requires 0 <= k < n => Triple(ints, k)), ints[3 * n]))
  {
    assert (|ints| - 1) / 3 == n;
  }

  /** Rows numbered 1, 2, ... written out with a context switch after them are read back as
      exactly those rows and that context switch. */
  lemma GroupedFlatten(procs: seq<Proc>, contextSwitch: int)
    requires |procs| > 0 && forall k :: 0 <= k < |procs| ==> procs[k].pid == k + 1
    ensures Grouped(Flatten(procs) + [contextSwitch]) == Ok(Input(procs, contextSwitch))
  {
    var flat := Flatten(procs);
    var ints := flat + [contextSwitch];
    var n := |procs|;
    GroupedExact(ints, n);
    forall k | 0 <= k < n
      ensures Triple(ints, k) == procs[k]
    {
      FlattenAt(procs, k);
      assert ints[3 * k] == flat[3 * k] && ints[3 * k + 1] == flat[3 * k + 1] && ints[3 * k + 2] == flat[3 * k + 2];
    }
    assert seq(n, k requires 0 <= k < n => Triple(ints, k)) == procs;
  }

  datatype RunError = UnknownOperation

  /** What a routine reports: its table rows in its final order (pid, arrival, burst, priority),
      their finish times, the Gantt chart and the two sums the averages divide. */
  datatype Report = Report(rows: seq<Proc>, ft: seq<int>, chart: seq<Interval>,
                           waitingSum: int, turnaroundSum: int)

  function Arrivals(rows: seq<Proc>): seq<int> { Map(rows, (p: Proc) => p.at) }

  function Bursts(rows: seq<Proc>): seq<int> { Map(rows, (p: Proc) => p.bt) }

  /** The sums over a routine's table. */
  method Sums(rows: seq<Proc>, ft: seq<int>) returns (waitingSum: int, turnaroundSum: int)
    requires |ft| == |rows|
    ensures waitingSum == Metrics.Sum(Metrics.Waitings(ft, Arrivals(rows), Bursts(rows)))
    ensures turnaroundSum == Metrics.Sum(Metrics.Turnarounds(ft, Arrivals(rows)))
    ensures waitingSum == turnaroundSum - Metrics.Sum(Bursts(rows))
  {
    waitingSum := Metrics.WaitingSum(ft, Arrivals(rows), Bursts(rows));
    turnaroundSum := Metrics.TurnaroundSum(ft, Arrivals(rows));
    Metrics.WaitingIsTurnaroundLessBurst(ft, Arrivals(rows), Bursts(rows));
  }

  /** What FCFS reports: the rows in the order the exchange sort on arrival leaves them, the
      chart that runs them back to back in that order, and each row's finish time the end of
      its piece. */
  ghost predicate FcfsOutcome(input: seq<Proc>, rows: seq<Proc>, ft: seq<int>, chart: seq<Interval>)
  {
    rows == ExchangeSorted(input, Fcfs.ArrivalKey) && chart == Fcfs.FcfsTimeline(rows, 0) &&
    |ft| == |rows| && forall j :: 0 <= j < |rows| ==> ft[j] == chart[j].end
  }

  /** What SJF (key: burst) or NPPS (key: priority) reports: the rows in the order the exchange
      sort on the key leaves them, the chart the dispatches over those rows, and the finish time
      of each dispatched row the end of its dispatch. */
  ghost predicate DispatchOutcome(input: seq<Proc>, key: Proc -> int, rows: seq<Proc>, ft: seq<int>,
                                  chart: seq<Interval>)
  {
    rows == ExchangeSorted(input, key) && |ft| == |rows| &&
    var slots := NonPreemptive.Dispatch(rows, NonPreemptive.NoneDone(|rows|), 0);
    |chart| == |slots| &&
    forall k :: 0 <= k < |slots| ==>
      chart[k] == slots[k].run && slots[k].index < |rows| && ft[slots[k].index] == slots[k].run.end
  }

  /** What SRTF or PPS reports: the rows and finish times of the reference schedule's final
      task table, and its chart. */
  ghost predicate PreemptiveOutcome(input: seq<Proc>, policy: Preemptive.Policy, rows: seq<Proc>,
                                    ft: seq<int>, chart: seq<Interval>)
  {
    var ref := Preemptive.Reference(input, policy);
    rows == Map(ref.ts, Preemptive.Original) && ft == Map(ref.ts, Preemptive.FinishOf) && chart == ref.tl
  }

  /** What Round Robin reports: the rows in input order, and the finish times and chart of the
      last snapshot of a run of rounds (`RoundRobin.RoundOf`, each a pass over the rows in index
      order) from the initial arrays, which leaves no row unfinished. So the chart is contiguous
      from time 0, made of turns of at most `qt` given to arrived rows, each row is served exactly
      its burst and finishes at the end of one of its turns, and every turn shorter than the
      quantum is its row's last. */
  ghost predicate RoundRobinOutcome(input: seq<Proc>, qt: int, rows: seq<Proc>, ft: seq<int>,
                                    chart: seq<Interval>)
  {
    rows == input && |ft| == |rows| && Contiguous(chart, 0) &&
    (forall k :: 0 <= k < |chart| ==> RoundRobin.Turn(chart[k], qt) && RoundRobin.Eligible(rows, chart[k])) &&
    (forall i :: 0 <= i < |rows| ==> Served(chart, i + 1) == rows[i].bt && ft[i] in Ends(chart, i + 1)) &&
    (forall k :: 0 <= k < |chart| && chart[k].Run? ==>
       1 <= chart[k].pid <= |rows| && (Length(chart[k]) == qt || chart[k].end == ft[chart[k].pid - 1])) &&
    exists rounds: seq<RoundRobin.Snapshot> :: RoundRobin.Trace(input, qt, rounds) &&
      var last := rounds[|rounds| - 1];
      RoundRobin.Unfinished(last.rt) == 0 && last.ft == ft && last.tl == chart
  }

  /** The report of operation 1 to 6 on `input`, as the routine that operation names produces it. */
  ghost predicate Outcome(input: seq<Proc>, operation: int, qt: int, rows: seq<Proc>, ft: seq<int>,
                          chart: seq<Interval>)
  {
    match operation
    case 1 => FcfsOutcome(input, rows, ft, chart)
    case 2 => DispatchOutcome(input, NonPreemptive.BurstKey, rows, ft, chart)
    case 3 => PreemptiveOutcome(input, Preemptive.ShortestRemaining, rows, ft, chart)
    case 4 => DispatchOutcome(input, NonPreemptive.PriorityKey, rows, ft, chart)
    case 5 => PreemptiveOutcome(input, Preemptive.HighestPriority, rows, ft, chart)
    case _ => RoundRobinOutcome(input, qt, rows, ft, chart)
  }

  /** SRTF or PPS on the rows, reported as the rows and finish times of the final task table. */
  method RunPreemptive(procs: seq<Proc>, policy: Preemptive.Policy)
    returns (rows: seq<Proc>, ft: seq<int>, chart: seq<Interval>)
    ensures |rows| == |procs| && |ft| == |procs| && multiset(rows) == multiset(procs)
    ensures PreemptiveOutcome(procs, policy, rows, ft, chart)
  {
    var ts;
    if policy.ShortestRemaining? {
      ts, chart := Preemptive.ShortestRemainingTimeFirst(procs);
    } else {
      ts, chart := Preemptive.PreemptivePriority(procs);
    }
    rows := Map(ts, Preemptive.Original);
    ft := Map(ts, Preemptive.FinishOf);
  }

  /** FCFS, SJF, NPPS or Round Robin on the rows held in `a`, reported as the rows in their final
      order and their finish times, none of which comes before its row's arrival plus burst. */
  method RunInPlace(a: array<Proc>, operation: int, qt: int)
    returns (rows: seq<Proc>, ft: seq<int>, chart: seq<Interval>)
    requires a.Length > 0 && operation in {1, 2, 4, 6}
    requires operation == 6 ==> qt > 0 && forall i :: 0 <= i < a.Length ==> a[i].bt > 0
    modifies a
    ensures |rows| == a.Length && |ft| == a.Length && multiset(rows) == multiset(old(a[..]))
    ensures forall i :: 0 <= i < |rows| ==> ft[i] >= rows[i].at + rows[i].bt
    ensures Outcome(old(a[..]), operation, qt, rows, ft, chart)
  {
    if operation == 1 {
      ft, chart := Fcfs.FirstComeFirstServed(a);
      rows := a[..];
      Fcfs.FcfsFinishBounds(rows, 0);
    } else if operation == 2 {
      ghost var slots;
      ft, chart, slots := NonPreemptive.ShortestJobFirst(a);
      rows := a[..];
    } else if operation == 4 {
      ghost var slots;
      ft, chart, slots := NonPreemptive.NonPreemptivePriority(a);
      rows := a[..];
    } else {
      var tat, wt;
      ghost var rounds;
      ft, tat, wt, chart, rounds := RoundRobin.RoundRobin(a, qt);
      rows := a[..];
    }
  }

  /** One pass of the menu loop (SchedulingAlgorithms.java:723-755): copy the rows and run the
      chosen routine on the copy. Operations 1 to 6 are FCFS, SJF, SRTF, NPPS, PPS and Round Robin
      (with quantum `qt`); any other number is refused. Every routine reports the input rows in
      some order, as the routine the operation names produces them; FCFS, SJF, NPPS and Round
      Robin never report a negative total waiting time. */
  method RunPolicy(procs: seq<Proc>, operation: int, qt: int) returns (r: Result<Report, RunError>)
    requires |procs| > 0
    requires operation == 6 ==> qt > 0 && forall i :: 0 <= i < |procs| ==> procs[i].bt > 0
    ensures r.Err? <==> !(1 <= operation <= 6)
    ensures r.Err? ==> r.error == UnknownOperation
    ensures r.Ok? ==> |r.value.rows| == |procs| && |r.value.ft| == |procs| &&
                      multiset(r.value.rows) == multiset(procs)
    ensures r.Ok? ==> Outcome(procs, operation, qt, r.value.rows, r.value.ft, r.value.chart)
    ensures r.Ok? ==> r.value.waitingSum == r.value.turnaroundSum - Metrics.Sum(Bursts(r.value.rows))
    ensures r.Ok? && operation in {1, 2, 4, 6} ==>
              (forall i :: 0 <= i < |procs| ==> r.value.ft[i] >= r.value.rows[i].at + r.value.rows[i].bt) &&
              r.value.waitingSum >= 0
  {
    if !(1 <= operation <= 6) {
      return Err(UnknownOperation);
    }
    var a := new Proc[|procs|](i requires 0 <= i < |procs| => procs[i]);
    assert a[..] == procs;
    var rows: seq<Proc>, ft: seq<int>, chart: seq<Interval>;
    if operation in {3, 5} {
      rows, ft, chart := RunPreemptive(a[..], if operation == 3 then Preemptive.ShortestRemaining
                                              else Preemptive.HighestPriority);
    } else {
      rows, ft, chart := RunInPlace(a, operation, qt);
    }
    var waitingSum, turnaroundSum := Sums(rows, ft);
    if operation in {1, 2, 4, 6} {
      Metrics.WaitingNonNegative(ft, Arrivals(rows), Bursts(rows));
    }
    return Ok(Report(rows, ft, chart, waitingSum, turnaroundSum));
  }
}
