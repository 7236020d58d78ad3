/** The two preemptive routines, Shortest Remaining Time First (SchedulingAlgorithms.java:237-349)
    and Preemptive Priority Scheduling (SchedulingAlgorithms.java:447-558). They are the same code
    apart from the sort key: remaining burst for the first, priority for the second.

    The routine works on copies of the input arrays. It sorts them by the key, then walks the
    intervals between consecutive distinct arrival times. Inside an interval [fmin, smin) it
    scans the rows in array order for the first one that is not complete and has arrived by the
    clock, and gives it the CPU by boundary arithmetic on the interval width `smin - fmin`
    (not on `smin - time`): a shorter remaining burst completes and restarts the scan with
    `fmin` moved to the clock, an equal one completes and ends the interval, a longer one runs
    to `smin`. After each interval the rows are sorted again. Rows still incomplete after the
    last interval run to completion one after another in array order, from the clock, whether
    or not they have arrived by then. */
module Preemptive {
  import opened Processes
  import opened Sorting

  /** One row of the routine's parallel arrays: process id, arrival, remaining burst, priority,
      finish time, the completion flag `cm` and the original burst `cbrt`. */
  datatype Task = Task(pid: int, at: int, bt: int, pr: int, ft: int, done: bool, cbrt: int)

  /** Which of the two routines: the sort key is the remaining burst or the priority. */
  datatype Policy = ShortestRemaining | HighestPriority

  function Key(policy: Policy, t: Task): int
  {
    match policy
    case ShortestRemaining => t.bt
    case HighestPriority => t.pr
  }

  function KeyOf(policy: Policy): Task -> int
  {
    t => Key(policy, t)
  }

  /** The row copied from the input: nothing served, not complete, finish time 0. */
  function Fresh(p: Proc): Task
  {
    Task(p.pid, p.at, p.bt, p.pr, 0, false, p.bt)
  }

  /** The input row a task was copied from. */
  function Original(t: Task): Proc
  {
    Proc(t.pid, t.at, t.cbrt, t.pr)
  }

  function ArrivalOf(t: Task): int { t.at }

  function PidOf(t: Task): int { t.pid }

  function IsDone(t: Task): bool { t.done }

  function FinishOf(t: Task): int { t.ft }

  /** Number of rows not yet complete. */
  function Pending(ts: seq<Task>): nat
  {
    multiset(Map(ts, IsDone))[false]
  }

  /** The scan's test: not complete and arrived by the clock. */
  predicate Ready(t: Task, time: int)
  {
    !t.done && t.at <= time
  }

  ghost predicate NoneReady(ts: seq<Task>, time: int)
  {
    forall k :: 0 <= k < |ts| ==> !Ready(ts[k], time)
  }

  /** What holds of each row along the run: a complete row's finish time is the end of one of
      its pieces; on well-formed input the remaining burst stays positive and at most the original
      burst; and when the process ids are also distinct, the chart has served each row its
      original burst less what remains (all of it once complete). */
  ghost predicate TaskOk(tl: seq<Interval>, t: Task, wf: bool, dp: bool)
  {
    (t.done ==> t.ft in Ends(tl, t.pid)) &&
    (wf ==> t.at >= 0 && 0 < t.bt <= t.cbrt) &&
    (wf && dp ==> Served(tl, t.pid) == t.cbrt - (if t.done then 0 else t.bt))
  }

  ghost predicate AllOk(ts: seq<Task>, tl: seq<Interval>, wf: bool, dp: bool)
  {
    forall k :: 0 <= k < |ts| ==> TaskOk(tl, ts[k], wf, dp)
  }

  /** The chart runs without gaps from 0 to the clock; on well-formed input no piece is empty. */
  ghost predicate Chart(tl: seq<Interval>, time: int, wf: bool)
  {
    Contiguous(tl, 0) && EndOf(tl, 0) == time && (wf ==> Advancing(tl))
  }

  /** What holds between steps: the rows are the input rows reordered (with their bookkeeping),
      `complete` counts the complete ones, and the chart and every row are as above. */
  ghost predicate Sched(rows: seq<Proc>, ts: seq<Task>, tl: seq<Interval>, time: int, complete: int)
  {
    |ts| == |rows| && multiset(Map(ts, Original)) == multiset(rows) &&
    complete == |ts| - Pending(ts) &&
    Chart(tl, time, WellFormed(rows)) &&
    AllOk(ts, tl, WellFormed(rows), DistinctPids(rows)) &&
    (DistinctPids(rows) ==> NoDuplicates(Map(ts, PidOf)))
  }

  /** Before anything runs. */
  lemma {:induction false} Initial(rows: seq<Proc>, ts: seq<Task>)
    requires |ts| == |rows| && forall k :: 0 <= k < |ts| ==> ts[k] == Fresh(rows[k])
    ensures Sched(rows, ts, [], 0, 0)
  {
    assert Map(ts, Original) == rows;
    PendingFresh(ts);
    if DistinctPids(rows) {
      forall i, j | 0 <= i < j < |ts| ensures Map(ts, PidOf)[i] != Map(ts, PidOf)[j] {
        assert Map(ts, PidOf)[i] == rows[i].pid && Map(ts, PidOf)[j] == rows[j].pid;
      }
    }
  }

  lemma {:induction false} PendingFresh(ts: seq<Task>)
    requires forall k :: 0 <= k < |ts| ==> !ts[k].done
    ensures Pending(ts) == |ts|
    decreases |ts|
  {
    if ts != [] {
      PendingFresh(ts[1..]);
      assert Map(ts, IsDone) == [false] + Map(ts[1..], IsDone);
    }
  }

  /** With nothing pending, every row is complete. */
  lemma NothingPending(ts: seq<Task>)
    requires Pending(ts) == 0
    ensures forall k :: 0 <= k < |ts| ==> ts[k].done
  {
    assert forall k :: 0 <= k < |ts| ==> Map(ts, IsDone)[k] == ts[k].done;
  }

  /** Replacing one row by another with the same completion flag keeps the count; completing an
      incomplete row lowers it by one. */
  lemma PendingUpdate(ts: seq<Task>, j: nat, t: Task)
    requires j < |ts|
    ensures Pending(ts[j := t]) ==
              Pending(ts) + (if ts[j].done then 0 else -1) + (if t.done then 0 else 1)
  {
    var before, after := Map(ts, IsDone), Map(ts[j := t], IsDone);
    assert after == before[j := t.done] by {
      forall i | 0 <= i < |ts| ensures after[i] == before[j := t.done][i] {
      }
    }
    assert before[j] == ts[j].done;
  }

  /** Replacing a row by one copied from the same input row keeps the input rows. */
  lemma OriginalUpdate(ts: seq<Task>, j: nat, t: Task)
    requires j < |ts| && Original(t) == Original(ts[j])
    ensures Map(ts[j := t], Original) == Map(ts, Original)
    ensures Map(ts[j := t], PidOf) == Map(ts, PidOf)
  {
    assert Map(ts[j := t], Original) == Map(ts, Original);
    assert Map(ts[j := t], PidOf) == Map(ts, PidOf);
  }

  /** Appending piece x for row j, or an idle piece, leaves every other row as it was. */
  lemma OthersKeep(rows: seq<Proc>, ts: seq<Task>, tl: seq<Interval>, j: nat, x: Interval)
    requires |ts| == |rows| && j < |ts| && AllOk(ts, tl, WellFormed(rows), DistinctPids(rows))
    requires DistinctPids(rows) ==> NoDuplicates(Map(ts, PidOf))
    requires x.Run? ==> x.pid == ts[j].pid
    ensures forall k :: 0 <= k < |ts| && k != j ==> TaskOk(tl + [x], ts[k], WellFormed(rows), DistinctPids(rows))
  {
    Extend(tl, x, 0);
    forall k | 0 <= k < |ts| && k != j
      ensures TaskOk(tl + [x], ts[k], WellFormed(rows), DistinctPids(rows))
    {
      assert TaskOk(tl, ts[k], WellFormed(rows), DistinctPids(rows));
      if DistinctPids(rows) && x.Run? {
        assert Map(ts, PidOf)[k] != Map(ts, PidOf)[j];
      }
    }
  }

  /** Row j runs from the clock for all of its remaining burst and completes. */
  lemma CompleteStep(rows: seq<Proc>, ts: seq<Task>, tl: seq<Interval>, time: int, complete: int, j: nat)
    requires Sched(rows, ts, tl, time, complete)
    requires j < |ts| && !ts[j].done
    ensures Sched(rows, ts[j := ts[j].(ft := time + ts[j].bt, done := true)],
                  tl + [Run(ts[j].pid, time, time + ts[j].bt)], time + ts[j].bt, complete + 1)
  {
    var t := ts[j].(ft := time + ts[j].bt, done := true);
    var x := Run(ts[j].pid, time, time + ts[j].bt);
    var wf, dp := WellFormed(rows), DistinctPids(rows);
    Extend(tl, x, 0);
    OriginalUpdate(ts, j, t);
    PendingUpdate(ts, j, t);
    OthersKeep(rows, ts, tl, j, x);
    assert TaskOk(tl, ts[j], wf, dp);
    assert TaskOk(tl + [x], t, wf, dp);
    assert AllOk(ts[j := t], tl + [x], wf, dp);
  }

  /** Row j runs from the clock to `end`, and its remaining burst drops by the width `w`; on
      well-formed input the piece is exactly `w` long. */
  lemma SliceStep(rows: seq<Proc>, ts: seq<Task>, tl: seq<Interval>, time: int, complete: int,
                  j: nat, w: int, end: int)
    requires Sched(rows, ts, tl, time, complete)
    requires j < |ts| && !ts[j].done && ts[j].bt > w
    requires WellFormed(rows) ==> 0 < w == end - time
    ensures Sched(rows, ts[j := ts[j].(bt := ts[j].bt - w)], tl + [Run(ts[j].pid, time, end)], end, complete)
  {
    var t := ts[j].(bt := ts[j].bt - w);
    var x := Run(ts[j].pid, time, end);
    var wf, dp := WellFormed(rows), DistinctPids(rows);
    Extend(tl, x, 0);
    OriginalUpdate(ts, j, t);
    PendingUpdate(ts, j, t);
    OthersKeep(rows, ts, tl, j, x);
    assert TaskOk(tl, ts[j], wf, dp);
    assert TaskOk(tl + [x], t, wf, dp);
    assert AllOk(ts[j := t], tl + [x], wf, dp);
  }

  /** The CPU idles from the clock until `end`. */
  lemma IdleStep(rows: seq<Proc>, ts: seq<Task>, tl: seq<Interval>, time: int, complete: int, end: int)
    requires Sched(rows, ts, tl, time, complete) && time < end
    ensures Sched(rows, ts, tl + [Idle(time, end)], end, complete)
  {
    var x := Idle(time, end);
    Extend(tl, x, 0);
    forall k | 0 <= k < |ts| ensures TaskOk(tl + [x], ts[k], WellFormed(rows), DistinctPids(rows)) {
      assert TaskOk(tl, ts[k], WellFormed(rows), DistinctPids(rows));
    }
  }

  /** Reordering the rows (the sort) keeps everything, including that none is ready. */
  lemma PermuteKeeps(rows: seq<Proc>, ts: seq<Task>, ts': seq<Task>, tl: seq<Interval>, time: int, complete: int)
    requires Sched(rows, ts, tl, time, complete) && multiset(ts') == multiset(ts)
    ensures Sched(rows, ts', tl, time, complete)
    ensures NoneReady(ts, time) ==> NoneReady(ts', time)
  {
    var wf, dp := WellFormed(rows), DistinctPids(rows);
    assert |ts'| == |multiset(ts')| == |ts|;
    MapPermutation(ts, ts', Original);
    MapPermutation(ts, ts', IsDone);
    PermutationAll(ts, ts', t => TaskOk(tl, t, wf, dp));
    if dp {
      MapPermutation(ts, ts', PidOf);
      NoDuplicatesPermutation(Map(ts, PidOf), Map(ts', PidOf));
    }
    if NoneReady(ts, time) {
      PermutationAll(ts, ts', t => !Ready(t, time));
    }
  }

  /** Changing a row without changing its key keeps the rows sorted by it. */
  lemma SortedUpdate(ts: seq<Task>, key: Task -> int, j: nat, t: Task)
    requires SortedBy(ts, key) && j < |ts| && key(t) == key(ts[j])
    ensures SortedBy(ts[j := t], key)
  {
    var s := ts[j := t];
    forall i, k | 0 <= i < k < |s| ensures key(s[i]) <= key(s[k]) {
      assert key(s[i]) == key(ts[i]) && key(s[k]) == key(ts[k]);
    }
  }

  /** The arrays and the chart between steps: the rows, the clock and the pieces so far. */
  datatype Progress = Progress(ts: seq<Task>, time: int, tl: seq<Interval>)

  /** The result of one pass of the do-while body: the new progress, `fmin` and `restart`. */
  datatype Step = Step(p: Progress, fmin: int, restart: bool)

  /** The scan's answer: the first row from `from` on, in array order, that is ready at the
      clock; |ts| if there is none. */
  function FirstReadyAt(ts: seq<Task>, time: int, from: nat): (j: nat)
    requires from <= |ts|
    ensures from <= j <= |ts|
    ensures j < |ts| ==> Ready(ts[j], time)
    ensures forall m :: from <= m < j ==> !Ready(ts[m], time)
    decreases |ts| - from
  {
    if from == |ts| || Ready(ts[from], time) then from else FirstReadyAt(ts, time, from + 1)
  }

  /** Row j runs from the clock for its whole remaining burst and completes there. */
  function Complete(p: Progress, j: nat): Progress
    requires j < |p.ts|
  {
    var t := p.ts[j];
    var end := p.time + t.bt;
    Progress(p.ts[j := t.(ft := end, done := true)], end, p.tl + [Run(t.pid, p.time, end)])
  }

  /** Row j runs from the clock up to `end` and its remaining burst drops by `w`. */
  function Slice(p: Progress, j: nat, w: int, end: int): Progress
    requires j < |p.ts|
  {
    var t := p.ts[j];
    Progress(p.ts[j := t.(bt := t.bt - w)], end, p.tl + [Run(t.pid, p.time, end)])
  }

  /** One pass of the do-while body (SchedulingAlgorithms.java:289-315) on the interval
      [fmin, smin): the first ready row either completes and restarts the scan with `fmin` at the
      clock (remaining burst shorter than `smin - fmin`), completes and ends the interval (equal),
      or runs up to `smin` and loses `smin - fmin` of its remaining burst (longer). With no row
      ready nothing happens. */
  function Serve(p: Progress, fmin: int, smin: int): Step
  {
    var j := FirstReadyAt(p.ts, p.time, 0);
    if j == |p.ts| then Step(p, fmin, false)
    else if p.ts[j].bt < smin - fmin then Step(Complete(p, j), p.time + p.ts[j].bt, true)
    else if p.ts[j].bt == smin - fmin then Step(Complete(p, j), fmin, false)
    else Step(Slice(p, j, smin - fmin, smin), fmin, false)
  }

  /** A restart follows a completion, so fewer rows are pending. */
  lemma ServeRestarts(p: Progress, fmin: int, smin: int)
    requires Serve(p, fmin, smin).restart
    ensures Pending(Serve(p, fmin, smin).p.ts) < Pending(p.ts)
  {
    var j := FirstReadyAt(p.ts, p.time, 0);
    var t := p.ts[j];
    PendingUpdate(p.ts, j, t.(ft := p.time + t.bt, done := true));
    assert Complete(p, j).ts == p.ts[j := t.(ft := p.time + t.bt, done := true)];
  }

  /** The do-while loop (SchedulingAlgorithms.java:288-316): passes until one does not restart. */
  function Passes(p: Progress, fmin: int, smin: int): Progress
    decreases Pending(p.ts)
  {
    var s := Serve(p, fmin, smin);
    if s.restart then ServeRestarts(p, fmin, smin); Passes(s.p, s.fmin, smin) else s.p
  }

  /** One interval of the outer loop (SchedulingAlgorithms.java:285-331): the passes, then the
      exchange sort of the rows by the key. */
  function AfterInterval(p: Progress, fmin: int, smin: int, policy: Policy): Progress
  {
    var q := Passes(p, fmin, smin);
    Progress(ExchangeSorted(q.ts, KeyOf(policy)), q.time, q.tl)
  }

  /** The outer loop from interval i on, over consecutive decision points `arr[i]`, `arr[i + 1]`. */
  function IntervalsFrom(p: Progress, arr: seq<int>, i: nat, policy: Policy): Progress
    decreases |arr| - i
  {
    if i + 1 < |arr| then IntervalsFrom(AfterInterval(p, arr[i], arr[i + 1], policy), arr, i + 1, policy)
    else p
  }

  /** The last loop (SchedulingAlgorithms.java:334-344) from row i on: each row still
      incomplete runs, in array order and back to back from the clock, for its whole remaining
      burst, whether or not it has arrived. */
  function Tail(p: Progress, i: nat): Progress
    decreases |p.ts| - i
  {
    if i >= |p.ts| then p
    else if p.ts[i].done then Tail(p, i + 1)
    else Tail(Complete(p, i), i + 1)
  }

  /** The last loop leaves every row complete and keeps the row count. */
  lemma {:induction false} TailCompletes(p: Progress, i: nat)
    requires i <= |p.ts| && forall m :: 0 <= m < i ==> p.ts[m].done
    ensures |Tail(p, i).ts| == |p.ts|
    ensures forall k :: 0 <= k < |p.ts| ==> Tail(p, i).ts[k].done
    decreases |p.ts| - i
  {
    if i < |p.ts| {
      if p.ts[i].done {
        TailCompletes(p, i + 1);
      } else {
        var q := Complete(p, i);
        assert forall m :: 0 <= m < i + 1 ==> q.ts[m].done;
        TailCompletes(q, i + 1);
      }
    }
  }

  /** The rows copied and sorted by the key, with the clock moved (and an idle piece drawn) up to
      the first decision point when it is later than 0 (SchedulingAlgorithms.java:238-280). */
  function Setup(rows: seq<Proc>, policy: Policy): Progress
  {
    var ts := ExchangeSorted(Map(rows, Fresh), KeyOf(policy));
    var arr := Distinct(Map(ts, ArrivalOf));
    if |arr| > 0 && arr[0] > 0 then Progress(ts, arr[0], [Idle(0, arr[0])]) else Progress(ts, 0, [])
  }

  /** The whole routine, step by step as the source takes it: the set-up, the intervals between
      consecutive distinct arrival times, and the last loop if some row is still incomplete. */
  function Reference(rows: seq<Proc>, policy: Policy): Progress
  {
    var start := Setup(rows, policy);
    var q := IntervalsFrom(start, Distinct(Map(start.ts, ArrivalOf)), 0, policy);
    if Pending(q.ts) != 0 then Tail(q, 0) else q
  }

  /** On rows sorted by the key, the row a pass serves is the first ready one in array order, and
      no ready row has a smaller key: for SRTF the least remaining burst, for PPS the most urgent
      priority, ties going to the earlier position. */
  lemma ServeLeastKey(p: Progress, policy: Policy, m: nat)
    requires SortedBy(p.ts, KeyOf(policy)) && m < |p.ts| && Ready(p.ts[m], p.time)
    ensures FirstReadyAt(p.ts, p.time, 0) <= m
    ensures Key(policy, p.ts[FirstReadyAt(p.ts, p.time, 0)]) <= Key(policy, p.ts[m])
  {
    var j := FirstReadyAt(p.ts, p.time, 0);
    if j < m {
      assert KeyOf(policy)(p.ts[j]) <= KeyOf(policy)(p.ts[m]);
    }
  }

  /** A pass that restarts has only completed a row, so the rows stay sorted by the key and the
      next pass again serves the ready row with the least key. */
  lemma ServeKeepsSorted(p: Progress, fmin: int, smin: int, policy: Policy)
    requires SortedBy(p.ts, KeyOf(policy)) && Serve(p, fmin, smin).restart
    ensures SortedBy(Serve(p, fmin, smin).p.ts, KeyOf(policy))
  {
    var j := FirstReadyAt(p.ts, p.time, 0);
    var t := p.ts[j];
    SortedUpdate(p.ts, KeyOf(policy), j, t.(ft := p.time + t.bt, done := true));
    assert Complete(p, j).ts == p.ts[j := t.(ft := p.time + t.bt, done := true)];
  }

  /** The scan (the inner `for j` loop): the first row, in array order, that is ready at the
      clock; the array length if there is none. */
  method FirstReady(tasks: array<Task>, time: int) returns (j: nat)
    ensures j <= tasks.Length
    ensures j < tasks.Length ==> Ready(tasks[j], time)
    ensures forall m :: 0 <= m < j ==> !Ready(tasks[m], time)
    ensures j == FirstReadyAt(tasks[..], time, 0)
  {
    j := 0;
    while j < tasks.Length && !Ready(tasks[j], time)
      invariant j <= tasks.Length
      invariant forall m :: 0 <= m < j ==> !Ready(tasks[m], time)
      invariant FirstReadyAt(tasks[..], time, j) == FirstReadyAt(tasks[..], time, 0)
    {
      j := j + 1;
    }
  }

  /** Row j, incomplete, runs from the clock for its whole remaining burst: the clock advances by
      it, the row gets the new clock as finish time and is marked complete. */
  method CompleteRow(tasks: array<Task>, ghost rows: seq<Proc>, j: nat, time0: int, complete0: int,
                     tl0: seq<Interval>)
    returns (time: int, complete: int, tl: seq<Interval>)
    modifies tasks
    requires j < tasks.Length && !tasks[j].done && Sched(rows, tasks[..], tl0, time0, complete0)
    ensures time == time0 + old(tasks[j].bt) && complete == complete0 + 1
    ensures tl == tl0 + [Run(old(tasks[j].pid), time0, time)]
    ensures tasks[..] == old(tasks[..])[j := old(tasks[j]).(ft := time, done := true)]
    ensures Progress(tasks[..], time, tl) == Complete(Progress(old(tasks[..]), time0, tl0), j)
    ensures Sched(rows, tasks[..], tl, time, complete)
    ensures Pending(tasks[..]) < Pending(old(tasks[..]))
  {
    ghost var ts := tasks[..];
    var t := tasks[j];
    CompleteStep(rows, ts, tl0, time0, complete0, j);
    time := time0 + t.bt;
    tl := tl0 + [Run(t.pid, time0, time)];
    tasks[j] := t.(ft := time, done := true);
    complete := complete0 + 1;
    assert tasks[..] == ts[j := t.(ft := time, done := true)];
  }

  /** Row j, incomplete with more than `w` left, runs from the clock to `end` and its remaining
      burst drops by `w`. */
  method SliceRow(tasks: array<Task>, ghost rows: seq<Proc>, j: nat, w: int, end: int, time0: int,
                  complete: int, tl0: seq<Interval>)
    returns (time: int, tl: seq<Interval>)
    modifies tasks
    requires j < tasks.Length && !tasks[j].done && tasks[j].bt > w
    requires Sched(rows, tasks[..], tl0, time0, complete)
    requires WellFormed(rows) ==> 0 < w == end - time0
    ensures time == end && tl == tl0 + [Run(old(tasks[j].pid), time0, end)]
    ensures tasks[..] == old(tasks[..])[j := old(tasks[j]).(bt := old(tasks[j].bt) - w)]
    ensures Progress(tasks[..], time, tl) == Slice(Progress(old(tasks[..]), time0, tl0), j, w, end)
    ensures Sched(rows, tasks[..], tl, time, complete)
  {
    ghost var ts := tasks[..];
    var t := tasks[j];
    SliceStep(rows, ts, tl0, time0, complete, j, w, end);
    tasks[j] := t.(bt := t.bt - w);
    time := end;
    tl := tl0 + [Run(t.pid, time0, end)];
    assert tasks[..] == ts[j := t.(bt := t.bt - w)];
  }

  /** One pass of the do-while body (SchedulingAlgorithms.java:289-315): scan, then serve the row
      found by the boundary arithmetic. On well-formed input the clock is at `fmin` whenever a
      row is found (otherwise no row is ready at it), a restart leaves the clock at the new
      `fmin`, and a pass that does not restart leaves it at `smin` or with no row ready. */
  method Decide(tasks: array<Task>, ghost rows: seq<Proc>, fmin0: int, smin: int, time0: int,
                complete0: int, tl0: seq<Interval>)
    returns (time: int, fmin: int, complete: int, tl: seq<Interval>, restart: bool)
    modifies tasks
    requires Sched(rows, tasks[..], tl0, time0, complete0)
    requires WellFormed(rows) ==> fmin0 < smin && time0 <= fmin0 && (time0 == fmin0 || NoneReady(tasks[..], time0))
    ensures Sched(rows, tasks[..], tl, time, complete)
    ensures WellFormed(rows) ==>
              (fmin < smin && (restart ==> time == fmin) &&
               (!restart ==> time <= smin && (time == smin || NoneReady(tasks[..], time))))
    ensures restart ==> Pending(tasks[..]) < Pending(old(tasks[..]))
    ensures Step(Progress(tasks[..], time, tl), fmin, restart) ==
            Serve(Progress(old(tasks[..]), time0, tl0), fmin0, smin)
  {
    time, fmin, complete, tl := time0, fmin0, complete0, tl0;
    restart := false;
    var j := FirstReady(tasks, time);
    if j < tasks.Length {
      assert WellFormed(rows) ==> time0 == fmin0;
      time, fmin, complete, tl, restart := ServeRow(tasks, rows, j, fmin0, smin, time0, complete0, tl0);
    }
  }

  /** The boundary arithmetic on row j, the first ready one: complete it and restart if its
      remaining burst is shorter than `smin - fmin`, complete it if equal, otherwise run it up to
      `smin`. */
  method ServeRow(tasks: array<Task>, ghost rows: seq<Proc>, j: nat, fmin0: int, smin: int, time0: int,
                  complete0: int, tl0: seq<Interval>)
    returns (time: int, fmin: int, complete: int, tl: seq<Interval>, restart: bool)
    modifies tasks
    requires j < tasks.Length && j == FirstReadyAt(tasks[..], time0, 0)
    requires Sched(rows, tasks[..], tl0, time0, complete0)
    requires WellFormed(rows) ==> fmin0 < smin && time0 == fmin0
    ensures Sched(rows, tasks[..], tl, time, complete)
    ensures WellFormed(rows) ==> fmin < smin && (restart ==> time == fmin) && (!restart ==> time == smin)
    ensures restart ==> Pending(tasks[..]) < Pending(old(tasks[..]))
    ensures Step(Progress(tasks[..], time, tl), fmin, restart) ==
            Serve(Progress(old(tasks[..]), time0, tl0), fmin0, smin)
  {
    fmin, complete := fmin0, complete0;
    restart := false;
    var t := tasks[j];
    if t.bt < smin - fmin {
      time, complete, tl := CompleteRow(tasks, rows, j, time0, complete, tl0);
      fmin := time;
      restart := true;
    } else if t.bt == smin - fmin {
      time, complete, tl := CompleteRow(tasks, rows, j, time0, complete, tl0);
    } else {
      time, tl := SliceRow(tasks, rows, j, smin - fmin, smin, time0, complete, tl0);
    }
  }

  /** One interval [fmin, smin) of the outer loop (SchedulingAlgorithms.java:285-331): the
      do-while of passes, then the sort by the key. On well-formed input the clock ends at `smin`
      or with no row ready at it. */
  method RunInterval(tasks: array<Task>, policy: Policy, ghost rows: seq<Proc>, fmin0: int, smin: int,
                     time0: int, complete0: int, tl0: seq<Interval>)
    returns (time: int, complete: int, tl: seq<Interval>)
    modifies tasks
    requires Sched(rows, tasks[..], tl0, time0, complete0)
    requires WellFormed(rows) ==> fmin0 < smin && time0 <= fmin0 && (time0 == fmin0 || NoneReady(tasks[..], time0))
    ensures Sched(rows, tasks[..], tl, time, complete)
    ensures WellFormed(rows) ==> time <= smin && (time == smin || NoneReady(tasks[..], time))
    ensures SortedBy(tasks[..], KeyOf(policy))
    ensures Progress(tasks[..], time, tl) == AfterInterval(Progress(old(tasks[..]), time0, tl0), fmin0, smin, policy)
  {
    time, complete, tl := time0, complete0, tl0;
    var fmin := fmin0;
    var restart := true;
    ghost var start := Progress(tasks[..], time0, tl0);
    while restart
      invariant Sched(rows, tasks[..], tl, time, complete)
      invariant WellFormed(rows) ==>
                  (fmin < smin && (restart ==> time <= fmin && (time == fmin || NoneReady(tasks[..], time))) &&
                   (!restart ==> time <= smin && (time == smin || NoneReady(tasks[..], time))))
      invariant (if restart then Passes(Progress(tasks[..], time, tl), fmin, smin)
                 else Progress(tasks[..], time, tl)) == Passes(start, fmin0, smin)
      decreases if restart then Pending(tasks[..]) + 1 else 0
    {
      time, fmin, complete, tl, restart := Decide(tasks, rows, fmin, smin, time, complete, tl);
    }
    ghost var ts := tasks[..];
    ExchangeSort(tasks, KeyOf(policy));
    PermuteKeeps(rows, ts, tasks[..], tl, time, complete);
  }

  /** The last loop (SchedulingAlgorithms.java:334-344): each row still incomplete runs, in array
      order, for its remaining burst from the clock. */
  method RunRest(tasks: array<Task>, policy: Policy, ghost rows: seq<Proc>, time0: int,
                 complete0: int, tl0: seq<Interval>)
    returns (time: int, complete: int, tl: seq<Interval>)
    modifies tasks
    requires Sched(rows, tasks[..], tl0, time0, complete0) && SortedBy(tasks[..], KeyOf(policy))
    ensures Sched(rows, tasks[..], tl, time, complete) && SortedBy(tasks[..], KeyOf(policy))
    ensures forall k :: 0 <= k < tasks.Length ==> tasks[k].done
    ensures Progress(tasks[..], time, tl) == Tail(Progress(old(tasks[..]), time0, tl0), 0)
  {
    time, complete, tl := time0, complete0, tl0;
    ghost var start := Progress(tasks[..], time0, tl0);
    for i := 0 to tasks.Length
      invariant Sched(rows, tasks[..], tl, time, complete) && SortedBy(tasks[..], KeyOf(policy))
      invariant Tail(Progress(tasks[..], time, tl), i) == Tail(start, 0)
    {
      time, complete, tl := FinishRow(tasks, policy, rows, i, time, complete, tl);
    }
    TailCompletes(start, 0);
  }

  /** One turn of the last loop: row i, if still incomplete, runs to completion from the clock. */
  method FinishRow(tasks: array<Task>, policy: Policy, ghost rows: seq<Proc>, i: nat, time0: int,
                   complete0: int, tl0: seq<Interval>)
    returns (time: int, complete: int, tl: seq<Interval>)
    modifies tasks
    requires i < tasks.Length
    requires Sched(rows, tasks[..], tl0, time0, complete0) && SortedBy(tasks[..], KeyOf(policy))
    ensures Sched(rows, tasks[..], tl, time, complete) && SortedBy(tasks[..], KeyOf(policy))
    ensures Tail(Progress(tasks[..], time, tl), i + 1) == Tail(Progress(old(tasks[..]), time0, tl0), i)
  {
    time, complete, tl := time0, complete0, tl0;
    if !tasks[i].done {
      ghost var ts := tasks[..];
      time, complete, tl := CompleteRow(tasks, rows, i, time, complete, tl);
      SortedUpdate(ts, KeyOf(policy), i, tasks[i]);
    }
  }

  /** On well-formed input every arrival time is at least 0. */
  lemma ArrivalsNonNegative(rows: seq<Proc>, ts: seq<Task>, tl: seq<Interval>, time: int, complete: int)
    requires Sched(rows, ts, tl, time, complete) && WellFormed(rows)
    ensures forall x :: x in Map(ts, ArrivalOf) ==> x >= 0
  {
    forall x | x in Map(ts, ArrivalOf) ensures x >= 0 {
      var k :| 0 <= k < |ts| && Map(ts, ArrivalOf)[k] == x;
      assert TaskOk(tl, ts[k], true, DistinctPids(rows));
    }
  }

  /** The rows copied from the input with their bookkeeping reset, then sorted by the key. */
  method CopySorted(rows: seq<Proc>, policy: Policy) returns (tasks: array<Task>)
    ensures fresh(tasks)
    ensures tasks[..] == ExchangeSorted(Map(rows, Fresh), KeyOf(policy))
    ensures Sched(rows, tasks[..], [], 0, 0) && SortedBy(tasks[..], KeyOf(policy))
    ensures forall x :: x in Map(tasks[..], ArrivalOf) <==> exists k :: 0 <= k < |rows| && rows[k].at == x
  {
    var c := |rows|;
    tasks := new Task[c](k requires 0 <= k < c => Fresh(rows[k]));
    Initial(rows, tasks[..]);
    ghost var ts0 := tasks[..];
    assert ts0 == Map(rows, Fresh);
    ExchangeSort(tasks, KeyOf(policy));
    PermuteKeeps(rows, ts0, tasks[..], [], 0, 0);
    ArrivalsOfRows(rows, tasks[..]);
  }

  /** The set-up before the intervals (SchedulingAlgorithms.java:238-280): copy the input into
      fresh rows, sort them by the key, collect the distinct arrival times in increasing order,
      and idle from 0 to the first arrival if it is later than 0. On well-formed input the clock
      then stands at the first arrival. */
  method Prepare(rows: seq<Proc>, policy: Policy)
    returns (tasks: array<Task>, arr: seq<int>, time: int, tl: seq<Interval>)
    ensures fresh(tasks)
    ensures Sched(rows, tasks[..], tl, time, 0) && SortedBy(tasks[..], KeyOf(policy))
    ensures tasks[..] == ExchangeSorted(Map(rows, Fresh), KeyOf(policy))
    ensures arr == Distinct(Map(tasks[..], ArrivalOf)) && StrictlyIncreasing(arr)
    ensures forall x :: x in arr <==> exists k :: 0 <= k < |rows| && rows[k].at == x
    ensures tl == (if |arr| > 0 && arr[0] > 0 then [Idle(0, arr[0])] else [])
    ensures time == (if |arr| > 0 && arr[0] > 0 then arr[0] else 0)
    ensures Progress(tasks[..], time, tl) == Setup(rows, policy)
    ensures WellFormed(rows) && |arr| > 0 ==> time == arr[0]
  {
    tasks := CopySorted(rows, policy);
    arr := DistinctSorted(Map(tasks[..], ArrivalOf));
    var n := |arr|;
    time := 0;
    tl := [];
    if n > 0 && arr[0] > 0 {
      IdleStep(rows, tasks[..], tl, time, 0, arr[0]);
      tl := tl + [Idle(0, arr[0])];
      time := arr[0];
    }
    if WellFormed(rows) && n > 0 {
      ArrivalsNonNegative(rows, tasks[..], tl, time, 0);
      assert arr[0] in arr;
    }
  }

  /** The arrival times of rows copied from the input, in any order, are those of the input. */
  lemma ArrivalsOfRows(rows: seq<Proc>, ts: seq<Task>)
    requires multiset(ts) == multiset(Map(rows, Fresh))
    ensures forall x :: x in Map(ts, ArrivalOf) <==> exists k :: 0 <= k < |rows| && rows[k].at == x
  {
    forall x ensures x in Map(ts, ArrivalOf) <==> exists k :: 0 <= k < |rows| && rows[k].at == x {
      if x in Map(ts, ArrivalOf) {
        var m :| 0 <= m < |ts| && Map(ts, ArrivalOf)[m] == x;
        assert ts[m] in multiset(Map(rows, Fresh));
        var k :| 0 <= k < |rows| && Map(rows, Fresh)[k] == ts[m];
        assert rows[k].at == x;
      }
      if exists k :: 0 <= k < |rows| && rows[k].at == x {
        var k :| 0 <= k < |rows| && rows[k].at == x;
        assert Map(rows, Fresh)[k] in multiset(ts);
        var m :| 0 <= m < |ts| && ts[m] == Fresh(rows[k]);
        assert Map(ts, ArrivalOf)[m] == x;
      }
    }
  }

  /** Once every row is complete, what the routine promises follows from the invariant. */
  lemma Outcome(rows: seq<Proc>, ts: seq<Task>, tl: seq<Interval>, time: int, complete: int)
    requires Sched(rows, ts, tl, time, complete)
    requires forall k :: 0 <= k < |ts| ==> ts[k].done
    ensures forall k :: 0 <= k < |ts| ==> ts[k].ft in Ends(tl, ts[k].pid)
    ensures WellFormed(rows) ==> Advancing(tl)
    ensures WellFormed(rows) && DistinctPids(rows) ==>
              forall k :: 0 <= k < |ts| ==> Served(tl, ts[k].pid) == ts[k].cbrt
  {
    forall k | 0 <= k < |ts| ensures ts[k].ft in Ends(tl, ts[k].pid) {
      assert TaskOk(tl, ts[k], WellFormed(rows), DistinctPids(rows));
    }
    if WellFormed(rows) && DistinctPids(rows) {
      forall k | 0 <= k < |ts| ensures Served(tl, ts[k].pid) == ts[k].cbrt {
        assert TaskOk(tl, ts[k], true, true);
      }
    }
  }

  /** The outer loop (SchedulingAlgorithms.java:284-332): one interval for each pair of
      consecutive distinct arrival times. */
  method RunIntervals(tasks: array<Task>, policy: Policy, ghost rows: seq<Proc>, arr: seq<int>,
                      time0: int, tl0: seq<Interval>)
    returns (time: int, complete: int, tl: seq<Interval>)
    modifies tasks
    requires Sched(rows, tasks[..], tl0, time0, 0) && SortedBy(tasks[..], KeyOf(policy))
    requires StrictlyIncreasing(arr) && (WellFormed(rows) && |arr| > 0 ==> time0 == arr[0])
    ensures Sched(rows, tasks[..], tl, time, complete) && SortedBy(tasks[..], KeyOf(policy))
    ensures Progress(tasks[..], time, tl) == IntervalsFrom(Progress(old(tasks[..]), time0, tl0), arr, 0, policy)
  {
    ghost var start := Progress(tasks[..], time0, tl0);
    var n := |arr|;
    time, complete, tl := time0, 0, tl0;
    var i := 0;
    while i < n - 1
      invariant 0 <= i && (n > 0 ==> i < n)
      invariant Sched(rows, tasks[..], tl, time, complete) && SortedBy(tasks[..], KeyOf(policy))
      invariant WellFormed(rows) && n > 0 ==>
                  time <= arr[i] && (time == arr[i] || NoneReady(tasks[..], time))
      invariant IntervalsFrom(Progress(tasks[..], time, tl), arr, i, policy) == IntervalsFrom(start, arr, 0, policy)
    {
      time, complete, tl := NextInterval(tasks, policy, rows, arr, i, time, complete, tl);
      i := i + 1;
    }
  }

  /** Interval i of the outer loop, from `arr[i]` to `arr[i + 1]`. */
  method NextInterval(tasks: array<Task>, policy: Policy, ghost rows: seq<Proc>, arr: seq<int>, i: nat,
                      time0: int, complete0: int, tl0: seq<Interval>)
    returns (time: int, complete: int, tl: seq<Interval>)
    modifies tasks
    requires i + 1 < |arr| && StrictlyIncreasing(arr)
    requires Sched(rows, tasks[..], tl0, time0, complete0) && SortedBy(tasks[..], KeyOf(policy))
    requires WellFormed(rows) ==> time0 <= arr[i] && (time0 == arr[i] || NoneReady(tasks[..], time0))
    ensures Sched(rows, tasks[..], tl, time, complete) && SortedBy(tasks[..], KeyOf(policy))
    ensures WellFormed(rows) ==> time <= arr[i + 1] && (time == arr[i + 1] || NoneReady(tasks[..], time))
    ensures IntervalsFrom(Progress(tasks[..], time, tl), arr, i + 1, policy) ==
            IntervalsFrom(Progress(old(tasks[..]), time0, tl0), arr, i, policy)
  {
    time, complete, tl := RunInterval(tasks, policy, rows, arr[i], arr[i + 1], time0, complete0, tl0);
  }

  /** The whole routine for either key. The result rows are the input rows reordered, each
      complete with its finish time at the end of one of its pieces, in the key order of the
      last sort; the chart runs without gaps from 0. On well-formed input no piece is empty, and
      if the process ids are also distinct every row is served exactly its burst. Nothing is
      claimed about finish times against arrivals: the last loop may start a row before it
      arrives. */
  method Schedule(rows: seq<Proc>, policy: Policy) returns (ts: seq<Task>, tl: seq<Interval>)
    ensures |ts| == |rows| && multiset(Map(ts, Original)) == multiset(rows)
    ensures SortedBy(ts, KeyOf(policy))
    ensures Contiguous(tl, 0)
    ensures forall k :: 0 <= k < |ts| ==> ts[k].done && ts[k].ft in Ends(tl, ts[k].pid)
    ensures WellFormed(rows) ==> Advancing(tl)
    ensures WellFormed(rows) && DistinctPids(rows) ==>
              forall k :: 0 <= k < |ts| ==> Served(tl, ts[k].pid) == ts[k].cbrt
    ensures ts == Reference(rows, policy).ts && tl == Reference(rows, policy).tl
  {
    var tasks, arr, time, complete;
    tasks, arr, time, tl := Prepare(rows, policy);
    time, complete, tl := RunIntervals(tasks, policy, rows, arr, time, tl);
    time, complete, tl := FinishAll(tasks, policy, rows, time, complete, tl);
    ts := tasks[..];
    Outcome(rows, ts, tl, time, complete);
  }

  /** After the outer loop: the last loop runs only if some row is still incomplete
      (SchedulingAlgorithms.java:334). */
  method FinishAll(tasks: array<Task>, policy: Policy, ghost rows: seq<Proc>, time0: int,
                   complete0: int, tl0: seq<Interval>)
    returns (time: int, complete: int, tl: seq<Interval>)
    modifies tasks
    requires Sched(rows, tasks[..], tl0, time0, complete0) && SortedBy(tasks[..], KeyOf(policy))
    ensures Sched(rows, tasks[..], tl, time, complete) && SortedBy(tasks[..], KeyOf(policy))
    ensures forall k :: 0 <= k < tasks.Length ==> tasks[k].done
    ensures Progress(tasks[..], time, tl) ==
            (var p := Progress(old(tasks[..]), time0, tl0); if Pending(p.ts) != 0 then Tail(p, 0) else p)
  {
    if complete0 != tasks.Length {
      time, complete, tl := RunRest(tasks, policy, rows, time0, complete0, tl0);
    } else {
      time, complete, tl := time0, complete0, tl0;
      NothingPending(tasks[..]);
    }
  }

  /** The exchange sort leaves three entries already in key order as they are. */
  lemma SortInOrder<T>(a: T, b: T, c: T, key: T -> int)
    requires key(a) <= key(b) <= key(c)
    ensures ExchangeSorted([a, b, c], key) == [a, b, c]
  {
    assert Pass([a, b, c], key, 0, 1) == Pass([a, b, c], key, 0, 2) == [a, b, c];
    assert Pass([a, b, c], key, 1, 2) == [a, b, c];
    assert SortFrom([a, b, c], key, 1) == SortFrom([a, b, c], key, 2) == [a, b, c];
  }

  /** The exchange sort reverses three entries in strictly decreasing key order. */
  lemma SortReversed<T>(a: T, b: T, c: T, key: T -> int)
    requires key(a) > key(b) > key(c)
    ensures ExchangeSorted([a, b, c], key) == [c, b, a]
  {
    assert SwapAt([a, b, c], 0, 1) == [b, a, c];
    assert SwapAt([b, a, c], 0, 2) == [c, a, b];
    assert SwapAt([c, a, b], 1, 2) == [c, b, a];
    calc {
      Pass([a, b, c], key, 0, 1);
      Pass([b, a, c], key, 0, 2);
      Pass([c, a, b], key, 0, 3);
    }
    calc {
      Pass([c, a, b], key, 1, 2);
      Pass([c, b, a], key, 1, 3);
    }
    calc {
      ExchangeSorted([a, b, c], key);
      SortFrom([c, a, b], key, 1);
      SortFrom([c, b, a], key, 2);
      SortFrom(Pass([c, b, a], key, 2, 3), key, 3);
    }
  }

  /** The exchange sort leaves two entries already in key order as they are. */
  lemma SortPairInOrder<T>(a: T, b: T, key: T -> int)
    requires key(a) <= key(b)
    ensures ExchangeSorted([a, b], key) == [a, b]
  {
    assert Pass([a, b], key, 0, 1) == Pass([a, b], key, 0, 2) == [a, b];
    assert SortFrom([a, b], key, 1) == SortFrom([a, b], key, 2) == [a, b];
  }

  /** P1 (arrives 0, burst 1) and P2 (arrives 5, burst 1): P1 completes at 1 and the restarted
      scan finds nothing ready; the outer loop stops at the last decision point, 5, with the clock
      still at 1, and the last loop runs P2 over [1, 2), before it arrives. */
  lemma TailBeforeArrival()
    ensures var r := Reference([Proc(1, 0, 1, 0), Proc(2, 5, 1, 0)], ShortestRemaining);
            |r.ts| == 2 && r.ts[1].pid == 2 && r.ts[1].at == 5 && r.ts[1].ft == 2 &&
            r.tl == [Run(1, 0, 1), Run(2, 1, 2)]
  {
    var rows := [Proc(1, 0, 1, 0), Proc(2, 5, 1, 0)];
    var key := KeyOf(ShortestRemaining);
    var t1, t2 := Fresh(rows[0]), Fresh(rows[1]);
    assert Map(rows, Fresh) == [t1, t2];
    SortPairInOrder(t1, t2, key);
    assert Map([t1, t2], ArrivalOf) == [0, 5];
    assert FirstSeen([0]) == [0];
    assert FirstSeen([0, 5]) == [0, 5];
    SortPairInOrder(0, 5, Identity);
    var start := Progress([t1, t2], 0, []);
    assert Setup(rows, ShortestRemaining) == start;
    assert FirstReadyAt([t1, t2], 0, 0) == 0;
    var d1 := t1.(ft := 1, done := true);
    var p := Progress([d1, t2], 1, [Run(1, 0, 1)]);
    assert Serve(start, 0, 5) == Step(p, 1, true);
    calc {
      FirstReadyAt([d1, t2], 1, 0);
      FirstReadyAt([d1, t2], 1, 1);
      FirstReadyAt([d1, t2], 1, 2);
    }
    assert Serve(p, 1, 5) == Step(p, 1, false);
    assert Passes(start, 0, 5) == p;
    SortPairInOrder(d1, t2, key);
    assert IntervalsFrom(start, [0, 5], 0, ShortestRemaining) == IntervalsFrom(p, [0, 5], 1, ShortestRemaining) == p;
    assert Map(p.ts, IsDone) == [true, false];
    calc {
      Tail(p, 0);
      Tail(p, 1);
      Tail(Complete(p, 1), 2);
    }
  }

  /** The three rows of the example below, fresh. */
  function ExampleRows(): seq<Proc>
  {
    [Proc(1, 0, 5, 0), Proc(2, 1, 3, 0), Proc(3, 2, 1, 0)]
  }

  /** Set-up of the example: sorted by burst the rows are P3, P2, P1, the decision points are
      0, 1 and 2, and nothing idles. */
  lemma ExampleSetup()
    ensures var rows := ExampleRows();
            var start := Setup(rows, ShortestRemaining);
            start == Progress([Fresh(rows[2]), Fresh(rows[1]), Fresh(rows[0])], 0, []) &&
            Distinct(Map(start.ts, ArrivalOf)) == [0, 1, 2]
  {
    var rows := ExampleRows();
    var t1, t2, t3 := Fresh(rows[0]), Fresh(rows[1]), Fresh(rows[2]);
    assert Map(rows, Fresh) == [t1, t2, t3];
    SortReversed(t1, t2, t3, KeyOf(ShortestRemaining));
    assert Map([t3, t2, t1], ArrivalOf) == [2, 1, 0];
    assert FirstSeen([2, 1]) == [2, 1];
    assert FirstSeen([2, 1, 0]) == [2, 1, 0];
    SortReversed(2, 1, 0, Identity);
  }

  /** The intervals of the example: P1 runs over [0, 1), alone; P2 over [1, 2), having the
      shorter remaining burst; at the last decision point the outer loop stops. */
  lemma ExampleIntervals()
    ensures var rows := ExampleRows();
            var t1, t2, t3 := Fresh(rows[0]), Fresh(rows[1]), Fresh(rows[2]);
            IntervalsFrom(Progress([t3, t2, t1], 0, []), [0, 1, 2], 0, ShortestRemaining) ==
            Progress([t3, t2.(bt := 2), t1.(bt := 4)], 2, [Run(1, 0, 1), Run(2, 1, 2)])
  {
    var rows := ExampleRows();
    var key := KeyOf(ShortestRemaining);
    var t1, t2, t3 := Fresh(rows[0]), Fresh(rows[1]), Fresh(rows[2]);
    var start := Progress([t3, t2, t1], 0, []);
    calc {
      FirstReadyAt([t3, t2, t1], 0, 0);
      FirstReadyAt([t3, t2, t1], 0, 1);
      FirstReadyAt([t3, t2, t1], 0, 2);
    }
    var u1 := t1.(bt := 4);
    var p1 := Progress([t3, t2, u1], 1, [Run(1, 0, 1)]);
    assert Serve(start, 0, 1) == Step(p1, 0, false);
    SortInOrder(t3, t2, u1, key);
    assert AfterInterval(start, 0, 1, ShortestRemaining) == p1;
    calc {
      FirstReadyAt([t3, t2, u1], 1, 0);
      FirstReadyAt([t3, t2, u1], 1, 1);
    }
    var u2 := t2.(bt := 2);
    var p2 := Progress([t3, u2, u1], 2, [Run(1, 0, 1), Run(2, 1, 2)]);
    assert Serve(p1, 1, 2) == Step(p2, 1, false);
    SortInOrder(t3, u2, u1, key);
    assert AfterInterval(p1, 1, 2, ShortestRemaining) == p2;
    calc {
      IntervalsFrom(start, [0, 1, 2], 0, ShortestRemaining);
      IntervalsFrom(p1, [0, 1, 2], 1, ShortestRemaining);
      IntervalsFrom(p2, [0, 1, 2], 2, ShortestRemaining);
    }
  }

  /** The last loop of the example: P3, P2 and P1 run back to back from 2, to 3, 5 and 9. */
  lemma ExampleTail()
    ensures var rows := ExampleRows();
            var t1, t2, t3 := Fresh(rows[0]), Fresh(rows[1]), Fresh(rows[2]);
            var p := Progress([t3, t2.(bt := 2), t1.(bt := 4)], 2, [Run(1, 0, 1), Run(2, 1, 2)]);
            Pending(p.ts) != 0 &&
            Tail(p, 0) == Progress([t3.(ft := 3, done := true), t2.(bt := 2, ft := 5, done := true),
                                    t1.(bt := 4, ft := 9, done := true)], 9,
                                   p.tl + [Run(3, 2, 3), Run(2, 3, 5), Run(1, 5, 9)])
  {
    var rows := ExampleRows();
    var t1, t2, t3 := Fresh(rows[0]), Fresh(rows[1]), Fresh(rows[2]);
    var p := Progress([t3, t2.(bt := 2), t1.(bt := 4)], 2, [Run(1, 0, 1), Run(2, 1, 2)]);
    assert Map(p.ts, IsDone) == [false, false, false];
    var q1 := Complete(p, 0);
    var q2 := Complete(q1, 1);
    var q3 := Complete(q2, 2);
    calc {
      Tail(p, 0);
      Tail(q1, 1);
      Tail(q2, 2);
      Tail(q3, 3);
    }
  }

  /** Shortest Remaining Time First on P1 (arrives 0, burst 5), P2 (1, 3) and P3 (2, 1): P3
      finishes at 3, P2 at 5 and P1 at 9. */
  lemma ShortestRemainingExample()
    ensures var r := Reference(ExampleRows(), ShortestRemaining);
            Map(r.ts, PidOf) == [3, 2, 1] && Map(r.ts, FinishOf) == [3, 5, 9] &&
            r.tl == [Run(1, 0, 1), Run(2, 1, 2), Run(3, 2, 3), Run(2, 3, 5), Run(1, 5, 9)]
  {
    var rows := ExampleRows();
    var t1, t2, t3 := Fresh(rows[0]), Fresh(rows[1]), Fresh(rows[2]);
    ExampleSetup();
    ExampleIntervals();
    ExampleTail();
    var q := Progress([t3, t2.(bt := 2), t1.(bt := 4)], 2, [Run(1, 0, 1), Run(2, 1, 2)]);
    assert Reference(rows, ShortestRemaining) == Tail(q, 0);
  }

  /** Shortest Remaining Time First: the result rows come out ordered by their last remaining
      burst. */
  method ShortestRemainingTimeFirst(rows: seq<Proc>) returns (ts: seq<Task>, tl: seq<Interval>)
    ensures |ts| == |rows| && multiset(Map(ts, Original)) == multiset(rows)
    ensures forall i, j :: 0 <= i < j < |ts| ==> ts[i].bt <= ts[j].bt
    ensures Contiguous(tl, 0)
    ensures forall k :: 0 <= k < |ts| ==> ts[k].done && ts[k].ft in Ends(tl, ts[k].pid)
    ensures WellFormed(rows) ==> Advancing(tl)
    ensures WellFormed(rows) && DistinctPids(rows) ==>
              forall k :: 0 <= k < |ts| ==> Served(tl, ts[k].pid) == ts[k].cbrt
    ensures ts == Reference(rows, ShortestRemaining).ts && tl == Reference(rows, ShortestRemaining).tl
  {
    ts, tl := Schedule(rows, ShortestRemaining);
    forall i, j | 0 <= i < j < |ts| ensures ts[i].bt <= ts[j].bt {
      assert KeyOf(ShortestRemaining)(ts[i]) <= KeyOf(ShortestRemaining)(ts[j]);
    }
  }

  /** Preemptive Priority Scheduling: the result rows come out ordered by priority. */
  method PreemptivePriority(rows: seq<Proc>) returns (ts: seq<Task>, tl: seq<Interval>)
    ensures |ts| == |rows| && multiset(Map(ts, Original)) == multiset(rows)
    ensures forall i, j :: 0 <= i < j < |ts| ==> ts[i].pr <= ts[j].pr
    ensures Contiguous(tl, 0)
    ensures forall k :: 0 <= k < |ts| ==> ts[k].done && ts[k].ft in Ends(tl, ts[k].pid)
    ensures WellFormed(rows) ==> Advancing(tl)
    ensures WellFormed(rows) && DistinctPids(rows) ==>
              forall k :: 0 <= k < |ts| ==> Served(tl, ts[k].pid) == ts[k].cbrt
    ensures ts == Reference(rows, HighestPriority).ts && tl == Reference(rows, HighestPriority).tl
  {
    ts, tl := Schedule(rows, HighestPriority);
    forall i, j | 0 <= i < j < |ts| ensures ts[i].pr <= ts[j].pr {
      assert KeyOf(HighestPriority)(ts[i]) <= KeyOf(HighestPriority)(ts[j]);
    }
  }
}
