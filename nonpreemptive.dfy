/** Non-preemptive Shortest Job First (SchedulingAlgorithms.java:134-234) and Non-Preemptive
    Priority Scheduling (SchedulingAlgorithms.java:352-444). Both sort the rows once by a static
    key (burst, resp. priority) and then run the same dispatch loop: the first row in sorted order
    that has arrived and is not complete runs to completion; when none is ready the clock jumps
    forward. */
module NonPreemptive {
  import opened Processes
  import opened Sorting

  function BurstKey(p: Proc): int { p.bt }

  function PriorityKey(p: Proc): int { p.pr }

  /** One dispatch: the row at `index` of the sorted rows runs once, over `run`. */
  datatype Slot = Slot(index: nat, run: Interval)

  function NoneDone(n: nat): seq<bool>
  {
    seq(n, _ => false)
  }

  /** Number of rows not yet complete. */
  function Pending(done: seq<bool>): (p: nat)
    ensures p <= |done|
  {
    if done == [] then 0 else (if done[0] then 0 else 1) + Pending(done[1..])
  }

  lemma {:induction false} PendingMark(done: seq<bool>, i: nat)
    requires i < |done| && !done[i]
    ensures Pending(done[i := true]) == Pending(done) - 1
  {
    if i > 0 {
      assert done[i := true][1..] == done[1..][i - 1 := true];
      PendingMark(done[1..], i - 1);
    } else {
      assert done[i := true][1..] == done[1..];
    }
  }

  lemma {:induction false} PendingZero(done: seq<bool>)
    ensures Pending(done) == 0 <==> forall k :: 0 <= k < |done| ==> done[k]
  {
    if done != [] {
      PendingZero(done[1..]);
      if Pending(done) == 0 {
        forall k | 0 < k < |done| ensures done[k] { assert done[k] == done[1..][k - 1]; }
      }
      if forall k :: 0 <= k < |done| ==> done[k] {
        forall k | 0 <= k < |done[1..]| ensures done[1..][k] { assert done[1..][k] == done[k + 1]; }
      }
    }
  }

  ghost predicate IsReady(rows: seq<Proc>, done: seq<bool>, k: int, t: int)
    requires |done| == |rows|
  {
    0 <= k < |rows| && !done[k] && rows[k].at <= t
  }

  ghost predicate AllDone(done: seq<bool>)
  {
    forall k :: 0 <= k < |done| ==> done[k]
  }

  /** Earliest arrival among the rows from index i on that are not complete. */
  ghost function MinPendingFrom(rows: seq<Proc>, done: seq<bool>, i: nat): (m: int)
    requires |done| == |rows| && i <= |rows|
    requires exists k :: i <= k < |rows| && !done[k]
    ensures exists k :: i <= k < |rows| && !done[k] && rows[k].at == m
    ensures forall k :: i <= k < |rows| && !done[k] ==> m <= rows[k].at
    decreases |rows| - i
  {
    if done[i] then MinPendingFrom(rows, done, i + 1)
    else if exists k :: i + 1 <= k < |rows| && !done[k] then
      var m := MinPendingFrom(rows, done, i + 1);
      if rows[i].at <= m then rows[i].at else m
    else rows[i].at
  }

  /** Earliest arrival among the rows not yet complete. */
  ghost function MinPendingArrival(rows: seq<Proc>, done: seq<bool>): (m: int)
    requires |done| == |rows| && !AllDone(done)
    ensures exists k :: 0 <= k < |rows| && !done[k] && rows[k].at == m
    ensures forall k :: 0 <= k < |rows| && !done[k] ==> m <= rows[k].at
  {
    MinPendingFrom(rows, done, 0)
  }

  /** Lowest index from i on of a row that has arrived by t and is not complete. */
  ghost function FirstReadyFrom(rows: seq<Proc>, done: seq<bool>, t: int, i: nat): (k: nat)
    requires |done| == |rows| && i <= |rows|
    requires exists k :: i <= k && IsReady(rows, done, k, t)
    ensures i <= k && IsReady(rows, done, k, t)
    ensures forall m :: i <= m < k ==> !IsReady(rows, done, m, t)
    decreases |rows| - i
  {
    if IsReady(rows, done, i, t) then i else FirstReadyFrom(rows, done, t, i + 1)
  }

  lemma {:induction false} PendingNoneDone(n: nat)
    ensures Pending(NoneDone(n)) == n
  {
    if n > 0 {
      assert NoneDone(n)[1..] == NoneDone(n - 1);
      PendingNoneDone(n - 1);
    }
  }

  /** The row with the earliest pending arrival is ready at any time not before that arrival. */
  lemma ReadyAtEarliestArrival(rows: seq<Proc>, done: seq<bool>, t: int)
    requires |done| == |rows| && !AllDone(done) && MinPendingArrival(rows, done) <= t
    ensures exists k :: 0 <= k && IsReady(rows, done, k, t)
  {
    var w :| 0 <= w < |rows| && !done[w] && rows[w].at == MinPendingArrival(rows, done);
    assert IsReady(rows, done, w, t);
  }

  /** When the next dispatch starts: the later of the clock and the earliest pending arrival. */
  ghost function NextStart(rows: seq<Proc>, done: seq<bool>, clock: int): int
    requires |done| == |rows| && !AllDone(done)
  {
    Max(clock, MinPendingArrival(rows, done))
  }

  /** Which row is dispatched next: the lowest-indexed row ready at the next start. */
  ghost function NextIndex(rows: seq<Proc>, done: seq<bool>, clock: int): (i: nat)
    requires |done| == |rows| && !AllDone(done)
    ensures IsReady(rows, done, i, NextStart(rows, done, clock))
    ensures forall m :: 0 <= m < i ==> !IsReady(rows, done, m, NextStart(rows, done, clock))
  {
    ReadyAtEarliestArrival(rows, done, NextStart(rows, done, clock));
    FirstReadyFrom(rows, done, NextStart(rows, done, clock), 0)
  }

  /** The dispatch rule, from the completion state `done` with the clock at `clock`: the next row
      starts at NextStart and is the one NextIndex picks; it runs to completion. */
  ghost function Dispatch(rows: seq<Proc>, done: seq<bool>, clock: int): seq<Slot>
    requires |done| == |rows|
    decreases Pending(done)
  {
    if AllDone(done) then []
    else
      var i := NextIndex(rows, done, clock);
      var start := NextStart(rows, done, clock);
      PendingMark(done, i);
      [Slot(i, Run(rows[i].pid, start, start + rows[i].bt))]
        + Dispatch(rows, done[i := true], start + rows[i].bt)
  }

  /** The completion flags after the first k dispatches of `r` have run, starting from `done`. */
  ghost function DoneBefore(done: seq<bool>, r: seq<Slot>, k: nat): (d: seq<bool>)
    requires k <= |r|
    ensures |d| == |done|
  {
    if k == 0 then done
    else
      var d := DoneBefore(done, r, k - 1);
      if r[k - 1].index < |d| then d[r[k - 1].index := true] else d
  }

  /** The clock before dispatch k of `r`: `clock` for the first, then the end of the previous. */
  function PrevEnd(r: seq<Slot>, clock: int, k: nat): int
    requires k <= |r|
  {
    if k == 0 then clock else r[k - 1].run.end
  }

  /** Slot `s` is what the dispatch rule does next from completion state `done` with the CPU
      free since `clock`: its row is ready when it starts and runs for its burst, it starts no
      earlier than `clock`, no lower-indexed row is ready then, and if the CPU idled before it
      then no pending row had arrived yet. */
  ghost predicate RightStep(rows: seq<Proc>, done: seq<bool>, clock: int, s: Slot)
    requires |done| == |rows|
  {
    s.index < |rows| && s.run == Run(rows[s.index].pid, s.run.start, s.run.start + rows[s.index].bt) &&
    clock <= s.run.start &&
    IsReady(rows, done, s.index, s.run.start) &&
    (forall m :: 0 <= m < s.index ==> !IsReady(rows, done, m, s.run.start)) &&
    (s.run.start > clock ==> forall m :: 0 <= m < |rows| && !done[m] ==> s.run.start <= rows[m].at)
  }

  /** Dispatch k of `r` is a right step from the state the earlier dispatches left. */
  ghost predicate StepAt(rows: seq<Proc>, done: seq<bool>, clock: int, r: seq<Slot>, k: nat)
    requires |done| == |rows| && k < |r|
  {
    RightStep(rows, DoneBefore(done, r, k), PrevEnd(r, clock, k), r[k])
  }

  /** Every dispatch of `r` is a right step. */
  ghost predicate RightTrace(rows: seq<Proc>, done: seq<bool>, clock: int, r: seq<Slot>)
    requires |done| == |rows|
  {
    forall k :: 0 <= k < |r| ==> StepAt(rows, done, clock, r, k)
  }

  /** Dropping the first dispatch shifts the completion states by one. */
  lemma {:induction false} DoneBeforeShift(done: seq<bool>, r: seq<Slot>, k: nat)
    requires 0 < k <= |r| && r[0].index < |done|
    ensures DoneBefore(done, r, k) == DoneBefore(done[r[0].index := true], r[1..], k - 1)
  {
    if k > 1 {
      DoneBeforeShift(done, r, k - 1);
      assert r[1..][k - 2] == r[k - 1];
    }
  }

  /** Appending a dispatch leaves the earlier completion states alone. */
  lemma {:induction false} DoneBeforeAppend(done: seq<bool>, r: seq<Slot>, s: Slot, k: nat)
    requires k <= |r|
    ensures DoneBefore(done, r + [s], k) == DoneBefore(done, r, k)
  {
    if k > 0 {
      DoneBeforeAppend(done, r, s, k - 1);
      assert (r + [s])[k - 1] == r[k - 1];
    }
  }

  /** A row is complete after the first k dispatches exactly when it was complete before them or
      one of them ran it. */
  lemma {:induction false} DoneBeforeMarks(done: seq<bool>, r: seq<Slot>, k: nat, i: nat)
    requires k <= |r| && i < |done|
    requires forall j :: 0 <= j < k ==> r[j].index < |done|
    ensures DoneBefore(done, r, k)[i] <==> done[i] || exists j :: 0 <= j < k && r[j].index == i
  {
    if k > 0 {
      DoneBeforeMarks(done, r, k - 1, i);
    }
  }

  /** Only rows that are not complete are dispatched, each at most once. */
  ghost predicate DispatchedOnce(rows: seq<Proc>, done: seq<bool>, r: seq<Slot>)
    requires |done| == |rows|
  {
    (forall k :: 0 <= k < |r| ==> r[k].index < |rows| && !done[r[k].index]) &&
    (forall k1, k2 :: 0 <= k1 < k2 < |r| ==> r[k1].index != r[k2].index)
  }

  /** Every row that is not complete is dispatched. */
  ghost predicate DispatchesPending(rows: seq<Proc>, done: seq<bool>, r: seq<Slot>)
    requires |done| == |rows|
  {
    forall i :: 0 <= i < |rows| && !done[i] ==> exists k :: 0 <= k < |r| && r[k].index == i
  }

  /** Every dispatched row runs for exactly its burst, never before it arrives and never before
      the previous dispatch ended (the start clock at first). */
  ghost predicate RunsInOrder(rows: seq<Proc>, clock: int, r: seq<Slot>)
  {
    forall k :: 0 <= k < |r| ==>
      r[k].index < |rows| &&
      r[k].run == Run(rows[r[k].index].pid, r[k].run.start, r[k].run.start + rows[r[k].index].bt) &&
      rows[r[k].index].at <= r[k].run.start &&
      (k == 0 ==> clock <= r[k].run.start) &&
      (k > 0 ==> r[k - 1].run.end <= r[k].run.start)
  }

  lemma {:induction false} DispatchIndices(rows: seq<Proc>, done: seq<bool>, clock: int)
    requires |done| == |rows|
    ensures DispatchedOnce(rows, done, Dispatch(rows, done, clock))
    decreases Pending(done)
  {
    if !AllDone(done) {
      var r := Dispatch(rows, done, clock);
      var i0 := NextIndex(rows, done, clock);
      var start := NextStart(rows, done, clock);
      var rest := Dispatch(rows, done[i0 := true], start + rows[i0].bt);
      PendingMark(done, i0);
      DispatchIndices(rows, done[i0 := true], start + rows[i0].bt);
      assert r[0].index == i0 && r[1..] == rest;
      forall k | 0 < k < |r| ensures r[k] == rest[k - 1] && r[k].index != i0 && !done[r[k].index] {
        assert r[k] == rest[k - 1];
      }
      forall k1, k2 | 0 <= k1 < k2 < |r| ensures r[k1].index != r[k2].index {
        if k1 > 0 { assert r[k1] == rest[k1 - 1] && r[k2] == rest[k2 - 1]; }
      }
    }
  }

  lemma {:induction false} DispatchCovers(rows: seq<Proc>, done: seq<bool>, clock: int)
    requires |done| == |rows|
    ensures DispatchesPending(rows, done, Dispatch(rows, done, clock))
    decreases Pending(done)
  {
    if !AllDone(done) {
      var r := Dispatch(rows, done, clock);
      var i0 := NextIndex(rows, done, clock);
      var start := NextStart(rows, done, clock);
      var rest := Dispatch(rows, done[i0 := true], start + rows[i0].bt);
      PendingMark(done, i0);
      DispatchCovers(rows, done[i0 := true], start + rows[i0].bt);
      assert r[0].index == i0 && r[1..] == rest;
      forall i | 0 <= i < |rows| && !done[i]
        ensures exists k :: 0 <= k < |r| && r[k].index == i
      {
        if i == i0 {
          assert r[0].index == i;
        } else {
          assert !done[i0 := true][i];
          var k' :| 0 <= k' < |rest| && rest[k'].index == i;
          assert r[k' + 1] == rest[k'];
        }
      }
    }
  }

  lemma {:induction false} DispatchTiming(rows: seq<Proc>, done: seq<bool>, clock: int)
    requires |done| == |rows|
    ensures RunsInOrder(rows, clock, Dispatch(rows, done, clock))
    decreases Pending(done)
  {
    if !AllDone(done) {
      var r := Dispatch(rows, done, clock);
      var i0 := NextIndex(rows, done, clock);
      var start := NextStart(rows, done, clock);
      var rest := Dispatch(rows, done[i0 := true], start + rows[i0].bt);
      PendingMark(done, i0);
      DispatchTiming(rows, done[i0 := true], start + rows[i0].bt);
      assert r[0] == Slot(i0, Run(rows[i0].pid, start, start + rows[i0].bt)) && r[1..] == rest;
      forall k | 0 < k < |r|
        ensures r[k].index < |rows| &&
          r[k].run == Run(rows[r[k].index].pid, r[k].run.start, r[k].run.start + rows[r[k].index].bt) &&
          rows[r[k].index].at <= r[k].run.start && r[k - 1].run.end <= r[k].run.start
      {
        assert r[k] == rest[k - 1];
        if k > 1 { assert r[k - 1] == rest[k - 2]; }
      }
    }
  }

  /** A right step is exactly the first dispatch of the rule. */
  lemma DispatchFirst(rows: seq<Proc>, done: seq<bool>, clock: int, s: Slot)
    requires |done| == |rows| && RightStep(rows, done, clock, s)
    ensures Dispatch(rows, done, clock) == [s] + Dispatch(rows, done[s.index := true], s.run.end)
  {
    PendingMark(done, s.index);
    assert !AllDone(done);
    var start := s.run.start;
    assert NextStart(rows, done, clock) == start by {
      var mp := MinPendingArrival(rows, done);
      assert mp <= rows[s.index].at <= start;
      if start > clock {
        var w :| 0 <= w < |rows| && !done[w] && rows[w].at == mp;
      }
    }
    var j := NextIndex(rows, done, clock);
    assert j == s.index;
    assert s == Slot(j, Run(rows[j].pid, start, start + rows[j].bt));
  }

  /** Every dispatch of the rule is a right step: the lowest-indexed ready row at its start, and
      the CPU only sits idle before it while no pending row has arrived yet. */
  lemma {:induction false} DispatchIsRightTrace(rows: seq<Proc>, done: seq<bool>, clock: int)
    requires |done| == |rows|
    ensures RightTrace(rows, done, clock, Dispatch(rows, done, clock))
    decreases Pending(done)
  {
    if !AllDone(done) {
      var r := Dispatch(rows, done, clock);
      var i0 := NextIndex(rows, done, clock);
      var start := NextStart(rows, done, clock);
      var end := start + rows[i0].bt;
      var rest := Dispatch(rows, done[i0 := true], end);
      PendingMark(done, i0);
      DispatchIsRightTrace(rows, done[i0 := true], end);
      assert r[0] == Slot(i0, Run(rows[i0].pid, start, end)) && r[1..] == rest;
      assert StepAt(rows, done, clock, r, 0) by {
        if start > clock {
          assert start == MinPendingFrom(rows, done, 0);
        }
      }
      forall k | 0 < k < |r| ensures StepAt(rows, done, clock, r, k) {
        DoneBeforeShift(done, r, k);
        assert StepAt(rows, done[i0 := true], end, rest, k - 1);
        assert r[k] == rest[k - 1];
        if k > 1 { assert r[k - 1] == rest[k - 2]; }
      }
    }
  }

  /** Conversely, a trace of right steps after which every row is complete is the rule's
      dispatch order. */
  lemma {:induction false} RightTraceIsDispatch(rows: seq<Proc>, done: seq<bool>, clock: int, r: seq<Slot>)
    requires |done| == |rows| && RightTrace(rows, done, clock, r) && AllDone(DoneBefore(done, r, |r|))
    ensures r == Dispatch(rows, done, clock)
    decreases |r|
  {
    if r != [] {
      var s := r[0];
      assert StepAt(rows, done, clock, r, 0);
      DispatchFirst(rows, done, clock, s);
      var done' := done[s.index := true];
      forall k | 0 <= k < |r| - 1 ensures StepAt(rows, done', s.run.end, r[1..], k) {
        DoneBeforeShift(done, r, k + 1);
        assert StepAt(rows, done, clock, r, k + 1);
        assert r[1..][k] == r[k + 1];
        if k > 0 { assert r[1..][k - 1] == r[k]; }
      }
      DoneBeforeShift(done, r, |r|);
      RightTraceIsDispatch(rows, done', s.run.end, r[1..]);
      assert r == [s] + r[1..];
    }
  }

  /** The rule's dispatch order is the one trace of right steps after which every row is
      complete. */
  lemma DispatchCharacterized(rows: seq<Proc>, done: seq<bool>, clock: int, r: seq<Slot>)
    requires |done| == |rows|
    ensures r == Dispatch(rows, done, clock) <==>
            RightTrace(rows, done, clock, r) && AllDone(DoneBefore(done, r, |r|))
  {
    if r == Dispatch(rows, done, clock) {
      DispatchIsRightTrace(rows, done, clock);
      DispatchIndices(rows, done, clock);
      DispatchCovers(rows, done, clock);
      forall i | 0 <= i < |rows| ensures DoneBefore(done, r, |r|)[i] {
        DoneBeforeMarks(done, r, |r|, i);
      }
    }
    if RightTrace(rows, done, clock, r) && AllDone(DoneBefore(done, r, |r|)) {
      RightTraceIsDispatch(rows, done, clock, r);
    }
  }

  /** Because the rows were sorted once by a key that never changes, the lowest-indexed ready row
      also has the least key among all ready rows: SJF really runs a shortest ready job and NPPS
      a highest-priority ready job, ties going to the earlier position in the sorted order. */
  ghost predicate LeastKeyChoices(rows: seq<Proc>, key: Proc -> int, r: seq<Slot>)
  {
    forall k, m :: 0 <= k < |r| && IsReady(rows, DoneBefore(NoneDone(|rows|), r, k), m, r[k].run.start) ==>
      r[k].index < |rows| && key(rows[r[k].index]) <= key(rows[m])
  }

  lemma LeastKeyAmongReady(rows: seq<Proc>, key: Proc -> int, clock: int)
    requires SortedBy(rows, key)
    ensures LeastKeyChoices(rows, key, Dispatch(rows, NoneDone(|rows|), clock))
  {
    var r := Dispatch(rows, NoneDone(|rows|), clock);
    DispatchIsRightTrace(rows, NoneDone(|rows|), clock);
    forall k, m | 0 <= k < |r| && IsReady(rows, DoneBefore(NoneDone(|rows|), r, k), m, r[k].run.start)
      ensures r[k].index < |rows| && key(rows[r[k].index]) <= key(rows[m])
    {
      assert StepAt(rows, NoneDone(|rows|), clock, r, k);
    }
  }

  /** Once the dispatch rule has run every row from the start, each row finishes no earlier than
      its arrival plus its burst. */
  lemma FinishNotEarly(rows: seq<Proc>, slots: seq<Slot>, ft: seq<int>)
    requires slots == Dispatch(rows, NoneDone(|rows|), 0) && |ft| == |rows|
    requires forall k :: 0 <= k < |slots| ==> slots[k].index < |rows| && ft[slots[k].index] == slots[k].run.end
    ensures forall i :: 0 <= i < |rows| ==> ft[i] >= rows[i].at + rows[i].bt
  {
    DispatchCovers(rows, NoneDone(|rows|), 0);
    DispatchTiming(rows, NoneDone(|rows|), 0);
    forall i | 0 <= i < |rows| ensures ft[i] >= rows[i].at + rows[i].bt {
      assert !NoneDone(|rows|)[i];
      var k :| 0 <= k < |slots| && slots[k].index == i;
    }
  }

  /** The ready/progress state of one round of the dispatch loop, for its termination argument. */
  ghost function Phase(rows: seq<Proc>, done: seq<bool>, current: int, time: int): nat
    requires |done| == |rows|
  {
    if exists k :: IsReady(rows, done, k, current) then 0 else if current < time then 2 else 1
  }

  /** The scan of one round of the dispatch loop (SchedulingAlgorithms.java:161-186): it stops at
      the first row that has arrived by `current` and is not complete (i < a.Length), and
      meanwhile lowers `time` to the arrival of every pending row it passes that arrives no later
      than `time`. So `t` is the least of `time` and the arrivals of the pending rows before i. */
  method ScanReady(a: array<Proc>, cm: seq<bool>, current: int, time: int) returns (i: nat, t: int)
    requires |cm| == a.Length
    ensures i <= a.Length
    ensures i < a.Length ==> IsReady(a[..], cm, i, current)
    ensures forall m :: 0 <= m < i ==> !IsReady(a[..], cm, m, current)
    ensures t <= time && forall m :: 0 <= m < i && !cm[m] ==> t <= a[m].at
    ensures t == time || exists m :: 0 <= m < i && !cm[m] && a[m].at == t
  {
    i, t := 0, time;
    while i < a.Length
      invariant i <= a.Length
      invariant forall m :: 0 <= m < i ==> !IsReady(a[..], cm, m, current)
      invariant t <= time && forall m :: 0 <= m < i && !cm[m] ==> t <= a[m].at
      invariant t == time || exists m :: 0 <= m < i && !cm[m] && a[m].at == t
    {
      if a[i].at <= current && !cm[i] {
        return;
      }
      if t >= a[i].at && !cm[i] {
        t := a[i].at;
      }
      i := i + 1;
    }
  }

  /** The search for the next arrival (SchedulingAlgorithms.java:190-194): the earliest arrival
      after `current` among the rows not complete; `found` is false when there is none (the
      source keeps Integer.MAX_VALUE then). */
  method NextArrival(a: array<Proc>, cm: seq<bool>, current: int) returns (found: bool, nextArr: int)
    requires |cm| == a.Length
    ensures found <==> exists m :: 0 <= m < a.Length && !cm[m] && a[m].at > current
    ensures found ==> exists m :: 0 <= m < a.Length && !cm[m] && a[m].at > current && a[m].at == nextArr
    ensures found ==> forall m :: 0 <= m < a.Length && !cm[m] && a[m].at > current ==> nextArr <= a[m].at
  {
    found, nextArr := false, 0;
    for k := 0 to a.Length
      invariant found <==> exists m :: 0 <= m < k && !cm[m] && a[m].at > current
      invariant found ==> exists m :: 0 <= m < k && !cm[m] && a[m].at > current && a[m].at == nextArr
      invariant found ==> forall m :: 0 <= m < k && !cm[m] && a[m].at > current ==> nextArr <= a[m].at
    {
      if !cm[k] && a[k].at > current && (!found || a[k].at < nextArr) {
        nextArr := a[k].at;
        found := true;
      }
    }
  }

  /** The idle step of the dispatch loop (SchedulingAlgorithms.java:182-194), when the scan found
      no row ready at `current` and lowered `time` to `t`: the clock jumps to `t` if that is
      later, and otherwise to the earliest arrival after `current` among the pending rows. The
      clock moves forward, not past any pending arrival, and the round's phase drops. */
  method IdleAdvance(a: array<Proc>, cm: seq<bool>, current: int, time: int, t: int) returns (next: int)
    requires |cm| == a.Length && t <= time
    requires exists m :: 0 <= m < a.Length && !cm[m]
    requires forall m :: 0 <= m < a.Length && !cm[m] ==> current < a[m].at && t <= a[m].at
    ensures current < next
    ensures forall m :: 0 <= m < a.Length && !cm[m] ==> next <= a[m].at
    ensures Phase(a[..], cm, next, t) < Phase(a[..], cm, current, time)
  {
    if current < t {
      next := t;
    } else {
      var found, nextArr := NextArrival(a, cm, current);
      assert found by {
        var w :| 0 <= w < a.Length && !cm[w];
        assert a[w].at > current;
      }
      if found {
        next := nextArr;
      } else {
        next := current;
      }
      var w :| 0 <= w < a.Length && !cm[w] && a[w].at > current && a[w].at == nextArr;
      assert IsReady(a[..], cm, w, next);
    }
  }

  /** What the dispatch loop knows between rounds, on values: `done` and `fs` mirror the arrays
      `cm` and `ft`, `slots` is a trace of right steps from the start whose runs are the chart
      `tl`, `done` is the state it leaves, and the clock `current` is not before the end of the
      last run; if it is after it then no pending row had arrived before `current`. */
  ghost predicate DispatchState(rows: seq<Proc>, done: seq<bool>, fs: seq<int>, current: int,
                                tl: seq<Interval>, slots: seq<Slot>)
  {
    |done| == |rows| && |fs| == |rows| &&
    RightTrace(rows, NoneDone(|rows|), 0, slots) &&
    done == DoneBefore(NoneDone(|rows|), slots, |slots|) &&
    PrevEnd(slots, 0, |slots|) <= current &&
    (PrevEnd(slots, 0, |slots|) < current ==>
       forall m :: 0 <= m < |rows| && !done[m] ==> current <= rows[m].at) &&
    |tl| == |slots| && (forall k :: 0 <= k < |slots| ==> tl[k] == slots[k].run) &&
    (forall k :: 0 <= k < |slots| ==> slots[k].index < |rows| && done[slots[k].index]) &&
    (forall k :: 0 <= k < |slots| ==> fs[slots[k].index] == slots[k].run.end)
  }

  /** Running the first ready row `i` to completion keeps the loop state. */
  lemma RunKeeps(rows: seq<Proc>, done: seq<bool>, fs: seq<int>, current: int,
                 tl: seq<Interval>, slots: seq<Slot>, i: nat, run: Interval)
    requires DispatchState(rows, done, fs, current, tl, slots)
    requires IsReady(rows, done, i, current)
    requires forall m :: 0 <= m < i ==> !IsReady(rows, done, m, current)
    requires run == Run(rows[i].pid, current, current + rows[i].bt)
    ensures DispatchState(rows, done[i := true], fs[i := run.end], run.end,
                          tl + [run], slots + [Slot(i, run)])
  {
    var n := |rows|;
    var s := Slot(i, run);
    var slots' := slots + [s];
    forall k | 0 <= k < |slots'| ensures StepAt(rows, NoneDone(n), 0, slots', k) {
      DoneBeforeAppend(NoneDone(n), slots, s, k);
      if k > 0 {
        assert slots'[k - 1] == slots[k - 1];
      }
      if k < |slots| {
        assert StepAt(rows, NoneDone(n), 0, slots, k);
        assert slots'[k] == slots[k];
      }
    }
    DoneBeforeAppend(NoneDone(n), slots, s, |slots|);
  }

  /** Moving the clock forward, not past any pending arrival, keeps the loop state. */
  lemma IdleKeeps(rows: seq<Proc>, done: seq<bool>, fs: seq<int>, current: int,
                  tl: seq<Interval>, slots: seq<Slot>, next: int)
    requires DispatchState(rows, done, fs, current, tl, slots)
    requires current < next && forall m :: 0 <= m < |rows| && !done[m] ==> next <= rows[m].at
    ensures DispatchState(rows, done, fs, next, tl, slots)
  {
  }

  /** When every row is complete the trace is the rule's whole dispatch order. */
  lemma StateComplete(rows: seq<Proc>, done: seq<bool>, fs: seq<int>, current: int,
                      tl: seq<Interval>, slots: seq<Slot>)
    requires DispatchState(rows, done, fs, current, tl, slots) && AllDone(done)
    ensures slots == Dispatch(rows, NoneDone(|rows|), 0)
    ensures forall i :: 0 <= i < |rows| ==> fs[i] >= rows[i].at + rows[i].bt
  {
    DispatchCharacterized(rows, NoneDone(|rows|), 0, slots);
    FinishNotEarly(rows, slots, fs);
  }

  /** The dispatch loop shared by SJF and NPPS (SchedulingAlgorithms.java:155-195 and 373-409),
      over rows already sorted; `slots` is the order of dispatch. Every row completes, runs once
      for its burst and finishes no earlier than its arrival plus its burst. */
  method DispatchLoop(a: array<Proc>) returns (ft: seq<int>, tl: seq<Interval>, ghost slots: seq<Slot>)
    requires a.Length > 0
    ensures slots == Dispatch(a[..], NoneDone(a.Length), 0)
    ensures |tl| == |slots| && forall k :: 0 <= k < |slots| ==> tl[k] == slots[k].run
    ensures |ft| == a.Length
    ensures forall k :: 0 <= k < |slots| ==> slots[k].index < a.Length && ft[slots[k].index] == slots[k].run.end
    ensures forall i :: 0 <= i < a.Length ==> ft[i] >= a[i].at + a[i].bt
  {
    ghost var rows := a[..];
    var c := a.Length;
    var f := seq(c, _ => 0);
    var cm := seq(c, _ => false);
    var time := a[0].at;
    var current := 0;
    var complete := 0;
    tl, slots := [], [];
    assert cm == NoneDone(c);
    PendingNoneDone(c);
    while complete != c
      invariant DispatchState(rows, cm, f, current, tl, slots)
      invariant complete == c - Pending(cm)
      decreases Pending(cm), Phase(rows, cm, current, time)
    {
      PendingZero(cm);
      var i, t := ScanReady(a, cm, current, time);
      if i < c {
        time := t;
        var p := a[i];
        ghost var run := Run(p.pid, current, current + p.bt);
        RunKeeps(rows, cm, f, current, tl, slots, i, run);
        PendingMark(cm, i);
        complete := complete + 1;
        f := f[i := current + p.bt];
        current := current + p.bt;
        cm := cm[i := true];
        var node := Run(p.pid, current - p.bt, current);
        assert node == run && current == run.end;
        tl := tl + [node];
        slots := slots + [Slot(i, node)];
      } else {
        forall m | 0 <= m < c && !cm[m] ensures current < a[m].at && t <= a[m].at {
          assert !IsReady(a[..], cm, m, current);
        }
        var next := IdleAdvance(a, cm, current, time, t);
        IdleKeeps(rows, cm, f, current, tl, slots, next);
        current := next;
        time := t;
      }
    }
    PendingZero(cm);
    StateComplete(rows, cm, f, current, tl, slots);
    ft := f;
  }

  /** Sort the caller's rows in place by `key`, then dispatch. */
  method SortAndDispatch(a: array<Proc>, key: Proc -> int) returns (ft: seq<int>, tl: seq<Interval>, ghost slots: seq<Slot>)
    requires a.Length > 0
    modifies a
    ensures a[..] == ExchangeSorted(old(a[..]), key)
    ensures SortedBy(a[..], key) && multiset(a[..]) == multiset(old(a[..]))
    ensures slots == Dispatch(a[..], NoneDone(a.Length), 0)
    ensures |tl| == |slots| && forall k :: 0 <= k < |slots| ==> tl[k] == slots[k].run
    ensures |ft| == a.Length
    ensures forall k :: 0 <= k < |slots| ==> slots[k].index < a.Length && ft[slots[k].index] == slots[k].run.end
    ensures forall i :: 0 <= i < a.Length ==> ft[i] >= a[i].at + a[i].bt
  {
    ExchangeSort(a, key);
    ft, tl, slots := DispatchLoop(a);
  }

  /** SJF: rows sorted by burst time, then dispatched. */
  method ShortestJobFirst(a: array<Proc>) returns (ft: seq<int>, tl: seq<Interval>, ghost slots: seq<Slot>)
    requires a.Length > 0
    modifies a
    ensures a[..] == ExchangeSorted(old(a[..]), BurstKey)
    ensures SortedBy(a[..], BurstKey) && multiset(a[..]) == multiset(old(a[..]))
    ensures slots == Dispatch(a[..], NoneDone(a.Length), 0)
    ensures |tl| == |slots| && forall k :: 0 <= k < |slots| ==> tl[k] == slots[k].run
    ensures |ft| == a.Length
    ensures forall k :: 0 <= k < |slots| ==> slots[k].index < a.Length && ft[slots[k].index] == slots[k].run.end
    ensures forall i :: 0 <= i < a.Length ==> ft[i] >= a[i].at + a[i].bt
  {
    ft, tl, slots := SortAndDispatch(a, BurstKey);
  }

  /** NPPS: rows sorted by priority (lower value first), then dispatched. */
  method NonPreemptivePriority(a: array<Proc>) returns (ft: seq<int>, tl: seq<Interval>, ghost slots: seq<Slot>)
    requires a.Length > 0
    modifies a
    ensures a[..] == ExchangeSorted(old(a[..]), PriorityKey)
    ensures SortedBy(a[..], PriorityKey) && multiset(a[..]) == multiset(old(a[..]))
    ensures slots == Dispatch(a[..], NoneDone(a.Length), 0)
    ensures |tl| == |slots| && forall k :: 0 <= k < |slots| ==> tl[k] == slots[k].run
    ensures |ft| == a.Length
    ensures forall k :: 0 <= k < |slots| ==> slots[k].index < a.Length && ft[slots[k].index] == slots[k].run.end
    ensures forall i :: 0 <= i < a.Length ==> ft[i] >= a[i].at + a[i].bt
  {
    ft, tl, slots := SortAndDispatch(a, PriorityKey);
  }
}
