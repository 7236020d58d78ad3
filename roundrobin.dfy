/** Round Robin (SchedulingAlgorithms.java:561-629). The rows are not sorted: every pass walks
    them in index order, and each row that has arrived by the clock and still has burst left gets
    the CPU for its remaining burst or one quantum, whichever is smaller; the clock advances
    during the pass, so a later row in the same pass is judged against the advanced clock. A pass
    that serves nobody advances the clock by one idle tick. The chart labels row i as i + 1. */
module RoundRobin {
  import opened Processes
  import Sorting

  /** Sum of the remaining bursts. */
  function Total(rt: seq<int>): int
  {
    if rt == [] then 0 else rt[0] + Total(rt[1..])
  }

  /** Number of rows with burst left. */
  function Unfinished(rt: seq<int>): (n: nat)
    ensures n <= |rt|
  {
    if rt == [] then 0 else (if rt[0] > 0 then 1 else 0) + Unfinished(rt[1..])
  }

  /** Changing one remaining burst changes the sum and the count by what it changes locally. */
  lemma {:induction false} UpdateCounts(rt: seq<int>, i: nat, v: int)
    requires i < |rt|
    ensures Total(rt[i := v]) == Total(rt) - rt[i] + v
    ensures Unfinished(rt[i := v]) ==
              Unfinished(rt) - (if rt[i] > 0 then 1 else 0) + (if v > 0 then 1 else 0)
  {
    if i > 0 {
      assert rt[i := v][1..] == rt[1..][i - 1 := v];
      UpdateCounts(rt[1..], i - 1, v);
    } else {
      assert rt[i := v][1..] == rt[1..];
    }
  }

  lemma {:induction false} UnfinishedZero(rt: seq<int>)
    ensures Unfinished(rt) == 0 <==> forall i :: 0 <= i < |rt| ==> rt[i] <= 0
  {
    if rt != [] {
      UnfinishedZero(rt[1..]);
      if Unfinished(rt) == 0 {
        forall i | 0 < i < |rt| ensures rt[i] <= 0 { assert rt[i] == rt[1..][i - 1]; }
      }
      if forall i :: 0 <= i < |rt| ==> rt[i] <= 0 {
        forall i | 0 <= i < |rt[1..]| ensures rt[1..][i] <= 0 { assert rt[1..][i] == rt[i + 1]; }
      }
    }
  }

  lemma {:induction false} TotalNonNegative(rt: seq<int>)
    requires forall i :: 0 <= i < |rt| ==> rt[i] >= 0
    ensures Total(rt) >= 0
  {
    if rt != [] {
      assert forall i :: 0 <= i < |rt[1..]| ==> rt[1..][i] == rt[i + 1];
      TotalNonNegative(rt[1..]);
    }
  }

  /** The latest arrival of any row (0 for no rows). */
  function LatestArrival(rows: seq<Proc>): (m: int)
    ensures forall i :: 0 <= i < |rows| ==> rows[i].at <= m
  {
    if rows == [] then 0 else Max(rows[0].at, LatestArrival(rows[1..]))
  }

  /** A piece of the chart: a turn of at most one quantum, or a single idle tick. */
  ghost predicate Turn(x: Interval, qt: int)
  {
    if x.Run? then 0 < Length(x) <= qt else Length(x) == 1
  }

  /** A turn is given to a row (labelled by its index + 1) that had arrived when it started. */
  ghost predicate Eligible(rows: seq<Proc>, x: Interval)
  {
    x.Run? ==> 1 <= x.pid <= |rows| && rows[x.pid - 1].at <= x.start
  }

  /** The chart runs contiguously from 0 to the clock `ct`, in turns given to eligible rows and
      idle ticks. */
  ghost predicate ChartOk(rows: seq<Proc>, qt: int, ct: int, tl: seq<Interval>)
  {
    Contiguous(tl, 0) && EndOf(tl, 0) == ct &&
    forall k :: 0 <= k < |tl| ==> Turn(tl[k], qt) && Eligible(rows, tl[k])
  }

  /** Row i has received its burst minus its remaining burst `rt[i]`, and if it has received
      anything the clock is at least its arrival plus what it received. */
  ghost predicate ServiceOk(rows: seq<Proc>, rt: seq<int>, ct: int, tl: seq<Interval>)
    requires |rt| == |rows|
  {
    (forall i :: 0 <= i < |rows| ==>
       0 <= rt[i] <= rows[i].bt && Served(tl, i + 1) == rows[i].bt - rt[i]) &&
    (forall i :: 0 <= i < |rows| && rt[i] < rows[i].bt ==> rows[i].at + rows[i].bt - rt[i] <= ct)
  }

  /** A row with nothing left has its finish time, turnaround and waiting time recorded, the
      finish being the end of one of its turns and not before its arrival plus its burst. */
  ghost predicate Finished(rows: seq<Proc>, ft: seq<int>, tat: seq<int>, wt: seq<int>, tl: seq<Interval>, i: nat)
    requires i < |rows| && |ft| == |rows| && |tat| == |rows| && |wt| == |rows|
  {
    ft[i] in Ends(tl, i + 1) && ft[i] >= rows[i].at + rows[i].bt &&
    tat[i] == ft[i] - rows[i].at && wt[i] == tat[i] - rows[i].bt
  }

  /** Every row with nothing left is finished. */
  ghost predicate AllFinished(rows: seq<Proc>, rt: seq<int>, ft: seq<int>, tat: seq<int>, wt: seq<int>,
                              tl: seq<Interval>)
    requires |rt| == |rows| && |ft| == |rows| && |tat| == |rows| && |wt| == |rows|
  {
    forall i :: 0 <= i < |rows| && rt[i] == 0 ==> Finished(rows, ft, tat, wt, tl, i)
  }

  /** What holds between turns. */
  ghost predicate RrState(rows: seq<Proc>, qt: int, rt: seq<int>, ft: seq<int>, tat: seq<int>,
                          wt: seq<int>, ct: int, tl: seq<Interval>)
  {
    |rt| == |rows| && |ft| == |rows| && |tat| == |rows| && |wt| == |rows| &&
    ChartOk(rows, qt, ct, tl) && ServiceOk(rows, rt, ct, tl) && AllFinished(rows, rt, ft, tat, wt, tl)
  }

  /** Appending a turn or tick that starts at the clock keeps the chart right. */
  lemma ChartExtend(rows: seq<Proc>, qt: int, ct: int, tl: seq<Interval>, x: Interval)
    requires ChartOk(rows, qt, ct, tl) && x.start == ct && Turn(x, qt) && Eligible(rows, x)
    ensures ChartOk(rows, qt, x.end, tl + [x])
  {
    Extend(tl, x, 0);
    forall k | 0 <= k < |tl| + 1 ensures Turn((tl + [x])[k], qt) && Eligible(rows, (tl + [x])[k]) {
      if k < |tl| {
        assert (tl + [x])[k] == tl[k];
      }
    }
  }

  /** Serving eligible row i over `x` lowers its remaining burst by the length of `x`. */
  lemma ServiceExtend(rows: seq<Proc>, rt: seq<int>, ct: int, tl: seq<Interval>, i: nat, x: Interval)
    requires |rt| == |rows| && ServiceOk(rows, rt, ct, tl)
    requires i < |rows| && rows[i].at <= ct && x == Run(i + 1, ct, x.end) && 0 < Length(x) <= rt[i]
    ensures ServiceOk(rows, rt[i := rt[i] - Length(x)], x.end, tl + [x])
  {
    Extend(tl, x, 0);
    var rt' := rt[i := rt[i] - Length(x)];
    forall m | 0 <= m < |rows|
      ensures 0 <= rt'[m] <= rows[m].bt && Served(tl + [x], m + 1) == rows[m].bt - rt'[m]
    {
      assert Served(tl + [x], m + 1) == Served(tl, m + 1) + (if m == i then Length(x) else 0);
    }
  }

  /** Finished rows stay finished when the chart grows, and a row that was not finished before
      is not claimed to be after. */
  lemma FinishedExtend(rows: seq<Proc>, rt: seq<int>, rt': seq<int>, ft: seq<int>, tat: seq<int>,
                       wt: seq<int>, tl: seq<Interval>, x: Interval)
    requires |rt| == |rows| && |rt'| == |rows| && |ft| == |rows| && |tat| == |rows| && |wt| == |rows|
    requires AllFinished(rows, rt, ft, tat, wt, tl)
    requires forall m :: 0 <= m < |rows| && rt'[m] == 0 ==> rt[m] == 0
    ensures AllFinished(rows, rt', ft, tat, wt, tl + [x])
  {
    Extend(tl, x, 0);
  }

  /** Recording row i as finished at the end of its last turn `x`. */
  lemma FinishOne(rows: seq<Proc>, rt: seq<int>, ft: seq<int>, tat: seq<int>, wt: seq<int>,
                  tl: seq<Interval>, i: nat, x: Interval)
    requires |rt| == |rows| && |ft| == |rows| && |tat| == |rows| && |wt| == |rows| && i < |rows|
    requires AllFinished(rows, rt, ft, tat, wt, tl)
    requires x.Run? && x.pid == i + 1 && x.end >= rows[i].at + rows[i].bt
    ensures AllFinished(rows, rt[i := 0], ft[i := x.end], tat[i := x.end - rows[i].at],
                        wt[i := x.end - rows[i].at - rows[i].bt], tl + [x])
  {
    Extend(tl, x, 0);
    var rt', ft', tat', wt' := rt[i := 0], ft[i := x.end], tat[i := x.end - rows[i].at],
                              wt[i := x.end - rows[i].at - rows[i].bt];
    forall m | 0 <= m < |rows| && rt'[m] == 0 ensures Finished(rows, ft', tat', wt', tl + [x], m) {
      if m != i {
        assert Finished(rows, ft, tat, wt, tl, m);
      }
    }
  }

  /** Serving eligible row i for its whole remaining burst (at most a quantum) completes it. */
  lemma FinishKeeps(rows: seq<Proc>, qt: int, rt: seq<int>, ft: seq<int>, tat: seq<int>,
                    wt: seq<int>, ct: int, tl: seq<Interval>, i: nat, end: int,
                    rt': seq<int>, ft': seq<int>, tat': seq<int>, wt': seq<int>, tl': seq<Interval>)
    requires RrState(rows, qt, rt, ft, tat, wt, ct, tl)
    requires i < |rows| && rows[i].at <= ct && 0 < rt[i] <= qt && end == ct + rt[i]
    requires rt' == rt[i := 0] && ft' == ft[i := end] && tat' == tat[i := end - rows[i].at]
    requires wt' == wt[i := end - rows[i].at - rows[i].bt] && tl' == tl + [Run(i + 1, ct, end)]
    ensures RrState(rows, qt, rt', ft', tat', wt', end, tl')
  {
    var x := Run(i + 1, ct, end);
    ChartExtend(rows, qt, ct, tl, x);
    ServiceExtend(rows, rt, ct, tl, i, x);
    assert rt[i := rt[i] - Length(x)] == rt[i := 0];
    assert rows[i].bt - rt[i] == Served(tl, i + 1) && rows[i].at + Served(tl, i + 1) <= ct;
    FinishOne(rows, rt, ft, tat, wt, tl, i, x);
  }

  /** Serving eligible row i for one quantum, when more than a quantum is left. */
  lemma SliceKeeps(rows: seq<Proc>, qt: int, rt: seq<int>, ft: seq<int>, tat: seq<int>,
                   wt: seq<int>, ct: int, tl: seq<Interval>, i: nat, rt': seq<int>, ct': int, tl': seq<Interval>)
    requires RrState(rows, qt, rt, ft, tat, wt, ct, tl)
    requires i < |rows| && rows[i].at <= ct && rt[i] > qt > 0
    requires rt' == rt[i := rt[i] - qt] && ct' == ct + qt && tl' == tl + [Run(i + 1, ct, ct')]
    ensures RrState(rows, qt, rt', ft, tat, wt, ct', tl')
  {
    var x := Run(i + 1, ct, ct + qt);
    assert Length(x) == qt;
    ChartExtend(rows, qt, ct, tl, x);
    ServiceExtend(rows, rt, ct, tl, i, x);
    FinishedExtend(rows, rt, rt[i := rt[i] - qt], ft, tat, wt, tl, x);
  }

  /** One idle tick. */
  lemma IdleKeeps(rows: seq<Proc>, qt: int, rt: seq<int>, ft: seq<int>, tat: seq<int>,
                  wt: seq<int>, ct: int, tl: seq<Interval>)
    requires RrState(rows, qt, rt, ft, tat, wt, ct, tl)
    ensures RrState(rows, qt, rt, ft, tat, wt, ct + 1, tl + [Idle(ct, ct + 1)])
  {
    var x := Idle(ct, ct + 1);
    ChartExtend(rows, qt, ct, tl, x);
    Extend(tl, x, 0);
    FinishedExtend(rows, rt, rt, ft, tat, wt, tl, x);
  }

  /** The routine's arrays and clock between turns: remaining bursts, finish, turnaround and
      waiting times, the clock `ct` and the chart. */
  datatype Snapshot = Snapshot(rt: seq<int>, ft: seq<int>, tat: seq<int>, wt: seq<int>, ct: int,
                               tl: seq<Interval>)

  /** One entry per row in every array. */
  predicate Shaped(rows: seq<Proc>, s: Snapshot)
  {
    |s.rt| == |rows| && |s.ft| == |rows| && |s.tat| == |rows| && |s.wt| == |rows|
  }

  /** A turn of row i from the clock (SchedulingAlgorithms.java:585-601): with at most a quantum
      left the row runs to the end of its burst and its finish, turnaround and waiting time are
      recorded; otherwise it runs for exactly one quantum. */
  function Give(rows: seq<Proc>, qt: int, s: Snapshot, i: nat): (r: Snapshot)
    requires Shaped(rows, s) && i < |rows|
    ensures Shaped(rows, r)
  {
    if s.rt[i] <= qt then
      var end := s.ct + s.rt[i];
      Snapshot(s.rt[i := 0], s.ft[i := end], s.tat[i := end - rows[i].at],
               s.wt[i := end - rows[i].at - rows[i].bt], end, s.tl + [Run(i + 1, s.ct, end)])
    else
      Snapshot(s.rt[i := s.rt[i] - qt], s.ft, s.tat, s.wt, s.ct + qt, s.tl + [Run(i + 1, s.ct, s.ct + qt)])
  }

  /** The scan of one pass from row i on (SchedulingAlgorithms.java:583-604), in index order:
      each row that has arrived by the current clock and has burst left gets a turn, every other
      row is skipped. The flag says whether any row was served. */
  function PassFrom(rows: seq<Proc>, qt: int, s: Snapshot, i: nat, served: bool): (r: (Snapshot, bool))
    requires Shaped(rows, s) && i <= |rows|
    ensures Shaped(rows, r.0) && (served ==> r.1)
    decreases |rows| - i
  {
    if i == |rows| then (s, served)
    else if rows[i].at <= s.ct && s.rt[i] > 0 then PassFrom(rows, qt, Give(rows, qt, s, i), i + 1, true)
    else PassFrom(rows, qt, s, i + 1, served)
  }

  /** One iteration of the outer loop (SchedulingAlgorithms.java:581-609): a pass, then one idle
      tick if it served nobody. */
  function RoundOf(rows: seq<Proc>, qt: int, s: Snapshot): (r: Snapshot)
    requires Shaped(rows, s)
    ensures Shaped(rows, r)
  {
    var p := PassFrom(rows, qt, s, 0, false);
    if p.1 then p.0 else p.0.(ct := p.0.ct + 1, tl := p.0.tl + [Idle(p.0.ct, p.0.ct + 1)])
  }

  /** A pass that serves nobody changes nothing. */
  lemma {:induction false} PassIdle(rows: seq<Proc>, qt: int, s: Snapshot, i: nat)
    requires Shaped(rows, s) && i <= |rows| && !PassFrom(rows, qt, s, i, false).1
    ensures PassFrom(rows, qt, s, i, false).0 == s
    ensures forall m :: i <= m < |rows| ==> !(rows[m].at <= s.ct && s.rt[m] > 0)
    decreases |rows| - i
  {
    if i < |rows| {
      if rows[i].at <= s.ct && s.rt[i] > 0 {
        assert false;
      } else {
        PassIdle(rows, qt, s, i + 1);
      }
    }
  }

  /** No turn raises the total remaining burst, and a pass that serves some row lowers it. */
  lemma {:induction false} PassLowersTotal(rows: seq<Proc>, qt: int, s: Snapshot, i: nat, served: bool)
    requires qt > 0 && Shaped(rows, s) && i <= |rows|
    ensures var r := PassFrom(rows, qt, s, i, served);
            Total(r.0.rt) <= Total(s.rt) && (r.1 && !served ==> Total(r.0.rt) < Total(s.rt))
    decreases |rows| - i
  {
    if i < |rows| {
      if rows[i].at <= s.ct && s.rt[i] > 0 {
        var g := Give(rows, qt, s, i);
        UpdateCounts(s.rt, i, g.rt[i]);
        assert g.rt == s.rt[i := g.rt[i]];
        PassLowersTotal(rows, qt, g, i + 1, true);
      } else {
        PassLowersTotal(rows, qt, s, i + 1, served);
      }
    }
  }

  /** The pieces one pass adds are turns, in increasing row order, each of rows from i on: the
      pass serves the rows in index order and none twice. */
  lemma {:induction false} PassInIndexOrder(rows: seq<Proc>, qt: int, s: Snapshot, i: nat, served: bool)
    requires Shaped(rows, s) && i <= |rows|
    ensures var r := PassFrom(rows, qt, s, i, served).0;
            |s.tl| <= |r.tl| && r.tl[..|s.tl|] == s.tl &&
            (forall k :: |s.tl| <= k < |r.tl| ==> r.tl[k].Run? && i < r.tl[k].pid) &&
            (forall k, l :: |s.tl| <= k < l < |r.tl| ==> r.tl[k].pid < r.tl[l].pid)
    decreases |rows| - i
  {
    if i < |rows| {
      if rows[i].at <= s.ct && s.rt[i] > 0 {
        var g := Give(rows, qt, s, i);
        PassInIndexOrder(rows, qt, g, i + 1, true);
        var r := PassFrom(rows, qt, g, i + 1, true).0;
        assert g.tl == s.tl + [g.tl[|s.tl|]] && g.tl[|s.tl|] == Run(i + 1, s.ct, g.ct);
        assert r.tl[..|g.tl|] == g.tl;
        assert r.tl[..|s.tl|] == s.tl by {
          assert r.tl[..|s.tl|] == r.tl[..|g.tl|][..|s.tl|];
        }
        assert r.tl[|s.tl|] == g.tl[|s.tl|];
      } else {
        PassInIndexOrder(rows, qt, s, i + 1, served);
      }
    }
  }

  /** Every turn on the chart lasts exactly one quantum, except a row's last turn, which ends at
      its recorded finish time and may be shorter. */
  ghost predicate FullTurns(rows: seq<Proc>, qt: int, s: Snapshot)
    requires Shaped(rows, s)
  {
    forall k :: 0 <= k < |s.tl| && s.tl[k].Run? ==>
      1 <= s.tl[k].pid <= |rows| &&
      (Length(s.tl[k]) == qt || (s.rt[s.tl[k].pid - 1] == 0 && s.ft[s.tl[k].pid - 1] == s.tl[k].end))
  }

  /** A turn of a row with burst left keeps every turn full or final. */
  lemma GiveFullTurns(rows: seq<Proc>, qt: int, s: Snapshot, i: nat)
    requires Shaped(rows, s) && i < |rows| && s.rt[i] > 0 && FullTurns(rows, qt, s)
    ensures FullTurns(rows, qt, Give(rows, qt, s, i))
  {
    var g := Give(rows, qt, s, i);
    forall k | 0 <= k < |g.tl| && g.tl[k].Run?
      ensures 1 <= g.tl[k].pid <= |rows| &&
              (Length(g.tl[k]) == qt || (g.rt[g.tl[k].pid - 1] == 0 && g.ft[g.tl[k].pid - 1] == g.tl[k].end))
    {
      if k < |s.tl| {
        assert g.tl[k] == s.tl[k];
      }
    }
  }

  lemma {:induction false} PassFullTurns(rows: seq<Proc>, qt: int, s: Snapshot, i: nat, served: bool)
    requires Shaped(rows, s) && i <= |rows| && FullTurns(rows, qt, s)
    ensures FullTurns(rows, qt, PassFrom(rows, qt, s, i, served).0)
    decreases |rows| - i
  {
    if i < |rows| {
      if rows[i].at <= s.ct && s.rt[i] > 0 {
        GiveFullTurns(rows, qt, s, i);
        PassFullTurns(rows, qt, Give(rows, qt, s, i), i + 1, true);
      } else {
        PassFullTurns(rows, qt, s, i + 1, served);
      }
    }
  }

  /** A round keeps every turn full or final. */
  lemma RoundFullTurns(rows: seq<Proc>, qt: int, s: Snapshot)
    requires Shaped(rows, s) && FullTurns(rows, qt, s)
    ensures FullTurns(rows, qt, RoundOf(rows, qt, s))
  {
    PassFullTurns(rows, qt, s, 0, false);
    var q := PassFrom(rows, qt, s, 0, false).0;
    var r := RoundOf(rows, qt, s);
    forall k | 0 <= k < |r.tl| && r.tl[k].Run?
      ensures 1 <= r.tl[k].pid <= |rows| &&
              (Length(r.tl[k]) == qt || (r.rt[r.tl[k].pid - 1] == 0 && r.ft[r.tl[k].pid - 1] == r.tl[k].end))
    {
      if k < |q.tl| {
        assert r.tl[k] == q.tl[k];
      }
    }
  }

  /** One turn of row i (SchedulingAlgorithms.java:584-601): row i has arrived and has burst
      left; it runs for its remaining burst if that is at most a quantum, and is then complete
      with its finish, turnaround and waiting time recorded, or else for one quantum. */
  method Serve(a: array<Proc>, qt: int, i: nat, rt0: seq<int>, ft0: seq<int>, tat0: seq<int>,
               wt0: seq<int>, ct0: int, tl0: seq<Interval>, com0: int)
    returns (rt: seq<int>, ft: seq<int>, tat: seq<int>, wt: seq<int>, ct: int, tl: seq<Interval>,
             com: int)
    requires qt > 0 && i < a.Length
    requires RrState(a[..], qt, rt0, ft0, tat0, wt0, ct0, tl0)
    requires com0 == a.Length - Unfinished(rt0)
    requires a[i].at <= ct0 && rt0[i] > 0
    ensures RrState(a[..], qt, rt, ft, tat, wt, ct, tl)
    ensures com == a.Length - Unfinished(rt)
    ensures Total(rt) < Total(rt0)
    ensures rt == rt0[i := if rt0[i] <= qt then 0 else rt0[i] - qt]
    ensures ct == ct0 + rt0[i] - rt[i] && tl == tl0 + [Run(i + 1, ct0, ct)]
    ensures rt[i] == 0 ==> ft == ft0[i := ct] && tat == tat0[i := ct - a[i].at] && wt == wt0[i := ct - a[i].at - a[i].bt]
    ensures rt[i] != 0 ==> ft == ft0 && tat == tat0 && wt == wt0
    ensures Snapshot(rt, ft, tat, wt, ct, tl) == Give(a[..], qt, Snapshot(rt0, ft0, tat0, wt0, ct0, tl0), i)
  {
    if rt0[i] <= qt {
      rt, ft, tat, wt, ct, tl, com := FinishTurn(a, qt, i, rt0, ft0, tat0, wt0, ct0, tl0, com0);
    } else {
      rt, ft, tat, wt, ct, tl, com := SliceTurn(a, qt, i, rt0, ft0, tat0, wt0, ct0, tl0, com0);
    }
  }

  /** Row i, eligible with at most a quantum left, runs to completion. */
  method FinishTurn(a: array<Proc>, qt: int, i: nat, rt0: seq<int>, ft0: seq<int>, tat0: seq<int>,
                    wt0: seq<int>, ct0: int, tl0: seq<Interval>, com0: int)
    returns (rt: seq<int>, ft: seq<int>, tat: seq<int>, wt: seq<int>, ct: int, tl: seq<Interval>,
             com: int)
    requires qt > 0 && i < a.Length
    requires RrState(a[..], qt, rt0, ft0, tat0, wt0, ct0, tl0)
    requires com0 == a.Length - Unfinished(rt0)
    requires a[i].at <= ct0 && 0 < rt0[i] <= qt
    ensures RrState(a[..], qt, rt, ft, tat, wt, ct, tl)
    ensures com == a.Length - Unfinished(rt)
    ensures Total(rt) < Total(rt0)
    ensures rt == rt0[i := 0] && ct == ct0 + rt0[i] && tl == tl0 + [Run(i + 1, ct0, ct)]
    ensures ft == ft0[i := ct] && tat == tat0[i := ct - a[i].at] && wt == wt0[i := ct - a[i].at - a[i].bt]
    ensures Snapshot(rt, ft, tat, wt, ct, tl) == Give(a[..], qt, Snapshot(rt0, ft0, tat0, wt0, ct0, tl0), i)
  {
    var p := a[i];
    ghost var end := ct0 + rt0[i];
    assert a[..][i] == p;
    assert Give(a[..], qt, Snapshot(rt0, ft0, tat0, wt0, ct0, tl0), i) ==
           Snapshot(rt0[i := 0], ft0[i := end], tat0[i := end - p.at], wt0[i := end - p.at - p.bt], end,
                    tl0 + [Run(i + 1, ct0, end)]);
    UpdateCounts(rt0, i, 0);
    com := com0 + 1;
    ct := ct0 + rt0[i];
    ft := ft0[i := ct];
    assert ft[i] == end;
    tat := tat0[i := ft[i] - p.at];
    assert tat[i] == end - p.at;
    wt := wt0[i := tat[i] - p.bt];
    tl := tl0 + [Run(i + 1, ct0, ct)];
    rt := rt0[i := 0];
    FinishKeeps(a[..], qt, rt0, ft0, tat0, wt0, ct0, tl0, i, ct, rt, ft, tat, wt, tl);
  }

  /** Row i, eligible with more than a quantum left, runs for one quantum. */
  method SliceTurn(a: array<Proc>, qt: int, i: nat, rt0: seq<int>, ft0: seq<int>, tat0: seq<int>,
                   wt0: seq<int>, ct0: int, tl0: seq<Interval>, com0: int)
    returns (rt: seq<int>, ft: seq<int>, tat: seq<int>, wt: seq<int>, ct: int, tl: seq<Interval>,
             com: int)
    requires qt > 0 && i < a.Length
    requires RrState(a[..], qt, rt0, ft0, tat0, wt0, ct0, tl0)
    requires com0 == a.Length - Unfinished(rt0)
    requires a[i].at <= ct0 && rt0[i] > qt
    ensures RrState(a[..], qt, rt, ft, tat, wt, ct, tl)
    ensures com == a.Length - Unfinished(rt)
    ensures Total(rt) < Total(rt0)
    ensures rt == rt0[i := rt0[i] - qt] && ct == ct0 + qt && tl == tl0 + [Run(i + 1, ct0, ct)]
    ensures ft == ft0 && tat == tat0 && wt == wt0
    ensures Snapshot(rt, ft, tat, wt, ct, tl) == Give(a[..], qt, Snapshot(rt0, ft0, tat0, wt0, ct0, tl0), i)
  {
    assert a[..][i] == a[i];
    UpdateCounts(rt0, i, rt0[i] - qt);
    ft, tat, wt, com := ft0, tat0, wt0, com0;
    ct := ct0 + qt;
    tl := tl0 + [Run(i + 1, ct0, ct)];
    rt := rt0[i := rt0[i] - qt];
    SliceKeeps(a[..], qt, rt0, ft, tat, wt, ct0, tl0, i, rt, ct, tl);
  }

  /** One pass over the rows in index order (SchedulingAlgorithms.java:581-604). `check` is 1
      when some row was served; otherwise nothing changed and no row is eligible at the clock.
      A pass that serves lowers the total remaining burst. */
  method Pass(a: array<Proc>, qt: int, rt0: seq<int>, ft0: seq<int>, tat0: seq<int>, wt0: seq<int>,
              ct0: int, tl0: seq<Interval>, com0: int)
    returns (rt: seq<int>, ft: seq<int>, tat: seq<int>, wt: seq<int>, ct: int, tl: seq<Interval>,
             com: int, check: int)
    requires qt > 0
    requires RrState(a[..], qt, rt0, ft0, tat0, wt0, ct0, tl0)
    requires com0 == a.Length - Unfinished(rt0)
    ensures RrState(a[..], qt, rt, ft, tat, wt, ct, tl)
    ensures com == a.Length - Unfinished(rt)
    ensures check == 0 || check == 1
    ensures check == 0 ==> rt == rt0 && ct == ct0 && tl == tl0 &&
                           forall m :: 0 <= m < a.Length ==> !(a[m].at <= ct && rt[m] > 0)
    ensures check == 1 ==> Total(rt) < Total(rt0)
    ensures (Snapshot(rt, ft, tat, wt, ct, tl), check == 1) ==
            PassFrom(a[..], qt, Snapshot(rt0, ft0, tat0, wt0, ct0, tl0), 0, false)
  {
    rt, ft, tat, wt, ct, tl, com := rt0, ft0, tat0, wt0, ct0, tl0, com0;
    check := 0;
    ghost var start := Snapshot(rt0, ft0, tat0, wt0, ct0, tl0);
    for i := 0 to a.Length
      invariant RrState(a[..], qt, rt, ft, tat, wt, ct, tl)
      invariant com == a.Length - Unfinished(rt)
      invariant check == 0 || check == 1
      invariant PassFrom(a[..], qt, Snapshot(rt, ft, tat, wt, ct, tl), i, check == 1) ==
                PassFrom(a[..], qt, start, 0, false)
    {
      if a[i].at <= ct && rt[i] > 0 {
        rt, ft, tat, wt, ct, tl, com := Serve(a, qt, i, rt, ft, tat, wt, ct, tl, com);
        check := 1;
      }
    }
    if check == 0 {
      PassIdle(a[..], qt, start, 0);
    } else {
      PassLowersTotal(a[..], qt, start, 0, false);
    }
  }

  /** One iteration of the outer loop (SchedulingAlgorithms.java:580-609): a pass, then one idle
      tick if the pass served nobody. While some row is unfinished, either the total remaining
      burst drops or nothing is served and the clock moves one tick towards the latest arrival. */
  method Round(a: array<Proc>, qt: int, rt0: seq<int>, ft0: seq<int>, tat0: seq<int>, wt0: seq<int>,
               ct0: int, tl0: seq<Interval>, com0: int)
    returns (rt: seq<int>, ft: seq<int>, tat: seq<int>, wt: seq<int>, ct: int, tl: seq<Interval>,
             com: int)
    requires qt > 0
    requires RrState(a[..], qt, rt0, ft0, tat0, wt0, ct0, tl0)
    requires com0 == a.Length - Unfinished(rt0) && com0 != a.Length
    ensures RrState(a[..], qt, rt, ft, tat, wt, ct, tl)
    ensures com == a.Length - Unfinished(rt)
    ensures 0 <= Total(rt) < Total(rt0) ||
            (rt == rt0 && ct == ct0 + 1 && tl == tl0 + [Idle(ct0, ct0 + 1)] && ct <= LatestArrival(a[..]))
    ensures Snapshot(rt, ft, tat, wt, ct, tl) == RoundOf(a[..], qt, Snapshot(rt0, ft0, tat0, wt0, ct0, tl0))
  {
    var check;
    rt, ft, tat, wt, ct, tl, com, check := Pass(a, qt, rt0, ft0, tat0, wt0, ct0, tl0, com0);
    TotalNonNegative(rt);
    ghost var passed := Snapshot(rt, ft, tat, wt, ct, tl);
    RoundOfPass(a[..], qt, Snapshot(rt0, ft0, tat0, wt0, ct0, tl0), passed, check == 1);
    if check == 0 {
      ct, tl := IdleTick(a, qt, rt, ft, tat, wt, ct, tl);
      assert Snapshot(rt, ft, tat, wt, ct, tl) == passed.(ct := passed.ct + 1, tl := passed.tl + [Idle(passed.ct, passed.ct + 1)]);
    } else {
      assert Snapshot(rt, ft, tat, wt, ct, tl) == passed;
    }
  }

  /** A round is its pass, followed by the idle tick when the pass served nobody. */
  lemma RoundOfPass(rows: seq<Proc>, qt: int, s0: Snapshot, s: Snapshot, served: bool)
    requires Shaped(rows, s0) && PassFrom(rows, qt, s0, 0, false) == (s, served)
    ensures served ==> RoundOf(rows, qt, s0) == s
    ensures !served ==> RoundOf(rows, qt, s0) == s.(ct := s.ct + 1, tl := s.tl + [Idle(s.ct, s.ct + 1)])
  {
  }

  /** The tick the outer loop spends when a pass served nobody while some row has burst left:
      the clock moves on by one, which does not pass the latest arrival since that row has not
      yet arrived. */
  method IdleTick(a: array<Proc>, qt: int, rt: seq<int>, ft: seq<int>, tat: seq<int>, wt: seq<int>,
                  ct0: int, tl0: seq<Interval>)
    returns (ct: int, tl: seq<Interval>)
    requires RrState(a[..], qt, rt, ft, tat, wt, ct0, tl0) && Unfinished(rt) != 0
    requires forall m :: 0 <= m < a.Length ==> !(a[m].at <= ct0 && rt[m] > 0)
    ensures RrState(a[..], qt, rt, ft, tat, wt, ct, tl)
    ensures ct == ct0 + 1 && tl == tl0 + [Idle(ct0, ct0 + 1)] && ct <= LatestArrival(a[..])
  {
    UnfinishedZero(rt);
    ghost var m :| 0 <= m < a.Length && rt[m] > 0;
    assert a[..][m].at <= LatestArrival(a[..]);
    IdleKeeps(a[..], qt, rt, ft, tat, wt, ct0, tl0);
    ct := ct0 + 1;
    tl := tl0 + [Idle(ct0, ct)];
  }

  /** The remaining bursts start as the bursts; nothing has run yet. */
  lemma Start(rows: seq<Proc>, qt: int, rt: seq<int>, ft: seq<int>, tat: seq<int>, wt: seq<int>)
    requires |rt| == |rows| && |ft| == |rows| && |tat| == |rows| && |wt| == |rows|
    requires forall i :: 0 <= i < |rows| ==> rt[i] == rows[i].bt > 0
    ensures RrState(rows, qt, rt, ft, tat, wt, 0, [])
    ensures Unfinished(rt) == |rows|
  {
    UnfinishedAll(rt);
  }

  /** When no row has burst left, every row has been served its whole burst and has its finish
      time recorded. */
  lemma Done(rows: seq<Proc>, qt: int, rt: seq<int>, ft: seq<int>, tat: seq<int>, wt: seq<int>,
             ct: int, tl: seq<Interval>)
    requires RrState(rows, qt, rt, ft, tat, wt, ct, tl) && Unfinished(rt) == 0
    ensures forall i :: 0 <= i < |rows| ==> Finished(rows, ft, tat, wt, tl, i)
    ensures forall i :: 0 <= i < |rows| ==> Served(tl, i + 1) == rows[i].bt
  {
    UnfinishedZero(rt);
  }

  /** The burst of a row. */
  function BurstOf(p: Proc): int
  {
    p.bt
  }

  /** Before the first round: the remaining bursts are the bursts, the other arrays hold 0, the
      clock is 0 and the chart is empty (SchedulingAlgorithms.java:570-579). */
  function Initial(rows: seq<Proc>): (s: Snapshot)
    ensures Shaped(rows, s)
  {
    Snapshot(Sorting.Map(rows, BurstOf), seq(|rows|, _ => 0), seq(|rows|, _ => 0), seq(|rows|, _ => 0), 0, [])
  }

  /** `rounds` is the run of the outer loop so far: it starts from the initial arrays, and each
      snapshot after the first is one round applied to the one before, which had a row with burst
      left. */
  ghost predicate Trace(rows: seq<Proc>, qt: int, rounds: seq<Snapshot>)
  {
    |rounds| >= 1 && rounds[0] == Initial(rows) &&
    forall k :: 0 <= k < |rounds| - 1 ==>
      Shaped(rows, rounds[k]) && Unfinished(rounds[k].rt) > 0 && rounds[k + 1] == RoundOf(rows, qt, rounds[k])
  }

  /** Another round from the last snapshot, which has a row with burst left, extends the run. */
  lemma TraceExtend(rows: seq<Proc>, qt: int, rounds: seq<Snapshot>)
    requires Trace(rows, qt, rounds)
    requires Shaped(rows, rounds[|rounds| - 1]) && Unfinished(rounds[|rounds| - 1].rt) > 0
    ensures Trace(rows, qt, rounds + [RoundOf(rows, qt, rounds[|rounds| - 1])])
  {
    var r := rounds + [RoundOf(rows, qt, rounds[|rounds| - 1])];
    forall k | 0 <= k < |r| - 1
      ensures Shaped(rows, r[k]) && Unfinished(r[k].rt) > 0 && r[k + 1] == RoundOf(rows, qt, r[k])
    {
      assert r[k] == rounds[k];
      if k < |rounds| - 1 {
        assert r[k + 1] == rounds[k + 1];
      }
    }
  }

  /** One iteration of the outer loop, recorded in the run. */
  method NextRound(a: array<Proc>, qt: int, rt0: seq<int>, ft0: seq<int>, tat0: seq<int>, wt0: seq<int>,
                   ct0: int, tl0: seq<Interval>, com0: int, ghost rounds0: seq<Snapshot>)
    returns (rt: seq<int>, ft: seq<int>, tat: seq<int>, wt: seq<int>, ct: int, tl: seq<Interval>,
             com: int, ghost rounds: seq<Snapshot>)
    requires qt > 0
    requires RrState(a[..], qt, rt0, ft0, tat0, wt0, ct0, tl0)
    requires com0 == a.Length - Unfinished(rt0) && com0 != a.Length
    requires FullTurns(a[..], qt, Snapshot(rt0, ft0, tat0, wt0, ct0, tl0))
    requires Trace(a[..], qt, rounds0) && rounds0[|rounds0| - 1] == Snapshot(rt0, ft0, tat0, wt0, ct0, tl0)
    ensures RrState(a[..], qt, rt, ft, tat, wt, ct, tl)
    ensures com == a.Length - Unfinished(rt)
    ensures FullTurns(a[..], qt, Snapshot(rt, ft, tat, wt, ct, tl))
    ensures Trace(a[..], qt, rounds) && rounds[|rounds| - 1] == Snapshot(rt, ft, tat, wt, ct, tl)
    ensures 0 <= Total(rt) < Total(rt0) || (Total(rt) == Total(rt0) && ct0 < ct <= LatestArrival(a[..]))
  {
    ghost var before := Snapshot(rt0, ft0, tat0, wt0, ct0, tl0);
    rt, ft, tat, wt, ct, tl, com := Round(a, qt, rt0, ft0, tat0, wt0, ct0, tl0, com0);
    RoundFullTurns(a[..], qt, before);
    TraceExtend(a[..], qt, rounds0);
    rounds := rounds0 + [Snapshot(rt, ft, tat, wt, ct, tl)];
  }

  /** The outer loop (SchedulingAlgorithms.java:570-609), from the initial arrays until every row
      is complete. */
  method RunRounds(a: array<Proc>, qt: int, rt0: seq<int>, ft0: seq<int>, tat0: seq<int>, wt0: seq<int>)
    returns (rt: seq<int>, ft: seq<int>, tat: seq<int>, wt: seq<int>, ct: int, tl: seq<Interval>,
             ghost rounds: seq<Snapshot>)
    requires qt > 0
    requires forall i :: 0 <= i < a.Length ==> a[i].bt > 0
    requires Snapshot(rt0, ft0, tat0, wt0, 0, []) == Initial(a[..])
    ensures RrState(a[..], qt, rt, ft, tat, wt, ct, tl) && Unfinished(rt) == 0
    ensures FullTurns(a[..], qt, Snapshot(rt, ft, tat, wt, ct, tl))
    ensures Trace(a[..], qt, rounds) && rounds[|rounds| - 1] == Snapshot(rt, ft, tat, wt, ct, tl)
  {
    var count2 := a.Length;
    var com := 0;
    ct := 0;
    rt, ft, tat, wt, tl := rt0, ft0, tat0, wt0, [];
    forall i | 0 <= i < |rt| ensures rt[i] == a[..][i].bt > 0 {
      assert rt[i] == Sorting.Map(a[..], BurstOf)[i];
    }
    Start(a[..], qt, rt, ft, tat, wt);
    rounds := [Snapshot(rt, ft, tat, wt, ct, tl)];
    while com != count2
      invariant RrState(a[..], qt, rt, ft, tat, wt, ct, tl)
      invariant com == count2 - Unfinished(rt)
      invariant FullTurns(a[..], qt, Snapshot(rt, ft, tat, wt, ct, tl))
      invariant Trace(a[..], qt, rounds) && rounds[|rounds| - 1] == Snapshot(rt, ft, tat, wt, ct, tl)
      decreases Total(rt), LatestArrival(a[..]) - ct
    {
      rt, ft, tat, wt, ct, tl, com, rounds := NextRound(a, qt, rt, ft, tat, wt, ct, tl, com, rounds);
    }
  }

  /** The remaining bursts start as a copy of the bursts (SchedulingAlgorithms.java:579). */
  method LoadBursts(a: array<Proc>) returns (rt: seq<int>)
    ensures rt == Sorting.Map(a[..], BurstOf)
  {
    rt := seq(a.Length, _ => 0);
    for i := 0 to a.Length
      invariant |rt| == a.Length && forall k :: 0 <= k < i ==> rt[k] == a[k].bt
    {
      rt := rt[i := a[i].bt];
    }
  }

  /** The whole Round Robin routine for quantum `qt`. The source loops forever unless the quantum
      and every burst are positive, so it demands them. Every row finishes no earlier than its
      arrival plus its burst (so its waiting time is never negative); the chart runs without gaps
      from 0 in turns of at most one quantum and idle ticks of one unit, each turn given to a row
      that had arrived, and each row is served exactly its burst, its finish time being the end of
      one of its turns. */
  method RoundRobin(a: array<Proc>, qt: int)
    returns (ft: seq<int>, tat: seq<int>, wt: seq<int>, tl: seq<Interval>, ghost rounds: seq<Snapshot>)
    requires qt > 0
    requires forall i :: 0 <= i < a.Length ==> a[i].bt > 0
    ensures |ft| == a.Length && |tat| == a.Length && |wt| == a.Length
    ensures forall i :: 0 <= i < a.Length ==>
              tat[i] == ft[i] - a[i].at && wt[i] == tat[i] - a[i].bt && ft[i] >= a[i].at + a[i].bt
    ensures Contiguous(tl, 0)
    ensures forall k :: 0 <= k < |tl| ==> Turn(tl[k], qt) && Eligible(a[..], tl[k])
    ensures forall i :: 0 <= i < a.Length ==> Served(tl, i + 1) == a[i].bt && ft[i] in Ends(tl, i + 1)
    ensures forall k :: 0 <= k < |tl| && tl[k].Run? ==>
              1 <= tl[k].pid <= a.Length && (Length(tl[k]) == qt || tl[k].end == ft[tl[k].pid - 1])
    ensures Trace(a[..], qt, rounds)
    ensures var last := rounds[|rounds| - 1];
            Unfinished(last.rt) == 0 && last.ft == ft && last.wt == wt && last.tl == tl
  {
    var count2 := a.Length;
    ft := seq(count2, _ => 0);
    wt := seq(count2, _ => 0);
    tat := seq(count2, _ => 0);
    var rt := LoadBursts(a);
    var ct;
    rt, ft, tat, wt, ct, tl, rounds := RunRounds(a, qt, rt, ft, tat, wt);
    Done(a[..], qt, rt, ft, tat, wt, ct, tl);
    for i := 0 to count2
      invariant |tat| == count2
      invariant forall k :: 0 <= k < count2 ==> tat[k] == ft[k] - a[k].at
    {
      tat := tat[i := ft[i] - a[i].at];
    }
  }

  lemma {:induction false} UnfinishedAll(rt: seq<int>)
    requires forall i :: 0 <= i < |rt| ==> rt[i] > 0
    ensures Unfinished(rt) == |rt|
  {
    if rt != [] {
      assert forall i :: 0 <= i < |rt[1..]| ==> rt[1..][i] == rt[i + 1];
      UnfinishedAll(rt[1..]);
    }
  }
}
