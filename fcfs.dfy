/** First-Come-First-Served (SchedulingAlgorithms.java:69-117): sort the rows by arrival time in
    place, then run each row to completion in that order on a single clock. */
module Fcfs {
  import opened Processes
  import opened Sorting

  function ArrivalKey(p: Proc): int { p.at }

  /** The FCFS chart for rows already in dispatch order, the clock starting at `clock`. */
  function FcfsTimeline(rows: seq<Proc>, clock: int): (tl: seq<Interval>)
    ensures |tl| == |rows|
  {
    if rows == [] then []
    else
      var start := Max(clock, rows[0].at);
      [Run(rows[0].pid, start, start + rows[0].bt)] + FcfsTimeline(rows[1..], start + rows[0].bt)
  }

  /** Every row gets exactly one piece, for exactly its burst, starting at the later of its
      arrival and the previous finish (the clock itself at first). */
  lemma {:induction false} FcfsTimelineShape(rows: seq<Proc>, clock: int)
    ensures forall j :: 0 <= j < |rows| ==>
      var tl := FcfsTimeline(rows, clock);
      var start := Max(ClockBefore(tl, j, clock), rows[j].at);
      tl[j] == Run(rows[j].pid, start, start + rows[j].bt)
  {
    if rows != [] {
      var tl := FcfsTimeline(rows, clock);
      var end := Max(clock, rows[0].at) + rows[0].bt;
      var rest := FcfsTimeline(rows[1..], end);
      FcfsTimelineShape(rows[1..], end);
      assert tl == [tl[0]] + rest;
      forall j | 0 < j < |rows|
        ensures tl[j] == Run(rows[j].pid, Max(ClockBefore(tl, j, clock), rows[j].at),
                             Max(ClockBefore(tl, j, clock), rows[j].at) + rows[j].bt)
      {
        assert tl[j] == rest[j - 1] && rows[j] == rows[1..][j - 1];
        assert ClockBefore(tl, j, clock) == ClockBefore(rest, j - 1, end);
      }
    }
  }

  /** The piece of row j alone, in the form the clock loop uses. */
  lemma FcfsPieceAt(rows: seq<Proc>, clock: int, j: nat)
    requires j < |rows|
    ensures var tl := FcfsTimeline(rows, clock);
      var start := Max(ClockBefore(tl, j, clock), rows[j].at);
      tl[j] == Run(rows[j].pid, start, start + rows[j].bt)
  {
    FcfsTimelineShape(rows, clock);
  }

  /** No row starts before it arrives or before the previous row finished, and each finishes no
      earlier than arrival plus burst, so its waiting time ft - at - bt is never negative. */
  lemma FcfsFinishBounds(rows: seq<Proc>, clock: int)
    ensures forall j :: 0 <= j < |rows| ==>
      var tl := FcfsTimeline(rows, clock);
      rows[j].at <= tl[j].start && ClockBefore(tl, j, clock) <= tl[j].start &&
      tl[j].end - tl[j].start == rows[j].bt &&
      tl[j].end >= rows[j].at + rows[j].bt
  {
    FcfsTimelineShape(rows, clock);
  }

  /** With non-negative bursts the finish times never decrease along the sorted order. */
  lemma {:induction false} FcfsFinishNondecreasing(rows: seq<Proc>, clock: int, i: nat, j: nat)
    requires forall k :: 0 <= k < |rows| ==> rows[k].bt >= 0
    requires i <= j < |rows|
    ensures FcfsTimeline(rows, clock)[i].end <= FcfsTimeline(rows, clock)[j].end
    decreases j - i
  {
    if i < j {
      FcfsFinishNondecreasing(rows, clock, i, j - 1);
      FcfsTimelineShape(rows, clock);
    }
  }

  /** The clock loop of FCFS (SchedulingAlgorithms.java:84-111) over rows already sorted. */
  method FcfsClock(a: array<Proc>) returns (ft: seq<int>, tl: seq<Interval>)
    ensures tl == FcfsTimeline(a[..], 0)
    ensures |ft| == a.Length && forall j :: 0 <= j < a.Length ==> ft[j] == tl[j].end
  {
    ghost var rows := a[..];
    ghost var chart := FcfsTimeline(rows, 0);
    var c := a.Length;
    var f := new int[c](_ => 0);
    var current := 0;
    tl := [];
    for j := 0 to c
      invariant |tl| == j && forall k :: 0 <= k < j ==> tl[k] == chart[k]
      invariant current == ClockBefore(chart, j, 0)
      invariant forall k :: 0 <= k < j ==> f[k] == chart[k].end
    {
      FcfsPieceAt(rows, 0, j);
      if a[j].at <= current {
        current := current + a[j].bt;
        tl := tl + [Run(a[j].pid, current - a[j].bt, current)];
        f[j] := current;
      } else {
        current := a[j].at;
        tl := tl + [Run(a[j].pid, current, current + a[j].bt)];
        current := current + a[j].bt;
        f[j] := current;
      }
    }
    assert tl == chart;
    ft := f[..];
  }

  /** The whole FCFS routine: the caller's rows end up sorted by arrival (with the exchange sort,
      so rows that arrive together may change their relative order) and the chart and finish
      times are those of FCFS over that order. */
  method FirstComeFirstServed(a: array<Proc>) returns (ft: seq<int>, tl: seq<Interval>)
    modifies a
    ensures a[..] == ExchangeSorted(old(a[..]), ArrivalKey)
    ensures SortedBy(a[..], ArrivalKey) && multiset(a[..]) == multiset(old(a[..]))
    ensures tl == FcfsTimeline(a[..], 0)
    ensures |ft| == a.Length && forall j :: 0 <= j < a.Length ==> ft[j] == tl[j].end
  {
    ExchangeSort(a, ArrivalKey);
    ft, tl := FcfsClock(a);
  }

  /** The sort is not stable although the source comments call it so: P1 and P2 both arrive at
      2, P3 at 1; the first pass exchanges P1 with P3 and leaves P2 ahead of P1. */
  lemma ArrivalSortNotStable()
    ensures ExchangeSorted([Proc(1, 2, 4, 0), Proc(2, 2, 5, 0), Proc(3, 1, 6, 0)], ArrivalKey)
         == [Proc(3, 1, 6, 0), Proc(2, 2, 5, 0), Proc(1, 2, 4, 0)]
  {
    var s := [Proc(1, 2, 4, 0), Proc(2, 2, 5, 0), Proc(3, 1, 6, 0)];
    var t := [Proc(3, 1, 6, 0), Proc(2, 2, 5, 0), Proc(1, 2, 4, 0)];
    assert Pass(s, ArrivalKey, 0, 1) == t by {
      assert Pass(s, ArrivalKey, 0, 2) == Pass(SwapAt(s, 0, 2), ArrivalKey, 0, 3);
      assert SwapAt(s, 0, 2) == t;
    }
    assert Pass(t, ArrivalKey, 1, 2) == t;
    assert Pass(t, ArrivalKey, 2, 3) == t;
    assert SortFrom(t, ArrivalKey, 3) == t;
    assert SortFrom(t, ArrivalKey, 2) == t;
    assert SortFrom(t, ArrivalKey, 1) == t;
  }
}
