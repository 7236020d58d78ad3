/** The figures every routine reports (SchedulingAlgorithms.java:38-66): turnaround time
    (finish - arrival) and waiting time (turnaround - burst) per row, their sums (the source divides
    them by the row count in floating point) and the process table. */
module Metrics {

  /** Sum of a sequence, added up from the front as the source's loops do. */
  function Sum(xs: seq<int>): int
  {
    if xs == [] then 0 else Sum(xs[..|xs| - 1]) + xs[|xs| - 1]
  }

  /** Turnaround time of each row. */
  function Turnarounds(ft: seq<int>, at: seq<int>): (r: seq<int>)
    requires |at| == |ft|
    ensures |r| == |ft|
  {
    seq(|ft|, i requires 0 <= i < |ft| => ft[i] - at[i])
  }

  /** Waiting time of each row. */
  function Waitings(ft: seq<int>, at: seq<int>, bt: seq<int>): (r: seq<int>)
    requires |at| == |ft| && |bt| == |ft|
    ensures |r| == |ft|
  {
    seq(|ft|, i requires 0 <= i < |ft| => ft[i] - at[i] - bt[i])
  }

  lemma SumSnoc(xs: seq<int>, x: int)
    ensures Sum(xs + [x]) == Sum(xs) + x
  {
    assert (xs + [x])[..|xs|] == xs;
  }

  /** The sum of entrywise differences is the difference of the sums. */
  lemma {:induction false} SumDifference(xs: seq<int>, ys: seq<int>, zs: seq<int>)
    requires |ys| == |xs| && |zs| == |xs|
    requires forall i :: 0 <= i < |xs| ==> zs[i] == xs[i] - ys[i]
    ensures Sum(zs) == Sum(xs) - Sum(ys)
  {
    if xs != [] {
      var n := |xs| - 1;
      SumDifference(xs[..n], ys[..n], zs[..n]);
    }
  }

  lemma {:induction false} SumNonNegative(xs: seq<int>)
    requires forall i :: 0 <= i < |xs| ==> xs[i] >= 0
    ensures Sum(xs) >= 0
  {
    if xs != [] {
      SumNonNegative(xs[..|xs| - 1]);
    }
  }

  /** Total waiting is total turnaround less total burst. */
  lemma WaitingIsTurnaroundLessBurst(ft: seq<int>, at: seq<int>, bt: seq<int>)
    requires |at| == |ft| && |bt| == |ft|
    ensures Sum(Waitings(ft, at, bt)) == Sum(Turnarounds(ft, at)) - Sum(bt)
  {
    SumDifference(Turnarounds(ft, at), bt, Waitings(ft, at, bt));
  }

  /** When no row finishes before its arrival plus its burst, no waiting time is negative, so
      neither is the total (nor the average). */
  lemma WaitingNonNegative(ft: seq<int>, at: seq<int>, bt: seq<int>)
    requires |at| == |ft| && |bt| == |ft|
    requires forall i :: 0 <= i < |ft| ==> ft[i] >= at[i] + bt[i]
    ensures Sum(Waitings(ft, at, bt)) >= 0
    ensures Sum(Turnarounds(ft, at)) >= Sum(bt)
  {
    SumNonNegative(Waitings(ft, at, bt));
    WaitingIsTurnaroundLessBurst(ft, at, bt);
  }

  /** The loop of `averageWaitingTime`, before the division by the row count. */
  method WaitingSum(ft: seq<int>, at: seq<int>, bt: seq<int>) returns (sum: int)
    requires |at| == |ft| && |bt| == |ft|
    ensures sum == Sum(Waitings(ft, at, bt))
  {
    sum := 0;
    var n := |ft|;
    for i := 0 to n
      invariant sum == Sum(Waitings(ft, at, bt)[..i])
    {
      SumSnoc(Waitings(ft, at, bt)[..i], ft[i] - at[i] - bt[i]);
      assert Waitings(ft, at, bt)[..i + 1] == Waitings(ft, at, bt)[..i] + [ft[i] - at[i] - bt[i]];
      sum := sum + (ft[i] - at[i] - bt[i]);
    }
    assert Waitings(ft, at, bt)[..n] == Waitings(ft, at, bt);
  }

  /** The loop of `averageTurnaroundTime`, before the division by the row count. */
  method TurnaroundSum(ft: seq<int>, at: seq<int>) returns (sum: int)
    requires |at| == |ft|
    ensures sum == Sum(Turnarounds(ft, at))
  {
    sum := 0;
    var n := |ft|;
    for i := 0 to n
      invariant sum == Sum(Turnarounds(ft, at)[..i])
    {
      SumSnoc(Turnarounds(ft, at)[..i], ft[i] - at[i]);
      assert Turnarounds(ft, at)[..i + 1] == Turnarounds(ft, at)[..i] + [ft[i] - at[i]];
      sum := sum + (ft[i] - at[i]);
    }
    assert Turnarounds(ft, at)[..n] == Turnarounds(ft, at);
  }

  /** One line of the process table. */
  datatype TableRow = TableRow(pid: int, at: int, bt: int, pr: int, ft: int, tat: int, wt: int)

  /** `displayProcessTable`: one line per row, whose turnaround and waiting columns are exactly
      the terms the two averages add up, so the printed averages are the averages of the
      printed columns. */
  method ProcessTable(pid: seq<int>, at: seq<int>, bt: seq<int>, pr: seq<int>, ft: seq<int>)
    returns (table: seq<TableRow>)
    requires |at| == |pid| && |bt| == |pid| && |pr| == |pid| && |ft| == |pid|
    ensures |table| == |pid|
    ensures forall i :: 0 <= i < |pid| ==>
              table[i].pid == pid[i] && table[i].at == at[i] && table[i].bt == bt[i] &&
              table[i].pr == pr[i] && table[i].ft == ft[i] &&
              table[i].tat == Turnarounds(ft, at)[i] && table[i].wt == Waitings(ft, at, bt)[i]
  {
    table := [];
    var c := |pid|;
    for i := 0 to c
      invariant |table| == i
      invariant forall k :: 0 <= k < i ==>
                  table[k] == TableRow(pid[k], at[k], bt[k], pr[k], ft[k], ft[k] - at[k], ft[k] - at[k] - bt[k])
    {
      var tat := ft[i] - at[i];
      var wt := tat - bt[i];
      table := table + [TableRow(pid[i], at[i], bt[i], pr[i], ft[i], tat, wt)];
    }
  }
}
