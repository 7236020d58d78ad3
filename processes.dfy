/** Process descriptors, Gantt-chart pieces and the small vocabulary the schedulers share. */
module Processes {

  /** One row of the source's parallel arrays: process id, arrival time, burst time, priority
      (lower value = higher priority). */
  datatype Proc = Proc(pid: int, at: int, bt: int, pr: int)

  /** One piece of a Gantt chart: process `pid` on the CPU over [start, end), or the CPU idle. */
  datatype Interval = Run(pid: int, start: int, end: int) | Idle(start: int, end: int)

  datatype Result<T, E> = Ok(value: T) | Err(error: E)

  function Max(x: int, y: int): int { if x < y then y else x }

  function Length(iv: Interval): int { iv.end - iv.start }

  /** Total CPU time the timeline gives to the process labelled `pid`. */
  function Served(tl: seq<Interval>, pid: int): int
  {
    if tl == [] then 0
    else
      var last := tl[|tl| - 1];
      Served(tl[..|tl| - 1], pid) + (if last.Run? && last.pid == pid then Length(last) else 0)
  }

  /** The timeline starts at `from` and every piece starts where the previous one ended. */
  ghost predicate Contiguous(tl: seq<Interval>, from: int)
  {
    (|tl| > 0 ==> tl[0].start == from) &&
    (forall k :: 0 < k < |tl| ==> tl[k].start == tl[k - 1].end)
  }

  /** End of the timeline (the clock after its last piece), `from` if it is empty. */
  function EndOf(tl: seq<Interval>, from: int): int
  {
    if tl == [] then from else tl[|tl| - 1].end
  }

  /** The clock just before piece j of a chart that starts at `clock`: the start clock for the
      first piece, then the end of the previous piece. */
  function ClockBefore(tl: seq<Interval>, j: nat, clock: int): int
    requires j <= |tl|
  {
    if j == 0 then clock else tl[j - 1].end
  }

  /** Every piece has a positive length, so the clock moves forward along the chart. */
  ghost predicate Advancing(tl: seq<Interval>)
  {
    forall k :: 0 <= k < |tl| ==> tl[k].start < tl[k].end
  }

  /** The ends of the pieces the timeline gives to the process labelled `pid`. */
  function Ends(tl: seq<Interval>, pid: int): set<int>
  {
    if tl == [] then {}
    else
      var last := tl[|tl| - 1];
      Ends(tl[..|tl| - 1], pid) + (if last.Run? && last.pid == pid then {last.end} else {})
  }

  /** Appending one piece to a chart: what it adds to each process's service and ends, and that
      a piece starting where the chart ended keeps it contiguous. */
  lemma Extend(tl: seq<Interval>, x: Interval, from: int)
    ensures forall pid :: Served(tl + [x], pid) ==
              Served(tl, pid) + (if x.Run? && x.pid == pid then Length(x) else 0)
    ensures forall pid :: Ends(tl + [x], pid) == Ends(tl, pid) + (if x.Run? && x.pid == pid then {x.end} else {})
    ensures Contiguous(tl, from) && x.start == EndOf(tl, from) ==>
              Contiguous(tl + [x], from) && EndOf(tl + [x], from) == x.end
  {
    assert (tl + [x])[..|tl|] == tl;
  }

  /** The descriptors a well-formed input file is expected to hold: arrivals not before 0 and
      positive bursts. The source does not check this; some guarantees hold only under it. */
  ghost predicate WellFormed(rows: seq<Proc>)
  {
    forall k :: 0 <= k < |rows| ==> rows[k].at >= 0 && rows[k].bt > 0
  }

  ghost predicate DistinctPids(rows: seq<Proc>)
  {
    forall i, j :: 0 <= i < j < |rows| ==> rows[i].pid != rows[j].pid
  }
}
