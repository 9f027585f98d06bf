/** GetCopyTime: how long two, possibly overlapping, copies kept the link busy. */
module CopyTime {
  import opened IndexMath

  /** The profiler's start and end ticks of one copy. */
  datatype Interval = Interval(start: int, end: int)

  predicate WellFormed(i: Interval) { i.start <= i.end }

  /** The value GetCopyTime computes, in ticks. */
  function CopyTicks(bidirectional: bool, fwd: Interval, rev: Interval): int {
    if !bidirectional then fwd.end - fwd.start
    else
      var whole := Max(fwd.end, rev.end) - Min(fwd.start, rev.start);
      if fwd.end < rev.start then whole - (rev.start - fwd.end)
      else if rev.end < fwd.start then whole - (fwd.start - rev.end)
      else whole
  }

  /** The ticks during which a copy was running. */
  ghost function Ticks(i: Interval): set<int> { TicksFrom(i.start, i.end) }

  ghost function TicksFrom(lo: int, hi: int): (r: set<int>)
    ensures forall t :: t in r <==> lo <= t < hi
    decreases hi - lo
  {
    if lo >= hi then {} else TicksFrom(lo, hi - 1) + {hi - 1}
  }

  lemma {:induction false} TickCount(lo: int, hi: int)
    requires lo <= hi
    ensures |TicksFrom(lo, hi)| == hi - lo
    decreases hi - lo
  {
    if lo < hi {
      TickCount(lo, hi - 1);
      assert hi - 1 !in TicksFrom(lo, hi - 1);
    }
  }

  lemma DisjointUnionSize(a: set<int>, b: set<int>)
    requires a !! b
    ensures |a + b| == |a| + |b|
  {
    assert (a + b) - a == b;
  }

  /** Two stretches that overlap or touch make one. */
  lemma OverlapIsOneStretch(a: int, b: int, c: int, d: int)
    requires a <= b && c <= d && c <= b && a <= d
    ensures |TicksFrom(a, b) + TicksFrom(c, d)| == Max(b, d) - Min(a, c)
  {
    assert TicksFrom(a, b) + TicksFrom(c, d) == TicksFrom(Min(a, c), Max(b, d));
    TickCount(Min(a, c), Max(b, d));
  }

  lemma ApartAddUp(a: int, b: int, c: int, d: int)
    requires a <= b < c <= d
    ensures |TicksFrom(a, b) + TicksFrom(c, d)| == (b - a) + (d - c)
    ensures |TicksFrom(c, d) + TicksFrom(a, b)| == (b - a) + (d - c)
  {
    TickCount(a, b);
    TickCount(c, d);
    DisjointUnionSize(TicksFrom(a, b), TicksFrom(c, d));
    DisjointUnionSize(TicksFrom(c, d), TicksFrom(a, b));
  }

  /** The number of ticks during which at least one copy was running. */
  ghost function BusyCount(fwd: Interval, rev: Interval): nat { |Ticks(fwd) + Ticks(rev)| }

  lemma BusyWhenApart(fwd: Interval, rev: Interval)
    requires WellFormed(fwd) && WellFormed(rev) && fwd.end < rev.start
    ensures BusyCount(fwd, rev) == BusyCount(rev, fwd) == (fwd.end - fwd.start) + (rev.end - rev.start)
  {
    ApartAddUp(fwd.start, fwd.end, rev.start, rev.end);
  }

  lemma BusyWhenOverlapping(fwd: Interval, rev: Interval)
    requires WellFormed(fwd) && WellFormed(rev) && fwd.end >= rev.start && rev.end >= fwd.start
    ensures BusyCount(fwd, rev) == Max(fwd.end, rev.end) - Min(fwd.start, rev.start)
  {
    OverlapIsOneStretch(fwd.start, fwd.end, rev.start, rev.end);
  }

  /** For well-formed intervals the bidirectional copy time is the number of ticks during which at least one of the
      two copies was running, and the other one the number of ticks of the forward copy. */
  lemma CopyTicksMeasureUnion(fwd: Interval, rev: Interval)
    requires WellFormed(fwd) && WellFormed(rev)
    ensures CopyTicks(true, fwd, rev) == BusyCount(fwd, rev)
    ensures CopyTicks(false, fwd, rev) == BusyCount(fwd, fwd)
  {
    BusyWhenOverlapping(fwd, fwd);
    if fwd.end < rev.start {
      BusyWhenApart(fwd, rev);
    } else if rev.end < fwd.start {
      BusyWhenApart(rev, fwd);
    } else {
      BusyWhenOverlapping(fwd, rev);
    }
  }

  /** Symmetric, at least the longer copy, at most both together, and exactly both together when they do not overlap. */
  lemma CopyTicksBounds(fwd: Interval, rev: Interval)
    requires WellFormed(fwd) && WellFormed(rev)
    ensures CopyTicks(true, fwd, rev) == CopyTicks(true, rev, fwd)
    ensures Max(fwd.end - fwd.start, rev.end - rev.start) <= CopyTicks(true, fwd, rev)
    ensures CopyTicks(true, fwd, rev) <= (fwd.end - fwd.start) + (rev.end - rev.start)
    ensures Ticks(fwd) !! Ticks(rev) && Ticks(fwd) != {} && Ticks(rev) != {} ==>
              CopyTicks(true, fwd, rev) == (fwd.end - fwd.start) + (rev.end - rev.start)
  {
    if Ticks(fwd) !! Ticks(rev) && Ticks(fwd) != {} && Ticks(rev) != {} {
      assert fwd.start in Ticks(fwd) && rev.start in Ticks(rev);
      assert fwd.end - 1 in Ticks(fwd) && rev.end - 1 in Ticks(rev);
    }
  }
}
