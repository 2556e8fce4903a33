/** The sweep line over transmission intervals and the integrals it computes. */
module Concurrency {

  /** On air from `start` up to, but not including, `end`. */
  datatype Interval = Interval(start: int, end: int)

  datatype Point = Point(t: int, delta: int)

  predicate Proper(iv: seq<Interval>) {
    forall k | 0 <= k < |iv| :: iv[k].start <= iv[k].end
  }

  // ----- what is to be measured -----------------------------------------------------

  function OnAir(x: Interval, u: int): nat { if x.start <= u < x.end then 1 else 0 }

  /** How many transmissions are on the air at instant u. */
  function Active(iv: seq<Interval>, u: int): nat {
    if iv == [] then 0 else OnAir(iv[0], u) + Active(iv[1..], u)
  }

  /** Transmission-milliseconds between lo and hi. */
  function Area(iv: seq<Interval>, lo: int, hi: int): nat
    decreases hi - lo
  {
    if hi <= lo then 0 else Area(iv, lo, hi - 1) + Active(iv, hi - 1)
  }

  /** Milliseconds between lo and hi with at least one transmission on the air. */
  function CoveredMs(iv: seq<Interval>, lo: int, hi: int): nat
    decreases hi - lo
  {
    if hi <= lo then 0 else CoveredMs(iv, lo, hi - 1) + if Active(iv, hi - 1) > 0 then 1 else 0
  }

  function TotalLength(iv: seq<Interval>): int {
    if iv == [] then 0 else iv[0].end - iv[0].start + TotalLength(iv[1..])
  }

  // ----- the event points ---------------------------------------------------------------

  function Points(iv: seq<Interval>): seq<Point> {
    if iv == [] then [] else [Point(iv[0].start, 1), Point(iv[0].end, -1)] + Points(iv[1..])
  }

  /** Ends sort before starts of the same instant. */
  predicate PointLeq(p: Point, q: Point) { p.t < q.t || (p.t == q.t && p.delta <= q.delta) }

  function Insert(p: Point, s: seq<Point>): seq<Point> {
    if s == [] || PointLeq(p, s[0]) then [p] + s else [s[0]] + Insert(p, s[1..])
  }

  function Sort(s: seq<Point>): seq<Point> {
    if s == [] then [] else Insert(s[0], Sort(s[1..]))
  }

  ghost predicate Sorted(s: seq<Point>) {
    forall i, j | 0 <= i < j < |s| :: PointLeq(s[i], s[j])
  }

  lemma {:induction false} InsertSorted(p: Point, s: seq<Point>)
    requires Sorted(s)
    ensures Sorted(Insert(p, s)) && |Insert(p, s)| == |s| + 1
    ensures forall q :: q in Insert(p, s) <==> q == p || q in s
  {
    if s != [] && !PointLeq(p, s[0]) {
      InsertSorted(p, s[1..]);
      var rest := Insert(p, s[1..]);
      assert forall q | q in rest :: PointLeq(s[0], q);
      assert forall i | 0 <= i < |rest| :: rest[i] in rest;
      assert s == [s[0]] + s[1..];
    }
  }

  lemma {:induction false} SortSorts(s: seq<Point>)
    ensures Sorted(Sort(s)) && |Sort(s)| == |s|
    ensures forall q :: q in Sort(s) <==> q in s
  {
    if s != [] {
      SortSorts(s[1..]);
      InsertSorted(s[0], Sort(s[1..]));
      assert s == [s[0]] + s[1..];
    }
  }

  /** Starts minus ends up to and including instant u. */
  function NetUpTo(s: seq<Point>, u: int): int {
    if s == [] then 0 else (if s[0].t <= u then s[0].delta else 0) + NetUpTo(s[1..], u)
  }

  lemma {:induction false} NetInsert(p: Point, s: seq<Point>, u: int)
    ensures NetUpTo(Insert(p, s), u) == (if p.t <= u then p.delta else 0) + NetUpTo(s, u)
  {
    if s != [] && !PointLeq(p, s[0]) {
      NetInsert(p, s[1..], u);
      assert Insert(p, s)[1..] == Insert(p, s[1..]);
    } else {
      assert Insert(p, s)[1..] == s;
    }
  }

  lemma {:induction false} NetSort(s: seq<Point>, u: int)
    ensures NetUpTo(Sort(s), u) == NetUpTo(s, u)
  {
    if s != [] {
      NetSort(s[1..], u);
      NetInsert(s[0], Sort(s[1..]), u);
    }
  }

  lemma {:induction false} NetIsActive(iv: seq<Interval>, u: int)
    requires Proper(iv)
    ensures NetUpTo(Points(iv), u) == Active(iv, u)
  {
    if iv != [] {
      NetIsActive(iv[1..], u);
      var ps := Points(iv);
      assert ps[1..][1..] == Points(iv[1..]);
    }
  }

  /** Points of improper or proper intervals alike count +1 or -1 and lie at an interval's ends. */
  lemma {:induction false} PointOrigin(iv: seq<Interval>, p: Point)
    ensures p in Points(iv) <==> exists k :: 0 <= k < |iv| && (p == Point(iv[k].start, 1) || p == Point(iv[k].end, -1))
  {
    if iv != [] {
      PointOrigin(iv[1..], p);
      if exists k :: 0 <= k < |iv| && (p == Point(iv[k].start, 1) || p == Point(iv[k].end, -1)) {
        var k :| 0 <= k < |iv| && (p == Point(iv[k].start, 1) || p == Point(iv[k].end, -1));
        if k > 0 {
          assert iv[1..][k - 1] == iv[k];
        }
      }
      if p in Points(iv[1..]) {
        var k :| 0 <= k < |iv[1..]| && (p == Point(iv[1..][k].start, 1) || p == Point(iv[1..][k].end, -1));
        assert iv[k + 1] == iv[1..][k];
      }
    }
  }

  // ----- prefixes of the sweep -------------------------------------------------------------

  /** The running count after the first k points. */
  function Running(s: seq<Point>, k: nat): int
    requires k <= |s|
  {
    if k == 0 then 0 else Running(s, k - 1) + s[k - 1].delta
  }

  /** The first k points are those up to instant u. */
  ghost predicate Splits(s: seq<Point>, k: nat, u: int) {
    k <= |s| && (forall i | 0 <= i < k :: s[i].t <= u) && (forall i | k <= i < |s| :: u < s[i].t)
  }

  lemma {:induction false} RunningTail(s: seq<Point>, k: nat)
    requires 0 < k <= |s|
    ensures Running(s, k) == s[0].delta + Running(s[1..], k - 1)
  {
    if k > 1 {
      RunningTail(s, k - 1);
    }
  }

  lemma {:induction false} NetIsRunning(s: seq<Point>, k: nat, u: int)
    requires Splits(s, k, u)
    ensures NetUpTo(s, u) == Running(s, k)
    decreases |s|
  {
    if s != [] {
      if k > 0 {
        RunningTail(s, k);
        NetIsRunning(s[1..], k - 1, u);
      } else {
        NetIsRunning(s[1..], 0, u);
      }
    }
  }

  /** The sweep's points: all starts and ends in order. */
  ghost predicate SweepOf(s: seq<Point>, iv: seq<Interval>) {
    && Sorted(s)
    && (forall p | p in s :: p.delta == 1 || p.delta == -1)
    && (forall u {:trigger Active(iv, u)} :: NetUpTo(s, u) == Active(iv, u))
  }

  lemma {:induction false} SweepPoints(iv: seq<Interval>)
    requires Proper(iv)
    ensures SweepOf(Sort(Points(iv)), iv)
  {
    var s := Sort(Points(iv));
    SortSorts(Points(iv));
    forall p | p in s
      ensures p.delta == 1 || p.delta == -1
    {
      PointOrigin(iv, p);
    }
    forall u
      ensures NetUpTo(s, u) == Active(iv, u)
    {
      NetSort(Points(iv), u);
      NetIsActive(iv, u);
    }
  }

  lemma {:induction false} ActiveAtSplit(s: seq<Point>, iv: seq<Interval>, k: nat, u: int)
    requires SweepOf(s, iv) && Splits(s, k, u)
    ensures Active(iv, u) == Running(s, k)
  {
    NetIsRunning(s, k, u);
    assert NetUpTo(s, u) == Active(iv, u);
  }

  /** No point lies strictly after `t0` and before `t1`; the first k are those up to `t0`. */
  ghost predicate Still(s: seq<Point>, k: nat, t0: int, t1: int) {
    k <= |s| && (forall i | 0 <= i < k :: s[i].t <= t0) && (forall i | k <= i < |s| :: t1 <= s[i].t)
  }

  /** Between two successive instants of the sweep the count stands still. */
  lemma {:induction false} Plateau(s: seq<Point>, iv: seq<Interval>, k: nat, lo: int, t0: int, t1: int)
    requires SweepOf(s, iv) && lo <= t0 <= t1 && Still(s, k, t0, t1)
    ensures Area(iv, lo, t1) == Area(iv, lo, t0) + Running(s, k) * (t1 - t0)
    ensures CoveredMs(iv, lo, t1) == CoveredMs(iv, lo, t0) + (if Running(s, k) > 0 then t1 - t0 else 0)
    decreases t1 - t0
  {
    hide SweepOf, Active, Running;
    if t0 < t1 {
      Plateau(s, iv, k, lo, t0, t1 - 1);
      ActiveAtSplit(s, iv, k, t1 - 1);
      OneMore(Running(s, k), t1 - 1 - t0);
    }
  }

  lemma {:induction false} OneMore(r: int, d: int)
    ensures r * (d + 1) == r * d + r
  {}

  /** The instant of the last point before the i-th, where the sweep has integrated up to. */
  function Reached(s: seq<Point>, i: nat): int
    requires s != [] && i <= |s|
  {
    s[if i == 0 then 0 else i - 1].t
  }

  /** One turn of the sweep: what the integrals gain on the way from the previous point to the i-th. */
  lemma {:induction false} SweepStep(s: seq<Point>, iv: seq<Interval>, i: nat)
    requires SweepOf(s, iv) && i < |s|
    ensures s[0].t <= Reached(s, i) <= s[i].t
    ensures var (lo, t0, t1) := (s[0].t, Reached(s, i), s[i].t);
            && Area(iv, lo, t1) == Area(iv, lo, t0) + Running(s, i) * (t1 - t0)
            && CoveredMs(iv, lo, t1) == CoveredMs(iv, lo, t0) + (if Running(s, i) > 0 then t1 - t0 else 0)
  {
    hide Area, CoveredMs, Active, Running, NetUpTo;
    var (lo, t0, t1) := (s[0].t, Reached(s, i), s[i].t);
    assert i > 0 ==> PointLeq(s[i - 1], s[i]);
    assert i > 1 ==> PointLeq(s[0], s[i - 1]);
    if i > 0 {
      assert Still(s, i, t0, t1) by {
        assert forall j | 0 <= j < i - 1 :: PointLeq(s[j], s[i - 1]);
        assert forall j | i < j < |s| :: PointLeq(s[i], s[j]);
      }
      Plateau(s, iv, i, lo, t0, t1);
    } else {
      Standing(iv, lo);
      OneMore(Running(s, i), -1);
      assert Running(s, i) * (t1 - t0) == 0;
    }
  }

  lemma {:induction false} Standing(iv: seq<Interval>, t: int)
    ensures Area(iv, t, t) == 0 && CoveredMs(iv, t, t) == 0
  {}

  // ----- the peak -----------------------------------------------------------------------------

  lemma {:induction false} SplitExists(s: seq<Point>, u: int, j: nat) returns (k: nat)
    requires Sorted(s) && j <= |s| && forall i | 0 <= i < j :: s[i].t <= u
    ensures j <= k && Splits(s, k, u)
    decreases |s| - j
  {
    if j < |s| && s[j].t <= u {
      k := SplitExists(s, u, j + 1);
    } else {
      k := j;
    }
  }

  lemma {:induction false} StartsOnlyRaise(s: seq<Point>, j: nat, k: nat)
    requires j <= k <= |s| && forall i | j <= i < k :: s[i].delta == 1
    ensures Running(s, j) <= Running(s, k)
    decreases k
  {
    if j < k {
      StartsOnlyRaise(s, j, k - 1);
    }
  }

  /** No running count exceeds what is really on the air at some instant, although it may dip below. */
  lemma {:induction false} RunningBelowActive(s: seq<Point>, iv: seq<Interval>, j: nat) returns (u: int)
    requires SweepOf(s, iv) && j <= |s|
    ensures Running(s, j) <= 0 || Running(s, j) <= Active(iv, u)
  {
    u := 0;
    if j > 0 {
      var p := s[j - 1];
      assert p in s;
      if p.delta == 1 {
        u := p.t;
        assert forall i | 0 <= i < j - 1 :: PointLeq(s[i], p);
        var k := SplitExists(s, u, j);
        forall i | j <= i < k
          ensures s[i].delta == 1
        {
          assert PointLeq(p, s[i]) && s[i] in s;
        }
        StartsOnlyRaise(s, j, k);
        ActiveAtSplit(s, iv, k, u);
      } else {
        u := RunningBelowActive(s, iv, j - 1);
      }
    }
  }

  ghost predicate IsPeak(iv: seq<Interval>, peak: int) {
    && (forall u {:trigger Active(iv, u)} :: Active(iv, u) <= peak)
    && (peak == 0 || exists u :: Active(iv, u) == peak)
  }

  /** `peak` is the largest of the running counts after at most i points, and at least 0. */
  ghost predicate PeakSoFar(s: seq<Point>, i: nat, peak: int) {
    && i <= |s| && 0 <= peak
    && (forall j {:trigger Running(s, j)} | 0 <= j <= i :: Running(s, j) <= peak)
    && (peak == 0 || exists j :: 0 <= j <= i && Running(s, j) == peak)
  }

  lemma {:induction false} PeakStep(s: seq<Point>, i: nat, peak: int)
    requires PeakSoFar(s, i, peak) && i < |s|
    ensures PeakSoFar(s, i + 1, if Running(s, i + 1) > peak then Running(s, i + 1) else peak)
  {
    hide Running;
  }

  lemma {:induction false} SweepIsSorted(s: seq<Point>, iv: seq<Interval>)
    requires SweepOf(s, iv)
    ensures Sorted(s)
  {}

  /** The largest running count is the peak of simultaneous transmissions. */
  lemma {:induction false} PeakOfRunning(s: seq<Point>, iv: seq<Interval>, peak: int)
    requires SweepOf(s, iv) && PeakSoFar(s, |s|, peak)
    ensures IsPeak(iv, peak)
  {
    hide SweepOf, Running, Active, NetUpTo;
    assert Sorted(s) by {
      SweepIsSorted(s, iv);
    }
    forall u
      ensures Active(iv, u) <= peak
    {
      var k := SplitExists(s, u, 0);
      ActiveAtSplit(s, iv, k, u);
    }
    if peak != 0 {
      var j :| 0 <= j <= |s| && Running(s, j) == peak;
      assert Running(s, 0) <= peak;
      var u := RunningBelowActive(s, iv, j);
      assert Active(iv, u) == peak;
    }
  }

  // ----- totals ---------------------------------------------------------------------------------

  lemma {:induction false} AreaSplit(iv: seq<Interval>, lo: int, hi: int)
    requires iv != []
    ensures Area(iv, lo, hi) == Area([iv[0]], lo, hi) + Area(iv[1..], lo, hi)
    decreases hi - lo
  {
    if lo < hi {
      AreaSplit(iv, lo, hi - 1);
      SingleActive(iv[0], hi - 1);
    }
  }

  lemma {:induction false} SingleActive(x: Interval, u: int)
    ensures Active([x], u) == OnAir(x, u)
  {
    assert [x][1..] == [];
  }

  lemma {:induction false} SingleArea(x: Interval, lo: int, hi: int)
    requires lo <= x.start <= x.end
    ensures Area([x], lo, hi) == if hi <= x.start then 0 else if hi <= x.end then hi - x.start else x.end - x.start
    decreases hi - lo
  {
    if lo < hi {
      SingleArea(x, lo, hi - 1);
      SingleActive(x, hi - 1);
    }
  }

  /** Over a span that contains all of them, the intervals' lengths add up to the area. */
  lemma {:induction false} AreaIsTotalLength(iv: seq<Interval>, lo: int, hi: int)
    requires Proper(iv) && forall k | 0 <= k < |iv| :: lo <= iv[k].start && iv[k].end <= hi
    ensures Area(iv, lo, hi) == TotalLength(iv)
  {
    if iv == [] {
      EmptyArea(lo, hi);
    } else {
      AreaSplit(iv, lo, hi);
      SingleArea(iv[0], lo, hi);
      AreaIsTotalLength(iv[1..], lo, hi);
    }
  }

  lemma {:induction false} EmptyArea(lo: int, hi: int)
    ensures Area([], lo, hi) == 0
    decreases hi - lo
  {
    if lo < hi {
      EmptyArea(lo, hi - 1);
    }
  }

  /** Every interval lies between the first and the last point. */
  lemma {:induction false} SpanContains(iv: seq<Interval>, s: seq<Point>)
    requires s == Sort(Points(iv)) && iv != []
    ensures s != []
    ensures forall k | 0 <= k < |iv| :: s[0].t <= iv[k].start && iv[k].end <= s[|s| - 1].t
  {
    SortSorts(Points(iv));
    forall k | 0 <= k < |iv|
      ensures s[0].t <= iv[k].start && iv[k].end <= s[|s| - 1].t
    {
      PointOrigin(iv, Point(iv[k].start, 1));
      PointOrigin(iv, Point(iv[k].end, -1));
      assert Point(iv[k].start, 1) in s && Point(iv[k].end, -1) in s;
    }
  }

  // ----- the section --------------------------------------------------------------------------------

  datatype Stats = Stats(meanConcurrent: real, maxConcurrent: int, anyTxFraction: real,
                         totalAirtime: int, wallclock: int)

  /** The sweep itself, over the sorted points. */
  method Sweep(s: seq<Point>, ghost iv: seq<Interval>) returns (weighted: int, anyTx: int, peak: int)
    requires SweepOf(s, iv) && s != []
    ensures weighted == Area(iv, s[0].t, s[|s| - 1].t)
    ensures anyTx == CoveredMs(iv, s[0].t, s[|s| - 1].t)
    ensures IsPeak(iv, peak)
  {
    hide SweepOf, IsPeak, Area, CoveredMs, PeakSoFar;
    var cur, lastT := 0, s[0].t;
    weighted, anyTx, peak := 0, 0, 0;
    Standing(iv, lastT);
    PeakStart(s);
    for i := 0 to |s|
      invariant cur == Running(s, i)
      invariant lastT == Reached(s, i)
      invariant weighted == Area(iv, s[0].t, lastT)
      invariant anyTx == CoveredMs(iv, s[0].t, lastT)
      invariant PeakSoFar(s, i, peak)
    {
      SweepStep(s, iv, i);
      PeakStep(s, i, peak);
      var t, delta := s[i].t, s[i].delta;
      if t > lastT {
        var interval := t - lastT;
        weighted := weighted + cur * interval;
        if cur > 0 {
          anyTx := anyTx + interval;
        }
      }
      cur := cur + delta;
      if cur > peak {
        peak := cur;
      }
      lastT := t;
    }
    PeakOfRunning(s, iv, peak);
  }

  lemma {:induction false} PeakStart(s: seq<Point>)
    ensures PeakSoFar(s, 0, 0)
  {}

  /** The span of a list of intervals: from its first start to its last end. */
  ghost predicate Spans(iv: seq<Interval>, first: int, last: int) {
    && (forall k | 0 <= k < |iv| :: first <= iv[k].start && iv[k].end <= last)
    && (exists k :: 0 <= k < |iv| && iv[k].start == first)
    && (exists k :: 0 <= k < |iv| && iv[k].end == last)
  }

  /** The figures of a non-empty list of intervals that spans first..last; no mean over an empty span. */
  ghost predicate Measured(iv: seq<Interval>, first: int, last: int, r: Stats) {
    && Spans(iv, first, last)
    && r.wallclock == last - first && r.totalAirtime == TotalLength(iv)
    && r.meanConcurrent * r.wallclock as real == TotalLength(iv) as real
    && r.anyTxFraction * r.wallclock as real == CoveredMs(iv, first, last) as real
    && (first == last ==> r.meanConcurrent == 0.0 && r.anyTxFraction == 0.0)
  }

  lemma {:induction false} PointsSpan(iv: seq<Interval>, s: seq<Point>)
    requires Proper(iv) && s == Sort(Points(iv)) && s != []
    requires forall k | 0 <= k < |iv| :: s[0].t <= iv[k].start && iv[k].end <= s[|s| - 1].t
    ensures Spans(iv, s[0].t, s[|s| - 1].t)
  {
    hide Sort, Points;
    SortSorts(Points(iv));
    PointOrigin(iv, s[0]);
    PointOrigin(iv, s[|s| - 1]);
  }

  /**
   * The concurrency section. The time-weighted sum is the total airtime, the busy time is the number
   * of milliseconds covered by at least one transmission, and the peak is the largest number of
   * transmissions on the air at any one instant.
   */
  method SectionConcurrency(iv: seq<Interval>) returns (r: Stats)
    requires Proper(iv)
    ensures iv == [] ==> r == Stats(0.0, 0, 0.0, 0, 0)
    ensures iv != [] ==> exists first, last :: Measured(iv, first, last, r)
    ensures IsPeak(iv, r.maxConcurrent)
  {
    hide Sort, Points, SweepOf, IsPeak, Area, CoveredMs, TotalLength;
    if |iv| == 0 {
      NothingOnAir();
      return Stats(0.0, 0, 0.0, 0, 0);
    }
    var points := Sort(Points(iv));
    SweepPoints(iv);
    SpanContains(iv, points);
    PointsSpan(iv, points);
    var weighted, anyTx, peak := Sweep(points, iv);
    var wall := points[|points| - 1].t - points[0].t;
    AreaIsTotalLength(iv, points[0].t, points[|points| - 1].t);
    var total := SumLengths(iv);
    if wall > 0 {
      r := Stats(weighted as real / wall as real, peak, anyTx as real / wall as real, total, wall);
      Quotient(weighted, wall);
      Quotient(anyTx, wall);
    } else {
      r := Stats(0.0, peak, 0.0, total, wall);
      assert iv[0].start <= iv[0].end;
      Standing(iv, points[0].t);
    }
    assert Measured(iv, points[0].t, points[|points| - 1].t, r);
  }

  lemma {:induction false} Quotient(x: int, n: int)
    requires n > 0
    ensures (x as real / n as real) * n as real == x as real
  {}

  lemma {:induction false} NothingOnAir()
    ensures IsPeak([], 0)
  {}

  method SumLengths(iv: seq<Interval>) returns (total: int)
    ensures total == TotalLength(iv)
  {
    total := 0;
    for i := 0 to |iv|
      invariant total + TotalLength(iv[i..]) == TotalLength(iv)
    {
      assert iv[i..][1..] == iv[i + 1..];
      total := total + iv[i].end - iv[i].start;
    }
  }

  // ----- how the figures relate -----------------------------------------------------------------------

  /** Busy time is at most the weighted sum, which is at most peak times span: the mean never exceeds the peak. */
  lemma {:induction false} AreaBounds(iv: seq<Interval>, lo: int, hi: int, peak: int)
    requires IsPeak(iv, peak) && lo <= hi
    ensures CoveredMs(iv, lo, hi) <= Area(iv, lo, hi) <= peak * (hi - lo)
    ensures CoveredMs(iv, lo, hi) <= hi - lo
    decreases hi - lo
  {
    if lo < hi {
      AreaBounds(iv, lo, hi - 1, peak);
      assert Active(iv, hi - 1) <= peak;
      assert peak * (hi - lo) == peak * (hi - 1 - lo) + peak;
    }
  }
}
