/**
 * A node's drifting crystal: the node clock runs at `scale` times the wall clock, and both
 * directions of the conversion round to whole milliseconds.
 */
module NodeClock {

  /** Node milliseconds per wall millisecond for a drift in parts per million. */
  function Scale(driftPpm: real): real { 1.0 + driftPpm / 1000000.0 }

  /** Round half up, as the cast of x + 0.5 does for x >= 0. */
  function RoundHalfUp(x: real): int { (x + 0.5).Floor }

  /** The wall-clock delay armed for a delay of `delay` node milliseconds. */
  function WallDelay(delay: nat, driftPpm: real): nat
  {
    var scale := Scale(driftPpm);
    if driftPpm == 0.0 || delay == 0 || scale <= 0.0 then delay
    else
      QuotientNonNegative(delay as real, scale);
      RoundHalfUp(delay as real / scale)
  }

  /** The node's own clock reading at wall time `wall`. */
  function NodeTime(wall: nat, driftPpm: real): nat {
    if driftPpm == 0.0 then wall
    else
      var drifted := wall as real * Scale(driftPpm);
      if drifted < 0.0 then 0 else RoundHalfUp(drifted)
  }

  lemma {:induction false} QuotientNonNegative(x: real, s: real)
    requires x >= 0.0 && s > 0.0
    ensures x / s >= 0.0
  {}

  lemma {:induction false} ProductMonotone(a: real, b: real, s: real)
    requires a <= b && s >= 0.0
    ensures a * s <= b * s
  {}

  lemma {:induction false} RoundMonotone(x: real, y: real)
    requires x <= y
    ensures RoundHalfUp(x) <= RoundHalfUp(y)
  {}

  /** The node clock never runs backwards, whatever the drift. */
  lemma {:induction false} NodeTimeMonotone(w1: nat, w2: nat, driftPpm: real)
    requires w1 <= w2
    ensures NodeTime(w1, driftPpm) <= NodeTime(w2, driftPpm)
  {
    var s := Scale(driftPpm);
    if s >= 0.0 {
      ProductMonotone(0.0, w1 as real, s);
      ProductMonotone(w1 as real, w2 as real, s);
      RoundMonotone(w1 as real * s, w2 as real * s);
    } else {
      StoppedClock(w1, driftPpm);
      StoppedClock(w2, driftPpm);
    }
  }

  /**
   * A clock that runs forwards is within 1/2 ms of the exact reading; a positive drift puts it ahead of
   * the wall clock, or level with it, a negative one behind.
   */
  lemma {:induction false} ReadingNearest(wall: nat, driftPpm: real)
    requires driftPpm >= -1000000.0
    ensures -0.5 <= NodeTime(wall, driftPpm) as real - wall as real * (1.0 + driftPpm / 1000000.0) <= 0.5
    ensures driftPpm >= 0.0 ==> NodeTime(wall, driftPpm) >= wall
    ensures driftPpm <= 0.0 ==> NodeTime(wall, driftPpm) <= wall
  {
    var d := driftPpm / 1000000.0;
    Distribute(1.0, d, wall as real);
    ProductMonotone(0.0, wall as real, 1.0 + d);
    ProductMonotone(0.0, wall as real, if d >= 0.0 then d else -d);
  }

  /** A clock that does not run forwards reads 0 for ever. */
  lemma {:induction false} StoppedClock(w: nat, driftPpm: real)
    requires Scale(driftPpm) <= 0.0
    ensures NodeTime(w, driftPpm) == 0
  {
    var s := Scale(driftPpm);
    ProductMonotone(0.0, w as real, -s);
    assert w as real * s == -(w as real * -s);
  }

  /** A whole number within 1/2 of d/s, multiplied back by s, is within s/2 of d. */
  lemma {:induction false} HalfTick(d: real, s: real, w: real)
    requires s > 0.0
    requires d / s - 0.5 <= w <= d / s + 0.5
    ensures d - s / 2.0 <= w * s <= d + s / 2.0
  {
    var x := d / s;
    assert x * s == d;
    ProductMonotone(x - 0.5, w, s);
    ProductMonotone(w, x + 0.5, s);
    Distribute(x, 0.5, s);
    Distribute(x, -0.5, s);
  }

  lemma {:induction false} Distribute(x: real, y: real, s: real)
    ensures (x + y) * s == x * s + y * s
  {}

  /** Both conversions as functions of the scale alone: at scale 1 they are the undrifted branches. */
  lemma {:induction false} ScaleDecides(wall: nat, delay: nat, driftPpm: real, s: real)
    requires s == Scale(driftPpm) && s > 0.0
    ensures NodeTime(wall, driftPpm) == RoundHalfUp(wall as real * s)
    ensures delay as real / s - 0.5 <= WallDelay(delay, driftPpm) as real <= delay as real / s + 0.5
  {
    ProductMonotone(0.0, wall as real, s);
    if driftPpm == 0.0 {
      assert s == 1.0;
    }
  }

  /**
   * A timer armed at wall time `now` for `delay` node milliseconds falls due when the node clock
   * has advanced by `delay` with an error of at most `e` ms, for every `e` of at least half the
   * scale: 1 ms for every scale up to 2. Without drift it is exact.
   */
  lemma {:induction false} TimerAccuracy(now: nat, delay: nat, driftPpm: real, e: nat)
    requires 0.0 < Scale(driftPpm) <= 2.0 * e as real
    ensures var advance := NodeTime(now + WallDelay(delay, driftPpm), driftPpm) - NodeTime(now, driftPpm);
            && delay - e <= advance <= delay + e
            && (driftPpm == 0.0 ==> advance == delay)
  {
    var w, s := WallDelay(delay, driftPpm), Scale(driftPpm);
    ScaleDecides(now, delay, driftPpm, s);
    ScaleDecides(now + w, delay, driftPpm, s);
    AdvanceError(now, w, delay, s, e);
  }

  /**
   * What that means for the firmware: with a scale of at most 2, at any wall instant from the deadline
   * on its clock has advanced by at least delay - 1, and at any up to the deadline by at most delay + 1.
   */
  lemma {:induction false} EarlyAndLate(now: nat, delay: nat, driftPpm: real, t: nat)
    requires 0.0 < Scale(driftPpm) <= 2.0 && now <= t
    ensures now + WallDelay(delay, driftPpm) <= t ==> NodeTime(t, driftPpm) - NodeTime(now, driftPpm) >= delay - 1
    ensures t <= now + WallDelay(delay, driftPpm) ==> NodeTime(t, driftPpm) - NodeTime(now, driftPpm) <= delay + 1
  {
    TimerAccuracy(now, delay, driftPpm, 1);
    var deadline := now + WallDelay(delay, driftPpm);
    if deadline <= t {
      NodeTimeMonotone(deadline, t, driftPpm);
    }
    if t <= deadline {
      NodeTimeMonotone(t, deadline, driftPpm);
    }
  }

  lemma {:induction false} AdvanceError(now: nat, w: nat, delay: nat, s: real, e: nat)
    requires 0.0 < s <= 2.0 * e as real
    requires delay as real / s - 0.5 <= w as real <= delay as real / s + 0.5
    ensures delay - e <= RoundHalfUp((now + w) as real * s) - RoundHalfUp(now as real * s) <= delay + e
  {
    HalfTick(delay as real, s, w as real);
    Distribute(now as real, w as real, s);
    RoundedDifference(now as real * s, w as real * s, delay, e);
  }

  /** Rounding two instants whose real distance is within e of d keeps the distance within e of d. */
  lemma {:induction false} RoundedDifference(start: real, span: real, d: nat, e: nat)
    requires d as real - e as real <= span <= d as real + e as real
    ensures d - e <= RoundHalfUp(start + span) - RoundHalfUp(start) <= d + e
  {
    RoundShift(start, d + e);
    RoundShift(start, d - e);
    RoundMonotone(start + span, start + (d + e) as real);
    RoundMonotone(start + (d - e) as real, start + span);
  }

  /** Rounding commutes with adding whole milliseconds. */
  lemma {:induction false} RoundShift(x: real, k: int)
    ensures RoundHalfUp(x + k as real) == RoundHalfUp(x) + k
  {}

  /** The accuracy law needs a clock that runs: when the scale is not positive no timer advances it. */
  lemma {:induction false} TimerOnStoppedClock(now: nat, delay: nat, driftPpm: real)
    requires Scale(driftPpm) <= 0.0
    ensures WallDelay(delay, driftPpm) == delay
    ensures NodeTime(now + delay, driftPpm) - NodeTime(now, driftPpm) == 0
  {
    StoppedClock(now, driftPpm);
    StoppedClock(now + delay, driftPpm);
  }
}
