/** Survival of one LoRa reception against one interferer. */
module CollisionModel {
  import opened Words64

  type int32 = x: int | -0x8000_0000 <= x < 0x8000_0000

  datatype Config = Config(lockedDb: real, unlockedDb: real, lockSymbols: int32)

  /** A reception at one receiver; times in milliseconds, `cr` as the denominator 5..8. */
  datatype Signal = Signal(snr: real, start: nat, end: nat, cr: nat, preSym: nat,
                           tSym: real, tPreamble: real, sf: int)

  datatype Decision = Decision(survived: bool, reason: nat)

  const CLEAN := Decision(true, 0)
  const CAPTURED := Decision(true, 1)
  const PREAMBLE_GRACE := Decision(true, 2)
  const FEC := Decision(true, 3)
  const DESTROYED := Decision(false, 4)

  /** Round to nearest, halves away from zero. */
  function LRound(x: real): int {
    if x >= 0.0 then (x + 0.5).Floor else -((-x + 0.5).Floor)
  }

  function Max(x: nat, y: nat): nat { if x >= y then x else y }

  function Min(x: nat, y: nat): nat { if x <= y then x else y }

  /** Symbols of overlap the code can repair: one for 4/7 and 4/8, none otherwise. */
  function FecSymbols(cr: nat): nat {
    if cr < 5 || cr > 8 then 0 else [0, 0, 1, 1][cr - 5]
  }

  predicate Overlap(a: Signal, b: Signal) {
    !(b.end <= a.start || a.end <= b.start)
  }

  /** When the primary's preamble is locked, by wall time. */
  function LockTime(cfg: Config, p: Signal): real {
    p.start as real + cfg.lockSymbols as real * p.tSym
  }

  /** Head of the primary's preamble that an interferer may spoil. */
  function GraceMs(cfg: Config, p: Signal): real {
    (p.preSym - cfg.lockSymbols) as real * p.tSym
  }

  function Threshold(cfg: Config, p: Signal, i: Signal): real {
    if i.start as real >= LockTime(cfg, p) then cfg.lockedDb else cfg.unlockedDb
  }

  predicate Captures(cfg: Config, p: Signal, i: Signal) {
    p.snr >= i.snr + Threshold(cfg, p, i)
  }

  predicate InGrace(cfg: Config, p: Signal, i: Signal) {
    GraceMs(cfg, p) > 0.0 && i.end <= p.start + LRound(GraceMs(cfg, p))
  }

  /** The unsigned difference of the overlap's ends. */
  function OverlapMs(p: Signal, i: Signal): nat {
    (Min(p.end, i.end) - Max(p.start, i.start)) % WORD64
  }

  predicate FecRepairs(p: Signal, i: Signal) {
    && FecSymbols(p.cr) > 0
    && OverlapMs(p, i) as real <= FecSymbols(p.cr) as real * p.tSym
    && Max(p.start, i.start) >= p.start + LRound(p.tPreamble)
  }

  function Evaluate(cfg: Config, p: Signal, i: Signal): Decision {
    if p.sf != i.sf then CLEAN
    else if !Overlap(p, i) then CLEAN
    else if Captures(cfg, p, i) then CAPTURED
    else if InGrace(cfg, p, i) then PREAMBLE_GRACE
    else if FecRepairs(p, i) then FEC
    else DESTROYED
  }

  // ----- both directions --------------------------------------------------------------

  predicate Timely(s: Signal) { s.start <= s.end < WORD64 }

  /** The unsigned subtraction never wraps: it is reached only for a real overlap of at least 0 ms. */
  lemma {:induction false} OverlapNeverWraps(a: Signal, b: Signal)
    requires Timely(a) && Timely(b) && Overlap(a, b)
    ensures Max(a.start, b.start) <= Min(a.end, b.end)
    ensures OverlapMs(a, b) == Min(a.end, b.end) - Max(a.start, b.start)
  {}

  // ----- when a frame is destroyed ------------------------------------------------------

  /** To the nearest whole number, halves away from zero. */
  lemma {:induction false} LRoundNearest(x: real)
    ensures -0.5 <= LRound(x) as real - x <= 0.5
    ensures LRound(x) as real - x == 0.5 ==> x > 0.0
    ensures LRound(x) as real - x == -0.5 ==> x < 0.0
  {}

  lemma {:induction false} CaptureByTime(cfg: Config, p: Signal, i: Signal)
    ensures Captures(cfg, p, i)
       <==> var locked := i.start as real >= p.start as real + cfg.lockSymbols as real * p.tSym;
            p.snr - i.snr >= if locked then cfg.lockedDb else cfg.unlockedDb
  {}

  lemma {:induction false} GraceByTime(cfg: Config, p: Signal, i: Signal)
    ensures InGrace(cfg, p, i)
       <==> var grace := (p.preSym - cfg.lockSymbols) as real * p.tSym;
            grace > 0.0 && (i.end - p.start) as real <= grace + 0.5
  {
    LRoundNearest(GraceMs(cfg, p));
  }

  lemma {:induction false} RepairByTime(p: Signal, i: Signal)
    requires Timely(p) && Timely(i) && Overlap(p, i)
    ensures FecRepairs(p, i)
       <==> var from, to := Max(p.start, i.start), Min(p.end, i.end);
            && 7 <= p.cr <= 8
            && (to - from) as real <= p.tSym
            && (from - p.start) as real > p.tPreamble - 0.5
  {
    OverlapNeverWraps(p, i);
    LRoundNearest(p.tPreamble);
  }

  /**
   * The verdict by fields and times. A frame is destroyed exactly when the other has the same spreading
   * factor and overlaps it, is too close in level for the threshold in force (the locked one from the
   * lock on), does not end within the head of the preamble, rounded, and what it spoils is more than one
   * symbol, or reaches into the rounded preamble, or is not of a code that repairs.
   */
  lemma {:induction false} DestroyedIff(cfg: Config, p: Signal, i: Signal)
    requires Timely(p) && Timely(i)
    ensures var from, to := if i.start >= p.start then i.start else p.start, if i.end <= p.end then i.end else p.end;
            var locked := i.start as real >= p.start as real + cfg.lockSymbols as real * p.tSym;
            var head := (p.preSym - cfg.lockSymbols) as real * p.tSym;
            var meets := p.sf == i.sf && p.start < i.end && i.start < p.end;
            var captured := p.snr - i.snr >= if locked then cfg.lockedDb else cfg.unlockedDb;
            var graced := head > 0.0 && (i.end - p.start) as real <= head + 0.5;
            var repaired := && 7 <= p.cr <= 8 && (to - from) as real <= p.tSym
                            && (from - p.start) as real > p.tPreamble - 0.5;
            && (Evaluate(cfg, p, i) == Decision(true, 0) <==> !meets)
            && (Evaluate(cfg, p, i) == Decision(true, 1) <==> meets && captured)
            && (Evaluate(cfg, p, i) == Decision(true, 2) <==> meets && !captured && graced)
            && (Evaluate(cfg, p, i) == Decision(true, 3) <==> meets && !captured && !graced && repaired)
            && (Evaluate(cfg, p, i) == Decision(false, 4) <==> meets && !captured && !graced && !repaired)
  {
    hide Captures, InGrace, FecRepairs;
    CaptureByTime(cfg, p, i);
    GraceByTime(cfg, p, i);
    if Overlap(p, i) {
      RepairByTime(p, i);
    }
  }

  // ----- capture ------------------------------------------------------------------------

  /**
   * The thresholds keep capture exclusive: both are positive, or the locked one is 0 but neither frame
   * locks at its very start.
   */
  predicate Exclusive(cfg: Config, a: Signal, b: Signal) {
    && cfg.lockedDb >= 0.0 && cfg.unlockedDb > 0.0
    && (cfg.lockedDb > 0.0 || (LockTime(cfg, a) > a.start as real && LockTime(cfg, b) > b.start as real))
  }

  lemma {:induction false} NotBothCaptured(cfg: Config, a: Signal, b: Signal)
    requires Exclusive(cfg, a, b)
    ensures !(Captures(cfg, a, b) && Captures(cfg, b, a))
  {}

  /** Two overlapping frames of one spreading factor at a receiver. */
  ghost predicate Meets(a: Signal, b: Signal) {
    a.sf == b.sf && Overlap(a, b) && a.tSym > 0.0 && b.tSym > 0.0
  }

  lemma {:induction false} LocksLater(cfg: Config, s: Signal)
    requires s.tSym > 0.0
    ensures LockTime(cfg, s) > s.start as real <==> cfg.lockSymbols >= 1
  {
    var n := cfg.lockSymbols as real;
    assert n >= 1.0 ==> n * s.tSym >= s.tSym;
    assert n <= 0.0 ==> n * s.tSym <= 0.0;
  }

  /**
   * Of all thresholds the configuration accepts, capture never saves both of two frames exactly when
   * the unlocked one is positive. (If nothing had to lock it would be the locked one.)
   */
  lemma {:induction false} CaptureExclusiveIff(cfg: Config)
    requires cfg.lockedDb >= 0.0 && cfg.unlockedDb >= 0.0
    ensures (forall a, b | Meets(a, b) :: !(Captures(cfg, a, b) && Captures(cfg, b, a)))
       <==> if cfg.lockSymbols >= 1 then cfg.unlockedDb > 0.0 else cfg.lockedDb > 0.0
  {
    hide LockTime;
    if if cfg.lockSymbols >= 1 then cfg.unlockedDb > 0.0 else cfg.lockedDb > 0.0 {
      forall a, b | Meets(a, b)
        ensures !(Captures(cfg, a, b) && Captures(cfg, b, a))
      {
        LocksLater(cfg, a);
        LocksLater(cfg, b);
      }
    } else {
      var s := Signal(0.0, 0, 1, 5, 8, 1.0, 12.25, 8);
      LocksLater(cfg, s);
      assert Meets(s, s) && Captures(cfg, s, s);
    }
  }

  /** Grace in both directions needs a frame no longer than its own rounded grace. */
  lemma {:induction false} BothInGrace(cfg: Config, a: Signal, b: Signal)
    requires InGrace(cfg, a, b) && InGrace(cfg, b, a)
    ensures a.end - a.start <= LRound(GraceMs(cfg, a)) || b.end - b.start <= LRound(GraceMs(cfg, b))
  {}

  /** Repair in both directions needs a frame whose preamble rounds to nothing. */
  lemma {:induction false} BothRepaired(a: Signal, b: Signal)
    requires FecRepairs(a, b) && FecRepairs(b, a)
    ensures LRound(a.tPreamble) <= 0 || LRound(b.tPreamble) <= 0
  {}

  /** The frame lasts longer than its preamble, which rounds to at least 1 ms and outlasts the grace. */
  predicate OutlastsPreamble(cfg: Config, s: Signal) {
    && Timely(s)
    && s.tPreamble >= 0.5
    && LRound(GraceMs(cfg, s)) < s.end - s.start
  }

  /**
   * No rescue stage saves both of two overlapping frames: evaluated in both directions, they never
   * survive for the same reason.
   */
  lemma {:induction false} NoStageSavesBoth(cfg: Config, a: Signal, b: Signal)
    requires Exclusive(cfg, a, b)
    requires a.sf == b.sf && Overlap(a, b)
    requires OutlastsPreamble(cfg, a) && OutlastsPreamble(cfg, b)
    ensures var ab, ba := Evaluate(cfg, a, b), Evaluate(cfg, b, a);
            ab.survived && ba.survived ==> ab.reason != ba.reason && 1 <= ab.reason <= 3 && 1 <= ba.reason <= 3
  {
    NotBothCaptured(cfg, a, b);
    if InGrace(cfg, a, b) && InGrace(cfg, b, a) {
      BothInGrace(cfg, a, b);
      assert false;
    }
    if FecRepairs(a, b) && FecRepairs(b, a) {
      BothRepaired(a, b);
      assert false;
    }
  }

  // ----- exactly when one stage can save both -------------------------------------------

  function Length(s: Signal): int { s.end - s.start }

  function Moved(s: Signal, start: nat): (m: Signal)
    requires s.start <= s.end
    ensures Length(m) == Length(s)
  {
    s.(start := start, end := start + s.end - s.start)
  }

  /** Together no longer than their graces, neither of which rounds to nothing. */
  predicate GraceFits(cfg: Config, a: Signal, b: Signal) {
    var g, h := LRound(GraceMs(cfg, a)), LRound(GraceMs(cfg, b));
    1 <= g && 1 <= h && 2 <= Length(a) + Length(b) <= g + h
  }

  ghost predicate GracedAt(cfg: Config, a: Signal, b: Signal) {
    Overlap(a, b) && InGrace(cfg, a, b) && InGrace(cfg, b, a)
  }

  lemma {:induction false} BothInGraceIff(cfg: Config, a: Signal, b: Signal)
    requires a.start <= a.end && b.start <= b.end
    ensures (exists s: nat, t: nat :: GracedAt(cfg, Moved(a, s), Moved(b, t))) <==> GraceFits(cfg, a, b)
  {
    hide LRound;
    if s: nat, t: nat :| GracedAt(cfg, Moved(a, s), Moved(b, t)) {
      assert GraceMs(cfg, Moved(a, s)) == GraceMs(cfg, a) && GraceMs(cfg, Moved(b, t)) == GraceMs(cfg, b);
    }
    if GraceFits(cfg, a, b) {
      GraceIsPositive(GraceMs(cfg, a));
      GraceIsPositive(GraceMs(cfg, b));
      var h := LRound(GraceMs(cfg, b));
      var shift := if 1 - Length(b) >= Length(a) - h then 1 - Length(b) else Length(a) - h;
      var s: nat, t: nat := Length(b), Length(b) + shift;
      assert GraceMs(cfg, Moved(a, s)) == GraceMs(cfg, a) && GraceMs(cfg, Moved(b, t)) == GraceMs(cfg, b);
      assert GracedAt(cfg, Moved(a, s), Moved(b, t));
    }
  }

  lemma {:induction false} GraceIsPositive(x: real)
    requires LRound(x) >= 1
    ensures x > 0.0
  {}

  function Tolerance(s: Signal): real { FecSymbols(s.cr) as real * s.tSym }

  /** `late` starts last: its preamble rounds to nothing, and the last millisecond of `early` is payload. */
  predicate RepairFits(early: Signal, late: Signal) {
    var overlap := if Length(late) == 0 then 0.0 else 1.0;
    && FecSymbols(early.cr) > 0 && FecSymbols(late.cr) > 0
    && LRound(late.tPreamble) <= 0 && 1 <= Length(early) && LRound(early.tPreamble) <= Length(early) - 1
    && 2 <= Length(early) + Length(late)
    && overlap <= Tolerance(early) && overlap <= Tolerance(late)
  }

  ghost predicate RepairedAt(a: Signal, b: Signal) {
    Overlap(a, b) && FecRepairs(a, b) && FecRepairs(b, a)
  }

  lemma {:induction false} RepairNeedsFit(a: Signal, b: Signal)
    requires a.start <= a.end && b.start <= b.end && Length(a) < WORD64 && Length(b) < WORD64
    requires RepairedAt(a, b) && a.start <= b.start
    ensures RepairFits(a, b)
  {
    hide LRound;
    assert OverlapMs(a, b) == Min(a.end, b.end) - b.start == OverlapMs(b, a);
    assert Length(b) > 0 ==> OverlapMs(a, b) >= 1;
  }

  lemma {:induction false} FitRepairs(a: Signal, b: Signal)
    requires a.start <= a.end && b.start <= b.end && RepairFits(a, b)
    ensures RepairedAt(Moved(a, 0), Moved(b, Length(a) - 1))
  {
    hide LRound;
    var x, y := Moved(a, 0), Moved(b, Length(a) - 1);
    assert OverlapMs(x, y) == OverlapMs(y, x) == if Length(b) == 0 then 0 else 1;
  }

  lemma {:induction false} BothRepairedIff(a: Signal, b: Signal)
    requires a.start <= a.end && b.start <= b.end && Length(a) < WORD64 && Length(b) < WORD64
    ensures (exists s: nat, t: nat :: RepairedAt(Moved(a, s), Moved(b, t))) <==> RepairFits(a, b) || RepairFits(b, a)
  {
    hide RepairedAt, RepairFits, LRound;
    if s: nat, t: nat :| RepairedAt(Moved(a, s), Moved(b, t)) {
      FitUnmoved(a, b, s, t);
      RepairedSwap(Moved(a, s), Moved(b, t));
      if s <= t {
        RepairNeedsFit(Moved(a, s), Moved(b, t));
      } else {
        RepairNeedsFit(Moved(b, t), Moved(a, s));
      }
    }
    if RepairFits(a, b) {
      FitLength(a, b);
      FitRepairs(a, b);
    }
    if RepairFits(b, a) {
      FitLength(b, a);
      FitRepairs(b, a);
      RepairedSwap(Moved(b, 0), Moved(a, Length(b) - 1));
    }
  }

  lemma {:induction false} FitLength(a: Signal, b: Signal)
    requires RepairFits(a, b)
    ensures Length(a) >= 1
  {}

  lemma {:induction false} RepairedSwap(a: Signal, b: Signal)
    ensures RepairedAt(a, b) <==> RepairedAt(b, a)
  {}

  lemma {:induction false} FitUnmoved(a: Signal, b: Signal, s: nat, t: nat)
    requires a.start <= a.end && b.start <= b.end
    ensures RepairFits(Moved(a, s), Moved(b, t)) <==> RepairFits(a, b)
    ensures RepairFits(Moved(b, t), Moved(a, s)) <==> RepairFits(b, a)
  {}

  /** Received at these times and levels, the conditions of some one stage hold for both. */
  ghost predicate RescuedBy(cfg: Config, a: Signal, b: Signal) {
    && Overlap(a, b)
    && (|| (Captures(cfg, a, b) && Captures(cfg, b, a))
        || (InGrace(cfg, a, b) && InGrace(cfg, b, a))
        || (FecRepairs(a, b) && FecRepairs(b, a)))
  }

  function Received(s: Signal, start: nat, snr: real): Signal
    requires s.start <= s.end
  {
    Moved(s, start).(snr := snr)
  }

  /**
   * Two given frames can be received so that one stage's conditions hold for both exactly when their
   * lengths fit their graces, or one has a preamble that rounds to nothing and the overlap can be repaired.
   */
  lemma {:induction false} StageFitsBothIff(cfg: Config, a: Signal, b: Signal)
    requires cfg.lockedDb >= 0.0 && cfg.unlockedDb > 0.0 && cfg.lockSymbols >= 1
    requires a.start <= a.end && b.start <= b.end && Length(a) < WORD64 && Length(b) < WORD64
    requires a.tSym > 0.0 && b.tSym > 0.0
    ensures (exists s: nat, t: nat, x: real, y: real :: RescuedBy(cfg, Received(a, s, x), Received(b, t, y)))
       <==> GraceFits(cfg, a, b) || RepairFits(a, b) || RepairFits(b, a)
  {
    hide GraceFits, RepairFits, InGrace, FecRepairs, LockTime;
    BothInGraceIff(cfg, a, b);
    BothRepairedIff(a, b);
    if s: nat, t: nat, x: real, y: real :| RescuedBy(cfg, Received(a, s, x), Received(b, t, y)) {
      var (p, q) := (Received(a, s, x), Received(b, t, y));
      LocksLater(cfg, p);
      LocksLater(cfg, q);
      NotBothCaptured(cfg, p, q);
      LevelIrrelevant(cfg, Moved(a, s), Moved(b, t), x, y);
      assert RepairedAt(Moved(a, s), Moved(b, t)) || GracedAt(cfg, Moved(a, s), Moved(b, t));
    }
    if s: nat, t: nat :| GracedAt(cfg, Moved(a, s), Moved(b, t)) {
      LevelIrrelevant(cfg, Moved(a, s), Moved(b, t), 0.0, 0.0);
      assert RescuedBy(cfg, Received(a, s, 0.0), Received(b, t, 0.0));
    }
    if s: nat, t: nat :| RepairedAt(Moved(a, s), Moved(b, t)) {
      LevelIrrelevant(cfg, Moved(a, s), Moved(b, t), 0.0, 0.0);
      assert RescuedBy(cfg, Received(a, s, 0.0), Received(b, t, 0.0));
    }
  }

  lemma {:induction false} LevelIrrelevant(cfg: Config, a: Signal, b: Signal, x: real, y: real)
    ensures var (p, q) := (a.(snr := x), b.(snr := y));
            && (Overlap(p, q) <==> Overlap(a, b))
            && (InGrace(cfg, p, q) <==> InGrace(cfg, a, b)) && (InGrace(cfg, q, p) <==> InGrace(cfg, b, a))
            && (FecRepairs(p, q) <==> FecRepairs(a, b)) && (FecRepairs(q, p) <==> FecRepairs(b, a))
  {
    hide LRound;
    var (p, q) := (a.(snr := x), b.(snr := y));
    assert GraceMs(cfg, p) == GraceMs(cfg, a) && GraceMs(cfg, q) == GraceMs(cfg, b);
    assert OverlapMs(p, q) == OverlapMs(a, b) && OverlapMs(q, p) == OverlapMs(b, a);
  }

  /** Evaluated both ways, the two overlapping frames survive for the same reason. */
  ghost predicate SavedBy(cfg: Config, a: Signal, b: Signal) {
    a.sf == b.sf && Overlap(a, b) && Evaluate(cfg, a, b).survived && Evaluate(cfg, a, b) == Evaluate(cfg, b, a)
  }

  /** Repair is what decides for the earlier frame too: its own grace does not reach the later one's end. */
  predicate RepairDecides(cfg: Config, early: Signal, late: Signal) {
    RepairFits(early, late) && LRound(GraceMs(cfg, early)) < Length(early) - 1 + Length(late)
  }

  /** A frame's grace is part of its preamble. */
  predicate GraceInPreamble(cfg: Config, s: Signal) { GraceMs(cfg, s) <= s.tPreamble }

  lemma {:induction false} LRoundMonotone(x: real, y: real)
    requires x <= y
    ensures LRound(x) <= LRound(y)
  {}

  /** Levels at which neither frame captures. */
  lemma {:induction false} LevelsApart(cfg: Config, a: Signal, b: Signal) returns (x: real, y: real)
    requires Exclusive(cfg, a, b)
    ensures !Captures(cfg, a.(snr := x), b.(snr := y)) && !Captures(cfg, b.(snr := y), a.(snr := x))
  {
    var (t, u) := (Threshold(cfg, a, b), Threshold(cfg, b, a));
    x, y := (t - u) / 2.0, 0.0;
    var (p, q) := (a.(snr := x), b.(snr := y));
    assert LockTime(cfg, p) == LockTime(cfg, a) && LockTime(cfg, q) == LockTime(cfg, b);
    assert Threshold(cfg, p, q) == t && Threshold(cfg, q, p) == u;
    assert t + u > 0.0;
  }

  /** Where each is in the other's grace, or each is repaired and not in grace, the verdicts agree. */
  lemma {:induction false} StageDecides(cfg: Config, a: Signal, b: Signal) returns (x: real, y: real)
    requires Exclusive(cfg, a, b) && a.sf == b.sf && Overlap(a, b)
    requires (InGrace(cfg, a, b) && InGrace(cfg, b, a))
          || (FecRepairs(a, b) && FecRepairs(b, a) && !InGrace(cfg, a, b) && !InGrace(cfg, b, a))
    ensures SavedBy(cfg, a.(snr := x), b.(snr := y))
  {
    x, y := LevelsApart(cfg, a, b);
    LevelIrrelevant(cfg, a, b, x, y);
    hide InGrace, FecRepairs, Captures;
  }

  lemma {:induction false} RepairedVerdict(cfg: Config, a: Signal, b: Signal)
    requires a.start <= a.end && b.start <= b.end && Length(a) < WORD64 && Length(b) < WORD64
    requires RepairedAt(a, b) && !InGrace(cfg, a, b) && a.start <= b.start
    ensures RepairDecides(cfg, a, b)
  {
    RepairNeedsFit(a, b);
    hide RepairFits, RepairedAt;
    if GraceMs(cfg, a) <= 0.0 {
      LRoundMonotone(GraceMs(cfg, a), 0.0);
    }
    FitLength(a, b);
  }

  lemma {:induction false} DecidingPlacement(cfg: Config, a: Signal, b: Signal)
    requires a.start <= a.end && b.start <= b.end
    requires GraceInPreamble(cfg, b) && RepairDecides(cfg, a, b)
    ensures var (x, y) := (Moved(a, 0), Moved(b, Length(a) - 1));
            RepairedAt(x, y) && !InGrace(cfg, x, y) && !InGrace(cfg, y, x)
  {
    FitRepairs(a, b);
    LRoundMonotone(GraceMs(cfg, b), b.tPreamble);
    hide LRound, RepairedAt, FecSymbols;
    var (x, y) := (Moved(a, 0), Moved(b, Length(a) - 1));
    assert GraceMs(cfg, x) == GraceMs(cfg, a) && GraceMs(cfg, y) == GraceMs(cfg, b);
  }

  /**
   * Exactly when the decision can save two given frames for the same reason, over all times and levels:
   * their lengths fit their graces, or one has a preamble that rounds to nothing, the overlap can be
   * repaired, and the other's grace does not decide first.
   */
  lemma {:induction false} OneStageSavesBothIff(cfg: Config, a: Signal, b: Signal)
    requires cfg.lockedDb >= 0.0 && cfg.unlockedDb > 0.0 && cfg.lockSymbols >= 1
    requires a.start <= a.end && b.start <= b.end && Length(a) < WORD64 && Length(b) < WORD64
    requires a.sf == b.sf && a.tSym > 0.0 && b.tSym > 0.0
    requires GraceInPreamble(cfg, a) && GraceInPreamble(cfg, b)
    ensures (exists s: nat, t: nat, x: real, y: real :: SavedBy(cfg, Received(a, s, x), Received(b, t, y)))
       <==> GraceFits(cfg, a, b) || RepairDecides(cfg, a, b) || RepairDecides(cfg, b, a)
  {
    hide GraceFits, RepairDecides, SavedBy, GraceInPreamble;
    if s: nat, t: nat, x: real, y: real :| SavedBy(cfg, Received(a, s, x), Received(b, t, y)) {
      SavedFits(cfg, a, b, s, x, t, y);
    }
    if GraceFits(cfg, a, b) {
      BothInGraceIff(cfg, a, b);
      var s: nat, t: nat :| GracedAt(cfg, Moved(a, s), Moved(b, t));
      LockedLater(cfg, a, s, b, t);
      var x, y := StageDecides(cfg, Moved(a, s), Moved(b, t));
      assert SavedBy(cfg, Received(a, s, x), Received(b, t, y));
    }
    if RepairDecides(cfg, a, b) {
      DecidesLength(cfg, a, b);
      DecidingPlacement(cfg, a, b);
      LockedLater(cfg, a, 0, b, Length(a) - 1);
      var x, y := StageDecides(cfg, Moved(a, 0), Moved(b, Length(a) - 1));
      assert SavedBy(cfg, Received(a, 0, x), Received(b, Length(a) - 1, y));
    }
    if RepairDecides(cfg, b, a) {
      DecidesLength(cfg, b, a);
      DecidingPlacement(cfg, b, a);
      LockedLater(cfg, b, 0, a, Length(b) - 1);
      var y, x := StageDecides(cfg, Moved(b, 0), Moved(a, Length(b) - 1));
      SavedSwap(cfg, Received(b, 0, y), Received(a, Length(b) - 1, x));
      assert SavedBy(cfg, Received(a, Length(b) - 1, x), Received(b, 0, y));
    }
  }

  lemma {:induction false} DecidesLength(cfg: Config, a: Signal, b: Signal)
    requires RepairDecides(cfg, a, b)
    ensures Length(a) >= 1
  {}

  lemma {:induction false} SavedSwap(cfg: Config, a: Signal, b: Signal)
    ensures SavedBy(cfg, a, b) <==> SavedBy(cfg, b, a)
  {}

  lemma {:induction false} LockedLater(cfg: Config, a: Signal, s: nat, b: Signal, t: nat)
    requires cfg.lockedDb >= 0.0 && cfg.unlockedDb > 0.0 && cfg.lockSymbols >= 1
    requires a.start <= a.end && b.start <= b.end && a.tSym > 0.0 && b.tSym > 0.0
    ensures Exclusive(cfg, Moved(a, s), Moved(b, t))
  {
    LocksLater(cfg, Moved(a, s));
    LocksLater(cfg, Moved(b, t));
  }

  lemma {:induction false} SavedFits(cfg: Config, a: Signal, b: Signal, s: nat, x: real, t: nat, y: real)
    requires cfg.lockedDb >= 0.0 && cfg.unlockedDb > 0.0 && cfg.lockSymbols >= 1
    requires a.start <= a.end && b.start <= b.end && Length(a) < WORD64 && Length(b) < WORD64
    requires a.tSym > 0.0 && b.tSym > 0.0
    requires SavedBy(cfg, Received(a, s, x), Received(b, t, y))
    ensures GraceFits(cfg, a, b) || RepairDecides(cfg, a, b) || RepairDecides(cfg, b, a)
  {
    var (p, q) := (Received(a, s, x), Received(b, t, y));
    LocksLater(cfg, p);
    LocksLater(cfg, q);
    NotBothCaptured(cfg, p, q);
    VerdictStage(cfg, p, q);
    hide SavedBy, GraceFits, RepairDecides, InGrace, FecRepairs, Captures, Evaluate, LockTime;
    LevelIrrelevant(cfg, Moved(a, s), Moved(b, t), x, y);
    if InGrace(cfg, p, q) && InGrace(cfg, q, p) {
      assert GracedAt(cfg, Moved(a, s), Moved(b, t));
      BothInGraceIff(cfg, a, b);
    } else {
      RepairedSwap(Moved(a, s), Moved(b, t));
      assert RepairedAt(Moved(a, s), Moved(b, t));
      DecidesUnmoved(cfg, a, b, s, t);
      if s <= t {
        RepairedVerdict(cfg, Moved(a, s), Moved(b, t));
      } else {
        RepairedVerdict(cfg, Moved(b, t), Moved(a, s));
      }
    }
  }

  /** What agreeing verdicts say of the stages. */
  lemma {:induction false} VerdictStage(cfg: Config, a: Signal, b: Signal)
    requires SavedBy(cfg, a, b) && !(Captures(cfg, a, b) && Captures(cfg, b, a))
    ensures Overlap(a, b)
    ensures (InGrace(cfg, a, b) && InGrace(cfg, b, a))
         || (FecRepairs(a, b) && FecRepairs(b, a) && !InGrace(cfg, a, b) && !InGrace(cfg, b, a))
  {
    hide InGrace, FecRepairs, Captures;
  }

  lemma {:induction false} DecidesUnmoved(cfg: Config, a: Signal, b: Signal, s: nat, t: nat)
    requires a.start <= a.end && b.start <= b.end
    ensures RepairDecides(cfg, Moved(a, s), Moved(b, t)) <==> RepairDecides(cfg, a, b)
    ensures RepairDecides(cfg, Moved(b, t), Moved(a, s)) <==> RepairDecides(cfg, b, a)
  {
    FitUnmoved(a, b, s, t);
    hide RepairFits, LRound;
    assert GraceMs(cfg, Moved(a, s)) == GraceMs(cfg, a) && GraceMs(cfg, Moved(b, t)) == GraceMs(cfg, b);
  }

  /** Frames that outlast their preambles never fit: at no times and levels does one stage save both. */
  lemma {:induction false} OutlastingNeverFit(cfg: Config, a: Signal, b: Signal)
    requires OutlastsPreamble(cfg, a) && OutlastsPreamble(cfg, b)
    ensures !GraceFits(cfg, a, b) && !RepairFits(a, b) && !RepairFits(b, a)
    ensures !RepairDecides(cfg, a, b) && !RepairDecides(cfg, b, a)
  {}

  /** Two frames can both survive by different stages: a short loud frame inside a long preamble. */
  lemma {:induction false} DifferentStagesCanSaveBoth()
    ensures exists cfg: Config, a: Signal, b: Signal ::
              && cfg.lockedDb > 0.0 && cfg.unlockedDb > 0.0 && a.sf == b.sf && Overlap(a, b)
              && OutlastsPreamble(cfg, a) && OutlastsPreamble(cfg, b)
              && Evaluate(cfg, a, b) == CAPTURED && Evaluate(cfg, b, a) == PREAMBLE_GRACE
  {
    var cfg := Config(3.0, 6.0, 6);
    var a := Signal(10.0, 0, 30, 5, 6, 1.0, 10.25, 8);
    var b := Signal(0.0, 0, 500, 5, 100, 1.0, 104.25, 8);
    assert GraceMs(cfg, a) == 0.0 && GraceMs(cfg, b) == 94.0;
    assert Evaluate(cfg, a, b) == CAPTURED && Evaluate(cfg, b, a) == PREAMBLE_GRACE;
  }

  // ----- monotonicity --------------------------------------------------------------------

  /** `i'` interferes no longer and no louder than `i`, and `p'` is `p` received no weaker. */
  ghost predicate Milder(p: Signal, i: Signal, p': Signal, i': Signal) {
    && Timely(p) && Timely(i)
    && p' == p.(snr := p'.snr) && p.snr <= p'.snr
    && i'.sf == i.sf && i'.snr <= i.snr
    && i.start <= i'.start <= i'.end <= i.end
  }

  ghost predicate Keeps(cfg: Config, p: Signal, i: Signal, p': Signal, i': Signal) {
    Evaluate(cfg, p, i).survived ==> Evaluate(cfg, p', i').survived
  }

  /** A milder interference never destroys a frame that survived the harsher one, across all stages. */
  lemma {:induction false} SurvivalMonotone(cfg: Config, p: Signal, i: Signal, p': Signal, i': Signal)
    requires cfg.lockedDb <= cfg.unlockedDb
    requires Milder(p, i, p', i')
    ensures Keeps(cfg, p, i, p', i')
  {
    if p.sf == i.sf && Overlap(p', i') {
      assert Overlap(p, i);
      assert LockTime(cfg, p) == LockTime(cfg, p') && GraceMs(cfg, p) == GraceMs(cfg, p');
      assert Threshold(cfg, p', i') <= Threshold(cfg, p, i);
      OverlapNeverWraps(p, i);
      OverlapNeverWraps(p', i');
      assert OverlapMs(p', i') <= OverlapMs(p, i);
      assert FecRepairs(p, i) ==> FecRepairs(p', i');
    }
  }

  /** With the thresholds the wrong way round, an interferer that starts later can destroy a captured frame. */
  lemma {:induction false} LaterStartDestroys(cfg: Config) returns (p: Signal, i: Signal, i': Signal)
    requires cfg.lockedDb > cfg.unlockedDb
    ensures Milder(p, i, p, i') && !Keeps(cfg, p, i, p, i')
  {
    var lock: int := cfg.lockSymbols;
    var start: nat := if lock >= 1 then 1 else 1 - lock;
    var locked: nat := start + lock;
    var end: nat := start + locked + 1 + if lock >= 0 then lock else -lock;
    p := Signal(cfg.unlockedDb, start, end, 5, 0, 1.0, 0.0, 7);
    i := Signal(0.0, locked - 1, end, 5, 0, 1.0, 0.0, 7);
    i' := i.(start := locked);
    assert LockTime(cfg, p) == locked as real;
    assert GraceMs(cfg, p) == (-lock) as real;
    assert GraceMs(cfg, p) > 0.0 ==> LRound(GraceMs(cfg, p)) == -lock;
    assert Captures(cfg, p, i) && !Captures(cfg, p, i');
    assert !InGrace(cfg, p, i');
    assert FecSymbols(p.cr) == 0;
  }

  /** Survival is monotone for all frames exactly when the locked threshold does not exceed the unlocked one. */
  lemma {:induction false} MonotoneIffThresholdsOrdered(cfg: Config)
    ensures (forall p, i, p', i' | Milder(p, i, p', i') :: Keeps(cfg, p, i, p', i'))
       <==> cfg.lockedDb <= cfg.unlockedDb
  {
    if cfg.lockedDb <= cfg.unlockedDb {
      forall p, i, p', i' | Milder(p, i, p', i')
        ensures Keeps(cfg, p, i, p', i')
      {
        SurvivalMonotone(cfg, p, i, p', i');
      }
    } else {
      var p, i, i' := LaterStartDestroys(cfg);
    }
  }
}

/** The frames the controller builds from a radio's parameters. */
module ControllerFrames {
  import opened CollisionModel
  import LoraAirtime
  import opened Words64

  /** A transmission of `len` bytes starting at `start`, as captured at a receiver with SNR `snr`. */
  function Frame(phy: LoraAirtime.Phy, len: nat, start: nat, snr: real): Signal
    requires LoraAirtime.Settable(phy)
    requires LoraAirtime.EstAirtime(phy, len) >= 0
  {
    var tSym := LoraAirtime.SymbolMs(phy);
    Signal(snr, start, start + LoraAirtime.EstAirtime(phy, len), phy.cr, phy.preamble, tSym,
           (phy.preamble as real + 4.25) * tSym, phy.sf)
  }

  /**
   * Symbols long enough for whole milliseconds to tell a frame from its preamble: at SF5 up to 533 kHz,
   * at SF6 up to 771 kHz, at SF7 up to 1.5 MHz, and so on. All LoRa bandwidths up to 500 kHz qualify.
   */
  predicate SlowRadio(phy: LoraAirtime.Phy) {
    LoraAirtime.Settable(phy) && 5 <= phy.cr
    && LoraAirtime.SymbolMs(phy) >= if phy.sf == 5 then 0.06 else 0.083
  }

  lemma {:induction false} SymbolFloor(sf: nat, bwHz: nat)
    requires 5 <= sf && 0 < bwHz <= 500000
    ensures LoraAirtime.SymbolTime(sf, bwHz) >= 0.064
    ensures 6 <= sf ==> LoraAirtime.SymbolTime(sf, bwHz) >= 0.128
  {
    if sf == 5 {
      LoraAirtime.SymbolTimeShrinks(5, bwHz, 500000);
      LoraAirtime.FastestSf5();
    } else {
      SymbolFloor(sf - 1, bwHz);
    }
  }

  lemma {:induction false} UpTo500kHz(phy: LoraAirtime.Phy)
    requires LoraAirtime.Settable(phy) && 5 <= phy.cr && phy.bwHz <= 500000
    ensures SlowRadio(phy)
  {
    SymbolFloor(phy.sf, phy.bwHz);
  }

  /** At SF5 there is always at least one coded block. */
  lemma {:induction false} EnoughSymbols(phy: LoraAirtime.Phy, len: nat)
    requires SlowRadio(phy)
    ensures LoraAirtime.Symbols(phy, len) >= phy.preamble as real + 12.25
    ensures phy.sf == 5 ==> LoraAirtime.Symbols(phy, len) >= phy.preamble as real + 19.25
  {
    var n := LoraAirtime.Blocks(phy, len, LoraAirtime.HeaderConstant(phy));
    LoraAirtime.MulMonotone(0, n, phy.cr);
    if phy.sf == 5 {
      LoraAirtime.CeilDivBound(2 * len - 5 + 9, LoraAirtime.Effective(phy), 0);
      LoraAirtime.MulMonotone(1, n, phy.cr);
    }
  }

  /** Arithmetic core: n symbols of t ms, rounded down, outlast k symbols rounded to nearest. */
  lemma {:induction false} OutlastsRounded(n: real, k: real, t: real)
    requires t > 0.0 && (n - k) * t >= 1.5 && n * t >= 1.0
    ensures LRound(k * t) < (n * t).Floor
  {
    LoraAirtime.Distribute(n, -k, t);
    assert (-k) * t == -(k * t);
  }

  /** Every frame of such a radio outlasts its preamble, also rounded down to whole milliseconds. */
  lemma {:induction false} FramesOutlastPreamble(cfg: Config, phy: LoraAirtime.Phy, len: nat, start: nat, snr: real)
    requires SlowRadio(phy) && 6 <= phy.preamble && 6 <= cfg.lockSymbols
    ensures LoraAirtime.EstAirtime(phy, len) >= 0
    ensures start + LoraAirtime.EstAirtime(phy, len) < WORD64 ==> OutlastsPreamble(cfg, Frame(phy, len, start, snr))
  {
    hide LoraAirtime.RadioMs, LoraAirtime.Symbols, LoraAirtime.SymbolTime, LRound;
    var t, n := LoraAirtime.SymbolMs(phy), LoraAirtime.Symbols(phy, len);
    var pre, k := phy.preamble as real, (phy.preamble - cfg.lockSymbols) as real;
    EnoughSymbols(phy, len);
    LoraAirtime.RadioInSymbols(phy, len);
    var t0, gap := if phy.sf == 5 then 0.06 else 0.083, if phy.sf == 5 then 25.25 else 18.25;
    LoraAirtime.ProductBound(gap, t0, n - k, t);
    LoraAirtime.ProductBound(if phy.sf == 5 then 19.25 else 12.25, t0, n, t);
    LoraAirtime.ProductBound(10.25, 0.06, pre + 4.25, t);
    OutlastsRounded(n, k, t);
    assert LoraAirtime.EstAirtime(phy, len) == (n * t).Floor;
    assert (pre + 4.25) * t >= 0.5;
    var f := Frame(phy, len, start, snr);
    assert GraceMs(cfg, f) == k * t;
    assert f.tPreamble >= 0.5;
  }

  /** Thresholds the configuration accepts, except an unlocked one of 0, and the preamble lock of 6 or more. */
  predicate Thresholds(cfg: Config) { cfg.lockedDb >= 0.0 && cfg.unlockedDb > 0.0 && 6 <= cfg.lockSymbols }

  /**
   * Whatever two such radios put on the air, at whatever times and levels: if the frames overlap at a
   * receiver, no single rescue stage saves both.
   */
  lemma {:induction false} ControllerNeverSavesBoth(cfg: Config,
                                                    phyA: LoraAirtime.Phy, lenA: nat, startA: nat, snrA: real,
                                                    phyB: LoraAirtime.Phy, lenB: nat, startB: nat, snrB: real)
    requires Thresholds(cfg)
    requires SlowRadio(phyA) && 6 <= phyA.preamble && SlowRadio(phyB) && 6 <= phyB.preamble
    requires phyA.sf == phyB.sf
    ensures LoraAirtime.EstAirtime(phyA, lenA) >= 0 && LoraAirtime.EstAirtime(phyB, lenB) >= 0
    ensures var a, b := Frame(phyA, lenA, startA, snrA), Frame(phyB, lenB, startB, snrB);
            a.end < WORD64 && b.end < WORD64 && Overlap(a, b)
            && Evaluate(cfg, a, b).survived && Evaluate(cfg, b, a).survived
            ==> Evaluate(cfg, a, b).reason != Evaluate(cfg, b, a).reason
  {
    FramesOutlastPreamble(cfg, phyA, lenA, startA, snrA);
    FramesOutlastPreamble(cfg, phyB, lenB, startB, snrB);
    hide LoraAirtime.EstAirtime, LoraAirtime.SymbolMs, OutlastsPreamble, LockTime;
    var a, b := Frame(phyA, lenA, startA, snrA), Frame(phyB, lenB, startB, snrB);
    if a.end < WORD64 && b.end < WORD64 && Overlap(a, b) {
      LocksLater(cfg, a);
      LocksLater(cfg, b);
      NoStageSavesBoth(cfg, a, b);
    }
  }

  lemma {:induction false} AirtimeCounts(phy: LoraAirtime.Phy, len: nat)
    requires LoraAirtime.Settable(phy)
    ensures LoraAirtime.EstAirtime(phy, len) >= 0 && LoraAirtime.SymbolMs(phy) > 0.0
  {
    LoraAirtime.RadioInSymbols(phy, len);
    LoraAirtime.SymbolsPositive(phy, len);
    LoraAirtime.SymbolTimePositive(phy.sf, phy.bwHz);
    LoraAirtime.ProductBound(0.0, 0.0, LoraAirtime.Symbols(phy, len), LoraAirtime.SymbolMs(phy));
  }

  lemma {:induction false} FrameGrace(cfg: Config, phy: LoraAirtime.Phy, len: nat)
    requires LoraAirtime.Settable(phy) && LoraAirtime.EstAirtime(phy, len) >= 0 && 6 <= cfg.lockSymbols
    ensures GraceInPreamble(cfg, Frame(phy, len, 0, 0.0))
  {
    hide LoraAirtime.EstAirtime, LoraAirtime.SymbolTime;
    LoraAirtime.SymbolTimePositive(phy.sf, phy.bwHz);
    LoraAirtime.RealMonotone((phy.preamble - cfg.lockSymbols) as real, phy.preamble as real + 4.25,
                             LoraAirtime.SymbolMs(phy));
  }

  /**
   * For any two radios whatever their bandwidth: the decision can save both of their frames for the same
   * reason, at some times and levels, exactly when the frames fit each other's graces or one is repaired
   * inside the other. For radios with symbols as long as up to 500 kHz it never can.
   */
  lemma {:induction false} ControllerSavesBothIff(cfg: Config, phyA: LoraAirtime.Phy, lenA: nat,
                                                  phyB: LoraAirtime.Phy, lenB: nat)
    requires Thresholds(cfg) && LoraAirtime.Settable(phyA) && LoraAirtime.Settable(phyB) && phyA.sf == phyB.sf
    ensures LoraAirtime.EstAirtime(phyA, lenA) >= 0 && LoraAirtime.EstAirtime(phyB, lenB) >= 0
    ensures LoraAirtime.EstAirtime(phyA, lenA) < WORD64 && LoraAirtime.EstAirtime(phyB, lenB) < WORD64 ==>
              var a, b := Frame(phyA, lenA, 0, 0.0), Frame(phyB, lenB, 0, 0.0);
              && ((exists s: nat, t: nat, x: real, y: real ::
                     SavedBy(cfg, Frame(phyA, lenA, s, x), Frame(phyB, lenB, t, y)))
                  <==> GraceFits(cfg, a, b) || RepairDecides(cfg, a, b) || RepairDecides(cfg, b, a))
              && (SlowRadio(phyA) && SlowRadio(phyB) && 6 <= phyA.preamble && 6 <= phyB.preamble ==>
                    !GraceFits(cfg, a, b) && !RepairDecides(cfg, a, b) && !RepairDecides(cfg, b, a))
  {
    hide LoraAirtime.EstAirtime, LoraAirtime.SymbolMs, GraceFits, RepairFits, SavedBy, RepairDecides;
    hide GraceInPreamble, OutlastsPreamble;
    AirtimeCounts(phyA, lenA);
    AirtimeCounts(phyB, lenB);
    if LoraAirtime.EstAirtime(phyA, lenA) < WORD64 && LoraAirtime.EstAirtime(phyB, lenB) < WORD64 {
      var a, b := Frame(phyA, lenA, 0, 0.0), Frame(phyB, lenB, 0, 0.0);
      FrameGrace(cfg, phyA, lenA);
      FrameGrace(cfg, phyB, lenB);
      OneStageSavesBothIff(cfg, a, b);
      assert forall s: nat, x: real :: Received(a, s, x) == Frame(phyA, lenA, s, x);
      assert forall t: nat, y: real :: Received(b, t, y) == Frame(phyB, lenB, t, y);
      if SlowRadio(phyA) && SlowRadio(phyB) && 6 <= phyA.preamble && 6 <= phyB.preamble {
        FramesOutlastPreamble(cfg, phyA, lenA, 0, 0.0);
        FramesOutlastPreamble(cfg, phyB, lenB, 0, 0.0);
        OutlastingNeverFit(cfg, a, b);
      }
    }
  }

  /**
   * The bandwidth matters: at SF5 and 1.25 MHz, which the setters accept, one byte takes 0 ms and its
   * preamble rounds to nothing. Sent 6 ms into a frame of 100 bytes and received half the unlocked
   * threshold louder, both are repaired.
   */
  lemma {:induction false} FastRadiosSaveBoth(cfg: Config)
    requires Thresholds(cfg)
    ensures var phy := LoraAirtime.Phy(5, 1250000, 7, 6);
            && LoraAirtime.EstAirtime(phy, 1) == 0 && LoraAirtime.EstAirtime(phy, 100) == 7
            && !OutlastsPreamble(cfg, Frame(phy, 1, 0, 0.0))
            && var a, b := Frame(phy, 100, 0, 0.0), Frame(phy, 1, 6, cfg.unlockedDb / 2.0);
               Overlap(a, b) && Evaluate(cfg, a, b) == FEC && Evaluate(cfg, b, a) == FEC
  {
    hide LoraAirtime.RadioMs, LoraAirtime.SymbolTime, LoraAirtime.CeilDiv;
    var phy := LoraAirtime.Phy(5, 1250000, 7, 6);
    FastSymbol();
    assert LoraAirtime.SymbolMs(phy) == 0.0256;
    LoraAirtime.RadioInSymbols(phy, 1);
    LoraAirtime.RadioInSymbols(phy, 100);
    LoraAirtime.CeilDivBound(6, 5, 2);
    LoraAirtime.CeilDivBound(6, 5, 1);
    LoraAirtime.CeilDivBound(204, 5, 41);
    LoraAirtime.CeilDivBound(204, 5, 40);
    assert LoraAirtime.Symbols(phy, 1) == 34.25;
    assert LoraAirtime.Symbols(phy, 100) == 307.25;
    FastVerdicts(cfg, Frame(phy, 100, 0, 0.0), Frame(phy, 1, 6, cfg.unlockedDb / 2.0));
  }

  lemma {:induction false} FastVerdicts(cfg: Config, a: Signal, b: Signal)
    requires Thresholds(cfg)
    requires a == Signal(0.0, 0, 7, 7, 6, 0.0256, 0.2624, 5)
    requires b == Signal(cfg.unlockedDb / 2.0, 6, 6, 7, 6, 0.0256, 0.2624, 5)
    ensures Evaluate(cfg, a, b) == FEC && Evaluate(cfg, b, a) == FEC
  {
    assert GraceMs(cfg, a) <= 0.0 && GraceMs(cfg, b) <= 0.0;
    LocksLater(cfg, b);
    assert Threshold(cfg, a, b) >= 0.0 && Threshold(cfg, b, a) == cfg.unlockedDb;
    assert OverlapMs(a, b) == 0 && OverlapMs(b, a) == 0;
    assert LRound(0.2624) == 0;
  }

  lemma {:induction false} FastSymbol()
    ensures LoraAirtime.SymbolTime(5, 1250000) == 0.0256
  {
    LoraAirtime.SymbolTimeClosedForm(5, 1250000);
    assert Pow2(5) == 32;
  }
}
