/**
 * What one tick of a scripted node means: every due timer fires, recurring ones as often as they
 * are behind, while the callbacks arm and cancel timers of their own.
 */
module ScriptedSpec {
  import Numerals
  import opened Ticks
  import opened TimerSpec

  datatype ScriptCall = AfterCall(delay: nat) | EveryCall(period: nat) | CancelCall(h: TimerHandle)

  /** `wall` converts node milliseconds to wall milliseconds. A period is truncated, its first delay is not. */
  function Effect(s: Schedule, now: nat, wall: nat -> nat, c: ScriptCall): Schedule {
    match c
    case AfterCall(delay) => Arm(s, now + wall(delay), 0)
    case EveryCall(period) => Arm(s, now + wall(period), wall(period) % Numerals.WORD32)
    case CancelCall(h) => Cancel(s, h)
  }

  function Effects(s: Schedule, now: nat, wall: nat -> nat, calls: seq<ScriptCall>): Schedule {
    if calls == [] then s
    else Effect(Effects(s, now, wall, calls[..|calls| - 1]), now, wall, calls[|calls| - 1])
  }

  /** The schedule after the firings `fired`, each followed by its callback's calls. */
  function Settled(s: Schedule, now: nat, wall: nat -> nat, script: seq<seq<ScriptCall>>,
                   fired: seq<TimerEntry>): Schedule {
    if fired == [] then s
    else
      var n := |fired| - 1;
      Effects(Fire(Settled(s, now, wall, script, fired[..n]), fired[n]), now, wall, CallsOf(script, n))
  }

  /** The k-th firing is due and is an earliest live entry after the first k firings. */
  ghost predicate FiringAt(s: Schedule, now: nat, wall: nat -> nat, script: seq<seq<ScriptCall>>,
                           fired: seq<TimerEntry>, k: nat)
    requires k < |fired|
  {
    Earliest(Settled(s, now, wall, script, fired[..k]), fired[k]) && fired[k].deadline <= now
  }

  ghost predicate TickFirings(s: Schedule, now: nat, wall: nat -> nat, script: seq<seq<ScriptCall>>,
                              fired: seq<TimerEntry>) {
    forall k {:trigger FiringAt(s, now, wall, script, fired, k)} | 0 <= k < |fired| ::
      FiringAt(s, now, wall, script, fired, k)
  }

  /** A whole tick. */
  ghost predicate Tick(s: Schedule, now: nat, wall: nat -> nat, script: seq<seq<ScriptCall>>,
                       fired: seq<TimerEntry>, s': Schedule)
  {
    && TickFirings(s, now, wall, script, fired)
    && s' == Settled(s, now, wall, script, fired)
    && NoneDue(s', now)
  }

  lemma {:induction false} ExtendTick(s: Schedule, now: nat, wall: nat -> nat, script: seq<seq<ScriptCall>>,
                                      fired: seq<TimerEntry>, e: TimerEntry)
    requires TickFirings(s, now, wall, script, fired)
    requires Earliest(Settled(s, now, wall, script, fired), e) && e.deadline <= now
    ensures TickFirings(s, now, wall, script, fired + [e])
    ensures Settled(s, now, wall, script, fired + [e])
         == Effects(Fire(Settled(s, now, wall, script, fired), e), now, wall, CallsOf(script, |fired|))
  {
    var longer := fired + [e];
    assert longer[..|fired|] == fired;
    forall k | 0 <= k < |longer|
      ensures FiringAt(s, now, wall, script, longer, k)
    {
      if k < |fired| {
        assert FiringAt(s, now, wall, script, fired, k);
        assert longer[..k] == fired[..k];
      }
    }
  }

  lemma {:induction false} EffectsSound(s: Schedule, now: nat, wall: nat -> nat, calls: seq<ScriptCall>)
    requires Sound(s)
    ensures Sound(Effects(s, now, wall, calls))
  {
    if calls != [] {
      EffectsSound(s, now, wall, calls[..|calls| - 1]);
    }
  }

  // ----- order -----------------------------------------------------------------

  ghost predicate AllAtLeast(s: Schedule, floor: nat) {
    forall h <- s.live :: floor <= s.live[h].deadline
  }

  lemma {:induction false} EffectsKeepFloor(s: Schedule, now: nat, wall: nat -> nat, calls: seq<ScriptCall>, floor: nat)
    requires AllAtLeast(s, floor) && floor <= now
    ensures AllAtLeast(Effects(s, now, wall, calls), floor)
  {
    if calls != [] {
      EffectsKeepFloor(s, now, wall, calls[..|calls| - 1], floor);
    }
  }

  lemma {:induction false} AdjacentFirings(s: Schedule, now: nat, wall: nat -> nat, script: seq<seq<ScriptCall>>,
                                           fired: seq<TimerEntry>, k: nat)
    requires TickFirings(s, now, wall, script, fired) && k + 1 < |fired|
    ensures fired[k].deadline <= fired[k + 1].deadline
  {
    assert fired[..k + 1][..k] == fired[..k];
    var before := Settled(s, now, wall, script, fired[..k]);
    assert FiringAt(s, now, wall, script, fired, k);
    assert AllAtLeast(Fire(before, fired[k]), fired[k].deadline);
    EffectsKeepFloor(Fire(before, fired[k]), now, wall, CallsOf(script, k), fired[k].deadline);
    assert FiringAt(s, now, wall, script, fired, k + 1);
  }

  /** One tick fires in nondecreasing order of deadlines, none later than the tick. */
  lemma {:induction false} TickOrdered(s: Schedule, now: nat, wall: nat -> nat, script: seq<seq<ScriptCall>>,
                                       fired: seq<TimerEntry>, i: nat, j: nat)
    requires TickFirings(s, now, wall, script, fired) && i <= j < |fired|
    ensures fired[i].deadline <= fired[j].deadline <= now
  {
    forall k | 0 <= k < |fired| - 1
      ensures fired[k].deadline <= fired[k + 1].deadline
    {
      AdjacentFirings(s, now, wall, script, fired, k);
    }
    Ordered(seq(|fired|, k requires 0 <= k < |fired| => fired[k].deadline), i, j);
    assert FiringAt(s, now, wall, script, fired, j);
  }

  // ----- catching up -------------------------------------------------------------

  ghost predicate SparesCalls(calls: seq<ScriptCall>, h: TimerHandle) {
    forall i | 0 <= i < |calls| :: calls[i] != CancelCall(h)
  }

  /** No callback of the tick cancels `h`. */
  ghost predicate Spares(script: seq<seq<ScriptCall>>, h: TimerHandle) {
    forall k | 0 <= k < |script| :: SparesCalls(script[k], h)
  }

  /** A timer that a callback does not cancel is untouched: new timers get new handles. */
  lemma {:induction false} EffectsLeaveAlone(s: Schedule, now: nat, wall: nat -> nat, calls: seq<ScriptCall>,
                                             h: TimerHandle)
    requires SparesCalls(calls, h) && h < s.next
    ensures var s' := Effects(s, now, wall, calls);
            && h < s'.next
            && (h in s'.live <==> h in s.live)
            && (h in s.live ==> s'.live[h] == s.live[h])
  {
    if calls != [] {
      EffectsLeaveAlone(s, now, wall, calls[..|calls| - 1], h);
      assert calls[|calls| - 1] != CancelCall(h);
    }
  }

  ghost function TimesFired(fired: seq<TimerEntry>, h: TimerHandle): nat {
    if fired == [] then 0
    else TimesFired(fired[..|fired| - 1], h) + if fired[|fired| - 1].handle == h then 1 else 0
  }

  /** Where a timer armed at (d, p) stands after n firings, all of them due at `now`. */
  ghost predicate Standing(s: Schedule, h: TimerHandle, d: nat, p: nat, n: nat, now: nat) {
    && h < s.next
    && (n > 0 ==> d + (n - 1) * p <= now)
    && (if p > 0 || n == 0 then h in s.live && s.live[h] == Timer(d + n * p, p)
        else n == 1 && h !in s.live)
  }

  lemma {:induction false} Progress(s: Schedule, now: nat, wall: nat -> nat, script: seq<seq<ScriptCall>>,
                                    fired: seq<TimerEntry>, k: nat, h: TimerHandle)
    requires TickFirings(s, now, wall, script, fired) && k <= |fired|
    requires Spares(script, h) && h in s.live && h < s.next
    ensures Standing(Settled(s, now, wall, script, fired[..k]), h, s.live[h].deadline, s.live[h].period,
                     TimesFired(fired[..k], h), now)
  {
    if k != 0 {
      Progress(s, now, wall, script, fired, k - 1, h);
      assert fired[..k][..k - 1] == fired[..k - 1] && fired[..k][k - 1] == fired[k - 1];
      assert FiringAt(s, now, wall, script, fired, k - 1);
      var before, e := Settled(s, now, wall, script, fired[..k - 1]), fired[k - 1];
      var d, p, n := s.live[h].deadline, s.live[h].period, TimesFired(fired[..k - 1], h);
      FireStanding(before, e, h, d, p, n, now);
      EffectsLeaveAlone(Fire(before, e), now, wall, CallsOf(script, k - 1), h);
    }
  }

  lemma {:induction false} FireStanding(s: Schedule, e: TimerEntry, h: TimerHandle, d: nat, p: nat, n: nat, now: nat)
    requires Standing(s, h, d, p, n, now) && Earliest(s, e) && e.deadline <= now
    ensures Standing(Fire(s, e), h, d, p, if e.handle == h then n + 1 else n, now)
  {
    if e.handle == h {
      assert (n + 1) * p == n * p + p;
    }
  }

  /**
   * One tick catches up exactly. A recurring timer with deadline d <= now and period p fires
   * (now - d) / p + 1 times, at d, d + p, d + 2p, ..., and is left with the first later deadline
   * on its beat, in (now, now + p]. A one-shot that is due fires once and is gone. A timer that
   * is not due keeps its deadline. All of this whatever the callbacks do, short of cancelling it.
   */
  lemma {:induction false} CatchesUp(s: Schedule, now: nat, wall: nat -> nat, script: seq<seq<ScriptCall>>,
                                     fired: seq<TimerEntry>, s': Schedule, h: TimerHandle)
    requires Tick(s, now, wall, script, fired, s')
    requires Spares(script, h) && h in s.live && h < s.next
    ensures var d, p, n := s.live[h].deadline, s.live[h].period, TimesFired(fired, h);
            && (d > now ==> n == 0)
            && (d <= now && p == 0 ==> n == 1 && h !in s'.live)
            && (d <= now && p > 0 ==> n == (now - d) / p + 1)
            && (d > now || p > 0 ==> h in s'.live && s'.live[h] == Timer(d + n * p, p))
            && (d <= now && p > 0 ==> now < s'.live[h].deadline <= now + p)
  {
    hide Settled, TickFirings, TimesFired;
    Progress(s, now, wall, script, fired, |fired|, h);
    assert fired[..|fired|] == fired;
    var d, p, n := s.live[h].deadline, s.live[h].period, TimesFired(fired, h);
    if n > 0 {
      ProductNonNegative(n - 1, p);
      assert (n - 1) * p + p == n * p;
      if d <= now && p > 0 {
        CountFromBounds(now - d, p, n - 1);
      }
    }
  }

  lemma {:induction false} ProductNonNegative(a: nat, b: nat)
    ensures a * b >= 0
  {}

  lemma {:induction false} ProductMonotone(a: nat, b: nat, p: nat)
    requires a <= b
    ensures a * p <= b * p
  {}

  lemma {:induction false} CountFromBounds(x: nat, p: nat, m: nat)
    requires p > 0 && m * p <= x < m * p + p
    ensures x / p == m
  {
    var q := x / p;
    assert x == q * p + x % p;
    if q < m {
      ProductMonotone(q + 1, m, p);
    } else if m < q {
      ProductMonotone(m + 1, q, p);
    }
  }

  /** Within a tick, the firing that follows n firings of a timer comes exactly n periods after its deadline. */
  lemma {:induction false} FiringOnBeat(s: Schedule, now: nat, wall: nat -> nat, script: seq<seq<ScriptCall>>,
                                        fired: seq<TimerEntry>, k: nat, h: TimerHandle)
    requires TickFirings(s, now, wall, script, fired) && k < |fired| && fired[k].handle == h
    requires Spares(script, h) && h in s.live && h < s.next
    ensures fired[k].deadline == s.live[h].deadline + TimesFired(fired[..k], h) * s.live[h].period
    ensures fired[k].period == s.live[h].period
  {
    Progress(s, now, wall, script, fired, k, h);
    assert FiringAt(s, now, wall, script, fired, k);
  }

  /** A timer that `every` arms, when its period fits 32 bits, fires once a period from then on, at every tick. */
  lemma {:induction false} EveryKeepsFiring(s: Schedule, now: nat, period: nat, t: nat, wall: nat -> nat,
                                            script: seq<seq<ScriptCall>>, fired: seq<TimerEntry>, s': Schedule)
    requires Sound(s) && s.next !in s.dead && 1 <= wall(period) < Numerals.WORD32
    requires Tick(Effect(s, now, wall, EveryCall(period)), t, wall, script, fired, s')
    requires Spares(script, s.next)
    ensures var w, h := wall(period), s.next;
            && h in s'.live && s'.live[h].period == w
            && (t < now + w ==> TimesFired(fired, h) == 0 && s'.live[h].deadline == now + w)
            && (t >= now + w ==> TimesFired(fired, h) == (t - now) / w && t < s'.live[h].deadline <= t + w)
  {
    hide Tick, TimesFired;
    var w := wall(period);
    CatchesUp(Effect(s, now, wall, EveryCall(period)), t, wall, script, fired, s', s.next);
    if t >= now + w {
      OneFewer(t - now, w);
    }
  }

  /** A timer that `after` arms fires once, at the first tick from its deadline on, and is gone. */
  lemma {:induction false} AfterFiresOnce(s: Schedule, now: nat, delay: nat, t: nat, wall: nat -> nat,
                                          script: seq<seq<ScriptCall>>, fired: seq<TimerEntry>, s': Schedule)
    requires Sound(s) && s.next !in s.dead
    requires Tick(Effect(s, now, wall, AfterCall(delay)), t, wall, script, fired, s')
    requires Spares(script, s.next)
    ensures var d, h := now + wall(delay), s.next;
            && (t < d ==> TimesFired(fired, h) == 0 && h in s'.live && s'.live[h] == Timer(d, 0))
            && (t >= d ==> TimesFired(fired, h) == 1 && h !in s'.live)
  {
    hide Tick, TimesFired;
    CatchesUp(Effect(s, now, wall, AfterCall(delay)), t, wall, script, fired, s', s.next);
  }

  // ----- termination ---------------------------------------------------------------

  /** How many firings timer `h` owes at `now`. */
  ghost function Owed(s: Schedule, h: TimerHandle, now: nat): nat {
    if h !in s.live || s.live[h].deadline > now then 0
    else if s.live[h].period == 0 then 1
    else (now - s.live[h].deadline) / s.live[h].period + 1
  }

  ghost function TotalOwed(s: Schedule, n: nat, now: nat): nat {
    if n == 0 then 0 else TotalOwed(s, n - 1, now) + Owed(s, n - 1, now)
  }

  lemma {:induction false} FiringPaysOne(s: Schedule, e: TimerEntry, now: nat)
    requires Earliest(s, e) && e.deadline <= now
    ensures Owed(Fire(s, e), e.handle, now) + 1 == Owed(s, e.handle, now)
    ensures forall h | h != e.handle :: Owed(Fire(s, e), h, now) == Owed(s, h, now)
  {
    if e.period > 0 {
      OneFewer(now - e.deadline, e.period);
    }
  }

  lemma {:induction false} OneFewer(x: nat, p: nat)
    requires p > 0
    ensures x >= p ==> x / p == (x - p) / p + 1
    ensures x < p ==> x / p == 0
  {
    if x >= p {
      var q, r := (x - p) / p, (x - p) % p;
      assert x == (q + 1) * p + r by { assert q * p + p == (q + 1) * p; }
      CountFromBounds(x, p, q + 1);
    } else {
      CountFromBounds(x, p, 0);
    }
  }

  lemma {:induction false} TotalPaysOne(s: Schedule, e: TimerEntry, n: nat, now: nat)
    requires Earliest(s, e) && e.deadline <= now
    ensures TotalOwed(s, n, now) == TotalOwed(Fire(s, e), n, now) + if e.handle < n then 1 else 0
  {
    if n != 0 {
      TotalPaysOne(s, e, n - 1, now);
      FiringPaysOne(s, e, now);
    }
  }

  // ----- tombstones ----------------------------------------------------------------

  /** The handles that calls cancel, in order, repeated and unissued ones included. */
  function Cancelled(calls: seq<ScriptCall>): seq<TimerHandle> {
    if calls == [] then []
    else
      var last := calls[|calls| - 1];
      Cancelled(calls[..|calls| - 1]) + if last.CancelCall? then [last.h] else []
  }

  lemma {:induction false} CancelledAppend(a: seq<ScriptCall>, b: seq<ScriptCall>)
    ensures Cancelled(a + b) == Cancelled(a) + Cancelled(b)
  {
    if b == [] {
      assert a + b == a;
    } else {
      var n := |b| - 1;
      assert (a + b)[..|a + b| - 1] == a + b[..n];
      CancelledAppend(a, b[..n]);
    }
  }

  lemma {:induction false} CancelledOne(c: ScriptCall)
    ensures Cancelled([c]) == if c.CancelCall? then [c.h] else []
  {
    assert [c][..0] == [];
  }

  /** All calls that the first n callbacks of a tick make. */
  function TickCalls(script: seq<seq<ScriptCall>>, n: nat): seq<ScriptCall> {
    if n == 0 then [] else TickCalls(script, n - 1) + CallsOf(script, n - 1)
  }

  function CancelCalls(calls: seq<ScriptCall>): set<nat> {
    set k: nat | k < |calls| && calls[k].CancelCall?
  }

  lemma {:induction false} CancelledCounted(calls: seq<ScriptCall>)
    ensures |Cancelled(calls)| == |CancelCalls(calls)|
  {
    if calls == [] {
      assert CancelCalls(calls) == {};
    } else {
      var n: nat := |calls| - 1;
      CancelledCounted(calls[..n]);
      assert CancelCalls(calls)
          == if calls[n].CancelCall? then CancelCalls(calls[..n]) + {n} else CancelCalls(calls[..n]);
    }
  }
}

/** The timer half of ScriptedNode, the Lua engine's node. */
module ScriptedTimers {
  import opened Wrappers
  import opened NodeClock
  import opened Ticks
  import opened TimerSpec
  import opened TimerWheel
  import opened ScriptedSpec

  class ScriptedNode {
    const timers: TimerWheel
    /** Node milliseconds to wall milliseconds at this node's crystal drift. */
    const toWall: nat -> nat

    /** Every call of the script so far. */
    ghost var called: seq<ScriptCall>

    ghost predicate Running()
      reads timers
    {
      timers.Valid() && Sound(timers.Abs())
    }

    /** The tombstones are exactly what the calls so far have cancelled. */
    ghost predicate Valid()
      reads this, timers
    {
      Running() && timers.cancelled == Cancelled(called)
    }

    ghost function Abs(): Schedule
      reads timers
      requires Running()
    {
      timers.Abs()
    }

    constructor (driftPpm: real)
      ensures Valid() && fresh(timers) && Abs() == EMPTY && called == []
      ensures forall d :: toWall(d) == WallDelay(d, driftPpm)
    {
      timers := new TimerWheel();
      toWall := d => WallDelay(d, driftPpm);
      called := [];
    }

    /** Notes a call in the history. */
    ghost method Note(c: ScriptCall)
      requires Running()
      requires timers.cancelled == Cancelled(called) + if c.CancelCall? then [c.h] else []
      modifies this`called
      ensures Valid() && Abs() == old(Abs()) && called == old(called) + [c]
    {
      CancelledAppend(called, [c]);
      CancelledOne(c);
      called := called + [c];
    }

    method ApiAfter(now: nat, delay: nat) returns (h: TimerHandle)
      requires Valid()
      modifies this`called, timers
      ensures Valid() && h == old(Abs()).next && Abs() == Effect(old(Abs()), now, toWall, AfterCall(delay))
      ensures h !in old(Abs()).live && (h in Abs().live <==> h !in old(timers.cancelled))
      ensures h in Abs().live ==> Abs().live == old(Abs()).live[h := Timer(now + toWall(delay), 0)]
      ensures called == old(called) + [AfterCall(delay)] && timers.cancelled == old(timers.cancelled)
    {
      h := timers.ScheduleAfter(now, toWall(delay), 0);
      Note(AfterCall(delay));
    }

    method ApiEvery(now: nat, period: nat) returns (h: TimerHandle)
      requires Valid()
      modifies this`called, timers
      ensures Valid() && h == old(Abs()).next && Abs() == Effect(old(Abs()), now, toWall, EveryCall(period))
      ensures h !in old(Abs()).live && (h in Abs().live <==> h !in old(timers.cancelled))
      ensures h in Abs().live ==> var w := toWall(period);
                && Abs().live == old(Abs()).live[h := Timer(now + w, w % Numerals.WORD32)]
                && (w < Numerals.WORD32 ==> Abs().live[h] == Timer(now + w, w))
      ensures called == old(called) + [EveryCall(period)] && timers.cancelled == old(timers.cancelled)
    {
      var wallPeriod := toWall(period);
      h := timers.ScheduleAfter(now, wallPeriod, wallPeriod % Numerals.WORD32);
      Note(EveryCall(period));
    }

    /** Every call leaves a tombstone, also for a handle cancelled before or never issued. */
    method ApiCancel(h: TimerHandle)
      requires Valid()
      modifies this`called, timers
      ensures Valid() && Abs() == Effect(old(Abs()), 0, toWall, CancelCall(h))
      ensures Abs().live == old(Abs()).live - {h} && Abs().next == old(Abs()).next
      ensures called == old(called) + [CancelCall(h)] && timers.cancelled == old(timers.cancelled) + [h]
    {
      timers.Cancel(h);
      Note(CancelCall(h));
    }

    /** The Lua callback of a firing: it makes these calls, in order. */
    method Callback(now: nat, calls: seq<ScriptCall>)
      requires Valid()
      modifies this`called, timers
      ensures Valid() && Abs() == Effects(old(Abs()), now, toWall, calls)
      ensures called == old(called) + calls && timers.cancelled == old(timers.cancelled) + Cancelled(calls)
    {
      hide Running, Abs, Cancelled;
      ghost var s := Abs();
      for i := 0 to |calls|
        invariant Valid() && Abs() == Effects(s, now, toWall, calls[..i])
        invariant called == old(called) + calls[..i]
      {
        assert calls[..i + 1][..i] == calls[..i];
        match calls[i] {
          case AfterCall(delay) => var _ := ApiAfter(now, delay);
          case EveryCall(period) => var _ := ApiEvery(now, period);
          case CancelCall(h) => ApiCancel(h);
        }
      }
      assert calls[..|calls|] == calls;
      CancelledAppend(old(called), calls);
    }

    /** One turn of the tick: the next firing, if one is due, and the calls of its callback. */
    method FireNext(now: nat, calls: seq<ScriptCall>) returns (e: Option<TimerEntry>)
      requires Valid()
      modifies this`called, timers
      ensures Valid()
      ensures e.None? ==> NoneDue(Abs(), now) && Abs() == old(Abs()) && called == old(called)
      ensures e.Some? ==>
                && Earliest(old(Abs()), e.value) && e.value.deadline <= now && Sound(old(Abs()))
                && Abs() == Effects(Fire(old(Abs()), e.value), now, toWall, calls)
                && called == old(called) + calls
    {
      e := timers.PopDue(now);
      if e.Some? {
        Callback(now, calls);
      }
    }

    /**
     * Fires everything due at `now`. The k-th callback makes the calls `script[k]`. The loop ends
     * because every firing uses up a callback of the script or, after its end, one owed firing.
     */
    method TickTimers(now: nat, script: seq<seq<ScriptCall>>) returns (fired: seq<TimerEntry>)
      requires Valid()
      modifies this`called, timers
      ensures Valid() && Tick(old(Abs()), now, toWall, script, fired, Abs())
      ensures called == old(called) + TickCalls(script, |fired|)
      ensures timers.cancelled == old(timers.cancelled) + Cancelled(TickCalls(script, |fired|))
    {
      hide Cancelled, Running, Abs, Settled, TickFirings, TotalOwed, Effects;
      ghost var s := Abs();
      fired := [];
      NothingFired(s, now, toWall, script);
      while true
        invariant Valid()
        invariant TickFirings(s, now, toWall, script, fired)
        invariant Abs() == Settled(s, now, toWall, script, fired)
        invariant called == old(called) + TickCalls(script, |fired|)
        decreases if |fired| < |script| then |script| - |fired| else 0, TotalOwed(Abs(), Abs().next, now)
      {
        ghost var before := Abs();
        var e := FireNext(now, CallsOf(script, |fired|));
        if e.None? {
          break;
        }
        ExtendTick(s, now, toWall, script, fired, e.value);
        OwesLess(before, e.value, now, toWall);
        fired := fired + [e.value];
      }
      CancelledAppend(old(called), TickCalls(script, |fired|));
    }
  }

  lemma {:induction false} NothingFired(s: Schedule, now: nat, wall: nat -> nat, script: seq<seq<ScriptCall>>)
    ensures TickFirings(s, now, wall, script, []) && Settled(s, now, wall, script, []) == s
  {}

  lemma {:induction false} OwesLess(s: Schedule, e: TimerEntry, now: nat, wall: nat -> nat)
    requires Sound(s) && Earliest(s, e) && e.deadline <= now
    ensures var s' := Effects(Fire(s, e), now, wall, []); TotalOwed(s', s'.next, now) < TotalOwed(s, s.next, now)
  {
    TotalPaysOne(s, e, s.next, now);
  }

  /** The tombstones of a scripted node are its cancel calls so far, whatever they cancel. */
  lemma {:induction false} TombstonesOfNode(node: ScriptedNode)
    requires node.Valid()
    ensures |node.timers.cancelled| == |CancelCalls(node.called)|
    ensures |node.timers.cancelled| <= 64 <==> |CancelCalls(node.called)| <= 64
  {
    CancelledCounted(node.called);
  }

  /** A script that cancels a handle it was never given 65 times leaves 65 tombstones and no timer. */
  method OverrunTombstones(driftPpm: real) returns (node: ScriptedNode)
    ensures node.Valid() && node.Abs().live == map[] && |node.timers.cancelled| == 65
  {
    node := new ScriptedNode(driftPpm);
    for i := 0 to 65
      invariant fresh(node) && fresh(node.timers) && node.Valid()
      invariant node.Abs().live == map[] && |node.timers.cancelled| == i
    {
      node.ApiCancel(1);
    }
  }
}
