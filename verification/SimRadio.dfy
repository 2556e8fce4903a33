/** The radio's view of a busy channel: receptions in progress, heard preambles, and queued packets. */
module SimRadio {

  /** Busy from `from` up to, but not including, `until`. */
  datatype Window = Window(from: nat, until: nat)

  function Max(a: nat, b: nat): nat { if a >= b then a else b }

  predicate Covers(w: Window, now: nat) { w.from <= now < w.until }

  ghost predicate Busy(ws: seq<Window>, now: nat) { exists w :: w in ws && Covers(w, now) }

  /** The latest end of any window. */
  function LastUntil(ws: seq<Window>): nat {
    if ws == [] then 0 else Max(LastUntil(ws[..|ws| - 1]), ws[|ws| - 1].until)
  }

  /** Once all windows have opened, the channel is busy exactly until the last of them closes. */
  lemma {:induction false} BusyUntilLast(ws: seq<Window>, now: nat)
    requires forall w | w in ws :: w.from <= now
    ensures Busy(ws, now) <==> now < LastUntil(ws)
  {
    if ws != [] {
      var init, last := ws[..|ws| - 1], ws[|ws| - 1];
      assert ws == init + [last];
      BusyUntilLast(init, now);
      assert last in ws;
      if Busy(init, now) {
        var w :| w in init && Covers(w, now);
        assert w in ws;
      }
    }
  }

  /**
   * What forgetting closed windows leaves: everything forgotten has closed by `clock`, so at no time
   * from then on does the answer change.
   */
  ghost predicate Remembers(kept: seq<Window>, all: seq<Window>, clock: nat) {
    (forall w | w in kept :: w in all) && (forall w | w in all :: w in kept || w.until <= clock)
  }

  lemma {:induction false} RemembersAnswer(kept: seq<Window>, all: seq<Window>, clock: nat, now: nat)
    requires Remembers(kept, all, clock) && clock <= now
    ensures Busy(kept, now) <==> Busy(all, now)
  {
    if Busy(kept, now) {
      var w :| w in kept && Covers(w, now);
      assert w in all;
    }
    if Busy(all, now) {
      var w :| w in all && Covers(w, now);
      assert w in kept;
    }
  }

  lemma {:induction false} RemembersLater(kept: seq<Window>, all: seq<Window>, clock: nat, now: nat)
    requires Remembers(kept, all, clock) && clock <= now
    ensures Remembers(kept, all, now)
  {}

  lemma {:induction false} OneMoreReception(ws: seq<Window>, w: Window)
    ensures LastUntil(ws + [w]) == Max(LastUntil(ws), w.until)
    ensures forall x :: x in ws + [w] <==> x in ws || x == w
  {
    assert (ws + [w])[..|ws|] == ws;
  }

  class SimRadio {
    var rxActiveUntil: nat
    var earliestTx: nat
    var earliestRx: nat
    var windows: seq<Window>
    var queued: nat
    var transmitting: bool
    const turnaround: nat

    /** Every reception and every detectable busy window so far, none forgotten. */
    ghost var receptions: seq<Window>
    ghost var heard: seq<Window>
    /** The last time the clock was read. */
    ghost var clock: nat

    ghost predicate Valid()
      reads this
    {
      && rxActiveUntil == LastUntil(receptions)
      && (forall w | w in receptions :: w.from <= clock)
      && Remembers(windows, heard, clock)
      && (earliestTx == 0 || earliestTx == rxActiveUntil + turnaround)
    }

    constructor (turnaround: nat)
      ensures Valid() && receptions == [] && heard == [] && clock == 0 && queued == 0 && !transmitting
    {
      rxActiveUntil, earliestTx, earliestRx, windows := 0, 0, 0, [];
      queued, transmitting, receptions, heard, clock := 0, false, [], [], 0;
      this.turnaround := turnaround;
    }

    /** A reception that outlasts all others also puts off the next transmission by the turnaround. */
    method NotifyRxStart(now: nat, duration: nat)
      requires Valid() && clock <= now
      modifies this
      ensures Valid() && clock == now
      ensures receptions == old(receptions) + [Window(now, now + duration)]
      ensures earliestTx == if now + duration > old(rxActiveUntil) then now + duration + turnaround else old(earliestTx)
      ensures heard == old(heard) && queued == old(queued) && transmitting == old(transmitting)
      ensures earliestRx == old(earliestRx)
    {
      hide LastUntil, Remembers;
      var newUntil := now + duration;
      OneMoreReception(receptions, Window(now, newUntil));
      RemembersLater(windows, heard, clock, now);
      receptions := receptions + [Window(now, newUntil)];
      clock := now;
      if newUntil > rxActiveUntil {
        rxActiveUntil := newUntil;
        earliestTx := newUntil + turnaround;
      }
    }

    /** Only a preamble still on the air when the radio becomes ready can be heard, and only from then on. */
    method NotifyChannelBusy(from: nat, until: nat)
      requires Valid()
      modifies `windows, `heard
      ensures Valid()
      ensures forall t :: Busy(heard, t) <==> Busy(old(heard), t) || (earliestRx <= t && Covers(Window(from, until), t))
    {
      var detectionStart := Max(from, earliestRx);
      if detectionStart >= until {
        return;
      }
      ghost var before := heard;
      var w := Window(detectionStart, until);
      windows := windows + [w];
      heard := heard + [w];
      assert forall x :: x in heard <==> x in before || x == w;
      forall t
        ensures Busy(heard, t) <==> Busy(before, t) || Covers(w, t)
      {
        if Busy(before, t) {
          var x :| x in before && Covers(x, t);
          assert x in heard;
        }
        assert w in heard;
      }
    }

    method ResetHardwareDelays()
      requires Valid()
      modifies `earliestTx, `earliestRx
      ensures Valid() && earliestTx == 0 && earliestRx == 0
    {
      earliestTx, earliestRx := 0, 0;
    }

    method Enqueue()
      requires Valid()
      modifies `queued
      ensures Valid() && queued == old(queued) + 1
    {
      queued := queued + 1;
    }

    /**
     * Although closed windows are erased on the way, the answer is the one the whole history gives: a
     * radio that is not transmitting receives when a packet is queued, a reception is on, or a heard
     * window covers this instant.
     */
    method IsReceiving(now: nat) returns (r: bool)
      requires Valid() && clock <= now
      modifies `windows, `clock
      ensures Valid() && clock == now
      ensures r <==> !transmitting && (queued > 0 || Busy(receptions, now) || Busy(heard, now))
    {
      BusyUntilLast(receptions, now);
      RemembersAnswer(windows, heard, clock, now);
      clock := now;
      if transmitting {
        return false;
      }
      if now < rxActiveUntil {
        return true;
      }
      var busy, kept := SweepWindows(windows, now);
      windows := kept;
      r := busy || queued > 0;
    }
  }

  lemma {:induction false} EraseAt<T>(s: seq<T>, i: nat)
    requires i < |s|
    ensures forall x | x in s && x != s[i] :: x in s[..i] + s[i + 1..]
    ensures forall x | x in s[..i] + s[i + 1..] :: x in s
  {
    assert s == s[..i] + [s[i]] + s[i + 1..];
  }

  /** Drops the closed windows and looks whether one of the others has opened. */
  method SweepWindows(ws: seq<Window>, now: nat) returns (busy: bool, kept: seq<Window>)
    ensures forall w :: w in kept <==> w in ws && now < w.until
    ensures busy <==> Busy(ws, now)
  {
    busy, kept := false, ws;
    var i := 0;
    while i < |kept|
      invariant 0 <= i <= |kept|
      invariant forall w | w in kept :: w in ws
      invariant forall k | 0 <= k < i :: now < kept[k].until
      invariant forall w | w in ws && now < w.until :: w in kept
      invariant busy ==> Busy(ws, now)
      invariant !busy ==> forall k | 0 <= k < i :: !Covers(kept[k], now)
      decreases |kept| - i
    {
      var w := kept[i];
      if now >= w.until {
        EraseAt(kept, i);
        kept := kept[..i] + kept[i + 1..];
      } else {
        if now >= w.from {
          assert w in ws && Covers(w, now);
          busy := true;
        }
        i := i + 1;
      }
    }
  }
}
