/** Sliding-window airtime accounting over a log that forgets what it prunes. */
module AirtimeLog {

  datatype TxRec = TxRec(end: nat, airtime: nat)

  function Total(log: seq<TxRec>): nat {
    if log == [] then 0 else log[0].airtime + Total(log[1..])
  }

  /** The airtime of all transmissions that end after `cutoff`. */
  function SumAfter(log: seq<TxRec>, cutoff: int): nat {
    if log == [] then 0
    else (if log[0].end > cutoff then log[0].airtime else 0) + SumAfter(log[1..], cutoff)
  }

  /** The instant up to which a window ending at `now` forgets, saturating at 0. */
  function Cutoff(now: nat, window: nat): nat {
    if now > window then now - window else 0
  }

  /** Drop expired entries from the front, stopping at the first that has not expired. */
  function Prune(log: seq<TxRec>, cutoff: nat): seq<TxRec> {
    if log == [] || log[0].end > cutoff then log else Prune(log[1..], cutoff)
  }

  ghost predicate Sorted(log: seq<TxRec>) {
    forall i, j | 0 <= i < j < |log| :: log[i].end <= log[j].end
  }

  ghost predicate AllEndBy(log: seq<TxRec>, t: int) {
    forall i | 0 <= i < |log| :: log[i].end <= t
  }

  // ----- sums -------------------------------------------------------------------

  lemma {:induction false} SumAfterAppend(a: seq<TxRec>, b: seq<TxRec>, cutoff: int)
    ensures SumAfter(a + b, cutoff) == SumAfter(a, cutoff) + SumAfter(b, cutoff)
  {
    if a == [] {
      assert a + b == b;
    } else {
      assert (a + b)[0] == a[0] && (a + b)[1..] == a[1..] + b;
      SumAfterAppend(a[1..], b, cutoff);
    }
  }

  lemma {:induction false} TotalAppend(a: seq<TxRec>, b: seq<TxRec>)
    ensures Total(a + b) == Total(a) + Total(b)
  {
    if a == [] {
      assert a + b == b;
    } else {
      assert (a + b)[0] == a[0] && (a + b)[1..] == a[1..] + b;
      TotalAppend(a[1..], b);
    }
  }

  lemma {:induction false} SumAfterExpired(log: seq<TxRec>, t: int, cutoff: int)
    requires AllEndBy(log, t) && t <= cutoff
    ensures SumAfter(log, cutoff) == 0
  {
    if log != [] {
      SumAfterExpired(log[1..], t, cutoff);
    }
  }

  lemma {:induction false} SumAfterAtMostTotal(log: seq<TxRec>, cutoff: int)
    ensures SumAfter(log, cutoff) <= Total(log)
  {
    if log != [] {
      SumAfterAtMostTotal(log[1..], cutoff);
    }
  }

  lemma {:induction false} SumAfterAll(log: seq<TxRec>, cutoff: int)
    requires forall i | 0 <= i < |log| :: log[i].end > cutoff
    ensures SumAfter(log, cutoff) == Total(log)
  {
    if log != [] {
      SumAfterAll(log[1..], cutoff);
    }
  }

  /** A later cutoff counts no more. */
  lemma {:induction false} SumAfterAntitone(log: seq<TxRec>, c1: int, c2: int)
    requires c1 <= c2
    ensures SumAfter(log, c2) <= SumAfter(log, c1)
  {
    if log != [] {
      SumAfterAntitone(log[1..], c1, c2);
    }
  }

  // ----- pruning ------------------------------------------------------------------

  /** What a prune drops: the leading run of expired entries. */
  ghost function Dropped(log: seq<TxRec>, cutoff: nat): seq<TxRec> {
    if log == [] || log[0].end > cutoff then [] else [log[0]] + Dropped(log[1..], cutoff)
  }

  lemma {:induction false} PruneSplits(log: seq<TxRec>, cutoff: nat)
    ensures Dropped(log, cutoff) + Prune(log, cutoff) == log
    ensures AllEndBy(Dropped(log, cutoff), cutoff)
    ensures Prune(log, cutoff) != [] ==> Prune(log, cutoff)[0].end > cutoff
  {
    if log != [] && log[0].end <= cutoff {
      PruneSplits(log[1..], cutoff);
    }
  }

  /** A pruned log never under-reports what it still knows, and of a sorted log it reports exactly that. */
  lemma {:induction false} PruneTotal(log: seq<TxRec>, cutoff: nat)
    ensures SumAfter(log, cutoff) <= Total(Prune(log, cutoff))
    ensures Sorted(log) ==> SumAfter(log, cutoff) == Total(Prune(log, cutoff))
  {
    hide SumAfter, Total, Prune, Dropped;
    var dropped, kept := Dropped(log, cutoff), Prune(log, cutoff);
    PruneSplits(log, cutoff);
    SumAfterAppend(dropped, kept, cutoff);
    SumAfterExpired(dropped, cutoff, cutoff);
    SumAfterAtMostTotal(kept, cutoff);
    if Sorted(log) {
      forall i | 0 <= i < |kept|
        ensures kept[i].end > cutoff
      {
        assert kept[i] == log[|dropped| + i] && kept[0] == log[|dropped|];
      }
      SumAfterAll(kept, cutoff);
    }
  }

  lemma {:induction false} PruneTwice(log: seq<TxRec>, c1: nat, c2: nat)
    requires c1 <= c2
    ensures Prune(Prune(log, c1), c2) == Prune(log, c2)
  {
    if log != [] && log[0].end <= c1 {
      PruneTwice(log[1..], c1, c2);
    }
  }

  /** What a query with cutoff c reports of a history of which `pruned` had been forgotten before. */
  lemma {:induction false} QueryReport(pruned: seq<TxRec>, log: seq<TxRec>, gone: seq<TxRec>, highwater: nat, c: nat)
    requires AllEndBy(pruned, highwater)
    requires AllEndBy(gone, c)
    ensures var h, sum := pruned + log, Total(Prune(log, c));
            && AllEndBy(pruned + gone, if c > highwater then c else highwater)
            && SumAfter(pruned + gone, c) == SumAfter(pruned, c)
            && SumAfter(h, c) <= sum + SumAfter(pruned, c)
            && (c >= highwater ==> SumAfter(pruned, c) == 0)
            && (Sorted(h) ==> sum + SumAfter(pruned, c) == SumAfter(h, c))
  {
    PruneTotal(log, c);
    SumAfterAppend(pruned, log, c);
    SumAfterAppend(pruned, gone, c);
    SumAfterExpired(gone, c, c);
    if c >= highwater {
      SumAfterExpired(pruned, highwater, c);
    }
    if Sorted(pruned + log) {
      SortedSuffix(pruned, log);
    }
  }

  // ----- the deque ------------------------------------------------------------------

  /** The per-node transmission log of FirmwareNode and ScriptedNode. */
  class TxAirtimeLog {
    var log: seq<TxRec>
    /** Entries already forgotten, and the largest cutoff that ever pruned the log. */
    ghost var pruned: seq<TxRec>
    ghost var highwater: nat

    /** Everything ever recorded. */
    ghost function History(): seq<TxRec>
      reads this
    {
      pruned + log
    }

    ghost predicate Valid()
      reads this
    {
      AllEndBy(pruned, highwater)
    }

    constructor ()
      ensures Valid() && History() == [] && highwater == 0
    {
      log := [];
      pruned := [];
      highwater := 0;
    }

    method RecordTxAirtime(end: nat, airtime: nat)
      requires Valid()
      modifies this`log
      ensures Valid() && log == old(log) + [TxRec(end, airtime)]
      ensures History() == old(History()) + [TxRec(end, airtime)]
    {
      log := log + [TxRec(end, airtime)];
      assert History() == old(History()) + [TxRec(end, airtime)];
    }

    /** Drops the expired entries from the front. */
    method DropExpired(cutoff: nat) returns (ghost gone: seq<TxRec>)
      modifies this`log
      ensures log == Prune(old(log), cutoff) && gone + log == old(log) && AllEndBy(gone, cutoff)
    {
      gone := [];
      while log != [] && log[0].end <= cutoff
        invariant Prune(log, cutoff) == Prune(old(log), cutoff)
        invariant gone + log == old(log) && AllEndBy(gone, cutoff)
        decreases |log|
      {
        gone := gone + [log[0]];
        log := log[1..];
      }
    }

    method SumLog() returns (sum: nat)
      ensures sum == Total(log)
    {
      sum := 0;
      for i := 0 to |log|
        invariant sum == Total(log[..i])
      {
        assert log[..i + 1] == log[..i] + [log[i]];
        TotalAppend(log[..i], [log[i]]);
        sum := sum + log[i].airtime;
      }
      assert log[..|log|] == log;
    }

    /**
     * The pruned log never reports less than the whole history holds after the cutoff, and exactly
     * that if ends were recorded in order, for every cutoff not below an earlier one. Below it, the
     * report is exact if and only if no airtime after the cutoff has been forgotten.
     */
    method AirtimeUsedInWindow(now: nat, window: nat) returns (sum: nat)
      requires Valid()
      modifies this
      ensures Valid() && History() == old(History())
      ensures window == 0 ==> sum == 0 && log == old(log) && highwater == old(highwater)
      ensures window > 0 ==> log == Prune(old(log), Cutoff(now, window)) && sum == Total(log)
      ensures window > 0 ==> var c := Cutoff(now, window);
                && highwater == (if c > old(highwater) then c else old(highwater))
                && (c >= old(highwater) ==> sum >= SumAfter(History(), c))
                && (c >= old(highwater) && Sorted(History()) ==> sum == SumAfter(History(), c))
                && (Sorted(History()) ==> (sum == SumAfter(History(), c) <==> SumAfter(pruned, c) == 0))
    {
      hide SumAfter, Prune, Total, Sorted, AllEndBy;
      if window == 0 {
        return 0;
      }
      var cutoff := Cutoff(now, window);
      ghost var before := log;
      ghost var gone := DropExpired(cutoff);
      sum := SumLog();
      QueryReport(pruned, before, gone, highwater, cutoff);
      assert pruned + gone + log == pruned + before;
      pruned := pruned + gone;
      highwater := if cutoff > highwater then cutoff else highwater;
    }

    /**
     * Tells when the oldest entry leaves any window: after a query that keeps it, `end + window` is the
     * first time from which a query of that window forgets it. 0 when nothing is in the log.
     */
    method OldestTxEndMs() returns (end: nat)
      ensures log == [] ==> end == 0
      ensures log != [] ==> end == log[0].end
      ensures forall now: nat, window: nat, t: nat |
                log != [] && 0 < window && Prune(log, Cutoff(now, window)) == log && now <= t ::
                Prune(log, Cutoff(t, window)) == log <==> t < end + window
    {
      end := if |log| == 0 then 0 else log[0].end;
      forall now: nat, window: nat, t: nat |
          log != [] && 0 < window && Prune(log, Cutoff(now, window)) == log && now <= t
        ensures Prune(log, Cutoff(t, window)) == log <==> t < end + window
      {
        PruneKeeps(log, Cutoff(now, window));
        PruneKeeps(log, Cutoff(t, window));
      }
    }
  }

  /** A non-empty log survives a prune whole exactly when its oldest entry ends after the cutoff. */
  lemma {:induction false} PruneKeeps(log: seq<TxRec>, cutoff: nat)
    requires log != []
    ensures Prune(log, cutoff) == log <==> cutoff < log[0].end
  {
    PruneSplits(log, cutoff);
  }

  lemma {:induction false} SortedSuffix(a: seq<TxRec>, b: seq<TxRec>)
    requires Sorted(a + b)
    ensures Sorted(b)
  {
    forall i, j | 0 <= i < j < |b|
      ensures b[i].end <= b[j].end
    {
      assert (a + b)[|a| + i] == b[i] && (a + b)[|a| + j] == b[j];
    }
  }
}

/** The regulatory duty-cycle gate in front of a node's transmissions, over whole runs. */
module DutyGate {
  import opened AirtimeLog

  /** `duty` is the budget as a fraction of the window; out-of-range values switch the gate off. */
  datatype Limits = Limits(duty: real, window: nat)

  predicate Enforced(l: Limits) { 0.0 < l.duty <= 1.0 && l.window > 0 }

  function Budget(l: Limits): nat
    requires Enforced(l)
  {
    assert l.duty * l.window as real >= 0.0;
    (l.duty * l.window as real).Floor
  }

  datatype Outcome = Admitted(rec: TxRec) | Deferred(busyUntil: nat)

  /** The record of a transmission of `airtime` decided at `now`: it starts once the radio has turned around. */
  function RecordOf(now: nat, airtime: nat, earliestTx: nat): TxRec {
    TxRec((if now > earliestTx then now else earliestTx) + airtime, airtime)
  }

  function Expire(log: seq<TxRec>, now: nat, window: nat): seq<TxRec> {
    if window == 0 then log else Prune(log, Cutoff(now, window))
  }

  /** One transmit attempt: the log afterwards, and what became of the attempt. */
  function TryTx(log: seq<TxRec>, l: Limits, now: nat, airtime: nat, earliestTx: nat): (seq<TxRec>, Outcome) {
    var rec := RecordOf(now, airtime, earliestTx);
    if !Enforced(l) then (log + [rec], Admitted(rec))
    else
      var kept := Expire(log, now, l.window);
      if Total(kept) + airtime > Budget(l) then
        (kept, Deferred(if kept != [] && kept[0].end > 0 then kept[0].end + l.window else now))
      else (kept + [rec], Admitted(rec))
  }

  /** A whole number of milliseconds fits the rounded-down budget exactly when it fits the fraction itself. */
  lemma {:induction false} BudgetMeans(l: Limits, ms: nat)
    requires 0.0 < l.duty <= 1.0 && l.window > 0
    ensures ms <= Budget(l) <==> ms as real <= l.duty * l.window as real
  {}

  /**
   * Admits exactly when the airtime the log holds after the cutoff, and this one's, fit the fraction
   * `duty` of the window; a limit out of range admits everything. What it admits starts now or once the
   * radio has turned around; what it defers waits for the oldest record to leave, if there is one.
   */
  method Transmit(node: TxAirtimeLog, l: Limits, now: nat, airtime: nat, earliestTx: nat) returns (outcome: Outcome)
    requires node.Valid()
    modifies node
    ensures node.Valid()
    ensures (node.log, outcome) == TryTx(old(node.log), l, now, airtime, earliestTx)
    ensures node.History() == old(node.History()) + if outcome.Admitted? then [outcome.rec] else []
    ensures 0.0 < l.duty <= 1.0 && l.window > 0 ==>
              (outcome.Admitted? <==>
               (Total(Prune(old(node.log), Cutoff(now, l.window))) + airtime) as real <= l.duty * l.window as real)
    ensures 0.0 < l.duty <= 1.0 && l.window > 0 && Sorted(old(node.log)) ==>
              (outcome.Admitted? <==>
               (SumAfter(old(node.log), Cutoff(now, l.window)) + airtime) as real <= l.duty * l.window as real)
    ensures l.duty <= 0.0 || l.duty > 1.0 || l.window == 0 ==> outcome.Admitted?
    ensures outcome.Admitted? ==>
              && outcome.rec.airtime == airtime
              && outcome.rec.end >= now + airtime && outcome.rec.end >= earliestTx + airtime
              && (outcome.rec.end == now + airtime || outcome.rec.end == earliestTx + airtime)
    ensures outcome.Deferred? ==>
              outcome.busyUntil == if node.log == [] then now else node.log[0].end + l.window
  {
    hide Total, SumAfter, Prune, Sorted, Budget, TxAirtimeLog.Valid;
    ghost var before := node.log;
    if Enforced(l) {
      PruneTotal(before, Cutoff(now, l.window));
      PruneSplits(before, Cutoff(now, l.window));
      BudgetMeans(l, Total(Prune(before, Cutoff(now, l.window))) + airtime);
    }
    if Enforced(l) {
      var budget := Budget(l);
      var used := node.AirtimeUsedInWindow(now, l.window);
      if used + airtime > budget {
        var busyUntil := now;
        var oldest := node.OldestTxEndMs();
        if oldest > 0 {
          busyUntil := oldest + l.window;
        }
        assert node.History() + [] == node.History();
        return Deferred(busyUntil);
      }
    }
    var start := if now > earliestTx then now else earliestTx;
    node.RecordTxAirtime(start + airtime, airtime);
    return Admitted(TxRec(start + airtime, airtime));
  }

  // ----- whole runs -----------------------------------------------------------------

  /** The log and the transmissions admitted so far. */
  datatype Ledger = Ledger(log: seq<TxRec>, admitted: seq<TxRec>)

  /** The controller's transmit attempts, and the node's own queries with windows of its choosing. */
  datatype LedgerOp = TxOp(now: nat, airtime: nat, earliestTx: nat) | QueryOp(now: nat, window: nat)

  function Apply(s: Ledger, l: Limits, op: LedgerOp): Ledger {
    match op
    case QueryOp(now, window) => s.(log := Expire(s.log, now, window))
    case TxOp(now, airtime, earliestTx) =>
      var (log, outcome) := TryTx(s.log, l, now, airtime, earliestTx);
      Ledger(log, if outcome.Admitted? then s.admitted + [outcome.rec] else s.admitted)
  }

  function RunLedger(l: Limits, ops: seq<LedgerOp>): Ledger {
    if ops == [] then Ledger([], [])
    else Apply(RunLedger(l, ops[..|ops| - 1]), l, ops[|ops| - 1])
  }

  ghost predicate InOrder(ops: seq<LedgerOp>) {
    forall i, j | 0 <= i < j < |ops| :: ops[i].now <= ops[j].now
  }

  /** No query looks back less far than the duty window (a window of 0 asks nothing). */
  ghost predicate NoShortQueries(ops: seq<LedgerOp>, window: nat) {
    forall i | 0 <= i < |ops| && ops[i].QueryOp? :: ops[i].window == 0 || window <= ops[i].window
  }

  /** Airtime of the transmissions that end after t - window. */
  function InWindow(history: seq<TxRec>, t: nat, window: nat): nat {
    SumAfter(history, t - window)
  }

  /** Everything admitted that the log has forgotten ended by the cutoff of time t. */
  ghost predicate Remembers(s: Ledger, t: nat, window: nat) {
    exists pruned: seq<TxRec> :: pruned + s.log == s.admitted && AllEndBy(pruned, Cutoff(t, window))
  }

  ghost predicate AirtimeFits(history: seq<TxRec>) {
    forall i | 0 <= i < |history| :: history[i].airtime <= history[i].end
  }

  /** A window that reaches back before time 0 counts the same from time 0 on. */
  lemma {:induction false} SaturationHarmless(history: seq<TxRec>, t: nat, window: nat)
    requires AirtimeFits(history)
    ensures InWindow(history, t, window) == SumAfter(history, Cutoff(t, window))
  {
    if history != [] {
      assert history[0].airtime <= history[0].end;
      SaturationHarmless(history[1..], t, window);
    }
  }

  lemma {:induction false} ExpireRemembers(s: Ledger, t: nat, now: nat, window: nat, w: nat)
    requires Remembers(s, t, window) && t <= now && (w == 0 || window <= w)
    ensures Remembers(s.(log := Expire(s.log, now, w)), now, window)
  {
    var pruned: seq<TxRec> :| pruned + s.log == s.admitted && AllEndBy(pruned, Cutoff(t, window));
    if w == 0 {
      assert AllEndBy(pruned, Cutoff(now, window));
    } else {
      var c := Cutoff(now, w);
      PruneSplits(s.log, c);
      var more := pruned + Dropped(s.log, c);
      assert more + Prune(s.log, c) == s.admitted;
      assert AllEndBy(more, Cutoff(now, window));
    }
  }

  /** What the log reports covers everything admitted that is still in the window. */
  lemma {:induction false} ReportCovers(s: Ledger, now: nat, window: nat)
    requires Remembers(s, now, window)
    ensures SumAfter(s.admitted, Cutoff(now, window)) <= Total(s.log)
  {
    var c := Cutoff(now, window);
    var pruned: seq<TxRec> :| pruned + s.log == s.admitted && AllEndBy(pruned, c);
    SumAfterAppend(pruned, s.log, c);
    SumAfterExpired(pruned, c, c);
    SumAfterAtMostTotal(s.log, c);
  }

  ghost predicate WithinBudget(s: Ledger, l: Limits, now: nat)
    requires Enforced(l)
  {
    && Remembers(s, now, l.window)
    && AirtimeFits(s.admitted)
    && SumAfter(s.admitted, Cutoff(now, l.window)) <= Budget(l)
  }

  lemma {:induction false} LaterStillWithin(s: Ledger, l: Limits, t: nat, now: nat)
    requires Enforced(l) && WithinBudget(s, l, t) && t <= now
    ensures WithinBudget(s, l, now)
  {
    SumAfterAntitone(s.admitted, Cutoff(t, l.window), Cutoff(now, l.window));
    ExpireRemembers(s, t, now, l.window, 0);
  }

  lemma {:induction false} ApplyWithin(s: Ledger, l: Limits, op: LedgerOp)
    requires Enforced(l) && WithinBudget(s, l, op.now)
    requires op.QueryOp? ==> op.window == 0 || l.window <= op.window
    ensures WithinBudget(Apply(s, l, op), l, op.now)
  {
    var now := op.now;
    match op
    case QueryOp(_, w) => ExpireRemembers(s, now, now, l.window, w);
    case TxOp(_, airtime, earliestTx) =>
      ExpireRemembers(s, now, now, l.window, l.window);
      var kept := s.(log := Expire(s.log, now, l.window));
      var rec := RecordOf(now, airtime, earliestTx);
      if Total(kept.log) + airtime <= Budget(l) {
        AdmitFits(kept, now, l.window, rec);
      }
  }

  /** Admitting adds its own airtime to what the log reports, and is remembered. */
  lemma {:induction false} AdmitFits(kept: Ledger, now: nat, window: nat, rec: TxRec)
    requires Remembers(kept, now, window)
    requires AirtimeFits(kept.admitted) && rec.airtime <= rec.end
    ensures var s := Ledger(kept.log + [rec], kept.admitted + [rec]);
            && Remembers(s, now, window) && AirtimeFits(s.admitted)
            && SumAfter(s.admitted, Cutoff(now, window)) <= Total(kept.log) + rec.airtime
  {
    ReportCovers(kept, now, window);
    SumAfterAppend(kept.admitted, [rec], Cutoff(now, window));
    var pruned: seq<TxRec> :| pruned + kept.log == kept.admitted && AllEndBy(pruned, Cutoff(now, window));
    assert pruned + (kept.log + [rec]) == kept.admitted + [rec];
  }

  lemma {:induction false} RunWithin(l: Limits, ops: seq<LedgerOp>)
    requires Enforced(l) && InOrder(ops) && NoShortQueries(ops, l.window)
    ensures WithinBudget(RunLedger(l, ops), l, if ops == [] then 0 else ops[|ops| - 1].now)
  {
    if ops == [] {
      assert [] + [] == RunLedger(l, ops).admitted;
    } else {
      var n := |ops| - 1;
      RunWithin(l, ops[..n]);
      LaterStillWithin(RunLedger(l, ops[..n]), l, if n == 0 then 0 else ops[n - 1].now, ops[n].now);
      ApplyWithin(RunLedger(l, ops[..n]), l, ops[n]);
    }
  }

  /**
   * The duty-cycle promise: in every run whose clock does not go back and whose queries look back
   * at least the duty window, at every time from the last operation on, the airtime of everything
   * admitted that ends within the window is at most the budget.
   */
  lemma {:induction false} BudgetHolds(l: Limits, ops: seq<LedgerOp>, t: nat)
    requires Enforced(l) && InOrder(ops) && NoShortQueries(ops, l.window)
    requires ops != [] ==> ops[|ops| - 1].now <= t
    ensures InWindow(RunLedger(l, ops).admitted, t, l.window) <= Budget(l)
    ensures InWindow(RunLedger(l, ops).admitted, t, l.window) as real <= l.duty * l.window as real
  {
    BudgetMeans(l, InWindow(RunLedger(l, ops).admitted, t, l.window));
    RunWithin(l, ops);
    LaterStillWithin(RunLedger(l, ops), l, if ops == [] then 0 else ops[|ops| - 1].now, t);
    SaturationHarmless(RunLedger(l, ops).admitted, t, l.window);
  }

  /** One query with any shorter window makes the log forget what the gate still needs: the budget is exceeded. */
  lemma {:induction false} ShortQueryBreaksBudget(l: Limits, shorter: nat)
    requires Enforced(l) && l.duty * l.window as real >= 1.0 && 0 < shorter < l.window
    ensures exists ops: seq<LedgerOp>, t: nat ::
              && InOrder(ops) && (ops != [] ==> ops[|ops| - 1].now <= t)
              && NoShortQueries(ops, shorter)
              && InWindow(RunLedger(l, ops).admitted, t, l.window) as real > l.duty * l.window as real
  {
    var b := Budget(l);
    BudgetMeans(l, 1);
    BudgetMeans(l, b + b);
    var t := b + shorter;
    var first, second := TxRec(b, b), TxRec(t + b, b);
    var ops0 := [TxOp(0, b, 0)];
    var ops1 := ops0 + [QueryOp(t, shorter)];
    var ops2 := ops1 + [TxOp(t, b, 0)];
    assert ops0[..0] == [] && ops1[..1] == ops0 && ops2[..2] == ops1;
    assert RunLedger(l, []) == Ledger([], []);
    assert RunLedger(l, ops0) == Ledger([first], [first]) by {
      assert [] + [first] == [first];
    }
    assert [first][1..] == [];
    assert Cutoff(t, shorter) == b && Prune([], b) == [];
    assert Prune([first], b) == Prune([first][1..], b);
    assert RunLedger(l, ops1) == Ledger([], [first]);
    assert RunLedger(l, ops2).admitted == [first, second] by {
      assert [first] + [second] == [first, second];
    }
    assert [first, second][1..] == [second];
    assert SumAfter([second], t - l.window) == b;
    assert InWindow([first, second], t, l.window) == b + b;
  }

  ghost predicate WithinAt(l: Limits, ops: seq<LedgerOp>, t: nat)
    requires Enforced(l)
  {
    InWindow(RunLedger(l, ops).admitted, t, l.window) as real <= l.duty * l.window as real
  }

  /** With a budget of 0 only transmissions without airtime are admitted. */
  lemma {:induction false} NothingAdmitted(l: Limits, ops: seq<LedgerOp>)
    requires Enforced(l) && Budget(l) == 0
    ensures Total(RunLedger(l, ops).admitted) == 0
  {
    hide Budget;
    if ops != [] {
      var n := |ops| - 1;
      NothingAdmitted(l, ops[..n]);
      var s := RunLedger(l, ops[..n]);
      if ops[n].TxOp? {
        TotalAppend(s.admitted, [RecordOf(ops[n].now, ops[n].airtime, ops[n].earliestTx)]);
        TotalOne(RecordOf(ops[n].now, ops[n].airtime, ops[n].earliestTx));
      }
    }
  }

  lemma {:induction false} TotalOne(rec: TxRec)
    ensures Total([rec]) == rec.airtime
  {
    assert [rec][1..] == [];
  }

  /**
   * Exactly how short a query may be. If no query but an empty one looks back less than `shortest`, the
   * budget holds in every run and at every time if and only if that is at least the duty window, or the
   * budget is less than a millisecond to begin with.
   */
  lemma {:induction false} BudgetKeptIff(l: Limits, shortest: nat)
    requires Enforced(l) && shortest > 0
    ensures (forall ops: seq<LedgerOp>, t: nat {:trigger WithinAt(l, ops, t)} |
               InOrder(ops) && NoShortQueries(ops, shortest) && (ops != [] ==> ops[|ops| - 1].now <= t) ::
               WithinAt(l, ops, t))
       <==> l.window <= shortest || l.duty * l.window as real < 1.0
  {
    hide Enforced, InOrder, NoShortQueries, WithinAt;
    var harmless := l.window <= shortest || l.duty * l.window as real < 1.0;
    if harmless {
      forall ops: seq<LedgerOp>, t: nat |
          InOrder(ops) && NoShortQueries(ops, shortest) && (ops != [] ==> ops[|ops| - 1].now <= t)
        ensures WithinAt(l, ops, t)
      {
        HarmlessQueries(l, shortest, ops, t);
      }
    } else {
      var ops, t := HarmfulQuery(l, shortest);
    }
  }

  lemma {:induction false} HarmlessQueries(l: Limits, shortest: nat, ops: seq<LedgerOp>, t: nat)
    requires Enforced(l) && (l.window <= shortest || l.duty * l.window as real < 1.0)
    requires InOrder(ops) && NoShortQueries(ops, shortest) && (ops != [] ==> ops[|ops| - 1].now <= t)
    ensures WithinAt(l, ops, t)
  {
    hide RunLedger, InWindow;
    if l.duty * l.window as real < 1.0 {
      BudgetMeans(l, 1);
      NothingAdmitted(l, ops);
      WindowAtMostTotal(RunLedger(l, ops).admitted, t, l.window);
    } else {
      BudgetHolds(l, ops, t);
    }
  }

  lemma {:induction false} HarmfulQuery(l: Limits, shortest: nat) returns (ops: seq<LedgerOp>, t: nat)
    requires Enforced(l) && 0 < shortest < l.window && l.duty * l.window as real >= 1.0
    ensures InOrder(ops) && NoShortQueries(ops, shortest) && (ops != [] ==> ops[|ops| - 1].now <= t)
    ensures !WithinAt(l, ops, t)
  {
    hide RunLedger, InWindow;
    ShortQueryBreaksBudget(l, shortest);
    ops, t :| && InOrder(ops) && (ops != [] ==> ops[|ops| - 1].now <= t) && NoShortQueries(ops, shortest)
              && InWindow(RunLedger(l, ops).admitted, t, l.window) as real > l.duty * l.window as real;
  }

  lemma {:induction false} WindowAtMostTotal(history: seq<TxRec>, t: nat, window: nat)
    ensures InWindow(history, t, window) <= Total(history)
  {
    SumAfterAtMostTotal(history, t - window);
  }

  // ----- the deferral time --------------------------------------------------------------

  /**
   * busyUntil is exactly when the oldest entry leaves the window: the same attempt is refused at
   * every earlier time, and at busyUntil the oldest entry no longer counts. An attempt refused with
   * an empty log can never fit.
   */
  lemma {:induction false} DeferralExact(log: seq<TxRec>, l: Limits, now: nat, airtime: nat, earliestTx: nat, t: nat,
                                         earliest2: nat)
    requires Enforced(l) && now <= t
    requires TryTx(log, l, now, airtime, earliestTx).1.Deferred?
    ensures var (kept, outcome) := TryTx(log, l, now, airtime, earliestTx);
            && (kept != [] && t < outcome.busyUntil ==> TryTx(kept, l, t, airtime, earliest2) == (kept, outcome))
            && (kept != [] && outcome.busyUntil <= t ==> Expire(kept, t, l.window) == Expire(kept[1..], t, l.window))
            && (kept == [] ==> TryTx(kept, l, t, airtime, earliest2).1.Deferred?)
  {
    var c := Cutoff(now, l.window);
    PruneSplits(log, c);
  }

  /**
   * The deferral time is an estimate from below: the retry at busyUntil is admitted exactly when the
   * records that leave by then carry enough airtime, and otherwise deferred again, to a later time.
   */
  lemma {:induction false} RetryAdmittedIff(log: seq<TxRec>, l: Limits, now: nat, airtime: nat, earliestTx: nat,
                                            earliest2: nat)
    requires Enforced(l)
    requires TryTx(log, l, now, airtime, earliestTx).1.Deferred? && Expire(log, now, l.window) != []
    ensures var (kept, outcome) := TryTx(log, l, now, airtime, earliestTx);
            var leaving := Dropped(kept, kept[0].end);
            var (later, retry) := TryTx(kept, l, outcome.busyUntil, airtime, earliest2);
            && (retry.Admitted? <==>
                (Total(kept) + airtime) as real <= Total(leaving) as real + l.duty * l.window as real)
            && leaving != [] && leaving + Expire(kept, outcome.busyUntil, l.window) == kept
            && (retry.Deferred? && later != [] ==> retry.busyUntil > outcome.busyUntil)
  {
    hide Budget, Prune, Dropped, Total;
    var (kept, outcome) := TryTx(log, l, now, airtime, earliestTx);
    PruneSplits(log, Cutoff(now, l.window));
    assert Cutoff(outcome.busyUntil, l.window) == kept[0].end;
    PruneSplits(kept, kept[0].end);
    var (leaving, rest) := (Dropped(kept, kept[0].end), Prune(kept, kept[0].end));
    TotalAppend(leaving, rest);
    assert leaving == [] ==> rest == kept;
    BudgetMeans(l, Total(rest) + airtime);
  }

  // ----- ends in order ------------------------------------------------------------------

  /** A node never starts a transmission while its previous one is in flight. */
  ghost predicate HalfDuplex(l: Limits, ops: seq<LedgerOp>) {
    forall k | 0 <= k < |ops| && ops[k].TxOp? ::
      AllEndBy(RunLedger(l, ops[..k]).admitted, ops[k].now)
  }

  /** Under the half-duplex rule ends are recorded in order, so that the gate's sums are exact. */
  lemma {:induction false} HalfDuplexSorts(l: Limits, ops: seq<LedgerOp>)
    requires HalfDuplex(l, ops)
    ensures Sorted(RunLedger(l, ops).admitted)
  {
    if ops != [] {
      var n := |ops| - 1;
      forall k | 0 <= k < n && ops[..n][k].TxOp?
        ensures AllEndBy(RunLedger(l, ops[..n][..k]).admitted, ops[..n][k].now)
      {
        assert ops[..n][..k] == ops[..k];
      }
      HalfDuplexSorts(l, ops[..n]);
      assert ops[n].TxOp? ==> AllEndBy(RunLedger(l, ops[..n]).admitted, ops[n].now);
    }
  }
}
