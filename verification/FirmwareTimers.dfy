/**
 * What a firmware node's timers mean: a map from timer id to wall deadline, changed by the calls the
 * firmware makes and by the firings of a tick.
 */
module FirmwareSpec {
  import opened Ticks
  const MAX_TIMERS: nat := 64

  type Pending = map<nat, nat>

  // Throughout, `wall` converts a delay in node milliseconds to wall milliseconds.

  /** A host call the firmware may make at any time, also from inside a timer callback. */
  datatype HalCall = After(delay: nat, id: nat) | Drop(id: nat)

  datatype Firing = Firing(id: nat, deadline: nat)

  /** Arming succeeds for an id already pending, and otherwise while fewer than 64 ids are. */
  ghost predicate Accepts(p: Pending, id: nat) {
    id in p || |p| < MAX_TIMERS
  }

  ghost function Effect(p: Pending, now: nat, wall: nat -> nat, c: HalCall): Pending {
    match c
    case After(delay, id) => if Accepts(p, id) then p[id := now + wall(delay)] else p
    case Drop(id) => p - {id}
  }

  ghost function Effects(p: Pending, now: nat, wall: nat -> nat, calls: seq<HalCall>): Pending {
    if calls == [] then p
    else Effect(Effects(p, now, wall, calls[..|calls| - 1]), now, wall, calls[|calls| - 1])
  }

  /** The pending timers after the firings `fired`, each followed by its callback's calls. */
  ghost function Settled(p: Pending, now: nat, wall: nat -> nat, script: seq<seq<HalCall>>, fired: seq<Firing>)
    : Pending
  {
    if fired == [] then p
    else
      var n := |fired| - 1;
      Effects(Settled(p, now, wall, script, fired[..n]) - {fired[n].id}, now, wall, CallsOf(script, n))
  }

  /** `f` is due and no pending timer precedes it. */
  ghost predicate FiresNext(p: Pending, f: Firing, now: nat) {
    && f.id in p && p[f.id] == f.deadline <= now
    && forall id <- p :: f.deadline <= p[id]
  }

  ghost predicate TickFirings(p: Pending, now: nat, wall: nat -> nat, script: seq<seq<HalCall>>, fired: seq<Firing>) {
    forall k {:trigger FiringAt(p, now, wall, script, fired, k)} | 0 <= k < |fired| ::
      FiringAt(p, now, wall, script, fired, k)
  }

  /** The k-th firing is the next one in the state the first k firings leave behind. */
  ghost predicate FiringAt(p: Pending, now: nat, wall: nat -> nat, script: seq<seq<HalCall>>, fired: seq<Firing>,
                           k: nat)
    requires k < |fired|
  {
    FiresNext(Settled(p, now, wall, script, fired[..k]), fired[k], now)
  }

  ghost predicate NoneDue(p: Pending, now: nat) {
    forall id <- p :: now < p[id]
  }

  /** A whole tick: it fires due timers, earliest first, until none is due. */
  ghost predicate Tick(p: Pending, now: nat, wall: nat -> nat, script: seq<seq<HalCall>>, fired: seq<Firing>,
                       p': Pending) {
    && TickFirings(p, now, wall, script, fired)
    && p' == Settled(p, now, wall, script, fired)
    && NoneDue(p', now)
  }

  // ----- order of the firings -------------------------------------------------

  ghost predicate AllAtLeast(p: Pending, floor: nat) {
    forall id <- p :: floor <= p[id]
  }

  /** Callbacks arm no earlier than now, so they cannot undercut a floor that is already due. */
  lemma {:induction false} EffectsKeepFloor(p: Pending, now: nat, wall: nat -> nat, calls: seq<HalCall>, floor: nat)
    requires AllAtLeast(p, floor) && floor <= now
    ensures AllAtLeast(Effects(p, now, wall, calls), floor)
  {
    if calls != [] {
      EffectsKeepFloor(p, now, wall, calls[..|calls| - 1], floor);
    }
  }

  lemma {:induction false} SettledFloor(p: Pending, now: nat, wall: nat -> nat, script: seq<seq<HalCall>>,
                                        fired: seq<Firing>, k: nat)
    requires TickFirings(p, now, wall, script, fired) && k < |fired|
    ensures AllAtLeast(Settled(p, now, wall, script, fired[..k + 1]), fired[k].deadline)
  {
    assert fired[..k + 1][..k] == fired[..k];
    var before := Settled(p, now, wall, script, fired[..k]);
    assert FiringAt(p, now, wall, script, fired, k);
    EffectsKeepFloor(before - {fired[k].id}, now, wall, CallsOf(script, k), fired[k].deadline);
  }

  lemma {:induction false} ExtendTick(p: Pending, now: nat, wall: nat -> nat, script: seq<seq<HalCall>>,
                                      fired: seq<Firing>, f: Firing)
    requires TickFirings(p, now, wall, script, fired)
    requires FiresNext(Settled(p, now, wall, script, fired), f, now)
    ensures TickFirings(p, now, wall, script, fired + [f])
    ensures Settled(p, now, wall, script, fired + [f])
         == Effects(Settled(p, now, wall, script, fired) - {f.id}, now, wall, CallsOf(script, |fired|))
  {
    hide Effects;
    var longer := fired + [f];
    assert longer[..|fired|] == fired;
    forall k | 0 <= k < |longer|
      ensures FiringAt(p, now, wall, script, longer, k)
    {
      if k < |fired| {
        assert FiringAt(p, now, wall, script, fired, k);
        assert longer[..k] == fired[..k];
      }
    }
  }

  lemma {:induction false} AdjacentFirings(p: Pending, now: nat, wall: nat -> nat, script: seq<seq<HalCall>>,
                                           fired: seq<Firing>, k: nat)
    requires TickFirings(p, now, wall, script, fired) && k + 1 < |fired|
    ensures fired[k].deadline <= fired[k + 1].deadline
  {
    SettledFloor(p, now, wall, script, fired, k);
    assert FiringAt(p, now, wall, script, fired, k + 1);
  }

  /** One tick fires in nondecreasing order of deadlines, none later than the tick. */
  lemma {:induction false} TickOrdered(p: Pending, now: nat, wall: nat -> nat, script: seq<seq<HalCall>>,
                                       fired: seq<Firing>, i: nat, j: nat)
    requires TickFirings(p, now, wall, script, fired) && i <= j < |fired|
    ensures fired[i].deadline <= fired[j].deadline <= now
  {
    forall k | 0 <= k < |fired| - 1
      ensures fired[k].deadline <= fired[k + 1].deadline
    {
      AdjacentFirings(p, now, wall, script, fired, k);
    }
    Ordered(seq(|fired|, k requires 0 <= k < |fired| => fired[k].deadline), i, j);
    assert FiringAt(p, now, wall, script, fired, j);
  }

  // ----- a timer no callback touches ------------------------------------------

  ghost predicate LeavesAlone(calls: seq<HalCall>, id: nat) {
    forall i | 0 <= i < |calls| :: calls[i].id != id
  }

  ghost predicate Untouched(script: seq<seq<HalCall>>, id: nat) {
    forall k | 0 <= k < |script| :: LeavesAlone(script[k], id)
  }

  lemma {:induction false} EffectsLeaveAlone(p: Pending, now: nat, wall: nat -> nat, calls: seq<HalCall>, id: nat)
    requires LeavesAlone(calls, id)
    ensures id in Effects(p, now, wall, calls) <==> id in p
    ensures id in p ==> Effects(p, now, wall, calls)[id] == p[id]
  {
    if calls != [] {
      EffectsLeaveAlone(p, now, wall, calls[..|calls| - 1], id);
    }
  }

  ghost function TimesFired(fired: seq<Firing>, id: nat): nat {
    if fired == [] then 0
    else TimesFired(fired[..|fired| - 1], id) + if fired[|fired| - 1].id == id then 1 else 0
  }

  /** Until it fires, an untouched timer stays put; once it has fired it is gone. */
  lemma {:induction false} UntouchedProgress(p: Pending, now: nat, wall: nat -> nat, script: seq<seq<HalCall>>,
                                             fired: seq<Firing>, k: nat, id: nat)
    requires TickFirings(p, now, wall, script, fired) && k <= |fired|
    requires Untouched(script, id) && id in p
    ensures var q := Settled(p, now, wall, script, fired[..k]);
            && TimesFired(fired[..k], id) <= 1
            && (id in q <==> TimesFired(fired[..k], id) == 0)
            && (id in q ==> q[id] == p[id])
            && (id !in q ==> p[id] <= now)
  {
    if k != 0 {
      UntouchedProgress(p, now, wall, script, fired, k - 1, id);
      assert fired[..k][..k - 1] == fired[..k - 1];
      var before := Settled(p, now, wall, script, fired[..k - 1]);
      assert FiringAt(p, now, wall, script, fired, k - 1);
      EffectsLeaveAlone(before - {fired[k - 1].id}, now, wall, CallsOf(script, k - 1), id);
    }
  }

  /**
   * A pending timer that no callback re-arms or cancels fires in this tick exactly once if it is
   * due, and otherwise not at all and keeps its deadline.
   */
  lemma {:induction false} UntouchedFiresOnceIfDue(p: Pending, now: nat, wall: nat -> nat, script: seq<seq<HalCall>>,
                                                   fired: seq<Firing>, p': Pending, id: nat)
    requires Tick(p, now, wall, script, fired, p')
    requires Untouched(script, id) && id in p
    ensures TimesFired(fired, id) == if p[id] <= now then 1 else 0
    ensures id in p' <==> now < p[id]
    ensures id in p' ==> p'[id] == p[id]
  {
    UntouchedProgress(p, now, wall, script, fired, |fired|, id);
    assert fired[..|fired|] == fired;
  }

  // ----- the life of a node ----------------------------------------------------

  datatype NodeOp =
    | AfterOp(now: nat, delay: nat, id: nat, ok: bool)
    | CancelOp(id: nat)
    | TickOp(now: nat, script: seq<seq<HalCall>>, fired: seq<Firing>)

  ghost predicate NodeStep(p: Pending, wall: nat -> nat, op: NodeOp, p': Pending) {
    match op
    case AfterOp(now, delay, id, ok) => (ok <==> Accepts(p, id)) && p' == Effect(p, now, wall, After(delay, id))
    case CancelOp(id) => p' == p - {id}
    case TickOp(now, script, fired) => Tick(p, now, wall, script, fired, p')
  }

  /** A life: `states[k]` are the pending timers before `ops[k]`. */
  ghost predicate Life(states: seq<Pending>, wall: nat -> nat, ops: seq<NodeOp>) {
    && |states| == |ops| + 1
    && states[0] == map[]
    && forall k | 0 <= k < |ops| :: NodeStep(states[k], wall, ops[k], states[k + 1])
  }

  lemma {:induction false} EffectBounded(p: Pending, now: nat, wall: nat -> nat, c: HalCall)
    requires |p| <= MAX_TIMERS
    ensures |Effect(p, now, wall, c)| <= MAX_TIMERS
  {
    match c
    case After(delay, id) =>
      assert p[id := now + wall(delay)].Keys == p.Keys + {id};
      if id in p {
        assert p.Keys + {id} == p.Keys;
      }
    case Drop(id) =>
      FewerIds(p, id);
  }

  lemma {:induction false} FewerIds(p: Pending, id: nat)
    ensures |p - {id}| <= |p|
  {
    assert (p - {id}).Keys == p.Keys - {id};
    assert p.Keys - {id} <= p.Keys;
    if id !in p {
      assert p - {id} == p;
    }
  }

  lemma {:induction false} EffectsBounded(p: Pending, now: nat, wall: nat -> nat, calls: seq<HalCall>)
    requires |p| <= MAX_TIMERS
    ensures |Effects(p, now, wall, calls)| <= MAX_TIMERS
  {
    hide Effect;
    if calls != [] {
      EffectsBounded(p, now, wall, calls[..|calls| - 1]);
      EffectBounded(Effects(p, now, wall, calls[..|calls| - 1]), now, wall, calls[|calls| - 1]);
    }
  }

  lemma {:induction false} SettledBounded(p: Pending, now: nat, wall: nat -> nat, script: seq<seq<HalCall>>,
                                          fired: seq<Firing>)
    requires |p| <= MAX_TIMERS
    ensures |Settled(p, now, wall, script, fired)| <= MAX_TIMERS
  {
    hide Effects;
    if fired != [] {
      var n := |fired| - 1;
      SettledBounded(p, now, wall, script, fired[..n]);
      var before := Settled(p, now, wall, script, fired[..n]);
      FewerIds(before, fired[n].id);
      EffectsBounded(before - {fired[n].id}, now, wall, CallsOf(script, n));
    }
  }

  lemma {:induction false} StepBounded(p: Pending, wall: nat -> nat, op: NodeOp, p': Pending)
    requires NodeStep(p, wall, op, p') && |p| <= MAX_TIMERS
    ensures |p'| <= MAX_TIMERS
  {
    hide Effect, Settled, TickFirings;
    match op
    case AfterOp(now, delay, id, _) => EffectBounded(p, now, wall, After(delay, id));
    case CancelOp(id) => FewerIds(p, id);
    case TickOp(now, script, fired) => SettledBounded(p, now, wall, script, fired);
  }

  /** In every life at most 64 ids are pending, and arming is refused only to a 65th, never to a pending id. */
  lemma {:induction false} LifeBounded(states: seq<Pending>, wall: nat -> nat, ops: seq<NodeOp>, k: nat)
    requires Life(states, wall, ops) && k <= |ops|
    ensures |states[k]| <= MAX_TIMERS
    ensures k < |ops| && ops[k].AfterOp? ==> (!ops[k].ok <==> ops[k].id !in states[k] && |states[k]| == MAX_TIMERS)
  {
    hide Effect, Tick;
    if k > 0 {
      LifeBounded(states, wall, ops, k - 1);
      LifeStep(states, wall, ops, k - 1);
      StepBounded(states[k - 1], wall, ops[k - 1], states[k]);
    }
    if k < |ops| {
      LifeStep(states, wall, ops, k);
    }
  }

  datatype Event = Armed(id: nat, deadline: nat) | Dropped(id: nat) | Fired(id: nat, deadline: nat)

  function ApplyEvent(p: Pending, e: Event): Pending {
    if e.Armed? then p[e.id := e.deadline] else p - {e.id}
  }

  ghost function CallEvents(p: Pending, now: nat, wall: nat -> nat, c: HalCall): seq<Event> {
    match c
    case After(delay, id) => if Accepts(p, id) then [Armed(id, now + wall(delay))] else []
    case Drop(id) => if id in p then [Dropped(id)] else []
  }

  ghost function CallsEvents(p: Pending, now: nat, wall: nat -> nat, calls: seq<HalCall>): seq<Event> {
    if calls == [] then []
    else
      var n := |calls| - 1;
      CallsEvents(p, now, wall, calls[..n]) + CallEvents(Effects(p, now, wall, calls[..n]), now, wall, calls[n])
  }

  ghost function FiringEvents(p: Pending, now: nat, wall: nat -> nat, script: seq<seq<HalCall>>, fired: seq<Firing>)
    : seq<Event>
  {
    if fired == [] then []
    else
      var n := |fired| - 1;
      FiringEvents(p, now, wall, script, fired[..n]) + [Fired(fired[n].id, fired[n].deadline)]
      + CallsEvents(Settled(p, now, wall, script, fired[..n]) - {fired[n].id}, now, wall, CallsOf(script, n))
  }

  ghost function OpEvents(p: Pending, wall: nat -> nat, op: NodeOp): seq<Event> {
    match op
    case AfterOp(now, delay, id, _) => CallEvents(p, now, wall, After(delay, id))
    case CancelOp(id) => CallEvents(p, 0, wall, Drop(id))
    case TickOp(now, script, fired) => FiringEvents(p, now, wall, script, fired)
  }

  /** Everything that happened to the node's timers in the first k operations, callbacks included. */
  ghost function LifeEvents(states: seq<Pending>, wall: nat -> nat, ops: seq<NodeOp>, k: nat): seq<Event>
    requires k <= |ops| < |states|
  {
    if k == 0 then [] else LifeEvents(states, wall, ops, k - 1) + OpEvents(states[k - 1], wall, ops[k - 1])
  }

  /** The pending timers after a history of events. */
  ghost function Replay(history: seq<Event>): Pending {
    if history == [] then map[]
    else ApplyEvent(Replay(history[..|history| - 1]), history[|history| - 1])
  }

  /** If event k is a firing, it is of a pending timer, at the deadline it is pending for. */
  ghost predicate LawfulAt(history: seq<Event>, k: nat)
    requires k < |history|
  {
    var p, e := Replay(history[..k]), history[k];
    e.Fired? ==> e.id in p && p[e.id] == e.deadline
  }

  /** The history is lawful throughout and leaves exactly `p` pending. */
  ghost predicate Explains(history: seq<Event>, p: Pending) {
    && (forall k {:trigger LawfulAt(history, k)} | 0 <= k < |history| :: LawfulAt(history, k))
    && Replay(history) == p
  }

  lemma {:induction false} ExplainsOne(history: seq<Event>, p: Pending, e: Event)
    requires Explains(history, p)
    requires e.Fired? ==> e.id in p && p[e.id] == e.deadline
    ensures Explains(history + [e], ApplyEvent(p, e))
  {
    var longer := history + [e];
    assert longer[..|history|] == history;
    forall k | 0 <= k < |longer|
      ensures LawfulAt(longer, k)
    {
      if k < |history| {
        assert LawfulAt(history, k);
        assert longer[..k] == history[..k];
      }
    }
  }

  lemma {:induction false} ExplainsCall(history: seq<Event>, p: Pending, now: nat, wall: nat -> nat, c: HalCall)
    requires Explains(history, p)
    ensures Explains(history + CallEvents(p, now, wall, c), Effect(p, now, wall, c))
  {
    hide Explains;
    var events := CallEvents(p, now, wall, c);
    if events == [] {
      assert history + events == history;
      assert c.Drop? ==> p - {c.id} == p;
    } else {
      ExplainsOne(history, p, events[0]);
    }
  }

  lemma {:induction false} ExplainsCalls(history: seq<Event>, p: Pending, now: nat, wall: nat -> nat,
                                         calls: seq<HalCall>)
    requires Explains(history, p)
    ensures Explains(history + CallsEvents(p, now, wall, calls), Effects(p, now, wall, calls))
  {
    if calls == [] {
      assert history + [] == history;
    } else {
      var n := |calls| - 1;
      ExplainsCalls(history, p, now, wall, calls[..n]);
      var sofar := history + CallsEvents(p, now, wall, calls[..n]);
      ExplainsCall(sofar, Effects(p, now, wall, calls[..n]), now, wall, calls[n]);
      assert history + CallsEvents(p, now, wall, calls)
          == sofar + CallEvents(Effects(p, now, wall, calls[..n]), now, wall, calls[n]);
    }
  }

  lemma {:induction false} ExplainsFirings(history: seq<Event>, p: Pending, now: nat, wall: nat -> nat,
                                           script: seq<seq<HalCall>>, fired: seq<Firing>)
    requires Explains(history, p) && TickFirings(p, now, wall, script, fired)
    ensures Explains(history + FiringEvents(p, now, wall, script, fired), Settled(p, now, wall, script, fired))
  {
    if fired == [] {
      assert history + [] == history;
    } else {
      var n := |fired| - 1;
      ShorterTick(p, now, wall, script, fired, n);
      ExplainsFirings(history, p, now, wall, script, fired[..n]);
      var before := Settled(p, now, wall, script, fired[..n]);
      var sofar := history + FiringEvents(p, now, wall, script, fired[..n]);
      var e := Fired(fired[n].id, fired[n].deadline);
      assert FiringAt(p, now, wall, script, fired, n);
      ExplainsOne(sofar, before, e);
      var after, calls := before - {fired[n].id}, CallsOf(script, n);
      ExplainsCalls(sofar + [e], after, now, wall, calls);
      Associate(history, FiringEvents(p, now, wall, script, fired[..n]), [e], CallsEvents(after, now, wall, calls));
    }
  }

  lemma {:induction false} Associate(a: seq<Event>, b: seq<Event>, c: seq<Event>, d: seq<Event>)
    ensures a + (b + c + d) == a + b + c + d
  {}

  lemma {:induction false} ShorterTick(p: Pending, now: nat, wall: nat -> nat, script: seq<seq<HalCall>>,
                                       fired: seq<Firing>, n: nat)
    requires TickFirings(p, now, wall, script, fired) && n <= |fired|
    ensures TickFirings(p, now, wall, script, fired[..n])
  {
    forall k | 0 <= k < n
      ensures FiringAt(p, now, wall, script, fired[..n], k)
    {
      assert FiringAt(p, now, wall, script, fired, k);
      assert fired[..n][..k] == fired[..k];
    }
  }

  lemma {:induction false} OpExplained(history: seq<Event>, p: Pending, wall: nat -> nat, op: NodeOp, p': Pending)
    requires Explains(history, p) && NodeStep(p, wall, op, p')
    ensures Explains(history + OpEvents(p, wall, op), p')
  {
    match op
    case AfterOp(now, delay, id, _) => ExplainsCall(history, p, now, wall, After(delay, id));
    case CancelOp(id) => ExplainsCall(history, p, 0, wall, Drop(id));
    case TickOp(now, script, fired) => ExplainsFirings(history, p, now, wall, script, fired);
  }

  lemma {:induction false} NothingExplained()
    ensures Explains([], map[])
  {}

  lemma {:induction false} LifeStep(states: seq<Pending>, wall: nat -> nat, ops: seq<NodeOp>, k: nat)
    requires Life(states, wall, ops) && k < |ops|
    ensures NodeStep(states[k], wall, ops[k], states[k + 1])
  {
    hide NodeStep;
  }

  /** The events of a life explain its pending timers at every point. */
  lemma {:induction false} LifeExplained(states: seq<Pending>, wall: nat -> nat, ops: seq<NodeOp>, k: nat)
    requires Life(states, wall, ops) && k <= |ops|
    ensures Explains(LifeEvents(states, wall, ops, k), states[k])
  {
    hide Explains, OpEvents, NodeStep;
    if k == 0 {
      NothingExplained();
    } else {
      hide Life;
      LifeExplained(states, wall, ops, k - 1);
      LifeStep(states, wall, ops, k - 1);
      OpExplained(LifeEvents(states, wall, ops, k - 1), states[k - 1], wall, ops[k - 1], states[k]);
    }
  }

  ghost predicate SilentAbout(history: seq<Event>, lo: nat, hi: nat, id: nat) {
    forall m | lo <= m < hi && m < |history| :: history[m].id != id
  }

  lemma {:induction false} PendingWasArmed(history: seq<Event>, k: nat, id: nat) returns (j: nat)
    requires k <= |history| && id in Replay(history[..k])
    ensures j < k && history[j] == Armed(id, Replay(history[..k])[id])
    ensures SilentAbout(history, j + 1, k, id)
  {
    assert history[..k][..k - 1] == history[..k - 1];
    if history[k - 1].id == id {
      j := k - 1;
    } else {
      j := PendingWasArmed(history, k - 1, id);
    }
  }

  /**
   * In every life, onTimer(id) is called only for the latest arming of id: the k-th event, a
   * firing, goes back to an arming with the same deadline, and in between there was no other
   * arming, no cancellation and no firing of that id, from inside a callback or outside.
   */
  lemma {:induction false} FiresLatestArming(states: seq<Pending>, wall: nat -> nat, ops: seq<NodeOp>,
                                             k: nat) returns (j: nat)
    requires Life(states, wall, ops)
    requires k < |LifeEvents(states, wall, ops, |ops|)| && LifeEvents(states, wall, ops, |ops|)[k].Fired?
    ensures var history := LifeEvents(states, wall, ops, |ops|);
            && j < k && history[j] == Armed(history[k].id, history[k].deadline)
            && SilentAbout(history, j + 1, k, history[k].id)
  {
    var history := LifeEvents(states, wall, ops, |ops|);
    LifeExplained(states, wall, ops, |ops|);
    assert LawfulAt(history, k);
    j := PendingWasArmed(history, k, history[k].id);
  }

  // ----- tombstones --------------------------------------------------------------

  /** An arming or a cancellation of an id that is pending; each leaves a tombstone in the wheel. */
  ghost predicate Buries(before: seq<Event>, e: Event) { !e.Fired? && e.id in Replay(before) }

  /** The tombstones a history leaves behind; nothing ever takes one away. */
  ghost function Buried(history: seq<Event>): nat {
    if history == [] then 0
    else
      var before := history[..|history| - 1];
      Buried(before) + if Buries(before, history[|history| - 1]) then 1 else 0
  }

  lemma {:induction false} NothingFired(p: Pending, now: nat, wall: nat -> nat, script: seq<seq<HalCall>>)
    ensures TickFirings(p, now, wall, script, [])
    ensures FiringEvents(p, now, wall, script, []) == [] && Settled(p, now, wall, script, []) == p
  {}

  lemma {:induction false} ExtendEvents(history: seq<Event>, p: Pending, now: nat, wall: nat -> nat,
                                        script: seq<seq<HalCall>>, fired: seq<Firing>, f: Firing)
    ensures history + FiringEvents(p, now, wall, script, fired + [f])
         == history + FiringEvents(p, now, wall, script, fired) + [Fired(f.id, f.deadline)]
            + CallsEvents(Settled(p, now, wall, script, fired) - {f.id}, now, wall, CallsOf(script, |fired|))
  {
    hide Settled, CallsEvents;
    assert (fired + [f])[..|fired|] == fired;
    Associate(history, FiringEvents(p, now, wall, script, fired), [Fired(f.id, f.deadline)],
              CallsEvents(Settled(p, now, wall, script, fired) - {f.id}, now, wall, CallsOf(script, |fired|)));
  }

  lemma {:induction false} TombstonesOne(history: seq<Event>, e: Event)
    ensures Buried(history + [e]) == Buried(history) + if Buries(history, e) then 1 else 0
  {
    assert (history + [e])[..|history|] == history;
  }

  /** What one host call adds: a tombstone exactly when its id is pending. */
  lemma {:induction false} TombstonesCall(history: seq<Event>, p: Pending, now: nat, wall: nat -> nat, c: HalCall)
    requires Explains(history, p)
    ensures Buried(history + CallEvents(p, now, wall, c)) == Buried(history) + if c.id in p then 1 else 0
  {
    hide Buried;
    var events := CallEvents(p, now, wall, c);
    if events == [] {
      assert history + events == history;
    } else {
      assert events == [events[0]];
      TombstonesOne(history, events[0]);
    }
  }

  /** The latest earlier event about k's id armed it: the id is pending when event k happens. */
  ghost predicate ArmedBefore(history: seq<Event>, k: nat)
    requires k < |history|
  {
    exists j {:trigger SilentAbout(history, j + 1, k, history[k].id)} :: 0 <= j < k
      && history[j].Armed? && history[j].id == history[k].id && SilentAbout(history, j + 1, k, history[k].id)
  }

  ghost function Rearms(history: seq<Event>): set<nat> {
    set k: nat | k < |history| && history[k].Armed? && ArmedBefore(history, k)
  }

  ghost function Cancellations(history: seq<Event>): set<nat> {
    set k: nat | k < |history| && history[k].Dropped? && ArmedBefore(history, k)
  }

  lemma {:induction false} ArmedIsPending(history: seq<Event>, j: nat, k: nat)
    requires j < k <= |history| && history[j].Armed? && SilentAbout(history, j + 1, k, history[j].id)
    ensures history[j].id in Replay(history[..k])
    decreases k
  {
    assert history[..k][..k - 1] == history[..k - 1];
    if j < k - 1 {
      ArmedIsPending(history, j, k - 1);
    }
  }

  lemma {:induction false} ArmedBeforeIffPending(history: seq<Event>, k: nat)
    requires k < |history|
    ensures ArmedBefore(history, k) <==> history[k].id in Replay(history[..k])
  {
    hide Replay;
    var id := history[k].id;
    if id in Replay(history[..k]) {
      var j := PendingWasArmed(history, k, id);
    }
    if ArmedBefore(history, k) {
      var j: nat :| j < k && history[j].Armed? && history[j].id == id && SilentAbout(history, j + 1, k, id);
      ArmedIsPending(history, j, k);
    }
  }

  lemma {:induction false} ArmedBeforePrefix(history: seq<Event>, n: nat, k: nat)
    requires k < n <= |history|
    ensures ArmedBefore(history[..n], k) <==> ArmedBefore(history, k)
  {
    hide Replay;
    ArmedBeforeIffPending(history, k);
    ArmedBeforeIffPending(history[..n], k);
    assert history[..n][..k] == history[..k];
  }

  /** The tombstones are exactly the re-arms and the cancellations of pending ids. */
  lemma {:induction false} TombstonesCounted(history: seq<Event>)
    ensures Buried(history) == |Rearms(history)| + |Cancellations(history)|
    decreases |history|
  {
    if history == [] {
      assert Rearms(history) == {} && Cancellations(history) == {};
    } else {
      var n := |history| - 1;
      TombstonesCounted(history[..n]);
      CountStep(history);
    }
  }

  lemma {:induction false} CountStep(history: seq<Event>)
    requires history != []
    ensures var n: nat := |history| - 1; n !in Rearms(history[..n]) && n !in Cancellations(history[..n])
    ensures var n: nat := |history| - 1;
            Rearms(history) == if history[n].Armed? && Buries(history[..n], history[n])
                               then Rearms(history[..n]) + {n} else Rearms(history[..n])
    ensures var n: nat := |history| - 1;
            Cancellations(history) == if history[n].Dropped? && Buries(history[..n], history[n])
                                      then Cancellations(history[..n]) + {n} else Cancellations(history[..n])
  {
    hide Replay, ArmedBefore;
    var n: nat := |history| - 1;
    ArmedBeforeIffPending(history, n);
    forall k: nat | k < n
      ensures ArmedBefore(history[..n], k) <==> ArmedBefore(history, k)
    {
      ArmedBeforePrefix(history, n, k);
    }
  }

  /** A life in which one id is armed n + 1 times. */
  ghost predicate Rearming(states: seq<Pending>, wall: nat -> nat, ops: seq<NodeOp>, n: nat) {
    && |ops| == n + 1 && Life(states, wall, ops)
    && (forall k | 0 <= k < |ops| :: ops[k] == AfterOp(0, 0, 0, true))
  }

  lemma {:induction false} RearmingPileUp(states: seq<Pending>, wall: nat -> nat, ops: seq<NodeOp>, n: nat, k: nat)
    requires Rearming(states, wall, ops, n) && k <= |ops|
    ensures k > 0 ==> states[k] == map[0 := wall(0)]
    ensures Buried(LifeEvents(states, wall, ops, k)) == if k == 0 then 0 else k - 1
  {
    if k > 0 {
      RearmingPileUp(states, wall, ops, n, k - 1);
      LifeStep(states, wall, ops, k - 1);
      LifeExplained(states, wall, ops, k - 1);
      var history := LifeEvents(states, wall, ops, k - 1);
      hide Buried, LifeEvents, Explains;
      TombstonesCall(history, states[k - 1], 0, wall, After(0, 0));
      RearmStep(states[k - 1], wall, states[k]);
      LifeEventsStep(states, wall, ops, k - 1);
    }
  }

  lemma {:induction false} LifeEventsStep(states: seq<Pending>, wall: nat -> nat, ops: seq<NodeOp>, k: nat)
    requires k < |ops| < |states|
    ensures LifeEvents(states, wall, ops, k + 1) == LifeEvents(states, wall, ops, k) + OpEvents(states[k], wall, ops[k])
  {}

  lemma {:induction false} RearmStep(p: Pending, wall: nat -> nat, p': Pending)
    requires p == map[] || p == map[0 := wall(0)]
    requires NodeStep(p, wall, AfterOp(0, 0, 0, true), p')
    ensures p' == map[0 := wall(0)]
  {}

  /**
   * The tombstones are not bounded by the 64 pending timers: with a single timer pending, re-arming it
   * n times leaves n of them, 65 already after 65 times.
   */
  lemma {:induction false} TombstonesUnbounded(wall: nat -> nat, n: nat)
    ensures exists states: seq<Pending>, ops: seq<NodeOp> ::
              && Rearming(states, wall, ops, n) && |states[|ops|]| == 1
              && Buried(LifeEvents(states, wall, ops, |ops|)) == n
  {
    var ops := seq(n + 1, _ => AfterOp(0, 0, 0, true));
    var states := seq(n + 2, k => if k == 0 then map[] else map[0 := wall(0)]);
    forall k | 0 <= k < |ops|
      ensures NodeStep(states[k], wall, ops[k], states[k + 1])
    {
      FirstOrAgain(states[k], wall);
    }
    assert Rearming(states, wall, ops, n);
    RearmingPileUp(states, wall, ops, n, n + 1);
  }

  lemma {:induction false} FirstOrAgain(p: Pending, wall: nat -> nat)
    requires p == map[] || p == map[0 := wall(0)]
    ensures NodeStep(p, wall, AfterOp(0, 0, 0, true), map[0 := wall(0)])
  {}
}

/** The id layer of FirmwareNode over the timer wheel. */
module FirmwareTimers {
  import opened Wrappers
  import opened NodeClock
  import opened Ticks
  import opened TimerSpec
  import opened TimerWheel
  import opened FirmwareSpec

  /** Two maps that are each other's inverse. */
  ghost predicate Inverse(ids: map<nat, TimerHandle>, handles: map<TimerHandle, nat>) {
    && (forall id <- ids :: ids[id] in handles && handles[ids[id]] == id)
    && (forall h <- handles :: handles[h] in ids && ids[handles[h]] == h)
  }

  /** The maps name exactly the live wheel entries, which are one-shot, and at most 64 of them. */
  ghost predicate Consistent(ids: map<nat, TimerHandle>, handles: map<TimerHandle, nat>, s: Schedule) {
    && Inverse(ids, handles)
    && handles.Keys == s.live.Keys
    && |ids| <= MAX_TIMERS
    && Sound(s) && OneShot(s)
  }

  ghost predicate OneShot(s: Schedule) {
    (forall h <- s.live :: s.live[h].period == 0) && (forall h <- s.dead :: h < s.next)
  }

  ghost function PendingOf(ids: map<nat, TimerHandle>, handles: map<TimerHandle, nat>, s: Schedule): Pending
    requires Consistent(ids, handles, s)
  {
    map id | id in ids :: s.live[ids[id]].deadline
  }

  /** What cancelling or popping the entry of a pending id leaves. */
  ghost predicate Without(s: Schedule, h: TimerHandle, s': Schedule) {
    s'.next == s.next && s'.live == s.live - {h} && s'.dead <= s.dead + {h}
  }

  lemma {:induction false} UnlinkEffect(ids: map<nat, TimerHandle>, handles: map<TimerHandle, nat>, s: Schedule,
                                        id: nat, s': Schedule)
    requires Consistent(ids, handles, s) && id in ids && Without(s, ids[id], s')
    ensures Consistent(ids - {id}, handles - {ids[id]}, s')
    ensures PendingOf(ids - {id}, handles - {ids[id]}, s') == PendingOf(ids, handles, s) - {id}
    ensures |ids - {id}| == |ids| - 1
  {
    UnlinkConsistent(ids, handles, s, id, s');
    hide Without;
    UnlinkPending(ids, handles, s, id, s');
  }

  lemma {:induction false} UnlinkConsistent(ids: map<nat, TimerHandle>, handles: map<TimerHandle, nat>, s: Schedule,
                                            id: nat, s': Schedule)
    requires Consistent(ids, handles, s) && id in ids && Without(s, ids[id], s')
    ensures Consistent(ids - {id}, handles - {ids[id]}, s') && |ids - {id}| == |ids| - 1
  {
    hide Sound, OneShot, Inverse;
    assert (ids - {id}).Keys == ids.Keys - {id};
    assert |(ids - {id}).Keys| == |ids.Keys| - 1;
    InverseUnlink(ids, handles, id);
    assert ids[id] in s.live.Keys;
    StillSound(s, s', ids[id]);
    assert (handles - {ids[id]}).Keys == s'.live.Keys;
  }

  lemma {:induction false} UnlinkPending(ids: map<nat, TimerHandle>, handles: map<TimerHandle, nat>, s: Schedule,
                                         id: nat, s': Schedule)
    requires Consistent(ids, handles, s) && id in ids && Without(s, ids[id], s')
    requires Consistent(ids - {id}, handles - {ids[id]}, s')
    ensures PendingOf(ids - {id}, handles - {ids[id]}, s') == PendingOf(ids, handles, s) - {id}
  {
    hide Sound;
    forall j | j in ids && j != id
      ensures s'.live[ids[j]] == s.live[ids[j]]
    {
      assert j in ids - {id};
      assert ids[j] in s'.live.Keys;
    }
  }

  lemma {:induction false} InverseUnlink(ids: map<nat, TimerHandle>, handles: map<TimerHandle, nat>, id: nat)
    requires Inverse(ids, handles) && id in ids
    ensures Inverse(ids - {id}, handles - {ids[id]}) && ids[id] in handles
  {}

  lemma {:induction false} StillSound(s: Schedule, s': Schedule, h: TimerHandle)
    requires Sound(s) && OneShot(s) && h in s.live && Without(s, h, s')
    ensures Sound(s') && OneShot(s')
  {}

  /** What scheduling a one-shot leaves: one more live entry under the next handle. */
  ghost predicate With(s: Schedule, h: TimerHandle, deadline: nat, s': Schedule) {
    h == s.next && s'.live == s.live[h := Timer(deadline, 0)] && s'.dead == s.dead && s'.next == h + 1
  }

  lemma {:induction false} LinkEffect(ids: map<nat, TimerHandle>, handles: map<TimerHandle, nat>, s: Schedule,
                                      id: nat, deadline: nat, h: TimerHandle, s': Schedule)
    requires Consistent(ids, handles, s) && id !in ids && |ids| < MAX_TIMERS && With(s, h, deadline, s')
    ensures Consistent(ids[id := h], handles[h := id], s')
    ensures PendingOf(ids[id := h], handles[h := id], s') == PendingOf(ids, handles, s)[id := deadline]
  {
    LinkConsistent(ids, handles, s, id, deadline, h, s');
    LinkPending(ids, handles, s, id, deadline, h, s');
  }

  lemma {:induction false} LinkConsistent(ids: map<nat, TimerHandle>, handles: map<TimerHandle, nat>, s: Schedule,
                                          id: nat, deadline: nat, h: TimerHandle, s': Schedule)
    requires Consistent(ids, handles, s) && id !in ids && |ids| < MAX_TIMERS && With(s, h, deadline, s')
    ensures Consistent(ids[id := h], handles[h := id], s')
  {
    hide Sound, OneShot, Inverse;
    ArmedSound(s, h, deadline, s');
    assert h !in handles.Keys;
    assert ids[id := h].Keys == ids.Keys + {id};
    InverseLink(ids, handles, id, h);
    assert handles[h := id].Keys == s'.live.Keys;
  }

  lemma {:induction false} LinkPending(ids: map<nat, TimerHandle>, handles: map<TimerHandle, nat>, s: Schedule,
                                       id: nat, deadline: nat, h: TimerHandle, s': Schedule)
    requires Consistent(ids, handles, s) && id !in ids && With(s, h, deadline, s')
    requires Consistent(ids[id := h], handles[h := id], s')
    ensures PendingOf(ids[id := h], handles[h := id], s') == PendingOf(ids, handles, s)[id := deadline]
  {
    ArmedSound(s, h, deadline, s');
    hide Sound, OneShot;
    forall j | j in ids
      ensures s'.live[ids[j]] == s.live[ids[j]]
    {
      assert ids[j] in s.live.Keys;
    }
  }

  lemma {:induction false} ArmedSound(s: Schedule, h: TimerHandle, deadline: nat, s': Schedule)
    requires Sound(s) && OneShot(s) && With(s, h, deadline, s')
    ensures Sound(s') && OneShot(s') && h !in s.live
  {}

  lemma {:induction false} InverseLink(ids: map<nat, TimerHandle>, handles: map<TimerHandle, nat>, id: nat,
                                       h: TimerHandle)
    requires Inverse(ids, handles) && id !in ids && h !in handles
    ensures Inverse(ids[id := h], handles[h := id])
  {}

  /** The earliest live wheel entry is the earliest pending id. */
  lemma {:induction false} EarliestPending(ids: map<nat, TimerHandle>, handles: map<TimerHandle, nat>, s: Schedule,
                                           e: TimerEntry, now: nat)
    requires Consistent(ids, handles, s) && Earliest(s, e) && e.deadline <= now
    ensures e.handle in handles && e.period == 0 && ids[handles[e.handle]] == e.handle
    ensures FiresNext(PendingOf(ids, handles, s), Firing(handles[e.handle], e.deadline), now)
  {
    var p := PendingOf(ids, handles, s);
    assert e.handle in handles.Keys;
    forall id | id in p
      ensures e.deadline <= p[id]
    {
      assert ids[id] in s.live.Keys;
    }
  }

  lemma {:induction false} NonePending(ids: map<nat, TimerHandle>, handles: map<TimerHandle, nat>, s: Schedule,
                                       now: nat)
    requires Consistent(ids, handles, s) && TimerSpec.NoneDue(s, now)
    ensures FirmwareSpec.NoneDue(PendingOf(ids, handles, s), now)
  {
    forall id | id in ids
      ensures now < s.live[ids[id]].deadline
    {
      assert ids[id] in s.live.Keys;
    }
  }

  lemma {:induction false} FewerPending(p: Pending, f: Firing, now: nat, wall: nat -> nat)
    requires FiresNext(p, f, now)
    ensures |Effects(p - {f.id}, now, wall, [])| < |p|
  {
    assert (p - {f.id}).Keys == p.Keys - {f.id};
  }

  lemma {:induction false} SetTwice(p: Pending, id: nat, deadline: nat)
    ensures (p - {id})[id := deadline] == p[id := deadline]
    ensures id !in p ==> p - {id} == p
  {}

  lemma {:induction false} SameIds(ids: map<nat, TimerHandle>, handles: map<TimerHandle, nat>, s: Schedule)
    requires Consistent(ids, handles, s)
    ensures |PendingOf(ids, handles, s)| == |ids| <= MAX_TIMERS
    ensures forall id :: id in PendingOf(ids, handles, s) <==> id in ids
  {
    assert PendingOf(ids, handles, s).Keys == ids.Keys;
  }

  class FirmwareNode {
    const timers: TimerWheel
    /** Node milliseconds to wall milliseconds at this node's crystal drift. */
    const toWall: nat -> nat
    var idToHandle: map<nat, TimerHandle>
    var handleToId: map<TimerHandle, nat>
    /** Everything that has happened to this node's timers. */
    ghost var history: seq<Event>

    /** The maps and the wheel agree; an operation may be under way. */
    ghost predicate Linked()
      reads this`idToHandle, this`handleToId, timers
    {
      timers.Valid() && Consistent(idToHandle, handleToId, timers.Abs())
    }

    /** Between operations the history explains the pending timers and counts the tombstones. */
    ghost predicate Valid()
      reads this, timers
    {
      Linked() && Explains(history, Pending()) && |timers.cancelled| == Buried(history)
    }

    ghost function Pending(): Pending
      reads this`idToHandle, this`handleToId, timers
      requires Linked()
    {
      PendingOf(idToHandle, handleToId, timers.Abs())
    }

    constructor (driftPpm: real)
      ensures Valid() && fresh(timers) && history == [] && timers.cancelled == []
      ensures Pending() == map[] && (forall d :: toWall(d) == WallDelay(d, driftPpm))
    {
      timers := new TimerWheel();
      toWall := d => WallDelay(d, driftPpm);
      idToHandle := map[];
      handleToId := map[];
      history := [];
      new;
      NothingExplained();
    }

    /** Cancels the wheel entry of a pending id and forgets it in both maps. */
    method Unlink(id: nat)
      requires Linked()
      requires id in idToHandle
      modifies this`idToHandle, this`handleToId, timers
      ensures Linked()
      ensures Pending() == old(Pending()) - {id}
      ensures idToHandle == old(idToHandle) - {id} && |idToHandle| == |old(idToHandle)| - 1
      ensures |timers.cancelled| == old(|timers.cancelled|) + 1
    {
      ghost var ids, handles, s := idToHandle, handleToId, timers.Abs();
      var h := idToHandle[id];
      timers.Cancel(h);
      UnlinkEffect(ids, handles, s, id, timers.Abs());
      handleToId := handleToId - {h};
      idToHandle := idToHandle - {id};
    }

    /** Schedules a one-shot wheel entry for an id that is not pending and records it in both maps. */
    method Link(now: nat, wall: nat, id: nat)
      requires Linked()
      requires id !in idToHandle && |idToHandle| < MAX_TIMERS
      modifies this`idToHandle, this`handleToId, timers
      ensures Linked()
      ensures Pending() == old(Pending())[id := now + wall]
      ensures timers.cancelled == old(timers.cancelled)
    {
      ghost var ids, handles, s := idToHandle, handleToId, timers.Abs();
      var h := timers.ScheduleAfter(now, wall, 0);
      LinkEffect(ids, handles, s, id, now + wall, h, timers.Abs());
      idToHandle := idToHandle[id := h];
      handleToId := handleToId[h := id];
    }

    /** simAfter on the maps and the wheel: re-arming a pending id leaves a tombstone. */
    method Rearm(now: nat, delay: nat, id: nat) returns (ok: bool)
      requires Linked()
      modifies this`idToHandle, this`handleToId, timers
      ensures Linked() && NodeStep(old(Pending()), toWall, AfterOp(now, delay, id, ok), Pending())
      ensures |timers.cancelled| == old(|timers.cancelled|) + if id in old(Pending()) then 1 else 0
    {
      hide Consistent, PendingOf;
      ghost var p := Pending();
      SameIds(idToHandle, handleToId, timers.Abs());
      SetTwice(p, id, now + toWall(delay));
      if id in idToHandle {
        Unlink(id);
      }
      assert Pending() == p - {id};
      if |idToHandle| >= MAX_TIMERS {
        assert !Accepts(p, id);
        return false;
      }
      assert Accepts(p, id);
      Link(now, toWall(delay), id);
      assert Pending() == p[id := now + toWall(delay)];
      return true;
    }

    /** Arms timer `id`; arming a pending id reschedules it, and only a 65th id is refused. */
    method SimAfter(now: nat, delay: nat, id: nat) returns (ok: bool)
      requires Valid()
      modifies this, timers
      ensures Valid() && NodeStep(old(Pending()), toWall, AfterOp(now, delay, id, ok), Pending())
      ensures ok <==> id in old(Pending()) || |old(Pending())| < 64
      ensures Pending() == if ok then old(Pending())[id := now + toWall(delay)] else old(Pending())
      ensures history == old(history) + CallEvents(old(Pending()), now, toWall, After(delay, id))
      ensures |timers.cancelled| == old(|timers.cancelled|) + if id in old(Pending()) then 1 else 0
    {
      hide Linked, Pending, Explains, Buried;
      ghost var p, call := Pending(), After(delay, id);
      ExplainsCall(history, p, now, toWall, call);
      TombstonesCall(history, p, now, toWall, call);
      ok := Rearm(now, delay, id);
      history := history + CallEvents(p, now, toWall, call);
    }

    /** simCancel on the maps and the wheel. */
    method Disarm(id: nat)
      requires Linked()
      modifies this`idToHandle, this`handleToId, timers
      ensures Linked() && Pending() == old(Pending()) - {id}
      ensures |timers.cancelled| == old(|timers.cancelled|) + if id in old(Pending()) then 1 else 0
    {
      hide Consistent, PendingOf;
      SameIds(idToHandle, handleToId, timers.Abs());
      SetTwice(Pending(), id, 0);
      if id !in idToHandle {
        return;
      }
      Unlink(id);
    }

    /** Cancels timer `id`; only a pending one leaves a tombstone. */
    method SimCancel(id: nat)
      requires Valid()
      modifies this, timers
      ensures Valid() && NodeStep(old(Pending()), toWall, FirmwareSpec.CancelOp(id), Pending())
      ensures history == old(history) + CallEvents(old(Pending()), 0, toWall, Drop(id))
      ensures |timers.cancelled| == old(|timers.cancelled|) + if id in old(Pending()) then 1 else 0
    {
      hide Linked, Pending, Explains, Buried;
      ghost var p := Pending();
      ExplainsCall(history, p, 0, toWall, Drop(id));
      TombstonesCall(history, p, 0, toWall, Drop(id));
      Disarm(id);
      history := history + CallEvents(p, 0, toWall, Drop(id));
    }

    /** The firmware's onTimer callback: it makes these host calls, in order. */
    method Callback(now: nat, calls: seq<HalCall>)
      requires Valid()
      modifies this, timers
      ensures Valid() && Pending() == Effects(old(Pending()), now, toWall, calls)
      ensures history == old(history) + CallsEvents(old(Pending()), now, toWall, calls)
    {
      hide Linked, Pending, Explains, Buried;
      ghost var p := Pending();
      for i := 0 to |calls|
        invariant Valid() && Pending() == Effects(p, now, toWall, calls[..i])
        invariant history == old(history) + CallsEvents(p, now, toWall, calls[..i])
      {
        assert calls[..i + 1][..i] == calls[..i];
        match calls[i] {
          case After(delay, id) => var _ := SimAfter(now, delay, id);
          case Drop(id) => SimCancel(id);
        }
      }
      assert calls[..|calls|] == calls;
    }

    /**
     * Pops the earliest due timer and forgets its id before the callback runs. A popped entry always
     * has an id and is always one-shot: the source's skip of stale handles is never taken.
     */
    method PopFiring(now: nat) returns (f: Option<Firing>)
      requires Linked()
      modifies this`idToHandle, this`handleToId, timers
      ensures Linked() && timers.cancelled == old(timers.cancelled)
      ensures f.None? ==> FirmwareSpec.NoneDue(Pending(), now) && Pending() == old(Pending())
      ensures f.Some? ==> FiresNext(old(Pending()), f.value, now) && Pending() == old(Pending()) - {f.value.id}
    {
      ghost var ids, handles, s := idToHandle, handleToId, timers.Abs();
      var popped := timers.PopDue(now);
      if popped.None? {
        NonePending(ids, handles, s, now);
        return None;
      }
      var e := popped.value;
      EarliestPending(ids, handles, s, e, now);
      var id := handleToId[e.handle];
      UnlinkEffect(ids, handles, s, id, timers.Abs());
      handleToId := handleToId - {e.handle};
      idToHandle := idToHandle - {id};
      return Some(Firing(id, e.deadline));
    }

    /** Notes a firing in the history; firings leave no tombstone. */
    ghost method Record(p: Pending, e: Event)
      requires Linked() && Explains(history, p) && |timers.cancelled| == Buried(history)
      requires e.Fired? && e.id in p && p[e.id] == e.deadline && Pending() == p - {e.id}
      modifies this`history
      ensures Valid() && Pending() == old(Pending()) && history == old(history) + [e]
    {
      hide Linked, Pending, Explains, Buried;
      ExplainsOne(history, p, e);
      TombstonesOne(history, e);
      history := history + [e];
    }

    /** One turn of the tick: the next firing, if one is due, and the host calls of its callback. */
    method FireNext(now: nat, calls: seq<HalCall>) returns (f: Option<Firing>)
      requires Valid()
      modifies this, timers
      ensures Valid()
      ensures f.None? ==> FirmwareSpec.NoneDue(Pending(), now) && Pending() == old(Pending()) && history == old(history)
      ensures f.Some? ==>
                && FiresNext(old(Pending()), f.value, now)
                && Pending() == Effects(old(Pending()) - {f.value.id}, now, toWall, calls)
                && history == old(history) + [Fired(f.value.id, f.value.deadline)]
                              + CallsEvents(old(Pending()) - {f.value.id}, now, toWall, calls)
    {
      hide Linked, Pending, Explains, Buried;
      ghost var p := Pending();
      f := PopFiring(now);
      if f.Some? {
        Record(p, Fired(f.value.id, f.value.deadline));
        Callback(now, calls);
      }
    }

    /**
     * Fires everything due at `now`. The k-th callback makes the calls `script[k]`; the loop ends
     * because every firing uses up a callback of the script or, after its end, a pending timer.
     */
    method TickTimers(now: nat, script: seq<seq<HalCall>>) returns (fired: seq<Firing>)
      requires Valid()
      modifies this, timers
      ensures Valid() && NodeStep(old(Pending()), toWall, TickOp(now, script, fired), Pending())
      ensures history == old(history) + FiringEvents(old(Pending()), now, toWall, script, fired)
    {
      hide Linked, Explains, Buried, Pending, Settled, FiringEvents, TickFirings, FiresNext;
      hide Effects, CallsEvents, FirmwareSpec.NoneDue;
      ghost var p := Pending();
      fired := [];
      NothingFired(p, now, toWall, script);
      while true
        invariant Valid()
        invariant TickFirings(p, now, toWall, script, fired)
        invariant Pending() == Settled(p, now, toWall, script, fired)
        invariant history == old(history) + FiringEvents(p, now, toWall, script, fired)
        decreases if |fired| < |script| then |script| - |fired| else 0, |Pending()|
      {
        ghost var q := Pending();
        var f := FireNext(now, CallsOf(script, |fired|));
        if f.None? {
          break;
        }
        ExtendTick(p, now, toWall, script, fired, f.value);
        ExtendEvents(old(history), p, now, toWall, script, fired, f.value);
        FewerPending(q, f.value, now, toWall);
        fired := fired + [f.value];
      }
    }
  }

  /** The tombstones a node has in its wheel are the re-arms and cancellations of pending ids so far. */
  lemma {:induction false} TombstonesOfNode(node: FirmwareNode)
    requires node.Valid()
    ensures |node.timers.cancelled| == |Rearms(node.history)| + |Cancellations(node.history)|
    ensures |node.timers.cancelled| <= MAX_TIMERS
       <==> |Rearms(node.history)| + |Cancellations(node.history)| <= MAX_TIMERS
  {
    TombstonesCounted(node.history);
  }

  lemma {:induction false} FirstArmed(wall: nat -> nat)
    ensures forall ok, p' | NodeStep(map[], wall, AfterOp(0, 10, 0, ok), p') :: p' == map[0 := wall(10)]
    ensures forall ok, p' | NodeStep(map[0 := wall(10)], wall, AfterOp(0, 10, 0, ok), p') :: p' == map[0 := wall(10)]
  {}

  /** One timer re-armed 65 times: more tombstones than there can be pending timers. */
  method OverrunTombstones(driftPpm: real) returns (node: FirmwareNode)
    ensures node.Valid() && |node.Pending()| == 1
    ensures |node.timers.cancelled| == 65 > MAX_TIMERS
  {
    hide NodeStep, CallEvents, Buried, Explains, FirmwareNode.Linked, FirmwareNode.Pending;
    node := new FirmwareNode(driftPpm);
    FirstArmed(node.toWall);
    var ok := node.SimAfter(0, 10, 0);
    for i := 0 to 65
      invariant fresh(node) && fresh(node.timers) && node.Valid()
      invariant node.Pending() == map[0 := node.toWall(10)] && |node.timers.cancelled| == i
    {
      ok := node.SimAfter(0, 10, 0);
    }
  }
}
