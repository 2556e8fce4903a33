/**
 * The simple meaning of a timer wheel: a map from live handle to deadline and period. Every
 * operation of the heap-and-tombstone implementation below is a step of this specification.
 */
module TimerSpec {
  import opened Wrappers

  type TimerHandle = nat

  /** A heap entry, and what peek and popDue copy out. A period of 0 means one-shot. */
  datatype TimerEntry = TimerEntry(deadline: nat, handle: TimerHandle, period: nat)

  datatype Timer = Timer(deadline: nat, period: nat)

  /** `dead` holds every handle ever cancelled, including handles not issued yet. */
  datatype Schedule = Schedule(live: map<TimerHandle, Timer>, dead: set<TimerHandle>, next: TimerHandle)

  const EMPTY: Schedule := Schedule(map[], {}, 1)

  /** Issues handle `s.next`; a handle cancelled before it was issued never comes alive. */
  function Arm(s: Schedule, deadline: nat, period: nat): Schedule {
    s.(next := s.next + 1,
       live := if s.next in s.dead then s.live else s.live[s.next := Timer(deadline, period)])
  }

  function Cancel(s: Schedule, h: TimerHandle): Schedule {
    s.(live := s.live - {h}, dead := s.dead + {h})
  }

  /** `e` is a live entry that no live entry precedes. */
  ghost predicate Earliest(s: Schedule, e: TimerEntry) {
    && e.handle in s.live
    && s.live[e.handle] == Timer(e.deadline, e.period)
    && forall h <- s.live :: e.deadline <= s.live[h].deadline
  }

  ghost predicate NoneDue(s: Schedule, now: nat) {
    forall h <- s.live :: now < s.live[h].deadline
  }

  /** A recurring entry comes back one period later under the same handle; a one-shot is gone. */
  function Fire(s: Schedule, e: TimerEntry): Schedule {
    s.(live := if e.period > 0 then s.live[e.handle := Timer(e.deadline + e.period, e.period)]
               else s.live - {e.handle})
  }

  datatype Op =
    | ScheduleAfterOp(now: nat, delay: nat, period: nat, issued: TimerHandle)
    | CancelOp(h: TimerHandle)
    | PeekOp(seen: Option<TimerEntry>)
    | PopDueOp(at: nat, popped: Option<TimerEntry>)

  ghost predicate Step(s: Schedule, op: Op, s': Schedule) {
    match op
    case ScheduleAfterOp(now, delay, period, h) => h == s.next && s' == Arm(s, now + delay, period)
    case CancelOp(h) => s' == Cancel(s, h)
    case PeekOp(None) => s' == s && s.live == map[]
    case PeekOp(Some(e)) => s' == s && Earliest(s, e)
    case PopDueOp(at, None) => s' == s && NoneDue(s, at)
    case PopDueOp(at, Some(e)) => Earliest(s, e) && e.deadline <= at && s' == Fire(s, e)
  }

  /** A run: `states[k]` is the schedule before `ops[k]`. */
  ghost predicate Run(states: seq<Schedule>, ops: seq<Op>) {
    && |states| == |ops| + 1
    && states[0] == EMPTY
    && forall k | 0 <= k < |ops| :: Step(states[k], ops[k], states[k + 1])
  }

  // ----- what every run guarantees ------------------------------------------

  ghost predicate Sound(s: Schedule) {
    && 1 <= s.next
    && forall h <- s.live :: 1 <= h < s.next && h !in s.dead
  }

  lemma {:induction false} RunSound(states: seq<Schedule>, ops: seq<Op>, k: nat)
    requires Run(states, ops) && k <= |ops|
    ensures Sound(states[k])
  {
    if k != 0 {
      RunSound(states, ops, k - 1);
      assert Step(states[k - 1], ops[k - 1], states[k]);
    }
  }

  /** Handles only grow and tombstones never disappear. */
  lemma {:induction false} RunMonotone(states: seq<Schedule>, ops: seq<Op>, i: nat, j: nat)
    requires Run(states, ops) && i <= j <= |ops|
    ensures states[i].next <= states[j].next && states[i].dead <= states[j].dead
    decreases j - i
  {
    if i < j {
      RunMonotone(states, ops, i, j - 1);
      assert Step(states[j - 1], ops[j - 1], states[j]);
    }
  }

  /** A cancelled handle is never returned again, by peek or by popDue, recurring or not. */
  lemma {:induction false} CancelIsFinal(states: seq<Schedule>, ops: seq<Op>, i: nat, j: nat)
    requires Run(states, ops) && i < j < |ops|
    requires ops[i].CancelOp?
    ensures ops[j].PeekOp? && ops[j].seen.Some? ==> ops[j].seen.value.handle != ops[i].h
    ensures ops[j].PopDueOp? && ops[j].popped.Some? ==> ops[j].popped.value.handle != ops[i].h
  {
    assert Step(states[i], ops[i], states[i + 1]);
    RunMonotone(states, ops, i + 1, j);
    RunSound(states, ops, j);
    assert Step(states[j], ops[j], states[j + 1]);
  }

  /** No handle is issued twice, and none is the invalid handle 0. */
  lemma {:induction false} HandlesUnique(states: seq<Schedule>, ops: seq<Op>, i: nat, j: nat)
    requires Run(states, ops) && i < j < |ops|
    requires ops[i].ScheduleAfterOp? && ops[j].ScheduleAfterOp?
    ensures 0 < ops[i].issued < ops[j].issued
  {
    assert Step(states[i], ops[i], states[i + 1]);
    assert Step(states[j], ops[j], states[j + 1]);
    RunMonotone(states, ops, i + 1, j);
    RunSound(states, ops, i);
  }

  ghost predicate FiresHandle(op: Op, h: TimerHandle) {
    op.PopDueOp? && op.popped.Some? && op.popped.value.handle == h
  }

  /** How often `h` fired in a stretch of a run. */
  ghost function Firings(ops: seq<Op>, h: TimerHandle): nat {
    if ops == [] then 0
    else Firings(ops[..|ops| - 1], h) + if FiresHandle(ops[|ops| - 1], h) then 1 else 0
  }

  /** A timer armed for `start` with period `p` that has fired n times, one-shots never. */
  ghost predicate OnBeat(t: Timer, start: nat, p: nat, n: nat) {
    t == Timer(start + n * p, p) && (p == 0 ==> n == 0)
  }

  /** One step keeps a timer on its beat. */
  lemma {:induction false} StepKeepsBeat(s: Schedule, op: Op, s': Schedule, h: TimerHandle, start: nat, p: nat, n: nat)
    requires Sound(s) && Step(s, op, s')
    requires h in s'.live && h < s.next
    ensures h in s.live
    ensures OnBeat(s.live[h], start, p, n)
        ==> OnBeat(s'.live[h], start, p, n + if FiresHandle(op, h) then 1 else 0)
  {
    if FiresHandle(op, h) {
      assert (n + 1) * p == n * p + p;
    }
  }

  /** Every live timer stands at its armed deadline plus one period per firing so far. */
  lemma {:induction false} LiveTimersAreOnBeat(states: seq<Schedule>, ops: seq<Op>, k: nat, h: TimerHandle)
    returns (i: nat)
    requires Run(states, ops) && k <= |ops|
    requires h in states[k].live
    ensures i < k && ops[i].ScheduleAfterOp? && ops[i].issued == h
    ensures OnBeat(states[k].live[h], ops[i].now + ops[i].delay, ops[i].period, Firings(ops[..k], h))
  {
    var op := ops[k - 1];
    assert Step(states[k - 1], op, states[k]);
    RunSound(states, ops, k - 1);
    RunSound(states, ops, k);
    assert ops[..k][..k - 1] == ops[..k - 1] && ops[..k][k - 1] == op;
    if h < states[k - 1].next {
      StepKeepsBeat(states[k - 1], op, states[k], h, 0, 0, 0);
      i := LiveTimersAreOnBeat(states, ops, k - 1, h);
      StepKeepsBeat(states[k - 1], op, states[k], h, ops[i].now + ops[i].delay, ops[i].period,
                    Firings(ops[..k - 1], h));
    } else {
      i := k - 1;
      NeverFiredBeforeIssued(states, ops, k - 1, h);
    }
  }

  lemma {:induction false} NeverFiredBeforeIssued(states: seq<Schedule>, ops: seq<Op>, k: nat, h: TimerHandle)
    requires Run(states, ops) && k <= |ops|
    requires states[k].next <= h
    ensures Firings(ops[..k], h) == 0
  {
    if k != 0 {
      RunMonotone(states, ops, k - 1, k);
      NeverFiredBeforeIssued(states, ops, k - 1, h);
      RunSound(states, ops, k - 1);
      assert Step(states[k - 1], ops[k - 1], states[k]);
      assert ops[..k][..k - 1] == ops[..k - 1];
    }
  }

  /**
   * Every firing is earned: its handle was issued by an earlier scheduleAfter, this is its n-th
   * firing exactly at the armed deadline plus n periods, and a one-shot fires at most once.
   */
  lemma {:induction false} FiringIsOnBeat(states: seq<Schedule>, ops: seq<Op>, k: nat) returns (i: nat)
    requires Run(states, ops) && k < |ops|
    requires ops[k].PopDueOp? && ops[k].popped.Some?
    ensures i < k && ops[i].ScheduleAfterOp? && ops[i].issued == ops[k].popped.value.handle
    ensures var n, e := Firings(ops[..k], ops[i].issued), ops[k].popped.value;
            && e.deadline <= ops[k].at
            && OnBeat(Timer(e.deadline, e.period), ops[i].now + ops[i].delay, ops[i].period, n)
  {
    assert Step(states[k], ops[k], states[k + 1]);
    i := LiveTimersAreOnBeat(states, ops, k, ops[k].popped.value.handle);
  }
}

/** A heap of deadlines with lazy cancellation. */
module TimerWheel {
  import opened Wrappers
  import opened TimerSpec

  // ----- the heap's entries and the live map they stand for -----------------

  /** Handles identify entries, and every one of them has been issued. */
  ghost predicate Keyed(entries: set<TimerEntry>, next: TimerHandle) {
    && (forall e | e in entries :: 1 <= e.handle < next)
    && (forall e, f | e in entries && f in entries && e.handle == f.handle :: e == f)
  }

  /** No entry carries handle `h`. */
  ghost predicate Fresh(entries: set<TimerEntry>, h: TimerHandle) {
    forall e | e in entries :: e.handle != h
  }

  ghost predicate Maps(live: map<TimerHandle, Timer>, h: TimerHandle, t: Timer) {
    h in live && live[h] == t
  }

  ghost function TimerOf(entries: set<TimerEntry>, h: TimerHandle): Timer
    requires !Fresh(entries, h)
  {
    var e :| e in entries && e.handle == h;
    Timer(e.deadline, e.period)
  }

  /** `live` holds exactly the entries not tombstoned, by handle. */
  ghost predicate Represents(entries: set<TimerEntry>, cancelled: set<TimerHandle>, live: map<TimerHandle, Timer>) {
    forall h, t: Timer {:trigger Maps(live, h, t)} ::
      Maps(live, h, t) <==> h !in cancelled && TimerEntry(t.deadline, h, t.period) in entries
  }

  lemma {:induction false} RepresentationExists(entries: set<TimerEntry>, cancelled: set<TimerHandle>,
                                                next: TimerHandle)
    requires Keyed(entries, next)
    ensures exists live :: Represents(entries, cancelled, live)
  {
    var handles := set e | e in entries :: e.handle;
    assert forall h :: h in handles <==> !Fresh(entries, h);
    var live := map h | h in handles && h !in cancelled :: TimerOf(entries, h);
    assert forall h, t: Timer | h !in cancelled && TimerEntry(t.deadline, h, t.period) in entries ::
        TimerEntry(t.deadline, h, t.period).handle in live;
    assert Represents(entries, cancelled, live);
  }

  ghost function LiveMap(entries: set<TimerEntry>, cancelled: set<TimerHandle>, next: TimerHandle)
    : map<TimerHandle, Timer>
    requires Keyed(entries, next)
  {
    RepresentationExists(entries, cancelled, next);
    var live :| Represents(entries, cancelled, live);
    live
  }

  lemma {:induction false} Determined(entries: set<TimerEntry>, cancelled: set<TimerHandle>, next: TimerHandle,
                                      b: map<TimerHandle, Timer>)
    requires Keyed(entries, next) && Represents(entries, cancelled, b)
    ensures LiveMap(entries, cancelled, next) == b
  {
    var a := LiveMap(entries, cancelled, next);
    forall h | h in a
      ensures h in b && a[h] == b[h]
    {
      assert Maps(a, h, a[h]);
      assert Maps(b, h, a[h]);
    }
    forall h | h in b
      ensures h in a
    {
      assert Maps(b, h, b[h]);
      assert Maps(a, h, b[h]);
    }
  }

  /** Taking an entry off the heap takes its handle out of the live map. */
  lemma {:induction false} PopEffect(entries: set<TimerEntry>, cancelled: set<TimerHandle>, next: TimerHandle,
                                     e: TimerEntry)
    requires Keyed(entries, next) && e in entries
    ensures Keyed(entries - {e}, next) && Fresh(entries - {e}, e.handle)
    ensures LiveMap(entries - {e}, cancelled, next) == LiveMap(entries, cancelled, next) - {e.handle}
  {
    var live := LiveMap(entries, cancelled, next);
    forall h, t: Timer
      ensures Maps(live - {e.handle}, h, t) <==> h !in cancelled && TimerEntry(t.deadline, h, t.period) in entries - {e}
    {
      assert Maps(live - {e.handle}, h, t) <==> h != e.handle && Maps(live, h, t);
    }
    Determined(entries - {e}, cancelled, next, live - {e.handle});
  }

  /** Pushing an entry under a fresh handle makes it live unless the handle is tombstoned. */
  lemma {:induction false} PushEffect(entries: set<TimerEntry>, cancelled: set<TimerHandle>, next: TimerHandle,
                                      e: TimerEntry)
    requires Keyed(entries, next) && Fresh(entries, e.handle) && 1 <= e.handle < next
    ensures Keyed(entries + {e}, next)
    ensures LiveMap(entries + {e}, cancelled, next)
         == if e.handle in cancelled then LiveMap(entries, cancelled, next)
            else LiveMap(entries, cancelled, next)[e.handle := Timer(e.deadline, e.period)]
  {
    var live := LiveMap(entries, cancelled, next);
    var more := if e.handle in cancelled then live else live[e.handle := Timer(e.deadline, e.period)];
    forall h, t: Timer
      ensures Maps(more, h, t) <==> h !in cancelled && TimerEntry(t.deadline, h, t.period) in entries + {e}
    {
      assert h != e.handle ==> (Maps(more, h, t) <==> Maps(live, h, t));
      assert h == e.handle ==> (Maps(live, h, t) ==> TimerEntry(t.deadline, h, t.period) in entries);
    }
    Determined(entries + {e}, cancelled, next, more);
  }

  lemma {:induction false} NextEffect(entries: set<TimerEntry>, cancelled: set<TimerHandle>, next: TimerHandle)
    requires Keyed(entries, next) && 1 <= next
    ensures Keyed(entries, next + 1) && Fresh(entries, next)
    ensures LiveMap(entries, cancelled, next + 1) == LiveMap(entries, cancelled, next)
  {
    Determined(entries, cancelled, next + 1, LiveMap(entries, cancelled, next));
  }

  lemma {:induction false} TombstoneEffect(entries: set<TimerEntry>, cancelled: set<TimerHandle>, next: TimerHandle,
                                           h: TimerHandle)
    requires Keyed(entries, next)
    ensures LiveMap(entries, cancelled + {h}, next) == LiveMap(entries, cancelled, next) - {h}
  {
    var live := LiveMap(entries, cancelled, next);
    forall g, t: Timer
      ensures Maps(live - {h}, g, t) <==> g !in cancelled + {h} && TimerEntry(t.deadline, g, t.period) in entries
    {
      assert Maps(live - {h}, g, t) <==> g != h && Maps(live, g, t);
    }
    Determined(entries, cancelled + {h}, next, live - {h});
  }

  /** An untombstoned entry with the least deadline of the heap is the earliest live timer. */
  lemma {:induction false} LiveTopIsEarliest(entries: set<TimerEntry>, cancelled: set<TimerHandle>, next: TimerHandle,
                                             e: TimerEntry)
    requires Keyed(entries, next)
    requires e in entries && e.handle !in cancelled
    requires forall f | f in entries :: e.deadline <= f.deadline
    ensures Earliest(Schedule(LiveMap(entries, cancelled, next), cancelled, next), e)
  {
    var live := LiveMap(entries, cancelled, next);
    assert TimerEntry(e.deadline, e.handle, e.period) == e;
    assert Maps(live, e.handle, Timer(e.deadline, e.period));
    forall h | h in live
      ensures e.deadline <= live[h].deadline
    {
      assert Maps(live, h, live[h]);
      assert TimerEntry(live[h].deadline, h, live[h].period) in entries;
    }
  }

  lemma {:induction false} NothingLive(cancelled: set<TimerHandle>, next: TimerHandle)
    ensures LiveMap({}, cancelled, next) == map[]
  {
    Determined({}, cancelled, next, map[]);
  }

  // ----- the priority queue ---------------------------------------------------

  ghost function Entries(heap: multiset<TimerEntry>): set<TimerEntry> {
    set e | e in heap
  }

  /** Each entry sits in the heap at most once, under a handle of its own. */
  ghost predicate HeapOk(heap: multiset<TimerEntry>, next: TimerHandle) {
    && 1 <= next
    && (forall e | e in heap :: heap[e] == 1)
    && Keyed(Entries(heap), next)
  }

  lemma {:induction false} EntriesPop(heap: multiset<TimerEntry>, e: TimerEntry)
    requires heap[e] == 1
    ensures Entries(heap - multiset{e}) == Entries(heap) - {e}
  {}

  lemma {:induction false} EntriesPush(heap: multiset<TimerEntry>, e: TimerEntry)
    ensures Entries(heap + multiset{e}) == Entries(heap) + {e}
  {}

  ghost predicate IsTop(heap: multiset<TimerEntry>, e: TimerEntry) {
    e in heap && forall f | f in heap :: e.deadline <= f.deadline
  }

  lemma {:induction false} TopExists(heap: multiset<TimerEntry>) returns (e: TimerEntry)
    requires heap != multiset{}
    ensures IsTop(heap, e)
    decreases |heap|
  {
    e :| e in heap;
    var rest := heap - multiset{e};
    if rest != multiset{} {
      var y := TopExists(rest);
      assert forall f | f in heap :: f == e || f in rest;
      if y.deadline < e.deadline {
        e := y;
      }
    } else {
      assert heap == multiset{e};
    }
  }

  ghost function Tombstones(cancelled: seq<TimerHandle>): set<TimerHandle> {
    set h | h in cancelled
  }

  /** The schedule a heap, its tombstones and its next handle stand for. */
  ghost function Meaning(heap: multiset<TimerEntry>, cancelled: seq<TimerHandle>, next: TimerHandle): Schedule
    requires HeapOk(heap, next)
  {
    var dead := Tombstones(cancelled);
    Schedule(LiveMap(Entries(heap), dead, next), dead, next)
  }

  lemma {:induction false} MeaningOfEmpty(cancelled: seq<TimerHandle>, next: TimerHandle)
    requires 1 <= next
    ensures Entries(multiset{}) == {}
    ensures HeapOk(multiset{}, next)
    ensures Meaning(multiset{}, cancelled, next).live == map[]
    ensures Meaning(multiset{}, [], 1) == EMPTY
  {
    assert Entries(multiset{}) == {};
    NothingLive(Tombstones(cancelled), next);
    NothingLive(Tombstones([]), 1);
  }

  lemma {:induction false} MeaningOfPop(heap: multiset<TimerEntry>, cancelled: seq<TimerHandle>, next: TimerHandle,
                                        e: TimerEntry)
    requires HeapOk(heap, next) && e in heap
    ensures HeapOk(heap - multiset{e}, next) && Fresh(Entries(heap - multiset{e}), e.handle)
    ensures var s := Meaning(heap, cancelled, next);
            Meaning(heap - multiset{e}, cancelled, next) == s.(live := s.live - {e.handle})
  {
    PopEffect(Entries(heap), Tombstones(cancelled), next, e);
    EntriesPop(heap, e);
  }

  lemma {:induction false} MeaningOfPush(heap: multiset<TimerEntry>, cancelled: seq<TimerHandle>, next: TimerHandle,
                                         e: TimerEntry)
    requires HeapOk(heap, next) && Fresh(Entries(heap), e.handle) && 1 <= e.handle < next
    ensures HeapOk(heap + multiset{e}, next)
    ensures var s := Meaning(heap, cancelled, next);
            Meaning(heap + multiset{e}, cancelled, next)
            == if e.handle in cancelled then s
               else s.(live := s.live[e.handle := Timer(e.deadline, e.period)])
  {
    PushEffect(Entries(heap), Tombstones(cancelled), next, e);
    EntriesPush(heap, e);
    assert e !in heap;
  }

  lemma {:induction false} MeaningOfNext(heap: multiset<TimerEntry>, cancelled: seq<TimerHandle>, next: TimerHandle)
    requires HeapOk(heap, next)
    ensures HeapOk(heap, next + 1) && Fresh(Entries(heap), next)
    ensures Meaning(heap, cancelled, next + 1) == Meaning(heap, cancelled, next).(next := next + 1)
  {
    NextEffect(Entries(heap), Tombstones(cancelled), next);
  }

  lemma {:induction false} MeaningOfCancel(heap: multiset<TimerEntry>, cancelled: seq<TimerHandle>, next: TimerHandle,
                                           h: TimerHandle)
    requires HeapOk(heap, next)
    ensures Meaning(heap, cancelled + [h], next) == Cancel(Meaning(heap, cancelled, next), h)
  {
    var dead := Tombstones(cancelled);
    assert Tombstones(cancelled + [h]) == dead + {h};
    TombstoneEffect(Entries(heap), dead, next, h);
  }

  lemma {:induction false} MeaningOfTop(heap: multiset<TimerEntry>, cancelled: seq<TimerHandle>, next: TimerHandle,
                                        e: TimerEntry)
    requires HeapOk(heap, next) && IsTop(heap, e) && e.handle !in cancelled
    ensures Earliest(Meaning(heap, cancelled, next), e)
  {
    LiveTopIsEarliest(Entries(heap), Tombstones(cancelled), next, e);
  }

  lemma {:induction false} LiveNotTombstoned(heap: multiset<TimerEntry>, cancelled: seq<TimerHandle>,
                                             next: TimerHandle, h: TimerHandle)
    requires HeapOk(heap, next)
    ensures var s := Meaning(heap, cancelled, next);
            && (h in s.live ==> h !in cancelled)
            && (h in cancelled ==> s.live - {h} == s.live)
  {
    var live := Meaning(heap, cancelled, next).live;
    assert h in live ==> Maps(live, h, live[h]);
    assert h !in live ==> live - {h} == live;
  }

  /** The entry a recurring entry is pushed back as. */
  function Again(e: TimerEntry): TimerEntry { TimerEntry(e.deadline + e.period, e.handle, e.period) }

  /** A live recurring entry popped and pushed back under its own handle has fired once. */
  lemma {:induction false} MeaningOfRepush(heap: multiset<TimerEntry>, cancelled: seq<TimerHandle>, next: TimerHandle,
                                           e: TimerEntry)
    requires HeapOk(heap, next) && Earliest(Meaning(heap, cancelled, next), e) && e in heap && e.period > 0
    ensures HeapOk(heap - multiset{e} + multiset{Again(e)}, next)
    ensures Meaning(heap - multiset{e} + multiset{Again(e)}, cancelled, next) == Fire(Meaning(heap, cancelled, next), e)
  {
    LiveNotTombstoned(heap, cancelled, next, e.handle);
    var s, rest := Meaning(heap, cancelled, next), heap - multiset{e};
    MeaningOfPop(heap, cancelled, next, e);
    assert e in Entries(heap);
    MeaningOfPush(rest, cancelled, next, Again(e));
    RearmTwice(s.live, e.handle, Timer(e.deadline + e.period, e.period));
  }

  lemma {:induction false} RearmTwice(live: map<TimerHandle, Timer>, h: TimerHandle, t: Timer)
    ensures (live - {h})[h := t] == live[h := t]
  {}

  lemma {:induction false} MeaningOfFiring(heap: multiset<TimerEntry>, cancelled: seq<TimerHandle>, next: TimerHandle,
                                           e: TimerEntry)
    requires HeapOk(heap, next) && Earliest(Meaning(heap, cancelled, next), e) && e in heap
    ensures var after := if e.period > 0 then heap - multiset{e} + multiset{Again(e)} else heap - multiset{e};
            HeapOk(after, next) && Meaning(after, cancelled, next) == Fire(Meaning(heap, cancelled, next), e)
  {
    if e.period > 0 {
      MeaningOfRepush(heap, cancelled, next, e);
    } else {
      MeaningOfPop(heap, cancelled, next, e);
    }
  }

  class TimerWheel {
    /** The priority queue: its top is some entry with the least deadline, ties in any order. */
    var heap: multiset<TimerEntry>
    var cancelled: seq<TimerHandle>
    var nextHandle: TimerHandle

    ghost predicate Valid()
      reads this
    {
      HeapOk(heap, nextHandle)
    }

    ghost function Abs(): Schedule
      reads this
      requires Valid()
    {
      Meaning(heap, cancelled, nextHandle)
    }

    constructor ()
      ensures Valid() && Abs() == EMPTY
      ensures cancelled == []
    {
      heap := multiset{};
      cancelled := [];
      nextHandle := 1;
      MeaningOfEmpty([], 1);
    }

    method ScheduleAfter(now: nat, delay: nat, period: nat) returns (h: TimerHandle)
      requires Valid()
      modifies this`heap, this`nextHandle
      ensures Valid() && Step(old(Abs()), ScheduleAfterOp(now, delay, period, h), Abs())
    {
      h := nextHandle;
      MeaningOfNext(heap, cancelled, h);
      nextHandle := nextHandle + 1;
      var e := TimerEntry(now + delay, h, period);
      MeaningOfPush(heap, cancelled, nextHandle, e);
      heap := heap + multiset{e};
    }

    /** Only a tombstone is recorded; the vector of tombstones is never swept. */
    method Cancel(h: TimerHandle)
      requires Valid()
      modifies this`cancelled
      ensures Valid() && Step(old(Abs()), CancelOp(h), Abs())
      ensures cancelled == old(cancelled) + [h]
    {
      MeaningOfCancel(heap, cancelled, nextHandle, h);
      cancelled := cancelled + [h];
    }

    method Top() returns (e: TimerEntry)
      requires heap != multiset{}
      ensures IsTop(heap, e)
    {
      ghost var t := TopExists(heap);
      e :| e in heap && forall f | f in heap :: e.deadline <= f.deadline;
    }

    /** Drops tombstoned entries from the top; what is then on top, if anything, is live. */
    method DropCancelledTop() returns (top: Option<TimerEntry>)
      requires Valid()
      modifies this`heap
      ensures Valid() && Abs() == old(Abs())
      ensures top.None? ==> Abs().live == map[]
      ensures top.Some? ==> IsTop(heap, top.value) && top.value.handle !in cancelled
      ensures top.Some? ==> Earliest(Abs(), top.value)
    {
      while heap != multiset{}
        invariant Valid() && Abs() == old(Abs())
        decreases |heap|
      {
        var e := Top();
        if e.handle !in cancelled {
          MeaningOfTop(heap, cancelled, nextHandle, e);
          return Some(e);
        }
        MeaningOfPop(heap, cancelled, nextHandle, e);
        LiveNotTombstoned(heap, cancelled, nextHandle, e.handle);
        heap := heap - multiset{e};
      }
      MeaningOfEmpty(cancelled, nextHandle);
      return None;
    }

    method Peek() returns (out: Option<TimerEntry>)
      requires Valid()
      modifies this`heap
      ensures Valid() && Step(old(Abs()), PeekOp(out), Abs())
    {
      out := DropCancelledTop();
    }

    method PopDue(now: nat) returns (out: Option<TimerEntry>)
      requires Valid()
      modifies this`heap
      ensures Valid() && Step(old(Abs()), PopDueOp(now, out), Abs())
    {
      var top := DropCancelledTop();
      if top.None? || top.value.deadline > now {
        return None;
      }
      var e := top.value;
      ghost var before := heap;
      heap := heap - multiset{e};
      if e.period > 0 {
        heap := heap + multiset{Again(e)};
      }
      MeaningOfFiring(before, cancelled, nextHandle, e);
      return Some(e);
    }
  }
}
