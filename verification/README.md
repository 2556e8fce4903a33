# Verified model of the mesh simulator's algorithmic core

The simulator runs LoRa mesh firmware and scripted nodes against a virtual clock and a simulated
radio channel. This project models the parts of it that are algorithms rather than plumbing, and
proves what those parts are for. `dafny verify dfyconfig.toml` checks everything.

| file | what it models |
|---|---|
| `TimerWheel.dfy` | the per-node timer heap with tombstone cancellation, proved to be a map of live timers |
| `FirmwareTimers.dfy` | the firmware's timer ids over that wheel, through callbacks that arm and cancel during a tick |
| `ScriptedTimers.dfy` | recurring timers of scripted nodes and the catch-up of one tick |
| `NodeClock.dfy` | crystal drift, rounded both ways |
| `AirtimeWindow.dfy` | the destructively pruned airtime log and the duty-cycle gate that relies on it |
| `LoraAirtime.dfy` | the time-on-air formula of the radio and of the log analyzer |
| `Collision.dfy` | the three-stage collision rule, alone and on the frames the controller builds |
| `SimRadio.dfy` | the radio's busy windows |
| `Topology.dfy` | the scenario generator: components, frontier growth, the connectivity guard |
| `ShortestHops.dfy` | the analyzer's hop count |
| `Concurrency.dfy` | the analyzer's sweep line |
| `RngStreams.dfy` | the derivation of independent random streams |
| `PacketHash.dfy` | the packet fingerprint of the event log |
| `Utf8.dfy`, `JsonText.dfy`, `DropLine.dfy` | bounded text building, UTF-8, JSON escaping, and reading the written lines back |
| `Numerals.dfy`, `CommandScan.dfy` | numerals and the `team <id>` and `send_layer` commands |
| `Ticks.dfy`, `Wrappers.dfy` | what both kinds of tick share; `Option` |

Times, counts and lengths are unbounded naturals; widths are modelled where they decide something:
64-bit wrap-around in the stream mixer and in the collision rule's unsigned subtraction, 32-bit
wrap-around in the scanners and the fingerprint, the 2048-byte line buffer, the 32-bit cast of a
recurring period. Floating-point values are reals. A timer run is a sequence of operations and
states; a callback is the list of host calls it makes. Lemmas switch automatic induction off, so that
each body is the whole proof.

## Where the code and its comments disagree

The model follows the code. These are the places where that matters:

- The tombstones of the timer wheel are said to be bounded by 64 (`TimerWheel.cpp:15`). A firmware node
  has at most 64 exactly as long as at most 64 times a pending id has been re-armed or cancelled, a
  scripted node exactly as long as at most 64 cancel calls have been made, of whatever handles
  (`TombstonesOfNode` of either kind). Re-arming one timer 65 times, or cancelling one handle 65 times,
  leaves 65 (`OverrunTombstones`).
- Streams are said to be distinct per index (`RngStreams.h:16-27`). The 64-bit seeds are; the 32-bit
  word that seeds the generator is shared by exactly 2^32 indices of each domain (`SameWordIff`,
  `WordSharedBy`), and in a grid of 65537 nodes or more always by two of its links
  (`StreamWordCollides`). In the path-loss domain only index 0 is used.
- The duty budget needs more than the documented deferral rule: a script's query of a shorter window
  prunes entries the gate still needs. `BudgetKeptIff` says exactly which queries are harmless.
- A drop line is said to be always well-formed JSON (`EventLog.cpp:316-317`). It is JSON text that says
  what was logged exactly when the head fits, the node names are UTF-8 without quotes, backslashes and
  control characters, and the texts as they were cut to their buffers are UTF-8 without control
  characters but newline and tab (`LineFaithfulIff`). A quote in a name, a carriage return in a label
  and 512 two-byte characters of info each break it.
- Decimal call sites other than `team` are said to be saved from wrap-around by a small cap
  (`NodeRuntimeWrapper.cpp:750-753`). The cap is applied to the wrapped value, so `send_layer` sends to
  another layer exactly when the typed one is 2^32 or more and wraps into 1..255 (`LayerMisreadIff`),
  and its decimal hash has no cap at all (`HashExactIff`).
- `airtime_ms` of the analyzer is the radio's formula exactly from SF7 on (`UnroundedAgreeIff`); rounded
  to milliseconds the two can still agree below (`RoundedAgreeIff`).
- "No connected nodes" (`gen_lifecycle_coldstart.py:273-274`) is reported only when there are no nodes
  at all, because isolated nodes fall back to singleton components.
- Survival is monotone only when the locked capture threshold is not above the unlocked one
  (`MonotoneIffThresholdsOrdered`); the configuration does not enforce that.
- The configuration accepts an unlocked capture threshold of 0 and any bandwidth. With the first, two
  simultaneous equal frames are both captured (`CaptureExclusiveIff`); with a bandwidth far above
  500 kHz a frame can be shorter than the rounding of its own preamble (`FastRadiosSaveBoth`).

## Model

| member | source | states |
|---|---|---|
| TimerWheel.TimerWheel.ScheduleAfter | orchestrator/runtime/TimerWheel.cpp:4-8 | in terms of the abstract map, a fresh handle is live with its deadline and period, and nothing else changes |
| TimerWheel.TimerWheel.Cancel | orchestrator/runtime/TimerWheel.cpp:10-12 | only a tombstone is appended; abstractly the handle is no longer live and never will be again |
| TimerWheel.TimerWheel.Peek | orchestrator/runtime/TimerWheel.cpp:22-35 | some earliest live entry, or none iff no timer is live; the abstract map is unchanged although the heap is popped |
| TimerWheel.TimerWheel.PopDue | orchestrator/runtime/TimerWheel.cpp:37-59 | some earliest live entry that is due, or none iff none is due; a recurring one moves on by its period, a one-shot is gone |
| TimerWheel.TimerWheel.DropCancelledTop | orchestrator/runtime/TimerWheel.cpp:38-41 | lazy deletion: the map of live timers is unchanged and the top left behind is the earliest live entry |
| TimerWheel.Determined | orchestrator/runtime/TimerWheel.h:33-72 | a heap with at most one entry per handle and a set of tombstones stand for exactly one map of live timers |
| TimerSpec.CancelIsFinal | orchestrator/runtime/TimerWheel.cpp:10-59 | in every run a cancelled handle is never returned again, by peek or popDue, recurring or not |
| TimerSpec.HandlesUnique | orchestrator/runtime/TimerWheel.cpp:4-8 | in every run no handle is issued twice and none is 0 |
| TimerSpec.RunMonotone | orchestrator/runtime/TimerWheel.cpp:4-59 | handles only grow and tombstones never disappear |
| TimerSpec.LiveTimersAreOnBeat | orchestrator/runtime/TimerWheel.cpp:4-59 | in every run a live timer stands at its armed deadline plus one period per firing so far |
| TimerSpec.FiringIsOnBeat | orchestrator/runtime/TimerWheel.cpp:37-59 | in every run each firing belongs to an earlier arming, is not early, is exactly on its beat, and a one-shot fires at most once |
| FirmwareTimers.FirmwareNode.SimAfter | orchestrator/runtime/FirmwareNode.cpp:313-327 | re-arming a pending id always succeeds, also at capacity, and leaves exactly one tombstone; a new id is refused exactly when 64 are pending and leaves none; the two maps stay inverse and match the live entries |
| FirmwareTimers.FirmwareNode.SimCancel | orchestrator/runtime/FirmwareNode.cpp:329-335 | exactly the id is no longer pending and one tombstone is left; an unknown id changes nothing |
| FirmwareTimers.FirmwareNode.Callback | orchestrator/runtime/FirmwareNode.cpp:130 | a callback's host calls take effect one after another |
| FirmwareTimers.FirmwareNode.PopFiring | orchestrator/runtime/FirmwareNode.cpp:122-129 | the earliest due id is popped and forgotten in both maps; the stale-handle skip is never taken |
| FirmwareTimers.FirmwareNode.TickTimers | orchestrator/runtime/FirmwareNode.cpp:120-133 | with callbacks that arm and cancel, the tick fires due timers one by one, each the earliest in the state the earlier callbacks left, until none is due; the history of events and with it the number of tombstones is exact; it terminates |
| FirmwareTimers.TombstonesOfNode | orchestrator/runtime/TimerWheel.cpp:14-20 | in every reachable state the tombstones are the re-arms plus the cancellations of pending ids so far, so there are at most 64 exactly when at most 64 of those have happened |
| FirmwareTimers.OverrunTombstones | orchestrator/runtime/TimerWheel.cpp:14-20 | one timer re-armed 65 times: one timer is pending and 65 tombstones are held |
| FirmwareSpec.TombstonesCounted | orchestrator/runtime/TimerWheel.cpp:10-20 | for every history, the events that leave a tombstone are those armings and cancellations whose id was armed before with nothing in between |
| FirmwareSpec.TombstonesUnbounded | orchestrator/runtime/TimerWheel.cpp:14-20 | for every n there is a life with a single pending timer and n tombstones |
| FirmwareTimers.LinkEffect | orchestrator/runtime/FirmwareNode.cpp:322-325 | arming keeps the maps inverse, bounded and equal to the live entries, and adds exactly one pending id |
| FirmwareTimers.UnlinkEffect | orchestrator/runtime/FirmwareNode.cpp:316-319 | cancelling or popping keeps the maps inverse and equal to the live entries, and removes exactly one pending id |
| FirmwareTimers.EarliestPending | orchestrator/runtime/FirmwareNode.cpp:122-125 | the earliest live wheel entry always has an id, and it is the earliest pending id |
| FirmwareSpec.LifeBounded | orchestrator/runtime/FirmwareNode.cpp:313-327 | in every life at most 64 ids are pending, and arming is refused exactly to a 65th id |
| FirmwareSpec.TickOrdered | orchestrator/runtime/FirmwareNode.cpp:120-133 | within one tick deadlines do not decrease and none is later than the tick |
| FirmwareSpec.UntouchedFiresOnceIfDue | orchestrator/runtime/FirmwareNode.cpp:120-133 | whatever callbacks do to other ids, a pending timer fires exactly once if due, else not at all and keeps its deadline |
| FirmwareSpec.LifeExplained | orchestrator/runtime/FirmwareNode.cpp:120-133 | at every point of a life the pending timers are what replaying its armings, cancellations and firings gives, and every firing was pending |
| FirmwareSpec.FiresLatestArming | orchestrator/runtime/FirmwareNode.cpp:120-133 | in every life onTimer(id) fires only for the latest arming of the id, at its deadline, with nothing about the id in between |
| ScriptedTimers.ScriptedNode.ApiAfter | orchestrator/runtime/ScriptedNode.cpp:217-223 | the handle is live with deadline now plus the wall delay and no period, unless it was cancelled before it was issued; every other live timer is unchanged and no tombstone is left |
| ScriptedTimers.ScriptedNode.ApiEvery | orchestrator/runtime/ScriptedNode.cpp:225-232 | the handle is live with deadline now plus the wall period and that period, cut to 32 bits, unless it was cancelled before it was issued; every other live timer is unchanged |
| ScriptedTimers.ScriptedNode.ApiCancel | orchestrator/runtime/ScriptedNode.cpp:234-238 | exactly that handle is cancelled and one tombstone is left, also for a handle cancelled before or never issued |
| ScriptedTimers.ScriptedNode.Callback | orchestrator/runtime/ScriptedNode.cpp:147-148 | a callback's calls take effect in order, and its cancel calls are the tombstones it leaves |
| ScriptedTimers.ScriptedNode.TickTimers | orchestrator/runtime/ScriptedNode.cpp:144-157 | fires the earliest due entries one by one with callbacks in between until none is due; terminates by the owed firings; the tombstones it leaves are the callbacks' cancel calls |
| ScriptedTimers.TombstonesOfNode | orchestrator/runtime/TimerWheel.cpp:14-20 | in every reachable state a scripted node's tombstones are its cancel calls so far, so there are at most 64 exactly when at most 64 were made |
| ScriptedTimers.OverrunTombstones | orchestrator/runtime/TimerWheel.cpp:14-20 | one handle cancelled 65 times: no timer is live and 65 tombstones are held |
| ScriptedSpec.CatchesUp | orchestrator/runtime/ScriptedNode.cpp:144-157 | a recurring timer with period p and deadline d due at t fires (t - d) / p + 1 times and is left in (t, t + p], whatever the callbacks do short of cancelling it |
| ScriptedSpec.EveryKeepsFiring | orchestrator/runtime/ScriptedNode.cpp:144-232 | a timer armed by every(period), w < 2^32 in wall time, has fired exactly (t - now) / w times after a tick at t whose callbacks spare it, and is left in (t, t + w] |
| ScriptedSpec.AfterFiresOnce | orchestrator/runtime/ScriptedNode.cpp:144-223 | a timer armed by after(delay) fires exactly once, at the first tick from its deadline on, and is gone |
| ScriptedSpec.FiringOnBeat | orchestrator/runtime/TimerWheel.cpp:50-57 | within a tick the firing after n others is exactly n periods after the deadline |
| ScriptedSpec.TickOrdered | orchestrator/runtime/ScriptedNode.cpp:144-157 | firings of one tick come in nondecreasing deadline order, none later than the tick |
| ScriptedSpec.FiringPaysOne | orchestrator/runtime/ScriptedNode.cpp:146-156 | one firing lowers the firings that timer still owes at this tick by exactly one and no other timer's |
| ScriptedSpec.TotalPaysOne | orchestrator/runtime/ScriptedNode.cpp:146-156 | the total of owed firings, the loop's measure, falls by exactly one per firing |
| NodeClock.NodeTimeMonotone | orchestrator/runtime/FirmwareNode.cpp:305-311 | the node clock never runs backwards, whatever the drift |
| NodeClock.ReadingNearest | orchestrator/runtime/FirmwareNode.cpp:305-311 | a clock that runs forwards is within 1/2 ms of wall * (1 + ppm / 10^6), not behind the wall clock at a positive drift and not ahead at a negative one |
| NodeClock.TimerAccuracy | orchestrator/runtime/FirmwareNode.cpp:14-21 | at its wall deadline a timer's node clock has advanced by the delay with error at most 1 ms for scales up to 2, and at most half the scale rounded up beyond; exactly without drift |
| NodeClock.EarlyAndLate | orchestrator/runtime/FirmwareNode.cpp:305-327 | from the deadline on at least delay - 1 has passed on the node clock, up to it at most delay + 1 |
| NodeClock.TimerOnStoppedClock | orchestrator/runtime/FirmwareNode.cpp:15-17 | where the scale is not positive the law fails: the delay is used as it is and the node clock stands still |
| AirtimeLog.TxAirtimeLog.RecordTxAirtime | orchestrator/runtime/FirmwareNode.cpp:150-152 | one record more, in the log and in the whole history |
| AirtimeLog.TxAirtimeLog.AirtimeUsedInWindow | orchestrator/runtime/FirmwareNode.cpp:154-163 | the pruned log reports exactly the whole history's airtime after the cutoff when ends are in order and cutoffs do not fall, never less when only cutoffs do not fall, and below an earlier cutoff exactly iff nothing needed was forgotten |
| AirtimeLog.TxAirtimeLog.OldestTxEndMs | orchestrator/runtime/FirmwareNode.cpp:165-168 | for a log a query has just kept whole, `end + window` is the first later time from which a query of that window forgets its oldest record |
| AirtimeLog.QueryReport | orchestrator/runtime/ScriptedNode.cpp:403-412 | what a query reports of a history part of which had been forgotten |
| AirtimeLog.PruneTotal | orchestrator/runtime/ScriptedNode.cpp:406-410 | pruning from the front never under-reports, and of a log in order reports exactly |
| DutyGate.Transmit | orchestrator/runtime/SimController.cpp:1948-2002 | an attempt is admitted exactly when what the log holds after the cutoff and its own airtime are at most duty * window, and always when the limits are out of range; its record ends one airtime after now or the ready time, whichever is later; a refused one waits until the oldest record left is a window old |
| DutyGate.BudgetHolds | core/topology/JsonConfig.h:184-187 | in every run the airtime of everything admitted that ends within the window is at most duty * window, at every time |
| DutyGate.ShortQueryBreaksBudget | orchestrator/runtime/ScriptedNode.cpp:403-416 | for every window and any shorter query window there is a run that exceeds duty * window, if that is 1 ms or more |
| DutyGate.BudgetKeptIff | core/topology/JsonConfig.h:184-187 | the budget holds in all runs exactly when the shortest window a script may query is at least the duty window, or duty * window is less than 1 ms |
| DutyGate.DeferralExact | orchestrator/runtime/SimController.cpp:1948-2002 | the deferral time is exactly when the oldest record leaves the window: no earlier attempt can do better; with an empty log the attempt never fits |
| DutyGate.RetryAdmittedIff | orchestrator/runtime/SimController.cpp:1969-1987 | the retry at the deferral time is admitted exactly when the records that leave by then carry enough airtime, and otherwise deferred to a later time |
| DutyGate.HalfDuplexSorts | orchestrator/runtime/SimController.cpp:1856-1859 | a node that does not start a transmission during its own records ends in order |
| LoraAirtime.AirtimeMonotone | core/radio/SimRadio.cpp:133-158 | time on air does not fall with payload, coding rate or preamble |
| LoraAirtime.AirtimeGrowsWithSf | core/radio/SimRadio.cpp:133-158 | nor with the spreading factor over 5..12, across the SF6/SF7 formula change and the low-data-rate switch |
| LoraAirtime.AirtimeShrinksWithBandwidth | core/radio/SimRadio.cpp:133-158 | a wider channel never lengthens it, across the low-data-rate switch |
| LoraAirtime.RadioIsFloorOfAnalyzer | tools/analyze.py:74-82 | from SF7 on the radio's value is exactly the analyzer's rounded down |
| LoraAirtime.UnroundedAgreeIff | tools/analyze.py:74-82 | before rounding, the radio and the analyzer agree exactly from SF7 on |
| LoraAirtime.AnalyzerDiffersAtLowSf | core/radio/SimRadio.cpp:143-153 | at SF5 and SF6 the unrounded values differ by two symbols one way or by a coded block less two symbols the other |
| LoraAirtime.RoundedAgreeIff | tools/analyze.py:74-82 | rounded down to milliseconds they agree exactly from SF7 on or where that gap stays within the millisecond, which it never does for symbols of half a millisecond or more |
| LoraAirtime.RoundedAgreeOnce | tools/analyze.py:74-82 | one byte at SF5 and 500 kHz, where they agree after rounding |
| LoraAirtime.SymbolTimeClosedForm | core/radio/SimRadio.h:68 | the symbol time by doubling is 2^SF chips at the bandwidth |
| LoraAirtime.RadioClosedForm | core/radio/SimRadio.cpp:133-158 | by the fields alone: the fewest groups of `cr` symbols that carry the remaining bits, at 2^SF chips per symbol, with two bits per symbol less from 16 ms per symbol on |
| LoraAirtime.AcrossTheSwitch | core/radio/SimRadio.cpp:133-158 | 50 bytes at SF10 and SF11, 125 kHz, take 681.984 and 1445.888 ms by both formulas |
| CollisionModel.OverlapNeverWraps | core/physics/CollisionModel.cpp:27-101 | the unsigned overlap subtraction is reached only for real overlaps and never wraps |
| CollisionModel.DestroyedIff | core/physics/CollisionModel.cpp:15-101 | each of the five verdicts, destroyed included, exactly in terms of spreading factors, times, levels and code: overlap, level margin under the threshold in force, half-millisecond rounding of grace and preamble, one repairable symbol |
| CollisionModel.NotBothCaptured | core/physics/CollisionModel.cpp:45-60 | capture never holds in both directions when the unlocked threshold is positive and the locked one is too, or preambles take time to lock |
| CollisionModel.CaptureExclusiveIff | core/topology/JsonConfig.cpp:567-572 | of all accepted thresholds, capture never saves both of two frames exactly when the unlocked one is positive |
| CollisionModel.BothInGraceIff | core/physics/CollisionModel.cpp:62-75 | two frames can be placed so that grace saves both exactly when they are together no longer than their rounded graces |
| CollisionModel.BothRepairedIff | core/physics/CollisionModel.cpp:77-98 | two frames can be placed so that repair saves both exactly when one has a preamble that rounds to nothing and the last millisecond of the other is repairable payload |
| CollisionModel.StageFitsBothIff | core/physics/CollisionModel.cpp:27-101 | over all times and levels, exactly when the conditions of some one stage hold for both of two given frames |
| CollisionModel.OneStageSavesBothIff | core/physics/CollisionModel.cpp:27-101 | over all times and levels, exactly when the decision saves both of two given frames for the same reason |
| CollisionModel.BothInGrace | core/physics/CollisionModel.cpp:27-101 | preamble grace in both directions needs a frame no longer than its own rounded grace |
| CollisionModel.BothRepaired | core/physics/CollisionModel.cpp:15-101 | repair in both directions needs a frame whose preamble rounds to nothing |
| CollisionModel.NoStageSavesBoth | core/physics/CollisionModel.cpp:27-101 | two overlapping frames longer than their own preambles never survive by the same stage, under every accepted threshold but an unlocked one of 0 |
| CollisionModel.DifferentStagesCanSaveBoth | core/physics/CollisionModel.cpp:27-101 | two frames can both survive by different stages |
| CollisionModel.SurvivalMonotone | core/physics/CollisionModel.cpp:27-101 | a shorter or weaker interferer, or a stronger primary, never turns a surviving frame into a destroyed one, across stages and rounding |
| CollisionModel.MonotoneIffThresholdsOrdered | core/physics/CollisionModel.cpp:27-101 | that holds for all frames exactly when the locked threshold is at most the unlocked one |
| CollisionModel.LaterStartDestroys | core/physics/CollisionModel.cpp:27-101 | with the thresholds the other way round an interferer that starts later destroys a captured frame |
| ControllerFrames.FramesOutlastPreamble | orchestrator/runtime/SimController.cpp:2053-2077 | a frame outlasts its preamble, also in whole milliseconds, when symbols take at least 0.06 ms at SF5 and 0.083 ms above |
| ControllerFrames.UpTo500kHz | core/radio/SimRadio.cpp:35-48 | every bandwidth up to 500 kHz has such symbols |
| ControllerFrames.ControllerNeverSavesBoth | orchestrator/runtime/SimController.cpp:2090-2136 | for such radios and a positive unlocked threshold, no single stage saves both of two overlapping frames |
| ControllerFrames.ControllerSavesBothIff | orchestrator/runtime/SimController.cpp:2090-2136 | for radios of any bandwidth, exactly when both of their frames can be saved for the same reason; never with symbols as long as up to 500 kHz |
| ControllerFrames.FastRadiosSaveBoth | core/radio/SimRadio.cpp:35-48 | at 1.25 MHz, which the setters accept, a one-byte frame inside a longer one: the times and levels at which both verdicts are repair |
| SimRadio.SimRadio.NotifyRxStart | core/radio/SimRadio.cpp:50-59 | one reception more; only one that outlasts all others puts off the next transmission |
| SimRadio.SimRadio.NotifyChannelBusy | core/radio/SimRadio.cpp:61-72 | the channel is busy besides exactly where the window is open and the radio ready |
| SimRadio.SimRadio.IsReceiving | core/radio/SimRadio.cpp:83-102 | with a clock that does not go back, the answer after erasing expired windows is that of the whole history of receptions and windows |
| SimRadio.SweepWindows | core/radio/SimRadio.cpp:88-98 | keeps exactly the windows that have not closed and finds whether one is open |
| SimRadio.BusyUntilLast | core/radio/SimRadio.cpp:86 | one latest end stands for all receptions so far |
| NameOrder.LeqIff | tools/gen_lifecycle_coldstart.py:40-131 | one name is not after another exactly when it is a prefix of it or has the smaller character where they first differ |
| LifecycleGenerator.BuildAdjacency | tools/gen_lifecycle_coldstart.py:28-37 | exactly the neighbours along links with both ends named, symmetric |
| LifecycleGenerator.Explore | tools/gen_lifecycle_coldstart.py:46-56 | one depth-first search returns a maximal connected class disjoint from what was seen |
| LifecycleGenerator.ConnectedComponents | tools/gen_lifecycle_coldstart.py:40-58 | exactly the maximal path-connected classes, a partition of the names, in descending order of size, then of link ends, then of first name |
| LifecycleGenerator.DegreeSumCounts | tools/gen_lifecycle_coldstart.py:40-58 | the degree sum of a set is the number of its link ends |
| LifecycleGenerator.LargestConnectedComponent | tools/gen_lifecycle_coldstart.py:61-64 | a connected set of names none of whose rivals is larger, and of rivals as large (with more than one name) one with the most link ends, then the one named first; empty iff there are no names |
| LifecycleGenerator.ChooseInitialNodes | tools/gen_lifecycle_coldstart.py:67-103 | the first name has the highest degree and each later one the most links to those before it among all names that touch them, ties going to the higher degree and then to the later name; exactly as many as asked for or as there are |
| LifecycleGenerator.ChooseJoiners | tools/gen_lifecycle_coldstart.py:106-131 | extends the selection with the name of most links to it, then of highest degree, then the later one, as far as asked for or as names remain |
| LifecycleGenerator.KeepLinksConnected | tools/gen_lifecycle_coldstart.py:299-304 | dropping links that leave a connected selection keeps it connected |
| LifecycleGenerator.Generate | tools/gen_lifecycle_coldstart.py:269-310 | the exit for a disconnected scenario is taken exactly when there are nodes but fewer than one initial node is asked for; otherwise the selection is connected, grown by most links to it, and has exactly as many initial nodes and joiners as asked for or as a largest connected set of nodes has |
| ShortestHops.ShortestHops | tools/analyze.py:224-239 | the exact minimum hop count, None exactly when unreachable, for every finite graph; it terminates |
| ShortestHops.WalkMeetsFrontier | tools/analyze.py:229-238 | every walk ends at a settled node in time or passes the frontier no further out than it is long |
| ShortestHops.FirstPopIsShortest | tools/analyze.py:231-233 | the first pop of the target carries its minimum hop count |
| Concurrency.SectionConcurrency | tools/analyze.py:439-484 | over the span from the first start to the last end, the weighted sum is the total airtime, the busy time is the number of covered milliseconds, the peak is the largest number on the air at any instant, zero-length intervals included; both means are 0 over an empty span |
| Concurrency.Sweep | tools/analyze.py:461-475 | the sweep's three figures are the area, the cover and the peak of the intervals |
| Concurrency.RunningBelowActive | tools/analyze.py:456-474 | although the running count may dip below zero within an instant, it never exceeds what is really on the air at some instant |
| Concurrency.PeakOfRunning | tools/analyze.py:465-474 | the largest running count is the peak of simultaneous transmissions |
| Concurrency.Plateau | tools/analyze.py:467-471 | between successive points area and cover grow by the running count times the gap |
| Concurrency.AreaIsTotalLength | tools/analyze.py:482 | over a span that contains all intervals their lengths add up to the area |
| Concurrency.AreaBounds | tools/analyze.py:477-481 | busy time is at most the weighted sum, which is at most peak times span |
| RngStreams.DeriveSeedBijective | orchestrator/runtime/RngStreams.h:51-63 | for fixed seed and domain, index to stream seed is a bijection of 64-bit words with an explicit inverse |
| RngStreams.DeriveSeedInjective | orchestrator/runtime/RngStreams.h:51-63 | equal stream seeds exactly for equal indices |
| RngStreams.TagsDiffer | orchestrator/runtime/RngStreams.h:38-48 | no two domains share a tag |
| RngStreams.ReferenceSeed | orchestrator/runtime/RngStreams.h:51-63 | the seed of node 0 in scenario seed 0 is 0x16E22B664D77EAC5 |
| Words64.XorShiftInverse | orchestrator/runtime/RngStreams.h:60-62 | an xor-shift by 22 bits or more is undone by folding in one and two shifts |
| Words64.MulInverse | orchestrator/runtime/RngStreams.h:60-61 | multiplying by a constant is undone by its inverse modulo 2^64 |
| RngStreams.LinkIndexInjective | orchestrator/runtime/SimController.h:206-214 | the row-major link index determines sender and receiver |
| RngStreams.CombineInverse | orchestrator/runtime/RngStreams.h:53-55 | the combine step is invertible in the folded value |
| RngStreams.UnfinalizeFinalize | orchestrator/runtime/RngStreams.h:59-62 | the finalizer has a left inverse, stage by stage |
| RngStreams.FinalizeUnfinalize | orchestrator/runtime/RngStreams.h:59-62 | and it is a right inverse too |
| RngStreams.DistinctLinksDistinctSeeds | orchestrator/runtime/SimController.h:206-214 | distinct directed links never share a 64-bit stream seed |
| RngStreams.SameWordIff | orchestrator/runtime/RngStreams.h:68-72 | two indices share the folded 32-bit word exactly when the second is one of 2^32 explicit indices of the first one's word |
| RngStreams.WordSharedBy | orchestrator/runtime/RngStreams.h:68-72 | those indices are distinct, so every word seeds exactly 2^32 indices of a domain |
| RngStreams.StreamWordCollides | orchestrator/runtime/SimController.cpp:368-373 | with 65537 nodes or more, for every scenario seed, two different directed links share a stream word |
| PacketHash.OneByteTells | core/events/EventLog.cpp:102-109 | packets of one length that differ in exactly one byte never share a fingerprint |
| PacketHash.PacketHash | core/events/EventLog.cpp:102-109 | the loop computes the fold of the bytes |
| PacketHash.Published | core/events/EventLog.cpp:102-109 | the published FNV-1a values of the empty text, "a", "f" and "fo" |
| PacketHash.PacketHashHex | core/events/EventLog.cpp:111-119 | eight digits, most significant first, and the terminator |
| PacketHash.FingerprintReadsBack | core/events/EventLog.cpp:111-119 | the logged digits read back as the hash |
| JsonText.JsonEscape | core/events/EventLog.cpp:21-40 | writes the escaped form of the longest prefix that fits whole, then the terminator, and touches nothing behind it |
| JsonText.KeptIsLongest | core/events/EventLog.cpp:24-38 | the kept part is the longest prefix whose escaped form fits, and never ends within an escape pair |
| JsonText.ReadsEscaped | core/events/EventLog.cpp:25-37 | escaped text reads back as itself, and as a JSON string of section 7 of RFC 8259 exactly when its only control characters are newline and tab |
| JsonText.EscInjective | core/events/EventLog.cpp:25-37 | different texts have different escaped forms |
| JsonText.RawReadsIff | core/events/EventLog.cpp:330-332 | a text put between quotes unescaped reads back as itself exactly when it has no quote, backslash or control character |
| JsonText.EscUtf8 | core/events/EventLog.cpp:25-37 | escaped text is UTF-8 exactly when the text is |
| JsonText.CutKeepsUtf8Iff | core/events/EventLog.cpp:24-38 | cut to its buffer, UTF-8 text stays UTF-8 exactly when it is kept whole or the first byte left out begins a character |
| Utf8Text.Utf8Iff | core/events/EventLog.cpp:24-38 | a text is UTF-8 exactly when it is the encodings of some Unicode scalar values, one after another (RFC 3629) |
| Utf8Text.PrefixIff | core/events/EventLog.cpp:24-38 | a prefix of UTF-8 text is UTF-8 exactly when it ends between characters |
| BoundedText.FittingIsLongest | core/events/EventLog.cpp:335-352 | stopping at the first piece that does not fit keeps the longest run of leading pieces that fits |
| DropLines.Snprintf | core/events/EventLog.cpp:341-344 | a bounded print leaves what stands before it, and the whole text when there is room |
| DropLines.DropLine.constructor | core/events/EventLog.cpp:324-333 | the line starts as the head, or empty when the head does not fit |
| DropLines.DropLine.Addf | core/events/EventLog.cpp:339-352 | all or nothing: the first text that does not fit and all after it leave no trace |
| DropLines.DropLine.AddPhy | core/events/EventLog.cpp:356-364 | adds the fingerprint, then `sf`, `bw_hz` and `airtime_ms`, each present exactly when its argument is not -1 and reading back as that number, airtime modulo 2^32 |
| DropLines.DropLine.AddText | core/events/EventLog.cpp:367-372 | an absent or empty text adds nothing, another its escaped longest prefix of 1023 characters |
| DropLines.DropLine.Emit | core/events/EventLog.cpp:375-380 | the line is the leading texts that fit, a brace and a newline, and fits the buffer |
| DropLines.DropNoLink | core/events/EventLog.cpp:464-474 | for any names and texts, a whole event is a line that reads back as its head and the kept members, and one that is UTF-8 besides, exactly under the conditions above |
| DropRecord.LineReadsBack | core/events/EventLog.cpp:322-387 | for every sequence of fields and any node names, the emitted line parses to the head and the longest run of leading fields that fits exactly when the head fits, the names need no escaping and the kept texts are printable; with clean names it is otherwise no object |
| DropRecord.LineFaithfulIff | core/events/EventLog.cpp:315-387 | exactly when the line is UTF-8 and reads back as what was logged |
| DropRecord.LineUtf8 | core/events/EventLog.cpp:322-387 | the bytes of a line are UTF-8 exactly when the names and the kept texts are |
| DropRecord.QuotedNameBreaksTheLine | core/events/EventLog.cpp:330-332 | a quote in the sender's name makes a line that is no object, whatever else it says |
| DropRecord.EmittedFits | core/events/EventLog.cpp:325-329 | every line and its terminator fit 2048 bytes, and the first field left out would not have fitted |
| DropRecord.ParsesMember | core/events/EventLog.cpp:356-372 | one written member reads back as itself exactly when its text is printable |
| JsonNumber.NumberIff | core/events/EventLog.cpp:361-363 | the number grammar as four parts: a text meets it exactly when it is put together from them |
| JsonNumber.IntegerIsNumber | core/events/EventLog.cpp:361-363 | printed integers are numbers of section 6 of RFC 8259 |
| DropLines.SignedReadsBack | core/events/EventLog.cpp:361-363 | a printed integer reads back, by its sign and digits, as that integer |
| DropLines.PhySays | core/events/EventLog.cpp:356-364 | among the numbers of an event `sf`, `bw_hz` and `airtime_ms` stand exactly when they are not -1, in order, and read back as given |
| DropLines.NoLinkSays | core/events/EventLog.cpp:464-474 | so among all the fields of a whole event, with the fingerprint first and the texts as cut last |
| DropLines.CarriageReturnBreaksTheLine | core/events/EventLog.cpp:315-317 | a carriage return in a label makes a line no strict reader takes |
| DropLines.HalfCharacterBreaksTheLine | core/events/EventLog.cpp:367-372 | 512 two-byte characters of info are cut within the last one, and the line is not UTF-8 |
| CommandScan.ScanSpaces | orchestrator/runtime/NodeRuntimeWrapper.cpp:552-554 | stops at the first character that is not a space |
| CommandScan.ScanDec | orchestrator/runtime/NodeRuntimeWrapper.cpp:569-579 | consumes the whole digit run and holds its value modulo 2^32 |
| CommandScan.ScanHex32 | orchestrator/runtime/NodeRuntimeWrapper.cpp:587-602 | consumes the whole run, succeeds for one to eight digits, and then the value is exact |
| CommandScan.GuardDetectsOverflow | orchestrator/runtime/NodeRuntimeWrapper.cpp:755-758 | comparing stripped digits with the reprinted accumulator accepts exactly the values below 2^32 |
| CommandScan.Team | orchestrator/runtime/NodeRuntimeWrapper.cpp:739-763 | over all command strings, joins an id exactly when the command asks for it: one token, decimal below 2^32 with any leading zeros or 1 to 8 hex digits, spaces, nothing after |
| CommandScan.AsksForOne | orchestrator/runtime/NodeRuntimeWrapper.cpp:739-763 | no command asks for two ids |
| CommandScan.EveryIdCanBeAsked | orchestrator/runtime/NodeRuntimeWrapper.cpp:739-763 | every 32-bit id can be asked for, with any number of leading zeros |
| CommandScan.EveryIdCanBeAskedInHex | orchestrator/runtime/NodeRuntimeWrapper.cpp:561-602 | every id of up to eight hexadecimal digits can be asked for after 0x or 0X, in lower and in upper case |
| CommandScan.SendLayer | orchestrator/runtime/NodeRuntimeWrapper.cpp:892-924 | over all command strings, sends exactly the typed layer and hash modulo 2^32 and the text, if the wrapped layer is 1..255, sealed for the two x verbs and acknowledged for the two e2e verbs; usage otherwise |
| CommandScan.LayerMisreadIff | orchestrator/runtime/NodeRuntimeWrapper.cpp:899-907 | a layer other than the typed one is accepted exactly when the typed number is 2^32 or more and wraps into 1..255 |
| CommandScan.HashExactIff | orchestrator/runtime/NodeRuntimeWrapper.cpp:904-913 | the hash is used as typed exactly when it is below 2^32 |
| CommandScan.WrappedLayers | orchestrator/runtime/NodeRuntimeWrapper.cpp:899-907 | every layer 1..255 is also reached by numbers larger by any multiple of 2^32 |
| CommandScan.WrappedLayer | orchestrator/runtime/NodeRuntimeWrapper.cpp:899-907 | `send_layer 4294967297 5 hi` is sent to layer 1 |
| CommandScan.WrappedHash | orchestrator/runtime/NodeRuntimeWrapper.cpp:904-913 | `send_layer 1 4294967296 hi` addresses hash 0 |
| Numerals.PrintedIsStripped | orchestrator/runtime/NodeRuntimeWrapper.cpp:755-758 | printing a digit run's value gives the run without its leading zeros |
| Numerals.ReadsBack | orchestrator/runtime/NodeRuntimeWrapper.cpp:758 | reading a printed number gives it back |

## Left out

- The simulation step: delivery, lifecycle, forced drops, link models, path loss, fading, decoding probabilities and the statistical quality of random streams.
- The firmware proper, Lua, the web application, command-line and stream I/O, and all other sections of the analyzer: they are libraries, plumbing or formatting.
- IEEE rounding: floats and doubles are reals, so a conversion that rounds a product to the next representable value is not modelled.
- Overflow of 64-bit times, of `int` lengths and of the `uint32_t` airtime: times and lengths are unbounded except where a section above names a width.
- The binary heap inside `std::priority_queue` and Python's `heapq`, and hash-table iteration order: the heap is a multiset or set with an arbitrary earliest entry on top, so every tie is covered; sorting and `max` are choices with a proved order.
- TickTimers: callbacks are finite lists of host calls per firing, so a callback that arms a due timer at every firing for ever, on which the original would not return, is not covered.
- ApiEvery: the cast of the period to 32 bits is modelled, but the Lua closure table beside the timers is not.
- Transmit: transmission-queue handling, listen-before-talk and the failure roll around the gate are not modelled.
- NotifyRxStart: `startSendRaw` also clears the reception and sets the ready time; it is off the live path by its own comment.
- LineReadsBack: the event type is one of the program's own words; a line with an unclean name that happens to parse to some other object is not described further. Numbers are any text of the JSON number grammar.
- ReadString: `\u` escapes are never written and are not read.
- JsonEscape: strings are sequences of bytes, written as characters below 256; the decoding of the log by its readers is not part of this model.
- Snprintf: an encoding error, for which `vsnprintf` returns a negative length, cannot occur for a finished text.
- Team: what joining does to the node and the reply are not modelled.
- SendLayer: what the node does with the command, the cap on the text's length and the reply; `send_channel` and `send` scan and cap one number the same way and are not modelled again.
- BuildAdjacency: link ends are strings, and a missing end is the empty string.
- Generate: dying nodes, start times and the copied configuration do not affect connectivity.
- ShortestHops: the edge construction from the configuration and the path-optimality report are not part of this model.
- SectionConcurrency: reading the event file and the `since_ms` filter; intervals are given and have non-negative airtime.
- The burst window, link-quality and delivery sections of the analyzer, `LbtModel`, `MatrixLinkModel` and signal reporting would add only easy members.
