/** What the ticks of firmware and scripted nodes have in common. */
module Ticks {

  /** The calls made by the k-th callback of a tick; a callback beyond the script makes none. */
  function CallsOf<C>(script: seq<seq<C>>, k: nat): seq<C> {
    if k < |script| then script[k] else []
  }

  /** Deadlines that do not decrease from one firing to the next are in order. */
  lemma {:induction false} Ordered(deadlines: seq<nat>, i: nat, j: nat)
    requires forall k | 0 <= k < |deadlines| - 1 :: deadlines[k] <= deadlines[k + 1]
    requires i <= j < |deadlines|
    ensures deadlines[i] <= deadlines[j]
    decreases j - i
  {
    if i < j {
      Ordered(deadlines, i, j - 1);
      assert deadlines[j - 1] <= deadlines[j - 1 + 1];
    }
  }
}
