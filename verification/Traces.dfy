/** Induction along a run of any state machine. */
module Traces {

  /** What holds at one point and is kept by every step from there holds at every later point. */
  lemma {:induction false} HoldsFrom<S>(holds: S -> bool, run: seq<S>, a: nat, b: nat)
    requires a <= b < |run| && holds(run[a])
    requires forall k :: a < k <= b && holds(run[k - 1]) ==> holds(run[k])
    ensures holds(run[b])
    decreases b
  {
    if a < b { HoldsFrom(holds, run, a, b - 1); }
  }

  /** What holds at first and is kept by every step holds all along. */
  lemma HoldsAlong<S>(holds: S -> bool, run: seq<S>, i: nat)
    requires i < |run| && holds(run[0])
    requires forall k :: 0 < k < |run| && holds(run[k - 1]) ==> holds(run[k])
    ensures holds(run[i])
  {
    HoldsFrom(holds, run, 0, i);
  }
}
