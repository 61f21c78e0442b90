/** Vote-count arithmetic: the fault bound f_ = (n - 1) / 3 fixed in PBFTHandler::Init and the
    threshold 2f + 1 of Proposal::CheckVotes, as facts about finite sets of replica numbers. */
module Quorum {

  /** f_ as computed from the number of configured nodes. */
  function MaxFaulty(n: nat): nat
    requires n >= 1
  {
    (n - 1) / 3
  }

  function Threshold(f: nat): nat { 2 * f + 1 }

  /** The interval [lo, hi) of replica numbers. */
  function Range(lo: nat, hi: nat): (r: set<nat>)
    ensures forall i: nat :: i in r <==> lo <= i < hi
    ensures |r| == if lo <= hi then hi - lo else 0
    decreases hi
  {
    if lo < hi then Range(lo, hi - 1) + {hi - 1} else {}
  }

  /** The replica numbers 0 .. n-1. */
  function Replicas(n: nat): set<nat> {
    Range(0, n)
  }

  lemma {:induction false} SubsetSize<T>(a: set<T>, b: set<T>)
    requires a <= b
    ensures |a| <= |b|
    decreases a
  {
    if a != {} {
      var x :| x in a;
      SubsetSize(a - {x}, b - {x});
    }
  }

  /** Whichever g of the n replicas fail, the others are enough for the 2g + 1 votes that g failures
      make necessary. */
  ghost predicate Tolerates(n: nat, g: nat) {
    forall faulty: set<nat> :: faulty <= Replicas(n) && |faulty| == g ==> |Replicas(n) - faulty| >= 2 * g + 1
  }

  lemma RemainingSize(n: nat, faulty: set<nat>)
    requires faulty <= Replicas(n)
    ensures |Replicas(n) - faulty| == n - |faulty|
  {
    assert faulty + (Replicas(n) - faulty) == Replicas(n);
  }

  /** f_ is the largest number of failures the cluster tolerates: not one less and not one more. */
  lemma MaxFaultyIsLargest(n: nat, g: nat)
    requires n >= 1 && g <= n
    ensures Tolerates(n, g) <==> g <= MaxFaulty(n)
  {
    if Tolerates(n, g) {
      RemainingSize(n, Range(0, g));
    }
    if g <= MaxFaulty(n) {
      forall faulty: set<nat> | faulty <= Replicas(n) && |faulty| == g ensures |Replicas(n) - faulty| >= 2 * g + 1 {
        RemainingSize(n, faulty);
      }
    }
  }

  /** A set of n-f replicas or more is large enough to reach the threshold on its own. */
  lemma CorrectReplicasReachThreshold(n: nat, faulty: set<nat>)
    requires n >= 1 && faulty <= Replicas(n) && |faulty| <= MaxFaulty(n)
    ensures |Replicas(n) - faulty| >= Threshold(MaxFaulty(n))
  {
    assert |Replicas(n) - faulty| == |Replicas(n)| - |Replicas(n) * faulty|;
    SubsetSize(Replicas(n) * faulty, faulty);
  }

  /** At least f + 1 of the voters behind a threshold of votes are correct, whatever n is. */
  lemma QuorumHasCorrectMajority(q: set<nat>, faulty: set<nat>, f: nat)
    requires |q| >= Threshold(f) && |faulty| <= f
    ensures |q - faulty| >= f + 1
  {
    SubsetSize(q * faulty, faulty);
  }

  /** With n = 3f + 1, any two thresholds of votes share a correct voter. */
  lemma QuorumsShareCorrect(n: nat, faulty: set<nat>, q1: set<nat>, q2: set<nat>) returns (v: nat)
    requires n >= 1 && n == 3 * MaxFaulty(n) + 1
    requires |faulty| <= MaxFaulty(n)
    requires q1 <= Replicas(n) && q2 <= Replicas(n)
    requires |q1| >= Threshold(MaxFaulty(n)) && |q2| >= Threshold(MaxFaulty(n))
    ensures v in q1 && v in q2 && v !in faulty
  {
    SubsetSize(q1 + q2, Replicas(n));
    assert |q1 + q2| == |q1| + |q2| - |q1 * q2|;
    if q1 * q2 <= faulty {
      SubsetSize(q1 * q2, faulty);
      assert false;
    }
    v :| v in q1 * q2 && v !in faulty;
  }

  /** Every pair of thresholds shares a correct voter, for every admissible faulty set. */
  ghost predicate OverlapGuaranteed(n: nat)
    requires n >= 1
  {
    forall faulty: set<nat>, q1: set<nat>, q2: set<nat> ::
      && faulty <= Replicas(n) && |faulty| <= MaxFaulty(n)
      && q1 <= Replicas(n) && |q1| >= Threshold(MaxFaulty(n))
      && q2 <= Replicas(n) && |q2| >= Threshold(MaxFaulty(n))
      ==> exists v :: v in q1 * q2 && v !in faulty
  }

  /** Two thresholds that meet only in the f faulty replicas 0 .. f-1. */
  lemma FaultyOnlyOverlap(n: nat) returns (faulty: set<nat>, q1: set<nat>, q2: set<nat>)
    requires n >= 1 && n != 3 * MaxFaulty(n) + 1
    ensures faulty <= Replicas(n) && |faulty| <= MaxFaulty(n)
    ensures q1 <= Replicas(n) && |q1| >= Threshold(MaxFaulty(n))
    ensures q2 <= Replicas(n) && |q2| >= Threshold(MaxFaulty(n))
    ensures q1 * q2 <= faulty
  {
    var f := MaxFaulty(n);
    var rest := Range(2 * f + 1, 3 * f + 2);
    faulty, q1, q2 := Range(0, f), Range(0, 2 * f + 1), Range(0, f) + rest;
    assert Range(0, f) !! rest;
  }

  /** The overlap argument behind PBFT is available to this code exactly for cluster sizes 3f + 1:
      f_ is rounded down, so for n = 3f + 2 and n = 3f + 3 two thresholds can meet in faulty
      replicas only. */
  lemma OverlapExactly(n: nat)
    requires n >= 1
    ensures OverlapGuaranteed(n) <==> n == 3 * MaxFaulty(n) + 1
  {
    var f := MaxFaulty(n);
    if n == 3 * f + 1 {
      forall faulty: set<nat>, q1: set<nat>, q2: set<nat>
        | && faulty <= Replicas(n) && |faulty| <= f
          && q1 <= Replicas(n) && |q1| >= Threshold(f)
          && q2 <= Replicas(n) && |q2| >= Threshold(f)
        ensures exists v :: v in q1 * q2 && v !in faulty
      {
        var v := QuorumsShareCorrect(n, faulty, q1, q2);
        assert v in q1 * q2;
      }
    } else {
      var faulty, q1, q2 := FaultyOnlyOverlap(n);
    }
  }
}
