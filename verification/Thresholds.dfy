/** Exactly when validation does what it is for. The running check of CheckBlock is a threshold for
    each sender; from the thresholds follow the lists whose verdict does not depend on their order, and
    the lists that run without overdraft from every balance the check accepts. */
module Thresholds {
  import opened Ledger

  predicate Sends(a: string, txs: seq<TX>) {
    exists i :: 0 <= i < |txs| && txs[i].from == a
  }

  predicate PassesAt(a: string, v: int, txs: seq<TX>, i: nat)
    requires i < |txs|
  {
    txs[i].from == a ==> Sum(SentBy(a), txs[..i + 1]) <= v
  }

  /** Sender a is never short when it starts with v. */
  predicate Passes(a: string, v: int, txs: seq<TX>) {
    forall i :: 0 <= i < |txs| ==> PassesAt(a, v, txs, i)
  }

  /** The running check is one threshold test for each sender. */
  lemma AffordableIsPasses(b: Balances, txs: seq<TX>)
    ensures Affordable(b, txs) <==> forall a :: Sends(a, txs) ==> a in b && Passes(a, b[a], txs)
  {
    if Affordable(b, txs) {
      forall a | Sends(a, txs) ensures a in b && Passes(a, b[a], txs) {
        var i :| 0 <= i < |txs| && txs[i].from == a;
        assert AffordableAt(b, txs, i);
        forall j | 0 <= j < |txs| ensures PassesAt(a, b[a], txs, j) {
          assert AffordableAt(b, txs, j);
        }
      }
    }
    if forall a :: Sends(a, txs) ==> a in b && Passes(a, b[a], txs) {
      forall i | 0 <= i < |txs| ensures AffordableAt(b, txs, i) {
        assert Sends(txs[i].from, txs);
        assert PassesAt(txs[i].from, b[txs[i].from], txs, i);
      }
    }
  }

  /** The most sender a has ever sent, all told, after one of its transfers. */
  function Peak(a: string, txs: seq<TX>): int
    requires Sends(a, txs)
  {
    var n := |txs| - 1;
    if txs[n].from != a then SendsBefore(a, txs); Peak(a, txs[..n])
    else if Sends(a, txs[..n]) && Peak(a, txs[..n]) >= Sum(SentBy(a), txs) then Peak(a, txs[..n])
    else Sum(SentBy(a), txs)
  }

  lemma SendsBefore(a: string, txs: seq<TX>)
    requires Sends(a, txs) && txs[|txs| - 1].from != a
    ensures Sends(a, txs[..|txs| - 1])
  {
    var i :| 0 <= i < |txs| && txs[i].from == a;
    assert txs[..|txs| - 1][i].from == a;
  }

  lemma PassesAtPrefix(a: string, v: int, txs: seq<TX>, n: nat, i: nat)
    requires i < n <= |txs|
    ensures PassesAt(a, v, txs[..n], i) <==> PassesAt(a, v, txs, i)
  {
    assert txs[..n][..i + 1] == txs[..i + 1];
  }

  lemma PassesPrefix(a: string, v: int, txs: seq<TX>, n: nat)
    requires Passes(a, v, txs) && n <= |txs|
    ensures Passes(a, v, txs[..n])
  {
    forall i | 0 <= i < n ensures PassesAt(a, v, txs[..n], i) { PassesAtPrefix(a, v, txs, n, i); }
  }

  lemma PassesOneMore(a: string, v: int, txs: seq<TX>, n: nat)
    requires n < |txs| && Passes(a, v, txs[..n]) && PassesAt(a, v, txs, n)
    ensures Passes(a, v, txs[..n + 1])
  {
    var more := txs[..n + 1];
    forall i | 0 <= i <= n ensures PassesAt(a, v, more, i) {
      PassesAtPrefix(a, v, txs, n + 1, i);
      if i < n { PassesAtPrefix(a, v, txs, n, i); }
    }
  }

  /** Dropping the last transfer drops one test. */
  lemma PassesLast(a: string, v: int, txs: seq<TX>)
    requires txs != []
    ensures var n := |txs| - 1;
            Passes(a, v, txs) <==> Passes(a, v, txs[..n]) && (txs[n].from == a ==> Sum(SentBy(a), txs) <= v)
  {
    var n := |txs| - 1;
    assert txs[..n + 1] == txs;
    assert PassesAt(a, v, txs, n) <==> (txs[n].from == a ==> Sum(SentBy(a), txs) <= v);
    if Passes(a, v, txs) { PassesPrefix(a, v, txs, n); }
    if Passes(a, v, txs[..n]) && PassesAt(a, v, txs, n) { PassesOneMore(a, v, txs, n); }
  }

  /** It is the least balance with which a passes. */
  lemma {:induction false} PeakIsLeast(a: string, v: int, txs: seq<TX>)
    requires Sends(a, txs)
    ensures Passes(a, v, txs) <==> Peak(a, txs) <= v
  {
    var n := |txs| - 1;
    PassesLast(a, v, txs);
    if Sends(a, txs[..n]) {
      PeakIsLeast(a, v, txs[..n]);
    } else {
      if txs[n].from != a { SendsBefore(a, txs); }
      assert forall i :: 0 <= i < n ==> txs[..n][i].from != a;
    }
  }

  lemma FirstSum(m: Measure, x: TX, txs: seq<TX>)
    ensures Sum(m, [x] + txs) == Amount(m, x) + Sum(m, txs)
  {
    SumAppend(m, [x], txs);
    assert [x][..0] == [];
  }

  lemma PassesFirstAt(a: string, v: int, x: TX, txs: seq<TX>, i: nat)
    requires x.from == a && i < |txs|
    ensures PassesAt(a, v, [x] + txs, i + 1) <==> PassesAt(a, v - x.value, txs, i)
  {
    assert ([x] + txs)[..i + 2] == [x] + txs[..i + 1];
    FirstSum(SentBy(a), x, txs[..i + 1]);
  }

  /** Sending first leaves that much less for what follows. */
  lemma PassesFirst(a: string, v: int, x: TX, txs: seq<TX>)
    requires x.from == a
    ensures Passes(a, v, [x] + txs) <==> x.value <= v && Passes(a, v - x.value, txs)
  {
    var all := [x] + txs;
    assert all[..1] == [x] + [];
    FirstSum(SentBy(a), x, []);
    assert PassesAt(a, v, all, 0) <==> x.value <= v;
    var w := v - x.value;
    if Passes(a, v, all) {
      forall i | 0 <= i < |txs| ensures PassesAt(a, w, txs, i) { PassesFirstAt(a, v, x, txs, i); }
    }
    if x.value <= v && Passes(a, w, txs) {
      forall j | 0 <= j < |all| ensures PassesAt(a, v, all, j) {
        if j > 0 { PassesFirstAt(a, v, x, txs, j - 1); }
      }
    }
  }

  // ---------- order ----------

  /** No reordering of the list changes the verdict, whatever the balances. */
  ghost predicate OrderIsFree(xs: seq<TX>) {
    forall b: Balances, ys: seq<TX> :: multiset(xs) == multiset(ys) ==> (Affordable(b, xs) <==> Affordable(b, ys))
  }

  predicate NoneNegative(a: string, txs: seq<TX>) {
    forall i :: 0 <= i < |txs| && txs[i].from == a ==> txs[i].value >= 0
  }

  predicate AllEqual(a: string, txs: seq<TX>) {
    forall i, j :: 0 <= i < |txs| && 0 <= j < |txs| && txs[i].from == a && txs[j].from == a ==> txs[i].value == txs[j].value
  }

  lemma PermutedMember(xs: seq<TX>, ys: seq<TX>, i: nat) returns (j: nat)
    requires multiset(xs) == multiset(ys) && i < |ys|
    ensures j < |xs| && xs[j] == ys[i]
  {
    assert ys[i] in multiset(xs);
    j :| 0 <= j < |xs| && xs[j] == ys[i];
  }

  lemma {:induction false} SentGrowsFor(a: string, txs: seq<TX>, k: nat)
    requires NoneNegative(a, txs) && k <= |txs|
    ensures Sum(SentBy(a), txs[..k]) <= Sum(SentBy(a), txs)
    decreases |txs|
  {
    if k < |txs| {
      var n := |txs| - 1;
      assert txs[..n][..k] == txs[..k];
      SentGrowsFor(a, txs[..n], k);
    } else {
      assert txs[..k] == txs;
    }
  }

  /** Without negative amounts only the total counts. */
  lemma PassesTotal(a: string, v: int, txs: seq<TX>)
    requires NoneNegative(a, txs) && Sends(a, txs)
    ensures Passes(a, v, txs) <==> Sum(SentBy(a), txs) <= v
  {
    var k := LastSend(a, txs);
    if Passes(a, v, txs) { assert PassesAt(a, v, txs, k); }
    if Sum(SentBy(a), txs) <= v {
      forall i | 0 <= i < |txs| ensures PassesAt(a, v, txs, i) { SentGrowsFor(a, txs, i + 1); }
    }
  }

  /** With one negative amount throughout only the first transfer counts. */
  lemma {:induction false} PassesSingle(a: string, v: int, u: int, txs: seq<TX>)
    requires u < 0 && Sends(a, txs)
    requires forall i :: 0 <= i < |txs| && txs[i].from == a ==> txs[i].value == u
    ensures Passes(a, v, txs) <==> u <= v
    ensures Sum(SentBy(a), txs) <= u
  {
    var n := |txs| - 1;
    PassesLast(a, v, txs);
    if Sends(a, txs[..n]) {
      PassesSingle(a, v, u, txs[..n]);
    } else {
      if txs[n].from != a { SendsBefore(a, txs); }
      forall i | 0 <= i < n ensures txs[..n][i].from != a {}
      NeverSent(a, txs[..n]);
    }
  }

  /** For such a sender the threshold does not depend on the order. */
  lemma PassesPermutes(a: string, v: int, xs: seq<TX>, ys: seq<TX>)
    requires multiset(xs) == multiset(ys) && (NoneNegative(a, xs) || AllEqual(a, xs))
    requires Sends(a, ys)
    ensures Sends(a, xs) && (Passes(a, v, xs) <==> Passes(a, v, ys))
  {
    var i :| 0 <= i < |ys| && ys[i].from == a;
    var j := PermutedMember(xs, ys, i);
    if NoneNegative(a, xs) {
      forall k | 0 <= k < |ys| && ys[k].from == a ensures ys[k].value >= 0 {
        var l := PermutedMember(xs, ys, k);
      }
      PassesTotal(a, v, xs);
      PassesTotal(a, v, ys);
      SumPermutes(SentBy(a), xs, ys);
    } else {
      var l :| 0 <= l < |xs| && xs[l].from == a && xs[l].value < 0;
      forall k | 0 <= k < |ys| && ys[k].from == a ensures ys[k].value == xs[l].value {
        var m := PermutedMember(xs, ys, k);
      }
      PassesSingle(a, v, xs[l].value, xs);
      PassesSingle(a, v, xs[l].value, ys);
    }
  }

  lemma AffordablePermutes(b: Balances, xs: seq<TX>, ys: seq<TX>)
    requires multiset(xs) == multiset(ys) && forall a :: NoneNegative(a, xs) || AllEqual(a, xs)
    ensures Affordable(b, xs) <==> Affordable(b, ys)
  {
    AffordableIsPasses(b, xs);
    AffordableIsPasses(b, ys);
    forall a | Sends(a, xs) ensures Sends(a, ys) {
      var i :| 0 <= i < |xs| && xs[i].from == a;
      var j := PermutedMember(ys, xs, i);
    }
    forall a, v | Sends(a, ys) ensures Sends(a, xs) && (Passes(a, v, xs) <==> Passes(a, v, ys)) {
      PassesPermutes(a, v, xs, ys);
    }
    forall a | Sends(a, ys) ensures Sends(a, xs) {
      PassesPermutes(a, 0, xs, ys);
    }
  }

  function Senders(txs: seq<TX>): (r: set<string>)
    ensures forall a :: a in r <==> Sends(a, txs)
  {
    set i | 0 <= i < |txs| :: txs[i].from
  }

  /** Balances with which everyone but a passes, and a holds v. */
  function Generous(txs: seq<TX>, a: string, v: int): Balances {
    map c | c in Senders(txs) :: if c == a then v else Peak(c, txs)
  }

  lemma GenerousTests(txs: seq<TX>, a: string, v: int)
    requires Sends(a, txs)
    ensures Affordable(Generous(txs, a, v), txs) <==> Passes(a, v, txs)
  {
    AffordableIsPasses(Generous(txs, a, v), txs);
    forall c | Sends(c, txs) && c != a ensures Passes(c, Generous(txs, a, v)[c], txs) {
      PeakIsLeast(c, Peak(c, txs), txs);
    }
  }

  /** Putting a negative amount of a last instead of first, behind one that is larger, makes the
      difference between refusal and acceptance. */
  lemma NegativeFirstOrLast(a: string, x: TX, y: TX, rest: seq<TX>)
    requires x.from == a && y.from == a && x.value < 0 && x.value < y.value
    ensures exists b: Balances :: Affordable(b, [x] + ([y] + rest)) && !Affordable(b, ([y] + rest) + [x])
  {
    var zs := [y] + rest;
    assert zs[0].from == a;
    var front, back := [x] + zs, zs + [x];
    assert front[0].from == a && back[0].from == a;
    var v := Peak(a, zs) - 1;
    var b := Generous(front, a, v);
    PeakIsLeast(a, Peak(a, zs), zs);
    PeakIsLeast(a, v, zs);
    PeakIsLeast(a, v - x.value, zs);
    PassesFirst(a, Peak(a, zs), y, rest);
    PassesFirst(a, v, x, zs);
    GenerousTests(front, a, v);
    assert back[..|back| - 1] == zs;
    PassesLast(a, v, back);
    AffordableIsPasses(b, back);
    assert Sends(a, back) && b[a] == v;
  }

  /** One sender with a negative amount and another amount besides. */
  lemma MixedAmounts(a: string, xs: seq<TX>) returns (i: nat, j: nat)
    requires !NoneNegative(a, xs) && !AllEqual(a, xs)
    ensures i < |xs| && j < |xs| && xs[i].from == a && xs[j].from == a
    ensures xs[i].value < 0 && xs[i].value < xs[j].value
  {
    i :| 0 <= i < |xs| && xs[i].from == a && xs[i].value < 0;
    j :| 0 <= j < |xs| && xs[j].from == a && xs[j].value != xs[i].value;
    if xs[j].value < xs[i].value { i, j := j, i; }
  }

  lemma TakeOut(xs: seq<TX>, i: nat) returns (rest: seq<TX>)
    requires i < |xs|
    ensures multiset(xs) == multiset([xs[i]] + rest)
  {
    rest := xs[..i] + xs[i + 1..];
    SumRemove(SelfTransfers, xs, i);
    assert multiset([xs[i]] + rest) == multiset{xs[i]} + multiset(rest);
  }

  lemma TakeOutTwo(xs: seq<TX>, i: nat, j: nat) returns (rest: seq<TX>)
    requires i < |xs| && j < |xs| && xs[i] != xs[j]
    ensures multiset(xs) == multiset([xs[i]] + ([xs[j]] + rest)) == multiset(([xs[j]] + rest) + [xs[i]])
  {
    var x, y := xs[i], xs[j];
    var others := TakeOut(xs, i);
    assert multiset([x] + others) == multiset{x} + multiset(others);
    assert y in multiset(xs) && y in multiset(others);
    var k :| 0 <= k < |others| && others[k] == y;
    rest := TakeOut(others, k);
    assert multiset([x] + ([y] + rest)) == multiset{x} + multiset([y] + rest) == multiset(([y] + rest) + [x]);
  }

  /** A sender with a negative amount and another one makes the order matter. */
  lemma MixedAmountsDependOnOrder(a: string, xs: seq<TX>)
    requires !NoneNegative(a, xs) && !AllEqual(a, xs)
    ensures !OrderIsFree(xs)
  {
    var i, j := MixedAmounts(a, xs);
    var x, y := xs[i], xs[j];
    var rest := TakeOutTwo(xs, i, j);
    var front, back := [x] + ([y] + rest), ([y] + rest) + [x];
    NegativeFirstOrLast(a, x, y, rest);
    var b: Balances :| Affordable(b, front) && !Affordable(b, back);
    assert (Affordable(b, xs) <==> Affordable(b, front)) ==> !(Affordable(b, xs) <==> Affordable(b, back));
  }

  /** The lists whose verdict does not depend on their order, exactly: each sender's amounts are all
      non-negative or all the same. */
  lemma OrderIsFreeExactly(xs: seq<TX>)
    ensures OrderIsFree(xs) <==> forall a :: NoneNegative(a, xs) || AllEqual(a, xs)
  {
    if forall a :: NoneNegative(a, xs) || AllEqual(a, xs) {
      forall b: Balances, ys: seq<TX> | multiset(xs) == multiset(ys) ensures Affordable(b, xs) <==> Affordable(b, ys) {
        AffordablePermutes(b, xs, ys);
      }
    } else {
      var a :| !NoneNegative(a, xs) && !AllEqual(a, xs);
      MixedAmountsDependOnOrder(a, xs);
    }
  }

  // ---------- overdraft ----------

  /** What CheckBlock accepts of a list that UpdateBlance can execute on balances without debt. */
  predicate Accepted(b: Balances, txs: seq<TX>) {
    Affordable(b, txs) && AllKnown(b, txs) && Solvent(b)
  }

  function Accounts(txs: seq<TX>): (r: set<string>)
    ensures forall i :: 0 <= i < |txs| ==> txs[i].from in r && txs[i].to in r
    ensures forall a :: a in r ==> exists i :: 0 <= i < |txs| && (txs[i].from == a || txs[i].to == a)
  {
    (set i | 0 <= i < |txs| :: txs[i].from) + (set i | 0 <= i < |txs| :: txs[i].to)
  }

  /** The least balances that are accepted: what each sender needs to pass, and nothing elsewhere. */
  function Least(txs: seq<TX>): Balances {
    map a | a in Accounts(txs) :: if Sends(a, txs) && Peak(a, txs) > 0 then Peak(a, txs) else 0
  }

  lemma LeastIsAccepted(txs: seq<TX>)
    ensures Accepted(Least(txs), txs)
  {
    var b := Least(txs);
    AffordableIsPasses(b, txs);
    forall a | Sends(a, txs) ensures a in b && Passes(a, b[a], txs) {
      PeakIsLeast(a, b[a], txs);
    }
  }

  lemma LeastIsLeast(b: Balances, txs: seq<TX>, a: string)
    requires Accepted(b, txs) && a in Accounts(txs)
    ensures a in b && Least(txs)[a] <= b[a]
  {
    var i :| 0 <= i < |txs| && (txs[i].from == a || txs[i].to == a);
    assert KnownTx(b, txs[i]);
    AffordableIsPasses(b, txs);
    if Sends(a, txs) { PeakIsLeast(a, b[a], txs); }
  }

  lemma {:induction false} NeverNamed(a: string, txs: seq<TX>)
    requires forall i :: 0 <= i < |txs| ==> txs[i].from != a && txs[i].to != a
    ensures Sum(GainedBy(a), txs) == 0
  {
    if txs != [] { NeverNamed(a, txs[..|txs| - 1]); }
  }

  /** Starting with more, an account is at every point better off. */
  lemma MoreStaysMore(low: Balances, b: Balances, txs: seq<TX>, k: nat, a: string)
    requires AllKnown(low, txs) && AllKnown(b, txs) && k <= |txs|
    requires a in low && a in b && low[a] <= b[a]
    ensures Exec(low, txs[..k])[a] <= Exec(b, txs[..k])[a]
  {
    ExecGains(low, txs[..k], a);
    ExecGains(b, txs[..k], a);
  }

  lemma StaysPositive(low: Balances, b: Balances, txs: seq<TX>, k: nat, a: string)
    requires AllKnown(low, txs) && AllKnown(b, txs) && k <= |txs|
    requires a in low && a in b && low[a] <= b[a] && Solvent(Exec(low, txs[..k]))
    ensures Exec(b, txs[..k])[a] >= 0
  {
    MoreStaysMore(low, b, txs, k, a);
  }

  lemma UnnamedStays(b: Balances, txs: seq<TX>, k: nat, a: string)
    requires AllKnown(b, txs) && k <= |txs| && a in b && a !in Accounts(txs)
    ensures Exec(b, txs[..k])[a] == b[a]
  {
    ExecGains(b, txs[..k], a);
    NeverNamed(a, txs[..k]);
  }

  lemma StaysSolvent(b: Balances, low: Balances, txs: seq<TX>, k: nat)
    requires Accepted(b, txs) && low == Least(txs) && AllKnown(low, txs) && k <= |txs|
    requires Solvent(Exec(low, txs[..k]))
    ensures Solvent(Exec(b, txs[..k]))
  {
    forall a | a in b ensures Exec(b, txs[..k])[a] >= 0 {
      if a in Accounts(txs) {
        LeastIsLeast(b, txs, a);
        StaysPositive(low, b, txs, k, a);
      } else {
        UnnamedStays(b, txs, k, a);
      }
    }
  }

  lemma HasEnough(b: Balances, low: Balances, txs: seq<TX>, k: nat)
    requires Accepted(b, txs) && low == Least(txs) && AllKnown(low, txs) && k < |txs|
    requires txs[k].from in low && txs[k].value <= Exec(low, txs[..k])[txs[k].from]
    ensures KnownTx(b, txs[k]) && txs[k].value <= Exec(b, txs[..k])[txs[k].from]
  {
    LeastIsLeast(b, txs, txs[k].from);
    MoreStaysMore(low, b, txs, k, txs[k].from);
  }

  /** The lists for which acceptance rules out overdraft, exactly: those that run safely from the
      least balances that are accepted. */
  lemma AcceptanceIsEnoughExactly(txs: seq<TX>)
    ensures AllKnown(Least(txs), txs)
    ensures (forall b :: Accepted(b, txs) ==> RunsSafely(b, txs)) <==> RunsSafely(Least(txs), txs)
  {
    var low := Least(txs);
    LeastIsAccepted(txs);
    if RunsSafely(low, txs) {
      forall b | Accepted(b, txs) ensures RunsSafely(b, txs) {
        forall k | 0 <= k <= |txs| ensures Solvent(Exec(b, txs[..k])) { StaysSolvent(b, low, txs, k); }
        forall k | 0 <= k < |txs| ensures txs[k].value <= Exec(b, txs[..k])[txs[k].from] { HasEnough(b, low, txs, k); }
      }
    }
  }

  ghost predicate SafeFrom(lo: int) {
    forall b: Balances, txs: seq<TX> ::
      Accepted(b, txs) && (forall i :: 0 <= i < |txs| ==> txs[i].value >= lo) ==> RunsSafely(b, txs)
  }

  /** The guard the program lacks: acceptance rules out overdraft for all lists with amounts of at
      least lo if and only if lo is not negative. */
  lemma MissingGuardExactly(lo: int)
    ensures SafeFrom(lo) <==> lo >= 0
  {
    if lo >= 0 {
      forall b: Balances, txs: seq<TX> | Accepted(b, txs) && (forall i :: 0 <= i < |txs| ==> txs[i].value >= lo)
        ensures RunsSafely(b, txs)
      {
        AcceptedRunsSafely(b, txs);
      }
    } else {
      var b, txs := NegativeAmountOverdraws(lo);
      assert Accepted(b, txs) && !RunsSafely(b, txs);
    }
  }
}
