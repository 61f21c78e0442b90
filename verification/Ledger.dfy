/** Blocks of transfers over a table of balances: what CheckBlock accepts, what UpdateBlance does,
    and how the two fit together. Amounts are integers (millionths of a coin). */
module Ledger {

  datatype TX = TX(timeStamp: nat, from: string, to: string, value: int, signature: string)

  datatype BlockHeader = BlockHeader(
    height: nat, target: nat, prevHash: string, hash: string, merkleRoot: string, nonce: string)

  datatype Block = Block(header: BlockHeader, txs: seq<TX>)

  type Balances = map<string, int>

  // ---------- sums over transaction lists ----------

  /** What a sum over a transaction list counts. */
  datatype Measure = SentBy(a: string) | GainedBy(a: string) | SelfTransfers

  function Amount(m: Measure, tx: TX): int {
    match m
    case SentBy(a) => if tx.from == a then tx.value else 0
    case GainedBy(a) =>
      // Both balances are read before either is written, so a transfer to oneself adds its value.
      if tx.from == tx.to then (if tx.to == a then tx.value else 0)
      else (if tx.to == a then tx.value else 0) - (if tx.from == a then tx.value else 0)
    case SelfTransfers => if tx.from == tx.to then tx.value else 0
  }

  function Sum(m: Measure, txs: seq<TX>): int {
    if txs == [] then 0 else Sum(m, txs[..|txs| - 1]) + Amount(m, txs[|txs| - 1])
  }

  lemma SumStep(m: Measure, txs: seq<TX>, k: nat)
    requires k < |txs|
    ensures Sum(m, txs[..k + 1]) == Sum(m, txs[..k]) + Amount(m, txs[k])
  {
    assert txs[..k + 1][..k] == txs[..k];
  }

  lemma {:induction false} SumAppend(m: Measure, xs: seq<TX>, ys: seq<TX>)
    ensures Sum(m, xs + ys) == Sum(m, xs) + Sum(m, ys)
  {
    if ys == [] {
      assert xs + ys == xs;
    } else {
      var n := |ys| - 1;
      SumAppend(m, xs, ys[..n]);
      assert (xs + ys)[..|xs + ys| - 1] == xs + ys[..n];
    }
  }

  lemma SumRemove(m: Measure, ys: seq<TX>, i: nat)
    requires i < |ys|
    ensures Sum(m, ys) == Amount(m, ys[i]) + Sum(m, ys[..i] + ys[i + 1..])
    ensures multiset(ys[..i] + ys[i + 1..]) == multiset(ys) - multiset{ys[i]}
  {
    assert ys == ys[..i + 1] + ys[i + 1..] && ys[..i + 1] == ys[..i] + [ys[i]];
    SumAppend(m, ys[..i + 1], ys[i + 1..]);
    SumAppend(m, ys[..i], ys[i + 1..]);
    SumStep(m, ys, i);
  }

  /** Sums do not depend on the order of the list. */
  lemma {:induction false} SumPermutes(m: Measure, xs: seq<TX>, ys: seq<TX>)
    requires multiset(xs) == multiset(ys)
    ensures Sum(m, xs) == Sum(m, ys)
    decreases |xs|
  {
    if xs == [] {
      assert |multiset(ys)| == |ys|;
    } else {
      var n := |xs| - 1;
      assert xs == xs[..n] + [xs[n]];
      assert xs[n] in multiset(ys);
      var i :| 0 <= i < |ys| && ys[i] == xs[n];
      SumRemove(m, ys, i);
      SumPermutes(m, xs[..n], ys[..i] + ys[i + 1..]);
    }
  }

  predicate NonNegative(txs: seq<TX>) {
    forall i :: 0 <= i < |txs| ==> txs[i].value >= 0
  }

  lemma {:induction false} SentGrows(a: string, txs: seq<TX>, k: nat)
    requires NonNegative(txs) && k <= |txs|
    ensures 0 <= Sum(SentBy(a), txs[..k]) <= Sum(SentBy(a), txs)
    decreases |txs|
  {
    if k < |txs| {
      var n := |txs| - 1;
      assert txs[..n][..k] == txs[..k];
      SentGrows(a, txs[..n], k);
    } else if k > 0 {
      assert txs[..k] == txs;
      SentGrows(a, txs[..k - 1], k - 1);
    }
  }

  // ---------- validation ----------

  /** Each sender is known, and at each transfer has not sent more than it started with. */
  predicate Affordable(b: Balances, txs: seq<TX>) {
    forall i :: 0 <= i < |txs| ==> AffordableAt(b, txs, i)
  }

  predicate AffordableAt(b: Balances, txs: seq<TX>, i: nat)
    requires i < |txs|
  {
    txs[i].from in b && Sum(SentBy(txs[i].from), txs[..i + 1]) <= b[txs[i].from]
  }

  /** The simple form: senders known, and total outflows covered by the starting balances. */
  predicate Covered(b: Balances, txs: seq<TX>) {
    forall i :: 0 <= i < |txs| ==> txs[i].from in b && Sum(SentBy(txs[i].from), txs) <= b[txs[i].from]
  }

  lemma {:induction false} LastSend(a: string, txs: seq<TX>) returns (k: nat)
    requires exists i :: 0 <= i < |txs| && txs[i].from == a
    ensures k < |txs| && txs[k].from == a && Sum(SentBy(a), txs[..k + 1]) == Sum(SentBy(a), txs)
    decreases |txs|
  {
    var n := |txs| - 1;
    if txs[n].from == a {
      k := n;
      assert txs[..n + 1] == txs;
    } else {
      var i :| 0 <= i < |txs| && txs[i].from == a;
      assert txs[..n][i].from == a;
      k := LastSend(a, txs[..n]);
      assert txs[..n][..k + 1] == txs[..k + 1];
    }
  }

  /** Without negative amounts, the running check amounts to the check of the totals. */
  lemma AffordableIsCovered(b: Balances, txs: seq<TX>)
    requires NonNegative(txs)
    ensures Affordable(b, txs) <==> Covered(b, txs)
  {
    if Affordable(b, txs) {
      forall i | 0 <= i < |txs| ensures txs[i].from in b && Sum(SentBy(txs[i].from), txs) <= b[txs[i].from] {
        var k := LastSend(txs[i].from, txs);
        assert AffordableAt(b, txs, i) && AffordableAt(b, txs, k);
      }
    }
    if Covered(b, txs) {
      forall i | 0 <= i < |txs| ensures AffordableAt(b, txs, i) {
        SentGrows(txs[i].from, txs, i + 1);
      }
    }
  }

  /** So the order of the transfers does not matter to validation. */
  lemma VerdictPermutes(b: Balances, xs: seq<TX>, ys: seq<TX>)
    requires multiset(xs) == multiset(ys) && NonNegative(xs)
    ensures Affordable(b, xs) <==> Affordable(b, ys)
  {
    PermutedNonNegative(xs, ys);
    AffordableIsCovered(b, xs);
    AffordableIsCovered(b, ys);
    if Covered(b, xs) { CoveredPermutes(b, xs, ys); }
    if Covered(b, ys) { CoveredPermutes(b, ys, xs); }
  }

  lemma PermutedNonNegative(xs: seq<TX>, ys: seq<TX>)
    requires multiset(xs) == multiset(ys) && NonNegative(xs)
    ensures NonNegative(ys)
  {
    forall i | 0 <= i < |ys| ensures ys[i].value >= 0 {
      assert ys[i] in multiset(xs);
    }
  }

  lemma CoveredPermutes(b: Balances, xs: seq<TX>, ys: seq<TX>)
    requires multiset(xs) == multiset(ys) && Covered(b, xs)
    ensures Covered(b, ys)
  {
    forall i | 0 <= i < |ys| ensures ys[i].from in b && Sum(SentBy(ys[i].from), ys) <= b[ys[i].from] {
      assert ys[i] in multiset(xs);
      var j :| 0 <= j < |xs| && xs[j] == ys[i];
      SumPermutes(SentBy(ys[i].from), xs, ys);
    }
  }

  // ---------- execution ----------

  predicate KnownTx(b: Balances, tx: TX) {
    tx.from in b && tx.to in b
  }

  predicate AllKnown(b: Balances, txs: seq<TX>) {
    forall i :: 0 <= i < |txs| ==> KnownTx(b, txs[i])
  }

  /** One transfer of UpdateBlance: both balances are read, then both are written. */
  function Transfer(b: Balances, tx: TX): (r: Balances)
    requires KnownTx(b, tx)
    ensures r.Keys == b.Keys
  {
    b[tx.from := b[tx.from] - tx.value][tx.to := b[tx.to] + tx.value]
  }

  function Exec(b: Balances, txs: seq<TX>): (r: Balances)
    requires AllKnown(b, txs)
    ensures r.Keys == b.Keys
  {
    if txs == [] then b else Transfer(Exec(b, txs[..|txs| - 1]), txs[|txs| - 1])
  }

  /** The final balance of each account, in closed form. */
  lemma {:induction false} ExecGains(b: Balances, txs: seq<TX>, a: string)
    requires AllKnown(b, txs) && a in b
    ensures Exec(b, txs)[a] == b[a] + Sum(GainedBy(a), txs)
  {
    if txs != [] {
      ExecGains(b, txs[..|txs| - 1], a);
    }
  }

  /** Execution does not depend on the order of the transfers, whatever the amounts. */
  lemma ExecPermutes(b: Balances, xs: seq<TX>, ys: seq<TX>)
    requires multiset(xs) == multiset(ys) && AllKnown(b, xs)
    ensures AllKnown(b, ys) && Exec(b, xs) == Exec(b, ys)
  {
    forall i | 0 <= i < |ys| ensures KnownTx(b, ys[i]) {
      assert ys[i] in multiset(xs);
    }
    forall a | a in b ensures Exec(b, xs)[a] == Exec(b, ys)[a] {
      ExecGains(b, xs, a);
      ExecGains(b, ys, a);
      SumPermutes(GainedBy(a), xs, ys);
    }
  }

  lemma {:induction false} GainsCoverSends(a: string, txs: seq<TX>)
    requires NonNegative(txs)
    ensures Sum(GainedBy(a), txs) >= -Sum(SentBy(a), txs)
  {
    if txs != [] { GainsCoverSends(a, txs[..|txs| - 1]); }
  }

  lemma {:induction false} NeverSent(a: string, txs: seq<TX>)
    requires forall i :: 0 <= i < |txs| ==> txs[i].from != a
    ensures Sum(SentBy(a), txs) == 0
  {
    if txs != [] { NeverSent(a, txs[..|txs| - 1]); }
  }

  predicate Solvent(b: Balances) {
    forall a :: a in b ==> b[a] >= 0
  }

  lemma PrefixStaysSolvent(b: Balances, txs: seq<TX>, k: nat)
    requires NonNegative(txs) && Affordable(b, txs) && AllKnown(b, txs) && Solvent(b) && k <= |txs|
    ensures Solvent(Exec(b, txs[..k]))
  {
    AffordableIsCovered(b, txs);
    forall a | a in b ensures Exec(b, txs[..k])[a] >= 0 {
      ExecGains(b, txs[..k], a);
      GainsCoverSends(a, txs[..k]);
      if i :| 0 <= i < |txs| && txs[i].from == a {
        SentGrows(a, txs, k);
      } else {
        NeverSent(a, txs[..k]);
      }
    }
  }

  /** A transfer list runs without overdraft: before each transfer the sender holds the amount, and
      no balance is ever negative. */
  ghost predicate RunsSafely(b: Balances, txs: seq<TX>)
    requires AllKnown(b, txs)
  {
    && (forall k :: 0 <= k < |txs| ==> txs[k].value <= Exec(b, txs[..k])[txs[k].from])
    && (forall k :: 0 <= k <= |txs| ==> Solvent(Exec(b, txs[..k])))
  }

  /** Validation is sound for execution, although the scratch table never credits receipts. */
  lemma AcceptedRunsSafely(b: Balances, txs: seq<TX>)
    requires NonNegative(txs) && Affordable(b, txs) && AllKnown(b, txs) && Solvent(b)
    ensures RunsSafely(b, txs)
  {
    forall k | 0 <= k <= |txs| ensures Solvent(Exec(b, txs[..k])) {
      PrefixStaysSolvent(b, txs, k);
    }
    forall k | 0 <= k < |txs| ensures txs[k].value <= Exec(b, txs[..k])[txs[k].from] {
      var a := txs[k].from;
      assert AffordableAt(b, txs, k);
      SumStep(SentBy(a), txs, k);
      ExecGains(b, txs[..k], a);
      GainsCoverSends(a, txs[..k]);
    }
  }

  /** A transfer of any negative amount is accepted by the check from empty accounts, and takes money
      from the receiver. */
  lemma NegativeAmountOverdraws(v: int) returns (b: Balances, txs: seq<TX>)
    requires v < 0
    ensures |txs| == 1 && txs[0].value == v
    ensures Affordable(b, txs) && AllKnown(b, txs) && Solvent(b) && !RunsSafely(b, txs)
  {
    b := map["a" := 0, "b" := 0];
    var tx := TX(1, "a", "b", v, "");
    txs := [tx];
    assert txs[..1] == txs && txs[..0] == [];
    SumStep(SentBy("a"), txs, 0);
    assert AffordableAt(b, txs, 0);
    assert Exec(b, txs)["b"] == v;
    assert !Solvent(Exec(b, txs[..1]));
  }

  // ---------- conservation ----------

  ghost function Total(b: Balances): int {
    if b == map[] then 0 else var a :| a in b; b[a] + Total(b - {a})
  }

  lemma {:induction false} TotalPick(b: Balances, a: string)
    requires a in b
    ensures Total(b) == b[a] + Total(b - {a})
    decreases |b|
  {
    var x :| x in b && Total(b) == b[x] + Total(b - {x});
    if x != a {
      TotalPick(b - {x}, a);
      TotalPick(b - {a}, x);
      assert b - {x} - {a} == b - {a} - {x};
    }
  }

  lemma TotalUpdate(b: Balances, a: string, v: int)
    requires a in b
    ensures Total(b[a := v]) == Total(b) - b[a] + v
  {
    TotalPick(b, a);
    TotalPick(b[a := v], a);
    assert b[a := v] - {a} == b - {a};
  }

  lemma TransferConserves(b: Balances, tx: TX)
    requires KnownTx(b, tx)
    ensures Total(Transfer(b, tx)) == Total(b) + Amount(SelfTransfers, tx)
  {
    TotalUpdate(b, tx.from, b[tx.from] - tx.value);
    TotalUpdate(b[tx.from := b[tx.from] - tx.value], tx.to, b[tx.to] + tx.value);
  }

  /** Execution changes the sum of all balances by exactly the transfers to oneself. */
  lemma {:induction false} ExecConserves(b: Balances, txs: seq<TX>)
    requires AllKnown(b, txs)
    ensures Total(Exec(b, txs)) == Total(b) + Sum(SelfTransfers, txs)
  {
    if txs != [] {
      var n := |txs| - 1;
      ExecConserves(b, txs[..n]);
      TransferConserves(Exec(b, txs[..n]), txs[n]);
    }
  }

  // ---------- chains of blocks ----------

  ghost predicate BlocksKnown(b: Balances, blocks: seq<Block>) {
    forall i :: 0 <= i < |blocks| ==> AllKnown(b, blocks[i].txs)
  }

  /** The balances after a list of committed blocks. */
  function ExecBlocks(b: Balances, blocks: seq<Block>): (r: Balances)
    requires BlocksKnown(b, blocks)
    ensures r.Keys == b.Keys
  {
    if blocks == [] then b
    else Exec(ExecBlocks(b, blocks[..|blocks| - 1]), blocks[|blocks| - 1].txs)
  }

  function SelfTransferTotal(blocks: seq<Block>): int {
    if blocks == [] then 0
    else SelfTransferTotal(blocks[..|blocks| - 1]) + Sum(SelfTransfers, blocks[|blocks| - 1].txs)
  }

  /** Conservation over any sequence of committed blocks. */
  lemma {:induction false} ChainConserves(b: Balances, blocks: seq<Block>)
    requires BlocksKnown(b, blocks)
    ensures Total(ExecBlocks(b, blocks)) == Total(b) + SelfTransferTotal(blocks)
    ensures ExecBlocks(b, blocks).Keys == b.Keys
  {
    if blocks != [] {
      ChainConserves(b, blocks[..|blocks| - 1]);
      ExecConserves(ExecBlocks(b, blocks[..|blocks| - 1]), blocks[|blocks| - 1].txs);
    }
  }
}
