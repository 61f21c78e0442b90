/** The transaction pool: a std::set ordered by TX::operator<, kept here as a strictly sorted
    sequence. */
module TxPool {
  import opened Ledger

  /** std::string's order. */
  predicate StringLess(a: string, b: string) {
    if b == "" then false
    else if a == "" then true
    else if a[0] != b[0] then a[0] < b[0]
    else StringLess(a[1..], b[1..])
  }

  /** TX::operator<. */
  predicate TxLess(x: TX, y: TX) {
    x.timeStamp < y.timeStamp || (x.timeStamp == y.timeStamp && StringLess(x.from, y.from))
  }

  type Key = (nat, string)

  function KeyOf(tx: TX): Key { (tx.timeStamp, tx.from) }

  function Keys(txs: seq<TX>): (r: set<Key>)
    ensures forall k :: k in r <==> exists i :: 0 <= i < |txs| && KeyOf(txs[i]) == k
  {
    set i | 0 <= i < |txs| :: KeyOf(txs[i])
  }

  lemma {:induction false} StringLessTrans(a: string, b: string, c: string)
    requires StringLess(a, b) && StringLess(b, c)
    ensures StringLess(a, c)
  {
    if a != "" && a[0] == b[0] == c[0] {
      StringLessTrans(a[1..], b[1..], c[1..]);
    }
  }

  lemma {:induction false} StringLessTotal(a: string, b: string)
    ensures !(StringLess(a, b) && StringLess(b, a))
    ensures StringLess(a, b) || StringLess(b, a) <==> a != b
  {
    if a != "" && b != "" && a[0] == b[0] {
      StringLessTotal(a[1..], b[1..]);
      assert a == [a[0]] + a[1..] && b == [b[0]] + b[1..];
    }
  }

  /** The pool's order is a strict total order on keys: two transactions are equivalent in the set
      exactly when they share time stamp and sender. */
  lemma TxOrder(x: TX, y: TX, z: TX)
    ensures !TxLess(x, y) && !TxLess(y, x) <==> KeyOf(x) == KeyOf(y)
    ensures !(TxLess(x, y) && TxLess(y, x))
    ensures TxLess(x, y) && TxLess(y, z) ==> TxLess(x, z)
  {
    StringLessTotal(x.from, y.from);
    if x.timeStamp == y.timeStamp == z.timeStamp && StringLess(x.from, y.from) && StringLess(y.from, z.from) {
      StringLessTrans(x.from, y.from, z.from);
    }
  }

  /** The string order is the lexicographic one: a proper prefix comes first, otherwise the first
      difference decides. */
  lemma {:induction false} StringLessExactly(a: string, b: string)
    ensures StringLess(a, b) <==> exists k :: 0 <= k <= |a| && k < |b| && a[..k] == b[..k] && (k == |a| || a[k] < b[k])
  {
    if StringLess(a, b) && a != "" && a[0] == b[0] {
      StringLessExactly(a[1..], b[1..]);
      var x, y := a[1..], b[1..];
      var k :| 0 <= k <= |x| && k < |y| && x[..k] == y[..k] && (k == |x| || x[k] < y[k]);
      assert a[..k + 1] == [a[0]] + x[..k] && b[..k + 1] == [b[0]] + y[..k];
      assert k + 1 == |a| || a[k + 1] < b[k + 1];
    } else if StringLess(a, b) {
      assert a[..0] == b[..0];
    }
    if k :| 0 <= k <= |a| && k < |b| && a[..k] == b[..k] && (k == |a| || a[k] < b[k]) {
      if k > 0 {
        assert a[0] == a[..k][0] == b[..k][0] == b[0];
        StringLessExactly(a[1..], b[1..]);
        assert a[1..][..k - 1] == a[..k][1..] == b[..k][1..] == b[1..][..k - 1];
        assert k - 1 == |a[1..]| || a[1..][k - 1] < b[1..][k - 1];
      }
    }
  }

  /** The pool holds older transactions first, and those of one moment in the order of their senders. */
  lemma PoolIsByAge(pool: seq<TX>, i: nat, j: nat)
    requires Sorted(pool) && i < j < |pool|
    ensures pool[i].timeStamp <= pool[j].timeStamp
    ensures pool[i].timeStamp == pool[j].timeStamp ==> StringLess(pool[i].from, pool[j].from)
  {
    assert TxLess(pool[i], pool[j]);
  }

  ghost predicate Sorted(pool: seq<TX>) {
    forall i, j :: 0 <= i < j < |pool| ==> TxLess(pool[i], pool[j])
  }

  predicate SameKey(x: TX, y: TX) {
    !TxLess(x, y) && !TxLess(y, x)
  }

  /** std::set::insert: nothing happens when an equivalent element is there. */
  function Insert(pool: seq<TX>, tx: TX): seq<TX> {
    if pool == [] then [tx]
    else if TxLess(tx, pool[0]) then [tx] + pool
    else if TxLess(pool[0], tx) then [pool[0]] + Insert(pool[1..], tx)
    else pool
  }

  /** std::set::find followed by erase. */
  function Erase(pool: seq<TX>, tx: TX): seq<TX> {
    if pool == [] then []
    else if SameKey(pool[0], tx) then pool[1..]
    else [pool[0]] + Erase(pool[1..], tx)
  }

  function EraseAll(pool: seq<TX>, txs: seq<TX>): seq<TX> {
    if txs == [] then pool else Erase(EraseAll(pool, txs[..|txs| - 1]), txs[|txs| - 1])
  }

  // ---------- insertion ----------

  lemma {:induction false} InsertMembers(pool: seq<TX>, tx: TX, x: TX)
    ensures x in Insert(pool, tx) ==> x in pool || x == tx
    ensures x in pool ==> x in Insert(pool, tx)
  {
    if pool != [] && !TxLess(tx, pool[0]) && TxLess(pool[0], tx) {
      InsertMembers(pool[1..], tx, x);
    }
  }

  lemma {:induction false} InsertSorted(pool: seq<TX>, tx: TX)
    requires Sorted(pool)
    ensures Sorted(Insert(pool, tx))
  {
    if pool == [] {
    } else if TxLess(tx, pool[0]) {
      forall j | 0 <= j < |pool| ensures TxLess(tx, pool[j]) {
        TxOrder(tx, pool[0], pool[j]);
      }
    } else if TxLess(pool[0], tx) {
      var r := Insert(pool[1..], tx);
      InsertSorted(pool[1..], tx);
      forall j | 0 <= j < |r| ensures TxLess(pool[0], r[j]) {
        InsertMembers(pool[1..], tx, r[j]);
      }
    }
  }

  /** The keys after an insertion; an equivalent transaction already there is kept instead. */
  lemma {:induction false} InsertKeys(pool: seq<TX>, tx: TX)
    ensures Keys(Insert(pool, tx)) == Keys(pool) + {KeyOf(tx)}
  {
    if pool == [] {
      assert KeyOf([tx][0]) in Keys([tx]);
    } else if TxLess(tx, pool[0]) {
      KeysAppend([tx], pool);
      assert KeyOf([tx][0]) in Keys([tx]);
    } else if TxLess(pool[0], tx) {
      InsertKeys(pool[1..], tx);
      KeysAppend([pool[0]], Insert(pool[1..], tx));
      KeysAppend([pool[0]], pool[1..]);
      assert pool == [pool[0]] + pool[1..];
    } else {
      TxOrder(tx, pool[0], tx);
      assert KeyOf(pool[0]) in Keys(pool);
    }
  }

  lemma KeysAppend(xs: seq<TX>, ys: seq<TX>)
    ensures Keys(xs + ys) == Keys(xs) + Keys(ys)
  {
    forall k ensures k in Keys(xs + ys) <==> k in Keys(xs) || k in Keys(ys) {
      if k in Keys(xs) { var i :| 0 <= i < |xs| && KeyOf(xs[i]) == k; assert KeyOf((xs + ys)[i]) == k; }
      if k in Keys(ys) { var i :| 0 <= i < |ys| && KeyOf(ys[i]) == k; assert KeyOf((xs + ys)[|xs| + i]) == k; }
    }
  }

  /** Inserting above a position leaves everything up to it in place. */
  lemma {:induction false} InsertAbove(pool: seq<TX>, tx: TX, i: nat)
    requires Sorted(pool) && i < |pool| && TxLess(pool[i], tx)
    ensures i < |Insert(pool, tx)| && Insert(pool, tx)[..i + 1] == pool[..i + 1]
  {
    TxOrder(pool[0], pool[i], tx);
    TxOrder(tx, pool[0], tx);
    if i > 0 {
      InsertAbove(pool[1..], tx, i - 1);
      var r := Insert(pool[1..], tx);
      assert ([pool[0]] + r)[..i + 1] == [pool[0]] + r[..i];
      assert pool[..i + 1] == [pool[0]] + pool[1..][..i];
    }
  }

  // ---------- removal ----------

  lemma {:induction false} EraseMembers(pool: seq<TX>, tx: TX, x: TX)
    requires Sorted(pool)
    ensures x in Erase(pool, tx) <==> x in pool && KeyOf(x) != KeyOf(tx)
  {
    if pool != [] {
      TxOrder(pool[0], tx, tx);
      assert pool == [pool[0]] + pool[1..];
      if SameKey(pool[0], tx) {
        forall j | 1 <= j < |pool| ensures KeyOf(pool[j]) != KeyOf(tx) {
          TxOrder(pool[0], pool[j], tx);
        }
      } else {
        EraseMembers(pool[1..], tx, x);
      }
    }
  }

  lemma {:induction false} EraseSorted(pool: seq<TX>, tx: TX)
    requires Sorted(pool)
    ensures Sorted(Erase(pool, tx))
  {
    if pool != [] && !SameKey(pool[0], tx) {
      var r := Erase(pool[1..], tx);
      EraseSorted(pool[1..], tx);
      forall j | 0 <= j < |r| ensures TxLess(pool[0], r[j]) {
        EraseMembers(pool[1..], tx, r[j]);
      }
    }
  }

  /** RemoveTxFromPool leaves exactly the transactions with other keys. */
  lemma {:induction false} EraseAllMembers(pool: seq<TX>, txs: seq<TX>)
    requires Sorted(pool)
    ensures Sorted(EraseAll(pool, txs))
    ensures forall x :: x in EraseAll(pool, txs) <==> x in pool && KeyOf(x) !in Keys(txs)
  {
    if txs != [] {
      var n := |txs| - 1;
      var r := EraseAll(pool, txs[..n]);
      EraseAllMembers(pool, txs[..n]);
      EraseSorted(r, txs[n]);
      KeysAppend(txs[..n], [txs[n]]);
      assert txs == txs[..n] + [txs[n]];
      assert forall k :: k in Keys([txs[n]]) <==> k == KeyOf(txs[n]) by { assert KeyOf([txs[n]][0]) in Keys([txs[n]]); }
      forall x ensures x in EraseAll(pool, txs) <==> x in pool && KeyOf(x) !in Keys(txs) {
        EraseMembers(r, txs[n], x);
      }
    }
  }

  lemma EraseAllKeys(pool: seq<TX>, txs: seq<TX>)
    requires Sorted(pool)
    ensures Keys(EraseAll(pool, txs)) == Keys(pool) - Keys(txs)
  {
    EraseAllMembers(pool, txs);
    var r := EraseAll(pool, txs);
    forall k ensures k in Keys(r) <==> k in Keys(pool) && k !in Keys(txs) {
      if k in Keys(r) {
        var i :| 0 <= i < |r| && KeyOf(r[i]) == k;
        assert r[i] in r;
      }
      if k in Keys(pool) && k !in Keys(txs) {
        var i :| 0 <= i < |pool| && KeyOf(pool[i]) == k;
        assert pool[i] in r;
      }
    }
  }

  lemma {:induction false} EraseFirst(pool: seq<TX>, k: nat)
    requires Sorted(pool) && k < |pool|
    ensures Erase(pool[k..], pool[k]) == pool[k + 1..]
  {
    TxOrder(pool[k], pool[k], pool[k]);
    assert pool[k..][0] == pool[k] && pool[k..][1..] == pool[k + 1..];
  }

  /** Inserting and erasing different keys commute. */
  lemma {:induction false} EraseInsert(pool: seq<TX>, other: TX, x: TX)
    requires Sorted(pool) && KeyOf(other) != KeyOf(x)
    ensures Erase(Insert(pool, other), x) == Insert(Erase(pool, x), other)
  {
    TxOrder(other, x, x);
    if pool != [] {
      TxOrder(pool[0], x, x);
      TxOrder(pool[0], other, other);
      if TxLess(other, pool[0]) {
        if |pool| > 1 { TxOrder(other, pool[0], pool[1]); }
        assert ([other] + pool)[1..] == pool;
      } else if TxLess(pool[0], other) {
        EraseInsert(pool[1..], other, x);
        assert ([pool[0]] + Insert(pool[1..], other))[1..] == Insert(pool[1..], other);
      }
    }
  }

  lemma {:induction false} InsertPresent(pool: seq<TX>, tx: TX)
    requires Sorted(pool) && KeyOf(tx) in Keys(pool)
    ensures Insert(pool, tx) == pool
  {
    var i :| 0 <= i < |pool| && KeyOf(pool[i]) == KeyOf(tx);
    TxOrder(tx, pool[i], pool[i]);
    TxOrder(tx, pool[0], pool[i]);
    if TxLess(pool[0], tx) {
      TxOrder(pool[0], pool[0], pool[0]);
      assert KeyOf(pool[1..][i - 1]) == KeyOf(tx);
      InsertPresent(pool[1..], tx);
    }
  }

  lemma {:induction false} EraseAllInsert(pool: seq<TX>, other: TX, txs: seq<TX>)
    requires Sorted(pool) && KeyOf(other) !in Keys(txs)
    ensures EraseAll(Insert(pool, other), txs) == Insert(EraseAll(pool, txs), other)
  {
    if txs != [] {
      var n := |txs| - 1;
      assert KeyOf(txs[n]) in Keys(txs);
      forall k | k in Keys(txs[..n]) ensures k in Keys(txs) {
        var i :| 0 <= i < n && KeyOf(txs[..n][i]) == k;
        assert KeyOf(txs[i]) == k;
      }
      EraseAllInsert(pool, other, txs[..n]);
      EraseAllMembers(pool, txs[..n]);
      EraseInsert(EraseAll(pool, txs[..n]), other, txs[n]);
    }
  }

  /** Removing what is at the front leaves the rest. */
  lemma {:induction false} EraseAllPrefix(pool: seq<TX>, k: nat)
    requires Sorted(pool) && k <= |pool|
    ensures EraseAll(pool, pool[..k]) == pool[k..]
  {
    if k > 0 {
      EraseAllPrefix(pool, k - 1);
      assert pool[..k][..k - 1] == pool[..k - 1];
      EraseFirst(pool, k - 1);
    }
  }
}
