/** The primary's loop over its whole life: clients submit transactions at any moment; when the pool
    is full enough a block is packed and proposed, and the next one is packed only after that one
    was committed, because BlockProposal waits for GetRequest. */
module PrimaryLoop {
  import opened Traces
  import opened Ledger
  import opened TxPool
  import opened Master
  import Codec
  import CR = ChainRecovery
  import R = Replica

  /** The node, the block being packed or proposed, and as history the committed blocks, the keys
      submitted, and whether a key was submitted again after its commit. */
  datatype Loop = Loop(
    node: Node,
    onPacking: Block,
    proposing: bool,
    blocks: seq<Block>,
    submitted: set<Key>,
    replayed: bool)

  datatype Step = Submit(tx: TX) | Propose(merkle: string) | Committed

  function BlockKeys(blocks: seq<Block>): (r: set<Key>) {
    if blocks == [] then {} else BlockKeys(blocks[..|blocks| - 1]) + Keys(blocks[|blocks| - 1].txs)
  }

  function HeaderOf(n: Node, h: string): BlockHeader
    requires h in n.store
  {
    n.store[h].header
  }

  /** The hash of a packed header is not genesis, and the hash function does not map its text and the text
      of an earlier block of the chain to one value unless they are the same. */
  ghost predicate NoCollision(env: Env, n: Node, b: Block) {
    && n.chain != [] && b.header.hash != n.chain[0]
    && forall i :: 0 < i < |n.chain| && n.chain[i] in n.store ==> TextsApart(env, b.header, HeaderOf(n, n.chain[i]))
  }

  ghost predicate TextsApart(env: Env, a: BlockHeader, b: BlockHeader) {
    env.hash(HeaderText(a)) == env.hash(HeaderText(b)) ==> HeaderText(a) == HeaderText(b)
  }

  ghost predicate Enabled(env: Env, min: nat, c: Loop, s: Step) {
    match s
    case Submit(tx) => true
    case Propose(merkle) =>
      && !c.proposing && ReadyToPack(c.node, min) && |merkle| == 64 && c.node.chain != []
      && var p := Pack(env, c.node, merkle);
         p.Some? ==> NoCollision(env, c.node, p.value) && |p.value.header.hash| == 64
    case Committed => c.proposing && AllKnown(c.node.balances, c.onPacking.txs)
  }

  ghost function Do(env: Env, min: nat, c: Loop, s: Step): Loop
    requires Enabled(env, min, c, s)
  {
    match s
    case Submit(tx) =>
      var c1 := c.(node := AddTransx(env, c.node, tx));
      if env.valid(tx) then
        c1.(submitted := c.submitted + {KeyOf(tx)}, replayed := c.replayed || KeyOf(tx) in BlockKeys(c.blocks))
      else c1
    case Propose(merkle) =>
      // If the tail cannot be read, PackBlock returns early and the old block is proposed again.
      var p := Pack(env, c.node, merkle);
      c.(onPacking := if p.Some? then p.value else c.onPacking, proposing := true)
    case Committed =>
      c.(node := Commit(c.node, c.onPacking), proposing := false, blocks := c.blocks + [c.onPacking])
  }

  // ---------- the chain invariant ----------

  /** The i-th block was packed on top of its predecessor. */
  ghost predicate LinkOk(env: Env, n: Node, i: nat)
    requires 0 < i < |n.chain| && n.chain[i] in n.store && n.chain[i - 1] in n.store
  {
    var h := HeaderOf(n, n.chain[i]);
    && h.prevHash == n.chain[i - 1] && h.height == HeaderOf(n, n.chain[i - 1]).height + 1
    && h.target == TARGET && h.nonce == "nonce" && |h.merkleRoot| == 64
    && n.chain[i] == HeaderHash(env, h)
  }

  ghost predicate Stored(n: Node) {
    forall i :: 0 <= i < |n.chain| ==>
      n.chain[i] in n.store && HeaderOf(n, n.chain[i]).hash == n.chain[i] && |n.chain[i]| == 64
  }

  /** The chain is hash-linked with heights counting up, without repeats, and the directory holds
      exactly its blocks, each under its own hash. */
  ghost predicate ChainOk(env: Env, n: Node) {
    && n.chain != [] && Stored(n) && CR.Distinct(n.chain)
    && (forall h :: h in n.store ==> h in n.chain)
    && (forall i :: 0 < i < |n.chain| ==> LinkOk(env, n, i))
  }

  /** A block that extends the tail of a chain with a new hash. */
  ghost predicate Extends(env: Env, n: Node, b: Block)
    requires n.chain != [] && Stored(n)
  {
    var tail := n.chain[|n.chain| - 1];
    && b.header.prevHash == tail && b.header.height == HeaderOf(n, tail).height + 1
    && b.header.target == TARGET && b.header.nonce == "nonce" && |b.header.merkleRoot| == 64
    && b.header.hash == HeaderHash(env, b.header) && |b.header.hash| == 64
    && b.header.hash !in n.chain
  }

  /** Heights grow along the chain. */
  lemma NextHeight(env: Env, n: Node, j: nat)
    requires ChainOk(env, n) && 0 < j < |n.chain|
    ensures n.chain[j] in n.store && n.chain[j - 1] in n.store
    ensures HeaderOf(n, n.chain[j]).height == HeaderOf(n, n.chain[j - 1]).height + 1
  {
    assert LinkOk(env, n, j);
  }

  lemma {:induction false} HeightsGrow(env: Env, n: Node, i: nat, j: nat)
    requires ChainOk(env, n) && i <= j < |n.chain|
    ensures n.chain[i] in n.store && n.chain[j] in n.store
    ensures HeaderOf(n, n.chain[j]).height == HeaderOf(n, n.chain[i]).height + (j - i)
    decreases j
  {
    if i < j {
      HeightsGrow(env, n, i, j - 1);
      NextHeight(env, n, j);
    }
  }

  /** The tail can always be read, and the packed block extends it: its height makes its header text,
      and so without a collision its hash, different from every earlier one. */
  lemma PackExtends(env: Env, n: Node, merkle: string)
    requires ChainOk(env, n) && |merkle| == 64
    ensures Pack(env, n, merkle).Some?
    ensures var b := Pack(env, n, merkle).value;
            NoCollision(env, n, b) && |b.header.hash| == 64 ==> Extends(env, n, b)
  {
    var k := |n.chain| - 1;
    var b := Pack(env, n, merkle).value;
    assert HeaderHash(env, b.header) == b.header.hash;
    if NoCollision(env, n, b) {
      forall i | 0 <= i < |n.chain| ensures b.header.hash != n.chain[i] {
        if i > 0 {
          var h := HeaderOf(n, n.chain[i]);
          assert LinkOk(env, n, i);
          HeightsGrow(env, n, i, k);
          assert TextsApart(env, b.header, h);
          HeaderTextExactly(b.header, h);
        }
      }
    }
  }

  lemma CommitKeepsChain(env: Env, n: Node, b: Block)
    requires ChainOk(env, n) && Extends(env, n, b) && AllKnown(n.balances, b.txs)
    ensures ChainOk(env, Commit(n, b))
  {
    var n', k := Commit(n, b), |n.chain|;
    forall i | 0 <= i < |n'.chain|
      ensures n'.chain[i] in n'.store && HeaderOf(n', n'.chain[i]).hash == n'.chain[i] && |n'.chain[i]| == 64
      ensures i < k ==> HeaderOf(n', n'.chain[i]) == HeaderOf(n, n.chain[i])
    {
      if i < k { assert n.chain[i] in n.store && n.chain[i] != b.header.hash; }
    }
    forall i | 0 < i < |n'.chain| ensures LinkOk(env, n', i) {
      if i < k { assert LinkOk(env, n, i); }
    }
    forall h | h in n'.store ensures h in n'.chain {
      if h != b.header.hash { assert h in n.chain; } else { assert n'.chain[k] == h; }
    }
  }

  // ---------- a hash stands for its whole chain ----------

  /** No header of the one chain collides with one of the other. */
  ghost predicate ChainsApart(env: Env, n1: Node, n2: Node) {
    forall i, j :: 0 < i < |n1.chain| && 0 < j < |n2.chain| && n1.chain[i] in n1.store && n2.chain[j] in n2.store ==>
      TextsApart(env, HeaderOf(n1, n1.chain[i]), HeaderOf(n2, n2.chain[j]))
  }

  /** Equal hashes in two chains come from headers with equal predecessors. */
  lemma EqualHashesEqualParts(env: Env, n1: Node, n2: Node, i: nat, j: nat)
    requires ChainOk(env, n1) && ChainOk(env, n2) && ChainsApart(env, n1, n2)
    requires 0 < i < |n1.chain| && 0 < j < |n2.chain| && n1.chain[i] == n2.chain[j]
    ensures n1.chain[i - 1] == n2.chain[j - 1]
    ensures n1.chain[i] in n1.store && n2.chain[j] in n2.store
    ensures HeaderText(HeaderOf(n1, n1.chain[i])) == HeaderText(HeaderOf(n2, n2.chain[j]))
  {
    assert LinkOk(env, n1, i) && LinkOk(env, n2, j);
    assert TextsApart(env, HeaderOf(n1, n1.chain[i]), HeaderOf(n2, n2.chain[j]));
    HeaderTextExactly(HeaderOf(n1, n1.chain[i]), HeaderOf(n2, n2.chain[j]));
  }

  /** If these positions hold one hash, the positions before them do. */
  ghost predicate GoesBack(c1: seq<string>, c2: seq<string>, i: nat, j: nat)
    requires 0 < i < |c1| && 0 < j < |c2|
  {
    c1[i] == c2[j] ==> c1[i - 1] == c2[j - 1]
  }

  lemma {:induction false} EqualUpTo(c1: seq<string>, c2: seq<string>, i: nat, j: nat)
    requires CR.Distinct(c1) && CR.Distinct(c2) && i < |c1| && j < |c2| && c1[0] == c2[0] && c1[i] == c2[j]
    requires forall a, b :: 0 < a < |c1| && 0 < b < |c2| ==> GoesBack(c1, c2, a, b)
    ensures i == j && c1[..i + 1] == c2[..j + 1]
  {
    if i > 0 && j > 0 {
      assert GoesBack(c1, c2, i, j);
      EqualUpTo(c1, c2, i - 1, j - 1);
      assert c1[..i + 1] == c1[..i] + [c1[i]] && c2[..j + 1] == c2[..j] + [c2[j]];
    }
  }

  lemma ChainsGoBack(env: Env, n1: Node, n2: Node)
    requires ChainOk(env, n1) && ChainOk(env, n2) && ChainsApart(env, n1, n2)
    ensures forall a, b :: 0 < a < |n1.chain| && 0 < b < |n2.chain| ==> GoesBack(n1.chain, n2.chain, a, b)
  {
    forall a, b | 0 < a < |n1.chain| && 0 < b < |n2.chain| ensures GoesBack(n1.chain, n2.chain, a, b) {
      if n1.chain[a] == n2.chain[b] { EqualHashesEqualParts(env, n1, n2, a, b); }
    }
  }

  lemma SameTailSameHashes(c1: seq<string>, c2: seq<string>)
    requires CR.Distinct(c1) && CR.Distinct(c2) && c1 != [] && c2 != []
    requires c1[0] == c2[0] && c1[|c1| - 1] == c2[|c2| - 1]
    requires forall a, b :: 0 < a < |c1| && 0 < b < |c2| ==> GoesBack(c1, c2, a, b)
    ensures c1 == c2
  {
    EqualUpTo(c1, c2, |c1| - 1, |c2| - 1);
    assert c1[..|c1|] == c1 && c2[..|c2|] == c2;
  }

  /** The header hash covers the previous hash, so the last hash stands for the whole chain: without
      collisions, two chains from one genesis block that end in the same hash are the same, header by
      header. */
  lemma TailDeterminesChain(env: Env, n1: Node, n2: Node)
    requires ChainOk(env, n1) && ChainOk(env, n2) && ChainsApart(env, n1, n2)
    requires n1.chain[0] == n2.chain[0] && n1.chain[|n1.chain| - 1] == n2.chain[|n2.chain| - 1]
    ensures n1.chain == n2.chain
    ensures forall i :: 0 < i < |n1.chain| ==> SameHeaderAt(n1, n2, i)
  {
    ChainsGoBack(env, n1, n2);
    SameTailSameHashes(n1.chain, n2.chain);
    forall i | 0 < i < |n1.chain| ensures SameHeaderAt(n1, n2, i) {
      EqualHashesEqualParts(env, n1, n2, i, i);
    }
  }

  ghost predicate SameHeaderAt(n1: Node, n2: Node, i: nat)
    requires i < |n1.chain|
  {
    var h := n1.chain[i];
    h in n1.store && h in n2.store && HeaderText(HeaderOf(n1, h)) == HeaderText(HeaderOf(n2, h))
  }

  // ---------- the pool invariant ----------

  ghost predicate Disjoint(pool: seq<TX>, blocks: seq<Block>) {
    Keys(pool) !! BlockKeys(blocks) && BlocksDisjoint(blocks)
  }

  /** No key is in two blocks, or twice in one. */
  ghost predicate BlocksDisjoint(blocks: seq<Block>) {
    && (forall i, j :: 0 <= i < j < |blocks| ==> Keys(blocks[i].txs) !! Keys(blocks[j].txs))
    && (forall i :: 0 <= i < |blocks| ==> Sorted(blocks[i].txs))
  }

  ghost predicate PoolOk(c: Loop) {
    && Sorted(c.node.pool)
    && Keys(c.node.pool) + BlockKeys(c.blocks) == c.submitted
    && (!c.replayed ==> Disjoint(c.node.pool, c.blocks))
    && (c.proposing ==> Sorted(c.onPacking.txs) && forall x :: x in c.onPacking.txs ==> x in c.node.pool)
  }

  ghost predicate Inv(env: Env, c: Loop) {
    && ChainOk(env, c.node) && PoolOk(c)
    && (c.proposing ==> Extends(env, c.node, c.onPacking))
  }

  /** A node just started: an empty pool and a chain that was recovered or is genesis only. */
  ghost predicate Init(env: Env, c: Loop) {
    && ChainOk(env, c.node) && c.node.pool == [] && !c.proposing && c.blocks == [] && c.submitted == {} && !c.replayed
  }

  ghost predicate StepAt(env: Env, min: nat, run: seq<Loop>, steps: seq<Step>, i: int) {
    && 0 <= i < |steps| && i + 1 < |run|
    && Enabled(env, min, run[i], steps[i]) && run[i + 1] == Do(env, min, run[i], steps[i])
  }

  ghost predicate IsRun(env: Env, min: nat, run: seq<Loop>, steps: seq<Step>) {
    && |run| == |steps| + 1 && Init(env, run[0])
    && forall i :: 0 <= i < |steps| ==> StepAt(env, min, run, steps, i)
  }

  lemma SubKeys(xs: seq<TX>, ys: seq<TX>)
    requires forall x :: x in xs ==> x in ys
    ensures Keys(xs) <= Keys(ys)
  {
    forall k | k in Keys(xs) ensures k in Keys(ys) {
      var i :| 0 <= i < |xs| && KeyOf(xs[i]) == k;
      assert xs[i] in ys;
      var j :| 0 <= j < |ys| && ys[j] == xs[i];
    }
  }

  lemma SubmitKeepsPool(env: Env, min: nat, c: Loop, tx: TX)
    requires PoolOk(c)
    ensures PoolOk(Do(env, min, c, Submit(tx)))
  {
    if env.valid(tx) {
      InsertSorted(c.node.pool, tx);
      InsertKeys(c.node.pool, tx);
      forall x | c.proposing && x in c.onPacking.txs ensures x in Insert(c.node.pool, tx) {
        InsertMembers(c.node.pool, tx, x);
      }
    }
  }

  lemma SubmitKeepsInv(env: Env, min: nat, c: Loop, tx: TX)
    requires Inv(env, c)
    ensures Inv(env, Do(env, min, c, Submit(tx)))
  {
    SubmitKeepsPool(env, min, c, tx);
    ChainFrame(env, c.node, Do(env, min, c, Submit(tx)).node);
  }

  /** The chain invariant is about the chain and the directory only. */
  lemma ChainFrame(env: Env, n: Node, n': Node)
    requires n'.chain == n.chain && n'.store == n.store && ChainOk(env, n)
    ensures ChainOk(env, n')
    ensures forall b :: Extends(env, n, b) ==> Extends(env, n', b)
  {
    forall i | 0 < i < |n'.chain| ensures LinkOk(env, n', i) {
      assert LinkOk(env, n, i);
    }
  }

  lemma ProposeKeepsInv(env: Env, min: nat, c: Loop, merkle: string)
    requires Inv(env, c) && Enabled(env, min, c, Propose(merkle))
    ensures Inv(env, Do(env, min, c, Propose(merkle)))
    ensures Do(env, min, c, Propose(merkle)).onPacking.txs == c.node.pool[..PackSize(c.node.pool)]
  {
    PackExtends(env, c.node, merkle);
  }

  /** Committing moves keys from the pool to the blocks. */
  lemma CommitMovesKeys(pool: seq<TX>, blocks: seq<Block>, b: Block)
    requires Sorted(pool) && Sorted(b.txs) && forall x :: x in b.txs ==> x in pool
    ensures Sorted(EraseAll(pool, b.txs))
    ensures Keys(EraseAll(pool, b.txs)) + BlockKeys(blocks + [b]) == Keys(pool) + BlockKeys(blocks)
    ensures Disjoint(pool, blocks) ==> Disjoint(EraseAll(pool, b.txs), blocks + [b])
  {
    EraseAllMembers(pool, b.txs);
    EraseAllKeys(pool, b.txs);
    SubKeys(b.txs, pool);
    assert (blocks + [b])[..|blocks|] == blocks;
    if Disjoint(pool, blocks) {
      forall i | 0 <= i < |blocks| ensures Keys(blocks[i].txs) !! Keys(b.txs) {
        BlockKeysMember(blocks, i);
      }
    }
  }

  lemma CommittedKeepsPool(env: Env, min: nat, c: Loop)
    requires Inv(env, c) && Enabled(env, min, c, Committed)
    ensures PoolOk(Do(env, min, c, Committed))
  {
    CommitMovesKeys(c.node.pool, c.blocks, c.onPacking);
  }

  lemma {:induction false} BlockKeysMember(blocks: seq<Block>, i: nat)
    requires i < |blocks|
    ensures Keys(blocks[i].txs) <= BlockKeys(blocks)
  {
    if i < |blocks| - 1 { BlockKeysMember(blocks[..|blocks| - 1], i); }
  }

  lemma DoKeepsInv(env: Env, min: nat, c: Loop, s: Step)
    requires Inv(env, c) && Enabled(env, min, c, s)
    ensures Inv(env, Do(env, min, c, s))
  {
    match s
    case Submit(tx) => SubmitKeepsInv(env, min, c, tx);
    case Propose(merkle) => ProposeKeepsInv(env, min, c, merkle);
    case Committed =>
      CommittedKeepsPool(env, min, c);
      CommitKeepsChain(env, c.node, c.onPacking);
  }

  lemma {:induction false} RunInv(env: Env, min: nat, run: seq<Loop>, steps: seq<Step>, i: nat)
    requires IsRun(env, min, run, steps) && i < |run|
    ensures Inv(env, run[i])
  {
    if i == 0 {
      assert Keys([]) == {} && BlockKeys([]) == {};
    } else {
      RunInv(env, min, run, steps, i - 1);
      assert StepAt(env, min, run, steps, i - 1);
      DoKeepsInv(env, min, run[i - 1], steps[i - 1]);
    }
  }

  // ---------- results ----------

  /** The chain over every run: linked, heights counting up, no repeats, each hash stored under its
      name, and reading the tail inside PackBlock never fails. */
  lemma ChainOverRuns(env: Env, min: nat, run: seq<Loop>, steps: seq<Step>, i: nat, merkle: string)
    requires IsRun(env, min, run, steps) && i < |run| && |merkle| == 64
    ensures ChainOk(env, run[i].node) && Pack(env, run[i].node, merkle).Some?
    ensures forall j, k :: 0 <= j <= k < |run[i].node.chain| ==>
              HeaderOf(run[i].node, run[i].node.chain[k]).height == HeaderOf(run[i].node, run[i].node.chain[j]).height + (k - j)
  {
    var n := run[i].node;
    RunInv(env, min, run, steps, i);
    PackExtends(env, n, merkle);
    forall j, k | 0 <= j <= k < |n.chain|
      ensures HeaderOf(n, n.chain[k]).height == HeaderOf(n, n.chain[j]).height + (k - j)
    {
      HeightsGrow(env, n, j, k);
    }
  }

  lemma {:induction false} NotReplayedBefore(env: Env, min: nat, run: seq<Loop>, steps: seq<Step>, i: nat, j: nat)
    requires IsRun(env, min, run, steps) && i <= j < |run| && !run[j].replayed
    ensures !run[i].replayed
    decreases j
  {
    if i < j {
      assert StepAt(env, min, run, steps, j - 1);
      NotReplayedBefore(env, min, run, steps, i, j - 1);
    }
  }

  /** The step that resubmits a committed key puts it back into the pool. */
  lemma {:induction false} ReplayBreaks(env: Env, min: nat, run: seq<Loop>, steps: seq<Step>, j: nat) returns (i: nat)
    requires IsRun(env, min, run, steps) && j < |run| && run[j].replayed
    ensures i <= j && !Disjoint(run[i].node.pool, run[i].blocks)
    decreases j
  {
    assert j > 0;
    if run[j - 1].replayed {
      i := ReplayBreaks(env, min, run, steps, j - 1);
    } else {
      i := j;
      assert StepAt(env, min, run, steps, j - 1);
      var tx := steps[j - 1].tx;
      InsertKeys(run[j - 1].node.pool, tx);
      assert KeyOf(tx) in Keys(run[j].node.pool) && KeyOf(tx) in BlockKeys(run[j].blocks);
    }
  }

  /** Conservation over every run: the submitted keys are always those in the pool and those
      committed; and pool and blocks stay disjoint, so that no transaction is in two committed
      blocks, if and only if no key is submitted again after its commit. */
  lemma PoolConservation(env: Env, min: nat, run: seq<Loop>, steps: seq<Step>)
    requires IsRun(env, min, run, steps)
    ensures forall i :: 0 <= i < |run| ==> Keys(run[i].node.pool) + BlockKeys(run[i].blocks) == run[i].submitted
    ensures (forall i :: 0 <= i < |run| ==> Disjoint(run[i].node.pool, run[i].blocks)) <==> !run[|run| - 1].replayed
  {
    forall i | 0 <= i < |run|
      ensures Keys(run[i].node.pool) + BlockKeys(run[i].blocks) == run[i].submitted
      ensures !run[|run| - 1].replayed ==> Disjoint(run[i].node.pool, run[i].blocks)
    {
      RunInv(env, min, run, steps, i);
      if !run[|run| - 1].replayed { NotReplayedBefore(env, min, run, steps, i, |run| - 1); }
    }
    if run[|run| - 1].replayed {
      var i := ReplayBreaks(env, min, run, steps, |run| - 1);
    }
  }

  lemma Extend(env: Env, min: nat, run: seq<Loop>, steps: seq<Step>, s: Step)
    requires IsRun(env, min, run, steps) && Enabled(env, min, run[|run| - 1], s)
    ensures IsRun(env, min, run + [Do(env, min, run[|run| - 1], s)], steps + [s])
  {
    var run', steps' := run + [Do(env, min, run[|run| - 1], s)], steps + [s];
    forall i | 0 <= i < |steps'| ensures StepAt(env, min, run', steps', i) {
      if i < |steps| { assert StepAt(env, min, run, steps, i); }
    }
  }

  lemma PackOne(env: Env, start: Loop, tx: TX, merkle: string)
    requires Init(env, start) && env.valid(tx) && KnownTx(start.node.balances, tx)
    requires Enabled(env, 1, Do(env, 1, start, Submit(tx)), Propose(merkle))
    ensures var c1 := Do(env, 1, start, Submit(tx)); var c2 := Do(env, 1, c1, Propose(merkle));
            c2.onPacking.txs == [tx] && Enabled(env, 1, c2, Committed)
  {
    var c1 := Do(env, 1, start, Submit(tx));
    ChainFrame(env, start.node, c1.node);
    PackExtends(env, c1.node, merkle);
    assert c1.node.pool == [tx] && c1.node.pool[..1] == [tx];
  }

  /** A submitted transaction is packed and committed. */
  lemma CommitOne(env: Env, start: Loop, tx: TX, merkle: string) returns (run: seq<Loop>, steps: seq<Step>)
    requires Init(env, start) && env.valid(tx) && KnownTx(start.node.balances, tx)
    requires Enabled(env, 1, Do(env, 1, start, Submit(tx)), Propose(merkle))
    ensures IsRun(env, 1, run, steps) && run[0] == start
    ensures KeyOf(tx) in BlockKeys(run[|run| - 1].blocks)
  {
    var c1 := Do(env, 1, start, Submit(tx));
    var c2 := Do(env, 1, c1, Propose(merkle));
    PackOne(env, start, tx, merkle);
    run, steps := [start], [];
    Extend(env, 1, run, steps, Submit(tx));
    run, steps := run + [c1], steps + [Submit(tx)];
    Extend(env, 1, run, steps, Propose(merkle));
    run, steps := run + [c2], steps + [Propose(merkle)];
    Extend(env, 1, run, steps, Committed);
    run, steps := run + [Do(env, 1, c2, Committed)], steps + [Committed];
    assert KeyOf([tx][0]) in Keys([tx]);
  }

  /** Keys do get submitted again: from any start, a transaction that has been committed can be
      submitted once more, and is then both in the pool and in a block. */
  lemma Resubmission(env: Env, start: Loop, tx: TX, merkle: string) returns (run: seq<Loop>, steps: seq<Step>)
    requires Init(env, start) && env.valid(tx) && KnownTx(start.node.balances, tx)
    requires Enabled(env, 1, Do(env, 1, start, Submit(tx)), Propose(merkle))
    ensures IsRun(env, 1, run, steps) && run[0] == start && run[|run| - 1].replayed
    ensures !Disjoint(run[|run| - 1].node.pool, run[|run| - 1].blocks)
  {
    run, steps := CommitOne(env, start, tx, merkle);
    var c := run[|run| - 1];
    Extend(env, 1, run, steps, Submit(tx));
    InsertKeys(c.node.pool, tx);
    run, steps := run + [Do(env, 1, c, Submit(tx))], steps + [Submit(tx)];
  }

  // ---------- what is packed ----------

  /** AddTransx keeps the pool to valid signatures. */
  ghost predicate SignaturesOk(env: Env, c: Loop) {
    forall x :: x in c.node.pool ==> env.valid(x)
  }

  lemma DoKeepsSignatures(env: Env, min: nat, c: Loop, s: Step)
    requires Inv(env, c) && SignaturesOk(env, c) && Enabled(env, min, c, s)
    ensures SignaturesOk(env, Do(env, min, c, s))
  {
    match s
    case Submit(tx) =>
      forall x | x in Do(env, min, c, s).node.pool ensures env.valid(x) {
        if env.valid(tx) { InsertMembers(c.node.pool, tx, x); }
      }
    case Propose(_) =>
    case Committed => EraseAllMembers(c.node.pool, c.onPacking.txs);
  }

  lemma {:induction false} RunSignatures(env: Env, min: nat, run: seq<Loop>, steps: seq<Step>, i: nat)
    requires IsRun(env, min, run, steps) && i < |run|
    ensures SignaturesOk(env, run[i])
  {
    if i > 0 {
      RunSignatures(env, min, run, steps, i - 1);
      RunInv(env, min, run, steps, i - 1);
      assert StepAt(env, min, run, steps, i - 1);
      DoKeepsSignatures(env, min, run[i - 1], steps[i - 1]);
    }
  }

  /** PackBlock does not look at balances: at every moment of every run, the block it packs is one that
      CheckBlock accepts on the same node if and only if the balances cover the transfers at the front
      of the pool. Everything else that CheckBlock asks for always holds. */
  lemma PackedIsAcceptedExactly(env: Env, min: nat, run: seq<Loop>, steps: seq<Step>, i: nat, merkle: string)
    requires IsRun(env, min, run, steps) && i < |run| && |merkle| == 64
    ensures var n := run[i].node;
            && n.chain != [] && Pack(env, n, merkle).Some?
            && (CheckBlock(env, n, Pack(env, n, merkle).value) <==> Affordable(n.balances, n.pool[..PackSize(n.pool)]))
  {
    var n := run[i].node;
    RunInv(env, min, run, steps, i);
    RunSignatures(env, min, run, steps, i);
    PackExtends(env, n, merkle);
    forall x | x in n.pool[..PackSize(n.pool)] ensures env.valid(x) {
      assert x in n.pool;
    }
  }

  /** And it happens: from any start, one valid transaction without cover is packed into a block that
      CheckBlock refuses. */
  lemma UncoveredIsPacked(env: Env, start: Loop, tx: TX, merkle: string) returns (run: seq<Loop>, steps: seq<Step>)
    requires Init(env, start) && env.valid(tx) && |merkle| == 64
    requires tx.from !in start.node.balances || start.node.balances[tx.from] < tx.value
    ensures IsRun(env, 1, run, steps) && run[0] == start && |run[|run| - 1].node.pool| >= 1
    ensures var n := run[|run| - 1].node;
            n.chain != [] && Pack(env, n, merkle).Some? && !CheckBlock(env, n, Pack(env, n, merkle).value)
  {
    var c1 := Do(env, 1, start, Submit(tx));
    run, steps := [start, c1], [Submit(tx)];
    assert StepAt(env, 1, run, steps, 0);
    PackedIsAcceptedExactly(env, 1, run, steps, 1, merkle);
    var front := c1.node.pool[..PackSize(c1.node.pool)];
    assert front == [tx] && [tx][..0] == [];
    SumStep(SentBy(tx.from), front, 0);
    assert !AffordableAt(c1.node.balances, front, 0);
  }

  // ---------- bounded waiting ----------

  /** How many transactions a full block takes: one more than the configured 80. */
  const BATCH: nat := 81

  /** What the block being proposed has taken from the pool. */
  function InProposal(c: Loop): seq<TX> {
    if c.proposing then c.onPacking.txs else []
  }

  /** What waits in the pool: all the rest. */
  function Rest(c: Loop): seq<TX> {
    EraseAll(c.node.pool, InProposal(c))
  }

  /** The blocks that have taken their transactions: those committed, and the one being proposed. */
  function Taken(c: Loop): seq<Block> {
    if c.proposing then c.blocks + [c.onPacking] else c.blocks
  }

  /** Where a transaction that had k smaller ones ahead of it when start blocks were taken stands now:
      waiting with 81 fewer ahead for each block taken since, or in the block that was due. */
  ghost predicate Waiting(rest: seq<TX>, taken: seq<Block>, start: nat, tx: TX, k: nat) {
    start <= |taken| &&
    var j := |taken| - start;
    if j <= k / BATCH then 0 <= k - BATCH * j < |rest| && rest[k - BATCH * j] == tx
    else tx in taken[start + k / BATCH].txs
  }

  lemma BatchesAhead(k: nat, j: nat)
    ensures j <= k / BATCH ==> 0 <= k - BATCH * j && (k - BATCH * j < BATCH <==> j == k / BATCH)
  {
    assert k == BATCH * (k / BATCH) + k % BATCH;
  }

  /** A later arrival moves nothing ahead of it. */
  lemma SubmitKeepsRest(pool: seq<TX>, packed: seq<TX>, other: TX, q: nat)
    requires Sorted(pool) && Keys(packed) <= Keys(pool)
    requires q < |EraseAll(pool, packed)| && TxLess(EraseAll(pool, packed)[q], other)
    ensures var rest := EraseAll(Insert(pool, other), packed);
            q < |rest| && rest[q] == EraseAll(pool, packed)[q]
  {
    var rest := EraseAll(pool, packed);
    if KeyOf(other) in Keys(packed) {
      InsertPresent(pool, other);
    } else {
      EraseAllMembers(pool, packed);
      EraseAllInsert(pool, other, packed);
      InsertAbove(rest, other, q);
      assert Insert(rest, other)[..q + 1][q] == rest[..q + 1][q];
    }
  }

  /** Packing takes the front of the pool. */
  lemma PackKeepsWaiting(pool: seq<TX>, packed: Block, taken: seq<Block>, start: nat, tx: TX, k: nat)
    requires Sorted(pool) && packed.txs == pool[..PackSize(pool)] && Waiting(pool, taken, start, tx, k)
    ensures Waiting(EraseAll(pool, packed.txs), taken + [packed], start, tx, k)
  {
    var j := |taken| - start;
    BatchesAhead(k, j);
    if j <= k / BATCH {
      var q := k - BATCH * j;
      EraseAllPrefix(pool, PackSize(pool));
      if q < BATCH { assert packed.txs[q] == tx; }
    }
  }

  lemma SubmitKeepsWaiting(pool: seq<TX>, packed: seq<TX>, taken: seq<Block>, other: TX, start: nat, tx: TX, k: nat)
    requires Sorted(pool) && Keys(packed) <= Keys(pool) && TxLess(tx, other)
    requires Waiting(EraseAll(pool, packed), taken, start, tx, k)
    ensures Waiting(EraseAll(Insert(pool, other), packed), taken, start, tx, k)
  {
    var j := |taken| - start;
    if j <= k / BATCH { SubmitKeepsRest(pool, packed, other, k - BATCH * j); }
  }

  lemma DoKeepsWaiting(env: Env, min: nat, c: Loop, s: Step, start: nat, tx: TX, k: nat)
    requires Inv(env, c) && Enabled(env, min, c, s) && Waiting(Rest(c), Taken(c), start, tx, k)
    requires s.Submit? && env.valid(s.tx) ==> TxLess(tx, s.tx)
    ensures var c' := Do(env, min, c, s); Waiting(Rest(c'), Taken(c'), start, tx, k)
  {
    match s
    case Submit(other) =>
      SubKeys(InProposal(c), c.node.pool);
      if env.valid(other) { SubmitKeepsWaiting(c.node.pool, InProposal(c), Taken(c), other, start, tx, k); }
    case Propose(merkle) =>
      ProposeKeepsInv(env, min, c, merkle);
      PackKeepsWaiting(c.node.pool, Do(env, min, c, s).onPacking, c.blocks, start, tx, k);
    case Committed =>
      assert Rest(Do(env, min, c, s)) == Rest(c) && Taken(Do(env, min, c, s)) == Taken(c);
  }

  lemma StepKeepsWaiting(env: Env, min: nat, run: seq<Loop>, steps: seq<Step>, i: nat, start: nat, tx: TX, k: nat)
    requires IsRun(env, min, run, steps) && i + 1 < |run| && Waiting(Rest(run[i]), Taken(run[i]), start, tx, k)
    requires ComesAfter(env, tx, steps[i])
    ensures Waiting(Rest(run[i + 1]), Taken(run[i + 1]), start, tx, k)
  {
    RunInv(env, min, run, steps, i);
    assert StepAt(env, min, run, steps, i);
    DoKeepsWaiting(env, min, run[i], steps[i], start, tx, k);
  }

  /** Any transaction submitted in this step has a larger key. */
  ghost predicate ComesAfter(env: Env, tx: TX, s: Step) {
    s.Submit? && env.valid(s.tx) ==> TxLess(tx, s.tx)
  }

  lemma WaitingStarts(rest: seq<TX>, taken: seq<Block>, tx: TX, k: nat)
    requires k < |rest| && rest[k] == tx
    ensures Waiting(rest, taken, |taken|, tx, k)
  {
  }

  /** Bounded waiting, from any moment, also while a block is being proposed: a transaction with k
      smaller ones waiting ahead of it, with no smaller or equal key arriving later, is in exactly the
      (k / 81 + 1)-th block packed from then on, and until then waits with 81 fewer ahead of it after
      each block. */
  lemma BoundedWaiting(env: Env, min: nat, run: seq<Loop>, steps: seq<Step>, a: nat, b: nat, tx: TX, k: nat)
    requires IsRun(env, min, run, steps) && a <= b < |run|
    requires k < |Rest(run[a])| && Rest(run[a])[k] == tx
    requires forall i :: a <= i < b ==> ComesAfter(env, tx, steps[i])
    ensures Waiting(Rest(run[b]), Taken(run[b]), |Taken(run[a])|, tx, k)
  {
    var start := |Taken(run[a])|;
    ghost var holds := (c: Loop) => Waiting(Rest(c), Taken(c), start, tx, k);
    assert holds(run[a]) by { WaitingStarts(Rest(run[a]), Taken(run[a]), tx, k); }
    forall i | a < i <= b && holds(run[i - 1]) ensures holds(run[i]) {
      assert ComesAfter(env, tx, steps[i - 1]);
      StepKeepsWaiting(env, min, run, steps, i - 1, start, tx, k);
    }
    HoldsFrom(holds, run, a, b);
  }

  // ---------- recovery after any run ----------

  /** A listing of the block directory, in any order: every file once, with its prev_hash. */
  ghost predicate IsListing(listing: seq<CR.Entry>, n: Node) {
    && (forall e :: e in listing ==> e.hash in n.store && e.prev == HeaderOf(n, e.hash).prevHash)
    && (forall i, j :: 0 <= i < j < |listing| ==> listing[i].hash != listing[j].hash)
    && (forall h :: h in n.store ==> exists e :: e in listing && e.hash == h)
  }

  lemma {:induction false} DistinctCount(xs: seq<CR.Entry>, e: CR.Entry)
    requires forall i, j :: 0 <= i < j < |xs| ==> xs[i] != xs[j]
    ensures multiset(xs)[e] == if e in xs then 1 else 0
  {
    if xs != [] {
      var n := |xs| - 1;
      DistinctCount(xs[..n], e);
      assert xs == xs[..n] + [xs[n]];
    }
  }

  lemma LinkIsListed(env: Env, n: Node, listing: seq<CR.Entry>, e: CR.Entry)
    requires ChainOk(env, n) && IsListing(listing, n) && e in CR.Links(n.chain)
    ensures e in listing && e.hash != n.chain[0]
  {
    var k := CR.LinkOf(n.chain, e);
    assert LinkOk(env, n, k) && n.chain[k] in n.store;
    var x :| x in listing && x.hash == n.chain[k];
    assert x == e;
  }

  lemma ListedIsLink(env: Env, n: Node, listing: seq<CR.Entry>, e: CR.Entry)
    requires ChainOk(env, n) && IsListing(listing, n) && e in listing && e.hash != n.chain[0]
    ensures e in CR.Links(n.chain)
  {
    assert e.hash in n.chain;
    var k :| 0 <= k < |n.chain| && n.chain[k] == e.hash;
    assert LinkOk(env, n, k);
    CR.LinkAt(n.chain, k);
    assert CR.Links(n.chain)[k - 1] == e;
  }

  lemma ListingMatchesLinks(env: Env, n: Node, listing: seq<CR.Entry>, e: CR.Entry)
    requires ChainOk(env, n) && IsListing(listing, n)
    ensures e in listing && e.hash != n.chain[0] <==> e in CR.Links(n.chain)
  {
    if e in CR.Links(n.chain) { LinkIsListed(env, n, listing, e); }
    if e in listing && e.hash != n.chain[0] { ListedIsLink(env, n, listing, e); }
  }

  lemma LinksDistinct(chain: seq<string>)
    requires CR.Distinct(chain)
    ensures forall i, j :: 0 <= i < j < |CR.Links(chain)| ==> CR.Links(chain)[i] != CR.Links(chain)[j]
  {
    CR.LinkAt(chain, 0);
    forall i, j | 0 <= i < j < |CR.Links(chain)| ensures CR.Links(chain)[i] != CR.Links(chain)[j] {
      CR.LinkAt(chain, i + 1);
      CR.LinkAt(chain, j + 1);
    }
  }

  lemma ChainRecovers(env: Env, n: Node, listing: seq<CR.Entry>)
    requires ChainOk(env, n) && IsListing(listing, n)
    ensures CR.Recover(listing, n.chain[0]) == CR.Recovery(n.chain, [])
  {
    var files, links := CR.WithoutGenesis(listing, n.chain[0]), CR.Links(n.chain);
    LinksDistinct(n.chain);
    forall e ensures multiset(files)[e] == multiset(links)[e] {
      CR.WithoutGenesisMembers(listing, n.chain[0], e);
      DistinctCount(listing, e);
      DistinctCount(links, e);
      ListingMatchesLinks(env, n, listing, e);
    }
    CR.RecoverRoundTrip(n.chain, listing);
  }

  /** Restarting after any run gives back the chain the node had, whatever order the directory is
      listed in. */
  lemma RecoveryAfterRun(env: Env, min: nat, run: seq<Loop>, steps: seq<Step>, i: nat, listing: seq<CR.Entry>)
    requires IsRun(env, min, run, steps) && i < |run| && IsListing(listing, run[i].node)
    ensures run[i].node.chain != []
    ensures CR.Recover(listing, run[i].node.chain[0]) == CR.Recovery(run[i].node.chain, [])
  {
    RunInv(env, min, run, steps, i);
    ChainRecovers(env, run[i].node, listing);
  }

  // ---------- the files of committed blocks ----------

  /** The chain is the one there was at the start and the committed blocks, each of which is in its file,
      whole; the balances are what executing them made of those at the start. */
  ghost predicate FilesOk(start: Node, n: Node, blocks: seq<Block>) {
    && |n.chain| == |start.chain| + |blocks| && start.chain <= n.chain
    && (forall j :: 0 <= j < |blocks| ==> FileOk(start, n, blocks, j))
    && BlocksKnown(start.balances, blocks) && n.balances == ExecBlocks(start.balances, blocks)
  }

  ghost predicate FileOk(start: Node, n: Node, blocks: seq<Block>, j: nat)
    requires j < |blocks| && |n.chain| == |start.chain| + |blocks|
  {
    && n.chain[|start.chain| + j] == blocks[j].header.hash
    && blocks[j].header.hash in n.store && n.store[blocks[j].header.hash] == blocks[j]
  }

  lemma CommitKeepsBalances(start: Balances, b: Balances, blocks: seq<Block>, block: Block)
    requires BlocksKnown(start, blocks) && b == ExecBlocks(start, blocks) && AllKnown(b, block.txs)
    ensures BlocksKnown(start, blocks + [block]) && Exec(b, block.txs) == ExecBlocks(start, blocks + [block])
  {
    assert b.Keys == start.Keys;
    forall i | 0 <= i < |block.txs| ensures KnownTx(start, block.txs[i]) {
      assert KnownTx(b, block.txs[i]);
      assert block.txs[i].from in b.Keys && block.txs[i].to in b.Keys;
    }
    assert (blocks + [block])[..|blocks|] == blocks;
  }

  lemma CommitKeepsFiles(start: Node, n: Node, blocks: seq<Block>, b: Block)
    requires FilesOk(start, n, blocks) && AllKnown(n.balances, b.txs) && b.header.hash !in n.chain
    ensures FilesOk(start, Commit(n, b), blocks + [b])
  {
    var n', more := Commit(n, b), blocks + [b];
    CommitKeepsBalances(start.balances, n.balances, blocks, b);
    forall j | 0 <= j < |more| ensures FileOk(start, n', more, j) {
      if j < |blocks| {
        assert FileOk(start, n, blocks, j);
        assert n.chain[|start.chain| + j] in n.chain;
      }
    }
  }

  lemma DoKeepsFiles(env: Env, min: nat, start: Node, c: Loop, s: Step)
    requires Inv(env, c) && Enabled(env, min, c, s) && FilesOk(start, c.node, c.blocks)
    ensures FilesOk(start, Do(env, min, c, s).node, Do(env, min, c, s).blocks)
  {
    var c' := Do(env, min, c, s);
    if s.Committed? {
      CommitKeepsFiles(start, c.node, c.blocks, c.onPacking);
    } else {
      forall j | 0 <= j < |c'.blocks| ensures FileOk(start, c'.node, c'.blocks, j) {
        assert FileOk(start, c.node, c.blocks, j);
      }
    }
  }

  lemma StepKeepsFiles(env: Env, min: nat, start: Node, run: seq<Loop>, steps: seq<Step>, i: nat)
    requires IsRun(env, min, run, steps) && i + 1 < |run| && FilesOk(start, run[i].node, run[i].blocks)
    ensures FilesOk(start, run[i + 1].node, run[i + 1].blocks)
  {
    RunInv(env, min, run, steps, i);
    assert StepAt(env, min, run, steps, i);
    DoKeepsFiles(env, min, start, run[i], steps[i]);
  }

  /** Over every run: each committed block can be read back, transactions and all, under the hash it has
      in the chain, and the balances are the fold of the committed blocks. */
  lemma CommittedAreStored(env: Env, min: nat, run: seq<Loop>, steps: seq<Step>, i: nat)
    requires IsRun(env, min, run, steps) && i < |run|
    ensures FilesOk(run[0].node, run[i].node, run[i].blocks)
  {
    var start := run[0].node;
    ghost var holds := (c: Loop) => FilesOk(start, c.node, c.blocks);
    assert ExecBlocks(start.balances, []) == start.balances;
    forall k | 0 < k < |run| && holds(run[k - 1]) ensures holds(run[k]) {
      StepKeepsFiles(env, min, start, run, steps, k - 1);
    }
    HoldsAlong(holds, run, i);
  }

  /** The blocks found in the files named by a chain, from position g on. */
  function ReadFrom(store: map<string, Block>, chain: seq<string>, g: nat): seq<Block>
    requires g <= |chain| && forall k :: g <= k < |chain| ==> chain[k] in store
  {
    seq(|chain| - g, k requires 0 <= k < |chain| - g => store[chain[g + k]])
  }

  /** After any run the files are enough to get back to the balances: recover the chain from any listing
      of the directory, read the blocks after those there were at the start, and execute them. */
  lemma ReplayAfterRecovery(env: Env, min: nat, run: seq<Loop>, steps: seq<Step>, i: nat, listing: seq<CR.Entry>)
    requires IsRun(env, min, run, steps) && i < |run| && IsListing(listing, run[i].node)
    ensures var start, n := run[0].node, run[i].node;
            n.chain != [] &&
            var chain := CR.Recover(listing, n.chain[0]).chain;
            && |start.chain| <= |chain| && (forall k :: |start.chain| <= k < |chain| ==> chain[k] in n.store)
            && var files := ReadFrom(n.store, chain, |start.chain|);
               files == run[i].blocks && BlocksKnown(start.balances, files) && ExecBlocks(start.balances, files) == n.balances
  {
    var start, n, blocks := run[0].node, run[i].node, run[i].blocks;
    RecoveryAfterRun(env, min, run, steps, i, listing);
    CommittedAreStored(env, min, run, steps, i);
    forall k | |start.chain| <= k < |n.chain|
      ensures n.chain[k] in n.store && n.store[n.chain[k]] == blocks[k - |start.chain|]
    {
      assert FileOk(start, n, blocks, k - |start.chain|);
    }
    assert ReadFrom(n.store, n.chain, |start.chain|) == blocks;
  }
}
