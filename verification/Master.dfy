/** The master node on values: the state of CoinNode that consensus works on, and what its
    operations make of it. */
module Master {
  import opened Ledger
  import opened TxPool
  import opened Codec
  import R = Replica

  /** max_tx_per_block and target, from config.h. */
  const MAX_TX_PER_BLOCK: nat := 80
  const TARGET: nat := 2378178319

  /** Signature validity and the hash function. */
  datatype Env = Env(valid: TX -> bool, hash: string -> string)

  /** balances_, block_chain_hash_, tx_pool_ and the block directory by file name. */
  datatype Node = Node(balances: Balances, chain: seq<string>, pool: seq<TX>, store: map<string, Block>)

  /** What is hashed of a header: all of it but the hash itself. */
  function HeaderText(h: BlockHeader): string {
    HeaderString(h.height, h.target, h.prevHash, h.merkleRoot, h.nonce)
  }

  function HeaderHash(env: Env, h: BlockHeader): string {
    env.hash(HeaderText(h))
  }

  /** On packed headers, with hashes of one length, the text determines height, predecessor and Merkle
      root. */
  lemma HeaderTextExactly(a: BlockHeader, b: BlockHeader)
    requires a.target == b.target && a.nonce == b.nonce
    requires |a.prevHash| == |b.prevHash| && |a.merkleRoot| == |b.merkleRoot|
    ensures HeaderText(a) == HeaderText(b) <==>
            a.height == b.height && a.prevHash == b.prevHash && a.merkleRoot == b.merkleRoot
  {
    HeaderStringExactly(a.target, a.nonce, a.height, a.prevHash, a.merkleRoot, b.height, b.prevHash, b.merkleRoot);
  }

  /** Each field stands at its place in the text. */
  lemma HeaderTextRoundTrip(h: BlockHeader)
    requires |h.prevHash| == |h.merkleRoot|
    ensures |HeaderText(h)| >= 2 * |h.prevHash| + |h.nonce|
    ensures ReadHeader(HeaderText(h), |h.prevHash|, |h.nonce|)
         == HeaderParts(Dec(h.height) + Dec(h.target), h.prevHash, h.merkleRoot, h.nonce)
  {
    HeaderRoundTrip(h.height, h.target, h.prevHash, h.merkleRoot, h.nonce);
  }

  /** TryPublishCond: the pool is full enough. */
  predicate ReadyToPack(n: Node, min: nat) {
    |n.pool| >= min
  }

  /** Whatever else a block gets right, one transaction with an invalid signature has it refused. */
  lemma AcceptedAreSigned(env: Env, n: Node, b: Block)
    requires n.chain != []
    ensures CheckBlock(env, n, b) ==> forall tx :: tx in b.txs ==> env.valid(tx)
  {
  }

  function AddTransx(env: Env, n: Node, tx: TX): Node {
    if env.valid(tx) then n.(pool := Insert(n.pool, tx)) else n
  }

  predicate CheckBlock(env: Env, n: Node, b: Block)
    requires n.chain != []
  {
    && b.header.prevHash == n.chain[|n.chain| - 1]
    && (forall i :: 0 <= i < |b.txs| ==> env.valid(b.txs[i]))
    && Affordable(n.balances, b.txs)
  }

  /** The number of transactions PackBlock takes: the test is ntx > max_tx_per_block, made before
      counting, so one more than the configured maximum. */
  function PackSize(pool: seq<TX>): nat {
    if |pool| <= MAX_TX_PER_BLOCK + 1 then |pool| else MAX_TX_PER_BLOCK + 1
  }

  /** PackBlock, given the random Merkle root; None when the tail's file cannot be read. */
  function Pack(env: Env, n: Node, merkle: string): R.Option<Block>
    requires n.chain != []
  {
    var tail := n.chain[|n.chain| - 1];
    if tail !in n.store then R.None
    else
      var last := n.store[tail].header;
      var header := BlockHeader(last.height + 1, TARGET, last.hash, "", merkle, "nonce");
      R.Some(Block(header.(hash := HeaderHash(env, header)), n.pool[..PackSize(n.pool)]))
  }

  /** CommitProposal. */
  function Commit(n: Node, b: Block): Node
    requires AllKnown(n.balances, b.txs)
  {
    Node(Exec(n.balances, b.txs), n.chain + [b.header.hash], EraseAll(n.pool, b.txs), n.store[b.header.hash := b])
  }
}
