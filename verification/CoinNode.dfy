/** The master as the program has it: CoinNode's fields, updated in place. Each method is proved
    against the value functions of modules Master and ChainRecovery. */
module CoinNode {
  import opened Ledger
  import opened TxPool
  import ChainRecovery
  import M = Master
  import R = Replica

  /** The scratch table after i transfers: what each sender so far has left of its balance. */
  ghost predicate Scratch(temp: map<string, int>, b: Balances, txs: seq<TX>, i: nat)
    requires i <= |txs|
  {
    && (forall a :: a in temp ==> a in b && temp[a] == b[a] - Sum(SentBy(a), txs[..i]))
    && (forall a :: a !in temp ==> Sum(SentBy(a), txs[..i]) == 0)
  }

  /** The table alone decides the next transfer, and is updated at one entry. */
  lemma ScratchStep(temp: map<string, int>, b: Balances, txs: seq<TX>, i: nat)
    requires i < |txs| && Scratch(temp, b, txs, i) && txs[i].from in b
    ensures var tx := txs[i];
            var left := if tx.from in temp then temp[tx.from] else b[tx.from];
            && (AffordableAt(b, txs, i) <==> tx.value <= left)
            && Scratch(temp[tx.from := left - tx.value], b, txs, i + 1)
  {
    forall a ensures Sum(SentBy(a), txs[..i + 1]) == Sum(SentBy(a), txs[..i]) + Amount(SentBy(a), txs[i]) {
      SumStep(SentBy(a), txs, i);
    }
  }

  /** The first i transfers have passed, and the table is up to date. */
  ghost predicate CheckedUpTo(env: M.Env, b: Balances, txs: seq<TX>, temp: map<string, int>, i: nat) {
    && i <= |txs| && Scratch(temp, b, txs, i)
    && forall j :: 0 <= j < i ==> env.valid(txs[j]) && AffordableAt(b, txs, j)
  }

  /** What the table says sender a has left. */
  function Left(temp: map<string, int>, b: Balances, a: string): int
    requires a in b
  {
    if a in temp then temp[a] else b[a]
  }

  lemma CheckNext(env: M.Env, b: Balances, txs: seq<TX>, temp: map<string, int>, i: nat)
    requires CheckedUpTo(env, b, txs, temp, i) && i < |txs| && env.valid(txs[i]) && txs[i].from in b
    requires txs[i].value <= Left(temp, b, txs[i].from)
    ensures CheckedUpTo(env, b, txs, temp[txs[i].from := Left(temp, b, txs[i].from) - txs[i].value], i + 1)
  {
    ScratchStep(temp, b, txs, i);
  }

  lemma CheckRefused(env: M.Env, b: Balances, txs: seq<TX>, temp: map<string, int>, i: nat)
    requires CheckedUpTo(env, b, txs, temp, i) && i < |txs|
    requires !env.valid(txs[i]) || txs[i].from !in b || Left(temp, b, txs[i].from) < txs[i].value
    ensures !(env.valid(txs[i]) && AffordableAt(b, txs, i))
  {
    if txs[i].from in b { ScratchStep(temp, b, txs, i); }
  }

  lemma PrefixKnown(b: Balances, txs: seq<TX>, i: nat)
    requires i < |txs| && AllKnown(b, txs[..i]) && KnownTx(b, txs[i])
    ensures AllKnown(b, txs[..i + 1]) && Exec(b, txs[..i + 1]) == Transfer(Exec(b, txs[..i]), txs[i])
  {
    assert txs[..i + 1] == txs[..i] + [txs[i]];
  }

  class CoinNode {
    const env: M.Env
    const genesis: string
    const minTxPerBlock: nat
    var balances: map<string, int>
    var blockChainHash: seq<string>
    var txPool: seq<TX>
    var blockFiles: map<string, Block>
    var onPackingBlock: Block

    ghost function View(): M.Node
      reads this
    {
      M.Node(balances, blockChainHash, txPool, blockFiles)
    }

    constructor Init(env: M.Env, genesis: string, minTxPerBlock: nat,
                     balances: map<string, int>, blockFiles: map<string, Block>)
      ensures View() == M.Node(balances, [genesis], [], blockFiles)
      ensures this.env == env && this.genesis == genesis && this.minTxPerBlock == minTxPerBlock
    {
      this.env, this.genesis, this.minTxPerBlock := env, genesis, minTxPerBlock;
      this.balances, this.blockFiles := balances, blockFiles;
      blockChainHash, txPool := [genesis], [];
      onPackingBlock := Block(BlockHeader(0, 0, "", "", "", ""), []);
    }

    method AddTransx(tx: TX) returns (ok: bool)
      modifies this`txPool
      ensures ok == env.valid(tx) && View() == M.AddTransx(env, old(View()), tx)
    {
      ok := env.valid(tx);
      if ok {
        txPool := Insert(txPool, tx);
      }
    }

    predicate TryPublishCond(): (r: bool)
      reads this
      ensures r <==> M.ReadyToPack(View(), minTxPerBlock)
    {
      |txPool| >= minTxPerBlock
    }

    method ReadBlock(hash: string) returns (r: R.Option<Block>)
      ensures r == if hash in blockFiles then R.Some(blockFiles[hash]) else R.None
    {
      r := if hash in blockFiles then R.Some(blockFiles[hash]) else R.None;
    }

    method WriteBlock(block: Block)
      modifies this`blockFiles
      ensures blockFiles == old(blockFiles)[block.header.hash := block]
    {
      blockFiles := blockFiles[block.header.hash := block];
    }

    /** The pool's loop: the test is made before counting, so one more than the maximum is taken. */
    method TakeFront() returns (txs: seq<TX>)
      ensures txs == txPool[..M.PackSize(txPool)]
    {
      txs := [];
      var ntx := 0;
      while ntx < |txPool|
        invariant 0 <= ntx <= |txPool| && ntx <= M.MAX_TX_PER_BLOCK + 1
        invariant txs == txPool[..ntx]
      {
        if ntx > M.MAX_TX_PER_BLOCK { break; }
        txs := txs + [txPool[ntx]];
        ntx := ntx + 1;
      }
      assert ntx == M.PackSize(txPool);
    }

    /** Fill onPackingBlock from the tail of the chain and the front of the pool. */
    method PackBlock(merkle: string) returns (ok: bool)
      requires TryPublishCond() && blockChainHash != []
      modifies this`onPackingBlock
      ensures ok <==> M.Pack(env, View(), merkle).Some?
      ensures ok ==> onPackingBlock == M.Pack(env, View(), merkle).value
      ensures !ok ==> onPackingBlock == old(onPackingBlock)
    {
      var last := ReadBlock(blockChainHash[|blockChainHash| - 1]);
      if last.None? { return false; }
      var header := BlockHeader(last.value.header.height + 1, M.TARGET, last.value.header.hash, "", merkle, "nonce");
      var txs := TakeFront();
      onPackingBlock := Block(header.(hash := M.HeaderHash(env, header)), txs);
      ok := true;
    }

    /** The validation loop with its table of spent balances. It accepts exactly when the block
        extends the tail, every signature is valid, and no sender runs out. */
    method CheckBlock(block: Block) returns (ok: bool)
      requires blockChainHash != []
      ensures ok <==> M.CheckBlock(env, View(), block)
      ensures ok ==> forall tx :: tx in block.txs ==> env.valid(tx)
    {
      if block.header.prevHash != blockChainHash[|blockChainHash| - 1] { return false; }
      var tempBalance: map<string, int> := map[];
      var txs := block.txs;
      for i := 0 to |txs|
        invariant CheckedUpTo(env, balances, txs, tempBalance, i)
      {
        var tx := txs[i];
        if !env.valid(tx) { return false; }
        if tx.from !in tempBalance {
          if tx.from !in balances {
            CheckRefused(env, balances, txs, tempBalance, i);
            return false;
          }
          var value := balances[tx.from];
          if value < tx.value {
            CheckRefused(env, balances, txs, tempBalance, i);
            return false;
          }
          CheckNext(env, balances, txs, tempBalance, i);
          tempBalance := tempBalance[tx.from := value - tx.value];
        } else {
          if tempBalance[tx.from] < tx.value {
            CheckRefused(env, balances, txs, tempBalance, i);
            return false;
          }
          CheckNext(env, balances, txs, tempBalance, i);
          tempBalance := tempBalance[tx.from := tempBalance[tx.from] - tx.value];
        }
      }
      ok := true;
    }

    /** Execute transfers in list order. The program asserts that both accounts exist; ok is false
        when that fails, after the transfers before it. */
    method UpdateBlance(txs: seq<TX>) returns (ok: bool)
      modifies this`balances
      ensures ok <==> AllKnown(old(balances), txs)
      ensures ok ==> balances == Exec(old(balances), txs)
      ensures !ok ==> exists k :: 0 <= k < |txs| && AllKnown(old(balances), txs[..k])
                        && !KnownTx(old(balances), txs[k]) && balances == Exec(old(balances), txs[..k])
    {
      ghost var b := balances;
      for i := 0 to |txs|
        invariant AllKnown(b, txs[..i]) && balances == Exec(b, txs[..i])
      {
        var tx := txs[i];
        if tx.from !in balances || tx.to !in balances {
          assert !KnownTx(b, txs[i]);
          return false;
        }
        var fromBalance, toBalance := balances[tx.from], balances[tx.to];
        balances := balances[tx.from := fromBalance - tx.value];
        balances := balances[tx.to := toBalance + tx.value];
        PrefixKnown(b, txs, i);
      }
      assert txs[..|txs|] == txs;
      ok := true;
    }

    method RemoveTxFromPool(txs: seq<TX>)
      modifies this`txPool
      ensures txPool == EraseAll(old(txPool), txs)
    {
      for i := 0 to |txs|
        invariant txPool == EraseAll(old(txPool), txs[..i])
      {
        txPool := Erase(txPool, txs[i]);
        assert txs[..i + 1][..i] == txs[..i];
      }
      assert txs[..|txs|] == txs;
    }

    method CheckProposal(block: Block) returns (ok: bool)
      requires blockChainHash != []
      ensures ok <==> M.CheckBlock(env, View(), block)
    {
      ok := CheckBlock(block);
    }

    method CommitProposal(block: Block) returns (ok: bool)
      modifies this`balances, this`blockChainHash, this`txPool, this`blockFiles
      ensures ok <==> AllKnown(old(balances), block.txs)
      ensures ok ==> View() == M.Commit(old(View()), block)
    {
      ok := UpdateBlance(block.txs);
      if ok {
        blockChainHash := blockChainHash + [block.header.hash];
        RemoveTxFromPool(block.txs);
        WriteBlock(block);
      }
    }

    /** Rebuild the chain of hashes from a directory listing: collect the entries other than the
        genesis file, then keep moving the first one that extends the tail. */
    method ReadBlockChainHash(listing: seq<ChainRecovery.Entry>) returns (rest: seq<ChainRecovery.Entry>)
      modifies this`blockChainHash
      ensures ChainRecovery.Recovery(blockChainHash, rest) == ChainRecovery.Recover(listing, genesis)
    {
      rest := [];
      for i := 0 to |listing|
        invariant rest == ChainRecovery.WithoutGenesis(listing[..i], genesis)
      {
        assert listing[..i + 1][..i] == listing[..i];
        if listing[i].hash != genesis {
          rest := rest + [listing[i]];
        }
      }
      assert listing[..|listing|] == listing;
      blockChainHash := [genesis];
      while rest != []
        invariant blockChainHash != []
        invariant ChainRecovery.Grow(blockChainHash, rest) == ChainRecovery.Recover(listing, genesis)
        decreases |rest|
      {
        var i := 0;
        while i < |rest| && rest[i].prev != blockChainHash[|blockChainHash| - 1]
          invariant 0 <= i <= |rest|
          invariant forall j :: 0 <= j < i ==> rest[j].prev != blockChainHash[|blockChainHash| - 1]
        {
          i := i + 1;
        }
        assert i == ChainRecovery.FindNext(rest, ChainRecovery.Last(blockChainHash));
        if i == |rest| { break; }
        blockChainHash := blockChainHash + [rest[i].hash];
        rest := rest[..i] + rest[i + 1..];
      }
    }
  }
}
