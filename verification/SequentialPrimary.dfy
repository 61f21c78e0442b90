/** The chain hypothesis of module LedgerLink, derived from the primary's loop: BlockProposal waits
    until GetRequest sees the block committed, and PackBlock builds the next one on the tail of the
    primary's own chain. */
module SequentialPrimary {
  import opened Traces
  import opened Quorum
  import opened Replica
  import opened History
  import opened Justification
  import opened Cluster
  import opened Safety
  import opened Ledger
  import opened LedgerLink
  import M = Master
  import P = PrimaryLoop

  /** The body is what PackBlock packs on this ledger, from whatever the pool holds and whatever random
      Merkle root is drawn; its header hash collides with no earlier one and is as long as any. */
  ghost predicate PackedFrom(app: App, ledger: M.Node, pool: seq<TX>, merkle: string, body: string) {
    && ledger.chain != [] && |merkle| == 64
    && var p := M.Pack(app.env, ledger.(pool := pool), merkle);
       p.Some? && app.parse(body) == p.value && P.NoCollision(app.env, ledger, p.value) && |p.value.header.hash| == 64
  }

  /** BlockProposal waits: the primary proposes only when it has executed everything it assigned, and
      then what PackBlock makes of its own ledger. */
  ghost predicate MayAssign(cfg: Config, app: App, c: System, body: string)
    requires cfg.primary < |c.nodes| && cfg.primary < |c.hist| && app.genesis.chain != []
  {
    && |c.nodes[cfg.primary].executed| == |Assigned(cfg, c)| && GoodTransfers(app, body)
    && exists pool, merkle :: PackedFrom(app, LedgerOf(app, c.nodes[cfg.primary]), pool, merkle, body)
  }

  ghost predicate IsFreshHash(app: App, bodies: seq<string>, hash: string)
    requires app.genesis.chain != []
  {
    forall k :: 0 <= k <= |bodies| ==> hash != TailAfter(app, bodies, k)
  }

  ghost predicate SequentialNext(cfg: Config, app: App, c: System, c': System)
    requires app.genesis.chain != []
  {
    exists s :: Enabled(cfg, c, s) && c' == Do(cfg, c, s) && (s.Request? ==> MayAssign(cfg, app, c, s.body))
  }

  ghost predicate SequentialNextAt(cfg: Config, app: App, run: seq<System>, i: int)
    requires app.genesis.chain != []
  {
    0 < i < |run| && SequentialNext(cfg, app, run[i - 1], run[i])
  }

  ghost predicate SequentialRun(cfg: Config, app: App, run: seq<System>)
    requires app.genesis.chain != []
  {
    IsRun(cfg, run) && forall i :: 0 < i < |run| ==> SequentialNextAt(cfg, app, run, i)
  }

  /** The executed bodies make a well-formed chain, and a body assigned after them extends it. */
  ghost predicate ChainAhead(app: App, executed: seq<string>, all: seq<string>)
    requires app.genesis.chain != []
  {
    var n := NodeAfter(app, executed);
    P.ChainOk(app.env, n) && (|all| == |executed| + 1 ==> P.Extends(app.env, n, app.parse(all[|executed|])))
  }

  /** The primary executes in order, is at most one block behind, has assigned a chain, and its own
      ledger holds that chain. */
  ghost predicate PrimaryInOrder(cfg: Config, app: App, c: System) {
    && Inv(cfg, c) && Correct(cfg, cfg.primary) && ChecksBlocks(cfg, app)
    && ExecutedInOrder(c.nodes[cfg.primary])
    && |c.nodes[cfg.primary].executed| <= |Assigned(cfg, c)| <= |c.nodes[cfg.primary].executed| + 1
    && GoodBlocks(app, Assigned(cfg, c))
    && ChainAhead(app, Bodies(c.nodes[cfg.primary].executed), Assigned(cfg, c))
  }

  // ---------- the primary's own ledger ----------

  /** A packed block extends the ledger it was packed on. */
  lemma PackedExtends(app: App, ledger: M.Node, pool: seq<TX>, merkle: string, body: string)
    requires P.ChainOk(app.env, ledger) && PackedFrom(app, ledger, pool, merkle, body)
    ensures P.Extends(app.env, ledger, app.parse(body))
  {
    P.ChainFrame(app.env, ledger, ledger.(pool := pool));
    P.PackExtends(app.env, ledger.(pool := pool), merkle);
    P.ChainFrame(app.env, ledger.(pool := pool), ledger);
  }

  /** Executing the block that is ahead puts it on the chain. */
  lemma ExecuteKeepsAhead(app: App, executed: seq<string>, all: seq<string>)
    requires app.genesis.chain != [] && ChainAhead(app, executed, all) && |all| == |executed| + 1
    requires AllKnown(app.genesis.balances, app.parse(all[|executed|]).txs)
    ensures ChainAhead(app, executed + [all[|executed|]], all)
  {
    var more := executed + [all[|executed|]];
    assert more[..|more| - 1] == executed;
    NextLedger(app, more);
    P.CommitKeepsChain(app.env, NodeAfter(app, executed), app.parse(all[|executed|]));
  }

  // ---------- the assigned chain ----------

  lemma TailsAppend(app: App, bodies: seq<string>, body: string, k: nat)
    requires app.genesis.chain != [] && k <= |bodies| + 1
    ensures TailAfter(app, bodies + [body], k)
         == if k <= |bodies| then TailAfter(app, bodies, k) else app.parse(body).header.hash
  {
  }

  lemma TailsStayDistinct(app: App, bodies: seq<string>, body: string)
    requires app.genesis.chain != [] && TailsDistinct(app, bodies)
    requires IsFreshHash(app, bodies, app.parse(body).header.hash)
    ensures TailsDistinct(app, bodies + [body])
  {
    var all := bodies + [body];
    forall i, j | 0 <= i < j <= |all| ensures TailAfter(app, all, i) != TailAfter(app, all, j) {
      TailsAppend(app, bodies, body, i);
      TailsAppend(app, bodies, body, j);
    }
  }

  lemma ChainStaysLinked(app: App, bodies: seq<string>, body: string)
    requires app.genesis.chain != [] && ChainLinked(app, bodies)
    requires app.parse(body).header.prevHash == TailAfter(app, bodies, |bodies|)
    ensures ChainLinked(app, bodies + [body])
  {
    var all := bodies + [body];
    forall k | 0 <= k < |all| ensures app.parse(all[k]).header.prevHash == TailAfter(app, all, k) {
      TailsAppend(app, bodies, body, k);
    }
  }

  lemma GoodBlocksAppend(app: App, bodies: seq<string>, body: string)
    requires app.genesis.chain != [] && GoodBlocks(app, bodies) && GoodTransfers(app, body)
    requires app.parse(body).header.prevHash == TailAfter(app, bodies, |bodies|)
    requires IsFreshHash(app, bodies, app.parse(body).header.hash)
    ensures GoodBlocks(app, bodies + [body])
  {
    ChainStaysLinked(app, bodies, body);
    TailsStayDistinct(app, bodies, body);
  }

  /** Caught up, the primary's chain is the genesis chain and the assigned blocks. */
  lemma ChainOfPrimary(cfg: Config, app: App, c: System)
    requires PrimaryInOrder(cfg, app, c) && |c.nodes[cfg.primary].executed| == |Assigned(cfg, c)|
    ensures LedgerOf(app, c.nodes[cfg.primary]).chain == app.genesis.chain + Hashes(Blocks(app, Assigned(cfg, c)))
  {
    var r, xs, all := cfg.primary, c.nodes[cfg.primary].executed, Assigned(cfg, c);
    forall k | 0 <= k < |xs|
      ensures xs[k].body == all[k] && AllKnown(app.genesis.balances, app.parse(all[k]).txs)
    {
      ExecutedInInv(cfg, c, r, xs[k]);
      assert GoodTransfers(app, all[k]);
      ExecutedKnown(cfg, app, c, r, k);
    }
    assert Bodies(xs) == all;
    assert BlocksKnown(app.genesis.balances, Blocks(app, all));
    LedgerIsFold(app, all);
  }

  /** The tail of a chain that continues genesis with the blocks of some bodies. */
  lemma TailOfChain(app: App, bodies: seq<string>, chain: seq<string>)
    requires app.genesis.chain != [] && chain == app.genesis.chain + Hashes(Blocks(app, bodies))
    ensures chain[|chain| - 1] == TailAfter(app, bodies, |bodies|)
  {
    var hs := Hashes(Blocks(app, bodies));
    assert |hs| == |bodies|;
    assert bodies != [] ==> hs[|bodies| - 1] == app.parse(bodies[|bodies| - 1]).header.hash;
  }

  lemma TailOfPrimary(cfg: Config, app: App, c: System)
    requires PrimaryInOrder(cfg, app, c) && |c.nodes[cfg.primary].executed| == |Assigned(cfg, c)|
    ensures LastHash(LedgerOf(app, c.nodes[cfg.primary])) == TailAfter(app, Assigned(cfg, c), |Assigned(cfg, c)|)
  {
    ChainOfPrimary(cfg, app, c);
    TailOfChain(app, Assigned(cfg, c), LedgerOf(app, c.nodes[cfg.primary]).chain);
  }

  lemma TailInChain(app: App, bodies: seq<string>, k: nat)
    requires app.genesis.chain != [] && k <= |bodies|
    ensures TailAfter(app, bodies, k) in app.genesis.chain + Hashes(Blocks(app, bodies))
  {
    var chain, g := app.genesis.chain + Hashes(Blocks(app, bodies)), |app.genesis.chain|;
    assert TailAfter(app, bodies, k) == chain[if k == 0 then g - 1 else g + k - 1];
  }

  /** A block that extends the primary's own chain has a hash that is new among the assigned ones. */
  lemma ExtensionIsFresh(cfg: Config, app: App, c: System, body: string)
    requires PrimaryInOrder(cfg, app, c) && |c.nodes[cfg.primary].executed| == |Assigned(cfg, c)|
    requires P.Extends(app.env, LedgerOf(app, c.nodes[cfg.primary]), app.parse(body))
    ensures IsFreshHash(app, Assigned(cfg, c), app.parse(body).header.hash)
  {
    ChainOfPrimary(cfg, app, c);
    forall k | 0 <= k <= |Assigned(cfg, c)|
      ensures app.parse(body).header.hash != TailAfter(app, Assigned(cfg, c), k)
    {
      TailInChain(app, Assigned(cfg, c), k);
    }
  }

  /** What PackBlock builds on the primary's own ledger continues the chain of assigned blocks. */
  lemma PackedContinuesChain(cfg: Config, app: App, c: System, body: string)
    requires PrimaryInOrder(cfg, app, c) && MayAssign(cfg, app, c, body)
    ensures P.Extends(app.env, LedgerOf(app, c.nodes[cfg.primary]), app.parse(body))
    ensures GoodBlocks(app, Assigned(cfg, c) + [body])
  {
    var ledger := LedgerOf(app, c.nodes[cfg.primary]);
    var pool, merkle :| PackedFrom(app, ledger, pool, merkle, body);
    PackedExtends(app, ledger, pool, merkle, body);
    ExtensionIsFresh(cfg, app, c, body);
    TailOfPrimary(cfg, app, c);
    GoodBlocksAppend(app, Assigned(cfg, c), body);
  }

  /** One more execution, of an assigned number not executed before, is the next one. */
  lemma NextInOrder(h: State, h': State, n: nat)
    requires ExecutedInOrder(h) && |h.executed| <= n <= |h.executed| + 1 && ExecutedIsCommitted(h')
    requires forall x :: x in h'.executed ==> x.seqNo < n
    requires h'.executed == h.executed || exists x :: h'.executed == h.executed + [x]
    ensures ExecutedInOrder(h') && |h'.executed| <= n <= |h'.executed| + 1
  {
    if h'.executed != h.executed {
      var k := |h.executed|;
      assert h'.executed[k] in h'.executed;
      assert forall j :: 0 <= j < k ==> h'.executed[j].seqNo == j;
      var s := h'.executed[k].seqNo;
      var j := if s < k then s else k;
      assert h'.executed[j].seqNo == s && j == k;
    }
  }

  lemma RequestKeepsOrder(cfg: Config, app: App, c: System, body: string)
    requires PrimaryInOrder(cfg, app, c) && Enabled(cfg, c, Request(body)) && MayAssign(cfg, app, c, body)
    requires Inv(cfg, Do(cfg, c, Request(body)))
    ensures PrimaryInOrder(cfg, app, Do(cfg, c, Request(body)))
  {
    var r := cfg.primary;
    assert (c.hist[r] + [Requested(body)])[..|c.hist[r]|] == c.hist[r];
    assert Assigned(cfg, Do(cfg, c, Request(body))) == Assigned(cfg, c) + [body];
    PackedContinuesChain(cfg, app, c, body);
  }

  lemma AssignedExecutions(cfg: Config, c: System, r: nat)
    requires Inv(cfg, c) && Correct(cfg, r) && Correct(cfg, cfg.primary)
    ensures ExecutedIsCommitted(c.nodes[r])
    ensures forall x :: x in c.nodes[r].executed ==> x.seqNo < |Assigned(cfg, c)| && x.body == Assigned(cfg, c)[x.seqNo]
  {
    ReplayValid(cfg.env, r, MaxFaulty(cfg.n), c.hist[r]);
    forall x | x in c.nodes[r].executed ensures x.seqNo < |Assigned(cfg, c)| && x.body == Assigned(cfg, c)[x.seqNo] {
      ExecutedInInv(cfg, c, r, x);
    }
  }

  lemma NextIsAssigned(h: State, h': State, all: seq<string>)
    requires ExecutedInOrder(h) && |h.executed| <= |all| <= |h.executed| + 1 && ExecutedIsCommitted(h')
    requires exists x :: h'.executed == h.executed + [x]
    requires forall x :: x in h'.executed ==> x.seqNo < |all| && x.body == all[x.seqNo]
    ensures ExecutedInOrder(h') && |all| == |h.executed| + 1
    ensures h'.executed == h.executed + [Execution(|h.executed|, all[|h.executed|])]
  {
    var k := |h.executed|;
    NextInOrder(h, h', |all|);
    assert h'.executed[k] in h'.executed;
  }

  lemma BodiesAppend(xs: seq<Execution>, x: Execution)
    ensures Bodies(xs + [x]) == Bodies(xs) + [x.body]
  {
  }

  /** The block the primary executes is the one it is waiting for. */
  lemma PrimaryExecutesAssigned(cfg: Config, app: App, c: System, c': System)
    requires PrimaryInOrder(cfg, app, c) && Inv(cfg, c') && Assigned(cfg, c') == Assigned(cfg, c)
    requires exists x :: c'.nodes[cfg.primary].executed == c.nodes[cfg.primary].executed + [x]
    ensures ExecutedInOrder(c'.nodes[cfg.primary])
    ensures var h, h', all := c.nodes[cfg.primary], c'.nodes[cfg.primary], Assigned(cfg, c);
            |all| == |h.executed| + 1 && h'.executed == h.executed + [Execution(|h.executed|, all[|h.executed|])]
  {
    AssignedExecutions(cfg, c', cfg.primary);
    NextIsAssigned(c.nodes[cfg.primary], c'.nodes[cfg.primary], Assigned(cfg, c));
  }

  /** And it names known accounts only. */
  lemma PrimaryExecutesNext(cfg: Config, app: App, c: System, c': System)
    requires PrimaryInOrder(cfg, app, c) && Inv(cfg, c') && Assigned(cfg, c') == Assigned(cfg, c)
    requires exists x :: c'.nodes[cfg.primary].executed == c.nodes[cfg.primary].executed + [x]
    ensures ExecutedInOrder(c'.nodes[cfg.primary])
    ensures var k := |c.nodes[cfg.primary].executed|;
            && |Assigned(cfg, c)| == k + 1 && AllKnown(app.genesis.balances, app.parse(Assigned(cfg, c)[k]).txs)
            && Bodies(c'.nodes[cfg.primary].executed) == Bodies(c.nodes[cfg.primary].executed) + [Assigned(cfg, c)[k]]
  {
    var xs, k := c.nodes[cfg.primary].executed, |c.nodes[cfg.primary].executed|;
    PrimaryExecutesAssigned(cfg, app, c, c');
    BodiesAppend(xs, Execution(k, Assigned(cfg, c)[k]));
    assert GoodTransfers(app, Assigned(cfg, c)[k]);
    ExecutedKnown(cfg, app, c', cfg.primary, k);
  }

  lemma ReceiveKeepsOrder(cfg: Config, app: App, c: System, c': System)
    requires PrimaryInOrder(cfg, app, c) && Inv(cfg, c') && Assigned(cfg, c') == Assigned(cfg, c)
    requires var h, h' := c.nodes[cfg.primary], c'.nodes[cfg.primary];
             h'.executed == h.executed || exists x :: h'.executed == h.executed + [x]
    ensures PrimaryInOrder(cfg, app, c')
  {
    var r := cfg.primary;
    if c'.nodes[r].executed != c.nodes[r].executed {
      PrimaryExecutesNext(cfg, app, c, c');
      ExecuteKeepsAhead(app, Bodies(c.nodes[r].executed), Assigned(cfg, c));
    }
  }

  lemma DeliverAtPrimary(cfg: Config, c: System, p: Packet)
    requires Inv(cfg, c) && Enabled(cfg, c, Deliver(p)) && Correct(cfg, cfg.primary)
    ensures var c' := Do(cfg, c, Deliver(p));
            && cfg.primary < |c'.hist| && cfg.primary < |c'.nodes| && Assigned(cfg, c') == Assigned(cfg, c)
            && var h, h' := c.nodes[cfg.primary], c'.nodes[cfg.primary];
               h'.executed == h.executed || exists x :: h'.executed == h.executed + [x]
  {
    var r := cfg.primary;
    InputExecutesOne(cfg.env, c.nodes[r], Received(p.msg));
    assert (c.hist[r] + [Received(p.msg)])[..|c.hist[r]|] == c.hist[r];
  }

  lemma InjectKeepsOrder(cfg: Config, app: App, c: System, c': System)
    requires PrimaryInOrder(cfg, app, c) && Inv(cfg, c') && c'.nodes == c.nodes && c'.hist == c.hist
    ensures PrimaryInOrder(cfg, app, c')
  {
  }

  lemma StepKeepsOrder(cfg: Config, app: App, c: System, s: Step)
    requires PrimaryInOrder(cfg, app, c) && Enabled(cfg, c, s) && Inv(cfg, Do(cfg, c, s))
    requires s.Request? ==> MayAssign(cfg, app, c, s.body)
    ensures PrimaryInOrder(cfg, app, Do(cfg, c, s))
  {
    match s
    case Request(body) => RequestKeepsOrder(cfg, app, c, body);
    case Deliver(p) =>
      DeliverAtPrimary(cfg, c, p);
      ReceiveKeepsOrder(cfg, app, c, Do(cfg, c, s));
    case Inject(_) => InjectKeepsOrder(cfg, app, c, Do(cfg, c, s));
  }

  lemma NextKeepsOrder(cfg: Config, app: App, c: System, c': System)
    requires PrimaryInOrder(cfg, app, c) && SequentialNext(cfg, app, c, c')
    ensures PrimaryInOrder(cfg, app, c')
  {
    var s :| Enabled(cfg, c, s) && c' == Do(cfg, c, s) && (s.Request? ==> MayAssign(cfg, app, c, s.body));
    assert Inv(cfg, c') by { NextKeepsInv(cfg, c, c'); }
    StepKeepsOrder(cfg, app, c, s);
  }

  lemma StartInOrder(cfg: Config, app: App, run: seq<System>)
    requires P.ChainOk(app.env, app.genesis) && SequentialRun(cfg, app, run) && Correct(cfg, cfg.primary) && ChecksBlocks(cfg, app)
    ensures PrimaryInOrder(cfg, app, run[0])
  {
    InitInv(cfg);
  }

  lemma StepInOrder(cfg: Config, app: App, run: seq<System>, i: nat)
    requires app.genesis.chain != [] && SequentialRun(cfg, app, run)
    requires 0 < i < |run| && PrimaryInOrder(cfg, app, run[i - 1])
    ensures PrimaryInOrder(cfg, app, run[i])
  {
    assert SequentialNextAt(cfg, app, run, i);
    NextKeepsOrder(cfg, app, run[i - 1], run[i]);
  }

  /** Over every run of a sequential primary: it executes its own blocks in order, and the blocks it
      has assigned form a hash-linked chain without repeats. */
  lemma AssignsChain(cfg: Config, app: App, run: seq<System>, i: nat)
    requires P.ChainOk(app.env, app.genesis) && SequentialRun(cfg, app, run) && Correct(cfg, cfg.primary) && ChecksBlocks(cfg, app)
    requires i < |run|
    ensures PrimaryInOrder(cfg, app, run[i])
  {
    ghost var holds := (c: System) => PrimaryInOrder(cfg, app, c);
    StartInOrder(cfg, app, run);
    forall k | 0 < k < |run| && holds(run[k - 1]) ensures holds(run[k]) {
      StepInOrder(cfg, app, run, k);
    }
    HoldsAlong(holds, run, i);
  }

  /** End to end: a primary that packs on its own ledger and waits for each commit. In any run from a
      well-formed genesis, at replicas where no number completes before a smaller one, every executed
      block was accepted by CheckBlock on the ledger it is executed on and runs without overdraft, and
      equally long chains mean equal ledgers. */
  lemma SequentialRunsAreSafe(cfg: Config, app: App, run: seq<System>, i: nat, r1: nat, r2: nat, k: nat)
    requires P.ChainOk(app.env, app.genesis) && SequentialRun(cfg, app, run) && Correct(cfg, cfg.primary) && ChecksBlocks(cfg, app)
    requires Solvent(app.genesis.balances) && i < |run| && |run[i].nodes| == cfg.n && InOrder(cfg, run[i])
    requires Correct(cfg, r1) && Correct(cfg, r2) && k < |run[i].nodes[r1].executed|
    ensures var bodies := Bodies(run[i].nodes[r1].executed);
            var n, block := NodeAfter(app, bodies[..k]), app.parse(bodies[k]);
            && M.CheckBlock(app.env, n, block) && AllKnown(n.balances, block.txs) && RunsSafely(n.balances, block.txs)
            && forall tx :: tx in block.txs ==> app.env.valid(tx)
    ensures |LedgerOf(app, run[i].nodes[r1]).chain| == |LedgerOf(app, run[i].nodes[r2]).chain| ==>
              LedgerOf(app, run[i].nodes[r1]) == LedgerOf(app, run[i].nodes[r2])
  {
    AssignsChain(cfg, app, run, i);
    NoOverdraft(cfg, app, run, i, r1, k);
    ExecutedAreSigned(cfg, app, run, i, r1, k);
    if |LedgerOf(app, run[i].nodes[r1]).chain| == |LedgerOf(app, run[i].nodes[r2]).chain| {
      LedgersAgree(cfg, app, run, i, r1, r2);
    }
  }
  /** A block that CheckBlock refuses on the chain it extends is executed nowhere, and the primary never
      assigns another one: BlockProposal waits for ever. */
  lemma RefusedBlocksTheChain(cfg: Config, app: App, run: seq<System>, i: nat, k: nat)
    requires P.ChainOk(app.env, app.genesis) && SequentialRun(cfg, app, run) && Correct(cfg, cfg.primary) && ChecksBlocks(cfg, app)
    requires Solvent(app.genesis.balances) && i < |run| && InOrder(cfg, run[i])
    requires k < |Assigned(cfg, run[i])|
    requires !M.CheckBlock(app.env, NodeAfter(app, Assigned(cfg, run[i])[..k]), app.parse(Assigned(cfg, run[i])[k]))
    ensures |run[i].nodes| == cfg.n && forall r :: 0 <= r < cfg.n && Correct(cfg, r) ==> |run[i].nodes[r].executed| <= k
    ensures |Assigned(cfg, run[i])| == k + 1
  {
    AssignsChain(cfg, app, run, i);
    forall r | 0 <= r < cfg.n && Correct(cfg, r) ensures |run[i].nodes[r].executed| <= k {
      if |run[i].nodes[r].executed| > k { ApprovedOnSameChain(cfg, app, run[i], r, k); }
    }
  }
}
