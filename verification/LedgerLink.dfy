/** Where consensus and ledger meet: a prepare vote is gated by CoinNode::CheckBlock on the voter's
    own ledger, and a commit runs CoinNode::CommitProposal on every replica's. */
module LedgerLink {
  import opened Quorum
  import opened Replica
  import opened History
  import opened Cluster
  import opened Safety
  import opened Ledger
  import M = Master

  /** The JSON parser, the master's environment, and the node every replica starts from. */
  datatype App = App(parse: string -> Block, env: M.Env, genesis: M.Node)

  /** The master's state after executing a list of bodies. A block that names an unknown account
      stops the program at an assertion; its state is then left as it was. */
  function NodeAfter(app: App, bodies: seq<string>): (n: M.Node)
    requires app.genesis.chain != []
    ensures n.chain != [] && n.balances.Keys == app.genesis.balances.Keys
  {
    if bodies == [] then app.genesis
    else
      var n, b := NodeAfter(app, bodies[..|bodies| - 1]), app.parse(bodies[|bodies| - 1]);
      if AllKnown(n.balances, b.txs) then M.Commit(n, b) else n
  }

  /** CheckProposal is CheckBlock on the ledger of the replica that is asked. */
  ghost predicate ChecksBlocks(cfg: Config, app: App) {
    && app.genesis.chain != []
    && forall h, body :: cfg.env.check(h, body) <==> M.CheckBlock(app.env, NodeAfter(app, h), app.parse(body))
  }

  /** At every correct replica no number ever becomes complete before a smaller one. */
  ghost predicate InOrder(cfg: Config, c: System) {
    cfg.n >= 1 && |c.hist| == cfg.n &&
    forall r :: 0 <= r < cfg.n && Correct(cfg, r) ==> CompletesInOrder(cfg.env, r, MaxFaulty(cfg.n), c.hist[r])
  }

  /** Which is to say, they execute in sequence order. */
  lemma InOrderExactly(cfg: Config, c: System)
    requires Inv(cfg, c)
    ensures InOrder(cfg, c) <==> forall r :: 0 <= r < cfg.n && Correct(cfg, r) ==> ExecutedInOrder(c.nodes[r])
  {
    forall r | 0 <= r < cfg.n && Correct(cfg, r)
      ensures CompletesInOrder(cfg.env, r, MaxFaulty(cfg.n), c.hist[r]) <==> ExecutedInOrder(c.nodes[r])
    {
      InboxHasNoBodies(cfg, c, r);
      ExecutesInOrderExactly(cfg.env, r, MaxFaulty(cfg.n), c.hist[r]);
    }
  }

  function LastHash(n: M.Node): string
    requires n.chain != []
  {
    n.chain[|n.chain| - 1]
  }

  /** The hash that ends the chain after the first k assigned blocks. */
  function TailAfter(app: App, bodies: seq<string>, k: nat): string
    requires app.genesis.chain != [] && k <= |bodies|
  {
    if k == 0 then LastHash(app.genesis) else app.parse(bodies[k - 1]).header.hash
  }

  /** Each assigned block extends the one before, the first the genesis node's tail. */
  ghost predicate ChainLinked(app: App, bodies: seq<string>)
    requires app.genesis.chain != []
  {
    forall k :: 0 <= k < |bodies| ==> app.parse(bodies[k]).header.prevHash == TailAfter(app, bodies, k)
  }

  ghost predicate TailsDistinct(app: App, bodies: seq<string>)
    requires app.genesis.chain != []
  {
    forall i, j :: 0 <= i < j <= |bodies| ==> TailAfter(app, bodies, i) != TailAfter(app, bodies, j)
  }

  /** The assigned blocks form a chain on the genesis node, with hashes that do not repeat; their
      amounts are not negative and their receivers are known. */
  ghost predicate GoodBlocks(app: App, bodies: seq<string>)
    requires app.genesis.chain != []
  {
    && ChainLinked(app, bodies) && TailsDistinct(app, bodies)
    && forall k :: 0 <= k < |bodies| ==> GoodTransfers(app, bodies[k])
  }

  predicate GoodTransfers(app: App, body: string) {
    var txs := app.parse(body).txs;
    NonNegative(txs) && forall i :: 0 <= i < |txs| ==> txs[i].to in app.genesis.balances
  }

  function Blocks(app: App, bodies: seq<string>): (r: seq<Block>)
    ensures |r| == |bodies| && forall i :: 0 <= i < |r| ==> r[i] == app.parse(bodies[i])
  {
    seq(|bodies|, i requires 0 <= i < |bodies| => app.parse(bodies[i]))
  }

  lemma NextLedger(app: App, bodies: seq<string>)
    requires app.genesis.chain != [] && bodies != []
    requires AllKnown(app.genesis.balances, app.parse(bodies[|bodies| - 1]).txs)
    ensures var n, b := NodeAfter(app, bodies[..|bodies| - 1]), app.parse(bodies[|bodies| - 1]);
            AllKnown(n.balances, b.txs) && NodeAfter(app, bodies) == M.Commit(n, b)
  {
    var n, b := NodeAfter(app, bodies[..|bodies| - 1]), app.parse(bodies[|bodies| - 1]);
    forall i | 0 <= i < |b.txs| ensures KnownTx(n.balances, b.txs[i]) {
      assert KnownTx(app.genesis.balances, b.txs[i]);
      assert b.txs[i].from in n.balances.Keys && b.txs[i].to in n.balances.Keys;
    }
  }

  lemma BlocksSplit(app: App, bodies: seq<string>)
    requires bodies != []
    ensures var n := |bodies| - 1;
            && Blocks(app, bodies)[..n] == Blocks(app, bodies[..n])
            && Hashes(Blocks(app, bodies)) == Hashes(Blocks(app, bodies[..n])) + [app.parse(bodies[n]).header.hash]
  {
  }

  /** While accounts are known, the ledger is the fold of its blocks. */
  lemma {:induction false} LedgerIsFold(app: App, bodies: seq<string>)
    requires app.genesis.chain != [] && BlocksKnown(app.genesis.balances, Blocks(app, bodies))
    ensures NodeAfter(app, bodies).balances == ExecBlocks(app.genesis.balances, Blocks(app, bodies))
    ensures NodeAfter(app, bodies).chain == app.genesis.chain + Hashes(Blocks(app, bodies))
  {
    if bodies != [] {
      var n := |bodies| - 1;
      BlocksSplit(app, bodies);
      assert forall i :: 0 <= i < n ==> Blocks(app, bodies[..n])[i] == Blocks(app, bodies)[i];
      LedgerIsFold(app, bodies[..n]);
      assert AllKnown(app.genesis.balances, Blocks(app, bodies)[n].txs);
      NextLedger(app, bodies);
    }
  }

  function Hashes(blocks: seq<Block>): (r: seq<string>)
    ensures |r| == |blocks| && forall i :: 0 <= i < |r| ==> r[i] == blocks[i].header.hash
  {
    seq(|blocks|, i requires 0 <= i < |blocks| => blocks[i].header.hash)
  }

  /** Every account an executed block names is known: someone's CheckBlock knew the senders. */
  lemma ExecutedKnown(cfg: Config, app: App, c: System, r: nat, k: nat)
    requires Inv(cfg, c) && Correct(cfg, cfg.primary) && ChecksBlocks(cfg, app)
    requires Correct(cfg, r) && k < |c.nodes[r].executed| && GoodTransfers(app, c.nodes[r].executed[k].body)
    ensures AllKnown(app.genesis.balances, app.parse(c.nodes[r].executed[k].body).txs)
  {
    var q, a := SomeApproval(cfg, c, r, c.nodes[r].executed[k]);
    var b, txs := NodeAfter(app, a.history).balances, app.parse(a.body).txs;
    assert M.CheckBlock(app.env, NodeAfter(app, a.history), app.parse(a.body));
    forall i | 0 <= i < |txs| ensures KnownTx(app.genesis.balances, txs[i]) {
      assert AffordableAt(b, txs, i);
      assert txs[i].from in b.Keys;
    }
  }

  /** Over every run with a correct primary, in whatever order replicas execute: every transaction of every
      block executed at a correct replica is signed. */
  lemma ExecutedAreSigned(cfg: Config, app: App, run: seq<System>, i: nat, r: nat, k: nat)
    requires IsRun(cfg, run) && i < |run| && Correct(cfg, cfg.primary) && ChecksBlocks(cfg, app)
    requires Correct(cfg, r) && r < |run[i].nodes| && k < |run[i].nodes[r].executed|
    ensures forall tx :: tx in app.parse(run[i].nodes[r].executed[k].body).txs ==> app.env.valid(tx)
  {
    RunInv(cfg, run, i);
    var q, a := SomeApproval(cfg, run[i], r, run[i].nodes[r].executed[k]);
    M.AcceptedAreSigned(app.env, NodeAfter(app, a.history), app.parse(a.body));
  }

  ghost predicate Linked(cfg: Config, app: App, c: System) {
    && Inv(cfg, c) && Correct(cfg, cfg.primary) && ChecksBlocks(cfg, app) && InOrder(cfg, c)
    && GoodBlocks(app, Assigned(cfg, c)) && Solvent(app.genesis.balances)
  }

  lemma ExecutedAt(cfg: Config, app: App, c: System, r: nat, k: nat)
    requires Linked(cfg, app, c) && Correct(cfg, r) && k < |c.nodes[r].executed|
    ensures k < |Assigned(cfg, c)| && c.nodes[r].executed[k] == Execution(k, Assigned(cfg, c)[k])
  {
    InOrderExactly(cfg, c);
    assert ExecutedInOrder(c.nodes[r]);
    ExecutedInInv(cfg, c, r, c.nodes[r].executed[k]);
  }

  /** In order, what a correct replica has executed is an initial part of what was assigned. */
  lemma ExecutedIsPrefix(cfg: Config, app: App, c: System, r: nat)
    requires Linked(cfg, app, c) && Correct(cfg, r)
    ensures |c.nodes[r].executed| <= |Assigned(cfg, c)|
    ensures Bodies(c.nodes[r].executed) == Assigned(cfg, c)[..|c.nodes[r].executed|]
  {
    var xs := c.nodes[r].executed;
    if xs != [] { ExecutedAt(cfg, app, c, r, |xs| - 1); }
    forall k | 0 <= k < |xs| ensures xs[k].body == Assigned(cfg, c)[k] {
      ExecutedAt(cfg, app, c, r, k);
    }
  }

  /** Some correct replica accepted an executed block, on an initial part of the assigned chain. */
  lemma SomeoneApproved(cfg: Config, app: App, c: System, r: nat, k: nat) returns (q: nat, m: nat)
    requires Linked(cfg, app, c) && Correct(cfg, r) && k < |c.nodes[r].executed|
    ensures k < |Assigned(cfg, c)| && Correct(cfg, q) && m <= |c.nodes[q].executed| && m <= |Assigned(cfg, c)|
    ensures M.CheckBlock(app.env, NodeAfter(app, Assigned(cfg, c)[..m]), app.parse(Assigned(cfg, c)[k]))
  {
    ExecutedAt(cfg, app, c, r, k);
    var a: Approval;
    q, a := SomeApproval(cfg, c, r, c.nodes[r].executed[k]);
    ExecutedIsPrefix(cfg, app, c, q);
    m := |a.history|;
    assert a.history == Assigned(cfg, c)[..m];
  }

  lemma PrefixLedger(cfg: Config, app: App, c: System, r: nat, m: nat)
    requires Linked(cfg, app, c) && Correct(cfg, r) && m <= |c.nodes[r].executed|
    ensures m <= |Assigned(cfg, c)|
    ensures BlocksKnown(app.genesis.balances, Blocks(app, Assigned(cfg, c)[..m]))
    ensures LastHash(NodeAfter(app, Assigned(cfg, c)[..m])) == TailAfter(app, Assigned(cfg, c), m)
  {
    ExecutedIsPrefix(cfg, app, c, r);
    var bodies := Assigned(cfg, c)[..m];
    forall i | 0 <= i < m ensures AllKnown(app.genesis.balances, Blocks(app, bodies)[i].txs) {
      ExecutedAt(cfg, app, c, r, i);
      ExecutedKnown(cfg, app, c, r, i);
    }
    LedgerIsFold(app, bodies);
  }

  /** The approval was given on exactly the chain the block is executed on. */
  lemma ApprovedOnSameChain(cfg: Config, app: App, c: System, r: nat, k: nat)
    requires Linked(cfg, app, c) && Correct(cfg, r) && k < |c.nodes[r].executed|
    ensures k < |Assigned(cfg, c)|
    ensures M.CheckBlock(app.env, NodeAfter(app, Assigned(cfg, c)[..k]), app.parse(Assigned(cfg, c)[k]))
  {
    var q, m := SomeoneApproved(cfg, app, c, r, k);
    PrefixLedger(cfg, app, c, q, m);
    var all := Assigned(cfg, c);
    assert TailAfter(app, all, m) == app.parse(all[k]).header.prevHash == TailAfter(app, all, k);
    assert m == k;
  }

  lemma BlockRunsSafely(cfg: Config, app: App, c: System, r: nat, k: nat)
    requires Linked(cfg, app, c) && Correct(cfg, r) && k < |c.nodes[r].executed| && k < |Assigned(cfg, c)|
    requires Solvent(NodeAfter(app, Assigned(cfg, c)[..k]).balances)
    ensures var b, txs := NodeAfter(app, Assigned(cfg, c)[..k]).balances, app.parse(Assigned(cfg, c)[k]).txs;
            AllKnown(b, txs) && RunsSafely(b, txs)
  {
    var b, txs := NodeAfter(app, Assigned(cfg, c)[..k]).balances, app.parse(Assigned(cfg, c)[k]).txs;
    ExecutedAt(cfg, app, c, r, k);
    ExecutedKnown(cfg, app, c, r, k);
    ApprovedOnSameChain(cfg, app, c, r, k);
    forall i | 0 <= i < |txs| ensures KnownTx(b, txs[i]) {
      assert KnownTx(app.genesis.balances, txs[i]);
      assert txs[i].from in b.Keys && txs[i].to in b.Keys;
    }
    AcceptedRunsSafely(b, txs);
  }

  /** Executing one more block safely leaves the ledger solvent. */
  lemma NextSolvent(app: App, bodies: seq<string>, k: nat)
    requires app.genesis.chain != [] && k < |bodies|
    requires var b, txs := NodeAfter(app, bodies[..k]).balances, app.parse(bodies[k]).txs;
             AllKnown(b, txs) && RunsSafely(b, txs)
    ensures Solvent(NodeAfter(app, bodies[..k + 1]).balances)
  {
    var b, txs := NodeAfter(app, bodies[..k]).balances, app.parse(bodies[k]).txs;
    assert bodies[..k + 1][..k] == bodies[..k];
    assert txs[..|txs|] == txs;
    assert Solvent(Exec(b, txs[..|txs|]));
  }

  lemma SolventStep(cfg: Config, app: App, c: System, r: nat, k: nat)
    requires Linked(cfg, app, c) && Correct(cfg, r) && k < |c.nodes[r].executed| <= |Assigned(cfg, c)|
    requires Solvent(NodeAfter(app, Assigned(cfg, c)[..k]).balances)
    ensures Solvent(NodeAfter(app, Assigned(cfg, c)[..k + 1]).balances)
  {
    BlockRunsSafely(cfg, app, c, r, k);
    NextSolvent(app, Assigned(cfg, c), k);
  }

  lemma {:induction false} LedgerSolvent(cfg: Config, app: App, c: System, r: nat, k: nat)
    requires Linked(cfg, app, c) && Correct(cfg, r) && k <= |c.nodes[r].executed| <= |Assigned(cfg, c)|
    ensures Solvent(NodeAfter(app, Assigned(cfg, c)[..k]).balances)
    decreases k
  {
    if k == 0 {
      assert Assigned(cfg, c)[..0] == [];
    } else {
      LedgerSolvent(cfg, app, c, r, k - 1);
      SolventStep(cfg, app, c, r, k - 1);
    }
  }

  /** The vote-to-ledger link over every run: a block executed by a correct replica was accepted by
      CheckBlock on the very ledger it is executed on, whoever voted for it, and runs there without
      overdrawing any account. */
  lemma NoOverdraft(cfg: Config, app: App, run: seq<System>, i: nat, r: nat, k: nat)
    requires IsRun(cfg, run) && i < |run| && Linked(cfg, app, run[i])
    requires Correct(cfg, r) && k < |run[i].nodes[r].executed|
    ensures var bodies := Bodies(run[i].nodes[r].executed);
            var n, block := NodeAfter(app, bodies[..k]), app.parse(bodies[k]);
            M.CheckBlock(app.env, n, block) && AllKnown(n.balances, block.txs) && RunsSafely(n.balances, block.txs)
  {
    var c := run[i];
    ExecutedIsPrefix(cfg, app, c, r);
    assert Bodies(c.nodes[r].executed)[..k] == Assigned(cfg, c)[..k];
    ApprovedOnSameChain(cfg, app, c, r, k);
    LedgerSolvent(cfg, app, c, r, k);
    BlockRunsSafely(cfg, app, c, r, k);
  }

  /** The ledger of a replica. */
  function LedgerOf(app: App, h: State): M.Node
    requires app.genesis.chain != []
  {
    NodeAfter(app, Bodies(h.executed))
  }

  /** Over every run, each correct replica's balances are the fold of its blocks, and their total is
      the starting one plus the transfers to oneself. */
  lemma BalancesAreFold(cfg: Config, app: App, run: seq<System>, i: nat, r: nat)
    requires IsRun(cfg, run) && i < |run| && Linked(cfg, app, run[i]) && Correct(cfg, r)
    ensures var blocks := Blocks(app, Bodies(run[i].nodes[r].executed));
            && BlocksKnown(app.genesis.balances, blocks)
            && LedgerOf(app, run[i].nodes[r]).balances == ExecBlocks(app.genesis.balances, blocks)
            && Total(LedgerOf(app, run[i].nodes[r]).balances) == Total(app.genesis.balances) + SelfTransferTotal(blocks)
  {
    var c := run[i];
    ExecutedIsPrefix(cfg, app, c, r);
    PrefixLedger(cfg, app, c, r, |c.nodes[r].executed|);
    LedgerIsFold(app, Bodies(c.nodes[r].executed));
    ChainConserves(app.genesis.balances, Blocks(app, Bodies(c.nodes[r].executed)));
  }

  /** Over every run, two correct replicas whose chains are equally long have the same ledger: the
      same balances, chain, pool and block files as executed from the common start. */
  lemma LedgersAgree(cfg: Config, app: App, run: seq<System>, i: nat, r1: nat, r2: nat)
    requires IsRun(cfg, run) && i < |run| && Linked(cfg, app, run[i]) && Correct(cfg, r1) && Correct(cfg, r2)
    requires |LedgerOf(app, run[i].nodes[r1]).chain| == |LedgerOf(app, run[i].nodes[r2]).chain|
    ensures LedgerOf(app, run[i].nodes[r1]) == LedgerOf(app, run[i].nodes[r2])
  {
    var c := run[i];
    BalancesAreFold(cfg, app, run, i, r1);
    BalancesAreFold(cfg, app, run, i, r2);
    LedgerIsFold(app, Bodies(c.nodes[r1].executed));
    LedgerIsFold(app, Bodies(c.nodes[r2].executed));
    ExecutedIsPrefix(cfg, app, c, r1);
    ExecutedIsPrefix(cfg, app, c, r2);
  }
}
