/** Building runs: which systems can be reached, and how a reachable system is driven on by letting
    faulty replicas speak and by delivering chosen packets. */
module Runs {
  import opened Quorum
  import opened Replica
  import opened History
  import opened Justification
  import opened Cluster

  /** Some run of the protocol ends in this system. */
  ghost predicate Reach(cfg: Config, c: System) {
    exists run :: IsRun(cfg, run) && run[|run| - 1] == c
  }

  /** What holds at every point of every run holds of every reachable system. */
  lemma ReachHolds(cfg: Config, c: System, holds: System -> bool)
    requires Reach(cfg, c)
    requires forall run, i :: IsRun(cfg, run) && 0 <= i < |run| ==> holds(run[i])
    ensures holds(c)
  {
    var run :| IsRun(cfg, run) && run[|run| - 1] == c;
    assert holds(run[|run| - 1]);
  }

  lemma ReachInv(cfg: Config, c: System)
    requires Reach(cfg, c)
    ensures Inv(cfg, c)
  {
    ghost var holds := (x: System) => Inv(cfg, x);
    forall run, i | IsRun(cfg, run) && 0 <= i < |run| ensures holds(run[i]) {
      RunInv(cfg, run, i);
    }
    ReachHolds(cfg, c, holds);
  }

  lemma RunAppend(cfg: Config, run: seq<System>, c: System)
    requires IsRun(cfg, run) && Next(cfg, run[|run| - 1], c)
    ensures IsRun(cfg, run + [c])
  {
    var more := run + [c];
    forall i | 0 < i < |more| ensures NextAt(cfg, more, i) {
      if i < |run| { assert NextAt(cfg, run, i); }
    }
  }

  lemma ReachStep(cfg: Config, c: System, s: Step)
    requires Reach(cfg, c) && Enabled(cfg, c, s)
    ensures Reach(cfg, Do(cfg, c, s))
  {
    var c' := Do(cfg, c, s);
    assert Next(cfg, c, c');
    var run :| IsRun(cfg, run) && run[|run| - 1] == c;
    RunAppend(cfg, run, c');
    assert (run + [c'])[|run + [c']| - 1] == c';
  }

  lemma ReachStart(cfg: Config)
    requires ValidConfig(cfg)
    ensures Reach(cfg, InitSystem(cfg))
  {
    assert IsRun(cfg, [InitSystem(cfg)]);
  }

  // ---------- faulty replicas speak ----------

  ghost predicate MayInjectAll(cfg: Config, c: System, ps: set<Packet>) {
    && (forall p :: p in ps ==> MayInject(cfg, c, p))
    && (forall p, q :: p in ps && q in ps && SameSlot(p, q) ==> p == q)
  }

  lemma {:induction false} InjectAll(cfg: Config, c: System, ps: set<Packet>) returns (c': System)
    requires Reach(cfg, c) && MayInjectAll(cfg, c, ps)
    ensures Reach(cfg, c') && c' == c.(sent := c.sent + multiset(ps))
    decreases ps
  {
    if ps == {} {
      c' := c;
      assert c.sent + multiset(ps) == c.sent;
    } else {
      var p :| p in ps;
      ReachStep(cfg, c, Inject(p));
      var c1 := Do(cfg, c, Inject(p));
      assert SameSlot(p, p);
      c' := InjectAll(cfg, c1, ps - {p});
      assert multiset(ps) == multiset{p} + multiset(ps - {p});
    }
  }

  // ---------- packets are delivered ----------

  /** A history has grown by packets of ps only. */
  ghost predicate AddsOnly(evs: seq<Event>, evs': seq<Event>, ps: set<Packet>, v: nat) {
    evs <= evs' && forall k :: |evs| <= k < |evs'| ==> evs'[k].Received? && Packet(evs'[k].m, v) in ps
  }

  /** The packets of ps have been delivered and nothing else was handled. */
  ghost predicate Later(c: System, c': System, ps: set<Packet>) {
    && |c'.hist| == |c.hist| && c.sent <= c'.sent && c.delivered <= c'.delivered
    && (forall p :: p in ps ==> p in c'.delivered)
    && (forall v :: 0 <= v < |c.hist| ==> AddsOnly(c.hist[v], c'.hist[v], ps, v))
  }

  lemma AddsOnlyTrans(a: seq<Event>, b: seq<Event>, c: seq<Event>, ps: set<Packet>, qs: set<Packet>, v: nat)
    requires AddsOnly(a, b, ps, v) && AddsOnly(b, c, qs, v)
    ensures AddsOnly(a, c, ps + qs, v)
  {
    forall k | |a| <= k < |c| ensures c[k].Received? && Packet(c[k].m, v) in ps + qs {
      if k < |b| { assert c[k] == b[k]; }
    }
  }

  lemma LaterTrans(a: System, b: System, c: System, ps: set<Packet>, qs: set<Packet>)
    requires Later(a, b, ps) && Later(b, c, qs)
    ensures Later(a, c, ps + qs)
  {
    forall v | 0 <= v < |a.hist| ensures AddsOnly(a.hist[v], c.hist[v], ps + qs, v) {
      AddsOnlyTrans(a.hist[v], b.hist[v], c.hist[v], ps, qs, v);
    }
    forall p | p in ps ensures p in c.delivered {
      assert p in b.delivered;
    }
  }

  lemma DeliveryIsLater(cfg: Config, c: System, p: Packet)
    requires Enabled(cfg, c, Deliver(p)) && Correct(cfg, p.dest)
    ensures var c' := Do(cfg, c, Deliver(p));
            c'.hist == c.hist[p.dest := c.hist[p.dest] + [Received(p.msg)]] && Later(c, c', {p})
  {
    var c' := Do(cfg, c, Deliver(p));
    assert p == Packet(p.msg, p.dest);
    forall v | 0 <= v < |c.hist| ensures AddsOnly(c.hist[v], c'.hist[v], {p}, v) {
      if v == p.dest { assert c'.hist[v] == c.hist[v] + [Received(p.msg)]; }
    }
  }

  /** Deliver a packet to a correct replica, unless that was done. */
  lemma DeliverOne(cfg: Config, c: System, p: Packet) returns (c': System)
    requires Reach(cfg, c) && p in c.sent && Correct(cfg, p.dest)
    ensures Reach(cfg, c') && Later(c, c', {p})
    ensures p !in c.delivered ==> p.dest < |c.hist| && c'.hist == c.hist[p.dest := c.hist[p.dest] + [Received(p.msg)]]
  {
    if p in c.delivered {
      c' := c;
    } else {
      assert Enabled(cfg, c, Deliver(p)) by { ReachInv(cfg, c); }
      ReachStep(cfg, c, Deliver(p));
      DeliveryIsLater(cfg, c, p);
      c' := Do(cfg, c, Deliver(p));
    }
  }

  lemma {:induction false} DeliverAll(cfg: Config, c: System, ps: set<Packet>) returns (c': System)
    requires Reach(cfg, c) && forall p :: p in ps ==> p in c.sent && Correct(cfg, p.dest)
    ensures Reach(cfg, c') && Later(c, c', ps)
    decreases ps
  {
    if ps == {} {
      c' := c;
    } else {
      var p :| p in ps;
      var c1 := DeliverOne(cfg, c, p);
      c' := DeliverAll(cfg, c1, ps - {p});
      LaterTrans(c, c1, c', {p}, ps - {p});
      assert {p} + (ps - {p}) == ps;
    }
  }

  /** What is delivered to a correct replica has been handled by it. */
  lemma DeliveredIsHandled(cfg: Config, c: System, m: Message, r: nat)
    requires Inv(cfg, c) && Correct(cfg, r)
    ensures Packet(m, r) in c.delivered <==> Received(m) in c.hist[r]
  {
    assert Inbox(cfg, c, r);
  }

  /** What a correct replica has broadcast is on the network to everyone. */
  lemma BoxIsSent(cfg: Config, c: System, v: nat, m: Message, r: nat)
    requires Inv(cfg, c) && Correct(cfg, v) && r < cfg.n && m.replicaId == v
    ensures Packet(m, r) in c.sent <==> m in BoxOf(cfg, c, v)
  {
    assert Outboxed(cfg.n, c.sent, v, BoxOf(cfg, c, v));
  }

  // ---------- votes make certificates ----------

  /** A replica that hears of an acceptable body first votes for it. */
  lemma FirstPreprepareIsVotedFor(env: Env, id: nat, f: nat, m: Message)
    requires m.mtype == Preprepare && env.check([], m.body)
    ensures VoteMessage(Prepare, id, m.seqNo, env.digest(m.body)) in Outbox(env, id, f, [Received(m)])
  {
    var none: seq<Event> := [];
    OutboxStep(env, id, f, none, Received(m));
    assert none + [Received(m)] == [Received(m)];
    assert Bodies(Init(id, f).executed) == [];
  }

  /** The copies of one vote from each of vs to each correct replica. */
  ghost function VotesToAll(cfg: Config, vs: set<nat>, phase: MType, s: nat, d: string): (ps: set<Packet>)
    ensures forall p :: p in ps <==>
              p.msg.replicaId in vs && p.msg == VoteMessage(phase, p.msg.replicaId, s, d) && Correct(cfg, p.dest)
  {
    var ps := set v, r | v in vs && r in Replicas(cfg.n) && Correct(cfg, r) :: Packet(VoteMessage(phase, v, s, d), r);
    assert forall p: Packet :: p == Packet(p.msg, p.dest);
    ps
  }

  /** Every correct replica holds 2f + 1 votes for some digest. */
  ghost predicate CertifiedEverywhere(cfg: Config, c: System, s: nat, phase: MType) {
    forall r: nat :: Correct(cfg, r) ==> r < |c.nodes| && Certified(c.nodes[r], s, phase)
  }

  /** Deliver enough votes, and every correct replica has the certificate. */
  lemma DeliverVotes(cfg: Config, c: System, vs: set<nat>, phase: MType, s: nat, d: string) returns (c': System)
    requires Reach(cfg, c) && phase != Preprepare && cfg.n >= 1 && |vs| >= Threshold(MaxFaulty(cfg.n))
    requires forall p :: p in VotesToAll(cfg, vs, phase, s, d) ==> p in c.sent
    ensures Reach(cfg, c') && Later(c, c', VotesToAll(cfg, vs, phase, s, d))
    ensures CertifiedEverywhere(cfg, c', s, phase)
  {
    c' := DeliverAll(cfg, c, VotesToAll(cfg, vs, phase, s, d));
    DeliveredVotesCertifyAll(cfg, c', vs, phase, s, d);
  }

  lemma DeliveredVotesCertifyAll(cfg: Config, c: System, vs: set<nat>, phase: MType, s: nat, d: string)
    requires Reach(cfg, c) && phase != Preprepare && cfg.n >= 1 && |vs| >= Threshold(MaxFaulty(cfg.n))
    requires forall p :: p in VotesToAll(cfg, vs, phase, s, d) ==> p in c.delivered
    ensures CertifiedEverywhere(cfg, c, s, phase)
  {
    ReachInv(cfg, c);
    forall r: nat | Correct(cfg, r) ensures r < |c.nodes| && Certified(c.nodes[r], s, phase) {
      forall v | v in vs ensures Packet(VoteMessage(phase, v, s, d), r) in c.delivered {
        assert Packet(VoteMessage(phase, v, s, d), r) in VotesToAll(cfg, vs, phase, s, d);
      }
      DeliveredVotesCertify(cfg, c, vs, phase, s, d, r);
    }
  }

  lemma DeliveredVotesCertify(cfg: Config, c: System, vs: set<nat>, phase: MType, s: nat, d: string, r: nat)
    requires Inv(cfg, c) && Correct(cfg, r) && phase != Preprepare && |vs| >= Threshold(MaxFaulty(cfg.n))
    requires forall v :: v in vs ==> Packet(VoteMessage(phase, v, s, d), r) in c.delivered
    ensures Certified(c.nodes[r], s, phase)
  {
    var f, voters := MaxFaulty(cfg.n), Voters(c.nodes[r], s, phase, d);
    InboxHasNoBodies(cfg, c, r);
    forall v | v in vs ensures v in voters {
      DeliveredIsHandled(cfg, c, VoteMessage(phase, v, s, d), r);
      VotersAreReceived(cfg.env, r, f, c.hist[r], s, phase, d, v);
    }
    EnoughVoters(voters, vs);
    ReplayValid(cfg.env, r, f, c.hist[r]);
  }

  ghost function CorrectSet(cfg: Config): (r: set<nat>)
    ensures forall v :: v in r <==> Correct(cfg, v)
  {
    set v | v in Replicas(cfg.n) && Correct(cfg, v)
  }

  /** With one exception, the correct replicas and one faulty one reach the threshold. */
  lemma OneMissingOneFaulty(cfg: Config, w: nat, z: nat)
    requires ValidConfig(cfg) && Correct(cfg, w) && z in cfg.faulty
    ensures |CorrectSet(cfg) - {w} + {z}| >= Threshold(MaxFaulty(cfg.n))
  {
    CorrectReplicasReachThreshold(cfg.n, cfg.faulty);
    assert CorrectSet(cfg) == Replicas(cfg.n) - cfg.faulty;
  }

  lemma AllCorrect(cfg: Config)
    requires ValidConfig(cfg)
    ensures |CorrectSet(cfg)| >= Threshold(MaxFaulty(cfg.n))
  {
    CorrectReplicasReachThreshold(cfg.n, cfg.faulty);
    assert CorrectSet(cfg) == Replicas(cfg.n) - cfg.faulty;
  }

  lemma CommitWasSent(cfg: Config, c: System, v: nat, s: nat, r: nat)
    requires Inv(cfg, c) && Correct(cfg, v) && Certified(c.nodes[v], s, Prepare) && r < cfg.n
    ensures Packet(VoteMessage(Commit, v, s, cfg.env.digest("")), r) in c.sent
  {
    ReplayValid(cfg.env, v, MaxFaulty(cfg.n), c.hist[v]);
    InboxHasNoBodies(cfg, c, v);
    assert IsPrepared(c.nodes[v], s);
    PreparedWasSent(cfg.env, v, MaxFaulty(cfg.n), c.hist[v], s);
    BoxIsSent(cfg, c, v, VoteMessage(Commit, v, s, cfg.env.digest("")), r);
  }

  /** Every certified replica sends its commit message; when these are delivered, every correct replica
      has 2f + 1 of them. */
  lemma DeliverCommits(cfg: Config, c: System, s: nat) returns (c': System)
    requires Reach(cfg, c) && ValidConfig(cfg) && CertifiedEverywhere(cfg, c, s, Prepare)
    ensures Reach(cfg, c') && Later(c, c', VotesToAll(cfg, CorrectSet(cfg), Commit, s, cfg.env.digest("")))
    ensures CertifiedEverywhere(cfg, c', s, Commit)
  {
    var d := cfg.env.digest("");
    forall p | p in VotesToAll(cfg, CorrectSet(cfg), Commit, s, d) ensures p in c.sent {
      ReachInv(cfg, c);
      CommitWasSent(cfg, c, p.msg.replicaId, s, p.dest);
      assert p == Packet(p.msg, p.dest);
    }
    AllCorrect(cfg);
    c' := DeliverVotes(cfg, c, CorrectSet(cfg), Commit, s, d);
  }
}
