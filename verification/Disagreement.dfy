/** When correct replicas agree on what they execute. Reply executes the body it holds and does not
    compare it with any digest that was voted for, so agreement rests on the primary: a faulty one makes
    a correct replica execute a body of its choice, which nobody else executes and no master accepted. */
module Disagreement {
  import opened Quorum
  import opened Replica
  import opened History
  import opened Justification
  import opened Cluster
  import opened Safety
  import opened Runs

  /** In no run do correct replicas execute different bodies for one number. */
  ghost predicate Agreement(cfg: Config) {
    forall c: System, r1: nat, r2: nat, x1: Execution, x2: Execution :: Reach(cfg, c) ==> !DisagreeAt(cfg, c, r1, r2, x1, x2)
  }

  ghost predicate DisagreeAt(cfg: Config, c: System, r1: nat, r2: nat, x1: Execution, x2: Execution) {
    && Correct(cfg, r1) && Correct(cfg, r2) && r1 < |c.nodes| && r2 < |c.nodes|
    && x1 in c.nodes[r1].executed && x2 in c.nodes[r2].executed && x1.seqNo == x2.seqNo && x1.body != x2.body
  }

  // ---------- a replica whose history starts with the pre-prepare ----------

  lemma BodySinceFirst(env: Env, id: nat, f: nat, evs: seq<Event>, m: Message, k: nat)
    requires evs != [] && evs[0] == Received(m) && m.mtype == Preprepare && m.body != "" && 0 < k <= |evs|
    ensures Body(Replay(env, id, f, evs[..k]), m.seqNo) == m.body
  {
    var none: seq<Event> := [];
    assert evs[..k][..1] == none + [Received(m)];
    ReplayStep(env, id, f, none, Received(m));
    ReplayGrows(env, id, f, evs[..k], 1);
  }

  /** It commits as soon as it holds 2f + 1 commit votes, and executes that body. */
  lemma FirstBodyIsExecuted(env: Env, id: nat, f: nat, evs: seq<Event>, m: Message)
    requires evs != [] && evs[0] == Received(m) && m.mtype == Preprepare && m.body != "" && VotesCarryNoBody(evs)
    requires Certified(Replay(env, id, f, evs), m.seqNo, Commit)
    ensures Execution(m.seqNo, m.body) in Replay(env, id, f, evs).executed
  {
    var h := Replay(env, id, f, evs);
    var k := CertifiedNeedsCommit(env, id, f, evs, m.seqNo);
    assert k > 0;
    BodySinceFirst(env, id, f, evs, m, k);
    assert CommitAfterBody(env, id, f, evs, m.seqNo, k);
    CommittedExactly(env, id, f, evs, m.seqNo);
    ReplayValid(env, id, f, evs);
    BodySinceFirst(env, id, f, evs, m, |evs|);
    assert evs[..|evs|] == evs;
    var i :| 0 <= i < |h.executed| && h.executed[i].seqNo == m.seqNo;
    assert h.executed[i] == Execution(m.seqNo, m.body);
  }

  // ---------- the run ----------

  /** A faulty primary picks a correct replica w, a body b for it, and for the others a body a that their
      masters accept. */
  ghost predicate Scene(cfg: Config, w: nat, a: string, b: string) {
    && ValidConfig(cfg) && cfg.primary in cfg.faulty && Correct(cfg, w)
    && a != "" && b != "" && cfg.env.check([], a)
  }

  /** The pre-prepare that v is sent. */
  function First(cfg: Config, w: nat, a: string, b: string, v: nat): Message {
    var body := if v == w then b else a;
    Message(Preprepare, cfg.primary, 0, cfg.env.digest(body), body)
  }

  /** What the primary injects: the pre-prepares, and its own prepare vote for a to everyone. */
  ghost function Openings(cfg: Config, w: nat, a: string, b: string): set<Packet> {
    (set v | v in Replicas(cfg.n) && Correct(cfg, v) :: Packet(First(cfg, w, a, b, v), v))
    + VotesToAll(cfg, {cfg.primary}, Prepare, 0, cfg.env.digest(a))
  }

  /** The correct replicas below k have handled their pre-prepare and nothing else, the others nothing. */
  ghost predicate Started(cfg: Config, w: nat, a: string, b: string, c: System, k: nat) {
    && Reach(cfg, c) && |c.hist| == cfg.n && (forall p :: p in Openings(cfg, w, a, b) ==> p in c.sent)
    && forall v: nat :: Correct(cfg, v) ==> c.hist[v] == if v < k then [Received(First(cfg, w, a, b, v))] else []
  }

  lemma OpeningsMayBeInjected(cfg: Config, w: nat, a: string, b: string)
    requires Scene(cfg, w, a, b)
    ensures MayInjectAll(cfg, InitSystem(cfg), Openings(cfg, w, a, b))
  {
  }

  lemma StartNext(cfg: Config, w: nat, a: string, b: string, c: System, k: nat) returns (c': System)
    requires Scene(cfg, w, a, b) && Started(cfg, w, a, b, c, k) && k < cfg.n
    ensures Started(cfg, w, a, b, c', k + 1)
  {
    if Correct(cfg, k) {
      var p := Packet(First(cfg, w, a, b, k), k);
      assert p in Openings(cfg, w, a, b);
      assert p !in c.delivered by {
        ReachInv(cfg, c);
        DeliveredIsHandled(cfg, c, p.msg, k);
      }
      c' := DeliverOne(cfg, c, p);
    } else {
      c' := c;
    }
  }

  lemma StartAll(cfg: Config, w: nat, a: string, b: string) returns (c: System)
    requires Scene(cfg, w, a, b)
    ensures Started(cfg, w, a, b, c, cfg.n)
  {
    ReachStart(cfg);
    OpeningsMayBeInjected(cfg, w, a, b);
    c := InjectAll(cfg, InitSystem(cfg), Openings(cfg, w, a, b));
    for k := 0 to cfg.n
      invariant Started(cfg, w, a, b, c, k)
    {
      c := StartNext(cfg, w, a, b, c, k);
    }
  }

  /** Everyone but w has voted for a. */
  lemma StartedVotes(cfg: Config, w: nat, a: string, b: string, c: System, v: nat, r: nat)
    requires Scene(cfg, w, a, b) && Started(cfg, w, a, b, c, cfg.n) && Correct(cfg, v) && v != w && r < cfg.n
    ensures Packet(VoteMessage(Prepare, v, 0, cfg.env.digest(a)), r) in c.sent
  {
    ReachInv(cfg, c);
    FirstPreprepareIsVotedFor(cfg.env, v, MaxFaulty(cfg.n), First(cfg, w, a, b, v));
    BoxIsSent(cfg, c, v, VoteMessage(Prepare, v, 0, cfg.env.digest(a)), r);
  }

  lemma DeliverPrepares(cfg: Config, w: nat, a: string, b: string, c: System) returns (c': System, ps: set<Packet>)
    requires Scene(cfg, w, a, b) && Started(cfg, w, a, b, c, cfg.n)
    ensures Reach(cfg, c') && Later(c, c', ps) && CertifiedEverywhere(cfg, c', 0, Prepare)
  {
    var vs, d := CorrectSet(cfg) - {w} + {cfg.primary}, cfg.env.digest(a);
    OneMissingOneFaulty(cfg, w, cfg.primary);
    ps := VotesToAll(cfg, vs, Prepare, 0, d);
    forall p | p in ps ensures p in c.sent {
      assert p == Packet(VoteMessage(Prepare, p.msg.replicaId, 0, d), p.dest);
      if p.msg.replicaId == cfg.primary {
        assert p in Openings(cfg, w, a, b);
      } else {
        StartedVotes(cfg, w, a, b, c, p.msg.replicaId, p.dest);
      }
    }
    c' := DeliverVotes(cfg, c, vs, Prepare, 0, d);
  }

  /** Whatever the cluster size, the digest function and the other faulty replicas: one faulty primary is
      enough to make w execute a body b of its choice, accepted by no master or not, and every other
      correct replica execute a. */
  lemma DisagreeingRun(cfg: Config, w: nat, a: string, b: string) returns (c: System)
    requires Scene(cfg, w, a, b)
    ensures Reach(cfg, c) && |c.nodes| == cfg.n
    ensures forall r :: 0 <= r < cfg.n && Correct(cfg, r) ==>
              Execution(0, if r == w then b else a) in c.nodes[r].executed
  {
    var c0 := StartAll(cfg, w, a, b);
    var c1, ps := DeliverPrepares(cfg, w, a, b, c0);
    c := DeliverCommits(cfg, c1, 0);
    LaterTrans(c0, c1, c, ps, VotesToAll(cfg, CorrectSet(cfg), Commit, 0, cfg.env.digest("")));
    ReachInv(cfg, c);
    forall r | 0 <= r < cfg.n && Correct(cfg, r) ensures Execution(0, if r == w then b else a) in c.nodes[r].executed {
      var m := First(cfg, w, a, b, r);
      assert c0.hist[r] <= c.hist[r] && c0.hist[r] == [Received(m)];
      InboxHasNoBodies(cfg, c, r);
      assert Certified(c.nodes[r], 0, Commit);
      FirstBodyIsExecuted(cfg.env, r, MaxFaulty(cfg.n), c.hist[r], m);
    }
  }

  // ---------- exactly when there is agreement ----------

  lemma TwoCorrect(cfg: Config) returns (w: nat, u: nat)
    requires ValidConfig(cfg) && cfg.primary in cfg.faulty
    ensures Correct(cfg, w) && Correct(cfg, u) && w != u
  {
    SubsetSize({cfg.primary}, cfg.faulty);
    AllCorrect(cfg);
    var all := CorrectSet(cfg);
    assert all != {};
    w :| w in all;
    assert |all - {w}| == |all| - 1;
    u :| u in all - {w};
  }

  lemma FaultyPrimaryDisagrees(cfg: Config, a: string)
    requires ValidConfig(cfg) && cfg.primary in cfg.faulty && a != "" && cfg.env.check([], a)
    ensures !Agreement(cfg)
  {
    var w, u := TwoCorrect(cfg);
    var b := a + "x";
    assert |b| == |a| + 1;
    var c := DisagreeingRun(cfg, w, a, b);
    assert DisagreeAt(cfg, c, w, u, Execution(0, b), Execution(0, a));
  }

  lemma CorrectPrimaryAgrees(cfg: Config)
    requires ValidConfig(cfg) && Correct(cfg, cfg.primary)
    ensures Agreement(cfg)
  {
    forall c: System, r1: nat, r2: nat, x1: Execution, x2: Execution | Reach(cfg, c)
      ensures !DisagreeAt(cfg, c, r1, r2, x1, x2)
    {
      if DisagreeAt(cfg, c, r1, r2, x1, x2) {
        ReachInv(cfg, c);
        ExecutedInInv(cfg, c, r1, x1);
        ExecutedInInv(cfg, c, r2, x2);
      }
    }
  }

  /** Agreement, exactly: provided masters accept some body to begin with, correct replicas agree in all
      runs if and only if the primary is correct. */
  lemma AgreementExactly(cfg: Config)
    requires ValidConfig(cfg) && exists a: string :: a != "" && cfg.env.check([], a)
    ensures Agreement(cfg) <==> Correct(cfg, cfg.primary)
  {
    if Correct(cfg, cfg.primary) {
      CorrectPrimaryAgrees(cfg);
    } else {
      var a: string :| a != "" && cfg.env.check([], a);
      FaultyPrimaryDisagrees(cfg, a);
    }
  }

  /** And by cluster size: the sizes with agreement in all runs, whoever is faulty, are those too small
      to tolerate a fault. */
  lemma AgreementBySize(n: nat)
    requires n >= 1
    ensures (forall cfg: Config :: cfg.n == n && ValidConfig(cfg) ==> Agreement(cfg)) <==> MaxFaulty(n) == 0
  {
    if MaxFaulty(n) == 0 {
      forall cfg: Config | cfg.n == n && ValidConfig(cfg) ensures Agreement(cfg) {
        assert cfg.faulty == {};
        CorrectPrimaryAgrees(cfg);
      }
    } else {
      var cfg := Config(n, 0, {0}, Env(x => x, (h, x) => true));
      assert ValidConfig(cfg);
      FaultyPrimaryDisagrees(cfg, "a");
    }
  }
}
