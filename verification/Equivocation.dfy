/** For which cluster sizes prepare certificates are unique. The code takes f_ = (n - 1) / 3 and the
    threshold 2f + 1 for every n; uniqueness holds exactly when n = 3f + 1 or f = 0. For any other n
    a run is constructed in which a faulty primary splits the correct replicas. */
module Equivocation {
  import opened Quorum
  import opened Replica
  import opened History
  import opened Justification
  import opened Cluster
  import opened Safety
  import opened Runs

  ghost predicate ConflictIn(cfg: Config, c: System, r1: nat, r2: nat, s: nat, d1: string, d2: string) {
    && Correct(cfg, r1) && Correct(cfg, r2) && r1 < |c.nodes| && r2 < |c.nodes| && d1 != d2
    && |Voters(c.nodes[r1], s, Prepare, d1)| >= Threshold(MaxFaulty(cfg.n))
    && |Voters(c.nodes[r2], s, Prepare, d2)| >= Threshold(MaxFaulty(cfg.n))
  }

  /** No run of a cluster of this size, whatever is faulty, has conflicting certificates. */
  ghost predicate CertificatesUnique(n: nat)
    requires n >= 1
  {
    forall cfg: Config, c: System, r1: nat, r2: nat, s: nat, d1: string, d2: string ::
      cfg.n == n && ValidConfig(cfg) && Reach(cfg, c) ==> !ConflictIn(cfg, c, r1, r2, s, d1, d2)
  }

  // ---------- a correct primary ----------

  /** With a correct primary, a certificate is for the digest of the assigned body, for every n. */
  lemma CertificateIsAssigned(cfg: Config, c: System, r: nat, s: nat, d: string)
    requires Inv(cfg, c) && Correct(cfg, cfg.primary) && Correct(cfg, r)
    requires |Voters(c.nodes[r], s, Prepare, d)| >= Threshold(MaxFaulty(cfg.n))
    ensures s < |Assigned(cfg, c)| && d == cfg.env.digest(Assigned(cfg, c)[s])
  {
    var q := VoterSet(cfg, c, r, s, Prepare, d);
    QuorumHasCorrectMajority(q, cfg.faulty, MaxFaulty(cfg.n));
    assert q - cfg.faulty != {};
    var v :| v in q - cfg.faulty;
    VoteWasSent(cfg, c, r, s, Prepare, d, v);
    CorrectBoxJustified(cfg, c, v, VoteMessage(Prepare, v, s, d));
    var e :| e in c.hist[v] && IsPreprepareFor(e, s) && cfg.env.digest(e.m.body) == d;
    PrepreparesAreAssigned(cfg, c, v, e);
  }

  // ---------- the splitting run ----------

  /** The body the faulty primary sends to v. */
  function BodyFor(f: nat, v: nat): string {
    if v < 2 * f + 1 then "a" else "b"
  }

  /** Replicas 0 .. f-1 are faulty, 0 is the primary; every check accepts; the digest is the body. */
  ghost predicate SplitConfig(cfg: Config) {
    && cfg.n >= 1 && MaxFaulty(cfg.n) >= 1 && cfg.n >= 3 * MaxFaulty(cfg.n) + 2
    && cfg.primary == 0 && cfg.faulty == Range(0, MaxFaulty(cfg.n))
    && (forall x :: cfg.env.digest(x) == x) && (forall h, x :: cfg.env.check(h, x))
  }

  lemma SplitIsValid(cfg: Config)
    requires SplitConfig(cfg)
    ensures ValidConfig(cfg)
    ensures forall v :: 0 <= v < cfg.n ==> (Correct(cfg, v) <==> v >= MaxFaulty(cfg.n))
  {
  }

  function PreprepareTo(f: nat, v: nat): Packet {
    Packet(Message(Preprepare, 0, 0, BodyFor(f, v), BodyFor(f, v)), v)
  }

  /** The vote of v that is meant for r. */
  function VoteTo(f: nat, v: nat, r: nat): Packet {
    Packet(VoteMessage(Prepare, v, 0, BodyFor(f, r)), r)
  }

  /** The correct replicas below k have had their pre-prepare and voted; nothing else happened. */
  ghost predicate Spread(cfg: Config, c: System, k: nat)
    requires cfg.n >= 1
  {
    var f := MaxFaulty(cfg.n);
    && Reach(cfg, c) && Inv(cfg, c) && f <= k <= cfg.n
    && (forall v :: k <= v < cfg.n ==> c.hist[v] == [])
    && (forall p :: p in c.sent ==> f <= (if p.msg.mtype == Preprepare then p.dest else p.msg.replicaId) < k)
    && (forall v, r :: f <= v < k && 0 <= r < cfg.n && BodyFor(f, r) == BodyFor(f, v) ==> VoteTo(f, v, r) in c.sent)
  }

  lemma SpreadStart(cfg: Config)
    requires SplitConfig(cfg)
    ensures Spread(cfg, InitSystem(cfg), MaxFaulty(cfg.n))
  {
    SplitIsValid(cfg);
    ReachStart(cfg);
    InitInv(cfg);
  }

  lemma SpreadInject(cfg: Config, c: System, k: nat) returns (c': System)
    requires SplitConfig(cfg) && Spread(cfg, c, k) && k < cfg.n
    ensures Reach(cfg, c') && Inv(cfg, c') && c'.hist == c.hist
    ensures c'.delivered == c.delivered && c'.sent == c.sent + multiset{PreprepareTo(MaxFaulty(cfg.n), k)}
    ensures PreprepareTo(MaxFaulty(cfg.n), k) !in c.sent
  {
    var p := PreprepareTo(MaxFaulty(cfg.n), k);
    assert MayInject(cfg, c, p);
    ReachStep(cfg, c, Inject(p));
    c' := Do(cfg, c, Inject(p));
    ReachInv(cfg, c');
  }

  lemma FirstVote(cfg: Config, k: nat)
    requires SplitConfig(cfg)
    ensures var f := MaxFaulty(cfg.n);
            Apply(cfg.env, Init(k, f), Received(PreprepareTo(f, k).msg)).sent
              == Some(VoteMessage(Prepare, k, 0, BodyFor(f, k)))
  {
  }

  lemma SpreadDeliver(cfg: Config, c: System, k: nat) returns (c': System)
    requires SplitConfig(cfg) && Reach(cfg, c) && Inv(cfg, c) && Correct(cfg, k) && c.hist[k] == []
    requires PreprepareTo(MaxFaulty(cfg.n), k) in c.sent && PreprepareTo(MaxFaulty(cfg.n), k) !in c.delivered
    ensures Reach(cfg, c') && Inv(cfg, c') && forall v :: k < v < cfg.n ==> c'.hist[v] == c.hist[v]
    ensures c'.sent == c.sent + Broadcast(cfg.n, VoteMessage(Prepare, k, 0, BodyFor(MaxFaulty(cfg.n), k)))
  {
    var p := PreprepareTo(MaxFaulty(cfg.n), k);
    assert Enabled(cfg, c, Deliver(p));
    ReachStep(cfg, c, Deliver(p));
    c' := Do(cfg, c, Deliver(p));
    ReachInv(cfg, c');
    assert c.nodes[k] == Init(k, MaxFaulty(cfg.n));
    FirstVote(cfg, k);
  }

  lemma SpreadNext(cfg: Config, c: System, k: nat) returns (c': System)
    requires SplitConfig(cfg) && Spread(cfg, c, k) && k < cfg.n
    ensures Spread(cfg, c', k + 1)
  {
    var f := MaxFaulty(cfg.n);
    SplitIsValid(cfg);
    assert PreprepareTo(f, k) !in c.delivered by { assert c.delivered <= c.sent; }
    var c1 := SpreadInject(cfg, c, k);
    c' := SpreadDeliver(cfg, c1, k);
    var vote := VoteMessage(Prepare, k, 0, BodyFor(f, k));
    forall v, r | f <= v < k + 1 && 0 <= r < cfg.n && BodyFor(f, r) == BodyFor(f, v) ensures VoteTo(f, v, r) in c'.sent {
      if v == k { assert VoteTo(f, v, r) == Packet(vote, r); } else { assert VoteTo(f, v, r) in c.sent; }
    }
  }

  lemma {:induction false} SpreadAll(cfg: Config, k: nat) returns (c: System)
    requires SplitConfig(cfg) && MaxFaulty(cfg.n) <= k <= cfg.n
    ensures Spread(cfg, c, k)
  {
    if k == MaxFaulty(cfg.n) {
      SpreadStart(cfg);
      c := InitSystem(cfg);
    } else {
      var before := SpreadAll(cfg, k - 1);
      c := SpreadNext(cfg, before, k - 1);
    }
  }

  /** Who is to vote for r's body at r: the faulty replicas and those that were sent that body. */
  predicate IsVoterFor(cfg: Config, v: nat, r: nat)
    requires cfg.n >= 1
  {
    var f := MaxFaulty(cfg.n);
    v < cfg.n && (v < f || BodyFor(f, v) == BodyFor(f, r))
  }

  /** Each such vote has been sent, or can still be cast by a faulty voter. */
  ghost predicate Ready(cfg: Config, c: System)
    requires cfg.n >= 1
  {
    && Reach(cfg, c) && Inv(cfg, c)
    && forall v, r :: 0 <= v && 0 <= r && Correct(cfg, r) && IsVoterFor(cfg, v, r) ==>
         SentOrOpen(cfg, c, VoteTo(MaxFaulty(cfg.n), v, r))
  }

  ghost predicate SentOrOpen(cfg: Config, c: System, p: Packet) {
    p in c.sent || (p.msg.replicaId in cfg.faulty && forall q :: q in c.sent ==> !SameSlot(p, q))
  }

  lemma SpreadIsReady(cfg: Config, c: System)
    requires SplitConfig(cfg) && Spread(cfg, c, cfg.n)
    ensures Ready(cfg, c)
  {
    var f := MaxFaulty(cfg.n);
    SplitIsValid(cfg);
    forall v, r | 0 <= v && 0 <= r && Correct(cfg, r) && IsVoterFor(cfg, v, r)
      ensures SentOrOpen(cfg, c, VoteTo(f, v, r))
    {
      if v >= f { assert VoteTo(f, v, r) in c.sent; }
    }
  }

  /** A step that adds no prepare message but perhaps one of these votes leaves the others open. */
  lemma StillReady(cfg: Config, c: System, c': System, p: Packet)
    requires SplitConfig(cfg) && Ready(cfg, c) && Reach(cfg, c') && Inv(cfg, c') && c.sent <= c'.sent
    requires forall q :: q in c'.sent && q !in c.sent ==> q == p || q.msg.mtype != Prepare
    requires exists v, r :: p == VoteTo(MaxFaulty(cfg.n), v, r)
    ensures Ready(cfg, c')
  {
    var f := MaxFaulty(cfg.n);
    forall v, r | 0 <= v && 0 <= r && Correct(cfg, r) && IsVoterFor(cfg, v, r)
      ensures SentOrOpen(cfg, c', VoteTo(f, v, r))
    {
      assert SentOrOpen(cfg, c, VoteTo(f, v, r));
      assert SameSlot(VoteTo(f, v, r), p) ==> VoteTo(f, v, r) == p;
    }
  }

  /** Cast a vote if its voter is faulty and has not yet. */
  lemma CastVote(cfg: Config, c: System, v: nat, r: nat) returns (c': System)
    requires SplitConfig(cfg) && Ready(cfg, c) && Correct(cfg, r) && IsVoterFor(cfg, v, r)
    ensures Ready(cfg, c') && c'.delivered == c.delivered && VoteTo(MaxFaulty(cfg.n), v, r) in c'.sent
  {
    var p := VoteTo(MaxFaulty(cfg.n), v, r);
    assert SentOrOpen(cfg, c, p);
    if p in c.sent {
      c' := c;
    } else {
      assert MayInject(cfg, c, p);
      ReachStep(cfg, c, Inject(p));
      c' := Do(cfg, c, Inject(p));
      ReachInv(cfg, c');
      StillReady(cfg, c, c', p);
    }
  }

  lemma PreparesYieldCommits(env: Env, h: State, m: Message)
    requires m.mtype == Prepare
    ensures var o := Apply(env, h, Received(m)).sent; o.Some? ==> o.value.mtype == Commit
  {
  }

  lemma DeliveryAddsNoPrepare(cfg: Config, c: System, p: Packet)
    requires Enabled(cfg, c, Deliver(p)) && p.msg.mtype == Prepare
    ensures var c' := Do(cfg, c, Deliver(p));
            c.sent <= c'.sent && forall q :: q in c'.sent && q !in c.sent ==> q.msg.mtype != Prepare
  {
    PreparesYieldCommits(cfg.env, c.nodes[p.dest], p.msg);
  }

  lemma DeliverVote(cfg: Config, c: System, v: nat, r: nat) returns (c': System)
    requires SplitConfig(cfg) && Ready(cfg, c) && Correct(cfg, r) && VoteTo(MaxFaulty(cfg.n), v, r) in c.sent
    ensures Ready(cfg, c') && c.delivered <= c'.delivered && VoteTo(MaxFaulty(cfg.n), v, r) in c'.delivered
  {
    var p := VoteTo(MaxFaulty(cfg.n), v, r);
    if p in c.delivered {
      c' := c;
    } else {
      assert Enabled(cfg, c, Deliver(p));
      ReachStep(cfg, c, Deliver(p));
      c' := Do(cfg, c, Deliver(p));
      ReachInv(cfg, c');
      DeliveryAddsNoPrepare(cfg, c, p);
      StillReady(cfg, c, c', p);
    }
  }

  lemma GatherVote(cfg: Config, c: System, r: nat, v: nat) returns (c': System)
    requires SplitConfig(cfg) && Ready(cfg, c) && Correct(cfg, r)
    ensures Ready(cfg, c') && c.delivered <= c'.delivered
    ensures IsVoterFor(cfg, v, r) ==> VoteTo(MaxFaulty(cfg.n), v, r) in c'.delivered
  {
    if IsVoterFor(cfg, v, r) {
      var c1 := CastVote(cfg, c, v, r);
      c' := DeliverVote(cfg, c1, v, r);
    } else {
      c' := c;
    }
  }

  /** All the votes for r's body from replicas below k have been delivered to r. */
  ghost predicate Gathered(cfg: Config, delivered: multiset<Packet>, r: nat, k: nat)
    requires cfg.n >= 1
  {
    forall v :: 0 <= v < k && IsVoterFor(cfg, v, r) ==> VoteTo(MaxFaulty(cfg.n), v, r) in delivered
  }

  lemma GatheredStays(cfg: Config, d: multiset<Packet>, d': multiset<Packet>, r: nat, k: nat)
    requires cfg.n >= 1 && Gathered(cfg, d, r, k) && d <= d'
    ensures Gathered(cfg, d', r, k)
  {
    forall v | 0 <= v < k && IsVoterFor(cfg, v, r) ensures VoteTo(MaxFaulty(cfg.n), v, r) in d' {
      assert VoteTo(MaxFaulty(cfg.n), v, r) in d;
    }
  }

  lemma GatherNext(cfg: Config, c: System, r: nat, k: nat) returns (c': System)
    requires SplitConfig(cfg) && Ready(cfg, c) && Correct(cfg, r) && Gathered(cfg, c.delivered, r, k)
    ensures Ready(cfg, c') && c.delivered <= c'.delivered && Gathered(cfg, c'.delivered, r, k + 1)
  {
    c' := GatherVote(cfg, c, r, k);
    GatheredStays(cfg, c.delivered, c'.delivered, r, k);
  }

  lemma GatherVotes(cfg: Config, c: System, r: nat) returns (c': System)
    requires SplitConfig(cfg) && Ready(cfg, c) && Correct(cfg, r)
    ensures Ready(cfg, c') && c.delivered <= c'.delivered && Gathered(cfg, c'.delivered, r, cfg.n)
  {
    c' := c;
    for k := 0 to cfg.n
      invariant Ready(cfg, c') && c.delivered <= c'.delivered && Gathered(cfg, c'.delivered, r, k)
    {
      c' := GatherNext(cfg, c', r, k);
    }
  }

  /** Enough voters for either body. */
  lemma EnoughForEither(cfg: Config, r: nat) returns (q: set<nat>)
    requires SplitConfig(cfg)
    ensures |q| >= Threshold(MaxFaulty(cfg.n)) && forall v :: v in q ==> v < cfg.n && IsVoterFor(cfg, v, r)
  {
    var f := MaxFaulty(cfg.n);
    if r < 2 * f + 1 {
      q := Range(0, 2 * f + 1);
    } else {
      q := Range(0, f) + Range(2 * f + 1, 3 * f + 2);
      assert Range(0, f) !! Range(2 * f + 1, 3 * f + 2);
    }
  }

  /** Once the votes are delivered, r holds a certificate for its body. */
  lemma VotesMakeCertificate(cfg: Config, c: System, r: nat)
    requires Inv(cfg, c) && SplitConfig(cfg) && Correct(cfg, r) && Gathered(cfg, c.delivered, r, cfg.n)
    ensures |Voters(c.nodes[r], 0, Prepare, BodyFor(MaxFaulty(cfg.n), r))| >= Threshold(MaxFaulty(cfg.n))
  {
    var f := MaxFaulty(cfg.n);
    var q := EnoughForEither(cfg, r);
    var voters := Voters(c.nodes[r], 0, Prepare, BodyFor(f, r));
    InboxHasNoBodies(cfg, c, r);
    assert Inbox(cfg, c, r);
    forall v | v in q ensures v in voters {
      assert VoteTo(f, v, r) in c.delivered;
      VotersAreReceived(cfg.env, r, f, c.hist[r], 0, Prepare, BodyFor(f, r), v);
    }
    EnoughVoters(voters, q);
  }

  /** For every n that is not 3f + 1 with f at least 1, a run with conflicting certificates. */
  lemma SplittingRun(cfg: Config) returns (c: System)
    requires SplitConfig(cfg)
    ensures Reach(cfg, c)
    ensures ConflictIn(cfg, c, MaxFaulty(cfg.n), 2 * MaxFaulty(cfg.n) + 1, 0, "a", "b")
  {
    var r1, r2 := MaxFaulty(cfg.n), 2 * MaxFaulty(cfg.n) + 1;
    SplitIsValid(cfg);
    var c0 := SpreadAll(cfg, cfg.n);
    SpreadIsReady(cfg, c0);
    var c1 := GatherVotes(cfg, c0, r1);
    c := GatherVotes(cfg, c1, r2);
    GatheredStays(cfg, c1.delivered, c.delivered, r1, cfg.n);
    VotesMakeCertificate(cfg, c, r1);
    VotesMakeCertificate(cfg, c, r2);
  }

  lemma ConflictRefutes(cfg: Config, c: System, r1: nat, r2: nat, s: nat, d1: string, d2: string)
    requires ValidConfig(cfg) && Reach(cfg, c) && ConflictIn(cfg, c, r1, r2, s, d1, d2)
    ensures !CertificatesUnique(cfg.n)
  {
  }

  lemma SomeSplitConfig(n: nat) returns (cfg: Config)
    requires n >= 1 && n != 3 * MaxFaulty(n) + 1 && MaxFaulty(n) != 0
    ensures cfg.n == n && SplitConfig(cfg)
  {
    cfg := Config(n, 0, Range(0, MaxFaulty(n)), Env(x => x, (h, x) => true));
  }

  lemma SomeConflict(n: nat)
    requires n >= 1 && n != 3 * MaxFaulty(n) + 1 && MaxFaulty(n) != 0
    ensures !CertificatesUnique(n)
  {
    var cfg := SomeSplitConfig(n);
    SplitIsValid(cfg);
    var c := SplittingRun(cfg);
    ConflictRefutes(cfg, c, MaxFaulty(n), 2 * MaxFaulty(n) + 1, 0, "a", "b");
  }

  /** Certificate uniqueness over all runs, exactly: the cluster sizes it holds for are those with
      n = 3f + 1, and those too small to tolerate a fault. */
  lemma CertificatesUniqueExactly(n: nat)
    requires n >= 1
    ensures CertificatesUnique(n) <==> n == 3 * MaxFaulty(n) + 1 || MaxFaulty(n) == 0
  {
    if n == 3 * MaxFaulty(n) + 1 || MaxFaulty(n) == 0 {
      forall cfg: Config, c: System, r1: nat, r2: nat, s: nat, d1: string, d2: string | cfg.n == n && ValidConfig(cfg) && Reach(cfg, c)
        ensures !ConflictIn(cfg, c, r1, r2, s, d1, d2)
      {
        if ConflictIn(cfg, c, r1, r2, s, d1, d2) {
          NoConflict(cfg, c, r1, r2, s, d1, d2);
        }
      }
    } else {
      SomeConflict(n);
    }
  }

  lemma NoConflict(cfg: Config, c: System, r1: nat, r2: nat, s: nat, d1: string, d2: string)
    requires ValidConfig(cfg) && Reach(cfg, c)
    requires cfg.n == 3 * MaxFaulty(cfg.n) + 1 || MaxFaulty(cfg.n) == 0
    ensures !ConflictIn(cfg, c, r1, r2, s, d1, d2)
  {
    if Correct(cfg, r1) && Correct(cfg, r2) && r1 < |c.nodes| && r2 < |c.nodes|
       && |Voters(c.nodes[r1], s, Prepare, d1)| >= Threshold(MaxFaulty(cfg.n))
       && |Voters(c.nodes[r2], s, Prepare, d2)| >= Threshold(MaxFaulty(cfg.n))
    {
      if cfg.n == 3 * MaxFaulty(cfg.n) + 1 {
        var run :| IsRun(cfg, run) && run[|run| - 1] == c;
        CertificatesAgree(cfg, run, |run| - 1, r1, r2, s, d1, d2);
      } else {
        ReachInv(cfg, c);
        assert cfg.faulty == {};
        CertificateIsAssigned(cfg, c, r1, s, d1);
        CertificateIsAssigned(cfg, c, r2, s, d2);
      }
    }
  }
}
