/** What every run of the cluster guarantees: agreement on executed bodies, and at most one digest
    with a prepare certificate per sequence number. */
module Safety {
  import opened Traces
  import opened Quorum
  import opened Replica
  import opened History
  import opened Justification
  import opened Cluster

  /** The bodies the primary has assigned to sequence numbers 0, 1, 2, ... */
  ghost function Assigned(cfg: Config, c: System): seq<string>
    requires cfg.primary < |c.hist|
  {
    Requests(c.hist[cfg.primary])
  }

  ghost predicate Approves(h: State, s: nat, body: string) {
    exists a :: a in h.approvals && a.seqNo == s && a.body == body
  }

  /** The correct replicas whose master accepted this body for s in CheckProposal. */
  ghost function Approvers(cfg: Config, c: System, s: nat, body: string): set<nat>
    requires |c.nodes| == cfg.n
  {
    set r | r in Replicas(cfg.n) && Correct(cfg, r) && Approves(c.nodes[r], s, body)
  }

  /** A vote held by a correct replica is in the network, and so is in its voter's outbox if the
      voter is correct. */
  lemma VoteWasSent(cfg: Config, c: System, r: nat, s: nat, phase: MType, d: string, v: nat)
    requires Inv(cfg, c) && Correct(cfg, r) && phase != Preprepare
    requires v in Voters(c.nodes[r], s, phase, d)
    ensures Packet(VoteMessage(phase, v, s, d), r) in c.sent && v < cfg.n
    ensures Correct(cfg, v) ==> VoteMessage(phase, v, s, d) in BoxOf(cfg, c, v)
  {
    var p := Packet(VoteMessage(phase, v, s, d), r);
    assert Inbox(cfg, c, r);
    InboxHasNoBodies(cfg, c, r);
    VotersAreReceived(cfg.env, r, MaxFaulty(cfg.n), c.hist[r], s, phase, d, v);
    assert p in c.delivered && c.delivered[p] <= c.sent[p];
    assert WellFormed(cfg, p);
    if Correct(cfg, v) {
      assert Outboxed(cfg.n, c.sent, v, BoxOf(cfg, c, v));
    }
  }

  /** 2f + 1 votes are 2f + 1 different replicas. */
  lemma VoterSet(cfg: Config, c: System, r: nat, s: nat, phase: MType, d: string) returns (q: set<nat>)
    requires Inv(cfg, c) && Correct(cfg, r) && phase != Preprepare
    ensures |q| == |Voters(c.nodes[r], s, phase, d)| && q <= Replicas(cfg.n)
    ensures forall v :: v in q <==> v in Voters(c.nodes[r], s, phase, d)
  {
    assert Inbox(cfg, c, r);
    InboxHasNoBodies(cfg, c, r);
    VotersAreDistinct(cfg.env, r, MaxFaulty(cfg.n), c.hist[r], s, phase, d);
    var vs := Voters(c.nodes[r], s, phase, d);
    DistinctSize(vs);
    q := Elements(vs);
    forall v | v in q ensures v in Replicas(cfg.n) {
      VoteWasSent(cfg, c, r, s, phase, d, v);
    }
  }

  lemma CorrectBoxJustified(cfg: Config, c: System, v: nat, m: Message)
    requires Inv(cfg, c) && Correct(cfg, v) && m in BoxOf(cfg, c, v)
    ensures Justified(cfg.env, v, MaxFaulty(cfg.n), c.hist[v], m)
  {
    InboxHasNoBodies(cfg, c, v);
    OutboxJustified(cfg.env, v, MaxFaulty(cfg.n), c.hist[v]);
  }

  // ---------- agreement ----------

  /** With a correct primary, every pre-prepare in a correct inbox carries the assigned body. */
  lemma PrepreparesAreAssigned(cfg: Config, c: System, r: nat, e: Event)
    requires Inv(cfg, c) && Correct(cfg, r) && Correct(cfg, cfg.primary)
    requires e in c.hist[r] && e.Received? && e.m.mtype == Preprepare
    ensures e.m.seqNo < |Assigned(cfg, c)| && e.m.body == Assigned(cfg, c)[e.m.seqNo] && e.m.body != ""
  {
    var p := Packet(e.m, r);
    assert Inbox(cfg, c, r);
    assert p in c.delivered && c.delivered[p] <= c.sent[p];
    assert WellFormed(cfg, p);
    assert Outboxed(cfg.n, c.sent, cfg.primary, BoxOf(cfg, c, cfg.primary));
    CorrectBoxJustified(cfg, c, cfg.primary, e.m);
  }

  /** With a correct primary, the body a correct replica holds is the assigned one. */
  lemma BodyIsAssigned(cfg: Config, c: System, r: nat, s: nat)
    requires Inv(cfg, c) && Correct(cfg, r) && Correct(cfg, cfg.primary) && Body(c.nodes[r], s) != ""
    ensures s < |Assigned(cfg, c)| && Body(c.nodes[r], s) == Assigned(cfg, c)[s]
  {
    InboxHasNoBodies(cfg, c, r);
    BodySource(cfg.env, r, MaxFaulty(cfg.n), c.hist[r], s);
    var b := Body(c.nodes[r], s);
    if e :| e in c.hist[r] && IsPreprepareFor(e, s) && e.m.body == b {
      PrepreparesAreAssigned(cfg, c, r, e);
    } else {
      assert Inbox(cfg, c, r);
      RequestsOnlyAtPrimary(c.hist[r], cfg.primary, r);
    }
  }

  lemma {:induction false} RequestsOnlyAtPrimary(evs: seq<Event>, primary: nat, r: nat)
    requires forall e :: e in evs && e.Requested? ==> r == primary
    ensures r != primary ==> Requests(evs) == []
  {
    if evs != [] {
      assert evs[|evs| - 1] in evs;
      RequestsOnlyAtPrimary(evs[..|evs| - 1], primary, r);
    }
  }

  /** With a correct primary, every approval is for the assigned body. */
  lemma ApprovalIsAssigned(cfg: Config, c: System, r: nat, a: Approval)
    requires Inv(cfg, c) && Correct(cfg, r) && Correct(cfg, cfg.primary) && a in c.nodes[r].approvals
    ensures a.seqNo < |Assigned(cfg, c)| && a.body == Assigned(cfg, c)[a.seqNo]
    ensures Body(c.nodes[r], a.seqNo) == a.body
  {
    forall e | e in c.hist[r] && e.Received? && e.m.mtype == Preprepare ensures e.m.body != "" {
      PrepreparesAreAssigned(cfg, c, r, e);
    }
    ApprovedBodies(cfg.env, r, MaxFaulty(cfg.n), c.hist[r]);
    BodyIsAssigned(cfg, c, r, a.seqNo);
  }

  lemma ApproverIsListed(cfg: Config, c: System, v: nat, a: Approval)
    requires Inv(cfg, c) && Correct(cfg, cfg.primary) && Correct(cfg, v) && a in c.nodes[v].approvals
    ensures a.seqNo < |Assigned(cfg, c)| && v in Approvers(cfg, c, a.seqNo, Assigned(cfg, c)[a.seqNo])
  {
    ApprovalIsAssigned(cfg, c, v, a);
  }

  lemma VoterApproved(cfg: Config, c: System, r: nat, s: nat, d: string, v: nat)
    requires Inv(cfg, c) && Correct(cfg, r) && Correct(cfg, cfg.primary) && v !in cfg.faulty
    requires v in Voters(c.nodes[r], s, Prepare, d)
    ensures s < |Assigned(cfg, c)| && v in Approvers(cfg, c, s, Assigned(cfg, c)[s])
  {
    VoteWasSent(cfg, c, r, s, Prepare, d, v);
    CorrectBoxJustified(cfg, c, v, VoteMessage(Prepare, v, s, d));
    var a :| a in c.nodes[v].approvals && a.seqNo == s;
    ApproverIsListed(cfg, c, v, a);
  }

  /** A replica holding a prepare certificate learns that f + 1 correct masters accepted the
      assigned body. */
  lemma PreparedMeansApproved(cfg: Config, c: System, r: nat, s: nat)
    requires Inv(cfg, c) && Correct(cfg, r) && Correct(cfg, cfg.primary) && IsPrepared(c.nodes[r], s)
    ensures s < |Assigned(cfg, c)|
    ensures |Approvers(cfg, c, s, Assigned(cfg, c)[s])| >= MaxFaulty(cfg.n) + 1
  {
    var f := MaxFaulty(cfg.n);
    ReplayValid(cfg.env, r, f, c.hist[r]);
    assert Certified(c.nodes[r], s, Prepare);
    var d :| |Voters(c.nodes[r], s, Prepare, d)| >= Threshold(f);
    var q := VoterSet(cfg, c, r, s, Prepare, d);
    QuorumHasCorrectMajority(q, cfg.faulty, f);
    forall v | v in q - cfg.faulty
      ensures s < |Assigned(cfg, c)| && v in Approvers(cfg, c, s, Assigned(cfg, c)[s])
    {
      VoterApproved(cfg, c, r, s, d, v);
    }
    assert q - cfg.faulty != {};
    var v :| v in q - cfg.faulty;
    SubsetSize(q - cfg.faulty, Approvers(cfg, c, s, Assigned(cfg, c)[s]));
  }

  /** A committed sequence number was prepared by some correct replica. */
  lemma CommittedMeansPrepared(cfg: Config, c: System, r: nat, s: nat) returns (v: nat)
    requires Inv(cfg, c) && Correct(cfg, r) && IsCommitted(c.nodes[r], s)
    ensures Correct(cfg, v) && IsPrepared(c.nodes[v], s)
  {
    var f := MaxFaulty(cfg.n);
    ReplayValid(cfg.env, r, f, c.hist[r]);
    assert Certified(c.nodes[r], s, Commit);
    var d :| |Voters(c.nodes[r], s, Commit, d)| >= Threshold(f);
    var q := VoterSet(cfg, c, r, s, Commit, d);
    QuorumHasCorrectMajority(q, cfg.faulty, f);
    assert q - cfg.faulty != {};
    v :| v in q - cfg.faulty;
    VoteWasSent(cfg, c, r, s, Commit, d, v);
    CorrectBoxJustified(cfg, c, v, VoteMessage(Commit, v, s, d));
  }

  lemma ExecutedInInv(cfg: Config, c: System, r: nat, x: Execution)
    requires Inv(cfg, c) && Correct(cfg, r) && Correct(cfg, cfg.primary) && x in c.nodes[r].executed
    ensures x.seqNo < |Assigned(cfg, c)| && x.body == Assigned(cfg, c)[x.seqNo]
    ensures |Approvers(cfg, c, x.seqNo, x.body)| >= MaxFaulty(cfg.n) + 1
  {
    ReplayValid(cfg.env, r, MaxFaulty(cfg.n), c.hist[r]);
    var i :| 0 <= i < |c.nodes[r].executed| && c.nodes[r].executed[i] == x;
    assert IsCommitted(c.nodes[r], x.seqNo) && Body(c.nodes[r], x.seqNo) == x.body;
    BodyIsAssigned(cfg, c, r, x.seqNo);
    var v := CommittedMeansPrepared(cfg, c, r, x.seqNo);
    PreparedMeansApproved(cfg, c, v, x.seqNo);
  }

  /** One of the approvals behind an execution. */
  lemma SomeApproval(cfg: Config, c: System, r: nat, x: Execution) returns (q: nat, a: Approval)
    requires Inv(cfg, c) && Correct(cfg, r) && Correct(cfg, cfg.primary) && x in c.nodes[r].executed
    ensures Correct(cfg, q) && a in c.nodes[q].approvals && a.seqNo == x.seqNo && a.body == x.body
    ensures a.history <= Bodies(c.nodes[q].executed) && cfg.env.check(a.history, a.body)
  {
    ExecutedInInv(cfg, c, r, x);
    var who := Approvers(cfg, c, x.seqNo, x.body);
    assert who != {};
    q :| q in who;
    assert Approves(c.nodes[q], x.seqNo, x.body);
    a :| a in c.nodes[q].approvals && a.seqNo == x.seqNo && a.body == x.body;
    ReplayValid(cfg.env, q, MaxFaulty(cfg.n), c.hist[q]);
  }

  /** Safety over every run, for every n, with a correct primary and at most f faulty replicas:
      what a correct replica executes for a sequence number is what the primary assigned to it, at
      least f + 1 correct masters had accepted it, and no number is executed twice. */
  lemma ExecutedBodiesAreAssigned(cfg: Config, run: seq<System>, i: nat, r: nat, k: nat)
    requires IsRun(cfg, run) && i < |run| && Correct(cfg, cfg.primary) && Correct(cfg, r)
    requires r < |run[i].nodes| && k < |run[i].nodes[r].executed|
    ensures Inv(cfg, run[i]) && var x := run[i].nodes[r].executed[k];
            && x.seqNo < |Assigned(cfg, run[i])| && x.body == Assigned(cfg, run[i])[x.seqNo]
            && |Approvers(cfg, run[i], x.seqNo, x.body)| >= MaxFaulty(cfg.n) + 1
            && (forall j :: 0 <= j < |run[i].nodes[r].executed| && run[i].nodes[r].executed[j].seqNo == x.seqNo ==> j == k)
  {
    RunInv(cfg, run, i);
    ReplayValid(cfg.env, r, MaxFaulty(cfg.n), run[i].hist[r]);
    ExecutedInInv(cfg, run[i], r, run[i].nodes[r].executed[k]);
  }

  /** Agreement: any two executions of a sequence number at correct replicas, at any two points of a
      run, are of the same body. */
  lemma ExecutionsAgree(cfg: Config, run: seq<System>, i: nat, j: nat, r1: nat, r2: nat, x1: Execution, x2: Execution)
    requires IsRun(cfg, run) && i <= j < |run| && Correct(cfg, cfg.primary) && Correct(cfg, r1) && Correct(cfg, r2)
    requires r1 < |run[i].nodes| && x1 in run[i].nodes[r1].executed
    requires r2 < |run[j].nodes| && x2 in run[j].nodes[r2].executed
    requires x1.seqNo == x2.seqNo
    ensures x1.body == x2.body
  {
    RunInv(cfg, run, i);
    RunInv(cfg, run, j);
    RunGrows(cfg, run, i, j, r1);
    ExecutedInInv(cfg, run[j], r1, x1);
    ExecutedInInv(cfg, run[j], r2, x2);
  }

  lemma HandleGrows(cfg: Config, c: System, k: nat, e: Event, r: nat)
    requires k < |c.nodes| == |c.hist| && r < |c.nodes|
    ensures Grows(c.nodes[r], HandleAt(cfg, c, k, e).nodes[r])
  {
    if k == r { InputGrows(cfg.env, c.nodes[r], e); } else { GrowsRefl(c.nodes[r]); }
  }

  ghost predicate Sized(cfg: Config, c: System) {
    |c.nodes| == cfg.n && |c.hist| == cfg.n
  }

  lemma StepGrows(cfg: Config, c: System, c': System, r: nat)
    requires Sized(cfg, c) && Next(cfg, c, c') && r < cfg.n
    ensures Sized(cfg, c') && Grows(c.nodes[r], c'.nodes[r])
  {
    var s :| Enabled(cfg, c, s) && c' == Do(cfg, c, s);
    GrowsRefl(c.nodes[r]);
    match s
    case Request(body) => HandleGrows(cfg, c, cfg.primary, Requested(body), r);
    case Deliver(p) => HandleGrows(cfg, c.(delivered := c.delivered + multiset{p}), p.dest, Received(p.msg), r);
    case Inject(_) =>
  }

  lemma StepGrowsFrom(cfg: Config, h: State, run: seq<System>, j: nat, r: nat)
    requires NextAt(cfg, run, j) && r < cfg.n && Sized(cfg, run[j - 1]) && Grows(h, run[j - 1].nodes[r])
    ensures Sized(cfg, run[j]) && Grows(h, run[j].nodes[r])
  {
    StepGrows(cfg, run[j - 1], run[j], r);
    GrowsTrans(h, run[j - 1].nodes[r], run[j].nodes[r]);
  }

  /** The two-state invariant between any two points of a run, at every replica. */
  lemma RunGrows(cfg: Config, run: seq<System>, i: nat, j: nat, r: nat)
    requires IsRun(cfg, run) && i <= j < |run| && r < cfg.n
    ensures r < |run[i].nodes| && r < |run[j].nodes| && Grows(run[i].nodes[r], run[j].nodes[r])
  {
    assert Sized(cfg, run[i]) by { RunInv(cfg, run, i); }
    var h := run[i].nodes[r];
    ghost var holds := (c: System) => Sized(cfg, c) && Grows(h, c.nodes[r]);
    GrowsRefl(h);
    forall k | i < k <= j && holds(run[k - 1]) ensures holds(run[k]) {
      assert NextAt(cfg, run, k);
      StepGrowsFrom(cfg, h, run, k, r);
    }
    HoldsFrom(holds, run, i, j);
  }

  // ---------- certificate uniqueness ----------

  /** A correct replica votes for one digest per sequence number. */
  lemma CorrectVotesOnce(cfg: Config, c: System, v: nat, s: nat, d1: string, d2: string)
    requires Inv(cfg, c) && Correct(cfg, v)
    requires VoteMessage(Prepare, v, s, d1) in BoxOf(cfg, c, v) && VoteMessage(Prepare, v, s, d2) in BoxOf(cfg, c, v)
    ensures d1 == d2
  {
    assert Outboxed(cfg.n, c.sent, v, BoxOf(cfg, c, v));
    var p1, p2 := Packet(VoteMessage(Prepare, v, s, d1), 0), Packet(VoteMessage(Prepare, v, s, d2), 0);
    assert p1 in c.sent && p2 in c.sent && SameSlot(p1, p2);
  }

  /** Certificate uniqueness over every run with n = 3f + 1, whether or not the primary sends
      different bodies to different replicas: no two correct replicas ever hold 2f + 1 prepare votes
      for different digests at the same sequence number. */
  lemma CertificatesAgree(cfg: Config, run: seq<System>, i: nat, r1: nat, r2: nat, s: nat, d1: string, d2: string)
    requires IsRun(cfg, run) && i < |run| && Correct(cfg, r1) && Correct(cfg, r2)
    requires cfg.n == 3 * MaxFaulty(cfg.n) + 1
    requires r1 < |run[i].nodes| && |Voters(run[i].nodes[r1], s, Prepare, d1)| >= Threshold(MaxFaulty(cfg.n))
    requires r2 < |run[i].nodes| && |Voters(run[i].nodes[r2], s, Prepare, d2)| >= Threshold(MaxFaulty(cfg.n))
    ensures d1 == d2
  {
    var c := run[i];
    RunInv(cfg, run, i);
    var q1 := VoterSet(cfg, c, r1, s, Prepare, d1);
    var q2 := VoterSet(cfg, c, r2, s, Prepare, d2);
    var v := QuorumsShareCorrect(cfg.n, cfg.faulty, q1, q2);
    VoteWasSent(cfg, c, r1, s, Prepare, d1, v);
    VoteWasSent(cfg, c, r2, s, Prepare, d2, v);
    CorrectVotesOnce(cfg, c, v, s, d1, d2);
  }
}
