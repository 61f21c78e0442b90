/** What the cluster has achieved once every packet between correct replicas has been delivered. */
module Completion {
  import opened Traces
  import opened Quorum
  import opened Replica
  import opened History
  import opened Justification
  import opened Cluster
  import opened Safety

  /** Nothing sent by a correct replica to a correct replica is still on its way. */
  ghost predicate Quiescent(cfg: Config, c: System) {
    forall p :: p in c.sent && Correct(cfg, p.msg.replicaId) && Correct(cfg, p.dest) ==> p in c.delivered
  }

  /** If the k-th input is a pre-prepare, the master accepts the body then held, on the bodies executed
      by then. */
  ghost predicate AcceptedAt(env: Env, id: nat, f: nat, evs: seq<Event>, k: nat)
    requires k < |evs|
  {
    evs[k].Received? && evs[k].m.mtype == Preprepare ==>
      env.check(Bodies(Replay(env, id, f, evs[..k]).executed), Body(Replay(env, id, f, evs[..k + 1]), evs[k].m.seqNo))
  }

  /** The masters of correct replicas accept whatever they are asked about. */
  ghost predicate AllAccepted(cfg: Config, c: System) {
    forall r: nat, k: nat :: Correct(cfg, r) && r < |c.hist| && k < |c.hist[r]| ==>
      AcceptedAt(cfg.env, r, MaxFaulty(cfg.n), c.hist[r], k)
  }

  /** Every correct replica has an approval for every number it has had a pre-prepare for. */
  ghost predicate AllApproved(cfg: Config, c: System) {
    forall r: nat, e: Event, s: nat {:trigger IsPreprepareFor(e, s), Correct(cfg, r)} ::
      Correct(cfg, r) && r < |c.hist| && r < |c.nodes| && e in c.hist[r] && IsPreprepareFor(e, s)
      ==> HasApproval(c.nodes[r], s)
  }

  ghost predicate Settled(cfg: Config, c: System) {
    Inv(cfg, c) && Quiescent(cfg, c) && AllAccepted(cfg, c) && Correct(cfg, cfg.primary)
  }

  lemma AcceptedInput(env: Env, h: State, e: Event, s: nat)
    requires IsPreprepareFor(e, s) && env.check(Bodies(h.executed), Body(Apply(env, h, e).state, s))
    ensures HasApproval(Apply(env, h, e).state, s)
  {
    PreprepareAnswer(env, h, e.m);
    var h' := Apply(env, h, e).state;
    assert h'.approvals[|h.approvals|] in h'.approvals;
  }

  lemma ApprovalStays(env: Env, id: nat, f: nat, evs: seq<Event>, s: nat, n: nat)
    requires n <= |evs| && HasApproval(Replay(env, id, f, evs[..n]), s)
    ensures HasApproval(Replay(env, id, f, evs), s)
  {
    ReplayGrows(env, id, f, evs, n);
    var a :| a in Replay(env, id, f, evs[..n]).approvals && a.seqNo == s;
    assert a in Replay(env, id, f, evs).approvals;
  }

  /** An accepted pre-prepare leaves an approval for good. */
  lemma AcceptedIsApproved(env: Env, id: nat, f: nat, evs: seq<Event>, s: nat, k: nat)
    requires k < |evs| && AcceptedAt(env, id, f, evs, k) && IsPreprepareFor(evs[k], s)
    ensures HasApproval(Replay(env, id, f, evs), s)
  {
    assert evs[..k + 1] == evs[..k] + [evs[k]];
    ReplayStep(env, id, f, evs[..k], evs[k]);
    AcceptedInput(env, Replay(env, id, f, evs[..k]), evs[k], s);
    ApprovalStays(env, id, f, evs, s, k + 1);
  }

  lemma ApprovingInput(env: Env, h: State, e: Event, s: nat)
    requires !HasApproval(h, s) && HasApproval(Apply(env, h, e).state, s)
    ensures IsPreprepareFor(e, s) && env.check(Bodies(h.executed), Body(Apply(env, h, e).state, s))
  {
  }

  lemma {:induction false} ApprovedWasAccepted(env: Env, id: nat, f: nat, evs: seq<Event>, s: nat) returns (k: nat)
    requires HasApproval(Replay(env, id, f, evs), s)
    ensures k < |evs| && IsPreprepareFor(evs[k], s) && AcceptedAt(env, id, f, evs, k)
  {
    var n := |evs| - 1;
    if HasApproval(Replay(env, id, f, evs[..n]), s) {
      k := ApprovedWasAccepted(env, id, f, evs[..n], s);
      assert evs[..n][..k] == evs[..k] && evs[..n][..k + 1] == evs[..k + 1];
    } else {
      k := n;
      ApprovingInput(env, Replay(env, id, f, evs[..n]), evs[n], s);
      assert evs[..n + 1] == evs;
    }
  }

  /** A correct replica hears one pre-prepare for a number. */
  lemma OnePreprepare(cfg: Config, c: System, r: nat, s: nat, j: nat, k: nat)
    requires Inv(cfg, c) && Correct(cfg, r) && j < |c.hist[r]| && k < |c.hist[r]|
    requires IsPreprepareFor(c.hist[r][j], s) && IsPreprepareFor(c.hist[r][k], s)
    ensures j == k
  {
    var a, b := Packet(c.hist[r][j].m, r), Packet(c.hist[r][k].m, r);
    assert Inbox(cfg, c, r);
    assert Received(a.msg) in c.hist[r] && Received(b.msg) in c.hist[r];
    assert a in c.delivered && b in c.delivered && c.delivered[a] <= c.sent[a] && c.delivered[b] <= c.sent[b];
    assert WellFormed(cfg, a) && WellFormed(cfg, b) && SameSlot(a, b);
  }

  lemma ApprovedMeansAccepted(cfg: Config, c: System, r: nat, k: nat)
    requires Inv(cfg, c) && AllApproved(cfg, c) && Correct(cfg, r) && k < |c.hist[r]|
    ensures AcceptedAt(cfg.env, r, MaxFaulty(cfg.n), c.hist[r], k)
  {
    var e := c.hist[r][k];
    if e.Received? && e.m.mtype == Preprepare {
      assert e in c.hist[r] && IsPreprepareFor(e, e.m.seqNo);
      var j := ApprovedWasAccepted(cfg.env, r, MaxFaulty(cfg.n), c.hist[r], e.m.seqNo);
      OnePreprepare(cfg, c, r, e.m.seqNo, j, k);
    }
  }

  /** Approvals are on record exactly where the masters' verdicts, each on the ledger of that moment, are
      favourable. */
  lemma ApprovedExactly(cfg: Config, c: System)
    requires Inv(cfg, c)
    ensures AllApproved(cfg, c) <==> AllAccepted(cfg, c)
  {
    if AllAccepted(cfg, c) {
      forall r: nat, e: Event, s: nat | Correct(cfg, r) && r < |c.hist| && r < |c.nodes| && e in c.hist[r] && IsPreprepareFor(e, s)
        ensures HasApproval(c.nodes[r], s)
      {
        var k :| 0 <= k < |c.hist[r]| && c.hist[r][k] == e;
        AcceptedIsApproved(cfg.env, r, MaxFaulty(cfg.n), c.hist[r], s, k);
      }
    }
    if AllApproved(cfg, c) {
      forall r: nat, k: nat | Correct(cfg, r) && r < |c.hist| && k < |c.hist[r]|
        ensures AcceptedAt(cfg.env, r, MaxFaulty(cfg.n), c.hist[r], k)
      {
        ApprovedMeansAccepted(cfg, c, r, k);
      }
    }
  }

  /** Whatever a correct replica broadcast has been handled by every correct replica. */
  lemma BroadcastsArrive(cfg: Config, c: System, v: nat, m: Message, r: nat)
    requires Settled(cfg, c) && Correct(cfg, v) && Correct(cfg, r) && m in BoxOf(cfg, c, v)
    ensures Received(m) in c.hist[r]
  {
    CorrectBoxJustified(cfg, c, v, m);
    assert Outboxed(cfg.n, c.sent, v, BoxOf(cfg, c, v)) && Inbox(cfg, c, r);
    assert Packet(m, r) in c.sent;
  }

  /** If every correct replica broadcast a vote for d, every correct replica has a certificate. */
  lemma VotesCertify(cfg: Config, c: System, s: nat, phase: MType, d: string, r: nat)
    requires Settled(cfg, c) && Correct(cfg, r) && phase != Preprepare
    requires forall v :: Correct(cfg, v) ==> VoteMessage(phase, v, s, d) in BoxOf(cfg, c, v)
    ensures Certified(c.nodes[r], s, phase)
  {
    var voters := Voters(c.nodes[r], s, phase, d);
    InboxHasNoBodies(cfg, c, r);
    forall v | v in Replicas(cfg.n) - cfg.faulty ensures v in voters {
      assert Correct(cfg, v);
      BroadcastsArrive(cfg, c, v, VoteMessage(phase, v, s, d), r);
      VotersAreReceived(cfg.env, r, MaxFaulty(cfg.n), c.hist[r], s, phase, d, v);
    }
    EnoughVoters(voters, Replicas(cfg.n) - cfg.faulty);
    CorrectReplicasReachThreshold(cfg.n, cfg.faulty);
    ReplayValid(cfg.env, r, MaxFaulty(cfg.n), c.hist[r]);
  }

  lemma AllVotePrepare(cfg: Config, c: System, s: nat, v: nat)
    requires Settled(cfg, c) && s < |Assigned(cfg, c)| && Correct(cfg, v)
    ensures VoteMessage(Prepare, v, s, cfg.env.digest(Assigned(cfg, c)[s])) in BoxOf(cfg, c, v)
  {
    var f, b := MaxFaulty(cfg.n), Assigned(cfg, c)[s];
    RequestsWereSent(cfg.env, cfg.primary, f, c.hist[cfg.primary], s);
    var pp := Message(Preprepare, cfg.primary, s, cfg.env.digest(b), b);
    BroadcastsArrive(cfg, c, cfg.primary, pp, v);
    assert IsPreprepareFor(Received(pp), s);
    ApprovedExactly(cfg, c);
    var m := ApprovalsWereSent(cfg.env, v, f, c.hist[v], s);
    PrepreparesAreAssigned(cfg, c, v, Received(m));
  }

  lemma AllPrepared(cfg: Config, c: System, s: nat, r: nat)
    requires Settled(cfg, c) && s < |Assigned(cfg, c)| && Correct(cfg, r)
    ensures IsPrepared(c.nodes[r], s)
  {
    var d := cfg.env.digest(Assigned(cfg, c)[s]);
    forall v | Correct(cfg, v) ensures VoteMessage(Prepare, v, s, d) in BoxOf(cfg, c, v) {
      AllVotePrepare(cfg, c, s, v);
    }
    VotesCertify(cfg, c, s, Prepare, d, r);
    ReplayValid(cfg.env, r, MaxFaulty(cfg.n), c.hist[r]);
  }

  lemma AllVoteCommit(cfg: Config, c: System, s: nat, v: nat)
    requires Settled(cfg, c) && s < |Assigned(cfg, c)| && Correct(cfg, v)
    ensures VoteMessage(Commit, v, s, cfg.env.digest("")) in BoxOf(cfg, c, v)
  {
    AllPrepared(cfg, c, s, v);
    InboxHasNoBodies(cfg, c, v);
    PreparedWasSent(cfg.env, v, MaxFaulty(cfg.n), c.hist[v], s);
  }

  lemma AllCertified(cfg: Config, c: System, s: nat, r: nat)
    requires Settled(cfg, c) && s < |Assigned(cfg, c)| && Correct(cfg, r)
    ensures Certified(c.nodes[r], s, Commit)
  {
    forall v | Correct(cfg, v) ensures VoteMessage(Commit, v, s, cfg.env.digest("")) in BoxOf(cfg, c, v) {
      AllVoteCommit(cfg, c, s, v);
    }
    VotesCertify(cfg, c, s, Commit, cfg.env.digest(""), r);
  }

  /** Replica v has broadcast the vote for d to everyone, once, and no other vote of that phase. */
  ghost predicate BroadcastExactly(cfg: Config, c: System, v: nat, s: nat, phase: MType, d: string) {
    forall p: Packet :: p.msg.mtype == phase && p.msg.replicaId == v && p.msg.seqNo == s && p.dest < cfg.n ==>
      c.sent[p] == if p.msg == VoteMessage(phase, v, s, d) then 1 else 0
  }

  lemma BoxMeansExactly(cfg: Config, c: System, v: nat, s: nat, phase: MType, d: string)
    requires Inv(cfg, c) && Correct(cfg, v) && VoteMessage(phase, v, s, d) in BoxOf(cfg, c, v)
    ensures BroadcastExactly(cfg, c, v, s, phase, d)
  {
    forall p: Packet | p.msg.mtype == phase && p.msg.replicaId == v && p.msg.seqNo == s && p.dest < cfg.n
      ensures c.sent[p] == if p.msg == VoteMessage(phase, v, s, d) then 1 else 0
    {
      var q := Packet(VoteMessage(phase, v, s, d), p.dest);
      assert Outboxed(cfg.n, c.sent, v, BoxOf(cfg, c, v));
      assert q in c.sent && SameSlot(p, q);
      assert c.sent[p] <= 1;
    }
  }

  /** Completion, for every n and any behaviour of at most f faulty replicas: when the traffic between
      correct replicas has been delivered and every master accepts what it is asked about, each correct
      replica has broadcast exactly one prepare and one commit for every assigned number, holds 2f+1
      commit votes, and has committed if and only if some commit message came after the body. */
  lemma CompletionAtQuiescence(cfg: Config, run: seq<System>, i: nat, s: nat, r: nat)
    requires IsRun(cfg, run) && i < |run| && Settled(cfg, run[i])
    requires s < |Assigned(cfg, run[i])| && Correct(cfg, r)
    ensures var c := run[i];
            && BroadcastExactly(cfg, c, r, s, Prepare, cfg.env.digest(Assigned(cfg, c)[s]))
            && BroadcastExactly(cfg, c, r, s, Commit, cfg.env.digest(""))
            && Certified(c.nodes[r], s, Commit)
            && (IsCommitted(c.nodes[r], s) <==>
                exists k :: CommitAfterBody(cfg.env, r, MaxFaulty(cfg.n), c.hist[r], s, k))
  {
    var c := run[i];
    AllVotePrepare(cfg, c, s, r);
    BoxMeansExactly(cfg, c, r, s, Prepare, cfg.env.digest(Assigned(cfg, c)[s]));
    AllVoteCommit(cfg, c, s, r);
    BoxMeansExactly(cfg, c, r, s, Commit, cfg.env.digest(""));
    AllCertified(cfg, c, s, r);
    InboxHasNoBodies(cfg, c, r);
    CommittedExactly(cfg.env, r, MaxFaulty(cfg.n), c.hist[r], s);
  }

  // ---------- the primary always commits ----------

  /** Faulty replicas speak only about numbers the primary has assigned, as crashed ones do. */
  ghost predicate BenignNext(cfg: Config, c: System, c': System) {
    exists s :: && Enabled(cfg, c, s) && c' == Do(cfg, c, s)
                && (s.Inject? ==> cfg.primary < |c.hist| && s.p.msg.seqNo < |Assigned(cfg, c)|)
  }

  ghost predicate BenignNextAt(cfg: Config, run: seq<System>, i: int) {
    0 < i < |run| && BenignNext(cfg, run[i - 1], run[i])
  }

  ghost predicate BenignRun(cfg: Config, run: seq<System>) {
    IsRun(cfg, run) && forall i :: 0 < i < |run| ==> BenignNextAt(cfg, run, i)
  }

  /** Every message in a history is about a number that had been requested before. */
  ghost predicate RequestsComeFirst(evs: seq<Event>) {
    forall k :: 0 <= k < |evs| && evs[k].Received? ==> evs[k].m.seqNo < |Requests(evs[..k])|
  }

  lemma RequestsComeFirstStep(evs: seq<Event>, e: Event)
    requires RequestsComeFirst(evs) && (e.Received? ==> e.m.seqNo < |Requests(evs)|)
    ensures RequestsComeFirst(evs + [e]) && |Requests(evs)| <= |Requests(evs + [e])|
  {
    var evs' := evs + [e];
    assert evs'[..|evs|] == evs;
    forall k | 0 <= k < |evs'| && evs'[k].Received? ensures evs'[k].m.seqNo < |Requests(evs'[..k])| {
      assert k < |evs| ==> evs'[..k] == evs[..k] && evs'[k] == evs[k];
    }
  }

  lemma {:induction false} RequestsGrow(evs: seq<Event>, k: nat)
    requires k <= |evs|
    ensures |Requests(evs[..k])| <= |Requests(evs)|
    decreases |evs|
  {
    if k < |evs| {
      assert evs[..|evs| - 1][..k] == evs[..k];
      RequestsGrow(evs[..|evs| - 1], k);
    } else {
      assert evs[..k] == evs;
    }
  }

  lemma RequestsComeFirstPrefix(evs: seq<Event>, n: nat)
    requires RequestsComeFirst(evs) && n <= |evs|
    ensures RequestsComeFirst(evs[..n])
    ensures forall i :: 0 <= i < n && evs[i].Received? ==> evs[i].m.seqNo < |Requests(evs[..n])|
  {
    forall i | 0 <= i < n && evs[i].Received?
      ensures evs[..n][i].m.seqNo < |Requests(evs[..n][..i])| <= |Requests(evs[..n])|
    {
      assert evs[..n][..i] == evs[..i];
      RequestsGrow(evs[..n], i);
    }
  }

  lemma RequestedFirstExtends(env: Env, id: nat, f: nat, evs: seq<Event>, s: nat, k: nat, n: nat)
    requires n <= |evs| && RequestedFirst(env, id, f, evs[..n], s, k)
    ensures RequestedFirst(env, id, f, evs, s, k)
  {
    assert evs[..n][..k] == evs[..k];
    assert forall i :: 0 <= i < n ==> evs[..n][i] == evs[i];
  }

  lemma {:induction false} FindRequest(env: Env, id: nat, f: nat, evs: seq<Event>, s: nat) returns (k: nat)
    requires RequestsComeFirst(evs) && s < |Requests(evs)|
    requires forall e :: e in evs && e.Requested? ==> e.body != ""
    ensures RequestedFirst(env, id, f, evs, s, k)
  {
    var n := |evs| - 1;
    RequestsComeFirstPrefix(evs, n);
    assert evs[n] in evs;
    RequestsCounted(env, id, f, evs[..n]);
    if s < |Requests(evs[..n])| {
      k := FindRequest(env, id, f, evs[..n], s);
      RequestedFirstExtends(env, id, f, evs, s, k, n);
    } else {
      k := n;
    }
  }

  ghost predicate SpeaksOfAssigned(cfg: Config, c: System) {
    && cfg.primary < |c.hist| && RequestsComeFirst(c.hist[cfg.primary])
    && forall p :: p in c.sent ==> p.msg.seqNo < |Assigned(cfg, c)|
  }

  ghost predicate BenignInv(cfg: Config, c: System) {
    Inv(cfg, c) && Correct(cfg, cfg.primary) && SpeaksOfAssigned(cfg, c)
  }

  /** A correct replica speaks about a number only after hearing about it or numbering it. */
  lemma EmittedSeqNo(env: Env, h: State, e: Event)
    ensures Apply(env, h, e).sent.Some? ==>
              Apply(env, h, e).sent.value.seqNo == if e.Requested? then h.nextSeq else e.m.seqNo
  {
  }

  lemma HandleAssigns(cfg: Config, c: System, r: nat, e: Event)
    requires cfg.primary < |c.hist| && RequestsComeFirst(c.hist[cfg.primary]) && r < |c.hist| && r < |c.nodes|
    requires e.Received? ==> e.m.seqNo < |Assigned(cfg, c)|
    ensures var c' := HandleAt(cfg, c, r, e);
            && RequestsComeFirst(c'.hist[cfg.primary])
            && |Assigned(cfg, c')| == |Assigned(cfg, c)| + if r == cfg.primary && e.Requested? then 1 else 0
  {
    if r == cfg.primary {
      RequestsComeFirstStep(c.hist[r], e);
      assert (c.hist[r] + [e])[..|c.hist[r]|] == c.hist[r];
    }
  }

  lemma HandleKeepsBenign(cfg: Config, c: System, r: nat, e: Event)
    requires BenignInv(cfg, c) && Correct(cfg, r)
    requires e.Requested? ==> r == cfg.primary
    requires e.Received? ==> e.m.seqNo < |Assigned(cfg, c)|
    ensures SpeaksOfAssigned(cfg, HandleAt(cfg, c, r, e))
  {
    var c', o := HandleAt(cfg, c, r, e), Apply(cfg.env, c.nodes[r], e).sent;
    EmittedSeqNo(cfg.env, c.nodes[r], e);
    RequestsCounted(cfg.env, r, MaxFaulty(cfg.n), c.hist[r]);
    HandleAssigns(cfg, c, r, e);
    forall p | p in c'.sent ensures p.msg.seqNo < |Assigned(cfg, c')| {
      assert p in c.sent || (o.Some? && p.msg == o.value);
    }
  }

  lemma BenignStep(cfg: Config, c: System, s: Step)
    requires BenignInv(cfg, c) && Enabled(cfg, c, s) && (s.Inject? ==> s.p.msg.seqNo < |Assigned(cfg, c)|)
    ensures SpeaksOfAssigned(cfg, Do(cfg, c, s))
  {
    match s
    case Request(body) => HandleKeepsBenign(cfg, c, cfg.primary, Requested(body));
    case Deliver(p) =>
      if Correct(cfg, p.dest) {
        HandleKeepsBenign(cfg, c, p.dest, Received(p.msg));
        var c'' := HandleAt(cfg, c, p.dest, Received(p.msg));
        assert Do(cfg, c, s).sent == c''.sent && Do(cfg, c, s).hist == c''.hist;
      }
    case Inject(p) =>
  }

  lemma BenignNextKeepsInv(cfg: Config, c: System, c': System)
    requires BenignInv(cfg, c) && BenignNext(cfg, c, c')
    ensures BenignInv(cfg, c')
  {
    var s :| Enabled(cfg, c, s) && c' == Do(cfg, c, s)
             && (s.Inject? ==> cfg.primary < |c.hist| && s.p.msg.seqNo < |Assigned(cfg, c)|);
    BenignStep(cfg, c, s);
    NextKeepsInv(cfg, c, c');
  }

  lemma BenignRunStart(cfg: Config, run: seq<System>)
    requires BenignRun(cfg, run) && Correct(cfg, cfg.primary)
    ensures BenignInv(cfg, run[0])
  {
    InitInv(cfg);
  }

  lemma BenignRunStep(cfg: Config, run: seq<System>, i: nat)
    requires BenignRun(cfg, run) && 0 < i < |run| && BenignInv(cfg, run[i - 1])
    ensures BenignInv(cfg, run[i])
  {
    assert BenignNextAt(cfg, run, i);
    BenignNextKeepsInv(cfg, run[i - 1], run[i]);
  }

  lemma BenignRunInv(cfg: Config, run: seq<System>, i: nat)
    requires BenignRun(cfg, run) && Correct(cfg, cfg.primary) && i < |run|
    ensures BenignInv(cfg, run[i])
  {
    ghost var holds := (c: System) => BenignInv(cfg, c);
    BenignRunStart(cfg, run);
    forall k | 0 < k < |run| && holds(run[k - 1]) ensures holds(run[k]) {
      BenignRunStep(cfg, run, k);
    }
    HoldsAlong(holds, run, i);
  }

  /** GetRequest is always released: with at most f replicas crashed, the primary commits every
      number it has assigned once the surviving traffic is delivered. */
  lemma PrimaryCommits(cfg: Config, run: seq<System>, i: nat, s: nat)
    requires BenignRun(cfg, run) && i < |run| && Settled(cfg, run[i]) && s < |Assigned(cfg, run[i])|
    ensures IsCommitted(run[i].nodes[cfg.primary], s)
    ensures Body(run[i].nodes[cfg.primary], s) == Assigned(cfg, run[i])[s]
  {
    var c, r, f := run[i], cfg.primary, MaxFaulty(cfg.n);
    BenignRunInv(cfg, run, i);
    InboxHasNoBodies(cfg, c, r);
    assert Inbox(cfg, c, r);
    var k := FindRequest(cfg.env, r, f, c.hist[r], s);
    AllCertified(cfg, c, s, r);
    RequesterCommitsOnQuorum(cfg.env, r, f, c.hist[r], s, k);
    BodyIsAssigned(cfg, c, r, s);
  }
}
