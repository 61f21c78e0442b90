/** A vote about a number the primary has not assigned yet creates the primary's proposal without a body,
    and Preprepare then does not fill it in. The body comes back with the primary's own pre-prepare, and
    if the commit messages are faster than that, the number is never committed there and GetRequest
    never returns. */
module StrayVote {
  import opened Quorum
  import opened Replica
  import opened History
  import opened Justification
  import opened Cluster
  import opened Safety
  import opened Completion
  import opened Runs

  /** The traffic between correct replicas is delivered and every check has accepted, but the primary has
      not committed number s, which it assigned. */
  ghost predicate StuckAt(cfg: Config, c: System, s: nat) {
    Settled(cfg, c) && s < |Assigned(cfg, c)| && !IsCommitted(c.nodes[cfg.primary], s)
  }

  /** That never happens, whatever faulty replicas say. */
  ghost predicate PrimaryAlwaysCommits(cfg: Config) {
    forall c: System, s: nat :: Reach(cfg, c) ==> !StuckAt(cfg, c, s)
  }

  // ---------- a proposal that waits for its body ----------

  /** The proposal exists, without a body. */
  predicate Blank(h: State, s: nat) {
    s in h.proposals && h.proposals[s].body == ""
  }

  predicate IsVote(e: Event) {
    e.Received? && e.m.mtype != Preprepare && e.m.body == ""
  }

  lemma VoteLeavesBlank(env: Env, h: State, e: Event, s: nat)
    requires Blank(h, s) && IsVote(e)
    ensures Blank(Apply(env, h, e).state, s)
  {
    if s != Touched(h, e) { InputTouchesOne(env, h, e, s); }
  }

  lemma {:induction false} VotesLeaveBlank(env: Env, id: nat, f: nat, evs: seq<Event>, evs': seq<Event>, s: nat)
    requires evs <= evs' && Blank(Replay(env, id, f, evs), s)
    requires forall k :: |evs| <= k < |evs'| ==> IsVote(evs'[k])
    ensures Blank(Replay(env, id, f, evs'), s)
  {
    if |evs'| > |evs| {
      var n := |evs'| - 1;
      VotesLeaveBlank(env, id, f, evs, evs'[..n], s);
      VoteLeavesBlank(env, Replay(env, id, f, evs'[..n]), evs'[n], s);
    } else {
      assert evs == evs';
    }
  }

  lemma OtherInputsDoNotCommit(env: Env, h: State, e: Event, s: nat)
    requires !IsCommitted(h, s) && !IsCommitFor(e, s)
    ensures !IsCommitted(Apply(env, h, e).state, s)
  {
    if s != Touched(h, e) { InputTouchesOne(env, h, e, s); }
  }

  /** Only a commit message for s commits s. */
  lemma {:induction false} NothingElseCommits(env: Env, id: nat, f: nat, evs: seq<Event>, evs': seq<Event>, s: nat)
    requires evs <= evs' && !IsCommitted(Replay(env, id, f, evs), s)
    requires forall k :: |evs| <= k < |evs'| ==> !IsCommitFor(evs'[k], s)
    ensures !IsCommitted(Replay(env, id, f, evs'), s)
  {
    if |evs'| > |evs| {
      var n := |evs'| - 1;
      NothingElseCommits(env, id, f, evs, evs'[..n], s);
      OtherInputsDoNotCommit(env, Replay(env, id, f, evs'[..n]), evs'[n], s);
    } else {
      assert evs == evs';
    }
  }

  lemma {:induction false} RequestsUnchanged(evs: seq<Event>, evs': seq<Event>)
    requires evs <= evs' && forall k :: |evs| <= k < |evs'| ==> evs'[k].Received?
    ensures Requests(evs') == Requests(evs)
  {
    if |evs'| > |evs| {
      RequestsUnchanged(evs, evs'[..|evs'| - 1]);
    } else {
      assert evs == evs';
    }
  }

  // ---------- the run ----------

  /** A correct primary, a faulty replica z, and a body that masters accept to begin with. */
  ghost predicate Scene(cfg: Config, z: nat, body: string) {
    ValidConfig(cfg) && Correct(cfg, cfg.primary) && z in cfg.faulty && body != "" && cfg.env.check([], body)
  }

  function Stray(cfg: Config, z: nat, body: string): Message {
    VoteMessage(Prepare, z, 0, cfg.env.digest(body))
  }

  function Announcement(cfg: Config, body: string): Message {
    Message(Preprepare, cfg.primary, 0, cfg.env.digest(body), body)
  }

  /** The stray vote has come to the primary before the request; the correct backups below k have handled
      the pre-prepare and nothing else, the others nothing. */
  ghost predicate Started(cfg: Config, z: nat, body: string, c: System, k: nat) {
    && Reach(cfg, c) && |c.hist| == cfg.n
    && (forall p :: p in VotesToAll(cfg, {z}, Prepare, 0, cfg.env.digest(body)) ==> p in c.sent)
    && (forall r :: 0 <= r < cfg.n ==> Packet(Announcement(cfg, body), r) in c.sent)
    && c.hist[cfg.primary] == [Received(Stray(cfg, z, body)), Requested(body)]
    && forall v: nat :: Correct(cfg, v) && v != cfg.primary ==>
         c.hist[v] == if v < k then [Received(Announcement(cfg, body))] else []
  }

  lemma StrayArrives(cfg: Config, z: nat, body: string) returns (c: System)
    requires Scene(cfg, z, body)
    ensures Reach(cfg, c) && |c.hist| == cfg.n
    ensures forall p :: p in VotesToAll(cfg, {z}, Prepare, 0, cfg.env.digest(body)) ==> p in c.sent
    ensures forall v: nat :: Correct(cfg, v) ==>
              c.hist[v] == if v == cfg.primary then [Received(Stray(cfg, z, body))] else []
  {
    var ps := VotesToAll(cfg, {z}, Prepare, 0, cfg.env.digest(body));
    ReachStart(cfg);
    assert MayInjectAll(cfg, InitSystem(cfg), ps);
    var c0 := InjectAll(cfg, InitSystem(cfg), ps);
    var p := Packet(Stray(cfg, z, body), cfg.primary);
    assert p in ps;
    c := DeliverOne(cfg, c0, p);
  }

  lemma StrayAndRequest(cfg: Config, z: nat, body: string)
    requires Scene(cfg, z, body)
    ensures var f, evs := MaxFaulty(cfg.n), [Received(Stray(cfg, z, body))];
            && Apply(cfg.env, Replay(cfg.env, cfg.primary, f, evs), Requested(body)).sent == Some(Announcement(cfg, body))
            && Blank(Replay(cfg.env, cfg.primary, f, evs + [Requested(body)]), 0)
            && Requests(evs + [Requested(body)]) == [body]
  {
    var f, none := MaxFaulty(cfg.n), [];
    var evs := none + [Received(Stray(cfg, z, body))];
    ReplayStep(cfg.env, cfg.primary, f, none, Received(Stray(cfg, z, body)));
    ReplayStep(cfg.env, cfg.primary, f, evs, Requested(body));
    assert evs == [Received(Stray(cfg, z, body))];
    assert (evs + [Requested(body)])[..1] == evs && evs[..0] == none;
    assert Requests(evs) == [];
  }

  lemma RequestStep(cfg: Config, c: System, body: string)
    requires Inv(cfg, c) && Correct(cfg, cfg.primary) && body != ""
    ensures Enabled(cfg, c, Request(body))
    ensures var c', r := Do(cfg, c, Request(body)), cfg.primary;
            && c'.hist == c.hist[r := c.hist[r] + [Requested(body)]]
            && c'.sent == c.sent + BroadcastAll(cfg.n, Apply(cfg.env, Replay(cfg.env, r, MaxFaulty(cfg.n), c.hist[r]), Requested(body)).sent)
  {
  }

  lemma RequestAnnounces(cfg: Config, z: nat, body: string, c: System)
    requires Scene(cfg, z, body) && Inv(cfg, c) && c.hist[cfg.primary] == [Received(Stray(cfg, z, body))]
    ensures Enabled(cfg, c, Request(body))
    ensures var c' := Do(cfg, c, Request(body));
            && c'.hist == c.hist[cfg.primary := [Received(Stray(cfg, z, body)), Requested(body)]]
            && c'.sent == c.sent + Broadcast(cfg.n, Announcement(cfg, body))
  {
    RequestStep(cfg, c, body);
    StrayAndRequest(cfg, z, body);
    assert [Received(Stray(cfg, z, body))] + [Requested(body)] == [Received(Stray(cfg, z, body)), Requested(body)];
  }

  lemma RequestComes(cfg: Config, z: nat, body: string, c: System) returns (c': System)
    requires Scene(cfg, z, body) && Reach(cfg, c) && |c.hist| == cfg.n
    requires forall p :: p in VotesToAll(cfg, {z}, Prepare, 0, cfg.env.digest(body)) ==> p in c.sent
    requires forall v: nat :: Correct(cfg, v) ==>
               c.hist[v] == if v == cfg.primary then [Received(Stray(cfg, z, body))] else []
    ensures Started(cfg, z, body, c', 0)
  {
    assert Enabled(cfg, c, Request(body)) by {
      ReachInv(cfg, c);
      RequestAnnounces(cfg, z, body, c);
    }
    ReachStep(cfg, c, Request(body));
    c' := Do(cfg, c, Request(body));
    assert c'.hist == c.hist[cfg.primary := [Received(Stray(cfg, z, body)), Requested(body)]]
           && c'.sent == c.sent + Broadcast(cfg.n, Announcement(cfg, body)) by {
      ReachInv(cfg, c);
      RequestAnnounces(cfg, z, body, c);
    }
  }

  lemma StartNext(cfg: Config, z: nat, body: string, c: System, k: nat) returns (c': System)
    requires Scene(cfg, z, body) && Started(cfg, z, body, c, k) && k < cfg.n
    ensures Started(cfg, z, body, c', k + 1)
  {
    if Correct(cfg, k) && k != cfg.primary {
      var p := Packet(Announcement(cfg, body), k);
      assert p !in c.delivered by {
        ReachInv(cfg, c);
        DeliveredIsHandled(cfg, c, p.msg, k);
      }
      c' := DeliverOne(cfg, c, p);
    } else {
      c' := c;
    }
  }

  lemma StartAll(cfg: Config, z: nat, body: string) returns (c: System)
    requires Scene(cfg, z, body)
    ensures Started(cfg, z, body, c, cfg.n)
  {
    c := StrayArrives(cfg, z, body);
    c := RequestComes(cfg, z, body, c);
    for k := 0 to cfg.n
      invariant Started(cfg, z, body, c, k)
    {
      c := StartNext(cfg, z, body, c, k);
    }
  }

  ghost function Prepares(cfg: Config, vs: set<nat>, body: string): set<Packet> {
    VotesToAll(cfg, vs, Prepare, 0, cfg.env.digest(body))
  }

  ghost function Commits(cfg: Config): set<Packet> {
    VotesToAll(cfg, CorrectSet(cfg), Commit, 0, cfg.env.digest(""))
  }

  lemma BackupHasVoted(cfg: Config, z: nat, body: string, c: System, v: nat, r: nat)
    requires Scene(cfg, z, body) && Started(cfg, z, body, c, cfg.n) && Correct(cfg, v) && v != cfg.primary && r < cfg.n
    ensures Packet(VoteMessage(Prepare, v, 0, cfg.env.digest(body)), r) in c.sent
  {
    ReachInv(cfg, c);
    FirstPreprepareIsVotedFor(cfg.env, v, MaxFaulty(cfg.n), Announcement(cfg, body));
    BoxIsSent(cfg, c, v, VoteMessage(Prepare, v, 0, cfg.env.digest(body)), r);
  }

  /** The backups prepare with the stray vote in place of the primary's, and so does the primary. */
  lemma BackupsPrepare(cfg: Config, z: nat, body: string, c: System) returns (c': System)
    requires Scene(cfg, z, body) && Started(cfg, z, body, c, cfg.n)
    ensures Reach(cfg, c') && CertifiedEverywhere(cfg, c', 0, Prepare)
    ensures Later(c, c', Prepares(cfg, CorrectSet(cfg) - {cfg.primary} + {z}, body))
  {
    var vs, d := CorrectSet(cfg) - {cfg.primary} + {z}, cfg.env.digest(body);
    OneMissingOneFaulty(cfg, cfg.primary, z);
    forall p | p in Prepares(cfg, vs, body) ensures p in c.sent {
      var v := p.msg.replicaId;
      assert p == Packet(VoteMessage(Prepare, v, 0, d), p.dest);
      if v == z {
        assert p in VotesToAll(cfg, {z}, Prepare, 0, d);
      } else {
        BackupHasVoted(cfg, z, body, c, v, p.dest);
      }
    }
    c' := DeliverVotes(cfg, c, vs, Prepare, 0, d);
  }

  /** All but the primary's own pre-prepare is delivered, and the primary's proposal is still blank. */
  ghost predicate AllButOne(cfg: Config, z: nat, body: string, c: System) {
    && Inv(cfg, c) && Reach(cfg, c) && Blank(c.nodes[cfg.primary], 0) && Assigned(cfg, c) == [body]
    && (forall p :: p in Prepares(cfg, CorrectSet(cfg) - {cfg.primary}, body) ==> p in c.delivered)
    && (forall p :: p in Commits(cfg) ==> p in c.delivered)
    && (forall r :: 0 <= r < cfg.n ==> Packet(Announcement(cfg, body), r) in c.sent)
    && (forall r: nat :: Correct(cfg, r) && r != cfg.primary ==> Packet(Announcement(cfg, body), r) in c.delivered)
    && Packet(Announcement(cfg, body), cfg.primary) !in c.delivered
  }

  lemma PrimaryStaysBlank(cfg: Config, z: nat, body: string, c: System, c': System, ps: set<Packet>)
    requires Scene(cfg, z, body) && Started(cfg, z, body, c, cfg.n) && Reach(cfg, c') && Later(c, c', ps)
    requires forall p :: p in ps ==> p.msg.mtype != Preprepare && p.msg.body == ""
    ensures Inv(cfg, c') && Blank(c'.nodes[cfg.primary], 0) && Assigned(cfg, c') == [body]
    ensures Packet(Announcement(cfg, body), cfg.primary) !in c'.delivered
  {
    var r, f := cfg.primary, MaxFaulty(cfg.n);
    var evs, evs' := c.hist[r], c'.hist[r];
    ReachInv(cfg, c');
    StrayAndRequest(cfg, z, body);
    assert evs == [Received(Stray(cfg, z, body))] + [Requested(body)];
    assert AddsOnly(evs, evs', ps, r);
    forall k | |evs| <= k < |evs'| ensures IsVote(evs'[k]) {
      assert Packet(evs'[k].m, r) in ps;
    }
    VotesLeaveBlank(cfg.env, r, f, evs, evs', 0);
    RequestsUnchanged(evs, evs');
    DeliveredIsHandled(cfg, c', Announcement(cfg, body), r);
  }

  lemma BackupHasHeard(cfg: Config, z: nat, body: string, c: System, r: nat)
    requires Scene(cfg, z, body) && Started(cfg, z, body, c, cfg.n) && Correct(cfg, r) && r != cfg.primary
    ensures Packet(Announcement(cfg, body), r) in c.delivered
  {
    ReachInv(cfg, c);
    DeliveredIsHandled(cfg, c, Announcement(cfg, body), r);
  }

  lemma CommitsOvertake(cfg: Config, z: nat, body: string) returns (c: System)
    requires Scene(cfg, z, body)
    ensures AllButOne(cfg, z, body, c)
  {
    var vs := CorrectSet(cfg) - {cfg.primary} + {z};
    var c0 := StartAll(cfg, z, body);
    var c1 := BackupsPrepare(cfg, z, body, c0);
    c := DeliverCommits(cfg, c1, 0);
    LaterTrans(c0, c1, c, Prepares(cfg, vs, body), Commits(cfg));
    PrimaryStaysBlank(cfg, z, body, c0, c, Prepares(cfg, vs, body) + Commits(cfg));
    forall r: nat | Correct(cfg, r) && r != cfg.primary ensures Packet(Announcement(cfg, body), r) in c.delivered {
      BackupHasHeard(cfg, z, body, c0, r);
    }
  }

  /** The primary, which has executed nothing, accepts its own pre-prepare when it comes at last. */
  lemma LateBodyIsVotedFor(env: Env, h: State, m: Message)
    requires m.mtype == Preprepare && Blank(h, m.seqNo) && h.executed == [] && env.check([], m.body)
    requires !IsCommitted(h, m.seqNo)
    ensures var o := Apply(env, h, Received(m));
            o.sent == Some(VoteMessage(Prepare, h.id, m.seqNo, env.digest(m.body))) && !IsCommitted(o.state, m.seqNo)
  {
    assert Bodies(h.executed) == [];
  }

  lemma BlankExecutedNothing(cfg: Config, z: nat, body: string, c: System)
    requires Scene(cfg, z, body) && AllButOne(cfg, z, body, c)
    ensures c.nodes[cfg.primary].executed == [] && !IsCommitted(c.nodes[cfg.primary], 0)
    ensures c.nodes[cfg.primary].id == cfg.primary
  {
    var h := c.nodes[cfg.primary];
    ReplayValid(cfg.env, cfg.primary, MaxFaulty(cfg.n), c.hist[cfg.primary]);
    assert Body(h, 0) == "";
    assert !IsCommitted(h, 0);
    if h.executed != [] {
      var x := h.executed[0];
      assert IsCommitted(h, x.seqNo);
      ExecutedInInv(cfg, c, cfg.primary, x);
    }
  }

  lemma BodyComesLate(cfg: Config, z: nat, body: string, c: System) returns (c': System)
    requires Scene(cfg, z, body) && AllButOne(cfg, z, body, c)
    ensures Reach(cfg, c') && Later(c, c', {Packet(Announcement(cfg, body), cfg.primary)})
    ensures Inv(cfg, c') && !IsCommitted(c'.nodes[cfg.primary], 0)
    ensures forall r :: 0 <= r < cfg.n ==> Packet(VoteMessage(Prepare, cfg.primary, 0, cfg.env.digest(body)), r) in c'.sent
  {
    var r, m, f := cfg.primary, Announcement(cfg, body), MaxFaulty(cfg.n);
    BlankExecutedNothing(cfg, z, body, c);
    c' := DeliverOne(cfg, c, Packet(m, r));
    ReachInv(cfg, c');
    LateBodyIsVotedFor(cfg.env, c.nodes[r], m);
    ReplayStep(cfg.env, r, f, c.hist[r], Received(m));
    OutboxStep(cfg.env, r, f, c.hist[r], Received(m));
    forall q | 0 <= q < cfg.n ensures Packet(VoteMessage(Prepare, r, 0, cfg.env.digest(body)), q) in c'.sent {
      BoxIsSent(cfg, c', r, VoteMessage(Prepare, r, 0, cfg.env.digest(body)), q);
    }
  }

  // ---------- nothing is left to deliver ----------

  /** Everything a correct replica can have sent about the one number has been delivered. */
  ghost predicate AllDelivered(cfg: Config, body: string, c: System) {
    && (forall p :: p in Prepares(cfg, CorrectSet(cfg), body) ==> p in c.delivered)
    && (forall p :: p in Commits(cfg) ==> p in c.delivered)
    && (forall r: nat :: Correct(cfg, r) ==> Packet(Announcement(cfg, body), r) in c.delivered)
  }

  lemma OnlyAboutTheNumber(cfg: Config, body: string, c: System, v: nat, m: Message)
    requires Inv(cfg, c) && Correct(cfg, cfg.primary) && Assigned(cfg, c) == [body]
    requires Correct(cfg, v) && m in BoxOf(cfg, c, v)
    ensures m == Announcement(cfg, body) || m == VoteMessage(Prepare, v, 0, cfg.env.digest(body))
            || m == VoteMessage(Commit, v, 0, cfg.env.digest(""))
  {
    CorrectBoxJustified(cfg, c, v, m);
    match m.mtype
    case Preprepare =>
      BoxIsSent(cfg, c, v, m, 0);
      assert WellFormed(cfg, Packet(m, 0));
    case Prepare =>
      var e :| e in c.hist[v] && IsPreprepareFor(e, m.seqNo) && cfg.env.digest(e.m.body) == m.digest;
      PrepreparesAreAssigned(cfg, c, v, e);
    case Commit =>
      PreparedMeansApproved(cfg, c, v, m.seqNo);
  }

  lemma ThenQuiescent(cfg: Config, body: string, c: System)
    requires Inv(cfg, c) && Correct(cfg, cfg.primary) && Assigned(cfg, c) == [body] && AllDelivered(cfg, body, c)
    ensures Quiescent(cfg, c)
  {
    forall p | p in c.sent && Correct(cfg, p.msg.replicaId) && Correct(cfg, p.dest) ensures p in c.delivered {
      var v := p.msg.replicaId;
      assert p == Packet(p.msg, p.dest);
      BoxIsSent(cfg, c, v, p.msg, p.dest);
      OnlyAboutTheNumber(cfg, body, c, v, p.msg);
      if p.msg.mtype == Prepare { assert p in Prepares(cfg, CorrectSet(cfg), body); }
      if p.msg.mtype == Commit { assert p in Commits(cfg); }
    }
  }

  lemma VoterHasApproved(cfg: Config, c: System, r: nat, d: string)
    requires Inv(cfg, c) && Correct(cfg, r) && Packet(VoteMessage(Prepare, r, 0, d), r) in c.delivered
    ensures HasApproval(c.nodes[r], 0)
  {
    var vote := VoteMessage(Prepare, r, 0, d);
    assert c.delivered <= c.sent;
    BoxIsSent(cfg, c, r, vote, r);
    CorrectBoxJustified(cfg, c, r, vote);
  }

  lemma ThenAllApproved(cfg: Config, body: string, c: System)
    requires Inv(cfg, c) && Correct(cfg, cfg.primary) && Assigned(cfg, c) == [body] && AllDelivered(cfg, body, c)
    ensures AllApproved(cfg, c)
  {
    forall r: nat, e: Event, s: nat | Correct(cfg, r) && r < |c.hist| && r < |c.nodes| && e in c.hist[r] && IsPreprepareFor(e, s)
      ensures HasApproval(c.nodes[r], s)
    {
      PrepreparesAreAssigned(cfg, c, r, e);
      assert Packet(VoteMessage(Prepare, r, 0, cfg.env.digest(body)), r) in Prepares(cfg, CorrectSet(cfg), body);
      VoterHasApproved(cfg, c, r, cfg.env.digest(body));
    }
  }

  /** Until the end the primary hears only votes after its body, and no commit message among them. */
  lemma StaysUncommitted(cfg: Config, body: string, c0: System, c: System, c': System, ps: set<Packet>)
    requires ValidConfig(cfg) && Inv(cfg, c0) && Inv(cfg, c) && Inv(cfg, c') && Assigned(cfg, c0) == [body]
    requires Later(c0, c, {Packet(Announcement(cfg, body), cfg.primary)}) && Later(c, c', ps)
    requires forall p :: p in ps ==> p.msg.mtype == Prepare
    requires !IsCommitted(c.nodes[cfg.primary], 0)
    ensures !IsCommitted(c'.nodes[cfg.primary], 0) && Assigned(cfg, c') == [body]
  {
    var r, f := cfg.primary, MaxFaulty(cfg.n);
    assert AddsOnly(c0.hist[r], c.hist[r], {Packet(Announcement(cfg, body), r)}, r);
    assert AddsOnly(c.hist[r], c'.hist[r], ps, r);
    NothingElseCommits(cfg.env, r, f, c.hist[r], c'.hist[r], 0);
    RequestsUnchanged(c0.hist[r], c.hist[r]);
    RequestsUnchanged(c.hist[r], c'.hist[r]);
  }

  lemma ThenAllDelivered(cfg: Config, z: nat, body: string, c0: System, c: System, c': System)
    requires Scene(cfg, z, body) && AllButOne(cfg, z, body, c0)
    requires Later(c0, c, {Packet(Announcement(cfg, body), cfg.primary)}) && Later(c, c', Prepares(cfg, {cfg.primary}, body))
    ensures AllDelivered(cfg, body, c')
  {
    assert c0.delivered <= c.delivered <= c'.delivered;
    forall p | p in Prepares(cfg, CorrectSet(cfg), body) ensures p in c'.delivered {
      assert p in Prepares(cfg, {cfg.primary}, body) || p in Prepares(cfg, CorrectSet(cfg) - {cfg.primary}, body);
    }
  }

  lemma LastVotes(cfg: Config, z: nat, body: string, c0: System, c: System) returns (c': System)
    requires Scene(cfg, z, body) && AllButOne(cfg, z, body, c0) && Reach(cfg, c) && Inv(cfg, c)
    requires Later(c0, c, {Packet(Announcement(cfg, body), cfg.primary)}) && !IsCommitted(c.nodes[cfg.primary], 0)
    requires forall r :: 0 <= r < cfg.n ==> Packet(VoteMessage(Prepare, cfg.primary, 0, cfg.env.digest(body)), r) in c.sent
    ensures Reach(cfg, c') && Inv(cfg, c') && Assigned(cfg, c') == [body] && AllDelivered(cfg, body, c')
    ensures !IsCommitted(c'.nodes[cfg.primary], 0)
  {
    var ps := Prepares(cfg, {cfg.primary}, body);
    forall p | p in ps ensures p in c.sent { assert p == Packet(p.msg, p.dest); }
    c' := DeliverAll(cfg, c, ps);
    ReachInv(cfg, c');
    StaysUncommitted(cfg, body, c0, c, c', ps);
    ThenAllDelivered(cfg, z, body, c0, c, c');
  }

  /** One faulty replica and one stray vote: the traffic is all delivered, every check has accepted, and
      the primary has not committed the number it assigned. */
  lemma StuckRun(cfg: Config, z: nat, body: string) returns (c: System)
    requires Scene(cfg, z, body)
    ensures Reach(cfg, c) && Settled(cfg, c) && Assigned(cfg, c) == [body]
    ensures !IsCommitted(c.nodes[cfg.primary], 0)
  {
    var c0 := CommitsOvertake(cfg, z, body);
    var c1 := BodyComesLate(cfg, z, body, c0);
    c := LastVotes(cfg, z, body, c0, c1);
    ThenQuiescent(cfg, body, c);
    ThenAllApproved(cfg, body, c);
    ApprovedExactly(cfg, c);
  }

  // ---------- exactly when the primary always commits ----------

  /** Without faulty replicas nobody speaks out of turn. */
  lemma FaultlessIsBenign(cfg: Config, run: seq<System>)
    requires IsRun(cfg, run) && cfg.faulty == {}
    ensures BenignRun(cfg, run)
  {
    forall i | 0 < i < |run| ensures BenignNextAt(cfg, run, i) {
      assert NextAt(cfg, run, i);
      var s :| Enabled(cfg, run[i - 1], s) && run[i] == Do(cfg, run[i - 1], s);
      assert !s.Inject?;
    }
  }

  lemma FaultlessRunCommits(cfg: Config, run: seq<System>, i: nat, s: nat)
    requires cfg.faulty == {} && IsRun(cfg, run) && i < |run|
    ensures !StuckAt(cfg, run[i], s)
  {
    if StuckAt(cfg, run[i], s) {
      FaultlessIsBenign(cfg, run);
      PrimaryCommits(cfg, run, i, s);
    }
  }

  lemma FaultlessCommits(cfg: Config, c: System, s: nat)
    requires cfg.faulty == {} && Reach(cfg, c)
    ensures !StuckAt(cfg, c, s)
  {
    ghost var holds := (x: System) => !StuckAt(cfg, x, s);
    forall run, i | IsRun(cfg, run) && 0 <= i < |run| ensures holds(run[i]) {
      FaultlessRunCommits(cfg, run, i, s);
    }
    ReachHolds(cfg, c, holds);
  }

  lemma FaultyBlocks(cfg: Config, z: nat, body: string)
    requires Scene(cfg, z, body)
    ensures !PrimaryAlwaysCommits(cfg)
  {
    var c := StuckRun(cfg, z, body);
    assert StuckAt(cfg, c, 0);
  }

  /** Provided masters accept some body to begin with, a correct primary commits everything it assigns,
      in every settled system, if and only if no replica is faulty in the general sense. (Replicas that
      only crash are harmless: see Completion.PrimaryCommits.) */
  lemma PrimaryAlwaysCommitsExactly(cfg: Config)
    requires ValidConfig(cfg) && Correct(cfg, cfg.primary)
    requires exists body: string :: body != "" && cfg.env.check([], body)
    ensures PrimaryAlwaysCommits(cfg) <==> cfg.faulty == {}
  {
    if cfg.faulty == {} {
      forall c: System, s: nat | Reach(cfg, c) ensures !StuckAt(cfg, c, s) {
        FaultlessCommits(cfg, c, s);
      }
    } else {
      var z :| z in cfg.faulty;
      var body: string :| body != "" && cfg.env.check([], body);
      FaultyBlocks(cfg, z, body);
    }
  }
}
