/** The cluster: n replicas running the handlers of PBFTHandler over a network that may delay,
    reorder or lose messages but delivers each at most once. Up to f = (n - 1) / 3 replicas are
    faulty: they send what they like, restricted to one message per phase, sequence number and
    recipient, votes without a body, and pre-prepares from the primary only. */
module Cluster {
  import opened Traces
  import opened Quorum
  import opened Replica
  import opened History
  import opened Justification

  datatype Config = Config(n: nat, primary: nat, faulty: set<nat>, env: Env)

  ghost predicate ValidConfig(cfg: Config) {
    && cfg.n >= 1 && cfg.primary < cfg.n
    && cfg.faulty <= Replicas(cfg.n) && |cfg.faulty| <= MaxFaulty(cfg.n)
  }

  ghost predicate Correct(cfg: Config, r: nat) {
    r < cfg.n && r !in cfg.faulty
  }

  /** A message on its way to one replica. */
  datatype Packet = Packet(msg: Message, dest: nat)

  /** The replicas, what each has handled so far, every packet ever sent and every packet delivered. */
  datatype System = System(
    nodes: seq<State>,
    hist: seq<seq<Event>>,
    sent: multiset<Packet>,
    delivered: multiset<Packet>)

  datatype Step =
    | Request(body: string)
    | Deliver(p: Packet)
    | Inject(p: Packet)

  /** SendMessage: one copy to every node, the sender included. */
  ghost function Broadcast(n: nat, m: Message): (b: multiset<Packet>)
    ensures forall p :: b[p] == if p.msg == m && p.dest < n then 1 else 0
  {
    multiset(set k | k in Replicas(n) :: Packet(m, k))
  }

  ghost function BroadcastAll(n: nat, o: Option<Message>): multiset<Packet> {
    if o.Some? then Broadcast(n, o.value) else multiset{}
  }

  ghost function HandleAt(cfg: Config, c: System, r: nat, e: Event): System
    requires r < |c.nodes| && r < |c.hist|
  {
    var o := Apply(cfg.env, c.nodes[r], e);
    c.(nodes := c.nodes[r := o.state],
       hist := c.hist[r := c.hist[r] + [e]],
       sent := c.sent + BroadcastAll(cfg.n, o.sent))
  }

  ghost predicate SameSlot(p: Packet, q: Packet) {
    && p.dest == q.dest && p.msg.replicaId == q.msg.replicaId
    && p.msg.mtype == q.msg.mtype && p.msg.seqNo == q.msg.seqNo
  }

  /** What a faulty replica may put on the network. */
  ghost predicate MayInject(cfg: Config, c: System, p: Packet) {
    && p.msg.replicaId in cfg.faulty && p.dest < cfg.n
    && (p.msg.mtype == Preprepare ==> p.msg.replicaId == cfg.primary)
    && (p.msg.mtype != Preprepare ==> p.msg.body == "")
    && (forall q :: q in c.sent ==> !SameSlot(p, q))
  }

  ghost predicate Enabled(cfg: Config, c: System, s: Step) {
    match s
    case Request(body) => Correct(cfg, cfg.primary) && cfg.primary < |c.nodes| && cfg.primary < |c.hist| && body != ""
    case Deliver(p) => p.dest < |c.nodes| && p.dest < |c.hist| && c.delivered[p] < c.sent[p]
    case Inject(p) => MayInject(cfg, c, p)
  }

  ghost function Do(cfg: Config, c: System, s: Step): System
    requires Enabled(cfg, c, s)
  {
    match s
    case Request(body) => HandleAt(cfg, c, cfg.primary, Requested(body))
    case Deliver(p) =>
      var c1 := c.(delivered := c.delivered + multiset{p});
      if Correct(cfg, p.dest) then HandleAt(cfg, c1, p.dest, Received(p.msg)) else c1
    case Inject(p) => c.(sent := c.sent + multiset{p})
  }

  ghost predicate Next(cfg: Config, c: System, c': System) {
    exists s :: Enabled(cfg, c, s) && c' == Do(cfg, c, s)
  }

  ghost function InitSystem(cfg: Config): System
    requires ValidConfig(cfg)
  {
    System(seq(cfg.n, i requires 0 <= i < cfg.n => Init(i, MaxFaulty(cfg.n))), seq(cfg.n, i => []), multiset{}, multiset{})
  }

  ghost predicate NextAt(cfg: Config, run: seq<System>, i: int) {
    0 < i < |run| && Next(cfg, run[i - 1], run[i])
  }

  /** A run: any finite sequence of steps from the initial system. */
  ghost predicate IsRun(cfg: Config, run: seq<System>) {
    && ValidConfig(cfg) && |run| > 0 && run[0] == InitSystem(cfg)
    && forall i :: 0 < i < |run| ==> NextAt(cfg, run, i)
  }

  // ---------- the invariant ----------

  ghost predicate WellFormed(cfg: Config, p: Packet) {
    && p.dest < cfg.n && p.msg.replicaId < cfg.n
    && (p.msg.mtype == Preprepare ==> p.msg.replicaId == cfg.primary)
    && (p.msg.mtype != Preprepare ==> p.msg.body == "")
    && (p.msg.mtype == Preprepare && Correct(cfg, cfg.primary) ==> p.msg.body != "")
  }

  /** Everything on the network is well formed, sent once, and alone in its slot. */
  ghost predicate NetworkOk(cfg: Config, sent: multiset<Packet>) {
    && (forall p :: p in sent ==> WellFormed(cfg, p))
    && (forall p :: sent[p] <= 1)
    && (forall p, q :: p in sent && q in sent && SameSlot(p, q) ==> p == q)
  }

  /** Each replica's state is what its inputs made of it. */
  ghost predicate NodesReplay(cfg: Config, c: System)
    requires ValidConfig(cfg)
  {
    && |c.nodes| == cfg.n && |c.hist| == cfg.n
    && forall r :: 0 <= r < cfg.n ==> c.nodes[r] == Replay(cfg.env, r, MaxFaulty(cfg.n), c.hist[r])
  }

  /** A correct replica has handled exactly what was delivered to it. */
  ghost predicate Inbox(cfg: Config, c: System, r: nat)
    requires r < |c.hist|
  {
    && EachReceivedOnce(c.hist[r])
    && (forall m :: Received(m) in c.hist[r] <==> Packet(m, r) in c.delivered)
    && (forall e :: e in c.hist[r] && e.Requested? ==> r == cfg.primary && e.body != "")
  }

  /** The packets from r are exactly the copies of what it broadcast. */
  ghost predicate Outboxed(n: nat, sent: multiset<Packet>, r: nat, box: seq<Message>) {
    forall p: Packet :: p.msg.replicaId == r && p.dest < n ==> (p in sent <==> p.msg in box)
  }

  ghost function BoxOf(cfg: Config, c: System, r: nat): seq<Message>
    requires ValidConfig(cfg) && r < |c.hist|
  {
    Outbox(cfg.env, r, MaxFaulty(cfg.n), c.hist[r])
  }

  ghost predicate Inv(cfg: Config, c: System) {
    && ValidConfig(cfg) && NodesReplay(cfg, c) && NetworkOk(cfg, c.sent) && c.delivered <= c.sent
    && (forall r :: Correct(cfg, r) ==> Inbox(cfg, c, r) && Outboxed(cfg.n, c.sent, r, BoxOf(cfg, c, r)))
  }

  lemma InitInv(cfg: Config)
    requires ValidConfig(cfg)
    ensures Inv(cfg, InitSystem(cfg))
  {
  }

  lemma InboxHasNoBodies(cfg: Config, c: System, r: nat)
    requires Inv(cfg, c) && Correct(cfg, r)
    ensures VotesCarryNoBody(c.hist[r])
  {
    forall e | e in c.hist[r] && e.Received? && e.m.mtype != Preprepare ensures e.m.body == "" {
      assert Packet(e.m, r) in c.delivered;
      assert c.delivered[Packet(e.m, r)] <= c.sent[Packet(e.m, r)];
    }
  }

  lemma InjectKeepsInv(cfg: Config, c: System, p: Packet)
    requires Inv(cfg, c) && Enabled(cfg, c, Inject(p))
    ensures Inv(cfg, Do(cfg, c, Inject(p)))
  {
    var c' := Do(cfg, c, Inject(p));
    assert SameSlot(p, p);
    forall r | Correct(cfg, r) ensures Inbox(cfg, c', r) && Outboxed(cfg.n, c'.sent, r, BoxOf(cfg, c', r)) {
      assert Inbox(cfg, c, r) && Outboxed(cfg.n, c.sent, r, BoxOf(cfg, c, r));
    }
  }

  /** Event e may be handled by r: a packet not handled before, or a request at the primary. */
  ghost predicate MayHandle(cfg: Config, c: System, r: nat, e: Event) {
    match e
    case Requested(body) => r == cfg.primary && body != ""
    case Received(m) => Packet(m, r) in c.sent && Packet(m, r) !in c.delivered
  }

  ghost predicate IsNew(n: nat, sent: multiset<Packet>, m: Message) {
    forall k, q :: 0 <= k < n && q in sent ==> !SameSlot(Packet(m, k), q)
  }

  lemma BroadcastKeepsNetwork(cfg: Config, sent: multiset<Packet>, m: Message)
    requires NetworkOk(cfg, sent) && IsNew(cfg.n, sent, m)
    requires forall k :: 0 <= k < cfg.n ==> WellFormed(cfg, Packet(m, k))
    ensures NetworkOk(cfg, sent + Broadcast(cfg.n, m))
  {
    var b := Broadcast(cfg.n, m);
    forall p | p in b ensures WellFormed(cfg, p) && forall q :: q in sent ==> !SameSlot(p, q) && !SameSlot(q, p) {
      assert p == Packet(m, p.dest);
    }
    forall p ensures (sent + b)[p] <= 1 {
      assert SameSlot(p, p);
    }
  }

  lemma BroadcastKeepsOutboxes(n: nat, sent: multiset<Packet>, m: Message, v: nat, box: seq<Message>)
    requires Outboxed(n, sent, v, box)
    ensures Outboxed(n, sent + Broadcast(n, m), v, if v == m.replicaId then box + [m] else box)
  {
  }

  /** A pre-prepare that is still to be delivered is the first for its sequence number. */
  lemma FirstPreprepare(cfg: Config, c: System, r: nat, m: Message)
    requires Inv(cfg, c) && Correct(cfg, r) && MayHandle(cfg, c, r, Received(m)) && m.mtype == Preprepare
    ensures forall x :: x in c.hist[r] ==> !IsPreprepareFor(x, m.seqNo)
  {
    assert Inbox(cfg, c, r);
    forall x | x in c.hist[r] ensures !IsPreprepareFor(x, m.seqNo) {
      if IsPreprepareFor(x, m.seqNo) {
        var a, b := Packet(x.m, r), Packet(m, r);
        assert a in c.delivered && c.delivered[a] <= c.sent[a];
        assert WellFormed(cfg, a) && WellFormed(cfg, b) && SameSlot(a, b);
      }
    }
  }

  lemma EmittedIsWellFormed(cfg: Config, c: System, r: nat, e: Event, m: Message)
    requires Inv(cfg, c) && Correct(cfg, r) && MayHandle(cfg, c, r, e)
    requires Apply(cfg.env, c.nodes[r], e).sent == Some(m)
    ensures m.replicaId == r
    ensures forall k :: 0 <= k < cfg.n ==> WellFormed(cfg, Packet(m, k))
  {
    ReplayValid(cfg.env, r, MaxFaulty(cfg.n), c.hist[r]);
  }

  /** What a correct replica sends next takes no slot already used. */
  lemma EmittedIsNew(cfg: Config, c: System, r: nat, e: Event, m: Message)
    requires Inv(cfg, c) && Correct(cfg, r) && MayHandle(cfg, c, r, e)
    requires Apply(cfg.env, c.nodes[r], e).sent == Some(m) && m.replicaId == r
    ensures IsNew(cfg.n, c.sent, m)
  {
    InboxHasNoBodies(cfg, c, r);
    if e.Received? && e.m.mtype == Preprepare { FirstPreprepare(cfg, c, r, e.m); }
    forall k, q | 0 <= k < cfg.n && q in c.sent ensures !SameSlot(Packet(m, k), q) {
      if q.msg.replicaId == r {
        assert Outboxed(cfg.n, c.sent, r, BoxOf(cfg, c, r)) && WellFormed(cfg, q);
        EmittedIsFresh(cfg.env, r, MaxFaulty(cfg.n), c.hist[r], e, q.msg);
      }
    }
  }

  lemma HandleKeepsReplay(cfg: Config, c: System, r: nat, e: Event)
    requires ValidConfig(cfg) && NodesReplay(cfg, c) && Correct(cfg, r)
    ensures NodesReplay(cfg, HandleAt(cfg, c, r, e))
  {
    ReplayStep(cfg.env, r, MaxFaulty(cfg.n), c.hist[r], e);
  }

  /** Handling an event keeps the network and the outboxes in order. */
  lemma HandleKeepsNetwork(cfg: Config, c: System, r: nat, e: Event)
    requires Inv(cfg, c) && Correct(cfg, r) && MayHandle(cfg, c, r, e)
    ensures NetworkOk(cfg, HandleAt(cfg, c, r, e).sent)
    ensures NodesReplay(cfg, HandleAt(cfg, c, r, e))
    ensures forall v :: Correct(cfg, v) ==>
              Outboxed(cfg.n, HandleAt(cfg, c, r, e).sent, v, BoxOf(cfg, HandleAt(cfg, c, r, e), v))
  {
    var c', o := HandleAt(cfg, c, r, e), Apply(cfg.env, c.nodes[r], e).sent;
    HandleKeepsReplay(cfg, c, r, e);
    OutboxStep(cfg.env, r, MaxFaulty(cfg.n), c.hist[r], e);
    if o.Some? {
      EmittedIsWellFormed(cfg, c, r, e, o.value);
      EmittedIsNew(cfg, c, r, e, o.value);
      BroadcastKeepsNetwork(cfg, c.sent, o.value);
    }
    forall v | Correct(cfg, v) ensures Outboxed(cfg.n, c'.sent, v, BoxOf(cfg, c', v)) {
      assert Outboxed(cfg.n, c.sent, v, BoxOf(cfg, c, v));
      if o.Some? { BroadcastKeepsOutboxes(cfg.n, c.sent, o.value, v, BoxOf(cfg, c, v)); }
    }
  }

  lemma RequestKeepsInbox(cfg: Config, c: System, body: string, v: nat)
    requires Enabled(cfg, c, Request(body)) && v < |c.hist| && Inbox(cfg, c, v)
    ensures Inbox(cfg, Do(cfg, c, Request(body)), v)
  {
  }

  lemma RequestKeepsInv(cfg: Config, c: System, body: string)
    requires Inv(cfg, c) && Enabled(cfg, c, Request(body))
    ensures Inv(cfg, Do(cfg, c, Request(body)))
  {
    var c' := Do(cfg, c, Request(body));
    HandleKeepsNetwork(cfg, c, cfg.primary, Requested(body));
    forall v | Correct(cfg, v) ensures Inbox(cfg, c', v) {
      assert Inbox(cfg, c, v);
      RequestKeepsInbox(cfg, c, body, v);
    }
    assert c.sent <= c'.sent;
  }

  lemma DeliverKeepsInbox(cfg: Config, c: System, p: Packet, v: nat, c': System)
    requires |c.hist| == |c'.hist| && v < |c.hist| && p !in c.delivered
    requires Inbox(cfg, c, v)
    requires c'.delivered == c.delivered + multiset{p}
    requires c'.hist[v] == if v == p.dest then c.hist[v] + [Received(p.msg)] else c.hist[v]
    ensures Inbox(cfg, c', v)
  {
    assert p == Packet(p.msg, p.dest);
  }

  lemma DeliverKeepsInboxes(cfg: Config, c: System, p: Packet)
    requires Inv(cfg, c) && Enabled(cfg, c, Deliver(p)) && Correct(cfg, p.dest)
    ensures forall v :: Correct(cfg, v) ==> Inbox(cfg, Do(cfg, c, Deliver(p)), v)
  {
    assert c.sent[p] <= 1;
    forall v | Correct(cfg, v) ensures Inbox(cfg, Do(cfg, c, Deliver(p)), v) {
      assert Inbox(cfg, c, v);
      DeliverKeepsInbox(cfg, c, p, v, Do(cfg, c, Deliver(p)));
    }
  }

  lemma DeliverToFaultyKeepsInv(cfg: Config, c: System, p: Packet)
    requires Inv(cfg, c) && Enabled(cfg, c, Deliver(p)) && !Correct(cfg, p.dest)
    ensures Inv(cfg, Do(cfg, c, Deliver(p)))
  {
    var c' := Do(cfg, c, Deliver(p));
    assert c.sent[p] <= 1;
    forall v | Correct(cfg, v) ensures Inbox(cfg, c', v) && Outboxed(cfg.n, c'.sent, v, BoxOf(cfg, c', v)) {
      assert Inbox(cfg, c, v) && Outboxed(cfg.n, c.sent, v, BoxOf(cfg, c, v));
      DeliverKeepsInbox(cfg, c, p, v, c');
    }
  }

  lemma DeliverToCorrectKeepsInv(cfg: Config, c: System, p: Packet)
    requires Inv(cfg, c) && Enabled(cfg, c, Deliver(p)) && Correct(cfg, p.dest)
    ensures Inv(cfg, Do(cfg, c, Deliver(p)))
  {
    var c', e := Do(cfg, c, Deliver(p)), Received(p.msg);
    var c'' := HandleAt(cfg, c, p.dest, e);
    assert c.sent[p] <= 1 && p == Packet(p.msg, p.dest);
    HandleKeepsNetwork(cfg, c, p.dest, e);
    assert c'.nodes == c''.nodes && c'.hist == c''.hist && c'.sent == c''.sent && c.sent <= c'.sent;
    DeliverKeepsInboxes(cfg, c, p);
    forall v | Correct(cfg, v) ensures Outboxed(cfg.n, c'.sent, v, BoxOf(cfg, c', v)) {
      assert BoxOf(cfg, c', v) == BoxOf(cfg, c'', v);
    }
  }

  lemma NextKeepsInv(cfg: Config, c: System, c': System)
    requires Inv(cfg, c) && Next(cfg, c, c')
    ensures Inv(cfg, c')
  {
    var s :| Enabled(cfg, c, s) && c' == Do(cfg, c, s);
    match s
    case Request(body) => RequestKeepsInv(cfg, c, body);
    case Deliver(p) =>
      if Correct(cfg, p.dest) { DeliverToCorrectKeepsInv(cfg, c, p); } else { DeliverToFaultyKeepsInv(cfg, c, p); }
    case Inject(p) => InjectKeepsInv(cfg, c, p);
  }

  lemma RunStep(cfg: Config, run: seq<System>, i: nat)
    requires IsRun(cfg, run) && 0 < i < |run| && Inv(cfg, run[i - 1])
    ensures Inv(cfg, run[i])
  {
    assert NextAt(cfg, run, i);
    NextKeepsInv(cfg, run[i - 1], run[i]);
  }

  /** The invariant holds at every point of every run. */
  lemma RunInv(cfg: Config, run: seq<System>, i: nat)
    requires IsRun(cfg, run) && i < |run|
    ensures Inv(cfg, run[i])
  {
    ghost var holds := (c: System) => Inv(cfg, c);
    InitInv(cfg);
    forall k | 0 < k < |run| && holds(run[k - 1]) ensures holds(run[k]) {
      RunStep(cfg, run, k);
    }
    HoldsAlong(holds, run, i);
  }
}
