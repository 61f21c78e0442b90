/** One PBFT replica, on values: the per-sequence Proposal and the handlers of PBFTHandler as
    functions from a state and an input to a state and an outgoing message. The handler names
    follow the phase they consume: OnPreprepare is PBFTHandler::Prepare, OnPrepare is
    PBFTHandler::Commit and OnCommit is PBFTHandler::Reply. */
module Replica {
  import opened Quorum

  datatype Option<+T> = None | Some(value: T)

  datatype MType = Preprepare | Prepare | Commit

  /** The fields of a message that some handler reads. */
  datatype Message = Message(mtype: MType, replicaId: nat, seqNo: nat, digest: string, body: string)

  /** Vote lists by digest, in arrival order, as pushed by UpdateInfo. */
  type Votes = map<string, seq<nat>>

  datatype Proposal = Proposal(
    body: string,
    prepareVotes: Votes,
    commitVotes: Votes,
    prepared: bool,
    committed: bool)

  /** A CommitAction call: the sequence number and the body handed to the master. */
  datatype Execution = Execution(seqNo: nat, body: string)

  /** A CheckProposal call that was answered with true: the body that was checked and the bodies
      the master had executed by then. */
  datatype Approval = Approval(seqNo: nat, body: string, history: seq<string>)

  datatype State = State(
    id: nat,
    f: nat,
    nextSeq: nat,
    proposals: map<nat, Proposal>,
    approvals: seq<Approval>,
    executed: seq<Execution>)

  /** What a replica is given from outside: the digest function, and the master's verdict on a
      body as a function of the bodies it has executed. */
  datatype Env = Env(digest: string -> string, check: (seq<string>, string) -> bool)

  datatype Outcome = Outcome(state: State, sent: Option<Message>)

  function Init(id: nat, f: nat): State {
    State(id, f, 0, map[], [], [])
  }

  function NewProposal(body: string): Proposal {
    Proposal(body, map[], map[], false, false)
  }

  function VotersFor(votes: Votes, digest: string): seq<nat> {
    if digest in votes then votes[digest] else []
  }

  function AddVote(votes: Votes, digest: string, voter: nat): Votes {
    votes[digest := VotersFor(votes, digest) + [voter]]
  }

  predicate HasQuorum(votes: Votes, f: nat) {
    exists d :: d in votes && |votes[d]| >= Threshold(f)
  }

  function UpdateInfo(p: Proposal, m: Message): Proposal {
    match m.mtype
    case Preprepare => p
    case Prepare => p.(prepareVotes := AddVote(p.prepareVotes, m.digest, m.replicaId))
    case Commit => p.(commitVotes := AddVote(p.commitVotes, m.digest, m.replicaId))
  }

  predicate CheckVotes(p: Proposal, mtype: MType, f: nat) {
    match mtype
    case Preprepare => false
    case Prepare => p.prepared || HasQuorum(p.prepareVotes, f)
    case Commit => p.committed || HasQuorum(p.commitVotes, f)
  }

  function Bodies(executed: seq<Execution>): (r: seq<string>)
    ensures |r| == |executed|
    ensures forall i :: 0 <= i < |r| ==> r[i] == executed[i].body
  {
    seq(|executed|, i requires 0 <= i < |executed| => executed[i].body)
  }

  /** The proposal a handler works on: the stored one, or a new one with the message's body. */
  function Lookup(h: State, s: nat, body: string): Proposal {
    if s in h.proposals then h.proposals[s] else NewProposal(body)
  }

  function Store(h: State, s: nat, p: Proposal): State {
    h.(proposals := h.proposals[s := p])
  }

  /** PBFTHandler::Preprepare: number the request, keep it, and send it out. */
  function OnRequest(env: Env, h: State, body: string): Outcome {
    var s := h.nextSeq;
    var h1 := if s in h.proposals then h else Store(h, s, NewProposal(body));
    Outcome(h1.(nextSeq := s + 1), Some(Message(Preprepare, h.id, s, env.digest(body), body)))
  }

  /** PBFTHandler::Prepare: fill in a missing body, ask the master about the stored body, vote for
      the digest of the received one. */
  function OnPreprepare(env: Env, h: State, m: Message): Outcome {
    var p := Lookup(h, m.seqNo, m.body);
    var p1 := if p.body == "" then p.(body := m.body) else p;
    var h1 := Store(h, m.seqNo, p1);
    var history := Bodies(h.executed);
    if env.check(history, p1.body) then
      Outcome(h1.(approvals := h.approvals + [Approval(m.seqNo, p1.body, history)]),
              Some(Message(Prepare, h.id, m.seqNo, env.digest(m.body), "")))
    else
      Outcome(h1, None)
  }

  /** PBFTHandler::Commit. */
  function OnPrepare(env: Env, h: State, m: Message): Outcome {
    var p := UpdateInfo(Lookup(h, m.seqNo, m.body), m);
    if CheckVotes(p, m.mtype, h.f) && !p.prepared then
      Outcome(Store(h, m.seqNo, p.(prepared := true)),
              Some(Message(Commit, h.id, m.seqNo, env.digest(m.body), "")))
    else
      Outcome(Store(h, m.seqNo, p), None)
  }

  /** PBFTHandler::Reply. */
  function OnCommit(h: State, m: Message): Outcome {
    var p := UpdateInfo(Lookup(h, m.seqNo, m.body), m);
    if CheckVotes(p, m.mtype, h.f) && !p.committed && p.body != "" then
      Outcome(Store(h, m.seqNo, p.(committed := true)).(executed := h.executed + [Execution(m.seqNo, p.body)]), None)
    else
      Outcome(Store(h, m.seqNo, p), None)
  }

  /** SendMessage's routing: the handler a message is delivered to depends on its type. */
  function Receive(env: Env, h: State, m: Message): Outcome {
    match m.mtype
    case Preprepare => OnPreprepare(env, h, m)
    case Prepare => OnPrepare(env, h, m)
    case Commit => OnCommit(h, m)
  }

  datatype Event = Requested(body: string) | Received(m: Message)

  function Apply(env: Env, h: State, e: Event): Outcome {
    match e
    case Requested(body) => OnRequest(env, h, body)
    case Received(m) => Receive(env, h, m)
  }

  // ---------- views of a state, total in the sequence number ----------

  function Body(h: State, s: nat): string {
    if s in h.proposals then h.proposals[s].body else ""
  }

  predicate IsPrepared(h: State, s: nat) {
    s in h.proposals && h.proposals[s].prepared
  }

  predicate IsCommitted(h: State, s: nat) {
    s in h.proposals && h.proposals[s].committed
  }

  /** Who voted for digest d in the given phase. */
  function Voters(h: State, s: nat, phase: MType, d: string): seq<nat> {
    if s !in h.proposals then []
    else match phase
      case Preprepare => []
      case Prepare => VotersFor(h.proposals[s].prepareVotes, d)
      case Commit => VotersFor(h.proposals[s].commitVotes, d)
  }

  /** Some digest has 2f + 1 votes in the given phase. */
  ghost predicate Certified(h: State, s: nat, phase: MType) {
    exists d :: |Voters(h, s, phase, d)| >= Threshold(h.f)
  }

  // ---------- what every input keeps ----------

  /** The executed list is exactly the committed proposals, each once and with its stored body. */
  ghost predicate ExecutedIsCommitted(h: State) {
    && (forall i :: 0 <= i < |h.executed| ==>
          IsCommitted(h, h.executed[i].seqNo) && Body(h, h.executed[i].seqNo) == h.executed[i].body)
    && (forall i, j :: 0 <= i < j < |h.executed| ==> h.executed[i].seqNo != h.executed[j].seqNo)
    && (forall s :: IsCommitted(h, s) ==> exists i :: 0 <= i < |h.executed| && h.executed[i].seqNo == s)
  }

  ghost predicate FlagsMatchVotes(h: State) {
    && (forall s {:trigger IsPrepared(h, s)} :: IsPrepared(h, s) <==> Certified(h, s, Prepare))
    && (forall s {:trigger IsCommitted(h, s)} :: IsCommitted(h, s) ==> Body(h, s) != "" && Certified(h, s, Commit))
  }

  /** Every approval was given by the master on the history it had then, for the stored body. */
  ghost predicate ApprovalsHold(env: Env, h: State) {
    forall a :: a in h.approvals ==>
      && a.history <= Bodies(h.executed)
      && env.check(a.history, a.body)
      && (a.body != "" ==> Body(h, a.seqNo) == a.body)
  }

  ghost predicate Valid(env: Env, h: State) {
    FlagsMatchVotes(h) && ExecutedIsCommitted(h) && ApprovalsHold(env, h)
  }

  /** The two-state invariant: nothing a replica has learnt is ever lost or changed. */
  ghost predicate Grows(h: State, h': State) {
    && h'.id == h.id && h'.f == h.f && h.nextSeq <= h'.nextSeq
    && h.executed <= h'.executed && h.approvals <= h'.approvals
    && (forall s {:trigger Body(h', s)} :: Body(h, s) != "" ==> Body(h', s) == Body(h, s))
    && (forall s {:trigger IsPrepared(h', s)} :: IsPrepared(h, s) ==> IsPrepared(h', s))
    && (forall s {:trigger IsCommitted(h', s)} :: IsCommitted(h, s) ==> IsCommitted(h', s))
    && (forall s, t, d {:trigger Voters(h', s, t, d)} :: Voters(h, s, t, d) <= Voters(h', s, t, d))
  }

  lemma InitUncertified(id: nat, f: nat, s: nat, phase: MType)
    ensures !Certified(Init(id, f), s, phase)
  {
    assert forall d :: Voters(Init(id, f), s, phase, d) == [];
  }

  lemma InitValid(env: Env, id: nat, f: nat)
    ensures Valid(env, Init(id, f))
  {
    forall s ensures !Certified(Init(id, f), s, Prepare) {
      InitUncertified(id, f, s, Prepare);
    }
  }

  /** The proposal an input reads and writes. */
  function Touched(h: State, e: Event): nat {
    match e
    case Requested(_) => h.nextSeq
    case Received(m) => m.seqNo
  }

  lemma InputTouchesOne(env: Env, h: State, e: Event, s: nat)
    requires s != Touched(h, e)
    ensures s in Apply(env, h, e).state.proposals <==> s in h.proposals
    ensures s in h.proposals ==> Apply(env, h, e).state.proposals[s] == h.proposals[s]
  {
  }

  /** The vote a message adds. */
  function VoteOf(e: Event, s: nat, phase: MType, d: string): seq<nat> {
    if e.Received? && phase != Preprepare && e.m.mtype == phase && e.m.seqNo == s && e.m.digest == d
    then [e.m.replicaId] else []
  }

  lemma InputAddsOwnVote(env: Env, h: State, m: Message, phase: MType, d: string)
    requires m.mtype != Preprepare
    ensures Voters(Receive(env, h, m).state, m.seqNo, phase, d)
         == Voters(h, m.seqNo, phase, d) + VoteOf(Received(m), m.seqNo, phase, d)
  {
    var p, p' := Lookup(h, m.seqNo, m.body), Receive(env, h, m).state.proposals[m.seqNo];
    assert p'.prepareVotes == UpdateInfo(p, m).prepareVotes && p'.commitVotes == UpdateInfo(p, m).commitVotes;
  }

  lemma InputAddsVote(env: Env, h: State, e: Event, s: nat, phase: MType, d: string)
    ensures Voters(Apply(env, h, e).state, s, phase, d) == Voters(h, s, phase, d) + VoteOf(e, s, phase, d)
  {
    if s != Touched(h, e) {
      InputTouchesOne(env, h, e, s);
    } else if e.Received? && e.m.mtype != Preprepare {
      InputAddsOwnVote(env, h, e.m, phase, d);
    }
  }

  lemma InputGrowsProposal(env: Env, h: State, e: Event, s: nat)
    ensures var h' := Apply(env, h, e).state;
            && (Body(h, s) != "" ==> Body(h', s) == Body(h, s))
            && (IsPrepared(h, s) ==> IsPrepared(h', s))
            && (IsCommitted(h, s) ==> IsCommitted(h', s))
  {
    if s != Touched(h, e) {
      InputTouchesOne(env, h, e, s);
    }
  }

  lemma InputGrows(env: Env, h: State, e: Event)
    ensures Grows(h, Apply(env, h, e).state)
  {
    var h' := Apply(env, h, e).state;
    forall s
      ensures Body(h, s) != "" ==> Body(h', s) == Body(h, s)
      ensures IsPrepared(h, s) ==> IsPrepared(h', s)
      ensures IsCommitted(h, s) ==> IsCommitted(h', s)
    {
      InputGrowsProposal(env, h, e, s);
    }
    forall s, t, d ensures Voters(h, s, t, d) <= Voters(h', s, t, d) {
      InputAddsVote(env, h, e, s, t, d);
    }
  }

  lemma CertificateGrows(h: State, h': State, s: nat, phase: MType)
    requires Grows(h, h') && Certified(h, s, phase)
    ensures Certified(h', s, phase)
  {
    var d :| |Voters(h, s, phase, d)| >= Threshold(h.f);
    assert Voters(h, s, phase, d) <= Voters(h', s, phase, d);
  }

  /** CheckVotes never goes back to false. */
  lemma CheckVotesStays(h: State, h': State, s: nat, phase: MType)
    requires Grows(h, h') && s in h.proposals && s in h'.proposals
    requires CheckVotes(h.proposals[s], phase, h.f)
    ensures CheckVotes(h'.proposals[s], phase, h'.f)
  {
    QuorumIsCertificate(h, s);
    QuorumIsCertificate(h', s);
    assert IsPrepared(h, s) ==> IsPrepared(h', s);
    assert IsCommitted(h, s) ==> IsCommitted(h', s);
    if Certified(h, s, phase) { CertificateGrows(h, h', s, phase); }
  }

  /** Only a message of a phase can complete that phase's certificate. */
  lemma OtherInputsAddNoVote(env: Env, h: State, e: Event, s: nat, phase: MType)
    requires phase != Preprepare && !(e.Received? && e.m.mtype == phase && e.m.seqNo == s)
    ensures Certified(Apply(env, h, e).state, s, phase) <==> Certified(h, s, phase)
  {
    var h' := Apply(env, h, e).state;
    InputGrows(env, h, e);
    forall d ensures Voters(h', s, phase, d) == Voters(h, s, phase, d) {
      InputAddsVote(env, h, e, s, phase, d);
    }
  }

  lemma PreparedMatchesVotes(env: Env, h: State, e: Event, s: nat)
    requires FlagsMatchVotes(h)
    ensures IsPrepared(Apply(env, h, e).state, s) <==> Certified(Apply(env, h, e).state, s, Prepare)
  {
    var h' := Apply(env, h, e).state;
    assert IsPrepared(h, s) <==> Certified(h, s, Prepare);
    if e.Received? && e.m.mtype == Prepare && e.m.seqNo == s {
      var p := UpdateInfo(Lookup(h, e.m.seqNo, e.m.body), e.m);
      assert h'.proposals[s].prepareVotes == p.prepareVotes;
      QuorumIsCertificate(h', s);
      InputGrows(env, h, e);
      if IsPrepared(h, s) { CertificateGrows(h, h', s, Prepare); }
    } else {
      OtherInputsAddNoVote(env, h, e, s, Prepare);
      if s != Touched(h, e) { InputTouchesOne(env, h, e, s); }
    }
  }

  lemma CommittedHasVotes(env: Env, h: State, e: Event, s: nat)
    requires FlagsMatchVotes(h) && IsCommitted(Apply(env, h, e).state, s)
    ensures Body(Apply(env, h, e).state, s) != "" && Certified(Apply(env, h, e).state, s, Commit)
  {
    var h' := Apply(env, h, e).state;
    if IsCommitted(h, s) {
      InputGrows(env, h, e);
      CertificateGrows(h, h', s, Commit);
    } else {
      QuorumIsCertificate(h', s);
      if s != Touched(h, e) { InputTouchesOne(env, h, e, s); }
    }
  }

  lemma InputKeepsFlags(env: Env, h: State, e: Event)
    requires FlagsMatchVotes(h)
    ensures FlagsMatchVotes(Apply(env, h, e).state)
  {
    var h' := Apply(env, h, e).state;
    forall s ensures IsPrepared(h', s) <==> Certified(h', s, Prepare) {
      PreparedMatchesVotes(env, h, e, s);
    }
    forall s | IsCommitted(h', s) ensures Body(h', s) != "" && Certified(h', s, Commit) {
      CommittedHasVotes(env, h, e, s);
    }
  }

  /** The any_of over the vote map finds a threshold exactly when some digest has one. */
  lemma QuorumIsCertificate(h: State, s: nat)
    ensures s in h.proposals ==>
              && (HasQuorum(h.proposals[s].prepareVotes, h.f) <==> Certified(h, s, Prepare))
              && (HasQuorum(h.proposals[s].commitVotes, h.f) <==> Certified(h, s, Commit))
  {
    if s in h.proposals {
      var p := h.proposals[s];
      forall d ensures Voters(h, s, Prepare, d) == VotersFor(p.prepareVotes, d)
               ensures Voters(h, s, Commit, d) == VotersFor(p.commitVotes, d) {}
      if HasQuorum(p.prepareVotes, h.f) {
        var d :| d in p.prepareVotes && |p.prepareVotes[d]| >= Threshold(h.f);
        assert |Voters(h, s, Prepare, d)| >= Threshold(h.f);
      }
      if HasQuorum(p.commitVotes, h.f) {
        var d :| d in p.commitVotes && |p.commitVotes[d]| >= Threshold(h.f);
        assert |Voters(h, s, Commit, d)| >= Threshold(h.f);
      }
    }
  }

  lemma ExecutedStaysCommitted(env: Env, h: State, e: Event, i: nat)
    requires FlagsMatchVotes(h) && ExecutedIsCommitted(h) && i < |Apply(env, h, e).state.executed|
    ensures var h' := Apply(env, h, e).state; var x := h'.executed[i];
            IsCommitted(h', x.seqNo) && Body(h', x.seqNo) == x.body
  {
    if i < |h.executed| {
      var x := h.executed[i];
      assert IsCommitted(h, x.seqNo) && Body(h, x.seqNo) == x.body && x.body != "";
      InputGrowsProposal(env, h, e, x.seqNo);
    }
  }

  lemma CommittedIsExecuted(env: Env, h: State, e: Event, s: nat)
    requires ExecutedIsCommitted(h) && IsCommitted(Apply(env, h, e).state, s)
    ensures var h' := Apply(env, h, e).state; exists i :: 0 <= i < |h'.executed| && h'.executed[i].seqNo == s
  {
    var h' := Apply(env, h, e).state;
    if IsCommitted(h, s) {
      var i :| 0 <= i < |h.executed| && h.executed[i].seqNo == s;
      assert h'.executed[i].seqNo == s;
    } else {
      if s != Touched(h, e) { InputTouchesOne(env, h, e, s); }
      assert h'.executed[|h.executed|].seqNo == s;
    }
  }

  lemma ExecutedStaysDistinct(env: Env, h: State, e: Event)
    requires ExecutedIsCommitted(h)
    ensures var xs := Apply(env, h, e).state.executed;
            forall i, j :: 0 <= i < j < |xs| ==> xs[i].seqNo != xs[j].seqNo
  {
  }

  lemma InputKeepsExecuted(env: Env, h: State, e: Event)
    requires FlagsMatchVotes(h) && ExecutedIsCommitted(h)
    ensures ExecutedIsCommitted(Apply(env, h, e).state)
  {
    var h' := Apply(env, h, e).state;
    ExecutedStaysDistinct(env, h, e);
    forall i | 0 <= i < |h'.executed|
      ensures IsCommitted(h', h'.executed[i].seqNo) && Body(h', h'.executed[i].seqNo) == h'.executed[i].body
    {
      ExecutedStaysCommitted(env, h, e, i);
    }
    forall s | IsCommitted(h', s) ensures exists i :: 0 <= i < |h'.executed| && h'.executed[i].seqNo == s {
      CommittedIsExecuted(env, h, e, s);
    }
  }

  lemma InputKeepsApprovals(env: Env, h: State, e: Event)
    requires ApprovalsHold(env, h)
    ensures ApprovalsHold(env, Apply(env, h, e).state)
  {
    var h' := Apply(env, h, e).state;
    InputGrows(env, h, e);
    assert Bodies(h.executed) <= Bodies(h'.executed);
  }

  /** Every input a replica can be given keeps its invariant. */
  lemma InputKeepsValid(env: Env, h: State, e: Event)
    requires Valid(env, h)
    ensures Valid(env, Apply(env, h, e).state) && Grows(h, Apply(env, h, e).state)
  {
    InputKeepsFlags(env, h, e);
    InputKeepsExecuted(env, h, e);
    InputKeepsApprovals(env, h, e);
    InputGrows(env, h, e);
  }

  // ---------- what each handler answers, exactly ----------

  /** A replica votes for a pre-prepare if and only if its master accepts the body it now holds, after
      everything executed so far. */
  lemma PreprepareAnswer(env: Env, h: State, m: Message)
    requires m.mtype == Preprepare
    ensures var o := Receive(env, h, m);
            && Body(o.state, m.seqNo) == (if Body(h, m.seqNo) == "" then m.body else Body(h, m.seqNo))
            && o.sent == (if env.check(Bodies(h.executed), Body(o.state, m.seqNo))
                          then Some(Message(Prepare, h.id, m.seqNo, env.digest(m.body), "")) else None)
            && o.state.approvals == h.approvals + (if o.sent.Some? then [Approval(m.seqNo, Body(o.state, m.seqNo), Bodies(h.executed))] else [])
            && o.state.executed == h.executed
  {
  }

  /** A replica sends its commit message if and only if this prepare vote is the one that completes a
      certificate. */
  lemma PrepareAnswer(env: Env, h: State, m: Message)
    requires m.mtype == Prepare && FlagsMatchVotes(h)
    ensures var o := Receive(env, h, m);
            && o.sent == (if Certified(o.state, m.seqNo, Prepare) && !Certified(h, m.seqNo, Prepare)
                          then Some(Message(Commit, h.id, m.seqNo, env.digest(m.body), "")) else None)
            && o.state.executed == h.executed
  {
    var h' := Receive(env, h, m).state;
    assert h' == Apply(env, h, Received(m)).state;
    QuorumIsCertificate(h', m.seqNo);
    assert IsPrepared(h, m.seqNo) <==> Certified(h, m.seqNo, Prepare);
    PreparedMatchesVotes(env, h, Received(m), m.seqNo);
  }

  /** A commit message executes the body held if and only if there is one, the number has 2f + 1 commit
      votes for some digest, and it was not executed before. It is never answered. */
  lemma CommitAnswer(env: Env, h: State, m: Message)
    requires m.mtype == Commit && FlagsMatchVotes(h)
    ensures var o := Receive(env, h, m); var body := Body(o.state, m.seqNo);
            && body == (if m.seqNo in h.proposals then Body(h, m.seqNo) else m.body)
            && o.sent == None
            && o.state.executed == h.executed +
                 (if Certified(o.state, m.seqNo, Commit) && !IsCommitted(h, m.seqNo) && body != ""
                  then [Execution(m.seqNo, body)] else [])
  {
    QuorumIsCertificate(Receive(env, h, m).state, m.seqNo);
  }
}
