/** What a replica sends and whose votes it holds, for any sequence of inputs: every message it has
    broadcast is justified by what it received, and every duty it has taken on was sent. */
module Justification {
  import opened Quorum
  import opened Replica
  import opened History

  function Emitted(o: Option<Message>): seq<Message> {
    if o.Some? then [o.value] else []
  }

  /** Every message broadcast over a life, in order. */
  function Outbox(env: Env, id: nat, f: nat, evs: seq<Event>): seq<Message> {
    if evs == [] then []
    else
      var n := |evs| - 1;
      Outbox(env, id, f, evs[..n]) + Emitted(Apply(env, Replay(env, id, f, evs[..n]), evs[n]).sent)
  }

  lemma OutboxStep(env: Env, id: nat, f: nat, evs: seq<Event>, e: Event)
    ensures Outbox(env, id, f, evs + [e])
         == Outbox(env, id, f, evs) + Emitted(Apply(env, Replay(env, id, f, evs), e).sent)
  {
    assert (evs + [e])[..|evs|] == evs;
  }

  /** The request bodies, at the sequence numbers they were given. */
  function Requests(evs: seq<Event>): seq<string> {
    if evs == [] then []
    else Requests(evs[..|evs| - 1]) + (match evs[|evs| - 1] case Requested(b) => [b] case Received(_) => [])
  }

  lemma {:induction false} RequestsCounted(env: Env, id: nat, f: nat, evs: seq<Event>)
    ensures Replay(env, id, f, evs).nextSeq == |Requests(evs)|
  {
    if evs != [] { RequestsCounted(env, id, f, evs[..|evs| - 1]); }
  }

  // ---------- justification of what was sent ----------

  predicate IsPreprepareFor(e: Event, s: nat) {
    e.Received? && e.m.mtype == Preprepare && e.m.seqNo == s
  }

  ghost predicate HasApproval(h: State, s: nat) {
    exists a :: a in h.approvals && a.seqNo == s
  }

  /** A pre-prepare for s whose body hashes to d was handled. */
  ghost predicate SawPreprepare(env: Env, evs: seq<Event>, s: nat, d: string) {
    exists e :: e in evs && IsPreprepareFor(e, s) && env.digest(e.m.body) == d
  }

  ghost predicate Justified(env: Env, id: nat, f: nat, evs: seq<Event>, m: Message) {
    var h := Replay(env, id, f, evs);
    m.replicaId == id &&
    match m.mtype
    case Preprepare => m.seqNo < |Requests(evs)| && m.body == Requests(evs)[m.seqNo] && m.digest == env.digest(m.body)
    case Prepare => m.body == "" && SawPreprepare(env, evs, m.seqNo, m.digest) && HasApproval(h, m.seqNo)
    case Commit => m.body == "" && m.digest == env.digest("") && IsPrepared(h, m.seqNo)
  }

  lemma JustifiedStays(env: Env, id: nat, f: nat, evs: seq<Event>, e: Event, m: Message)
    requires Justified(env, id, f, evs, m)
    ensures Justified(env, id, f, evs + [e], m)
  {
    var h, evs' := Replay(env, id, f, evs), evs + [e];
    ReplayStep(env, id, f, evs, e);
    InputGrows(env, h, e);
    assert evs'[..|evs|] == evs;
    if m.mtype == Prepare {
      var x :| x in evs && IsPreprepareFor(x, m.seqNo) && env.digest(x.m.body) == m.digest;
      assert x in evs';
      var a :| a in h.approvals && a.seqNo == m.seqNo;
      assert a in Replay(env, id, f, evs').approvals;
    } else if m.mtype == Preprepare {
      assert Requests(evs) <= Requests(evs');
    }
  }

  lemma EmittedJustified(env: Env, id: nat, f: nat, evs: seq<Event>, e: Event)
    requires e.Received? && e.m.mtype != Preprepare ==> e.m.body == ""
    ensures var o := Apply(env, Replay(env, id, f, evs), e).sent;
            o.Some? ==> Justified(env, id, f, evs + [e], o.value)
  {
    var h, evs' := Replay(env, id, f, evs), evs + [e];
    var o := Apply(env, h, e);
    ReplayStep(env, id, f, evs, e);
    ReplayValid(env, id, f, evs);
    RequestsCounted(env, id, f, evs);
    assert evs'[..|evs|] == evs && evs'[|evs|] == e && e in evs';
    if o.sent.Some? && o.sent.value.mtype == Prepare {
      assert IsPreprepareFor(e, e.m.seqNo);
      assert o.state.approvals[|h.approvals|].seqNo == e.m.seqNo;
      assert o.state.approvals[|h.approvals|] in o.state.approvals;
    }
  }

  lemma {:induction false} OutboxJustified(env: Env, id: nat, f: nat, evs: seq<Event>)
    requires VotesCarryNoBody(evs)
    ensures forall m :: m in Outbox(env, id, f, evs) ==> Justified(env, id, f, evs, m)
  {
    if evs != [] {
      var n := |evs| - 1;
      var e := evs[n];
      assert evs == evs[..n] + [e] && e in evs;
      OutboxJustified(env, id, f, evs[..n]);
      EmittedJustified(env, id, f, evs[..n], e);
      forall m | m in Outbox(env, id, f, evs) ensures Justified(env, id, f, evs, m) {
        if m in Outbox(env, id, f, evs[..n]) { JustifiedStays(env, id, f, evs[..n], e, m); }
      }
    }
  }

  // ---------- completeness of what was sent ----------

  lemma {:induction false} RequestsWereSent(env: Env, id: nat, f: nat, evs: seq<Event>, s: nat)
    requires s < |Requests(evs)|
    ensures Message(Preprepare, id, s, env.digest(Requests(evs)[s]), Requests(evs)[s]) in Outbox(env, id, f, evs)
  {
    var n := |evs| - 1;
    RequestsCounted(env, id, f, evs[..n]);
    ReplayValid(env, id, f, evs[..n]);
    if s < |Requests(evs[..n])| {
      RequestsWereSent(env, id, f, evs[..n], s);
    }
  }

  lemma {:induction false} ApprovalsWereSent(env: Env, id: nat, f: nat, evs: seq<Event>, s: nat) returns (m: Message)
    requires HasApproval(Replay(env, id, f, evs), s)
    ensures Received(m) in evs && IsPreprepareFor(Received(m), s)
    ensures Message(Prepare, id, s, env.digest(m.body), "") in Outbox(env, id, f, evs)
  {
    var n := |evs| - 1;
    var h := Replay(env, id, f, evs[..n]);
    ReplayValid(env, id, f, evs[..n]);
    assert evs == evs[..n] + [evs[n]];
    if HasApproval(h, s) {
      m := ApprovalsWereSent(env, id, f, evs[..n], s);
    } else {
      m := evs[n].m;
    }
  }

  lemma PreparingSends(env: Env, h: State, e: Event, s: nat)
    requires e.Received? && e.m.mtype != Preprepare ==> e.m.body == ""
    requires !IsPrepared(h, s) && IsPrepared(Apply(env, h, e).state, s)
    ensures Apply(env, h, e).sent == Some(Message(Commit, h.id, s, env.digest(""), ""))
  {
    if s != Touched(h, e) { InputTouchesOne(env, h, e, s); }
  }

  lemma {:induction false} PreparedWasSent(env: Env, id: nat, f: nat, evs: seq<Event>, s: nat)
    requires VotesCarryNoBody(evs) && IsPrepared(Replay(env, id, f, evs), s)
    ensures Message(Commit, id, s, env.digest(""), "") in Outbox(env, id, f, evs)
  {
    var n := |evs| - 1;
    var h := Replay(env, id, f, evs[..n]);
    ReplayValid(env, id, f, evs[..n]);
    assert evs == evs[..n] + [evs[n]] && evs[n] in evs;
    if IsPrepared(h, s) {
      PreparedWasSent(env, id, f, evs[..n], s);
    } else {
      PreparingSends(env, h, evs[n], s);
    }
  }

  // ---------- at most one message per phase and sequence number ----------

  /** What an input makes a replica send is new: nothing of that type was sent for that number. */
  lemma EmittedIsFresh(env: Env, id: nat, f: nat, evs: seq<Event>, e: Event, m: Message)
    requires VotesCarryNoBody(evs)
    requires e.Received? && e.m.mtype == Preprepare ==> forall x :: x in evs ==> !IsPreprepareFor(x, e.m.seqNo)
    requires m in Outbox(env, id, f, evs)
    ensures var o := Apply(env, Replay(env, id, f, evs), e).sent;
            o.Some? ==> !(o.value.mtype == m.mtype && o.value.seqNo == m.seqNo)
  {
    OutboxJustified(env, id, f, evs);
    RequestsCounted(env, id, f, evs);
    assert Justified(env, id, f, evs, m);
  }

  // ---------- whose votes are held ----------

  function VoteMessage(phase: MType, v: nat, s: nat, d: string): Message {
    Message(phase, v, s, d, "")
  }

  /** A replica holds exactly the votes it received. */
  lemma {:induction false} VotersAreReceived(env: Env, id: nat, f: nat, evs: seq<Event>, s: nat, phase: MType, d: string, v: nat)
    requires VotesCarryNoBody(evs) && phase != Preprepare
    ensures v in Voters(Replay(env, id, f, evs), s, phase, d) <==> Received(VoteMessage(phase, v, s, d)) in evs
  {
    if evs != [] {
      var n := |evs| - 1;
      var e := evs[n];
      assert evs == evs[..n] + [e] && e in evs;
      VotersAreReceived(env, id, f, evs[..n], s, phase, d, v);
      InputAddsVote(env, Replay(env, id, f, evs[..n]), e, s, phase, d);
      assert v in VoteOf(e, s, phase, d) <==> e == Received(VoteMessage(phase, v, s, d));
    }
  }

  ghost predicate NoRepeats<T(!new)>(xs: seq<T>) {
    forall i, j :: 0 <= i < j < |xs| ==> xs[i] != xs[j]
  }

  /** No message is handled twice. */
  ghost predicate EachReceivedOnce(evs: seq<Event>) {
    forall i, j :: 0 <= i < j < |evs| && evs[i] == evs[j] ==> evs[i].Requested?
  }

  /** The vote vectors of UpdateInfo are not de-duplicated; without repeated messages they need not be. */
  lemma {:induction false} VotersAreDistinct(env: Env, id: nat, f: nat, evs: seq<Event>, s: nat, phase: MType, d: string)
    requires VotesCarryNoBody(evs) && EachReceivedOnce(evs)
    ensures NoRepeats(Voters(Replay(env, id, f, evs), s, phase, d))
  {
    if evs != [] {
      var n := |evs| - 1;
      var e := evs[n];
      assert evs == evs[..n] + [e] && e in evs;
      VotersAreDistinct(env, id, f, evs[..n], s, phase, d);
      InputAddsVote(env, Replay(env, id, f, evs[..n]), e, s, phase, d);
      if VoteOf(e, s, phase, d) != [] {
        VotersAreReceived(env, id, f, evs[..n], s, phase, d, e.m.replicaId);
        assert e == Received(VoteMessage(phase, e.m.replicaId, s, d));
      }
    }
  }

  function Elements(xs: seq<nat>): (r: set<nat>)
    ensures forall x :: x in r <==> x in xs
  {
    set x | x in xs
  }

  lemma {:induction false} DistinctSize(xs: seq<nat>)
    requires NoRepeats(xs)
    ensures |Elements(xs)| == |xs|
  {
    if xs != [] {
      var n := |xs| - 1;
      DistinctSize(xs[..n]);
      assert Elements(xs) == Elements(xs[..n]) + {xs[n]};
    }
  }

  lemma {:induction false} EnoughVoters(xs: seq<nat>, need: set<nat>)
    requires forall v :: v in need ==> v in xs
    ensures |xs| >= |need|
  {
    if xs == [] {
      assert need == {};
    } else {
      var n := |xs| - 1;
      assert xs == xs[..n] + [xs[n]];
      EnoughVoters(xs[..n], need - {xs[n]});
    }
  }

  // ---------- where a body comes from ----------

  ghost predicate BodyFrom(evs: seq<Event>, s: nat, body: string) {
    || (s < |Requests(evs)| && Requests(evs)[s] == body)
    || (exists e :: e in evs && IsPreprepareFor(e, s) && e.m.body == body)
  }

  lemma BodyFromStays(evs: seq<Event>, e: Event, s: nat, body: string)
    requires BodyFrom(evs, s, body)
    ensures BodyFrom(evs + [e], s, body)
  {
    var evs' := evs + [e];
    assert evs'[..|evs|] == evs;
    assert Requests(evs) <= Requests(evs');
    assert forall x :: x in evs ==> x in evs';
  }

  /** An input that brings a body brings it from the request or pre-prepare it is. */
  lemma InputBringsBody(env: Env, h: State, e: Event, s: nat)
    requires Body(h, s) == "" && Body(Apply(env, h, e).state, s) != ""
    requires e.Received? && e.m.mtype != Preprepare ==> e.m.body == ""
    ensures if e.Requested? then s == h.nextSeq && Body(Apply(env, h, e).state, s) == e.body
            else IsPreprepareFor(e, s) && Body(Apply(env, h, e).state, s) == e.m.body
  {
    if s != Touched(h, e) { InputTouchesOne(env, h, e, s); }
  }

  lemma {:induction false} BodySource(env: Env, id: nat, f: nat, evs: seq<Event>, s: nat)
    requires VotesCarryNoBody(evs) && Body(Replay(env, id, f, evs), s) != ""
    ensures BodyFrom(evs, s, Body(Replay(env, id, f, evs), s))
  {
    var n := |evs| - 1;
    var h, e := Replay(env, id, f, evs[..n]), evs[n];
    assert evs == evs[..n] + [e] && e in evs;
    if Body(h, s) != "" {
      BodySource(env, id, f, evs[..n], s);
      InputGrowsProposal(env, h, e, s);
      BodyFromStays(evs[..n], e, s, Body(h, s));
    } else {
      InputBringsBody(env, h, e, s);
      RequestsCounted(env, id, f, evs[..n]);
    }
  }

  /** When no pre-prepare is empty, no approval is for an empty body. */
  lemma {:induction false} ApprovedBodies(env: Env, id: nat, f: nat, evs: seq<Event>)
    requires forall e :: e in evs && e.Received? && e.m.mtype == Preprepare ==> e.m.body != ""
    ensures forall a :: a in Replay(env, id, f, evs).approvals ==> a.body != "" && Body(Replay(env, id, f, evs), a.seqNo) == a.body
  {
    ReplayValid(env, id, f, evs);
    if evs != [] {
      var n := |evs| - 1;
      assert evs == evs[..n] + [evs[n]] && evs[n] in evs;
      ApprovedBodies(env, id, f, evs[..n]);
    }
  }
}
