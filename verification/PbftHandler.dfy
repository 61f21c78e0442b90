/** The replica as the program has it: Proposal objects shared by reference from a table, updated in
    place by the handlers of PBFTHandler. Each method is proved to do what the value functions of
    module Replica say, so the results about runs are about these handlers. */
module PbftHandler {
  import Quorum
  import R = Replica
  import Cluster

  class Proposal {
    var body: string
    const f: nat
    var prepared: bool
    var committed: bool
    var prepareVotes: map<string, seq<nat>>
    var commitVotes: map<string, seq<nat>>

    ghost function View(): R.Proposal
      reads this
    {
      R.Proposal(body, prepareVotes, commitVotes, prepared, committed)
    }

    constructor (body: string, f: nat)
      ensures View() == R.NewProposal(body) && this.f == f
    {
      this.body, this.f := body, f;
      prepared, committed := false, false;
      prepareVotes, commitVotes := map[], map[];
    }

    method UpdateInfo(m: R.Message)
      modifies this`prepareVotes, this`commitVotes
      ensures View() == R.UpdateInfo(old(View()), m)
    {
      if m.mtype == R.Prepare {
        if m.digest !in prepareVotes {
          prepareVotes := prepareVotes[m.digest := []];
        }
        prepareVotes := prepareVotes[m.digest := prepareVotes[m.digest] + [m.replicaId]];
      } else if m.mtype == R.Commit {
        if m.digest !in commitVotes {
          commitVotes := commitVotes[m.digest := []];
        }
        commitVotes := commitVotes[m.digest := commitVotes[m.digest] + [m.replicaId]];
      }
    }

    method CheckVotes(mtype: R.MType) returns (ok: bool)
      ensures ok <==> R.CheckVotes(View(), mtype, f)
    {
      ok := false;
      if mtype == R.Prepare {
        if prepared { return true; }
        if exists d :: d in prepareVotes && |prepareVotes[d]| >= 2 * f + 1 { return true; }
      } else if mtype == R.Commit {
        if committed { return true; }
        if exists d :: d in commitVotes && |commitVotes[d]| >= 2 * f + 1 { return true; }
      }
    }
  }

  lemma StoreTwice(h: R.State, s: nat, p: R.Proposal, q: R.Proposal)
    ensures R.Store(R.Store(h, s, p), s, q) == R.Store(h, s, q)
  {
    assert h.proposals[s := p][s := q] == h.proposals[s := q];
  }

  class PBFTHandler {
    const env: R.Env
    const id: nat
    const nodes: nat
    const f: nat
    var nextProposalSeq: nat
    var proposals: map<nat, Proposal>
    // What the master on this machine has been asked: approvals given and bodies executed.
    var approvals: seq<R.Approval>
    var executed: seq<R.Execution>

    /** The table never shares an object between two numbers. */
    ghost predicate Valid()
      reads this, proposals.Values
    {
      && (forall s :: s in proposals ==> proposals[s].f == f)
      && (forall s, t :: s in proposals && t in proposals && s != t ==> proposals[s] != proposals[t])
    }

    ghost function View(): R.State
      reads this, proposals.Values
    {
      R.State(id, f, nextProposalSeq, map s | s in proposals :: proposals[s].View(), approvals, executed)
    }

    constructor Init(id: nat, nodes: nat, env: R.Env)
      requires nodes >= 1
      ensures Valid() && View() == R.Init(id, Quorum.MaxFaulty(nodes))
      ensures this.env == env && this.nodes == nodes && proposals == map[]
      ensures forall g: nat :: g <= nodes ==> (Quorum.Tolerates(nodes, g) <==> g <= f)
    {
      this.id, this.nodes, this.env := id, nodes, env;
      f := (nodes - 1) / 3;
      nextProposalSeq := 0;
      proposals, approvals, executed := map[], [], [];
      forall g: nat | g <= nodes ensures Quorum.Tolerates(nodes, g) <==> g <= (nodes - 1) / 3 {
        Quorum.MaxFaultyIsLargest(nodes, g);
      }
    }

    /** Find the proposal a message is about, or insert one built from the message. */
    method FindOrInsert(seqNo: nat, body: string) returns (p: Proposal)
      requires Valid()
      modifies this`proposals
      ensures Valid() && seqNo in proposals && proposals[seqNo] == p
      ensures seqNo in old(proposals) ==> proposals == old(proposals)
      ensures seqNo !in old(proposals) ==> fresh(p) && proposals == old(proposals)[seqNo := p]
      ensures p.View() == R.Lookup(old(View()), seqNo, body)
      ensures View() == R.Store(old(View()), seqNo, p.View())
    {
      if seqNo !in proposals {
        p := new Proposal(body, f);
        proposals := proposals[seqNo := p];
      }
      p := proposals[seqNo];
    }

    /** Writing to one proposal changes that entry of the abstract table and no other. */
    twostate lemma OneEntryChanged(s: nat)
      requires old(Valid()) && proposals == old(proposals) && s in proposals
      requires nextProposalSeq == old(nextProposalSeq) && approvals == old(approvals) && executed == old(executed)
      requires forall t :: t in proposals && t != s ==> unchanged(proposals[t])
      ensures Valid() && View() == R.Store(old(View()), s, proposals[s].View())
    {
      forall t | t in proposals && t != s ensures proposals[t].View() == old(proposals[t].View()) {
        assert unchanged(proposals[t]);
      }
    }

    /** The section under seq_lock_. */
    method TakeNumber() returns (s: nat)
      requires Valid()
      modifies this`nextProposalSeq
      ensures Valid() && s == old(nextProposalSeq) && View() == old(View()).(nextSeq := s + 1)
    {
      s := nextProposalSeq;
      nextProposalSeq := s + 1;
    }

    /** Number a client request, keep its proposal, build the pre-prepare for it. */
    method Preprepare(body: string) returns (currentSeq: nat, m: R.Message)
      requires Valid()
      modifies this
      ensures Valid() && currentSeq == old(nextProposalSeq)
      ensures R.Outcome(View(), R.Some(m)) == R.OnRequest(env, old(View()), body)
    {
      currentSeq := TakeNumber();
      var p := FindOrInsert(currentSeq, body);
      m := R.Message(R.Preprepare, id, currentSeq, env.digest(body), body);
    }

    /** The master's verdict on a stored body. */
    method CheckProposal(seqNo: nat) returns (valid: bool)
      requires Valid() && seqNo in proposals
      modifies this`approvals
      ensures Valid() && valid == env.check(R.Bodies(executed), proposals[seqNo].body)
      ensures View() == old(View()).(approvals := old(approvals) +
                if valid then [R.Approval(seqNo, proposals[seqNo].body, R.Bodies(executed))] else [])
    {
      var history := R.Bodies(executed);
      valid := env.check(history, proposals[seqNo].body);
      if valid {
        approvals := approvals + [R.Approval(seqNo, proposals[seqNo].body, history)];
      }
    }

    /** Handler of pre-prepare messages. */
    method Prepare(m: R.Message, signatureOk: bool) returns (out: R.Option<R.Message>)
      requires Valid()
      modifies this, proposals.Values
      ensures Valid()
      ensures signatureOk ==> R.Outcome(View(), out) == R.OnPreprepare(env, old(View()), m)
      ensures !signatureOk ==> View() == old(View()) && out == R.None
    {
      out := R.None;
      if !signatureOk { return; }
      var p := FindOrInsert(m.seqNo, m.body);
      label found:
      if p.body == "" {
        p.body := m.body;
      }
      OneEntryChanged@found(m.seqNo);
      StoreTwice(old(View()), m.seqNo, old@found(p.View()), p.View());
      assert p.View() == (var q := R.Lookup(old(View()), m.seqNo, m.body); if q.body == "" then q.(body := m.body) else q);
      var valid := CheckProposal(m.seqNo);
      if !valid { return; }
      out := R.Some(R.Message(R.Prepare, id, m.seqNo, env.digest(m.body), ""));
    }

    /** The part Commit and Reply share: find the proposal and push the vote. */
    method RecordVote(m: R.Message) returns (p: Proposal)
      requires Valid()
      modifies this`proposals, proposals.Values
      ensures Valid() && m.seqNo in proposals && proposals[m.seqNo] == p
      ensures forall q :: q in proposals.Values ==> q in old(proposals).Values || fresh(q)
      ensures p.View() == R.UpdateInfo(R.Lookup(old(View()), m.seqNo, m.body), m)
      ensures View() == R.Store(old(View()), m.seqNo, p.View())
    {
      p := FindOrInsert(m.seqNo, m.body);
      label found:
      p.UpdateInfo(m);
      OneEntryChanged@found(m.seqNo);
      StoreTwice(old(View()), m.seqNo, old@found(p.View()), p.View());
    }

    /** Handler of prepare messages. */
    method Commit(m: R.Message, signatureOk: bool) returns (out: R.Option<R.Message>)
      requires Valid()
      modifies this, proposals.Values
      ensures Valid()
      ensures signatureOk ==> R.Outcome(View(), out) == R.OnPrepare(env, old(View()), m)
      ensures !signatureOk ==> View() == old(View()) && out == R.None
    {
      out := R.None;
      if !signatureOk { return; }
      var p := RecordVote(m);
      label recorded:
      var enough := p.CheckVotes(m.mtype);
      if enough {
        if p.prepared { return; }
        p.prepared := true;
        OneEntryChanged@recorded(m.seqNo);
        StoreTwice(old(View()), m.seqNo, old@recorded(p.View()), p.View());
        out := R.Some(R.Message(R.Commit, id, m.seqNo, env.digest(m.body), ""));
      }
    }

    /** Hand a body to the master for execution. */
    method CommitAction(seqNo: nat, body: string)
      requires Valid()
      modifies this`executed
      ensures Valid() && View() == old(View()).(executed := old(executed) + [R.Execution(seqNo, body)])
    {
      executed := executed + [R.Execution(seqNo, body)];
    }

    /** Handler of commit messages; the only place that executes a body. */
    method Reply(m: R.Message, signatureOk: bool)
      requires Valid()
      modifies this, proposals.Values
      ensures Valid()
      ensures signatureOk ==> R.Outcome(View(), R.None) == R.OnCommit(old(View()), m)
      ensures !signatureOk ==> View() == old(View())
    {
      if !signatureOk { return; }
      var p := RecordVote(m);
      var enough := p.CheckVotes(m.mtype);
      if enough && !p.committed && p.body != "" {
        CommitAction(m.seqNo, p.body);
        label acted:
        p.committed := true;
        OneEntryChanged@acted(m.seqNo);
        StoreTwice(old(View()), m.seqNo, old@acted(p.View()), p.View());
      }
    }

    /** One copy of the message to every node that can be reached, in node order: what is put on the
        network is the cluster's Broadcast without the copies to unreachable nodes. */
    method SendMessage(m: R.Message, reachable: seq<bool>) returns (packets: seq<Cluster.Packet>)
      requires |reachable| == nodes
      ensures forall p :: multiset(packets)[p] ==
                if p.dest < nodes && reachable[p.dest] then Cluster.Broadcast(nodes, m)[p] else 0
    {
      packets := [];
      var i := 0;
      while i < nodes
        invariant i <= nodes
        invariant forall p :: multiset(packets)[p] ==
                    if p.dest < i && reachable[p.dest] then Cluster.Broadcast(nodes, m)[p] else 0
      {
        if reachable[i] {
          packets := packets + [Cluster.Packet(m, i)];
        }
        i := i + 1;
      }
    }
  }
}
