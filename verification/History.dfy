/** What a replica does over its whole life: the state after any sequence of inputs, and the exact
    condition under which a sequence number gets committed. PBFTHandler::Reply is the only place
    that commits, so a body arriving after the last commit message is never executed. */
module History {
  import opened Quorum
  import opened Replica

  function Replay(env: Env, id: nat, f: nat, evs: seq<Event>): State {
    if evs == [] then Init(id, f)
    else Apply(env, Replay(env, id, f, evs[..|evs| - 1]), evs[|evs| - 1]).state
  }

  lemma {:induction false} ReplayStep(env: Env, id: nat, f: nat, evs: seq<Event>, e: Event)
    ensures Replay(env, id, f, evs + [e]) == Apply(env, Replay(env, id, f, evs), e).state
  {
    assert (evs + [e])[..|evs|] == evs;
  }

  lemma {:induction false} ReplayValid(env: Env, id: nat, f: nat, evs: seq<Event>)
    ensures Valid(env, Replay(env, id, f, evs))
    ensures Replay(env, id, f, evs).f == f && Replay(env, id, f, evs).id == id
  {
    if evs == [] {
      InitValid(env, id, f);
    } else {
      ReplayValid(env, id, f, evs[..|evs| - 1]);
      InputKeepsValid(env, Replay(env, id, f, evs[..|evs| - 1]), evs[|evs| - 1]);
    }
  }

  lemma GrowsRefl(h: State)
    ensures Grows(h, h)
  {
    assert forall s, t, d :: Voters(h, s, t, d) <= Voters(h, s, t, d);
  }

  lemma GrowsTrans(a: State, b: State, c: State)
    requires Grows(a, b) && Grows(b, c)
    ensures Grows(a, c)
  {
    forall s ensures Body(a, s) != "" ==> Body(c, s) == Body(a, s) {
      assert Body(a, s) != "" ==> Body(b, s) == Body(a, s);
    }
    forall s, t, d ensures Voters(a, s, t, d) <= Voters(c, s, t, d) {
      assert Voters(a, s, t, d) <= Voters(b, s, t, d) <= Voters(c, s, t, d);
    }
    forall s ensures IsPrepared(a, s) ==> IsPrepared(c, s) {
      assert IsPrepared(a, s) ==> IsPrepared(b, s);
    }
    forall s ensures IsCommitted(a, s) ==> IsCommitted(c, s) {
      assert IsCommitted(a, s) ==> IsCommitted(b, s);
    }
  }

  /** The two-state invariant between any two points of a replica's life. */
  lemma {:induction false} ReplayGrows(env: Env, id: nat, f: nat, evs: seq<Event>, k: nat)
    requires k <= |evs|
    ensures Grows(Replay(env, id, f, evs[..k]), Replay(env, id, f, evs))
    decreases |evs|
  {
    if k == |evs| {
      assert evs[..k] == evs;
      GrowsRefl(Replay(env, id, f, evs));
    } else {
      var n := |evs| - 1;
      assert evs[..n][..k] == evs[..k];
      ReplayGrows(env, id, f, evs[..n], k);
      InputGrows(env, Replay(env, id, f, evs[..n]), evs[n]);
      GrowsTrans(Replay(env, id, f, evs[..k]), Replay(env, id, f, evs[..n]), Replay(env, id, f, evs));
    }
  }

  /** Prepare and commit messages are built without a body. */
  ghost predicate VotesCarryNoBody(evs: seq<Event>) {
    forall e :: e in evs && e.Received? && e.m.mtype != Preprepare ==> e.m.body == ""
  }

  predicate IsCommitFor(e: Event, s: nat) {
    e.Received? && e.m.mtype == Commit && e.m.seqNo == s
  }

  /** The k-th input is a commit message for s that finds the body of s already there. */
  ghost predicate CommitAfterBody(env: Env, id: nat, f: nat, evs: seq<Event>, s: nat, k: nat) {
    k < |evs| && IsCommitFor(evs[k], s) && Body(Replay(env, id, f, evs[..k]), s) != ""
  }

  lemma PrefixCommitAfterBody(env: Env, id: nat, f: nat, evs: seq<Event>, s: nat, k: nat, n: nat)
    requires k < n <= |evs|
    ensures CommitAfterBody(env, id, f, evs[..n], s, k) <==> CommitAfterBody(env, id, f, evs, s, k)
  {
    assert evs[..n][..k] == evs[..k];
  }

  lemma {:induction false} CommittedOnlyAfterBody(env: Env, id: nat, f: nat, evs: seq<Event>, s: nat)
    requires VotesCarryNoBody(evs) && IsCommitted(Replay(env, id, f, evs), s)
    ensures exists k :: CommitAfterBody(env, id, f, evs, s, k)
    decreases |evs|
  {
    var n := |evs| - 1;
    var h := Replay(env, id, f, evs[..n]);
    if IsCommitted(h, s) {
      CommittedOnlyAfterBody(env, id, f, evs[..n], s);
      var k :| CommitAfterBody(env, id, f, evs[..n], s, k);
      PrefixCommitAfterBody(env, id, f, evs, s, k, n);
    } else {
      if s != Touched(h, evs[n]) { InputTouchesOne(env, h, evs[n], s); }
      assert evs[n] in evs;
      assert CommitAfterBody(env, id, f, evs, s, n);
    }
  }

  lemma {:induction false} CommitAfterBodyCommits(env: Env, id: nat, f: nat, evs: seq<Event>, s: nat, k: nat)
    requires CommitAfterBody(env, id, f, evs, s, k)
    requires Certified(Replay(env, id, f, evs), s, Commit)
    ensures IsCommitted(Replay(env, id, f, evs), s)
    decreases |evs|
  {
    var n := |evs| - 1;
    var h, e := Replay(env, id, f, evs[..n]), evs[n];
    InputGrows(env, h, e);
    if IsCommitFor(e, s) {
      assert evs[..n][..k] == evs[..k];
      ReplayGrows(env, id, f, evs[..n], k);
      assert Body(h, s) != "";
      QuorumIsCertificate(Apply(env, h, e).state, s);
    } else {
      PrefixCommitAfterBody(env, id, f, evs, s, k, n);
      OtherInputsAddNoVote(env, h, e, s, Commit);
      CommitAfterBodyCommits(env, id, f, evs[..n], s, k);
    }
  }

  /** When a sequence number is committed, for every sequence of inputs: some digest has 2f + 1
      commit votes and some commit message arrived after the body. */
  lemma CommittedExactly(env: Env, id: nat, f: nat, evs: seq<Event>, s: nat)
    requires VotesCarryNoBody(evs)
    ensures IsCommitted(Replay(env, id, f, evs), s) <==>
            && Certified(Replay(env, id, f, evs), s, Commit)
            && exists k :: CommitAfterBody(env, id, f, evs, s, k)
  {
    var h := Replay(env, id, f, evs);
    ReplayValid(env, id, f, evs);
    if IsCommitted(h, s) {
      CommittedOnlyAfterBody(env, id, f, evs, s);
    }
    if Certified(h, s, Commit) && exists k :: CommitAfterBody(env, id, f, evs, s, k) {
      var k :| CommitAfterBody(env, id, f, evs, s, k);
      CommitAfterBodyCommits(env, id, f, evs, s, k);
    }
  }

  /** The k-th input is the client request that was given number s, and no message about s was
      handled before it. */
  ghost predicate RequestedFirst(env: Env, id: nat, f: nat, evs: seq<Event>, s: nat, k: nat) {
    && k < |evs| && evs[k].Requested? && evs[k].body != ""
    && Replay(env, id, f, evs[..k]).nextSeq == s
    && (forall i :: 0 <= i < k && evs[i].Received? ==> evs[i].m.seqNo != s)
  }

  lemma {:induction false} UnmentionedIsAbsent(env: Env, id: nat, f: nat, evs: seq<Event>, s: nat)
    requires Replay(env, id, f, evs).nextSeq <= s
    requires forall i :: 0 <= i < |evs| && evs[i].Received? ==> evs[i].m.seqNo != s
    ensures s !in Replay(env, id, f, evs).proposals
  {
    if evs != [] {
      var n := |evs| - 1;
      UnmentionedIsAbsent(env, id, f, evs[..n], s);
      InputTouchesOne(env, Replay(env, id, f, evs[..n]), evs[n], s);
    }
  }

  lemma {:induction false} CertifiedNeedsCommit(env: Env, id: nat, f: nat, evs: seq<Event>, s: nat) returns (k: nat)
    requires Certified(Replay(env, id, f, evs), s, Commit)
    ensures k < |evs| && IsCommitFor(evs[k], s)
    decreases |evs|
  {
    InitUncertified(id, f, s, Commit);
    var n := |evs| - 1;
    if IsCommitFor(evs[n], s) { return n; }
    OtherInputsAddNoVote(env, Replay(env, id, f, evs[..n]), evs[n], s, Commit);
    k := CertifiedNeedsCommit(env, id, f, evs[..n], s);
  }

  lemma BodyKnownSinceRequest(env: Env, id: nat, f: nat, evs: seq<Event>, s: nat, k: nat)
    requires RequestedFirst(env, id, f, evs, s, k)
    ensures Body(Replay(env, id, f, evs), s) == evs[k].body
    ensures s !in Replay(env, id, f, evs[..k]).proposals
  {
    UnmentionedIsAbsent(env, id, f, evs[..k], s);
    assert evs[..k + 1][..k] == evs[..k];
    assert Body(Replay(env, id, f, evs[..k + 1]), s) == evs[k].body;
    ReplayGrows(env, id, f, evs, k + 1);
  }

  /** The replica that numbered the request releases GetRequest exactly when 2f + 1 commit votes
      have reached it: its own body can never be late. */
  lemma RequesterCommitsOnQuorum(env: Env, id: nat, f: nat, evs: seq<Event>, s: nat, k: nat)
    requires VotesCarryNoBody(evs) && RequestedFirst(env, id, f, evs, s, k)
    ensures IsCommitted(Replay(env, id, f, evs), s) <==> Certified(Replay(env, id, f, evs), s, Commit)
    ensures Body(Replay(env, id, f, evs), s) == evs[k].body
  {
    BodyKnownSinceRequest(env, id, f, evs, s, k);
    CommittedExactly(env, id, f, evs, s);
    if Certified(Replay(env, id, f, evs), s, Commit) {
      var j := CertifiedNeedsCommit(env, id, f, evs, s);
      assert j > k;
      assert evs[..j][..k] == evs[..k];
      BodyKnownSinceRequest(env, id, f, evs[..j], s, k);
      assert CommitAfterBody(env, id, f, evs, s, j);
    }
  }

  lemma ReplayTwo(env: Env, id: nat, f: nat, evs: seq<Event>, e1: Event, e2: Event)
    ensures Replay(env, id, f, evs + [e1, e2])
         == Apply(env, Apply(env, Replay(env, id, f, evs), e1).state, e2).state
  {
    assert evs + [e1, e2] == (evs + [e1]) + [e2];
    ReplayStep(env, id, f, evs, e1);
    ReplayStep(env, id, f, evs + [e1], e2);
  }

  // ---------- execution order ----------

  /** The i-th execution is of number i. */
  ghost predicate ExecutedInOrder(h: State) {
    forall k :: 0 <= k < |h.executed| ==> h.executed[k].seqNo == k
  }

  /** What completes number s at a replica: 2f + 1 commit votes for one digest, and some commit message
      after the body. */
  ghost predicate Complete(env: Env, id: nat, f: nat, evs: seq<Event>, s: nat) {
    Certified(Replay(env, id, f, evs), s, Commit) && exists k :: CommitAfterBody(env, id, f, evs, s, k)
  }

  /** At every moment, the complete numbers are an initial part of all numbers. */
  ghost predicate CompletesInOrder(env: Env, id: nat, f: nat, evs: seq<Event>) {
    forall n, s, t :: 0 <= n <= |evs| && 0 <= s < t && Complete(env, id, f, evs[..n], t) ==> Complete(env, id, f, evs[..n], s)
  }

  lemma CompleteIsCommitted(env: Env, id: nat, f: nat, evs: seq<Event>, n: nat, s: nat)
    requires VotesCarryNoBody(evs) && n <= |evs|
    ensures Complete(env, id, f, evs[..n], s) <==> IsCommitted(Replay(env, id, f, evs[..n]), s)
  {
    assert forall e :: e in evs[..n] ==> e in evs;
    CommittedExactly(env, id, f, evs[..n], s);
  }

  /** In order, the committed numbers are those below the number of executions. */
  lemma CommittedBelow(env: Env, h: State, s: nat)
    requires Valid(env, h) && ExecutedInOrder(h)
    ensures IsCommitted(h, s) <==> s < |h.executed|
  {
    if IsCommitted(h, s) {
      var i :| 0 <= i < |h.executed| && h.executed[i].seqNo == s;
    }
    if s < |h.executed| { assert h.executed[s].seqNo == s; }
  }

  lemma InOrderCompletes(env: Env, id: nat, f: nat, evs: seq<Event>, n: nat, s: nat, t: nat)
    requires VotesCarryNoBody(evs) && ExecutedInOrder(Replay(env, id, f, evs)) && n <= |evs|
    requires s < t && Complete(env, id, f, evs[..n], t)
    ensures Complete(env, id, f, evs[..n], s)
  {
    var h := Replay(env, id, f, evs[..n]);
    ReplayGrows(env, id, f, evs, n);
    ReplayValid(env, id, f, evs[..n]);
    CompleteIsCommitted(env, id, f, evs, n, s);
    CompleteIsCommitted(env, id, f, evs, n, t);
    CommittedBelow(env, h, s);
    CommittedBelow(env, h, t);
  }

  lemma InputExecutesOne(env: Env, h: State, e: Event)
    ensures var h' := Apply(env, h, e).state;
            h'.executed == h.executed || exists x :: h'.executed == h.executed + [x]
  {
    var h' := Apply(env, h, e).state;
    if h'.executed != h.executed {
      assert h'.executed == h.executed + [Execution(e.m.seqNo, Body(h', e.m.seqNo))];
    }
  }

  /** A new execution that leaves no gap among the committed numbers is the next one. */
  lemma NoGapNoJump(env: Env, h: State, h': State)
    requires Valid(env, h) && Valid(env, h') && ExecutedInOrder(h)
    requires h'.executed == h.executed || exists x :: h'.executed == h.executed + [x]
    requires forall s, t :: 0 <= s < t && IsCommitted(h', t) ==> IsCommitted(h', s)
    ensures ExecutedInOrder(h')
  {
    if h'.executed != h.executed {
      var k := |h.executed|;
      var t := h'.executed[k].seqNo;
      assert IsCommitted(h', t);
      assert forall j :: 0 <= j < k ==> h'.executed[j].seqNo == j;
      if t < k {
        assert h'.executed[t].seqNo == t;
      } else if t > k {
        assert IsCommitted(h', k);
        var i :| 0 <= i < |h'.executed| && h'.executed[i].seqNo == k;
      }
    }
  }

  lemma CompletesInOrderBefore(env: Env, id: nat, f: nat, evs: seq<Event>, n: nat)
    requires CompletesInOrder(env, id, f, evs) && n <= |evs|
    ensures CompletesInOrder(env, id, f, evs[..n])
  {
    forall m, s, t | 0 <= m <= n && 0 <= s < t && Complete(env, id, f, evs[..n][..m], t)
      ensures Complete(env, id, f, evs[..n][..m], s)
    {
      assert evs[..n][..m] == evs[..m];
    }
  }

  lemma {:induction false} CompletionOrderExecutes(env: Env, id: nat, f: nat, evs: seq<Event>)
    requires VotesCarryNoBody(evs) && CompletesInOrder(env, id, f, evs)
    ensures ExecutedInOrder(Replay(env, id, f, evs))
  {
    if evs != [] {
      var n := |evs| - 1;
      var h, h' := Replay(env, id, f, evs[..n]), Replay(env, id, f, evs);
      assert forall e :: e in evs[..n] ==> e in evs;
      CompletesInOrderBefore(env, id, f, evs, n);
      CompletionOrderExecutes(env, id, f, evs[..n]);
      ReplayValid(env, id, f, evs[..n]);
      ReplayValid(env, id, f, evs);
      InputExecutesOne(env, h, evs[n]);
      assert evs[..|evs|] == evs;
      forall s, t | 0 <= s < t && IsCommitted(h', t) ensures IsCommitted(h', s) {
        CompleteIsCommitted(env, id, f, evs, |evs|, s);
        CompleteIsCommitted(env, id, f, evs, |evs|, t);
      }
      NoGapNoJump(env, h, h');
    }
  }

  /** When a replica executes in sequence order, for every sequence of inputs: if and only if at every
      moment no number is complete before a smaller one. */
  lemma ExecutesInOrderExactly(env: Env, id: nat, f: nat, evs: seq<Event>)
    requires VotesCarryNoBody(evs)
    ensures ExecutedInOrder(Replay(env, id, f, evs)) <==> CompletesInOrder(env, id, f, evs)
  {
    if ExecutedInOrder(Replay(env, id, f, evs)) {
      forall n, s, t | 0 <= n <= |evs| && 0 <= s < t && Complete(env, id, f, evs[..n], t)
        ensures Complete(env, id, f, evs[..n], s)
      {
        InOrderCompletes(env, id, f, evs, n, s, t);
      }
    }
    if CompletesInOrder(env, id, f, evs) { CompletionOrderExecutes(env, id, f, evs); }
  }

  /** The messages of a correct replica 0 that is primary. */
  function PreprepareOf(env: Env, s: nat, body: string): Event {
    Received(Message(Preprepare, 0, s, env.digest(body), body))
  }

  function CommitOf(env: Env, s: nat): Event {
    Received(Message(Commit, 0, s, env.digest(""), ""))
  }

  /** With f = 0, a pre-prepare and one commit vote complete a number. */
  lemma TwoMessagesComplete(env: Env, h: State, s: nat, body: string)
    requires h.f == 0 && s !in h.proposals && body != ""
    ensures var h' := Apply(env, Apply(env, h, PreprepareOf(env, s, body)).state, CommitOf(env, s)).state;
            && h'.executed == h.executed + [Execution(s, body)]
            && h'.f == 0 && h'.proposals.Keys == h.proposals.Keys + {s}
  {
    var h1 := Apply(env, h, PreprepareOf(env, s, body)).state;
    assert h1.proposals[s] == NewProposal(body);
    var d := env.digest("");
    var votes := AddVote(map[], d, 0);
    assert d in votes && |votes[d]| >= Threshold(0);
    assert HasQuorum(votes, 0);
  }

  lemma TwoMoreMessages(env: Env, id: nat, evs: seq<Event>, s: nat, body: string)
    requires s !in Replay(env, id, 0, evs).proposals && body != ""
    ensures var h, h' := Replay(env, id, 0, evs), Replay(env, id, 0, evs + [PreprepareOf(env, s, body), CommitOf(env, s)]);
            h'.executed == h.executed + [Execution(s, body)] && h'.proposals.Keys == h.proposals.Keys + {s}
  {
    ReplayValid(env, id, 0, evs);
    ReplayTwo(env, id, 0, evs, PreprepareOf(env, s, body), CommitOf(env, s));
    TwoMessagesComplete(env, Replay(env, id, 0, evs), s, body);
  }

  /** Numbers are executed as they become complete, not in their order: a replica that hears about
      number 1 first executes it first. */
  lemma ExecutesOutOfOrder(env: Env, id: nat, a: string, b: string)
    requires a != "" && b != ""
    ensures var evs := [PreprepareOf(env, 1, b), CommitOf(env, 1)] + [PreprepareOf(env, 0, a), CommitOf(env, 0)];
            VotesCarryNoBody(evs) && Replay(env, id, 0, evs).executed == [Execution(1, b), Execution(0, a)]
  {
    var first := [PreprepareOf(env, 1, b), CommitOf(env, 1)];
    TwoMoreMessages(env, id, [], 1, b);
    assert [] + first == first;
    TwoMoreMessages(env, id, first, 0, a);
  }
}
