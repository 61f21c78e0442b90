/** One Proposal shared by any number of RPC worker threads. A handler is not atomic: pushing the
    vote, checking the votes under the lock, and testing and setting the flag under the lock again
    are separate steps, between which other workers run. */
module Workers {
  import opened Quorum
  import opened Replica

  /** Where a worker is in its handler. */
  datatype Pc = Start | Updated | Passed | Sending | Done

  datatype Worker = Worker(m: Message, pc: Pc)

  /** The shared proposal, what the workers have put out, and (as history) the messages in the order
      of their first step on the shared object. */
  datatype Shop = Shop(
    f: nat,
    workers: seq<Worker>,
    p: Proposal,
    broadcasts: nat,
    executed: seq<string>,
    order: seq<Message>)

  datatype Step = Spawn(m: Message) | Run(i: nat)

  function SetBody(p: Proposal, body: string): Proposal {
    if p.body == "" then p.(body := body) else p
  }

  function At(c: Shop, i: nat, pc: Pc): Shop
    requires i < |c.workers|
  {
    c.(workers := c.workers[i := c.workers[i].(pc := pc)])
  }

  /** The first step: fill in the body, or push the vote. */
  function Touch(p: Proposal, m: Message): Proposal {
    if m.mtype == Preprepare then SetBody(p, m.body) else UpdateInfo(p, m)
  }

  function StepStart(c: Shop, i: nat): Shop
    requires i < |c.workers|
  {
    var m := c.workers[i].m;
    At(c, i, if m.mtype == Preprepare then Done else Updated).(p := Touch(c.p, m), order := c.order + [m])
  }

  /** CheckVotes, under the lock. */
  function StepCheck(c: Shop, i: nat): Shop
    requires i < |c.workers|
  {
    At(c, i, if CheckVotes(c.p, c.workers[i].m.mtype, c.f) then Passed else Done)
  }

  /** The test-and-set, under the lock taken again. */
  function StepSet(c: Shop, i: nat): Shop
    requires i < |c.workers|
  {
    if c.workers[i].m.mtype == Prepare then
      if c.p.prepared then At(c, i, Done) else At(c, i, Sending).(p := c.p.(prepared := true))
    else
      if !c.p.committed && c.p.body != "" then
        At(c, i, Done).(p := c.p.(committed := true), executed := c.executed + [c.p.body])
      else At(c, i, Done)
  }

  function RunWorker(c: Shop, i: nat): Shop
    requires i < |c.workers|
  {
    match c.workers[i].pc
    case Start => StepStart(c, i)
    case Updated => StepCheck(c, i)
    case Passed => StepSet(c, i)
    case Sending => At(c, i, Done).(broadcasts := c.broadcasts + 1)
    case Done => c
  }

  /** A new RPC arrives, or some worker takes its next step. */
  function Do(c: Shop, s: Step): Shop
    requires s.Run? ==> s.i < |c.workers|
  {
    match s
    case Spawn(m) => c.(workers := c.workers + [Worker(m, Start)])
    case Run(i) => RunWorker(c, i)
  }

  ghost predicate Next(c: Shop, c': Shop) {
    exists s: Step :: (s.Run? ==> s.i < |c.workers|) && c' == Do(c, s)
  }

  function InitShop(f: nat): Shop {
    Shop(f, [], NewProposal(""), 0, [], [])
  }

  ghost predicate NextAt(run: seq<Shop>, i: int) {
    0 < i < |run| && Next(run[i - 1], run[i])
  }

  ghost predicate IsRun(f: nat, run: seq<Shop>) {
    |run| > 0 && run[0] == InitShop(f) && forall i :: 0 < i < |run| ==> NextAt(run, i)
  }

  // ---------- the handlers as atomic steps ----------

  predicate SameData(p: Proposal, q: Proposal) {
    p.body == q.body && p.prepareVotes == q.prepareVotes && p.commitVotes == q.commitVotes
  }

  /** A whole handler on one proposal without interference. */
  function Atomic(p: Proposal, f: nat, m: Message): Proposal {
    var p1 := UpdateInfo(p, m);
    match m.mtype
    case Preprepare => SetBody(p, m.body)
    case Prepare => if CheckVotes(p1, Prepare, f) then p1.(prepared := true) else p1
    case Commit => if CheckVotes(p1, Commit, f) && p1.body != "" then p1.(committed := true) else p1
  }

  /** These are the handlers of module Replica, seen from one proposal. */
  lemma AtomicIsHandler(env: Env, h: State, m: Message)
    requires m.seqNo in h.proposals
    ensures Receive(env, h, m).state.proposals[m.seqNo] == Atomic(h.proposals[m.seqNo], h.f, m)
  {
  }

  function Sequential(f: nat, ms: seq<Message>): Proposal {
    if ms == [] then NewProposal("") else Atomic(Sequential(f, ms[..|ms| - 1]), f, ms[|ms| - 1])
  }

  lemma SequentialStep(f: nat, ms: seq<Message>, m: Message)
    ensures Sequential(f, ms + [m]) == Atomic(Sequential(f, ms), f, m)
  {
    assert (ms + [m])[..|ms|] == ms;
  }

  lemma AddVoteKeepsQuorum(votes: Votes, d: string, v: nat, f: nat)
    requires HasQuorum(votes, f)
    ensures HasQuorum(AddVote(votes, d, v), f)
  {
    var x :| x in votes && |votes[x]| >= Threshold(f);
    assert x in AddVote(votes, d, v);
  }

  /** A vote never undoes a quorum. */
  lemma UpdateKeepsQuorum(p: Proposal, m: Message, f: nat)
    ensures HasQuorum(p.prepareVotes, f) ==> HasQuorum(UpdateInfo(p, m).prepareVotes, f)
    ensures HasQuorum(p.commitVotes, f) ==> HasQuorum(UpdateInfo(p, m).commitVotes, f)
  {
    if HasQuorum(p.prepareVotes, f) { AddVoteKeepsQuorum(p.prepareVotes, m.digest, m.replicaId, f); }
    if HasQuorum(p.commitVotes, f) { AddVoteKeepsQuorum(p.commitVotes, m.digest, m.replicaId, f); }
  }

  lemma AtomicKeepsFlags(p: Proposal, f: nat, m: Message)
    requires p.prepared <==> HasQuorum(p.prepareVotes, f)
    requires p.committed ==> HasQuorum(p.commitVotes, f) && p.body != ""
    ensures var q := Atomic(p, f, m);
            && (q.prepared <==> HasQuorum(q.prepareVotes, f))
            && (q.committed ==> HasQuorum(q.commitVotes, f) && q.body != "")
  {
    UpdateKeepsQuorum(p, m, f);
  }

  lemma {:induction false} SequentialFlags(f: nat, ms: seq<Message>)
    ensures var p := Sequential(f, ms);
            && (p.prepared <==> HasQuorum(p.prepareVotes, f))
            && (p.committed ==> HasQuorum(p.commitVotes, f) && p.body != "")
  {
    if ms != [] {
      SequentialFlags(f, ms[..|ms| - 1]);
      AtomicKeepsFlags(Sequential(f, ms[..|ms| - 1]), f, ms[|ms| - 1]);
    }
  }

  // ---------- the invariant ----------

  predicate Pending(w: Worker, phase: MType) {
    w.m.mtype == phase && (w.pc == Updated || w.pc == Passed)
  }

  ghost predicate SomePending(c: Shop, phase: MType) {
    exists i: nat :: i < |c.workers| && Pending(c.workers[i], phase)
  }

  function Count(ws: seq<Worker>, pc: Pc): nat {
    if ws == [] then 0 else Count(ws[..|ws| - 1], pc) + (if ws[|ws| - 1].pc == pc then 1 else 0)
  }

  /** The messages whose worker has taken its first step. */
  function Started(ws: seq<Worker>): multiset<Message> {
    if ws == [] then multiset{}
    else Started(ws[..|ws| - 1]) + (if ws[|ws| - 1].pc == Start then multiset{} else multiset{ws[|ws| - 1].m})
  }

  /** The shared data is that of the sequential execution in history order. */
  ghost predicate DataInv(c: Shop) {
    SameData(c.p, Sequential(c.f, c.order))
  }

  /** A flag may lag behind the sequential execution only while a worker is on its way to set it. */
  ghost predicate FlagInv(c: Shop) {
    var q := Sequential(c.f, c.order);
    && (c.p.prepared ==> q.prepared)
    && (q.prepared ==> c.p.prepared || SomePending(c, Prepare))
    && (c.p.committed ==> HasQuorum(c.p.commitVotes, c.f) && c.p.body != "")
    && (q.committed ==> c.p.committed || SomePending(c, Commit))
  }

  ghost predicate OutputInv(c: Shop) {
    && c.executed == (if c.p.committed then [c.p.body] else [])
    && c.broadcasts + Count(c.workers, Sending) == (if c.p.prepared then 1 else 0)
    && multiset(c.order) == Started(c.workers)
  }

  ghost predicate Inv(c: Shop) {
    && DataInv(c) && FlagInv(c) && OutputInv(c)
    && forall i: nat :: i < |c.workers| ==> PassedJustified(c, i)
  }

  ghost predicate PassedJustified(c: Shop, i: nat)
    requires i < |c.workers|
  {
    var w := c.workers[i];
    && (w.m.mtype == Preprepare ==> w.pc == Start || w.pc == Done)
    && (w.pc == Passed && w.m.mtype == Prepare ==> HasQuorum(c.p.prepareVotes, c.f))
    && (w.pc == Passed && w.m.mtype == Commit ==> HasQuorum(c.p.commitVotes, c.f))
  }

  lemma {:induction false} CountUpdate(ws: seq<Worker>, i: nat, w: Worker, pc: Pc)
    requires i < |ws|
    ensures Count(ws[i := w], pc)
         == Count(ws, pc) - (if ws[i].pc == pc then 1 else 0) + (if w.pc == pc then 1 else 0)
  {
    var n := |ws| - 1;
    if i < n {
      assert ws[i := w][..n] == ws[..n][i := w];
      CountUpdate(ws[..n], i, w, pc);
    } else {
      assert ws[i := w][..n] == ws[..n];
    }
  }

  lemma {:induction false} StartedUpdate(ws: seq<Worker>, i: nat, w: Worker)
    requires i < |ws| && w.m == ws[i].m
    requires ws[i].pc == Start || w.pc != Start
    ensures Started(ws[i := w]) == Started(ws) + (if ws[i].pc == Start && w.pc != Start then multiset{w.m} else multiset{})
  {
    var n := |ws| - 1;
    if i < n {
      assert ws[i := w][..n] == ws[..n][i := w];
      StartedUpdate(ws[..n], i, w);
    } else {
      assert ws[i := w][..n] == ws[..n];
    }
  }

  lemma MovedPending(c: Shop, c': Shop, i: nat, phase: MType)
    requires i < |c.workers| == |c'.workers| && SomePending(c, phase)
    requires forall j: nat :: j < |c.workers| && j != i ==> c'.workers[j] == c.workers[j]
    ensures Pending(c.workers[i], phase) || SomePending(c', phase)
  {
    var j: nat :| j < |c.workers| && Pending(c.workers[j], phase);
    assert j != i ==> Pending(c'.workers[j], phase);
  }

  lemma MoveCounts(c: Shop, i: nat, pc: Pc)
    requires i < |c.workers| && (c.workers[i].pc == Start || pc != Start)
    ensures Count(At(c, i, pc).workers, Sending)
         == Count(c.workers, Sending) - (if c.workers[i].pc == Sending then 1 else 0) + (if pc == Sending then 1 else 0)
    ensures Started(At(c, i, pc).workers)
         == Started(c.workers) + (if c.workers[i].pc == Start && pc != Start then multiset{c.workers[i].m} else multiset{})
  {
    CountUpdate(c.workers, i, c.workers[i].(pc := pc), Sending);
    StartedUpdate(c.workers, i, c.workers[i].(pc := pc));
  }

  lemma SpawnKeepsInv(c: Shop, m: Message)
    requires Inv(c)
    ensures Inv(c.(workers := c.workers + [Worker(m, Start)]))
  {
    var c' := c.(workers := c.workers + [Worker(m, Start)]);
    assert c'.workers[..|c.workers|] == c.workers;
    forall phase | SomePending(c, phase) ensures SomePending(c', phase) {
      var j: nat :| j < |c.workers| && Pending(c.workers[j], phase);
      assert Pending(c'.workers[j], phase);
    }
    forall i: nat | i < |c'.workers| ensures PassedJustified(c', i) {
      assert i < |c.workers| ==> PassedJustified(c, i);
    }
  }

  /** A handler leaves the data as its first step does; only the flags depend on the rest. */
  lemma AtomicIsTouch(p: Proposal, f: nat, m: Message)
    ensures SameData(Atomic(p, f, m), Touch(p, m))
  {
  }

  lemma TouchSameData(p: Proposal, q: Proposal, m: Message)
    requires SameData(p, q)
    ensures SameData(Touch(p, m), Touch(q, m))
  {
  }

  lemma AtomicTouches(p: Proposal, q: Proposal, f: nat, m: Message)
    requires SameData(p, q)
    ensures SameData(Touch(p, m), Atomic(q, f, m))
  {
    AtomicIsTouch(q, f, m);
    TouchSameData(p, q, m);
  }

  lemma StartKeepsFlag(c: Shop, i: nat)
    requires Inv(c) && i < |c.workers| && c.workers[i].pc == Start
    ensures var c' := StepStart(c, i);
            && (SomePending(c, Prepare) ==> SomePending(c', Prepare))
            && (SomePending(c, Commit) ==> SomePending(c', Commit))
            && (c.workers[i].m.mtype != Preprepare ==> SomePending(c', c.workers[i].m.mtype))
  {
    var c', m := StepStart(c, i), c.workers[i].m;
    if m.mtype != Preprepare { assert Pending(c'.workers[i], m.mtype); }
    if SomePending(c, Prepare) { MovedPending(c, c', i, Prepare); }
    if SomePending(c, Commit) { MovedPending(c, c', i, Commit); }
  }

  /** What a message does to the flags of the sequential execution. */
  lemma AtomicFlags(q: Proposal, f: nat, m: Message)
    ensures m.mtype != Prepare ==> Atomic(q, f, m).prepared == q.prepared
    ensures m.mtype != Commit ==> Atomic(q, f, m).committed == q.committed
    ensures q.prepared ==> Atomic(q, f, m).prepared
  {
  }

  lemma StartKeepsFlags(c: Shop, i: nat)
    requires Inv(c) && i < |c.workers| && c.workers[i].pc == Start
    ensures FlagInv(StepStart(c, i))
  {
    var c', m := StepStart(c, i), c.workers[i].m;
    var q := Sequential(c.f, c.order);
    SequentialStep(c.f, c.order, m);
    AtomicFlags(q, c.f, m);
    StartKeepsFlag(c, i);
    UpdateKeepsQuorum(c.p, m, c.f);
  }

  lemma StartKeepsOutput(c: Shop, i: nat)
    requires Inv(c) && i < |c.workers| && c.workers[i].pc == Start
    ensures OutputInv(StepStart(c, i))
    ensures forall j: nat :: j < |c.workers| ==> PassedJustified(StepStart(c, i), j)
  {
    var c', m := StepStart(c, i), c.workers[i].m;
    MoveCounts(c, i, c'.workers[i].pc);
    UpdateKeepsQuorum(c.p, m, c.f);
    forall j: nat | j < |c.workers| ensures PassedJustified(c', j) {
      assert PassedJustified(c, j);
    }
  }

  lemma StartKeepsInv(c: Shop, i: nat)
    requires Inv(c) && i < |c.workers| && c.workers[i].pc == Start
    ensures Inv(StepStart(c, i))
  {
    assert DataInv(StepStart(c, i)) by {
      SequentialStep(c.f, c.order, c.workers[i].m);
      AtomicTouches(c.p, Sequential(c.f, c.order), c.f, c.workers[i].m);
    }
    StartKeepsFlags(c, i);
    StartKeepsOutput(c, i);
  }

  lemma CheckKeepsFlags(c: Shop, i: nat)
    requires Inv(c) && i < |c.workers| && c.workers[i].pc == Updated
    ensures FlagInv(StepCheck(c, i))
  {
    var c' := StepCheck(c, i);
    SequentialFlags(c.f, c.order);
    assert PassedJustified(c, i);
    if c'.workers[i].pc == Passed { assert Pending(c'.workers[i], c.workers[i].m.mtype); }
    if SomePending(c, Prepare) { MovedPending(c, c', i, Prepare); }
    if SomePending(c, Commit) { MovedPending(c, c', i, Commit); }
  }

  lemma CheckKeepsInv(c: Shop, i: nat)
    requires Inv(c) && i < |c.workers| && c.workers[i].pc == Updated
    ensures Inv(StepCheck(c, i))
  {
    var c' := StepCheck(c, i);
    CheckKeepsFlags(c, i);
    MoveCounts(c, i, c'.workers[i].pc);
    forall j: nat | j < |c'.workers| ensures PassedJustified(c', j) {
      assert PassedJustified(c, j);
      SequentialFlags(c.f, c.order);
    }
  }

  lemma SetKeepsFlags(c: Shop, i: nat)
    requires Inv(c) && i < |c.workers| && c.workers[i].pc == Passed
    ensures FlagInv(StepSet(c, i))
  {
    var c' := StepSet(c, i);
    SequentialFlags(c.f, c.order);
    assert PassedJustified(c, i);
    if SomePending(c, Prepare) { MovedPending(c, c', i, Prepare); }
    if SomePending(c, Commit) { MovedPending(c, c', i, Commit); }
  }

  lemma OthersStayJustified(c: Shop, c': Shop, i: nat)
    requires i < |c.workers| == |c'.workers| && c'.f == c.f && SameData(c'.p, c.p)
    requires forall j: nat :: j < |c.workers| ==> PassedJustified(c, j)
    requires forall j: nat :: j < |c.workers| && j != i ==> c'.workers[j] == c.workers[j]
    requires c'.workers[i] == c.workers[i].(pc := Done) || (c.workers[i].m.mtype == Prepare && c'.workers[i] == c.workers[i].(pc := Sending))
    ensures forall j: nat :: j < |c.workers| ==> PassedJustified(c', j)
  {
    forall j: nat | j < |c'.workers| ensures PassedJustified(c', j) {
      assert PassedJustified(c, j);
    }
  }

  lemma SetKeepsOutput(c: Shop, i: nat)
    requires Inv(c) && i < |c.workers| && c.workers[i].pc == Passed
    ensures OutputInv(StepSet(c, i))
  {
    assert PassedJustified(c, i);
    MoveCounts(c, i, StepSet(c, i).workers[i].pc);
  }

  /** The test-and-set moves one worker and at most one flag. */
  lemma SetFrame(c: Shop, i: nat)
    requires i < |c.workers|
    ensures var c' := StepSet(c, i);
            && c'.f == c.f && c'.order == c.order && SameData(c'.p, c.p) && |c'.workers| == |c.workers|
            && (c'.workers[i] == c.workers[i].(pc := Done)
                || (c.workers[i].m.mtype == Prepare && c'.workers[i] == c.workers[i].(pc := Sending)))
            && forall j: nat :: j < |c.workers| && j != i ==> c'.workers[j] == c.workers[j]
  {
  }

  lemma SetKeepsData(c: Shop, i: nat)
    requires DataInv(c) && i < |c.workers|
    ensures DataInv(StepSet(c, i))
  {
    SetFrame(c, i);
  }

  lemma SetKeepsJustified(c: Shop, i: nat)
    requires i < |c.workers|
    requires forall j: nat :: j < |c.workers| ==> PassedJustified(c, j)
    ensures forall j: nat :: j < |StepSet(c, i).workers| ==> PassedJustified(StepSet(c, i), j)
  {
    SetFrame(c, i);
    OthersStayJustified(c, StepSet(c, i), i);
  }

  lemma SetKeepsInv(c: Shop, i: nat)
    requires Inv(c) && i < |c.workers| && c.workers[i].pc == Passed
    ensures Inv(StepSet(c, i))
  {
    SetKeepsData(c, i);
    SetKeepsFlags(c, i);
    SetKeepsOutput(c, i);
    SetKeepsJustified(c, i);
  }

  lemma SendKeepsFlags(c: Shop, i: nat)
    requires FlagInv(c) && i < |c.workers| && c.workers[i].pc == Sending
    ensures FlagInv(RunWorker(c, i))
  {
    var c' := RunWorker(c, i);
    if SomePending(c, Prepare) { MovedPending(c, c', i, Prepare); }
    if SomePending(c, Commit) { MovedPending(c, c', i, Commit); }
  }

  lemma SendKeepsOutput(c: Shop, i: nat)
    requires OutputInv(c) && i < |c.workers| && c.workers[i].pc == Sending
    requires forall j: nat :: j < |c.workers| ==> PassedJustified(c, j)
    ensures OutputInv(RunWorker(c, i))
    ensures forall j: nat :: j < |c.workers| ==> PassedJustified(RunWorker(c, i), j)
  {
    MoveCounts(c, i, Done);
    OthersStayJustified(c, RunWorker(c, i), i);
  }

  lemma SendKeepsInv(c: Shop, i: nat)
    requires Inv(c) && i < |c.workers| && c.workers[i].pc == Sending
    ensures Inv(RunWorker(c, i))
  {
    SendKeepsFlags(c, i);
    SendKeepsOutput(c, i);
  }

  lemma RunWorkerKeepsInv(c: Shop, i: nat)
    requires Inv(c) && i < |c.workers|
    ensures Inv(RunWorker(c, i))
  {
    match c.workers[i].pc
    case Start => StartKeepsInv(c, i);
    case Updated => CheckKeepsInv(c, i);
    case Passed => SetKeepsInv(c, i);
    case Sending => SendKeepsInv(c, i);
    case Done =>
  }

  lemma BoundIsFixed(c: Shop, s: Step)
    requires s.Run? ==> s.i < |c.workers|
    ensures Do(c, s).f == c.f
  {
  }

  lemma NextKeepsInv(c: Shop, c': Shop)
    requires Inv(c) && Next(c, c')
    ensures Inv(c') && c'.f == c.f
  {
    var s: Step :| (s.Run? ==> s.i < |c.workers|) && c' == Do(c, s);
    BoundIsFixed(c, s);
    match s
    case Spawn(m) => SpawnKeepsInv(c, m);
    case Run(i) => RunWorkerKeepsInv(c, i);
  }

  lemma {:induction false} RunInv(f: nat, run: seq<Shop>, i: nat)
    requires IsRun(f, run) && i < |run|
    ensures Inv(run[i]) && run[i].f == f
  {
    if i > 0 {
      RunInv(f, run, i - 1);
      assert NextAt(run, i);
      NextKeepsInv(run[i - 1], run[i]);
    }
  }

  // ---------- results ----------

  ghost predicate AllDone(c: Shop) {
    forall i: nat :: i < |c.workers| ==> c.workers[i].pc == Done
  }

  lemma {:induction false} NoneSending(ws: seq<Worker>)
    requires forall i: nat :: i < |ws| ==> ws[i].pc == Done
    ensures Count(ws, Sending) == 0
  {
    if ws != [] { NoneSending(ws[..|ws| - 1]); }
  }

  /** Exactly once, at every moment of every interleaving: at most one commit broadcast, at most one
      execution, and that of the stored body; once the workers are done, the transition to prepared
      has happened exactly when some digest has 2f + 1 prepare votes. */
  lemma ExactlyOnce(f: nat, run: seq<Shop>, i: nat)
    requires IsRun(f, run) && i < |run|
    ensures var c := run[i];
            && c.broadcasts <= 1 && |c.executed| <= 1
            && (c.executed != [] ==> c.executed == [c.p.body] && c.p.body != "" && HasQuorum(c.p.commitVotes, f))
            && (AllDone(c) ==>
                  && (c.p.prepared <==> HasQuorum(c.p.prepareVotes, f))
                  && c.broadcasts == if HasQuorum(c.p.prepareVotes, f) then 1 else 0)
  {
    var c := run[i];
    RunInv(f, run, i);
    SequentialFlags(f, c.order);
    if AllDone(c) { NoneSending(c.workers); }
  }

  // ---------- the committed flag ----------

  /** Between c and c', commit worker i, whose check found the votes, takes its test-and-set and finds a
      body. */
  ghost predicate TestsWithBody(c: Shop, c': Shop, i: nat) {
    && i < |c.workers| && i < |c'.workers| && c.workers[i].m.mtype == Commit
    && c.workers[i].pc == Passed && c'.workers[i].pc == Done && c.p.body != ""
  }

  lemma WorkerCommits(c: Shop, i: nat)
    requires i < |c.workers| && PassedJustified(c, i)
    ensures RunWorker(c, i).p.committed <==> c.p.committed || TestsWithBody(c, RunWorker(c, i), i)
  {
  }

  lemma OtherWorkersStand(c: Shop, i: nat)
    requires i < |c.workers|
    ensures |RunWorker(c, i).workers| == |c.workers|
    ensures forall j: nat :: j < |c.workers| && j != i ==> RunWorker(c, i).workers[j] == c.workers[j]
  {
  }

  lemma OnlyRunnerTests(c: Shop, i: nat, w: nat)
    requires i < |c.workers| && TestsWithBody(c, RunWorker(c, i), w)
    ensures w == i
  {
    OtherWorkersStand(c, i);
  }

  lemma DoCommits(c: Shop, s: Step)
    requires s.Run? ==> s.i < |c.workers|
    requires forall i: nat :: i < |c.workers| ==> PassedJustified(c, i)
    ensures Do(c, s).p.committed <==> c.p.committed || exists w: nat :: TestsWithBody(c, Do(c, s), w)
  {
    match s
    case Spawn(m) =>
      assert forall w: nat :: w < |c.workers| ==> Do(c, s).workers[w] == c.workers[w];
    case Run(i) =>
      WorkerCommits(c, i);
      if w: nat :| TestsWithBody(c, RunWorker(c, i), w) { OnlyRunnerTests(c, i, w); }
  }

  ghost predicate TestAt(run: seq<Shop>, j: nat, w: nat) {
    j + 1 < |run| && TestsWithBody(run[j], run[j + 1], w)
  }

  lemma StepCommits(f: nat, run: seq<Shop>, j: nat)
    requires IsRun(f, run) && j + 1 < |run|
    ensures run[j + 1].p.committed <==> run[j].p.committed || exists w: nat :: TestAt(run, j, w)
  {
    RunInv(f, run, j);
    assert NextAt(run, j + 1);
    var s: Step :| (s.Run? ==> s.i < |run[j].workers|) && run[j + 1] == Do(run[j], s);
    DoCommits(run[j], s);
    var c, c' := run[j], run[j + 1];
    if w: nat :| TestsWithBody(c, c', w) { assert TestAt(run, j, w); }
  }

  lemma TestFoundVotes(f: nat, run: seq<Shop>, j: nat, w: nat)
    requires IsRun(f, run) && TestAt(run, j, w)
    ensures HasQuorum(run[j].p.commitVotes, f)
  {
    RunInv(f, run, j);
    assert PassedJustified(run[j], w);
  }

  /** The one place that commits, at every moment of every interleaving: the number is committed if and
      only if some commit worker that found 2f + 1 votes came to its test-and-set when the body was
      there. */
  lemma {:induction false} CommittedExactly(f: nat, run: seq<Shop>, i: nat)
    requires IsRun(f, run) && i < |run|
    ensures run[i].p.committed <==> exists j: nat, w: nat :: j < i && TestAt(run, j, w)
    ensures forall j: nat, w: nat :: TestAt(run, j, w) ==> HasQuorum(run[j].p.commitVotes, f)
  {
    forall j: nat, w: nat | TestAt(run, j, w) ensures HasQuorum(run[j].p.commitVotes, f) {
      TestFoundVotes(f, run, j, w);
    }
    if i > 0 {
      CommittedExactly(f, run, i - 1);
      StepCommits(f, run, i - 1);
    }
  }

  lemma {:induction false} BodyStays(f: nat, ms: seq<Message>, j: nat)
    requires j < |ms| && ms[j].mtype == Preprepare && ms[j].body != ""
    ensures Sequential(f, ms).body != ""
  {
    var n := |ms| - 1;
    if j < n { BodyStays(f, ms[..n], j); }
  }

  lemma {:induction false} LateCommitCommits(f: nat, ms: seq<Message>, j: nat, k: nat)
    requires j < k < |ms| && ms[j].mtype == Preprepare && ms[j].body != "" && ms[k].mtype == Commit
    requires HasQuorum(Sequential(f, ms).commitVotes, f)
    ensures Sequential(f, ms).committed
    decreases |ms|
  {
    var n := |ms| - 1;
    BodyStays(f, ms[..n], j);
    if ms[n].mtype != Commit { LateCommitCommits(f, ms[..n], j, k); }
  }

  /** No transition is lost to an interleaving: once the workers are done, 2f + 1 commit votes for a
      digest have committed the number if any commit worker took its first step after the body had
      come. (If all of them came before it, the moments of their test-and-sets decide.) */
  lemma CommitIsNotLost(f: nat, run: seq<Shop>, i: nat, j: nat, k: nat)
    requires IsRun(f, run) && i < |run| && AllDone(run[i]) && HasQuorum(run[i].p.commitVotes, f)
    requires j < k < |run[i].order| && run[i].order[j].mtype == Preprepare && run[i].order[j].body != ""
    requires run[i].order[k].mtype == Commit
    ensures run[i].p.committed
  {
    RunInv(f, run, i);
    LateCommitCommits(f, run[i].order, j, k);
  }

  // ---------- serializability ----------

  function Messages(ws: seq<Worker>): seq<Message> {
    seq(|ws|, i requires 0 <= i < |ws| => ws[i].m)
  }

  lemma {:induction false} StartedIsAll(ws: seq<Worker>)
    requires forall i: nat :: i < |ws| ==> ws[i].pc == Done
    ensures Started(ws) == multiset(Messages(ws))
  {
    if ws != [] {
      var pre, w := ws[..|ws| - 1], ws[|ws| - 1];
      StartedIsAll(pre);
      assert Messages(ws) == Messages(pre) + [w.m];
      assert Started(ws) == Started(pre) + multiset{w.m};
    }
  }

  /** The same messages with the pre-prepares moved to the front. */
  function OfBodies(ms: seq<Message>): seq<Message> {
    if ms == [] then [] else OfBodies(ms[..|ms| - 1]) + if ms[|ms| - 1].mtype == Preprepare then [ms[|ms| - 1]] else []
  }

  function OfVotes(ms: seq<Message>): seq<Message> {
    if ms == [] then [] else OfVotes(ms[..|ms| - 1]) + if ms[|ms| - 1].mtype == Preprepare then [] else [ms[|ms| - 1]]
  }

  lemma {:induction false} SplitIsPermutation(ms: seq<Message>)
    ensures multiset(OfBodies(ms) + OfVotes(ms)) == multiset(ms)
  {
    if ms != [] {
      var pre, m := ms[..|ms| - 1], ms[|ms| - 1];
      SplitIsPermutation(pre);
      assert ms == pre + [m];
      assert multiset(OfBodies(pre)) + multiset(OfVotes(pre)) == multiset(pre);
      if m.mtype == Preprepare {
        assert OfBodies(ms) == OfBodies(pre) + [m] && OfVotes(ms) == OfVotes(pre);
      } else {
        assert OfBodies(ms) == OfBodies(pre) && OfVotes(ms) == OfVotes(pre) + [m];
      }
    }
  }

  lemma {:induction false} BodiesFirst(f: nat, ms: seq<Message>)
    ensures var p := Sequential(f, OfBodies(ms));
            p.body == Sequential(f, ms).body && p.prepareVotes == map[] && p.commitVotes == map[] && !p.committed
  {
    if ms != [] {
      var n := |ms| - 1;
      BodiesFirst(f, ms[..n]);
      if ms[n].mtype == Preprepare {
        SequentialStep(f, OfBodies(ms[..n]), ms[n]);
      } else {
        assert OfBodies(ms) == OfBodies(ms[..n]);
      }
    }
  }

  lemma AtomicSameVotes(p: Proposal, q: Proposal, f: nat, m: Message)
    requires m.mtype != Preprepare && p.prepareVotes == q.prepareVotes && p.commitVotes == q.commitVotes
    ensures Atomic(p, f, m).prepareVotes == Atomic(q, f, m).prepareVotes
    ensures Atomic(p, f, m).commitVotes == Atomic(q, f, m).commitVotes
    ensures Atomic(p, f, m).body == p.body
  {
    AtomicIsTouch(p, f, m);
    AtomicIsTouch(q, f, m);
  }

  /** With a body in place, the committed flag keeps up with the commit votes. */
  lemma AtomicCommits(p: Proposal, f: nat, m: Message)
    requires m.mtype != Preprepare && p.body != "" && (HasQuorum(p.commitVotes, f) ==> p.committed)
    ensures HasQuorum(Atomic(p, f, m).commitVotes, f) ==> Atomic(p, f, m).committed
  {
  }

  /** After the bodies, the votes build up as in any other order. */
  lemma {:induction false} VotesAfterBodies(f: nat, bodies: seq<Message>, ms: seq<Message>)
    requires var p := Sequential(f, bodies); p.prepareVotes == map[] && p.commitVotes == map[] && p.body != ""
    ensures var p, q := Sequential(f, bodies + OfVotes(ms)), Sequential(f, ms);
            && p.prepareVotes == q.prepareVotes && p.commitVotes == q.commitVotes
            && p.body == Sequential(f, bodies).body
            && (HasQuorum(p.commitVotes, f) ==> p.committed)
  {
    if ms == [] {
      assert bodies + OfVotes(ms) == bodies;
    } else {
      var n := |ms| - 1;
      VotesAfterBodies(f, bodies, ms[..n]);
      if ms[n].mtype == Preprepare {
        assert OfVotes(ms) == OfVotes(ms[..n]);
      } else {
        var before := bodies + OfVotes(ms[..n]);
        assert bodies + OfVotes(ms) == before + [ms[n]];
        SequentialStep(f, before, ms[n]);
        AtomicSameVotes(Sequential(f, before), Sequential(f, ms[..n]), f, ms[n]);
        AtomicCommits(Sequential(f, before), f, ms[n]);
      }
    }
  }

  /** Serializability: once every worker is done, the shared proposal and the outputs are what the whole
      handlers produce one at a time, in some order of exactly the messages the workers were given. The
      order need not respect real time: a commit worker can finish before the body arrives while one
      that pushed its vote earlier still commits. */
  lemma Serializable(f: nat, run: seq<Shop>, i: nat) returns (order: seq<Message>)
    requires IsRun(f, run) && i < |run| && AllDone(run[i])
    ensures multiset(order) == multiset(Messages(run[i].workers))
    ensures run[i].p == Sequential(f, order)
    ensures run[i].broadcasts == if run[i].p.prepared then 1 else 0
    ensures run[i].executed == if run[i].p.committed then [run[i].p.body] else []
  {
    var c := run[i];
    RunInv(f, run, i);
    SequentialFlags(f, c.order);
    NoneSending(c.workers);
    StartedIsAll(c.workers);
    if c.p.committed {
      order := OfBodies(c.order) + OfVotes(c.order);
      SplitIsPermutation(c.order);
      BodiesFirst(f, c.order);
      VotesAfterBodies(f, OfBodies(c.order), c.order);
      SequentialFlags(f, order);
    } else {
      order := c.order;
    }
  }
}
