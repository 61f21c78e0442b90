# ruccoin: consensus and ledger

A Dafny model of the two halves of a ruccoin node and of the place where they meet.

- The **PBFT replica** (`ruccoin/src/pbft/bft_node.cc`): the normal-case three-phase protocol of
  Castro and Liskov, "Practical Byzantine Fault Tolerance" (OSDI 1999), section 4.2. Handler names are
  shifted by one phase in the program: `Prepare` consumes pre-prepare messages, `Commit` consumes
  prepare messages, `Reply` consumes commit messages.
- The **replicated ledger** (`ruccoin/src/coin_node.cc`): validation and execution of blocks, the
  transaction pool, the hash-linked chain and its recovery from block files.
- The **join**: a prepare vote is gated by `CoinNode::CheckBlock`, a commit runs
  `CoinNode::CommitProposal`.

`dafny verify dfyconfig.toml` checks everything.

## How the modules fit

| module | what it is |
|---|---|
| `Traces` | induction along a run |
| `Quorum` | f = (n-1)/3, thresholds 2f+1, overlaps of finite sets |
| `Replica` | one replica on values: handlers as functions, the invariant of every input |
| `PbftHandler` | the classes `Proposal` and `PBFTHandler`, updated in place, proved to do what `Replica` says |
| `History`, `Justification` | one replica over any sequence of inputs: when it commits, what it has sent and why |
| `Cluster` | n replicas, a network of packets, up to f faulty replicas; the inductive invariant |
| `Safety`, `Completion` | what all runs of the cluster guarantee |
| `Runs` | which systems can be reached, and how to drive one on |
| `Equivocation`, `Disagreement`, `StrayVote` | where the guarantees end: exact conditions, with the runs that show it |
| `Workers` | one `Proposal` shared by any number of RPC threads, lock by lock |
| `Ledger`, `TxPool`, `ChainRecovery`, `Master` | the master node on values |
| `Thresholds` | exactly which lists are validated independently of order, and exactly which run without overdraft once accepted |
| `CoinNode` | the class `CoinNode`, updated in place, proved to do what those modules say |
| `PrimaryLoop` | the primary's whole life: submitting, packing, proposing, committing, restarting |
| `LedgerLink`, `SequentialPrimary` | consensus and ledger together |
| `Codec` | decimal printing, the signing string, the header string, hexadecimal signatures |

The classes come first in faithfulness and the value modules in reasoning: each method's contract
equates the new abstract state with a value function of the old one, so what is proved of runs of the
value functions is proved of the handlers.

## Assumptions

- **Network.** A packet is delivered at most once and may be delayed, reordered or lost (a packet that
  is never delivered). Messages with an invalid signature change nothing, so they are left out of
  runs. `replicaId` is the true sender; the program does not enforce this, since the signing string
  covers neither `replica_id` nor the body and `CheckSignature` uses the key carried in the message.
- **Faulty replicas** (at most f) send anything to anyone, but one message per phase, sequence number
  and recipient; their votes carry no body; pre-prepares come from the primary only. The program
  itself does not de-duplicate votes, so these are limits of what it promises. That a correct replica
  sends one vote per phase and number is proved.
- **Requests** carry a non-empty body, as a printed JSON block always is.
- **Hashes.** No run assumes an injective hash. `PrimaryLoop` assumes of each packed header only that
  the hash function does not confuse its text with a different text of an earlier block of the chain;
  that hashes are then new is proved from the heights. Digests of bodies may collide: agreement does not depend on them.
- **Ledger.** Amounts are integers in millionths of a coin. Where a result needs non-negative amounts
  or known receivers it says so.

Two facts of the code that read like slips are kept: `UpdateBlance` reads both balances before writing
either, so a transfer to oneself adds its value, and `PackBlock` takes up to 81 transactions although
the configured maximum is 80.

## Where the code falls short of its promises

Some properties that one would expect, or that a comment announces, are false of the code. The model
keeps the code as it is; for each there is a run or an input, and the exact condition.

- **Agreement** depends on the primary. `Reply` executes the body it holds and never compares it with a
  digest that was voted for, so one faulty primary, in a cluster of any size that tolerates a fault, makes
  one correct replica execute a body of its choice (`Disagreement`).
- **Prepare certificates** are unique only for n = 3f+1 or f = 0 (`Equivocation`).
- **Completion at the primary**: a stray vote on a number not yet assigned creates the proposal without its
  body, and `Preprepare` does not fill it in; `GetRequest` can then wait for ever (`StrayVote`).
- **Execution order**: numbers are executed as they become complete (`History.ExecutesInOrderExactly`).
- **Packing**: the comment on `PackBlock` in `coin_node.h` announces that transfers are executed in advance
  and dropped without cover. The code does not look at balances, so a packed block can be one that no
  `CheckBlock` accepts, and then the primary never proposes another (`PrimaryLoop.PackedIsAcceptedExactly`,
  `SequentialPrimary.RefusedBlocksTheChain`).
- **Validation** assumes amounts that are not negative without checking it (`Thresholds`).
- **The signing string** prints view and number without a separator; only view 0, which is the one the
  program signs, is unambiguous (`Codec.OnlyViewZeroIsUnambiguous`).

## Model

| member | source | states |
|---|---|---|
| `Quorum.QuorumsShareCorrect` | ruccoin/src/pbft/bft_node.cc:48-69 | with n = 3f+1, any two sets of 2f+1 voters share a correct one |
| `Quorum.QuorumHasCorrectMajority` | ruccoin/src/pbft/bft_node.cc:55-65 | any 2f+1 voters include f+1 correct ones, for every n |
| `Quorum.CorrectReplicasReachThreshold` | ruccoin/src/pbft/bft_node.cc:140 | the correct replicas alone reach 2f+1, for every n |
| `Quorum.OverlapExactly` | ruccoin/src/pbft/bft_node.cc:140 | the overlap argument is available exactly when n = 3f+1 |
| `Quorum.MaxFaultyIsLargest` | ruccoin/src/pbft/bft_node.cc:140 | f = (n-1)/3 is the largest number of failures that leaves 2f+1 correct replicas: g is tolerated iff g <= f |
| `Replica.InputKeepsValid` | ruccoin/src/pbft/bft_node.cc:208-300 | every input keeps: prepared iff some digest has 2f+1 prepare votes; committed only with a body and 2f+1 commit votes; executions are the committed numbers, once each; approvals were given on the history of that moment |
| `Replica.InputGrows` | ruccoin/src/pbft/bft_node.cc:34-46 | no input changes a non-empty body, shortens a vote list or clears a flag |
| `Replica.CheckVotesStays` | ruccoin/src/pbft/bft_node.cc:48-69 | CheckVotes never goes back to false |
| `Replica.InputAddsOwnVote` | ruccoin/src/pbft/bft_node.cc:34-46 | a vote message appends its sender to the list of its phase and digest and to no other |
| `Replica.InputTouchesOne` | ruccoin/src/pbft/bft_node.cc:208-300 | a handler touches only the proposal its message names |
| `Replica.PreprepareAnswer` | ruccoin/src/pbft/bft_node.cc:208-239 | in every state, a replica votes for a pre-prepare iff its master accepts the body it now holds after everything executed so far; a body held is kept, a missing one filled in |
| `Replica.PrepareAnswer` | ruccoin/src/pbft/bft_node.cc:241-271 | in every state, a prepare vote is answered by a commit message iff it is the one that completes a certificate |
| `Replica.CommitAnswer` | ruccoin/src/pbft/bft_node.cc:273-300 | in every state, a commit vote executes the body held iff there is one, 2f+1 votes for a digest, and no earlier execution |
| `PbftHandler.Proposal.UpdateInfo` | ruccoin/src/pbft/bft_node.cc:34-46 | pushes the vote, creating the list when the digest is new |
| `PbftHandler.Proposal.CheckVotes` | ruccoin/src/pbft/bft_node.cc:48-69 | true iff the flag is set or some digest has 2f+1 votes in the phase asked about |
| `PbftHandler.PBFTHandler.Init` | ruccoin/src/pbft/bft_node.cc:139-140 | an empty table, sequence numbers from 0, and for f the largest number of failures the cluster tolerates |
| `PbftHandler.PBFTHandler.Preprepare` | ruccoin/src/pbft/bft_node.cc:84-100 | takes the next number for a request and returns it, keeps the body unless the number is already known, builds the pre-prepare that SendMessage is given |
| `PbftHandler.PBFTHandler.Prepare` | ruccoin/src/pbft/bft_node.cc:208-239 | fills in a missing body, asks the master about the stored one, votes if accepted; ignores bad signatures |
| `PbftHandler.PBFTHandler.Commit` | ruccoin/src/pbft/bft_node.cc:241-271 | records the vote; sends one commit message when 2f+1 are reached |
| `PbftHandler.PBFTHandler.Reply` | ruccoin/src/pbft/bft_node.cc:273-300 | records the vote; executes the stored body once when 2f+1 are reached and the body is there |
| `PbftHandler.PBFTHandler.CheckProposal` | ruccoin/src/pbft/bft_node.cc:302-319 | the master's verdict on the stored body |
| `Replica.InputKeepsExecuted` | ruccoin/src/pbft/bft_node.cc:290-339 | what has been handed to the master is exactly the committed numbers, each once, with the stored body |
| `PbftHandler.PBFTHandler.SendMessage` | ruccoin/src/pbft/bft_node.cc:158-205 | puts on the network one copy for every reachable node and nothing else |
| `History.ReplayValid` | ruccoin/src/pbft/bft_node.cc:208-300 | the replica invariant after any sequence of inputs |
| `History.ReplayGrows` | ruccoin/src/pbft/bft_node.cc:215-296 | the two-state invariant between any two points of a replica's life |
| `History.CommittedExactly` | ruccoin/src/pbft/bft_node.cc:273-300 | a number is committed iff some digest has 2f+1 commit votes and some commit message came after the body |
| `History.RequesterCommitsOnQuorum` | ruccoin/src/pbft/bft_node.cc:71-101 | the replica that numbered a request commits it iff 2f+1 commit votes reached it, so GetRequest is released |
| `History.ExecutesInOrderExactly` | ruccoin/src/pbft/bft_node.cc:273-300 | a replica executes in sequence order iff at no moment a number is complete before a smaller one |
| `History.ExecutesOutOfOrder` | ruccoin/src/pbft/bft_node.cc:290-299 | correct messages for number 1 arriving first are executed first |
| `Justification.OutboxJustified` | ruccoin/src/pbft/bft_node.cc:230-268 | every prepare sent follows an approval and a pre-prepare of that digest; every commit sent follows 2f+1 prepares and carries the digest of the empty body |
| `Justification.PreparedWasSent` | ruccoin/src/pbft/bft_node.cc:257-268 | a prepared replica has sent its commit message |
| `Justification.ApprovalsWereSent` | ruccoin/src/pbft/bft_node.cc:230-238 | an approving replica has sent its prepare message |
| `Justification.RequestsWereSent` | ruccoin/src/pbft/bft_node.cc:95-99 | every numbered request was sent with its body and digest |
| `Justification.EmittedIsFresh` | ruccoin/src/pbft/bft_node.cc:208-271 | what a replica sends next is its first message of that type for that number |
| `Justification.VotersAreReceived` | ruccoin/src/pbft/bft_node.cc:34-46 | a replica holds exactly the votes it received |
| `Justification.VotersAreDistinct` | ruccoin/src/pbft/bft_node.cc:36-43 | the vote vectors hold no replica twice when no message is handled twice |
| `Justification.BodySource` | ruccoin/src/pbft/bft_node.cc:215-227 | a stored body is that of a request numbered here or of a pre-prepare received |
| `Cluster.NextKeepsInv` | ruccoin/src/pbft/bft_node.cc:158-300 | every step of the cluster keeps the invariant on states, network and histories |
| `Cluster.RunInv` | ruccoin/src/pbft/bft_node.cc:158-300 | the invariant at every point of every run, for every n |
| `Cluster.EmittedIsNew` | ruccoin/src/pbft/bft_node.cc:158-300 | a correct replica never sends twice in one phase, number and direction |
| `Safety.ExecutedBodiesAreAssigned` | ruccoin/src/pbft/bft_node.cc:84-300 | with a correct primary, a correct replica executes the assigned body, f+1 correct masters accepted it, and no number is executed twice |
| `Safety.ExecutionsAgree` | ruccoin/src/pbft/bft_node.cc:208-300 | with a correct primary, any two correct replicas, at any two moments, execute the same body for a number |
| `Disagreement.AgreementExactly` | ruccoin/src/pbft/bft_node.cc:230-299 | if masters accept some body to begin with, correct replicas agree in all runs iff the primary is correct |
| `Disagreement.AgreementBySize` | ruccoin/src/pbft/bft_node.cc:140-299 | all runs of all clusters of size n agree iff f = 0 |
| `Disagreement.DisagreeingRun` | ruccoin/src/pbft/bft_node.cc:208-299 | for every cluster with a faulty primary, a run in which a chosen correct replica executes any chosen body, accepted or not, and all others execute another one |
| `Safety.RunGrows` | ruccoin/src/pbft/bft_node.cc:34-300 | the two-state invariant between any two points of a run, at every replica |
| `Safety.CertificatesAgree` | ruccoin/src/pbft/bft_node.cc:34-271 | with n = 3f+1 and any primary, no two correct replicas hold 2f+1 prepare votes for different digests of one number |
| `Safety.CommittedMeansPrepared` | ruccoin/src/pbft/bft_node.cc:257-299 | a number committed anywhere was prepared at some correct replica |
| `Completion.CompletionAtQuiescence` | ruccoin/src/pbft/bft_node.cc:71-300 | when the traffic between correct replicas is delivered and the masters accept what they are asked about, each has broadcast exactly one prepare and one commit per number, holds 2f+1 commit votes, and has committed iff a commit message came after the body |
| `Completion.ApprovedExactly` | ruccoin/src/pbft/bft_node.cc:230-238 | correct replicas have approvals for all they had pre-prepares for iff each master accepts the stored body on the blocks executed by then |
| `Completion.PrimaryCommits` | ruccoin/src/pbft/bft_node.cc:71-82 | with faulty replicas that speak only of assigned numbers, as crashed ones do, the primary has then committed every number it assigned |
| `StrayVote.PrimaryAlwaysCommitsExactly` | ruccoin/src/pbft/bft_node.cc:71-101 | with replicas that are faulty in general, a correct primary commits in all settled systems iff there is none |
| `StrayVote.StuckRun` | ruccoin/src/pbft/bft_node.cc:89-92 | for every cluster with a faulty backup, a run with one stray vote after which all traffic is delivered, the masters accept all they are asked about, and the primary has not committed |
| `Equivocation.CertificatesUniqueExactly` | ruccoin/src/pbft/bft_node.cc:56-140 | certificate uniqueness holds in all runs of a cluster size iff n = 3f+1 or f = 0 |
| `Equivocation.SplittingRun` | ruccoin/src/pbft/bft_node.cc:56-140 | for every other n, a run with certificates for two digests |
| `Equivocation.CertificateIsAssigned` | ruccoin/src/pbft/bft_node.cc:34-271 | with a correct primary every certificate is for the digest of the assigned body, for every n |
| `Workers.ExactlyOnce` | ruccoin/src/pbft/bft_node.cc:255-299 | under every interleaving at most one commit broadcast and one execution; with all workers done, prepared iff some digest has 2f+1 prepare votes |
| `Workers.CommittedExactly` | ruccoin/src/pbft/bft_node.cc:287-299 | under every interleaving, committed iff some commit worker that found 2f+1 votes came to its test-and-set when the body was there |
| `Workers.CommitIsNotLost` | ruccoin/src/pbft/bft_node.cc:255-299 | with all workers done and 2f+1 commit votes, committed if any commit worker started after the body had come |
| `Workers.Serializable` | ruccoin/src/pbft/bft_node.cc:208-300 | with all workers done, the shared proposal and outputs are those of whole handlers run one at a time in some order of the same messages, not necessarily that of real time |
| `Workers.AtomicIsHandler` | ruccoin/src/pbft/bft_node.cc:208-300 | those whole handlers are the handlers of `Replica` |
| `Ledger.AffordableIsCovered` | ruccoin/src/coin_node.cc:355-376 | without negative amounts, the running check accepts iff senders are known and each total outflow is covered by the starting balance |
| `Ledger.VerdictPermutes` | ruccoin/src/coin_node.cc:350-378 | the verdict does not depend on the order of non-negative transfers |
| `Thresholds.AffordableIsPasses` | ruccoin/src/coin_node.cc:355-376 | the running check is one threshold test per sender, whatever the amounts |
| `Thresholds.PeakIsLeast` | ruccoin/src/coin_node.cc:355-376 | the threshold of a sender is the most it has ever sent in total after one of its transfers |
| `Thresholds.OrderIsFreeExactly` | ruccoin/src/coin_node.cc:355-376 | no reordering changes the verdict, whatever the balances, iff each sender's amounts are all non-negative or all equal |
| `Ledger.AcceptedRunsSafely` | ruccoin/src/coin_node.cc:350-406 | an accepted list of non-negative transfers finds each amount at its sender and never makes a balance negative, at any prefix |
| `Thresholds.AcceptanceIsEnoughExactly` | ruccoin/src/coin_node.cc:350-406 | a list runs without overdraft from all balances that accept it iff it does from the least ones that do |
| `Thresholds.MissingGuardExactly` | ruccoin/src/coin_node.cc:350-406 | acceptance rules out overdraft for all lists of amounts of at least lo iff lo is not negative |
| `Ledger.ExecGains` | ruccoin/src/coin_node.cc:393-406 | the final balance of each account in closed form |
| `Ledger.ExecPermutes` | ruccoin/src/coin_node.cc:393-406 | final balances do not depend on the order of transfers |
| `Ledger.ExecConserves` | ruccoin/src/coin_node.cc:393-406 | execution changes the total by exactly the transfers to oneself |
| `Ledger.ChainConserves` | ruccoin/src/coin_node.cc:483-489 | the same over any sequence of committed blocks, with the accounts unchanged |
| `TxPool.TxOrder` | ruccoin/src/structure.h:20-23 | operator< is a strict total order whose equivalence is equality of time stamp and sender |
| `TxPool.StringLessExactly` | ruccoin/src/structure.h:20-23 | strings compare lexicographically: a proper prefix first, otherwise the first difference |
| `TxPool.PoolIsByAge` | ruccoin/src/structure.h:20-23 | the pool has older transactions first, those of one moment by sender |
| `TxPool.InsertKeys` | ruccoin/src/coin_node.cc:124 | insertion adds the key and nothing else |
| `TxPool.InsertAbove` | ruccoin/src/coin_node.cc:124 | insertion leaves smaller positions in place |
| `TxPool.EraseAllMembers` | ruccoin/src/coin_node.cc:491-498 | removal leaves exactly the transactions with other keys, in order |
| `TxPool.EraseAllPrefix` | ruccoin/src/coin_node.cc:491-498 | removing the front of the pool leaves the rest |
| `ChainRecovery.RecoverAccounts` | ruccoin/src/coin_node.cc:408-439 | on any files: a linked path from genesis, used and left-over files make up the input, no left-over file extends the tail |
| `ChainRecovery.RecoverRoundTrip` | ruccoin/src/coin_node.cc:408-439 | the files of a chain of distinct hashes in any order give that chain, with nothing left |
| `CoinNode.CoinNode.AddTransx` | ruccoin/src/coin_node.cc:116-132 | inserts the transaction iff its signature is valid |
| `CoinNode.CoinNode.TryPublishCond` | ruccoin/src/coin_node.cc:135-137 | the guard of the primary's loop in `PrimaryLoop` |
| `CoinNode.CoinNode.PackBlock` | ruccoin/src/coin_node.cc:170-208 | a block on the tail's file with the first 81 pool entries at most, its hash that of the header text; unchanged when the file is missing |
| `Master.HeaderTextRoundTrip` | ruccoin/src/coin_node.cc:226-231 | every header field but the hash can be read back from the text that is hashed |
| `CoinNode.CoinNode.CheckBlock` | ruccoin/src/coin_node.cc:350-378 | accepts iff the block extends the tail, senders are known and never short, whatever the amounts, and no signature is invalid |
| `CoinNode.CoinNode.UpdateBlance` | ruccoin/src/coin_node.cc:393-406 | executes all transfers in order, or those before the first unknown account |
| `CoinNode.CoinNode.RemoveTxFromPool` | ruccoin/src/coin_node.cc:491-498 | erases each listed transaction's key |
| `CoinNode.CoinNode.CommitProposal` | ruccoin/src/coin_node.cc:483-489 | balances, chain, pool and block file after a commit |
| `CoinNode.CoinNode.CheckProposal` | ruccoin/src/coin_node.cc:500-503 | the verdict of CheckBlock |
| `PrimaryLoop.CommitKeepsChain` | ruccoin/src/coin_node.cc:333-489 | writing and appending a block that extends the chain leaves a linked chain of distinct hashes, each readable under its name |
| `CoinNode.CoinNode.ReadBlockChainHash` | ruccoin/src/coin_node.cc:408-439 | the chain and left-over entries of the recovery function |
| `CoinNode.ScratchStep` | ruccoin/src/coin_node.cc:361-375 | the scratch table decides each transfer and is updated at one entry |
| `PrimaryLoop.ChainOverRuns` | ruccoin/src/coin_node.cc:170-489 | over every run: linked chain, heights counting up, no repeated hash, each block stored under its hash, the tail always readable in PackBlock |
| `PrimaryLoop.PackExtends` | ruccoin/src/coin_node.cc:170-207 | the packed block extends the tail with a hash new to the chain |
| `PrimaryLoop.PackedIsAcceptedExactly` | ruccoin/src/coin_node.cc:170-378 | at every moment of every run, the packed block is one CheckBlock accepts iff the balances cover the transfers at the front of the pool |
| `PrimaryLoop.UncoveredIsPacked` | ruccoin/src/coin_node.cc:184-192 | from any start, a valid transaction without cover is packed into a block CheckBlock refuses |
| `PrimaryLoop.PoolConservation` | ruccoin/src/coin_node.cc:116-498 | submitted keys are always those in the pool or in blocks; pool and blocks stay disjoint, and no key is in two blocks, iff no key is submitted again after its commit |
| `PrimaryLoop.Resubmission` | ruccoin/src/coin_node.cc:116-132 | from any start, a run in which a key is submitted again after its commit |
| `PrimaryLoop.BoundedWaiting` | ruccoin/src/coin_node.cc:185-498 | from any moment, also while a block is proposed: a transaction with k smaller ones waiting ahead is in exactly the (k/81+1)-th block packed from then on, if no smaller or equal key arrives later |
| `PrimaryLoop.RecoveryAfterRun` | ruccoin/src/coin_node.cc:333-489 | after any run, any listing of the directory gives the node's chain back |
| `PrimaryLoop.TailDeterminesChain` | ruccoin/src/coin_node.cc:170-231 | without hash collisions, two chains from one genesis that end in the same hash are the same, header by header |
| `PrimaryLoop.CommittedAreStored` | ruccoin/src/coin_node.cc:333-489 | over every run, each committed block can be read back whole under its hash in the chain, and the balances are the fold of the committed blocks |
| `PrimaryLoop.ReplayAfterRecovery` | ruccoin/src/coin_node.cc:408-489 | after any run, executing the files along the recovered chain, from where it started, gives the node's balances |
| `LedgerLink.InOrderExactly` | ruccoin/src/pbft/bft_node.cc:287-299 | correct replicas execute in order iff at each of them no number completes before a smaller one |
| `LedgerLink.NoOverdraft` | ruccoin/src/pbft/bft_node.cc:230-295 | over every run in which that holds: an executed block was accepted by CheckBlock on the ledger it is executed on and overdraws no account there |
| `LedgerLink.ApprovedOnSameChain` | ruccoin/src/coin_node.cc:350-353 | the approval behind an executed block was given on exactly the chain it extends |
| `LedgerLink.ExecutedAreSigned` | ruccoin/src/coin_node.cc:357-358 | over every run with a correct primary, in whatever order, every transaction of every executed block has a valid signature |
| `LedgerLink.BalancesAreFold` | ruccoin/src/coin_node.cc:483-503 | each correct replica's balances are the fold of its blocks and conserve the total up to transfers to oneself |
| `LedgerLink.LedgersAgree` | ruccoin/src/coin_node.cc:483-503 | equally long chains at correct replicas mean equal ledgers |
| `SequentialPrimary.AssignsChain` | ruccoin/src/coin_node.cc:441-470 | a primary that packs on its own ledger and waits for each commit executes in order, keeps a well-formed chain, and assigns a hash-linked chain without repeats |
| `SequentialPrimary.PackedContinuesChain` | ruccoin/src/coin_node.cc:170-207 | what PackBlock makes of the primary's own ledger, whatever the pool, continues the assigned chain with a new hash |
| `SequentialPrimary.SequentialRunsAreSafe` | ruccoin/src/coin_node.cc:350-503 | end to end, from PackBlock and the wait for GetRequest: no overdraft, valid signatures and equal ledgers |
| `SequentialPrimary.RefusedBlocksTheChain` | ruccoin/src/coin_node.cc:441-470 | a block refused on the chain it extends is executed nowhere, and no other is ever assigned |
| `Codec.DecRoundTrip` | ruccoin/src/coin_node.cc:226-231 | decimal printing can be read back |
| `Codec.SigningStringReads` | ruccoin/src/pbft/bft_node.cc:350-406 | a signed string of view 0 reads only as that type and view 0, whatever the lengths |
| `Codec.SigningStringDecodes` | ruccoin/src/pbft/bft_node.cc:350-406 | with digests of one length it equals the string of no other message of any view, type, number or digest |
| `Codec.SameViewDecodes` | ruccoin/src/pbft/bft_node.cc:350-353 | within any one view, equal strings mean equal type, number and digest |
| `Codec.TypeComesFirst` | ruccoin/src/pbft/bft_node.cc:378-394 | the first character is 1, 2 or 3 for pre-prepare, prepare and commit |
| `Codec.SigningRoundTrip` | ruccoin/src/pbft/bft_node.cc:350-353 | view, number and digest stand at their places and can be read back |
| `Codec.OnlyViewZeroIsUnambiguous` | ruccoin/src/pbft/bft_node.cc:404-406 | a view's strings are unambiguous against all views iff the view is 0 |
| `Codec.LengthsMatter` | ruccoin/src/pbft/bft_node.cc:404-406 | for every number but 0, a digest of another length gives a second reading |
| `Codec.HeaderStringExactly` | ruccoin/src/coin_node.cc:226-231 | with hashes of one length, equal header texts mean equal heights, predecessors and Merkle roots |
| `Codec.EncodeHex` | ruccoin/src/utils.cc:256-261 | two digits of 0123456789abcdef per byte |
| `Codec.HexValueExactly` | ruccoin/src/utils.cc:216-219 | the digits of either case have their value, other characters none |
| `Codec.DecodeHex` | ruccoin/src/utils.cc:213-221 | one byte per two characters as the scan reads them, an odd last character ignored |
| `Codec.SignatureRoundTrip` | ruccoin/src/pbft/bft_node.cc:365-416 | decoding an encoded signature gives it back |

## Left out

- Disagreement.AgreementExactly: assumes that masters accept some non-empty body to begin with.
- LedgerLink.NoOverdraft: is about runs in which numbers complete in order at correct replicas; `Reply` does not wait for smaller numbers.
- Completion.PrimaryCommits: is about faulty replicas that only speak of numbers the primary has assigned; `StrayVote.PrimaryAlwaysCommitsExactly` covers the others.
- Workers.Serializable: `UpdateInfo` and the lookup in the proposal table are single steps, although the program pushes votes and inserts proposals outside the lock.
- PrimaryLoop.BoundedWaiting: counts packed blocks; a block that consensus never commits keeps the loop waiting for ever.
- Codec.DecodeHex: no result for a pair whose first character is not a hexadecimal digit (`sscanf` skips blanks, takes signs, and leaves the byte uninitialised otherwise) or that reads `0x`.
- PbftHandler.PBFTHandler.CheckProposal: the `rpc_error` fallbacks of local calls are not modelled; local calls succeed.
- Fixed integer widths: sequence numbers, heights and vote counts are unbounded.
- ECDSA, SHA-256 and random numbers: signature validity is a predicate, hashes and random hashes are given.
- Floating point amounts and their printed rounding.
- View changes, checkpoints and sequence windows: the view is always 0 and every sequence number is accepted.
- Message fields no handler reads: client, time stamp, public key and view are carried along unread.
- Balances after a restart: `Init` reloads the initial user balances over the stored ones; only the hash chain is recovered.
- `ReadBlockChainHash` compares an erased list iterator with the end; the model takes the evident meaning, that the loop stops when no entry was found.
- Block files that cannot be opened or parsed, and the JSON text itself: parsing is a given function from bodies to blocks.
- Mining mode, the reward transaction, block exchange between miners and the worker node: off by default.
- RPC transport, time-outs, logging, LevelDB, configuration files, command-line options, client programs and scripts.
