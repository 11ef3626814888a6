# Verified model of a Raft-backed task broker

This project models, in Dafny, the core of a document-indexing pipeline: a Raft
implementation (leader election and log replication after Ongaro and Ousterhout,
"In Search of an Understandable Consensus Algorithm", Figure 2 and sections
5.2-5.4), the task broker that runs on top of it, the chunking and point-id code
that makes indexing idempotent, and the client's search for the leader.

To verify the whole project, run `dafny verify dfyconfig.toml`.

## How it is built

**Raft.** `RaftLog` and `RaftServer` hold the imperative code: `Log` and `Raft`
are classes with the original's fields, arrays and loops, one method per critical
section. Every method is proved to compute a function of `RaftNode`, which gives
each critical section as a function on node values. `RaftCluster` composes those
same functions into a transition system over any number of nodes and a grow-only
set of sent messages, so that loss, duplication, delay and reordering are all
covered. `RaftInvariant` states the invariant, `RaftPreservation`, `RaftElection`
and `RaftReplication` prove that every step keeps it, and `RaftSafety` draws the
theorems about whole runs. `RaftEffects` says over the fields of nodes and messages
what each step of a run does, and how terms spread. A run is a pair of step and state sequences
(`Execution`); most theorems compare two arbitrary moments of one run.

The invariant rests on a history that no node reads: for each won term the voters,
the winner's log at the election (`base`) and the log it went on to build; every
vote; and for each node and term the longest prefix of that term's leader log the
node has stored (`acks`). A vote carries, for everything its voter acknowledged, the
alternative "the candidate's log keeps it, or some leader elected in between
started without it". An acknowledged majority excludes the second alternative
by induction on the term: that is leader completeness.

`CatchUp` runs the retry loop of `sendAppendEntries` over two `Raft` objects.
`StaleReply` settles two comment invariants on the leader's arrays.

**Broker.** `Codec` is the command encoding with Base64 (section 4 of RFC 4648,
with the line-break skipping of Go's decoder). `TaskState` gives the broker's
critical sections as functions, `BrokerServer` the imperative class that computes
them, `TaskFold` what a sequence of commands leaves behind, `Scheduler` the runs of
one node's task table. `Acknowledgement` puts brokers on top of the Raft cluster, with `proposeAndWait` calls as interleaved
steps (Start, late registration, slot overwrite, apply, wake-up, time-out).
`BrokerRefinement` ties the broker objects to those steps: a table of `PendingOp`
objects mirrors the slots and calls, and every critical section keeps the mirror.
`LateRegistration` gives the run behind a negative result below.

**Indexing and client.** `PointId` (FNV-1a), `PointDistance` (how far apart it keeps
similar ids), `Chunking`, `Indexing`, `LeaderDiscovery`.

## Where code and comments differ

The model follows the code.

- The comment at raft/raft.go:106, `matchIndex < nextIndex` always, is not kept:
  `StaleReply.MatchBelowNextFails` is a reachable run of two nodes that ends with
  the two equal. `StaleReply.MatchBelowNextExactly` says for every node at every moment
  of every run when it holds: if and only if the node has won an election, or recorded
  news of the peer, after which no rejection from that peer came late, that is, for the
  current term while nextIndex is exactly one above matchIndex (and above 1).
- The comment at raft/raft.go:101, `nextIndex >= 1` always, fails in the initial state
  (`StaleReply.BothFailInitially`). `StaleReply.NextIndexIsPositiveExactly` proves that at
  every moment of every run it holds, for each peer, if and only if the node has won an
  election by then, whether or not it still leads.
- The comment at raft/raft.go:88 says that `commitIndex <= lastApplied` is never true. It is
  true in the initial state, and `RaftSafety.NothingPendingExactly` proves that it is true
  at a moment of a run if and only if the node has delivered all it has committed. The
  comment at line 93, `lastApplied <= commitIndex`, always holds.
- raft/raft.go:360-364 clamps the commit index to the follower's own last index, not to
  the index of the last new entry as Figure 2 does. `RaftSafety.ClampAgreesWithFigure2`
  proves that in every run the two rules give the same result.
- A candidate that accepts an AppendEntries of its own term stays a candidate
  (raft/raft.go:321-327). Election safety is therefore proved from vote quorums alone.
- A false answer of `proposeAndWait` does not mean that nothing was committed:
  `LateRegistration.FalseDoesNotMeanUncommitted` is a run. `Acknowledgement.AnswerIsExact`
  gives the exact condition: the answer tells whether the call's own command has been
  delivered, unless and only unless the call times out when a message of its own term
  has already been delivered at its index. A call that is woken with another term is
  right for good (`Acknowledgement.OverwrittenIsNeverDelivered`), and one whose index
  was applied before it registered can only fail (`Acknowledgement.MissedCallsFail`).

## Assumptions

- Node ids are 0..N-1, because nextIndex and matchIndex are indexed by id.
- A crash is stopping forever: the state the original calls persistent is in memory
  only, so a restarted node would be a new one.
- Timers fire at any time; a critical section under the mutex is one atomic step. The
  clock is a number that does not decrease from one section to the next; a scan reads it
  anew for every task.
- Integers are unbounded where the original has int64 terms and indices; `ChunkText`
  checks its additions against the 64-bit bound.
- `votes` of an election is 1 plus the number of peers whose granted reply was
  counted, as each peer is asked once per election.
- Replies may be handled more than once in the model, which adds runs; two
  concurrent senders with equal requests do produce equal replies.
- The draining loop of a killed node may still deliver what was already committed.

## Model

| member | source | states |
|---|---|---|
| `RaftLog.Log.constructor` | internal/log/log.go:28-32 | a new log holds the sentinel only, so its contents are empty |
| `RaftLog.Log.Append` | internal/log/log.go:34-42 | the contents grow by exactly the entry at the end, and every entry still carries its position; the index the original panics over is the precondition |
| `RaftLog.Log.At` | internal/log/log.go:44-51 | succeeds exactly for indices 1 to the last, with the entry of that index, and otherwise yields the sentinel |
| `RaftLog.Log.LastIndex` | internal/log/log.go:53-57 | is the number of entries without the sentinel |
| `RaftLog.Log.LastTerm` | internal/log/log.go:59-62 | is the term of the last entry, 0 for an empty log |
| `RaftLog.Log.Truncate` | internal/log/log.go:64-71 | keeps exactly the entries before the index; an index out of range changes nothing |
| `RaftLog.Log.Entries` | internal/log/log.go:73-89 | is the slice of the contents with index in [from, to), clipped to the log, with consecutive indices |
| `RaftNode.Quorum` | raft/raft.go:678-681 | is the smallest majority |
| `Majority.QuorumsMeet` | raft/raft.go:678-681 | two majorities of the cluster share a node |
| `RaftNode.CommitFrom` | raft/raft.go:623-646 | is the highest index above the commit index that is of the current term and held by a majority, or the commit index if there is none |
| `RaftServer.Raft.constructor` | raft/raft.go:154-170 | a new node is a follower in term 0 with an empty log |
| `RaftServer.Raft.Start` | raft/raft.go:205-230 | on a leader appends the command at the next index in the current term and returns that index and term; elsewhere changes nothing |
| `RaftServer.Raft.GetState` | raft/raft.go:233-237 | reports term and leadership |
| `RaftServer.Raft.Kill` | raft/raft.go:240-245 | only marks the node dead |
| `RaftServer.Raft.StepDown` | raft/raft.go:396-401 | computes the protocol's step to follower of a term |
| `RaftServer.Raft.RequestVote` | raft/raft.go:265-302 | the in-place handler computes exactly the vote step of the protocol, new state and reply; what that step is, is said by `VoteIsGrantedExactly`, `VoteIsRecorded` and `AnswerTellsTerm` |
| `RaftServer.Raft.MergeEntries` | raft/raft.go:339-357 | the truncate/skip/append loop leaves exactly the merge of the old log and the entries; it is demanded only that the entries from the first disagreement on carry their positions, which is what `Append` panics over |
| `RaftServer.Raft.AppendEntries` | raft/raft.go:311-372 | the in-place handler computes exactly the append step of the protocol, new state and reply, for every request that it rejects and every one that it can append |
| `RaftServer.WellFormedIsAppendable` | raft/raft.go:339-357 | a request with consecutive indices never meets the panic, whatever the log |
| `RaftServer.Raft.StartElection` | raft/raft.go:408-430 | computes the candidacy step and the request sent to every peer; refuses on a leader or a dead node |
| `RaftServer.Raft.HandleVoteReply` | raft/raft.go:446-466 | computes the vote-reply step: step down, discard stale replies, count, win |
| `RaftServer.Raft.BecomeLeader` | raft/raft.go:475-493 | the loop resets both arrays and the no-op of the new term is appended |
| `RaftServer.Raft.BuildAppend` | raft/raft.go:527-556 | builds the request that ships the whole suffix from nextIndex |
| `RaftServer.Raft.HandleAppendReply` | raft/raft.go:569-612 | computes the append-reply step, and the loop goes round again exactly after a current rejection or a success that advanced the commit index |
| `RaftServer.Raft.CountReplicas` | raft/raft.go:632-637 | the counting loop yields the size of the set of nodes known to hold the index |
| `RaftServer.Raft.AdvanceCommitIndex` | raft/raft.go:623-646 | the downward scan finds the highest committable index |
| `RaftServer.Raft.DeliverNext` | raft/raft.go:657-671 | one round of the loop delivers the entry after lastApplied |
| `RaftServer.Raft.Drain` | raft/raft.go:653-676 | an uninterrupted drain delivers exactly the entries between lastApplied and commitIndex, in order, and stops one past the last entry if one is missing |
| `RaftReplication.MergeIsPrefixChoice` | raft/raft.go:339-357 | when the two logs satisfy log matching, merging a leader's suffix leaves the follower's log if it already extends the shipped prefix, and otherwise the shipped prefix |
| `RaftElection.UpToDateKeeps` | raft/raft.go:283-302 | a log that passes the up-to-date check keeps everything its voter acknowledged, or an intermediate leader lacked it |
| `RaftElection.SameWinner` | raft/raft.go:396-469 | two vote quorums of one term elect the same node |
| `RaftReplication.StepKeepsInv` | raft/raft.go:205-676 | every step of the protocol keeps the whole invariant |
| `RaftSafety.RunKeepsInv` | raft/raft.go:205-676 | the invariant holds at every moment of every run of any number of nodes |
| `RaftSafety.RunIsLater` | raft/raft.go:205-676 | between any two moments of a run terms, commit indices, acknowledgements, delivered messages, votes within a term and a leader's log only move forward |
| `RaftSafety.ElectionSafety` | raft/raft.go:265-302 | at most one node is ever leader of a term, whenever the two are observed |
| `RaftSafety.VotesOncePerTerm` | raft/raft.go:283-302 | a vote given is not changed while the term lasts |
| `RaftSafety.VoteIsGrantedExactly` | raft/raft.go:250-302 | in every run a vote is granted if and only if the request is not stale, the voter never voted for another in that term, and the candidate's last entry is not behind |
| `RaftSafety.LogMatching` | raft/raft.go:329-357 | two logs of any nodes at any moments with the same term at an index are identical up to it |
| `RaftSafety.LogIsOrdered` | raft/raft.go:485-489 | along every log indices count from 1 and terms never decrease nor exceed the node's term |
| `RaftSafety.CommittedNeverTruncated` | raft/raft.go:339-367 | lastApplied <= commitIndex <= last index, and a committed prefix stays in the log and committed |
| `RaftInvariant.CommittedIsInLaterLeaders` | raft/raft.go:623-646 | a prefix acknowledged by a majority in the term that created its last entry is in the log of every later leader from its election on |
| `RaftSafety.LeaderCompleteness` | raft/raft.go:283-302 | what any node has committed is in the log of every leader of a later term at every moment it leads, and of the leader of the node's own term from that moment on |
| `RaftSafety.CommittedIsDurable` | raft/raft.go:623-646 | what any node has committed at some moment is, at that and every later moment, in the logs of a majority, whatever terms they are in |
| `RaftSafety.CommittedAgree` | raft/raft.go:623-646 | committed entries at equal indices are equal across nodes and moments |
| `RaftSafety.StateMachineSafety` | raft/raft.go:653-676 | two nodes that ever deliver at the same index deliver the same index, term and command |
| `RaftSafety.DeliveryIsInOrder` | raft/raft.go:653-676 | deliveries are 1, 2, 3, ... without gap or repetition, never ahead of the commit index, never retracted |
| `RaftSafety.NothingPendingExactly` | raft/raft.go:86-94 | commitIndex <= lastApplied if and only if the node has delivered exactly its committed entries, as in the initial state |
| `RaftSafety.MatchIndexIsSound` | raft/raft.go:569-594 | in every run a leader's nextIndex is within 1..last+1, and a peer with matchIndex m has seen the term and, while in it, holds the leader's first m entries |
| `RaftSafety.CommitHasMajority` | raft/raft.go:627-645 | a leader's commit of an own-term entry comes with a majority of nodes that acknowledged it in that term and whose logs hold it now, whatever terms they are in |
| `RaftSafety.RequestsAreWellFormed` | raft/raft.go:525-556 | every request ever sent has consecutive indices, so `Append` never panics in the handler, and ends at or past the commit index it carries |
| `RaftSafety.RequestsReachTheEnd` | raft/raft.go:533-555 | the request a leader builds always ends at its last index |
| `RaftSafety.ClampAgreesWithFigure2` | raft/raft.go:359-367 | for every request of every run the follower's clamp gives the commit index of Figure 2's rule |
| `RaftEffects.HandlingTakesOverTerm` | raft/raft.go:274-281 | in every run, whoever handles a request or an answer of term T ends in the later of its own term and T, as a follower without a vote, or with the vote just given, if T was news |
| `RaftEffects.AnswerTellsTerm` | raft/raft.go:274-302 | the one message sent in answer to a request, vote or append, carries the later of the receiver's and the request's term, so a stale sender learns the later one, and grants only a request of that term |
| `RaftEffects.AnswersNeverFallBehind` | raft/raft.go:311-372 | every answer ever sent carries a term no lower than that of its request, and exactly that one if it grants it |
| `RaftEffects.TimeoutStands` | raft/raft.go:408-430 | a timeout makes a live node that does not lead a candidate of the next term with its own vote, and asks every other node with its last index and term; elsewhere nothing happens |
| `RaftEffects.VoteIsRecorded` | raft/raft.go:283-302 | besides the term, a vote request changes only the vote, to the candidate if granted |
| `RaftEffects.VotesAreCounted` | raft/raft.go:446-466 | a candidate counts each granting peer once and leads exactly from a majority on; any other answer of no later term is ignored |
| `RaftEffects.WinnerStarts` | raft/raft.go:475-493 | a node becomes leader only as a candidate with the votes of a majority, adds the no-op of its term, and sets nextIndex to that entry and matchIndex to 0 for every peer |
| `RaftEffects.ProposalAppends` | raft/raft.go:205-230 | a proposal adds one entry of the current term to a leader's log and changes nothing else |
| `RaftEffects.RequestsStartAtNext` | raft/raft.go:533-555 | a leader's request ships exactly the log from nextIndex on, with the term before it and the commit index |
| `RaftEffects.AppendIsAcceptedExactly` | raft/raft.go:311-372 | in every run a request is accepted if and only if it is not stale and the logs agree at prevLogIndex; the log then is what was shipped unless it extends it already, and the commit index the higher of the two; otherwise both stay |
| `RaftEffects.StaleAnswersAreIgnored` | raft/raft.go:577-582 | an append answer for another term, or to a node that no longer leads, changes nothing |
| `RaftEffects.AppendReplyCounts` | raft/raft.go:584-608 | a success raises the sender's matchIndex to the end of the request and commits exactly up to the highest own-term index a majority is known to hold; a rejection lowers nextIndex by one, not below 1; nothing else changes |
| `RaftEffects.ApplyDelivers` | raft/raft.go:657-671 | one round of the apply loop delivers exactly the entry after lastApplied if it is committed |
| `StaleReply.ReplyDecidesMatchBelowNext` | raft/raft.go:569-612 | after one reply matchIndex < nextIndex if and only if the reply recorded news, or it held before and the reply is not a late rejection |
| `StaleReply.StepKeepsMatchBelowNext` | raft/raft.go:104-107 | for every node and step of every run: afterwards matchIndex < nextIndex if and only if the step won an election or recorded news, or it held before and the step is not a late rejection |
| `StaleReply.MatchBelowNextExactly` | raft/raft.go:104-107 | at every moment of every run: matchIndex < nextIndex if and only if no late rejection came since the last win or news |
| `StaleReply.MatchBelowNextFails` | raft/raft.go:104-107 | a run of two nodes that ends with a leader whose matchIndex equals nextIndex |
| `StaleReply.NextIndexIsPositiveExactly` | raft/raft.go:99-107 | at every moment of every run nextIndex is at least 1 if and only if the node has won an election; before that matchIndex is not below nextIndex either |
| `StaleReply.BothFailInitially` | raft/raft.go:99-107 | in the initial state of any cluster both comments fail on every node |
| `CatchUp.ReachableIsReady` | raft/raft.go:525-613 | in every reachable state a leader and any node that has seen no later term meet the precondition of the catch-up loop |
| `CatchUp.AcceptMakesEqual` | raft/raft.go:329-357 | a follower that accepts the leader's suffix ends with exactly the leader's log |
| `CatchUp.Round` | raft/raft.go:525-613 | one round either makes the logs equal and records it, or lowers nextIndex by one, and stays ready for the next |
| `CatchUp.SendAppendEntries` | raft/raft.go:525-613 | against a responsive peer the loop terminates, with the peer's log equal to the leader's, matchIndex at the last index and the peer's commit index no lower than the leader's |
| `Codec.Base64RoundTrip` | broker/main.go:115-124 | decoding inverts encoding for every byte string, padding included |
| `Codec.CommandRoundTrip` | broker/main.go:118-139 | decoding inverts encoding if the id has no colon, and gives the ignored command if it has one |
| `Codec.SubmitDecodes` | broker/main.go:118-120 | the same for submit |
| `Codec.CompleteDecodes` | broker/main.go:122-124 | the same for complete |
| `Codec.EncodingIsInjective` | broker/main.go:118-124 | different (op, id, data) never encode alike, colons in ids included |
| `Codec.FewColonsAreIgnored` | broker/main.go:126-139 | every command with fewer than two colons, as the no-op of a new leader, decodes to the ignored command |
| `Codec.DecodesExactly` | broker/main.go:129-139 | the commands that decode to a given operation are exactly those of the form op:id:body with no colon in op and id and a body that Base64 decodes to the data |
| `Codec.EncodesAsRfc` | broker/main.go:118-124 | character by character the encoding is that of section 4 of RFC 4648: each stands for its six of the 24 bits of the quantum, or is the pad |
| `Codec.EncodedLength` | broker/main.go:118-124 | four characters for each three bytes or part of them |
| `Codec.DecodesOnlyEncodings` | broker/main.go:134-137 | whatever the decoder accepts is the encoding of what it yields, up to the unused bits before the padding |
| `Codec.BreaksAreIgnored` | broker/main.go:134-137 | line breaks do not matter to the decoder, wherever they stand |
| `TaskState.NoopChangesNothing` | broker/main.go:126-139 | the no-op of a new leader decodes to the ignored command and leaves the facts as they are |
| `BrokerServer.BrokerServer.ApplyDecoded` | broker/main.go:149-161 | the switch computes the fold step on facts and in-flight tasks |
| `BrokerServer.BrokerServer.Apply` | broker/main.go:145-169 | folds the message in, clears the slot of its index, closes its waiter with the message's term, and touches no other waiter |
| `BrokerServer.BrokerServer.Register` | broker/main.go:180-183 | installs a new open waiter at the index, overwriting any other |
| `BrokerServer.BrokerServer.Expire` | broker/main.go:188-191 | clears the slot, whoever owns it |
| `BrokerServer.BrokerServer.Poll` | broker/main.go:218-232 | the scan hands out the task at the first position of submittedOrder that is neither done nor in flight, recording worker and time, and comes back empty only if there is none |
| `BrokerServer.BrokerServer.GetResult` | broker/main.go:247-255 | done exactly if a completion was applied, with its recorded error |
| `BrokerServer.BrokerServer.Heartbeat` | broker/main.go:264-269 | refreshes exactly the named in-flight task |
| `BrokerServer.BrokerServer.CheckStalledTasks` | broker/main.go:292-300 | after the scan a task is in flight if and only if it was before and was heard of within the timeout, in whatever order the scan visits and reading the clock for each |
| `BrokerServer.BrokerServer.RefreshLeaderState` | broker/main.go:310-320 | after a false-to-true change nothing is in flight, and otherwise the in-flight map is untouched |
| `TaskState.AvailableIsFromOrder` | broker/main.go:218-224 | what is handed out is submitted, not done and not in flight |
| `Scheduler.RunConserves` | broker/main.go:149-160 | in every run the commit order lists each submitted id once, and in-flight tasks are submitted, not done, and carry the submitted payload |
| `Scheduler.TasksArePartitioned` | broker/main.go:218-232 | in every run each submitted id is exactly one of done, in flight and available |
| `Scheduler.PollTakesFirstFree` | broker/main.go:218-232 | a poll takes the first free position of the commit order and changes nothing else |
| `Scheduler.PollsFollowCommitOrder` | broker/main.go:218-232 | in every run, the k-th of a series of polls hands out the task at the position of the commit order with exactly k free positions before it, with its payload, and nothing if there is no such position |
| `Scheduler.LaterPollsTakeLaterPositions` | broker/main.go:218-232 | successive polls hand out strictly increasing positions of the commit order |
| `Scheduler.FreeIsHandedOut` | broker/main.go:218-232 | a free task is handed out after as many polls as there are free positions before it |
| `Scheduler.ReassignmentHasCause` | broker/main.go:288-320 | a task handed out twice was released in between by a became-leader wipe or by a scan more than the timeout after every sign of life |
| `Scheduler.CompletedIsNeverHandedOut` | broker/main.go:213-233 | after its completion is applied a task is never handed out |
| `Scheduler.StalledIsReleased` | broker/main.go:288-301 | in every run, a task handed out and silent for more than the timeout is out of flight after the next scan |
| `Scheduler.StalledIsOfferedAgain` | broker/main.go:283-301 | and unless it is done by then, one of the next polls hands it out again, with its payload |
| `Scheduler.RefreshReleasesExactly` | broker/main.go:303-320 | becoming leader releases every task, any other refresh none |
| `Acknowledgement.RunIsOk` | broker/main.go:145-194 | every interleaving of proposals, registrations, applications, wake-ups and time-outs keeps the invariant of calls, slots and folds |
| `Acknowledgement.AnswerIsExact` | broker/main.go:185-193 | a call that returns, by wake-up or time-out, answers whether its own command has been delivered at its index, if and only if it does not time out after a message of its own term was delivered there |
| `Acknowledgement.TermIdentifiesCommand` | broker/main.go:171-187 | what is delivered at a call's index in its term is the call's own command, so comparing terms is enough |
| `Acknowledgement.OverwrittenIsNeverDelivered` | broker/main.go:185-187 | the command of a call that is woken with another term is never delivered by any node at any moment of the run |
| `Acknowledgement.AcknowledgedIsNeverLost` | broker/main.go:171-194 | a call that returned true has its own entry committed, and at that and every later moment it is in the logs of a majority, of every leader of the acknowledging node's term or a later one, and of every node that commits its index |
| `Acknowledgement.FactsAreTheFold` | broker/main.go:145-169 | each broker's facts are the fold of the delivered prefix it has read |
| `Acknowledgement.ReplicasAgree` | broker/main.go:78-82 | of two brokers one's commit order is a prefix of the other's, its tasks are among the other's with the same payloads and its completions a subset; after equally many messages the facts are equal |
| `TaskFold.FirstSubmitWins` | broker/main.go:151-155 | a submitted task is known, with the payload of its first submission |
| `TaskFold.LastCompleteWins` | broker/main.go:156-159 | a completed task is done, with the error text of its last completion |
| `Acknowledgement.AcknowledgedSubmitIsRecorded` | broker/main.go:200-208 | an acknowledged submit is in the facts of every broker that has applied up to its index, with its payload if no earlier command submitted the id |
| `Acknowledgement.AcknowledgedCompleteIsRecorded` | broker/main.go:235-242 | an acknowledged completion is in the facts of every broker that has applied up to its index, with its error text if no later completion of the task was applied |
| `Acknowledgement.AcknowledgedTaskSurvives` | broker/main.go:200-208 | an acknowledged task, id and payload, is never lost |
| `Acknowledgement.MissedCallsFail` | broker/main.go:174-194 | a call whose index was applied before it registered never returns true |
| `LateRegistration.FalseDoesNotMeanUncommitted` | broker/main.go:175-191 | a run in which a call returns false although its command is committed and applied |
| `LateRegistration.TimelyRegistrationSucceeds` | broker/main.go:175-187 | a run in which the call registers in time, is woken and returns true, so the acknowledgement theorems are about runs that exist |
| `BrokerRefinement.Register` | broker/main.go:180-183 | registering on the broker object takes a mirror of the world to a mirror of the world after the registration step |
| `BrokerRefinement.Apply` | broker/main.go:145-169 | the same for one round of the apply loop |
| `BrokerRefinement.Expire` | broker/main.go:188-191 | the same for the time-out |
| `BrokerRefinement.Wake` | broker/main.go:186-187 | the same for the wake-up, whose answer is the world's |
| `BrokerRefinement.ElsewhereKeepsMirror` | broker/main.go:145-194 | steps of the protocol, new calls and other brokers leave a broker's mirror as it is |
| `PointId.Fnv64` | internal/indexer/indexer.go:72-85 | the big-integer loop, which reduces in every round, yields the unbounded FNV-1a product reduced once at the end; that reducing early is harmless is `WrappingIsLate` |
| `PointId.WrappingIsLate` | internal/indexer/indexer.go:72-85 | reducing in every round and reducing once at the end agree, from every state and for every input |
| `PointId.MulIsInjective` | internal/indexer/indexer.go:80-81 | multiplication by the prime is injective modulo 2^64 |
| `PointId.XorByBits` | internal/indexer/indexer.go:80 | a bit of the xor is set if and only if the two bits differ |
| `PointId.HashOfConcat` | internal/indexer/indexer.go:79-83 | bytes are hashed from the left, one round each |
| `PointId.OffsetFitsTestVector` | internal/indexer/indexer.go:73-75 | offset basis and prime give the published FNV-1a test vector for the one-byte text a |
| `PointId.OneByteNeverCollides` | internal/indexer/indexer.go:63-70 | ids of equal length differing in exactly one byte never share a point id |
| `PointDistance.ThreeBytesNeverCollide` | internal/indexer/indexer.go:63-85 | ids of equal length that differ only within three adjacent bytes never share a point id |
| `PointDistance.FourDigitsNeverCollide` | internal/indexer/indexer.go:63-85 | up to four decimal digits after a common prefix never lead to the same point id |
| `Chunking.ChunkText` | internal/indexer/indexer.go:44-61 | the loop cuts exactly the groups of maxWords words, its additions never overflow, and a non-positive maxWords gives one chunk; the words are those of `FieldsAreTheRuns`, the groups those of `ChunkIsSlice` |
| `Chunking.FieldsAreTheRuns` | internal/indexer/indexer.go:45 | by position in the text: every maximal run of non-spaces is a word and every word is one, in the order in which they stand, and there are as many words as places where a run starts |
| `Chunking.ChunksKeepInk` | internal/indexer/indexer.go:44-61 | the joined chunks have exactly the non-space characters of the text, in order |
| `Chunking.SplitOfJoin` | internal/indexer/indexer.go:45-50 | splitting joined words gives the words back |
| `Chunking.JoinOfConcat` | internal/indexer/indexer.go:50-58 | joining puts a single blank between words |
| `Chunking.ChunkSizes` | internal/indexer/indexer.go:52-59 | all chunks but the last have exactly maxWords words, the last at least one, and the count is the ceiling |
| `Chunking.ChunkIsSlice` | internal/indexer/indexer.go:52-59 | chunk k joins exactly the words from k * maxWords up to the next multiple or the end |
| `Chunking.GroupCount` | internal/indexer/indexer.go:52-59 | the number of groups is the ceiling of words over maxWords |
| `Chunking.ChunkRoundTrip` | internal/indexer/indexer.go:39-61 | splitting the joined chunks gives back exactly the words of the text, which `FieldsAreTheRuns` fixes by position |
| `Chunking.RechunkingIsIdempotent` | internal/indexer/indexer.go:39-61 | chunking the joined chunks again changes nothing |
| `Indexing.AtLeastOnceIsExactlyOnce` | worker/main.go:101-125 | every order and duplication of upserts covering the same chunks with distinct point ids leaves the same store |
| `Indexing.RetryIsExactlyOnce` | internal/indexer/indexer.go:63-67 | a full pass after a partial one leaves what a full pass alone leaves, even if ids collide |
| `Indexing.ReingestionIsIdempotent` | internal/indexer/indexer.go:63-67 | upserting the same sequence again changes nothing, even if ids collide |
| `Indexing.Index.IngestDocument` | internal/indexer/indexer.go:130-153 | the confirmed ids are those of a prefix of the document's chunks that ends at the first failure, and the store receives exactly that prefix, plus the failing chunk if its upsert landed before the error; an empty document is an error |
| `Indexing.IngestTwice` | internal/indexer/indexer.go:124-153 | whatever became of a first attempt, ingesting the unchanged document again with success leaves the store as one successful attempt would have |
| `Indexing.DocumentIsStored` | internal/indexer/indexer.go:106-149 | field by field: under the hash of docID, a hyphen and the number i, the store holds passage i with its title, document and vector |
| `Indexing.DigitsRead` | internal/indexer/indexer.go:138 | the digits of a chunk number read in base 10 as that number, without leading zeros |
| `Indexing.ChunkIdsDiffer` | internal/indexer/indexer.go:138 | chunk ids within a document differ |
| `Indexing.SameLengthChunksNeverCollide` | internal/indexer/indexer.go:138 | two chunks of a document whose numbers have equally many digits, up to four, never share a point id |
| `Indexing.TenChunksNeverCollide` | internal/indexer/indexer.go:68-70 | a document of at most ten chunks meets the hypothesis of at-least-once equals exactly-once |
| `LeaderDiscovery.Client.AddrIndex` | internal/brokerclient/client.go:60-67 | the first occurrence, or -1 if there is none |
| `LeaderDiscovery.Client.Call` | internal/brokerclient/client.go:74-114 | the loop makes exactly the bounded search from the current index, whose attempts `SearchWalks` describes; without addresses it fails at once |
| `LeaderDiscovery.SearchWalks` | internal/brokerclient/client.go:82-112 | by the places attempted: a redirect to a configured address is followed there, any other failure goes to the next place around the list, and the search ends at the first success or with all attempts spent |
| `LeaderDiscovery.RedirectTakesTwoHops` | internal/brokerclient/client.go:99-107 | a redirect to an address that succeeds takes exactly two hops |
| `LeaderDiscovery.UnreachableMeansAllFailed` | internal/brokerclient/client.go:78-113 | giving up means that exactly max(2, 2*len(addrs)) attempts were made and none succeeded |
| `LeaderDiscovery.SearchStops` | internal/brokerclient/client.go:74-114 | the search stops within its bound with the index in range, and reports success only where the last attempt succeeded |
| `LeaderDiscovery.SearchFindsLeader` | internal/brokerclient/client.go:82-112 | the modular distance to the leader falls until the leader is reached |
| `LeaderDiscovery.LeaderIsFound` | internal/brokerclient/client.go:69-114 | if one address succeeds and all others fail or redirect to it or outside the list, the call succeeds there within len(addrs) hops from any start |

## Left out

- RaftServer.Raft.AppendEntries: an accepted request with a negative prevLogIndex, or with entries that `Append` panics over, is not modelled; `RaftSafety.RequestsAreWellFormed` proves that no run sends one.
- RaftServer.Raft.Drain: is the loop without interruption; between two rounds the original unlocks to send, which the protocol covers by making one round (`DeliverNext`) a step of its own.
- RaftSafety.LeaderCompleteness: is relative to the term in which the committing node is when it has committed, as in the paper; a leader of an intermediate term may lack an entry of an older term that is only committed later.
- Acknowledgement.AcknowledgedTaskSurvives: needs an id without a colon, and for the payload one that no earlier command submitted, which the UUIDs of Submit are; the model takes the id as a parameter.
- Acknowledgement.ReplicasAgree: says nothing of `errors` between replicas that have applied differently much, because a later completion of the same task overwrites the error text; `Acknowledgement.AcknowledgedCompleteIsRecorded` says when it stands.
- PointDistance.ThreeBytesNeverCollide: does not exclude collisions of ids of different lengths or that differ in more places, which a 64-bit hash cannot.
- Indexing.SameLengthChunksNeverCollide: leaves open, for the same reason, chunks whose numbers have differently many digits or more than four.
- Indexing.AtLeastOnceIsExactlyOnce: takes distinctness of the point ids as a hypothesis, for the same reason.
- Liveness of elections, real time, random timeouts and the heartbeat ticker: timers are nondeterministic steps.
- Restart after a crash: nothing is persisted, so Raft's argument does not apply.
- InstallSnapshot (raft/raft.go:375-379): a stub without effect.
- Redirects of the broker (currentLeaderAddr, leaderID): a hint to clients without effect on state.
- The interleaving of the goroutines is a transition system, not a concurrent Dafny program.
- gRPC wiring, dialing and the connection cache of the client, configuration, main functions.
- The embedder process, the Qdrant client, retrieval and the HTTP server: an embedder is a pure function, the store a map.
- float32 vectors: modelled as sequences of reals that are only stored.
- Texts are sequences of Unicode characters; invalid UTF-8 is not modelled.
- The producer and worker loops, apart from the upserts they cause.
