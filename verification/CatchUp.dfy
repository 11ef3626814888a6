/**
 The retry loop of sendAppendEntries, run against a peer that answers: it
 terminates, and it leaves the peer with exactly the leader's log.
 */
module CatchUp {
  import opened RaftLog
  import opened RaftNode
  import opened RaftServer
  import opened RaftCluster
  import opened RaftInvariant
  import opened RaftReplication
  import RaftSafety

  /** Equal terms at an index force equal logs up to it. */
  ghost predicate Matching(a: seq<LogEntry>, b: seq<LogEntry>) {
    forall k {:trigger a[k]} {:trigger b[k]} ::
      0 <= k < |a| && k < |b| && a[k].term == b[k].term ==> a[..k + 1] == b[..k + 1]
  }

  ghost predicate TermsSorted(log: seq<LogEntry>) {
    forall k, l {:trigger log[k], log[l]} :: 0 <= k <= l < |log| ==> log[k].term <= log[l].term
  }

  /** What the protocol guarantees between the logs of the leader of term t and of any node that has not seen a later term. */
  ghost predicate CanFollow(lead: seq<LogEntry>, log: seq<LogEntry>, t: int) {
    && lead != [] && TermOfLast(lead) == t
    && Indexed(lead)
    && Matching(lead, log)
    && (forall k {:trigger log[k]} :: 0 <= k < |log| ==>
          log[k].term <= t && (log[k].term == t ==> k < |lead|))
    && TermsSorted(lead) && TermsSorted(log)
  }

  ghost predicate Ready(l: Node, f: Node) {
    && l.role == Leader
    && LeaderIndicesOk(l) && 0 <= f.id < l.peers
    && f.currentTerm <= l.currentTerm
    && l.commitIndex <= |l.log|
    && 1 <= l.nextIndex[f.id] <= |l.log| + 1
    && l.matchIndex[f.id] <= |l.log|
    && CanFollow(l.log, f.log, l.currentTerm)
  }

  /** A leader and a node that has seen no later term are ready in every reachable state. */
  lemma ReachableIsReady(n: nat, steps: seq<Step>, states: seq<Cluster>, i: nat, a: int, b: int)
    requires Execution(n, steps, states) && i < |states| && 0 <= a < n && 0 <= b < n
    ensures |states[i].nodes| == n
    ensures var l, f := states[i].nodes[a], states[i].nodes[b];
            l.role == Leader && f.currentTerm <= l.currentTerm ==> Ready(l, f)
  {
    RaftSafety.RunKeepsInv(n, steps, states, i);
    var c := states[i];
    var l, f, E := c.nodes[a], c.nodes[b], c.hist.elections;
    assert NodeInv(c, a) && NodeInv(c, b);
    if l.role == Leader && f.currentTerm <= l.currentTerm {
      RaftSafety.MatchIndexIsSound(n, steps, states, i, a, b);
      GoodPairCanFollow(n, E, l.currentTerm, f.log, f.currentTerm);
    }
  }

  lemma GoodPairCanFollow(n: nat, E: Elections, t: int, log: seq<LogEntry>, seen: int)
    requires ElectionsOk(n, E) && t in E && GoodLog(E, log) && TermOfLast(log) <= seen <= t
    ensures CanFollow(E[t].log, log, t)
  {
    var lead := E[t].log;
    assert ElectionOk(n, E, t);
    LeaderLogIsGood(n, E, t, |lead|);
    assert lead[..|lead|] == lead;
    forall k | 0 <= k < |lead| && k < |log| && lead[k].term == log[k].term
      ensures lead[..k + 1] == log[..k + 1]
    {
      GoodLogsMatch(n, E, lead, log, k);
    }
    forall k, l | 0 <= k <= l < |log|
      ensures log[k].term <= log[l].term <= t
    {
      GoodLogIsOrdered(n, E, log, k, l);
    }
    forall k, l | 0 <= k <= l < |lead|
      ensures lead[k].term <= lead[l].term
    {
      GoodLogIsOrdered(n, E, lead, k, l);
    }
    forall k | 0 <= k < |log| && log[k].term == t
      ensures k < |lead|
    {
      assert TermOfLast(log) == t by { GoodLogShape(n, E, log, k); }
    }
  }

  /** Accepting the leader's suffix makes the logs equal. */
  lemma AcceptMakesEqual(l: Node, f: Node, args: AppendArgs)
    requires Ready(l, f) && args == AppendRequestFor(l, f.id) && Consistent(f.log, args)
    ensures Merge(f.log, args.prevLogIndex, args.entries) == l.log
  {
    var prev, L := args.prevLogIndex, l.log;
    if prev > 0 {
      assert L[prev - 1].term == f.log[prev - 1].term;
      assert L[..prev] == f.log[..prev];
    }
    assert L[prev..] == args.entries;
    MergeIsPrefixChoice(f.log, prev, L);
    if L <= f.log {
      assert f.log[|L| - 1] == L[|L| - 1];
      var k := Min(|L|, |f.log| - 1);
      assert f.log[|L| - 1].term <= f.log[k].term;
    }
  }

  lemma SelfCanFollow(lead: seq<LogEntry>, log: seq<LogEntry>, t: int)
    requires CanFollow(lead, log, t)
    ensures CanFollow(lead, lead, t)
  {
    assert forall k {:trigger lead[k]} :: 0 <= k < |lead| ==> lead[k].term <= lead[|lead| - 1].term;
  }

  lemma RequestIsWellFormed(l: Node, f: Node)
    requires Ready(l, f)
    ensures WellFormed(AppendRequestFor(l, f.id))
  {
  }

  /** A peer that rejects is at most brought to the leader's term, and nextIndex goes down by one. */
  lemma RejectedRound(l: Node, f: Node)
    requires Ready(l, f) && !Consistent(f.log, AppendRequestFor(l, f.id))
    ensures var args := AppendRequestFor(l, f.id);
            var f' := if f.currentTerm < l.currentTerm then BecomeFollower(f, l.currentTerm) else f;
            var l' := l.(nextIndex := l.nextIndex[f.id := l.nextIndex[f.id] - 1]);
            && OnAppendEntries(f, args) == (f', AppendReply(l.currentTerm, false))
            && OnAppendReply(l, f.id, args, AppendReply(l.currentTerm, false)) == l'
            && Ready(l', f')
  {
  }

  lemma AdvanceKeepsReady(l: Node, f: Node)
    requires Ready(l, f)
    ensures var l' := AdvanceCommit(l);
            && Ready(l', f) && l.commitIndex <= l'.commitIndex
            && l' == l.(commitIndex := l'.commitIndex)
  {
  }

  /** A consistent request of a leader that is not behind is accepted. */
  lemma ConsistentIsAccepted(f: Node, args: AppendArgs)
    requires args.prevLogIndex >= 0 && f.currentTerm <= args.term && Consistent(f.log, args)
    ensures var (f', reply) := OnAppendEntries(f, args);
            var log := Merge(f.log, args.prevLogIndex, args.entries);
            && reply == AppendReply(args.term, true)
            && f'.id == f.id && f'.currentTerm == args.term && f'.log == log
            && f'.commitIndex >= Min(args.leaderCommit, |log|)
  {
  }

  /** A request ships everything from nextIndex to the end of the leader's log. */
  lemma RequestReachesEnd(l: Node, peer: int)
    requires ValidPeer(l, peer) && 1 <= l.nextIndex[peer] <= |l.log| + 1
    ensures var args := AppendRequestFor(l, peer);
            args.prevLogIndex + |args.entries| == |l.log| && args.term == l.currentTerm
  {
  }

  /** The leader's side of an accepted request. */
  lemma ReplyRecordsAll(l: Node, peer: int, sent: AppendArgs)
    requires LeaderIndicesOk(l) && 0 <= peer < l.peers
    requires l.role == Leader && sent.term == l.currentTerm
    requires sent.prevLogIndex + |sent.entries| == |l.log|
    ensures OnAppendReply(l, peer, sent, AppendReply(l.currentTerm, true))
            == AdvanceCommit(RecordMatch(l, peer, |l.log|))
  {
  }

  lemma LeaderCounts(l: Node, f: Node) returns (l': Node)
    requires Ready(l, f)
    ensures l' == AdvanceCommit(RecordMatch(l, f.id, |l.log|))
    ensures Ready(l', f) && l'.currentTerm == l.currentTerm && l'.log == l.log
    ensures l'.matchIndex[f.id] == |l.log| && l.commitIndex <= l'.commitIndex
  {
    RecordKeepsReady(l, f);
    var l1 := RecordMatch(l, f.id, |l.log|);
    AdvanceKeepsReady(l1, f);
    l' := AdvanceCommit(l1);
  }

  lemma ReadyWithOwnLog(l: Node, f: Node, f': Node)
    requires Ready(l, f) && f'.id == f.id && f'.currentTerm == l.currentTerm && f'.log == l.log
    ensures Ready(l, f')
  {
    SelfCanFollow(l.log, f.log, l.currentTerm);
  }

  lemma RecordKeepsReady(l: Node, f: Node)
    requires Ready(l, f)
    ensures var l' := RecordMatch(l, f.id, |l.log|);
            && Ready(l', f) && l'.matchIndex[f.id] == |l.log|
            && l'.log == l.log && l'.currentTerm == l.currentTerm && l'.commitIndex == l.commitIndex
  {
  }

  /** One round of the loop on values: either the peer ends with the leader's log, or nextIndex goes down by one. */
  lemma Round(l: Node, f: Node) returns (args: AppendArgs, f': Node, reply: AppendReply, l': Node)
    requires Ready(l, f)
    ensures args == AppendRequestFor(l, f.id) && args.prevLogIndex >= 0
    ensures Accepts(f, args) ==> Appendable(f.log, args.prevLogIndex, args.entries)
    ensures OnAppendEntries(f, args) == (f', reply)
    ensures OnAppendReply(l, f.id, args, reply) == l'
    ensures Ready(l', f') && f'.id == f.id
    ensures f'.currentTerm == l'.currentTerm == l.currentTerm == reply.term == args.term
    ensures l'.log == l.log && l.commitIndex <= l'.commitIndex
    ensures reply.success ==> f'.log == l.log && f'.commitIndex >= l.commitIndex && l'.matchIndex[f.id] == |l.log|
    ensures !reply.success ==> l'.nextIndex[f.id] == l.nextIndex[f.id] - 1 && l'.commitIndex == l.commitIndex
  {
    args := AppendRequestFor(l, f.id);
    RequestIsWellFormed(l, f);
    if Accepts(f, args) {
      WellFormedIsAppendable(f.log, args.prevLogIndex, args.entries);
    }
    f', reply := OnAppendEntries(f, args).0, OnAppendEntries(f, args).1;
    l' := OnAppendReply(l, f.id, args, reply);
    if Consistent(f.log, args) {
      AcceptMakesEqual(l, f, args);
      ConsistentIsAccepted(f, args);
      ReadyWithOwnLog(l, f, f');
      RequestReachesEnd(l, f.id);
      ReplyRecordsAll(l, f.id, args);
      var l1 := LeaderCounts(l, f');
    } else {
      RejectedRound(l, f);
    }
  }

  /** The objects of two servers are distinct. */
  ghost predicate Separate(a: Raft, b: Raft) {
    && a != b && a.log != b.log
    && a.nextIndex != b.nextIndex && a.nextIndex != b.matchIndex
    && a.matchIndex != b.nextIndex && a.matchIndex != b.matchIndex
  }

  /** One round of the loop on the two objects: the leader's two critical sections around the peer's handler. */
  method Exchange(leader: Raft, follower: Raft) returns (again: bool, args: AppendArgs, reply: AppendReply)
    requires leader.Valid() && follower.Valid() && Separate(leader, follower) && 0 <= follower.id < leader.peers
    requires var args := AppendRequestFor(leader.State(), follower.id);
             && args.prevLogIndex >= 0
             && (Accepts(follower.State(), args) ==>
                   Appendable(follower.log.Contents(), args.prevLogIndex, args.entries))
    modifies leader, leader.nextIndex, leader.matchIndex, follower, follower.log
    ensures leader.Valid() && follower.Valid()
    ensures args == AppendRequestFor(old(leader.State()), follower.id) && args.prevLogIndex >= 0
    ensures (follower.State(), reply) == OnAppendEntries(old(follower.State()), args)
    ensures leader.State() == OnAppendReply(old(leader.State()), follower.id, args, reply)
    ensures again <==>
            && reply.term <= old(leader.currentTerm)
            && old(leader.role) == Leader && old(leader.currentTerm) == args.term
            && (reply.success ==> leader.commitIndex > old(leader.commitIndex))
  {
    args := leader.BuildAppend(follower.id);
    reply := follower.AppendEntries(args);
    again := leader.HandleAppendReply(follower.id, args, reply);
  }

  /** Whether the loop goes round again after a round that took l to l'. */
  ghost predicate GoesOn(l: Node, l': Node, reply: AppendReply) {
    reply.success ==> l'.commitIndex > l.commitIndex
  }

  /** What one round achieves: either the peer has the leader's log, or the measure of the loop falls. */
  ghost predicate Progress(l: Node, f: Node, l': Node, f': Node, again: bool) {
    && Ready(l, f) && Ready(l', f') && f'.id == f.id
    && l'.log == l.log && l'.currentTerm == l.currentTerm && l'.commitIndex >= l.commitIndex
    && (again ==> l'.commitIndex > l.commitIndex || l'.nextIndex[f.id] == l.nextIndex[f.id] - 1)
    && (!again ==> f'.log == l.log && l'.matchIndex[f.id] == |l.log|
                   && f'.currentTerm == l.currentTerm && f'.commitIndex >= l'.commitIndex)
  }

  method OneRound(leader: Raft, follower: Raft) returns (again: bool)
    requires leader.Valid() && follower.Valid() && Separate(leader, follower)
    requires Ready(leader.State(), follower.State())
    modifies leader, leader.nextIndex, leader.matchIndex, follower, follower.log
    ensures leader.Valid() && follower.Valid()
    ensures Progress(old(leader.State()), old(follower.State()), leader.State(), follower.State(), again)
  {
    ghost var l, f := leader.State(), follower.State();
    ghost var a, f', r, l' := Round(l, f);
    assert Progress(l, f, l', f', GoesOn(l, l', r));
    var args, reply;
    again, args, reply := Exchange(leader, follower);
    assert leader.State() == l' && follower.State() == f' && again == GoesOn(l, l', r);
  }

  /**
   sendAppendEntries with a peer that always answers. The loop ends because
   every round that does not return either raises the commit index or lowers
   nextIndex, and it only returns once the peer has accepted and has learnt the
   leader's commit index.
   */
  method SendAppendEntries(leader: Raft, follower: Raft)
    requires leader.Valid() && follower.Valid() && Separate(leader, follower)
    requires Ready(leader.State(), follower.State())
    modifies leader, leader.nextIndex, leader.matchIndex, follower, follower.log
    ensures leader.Valid() && follower.Valid()
    ensures follower.State().log == leader.State().log == old(leader.State().log)
    ensures leader.State().matchIndex[follower.id] == |leader.State().log|
    ensures leader.role == Leader && leader.currentTerm == follower.currentTerm == old(leader.currentTerm)
    ensures follower.commitIndex >= leader.commitIndex >= old(leader.commitIndex)
  {
    var again := true;
    while again
      invariant leader.Valid() && follower.Valid() && Ready(leader.State(), follower.State())
      invariant leader.State().log == old(leader.State().log)
      invariant leader.currentTerm == old(leader.currentTerm)
      invariant leader.commitIndex >= old(leader.commitIndex)
      invariant !again ==>
                  && follower.State().log == leader.State().log
                  && leader.State().matchIndex[follower.id] == |leader.State().log|
                  && follower.currentTerm == leader.currentTerm
                  && follower.commitIndex >= leader.commitIndex
      decreases again, |leader.State().log| - leader.commitIndex, leader.State().nextIndex[follower.id]
    {
      again := OneRound(leader, follower);
    }
  }
}
