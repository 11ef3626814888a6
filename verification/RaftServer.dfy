/**
 The imperative node of raft/raft.go: fields updated in place, loops over
 entries, peers and indices. Every method is one critical section of the
 original and is proved to compute the function of RaftNode.dfy that the
 protocol is built from, so the theorems of RaftSafety.dfy are about this code.
 */
module RaftServer {
  import opened RaftLog
  import opened RaftNode

  /** One round of the merge loop: skip an entry that agrees, else cut the log there and append. */
  lemma MergeStep(log: seq<LogEntry>, k: nat, entries: seq<LogEntry>, i: nat)
    requires k <= |log| && i < |entries|
    ensures k < |log| && log[k].term == entries[i].term ==>
              Merge(log, k, entries[i..]) == Merge(log, k + 1, entries[i + 1..])
    ensures !(k < |log| && log[k].term == entries[i].term) ==>
              Merge(log, k, entries[i..]) == Merge(log[..k] + [entries[i]], k + 1, entries[i + 1..])
    ensures k == |log| ==> log[..k] == log
  {
    assert entries[i..][0] == entries[i] && entries[i..][1..] == entries[i + 1..];
    var cut := log[..k] + [entries[i]];
    assert cut[..k + 1] == cut;
    assert log[..k] + entries[i..] == cut + entries[i + 1..];
  }

  /** The same round, as far as the panic of `Log.Append` is concerned. */
  lemma AppendableStep(log: seq<LogEntry>, k: nat, entries: seq<LogEntry>, i: nat)
    requires k <= |log| && i < |entries| && Appendable(log, k, entries[i..])
    ensures k < |log| && log[k].term == entries[i].term ==> Appendable(log, k + 1, entries[i + 1..])
    ensures !(k < |log| && log[k].term == entries[i].term) ==>
              entries[i].index == k + 1 && Appendable(log[..k] + [entries[i]], k + 1, entries[i + 1..])
  {
    var rest := entries[i..];
    assert rest[0] == entries[i] && rest[1..] == entries[i + 1..];
    if !(k < |log| && log[k].term == entries[i].term) {
      forall j | 0 <= j < |rest[1..]|
        ensures rest[1..][j].index == k + 1 + j + 1
      {
        assert rest[1..][j] == rest[j + 1];
      }
    }
  }

  /** A well-formed request never panics, whatever the log. */
  lemma {:induction false} WellFormedIsAppendable(log: seq<LogEntry>, prev: nat, entries: seq<LogEntry>)
    requires prev <= |log| && forall i :: 0 <= i < |entries| ==> entries[i].index == prev + i + 1
    ensures Appendable(log, prev, entries)
    decreases |entries|
  {
    if entries != [] && prev < |log| && log[prev].term == entries[0].term {
      WellFormedIsAppendable(log, prev + 1, entries[1..]);
    }
  }

  class Raft {
    const id: int
    const peers: nat
    const log: Log
    const nextIndex: array<int>
    const matchIndex: array<int>
    var currentTerm: int
    var votedFor: int
    var role: Role
    var commitIndex: int
    var lastApplied: int
    var granted: set<int>
    var dead: bool

    ghost predicate Valid()
      reads this, log
    {
      && log.Valid()
      && 0 <= id < peers
      && nextIndex.Length == matchIndex.Length == peers
      && nextIndex != matchIndex
      && 0 <= commitIndex && 0 <= lastApplied
    }

    ghost function State(): Node
      requires Valid()
      reads this, log, nextIndex, matchIndex
    {
      Node(id, peers, currentTerm, votedFor, role, log.Contents(), commitIndex, lastApplied,
           nextIndex[..], matchIndex[..], granted, dead)
    }

    constructor (id: int, peers: nat)
      requires 0 <= id < peers
      ensures Valid() && State() == InitNode(id, peers)
      ensures fresh(log) && fresh(nextIndex) && fresh(matchIndex)
    {
      this.id, this.peers := id, peers;
      log := new Log();
      nextIndex := new int[peers](_ => 0);
      matchIndex := new int[peers](_ => 0);
      currentTerm, votedFor, role := 0, NOBODY, Follower;
      commitIndex, lastApplied, granted, dead := 0, 0, {}, false;
      new;
      assert nextIndex[..] == seq(peers, _ => 0);
      assert matchIndex[..] == seq(peers, _ => 0);
    }

    method Start(command: string) returns (index: int, term: int, isLeader: bool)
      requires Valid()
      modifies log
      ensures Valid() && State() == RaftNode.Start(old(State()), command)
      ensures isLeader == (role == Leader) && term == currentTerm
      ensures isLeader ==> State().log == old(State().log) + [LogEntry(index, term, command)] && index == |State().log|
      ensures !isLeader ==> index == 0 && State() == old(State())
    {
      if role != Leader {
        return 0, currentTerm, false;
      }
      var entry := LogEntry(log.LastIndex() + 1, currentTerm, command);
      log.Append(entry);
      return entry.index, entry.term, true;
    }

    method GetState() returns (term: int, isLeader: bool)
      requires Valid()
      ensures term == State().currentTerm && (isLeader <==> State().role == Leader)
    {
      return currentTerm, role == Leader;
    }

    method Kill()
      requires Valid()
      modifies this
      ensures Valid() && State() == old(State()).(dead := true)
    {
      dead := true;
    }

    method StepDown(term: int)
      requires Valid()
      modifies this
      ensures Valid() && State() == BecomeFollower(old(State()), term)
    {
      currentTerm := term;
      role := Follower;
      votedFor := NOBODY;
    }

    method RequestVote(req: VoteArgs) returns (reply: VoteReply)
      requires Valid()
      modifies this
      ensures Valid() && (State(), reply) == OnRequestVote(old(State()), req)
    {
      if req.term < currentTerm {
        return VoteReply(currentTerm, false);
      }
      if req.term > currentTerm {
        StepDown(req.term);
      }
      var alreadyVoted := votedFor != NOBODY && votedFor != req.candidateId;
      var logOK := req.lastLogTerm > log.LastTerm()
                   || (req.lastLogTerm == log.LastTerm() && req.lastLogIndex >= log.LastIndex());
      if alreadyVoted {
        return VoteReply(currentTerm, false);
      }
      if !logOK {
        return VoteReply(currentTerm, false);
      }
      votedFor := req.candidateId;
      return VoteReply(currentTerm, true);
    }

    /** The merge loop: truncate on conflict, skip what matches, append what is new. */
    method MergeEntries(prevLogIndex: int, entries: seq<LogEntry>)
      requires Valid()
      requires 0 <= prevLogIndex <= |log.Contents()|
      requires Appendable(log.Contents(), prevLogIndex, entries)
      modifies log
      ensures Valid() && log.Contents() == Merge(old(log.Contents()), prevLogIndex, entries)
    {
      ghost var target := Merge(log.Contents(), prevLogIndex, entries);
      assert entries[0..] == entries;
      for i := 0 to |entries|
        invariant Valid()
        invariant prevLogIndex + i <= |log.Contents()|
        invariant Appendable(log.Contents(), prevLogIndex + i, entries[i..])
        invariant Merge(log.Contents(), prevLogIndex + i, entries[i..]) == target
      {
        var idx := prevLogIndex + i + 1;
        var (existing, ok) := log.At(idx);
        MergeStep(log.Contents(), idx - 1, entries, i);
        AppendableStep(log.Contents(), idx - 1, entries, i);
        if ok {
          if existing.term == entries[i].term {
            continue;
          }
          log.Truncate(idx);
        }
        log.Append(entries[i]);
      }
      assert entries[|entries|..] == [];
    }

    /** The original panics in `Log.Append` on an accepted request that is not appendable; others it just answers. */
    method AppendEntries(req: AppendArgs) returns (reply: AppendReply)
      requires Valid()
      requires Accepts(State(), req) ==>
                 req.prevLogIndex >= 0 && Appendable(log.Contents(), req.prevLogIndex, req.entries)
      modifies this, log
      ensures Valid() && (State(), reply) == OnAppendEntries(old(State()), req)
    {
      if req.term < currentTerm {
        return AppendReply(currentTerm, false);
      }
      if req.term > currentTerm {
        StepDown(req.term);
      }
      if req.prevLogIndex > 0 {
        var (existing, ok) := log.At(req.prevLogIndex);
        if !ok || existing.term != req.prevLogTerm {
          return AppendReply(currentTerm, false);
        }
      }
      MergeEntries(req.prevLogIndex, req.entries);
      if req.leaderCommit > commitIndex {
        commitIndex := req.leaderCommit;
        var last := log.LastIndex();
        if last < commitIndex {
          commitIndex := last;
        }
      }
      return AppendReply(currentTerm, true);
    }

    /** The critical section of startElection; `args` is what it then sends to every peer. */
    method StartElection() returns (started: bool, args: VoteArgs)
      requires Valid()
      modifies this
      ensures Valid() && State() == RaftNode.StartElection(old(State()))
      ensures started == MayStartElection(old(State()))
      ensures started ==> args == VoteRequestOf(State())
    {
      if role == Leader || dead {
        return false, VoteArgs(0, 0, 0, 0);
      }
      currentTerm := currentTerm + 1;
      role := Candidate;
      votedFor := id;
      granted := {};
      return true, VoteArgs(currentTerm, id, log.LastIndex(), log.LastTerm());
    }

    /** What the goroutine of `peer` does with the reply to the election of `term`. */
    method HandleVoteReply(peer: int, term: int, reply: VoteReply)
      requires Valid()
      modifies this, log, nextIndex, matchIndex
      ensures Valid() && State() == OnVoteReply(old(State()), peer, term, reply)
    {
      if reply.term > currentTerm {
        StepDown(reply.term);
        return;
      }
      if role != Candidate || currentTerm != term {
        return;
      }
      if reply.granted {
        granted := granted + {peer};
        if 1 + |granted| >= Quorum(peers) {
          BecomeLeader();
        }
      }
    }

    method BecomeLeader()
      requires Valid()
      modifies this, log, nextIndex, matchIndex
      ensures Valid() && State() == RaftNode.BecomeLeader(old(State()))
    {
      role := Leader;
      var lastIndex := log.LastIndex();
      for i := 0 to nextIndex.Length
        modifies nextIndex, matchIndex
        invariant forall p :: 0 <= p < i ==> nextIndex[p] == lastIndex + 1 && matchIndex[p] == 0
      {
        nextIndex[i] := lastIndex + 1;
        matchIndex[i] := 0;
      }
      assert nextIndex[..] == seq(peers, _ => lastIndex + 1);
      assert matchIndex[..] == seq(peers, _ => 0);
      log.Append(LogEntry(log.LastIndex() + 1, currentTerm, NOOP));
    }

    /** The first critical section of sendAppendEntries; the caller has checked that this node leads. */
    method BuildAppend(peer: int) returns (args: AppendArgs)
      requires Valid() && 0 <= peer < peers
      ensures args == AppendRequestFor(State(), peer)
    {
      var ni := nextIndex[peer];
      var prev := ni - 1;
      var prevTerm := 0;
      if prev > 0 {
        var (e, ok) := log.At(prev);
        if ok {
          prevTerm := e.term;
        }
      }
      var entries := log.Entries(ni, log.LastIndex() + 1);
      args := AppendArgs(currentTerm, id, prev, prevTerm, entries, commitIndex);
    }

    /** The second critical section of sendAppendEntries; `again` tells whether its loop goes round once more. */
    method HandleAppendReply(peer: int, sent: AppendArgs, reply: AppendReply) returns (again: bool)
      requires Valid() && 0 <= peer < peers
      modifies this, nextIndex, matchIndex
      ensures Valid() && State() == OnAppendReply(old(State()), peer, sent, reply)
      ensures again <==>
              && reply.term <= old(currentTerm)
              && old(role) == Leader && old(currentTerm) == sent.term
              && (reply.success ==> commitIndex > old(commitIndex))
    {
      if reply.term > currentTerm {
        StepDown(reply.term);
        return false;
      }
      if role != Leader || currentTerm != sent.term {
        return false;
      }
      if reply.success {
        var newMatch := sent.prevLogIndex + |sent.entries|;
        ghost var recorded := RecordMatch(State(), peer, newMatch);
        if newMatch > matchIndex[peer] {
          matchIndex[peer] := newMatch;
          nextIndex[peer] := newMatch + 1;
        }
        assert State() == recorded;
        var oldCommit := commitIndex;
        AdvanceCommitIndex();
        return commitIndex > oldCommit;
      }
      if nextIndex[peer] > 1 {
        nextIndex[peer] := nextIndex[peer] - 1;
      }
      return true;
    }

    /** The inner loop of advanceCommitIndex: how many nodes hold index n. */
    method CountReplicas(n: int) returns (count: int)
      requires Valid()
      ensures count == |Replicas(State(), n)|
    {
      count := 1;
      ghost var counted := {id};
      for p := 0 to peers
        invariant forall q :: q in counted <==> q == id || (0 <= q < p && matchIndex[q] >= n)
        invariant count == |counted|
      {
        if p != id && matchIndex[p] >= n {
          count := count + 1;
          counted := counted + {p};
        }
      }
      assert counted == Replicas(State(), n);
    }

    method AdvanceCommitIndex()
      requires Valid()
      modifies this
      ensures Valid() && State() == AdvanceCommit(old(State()))
    {
      var n := log.LastIndex();
      while n > commitIndex
        invariant Valid() && State() == old(State())
        invariant n <= |log.Contents()|
        invariant CommitFrom(old(State()), |log.Contents()|) == CommitFrom(old(State()), n)
      {
        var (entry, ok) := log.At(n);
        if ok && entry.term == currentTerm {
          var count := CountReplicas(n);
          if count >= Quorum(peers) {
            commitIndex := n;
            return;
          }
        }
        n := n - 1;
      }
    }

    /** One round of the draining loop, up to the point where it unlocks to send `msg`. */
    method DeliverNext() returns (ok: bool, msg: ApplyMsg)
      requires Valid() && MayApply(State())
      modifies this
      ensures Valid() && State() == ApplyNext(old(State()))
      ensures ok <==> lastApplied <= |log.Contents()|
      ensures ok ==> msg == MsgOf(log.Contents()[old(lastApplied)]) && msg.index == lastApplied
    {
      lastApplied := lastApplied + 1;
      var (entry, found) := log.At(lastApplied);
      return found, ApplyMsg(entry.index, entry.term, entry.command);
    }

    /**
     The draining loop of applyLoop when nothing interrupts it; `out` is what it
     sends on the commit channel. A missing entry ends it early.
     */
    method Drain() returns (out: seq<ApplyMsg>)
      requires Valid()
      modifies this
      ensures Valid() && State() == old(State()).(lastApplied := lastApplied)
      ensures var first, end := old(lastApplied), Min(commitIndex, |log.Contents()|);
              && (commitIndex <= first ==> lastApplied == first)
              && (first < commitIndex == end ==> lastApplied == commitIndex)
              && (first < commitIndex && end < commitIndex ==> lastApplied == (if first <= end then end else first) + 1)
              && |out| == (if first <= end then end - first else 0)
              && forall i :: 0 <= i < |out| ==>
                   out[i] == MsgOf(log.Contents()[first + i]) && out[i].index == first + i + 1
    {
      out := [];
      while lastApplied < commitIndex
        invariant Valid() && State() == old(State()).(lastApplied := lastApplied)
        invariant lastApplied == old(lastApplied) + |out|
        invariant |out| > 0 ==> lastApplied <= commitIndex && lastApplied <= |log.Contents()|
        invariant forall i :: 0 <= i < |out| ==>
                    out[i] == MsgOf(log.Contents()[old(lastApplied) + i]) && out[i].index == old(lastApplied) + i + 1
      {
        var ok, msg := DeliverNext();
        if !ok {
          break;
        }
        out := out + [msg];
      }
    }
  }
}
