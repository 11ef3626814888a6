/**
 The replication steps keep the invariant: proposing, sending and storing
 entries, counting acknowledgements, committing and applying.
 */
module RaftReplication {
  import opened RaftLog
  import opened RaftNode
  import opened RaftCluster
  import opened RaftInvariant
  import opened Majority
  import opened RaftPreservation
  import opened RaftElection

  // ---- Proposing ----

  ghost predicate Leads(h: History, s: Node) {
    NodeOk(h, s) && s.role == Leader
  }

  /** The history after leader s appends a command. */
  ghost function ProposedHistory(h: History, s: Node, command: string): History
    requires s.currentTerm in h.elections
  {
    var t, log := s.currentTerm, Start(s, command).log;
    h.(elections := h.elections[t := h.elections[t].(log := log)], acks := h.acks[(s.id, t) := |log|])
  }

  lemma ProposedHistoryGrows(h: History, s: Node, command: string)
    requires Leads(h, s)
    ensures Grows(h, ProposedHistory(h, s, command), s.id, s.currentTerm)
  {
  }

  lemma ProposedElectionOk(h: History, s: Node, command: string)
    requires Leads(h, s) && ElectionsOk(s.peers, h.elections)
    ensures ElectionOk(s.peers, ProposedHistory(h, s, command).elections, s.currentTerm)
  {
    ProposedHistoryGrows(h, s, command);
    var E, E', t := h.elections, ProposedHistory(h, s, command).elections, s.currentTerm;
    assert ElectionOk(s.peers, E, t);
    GoodLogStable(E, E', s.id, t, E[t].base);
  }

  lemma ProposedAcksOk(h: History, s: Node, command: string)
    requires Leads(h, s)
    ensures AcksOk(ProposedHistory(h, s, command), Start(s, command))
  {
    var h', s', t := ProposedHistory(h, s, command), Start(s, command), s.currentTerm;
    assert h'.elections[t].log[..|s'.log|] == s'.log;
    forall u, n | u < t + 1 && Acked(h', s.id, u, n)
      ensures Kept(h'.elections, u, n, s'.log, t + 1)
    {
      if u == t {
        assert h'.elections[t].log[..n] <= s'.log;
      } else {
        assert Acked(h, s.id, u, n);
        if !(h.elections[u].log[..n] <= s.log) {
          var x :| u < x < t + 1 && x in h.elections && !(h.elections[u].log[..n] <= h.elections[x].base);
          assert x in h'.elections;
        }
      }
    }
  }

  lemma ProposedNodeOk(h: History, s: Node, command: string)
    requires Leads(h, s)
    ensures NodeOk(ProposedHistory(h, s, command), Start(s, command))
  {
    var h', s', t := ProposedHistory(h, s, command), Start(s, command), s.currentTerm;
    ProposedAcksOk(h, s, command);
    ProposedHistoryGrows(h, s, command);
    CommittedUpToStable(s.peers, h, h', s.id, t, s.log, s'.log, s.commitIndex, t, t);
    assert VoteStateOk(h', s') && LeaderStateOk(h', s') && LogStateOk(h', s');
  }

  lemma ProposeKeepsInv(c: Cluster, v: int, command: string)
    requires Inv(c) && InRange(c, v)
    ensures Inv(DoPropose(c, v, command))
  {
    var s := c.nodes[v];
    assert NodeInv(c, v);
    if s.role == Leader {
      ProposedHistoryGrows(c.hist, s, command);
      ProposedElectionOk(c.hist, s, command);
      ProposedNodeOk(c.hist, s, command);
      KeepInv(c, v, Start(s, command), {}, ProposedHistory(c.hist, s, command), DoPropose(c, v, command));
    } else {
      SendKeepsInv(c, v, {});
    }
  }

  // ---- Sending ----

  /** A leader's request ships its whole log from nextIndex on, so its commit index lies within what it ships. */
  lemma RequestIsOk(h: History, s: Node, peer: int)
    requires Leads(h, s) && ElectionsOk(s.peers, h.elections) && 0 <= peer < s.peers
    ensures AppendArgsOk(s.peers, h, s.id, AppendRequestFor(s, peer))
    ensures AppendRequestFor(s, peer).prevLogIndex + |AppendRequestFor(s, peer).entries| == |s.log|
  {
    var a := AppendRequestFor(s, peer);
    assert ElectionOk(s.peers, h.elections, s.currentTerm);
    assert 1 <= s.nextIndex[peer] <= |s.log| + 1;
    assert s.log[a.prevLogIndex..|s.log|] == a.entries;
  }

  lemma SendAppendKeepsInv(c: Cluster, v: int, peer: int)
    requires Inv(c) && InRange(c, v)
    ensures Inv(DoSendAppend(c, v, peer))
  {
    var s := c.nodes[v];
    assert NodeInv(c, v);
    if s.role == Leader && peer != v && ValidPeer(s, peer) {
      RequestIsOk(c.hist, s, peer);
      SendKeepsInv(c, v, {AppendRequest(v, peer, AppendRequestFor(s, peer))});
    }
  }

  // ---- Storing ----

  /** If equal terms imply equal prefixes, merging the suffix of L after prev yields the longer of the two when they agree, else L. */
  lemma {:induction false} MergeIsPrefixChoice(log: seq<LogEntry>, prev: int, L: seq<LogEntry>)
    requires 0 <= prev <= |log| && prev <= |L| && log[..prev] == L[..prev]
    requires forall i {:trigger log[i]} {:trigger L[i]} ::
               prev <= i < |log| && i < |L| && log[i].term == L[i].term ==> log[..i + 1] == L[..i + 1]
    ensures Merge(log, prev, L[prev..]) == if L <= log then log else L
    decreases |L| - prev
  {
    if prev == |L| {
      assert L <= log;
    } else if prev < |log| && log[prev].term == L[prev].term {
      assert L[prev..][1..] == L[prev + 1..];
      assert log[..prev + 1] == L[..prev + 1];
      MergeIsPrefixChoice(log, prev + 1, L);
    } else {
      assert log[..prev] + L[prev..] == L;
    }
  }

  /** What a request carries: the sender's log up to the last entry shipped. */
  ghost function Shipped(h: History, a: AppendArgs): seq<LogEntry>
    requires a.term in h.elections && 0 <= a.prevLogIndex + |a.entries| <= |h.elections[a.term].log|
  {
    h.elections[a.term].log[..a.prevLogIndex + |a.entries|]
  }

  /** A follower that accepts a request ends with its own log if that extends what was shipped, else with what was shipped. */
  lemma AcceptedLog(N: nat, h: History, src: int, a: AppendArgs, log: seq<LogEntry>)
    requires ElectionsOk(N, h.elections) && AppendArgsOk(N, h, src, a)
    requires GoodLog(h.elections, log) && Consistent(log, a)
    ensures Merge(log, a.prevLogIndex, a.entries) == if Shipped(h, a) <= log then log else Shipped(h, a)
  {
    var E, prev, L := h.elections, a.prevLogIndex, Shipped(h, a);
    LeaderLogIsGood(N, E, a.term, |L|);
    if prev > 0 {
      assert L[prev - 1].term == a.prevLogTerm;
      GoodLogsMatch(N, E, log, L, prev - 1);
    }
    forall i | prev <= i < |log| && i < |L| && log[i].term == L[i].term
      ensures log[..i + 1] == L[..i + 1]
    {
      GoodLogsMatch(N, E, log, L, i);
    }
    assert L[prev..] == a.entries;
    MergeIsPrefixChoice(log, prev, L);
  }

  /** Committed entries are never truncated: if the follower's log is replaced, its committed part is in the replacement. */
  lemma CommittedSurvives(c: Cluster, log: seq<LogEntry>, k: int, a: AppendArgs, src: int)
    requires ElectionsOk(|c.nodes|, c.hist.elections) && VotersOk(c)
    requires AppendArgsOk(|c.nodes|, c.hist, src, a)
    requires 0 <= k <= |log| && CommittedUpTo(|c.nodes|, c.hist, log, k, a.term)
    ensures Shipped(c.hist, a) <= log || log[..k] <= Shipped(c.hist, a)
  {
    var E, t, L := c.hist.elections, a.term, Shipped(c.hist, a);
    if k != 0 {
      var u, n :| u <= t && CommittedAt(|c.nodes|, c.hist, u, n) && k <= n && log[..k] == E[u].log[..k];
      assert ElectionOk(|c.nodes|, E, t);
      if u < t {
        CommittedIsInLaterLeaders(c, u, n, t);
        assert E[u].log[..k] <= E[u].log[..n] <= E[t].base <= L;
      } else if k > |L| {
        assert L == log[..k][..|L|];
      }
    }
  }

  /** The history after s stores the first n entries of its current term's leader. */
  ghost function StoredHistory(h: History, s: Node, n: int): History {
    var key := (s.id, s.currentTerm);
    if key in h.acks ==> h.acks[key] < n then h.(acks := h.acks[key := n]) else h
  }

  lemma StoredHistoryGrows(h: History, s: Node, n: int)
    ensures Grows(h, StoredHistory(h, s, n), s.id, s.currentTerm)
  {
  }

  /** What s acknowledged in its current term is still in its log after storing L, the longer or the same. */
  lemma StoredIsHeld(h: History, s: Node, L: seq<LogEntry>, log': seq<LogEntry>)
    requires AcksOk(h, s) && s.currentTerm in h.elections && L <= h.elections[s.currentTerm].log
    requires log' == if L <= s.log then s.log else L
    ensures var h' := StoredHistory(h, s, |L|);
      (s.id, s.currentTerm) in h'.acks
      && 0 <= h'.acks[(s.id, s.currentTerm)] <= |h.elections[s.currentTerm].log|
      && h.elections[s.currentTerm].log[..h'.acks[(s.id, s.currentTerm)]] <= log'
  {
    var key, log := (s.id, s.currentTerm), h.elections[s.currentTerm].log;
    assert log[..|L|] == L;
    if key in h.acks && h.acks[key] >= |L| {
      assert L <= log[..h.acks[key]] <= s.log;
    }
  }

  lemma StoredAcksOk(h: History, s: Node, L: seq<LogEntry>, log': seq<LogEntry>)
    requires AcksOk(h, s) && s.currentTerm in h.elections
    requires h.elections[s.currentTerm].base <= L <= h.elections[s.currentTerm].log
    requires log' == if L <= s.log then s.log else L
    ensures AcksOk(StoredHistory(h, s, |L|), s.(log := log'))
  {
    var t, E, h' := s.currentTerm, h.elections, StoredHistory(h, s, |L|);
    StoredIsHeld(h, s, L, log');
    forall u, n | u < t + 1 && Acked(h', s.id, u, n)
      ensures Kept(E, u, n, log', t + 1)
    {
      if u == t {
        assert E[t].log[..n] <= E[t].log[..h'.acks[(s.id, t)]];
      } else {
        assert Acked(h, s.id, u, n);
        if E[u].log[..n] <= E[t].base {
          assert E[u].log[..n] <= E[t].base <= L <= log';
        } else {
          assert t in E;
        }
      }
    }
  }

  /** The node's log state after accepting a request of its current term. */
  lemma StoredLogStateOk(h: History, s: Node, a: AppendArgs, log': seq<LogEntry>, src: int)
    requires ElectionsOk(s.peers, h.elections) && AppendArgsOk(s.peers, h, src, a) && a.term == s.currentTerm
    requires LogStateOk(h, s)
    requires log' == if Shipped(h, a) <= s.log then s.log else Shipped(h, a)
    requires s.log[..s.commitIndex] <= log'
    ensures a.leaderCommit <= |log'|
    ensures var k := if a.leaderCommit > s.commitIndex then a.leaderCommit else s.commitIndex;
            LogStateOk(h, s.(log := log', commitIndex := k))
  {
    var t, L := s.currentTerm, Shipped(h, a);
    assert ElectionOk(s.peers, h.elections, t);
    LeaderLogIsGood(s.peers, h.elections, t, |L|);
    assert TermOfLast(L) == h.elections[t].log[|L| - 1].term;
    assert L <= log';
    if a.leaderCommit > s.commitIndex {
      var log := h.elections[t].log;
      assert log[..a.leaderCommit] == L[..a.leaderCommit] <= log';
      CommittedUpToStable(s.peers, h, h, s.id, t, log, log', a.leaderCommit, t, t);
    } else {
      CommittedUpToStable(s.peers, h, h, s.id, t, s.log, log', s.commitIndex, t, t);
    }
  }

  /** A node after accepting a request: the log and commit index that the handler computes, in closed form. */
  ghost function Accepted(h: History, s: Node, a: AppendArgs): Node
    requires a.term in h.elections && 0 <= a.prevLogIndex + |a.entries| <= |h.elections[a.term].log|
  {
    s.(log := if Shipped(h, a) <= s.log then s.log else Shipped(h, a),
       commitIndex := if a.leaderCommit > s.commitIndex then a.leaderCommit else s.commitIndex)
  }

  /** The accepting node is in order and keeps its committed entries. */
  lemma AcceptedNodeOk(c: Cluster, s: Node, a: AppendArgs, src: int)
    requires ElectionsOk(|c.nodes|, c.hist.elections) && VotersOk(c)
    requires NodeOk(c.hist, s) && s.peers == |c.nodes| && src != s.id
    requires AppendArgsOk(|c.nodes|, c.hist, src, a) && a.term == s.currentTerm
    ensures s.log[..s.commitIndex] <= Accepted(c.hist, s, a).log
    ensures a.leaderCommit <= |Accepted(c.hist, s, a).log|
    ensures NodeOk(StoredHistory(c.hist, s, |Shipped(c.hist, a)|), Accepted(c.hist, s, a))
  {
    var L, s' := Shipped(c.hist, a), Accepted(c.hist, s, a);
    CommittedSurvives(c, s.log, s.commitIndex, a, src);
    StoredLogStateOk(c.hist, s, a, s'.log, src);
    assert ElectionOk(|c.nodes|, c.hist.elections, a.term);
    StoredAcksOk(c.hist, s, L, s'.log);
    StoredNodeOk(c.hist, s, s', |L|);
  }

  /** The handler computes `Accepted`; in particular its clamp to the last own index never bites. */
  lemma HandlerAccepts(N: nat, h: History, s: Node, a: AppendArgs, src: int)
    requires ElectionsOk(N, h.elections) && AppendArgsOk(N, h, src, a)
    requires GoodLog(h.elections, s.log) && Consistent(s.log, a) && a.term == s.currentTerm
    ensures OnAppendEntries(s, a) == (Accepted(h, s, a), AppendReply(s.currentTerm, true))
  {
    AcceptedLog(N, h, src, a, s.log);
  }

  /** Acknowledging more in the current term disturbs nothing else about the node. */
  lemma StoredNodeOk(h: History, s: Node, s': Node, n: int)
    requires NodeOk(h, s) && s.role != Leader
    requires s' == s.(log := s'.log, commitIndex := s'.commitIndex)
    requires LogStateOk(h, s') && AcksOk(StoredHistory(h, s, n), s.(log := s'.log))
    ensures NodeOk(StoredHistory(h, s, n), s')
  {
    var h', t := StoredHistory(h, s, n), s.currentTerm;
    StoredHistoryGrows(h, s, n);
    CommittedUpToStable(s.peers, h, h', s.id, t, s'.log, s'.log, s'.commitIndex, t, t);
    assert VoteStateOk(h', s') && LeaderStateOk(h', s') && LogStateOk(h', s');
    AcksDependOnLog(h', s.(log := s'.log), s');
  }

  lemma AcksDependOnLog(h: History, s: Node, s': Node)
    requires AcksOk(h, s) && s'.id == s.id && s'.currentTerm == s.currentTerm && s'.log == s.log
    ensures AcksOk(h, s')
  {
  }

  /** Storing a consistent request of the current term. */
  lemma StoreKeepsInv(c: Cluster, m: Message)
    requires Inv(c) && m in c.net && m.AppendRequest? && InRange(c, m.dst)
    requires m.args.prevLogIndex >= 0 && m.args.term == c.nodes[m.dst].currentTerm
    requires Consistent(c.nodes[m.dst].log, m.args)
    ensures Inv(DoAppendRequest(c, m))
  {
    assert MessageOk(c, m) && NodeInv(c, m.dst);
    var s', h' := StoreStep(c, m);
    AcceptKeepsInv(c, m.dst, m.src, m.args, s', h', DoAppendRequest(c, m));
  }

  /** What delivering such a request does, and that it is a legal step. */
  lemma StoreStep(c: Cluster, m: Message) returns (s': Node, h': History)
    requires ElectionsOk(|c.nodes|, c.hist.elections) && VotersOk(c)
    requires m.AppendRequest? && InRange(c, m.dst) && m.src != m.dst
    requires NodeInv(c, m.dst) && |c.hist.delivered| == |c.nodes|
    requires AppendArgsOk(|c.nodes|, c.hist, m.src, m.args) && m.args.term == c.nodes[m.dst].currentTerm
    requires Consistent(c.nodes[m.dst].log, m.args)
    ensures NodeStepOk(c, m.dst, s', h')
    ensures h'.elections == c.hist.elections && h'.votes == c.hist.votes
    ensures (m.dst, m.args.term) in h'.acks
    ensures m.args.prevLogIndex + |m.args.entries| <= h'.acks[(m.dst, m.args.term)]
    ensures DoAppendRequest(c, m) ==
            Update(c, m.dst, s', {AppendAnswer(m.dst, m.src, m.args, AppendReply(m.args.term, true))}, h')
  {
    var v, a := m.dst, m.args;
    s', h' := Accepted(c.hist, c.nodes[v], a), StoredHistory(c.hist, c.nodes[v], a.prevLogIndex + |a.entries|);
    assert DoAppendRequest(c, m) ==
           Update(c, v, s', {AppendAnswer(v, m.src, a, AppendReply(a.term, true))}, h') by {
      StoreStepIsDelivery(c, m);
    }
    StoreStepOk(c, v, a, m.src);
  }

  lemma StoreStepIsDelivery(c: Cluster, m: Message)
    requires ElectionsOk(|c.nodes|, c.hist.elections)
    requires m.AppendRequest? && InRange(c, m.dst) && AppendArgsOk(|c.nodes|, c.hist, m.src, m.args)
    requires m.args.term == c.nodes[m.dst].currentTerm && c.nodes[m.dst].id == m.dst
    requires GoodLog(c.hist.elections, c.nodes[m.dst].log) && Consistent(c.nodes[m.dst].log, m.args)
    ensures DoAppendRequest(c, m) ==
            Update(c, m.dst, Accepted(c.hist, c.nodes[m.dst], m.args),
                   {AppendAnswer(m.dst, m.src, m.args, AppendReply(m.args.term, true))},
                   StoredHistory(c.hist, c.nodes[m.dst], m.args.prevLogIndex + |m.args.entries|))
  {
    HandlerAccepts(|c.nodes|, c.hist, c.nodes[m.dst], m.args, m.src);
  }

  /** A node that has stored the entries of `a` may say so. */
  lemma AcceptKeepsInv(c: Cluster, v: int, src: int, a: AppendArgs, s': Node, h': History, c': Cluster)
    requires Inv(c) && NodeStepOk(c, v, s', h') && InRange(c, src) && src != v
    requires h'.elections == c.hist.elections && h'.votes == c.hist.votes
    requires (v, a.term) in h'.acks && a.prevLogIndex + |a.entries| <= h'.acks[(v, a.term)]
    requires c' == Update(c, v, s', {AppendAnswer(v, src, a, AppendReply(a.term, true))}, h')
    ensures Inv(c')
  {
    KeepInvQuietly(c, v, s', {AppendAnswer(v, src, a, AppendReply(a.term, true))}, h', c');
  }

  lemma StoreStepOk(c: Cluster, v: int, a: AppendArgs, src: int)
    requires ElectionsOk(|c.nodes|, c.hist.elections) && VotersOk(c)
    requires InRange(c, v) && NodeInv(c, v) && |c.hist.delivered| == |c.nodes| && src != v
    requires AppendArgsOk(|c.nodes|, c.hist, src, a) && a.term == c.nodes[v].currentTerm
    ensures NodeStepOk(c, v, Accepted(c.hist, c.nodes[v], a),
                       StoredHistory(c.hist, c.nodes[v], a.prevLogIndex + |a.entries|))
  {
    var s, n := c.nodes[v], a.prevLogIndex + |a.entries|;
    assert |Shipped(c.hist, a)| == n;
    AcceptedNodeOk(c, s, a, src);
    StoredHistoryGrows(c.hist, s, n);
    LogStepOk(c, v, Accepted(c.hist, s, a), StoredHistory(c.hist, s, n));
  }

  /** A step within a won term that keeps the committed entries and delivers nothing. */
  lemma LogStepOk(c: Cluster, v: int, s': Node, h': History)
    requires InRange(c, v) && NodeInv(c, v) && |c.hist.delivered| == |c.nodes|
    requires NodeOk(h', s') && Grows(c.hist, h', v, s'.currentTerm) && h'.delivered == c.hist.delivered
    requires s'.id == v && s'.peers == |c.nodes| && s'.currentTerm == c.nodes[v].currentTerm
    requires s'.currentTerm in h'.elections && s'.lastApplied == c.nodes[v].lastApplied
    requires c.nodes[v].log[..c.nodes[v].commitIndex] <= s'.log
    ensures NodeStepOk(c, v, s', h')
  {
    DeliveredStable(c.hist, h', v, c.nodes[v], s');
  }

  lemma DeliveredStable(h: History, h': History, v: int, s: Node, s': Node)
    requires DeliveredOk(h, v, s) && h'.delivered == h.delivered && s'.lastApplied == s.lastApplied
    requires s.lastApplied <= s.commitIndex <= |s.log| && s.log[..s.commitIndex] <= s'.log
    ensures DeliveredOk(h', v, s')
  {
    forall i | 0 <= i < s.lastApplied
      ensures h'.delivered[v][i] == MsgOf(s'.log[i])
    {
      assert s'.log[i] == s.log[..s.commitIndex][i];
    }
  }

  /** A request of the current or an earlier term. */
  lemma AppendKeepsInv(c: Cluster, m: Message)
    requires Inv(c) && m in c.net && m.AppendRequest? && InRange(c, m.dst)
    requires m.args.prevLogIndex >= 0 && m.args.term <= c.nodes[m.dst].currentTerm
    ensures Inv(DoAppendRequest(c, m))
  {
    var v, s, a := m.dst, c.nodes[m.dst], m.args;
    assert MessageOk(c, m);
    if a.term == s.currentTerm && Consistent(s.log, a) {
      StoreKeepsInv(c, m);
    } else {
      var reply := OnAppendEntries(s, a).1;
      SendKeepsInv(c, v, {AppendAnswer(v, m.src, a, reply)});
    }
  }

  /** A request of a later term is handled as stepping down first and then serving the request. */
  lemma StepDownThenAppend(c: Cluster, m: Message)
    requires m.AppendRequest? && InRange(c, m.dst) && m.args.prevLogIndex >= 0
    requires m.args.term > c.nodes[m.dst].currentTerm
    ensures DoAppendRequest(Update(c, m.dst, BecomeFollower(c.nodes[m.dst], m.args.term), {}, c.hist), m)
            == DoAppendRequest(c, m)
  {
    var v, t := m.dst, m.args.term;
    var c1 := Update(c, v, BecomeFollower(c.nodes[v], t), {}, c.hist);
    assert c1.net == c.net;
    var s' := OnAppendEntries(c1.nodes[v], m.args).0;
    assert c1.nodes[v := s'] == c.nodes[v := s'];
  }

  lemma AppendRequestKeepsInv(c: Cluster, m: Message)
    requires Inv(c) && m in c.net && m.AppendRequest? && InRange(c, m.dst) && m.args.prevLogIndex >= 0
    ensures Inv(DoAppendRequest(c, m))
  {
    var v, t := m.dst, m.args.term;
    if t > c.nodes[v].currentTerm {
      StepDownKeepsInv(c, v, t);
      AppendKeepsInv(Update(c, v, BecomeFollower(c.nodes[v], t), {}, c.hist), m);
      StepDownThenAppend(c, m);
    } else {
      AppendKeepsInv(c, m);
    }
  }

  // ---- Counting acknowledgements and committing ----

  /** A leader's matchIndex never runs ahead of what the peer has stored. */
  lemma MatchedNodeOk(h: History, s: Node, peer: int, k: int)
    requires Leads(h, s) && 0 <= peer < s.peers
    requires (peer, s.currentTerm) in h.acks && k <= h.acks[(peer, s.currentTerm)] <= |s.log|
    ensures Leads(h, RecordMatch(s, peer, k))
  {
    var s' := RecordMatch(s, peer, k);
    assert VoteStateOk(h, s') && LogStateOk(h, s') && AcksOk(h, s');
  }

  /** A committed index rests on a real majority of acknowledgements. */
  lemma CommitRestsOnMajority(h: History, s: Node, n: int)
    requires Leads(h, s) && Committable(s, n)
    ensures CommittedAt(s.peers, h, s.currentTerm, n)
  {
    SubsetSize(Replicas(s, n), AckSet(s.peers, h, s.currentTerm, n));
  }

  lemma AdvanceCommitNodeOk(h: History, s: Node)
    requires Leads(h, s)
    ensures Leads(h, AdvanceCommit(s))
    ensures s.commitIndex <= AdvanceCommit(s).commitIndex
  {
    var s' := AdvanceCommit(s);
    if s'.commitIndex > s.commitIndex {
      CommitRestsOnMajority(h, s, s'.commitIndex);
    }
    assert VoteStateOk(h, s') && LeaderStateOk(h, s') && LogStateOk(h, s') && AcksOk(h, s');
  }

  lemma NodeOnlyKeepsInv(c: Cluster, v: int, s': Node)
    requires Inv(c) && InRange(c, v) && NodeOk(c.hist, s')
    requires s'.id == v && s'.peers == |c.nodes| && s'.currentTerm == c.nodes[v].currentTerm
    requires s'.log == c.nodes[v].log && s'.lastApplied == c.nodes[v].lastApplied
    ensures Inv(Update(c, v, s', {}, c.hist))
  {
    assert NodeInv(c, v);
    KeepInvQuietly(c, v, s', {}, c.hist, Update(c, v, s', {}, c.hist));
  }

  /** A leader that handles a reply of its own term stays in order. */
  lemma AppendReplyNodeOk(h: History, s: Node, peer: int, sent: AppendArgs, reply: AppendReply)
    requires Leads(h, s) && 0 <= peer < s.peers && sent.term == s.currentTerm && reply.term <= s.currentTerm
    requires reply.success ==>
               (peer, s.currentTerm) in h.acks
               && sent.prevLogIndex + |sent.entries| <= h.acks[(peer, s.currentTerm)] <= |s.log|
    ensures Leads(h, OnAppendReply(s, peer, sent, reply))
  {
    var k := sent.prevLogIndex + |sent.entries|;
    if !reply.success {
      var s' := OnAppendReply(s, peer, sent, reply);
      assert VoteStateOk(h, s') && LeaderStateOk(h, s') && LogStateOk(h, s') && AcksOk(h, s');
    } else {
      MatchedNodeOk(h, s, peer, k);
      AdvanceCommitNodeOk(h, RecordMatch(s, peer, k));
    }
  }

  lemma AppendAnswerKeepsInv(c: Cluster, m: Message)
    requires Inv(c) && m in c.net && m.AppendAnswer? && InRange(c, m.dst)
    ensures Inv(DoAppendAnswer(c, m))
  {
    var v, s := m.dst, c.nodes[m.dst];
    assert MessageOk(c, m) && NodeInv(c, v);
    if m.reply.term > s.currentTerm {
      StepDownKeepsInv(c, v, m.reply.term);
    } else if s.role != Leader || s.currentTerm != m.sent.term {
      SendKeepsInv(c, v, {});
    } else {
      if m.reply.success {
        assert NodeInv(c, m.src) && (m.src, s.currentTerm) in c.hist.acks;
      }
      AppendReplyNodeOk(c.hist, s, m.src, m.sent, m.reply);
      NodeOnlyKeepsInv(c, v, OnAppendReply(s, m.src, m.sent, m.reply));
    }
  }

  // ---- Applying ----

  lemma ApplyKeepsInv(c: Cluster, v: int)
    requires Inv(c) && InRange(c, v)
    ensures Inv(DoApply(c, v))
  {
    var s, h := c.nodes[v], c.hist;
    assert NodeInv(c, v);
    if MayApply(s) {
      var s' := ApplyNext(s);
      var h' := h.(delivered := h.delivered[v := h.delivered[v] + [MsgOf(s.log[s.lastApplied])]]);
      assert Grows(h, h', v, s.currentTerm);
      CommittedUpToStable(s.peers, h, h', v, s.currentTerm, s.log, s.log, s.commitIndex, s.currentTerm, s.currentTerm);
      assert forall u, n {:trigger Acked(h', v, u, n)} :: Acked(h', v, u, n) ==> Acked(h, v, u, n);
      assert VoteStateOk(h', s') && LeaderStateOk(h', s') && LogStateOk(h', s') && AcksOk(h', s');
      KeepInvQuietly(c, v, s', {}, h', DoApply(c, v));
    } else {
      SendKeepsInv(c, v, {});
    }
  }

  lemma KillKeepsInv(c: Cluster, v: int)
    requires Inv(c) && InRange(c, v)
    ensures Inv(Update(c, v, c.nodes[v].(dead := true), {}, c.hist))
  {
    var s, h := c.nodes[v], c.hist;
    var s' := s.(dead := true);
    assert NodeInv(c, v);
    assert VoteStateOk(h, s') && LeaderStateOk(h, s') && LogStateOk(h, s') && AcksOk(h, s');
    NodeOnlyKeepsInv(c, v, s');
  }

  /** The invariant is inductive. */
  lemma StepKeepsInv(c: Cluster, step: Step)
    requires Inv(c)
    ensures Inv(Do(c, step))
  {
    match step
    case Timeout(v) => if InRange(c, v) { TimeoutKeepsInv(c, v); }
    case DeliverVoteRequest(m) => if m in c.net && m.VoteRequest? && InRange(c, m.dst) { VoteRequestKeepsInv(c, m); }
    case DeliverVoteAnswer(m) => if m in c.net && m.VoteAnswer? && InRange(c, m.dst) { VoteAnswerKeepsInv(c, m); }
    case Propose(v, command) => if InRange(c, v) { ProposeKeepsInv(c, v, command); }
    case SendAppend(v, peer) => if InRange(c, v) { SendAppendKeepsInv(c, v, peer); }
    case DeliverAppendRequest(m) =>
      if m in c.net && m.AppendRequest? && InRange(c, m.dst) && m.args.prevLogIndex >= 0 { AppendRequestKeepsInv(c, m); }
    case DeliverAppendAnswer(m) => if m in c.net && m.AppendAnswer? && InRange(c, m.dst) { AppendAnswerKeepsInv(c, m); }
    case Apply(v) => if InRange(c, v) { ApplyKeepsInv(c, v); }
    case Kill(v) => if InRange(c, v) { KillKeepsInv(c, v); }
  }
}
