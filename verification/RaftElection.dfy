/**
 The election steps keep the invariant: starting an election, stepping down,
 voting, counting votes and winning.
 */
module RaftElection {
  import opened RaftLog
  import opened RaftNode
  import opened RaftCluster
  import opened RaftInvariant
  import opened Majority
  import opened RaftPreservation

  lemma KeepInv(c: Cluster, v: int, s': Node, ms: set<Message>, h': History, c': Cluster)
    requires Inv(c) && NodeStepOk(c, v, s', h') && c' == Update(c, v, s', ms, h')
    requires s'.currentTerm in h'.elections ==> ElectionOk(|c.nodes|, h'.elections, s'.currentTerm)
    requires (v, s'.currentTerm) in h'.votes && (v, s'.currentTerm) !in c.hist.votes ==> VoteOk(c', v, s'.currentTerm)
    requires s'.currentTerm in h'.elections && s'.currentTerm !in c.hist.elections ==>
               forall p {:trigger VoterOk(c', s'.currentTerm, p)} ::
                 p in h'.elections[s'.currentTerm].voters ==> VoterOk(c', s'.currentTerm, p)
    requires forall m {:trigger m in ms} :: m in ms ==> MessageOk(c', m)
    ensures Inv(c')
  {
    KeepNodes(c, v, s', ms, h');
    KeepElections(c, v, s', h');
    KeepVotes(c, v, s', ms, h');
    KeepVoters(c, v, s', ms, h');
    KeepMessages(c, v, s', ms, h');
  }

  /** A step in which nobody votes, wins or proposes. */
  lemma KeepInvQuietly(c: Cluster, v: int, s': Node, ms: set<Message>, h': History, c': Cluster)
    requires Inv(c) && NodeStepOk(c, v, s', h') && c' == Update(c, v, s', ms, h')
    requires h'.elections == c.hist.elections && h'.votes == c.hist.votes
    requires forall m {:trigger m in ms} :: m in ms ==> MessageOk(c', m)
    ensures Inv(c')
  {
    if s'.currentTerm in h'.elections {
      assert ElectionOk(|c.nodes|, h'.elections, s'.currentTerm);
    }
    KeepInv(c, v, s', ms, h', c');
  }

  /** A step that only sends messages. */
  lemma SendKeepsInv(c: Cluster, v: int, ms: set<Message>)
    requires Inv(c) && InRange(c, v)
    requires forall m {:trigger m in ms} :: m in ms ==> MessageOk(c, m)
    ensures Inv(Update(c, v, c.nodes[v], ms, c.hist))
  {
    var c' := Update(c, v, c.nodes[v], ms, c.hist);
    assert c'.nodes == c.nodes;
    assert MessagesOk(c') by {
      forall m | m in c'.net
        ensures MessageOk(c', m)
      {
        assert MessageOk(c, m);
      }
    }
    assert NodesOk(c') by {
      forall w | 0 <= w < |c'.nodes|
        ensures NodeInv(c', w)
      {
        assert NodeInv(c, w);
      }
    }
    assert VotersOk(c') by {
      forall t, p | t in c.hist.elections && p in c.hist.elections[t].voters
        ensures VoterOk(c', t, p)
      {
        assert VoterOk(c, t, p);
      }
    }
    assert VotesOk(c') by {
      forall p, t | (p, t) in c.hist.votes
        ensures VoteOk(c', p, t)
      {
        assert VoteOk(c, p, t);
      }
    }
  }

  /** The current term of a node that leads some term t is at least t. */
  lemma LeaderHasReachedTerm(c: Cluster, t: int)
    requires ElectionsOk(|c.nodes|, c.hist.elections) && VotersOk(c) && t in c.hist.elections
    ensures InRange(c, c.hist.elections[t].leader)
    ensures t <= c.nodes[c.hist.elections[t].leader].currentTerm
  {
    assert ElectionOk(|c.nodes|, c.hist.elections, t);
    assert VoterOk(c, t, c.hist.elections[t].leader);
  }

  /** A node that moves to a later term, neither voting nor leading there yet, is in order. */
  lemma LaterTermIsFresh(c: Cluster, v: int, t: int)
    requires Inv(c) && InRange(c, v) && t > c.nodes[v].currentTerm
    ensures (v, t) !in c.hist.votes && (v, t) !in c.hist.acks
    ensures t in c.hist.elections ==> c.hist.elections[t].leader != v
    ensures LogStateOk(c.hist, c.nodes[v].(currentTerm := t))
    ensures AcksOk(c.hist, c.nodes[v].(currentTerm := t))
  {
    var h, s := c.hist, c.nodes[v];
    assert NodeInv(c, v);
    assert (v, t) in h.votes ==> VoteOk(c, v, t);
    if t in h.elections { LeaderHasReachedTerm(c, t); }
    CommittedUpToStable(s.peers, h, h, v, t, s.log, s.log, s.commitIndex, s.currentTerm, t);
    AcksKeptStable(h, h, v, t, v, s.log, s.log, s.currentTerm + 1, t + 1);
  }

  /** The history after s votes for itself in its next term. */
  ghost function SelfVoteHistory(h: History, s: Node): History {
    h.(votes := h.votes[(s.id, s.currentTerm + 1) := s.id])
  }

  lemma CandidateNodeOk(h: History, s: Node)
    requires NodeOk(h, s) && MayStartElection(s)
    requires (s.id, s.currentTerm + 1) !in h.votes && (s.id, s.currentTerm + 1) !in h.acks
    requires s.currentTerm + 1 in h.elections ==> h.elections[s.currentTerm + 1].leader != s.id
    ensures NodeOk(SelfVoteHistory(h, s), StartElection(s))
    ensures AcksKept(SelfVoteHistory(h, s), s.id, s.log, s.currentTerm + 1)
  {
    var h', s', t := SelfVoteHistory(h, s), StartElection(s), s.currentTerm + 1;
    assert Grows(h, h', s.id, t);
    CommittedUpToStable(s.peers, h, h', s.id, t, s.log, s.log, s.commitIndex, s.currentTerm, t);
    AcksKeptStable(h, h', s.id, t, s.id, s.log, s.log, t, t);
    AcksKeptStable(h, h', s.id, t, s.id, s.log, s.log, t, t + 1);
    assert VoteStateOk(h', s') && LeaderStateOk(h', s') && LogStateOk(h', s') && AcksOk(h', s');
  }

  lemma TimeoutKeepsInv(c: Cluster, v: int)
    requires Inv(c) && InRange(c, v)
    ensures Inv(DoTimeout(c, v))
  {
    var s := c.nodes[v];
    if MayStartElection(s) {
      var s', h', c' := StartElection(s), SelfVoteHistory(c.hist, s), DoTimeout(c, v);
      var ms := set p | 0 <= p < |c.nodes| && p != v :: VoteRequest(v, p, VoteRequestOf(s'));
      assert NodeInv(c, v);
      LaterTermIsFresh(c, v, s'.currentTerm);
      CandidateNodeOk(c.hist, s);
      if s'.currentTerm in c.hist.elections {
        assert ElectionOk(|c.nodes|, c.hist.elections, s'.currentTerm);
      }
      KeepInv(c, v, s', ms, h', c');
    }
  }

  lemma StepDownKeepsInv(c: Cluster, v: int, t: int)
    requires Inv(c) && InRange(c, v) && t > c.nodes[v].currentTerm
    ensures Inv(Update(c, v, BecomeFollower(c.nodes[v], t), {}, c.hist))
  {
    var s' := BecomeFollower(c.nodes[v], t);
    LaterTermIsFresh(c, v, t);
    assert NodeInv(c, v);
    assert AcksOk(c.hist, s') && LogStateOk(c.hist, s');
    KeepInvQuietly(c, v, s', {}, c.hist, Update(c, v, s', {}, c.hist));
  }

  /**
   The election restriction: if the candidate's log is at least as up to date as
   the voter's, it keeps every acknowledged prefix that the voter's log holds.
   */
  lemma UpToDateKeeps(n: nat, E: Elections, mine: seq<LogEntry>, theirs: seq<LogEntry>, t: int, k: int, bound: int)
    requires ElectionsOk(n, E) && GoodLog(E, mine) && GoodLog(E, theirs)
    requires OwnEntry(E, t, k) && E[t].log[..k] <= mine
    requires TermOfLast(theirs) < bound
    requires TermOfLast(theirs) > TermOfLast(mine)
             || (TermOfLast(theirs) == TermOfLast(mine) && |theirs| >= |mine|)
    ensures Kept(E, t, k, theirs, bound)
  {
    assert mine[k - 1] == E[t].log[..k][k - 1];
    GoodLogShape(n, E, mine, k - 1);
    var u := TermOfLast(theirs);
    if u == TermOfLast(mine) {
      assert mine <= theirs;
    } else {
      assert ElectionOk(n, E, u);
      var last := |theirs| - 1;
      assert theirs[last] == E[u].log[last];
      assert E[u].base <= theirs;
    }
  }

  /** A first vote in the current term leaves the voter's own state in order. */
  lemma NewVoteNodeOk(h: History, s: Node, q: int)
    requires NodeOk(h, s) && s.votedFor == NOBODY && q != NOBODY
    ensures NodeOk(h.(votes := h.votes[(s.id, s.currentTerm) := q]), s.(votedFor := q))
  {
    var t := s.currentTerm;
    var h', s' := h.(votes := h.votes[(s.id, t) := q]), s.(votedFor := q);
    assert Grows(h, h', s.id, t);
    CommittedUpToStable(s.peers, h, h', s.id, t, s.log, s.log, s.commitIndex, t, t);
    assert forall u, n {:trigger Acked(h', s.id, u, n)} :: Acked(h', s.id, u, n) ==> Acked(h, s.id, u, n);
    assert AcksOk(h', s');
  }

  lemma NewVoteKeepsInv(c: Cluster, m: Message)
    requires Inv(c) && m in c.net && m.VoteRequest? && InRange(c, m.dst)
    requires m.vote.term == c.nodes[m.dst].currentTerm && c.nodes[m.dst].votedFor == NOBODY
    requires UpToDate(m.vote, c.nodes[m.dst].log)
    ensures Inv(DoVoteRequest(c, m))
  {
    var v, q, t := m.dst, m.src, m.vote.term;
    var s, h := c.nodes[v], c.hist;
    var s' := s.(votedFor := q);
    var ms := {VoteAnswer(v, q, t, VoteReply(t, true))};
    var h' := h.(votes := h.votes[(v, t) := q]);
    assert MessageOk(c, m) && NodeInv(c, v);
    NewVoteNodeOk(h, s, q);
    if t in h.elections {
      assert ElectionOk(|c.nodes|, h.elections, t);
    } else if c.nodes[q].currentTerm == t {
      NewVoteKeeps(c, m, h');
    }
    KeepInv(c, v, s', ms, h', DoVoteRequest(c, m));
  }

  /** Answering a vote request of the current or an earlier term. */
  lemma VoteKeepsInv(c: Cluster, m: Message)
    requires Inv(c) && m in c.net && m.VoteRequest? && InRange(c, m.dst)
    requires m.vote.term <= c.nodes[m.dst].currentTerm
    ensures Inv(DoVoteRequest(c, m))
  {
    var v, s := m.dst, c.nodes[m.dst];
    var (s', reply) := OnRequestVote(s, m.vote);
    assert MessageOk(c, m);
    if reply.granted && s.votedFor == NOBODY {
      NewVoteKeepsInv(c, m);
    } else {
      assert NodeInv(c, v);
      assert s' == s;
      var ms := {VoteAnswer(v, m.src, m.vote.term, reply)};
      SendKeepsInv(c, v, ms);
      if reply.granted {
        assert c.hist.votes[(v, s'.currentTerm) := m.src] == c.hist.votes;
      }
    }
  }

  lemma NewVoteKeeps(c: Cluster, m: Message, h': History)
    requires Inv(c) && m in c.net && m.VoteRequest? && InRange(c, m.dst) && InRange(c, m.src)
    requires m.vote.term == c.nodes[m.dst].currentTerm == c.nodes[m.src].currentTerm
    requires m.vote.term !in c.hist.elections
    requires UpToDate(m.vote, c.nodes[m.dst].log)
    requires h'.elections == c.hist.elections && h'.acks == c.hist.acks
    ensures AcksKept(h', m.dst, c.nodes[m.src].log, m.vote.term)
  {
    var v, q, t := m.dst, m.src, m.vote.term;
    var h, E := c.hist, c.hist.elections;
    assert MessageOk(c, m) && NodeInv(c, v) && NodeInv(c, q);
    var mine, theirs := c.nodes[v].log, c.nodes[q].log;
    forall u, n | u < t && Acked(h', v, u, n)
      ensures Kept(E, u, n, theirs, t)
    {
      assert Acked(h, v, u, n);
      if E[u].log[..n] <= mine {
        assert TermOfLast(theirs) < t by {
          if theirs != [] { assert TermOfLast(theirs) in E; } else { assert ElectionOk(|c.nodes|, E, u); }
        }
        UpToDateKeeps(|c.nodes|, E, mine, theirs, u, n, t);
      } else {
        var w :| u < w < t + 1 && w in E && !(E[u].log[..n] <= E[w].base);
        assert w < t;
      }
    }
  }

  lemma VoteRequestKeepsInv(c: Cluster, m: Message)
    requires Inv(c) && m in c.net && m.VoteRequest? && InRange(c, m.dst)
    ensures Inv(DoVoteRequest(c, m))
  {
    var v, t := m.dst, m.vote.term;
    if t > c.nodes[v].currentTerm {
      StepDownKeepsInv(c, v, t);
      var c1 := Update(c, v, BecomeFollower(c.nodes[v], t), {}, c.hist);
      VoteKeepsInv(c1, m);
      assert DoVoteRequest(c1, m) == DoVoteRequest(c, m) by {
        assert c1.nodes[v] == BecomeFollower(c.nodes[v], t);
        assert c1.net == c.net;
        var s' := OnRequestVote(c1.nodes[v], m.vote).0;
        assert c1.nodes[v := s'] == c.nodes[v := s'];
      }
    } else {
      VoteKeepsInv(c, m);
    }
  }

  /** Two majorities share a voter, so a candidate with a majority in term t is the only one that can have won t. */
  lemma SameWinner(c: Cluster, t: int, v: int, voters: set<int>)
    requires ElectionsOk(|c.nodes|, c.hist.elections) && VotersOk(c) && t in c.hist.elections
    requires |voters| >= Quorum(|c.nodes|)
    requires forall p {:trigger p in voters} :: p in voters ==>
               0 <= p < |c.nodes| && (p, t) in c.hist.votes && c.hist.votes[(p, t)] == v
    ensures c.hist.elections[t].leader == v
  {
    assert ElectionOk(|c.nodes|, c.hist.elections, t);
    var p := QuorumsMeet(|c.nodes|, voters, c.hist.elections[t].voters);
    assert VoterOk(c, t, p);
  }

  lemma CountedVoteKeepsInv(c: Cluster, v: int, p: int)
    requires Inv(c) && InRange(c, v) && InRange(c, p) && p != v && c.nodes[v].role == Candidate
    requires (p, c.nodes[v].currentTerm) in c.hist.votes && c.hist.votes[(p, c.nodes[v].currentTerm)] == v
    ensures Inv(Update(c, v, c.nodes[v].(granted := c.nodes[v].granted + {p}), {}, c.hist))
  {
    var s := c.nodes[v];
    var s' := s.(granted := s.granted + {p});
    assert NodeInv(c, v);
    assert VoteStateOk(c.hist, s') && LogStateOk(c.hist, s') && AcksOk(c.hist, s');
    KeepInvQuietly(c, v, s', {}, c.hist, Update(c, v, s', {}, c.hist));
  }

  /** The history after s wins the election of its current term. */
  ghost function WonHistory(h: History, s: Node): History {
    var log := BecomeLeader(s).log;
    h.(elections := h.elections[s.currentTerm := Election(s.id, {s.id} + s.granted, s.log, log)],
       acks := h.acks[(s.id, s.currentTerm) := |log|])
  }

  ghost predicate CanWin(h: History, s: Node) {
    && NodeOk(h, s) && s.role == Candidate
    && 1 + |s.granted| >= Quorum(s.peers)
    && s.currentTerm !in h.elections
  }

  lemma WonHistoryGrows(h: History, s: Node)
    requires CanWin(h, s)
    ensures Grows(h, WonHistory(h, s), s.id, s.currentTerm)
  {
    assert (s.id, s.currentTerm) !in h.acks;
  }

  lemma WonElectionOk(h: History, s: Node)
    requires CanWin(h, s) && ElectionsOk(s.peers, h.elections)
    ensures ElectionOk(s.peers, WonHistory(h, s).elections, s.currentTerm)
  {
    var E, E' := h.elections, WonHistory(h, s).elections;
    WonHistoryGrows(h, s);
    GoodLogStable(E, E', s.id, s.currentTerm, s.log);
    assert s.id !in s.granted;
    forall i | 0 <= i < |s.log|
      ensures s.log[i].index == i + 1 && 0 < s.log[i].term < s.currentTerm
    {
      GoodLogShape(s.peers, E, s.log, i);
    }
  }

  lemma WonNodeOk(h: History, s: Node)
    requires CanWin(h, s) && ElectionsOk(s.peers, h.elections)
    ensures NodeOk(WonHistory(h, s), BecomeLeader(s))
  {
    var h', s', t := WonHistory(h, s), BecomeLeader(s), s.currentTerm;
    WonHistoryGrows(h, s);
    CommittedUpToStable(s.peers, h, h', s.id, t, s.log, s'.log, s.commitIndex, t, t);
    AcksKeptStable(h, h', s.id, t, s.id, s.log, s'.log, t, t + 1);
    assert h'.elections[t].log[..|s'.log|] == s'.log;
    forall u, n | u < t + 1 && Acked(h', s.id, u, n)
      ensures Kept(h'.elections, u, n, s'.log, t + 1)
    {
      if u == t {
        assert h'.elections[t].log[..n] <= s'.log;
      }
    }
    assert VoteStateOk(h', s') && LeaderStateOk(h', s') && LogStateOk(h', s') && AcksOk(h', s');
  }

  lemma WonVoterOk(c: Cluster, v: int, p: int)
    requires Inv(c) && InRange(c, v) && CanWin(c.hist, c.nodes[v]) && p in {v} + c.nodes[v].granted
    ensures VoterOk(Update(c, v, BecomeLeader(c.nodes[v]), {}, WonHistory(c.hist, c.nodes[v])),
                    c.nodes[v].currentTerm, p)
  {
    var s, t := c.nodes[v], c.nodes[v].currentTerm;
    WonHistoryGrows(c.hist, s);
    assert NodeInv(c, v);
    assert (p, t) in c.hist.votes && c.hist.votes[(p, t)] == v;
    assert VoteOk(c, p, t);
    assert NodeInv(c, p);
    AcksKeptStable(c.hist, WonHistory(c.hist, s), v, t, p, s.log, s.log, t, t);
  }

  lemma WinKeepsInv(c: Cluster, v: int)
    requires Inv(c) && InRange(c, v) && CanWin(c.hist, c.nodes[v])
    ensures Inv(Update(c, v, BecomeLeader(c.nodes[v]), {}, WonHistory(c.hist, c.nodes[v])))
  {
    var s := c.nodes[v];
    var s', h' := BecomeLeader(s), WonHistory(c.hist, s);
    var c' := Update(c, v, s', {}, h');
    assert NodeInv(c, v);
    WonHistoryGrows(c.hist, s);
    WonElectionOk(c.hist, s);
    WonNodeOk(c.hist, s);
    forall p | p in h'.elections[s.currentTerm].voters
      ensures VoterOk(c', s.currentTerm, p)
    {
      WonVoterOk(c, v, p);
    }
    KeepInv(c, v, s', {}, h', c');
  }

  /** Counting a vote, and winning with it if it completes a majority. */
  lemma CountKeepsInv(c: Cluster, m: Message)
    requires Inv(c) && m in c.net && m.VoteAnswer? && InRange(c, m.dst)
    requires c.nodes[m.dst].role == Candidate && c.nodes[m.dst].currentTerm == m.term
    requires m.voteReply.granted && m.voteReply.term <= m.term
    ensures Inv(DoVoteAnswer(c, m))
  {
    var v, s := m.dst, c.nodes[m.dst];
    assert MessageOk(c, m) && NodeInv(c, v);
    var t := s.(granted := s.granted + {m.src});
    var c1 := Update(c, v, t, {}, c.hist);
    CountedVoteKeepsInv(c, v, m.src);
    if 1 + |t.granted| >= Quorum(s.peers) {
      MajorityCanWin(c1, v);
      WinKeepsInv(c1, v);
      var s' := BecomeLeader(t);
      assert c1.nodes[v := s'] == c.nodes[v := s'] && c1.net == c.net;
    }
  }

  /** A candidate with a majority is the first to win its term. */
  lemma MajorityCanWin(c: Cluster, v: int)
    requires Inv(c) && InRange(c, v) && c.nodes[v].role == Candidate
    requires 1 + |c.nodes[v].granted| >= Quorum(|c.nodes|)
    ensures CanWin(c.hist, c.nodes[v])
  {
    var s := c.nodes[v];
    assert NodeInv(c, v);
    if s.currentTerm in c.hist.elections {
      assert v !in s.granted;
      SameWinner(c, s.currentTerm, v, {v} + s.granted);
    }
  }

  lemma VoteAnswerKeepsInv(c: Cluster, m: Message)
    requires Inv(c) && m in c.net && m.VoteAnswer? && InRange(c, m.dst)
    ensures Inv(DoVoteAnswer(c, m))
  {
    var v, s := m.dst, c.nodes[m.dst];
    if m.voteReply.term > s.currentTerm {
      StepDownKeepsInv(c, v, m.voteReply.term);
    } else if s.role != Candidate || s.currentTerm != m.term || !m.voteReply.granted {
      SendKeepsInv(c, v, {});
    } else {
      CountKeepsInv(c, m);
    }
  }
}
