/**
 Preservation of the invariant by a step in general. Every step of the protocol
 changes one node v and extends the history only at v and v's new term
 (`Grows`); the lemmas here reduce "the invariant is kept" to obligations about
 that node, that term and the messages sent.
 */
module RaftPreservation {
  import opened RaftLog
  import opened RaftNode
  import opened RaftCluster
  import opened RaftInvariant
  import opened Majority

  /** Elections are never forgotten or altered, except that v may append to the log of its own term t or win t. */
  ghost predicate ElectionsGrow(E: Elections, E': Elections, v: int, t: int) {
    && (forall u {:trigger u in E} :: u in E ==>
          && u in E'
          && E'[u].leader == E[u].leader && E'[u].voters == E[u].voters
          && E'[u].base == E[u].base && E[u].log <= E'[u].log)
    && (forall u {:trigger u in E'} :: u in E' ==>
          || (u in E && E'[u].log == E[u].log)
          || (u == t && E'[u].leader == v))
  }

  ghost predicate Grows(h: History, h': History, v: int, t: int) {
    && ElectionsGrow(h.elections, h'.elections, v, t)
    && (forall k {:trigger k in h.votes} :: k in h.votes ==> k in h'.votes && h'.votes[k] == h.votes[k])
    && (forall k {:trigger k in h'.votes} :: k in h'.votes ==> k in h.votes || k == (v, t))
    && (forall k {:trigger k in h.acks} :: k in h.acks ==> k in h'.acks && h.acks[k] <= h'.acks[k])
    && (forall k {:trigger k in h'.acks} :: k in h'.acks && k != (v, t) ==> k in h.acks && h'.acks[k] == h.acks[k])
  }

  // ---- Stability of the parts of the invariant ----

  lemma GoodLogStable(E: Elections, E': Elections, v: int, t: int, log: seq<LogEntry>)
    requires ElectionsGrow(E, E', v, t) && GoodLog(E, log)
    ensures GoodLog(E', log)
  {
  }

  lemma ElectionStable(n: nat, E: Elections, E': Elections, v: int, t: int, u: int)
    requires ElectionsGrow(E, E', v, t) && u in E && E'[u].log == E[u].log && ElectionOk(n, E, u)
    ensures ElectionOk(n, E', u)
  {
    GoodLogStable(E, E', v, t, E[u].base);
  }

  lemma OwnEntryStable(E: Elections, E': Elections, v: int, t: int, u: int, n: int)
    requires ElectionsGrow(E, E', v, t) && OwnEntry(E, u, n)
    ensures OwnEntry(E', u, n) && E'[u].log[..n] == E[u].log[..n]
  {
  }

  lemma CommittedAtStable(N: nat, h: History, h': History, v: int, t: int, u: int, n: int)
    requires Grows(h, h', v, t) && CommittedAt(N, h, u, n)
    ensures CommittedAt(N, h', u, n) && h'.elections[u].log[..n] == h.elections[u].log[..n]
  {
    OwnEntryStable(h.elections, h'.elections, v, t, u, n);
    SubsetSize(AckSet(N, h, u, n), AckSet(N, h', u, n));
  }

  lemma CommittedUpToStable(N: nat, h: History, h': History, v: int, t: int,
                            log: seq<LogEntry>, log': seq<LogEntry>, k: int, bound: int, bound': int)
    requires Grows(h, h', v, t) && CommittedUpTo(N, h, log, k, bound) && bound <= bound'
    requires 0 <= k <= |log| && log[..k] <= log'
    ensures CommittedUpTo(N, h', log', k, bound')
  {
    if k != 0 {
      var u, n :| u <= bound && CommittedAt(N, h, u, n) && k <= n && log[..k] == h.elections[u].log[..k];
      CommittedAtStable(N, h, h', v, t, u, n);
      assert log'[..k] == log[..k];
      assert h'.elections[u].log[..k] == h'.elections[u].log[..n][..k];
    }
  }

  /** What w has acknowledged before `bound` stays kept, if w acknowledges nothing new before `bound`. */
  lemma AcksKeptStable(h: History, h': History, v: int, t: int,
                       w: int, log: seq<LogEntry>, log': seq<LogEntry>, bound: int, bound': int)
    requires Grows(h, h', v, t) && AcksKept(h, w, log, bound)
    requires forall u {:trigger (w, u) in h.acks} :: (w, u) in h.acks ==> u in h.elections && h.acks[(w, u)] <= |h.elections[u].log|
    requires w != v || t >= bound
    requires log <= log' && bound <= bound'
    ensures forall u, n {:trigger Acked(h', w, u, n)} ::
              u < bound && Acked(h', w, u, n) ==> Kept(h'.elections, u, n, log', bound')
  {
    forall u, n | u < bound && Acked(h', w, u, n)
      ensures Kept(h'.elections, u, n, log', bound')
    {
      assert (w, u) in h'.acks;
      assert Acked(h, w, u, n);
      OwnEntryStable(h.elections, h'.elections, v, t, u, n);
      if !(h.elections[u].log[..n] <= log) {
        var x :| u < x < bound && x in h.elections && !(h.elections[u].log[..n] <= h.elections[x].base);
        assert x in h'.elections;
      }
    }
  }

  // ---- A step by node v ----

  /** What every step guarantees about the node that takes it. */
  ghost predicate NodeStepOk(c: Cluster, v: int, s': Node, h': History) {
    && InRange(c, v)
    && Grows(c.hist, h', v, s'.currentTerm)
    && s'.id == v && s'.peers == |c.nodes|
    && s'.currentTerm >= c.nodes[v].currentTerm
    && NodeOk(h', s') && DeliveredOk(h', v, s')
    && |h'.delivered| == |c.nodes|
    && (forall w {:trigger h'.delivered[w]} :: 0 <= w < |c.nodes| && w != v && w < |c.hist.delivered| ==>
          h'.delivered[w] == c.hist.delivered[w])
    && (s'.currentTerm == c.nodes[v].currentTerm && s'.currentTerm !in h'.elections ==> s'.log == c.nodes[v].log)
  }

  lemma OtherNodeStable(c: Cluster, v: int, s': Node, h': History, w: int)
    requires NodesOk(c) && NodeStepOk(c, v, s', h') && InRange(c, w) && w != v
    ensures NodeOk(h', c.nodes[w])
  {
    var h, s, t := c.hist, c.nodes[w], s'.currentTerm;
    assert NodeInv(c, w);
    assert VoteStateOk(h', s);
    OtherLeaderStable(h, h', v, t, s);
    GoodLogStable(h.elections, h'.elections, v, t, s.log);
    CommittedUpToStable(s.peers, h, h', v, t, s.log, s.log, s.commitIndex, s.currentTerm, s.currentTerm);
    AcksKeptStable(h, h', v, t, w, s.log, s.log, s.currentTerm + 1, s.currentTerm + 1);
    assert AcksOk(h', s);
  }

  lemma OtherLeaderStable(h: History, h': History, v: int, t: int, s: Node)
    requires Grows(h, h', v, t) && s.id != v && |s.nextIndex| == |s.matchIndex| == s.peers
    requires LeaderStateOk(h, s)
    ensures LeaderStateOk(h', s)
  {
    assert s.currentTerm in h'.elections && h'.elections[s.currentTerm].leader == s.id ==> s.currentTerm in h.elections;
  }

  lemma KeepNodes(c: Cluster, v: int, s': Node, ms: set<Message>, h': History)
    requires NodesOk(c) && NodeStepOk(c, v, s', h')
    ensures NodesOk(Update(c, v, s', ms, h'))
  {
    var c' := Update(c, v, s', ms, h');
    forall w | 0 <= w < |c'.nodes|
      ensures NodeInv(c', w)
    {
      if w != v {
        assert NodeInv(c, w);
        OtherNodeStable(c, v, s', h', w);
        assert h'.delivered[w] == c.hist.delivered[w];
      }
    }
  }

  lemma KeepElections(c: Cluster, v: int, s': Node, h': History)
    requires ElectionsOk(|c.nodes|, c.hist.elections) && NodeStepOk(c, v, s', h')
    requires s'.currentTerm in h'.elections ==> ElectionOk(|c.nodes|, h'.elections, s'.currentTerm)
    ensures ElectionsOk(|c.nodes|, h'.elections)
  {
    var N, E, E' := |c.nodes|, c.hist.elections, h'.elections;
    forall u | u in E'
      ensures ElectionOk(N, E', u)
    {
      if u != s'.currentTerm {
        assert ElectionOk(N, E, u);
        ElectionStable(N, E, E', v, s'.currentTerm, u);
      }
    }
  }

  lemma KeepVotes(c: Cluster, v: int, s': Node, ms: set<Message>, h': History)
    requires NodesOk(c) && VotesOk(c) && NodeStepOk(c, v, s', h')
    requires (v, s'.currentTerm) in h'.votes && (v, s'.currentTerm) !in c.hist.votes ==>
               VoteOk(Update(c, v, s', ms, h'), v, s'.currentTerm)
    ensures VotesOk(Update(c, v, s', ms, h'))
  {
    var c', t := Update(c, v, s', ms, h'), s'.currentTerm;
    forall p, u | (p, u) in h'.votes
      ensures VoteOk(c', p, u)
    {
      if (p, u) in c.hist.votes {
        assert VoteOk(c, p, u);
        var q := c.hist.votes[(p, u)];
        if u !in h'.elections && c'.nodes[q].currentTerm == u {
          assert c'.nodes[q].log == c.nodes[q].log;
          assert NodeInv(c, p);
          AcksKeptStable(c.hist, h', v, t, p, c.nodes[q].log, c.nodes[q].log, u, u);
        }
      }
    }
  }

  lemma KeepVoters(c: Cluster, v: int, s': Node, ms: set<Message>, h': History)
    requires NodesOk(c) && VotersOk(c) && NodeStepOk(c, v, s', h')
    requires s'.currentTerm in h'.elections && s'.currentTerm !in c.hist.elections ==>
               forall p {:trigger VoterOk(Update(c, v, s', ms, h'), s'.currentTerm, p)} ::
                 p in h'.elections[s'.currentTerm].voters ==>
                   VoterOk(Update(c, v, s', ms, h'), s'.currentTerm, p)
    ensures VotersOk(Update(c, v, s', ms, h'))
  {
    var c', t := Update(c, v, s', ms, h'), s'.currentTerm;
    forall u, p | u in h'.elections && p in h'.elections[u].voters
      ensures VoterOk(c', u, p)
    {
      if u in c.hist.elections {
        assert VoterOk(c, u, p);
        assert NodeInv(c, p);
        AcksKeptStable(c.hist, h', v, t, p, c.hist.elections[u].base, c.hist.elections[u].base, u, u);
      }
    }
  }

  lemma AppendArgsStable(N: nat, h: History, h': History, v: int, t: int, src: int, a: AppendArgs)
    requires Grows(h, h', v, t) && AppendArgsOk(N, h, src, a)
    ensures AppendArgsOk(N, h', src, a)
  {
    var e, e' := h.elections[a.term], h'.elections[a.term];
    var last := a.prevLogIndex + |a.entries|;
    assert e'.log[a.prevLogIndex..last] == e.log[a.prevLogIndex..last];
    CommittedUpToStable(N, h, h', v, t, e.log, e'.log, a.leaderCommit, a.term, a.term);
  }

  lemma KeepMessages(c: Cluster, v: int, s': Node, ms: set<Message>, h': History)
    requires NodesOk(c) && MessagesOk(c) && NodeStepOk(c, v, s', h')
    requires forall m {:trigger m in ms} :: m in ms ==> MessageOk(Update(c, v, s', ms, h'), m)
    ensures MessagesOk(Update(c, v, s', ms, h'))
  {
    var c' := Update(c, v, s', ms, h');
    forall m | m in c'.net
      ensures MessageOk(c', m)
    {
      if m !in ms {
        assert m in c.net && MessageOk(c, m);
        if m.AppendRequest? {
          AppendArgsStable(|c.nodes|, c.hist, h', v, s'.currentTerm, m.src, m.args);
        }
      }
    }
  }
}
