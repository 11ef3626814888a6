/**
 What holds in every run of the protocol, for every number of nodes and every
 sequence of steps. Most theorems compare the states at two moments i and j of one run,
 so they speak of everything that ever happened in it.
 */
module RaftSafety {
  import opened RaftLog
  import opened RaftNode
  import opened RaftCluster
  import opened RaftInvariant
  import opened Majority
  import opened RaftPreservation
  import opened RaftElection
  import opened RaftReplication

  lemma {:induction false} RunKeepsInv(n: nat, steps: seq<Step>, states: seq<Cluster>, i: nat)
    requires Execution(n, steps, states) && i < |states|
    ensures Inv(states[i]) && |states[i].nodes| == n
  {
    if i == 0 {
      InitInv(n);
    } else {
      RunKeepsInv(n, steps, states, i - 1);
      StepKeepsInv(states[i - 1], steps[i - 1]);
    }
  }

  // ---- What never changes once it has happened ----

  ghost predicate NodeLater(s: Node, s': Node) {
    && s'.currentTerm >= s.currentTerm
    && (s'.currentTerm == s.currentTerm && s.votedFor != NOBODY ==> s'.votedFor == s.votedFor)
    && (s'.currentTerm == s.currentTerm && s.role == Leader ==> s'.role == Leader && s.log <= s'.log)
    && 0 <= s.commitIndex <= |s.log|
    && s'.commitIndex >= s.commitIndex
    && s.log[..s.commitIndex] <= s'.log
  }

  ghost predicate HistoryLater(h: History, h': History) {
    && (forall t {:trigger t in h.elections} :: t in h.elections ==>
          && t in h'.elections
          && h'.elections[t].leader == h.elections[t].leader
          && h'.elections[t].base == h.elections[t].base
          && h.elections[t].log <= h'.elections[t].log)
    && (forall k {:trigger k in h.acks} :: k in h.acks ==> k in h'.acks && h.acks[k] <= h'.acks[k])
    && |h.delivered| == |h'.delivered|
    && (forall v {:trigger h'.delivered[v]} :: 0 <= v < |h.delivered| ==> h.delivered[v] <= h'.delivered[v])
  }

  ghost predicate Later(c: Cluster, c': Cluster) {
    && |c.nodes| == |c'.nodes|
    && HistoryLater(c.hist, c'.hist)
    && (forall v {:trigger c'.nodes[v]} :: 0 <= v < |c.nodes| ==> NodeLater(c.nodes[v], c'.nodes[v]))
  }

  /** A step changes one node, and neither that node nor the history goes back on anything. */
  lemma UpdateIsLater(c: Cluster, v: int, s': Node, ms: set<Message>, h': History)
    requires Inv(c) && InRange(c, v) && NodeLater(c.nodes[v], s') && HistoryLater(c.hist, h')
    ensures Later(c, Update(c, v, s', ms, h'))
  {
    forall w | 0 <= w < |c.nodes|
      ensures NodeLater(c.nodes[w], Update(c, v, s', ms, h').nodes[w])
    {
      assert NodeInv(c, w);
    }
  }

  lemma AppendIsLater(c: Cluster, m: Message)
    requires Inv(c) && m in c.net && m.AppendRequest? && InRange(c, m.dst) && m.args.prevLogIndex >= 0
    ensures NodeLater(c.nodes[m.dst], OnAppendEntries(c.nodes[m.dst], m.args).0)
  {
    var s, a := c.nodes[m.dst], m.args;
    assert NodeInv(c, m.dst);
    if a.term >= s.currentTerm && Consistent(s.log, a) {
      var t := if a.term > s.currentTerm then BecomeFollower(s, a.term) else s;
      assert NodeOk(c.hist, t) by {
        if a.term > s.currentTerm {
          LaterTermIsFresh(c, m.dst, a.term);
          assert AcksOk(c.hist, t) && LogStateOk(c.hist, t);
        }
      }
      assert AppendArgsOk(|c.nodes|, c.hist, m.src, a) && m.src != m.dst by { assert MessageOk(c, m); }
      AcceptedNodeOk(c, t, a, m.src);
      HandlerAccepts(|c.nodes|, c.hist, t, a, m.src);
    }
  }

  lemma TimeoutIsLater(c: Cluster, v: int)
    requires Inv(c) && InRange(c, v) && MayStartElection(c.nodes[v])
    ensures Later(c, DoTimeout(c, v))
  {
    var s' := StartElection(c.nodes[v]);
    assert NodeInv(c, v);
    UpdateIsLater(c, v, s', set p | 0 <= p < |c.nodes| && p != v :: VoteRequest(v, p, VoteRequestOf(s')),
                  DoTimeout(c, v).hist);
  }

  lemma VoteRequestIsLater(c: Cluster, m: Message)
    requires Inv(c) && m.VoteRequest? && InRange(c, m.dst)
    ensures Later(c, DoVoteRequest(c, m))
  {
    var (s', reply) := OnRequestVote(c.nodes[m.dst], m.vote);
    assert NodeInv(c, m.dst);
    UpdateIsLater(c, m.dst, s', {VoteAnswer(m.dst, m.src, m.vote.term, reply)}, DoVoteRequest(c, m).hist);
  }

  lemma ProposeIsLater(c: Cluster, v: int, command: string)
    requires Inv(c) && InRange(c, v)
    ensures Later(c, DoPropose(c, v, command))
  {
    assert NodeInv(c, v);
    UpdateIsLater(c, v, Start(c.nodes[v], command), {}, DoPropose(c, v, command).hist);
  }

  lemma SendIsLater(c: Cluster, v: int, ms: set<Message>)
    requires Inv(c) && InRange(c, v)
    ensures Later(c, Update(c, v, c.nodes[v], ms, c.hist))
  {
    assert NodeInv(c, v);
    UpdateIsLater(c, v, c.nodes[v], ms, c.hist);
  }

  lemma AppendRequestIsLater(c: Cluster, m: Message)
    requires Inv(c) && m in c.net && m.AppendRequest? && InRange(c, m.dst) && m.args.prevLogIndex >= 0
    ensures Later(c, DoAppendRequest(c, m))
  {
    AppendIsLater(c, m);
    var (s', reply) := OnAppendEntries(c.nodes[m.dst], m.args);
    UpdateIsLater(c, m.dst, s', {AppendAnswer(m.dst, m.src, m.args, reply)}, DoAppendRequest(c, m).hist);
  }

  lemma AppendAnswerIsLater(c: Cluster, m: Message)
    requires Inv(c) && m in c.net && m.AppendAnswer? && InRange(c, m.dst)
    ensures Later(c, DoAppendAnswer(c, m))
  {
    assert NodeInv(c, m.dst) && MessageOk(c, m);
    UpdateIsLater(c, m.dst, OnAppendReply(c.nodes[m.dst], m.src, m.sent, m.reply), {}, c.hist);
  }

  lemma ApplyIsLater(c: Cluster, v: int)
    requires Inv(c) && InRange(c, v)
    ensures Later(c, DoApply(c, v))
  {
    assert NodeInv(c, v);
    UpdateIsLater(c, v, ApplyNext(c.nodes[v]), {}, DoApply(c, v).hist);
  }

  lemma StepIsLater(c: Cluster, step: Step)
    requires Inv(c)
    ensures Later(c, Do(c, step))
  {
    if Do(c, step) == c {
      assert forall v {:trigger c.nodes[v]} :: 0 <= v < |c.nodes| ==> NodeInv(c, v);
    } else {
      match step
      case Timeout(v) => TimeoutIsLater(c, v);
      case DeliverVoteRequest(m) => VoteRequestIsLater(c, m);
      case DeliverVoteAnswer(m) => VoteAnswerIsLater(c, m);
      case Propose(v, command) => ProposeIsLater(c, v, command);
      case SendAppend(v, peer) => SendIsLater(c, v, {AppendRequest(v, peer, AppendRequestFor(c.nodes[v], peer))});
      case DeliverAppendRequest(m) => AppendRequestIsLater(c, m);
      case DeliverAppendAnswer(m) => AppendAnswerIsLater(c, m);
      case Apply(v) => ApplyIsLater(c, v);
      case Kill(v) => KillIsLater(c, v);
    }
  }

  lemma KillIsLater(c: Cluster, v: int)
    requires Inv(c) && InRange(c, v)
    ensures Later(c, Update(c, v, c.nodes[v].(dead := true), {}, c.hist))
  {
    assert NodeInv(c, v);
    UpdateIsLater(c, v, c.nodes[v].(dead := true), {}, c.hist);
  }

  lemma VoteAnswerIsLater(c: Cluster, m: Message)
    requires Inv(c) && m in c.net && m.VoteAnswer? && InRange(c, m.dst)
    ensures Later(c, DoVoteAnswer(c, m))
  {
    var v, s := m.dst, c.nodes[m.dst];
    assert NodeInv(c, v) && MessageOk(c, m);
    var s' := OnVoteReply(s, m.src, m.term, m.voteReply);
    if s.role != Leader && s'.role == Leader {
      var voters := {v} + s'.granted;
      assert v !in s'.granted;
      if s.currentTerm in c.hist.elections {
        SameWinner(c, s.currentTerm, v, voters);
      }
    }
    UpdateIsLater(c, v, s', {}, DoVoteAnswer(c, m).hist);
  }

  lemma LaterIsTransitive(a: Cluster, b: Cluster, c: Cluster)
    requires Later(a, b) && Later(b, c)
    ensures Later(a, c)
  {
    forall v | 0 <= v < |a.nodes|
      ensures NodeLater(a.nodes[v], c.nodes[v])
    {
      assert NodeLater(a.nodes[v], b.nodes[v]) && NodeLater(b.nodes[v], c.nodes[v]);
      var k := a.nodes[v].commitIndex;
      assert a.nodes[v].log[..k] <= b.nodes[v].log[..b.nodes[v].commitIndex];
    }
    forall v | 0 <= v < |a.hist.delivered|
      ensures a.hist.delivered[v] <= c.hist.delivered[v]
    {
      assert a.hist.delivered[v] <= b.hist.delivered[v] <= c.hist.delivered[v];
    }
  }

  lemma LaterIsReflexive(c: Cluster)
    requires Inv(c)
    ensures Later(c, c)
  {
    assert forall v {:trigger c.nodes[v]} :: 0 <= v < |c.nodes| ==> NodeInv(c, v);
  }

  lemma {:induction false} RunIsLater(n: nat, steps: seq<Step>, states: seq<Cluster>, i: nat, j: nat)
    requires Execution(n, steps, states) && i <= j < |states|
    ensures Inv(states[i]) && Inv(states[j]) && |states[i].nodes| == |states[j].nodes| == n
    ensures Later(states[i], states[j])
    decreases j
  {
    RunKeepsInv(n, steps, states, i);
    RunKeepsInv(n, steps, states, j);
    if i == j {
      LaterIsReflexive(states[i]);
    } else {
      RunIsLater(n, steps, states, i, j - 1);
      StepIsLater(states[j - 1], steps[j - 1]);
      LaterIsTransitive(states[i], states[j - 1], states[j]);
    }
  }

  /** Two moments of a run and a third that is later than both. */
  lemma CommonFuture(n: nat, steps: seq<Step>, states: seq<Cluster>, i: nat, j: nat) returns (c: Cluster)
    requires Execution(n, steps, states) && i < |states| && j < |states|
    ensures Inv(states[i]) && Inv(states[j]) && Inv(c)
    ensures |states[i].nodes| == |states[j].nodes| == |c.nodes| == n
    ensures Later(states[i], c) && Later(states[j], c)
  {
    c := states[|steps|];
    RunIsLater(n, steps, states, i, |steps|);
    RunIsLater(n, steps, states, j, |steps|);
  }

  // ---- Election safety ----

  /** At most one node is ever leader in a given term, whenever in the run the two are observed. */
  lemma ElectionSafety(n: nat, steps: seq<Step>, states: seq<Cluster>, i: nat, j: nat, a: int, b: int)
    requires Execution(n, steps, states) && i < |states| && j < |states| && 0 <= a < n && 0 <= b < n
    ensures |states[i].nodes| == |states[j].nodes| == n
    ensures var x, y := states[i].nodes[a], states[j].nodes[b];
            x.role == Leader && y.role == Leader && x.currentTerm == y.currentTerm ==> a == b
  {
    var c := CommonFuture(n, steps, states, i, j);
    assert NodeInv(states[i], a) && NodeInv(states[j], b);
  }

  /** A node votes at most once per term: while its term lasts, a vote given is never changed or withdrawn. */
  lemma VotesOncePerTerm(n: nat, steps: seq<Step>, states: seq<Cluster>, i: nat, j: nat, v: int)
    requires Execution(n, steps, states) && i <= j < |states| && 0 <= v < n
    ensures |states[i].nodes| == |states[j].nodes| == n
    ensures var x, y := states[i].nodes[v], states[j].nodes[v];
            x.votedFor != NOBODY && x.currentTerm == y.currentTerm ==> y.votedFor == x.votedFor
  {
    RunIsLater(n, steps, states, i, j);
    assert NodeLater(states[i].nodes[v], states[j].nodes[v]);
  }

  /**
   A vote is granted exactly if the request is not stale, the voter has never in
   this run voted for another candidate in that term, and the candidate's last
   entry is not behind the voter's, by term and then by index.
   */
  lemma VoteIsGrantedExactly(n: nat, steps: seq<Step>, states: seq<Cluster>, i: nat, m: Message)
    requires Execution(n, steps, states) && i < |states|
    requires m in states[i].net && m.VoteRequest? && InRange(states[i], m.dst)
    ensures var s, h, a := states[i].nodes[m.dst], states[i].hist, m.vote;
            OnRequestVote(s, a).1.granted <==>
              && s.currentTerm <= a.term
              && ((m.dst, a.term) in h.votes ==> h.votes[(m.dst, a.term)] == m.src)
              && (TermOfLast(s.log) < a.lastLogTerm
                  || (TermOfLast(s.log) == a.lastLogTerm && |s.log| <= a.lastLogIndex))
  {
    RunKeepsInv(n, steps, states, i);
    var c := states[i];
    assert NodeInv(c, m.dst) && MessageOk(c, m);
    if (m.dst, m.vote.term) in c.hist.votes {
      assert VoteOk(c, m.dst, m.vote.term);
    }
  }

  // ---- Log matching ----

  /** A log seen at one moment is good with respect to the elections known at any later one. */
  lemma LogStaysGood(c: Cluster, c': Cluster, a: int)
    requires Inv(c) && Later(c, c') && InRange(c, a)
    ensures GoodLog(c'.hist.elections, c.nodes[a].log)
  {
    assert NodeInv(c, a);
  }

  /** Two logs, of any two nodes at any two moments, that hold the same term at an index are identical up to it. */
  lemma LogMatching(n: nat, steps: seq<Step>, states: seq<Cluster>, i: nat, j: nat, a: int, b: int, k: int)
    requires Execution(n, steps, states) && i < |states| && j < |states| && 0 <= a < n && 0 <= b < n
    ensures |states[i].nodes| == |states[j].nodes| == n
    ensures var x, y := states[i].nodes[a].log, states[j].nodes[b].log;
            0 <= k < |x| && k < |y| && x[k].term == y[k].term ==> x[..k + 1] == y[..k + 1]
  {
    var c := CommonFuture(n, steps, states, i, j);
    LogStaysGood(states[i], c, a);
    LogStaysGood(states[j], c, b);
    var x, y := states[i].nodes[a].log, states[j].nodes[b].log;
    if 0 <= k < |x| && k < |y| && x[k].term == y[k].term {
      GoodLogsMatch(n, c.hist.elections, x, y, k);
    }
  }

  /** Along a log, indices count up from 1 and terms never decrease. */
  lemma LogIsOrdered(n: nat, steps: seq<Step>, states: seq<Cluster>, i: nat, a: int, k: int, l: int)
    requires Execution(n, steps, states) && i < |states| && 0 <= a < n
    ensures |states[i].nodes| == n
    ensures var x := states[i].nodes[a];
            0 <= k <= l < |x.log| ==>
              x.log[k].index == k + 1 && 1 <= x.log[k].term <= x.log[l].term <= x.currentTerm
  {
    RunKeepsInv(n, steps, states, i);
    assert NodeInv(states[i], a);
    if 0 <= k <= l < |states[i].nodes[a].log| {
      GoodLogIsOrdered(n, states[i].hist.elections, states[i].nodes[a].log, k, l);
    }
  }

  // ---- Committed entries ----

  /** What a node has committed stays in its log and committed for the rest of the run. */
  lemma CommittedNeverTruncated(n: nat, steps: seq<Step>, states: seq<Cluster>, i: nat, j: nat, v: int)
    requires Execution(n, steps, states) && i <= j < |states| && 0 <= v < n
    ensures |states[i].nodes| == |states[j].nodes| == n
    ensures var x, y := states[i].nodes[v], states[j].nodes[v];
            && 0 <= x.lastApplied <= x.commitIndex <= |x.log|
            && x.commitIndex <= y.commitIndex
            && x.log[..x.commitIndex] <= y.log
  {
    RunIsLater(n, steps, states, i, j);
    assert NodeInv(states[i], v);
    assert NodeLater(states[i].nodes[v], states[j].nodes[v]);
  }

  /** What is committed stays committed. */
  lemma CommittedStaysCommitted(c: Cluster, c': Cluster, t: int, k: int)
    requires Later(c, c') && CommittedAt(|c.nodes|, c.hist, t, k)
    ensures CommittedAt(|c.nodes|, c'.hist, t, k)
    ensures c'.hist.elections[t].log[..k] == c.hist.elections[t].log[..k]
  {
    SubsetSize(AckSet(|c.nodes|, c.hist, t, k), AckSet(|c.nodes|, c'.hist, t, k));
  }

  /** The first k entries of node v in c are committed, witnessed in the history of any later c'. */
  lemma CommitWitness(c: Cluster, c': Cluster, v: int, k: int) returns (t: int, m: int)
    requires Inv(c) && Later(c, c') && InRange(c, v) && 0 < k <= c.nodes[v].commitIndex
    ensures c.nodes[v].commitIndex <= |c.nodes[v].log|
    ensures t <= c.nodes[v].currentTerm && k <= m && CommittedAt(|c.nodes|, c'.hist, t, m)
    ensures c.nodes[v].log[..k] == c'.hist.elections[t].log[..k]
  {
    var s := c.nodes[v];
    assert NodeInv(c, v);
    t, m :| t <= s.currentTerm && CommittedAt(|c.nodes|, c.hist, t, m) && s.commitIndex <= m
            && s.log[..s.commitIndex] == c.hist.elections[t].log[..s.commitIndex];
    CommittedStaysCommitted(c, c', t, m);
    var E := c'.hist.elections;
    assert s.log[..k] == s.log[..s.commitIndex][..k];
    assert E[t].log[..k] == E[t].log[..m][..k];
  }

  /** Committed entries of two earlier states of a run agree. */
  lemma CommittedEntriesAgree(c1: Cluster, c2: Cluster, c: Cluster, a: int, b: int, k: int)
    requires Inv(c1) && Inv(c2) && Inv(c) && Later(c1, c) && Later(c2, c) && InRange(c1, a) && InRange(c2, b)
    requires 0 <= k < c1.nodes[a].commitIndex && k < c2.nodes[b].commitIndex
    ensures k < |c1.nodes[a].log| && k < |c2.nodes[b].log| && c1.nodes[a].log[k] == c2.nodes[b].log[k]
  {
    var t1, m1 := CommitWitness(c1, c, a, k + 1);
    var t2, m2 := CommitWitness(c2, c, b, k + 1);
    CommittedPrefixesAgree(c, t1, m1, t2, m2, k);
    assert c1.nodes[a].log[k] == c1.nodes[a].log[..k + 1][k];
    assert c2.nodes[b].log[k] == c2.nodes[b].log[..k + 1][k];
  }

  /** A leader of a term after x's, observed in c2, holds what x had committed in c1; c is later than both. */
  lemma LeaderHoldsCommitted(c1: Cluster, c2: Cluster, c: Cluster, a: int, b: int)
    requires Inv(c1) && Inv(c2) && Inv(c) && Later(c1, c) && Later(c2, c) && InRange(c1, a) && InRange(c2, b)
    requires c2.nodes[b].role == Leader && c1.nodes[a].currentTerm < c2.nodes[b].currentTerm
    ensures 0 <= c1.nodes[a].commitIndex <= |c1.nodes[a].log|
    ensures c1.nodes[a].log[..c1.nodes[a].commitIndex] <= c2.nodes[b].log
  {
    var x, y, h, E := c1.nodes[a], c2.nodes[b], c2.hist, c.hist.elections;
    assert NodeInv(c1, a) && NodeInv(c2, b);
    if x.commitIndex > 0 {
      var t, m := CommitWitness(c1, c, a, x.commitIndex);
      CommittedIsInLaterLeaders(c, t, m, y.currentTerm);
      assert ElectionOk(|c2.nodes|, h.elections, y.currentTerm);
      assert E[t].log[..x.commitIndex] <= E[t].log[..m] <= E[y.currentTerm].base;
      assert E[y.currentTerm].base == h.elections[y.currentTerm].base <= y.log;
    }
  }

  /** The leader of x's own term holds what x had committed earlier in the run. */
  lemma LeaderOfTermHoldsCommitted(c1: Cluster, c2: Cluster, a: int, b: int)
    requires Inv(c1) && Inv(c2) && Later(c1, c2) && InRange(c1, a) && InRange(c2, b)
    requires c2.nodes[b].role == Leader && c1.nodes[a].currentTerm <= c2.nodes[b].currentTerm
    ensures 0 <= c1.nodes[a].commitIndex <= |c1.nodes[a].log|
    ensures c1.nodes[a].log[..c1.nodes[a].commitIndex] <= c2.nodes[b].log
  {
    var x, y, E := c1.nodes[a], c2.nodes[b], c2.hist.elections;
    assert NodeInv(c1, a) && NodeInv(c2, b);
    if x.commitIndex > 0 {
      var t, m := CommitWitness(c1, c2, a, x.commitIndex);
      if t < y.currentTerm {
        CommittedIsInLaterLeaders(c2, t, m, y.currentTerm);
        assert ElectionOk(|c2.nodes|, E, y.currentTerm);
        assert E[t].log[..x.commitIndex] <= E[t].log[..m] <= E[y.currentTerm].base <= y.log;
      }
    }
  }

  /**
   Leader completeness: whatever any node has committed, in any term up to t, is
   in the log of every leader of a term after t, at every moment it leads, and of
   every leader of t itself from that moment on.
   */
  lemma LeaderCompleteness(n: nat, steps: seq<Step>, states: seq<Cluster>, i: nat, j: nat, a: int, b: int)
    requires Execution(n, steps, states) && i < |states| && j < |states| && 0 <= a < n && 0 <= b < n
    ensures |states[i].nodes| == |states[j].nodes| == n
    ensures var x, y := states[i].nodes[a], states[j].nodes[b];
            && 0 <= x.commitIndex <= |x.log|
            && (y.role == Leader && x.currentTerm < y.currentTerm ==> x.log[..x.commitIndex] <= y.log)
            && (y.role == Leader && x.currentTerm == y.currentTerm && i <= j ==> x.log[..x.commitIndex] <= y.log)
  {
    var c := CommonFuture(n, steps, states, i, j);
    var x, y := states[i].nodes[a], states[j].nodes[b];
    assert NodeInv(states[i], a);
    if y.role == Leader && x.currentTerm < y.currentTerm {
      LeaderHoldsCommitted(states[i], states[j], c, a, b);
    } else if y.role == Leader && x.currentTerm == y.currentTerm && i <= j {
      RunIsLater(n, steps, states, i, j);
      LeaderOfTermHoldsCommitted(states[i], states[j], a, b);
    }
  }

  // ---- Durability ----

  /** The logs of the given nodes all begin with the given entries. */
  ghost predicate AllHold(c: Cluster, copies: set<int>, entries: seq<LogEntry>) {
    forall p {:trigger p in copies} :: p in copies ==> InRange(c, p) && entries <= c.nodes[p].log
  }

  /** A real majority of copies. */
  ghost predicate HeldByMajority(c: Cluster, entries: seq<LogEntry>) {
    exists copies: set<int> :: |copies| >= Quorum(|c.nodes|) && AllHold(c, copies, entries)
  }

  /** Whoever acknowledged a committed prefix still has it in its log, in whatever term it is by now. */
  lemma AckedCommittedIsHeld(c: Cluster, t: int, n: int, p: int)
    requires Inv(c) && CommittedAt(|c.nodes|, c.hist, t, n) && p in AckSet(|c.nodes|, c.hist, t, n)
    ensures InRange(c, p) && c.hist.elections[t].log[..n] <= c.nodes[p].log
  {
    var E, s := c.hist.elections, c.nodes[p];
    assert NodeInv(c, p);
    assert Acked(c.hist, p, t, n) && t <= s.currentTerm;
    assert Kept(E, t, n, s.log, s.currentTerm + 1);
    forall u | t < u < s.currentTerm + 1 && u in E
      ensures E[t].log[..n] <= E[u].base
    {
      CommittedIsInLaterLeaders(c, t, n, u);
    }
  }

  /** What node v had committed in c is, in c and any later c', in the logs of a majority. */
  lemma CommittedIsHeldByMajority(c: Cluster, c': Cluster, v: int)
      returns (copies: set<int>)
    requires Inv(c) && Inv(c') && Later(c, c') && InRange(c, v) && c.nodes[v].commitIndex > 0
    ensures c.nodes[v].commitIndex <= |c.nodes[v].log|
    ensures |copies| >= Quorum(|c.nodes|)
    ensures AllHold(c', copies, c.nodes[v].log[..c.nodes[v].commitIndex])
  {
    var s := c.nodes[v];
    var t, m := CommitWitness(c, c', v, s.commitIndex);
    var E := c'.hist.elections;
    copies := AckSet(|c.nodes|, c'.hist, t, m);
    forall p | p in copies
      ensures InRange(c', p) && s.log[..s.commitIndex] <= c'.nodes[p].log
    {
      AckedCommittedIsHeld(c', t, m, p);
      assert E[t].log[..s.commitIndex] <= E[t].log[..m];
    }
  }

  /**
   Durability: what any node has committed at some moment is, at that and every
   later moment of the run, in the logs of a majority, whatever terms they are in.
   */
  lemma CommittedIsDurable(n: nat, steps: seq<Step>, states: seq<Cluster>, i: nat, j: nat, v: int)
    requires Execution(n, steps, states) && i <= j < |states| && 0 <= v < n
    ensures |states[i].nodes| == |states[j].nodes| == n
    ensures var x := states[i].nodes[v];
            && 0 <= x.commitIndex <= |x.log|
            && (x.commitIndex > 0 ==> HeldByMajority(states[j], x.log[..x.commitIndex]))
  {
    RunIsLater(n, steps, states, i, j);
    assert NodeInv(states[i], v);
    if states[i].nodes[v].commitIndex > 0 {
      var copies := CommittedIsHeldByMajority(states[i], states[j], v);
    }
  }

  /** Committed entries agree across nodes and moments. */
  lemma CommittedAgree(n: nat, steps: seq<Step>, states: seq<Cluster>, i: nat, j: nat, a: int, b: int, k: int)
    requires Execution(n, steps, states) && i < |states| && j < |states| && 0 <= a < n && 0 <= b < n
    ensures |states[i].nodes| == |states[j].nodes| == n
    ensures var x, y := states[i].nodes[a], states[j].nodes[b];
            && x.commitIndex <= |x.log| && y.commitIndex <= |y.log|
            && (0 <= k < x.commitIndex && k < y.commitIndex ==> x.log[k] == y.log[k])
  {
    var c := CommonFuture(n, steps, states, i, j);
    assert NodeInv(states[i], a) && NodeInv(states[j], b);
    if 0 <= k < states[i].nodes[a].commitIndex && k < states[j].nodes[b].commitIndex {
      CommittedEntriesAgree(states[i], states[j], c, a, b, k);
    }
  }

  /**
   State-machine safety: two nodes that ever deliver a message at the same index
   deliver the same index, term and command.
   */
  lemma StateMachineSafety(n: nat, steps: seq<Step>, states: seq<Cluster>, i: nat, j: nat, a: int, b: int, k: int)
    requires Execution(n, steps, states) && i < |states| && j < |states| && 0 <= a < n && 0 <= b < n
    ensures |states[i].hist.delivered| == |states[j].hist.delivered| == n
    ensures var x, y := states[i].hist.delivered[a], states[j].hist.delivered[b];
            0 <= k < |x| && k < |y| ==> x[k] == y[k]
  {
    RunKeepsInv(n, steps, states, i);
    RunKeepsInv(n, steps, states, j);
    CommittedAgree(n, steps, states, i, j, a, b, k);
    assert NodeInv(states[i], a) && NodeInv(states[j], b);
  }

  /** Delivery is in order, without gap or repetition, never ahead of the commit index, and never retracted. */
  lemma DeliveryIsInOrder(n: nat, steps: seq<Step>, states: seq<Cluster>, i: nat, j: nat, a: int, k: int)
    requires Execution(n, steps, states) && i <= j < |states| && 0 <= a < n
    ensures |states[i].nodes| == |states[i].hist.delivered| == |states[j].hist.delivered| == n
    ensures var s, out := states[i].nodes[a], states[i].hist.delivered[a];
            && |out| == s.lastApplied <= s.commitIndex
            && (0 <= k < |out| ==> out[k].index == k + 1)
            && out <= states[j].hist.delivered[a]
  {
    RunIsLater(n, steps, states, i, j);
    var c := states[i];
    assert NodeInv(c, a);
    if 0 <= k < |c.hist.delivered[a]| {
      GoodLogShape(n, c.hist.elections, c.nodes[a].log, k);
    }
    assert c.hist.delivered[a] <= states[j].hist.delivered[a];
  }

  /**
   commitIndex <= lastApplied at some moment of a run if and only if the node has
   delivered everything it has committed, as it has in the initial state.
   */
  lemma NothingPendingExactly(n: nat, steps: seq<Step>, states: seq<Cluster>, i: nat, v: int)
    requires Execution(n, steps, states) && i < |states| && 0 <= v < n
    ensures |states[i].nodes| == |states[i].hist.delivered| == n
    ensures var s, out := states[i].nodes[v], states[i].hist.delivered[v];
            && 0 <= s.commitIndex <= |s.log|
            && (s.commitIndex <= s.lastApplied <==>
                  out == seq(s.commitIndex, k requires 0 <= k < s.commitIndex <= |s.log| => MsgOf(s.log[k])))
    ensures i == 0 ==> states[i].nodes[v].commitIndex <= states[i].nodes[v].lastApplied
  {
    RunKeepsInv(n, steps, states, i);
    assert NodeInv(states[i], v);
  }

  // ---- Replication bookkeeping ----

  /** p has seen term t, and as long as it is in t its log begins with the given entries. */
  ghost predicate Holds(c: Cluster, p: int, t: int, entries: seq<LogEntry>)
    requires InRange(c, p)
  {
    t <= c.nodes[p].currentTerm && (c.nodes[p].currentTerm == t ==> entries <= c.nodes[p].log)
  }

  lemma AckedIsHeld(c: Cluster, p: int, t: int, k: int)
    requires Inv(c) && InRange(c, p) && (p, t) in c.hist.acks && 0 <= k <= c.hist.acks[(p, t)]
    ensures t in c.hist.elections && k <= |c.hist.elections[t].log|
    ensures Holds(c, p, t, c.hist.elections[t].log[..k])
  {
    assert NodeInv(c, p);
    if c.nodes[p].currentTerm == t {
      assert c.hist.elections[t].log[..k] <= c.hist.elections[t].log[..c.hist.acks[(p, t)]];
    }
  }

  lemma MatchedIsHeld(c: Cluster, a: int, p: int)
    requires Inv(c) && InRange(c, a) && InRange(c, p) && Leads(c.hist, c.nodes[a]) && c.nodes[a].peers == |c.nodes|
    ensures var s := c.nodes[a];
            && 0 <= s.matchIndex[p] <= |s.log|
            && 1 <= s.nextIndex[p] <= |s.log| + 1
            && (s.matchIndex[p] > 0 ==> Holds(c, p, s.currentTerm, s.log[..s.matchIndex[p]]))
  {
    var s := c.nodes[a];
    if s.matchIndex[p] > 0 {
      AckedIsHeld(c, p, s.currentTerm, s.matchIndex[p]);
    }
  }

  /** matchIndex soundness: the peer holds the leader's first matchIndex entries. nextIndex stays within the log. */
  lemma MatchIndexIsSound(n: nat, steps: seq<Step>, states: seq<Cluster>, i: nat, a: int, p: int)
    requires Execution(n, steps, states) && i < |states| && 0 <= a < n && 0 <= p < n
    ensures |states[i].nodes| == n
    ensures var s := states[i].nodes[a];
            |s.matchIndex| == |s.nextIndex| == n
            && (s.role == Leader ==>
                  && 0 <= s.matchIndex[p] <= |s.log|
                  && 1 <= s.nextIndex[p] <= |s.log| + 1
                  && (s.matchIndex[p] > 0 ==> Holds(states[i], p, s.currentTerm, s.log[..s.matchIndex[p]])))
  {
    RunKeepsInv(n, steps, states, i);
    assert NodeInv(states[i], a);
    if states[i].nodes[a].role == Leader {
      MatchedIsHeld(states[i], a, p);
    }
  }

  /**
   A leader that has committed an entry of its own term has a majority of copies
   of its log up to there, all acknowledged to it in that term.
   */
  lemma CommitHasMajority(n: nat, steps: seq<Step>, states: seq<Cluster>, i: nat, a: int, k: int)
      returns (copies: set<int>)
    requires Execution(n, steps, states) && i < |states| && 0 <= a < |states[i].nodes|
    requires states[i].nodes[a].role == Leader
    requires 1 <= k <= states[i].nodes[a].commitIndex && k <= |states[i].nodes[a].log|
    requires states[i].nodes[a].log[k - 1].term == states[i].nodes[a].currentTerm
    ensures |copies| >= Quorum(n)
    ensures AllHold(states[i], copies, states[i].nodes[a].log[..k])
    ensures forall p {:trigger p in copies} :: p in copies ==>
              (p, states[i].nodes[a].currentTerm) in states[i].hist.acks
              && states[i].hist.acks[(p, states[i].nodes[a].currentTerm)] >= k
  {
    RunKeepsInv(n, steps, states, i);
    var c := states[i];
    var s, T := c.nodes[a], c.nodes[a].currentTerm;
    assert NodeInv(c, a);
    var t, m :| t <= T && CommittedAt(n, c.hist, t, m) && s.commitIndex <= m
                && s.log[..s.commitIndex] == c.hist.elections[t].log[..s.commitIndex];
    assert s.log[k - 1] == s.log[..s.commitIndex][k - 1] == c.hist.elections[t].log[k - 1];
    assert ElectionOk(n, c.hist.elections, t);
    assert t == T;
    copies := AckSet(n, c.hist, T, m);
    forall p | p in copies
      ensures InRange(c, p) && s.log[..k] <= c.nodes[p].log
    {
      AckedCommittedIsHeld(c, T, m, p);
      assert s.log[..k] <= c.hist.elections[T].log[..m];
    }
  }

  // ---- Messages ----

  lemma ArgsAreWellFormed(N: nat, h: History, src: int, a: AppendArgs)
    requires ElectionsOk(N, h.elections) && AppendArgsOk(N, h, src, a)
    ensures WellFormed(a)
  {
    assert ElectionOk(N, h.elections, a.term);
    forall i | 0 <= i < |a.entries|
      ensures a.entries[i].index == a.prevLogIndex + i + 1
    {
      assert a.entries[i] == h.elections[a.term].log[a.prevLogIndex + i];
    }
  }

  /**
   Every request ever sent is well formed, so `Log.Append` never panics in the
   handler, and ends at or past the commit index it carries.
   */
  lemma RequestsAreWellFormed(n: nat, steps: seq<Step>, states: seq<Cluster>, i: nat, m: Message)
    requires Execution(n, steps, states) && i < |states| && m in states[i].net && m.AppendRequest?
    ensures WellFormed(m.args)
    ensures m.args.leaderCommit <= m.args.prevLogIndex + |m.args.entries|
  {
    RunKeepsInv(n, steps, states, i);
    assert MessageOk(states[i], m);
    ArgsAreWellFormed(n, states[i].hist, m.src, m.args);
  }

  /** The request a leader builds always ends at its last index. */
  lemma RequestsReachTheEnd(n: nat, steps: seq<Step>, states: seq<Cluster>, i: nat, v: int, peer: int)
    requires Execution(n, steps, states) && i < |states| && 0 <= v < n && 0 <= peer < n
    ensures |states[i].nodes| == n && ValidPeer(states[i].nodes[v], peer)
    ensures var s := states[i].nodes[v];
            s.role == Leader ==>
              AppendRequestFor(s, peer).prevLogIndex + |AppendRequestFor(s, peer).entries| == |s.log|
  {
    RunKeepsInv(n, steps, states, i);
    assert NodeInv(states[i], v);
    if states[i].nodes[v].role == Leader {
      RequestIsOk(states[i].hist, states[i].nodes[v], peer);
    }
  }

  /**
   The follower clamps its commit index to its own last index where Figure 2 of
   the Raft paper clamps to the index of the last new entry. In every run the
   two rules give the same commit index.
   */
  lemma ClampAgreesWithFigure2(n: nat, steps: seq<Step>, states: seq<Cluster>, i: nat, m: Message)
    requires Execution(n, steps, states) && i < |states|
    requires m in states[i].net && m.AppendRequest? && InRange(states[i], m.dst)
    ensures m.args.prevLogIndex >= 0
    ensures var s := states[i].nodes[m.dst];
            var (s', reply) := OnAppendEntries(s, m.args);
            reply.success ==>
              s'.commitIndex ==
                if m.args.leaderCommit > s.commitIndex
                then Min(m.args.leaderCommit, m.args.prevLogIndex + |m.args.entries|)
                else s.commitIndex
  {
    RunKeepsInv(n, steps, states, i);
    var c := states[i];
    var s, a := c.nodes[m.dst], m.args;
    assert MessageOk(c, m) && NodeInv(c, m.dst);
    if a.term >= s.currentTerm && Consistent(s.log, a) {
      var t := if a.term > s.currentTerm then BecomeFollower(s, a.term) else s;
      HandlerAccepts(n, c.hist, t, a, m.src);
    }
  }
}
