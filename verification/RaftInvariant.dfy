/**
 The inductive invariant of the protocol, and what it says about committed
 entries before any step is considered.

 Two ideas carry the proof. First, every log is a prefix of the log of the
 leader of its last term (`GoodLog`), which is log matching in a form without
 quantifiers over pairs of nodes. Second, a prefix that a node has acknowledged
 in term t is either still in its log or some leader of a later term was elected
 without it (`Kept`). The second alternative makes the statement unconditional,
 so every step can preserve it, and leader completeness follows by induction on
 terms once a majority has acknowledged.
 */
module RaftInvariant {
  import opened RaftLog
  import opened RaftNode
  import opened RaftCluster
  import opened Majority

  // ---- Logs ----

  ghost predicate GoodLog(E: Elections, log: seq<LogEntry>) {
    log == [] || (TermOfLast(log) in E && log <= E[TermOfLast(log)].log)
  }

  /** Entries up to `base` are of earlier terms, the rest are of the leader's own term t. */
  ghost predicate TermShape(e: Election, t: int) {
    forall i {:trigger e.log[i]} :: 0 <= i < |e.log| ==>
      && e.log[i].index == i + 1
      && (if i < |e.base| then 0 < e.log[i].term < t else e.log[i].term == t)
  }

  ghost predicate ElectionOk(n: nat, E: Elections, t: int)
    requires t in E
  {
    var e := E[t];
    && t >= 1
    && e.leader in e.voters
    && (forall v :: v in e.voters ==> 0 <= v < n)
    && |e.voters| >= Quorum(n)
    && e.base <= e.log && |e.base| < |e.log|
    && TermShape(e, t)
    && GoodLog(E, e.base)
  }

  ghost predicate ElectionsOk(n: nat, E: Elections) {
    forall t {:trigger ElectionOk(n, E, t)} :: t in E ==> ElectionOk(n, E, t)
  }

  /** A prefix of a good log is a good log: it may end in the base of the last leader, so recurse into that. */
  lemma {:induction false} PrefixIsGood(n: nat, E: Elections, log: seq<LogEntry>, k: int)
    requires ElectionsOk(n, E) && GoodLog(E, log) && 0 <= k <= |log|
    ensures GoodLog(E, log[..k])
    decreases if log == [] then 0 else TermOfLast(log)
  {
    if 0 < k {
      var t := TermOfLast(log);
      assert ElectionOk(n, E, t);
      if k <= |E[t].base| {
        assert log[..k] == E[t].base[..k];
        assert E[t].base != [] ==> TermOfLast(E[t].base) == E[t].log[|E[t].base| - 1].term;
        PrefixIsGood(n, E, E[t].base, k);
      } else {
        assert log[k - 1] == E[t].log[k - 1];
        assert log[..k] <= E[t].log;
      }
    }
  }

  /** Log matching: equal terms at an index force equal logs up to it. */
  lemma GoodLogsMatch(n: nat, E: Elections, a: seq<LogEntry>, b: seq<LogEntry>, i: int)
    requires ElectionsOk(n, E) && GoodLog(E, a) && GoodLog(E, b)
    requires 0 <= i < |a| && i < |b| && a[i].term == b[i].term
    ensures a[..i + 1] == b[..i + 1]
  {
    PrefixIsGood(n, E, a, i + 1);
    PrefixIsGood(n, E, b, i + 1);
    assert TermOfLast(a[..i + 1]) == a[i].term == TermOfLast(b[..i + 1]);
  }

  /** In a good log indices are positions and terms are positive and at most the last term. */
  lemma GoodLogShape(n: nat, E: Elections, log: seq<LogEntry>, i: int)
    requires ElectionsOk(n, E) && GoodLog(E, log) && 0 <= i < |log|
    ensures log[i].index == i + 1 && 1 <= log[i].term <= TermOfLast(log)
    ensures log[i].term in E
  {
    assert ElectionOk(n, E, TermOfLast(log));
    assert log[i] == E[TermOfLast(log)].log[i];
    PrefixIsGood(n, E, log, i + 1);
    assert TermOfLast(log[..i + 1]) == log[i].term;
  }

  lemma GoodLogIsOrdered(n: nat, E: Elections, log: seq<LogEntry>, k: int, l: int)
    requires ElectionsOk(n, E) && GoodLog(E, log) && 0 <= k <= l < |log|
    ensures log[k].index == k + 1 && 1 <= log[k].term <= log[l].term <= TermOfLast(log)
  {
    PrefixIsGood(n, E, log, l + 1);
    GoodLogShape(n, E, log[..l + 1], k);
    GoodLogShape(n, E, log, l);
  }

  /** The log a leader of term t has built is itself good. */
  lemma LeaderLogIsGood(n: nat, E: Elections, t: int, k: int)
    requires ElectionsOk(n, E) && t in E && 0 <= k <= |E[t].log|
    ensures GoodLog(E, E[t].log[..k])
  {
    assert ElectionOk(n, E, t);
    assert E[t].log[|E[t].log| - 1].term == t;
    PrefixIsGood(n, E, E[t].log, k);
  }

  // ---- Acknowledged prefixes ----

  /** n is the index of an entry that the leader of term t created itself. */
  ghost predicate OwnEntry(E: Elections, t: int, n: int) {
    t in E && 1 <= n <= |E[t].log| && E[t].log[n - 1].term == t
  }

  /** Some leader elected after term t and before `bound` started without term t's first n entries. */
  ghost predicate Overridden(E: Elections, t: int, n: int, bound: int)
    requires OwnEntry(E, t, n)
  {
    exists u {:trigger u in E} :: t < u < bound && u in E && !(E[t].log[..n] <= E[u].base)
  }

  ghost predicate Kept(E: Elections, t: int, n: int, log: seq<LogEntry>, bound: int)
    requires OwnEntry(E, t, n)
  {
    E[t].log[..n] <= log || Overridden(E, t, n, bound)
  }

  ghost predicate Acked(h: History, v: int, t: int, n: int) {
    (v, t) in h.acks && n <= h.acks[(v, t)] && OwnEntry(h.elections, t, n)
  }

  /** Whatever v acknowledged in terms before `bound` is kept by `log`. */
  ghost predicate AcksKept(h: History, v: int, log: seq<LogEntry>, bound: int) {
    forall t, n {:trigger Acked(h, v, t, n)} ::
      t < bound && Acked(h, v, t, n) ==> Kept(h.elections, t, n, log, bound)
  }

  ghost predicate AcksOk(h: History, s: Node) {
    && (forall t {:trigger (s.id, t) in h.acks} :: (s.id, t) in h.acks ==>
          && t in h.elections
          && 0 <= h.acks[(s.id, t)] <= |h.elections[t].log|
          && t <= s.currentTerm)
    && ((s.id, s.currentTerm) in h.acks ==>
          h.elections[s.currentTerm].log[..h.acks[(s.id, s.currentTerm)]] <= s.log)
    && AcksKept(h, s.id, s.log, s.currentTerm + 1)
  }

  // ---- Committed prefixes ----

  /** The nodes that have acknowledged the first n entries of term t's leader. */
  ghost function AckSet(N: nat, h: History, t: int, n: int): set<int> {
    set v | 0 <= v < N && (v, t) in h.acks && h.acks[(v, t)] >= n
  }

  /** The leader of term t has created entry n and a majority has acknowledged it. */
  ghost predicate CommittedAt(N: nat, h: History, t: int, n: int) {
    OwnEntry(h.elections, t, n) && |AckSet(N, h, t, n)| >= Quorum(N)
  }

  /** The first k entries of `log` lie within a prefix committed in a term up to `bound`. */
  ghost predicate CommittedUpTo(N: nat, h: History, log: seq<LogEntry>, k: int, bound: int) {
    k == 0 ||
    (0 < k <= |log| &&
     exists t, n {:trigger CommittedAt(N, h, t, n)} ::
       t <= bound && CommittedAt(N, h, t, n) && k <= n && log[..k] == h.elections[t].log[..k])
  }

  // ---- The invariant ----

  ghost predicate VoteStateOk(h: History, s: Node) {
    && (s.votedFor == NOBODY <==> (s.id, s.currentTerm) !in h.votes)
    && (s.votedFor != NOBODY ==> h.votes[(s.id, s.currentTerm)] == s.votedFor)
    && (s.role != Follower ==> s.votedFor == s.id && s.currentTerm >= 1)
    && (s.role == Candidate ==>
          forall p {:trigger p in s.granted} :: p in s.granted ==>
            0 <= p < s.peers && p != s.id
            && (p, s.currentTerm) in h.votes && h.votes[(p, s.currentTerm)] == s.id)
  }

  ghost predicate LeaderStateOk(h: History, s: Node)
    requires |s.nextIndex| == |s.matchIndex| == s.peers
  {
    var t := s.currentTerm;
    && (s.role == Leader <==> t in h.elections && h.elections[t].leader == s.id)
    && (s.role == Leader ==> h.elections[t].log == s.log)
    && (s.role == Leader ==>
          forall p {:trigger s.matchIndex[p]} {:trigger s.nextIndex[p]} :: 0 <= p < s.peers ==>
            && 1 <= s.nextIndex[p] <= |s.log| + 1
            && 0 <= s.matchIndex[p]
            && (s.matchIndex[p] > 0 ==> (p, t) in h.acks && s.matchIndex[p] <= h.acks[(p, t)]))
    && (s.role == Leader ==> (s.id, t) in h.acks && h.acks[(s.id, t)] == |s.log|)
  }

  ghost predicate LogStateOk(h: History, s: Node) {
    && GoodLog(h.elections, s.log)
    && TermOfLast(s.log) <= s.currentTerm
    && 0 <= s.lastApplied <= s.commitIndex <= |s.log|
    && CommittedUpTo(s.peers, h, s.log, s.commitIndex, s.currentTerm)
  }

  ghost predicate NodeOk(h: History, s: Node) {
    && 0 <= s.id < s.peers
    && |s.nextIndex| == |s.matchIndex| == s.peers
    && s.currentTerm >= 0
    && VoteStateOk(h, s)
    && LeaderStateOk(h, s)
    && LogStateOk(h, s)
    && AcksOk(h, s)
  }

  ghost predicate DeliveredOk(h: History, v: int, s: Node) {
    && 0 <= v < |h.delivered|
    && 0 <= s.lastApplied <= |s.log|
    && |h.delivered[v]| == s.lastApplied
    && forall i {:trigger h.delivered[v][i]} :: 0 <= i < s.lastApplied ==> h.delivered[v][i] == MsgOf(s.log[i])
  }

  ghost predicate NodeInv(c: Cluster, v: int)
    requires InRange(c, v)
  {
    && c.nodes[v].id == v && c.nodes[v].peers == |c.nodes|
    && NodeOk(c.hist, c.nodes[v]) && DeliveredOk(c.hist, v, c.nodes[v])
  }

  ghost predicate NodesOk(c: Cluster) {
    && |c.hist.delivered| == |c.nodes|
    && forall v {:trigger NodeInv(c, v)} :: 0 <= v < |c.nodes| ==> NodeInv(c, v)
  }

  /** A vote binds voter and candidate to its term, and the candidate's log keeps what the voter acknowledged. */
  ghost predicate VoteOk(c: Cluster, p: int, t: int)
    requires (p, t) in c.hist.votes
  {
    var q := c.hist.votes[(p, t)];
    && InRange(c, p) && InRange(c, q)
    && t <= c.nodes[p].currentTerm && t <= c.nodes[q].currentTerm
    && (t !in c.hist.elections && c.nodes[q].currentTerm == t ==>
          AcksKept(c.hist, p, c.nodes[q].log, t))
  }

  ghost predicate VotesOk(c: Cluster) {
    forall p, t {:trigger VoteOk(c, p, t)} :: (p, t) in c.hist.votes ==> VoteOk(c, p, t)
  }

  /** v gave its vote in the election that t's leader won, and the winner's log keeps what v acknowledged before. */
  ghost predicate VoterOk(c: Cluster, t: int, v: int)
    requires t in c.hist.elections
  {
    && InRange(c, v)
    && t <= c.nodes[v].currentTerm
    && (v, t) in c.hist.votes && c.hist.votes[(v, t)] == c.hist.elections[t].leader
    && AcksKept(c.hist, v, c.hist.elections[t].base, t)
  }

  ghost predicate VotersOk(c: Cluster) {
    forall t, v {:trigger VoterOk(c, t, v)} ::
      t in c.hist.elections && v in c.hist.elections[t].voters ==> VoterOk(c, t, v)
  }

  /** The request ships the leader's whole log from prevLogIndex on. */
  ghost predicate AppendArgsOk(N: nat, h: History, src: int, args: AppendArgs) {
    && args.term in h.elections
    && var e := h.elections[args.term];
    && var last := args.prevLogIndex + |args.entries|;
    && e.leader == src
    && 0 <= args.prevLogIndex
    && |e.base| < last <= |e.log|
    && args.entries == e.log[args.prevLogIndex..last]
    && args.prevLogTerm == (if args.prevLogIndex > 0 then e.log[args.prevLogIndex - 1].term else 0)
    && 0 <= args.leaderCommit <= last
    && CommittedUpTo(N, h, e.log, args.leaderCommit, args.term)
  }

  ghost predicate MessageOk(c: Cluster, m: Message) {
    && InRange(c, m.src) && InRange(c, m.dst) && m.src != m.dst
    && match m {
      case VoteRequest(src, dst, a) =>
        && a.candidateId == src
        && a.term <= c.nodes[src].currentTerm
        && (a.term == c.nodes[src].currentTerm && a.term !in c.hist.elections ==>
              a.lastLogIndex == |c.nodes[src].log| && a.lastLogTerm == TermOfLast(c.nodes[src].log))
      case VoteAnswer(src, dst, t, reply) =>
        reply.granted ==> (src, t) in c.hist.votes && c.hist.votes[(src, t)] == dst
      case AppendRequest(src, dst, a) =>
        AppendArgsOk(|c.nodes|, c.hist, src, a)
      case AppendAnswer(src, dst, a, reply) =>
        reply.success ==>
          (src, a.term) in c.hist.acks && a.prevLogIndex + |a.entries| <= c.hist.acks[(src, a.term)]
    }
  }

  ghost predicate MessagesOk(c: Cluster) {
    forall m {:trigger MessageOk(c, m)} :: m in c.net ==> MessageOk(c, m)
  }

  ghost predicate Inv(c: Cluster) {
    && ElectionsOk(|c.nodes|, c.hist.elections)
    && NodesOk(c)
    && VotesOk(c)
    && VotersOk(c)
    && MessagesOk(c)
  }

  lemma InitInv(n: nat)
    ensures Inv(Init(n))
  {
  }

  // ---- Consequences ----

  /**
   Leader completeness: what is committed in term t is in the log of every
   leader of a later term, from the moment of its election on.
   */
  lemma {:induction false} CommittedIsInLaterLeaders(c: Cluster, t: int, n: int, u: int)
    requires ElectionsOk(|c.nodes|, c.hist.elections) && VotersOk(c)
    requires CommittedAt(|c.nodes|, c.hist, t, n)
    requires u in c.hist.elections && t < u
    ensures c.hist.elections[t].log[..n] <= c.hist.elections[u].base
    decreases u
  {
    var E := c.hist.elections;
    assert ElectionOk(|c.nodes|, E, u);
    var v := QuorumsMeet(|c.nodes|, AckSet(|c.nodes|, c.hist, t, n), E[u].voters);
    assert VoterOk(c, u, v);
    assert Acked(c.hist, v, t, n);
    if !(E[t].log[..n] <= E[u].base) {
      var w :| t < w < u && w in E && !(E[t].log[..n] <= E[w].base);
      assert t >= 1 by { assert ElectionOk(|c.nodes|, E, t); }
      CommittedIsInLaterLeaders(c, t, n, w);
      assert false;
    }
  }

  /** Of two committed prefixes one extends the other. */
  lemma CommittedPrefixesAgree(c: Cluster, t1: int, n1: int, t2: int, n2: int, i: int)
    requires ElectionsOk(|c.nodes|, c.hist.elections) && VotersOk(c)
    requires CommittedAt(|c.nodes|, c.hist, t1, n1) && CommittedAt(|c.nodes|, c.hist, t2, n2)
    requires 0 <= i < n1 && i < n2
    ensures c.hist.elections[t1].log[i] == c.hist.elections[t2].log[i]
  {
    var E := c.hist.elections;
    if t1 < t2 {
      CommittedIsInLaterLeaders(c, t1, n1, t2);
      assert ElectionOk(|c.nodes|, E, t2);
      assert E[t1].log[..n1][i] == E[t2].base[i];
    } else if t2 < t1 {
      CommittedIsInLaterLeaders(c, t2, n2, t1);
      assert ElectionOk(|c.nodes|, E, t1);
      assert E[t2].log[..n2][i] == E[t1].base[i];
    }
  }
}
