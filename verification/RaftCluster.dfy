/**
 The protocol: any number of nodes exchanging the messages of raft/raft.go.

 The network is the set of all messages ever sent. A step may deliver any of
 them, any number of times and in any order, so loss, duplication, delay and
 reordering are all covered; a crashed node is one that takes no further step.
 A reply carries the request it answers, as an RPC does.

 `History` records what happened. No node reads it: it exists to state and
 prove properties of whole runs. The remaining guards below are array bounds
 that the invariant of RaftInvariant.dfy shows to hold always.
 */
module RaftCluster {
  import opened RaftLog
  import opened RaftNode

  datatype Message =
    | VoteRequest(src: int, dst: int, vote: VoteArgs)
    | VoteAnswer(src: int, dst: int, term: int, voteReply: VoteReply)
    | AppendRequest(src: int, dst: int, args: AppendArgs)
    | AppendAnswer(src: int, dst: int, sent: AppendArgs, reply: AppendReply)

  /**
   A won election: who won with whose votes, the winner's log at that moment
   (`base`) and the log it has built as leader of that term so far (`log`).
   */
  datatype Election = Election(leader: int, voters: set<int>, base: seq<LogEntry>, log: seq<LogEntry>)

  type Elections = map<int, Election>

  /**
   votes[(v, t)] is the candidate that v voted for in term t; acks[(v, t)] is the
   longest prefix of term t's leader log that v has stored while in term t;
   delivered[v] is everything v has sent on its commit channel.
   */
  datatype History = History(
    elections: Elections,
    votes: map<(int, int), int>,
    acks: map<(int, int), int>,
    delivered: seq<seq<ApplyMsg>>)

  datatype Cluster = Cluster(nodes: seq<Node>, net: set<Message>, hist: History)

  datatype Step =
    | Timeout(v: int)
    | DeliverVoteRequest(m: Message)
    | DeliverVoteAnswer(m: Message)
    | Propose(v: int, command: string)
    | SendAppend(v: int, peer: int)
    | DeliverAppendRequest(m: Message)
    | DeliverAppendAnswer(m: Message)
    | Apply(v: int)
    | Kill(v: int)

  function Init(n: nat): Cluster {
    Cluster(seq(n, i => InitNode(i, n)), {}, History(map[], map[], map[], seq(n, _ => [])))
  }

  predicate InRange(c: Cluster, v: int) {
    0 <= v < |c.nodes|
  }

  /** Node v moves to s, the messages ms are sent and the history becomes h. */
  function Update(c: Cluster, v: int, s: Node, ms: set<Message>, h: History): Cluster
    requires InRange(c, v)
  {
    Cluster(c.nodes[v := s], c.net + ms, h)
  }

  function DoTimeout(c: Cluster, v: int): Cluster
    requires InRange(c, v)
  {
    var s := c.nodes[v];
    if !MayStartElection(s) then c else
      var s' := StartElection(s);
      var ms := set p | 0 <= p < |c.nodes| && p != v :: VoteRequest(v, p, VoteRequestOf(s'));
      Update(c, v, s', ms, c.hist.(votes := c.hist.votes[(v, s'.currentTerm) := v]))
  }

  function DoVoteRequest(c: Cluster, m: Message): Cluster
    requires m.VoteRequest? && InRange(c, m.dst)
  {
    var (s', reply) := OnRequestVote(c.nodes[m.dst], m.vote);
    var votes := if reply.granted
      then c.hist.votes[(m.dst, s'.currentTerm) := m.vote.candidateId]
      else c.hist.votes;
    Update(c, m.dst, s', {VoteAnswer(m.dst, m.src, m.vote.term, reply)}, c.hist.(votes := votes))
  }

  function DoVoteAnswer(c: Cluster, m: Message): Cluster
    requires m.VoteAnswer? && InRange(c, m.dst)
  {
    var v := m.dst;
    var s := c.nodes[v];
    var s' := OnVoteReply(s, m.src, m.term, m.voteReply);
    if s.role != Leader && s'.role == Leader then
      var e := Election(v, {v} + s'.granted, s.log, s'.log);
      Update(c, v, s', {}, c.hist.(
        elections := c.hist.elections[s'.currentTerm := e],
        acks := c.hist.acks[(v, s'.currentTerm) := |s'.log|]))
    else
      Update(c, v, s', {}, c.hist)
  }

  function DoPropose(c: Cluster, v: int, command: string): Cluster
    requires InRange(c, v)
  {
    var s := c.nodes[v];
    var t := s.currentTerm;
    var s' := Start(s, command);
    Update(c, v, s', {},
      if s.role == Leader && t in c.hist.elections then
        c.hist.(
          elections := c.hist.elections[t := c.hist.elections[t].(log := s'.log)],
          acks := c.hist.acks[(v, t) := |s'.log|])
      else
        c.hist)
  }

  function DoSendAppend(c: Cluster, v: int, peer: int): Cluster
    requires InRange(c, v)
  {
    var s := c.nodes[v];
    if s.role == Leader && peer != v && ValidPeer(s, peer) then
      Update(c, v, s, {AppendRequest(v, peer, AppendRequestFor(s, peer))}, c.hist)
    else
      c
  }

  function DoAppendRequest(c: Cluster, m: Message): Cluster
    requires m.AppendRequest? && InRange(c, m.dst) && m.args.prevLogIndex >= 0
  {
    var key := (m.dst, m.args.term);
    var (s', reply) := OnAppendEntries(c.nodes[m.dst], m.args);
    var stored := m.args.prevLogIndex + |m.args.entries|;
    var acks := if reply.success && (key in c.hist.acks ==> c.hist.acks[key] < stored)
      then c.hist.acks[key := stored]
      else c.hist.acks;
    Update(c, m.dst, s', {AppendAnswer(m.dst, m.src, m.args, reply)}, c.hist.(acks := acks))
  }

  function DoAppendAnswer(c: Cluster, m: Message): Cluster
    requires m.AppendAnswer? && InRange(c, m.dst)
  {
    var s := c.nodes[m.dst];
    if LeaderIndicesOk(s) && 0 <= m.src < s.peers
    then Update(c, m.dst, OnAppendReply(s, m.src, m.sent, m.reply), {}, c.hist)
    else c
  }

  function DoApply(c: Cluster, v: int): Cluster
    requires InRange(c, v)
  {
    var s := c.nodes[v];
    if MayApply(s) && 0 <= s.lastApplied < |s.log| && v < |c.hist.delivered| then
      var out := c.hist.delivered[v] + [MsgOf(s.log[s.lastApplied])];
      Update(c, v, ApplyNext(s), {}, c.hist.(delivered := c.hist.delivered[v := out]))
    else
      Update(c, v, ApplyNext(s), {}, c.hist)
  }

  /** One step; a step that is not enabled leaves the cluster as it is. */
  function Do(c: Cluster, step: Step): Cluster {
    match step
    case Timeout(v) => if InRange(c, v) then DoTimeout(c, v) else c
    case DeliverVoteRequest(m) =>
      if m in c.net && m.VoteRequest? && InRange(c, m.dst) then DoVoteRequest(c, m) else c
    case DeliverVoteAnswer(m) =>
      if m in c.net && m.VoteAnswer? && InRange(c, m.dst) then DoVoteAnswer(c, m) else c
    case Propose(v, command) => if InRange(c, v) then DoPropose(c, v, command) else c
    case SendAppend(v, peer) => if InRange(c, v) then DoSendAppend(c, v, peer) else c
    case DeliverAppendRequest(m) =>
      if m in c.net && m.AppendRequest? && InRange(c, m.dst) && m.args.prevLogIndex >= 0
      then DoAppendRequest(c, m) else c
    case DeliverAppendAnswer(m) =>
      if m in c.net && m.AppendAnswer? && InRange(c, m.dst) then DoAppendAnswer(c, m) else c
    case Apply(v) => if InRange(c, v) then DoApply(c, v) else c
    case Kill(v) =>
      if InRange(c, v) then Update(c, v, c.nodes[v].(dead := true), {}, c.hist) else c
  }

  /** states[i] is the cluster of n nodes after the first i steps. */
  ghost predicate Execution(n: nat, steps: seq<Step>, states: seq<Cluster>) {
    && |states| == |steps| + 1
    && states[0] == Init(n)
    && forall i {:trigger steps[i]} :: 0 <= i < |steps| ==> states[i + 1] == Do(states[i], steps[i])
  }
}
