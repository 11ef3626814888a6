/**
 One Raft node as a value: the fields of the struct in raft/raft.go and one
 function per critical section of that file. RaftServer.dfy proves that the
 imperative code computes exactly these functions; RaftCluster.dfy composes
 them into a protocol.

 Node ids are 0..peers-1, because the original indexes nextIndex and matchIndex
 by id. Integers are unbounded where the original uses int64.
 */
module RaftNode {
  import opened RaftLog

  datatype Role = Follower | Candidate | Leader

  datatype VoteArgs = VoteArgs(term: int, candidateId: int, lastLogIndex: int, lastLogTerm: int)

  datatype VoteReply = VoteReply(term: int, granted: bool)

  datatype AppendArgs = AppendArgs(
    term: int, leaderId: int, prevLogIndex: int, prevLogTerm: int,
    entries: seq<LogEntry>, leaderCommit: int)

  datatype AppendReply = AppendReply(term: int, success: bool)

  datatype ApplyMsg = ApplyMsg(index: int, term: int, command: string)

  /**
   `granted` holds the peers whose granted reply has been counted in the current
   election: the original's shared counter `votes` is 1 + |granted|, as each
   goroutine of an election handles at most one reply.
   */
  datatype Node = Node(
    id: int, peers: nat,
    currentTerm: int, votedFor: int, role: Role, log: seq<LogEntry>,
    commitIndex: int, lastApplied: int,
    nextIndex: seq<int>, matchIndex: seq<int>,
    granted: set<int>, dead: bool)

  const NOBODY := -1
  const NOOP := "noop"

  /** The smallest majority. */
  function Quorum(peers: nat): (q: nat)
    ensures 2 * q > peers && 2 * (q - 1) <= peers
  {
    peers / 2 + 1
  }

  function InitNode(id: int, peers: nat): Node {
    Node(id, peers, 0, NOBODY, Follower, [], 0, 0,
         seq(peers, _ => 0), seq(peers, _ => 0), {}, false)
  }

  function BecomeFollower(s: Node, term: int): Node {
    s.(currentTerm := term, role := Follower, votedFor := NOBODY)
  }

  // ---- Elections ----

  predicate MayStartElection(s: Node) {
    s.role != Leader && !s.dead
  }

  /** The election timer fires. */
  function StartElection(s: Node): Node {
    if MayStartElection(s) then
      s.(currentTerm := s.currentTerm + 1, role := Candidate, votedFor := s.id, granted := {})
    else
      s
  }

  function VoteRequestOf(s: Node): VoteArgs {
    VoteArgs(s.currentTerm, s.id, |s.log|, TermOfLast(s.log))
  }

  /** The election restriction: the candidate's log is at least as up to date as `log`. */
  predicate UpToDate(args: VoteArgs, log: seq<LogEntry>) {
    || args.lastLogTerm > TermOfLast(log)
    || (args.lastLogTerm == TermOfLast(log) && args.lastLogIndex >= |log|)
  }

  function OnRequestVote(s: Node, args: VoteArgs): (Node, VoteReply) {
    if args.term < s.currentTerm then
      (s, VoteReply(s.currentTerm, false))
    else
      var t := if args.term > s.currentTerm then BecomeFollower(s, args.term) else s;
      if (t.votedFor != NOBODY && t.votedFor != args.candidateId) || !UpToDate(args, t.log) then
        (t, VoteReply(t.currentTerm, false))
      else
        (t.(votedFor := args.candidateId), VoteReply(t.currentTerm, true))
  }

  function BecomeLeader(s: Node): Node {
    s.(role := Leader,
       nextIndex := seq(|s.nextIndex|, _ => |s.log| + 1),
       matchIndex := seq(|s.matchIndex|, _ => 0),
       log := s.log + [LogEntry(|s.log| + 1, s.currentTerm, NOOP)])
  }

  /** A reply to the vote request that `s` sent to `peer` in `term`. */
  function OnVoteReply(s: Node, peer: int, term: int, reply: VoteReply): Node {
    if reply.term > s.currentTerm then
      BecomeFollower(s, reply.term)
    else if s.role != Candidate || s.currentTerm != term || !reply.granted then
      s
    else
      var t := s.(granted := s.granted + {peer});
      if 1 + |t.granted| >= Quorum(s.peers) then BecomeLeader(t) else t
  }

  // ---- Replication ----

  function Start(s: Node, command: string): Node {
    if s.role == Leader then
      s.(log := s.log + [LogEntry(|s.log| + 1, s.currentTerm, command)])
    else
      s
  }

  predicate ValidPeer(s: Node, peer: int) {
    0 <= peer < |s.nextIndex| && |s.nextIndex| == |s.matchIndex|
  }

  /** The AppendEntries request built for `peer`: the whole suffix from nextIndex on. */
  function AppendRequestFor(s: Node, peer: int): AppendArgs
    requires ValidPeer(s, peer)
  {
    var prev := s.nextIndex[peer] - 1;
    AppendArgs(s.currentTerm, s.id, prev, if 0 < prev <= |s.log| then s.log[prev - 1].term else 0,
               if prev < 0 then s.log else if prev <= |s.log| then s.log[prev..] else [],
               s.commitIndex)
  }

  /** The entries of a request are numbered from prevLogIndex + 1 on. */
  ghost predicate WellFormed(args: AppendArgs) {
    && args.prevLogIndex >= 0
    && forall i :: 0 <= i < |args.entries| ==> args.entries[i].index == args.prevLogIndex + i + 1
  }

  /** Skip entries whose term agrees; at the first disagreement or at the end of the log, replace the rest. */
  function Merge(log: seq<LogEntry>, prev: int, entries: seq<LogEntry>): seq<LogEntry>
    requires 0 <= prev <= |log|
    decreases |entries|
  {
    if entries == [] then log
    else if prev < |log| && log[prev].term == entries[0].term then Merge(log, prev + 1, entries[1..])
    else log[..prev] + entries
  }

  /** What `Log.Append` demands of a merge: the entries from the first disagreement on carry their positions. */
  ghost predicate Appendable(log: seq<LogEntry>, prev: int, entries: seq<LogEntry>)
    requires 0 <= prev <= |log|
    decreases |entries|
  {
    if entries == [] then true
    else if prev < |log| && log[prev].term == entries[0].term then Appendable(log, prev + 1, entries[1..])
    else forall i :: 0 <= i < |entries| ==> entries[i].index == prev + i + 1
  }

  /** The follower's log agrees with the sender at prevLogIndex. */
  predicate Consistent(log: seq<LogEntry>, args: AppendArgs) {
    args.prevLogIndex > 0 ==>
      args.prevLogIndex <= |log| && log[args.prevLogIndex - 1].term == args.prevLogTerm
  }

  function Min(a: int, b: int): int {
    if a <= b then a else b
  }

  /** The request is not stale and agrees with the log, so it gets as far as the merge. */
  predicate Accepts(s: Node, args: AppendArgs) {
    args.term >= s.currentTerm && Consistent(s.log, args)
  }

  function OnAppendEntries(s: Node, args: AppendArgs): (Node, AppendReply)
    requires Accepts(s, args) ==> args.prevLogIndex >= 0
  {
    if args.term < s.currentTerm then
      (s, AppendReply(s.currentTerm, false))
    else
      var t := if args.term > s.currentTerm then BecomeFollower(s, args.term) else s;
      if !Consistent(t.log, args) then
        (t, AppendReply(t.currentTerm, false))
      else
        var log := Merge(t.log, args.prevLogIndex, args.entries);
        var commit := if args.leaderCommit > t.commitIndex then Min(args.leaderCommit, |log|) else t.commitIndex;
        (t.(log := log, commitIndex := commit), AppendReply(t.currentTerm, true))
  }

  /** The nodes a leader knows to hold its log up to index n: itself and the peers with a high enough matchIndex. */
  function Replicas(s: Node, n: int): set<int>
    requires |s.matchIndex| == s.peers
  {
    set p | 0 <= p < s.peers && (p == s.id || s.matchIndex[p] >= n)
  }

  /** Index n may be committed: it is of the current term and a majority holds it. */
  predicate Committable(s: Node, n: int)
    requires |s.matchIndex| == s.peers
  {
    && 1 <= n <= |s.log|
    && s.log[n - 1].term == s.currentTerm
    && |Replicas(s, n)| >= Quorum(s.peers)
  }

  /** The highest committable index in (commitIndex, n], or commitIndex if there is none. */
  function CommitFrom(s: Node, n: int): (r: int)
    requires |s.matchIndex| == s.peers
    requires 0 <= s.commitIndex && n <= |s.log|
    ensures r == s.commitIndex || (s.commitIndex < r <= n && Committable(s, r))
    ensures forall k :: r < k <= n ==> !Committable(s, k)
    decreases n - s.commitIndex
  {
    if n <= s.commitIndex then s.commitIndex
    else if Committable(s, n) then n
    else CommitFrom(s, n - 1)
  }

  predicate LeaderIndicesOk(s: Node) {
    |s.nextIndex| == |s.matchIndex| == s.peers && 0 <= s.commitIndex
  }

  function AdvanceCommit(s: Node): Node
    requires LeaderIndicesOk(s)
  {
    s.(commitIndex := CommitFrom(s, |s.log|))
  }

  /** The leader learns that `peer` holds its log up to index m; stale news is ignored. */
  function RecordMatch(s: Node, peer: int, m: int): Node
    requires LeaderIndicesOk(s) && 0 <= peer < s.peers
  {
    if m > s.matchIndex[peer]
    then s.(matchIndex := s.matchIndex[peer := m], nextIndex := s.nextIndex[peer := m + 1])
    else s
  }

  /** A reply to the request `sent` that `s` sent to `peer`. */
  function OnAppendReply(s: Node, peer: int, sent: AppendArgs, reply: AppendReply): Node
    requires LeaderIndicesOk(s) && 0 <= peer < s.peers
  {
    if reply.term > s.currentTerm then
      BecomeFollower(s, reply.term)
    else if s.role != Leader || s.currentTerm != sent.term then
      s
    else if reply.success then
      AdvanceCommit(RecordMatch(s, peer, sent.prevLogIndex + |sent.entries|))
    else if s.nextIndex[peer] > 1 then
      s.(nextIndex := s.nextIndex[peer := s.nextIndex[peer] - 1])
    else
      s
  }

  // ---- Apply ----

  /** The draining loop does not look at `dead`, so a killed node may still deliver what it has committed. */
  predicate MayApply(s: Node) {
    s.lastApplied < s.commitIndex
  }

  function ApplyNext(s: Node): Node {
    if MayApply(s) then s.(lastApplied := s.lastApplied + 1) else s
  }

  function MsgOf(e: LogEntry): ApplyMsg {
    ApplyMsg(e.index, e.term, e.command)
  }
}
