/**
 What each step of a run does, stated over the fields of the nodes and the
 messages and not through the functions that compute the steps. In particular,
 terms spread: whoever handles a message of a later term takes it over, and every
 answer tells the sender of a request the term of its receiver.
 */
module RaftEffects {
  import opened RaftLog
  import opened RaftNode
  import opened RaftCluster
  import opened RaftInvariant
  import opened RaftReplication
  import RaftSafety

  function Max(a: int, b: int): int {
    if a >= b then a else b
  }

  // ---- Terms ----

  /** The term that a message tells its receiver: that of a request, or the one in an answer. */
  function TermIn(m: Message): int {
    match m
    case VoteRequest(_, _, a) => a.term
    case VoteAnswer(_, _, _, reply) => reply.term
    case AppendRequest(_, _, a) => a.term
    case AppendAnswer(_, _, _, reply) => reply.term
  }

  /** The step hands message m to its receiver. */
  predicate Delivers(step: Step, m: Message) {
    match m
    case VoteRequest(_, _, _) => step == DeliverVoteRequest(m)
    case VoteAnswer(_, _, _, _) => step == DeliverVoteAnswer(m)
    case AppendRequest(_, _, _) => step == DeliverAppendRequest(m)
    case AppendAnswer(_, _, _, _) => step == DeliverAppendAnswer(m)
  }

  /** A message that was sent can be delivered: the guards of the step hold. */
  lemma Deliverable(c: Cluster, m: Message)
    requires Inv(c) && m in c.net
    ensures InRange(c, m.src) && InRange(c, m.dst) && m.src != m.dst
    ensures m.AppendRequest? ==> m.args.prevLogIndex >= 0
    ensures LeaderIndicesOk(c.nodes[m.dst]) && c.nodes[m.dst].peers == |c.nodes| && c.nodes[m.dst].id == m.dst
  {
    assert MessageOk(c, m);
    assert NodeInv(c, m.dst);
  }

  /**
   What handling a message of term t does to a node: it ends in the later of the
   two terms, and if that is news to it, as a follower without a vote, or with one
   just given to `asker`.
   */
  ghost predicate TakesOver(s: Node, s': Node, t: int, asker: int) {
    && s'.currentTerm == Max(s.currentTerm, t)
    && (t > s.currentTerm ==> s'.role == Follower && (s'.votedFor == NOBODY || s'.votedFor == asker))
    && (s.role == Leader && t <= s.currentTerm ==> s'.role == Leader)
  }

  lemma VoteRequestTakesOver(s: Node, a: VoteArgs)
    ensures TakesOver(s, OnRequestVote(s, a).0, a.term, a.candidateId)
    ensures OnRequestVote(s, a).0.log == s.log
    ensures a.term <= s.currentTerm ==> OnRequestVote(s, a).0.role == s.role
    ensures OnRequestVote(s, a).1.term == Max(s.currentTerm, a.term)
    ensures OnRequestVote(s, a).1.granted ==>
              OnRequestVote(s, a).1.term == a.term && OnRequestVote(s, a).0.votedFor == a.candidateId
  {
  }

  lemma AppendRequestTakesOver(s: Node, a: AppendArgs)
    requires a.prevLogIndex >= 0
    ensures TakesOver(s, OnAppendEntries(s, a).0, a.term, NOBODY)
    ensures a.term <= s.currentTerm ==> OnAppendEntries(s, a).0.role == s.role && OnAppendEntries(s, a).0.votedFor == s.votedFor
    ensures OnAppendEntries(s, a).1.term == Max(s.currentTerm, a.term)
    ensures OnAppendEntries(s, a).1.success ==> OnAppendEntries(s, a).1.term == a.term
  {
  }

  lemma RepliesTakeOver(s: Node, peer: int, t: int, v: VoteReply, sent: AppendArgs, r: AppendReply)
    requires LeaderIndicesOk(s) && 0 <= peer < s.peers
    ensures TakesOver(s, OnVoteReply(s, peer, t, v), v.term, NOBODY)
    ensures TakesOver(s, OnAppendReply(s, peer, sent, r), r.term, NOBODY)
  {
  }

  /** Handling any message takes over its term; only a vote request can leave a vote behind then. */
  lemma HandlingTakesOverTerm(n: nat, steps: seq<Step>, states: seq<Cluster>, i: nat, m: Message)
    requires Execution(n, steps, states) && i < |steps| && m in states[i].net && Delivers(steps[i], m)
    ensures InRange(states[i], m.dst) && InRange(states[i + 1], m.dst)
    ensures TakesOver(states[i].nodes[m.dst], states[i + 1].nodes[m.dst], TermIn(m),
                      if m.VoteRequest? then m.src else NOBODY)
  {
    RaftSafety.RunKeepsInv(n, steps, states, i);
    Deliverable(states[i], m);
    var s := states[i].nodes[m.dst];
    assert MessageOk(states[i], m);
    match m
    case VoteRequest(_, _, a) => VoteRequestTakesOver(s, a);
    case AppendRequest(_, _, a) => AppendRequestTakesOver(s, a);
    case VoteAnswer(src, _, t, v) => RepliesTakeOver(s, src, t, v, AppendArgs(0, 0, 0, 0, [], 0), AppendReply(0, false));
    case AppendAnswer(src, _, sent, r) => RepliesTakeOver(s, src, 0, VoteReply(0, false), sent, r);
  }

  /** The answer to request m by a receiver in term t, granting it or not. */
  function AnswerTo(m: Message, t: int, ok: bool): Message
    requires m.VoteRequest? || m.AppendRequest?
  {
    match m
    case VoteRequest(src, dst, a) => VoteAnswer(dst, src, a.term, VoteReply(t, ok))
    case AppendRequest(src, dst, a) => AppendAnswer(dst, src, a, AppendReply(t, ok))
  }

  /**
   The one message sent in answer to a request carries the later of the
   receiver's term and the request's: a stale sender is told the later term.
   Only a request of the receiver's own new term is granted.
   */
  lemma AnswerTellsTerm(n: nat, steps: seq<Step>, states: seq<Cluster>, i: nat, m: Message) returns (ok: bool)
    requires Execution(n, steps, states) && i < |steps| && m in states[i].net && Delivers(steps[i], m)
    requires m.VoteRequest? || m.AppendRequest?
    ensures InRange(states[i], m.dst)
    ensures var t := Max(states[i].nodes[m.dst].currentTerm, TermIn(m));
            states[i + 1].net == states[i].net + {AnswerTo(m, t, ok)} && (ok ==> t == TermIn(m))
  {
    RaftSafety.RunKeepsInv(n, steps, states, i);
    Deliverable(states[i], m);
    var s := states[i].nodes[m.dst];
    if m.VoteRequest? {
      ok := OnRequestVote(s, m.vote).1.granted;
      VoteRequestTakesOver(s, m.vote);
    } else {
      ok := OnAppendEntries(s, m.args).1.success;
      AppendRequestTakesOver(s, m.args);
    }
  }

  /** An answer tells no term below that of the request it answers, and exactly that one if it grants it. */
  ghost predicate AnswersInTerm(m: Message) {
    match m
    case VoteAnswer(_, _, t, reply) => reply.term >= t && (reply.granted ==> reply.term == t)
    case AppendAnswer(_, _, sent, reply) => reply.term >= sent.term && (reply.success ==> reply.term == sent.term)
    case _ => true
  }

  lemma NewAnswersAreInTerm(c: Cluster, step: Step, m: Message)
    requires m in Do(c, step).net && m !in c.net
    ensures AnswersInTerm(m)
  {
    match step
    case DeliverVoteRequest(r) => if r.VoteRequest? && InRange(c, r.dst) { VoteRequestTakesOver(c.nodes[r.dst], r.vote); }
    case DeliverAppendRequest(r) =>
      if r.AppendRequest? && InRange(c, r.dst) && r.args.prevLogIndex >= 0 {
        AppendRequestTakesOver(c.nodes[r.dst], r.args);
      }
    case _ =>
  }

  /** Every answer ever sent in a run. */
  lemma {:induction false} AnswersNeverFallBehind(n: nat, steps: seq<Step>, states: seq<Cluster>, i: nat, m: Message)
    requires Execution(n, steps, states) && i < |states| && m in states[i].net
    ensures AnswersInTerm(m)
  {
    if i > 0 {
      if m in states[i - 1].net {
        AnswersNeverFallBehind(n, steps, states, i - 1, m);
      } else {
        NewAnswersAreInTerm(states[i - 1], steps[i - 1], m);
      }
    }
  }

  // ---- Elections ----

  /** The election timer of a live node that does not lead: it stands in the next term and asks everyone else. */
  lemma TimeoutStands(n: nat, steps: seq<Step>, states: seq<Cluster>, i: nat, v: int, p: int)
    requires Execution(n, steps, states) && i < |steps| && steps[i] == Timeout(v) && 0 <= v < n && 0 <= p < n
    ensures |states[i].nodes| == |states[i + 1].nodes| == n
    ensures
      var s, s' := states[i].nodes[v], states[i + 1].nodes[v];
      var lastTerm := if s.log == [] then 0 else s.log[|s.log| - 1].term;
      if s.role == Leader || s.dead then states[i + 1] == states[i]
      else
        && s'.currentTerm == s.currentTerm + 1 && s'.role == Candidate && s'.votedFor == v && s'.granted == {}
        && s'.log == s.log && s'.commitIndex == s.commitIndex
        && (p != v ==> VoteRequest(v, p, VoteArgs(s.currentTerm + 1, v, |s.log|, lastTerm)) in states[i + 1].net)
  {
    RaftSafety.RunKeepsInv(n, steps, states, i);
    assert NodeInv(states[i], v);
    var s := states[i].nodes[v];
    if MayStartElection(s) && p != v {
      assert VoteRequest(v, p, VoteRequestOf(StartElection(s))) in DoTimeout(states[i], v).net;
    }
  }

  /** A granted vote is recorded for the candidate; besides that and the term, a vote request changes nothing. */
  lemma VoteIsRecorded(n: nat, steps: seq<Step>, states: seq<Cluster>, i: nat, m: Message) returns (ok: bool)
    requires Execution(n, steps, states) && i < |steps| && m in states[i].net && Delivers(steps[i], m) && m.VoteRequest?
    ensures InRange(states[i], m.dst) && InRange(states[i + 1], m.dst)
    ensures var s, s', t := states[i].nodes[m.dst], states[i + 1].nodes[m.dst], m.vote.term;
            && states[i + 1].net == states[i].net + {AnswerTo(m, s'.currentTerm, ok)}
            && s' == s.(
                 currentTerm := Max(s.currentTerm, t),
                 role := if t > s.currentTerm then Follower else s.role,
                 votedFor := if ok then m.src else if t > s.currentTerm then NOBODY else s.votedFor)
  {
    RaftSafety.RunKeepsInv(n, steps, states, i);
    Deliverable(states[i], m);
    assert MessageOk(states[i], m);
    ok := OnRequestVote(states[i].nodes[m.dst], m.vote).1.granted;
  }

  /** A candidate counts every peer that grants its vote once, and leads as soon as these and itself are a majority. */
  lemma VotesAreCounted(n: nat, steps: seq<Step>, states: seq<Cluster>, i: nat, m: Message)
    requires Execution(n, steps, states) && i < |steps| && m in states[i].net && Delivers(steps[i], m) && m.VoteAnswer?
    ensures InRange(states[i], m.dst) && InRange(states[i + 1], m.dst)
    ensures var s, s' := states[i].nodes[m.dst], states[i + 1].nodes[m.dst];
            if s.role == Candidate && s.currentTerm == m.term && m.voteReply.granted then
              && s'.granted == s.granted + {m.src}
              && s'.role == if 2 * (1 + |s.granted + {m.src}|) > n then Leader else Candidate
            else
              m.voteReply.term <= s.currentTerm ==> s' == s
  {
    RaftSafety.RunKeepsInv(n, steps, states, i);
    Deliverable(states[i], m);
    AnswersNeverFallBehind(n, steps, states, i, m);
  }

  /** The votes that make v leader. */
  ghost predicate ElectedBy(h: History, v: int, t: int, voters: set<int>) {
    forall p {:trigger p in voters} :: p in voters ==> (p, t) in h.votes && h.votes[(p, t)] == v
  }

  /**
   A node that becomes leader keeps its term, has the votes of a majority, adds
   the no-op of its term to its log, and assumes that every peer has all but it.
   */
  lemma WinnerStarts(n: nat, steps: seq<Step>, states: seq<Cluster>, i: nat, v: int) returns (voters: set<int>)
    requires Execution(n, steps, states) && i < |steps| && 0 <= v < n
    requires InRange(states[i], v) && states[i].nodes[v].role != Leader
    requires InRange(states[i + 1], v) && states[i + 1].nodes[v].role == Leader
    ensures var s, s' := states[i].nodes[v], states[i + 1].nodes[v];
            && s.role == Candidate && s'.currentTerm == s.currentTerm
            && s'.log == s.log + [LogEntry(|s.log| + 1, s.currentTerm, "noop")]
            && |s'.nextIndex| == |s'.matchIndex| == n
            && (forall p :: 0 <= p < n ==> s'.nextIndex[p] == |s.log| + 1)
            && (forall p :: 0 <= p < n ==> s'.matchIndex[p] == 0)
    ensures 2 * |voters| > n && ElectedBy(states[i + 1].hist, v, states[i].nodes[v].currentTerm, voters)
  {
    RaftSafety.RunKeepsInv(n, steps, states, i);
    RaftSafety.RunKeepsInv(n, steps, states, i + 1);
    var c, c' := states[i], states[i + 1];
    assert NodeInv(c, v) && NodeInv(c', v);
    BecomesLeaderByVote(c, steps[i], v);
    var t := c.nodes[v].currentTerm;
    var E := c'.hist.elections;
    assert ElectionOk(n, E, t);
    voters := E[t].voters;
    forall p | p in voters
      ensures (p, t) in c'.hist.votes && c'.hist.votes[(p, t)] == v
    {
      assert VoterOk(c', t, p);
    }
  }

  lemma BecomesLeaderByVote(c: Cluster, step: Step, v: int)
    requires InRange(c, v) && c.nodes[v].role != Leader
    requires InRange(Do(c, step), v) && Do(c, step).nodes[v].role == Leader
    ensures var s, s' := c.nodes[v], Do(c, step).nodes[v];
            && s.role == Candidate && s'.currentTerm == s.currentTerm
            && s'.log == s.log + [LogEntry(|s.log| + 1, s.currentTerm, "noop")]
            && |s'.nextIndex| == |s.nextIndex| && |s'.matchIndex| == |s.matchIndex|
            && (forall p :: 0 <= p < |s'.nextIndex| ==> s'.nextIndex[p] == |s.log| + 1)
            && (forall p :: 0 <= p < |s'.matchIndex| ==> s'.matchIndex[p] == 0)
  {
  }

  // ---- Replication ----

  /** A proposal extends a leader's log by one entry, and does nothing elsewhere. */
  lemma ProposalAppends(n: nat, steps: seq<Step>, states: seq<Cluster>, i: nat, v: int, command: string)
    requires Execution(n, steps, states) && i < |steps| && steps[i] == Propose(v, command) && 0 <= v < n
    ensures |states[i].nodes| == |states[i + 1].nodes| == n
    ensures var s := states[i].nodes[v];
            states[i + 1].nodes[v] ==
              if s.role == Leader then s.(log := s.log + [LogEntry(|s.log| + 1, s.currentTerm, command)]) else s
  {
    RaftSafety.RunKeepsInv(n, steps, states, i);
  }

  /** The request a leader sends: everything from nextIndex on, the term before it, and its commit index. */
  lemma RequestsStartAtNext(n: nat, steps: seq<Step>, states: seq<Cluster>, i: nat, v: int, peer: int)
    requires Execution(n, steps, states) && i < |steps| && steps[i] == SendAppend(v, peer)
    requires 0 <= v < n && 0 <= peer < n && peer != v
    ensures |states[i].nodes| == n && ValidPeer(states[i].nodes[v], peer)
    ensures var s := states[i].nodes[v];
            s.role == Leader ==>
              && 1 <= s.nextIndex[peer] <= |s.log| + 1
              && var prev := s.nextIndex[peer] - 1;
                 AppendRequest(v, peer, AppendArgs(s.currentTerm, v, prev, if prev == 0 then 0 else s.log[prev - 1].term,
                                                   s.log[prev..], s.commitIndex)) in states[i + 1].net
  {
    RaftSafety.RunKeepsInv(n, steps, states, i);
    assert NodeInv(states[i], v);
    if states[i].nodes[v].role == Leader {
      RaftSafety.MatchIndexIsSound(n, steps, states, i, v, peer);
    }
  }

  /**
   A request is accepted exactly if it is not stale and the log agrees with it at
   prevLogIndex. The log is then what the leader shipped, unless it extends that
   already; otherwise log and commit index stay.
   */
  lemma AppendIsAcceptedExactly(n: nat, steps: seq<Step>, states: seq<Cluster>, i: nat, m: Message)
    requires Execution(n, steps, states) && i < |steps| && m in states[i].net && Delivers(steps[i], m) && m.AppendRequest?
    ensures InRange(states[i], m.dst) && InRange(states[i + 1], m.dst)
    ensures
      var s, s', a, E := states[i].nodes[m.dst], states[i + 1].nodes[m.dst], m.args, states[i].hist.elections;
      var last := a.prevLogIndex + |a.entries|;
      && a.term in E && 0 <= a.prevLogIndex <= last <= |E[a.term].log|
      && if s.currentTerm <= a.term
            && (a.prevLogIndex == 0 || (a.prevLogIndex <= |s.log| && s.log[a.prevLogIndex - 1].term == a.prevLogTerm))
         then
           && states[i + 1].net == states[i].net + {AnswerTo(m, a.term, true)}
           && s'.log == (if E[a.term].log[..last] <= s.log then s.log else E[a.term].log[..last])
           && s'.commitIndex == Max(s.commitIndex, a.leaderCommit)
         else
           && states[i + 1].net == states[i].net + {AnswerTo(m, Max(s.currentTerm, a.term), false)}
           && s'.log == s.log && s'.commitIndex == s.commitIndex
  {
    RaftSafety.RunKeepsInv(n, steps, states, i);
    Deliverable(states[i], m);
    var c := states[i];
    var s, a := c.nodes[m.dst], m.args;
    assert MessageOk(c, m) && NodeInv(c, m.dst);
    if a.term >= s.currentTerm && Consistent(s.log, a) {
      var t := if a.term > s.currentTerm then BecomeFollower(s, a.term) else s;
      HandlerAccepts(n, c.hist, t, a, m.src);
    }
  }

  /** An answer for another term, or to a node that no longer leads, changes nothing unless its own term is later. */
  lemma StaleAnswersAreIgnored(n: nat, steps: seq<Step>, states: seq<Cluster>, i: nat, m: Message)
    requires Execution(n, steps, states) && i < |steps| && m in states[i].net && Delivers(steps[i], m) && m.AppendAnswer?
    ensures InRange(states[i], m.dst) && InRange(states[i + 1], m.dst)
    ensures var s := states[i].nodes[m.dst];
            m.reply.term <= s.currentTerm && (s.role != Leader || s.currentTerm != m.sent.term) ==> states[i + 1].nodes[m.dst] == s
  {
    RaftSafety.RunKeepsInv(n, steps, states, i);
    Deliverable(states[i], m);
  }

  /** A majority of the cluster, the leader included, is known to hold index k. */
  ghost predicate KnownByMajority(s: Node, k: int)
    requires |s.matchIndex| == s.peers
  {
    2 * |set p | 0 <= p < s.peers && (p == s.id || s.matchIndex[p] >= k)| > s.peers
  }

  /** Index k is the leader's to commit: of its own term and held by a majority. */
  ghost predicate OwnAndHeld(s: Node, k: int)
    requires |s.matchIndex| == s.peers
  {
    1 <= k <= |s.log| && s.log[k - 1].term == s.currentTerm && KnownByMajority(s, k)
  }

  /**
   A success in the leader's term raises matchIndex of its sender to the end of
   the request and nothing else, and then commits exactly the indices up to the
   highest one of its own term that a majority is known to hold. A rejection
   lowers nextIndex by one, not below 1, and does nothing else.
   */
  lemma AppendReplyCounts(n: nat, steps: seq<Step>, states: seq<Cluster>, i: nat, m: Message)
    requires Execution(n, steps, states) && i < |steps| && m in states[i].net && Delivers(steps[i], m) && m.AppendAnswer?
    requires InRange(states[i], m.dst) && states[i].nodes[m.dst].role == Leader
    requires m.sent.term == states[i].nodes[m.dst].currentTerm >= m.reply.term
    ensures |states[i].nodes| == |states[i + 1].nodes| == n && 0 <= m.src < n
    ensures
      var s, s', last := states[i].nodes[m.dst], states[i + 1].nodes[m.dst], m.sent.prevLogIndex + |m.sent.entries|;
      && |s.nextIndex| == |s.matchIndex| == |s'.nextIndex| == |s'.matchIndex| == s'.peers == n
      && if m.reply.success then
           && s' == s.(matchIndex := s'.matchIndex, nextIndex := s'.nextIndex, commitIndex := s'.commitIndex)
           && s'.matchIndex == s.matchIndex[m.src := Max(s.matchIndex[m.src], last)]
           && s'.nextIndex == (if last > s.matchIndex[m.src] then s.nextIndex[m.src := last + 1] else s.nextIndex)
           && (forall k {:trigger OwnAndHeld(s', k)} :: OwnAndHeld(s', k) ==> k <= s'.commitIndex)
           && (s'.commitIndex == s.commitIndex || (s'.commitIndex > s.commitIndex && OwnAndHeld(s', s'.commitIndex)))
         else
           s' == s.(nextIndex := s.nextIndex[m.src := Max(1, s.nextIndex[m.src] - 1)])
  {
    RaftSafety.RunKeepsInv(n, steps, states, i);
    Deliverable(states[i], m);
    var c := states[i];
    var s := c.nodes[m.dst];
    assert NodeInv(c, m.dst);
    RaftSafety.MatchIndexIsSound(n, steps, states, i, m.dst, m.src);
    ReplyEffect(s, m.src, m.sent, m.reply);
  }

  lemma ReplyEffect(s: Node, peer: int, sent: AppendArgs, reply: AppendReply)
    requires LeaderIndicesOk(s) && 0 <= peer < s.peers && s.role == Leader && sent.term == s.currentTerm >= reply.term
    requires s.nextIndex[peer] >= 1 && s.commitIndex <= |s.log|
    ensures
      var s', last := OnAppendReply(s, peer, sent, reply), sent.prevLogIndex + |sent.entries|;
      && |s'.nextIndex| == |s'.matchIndex| == s'.peers == s.peers
      && if reply.success then
           && s' == s.(matchIndex := s'.matchIndex, nextIndex := s'.nextIndex, commitIndex := s'.commitIndex)
           && s'.matchIndex == s.matchIndex[peer := Max(s.matchIndex[peer], last)]
           && s'.nextIndex == (if last > s.matchIndex[peer] then s.nextIndex[peer := last + 1] else s.nextIndex)
           && (forall k {:trigger OwnAndHeld(s', k)} :: OwnAndHeld(s', k) ==> k <= s'.commitIndex)
           && (s'.commitIndex == s.commitIndex || (s'.commitIndex > s.commitIndex && OwnAndHeld(s', s'.commitIndex)))
         else
           s' == s.(nextIndex := s.nextIndex[peer := Max(1, s.nextIndex[peer] - 1)])
  {
    if reply.success {
      var r := RecordMatch(s, peer, sent.prevLogIndex + |sent.entries|);
      CommitsHighest(r);
      assert s.matchIndex[peer := s.matchIndex[peer]] == s.matchIndex;
    } else {
      assert s.nextIndex[peer := s.nextIndex[peer]] == s.nextIndex;
    }
  }

  lemma CommitsHighest(s: Node)
    requires LeaderIndicesOk(s) && s.commitIndex <= |s.log|
    ensures var s' := AdvanceCommit(s);
            && s' == s.(commitIndex := s'.commitIndex)
            && (forall k {:trigger OwnAndHeld(s', k)} :: OwnAndHeld(s', k) ==> k <= s'.commitIndex)
            && (s'.commitIndex == s.commitIndex || (s'.commitIndex > s.commitIndex && OwnAndHeld(s', s'.commitIndex)))
  {
    var s' := AdvanceCommit(s);
    forall k
      ensures 1 <= k <= |s.log| ==> (OwnAndHeld(s', k) <==> Committable(s, k))
    {
      assert Replicas(s, k) == set p | 0 <= p < s'.peers && (p == s'.id || s'.matchIndex[p] >= k);
    }
  }

  // ---- Apply ----

  /** One round of the apply loop delivers the next committed entry, if there is one. */
  lemma ApplyDelivers(n: nat, steps: seq<Step>, states: seq<Cluster>, i: nat, v: int)
    requires Execution(n, steps, states) && i < |steps| && steps[i] == Apply(v) && 0 <= v < n
    ensures |states[i].nodes| == |states[i + 1].nodes| == |states[i].hist.delivered| == |states[i + 1].hist.delivered| == n
    ensures
      var s, s', out := states[i].nodes[v], states[i + 1].nodes[v], states[i].hist.delivered[v];
      if s.lastApplied < s.commitIndex then
        && 0 <= s.lastApplied < |s.log|
        && s' == s.(lastApplied := s.lastApplied + 1)
        && states[i + 1].hist.delivered[v]
           == out + [ApplyMsg(s.lastApplied + 1, s.log[s.lastApplied].term, s.log[s.lastApplied].command)]
      else
        s' == s && states[i + 1].hist.delivered[v] == out
  {
    RaftSafety.RunKeepsInv(n, steps, states, i);
    assert NodeInv(states[i], v);
    var s := states[i].nodes[v];
    if s.lastApplied < s.commitIndex {
      GoodLogShape(n, states[i].hist.elections, s.log, s.lastApplied);
    }
  }
}
