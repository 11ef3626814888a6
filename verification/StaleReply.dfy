/**
 Two comments on the leader's arrays, settled exactly. raft/raft.go:106 asks that
 matchIndex stay below nextIndex: two concurrent senders to one peer can break it.
 raft/raft.go:101 asks that nextIndex be at least 1: it is so exactly on the nodes
 that have won an election. This file gives the failing runs, and for every moment
 of every run the exact condition.
 */
module StaleReply {
  import opened RaftLog
  import opened RaftNode
  import opened RaftCluster
  import opened RaftInvariant
  import RaftSafety

  predicate MatchBelowNext(s: Node, peer: int)
    requires ValidPeer(s, peer)
  {
    s.matchIndex[peer] < s.nextIndex[peer]
  }

  /**
   A rejection reaches a leader that is still in the term of the request, when a
   faster reply has already moved nextIndex to just above matchIndex.
   */
  predicate LateRejection(s: Node, peer: int, sent: AppendArgs, reply: AppendReply)
    requires ValidPeer(s, peer)
  {
    && s.role == Leader && sent.term == s.currentTerm && reply.term <= s.currentTerm
    && !reply.success
    && 1 < s.nextIndex[peer] == s.matchIndex[peer] + 1
  }

  predicate IsLateRejection(c: Cluster, step: Step, v: int, peer: int)
    requires InRange(c, v) && ValidPeer(c.nodes[v], peer)
  {
    && step.DeliverAppendAnswer? && step.m.AppendAnswer?
    && step.m in c.net && step.m.dst == v && step.m.src == peer
    && LateRejection(c.nodes[v], peer, step.m.sent, step.m.reply)
  }

  /** The vote that wins an election for v: the arrays are filled afresh. */
  predicate Wins(c: Cluster, step: Step, v: int)
    requires InRange(c, v)
  {
    var s := c.nodes[v];
    && step.DeliverVoteAnswer? && step.m.VoteAnswer? && step.m in c.net && step.m.dst == v
    && s.role == Candidate && step.m.term == s.currentTerm && step.m.voteReply.term <= s.currentTerm
    && step.m.voteReply.granted
    && 1 + |s.granted + {step.m.src}| >= Quorum(s.peers)
  }

  /** A success that tells the leader more about the peer than it knew. */
  predicate Records(c: Cluster, step: Step, v: int, peer: int)
    requires InRange(c, v) && ValidPeer(c.nodes[v], peer)
  {
    var s := c.nodes[v];
    && step.DeliverAppendAnswer? && step.m.AppendAnswer? && step.m in c.net
    && step.m.dst == v && step.m.src == peer
    && s.role == Leader && step.m.sent.term == s.currentTerm && step.m.reply.term <= s.currentTerm
    && step.m.reply.success
    && step.m.sent.prevLogIndex + |step.m.sent.entries| > s.matchIndex[peer]
  }

  /** For one reply, whatever the arrays were before. */
  lemma ReplyDecidesMatchBelowNext(c: Cluster, m: Message, peer: int)
    requires m.AppendAnswer? && m in c.net && InRange(c, m.dst)
    requires LeaderIndicesOk(c.nodes[m.dst]) && 0 <= peer < c.nodes[m.dst].peers && 0 <= m.src < c.nodes[m.dst].peers
    ensures var s := c.nodes[m.dst];
            var s' := OnAppendReply(s, m.src, m.sent, m.reply);
            && ValidPeer(s', peer)
            && (MatchBelowNext(s', peer) <==>
                  || Records(c, DeliverAppendAnswer(m), m.dst, peer)
                  || (MatchBelowNext(s, peer) && !IsLateRejection(c, DeliverAppendAnswer(m), m.dst, peer)))
  {
  }

  /**
   Every step of every run, for every node: afterwards matchIndex is below
   nextIndex if and only if the step won v an election or recorded news of the
   peer, or it was below before and the step is not a late rejection.
   */
  lemma StepKeepsMatchBelowNext(n: nat, steps: seq<Step>, states: seq<Cluster>, i: nat, v: int, peer: int)
    requires Execution(n, steps, states) && i < |steps| && 0 <= v < n && 0 <= peer < n
    ensures |states[i].nodes| == |states[i + 1].nodes| == n
    ensures ValidPeer(states[i].nodes[v], peer) && ValidPeer(states[i + 1].nodes[v], peer)
    ensures
      MatchBelowNext(states[i + 1].nodes[v], peer) <==>
        || Wins(states[i], steps[i], v)
        || Records(states[i], steps[i], v, peer)
        || (MatchBelowNext(states[i].nodes[v], peer) && !IsLateRejection(states[i], steps[i], v, peer))
  {
    RaftSafety.RunKeepsInv(n, steps, states, i);
    RaftSafety.RunKeepsInv(n, steps, states, i + 1);
    var c, c', step := states[i], states[i + 1], steps[i];
    assert NodeInv(c, v) && NodeInv(c', v);
    if HandsReply(c, step, v) {
      assert MessageOk(c, step.m);
      ReplyDecidesMatchBelowNext(c, step.m, peer);
    } else {
      OtherStepsKeepOrReset(c, step, v);
    }
  }

  /** The step hands v a reply to one of its append requests. */
  predicate HandsReply(c: Cluster, step: Step, v: int) {
    step.DeliverAppendAnswer? && step.m in c.net && step.m.AppendAnswer? && step.m.dst == v
  }

  /** The two arrays have been filled afresh by a new leader. */
  ghost predicate Reset(s: Node, s': Node) {
    && s.role != Leader && s'.role == Leader
    && |s'.nextIndex| == |s.nextIndex| && |s'.matchIndex| == |s.matchIndex|
    && (forall p :: 0 <= p < |s'.nextIndex| ==> s'.nextIndex[p] >= 1)
    && (forall p :: 0 <= p < |s'.matchIndex| ==> s'.matchIndex[p] == 0)
  }

  /** The two arrays are untouched, and s' leads only if s did. */
  ghost predicate Kept(s: Node, s': Node) {
    s'.nextIndex == s.nextIndex && s'.matchIndex == s.matchIndex && (s'.role == Leader ==> s.role == Leader)
  }

  lemma AppendEntriesKeepsArrays(s: Node, args: AppendArgs)
    requires args.prevLogIndex >= 0
    ensures Kept(s, OnAppendEntries(s, args).0)
  {
  }

  lemma VoteReplyKeepsOrResets(c: Cluster, m: Message)
    requires m.VoteAnswer? && m in c.net && InRange(c, m.dst)
    ensures var s := c.nodes[m.dst];
            var s' := OnVoteReply(s, m.src, m.term, m.voteReply);
            if Wins(c, DeliverVoteAnswer(m), m.dst) then Reset(s, s') else Kept(s, s')
  {
  }

  /** A step that hands v no append reply fills its arrays afresh if it wins v an election, and otherwise keeps them. */
  lemma OtherStepsKeepOrReset(c: Cluster, step: Step, v: int)
    requires InRange(c, v) && !HandsReply(c, step, v)
    ensures InRange(Do(c, step), v)
    ensures var s, s' := c.nodes[v], Do(c, step).nodes[v];
            if Wins(c, step, v) then Reset(s, s') else Kept(s, s')
  {
    match step
    case DeliverVoteAnswer(m) =>
      if m.VoteAnswer? && m in c.net && m.dst == v {
        VoteReplyKeepsOrResets(c, m);
      }
    case DeliverAppendRequest(m) =>
      if m.AppendRequest? && m.args.prevLogIndex >= 0 {
        AppendEntriesKeepsArrays(c.nodes[v], m.args);
      }
    case _ =>
  }

  // ---- Over whole runs ----

  /** Step j put matchIndex below nextIndex, whatever it was before. */
  ghost predicate RestoredAt(n: nat, steps: seq<Step>, states: seq<Cluster>, j: nat, v: int, peer: int)
    requires j < |steps| && j < |states|
  {
    && InRange(states[j], v) && ValidPeer(states[j].nodes[v], peer)
    && (Wins(states[j], steps[j], v) || Records(states[j], steps[j], v, peer))
  }

  /** Step j is a late rejection. */
  ghost predicate LateAt(n: nat, steps: seq<Step>, states: seq<Cluster>, j: nat, v: int, peer: int)
    requires j < |steps| && j < |states|
  {
    && InRange(states[j], v) && ValidPeer(states[j].nodes[v], peer)
    && IsLateRejection(states[j], steps[j], v, peer)
  }

  /** Since its last win or news, v has had no late rejection from the peer. */
  ghost predicate Intact(n: nat, steps: seq<Step>, states: seq<Cluster>, i: nat, v: int, peer: int)
    requires i <= |steps| < |states|
  {
    exists j: nat {:trigger RestoredAt(n, steps, states, j, v, peer)} :: j < i && RestoredAt(n, steps, states, j, v, peer) &&
      forall l: nat {:trigger LateAt(n, steps, states, l, v, peer)} :: j < l < i ==> !LateAt(n, steps, states, l, v, peer)
  }

  lemma IntactStep(n: nat, steps: seq<Step>, states: seq<Cluster>, i: nat, v: int, peer: int)
    requires i < |steps| < |states|
    ensures Intact(n, steps, states, i + 1, v, peer) <==>
              || RestoredAt(n, steps, states, i, v, peer)
              || (Intact(n, steps, states, i, v, peer) && !LateAt(n, steps, states, i, v, peer))
  {
    if Intact(n, steps, states, i + 1, v, peer) && !RestoredAt(n, steps, states, i, v, peer) {
      var j: nat :| j < i + 1 && RestoredAt(n, steps, states, j, v, peer) &&
        forall l: nat {:trigger LateAt(n, steps, states, l, v, peer)} :: j < l < i + 1 ==> !LateAt(n, steps, states, l, v, peer);
      assert j < i;
    }
    if Intact(n, steps, states, i, v, peer) && !LateAt(n, steps, states, i, v, peer) {
      var j: nat :| j < i && RestoredAt(n, steps, states, j, v, peer) &&
        forall l: nat {:trigger LateAt(n, steps, states, l, v, peer)} :: j < l < i ==> !LateAt(n, steps, states, l, v, peer);
      assert j < i + 1;
    }
  }

  lemma StepOfRun(n: nat, steps: seq<Step>, states: seq<Cluster>, i: nat, v: int, peer: int)
    requires Execution(n, steps, states) && i < |steps| && 0 <= v < n && 0 <= peer < n
    requires |states[i].nodes| == |states[i + 1].nodes| == n
    requires ValidPeer(states[i].nodes[v], peer) && ValidPeer(states[i + 1].nodes[v], peer)
    ensures MatchBelowNext(states[i + 1].nodes[v], peer) <==>
              || RestoredAt(n, steps, states, i, v, peer)
              || (MatchBelowNext(states[i].nodes[v], peer) && !LateAt(n, steps, states, i, v, peer))
  {
    StepKeepsMatchBelowNext(n, steps, states, i, v, peer);
  }

  lemma PeersAreValid(n: nat, steps: seq<Step>, states: seq<Cluster>, i: nat, v: int, peer: int)
    requires Execution(n, steps, states) && i < |states| && 0 <= v < n && 0 <= peer < n
    ensures |states[i].nodes| == n && ValidPeer(states[i].nodes[v], peer)
  {
    RaftSafety.RunKeepsInv(n, steps, states, i);
    assert NodeInv(states[i], v);
  }

  /**
   At every moment of every run, on every node: matchIndex is below nextIndex if
   and only if the node has won an election, or heard news of the peer, after
   which no rejection from that peer came late.
   */
  lemma {:induction false} MatchBelowNextExactly(n: nat, steps: seq<Step>, states: seq<Cluster>, i: nat, v: int, peer: int)
    requires Execution(n, steps, states) && i < |states| && 0 <= v < n && 0 <= peer < n
    ensures |states[i].nodes| == n && ValidPeer(states[i].nodes[v], peer)
    ensures MatchBelowNext(states[i].nodes[v], peer) <==> Intact(n, steps, states, i, v, peer)
  {
    PeersAreValid(n, steps, states, i, v, peer);
    if i > 0 {
      MatchBelowNextExactly(n, steps, states, i - 1, v, peer);
      StepOfRun(n, steps, states, i - 1, v, peer);
      IntactStep(n, steps, states, i - 1, v, peer);
    }
  }

  /** v has won an election at some time. */
  ghost predicate HasLed(c: Cluster, v: int) {
    exists t {:trigger t in c.hist.elections} :: t in c.hist.elections && c.hist.elections[t].leader == v
  }

  /** A node's arrays are positive if it has ever led, and still zero if not. */
  ghost predicate ArraysTell(c: Cluster, v: int)
    requires InRange(c, v)
  {
    var s := c.nodes[v];
    if HasLed(c, v) then forall p {:trigger s.nextIndex[p]} :: 0 <= p < |s.nextIndex| ==> s.nextIndex[p] >= 1
    else (forall p {:trigger s.nextIndex[p]} :: 0 <= p < |s.nextIndex| ==> s.nextIndex[p] == 0)
         && (forall p {:trigger s.matchIndex[p]} :: 0 <= p < |s.matchIndex| ==> s.matchIndex[p] == 0)
  }

  /** A term gets its leader by a winning vote. */
  lemma NewTermIsWon(c: Cluster, step: Step, t: int)
    requires t in Do(c, step).hist.elections && t !in c.hist.elections
    ensures var v := Do(c, step).hist.elections[t].leader;
            InRange(c, v) && Wins(c, step, v)
  {
  }

  /** Only a win adds v to the leaders, and nothing removes it. */
  lemma HasLedStep(c: Cluster, step: Step, v: int)
    requires RaftSafety.HistoryLater(c.hist, Do(c, step).hist) && InRange(c, v)
    ensures HasLed(c, v) ==> HasLed(Do(c, step), v)
    ensures HasLed(Do(c, step), v) && !HasLed(c, v) ==> Wins(c, step, v)
  {
    var E, E' := c.hist.elections, Do(c, step).hist.elections;
    if HasLed(c, v) {
      var t :| t in E && E[t].leader == v;
      assert t in E';
    } else if HasLed(Do(c, step), v) {
      var t :| t in E' && E'[t].leader == v;
      assert t !in E;
      NewTermIsWon(c, step, t);
    }
  }

  /** A reply leaves the arrays of a node that does not lead afterwards. */
  lemma ReplyKeepsArrays(c: Cluster, step: Step, v: int)
    requires InRange(c, v) && HandsReply(c, step, v) && InRange(Do(c, step), v) && Do(c, step).nodes[v].role != Leader
    ensures Kept(c.nodes[v], Do(c, step).nodes[v])
  {
  }

  lemma StepKeepsArraysTell(c: Cluster, step: Step, v: int)
    requires Inv(c) && Inv(Do(c, step)) && InRange(c, v) && |Do(c, step).nodes| == |c.nodes| && ArraysTell(c, v)
    ensures ArraysTell(Do(c, step), v)
  {
    var c' := Do(c, step);
    RaftSafety.StepIsLater(c, step);
    HasLedStep(c, step, v);
    if c'.nodes[v].role == Leader {
      assert NodeInv(c', v);
      assert HasLed(c', v);
    } else {
      if HandsReply(c, step, v) {
        ReplyKeepsArrays(c, step, v);
      } else {
        OtherStepsKeepOrReset(c, step, v);
      }
      KeptArraysTell(c, c', step, v);
    }
  }

  lemma KeptArraysTell(c: Cluster, c': Cluster, step: Step, v: int)
    requires InRange(c, v) && InRange(c', v) && ArraysTell(c, v) && Kept(c.nodes[v], c'.nodes[v])
    requires HasLed(c, v) <==> HasLed(c', v)
    ensures ArraysTell(c', v)
  {
  }

  lemma {:induction false} RunKeepsArraysTell(n: nat, steps: seq<Step>, states: seq<Cluster>, i: nat, v: int)
    requires Execution(n, steps, states) && i < |states| && 0 <= v < n
    ensures |states[i].nodes| == n && ArraysTell(states[i], v)
  {
    RaftSafety.RunKeepsInv(n, steps, states, i);
    if i > 0 {
      RunKeepsArraysTell(n, steps, states, i - 1, v);
      RaftSafety.RunKeepsInv(n, steps, states, i - 1);
      StepKeepsArraysTell(states[i - 1], steps[i - 1], v);
    }
  }

  /**
   At every moment of every run, nextIndex is at least 1, for any peer, if and
   only if the node has won an election by then, whether or not it still leads;
   before that both arrays are zero, so matchIndex is not below nextIndex either.
   */
  lemma NextIndexIsPositiveExactly(n: nat, steps: seq<Step>, states: seq<Cluster>, i: nat, v: int, peer: int)
    requires Execution(n, steps, states) && i < |states| && 0 <= v < n && 0 <= peer < n
    ensures |states[i].nodes| == n && ValidPeer(states[i].nodes[v], peer)
    ensures states[i].nodes[v].nextIndex[peer] >= 1 <==> HasLed(states[i], v)
    ensures !HasLed(states[i], v) ==> !MatchBelowNext(states[i].nodes[v], peer)
  {
    RunKeepsArraysTell(n, steps, states, i, v);
    RaftSafety.RunKeepsInv(n, steps, states, i);
    assert NodeInv(states[i], v);
  }

  /** The failing input: in the initial state no node has either property. */
  lemma BothFailInitially(n: nat, v: int, peer: int)
    requires 0 <= v < n && 0 <= peer < n
    ensures var s := Init(n).nodes[v];
            ValidPeer(s, peer) && s.nextIndex[peer] < 1 && !MatchBelowNext(s, peer)
  {
  }

  // ---- A run that breaks it ----

  lemma Extend(n: nat, steps: seq<Step>, states: seq<Cluster>, step: Step)
    returns (steps': seq<Step>, states': seq<Cluster>, c': Cluster)
    requires Execution(n, steps, states)
    ensures c' == Do(states[|steps|], step)
    ensures steps' == steps + [step] && states' == states + [c']
    ensures Execution(n, steps', states') && states'[|steps'|] == c'
  {
    c' := Do(states[|steps|], step);
    steps', states' := steps + [step], states + [c'];
  }

  const FIRST := LogEntry(1, 1, NOOP)
  const SECOND := LogEntry(2, 3, NOOP)

  /** A timeout asks every other node for its vote. */
  lemma TimeoutAsks(c: Cluster, v: int, peer: int)
    requires InRange(c, v) && InRange(c, peer) && peer != v && MayStartElection(c.nodes[v])
    ensures var s' := StartElection(c.nodes[v]);
            && Do(c, Timeout(v)).nodes == c.nodes[v := s']
            && VoteRequest(v, peer, VoteRequestOf(s')) in Do(c, Timeout(v)).net
  {
  }

  /** Of two nodes, the one vote of the other wins an election. */
  lemma OneVoteWins(a: Node, t: int)
    requires a.peers == 2 && MayStartElection(a) && t == a.currentTerm + 1
    ensures OnVoteReply(StartElection(a), 1, t, VoteReply(t, true)) == BecomeLeader(StartElection(a).(granted := {1}))
  {
    assert {} + {1} == {1} && |{1}| == 1;
  }

  lemma BehindGrants(b: Node, ask: VoteArgs)
    requires b.currentTerm < ask.term && UpToDate(ask, b.log)
    ensures OnRequestVote(b, ask) ==
            (BecomeFollower(b, ask.term).(votedFor := ask.candidateId), VoteReply(ask.term, true))
  {
  }

  /** Of two nodes, node 0 stands, gets the vote of node 1, which is behind, and wins. */
  lemma Elect(steps: seq<Step>, states: seq<Cluster>, a: Node, b: Node)
    returns (steps': seq<Step>, states': seq<Cluster>)
    requires Execution(2, steps, states) && states[|steps|].nodes == [a, b]
    requires a.id == 0 && a.peers == 2 && MayStartElection(a)
    requires b.currentTerm <= a.currentTerm && UpToDate(VoteRequestOf(a), b.log)
    ensures Execution(2, steps', states')
    ensures states'[|steps'|].nodes ==
            [BecomeLeader(StartElection(a).(granted := {1})),
             BecomeFollower(b, a.currentTerm + 1).(votedFor := 0)]
  {
    var c := states[|steps|];
    var t, ask := a.currentTerm + 1, VoteRequestOf(StartElection(a));
    TimeoutAsks(c, 0, 1);
    steps', states', c := Extend(2, steps, states, Timeout(0));
    assert c.nodes == [StartElection(a), b];
    BehindGrants(b, ask);
    steps', states', c := Extend(2, steps', states', DeliverVoteRequest(VoteRequest(0, 1, ask)));
    assert c.nodes == [StartElection(a), BecomeFollower(b, t).(votedFor := 0)];
    var yes := VoteAnswer(1, 0, t, VoteReply(t, true));
    assert yes in c.net;
    OneVoteWins(a, t);
    steps', states', c := Extend(2, steps', states', DeliverVoteAnswer(yes));
  }

  /** Node 0 leads term 1, and node 1 then forces it out by standing in term 2 and losing. */
  lemma FirstTerm() returns (steps: seq<Step>, states: seq<Cluster>)
    ensures Execution(2, steps, states)
    ensures states[|steps|].nodes ==
            [Node(0, 2, 2, NOBODY, Follower, [FIRST], 0, 0, [1, 1], [0, 0], {1}, false),
             Node(1, 2, 2, 1, Candidate, [], 0, 0, [0, 0], [0, 0], {}, false)]
  {
    var c := Init(2);
    assert c.nodes == [InitNode(0, 2), InitNode(1, 2)];
    steps, states := Elect([], [c], InitNode(0, 2), InitNode(1, 2));
    c := states[|steps|];
    assert c.nodes[0] == Node(0, 2, 1, 0, Leader, [FIRST], 0, 0, [1, 1], [0, 0], {1}, false);
    assert c.nodes[1] == Node(1, 2, 1, 0, Follower, [], 0, 0, [0, 0], [0, 0], {}, false);
    TimeoutAsks(c, 1, 0);
    steps, states, c := Extend(2, steps, states, Timeout(1));
    var rival := VoteRequest(1, 0, VoteArgs(2, 1, 0, 0));
    assert rival in c.net;
    steps, states, c := Extend(2, steps, states, DeliverVoteRequest(rival));
  }

  /** Node 0 then leads term 3 with a log that node 1 has nothing of. */
  lemma ThirdTerm() returns (steps: seq<Step>, states: seq<Cluster>)
    ensures Execution(2, steps, states)
    ensures states[|steps|].nodes ==
            [Node(0, 2, 3, 0, Leader, [FIRST, SECOND], 0, 0, [2, 2], [0, 0], {1}, false),
             Node(1, 2, 3, 0, Follower, [], 0, 0, [0, 0], [0, 0], {}, false)]
  {
    steps, states := FirstTerm();
    var c := states[|steps|];
    steps, states := Elect(steps, states, c.nodes[0], c.nodes[1]);
    c := states[|steps|];
    assert c.nodes[0] == Node(0, 2, 3, 0, Leader, [FIRST, SECOND], 0, 0, [2, 2], [0, 0], {1}, false);
    assert c.nodes[1] == Node(1, 2, 3, 0, Follower, [], 0, 0, [0, 0], [0, 0], {}, false);
  }

  const PROBE := AppendArgs(3, 0, 1, 1, [SECOND], 0)
  const WHOLE := AppendArgs(3, 0, 0, 0, [FIRST, SECOND], 0)
  const REJECTION := AppendAnswer(1, 0, PROBE, AppendReply(3, false))

  /** The first sender is rejected and backs up to the start of the log. */
  lemma FirstRejection() returns (steps: seq<Step>, states: seq<Cluster>)
    ensures Execution(2, steps, states)
    ensures states[|steps|].nodes ==
            [Node(0, 2, 3, 0, Leader, [FIRST, SECOND], 0, 0, [2, 1], [0, 0], {1}, false),
             Node(1, 2, 3, 0, Follower, [], 0, 0, [0, 0], [0, 0], {}, false)]
    ensures REJECTION in states[|steps|].net
  {
    steps, states := ThirdTerm();
    var c := states[|steps|];
    steps, states, c := Extend(2, steps, states, SendAppend(0, 1));
    assert AppendRequest(0, 1, PROBE) in c.net;
    steps, states, c := Extend(2, steps, states, DeliverAppendRequest(AppendRequest(0, 1, PROBE)));
    assert REJECTION in c.net;
    steps, states, c := Extend(2, steps, states, DeliverAppendAnswer(REJECTION));
    assert c.nodes[0].nextIndex == [2, 1];
  }

  /** Its retry is accepted: node 1 now holds the whole log. */
  lemma Retry() returns (steps: seq<Step>, states: seq<Cluster>)
    ensures Execution(2, steps, states)
    ensures |states[|steps|].nodes| == 2
    ensures states[|steps|].nodes[0] ==
            Node(0, 2, 3, 0, Leader, [FIRST, SECOND], 2, 0, [2, 3], [0, 2], {1}, false)
    ensures REJECTION in states[|steps|].net
  {
    steps, states := FirstRejection();
    var c := states[|steps|];
    steps, states, c := Extend(2, steps, states, SendAppend(0, 1));
    assert AppendRequest(0, 1, WHOLE) in c.net;
    steps, states, c := Extend(2, steps, states, DeliverAppendRequest(AppendRequest(0, 1, WHOLE)));
    assert AppendAnswer(1, 0, WHOLE, AppendReply(3, true)) in c.net;
    steps, states, c := Extend(2, steps, states,
      DeliverAppendAnswer(AppendAnswer(1, 0, WHOLE, AppendReply(3, true))));
    var s := c.nodes[0];
    assert s.nextIndex == [2, 3] && s.matchIndex == [0, 2];
    assert Replicas(s, 2) == {0, 1};
    assert Committable(s, 2);
  }

  /**
   A second sender had sent the same probe and been rejected as well; its reply
   is handled last. The leader is left with matchIndex = nextIndex.
   */
  lemma MatchBelowNextFails() returns (steps: seq<Step>, states: seq<Cluster>)
    ensures Execution(2, steps, states) && |states[|steps|].nodes| == 2
    ensures var s := states[|steps|].nodes[0];
            s.role == Leader && ValidPeer(s, 1) && !MatchBelowNext(s, 1)
  {
    steps, states := Retry();
    var c := states[|steps|];
    steps, states, c := Extend(2, steps, states, DeliverAppendAnswer(REJECTION));
  }
}
