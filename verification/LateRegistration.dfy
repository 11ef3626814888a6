/**
 proposeAndWait registers its slot only after Start has returned. This file
 gives a run in which the entry commits and is applied in between: the call
 then times out and answers false although its command is committed. So a
 false answer does not mean "not committed". A second run, with the
 registration in time, ends with the answer true.
 */
module LateRegistration {
  import opened RaftLog
  import opened RaftNode
  import opened RaftCluster
  import opened Codec
  import opened TaskState
  import opened Acknowledgement
  import RaftSafety
  import StaleReply

  /** A run of the protocol alone is a run of the world in which no broker does anything. */
  lemma Lift(n: nat, steps: seq<Step>, states: seq<Cluster>)
      returns (ws: seq<WorldStep>, worlds: seq<World>, w: World)
    requires Execution(n, steps, states)
    ensures WorldExecution(n, ws, worlds) && w == worlds[|ws|]
    ensures w == InitWorld(n).(raft := states[|steps|]) && Sized(w)
  {
    var idle := InitWorld(n);
    ws := seq(|steps|, i requires 0 <= i < |steps| => RaftStep(steps[i]));
    worlds := seq(|states|, i requires 0 <= i < |states| => idle.(raft := states[i]));
    w := worlds[|ws|];
    forall i | 0 <= i < |states|
      ensures Sized(worlds[i])
    {
      RaftSafety.RunKeepsInv(n, steps, states, i);
    }
    assert forall i :: 0 <= i < |ws| ==> states[i + 1] == Do(states[i], steps[i]) && worlds[i + 1] == WorldDo(worlds[i], ws[i]);
    assert worlds[0] == InitWorld(n);
  }

  lemma Extend(n: nat, ws: seq<WorldStep>, worlds: seq<World>, step: WorldStep)
      returns (ws': seq<WorldStep>, worlds': seq<World>, w': World)
    requires WorldExecution(n, ws, worlds) && Sized(worlds[|ws|])
    ensures w' == WorldDo(worlds[|ws|], step) && Sized(w')
    ensures WorldExecution(n, ws', worlds') && w' == worlds'[|ws'|]
  {
    RunIsOk(n, ws, worlds, |ws|);
    WorldStepKeeps(worlds[|ws|], step);
    w' := WorldDo(worlds[|ws|], step);
    ws', worlds' := ws + [step], worlds + [w'];
    forall i | 0 <= i < |ws'|
      ensures Sized(worlds'[i]) && worlds'[i + 1] == WorldDo(worlds'[i], ws'[i])
    {
      if i < |ws| {
        assert ws'[i] == ws[i] && worlds'[i] == worlds[i];
      }
    }
  }

  const FIRST := LogEntry(1, 1, NOOP)
  const JOB := "job"
  const SECOND := LogEntry(2, 1, JOB)
  const WHOLE := AppendArgs(1, 0, 0, 0, [FIRST, SECOND], 0)

  /** Node 0 leads term 1 and Start has put the command at index 2. */
  lemma Proposal() returns (ws: seq<WorldStep>, worlds: seq<World>, w: World)
    ensures WorldExecution(2, ws, worlds) && w == worlds[|ws|] && Sized(w)
    ensures w.raft.nodes == [Node(0, 2, 1, 0, Leader, [FIRST, SECOND], 0, 0, [1, 1], [0, 0], {1}, false),
                             Node(1, 2, 1, 0, Follower, [], 0, 0, [0, 0], [0, 0], {}, false)]
    ensures w.raft.hist.delivered == [[], []] && w.consumed == [0, 0] && w.pending == [map[], map[]]
    ensures w.calls == [Call(0, JOB, 2, 1, false, 0, false, Running)]
  {
    var c := Init(2);
    assert c.nodes == [InitNode(0, 2), InitNode(1, 2)];
    var steps, states := StaleReply.Elect([], [c], InitNode(0, 2), InitNode(1, 2));
    c := states[|steps|];
    assert c.nodes[0] == Node(0, 2, 1, 0, Leader, [FIRST], 0, 0, [1, 1], [0, 0], {1}, false);
    assert c.nodes[1] == Node(1, 2, 1, 0, Follower, [], 0, 0, [0, 0], [0, 0], {}, false);
    NothingDelivered(steps, states);
    ws, worlds, w := Lift(2, steps, states);
    ws, worlds, w := Extend(2, ws, worlds, Begin(0, JOB));
    assert w.raft.nodes[0].log == [FIRST, SECOND];
  }

  /** Nodes that have applied nothing have delivered nothing. */
  lemma NothingDelivered(steps: seq<Step>, states: seq<Cluster>)
    requires Execution(2, steps, states) && |states[|steps|].nodes| == 2
    requires states[|steps|].nodes[0].lastApplied == states[|steps|].nodes[1].lastApplied == 0
    ensures states[|steps|].hist.delivered == [[], []]
  {
    RaftSafety.DeliveryIsInOrder(2, steps, states, |steps|, |steps|, 0, 0);
    RaftSafety.DeliveryIsInOrder(2, steps, states, |steps|, |steps|, 1, 0);
  }

  const ACCEPTED := AppendAnswer(1, 0, WHOLE, AppendReply(1, true))

  /** Before the call registers, node 1 stores the entry. */
  lemma Replication() returns (ws: seq<WorldStep>, worlds: seq<World>, w: World)
    ensures WorldExecution(2, ws, worlds) && w == worlds[|ws|] && Sized(w)
    ensures |w.raft.nodes| == 2 && ACCEPTED in w.raft.net
    ensures w.raft.nodes[0] == Node(0, 2, 1, 0, Leader, [FIRST, SECOND], 0, 0, [1, 1], [0, 0], {1}, false)
    ensures w.raft.hist.delivered == [[], []] && w.consumed == [0, 0] && w.pending == [map[], map[]]
    ensures w.calls == [Call(0, JOB, 2, 1, false, 0, false, Running)]
  {
    ws, worlds, w := Proposal();
    ws, worlds, w := Extend(2, ws, worlds, RaftStep(SendAppend(0, 1)));
    assert AppendRequest(0, 1, WHOLE) in w.raft.net;
    ws, worlds, w := Extend(2, ws, worlds, RaftStep(DeliverAppendRequest(AppendRequest(0, 1, WHOLE))));
  }

  /** The leader commits it. */
  lemma Commitment() returns (ws: seq<WorldStep>, worlds: seq<World>, w: World)
    ensures WorldExecution(2, ws, worlds) && w == worlds[|ws|] && Sized(w)
    ensures |w.raft.nodes| == 2
    ensures w.raft.nodes[0] == Node(0, 2, 1, 0, Leader, [FIRST, SECOND], 2, 0, [1, 3], [0, 2], {1}, false)
    ensures w.raft.hist.delivered == [[], []] && w.consumed == [0, 0] && w.pending == [map[], map[]]
    ensures w.calls == [Call(0, JOB, 2, 1, false, 0, false, Running)]
  {
    ws, worlds, w := Replication();
    ws, worlds, w := Extend(2, ws, worlds, RaftStep(DeliverAppendAnswer(ACCEPTED)));
    var s := w.raft.nodes[0];
    assert s.nextIndex == [1, 3] && s.matchIndex == [0, 2];
    assert Replicas(s, 2) == {0, 1};
    assert Committable(s, 2);
  }

  /** It is delivered. */
  lemma Delivery() returns (ws: seq<WorldStep>, worlds: seq<World>, w: World)
    ensures WorldExecution(2, ws, worlds) && w == worlds[|ws|] && Sized(w)
    ensures |w.raft.nodes| == 2 && w.raft.nodes[0].commitIndex == 2
    ensures w.raft.hist.delivered[0] == [MsgOf(FIRST), MsgOf(SECOND)]
    ensures w.consumed == [0, 0] && w.pending == [map[], map[]]
    ensures w.calls == [Call(0, JOB, 2, 1, false, 0, false, Running)]
  {
    ws, worlds, w := Commitment();
    ws, worlds, w := Extend(2, ws, worlds, RaftStep(Apply(0)));
    ws, worlds, w := Extend(2, ws, worlds, RaftStep(Apply(0)));
  }

  /** Consuming a message for which no call is registered changes the fold only. */
  lemma ConsumeUnregistered(w: World, v: int)
    requires Sized(w) && InRange(w.raft, v) && w.consumed[v] < |w.raft.hist.delivered[v]|
    requires w.raft.hist.delivered[v][w.consumed[v]].index !in w.pending[v]
    ensures var w' := WorldDo(w, Consume(v));
            && w'.raft == w.raft && w'.pending == w.pending && w'.calls == w.calls
            && w'.consumed == w.consumed[v := w.consumed[v] + 1]
  {
  }

  /** It is applied as well. */
  lemma Application() returns (ws: seq<WorldStep>, worlds: seq<World>, w: World)
    ensures WorldExecution(2, ws, worlds) && w == worlds[|ws|] && Sized(w)
    ensures |w.raft.nodes| == 2 && w.raft.nodes[0].commitIndex == 2
    ensures w.raft.hist.delivered[0] == [MsgOf(FIRST), MsgOf(SECOND)] && w.consumed[0] == 2
    ensures w.calls == [Call(0, JOB, 2, 1, false, 0, false, Running)]
  {
    ws, worlds, w := Delivery();
    ConsumeUnregistered(w, 0);
    ws, worlds, w := Extend(2, ws, worlds, Consume(0));
    ConsumeUnregistered(w, 0);
    ws, worlds, w := Extend(2, ws, worlds, Consume(0));
  }

  /** The call registers too late, times out and returns false; its own command is committed and applied. */
  lemma FalseDoesNotMeanUncommitted() returns (ws: seq<WorldStep>, worlds: seq<World>, w: World)
    ensures WorldExecution(2, ws, worlds) && w == worlds[|ws|] && Sized(w)
    ensures |w.calls| == 1 && w.calls[0].outcome == Returned(false)
    ensures var c := w.calls[0];
            && 1 <= c.index <= w.raft.nodes[c.node].commitIndex
            && c.index <= w.consumed[c.node] && c.index <= |w.raft.hist.delivered[c.node]|
            && w.raft.hist.delivered[c.node][c.index - 1] == ApplyMsg(c.index, c.term, c.command)
  {
    ws, worlds, w := Application();
    ws, worlds, w := Extend(2, ws, worlds, Register(0));
    ws, worlds, w := Extend(2, ws, worlds, Expire(0));
  }

  /** Had the call registered before its index was applied, it would have been woken and returned true. */
  lemma TimelyRegistrationSucceeds() returns (ws: seq<WorldStep>, worlds: seq<World>, w: World)
    ensures WorldExecution(2, ws, worlds) && w == worlds[|ws|] && Sized(w)
    ensures |w.calls| == 1 && w.calls[0].outcome == Returned(true) && w.calls[0].command == JOB
  {
    ws, worlds, w := Delivery();
    ws, worlds, w := Extend(2, ws, worlds, Register(0));
    assert w.pending[0] == map[2 := 0] && w.calls == [Call(0, JOB, 2, 1, true, 1, false, Running)];
    ConsumeUnregistered(w, 0);
    ws, worlds, w := Extend(2, ws, worlds, Consume(0));
    ConsumeRegistered(w, 0, 0);
    ws, worlds, w := Extend(2, ws, worlds, Consume(0));
    ws, worlds, w := Extend(2, ws, worlds, Wake(0));
  }

  /** Consuming the message of a registered call closes its channel with the message's term. */
  lemma ConsumeRegistered(w: World, v: int, k: nat)
    requires Sized(w) && InRange(w.raft, v) && w.consumed[v] < |w.raft.hist.delivered[v]| && k < |w.calls|
    requires var i := w.raft.hist.delivered[v][w.consumed[v]].index; i in w.pending[v] && w.pending[v][i] == k
    ensures WorldDo(w, Consume(v)).calls ==
            w.calls[k := w.calls[k].(opTerm := w.raft.hist.delivered[v][w.consumed[v]].term, closed := true)]
  {
  }
}
