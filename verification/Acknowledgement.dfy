/**
 Brokers on top of Raft: every broker folds the messages its Raft node delivers,
 and `proposeAndWait` calls race with that fold. A call is the goroutine's
 progress through Start, registration in pendingOps, and the final select.

 The theorems compose Raft safety, the fold and the races: a call that returns
 true had its own command committed at its index, and what has been
 acknowledged is never lost.
 */
module Acknowledgement {
  import opened RaftLog
  import opened RaftNode
  import opened RaftCluster
  import opened RaftInvariant
  import opened RaftSafety
  import opened RaftReplication
  import opened Codec
  import opened TaskState
  import opened TaskFold

  datatype Outcome = Running | Returned(ok: bool)

  /**
   One call: its node and command, what Start returned, and its pendingOp
   (`opTerm`, and `closed` once the apply loop has closed its channel).
   */
  datatype Call = Call(
    node: int, command: string, index: int, term: int,
    registered: bool, opTerm: int, closed: bool, outcome: Outcome)

  /** pending[v] is v's pendingOps: the call registered at each log index. */
  datatype World = World(
    raft: Cluster, consumed: seq<nat>, facts: seq<Facts>,
    pending: seq<map<int, int>>, calls: seq<Call>)

  datatype WorldStep =
    | RaftStep(step: Step)
    | Begin(v: int, command: string)
    | Register(k: nat)
    | Consume(v: int)
    | Wake(k: nat)
    | Expire(k: nat)

  function InitWorld(n: nat): World {
    World(Init(n), seq(n, _ => 0), seq(n, _ => NO_FACTS), seq(n, _ => map[]), [])
  }

  predicate Sized(w: World) {
    && |w.consumed| == |w.facts| == |w.pending| == |w.raft.nodes| == |w.raft.hist.delivered|
    && forall k :: 0 <= k < |w.calls| ==> 0 <= w.calls[k].node < |w.raft.nodes|
  }

  /** proposeAndWait up to the return of Start. */
  function DoBegin(w: World, v: int, command: string): World
    requires Sized(w) && InRange(w.raft, v)
  {
    var raft := Do(w.raft, Propose(v, command));
    var call := if w.raft.nodes[v].role == Leader
      then Call(v, command, |raft.nodes[v].log|, raft.nodes[v].currentTerm, false, 0, false, Running)
      else Call(v, command, 0, 0, false, 0, false, Returned(false));
    w.(raft := raft, calls := w.calls + [call])
  }

  /** pendingOps[index] = op, overwriting whatever call was registered there. */
  function DoRegister(w: World, k: nat): World
    requires Sized(w) && k < |w.calls|
  {
    var c := w.calls[k];
    if c.registered || c.outcome.Returned? then w else
      w.(pending := w.pending[c.node := w.pending[c.node][c.index := k]],
         calls := w.calls[k := c.(registered := true, opTerm := c.term)])
  }

  /** One round of the apply loop of node v. */
  function DoConsume(w: World, v: int): World
    requires Sized(w) && InRange(w.raft, v)
  {
    if w.consumed[v] >= |w.raft.hist.delivered[v]| then w else
      var msg := w.raft.hist.delivered[v][w.consumed[v]];
      var w' := w.(consumed := w.consumed[v := w.consumed[v] + 1],
                   facts := w.facts[v := ApplyCommand(w.facts[v], DecodeCommand(msg.command))]);
      if msg.index in w.pending[v] && 0 <= w.pending[v][msg.index] < |w.calls| then
        var k := w.pending[v][msg.index];
        w'.(pending := w.pending[v := w.pending[v] - {msg.index}],
            calls := w.calls[k := w.calls[k].(opTerm := msg.term, closed := true)])
      else
        w'
  }

  /** The select takes the closed channel. */
  function DoWake(w: World, k: nat): World
    requires Sized(w) && k < |w.calls|
  {
    var c := w.calls[k];
    if c.registered && c.closed && c.outcome.Running?
    then w.(calls := w.calls[k := c.(outcome := Returned(c.opTerm == c.term))])
    else w
  }

  /** The select takes the timeout: it clears the slot, whoever owns it by then. */
  function DoExpire(w: World, k: nat): World
    requires Sized(w) && k < |w.calls|
  {
    var c := w.calls[k];
    if c.registered && c.outcome.Running?
    then w.(pending := w.pending[c.node := w.pending[c.node] - {c.index}],
            calls := w.calls[k := c.(outcome := Returned(false))])
    else w
  }

  function WorldDo(w: World, step: WorldStep): World
    requires Sized(w)
  {
    match step
    case RaftStep(s) => w.(raft := Do(w.raft, s))
    case Begin(v, command) => if InRange(w.raft, v) then DoBegin(w, v, command) else w
    case Register(k) => if k < |w.calls| then DoRegister(w, k) else w
    case Consume(v) => if InRange(w.raft, v) then DoConsume(w, v) else w
    case Wake(k) => if k < |w.calls| then DoWake(w, k) else w
    case Expire(k) => if k < |w.calls| then DoExpire(w, k) else w
  }

  // ---- Invariant ----

  /** What Start promised: the leader of the call's term holds the call's command at the call's index. */
  ghost predicate Proposed(E: Elections, c: Call) {
    && c.term in E
    && 1 <= c.index <= |E[c.term].log|
    && E[c.term].log[c.index - 1] == LogEntry(c.index, c.term, c.command)
  }

  ghost predicate CallOk(w: World, c: Call)
    requires Sized(w) && 0 <= c.node < |w.raft.nodes|
  {
    && (c.outcome == Running || c.registered ==> Proposed(w.raft.hist.elections, c))
    && (c.closed ==>
          && c.registered
          && c.index <= w.consumed[c.node] <= |w.raft.hist.delivered[c.node]|
          && c.opTerm == w.raft.hist.delivered[c.node][c.index - 1].term)
    && (c.outcome == Returned(true) ==> c.closed && c.opTerm == c.term)
  }

  ghost predicate SlotOk(w: World, v: int, i: int)
    requires Sized(w) && InRange(w.raft, v) && i in w.pending[v]
  {
    var k := w.pending[v][i];
    0 <= k < |w.calls| && w.calls[k].node == v && w.calls[k].index == i && w.calls[k].registered
  }

  /** The facts of v are the fold of the messages its apply loop has read so far. */
  ghost predicate FoldOk(w: World, v: int)
    requires Sized(w) && InRange(w.raft, v)
  {
    && w.consumed[v] <= |w.raft.hist.delivered[v]|
    && w.facts[v] == FactsOf(w.raft.hist.delivered[v][..w.consumed[v]])
  }

  ghost predicate WorldOk(w: World) {
    && Inv(w.raft) && Sized(w)
    && (forall v {:trigger FoldOk(w, v)} :: 0 <= v < |w.raft.nodes| ==> FoldOk(w, v))
    && (forall k {:trigger w.calls[k]} :: 0 <= k < |w.calls| ==> CallOk(w, w.calls[k]))
    && (forall v, i {:trigger SlotOk(w, v, i)} :: 0 <= v < |w.raft.nodes| && i in w.pending[v] ==> SlotOk(w, v, i))
  }

  lemma InitWorldOk(n: nat)
    ensures WorldOk(InitWorld(n))
  {
    InitInv(n);
  }

  lemma RaftStepKeeps(w: World, step: Step)
    requires WorldOk(w)
    ensures WorldOk(w.(raft := Do(w.raft, step)))
  {
    var w' := w.(raft := Do(w.raft, step));
    StepKeepsInv(w.raft, step);
    StepIsLater(w.raft, step);
    var h, h' := w.raft.hist, w'.raft.hist;
    forall v | 0 <= v < |w'.raft.nodes|
      ensures FoldOk(w', v)
    {
      assert FoldOk(w, v);
      assert h.delivered[v] <= h'.delivered[v];
      assert h'.delivered[v][..w.consumed[v]] == h.delivered[v][..w.consumed[v]];
    }
    forall k | 0 <= k < |w'.calls|
      ensures CallOk(w', w'.calls[k])
    {
      assert CallOk(w, w.calls[k]);
      assert h.delivered[w.calls[k].node] <= h'.delivered[w.calls[k].node];
    }
    forall v, i | 0 <= v < |w'.raft.nodes| && i in w'.pending[v]
      ensures SlotOk(w', v, i)
    {
      assert SlotOk(w, v, i);
    }
  }

  lemma BeginKeeps(w: World, v: int, command: string)
    requires WorldOk(w) && InRange(w.raft, v)
    ensures WorldOk(DoBegin(w, v, command))
  {
    RaftStepKeeps(w, Propose(v, command));
    var w1 := w.(raft := Do(w.raft, Propose(v, command)));
    var w' := DoBegin(w, v, command);
    assert NodeInv(w.raft, v) && NodeInv(w1.raft, v);
    assert CallOk(w1, w'.calls[|w.calls|]);
    AddCallKeeps(w1, w'.calls[|w.calls|]);
  }

  lemma AddCallKeeps(w: World, c: Call)
    requires WorldOk(w) && 0 <= c.node < |w.raft.nodes| && CallOk(w, c)
    ensures WorldOk(w.(calls := w.calls + [c]))
  {
    var w' := w.(calls := w.calls + [c]);
    forall v | 0 <= v < |w'.raft.nodes|
      ensures FoldOk(w', v)
    {
      assert FoldOk(w, v);
    }
    forall k | 0 <= k < |w'.calls|
      ensures CallOk(w', w'.calls[k])
    {
      assert k < |w.calls| ==> CallOk(w, w.calls[k]);
    }
    forall v, i | 0 <= v < |w'.raft.nodes| && i in w'.pending[v]
      ensures SlotOk(w', v, i)
    {
      assert SlotOk(w, v, i);
    }
  }

  /** Changing one call, keeping its identity and registration, together with one slot table. */
  lemma ChangeCallKeeps(w: World, k: nat, c: Call, p: map<int, int>)
    requires WorldOk(w) && k < |w.calls| && c.node == w.calls[k].node && CallOk(w, c)
    requires c.index == w.calls[k].index && (w.calls[k].registered ==> c.registered)
    requires forall i :: i in p ==>
               (i in w.pending[c.node] && p[i] == w.pending[c.node][i]) || (i == c.index && p[i] == k && c.registered)
    ensures WorldOk(w.(calls := w.calls[k := c], pending := w.pending[c.node := p]))
  {
    var w' := w.(calls := w.calls[k := c], pending := w.pending[c.node := p]);
    assert Sized(w');
    forall v | 0 <= v < |w'.raft.nodes|
      ensures FoldOk(w', v)
    {
      assert FoldOk(w, v);
    }
    forall j | 0 <= j < |w'.calls|
      ensures CallOk(w', w'.calls[j])
    {
      assert CallOk(w, w.calls[j]);
    }
    forall v, i | 0 <= v < |w'.raft.nodes| && i in w'.pending[v]
      ensures SlotOk(w', v, i)
    {
      if i in w.pending[v] { assert SlotOk(w, v, i); }
    }
  }

  lemma RegisterKeeps(w: World, k: nat)
    requires WorldOk(w) && k < |w.calls|
    ensures WorldOk(DoRegister(w, k))
  {
    var c := w.calls[k];
    assert CallOk(w, c);
    if !c.registered && !c.outcome.Returned? {
      ChangeCallKeeps(w, k, c.(registered := true, opTerm := c.term), w.pending[c.node][c.index := k]);
    }
  }

  lemma WakeKeeps(w: World, k: nat)
    requires WorldOk(w) && k < |w.calls|
    ensures WorldOk(DoWake(w, k))
  {
    var c := w.calls[k];
    assert CallOk(w, c);
    if DoWake(w, k) != w {
      ChangeCallKeeps(w, k, c.(outcome := Returned(c.opTerm == c.term)), w.pending[c.node]);
      assert w.pending[c.node := w.pending[c.node]] == w.pending;
    }
  }

  lemma ExpireKeeps(w: World, k: nat)
    requires WorldOk(w) && k < |w.calls|
    ensures WorldOk(DoExpire(w, k))
  {
    var c := w.calls[k];
    assert CallOk(w, c);
    if c.registered && c.outcome.Running? {
      ChangeCallKeeps(w, k, c.(outcome := Returned(false)), w.pending[c.node] - {c.index});
    }
  }

  /** Folding in one more message, before anyone is woken. */
  lemma FoldKeeps(w: World, v: int)
    requires WorldOk(w) && InRange(w.raft, v) && w.consumed[v] < |w.raft.hist.delivered[v]|
    ensures var msg := w.raft.hist.delivered[v][w.consumed[v]];
            WorldOk(w.(consumed := w.consumed[v := w.consumed[v] + 1],
                       facts := w.facts[v := ApplyCommand(w.facts[v], DecodeCommand(msg.command))]))
  {
    var out, m := w.raft.hist.delivered[v], w.consumed[v];
    var w' := w.(consumed := w.consumed[v := m + 1],
                 facts := w.facts[v := ApplyCommand(w.facts[v], DecodeCommand(out[m].command))]);
    assert FoldOk(w, v);
    FactsOfNext(out, m);
    forall u | 0 <= u < |w'.raft.nodes|
      ensures FoldOk(w', u)
    {
      assert FoldOk(w, u);
    }
    forall k | 0 <= k < |w'.calls|
      ensures CallOk(w', w'.calls[k])
    {
      assert CallOk(w, w.calls[k]);
    }
    forall u, i | 0 <= u < |w'.raft.nodes| && i in w'.pending[u]
      ensures SlotOk(w', u, i)
    {
      assert SlotOk(w, u, i);
    }
  }

  lemma ConsumeKeeps(w: World, v: int)
    requires WorldOk(w) && InRange(w.raft, v)
    ensures WorldOk(DoConsume(w, v))
  {
    if w.consumed[v] < |w.raft.hist.delivered[v]| {
      var msg := w.raft.hist.delivered[v][w.consumed[v]];
      FoldKeeps(w, v);
      var w1 := w.(consumed := w.consumed[v := w.consumed[v] + 1],
                   facts := w.facts[v := ApplyCommand(w.facts[v], DecodeCommand(msg.command))]);
      if msg.index in w.pending[v] {
        assert SlotOk(w, v, msg.index);
        var k := w.pending[v][msg.index];
        DeliveredIndex(w.raft, v, w.consumed[v]);
        assert CallOk(w1, w1.calls[k]);
        ChangeCallKeeps(w1, k, w.calls[k].(opTerm := msg.term, closed := true), w.pending[v] - {msg.index});
      }
    }
  }

  lemma DeliveredIndex(c: Cluster, v: int, i: int)
    requires Inv(c) && InRange(c, v) && 0 <= i < |c.hist.delivered[v]|
    ensures i < |c.nodes[v].log| && c.hist.delivered[v][i] == MsgOf(c.nodes[v].log[i])
    ensures c.hist.delivered[v][i].index == i + 1
    ensures i < c.nodes[v].commitIndex
  {
    assert NodeInv(c, v);
    GoodLogShape(|c.nodes|, c.hist.elections, c.nodes[v].log, i);
  }

  lemma WorldStepKeeps(w: World, step: WorldStep)
    requires WorldOk(w)
    ensures WorldOk(WorldDo(w, step))
  {
    match step
    case RaftStep(s) => RaftStepKeeps(w, s);
    case Begin(v, command) => if InRange(w.raft, v) { BeginKeeps(w, v, command); }
    case Register(k) => if k < |w.calls| { RegisterKeeps(w, k); }
    case Consume(v) => if InRange(w.raft, v) { ConsumeKeeps(w, v); }
    case Wake(k) => if k < |w.calls| { WakeKeeps(w, k); }
    case Expire(k) => if k < |w.calls| { ExpireKeeps(w, k); }
  }

  /** worlds[i] is the world of n nodes after the first i steps. */
  ghost predicate WorldExecution(n: nat, steps: seq<WorldStep>, worlds: seq<World>) {
    && |worlds| == |steps| + 1
    && worlds[0] == InitWorld(n)
    && forall i {:trigger steps[i]} :: 0 <= i < |steps| ==>
         Sized(worlds[i]) && worlds[i + 1] == WorldDo(worlds[i], steps[i])
  }

  lemma {:induction false} RunIsOk(n: nat, steps: seq<WorldStep>, worlds: seq<World>, i: nat)
    requires WorldExecution(n, steps, worlds) && i < |worlds|
    ensures WorldOk(worlds[i])
  {
    if i == 0 {
      InitWorldOk(n);
    } else {
      RunIsOk(n, steps, worlds, i - 1);
      WorldStepKeeps(worlds[i - 1], steps[i - 1]);
    }
  }

  // ---- What never changes once it has happened ----

  ghost predicate CallLater(c: Call, c': Call) {
    && c'.node == c.node && c'.command == c.command && c'.index == c.index && c'.term == c.term
    && (c.outcome.Returned? ==> c'.outcome == c.outcome)
  }

  ghost predicate WorldLater(w: World, w': World) {
    && Later(w.raft, w'.raft)
    && |w.calls| <= |w'.calls|
    && (forall k {:trigger w'.calls[k]} :: 0 <= k < |w.calls| ==> CallLater(w.calls[k], w'.calls[k]))
  }

  lemma WorldStepIsLater(w: World, step: WorldStep)
    requires WorldOk(w)
    ensures WorldLater(w, WorldDo(w, step))
  {
    LaterIsReflexive(w.raft);
    match step
    case RaftStep(s) => StepIsLater(w.raft, s);
    case Begin(v, command) => StepIsLater(w.raft, Propose(v, command));
    case _ =>
  }

  lemma {:induction false} WorldRunIsLater(n: nat, steps: seq<WorldStep>, worlds: seq<World>, i: nat, j: nat)
    requires WorldExecution(n, steps, worlds) && i <= j < |worlds|
    ensures WorldOk(worlds[i]) && WorldOk(worlds[j]) && WorldLater(worlds[i], worlds[j])
    decreases j
  {
    RunIsOk(n, steps, worlds, i);
    RunIsOk(n, steps, worlds, j);
    if i == j {
      LaterIsReflexive(worlds[i].raft);
    } else {
      WorldRunIsLater(n, steps, worlds, i, j - 1);
      WorldStepIsLater(worlds[j - 1], steps[j - 1]);
      WorldLaterIsTransitive(worlds[i], worlds[j - 1], worlds[j]);
    }
  }

  lemma WorldLaterIsTransitive(a: World, b: World, c: World)
    requires WorldLater(a, b) && WorldLater(b, c)
    ensures WorldLater(a, c)
  {
    LaterIsTransitive(a.raft, b.raft, c.raft);
    forall k | 0 <= k < |a.calls|
      ensures CallLater(a.calls[k], c.calls[k])
    {
      assert CallLater(a.calls[k], b.calls[k]) && CallLater(b.calls[k], c.calls[k]);
    }
  }

  // ---- Acknowledgement soundness ----

  ghost function EntryOf(c: Call): LogEntry {
    LogEntry(c.index, c.term, c.command)
  }

  ghost predicate InLog(log: seq<LogEntry>, e: LogEntry) {
    1 <= e.index <= |log| && log[e.index - 1] == e
  }

  /** The call's own command has been delivered at its index on its node. */
  ghost predicate OwnDelivered(w: World, c: Call)
    requires Sized(w) && 0 <= c.node < |w.raft.nodes|
  {
    var out := w.raft.hist.delivered[c.node];
    1 <= c.index <= |out| && out[c.index - 1] == ApplyMsg(c.index, c.term, c.command)
  }

  /** A message of the call's own term has been delivered at its index on its node. */
  ghost predicate OwnTermDelivered(w: World, c: Call)
    requires Sized(w) && 0 <= c.node < |w.raft.nodes|
  {
    var out := w.raft.hist.delivered[c.node];
    1 <= c.index <= |out| && out[c.index - 1].term == c.term
  }

  /** Index and term identify a command: what is delivered in the call's term at its index is the call's own command. */
  lemma TermIdentifiesCommand(w: World, k: nat)
    requires WorldOk(w) && k < |w.calls| && w.calls[k].registered
    ensures OwnTermDelivered(w, w.calls[k]) <==> OwnDelivered(w, w.calls[k])
  {
    var c := w.calls[k];
    assert CallOk(w, c);
    if OwnTermDelivered(w, c) {
      var v, i, E := c.node, c.index - 1, w.raft.hist.elections;
      DeliveredIndex(w.raft, v, i);
      var log := w.raft.nodes[v].log;
      assert NodeInv(w.raft, v);
      LeaderLogIsGood(|w.raft.nodes|, E, c.term, |E[c.term].log|);
      assert E[c.term].log[..|E[c.term].log|] == E[c.term].log;
      GoodLogsMatch(|w.raft.nodes|, E, log, E[c.term].log, i);
      assert log[i] == log[..i + 1][i] == E[c.term].log[i];
    }
  }

  /** A call that returned true had its own command delivered at its own index, in its own term. */
  lemma AcknowledgedWasDelivered(w: World, k: nat)
    requires WorldOk(w) && k < |w.calls| && w.calls[k].outcome == Returned(true)
    ensures var c := w.calls[k];
            && 1 <= c.index <= w.consumed[c.node] <= |w.raft.hist.delivered[c.node]|
            && w.raft.hist.delivered[c.node][c.index - 1] == ApplyMsg(c.index, c.term, c.command)
            && InLog(w.raft.nodes[c.node].log, EntryOf(c))
            && c.index <= w.raft.nodes[c.node].commitIndex
  {
    assert CallOk(w, w.calls[k]);
    TermIdentifiesCommand(w, k);
    DeliveredIndex(w.raft, w.calls[k].node, w.calls[k].index - 1);
  }

  /** The step by which call k returns: the select takes the closed channel, or the time-out. */
  predicate Returns(c: Call, k: nat, step: WorldStep) {
    c.registered && c.outcome.Running? && ((step == Wake(k) && c.closed) || step == Expire(k))
  }

  /**
   When the answer is right: it says whether the call's own command has been
   delivered at its index, except if and only if the call times out although a
   message of its own term has been delivered there already.
   */
  lemma AnswerIsExact(n: nat, steps: seq<WorldStep>, worlds: seq<World>, i: nat, k: nat)
    requires WorldExecution(n, steps, worlds) && i < |steps| && Sized(worlds[i])
    requires k < |worlds[i].calls| && Returns(worlds[i].calls[k], k, steps[i])
    ensures k < |worlds[i + 1].calls| && worlds[i + 1].calls[k].outcome.Returned?
    ensures var w, c := worlds[i], worlds[i].calls[k];
            (worlds[i + 1].calls[k].outcome.ok <==> OwnDelivered(w, c)) <==>
              !(steps[i].Expire? && OwnTermDelivered(w, c))
  {
    RunIsOk(n, steps, worlds, i);
    assert CallOk(worlds[i], worlds[i].calls[k]);
    TermIdentifiesCommand(worlds[i], k);
    assert worlds[i + 1] == WorldDo(worlds[i], steps[i]);
  }

  /** Two nodes never deliver differently at an index; w and w' are moments of one run with a common future. */
  lemma DeliveriesAgree(c1: Cluster, c2: Cluster, c: Cluster, a: int, b: int, i: int)
    requires Inv(c1) && Inv(c2) && Inv(c) && Later(c1, c) && Later(c2, c) && InRange(c1, a) && InRange(c2, b)
    requires 0 <= i < |c1.hist.delivered[a]| && i < |c2.hist.delivered[b]|
    ensures c1.hist.delivered[a][i] == c2.hist.delivered[b][i]
  {
    DeliveredIndex(c1, a, i);
    DeliveredIndex(c2, b, i);
    CommittedEntriesAgree(c1, c2, c, a, b, i);
  }

  /** Two moments of a run of the world and its end. */
  lemma WorldsHaveFuture(n: nat, steps: seq<WorldStep>, worlds: seq<World>, i: nat, j: nat)
    requires WorldExecution(n, steps, worlds) && i < |worlds| && j < |worlds|
    ensures var w := worlds[|steps|];
            && WorldOk(worlds[i]) && WorldOk(worlds[j]) && WorldOk(w)
            && WorldLater(worlds[i], w) && WorldLater(worlds[j], w)
  {
    WorldRunIsLater(n, steps, worlds, i, |steps|);
    WorldRunIsLater(n, steps, worlds, j, |steps|);
  }

  /**
   A call that is woken with another term is right to answer false for good: its
   own command is never delivered, by any node, at any position, at any moment of
   the run, before or after.
   */
  lemma OverwrittenIsNeverDelivered(n: nat, steps: seq<WorldStep>, worlds: seq<World>, i: nat, j: nat, k: nat, b: int, q: int)
    requires WorldExecution(n, steps, worlds) && i < |worlds| && j < |worlds| && Sized(worlds[j])
    requires k < |worlds[i].calls| && worlds[i].calls[k].closed && worlds[i].calls[k].opTerm != worlds[i].calls[k].term
    requires InRange(worlds[j].raft, b) && 0 <= q < |worlds[j].raft.hist.delivered[b]|
    ensures var c := worlds[i].calls[k];
            worlds[j].raft.hist.delivered[b][q] != ApplyMsg(c.index, c.term, c.command)
  {
    WorldsHaveFuture(n, steps, worlds, i, j);
    var w, w', c := worlds[i], worlds[j], worlds[i].calls[k];
    assert CallOk(w, c);
    DeliveredIndex(w'.raft, b, q);
    if q == c.index - 1 {
      DeliveriesAgree(w.raft, w'.raft, worlds[|steps|].raft, c.node, b, q);
    }
  }

  /** A majority of the nodes have the entry in their logs. */
  ghost predicate InMajority(c: Cluster, e: LogEntry) {
    exists copies: set<int> {:trigger |copies|} ::
      |copies| >= Quorum(|c.nodes|) && forall p :: p in copies ==> InRange(c, p) && InLog(c.nodes[p].log, e)
  }

  lemma AcknowledgedStaysIn(w: World, w': World, k: nat, b: int)
    requires WorldOk(w) && WorldOk(w') && WorldLater(w, w')
    requires k < |w.calls| && w.calls[k].outcome == Returned(true) && InRange(w'.raft, b)
    ensures var c, s := w.calls[k], w'.raft.nodes[b];
            && (s.role == Leader && s.currentTerm >= w.raft.nodes[c.node].currentTerm ==> InLog(s.log, EntryOf(c)))
            && (s.commitIndex >= c.index ==> InLog(s.log, EntryOf(c)))
  {
    var c, s := w.calls[k], w'.raft.nodes[b];
    AcknowledgedWasDelivered(w, k);
    LaterIsReflexive(w'.raft);
    if s.role == Leader && s.currentTerm >= w.raft.nodes[c.node].currentTerm {
      LeaderOfTermHoldsCommitted(w.raft, w'.raft, c.node, b);
      var acker := w.raft.nodes[c.node];
      assert acker.log[..acker.commitIndex][c.index - 1] == EntryOf(c);
    }
    if s.commitIndex >= c.index {
      CommittedEntriesAgree(w.raft, w'.raft, w'.raft, c.node, b, c.index - 1);
    }
  }

  lemma AcknowledgedStaysInMajority(w: World, w': World, k: nat)
    requires WorldOk(w) && WorldOk(w') && WorldLater(w, w')
    requires k < |w.calls| && w.calls[k].outcome == Returned(true)
    ensures InMajority(w'.raft, EntryOf(w.calls[k]))
  {
    var c := w.calls[k];
    AcknowledgedWasDelivered(w, k);
    var acker := w.raft.nodes[c.node];
    var copies := CommittedIsHeldByMajority(w.raft, w'.raft, c.node);
    assert acker.log[..acker.commitIndex][c.index - 1] == EntryOf(c);
    assert forall p :: p in copies ==> InRange(w'.raft, p) && InLog(w'.raft.nodes[p].log, EntryOf(c));
  }

  /**
   Once a call has returned true, its entry is committed where it was made, and
   at that and every later moment it is in the logs of a majority, in the log of
   every leader of the acknowledging node's term or a later one, and of every
   node that commits its index. The outcome itself is final.
   */
  lemma AcknowledgedIsNeverLost(n: nat, steps: seq<WorldStep>, worlds: seq<World>, i: nat, j: nat, k: nat, b: int)
    requires WorldExecution(n, steps, worlds) && i <= j < |worlds|
    requires k < |worlds[i].calls| && worlds[i].calls[k].outcome == Returned(true)
    requires InRange(worlds[j].raft, b)
    ensures k < |worlds[j].calls| && worlds[j].calls[k].outcome == Returned(true)
    ensures InRange(worlds[i].raft, worlds[i].calls[k].node)
    ensures InMajority(worlds[j].raft, EntryOf(worlds[i].calls[k]))
    ensures var c, s := worlds[i].calls[k], worlds[j].raft.nodes[b];
            var acker := worlds[i].raft.nodes[c.node];
            && InLog(acker.log, EntryOf(c)) && c.index <= acker.commitIndex
            && (s.role == Leader && s.currentTerm >= acker.currentTerm ==> InLog(s.log, EntryOf(c)))
            && (s.commitIndex >= c.index ==> InLog(s.log, EntryOf(c)))
  {
    WorldRunIsLater(n, steps, worlds, i, j);
    assert CallLater(worlds[i].calls[k], worlds[j].calls[k]);
    AcknowledgedWasDelivered(worlds[i], k);
    AcknowledgedStaysIn(worlds[i], worlds[j], k, b);
    AcknowledgedStaysInMajority(worlds[i], worlds[j], k);
  }

  // ---- Replica agreement ----

  lemma SameDelivery(c: Cluster, a: int, b: int, k: nat)
    requires Inv(c) && InRange(c, a) && InRange(c, b)
    requires k <= |c.hist.delivered[a]| && k <= |c.hist.delivered[b]|
    ensures c.hist.delivered[a][..k] == c.hist.delivered[b][..k]
  {
    LaterIsReflexive(c);
    forall i | 0 <= i < k
      ensures c.hist.delivered[a][i] == c.hist.delivered[b][i]
    {
      DeliveredIndex(c, a, i);
      DeliveredIndex(c, b, i);
      CommittedEntriesAgree(c, c, c, a, b, i);
    }
  }

  /**
   Of any two brokers, the one that has applied no more than the other holds a
   prefix of the other's commit order, a part of its tasks with the same payloads
   and a subset of its completions; if they have applied equally much they hold
   exactly the same facts.
   */
  lemma ReplicasAgree(n: nat, steps: seq<WorldStep>, worlds: seq<World>, i: nat, a: int, b: int)
    requires WorldExecution(n, steps, worlds) && i < |worlds| && Sized(worlds[i])
    requires InRange(worlds[i].raft, a) && InRange(worlds[i].raft, b)
    requires worlds[i].consumed[a] <= worlds[i].consumed[b]
    ensures var x, y := worlds[i].facts[a], worlds[i].facts[b];
            && x.order <= y.order
            && KeepsTasks(x, y)
            && x.done <= y.done
            && (worlds[i].consumed[a] == worlds[i].consumed[b] ==> x == y)
  {
    RunIsOk(n, steps, worlds, i);
    var w := worlds[i];
    assert FoldOk(w, a) && FoldOk(w, b);
    var k, l, out := w.consumed[a], w.consumed[b], w.raft.hist.delivered;
    SameDelivery(w.raft, a, b, k);
    assert out[b][..l][..k] == out[b][..k] == out[a][..k];
    assert Decoded(out[b][..l])[..k] == Decoded(out[b][..k]);
    FoldGrows(Decoded(out[b][..l]), k);
  }

  /** Every broker's facts are exactly the fold of the messages its node has delivered and it has read. */
  lemma FactsAreTheFold(n: nat, steps: seq<WorldStep>, worlds: seq<World>, i: nat, a: int)
    requires WorldExecution(n, steps, worlds) && i < |worlds| && Sized(worlds[i]) && InRange(worlds[i].raft, a)
    ensures worlds[i].consumed[a] <= |worlds[i].raft.hist.delivered[a]|
    ensures worlds[i].facts[a] == FactsOf(worlds[i].raft.hist.delivered[a][..worlds[i].consumed[a]])
  {
    RunIsOk(n, steps, worlds, i);
    assert FoldOk(worlds[i], a);
  }

  // ---- An acknowledged task is never lost ----

  /** The commands that the broker of node b has applied. */
  ghost function AppliedBy(w: World, b: int): seq<Command>
    requires WorldOk(w) && InRange(w.raft, b)
  {
    assert FoldOk(w, b);
    Decoded(w.raft.hist.delivered[b][..w.consumed[b]])
  }

  /** The commands in the part of node v's log before index i, as v has delivered them. */
  ghost function Before(c: Cluster, v: int, i: int): seq<Command>
    requires 0 <= v < |c.hist.delivered|
  {
    if 1 <= i <= |c.hist.delivered[v]| then Decoded(c.hist.delivered[v][..i - 1]) else []
  }

  lemma SameDeliveryBefore(c1: Cluster, c2: Cluster, a: int, b: int, i: int)
    requires Inv(c1) && Inv(c2) && Later(c1, c2) && InRange(c1, a) && InRange(c2, b)
    requires 1 <= i <= |c1.hist.delivered[a]| && i <= |c2.hist.delivered[b]|
    ensures c1.hist.delivered[a][..i] == c2.hist.delivered[b][..i]
  {
    LaterIsReflexive(c2);
    forall q | 0 <= q < i
      ensures c1.hist.delivered[a][q] == c2.hist.delivered[b][q]
    {
      DeliveriesAgree(c1, c2, c2, a, b, q);
    }
  }

  /** A broker that has applied up to an acknowledged index has applied the acknowledged command there, after the same commands. */
  lemma AcknowledgedIsApplied(w: World, w': World, k: nat, b: int, command: Command)
    requires WorldOk(w) && WorldOk(w') && WorldLater(w, w') && InRange(w'.raft, b)
    requires k < |w.calls| && w.calls[k].outcome == Returned(true) && w'.consumed[b] >= w.calls[k].index
    requires DecodeCommand(w.calls[k].command) == command
    ensures var c, cs := w.calls[k], AppliedBy(w', b);
            && w'.facts[b] == Fold(cs)
            && 1 <= c.index <= |cs| && cs[c.index - 1] == command
            && cs[..c.index - 1] == Before(w.raft, c.node, c.index)
  {
    var c := w.calls[k];
    AcknowledgedWasDelivered(w, k);
    assert FoldOk(w', b);
    SameDeliveryBefore(w.raft, w'.raft, c.node, b, c.index);
    var here, there := w'.raft.hist.delivered[b], w.raft.hist.delivered[c.node];
    assert here[c.index - 1] == here[..c.index][c.index - 1] == there[c.index - 1];
    assert here[..c.index - 1] == here[..c.index][..c.index - 1] == there[..c.index - 1];
  }

  /**
   If proposeAndWait has returned true for a submit, every broker that has applied
   up to that index, then or at any later moment, knows the task, and with this
   payload if the acknowledging node had applied no earlier submit of the same id.
   */
  lemma AcknowledgedSubmitIsRecorded(n: nat, steps: seq<WorldStep>, worlds: seq<World>, i: nat, j: nat, k: nat, b: int,
                                     id: string, data: seq<byte>)
    requires WorldExecution(n, steps, worlds) && i <= j < |worlds| && Sized(worlds[i])
    requires k < |worlds[i].calls| && worlds[i].calls[k].outcome == Returned(true)
    requires DecodeCommand(worlds[i].calls[k].command) == Command(SUBMIT, id, data)
    requires Sized(worlds[j]) && InRange(worlds[j].raft, b)
    requires worlds[j].consumed[b] >= worlds[i].calls[k].index
    ensures id in worlds[j].facts[b].submitted
    ensures NoneNames(Before(worlds[i].raft, worlds[i].calls[k].node, worlds[i].calls[k].index), SUBMIT, id) ==>
              worlds[j].facts[b].submitted[id] == data
  {
    WorldRunIsLater(n, steps, worlds, i, j);
    AcknowledgedIsApplied(worlds[i], worlds[j], k, b, Command(SUBMIT, id, data));
    var c, cs := worlds[i].calls[k], AppliedBy(worlds[j], b);
    FirstSubmitWins(cs, c.index - 1, id);
  }

  /**
   If it has returned true for a completion, every such broker has the task done,
   and with this error text as long as it has applied no later completion of it.
   */
  lemma AcknowledgedCompleteIsRecorded(n: nat, steps: seq<WorldStep>, worlds: seq<World>, i: nat, j: nat, k: nat, b: int,
                                       id: string, data: seq<byte>)
    requires WorldExecution(n, steps, worlds) && i <= j < |worlds|
    requires k < |worlds[i].calls| && worlds[i].calls[k].outcome == Returned(true)
    requires DecodeCommand(worlds[i].calls[k].command) == Command(COMPLETE, id, data)
    requires Sized(worlds[j]) && InRange(worlds[j].raft, b)
    requires worlds[i].calls[k].index <= worlds[j].consumed[b]
    ensures 0 <= worlds[i].calls[k].index && worlds[j].consumed[b] <= |worlds[j].raft.hist.delivered[b]|
    ensures id in worlds[j].facts[b].done && id in worlds[j].facts[b].errors
    ensures NoneNames(Decoded(worlds[j].raft.hist.delivered[b][..worlds[j].consumed[b]])[worlds[i].calls[k].index..], COMPLETE, id) ==>
              worlds[j].facts[b].errors[id] == data
  {
    WorldRunIsLater(n, steps, worlds, i, j);
    AcknowledgedIsApplied(worlds[i], worlds[j], k, b, Command(COMPLETE, id, data));
    assert FoldOk(worlds[j], b);
    LastCompleteWins(AppliedBy(worlds[j], b), worlds[i].calls[k].index - 1, id);
  }

  /**
   Submit acknowledged a task, id and payload: every broker that has applied up to
   there has both. Ids without a colon that no earlier submit used, as fresh UUIDs are.
   */
  lemma AcknowledgedTaskSurvives(n: nat, steps: seq<WorldStep>, worlds: seq<World>, i: nat, j: nat, k: nat, b: int,
                                 id: string, payload: seq<byte>)
    requires WorldExecution(n, steps, worlds) && i <= j < |worlds| && Sized(worlds[i])
    requires k < |worlds[i].calls| && worlds[i].calls[k].outcome == Returned(true)
    requires worlds[i].calls[k].command == EncodeSubmit(id, payload) && Colonless(id)
    requires Sized(worlds[j]) && InRange(worlds[j].raft, b)
    requires worlds[j].consumed[b] >= worlds[i].calls[k].index
    ensures id in worlds[j].facts[b].submitted
    ensures NoneNames(Before(worlds[i].raft, worlds[i].calls[k].node, worlds[i].calls[k].index), SUBMIT, id) ==>
              worlds[j].facts[b].submitted[id] == payload
  {
    SubmitDecodes(id, payload);
    AcknowledgedSubmitIsRecorded(n, steps, worlds, i, j, k, b, id, payload);
  }

  // ---- Calls that can no longer be woken ----

  /** A call whose index has been applied before it got to register can no longer be woken. */
  ghost predicate Missed(w: World, k: nat)
    requires Sized(w) && k < |w.calls|
  {
    var c := w.calls[k];
    !c.closed && c.outcome != Returned(true) && 1 <= c.index <= w.consumed[c.node]
  }

  lemma MissedStays(w: World, step: WorldStep, k: nat)
    requires WorldOk(w) && k < |w.calls| && Missed(w, k)
    ensures k < |WorldDo(w, step).calls| && Sized(WorldDo(w, step)) && Missed(WorldDo(w, step), k)
  {
    WorldStepKeeps(w, step);
    if step.Consume? && InRange(w.raft, step.v) && w.consumed[step.v] < |w.raft.hist.delivered[step.v]| {
      var v := step.v;
      DeliveredIndex(w.raft, v, w.consumed[v]);
      var i := w.raft.hist.delivered[v][w.consumed[v]].index;
      if i in w.pending[v] {
        assert SlotOk(w, v, i);
      }
    }
  }

  /** It ends with false, although its entry may well be committed: registration after Start comes too late. */
  lemma {:induction false} MissedCallsFail(n: nat, steps: seq<WorldStep>, worlds: seq<World>, i: nat, j: nat, k: nat)
    requires WorldExecution(n, steps, worlds) && i <= j < |worlds|
    requires Sized(worlds[i]) && k < |worlds[i].calls| && Missed(worlds[i], k)
    ensures Sized(worlds[j]) && k < |worlds[j].calls| && Missed(worlds[j], k)
    ensures worlds[j].calls[k].outcome != Returned(true)
    decreases j
  {
    if i < j {
      MissedCallsFail(n, steps, worlds, i, j - 1, k);
      RunIsOk(n, steps, worlds, j - 1);
      MissedStays(worlds[j - 1], steps[j - 1], k);
    }
  }
}
