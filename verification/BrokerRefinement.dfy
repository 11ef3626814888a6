/**
 The broker objects of BrokerServer.dfy behave as the world of
 Acknowledgement.dfy says: node v's table of PendingOp objects mirrors the slots
 and calls of the world, and each critical section of broker/main.go takes a
 mirror of the world before the step to a mirror of the world after it.
 */
module BrokerRefinement {
  import opened RaftNode
  import opened RaftCluster
  import opened TaskState
  import opened BrokerServer
  import opened Acknowledgement

  /** The PendingOp of each registered call of the node. */
  type Ops = map<int, PendingOp>

  /** The registered calls of v have distinct objects that hold their term and channel state. */
  ghost predicate OpsMirror(ops: Ops, calls: seq<Call>, v: int)
    reads ops.Values
  {
    && (forall k {:trigger k in ops} :: k in ops <==> 0 <= k < |calls| && calls[k].node == v && calls[k].registered)
    && (forall k {:trigger ops[k]} :: k in ops ==> ops[k].term == calls[k].opTerm && ops[k].closed == calls[k].closed)
    && (forall k, l {:trigger ops[k], ops[l]} :: k in ops && l in ops && ops[k] == ops[l] ==> k == l)
  }

  /** The table of blocked callers holds the objects of the calls in the slots. */
  ghost predicate SlotsMirror(table: map<int, PendingOp>, ops: Ops, slots: map<int, int>) {
    && table.Keys == slots.Keys
    && forall i {:trigger table[i]} {:trigger slots[i]} :: i in slots ==> slots[i] in ops && table[i] == ops[slots[i]]
  }

  ghost predicate Mirrors(b: BrokerServer, ops: Ops, w: World, v: int)
    reads b, ops.Values
  {
    && Sized(w) && InRange(w.raft, v) && b.Valid()
    && b.State().facts == w.facts[v]
    && OpsMirror(ops, w.calls, v)
    && SlotsMirror(b.pendingOps, ops, w.pending[v])
  }

  /** A new broker mirrors the initial world. */
  method Boot(n: nat, ghost v: int) returns (b: BrokerServer)
    requires 0 <= v < n
    ensures Mirrors(b, map[], InitWorld(n), v)
  {
    b := new BrokerServer();
  }

  /** proposeAndWait registers call k. */
  method Register(b: BrokerServer, index: int, term: int, ghost w: World, ghost ops: Ops, ghost k: nat)
      returns (op: PendingOp, ghost ops': Ops)
    requires WorldOk(w) && k < |w.calls| && Mirrors(b, ops, w, w.calls[k].node)
    requires index == w.calls[k].index && term == w.calls[k].term
    requires !w.calls[k].registered && w.calls[k].outcome.Running?
    modifies b`pendingOps
    ensures Mirrors(b, ops', DoRegister(w, k), w.calls[k].node)
    ensures ops' == ops[k := op]
  {
    assert CallOk(w, w.calls[k]);
    op := b.Register(index, term);
    ops' := ops[k := op];
  }

  /** The apply loop takes the next message of node v. */
  method Apply(b: BrokerServer, msg: ApplyMsg, ghost w: World, ghost ops: Ops, ghost v: int)
    requires Mirrors(b, ops, w, v)
    requires w.consumed[v] < |w.raft.hist.delivered[v]| && msg == w.raft.hist.delivered[v][w.consumed[v]]
    modifies b, ops.Values
    ensures Mirrors(b, ops, DoConsume(w, v), v)
  {
    b.Apply(msg);
  }

  /** The select of call k takes the time-out. */
  method Expire(b: BrokerServer, index: int, ghost w: World, ghost ops: Ops, ghost k: nat)
    requires k < |w.calls| && Mirrors(b, ops, w, w.calls[k].node) && index == w.calls[k].index
    requires w.calls[k].registered && w.calls[k].outcome.Running?
    modifies b`pendingOps
    ensures Mirrors(b, ops, DoExpire(w, k), w.calls[k].node)
  {
    b.Expire(index);
  }

  /** The select of call k takes the closed channel; the answer compares the two terms. */
  method Wake(b: BrokerServer, op: PendingOp, term: int, ghost w: World, ghost ops: Ops, ghost k: nat)
      returns (ok: bool)
    requires k < |w.calls| && Mirrors(b, ops, w, w.calls[k].node)
    requires k in ops && op == ops[k] && op.closed && term == w.calls[k].term
    requires w.calls[k].outcome.Running?
    ensures DoWake(w, k).calls[k].outcome == Returned(ok)
    ensures Mirrors(b, ops, DoWake(w, k), w.calls[k].node)
  {
    ok := op.term == term;
  }

  /** The step is not one of node v's broker. */
  predicate Elsewhere(w: World, step: WorldStep, v: int) {
    match step
    case RaftStep(_) => true
    case Begin(_, _) => true
    case Consume(u) => u != v
    case Register(k) => k < |w.calls| ==> w.calls[k].node != v
    case Wake(k) => k < |w.calls| ==> w.calls[k].node != v
    case Expire(k) => k < |w.calls| ==> w.calls[k].node != v
  }

  /** As far as node v's broker is concerned, w' is w; new calls have not registered. */
  ghost predicate SameFor(w: World, w': World, v: int)
    requires Sized(w) && InRange(w.raft, v) && Sized(w') && InRange(w'.raft, v)
  {
    && w'.facts[v] == w.facts[v] && w'.pending[v] == w.pending[v]
    && |w.calls| <= |w'.calls|
    && (forall k {:trigger w'.calls[k]} :: 0 <= k < |w.calls| ==>
          w'.calls[k].node == w.calls[k].node && (w.calls[k].node == v ==> w'.calls[k] == w.calls[k]))
    && (forall k {:trigger w'.calls[k]} :: |w.calls| <= k < |w'.calls| ==> !w'.calls[k].registered)
  }

  lemma ElsewhereIsSame(w: World, step: WorldStep, v: int)
    requires WorldOk(w) && InRange(w.raft, v) && Elsewhere(w, step, v) && Sized(WorldDo(w, step))
    ensures InRange(WorldDo(w, step).raft, v) && SameFor(w, WorldDo(w, step), v)
  {
    if step.Consume? && InRange(w.raft, step.v) && w.consumed[step.v] < |w.raft.hist.delivered[step.v]| {
      var i := w.raft.hist.delivered[step.v][w.consumed[step.v]].index;
      assert i in w.pending[step.v] ==> SlotOk(w, step.v, i);
    }
  }

  lemma SameKeepsMirror(b: BrokerServer, ops: Ops, w: World, w': World, v: int)
    requires Mirrors(b, ops, w, v) && Sized(w') && InRange(w'.raft, v) && SameFor(w, w', v)
    ensures Mirrors(b, ops, w', v)
  {
    forall k
      ensures k in ops <==> 0 <= k < |w'.calls| && w'.calls[k].node == v && w'.calls[k].registered
      ensures k in ops ==> w'.calls[k] == w.calls[k]
    {
    }
  }

  /** Steps of the protocol, new calls and steps of other brokers leave the mirror as it is. */
  lemma ElsewhereKeepsMirror(b: BrokerServer, ops: Ops, w: World, step: WorldStep, v: int)
    requires WorldOk(w) && Mirrors(b, ops, w, v) && Elsewhere(w, step, v)
    ensures Sized(WorldDo(w, step)) && Mirrors(b, ops, WorldDo(w, step), v)
  {
    WorldStepKeeps(w, step);
    ElsewhereIsSame(w, step, v);
    SameKeepsMirror(b, ops, w, WorldDo(w, step), v);
  }
}
