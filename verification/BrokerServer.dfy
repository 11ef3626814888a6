/**
 The imperative broker of broker/main.go: maps and lists updated in place under
 the mutex. Every method is one critical section, proved to compute the
 function of TaskState.dfy, plus what it does to the table of blocked callers.
 */
module BrokerServer {
  import opened RaftNode
  import opened Codec
  import opened TaskState

  /** A blocked Submit or Complete; `closed` stands for its closed channel. */
  class PendingOp {
    var term: int
    var closed: bool

    constructor (term: int)
      ensures this.term == term && !closed
    {
      this.term, closed := term, false;
    }
  }

  class BrokerServer {
    var submitted: map<string, seq<byte>>
    var submittedOrder: seq<string>
    var done: map<string, bool>
    var errors: map<string, seq<byte>>
    var inflight: map<string, InFlight>
    var wasLeader: bool
    var pendingOps: map<int, PendingOp>

    ghost predicate Valid()
      reads this
    {
      forall id :: id in done ==> done[id]
    }

    ghost function State(): Broker
      reads this
    {
      Broker(Facts(submitted, submittedOrder, done.Keys, errors), inflight, wasLeader)
    }

    constructor ()
      ensures Valid() && State() == INIT_BROKER && pendingOps == map[]
    {
      submitted, submittedOrder, done, errors := map[], [], map[], map[];
      inflight, wasLeader, pendingOps := map[], false, map[];
    }

    /** The switch of the apply loop. */
    method ApplyDecoded(c: Command)
      requires Valid()
      modifies this`submitted, this`submittedOrder, this`done, this`errors, this`inflight
      ensures Valid() && State() == OnCommand(old(State()), c)
    {
      if c.op == SUBMIT {
        if c.id !in submitted {
          submitted := submitted[c.id := c.data];
          submittedOrder := submittedOrder + [c.id];
        }
      } else if c.op == COMPLETE {
        done := done[c.id := true];
        errors := errors[c.id := c.data];
        inflight := inflight - {c.id};
      }
    }

    /** One round of the apply loop: fold the command in, then wake the caller waiting at this index. */
    method Apply(msg: ApplyMsg)
      requires Valid()
      modifies this, (if msg.index in pendingOps then {pendingOps[msg.index]} else {})
      ensures Valid() && State() == OnApply(old(State()), msg)
      ensures pendingOps == old(pendingOps) - {msg.index}
      ensures msg.index in old(pendingOps) ==>
                old(pendingOps)[msg.index].closed && old(pendingOps)[msg.index].term == msg.term
    {
      ApplyDecoded(DecodeCommand(msg.command));
      if msg.index in pendingOps {
        var p := pendingOps[msg.index];
        p.term := msg.term;
        pendingOps := pendingOps - {msg.index};
        p.closed := true;
      }
    }

    /** The registration in proposeAndWait, after Start has returned (index, term). */
    method Register(index: int, term: int) returns (op: PendingOp)
      requires Valid()
      modifies this`pendingOps
      ensures fresh(op) && op.term == term && !op.closed
      ensures pendingOps == old(pendingOps)[index := op]
      ensures Valid() && State() == old(State())
    {
      op := new PendingOp(term);
      pendingOps := pendingOps[index := op];
    }

    /** The timeout branch of proposeAndWait: it clears the slot, whoever owns it by then. */
    method Expire(index: int)
      requires Valid()
      modifies this`pendingOps
      ensures pendingOps == old(pendingOps) - {index}
      ensures Valid() && State() == old(State())
    {
      pendingOps := pendingOps - {index};
    }

    /** Position i of the commit order can be handed out. */
    predicate Free(i: int)
      reads this
    {
      0 <= i < |submittedOrder| && submittedOrder[i] !in done && submittedOrder[i] !in inflight
    }

    method Poll(worker: string, now: int) returns (task: Option<Task>)
      requires Valid()
      modifies this`inflight
      ensures Valid() && (State(), task) == OnPoll(old(State()), worker, now)
      ensures task.None? ==> inflight == old(inflight) && forall i :: !old(Free(i))
      ensures task.Some? ==>
                exists i :: old(Free(i)) && submittedOrder[i] == task.value.id && (forall j :: 0 <= j < i ==> !old(Free(j)))
      ensures task.Some? ==> inflight == old(inflight)[task.value.id := InFlight(task.value, worker, now)]
    {
      ghost var s := State();
      assert submittedOrder[0..] == submittedOrder;
      for i := 0 to |submittedOrder|
        invariant State() == s
        invariant forall j :: 0 <= j < i ==> !Free(j)
        invariant Available(s) == AvailableIn(s, submittedOrder[i..])
      {
        var id := submittedOrder[i];
        assert submittedOrder[i..][0] == id && submittedOrder[i..][1..] == submittedOrder[i + 1..];
        if id in done && done[id] {
          continue;
        }
        if id in inflight {
          continue;
        }
        assert Free(i);
        var t := Task(id, if id in submitted then submitted[id] else []);
        inflight := inflight[id := InFlight(t, worker, now)];
        return Some(t);
      }
      assert submittedOrder[|submittedOrder|..] == [];
      return None;
    }

    method GetResult(id: string) returns (isDone: bool, error: seq<byte>)
      requires Valid()
      ensures isDone <==> id in State().facts.done
      ensures error == if isDone && id in State().facts.errors then State().facts.errors[id] else []
    {
      if !(id in done && done[id]) {
        return false, [];
      }
      return true, if id in errors then errors[id] else [];
    }

    method Heartbeat(id: string, now: int)
      requires Valid()
      modifies this`inflight
      ensures Valid() && State() == OnHeartbeat(old(State()), id, now)
    {
      if id in inflight {
        inflight := inflight[id := inflight[id].(lastHeartbeat := now)];
      }
    }

    /** The scan visits the in-flight tasks in no particular order and reads the clock for each. */
    method CheckStalledTasks(clock: string -> int)
      requires Valid()
      modifies this`inflight
      ensures Valid() && State() == OnScan(old(State()), clock)
      ensures forall id :: id in inflight <==>
                id in old(inflight) && clock(id) - old(inflight)[id].lastHeartbeat <= TASK_TIMEOUT
    {
      ghost var before := inflight;
      var left := inflight.Keys;
      while left != {}
        invariant left <= before.Keys
        invariant forall id :: id in inflight <==>
                    id in before && (id in left || clock(id) - before[id].lastHeartbeat <= TASK_TIMEOUT)
        invariant forall id :: id in inflight ==> inflight[id] == before[id]
        decreases left
      {
        var id :| id in left;
        if clock(id) - inflight[id].lastHeartbeat > TASK_TIMEOUT {
          inflight := inflight - {id};
        }
        left := left - {id};
      }
      assert inflight == OnScan(old(State()), clock).inflight;
    }

    method RefreshLeaderState(isLeader: bool) returns (r: bool)
      requires Valid()
      modifies this`inflight, this`wasLeader
      ensures Valid() && State() == OnRefresh(old(State()), isLeader)
      ensures r == isLeader == wasLeader
      ensures inflight == if isLeader && !old(wasLeader) then map[] else old(inflight)
    {
      if isLeader && !wasLeader {
        inflight := map[];
      }
      wasLeader := isLeader;
      return isLeader;
    }
  }
}
