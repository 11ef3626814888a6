/**
 The state of one broker node (broker/main.go) as a value: the replicated facts
 that the apply loop folds from committed commands, and the scheduling state
 that only the leader uses. One function per critical section.
 */
module TaskState {
  import opened RaftNode
  import opened Codec

  /** Replicated state. `order` lists the ids of `submitted` in commit order. */
  datatype Facts = Facts(
    submitted: map<string, seq<byte>>, order: seq<string>,
    done: set<string>, errors: map<string, seq<byte>>)

  const NO_FACTS := Facts(map[], [], {}, map[])

  function ApplyCommand(f: Facts, c: Command): Facts {
    if c.op == SUBMIT then
      if c.id in f.submitted then f
      else f.(submitted := f.submitted[c.id := c.data], order := f.order + [c.id])
    else if c.op == COMPLETE then
      f.(done := f.done + {c.id}, errors := f.errors[c.id := c.data])
    else
      f
  }

  /** The facts after applying the given commands in order. */
  function Fold(cs: seq<Command>): Facts {
    if cs == [] then NO_FACTS else ApplyCommand(Fold(cs[..|cs| - 1]), cs[|cs| - 1])
  }

  /** The commands that the given messages carry. */
  function Decoded(msgs: seq<ApplyMsg>): (cs: seq<Command>)
    ensures |cs| == |msgs|
  {
    seq(|msgs|, i requires 0 <= i < |msgs| => DecodeCommand(msgs[i].command))
  }

  /** The facts after applying the given messages in order. */
  function FactsOf(msgs: seq<ApplyMsg>): Facts {
    Fold(Decoded(msgs))
  }

  /** Reading one more message applies its command. */
  lemma FactsOfNext(msgs: seq<ApplyMsg>, m: nat)
    requires m < |msgs|
    ensures FactsOf(msgs[..m + 1]) == ApplyCommand(FactsOf(msgs[..m]), DecodeCommand(msgs[m].command))
  {
    var cs := Decoded(msgs[..m + 1]);
    assert cs[..m] == Decoded(msgs[..m]);
  }

  /** Winning an election leaves every broker's facts as they are: the no-op decodes to nothing. */
  lemma NoopChangesNothing(f: Facts)
    ensures DecodeCommand(NOOP) == IGNORED && ApplyCommand(f, DecodeCommand(NOOP)) == f
  {
    FewColonsAreIgnored(NOOP);
  }

  datatype Task = Task(id: string, payload: seq<byte>)

  datatype InFlight = InFlight(task: Task, workerId: string, lastHeartbeat: int)

  /** TaskTimeout, in nanoseconds. */
  const TASK_TIMEOUT := 10_000_000_000

  datatype Broker = Broker(facts: Facts, inflight: map<string, InFlight>, wasLeader: bool)

  const INIT_BROKER := Broker(NO_FACTS, map[], false)

  function OnApply(s: Broker, msg: ApplyMsg): Broker {
    OnCommand(s, DecodeCommand(msg.command))
  }

  function OnCommand(s: Broker, c: Command): Broker {
    s.(facts := ApplyCommand(s.facts, c),
       inflight := if c.op == COMPLETE then s.inflight - {c.id} else s.inflight)
  }

  predicate IsAvailable(s: Broker, id: string) {
    id !in s.facts.done && id !in s.inflight
  }

  /** The ids that Poll may hand out, in commit order. */
  function AvailableIn(s: Broker, order: seq<string>): seq<string> {
    if order == [] then []
    else (if IsAvailable(s, order[0]) then [order[0]] else []) + AvailableIn(s, order[1..])
  }

  function Available(s: Broker): seq<string> {
    AvailableIn(s, s.facts.order)
  }

  /** The payload of a task; a Go map yields the empty string for a missing key. */
  function Payload(f: Facts, id: string): seq<byte> {
    if id in f.submitted then f.submitted[id] else []
  }

  /** Poll after the leadership check: the first available task, if any, goes in flight. */
  function OnPoll(s: Broker, worker: string, now: int): (Broker, Option<Task>) {
    if Available(s) == [] then (s, None)
    else
      var id := Available(s)[0];
      var task := Task(id, Payload(s.facts, id));
      (s.(inflight := s.inflight[id := InFlight(task, worker, now)]), Some(task))
  }

  lemma {:induction false} AvailableIsFromOrder(s: Broker, order: seq<string>, k: int)
    requires 0 <= k < |AvailableIn(s, order)|
    ensures AvailableIn(s, order)[k] in order && IsAvailable(s, AvailableIn(s, order)[k])
  {
    if order != [] {
      if IsAvailable(s, order[0]) {
        if k > 0 {
          AvailableIsFromOrder(s, order[1..], k - 1);
        }
      } else {
        AvailableIsFromOrder(s, order[1..], k);
      }
    }
  }

  function OnHeartbeat(s: Broker, id: string, now: int): Broker {
    if id in s.inflight
    then s.(inflight := s.inflight[id := s.inflight[id].(lastHeartbeat := now)])
    else s
  }

  /**
   The stall scan drops exactly the tasks that have been silent for more than
   TaskTimeout. It reads the clock anew for every task: `clock(id)` when it comes to id.
   */
  function OnScan(s: Broker, clock: string -> int): Broker {
    s.(inflight := map id | id in s.inflight && clock(id) - s.inflight[id].lastHeartbeat <= TASK_TIMEOUT :: s.inflight[id])
  }

  /** refreshLeaderState with the answer of GetState. */
  function OnRefresh(s: Broker, isLeader: bool): Broker {
    s.(inflight := if isLeader && !s.wasLeader then map[] else s.inflight, wasLeader := isLeader)
  }
}
