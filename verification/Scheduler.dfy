/**
 Runs of one broker node's task table under every interleaving of its critical
 sections: applied commands, leadership refreshes, polls, heartbeats and stall
 scans.
 */
module Scheduler {
  import opened RaftNode
  import opened Codec
  import opened TaskState
  import opened Majority

  datatype Event =
    | Applied(msg: ApplyMsg)
    | Refreshed(isLeader: bool)
    | Polled(worker: string, now: int)
    | HeartBeat(id: string, now: int)
    | Scanned(clock: string -> int)

  function Next(s: Broker, e: Event): Broker {
    match e
    case Applied(msg) => OnApply(s, msg)
    case Refreshed(isLeader) => OnRefresh(s, isLeader)
    case Polled(worker, now) => OnPoll(s, worker, now).0
    case HeartBeat(id, now) => OnHeartbeat(s, id, now)
    case Scanned(clock) => OnScan(s, clock)
  }

  ghost predicate Distinct(order: seq<string>) {
    forall i, j :: 0 <= i < j < |order| ==> order[i] != order[j]
  }

  /** No id twice in the commit order, and it lists exactly the submitted tasks; in-flight tasks are submitted and not done. */
  ghost predicate Conserved(s: Broker) {
    && Distinct(s.facts.order)
    && (forall id :: id in s.facts.order <==> id in s.facts.submitted)
    && (forall id :: id in s.inflight ==> id in s.facts.submitted && id !in s.facts.done)
    && (forall id :: id in s.inflight ==> s.inflight[id].task == Task(id, s.facts.submitted[id]))
  }

  lemma NextConserves(s: Broker, e: Event)
    requires Conserved(s)
    ensures Conserved(Next(s, e))
  {
    if e.Polled? && Available(s) != [] {
      AvailableIsFromOrder(s, s.facts.order, 0);
    }
  }

  /** states[i] is the table after the first i events. */
  ghost predicate IsRun(events: seq<Event>, states: seq<Broker>) {
    && |states| == |events| + 1
    && states[0] == INIT_BROKER
    && forall i {:trigger events[i]} :: 0 <= i < |events| ==> states[i + 1] == Next(states[i], events[i])
  }

  lemma {:induction false} RunConserves(events: seq<Event>, states: seq<Broker>, i: nat)
    requires IsRun(events, states) && i <= |events|
    ensures Conserved(states[i])
  {
    if i > 0 {
      RunConserves(events, states, i - 1);
      NextConserves(states[i - 1], events[i - 1]);
    }
  }

  // ---- Conservation ----

  lemma {:induction false} AvailableIsExact(s: Broker, order: seq<string>, id: string)
    ensures id in AvailableIn(s, order) <==> id in order && IsAvailable(s, id)
  {
    if order != [] {
      AvailableIsExact(s, order[1..], id);
      assert order == [order[0]] + order[1..];
    }
  }

  /** In every reachable state each submitted task is exactly one of done, in flight and available. */
  lemma TasksArePartitioned(events: seq<Event>, states: seq<Broker>, i: nat, id: string)
    requires IsRun(events, states) && i <= |events|
    ensures var s := states[i];
            && (id in s.facts.submitted <==> id in s.facts.order)
            && (id in s.facts.order <==>
                  || (id in s.facts.order && id in s.facts.done && id !in s.inflight && id !in Available(s))
                  || (id !in s.facts.done && id in s.inflight && id !in Available(s))
                  || (id !in s.facts.done && id !in s.inflight && id in Available(s)))
            && multiset(s.facts.order)[id] <= 1
  {
    var s := states[i];
    RunConserves(events, states, i);
    AvailableIsExact(s, s.facts.order, id);
    DistinctMeansOnce(s.facts.order, id);
  }

  lemma {:induction false} DistinctMeansOnce(order: seq<string>, id: string)
    requires Distinct(order)
    ensures multiset(order)[id] <= 1
  {
    if order != [] {
      var tail := order[1..];
      DistinctMeansOnce(tail, id);
      assert order == [order[0]] + tail;
      if order[0] == id {
        assert id !in tail;
      }
    }
  }

  // ---- Polls hand out in commit order ----

  /** Position i of the commit order holds a task that is neither done nor in flight. */
  ghost predicate FreeAt(s: Broker, i: int) {
    0 <= i < |s.facts.order| && s.facts.order[i] !in s.facts.done && s.facts.order[i] !in s.inflight
  }

  /** The free positions before i. */
  ghost function FreeBefore(s: Broker, i: int): set<int> {
    set j | 0 <= j < i && FreeAt(s, j)
  }

  ghost function AllFree(s: Broker): set<int> {
    FreeBefore(s, |s.facts.order|)
  }

  /** The first of the listed tasks that can be handed out stands at some position, with none such before it. */
  lemma {:induction false} FirstAvailable(s: Broker, order: seq<string>) returns (i: nat)
    requires AvailableIn(s, order) != []
    ensures i < |order| && order[i] == AvailableIn(s, order)[0] && order[i] !in s.facts.done && order[i] !in s.inflight
    ensures forall j :: 0 <= j < i ==> order[j] in s.facts.done || order[j] in s.inflight
  {
    if IsAvailable(s, order[0]) {
      i := 0;
    } else {
      i := FirstAvailable(s, order[1..]);
      i := i + 1;
    }
  }

  /**
   A poll takes the first free position of the commit order, records worker and
   time, and changes nothing else; it comes back empty only if no position is free.
   */
  lemma PollTakesFirstFree(s: Broker, worker: string, now: int) returns (i: int)
    ensures var (s', task) := OnPoll(s, worker, now);
            if task.Some? then
              && FreeAt(s, i) && (forall j :: 0 <= j < i ==> !FreeAt(s, j))
              && task.value == Task(s.facts.order[i], Payload(s.facts, s.facts.order[i]))
              && s' == s.(inflight := s.inflight[s.facts.order[i] := InFlight(task.value, worker, now)])
            else
              s' == s && forall j :: !FreeAt(s, j)
  {
    i := -1;
    if Available(s) != [] {
      i := FirstAvailable(s, s.facts.order);
    } else {
      forall j
        ensures !FreeAt(s, j)
      {
        if FreeAt(s, j) {
          AvailableIsExact(s, s.facts.order, s.facts.order[j]);
        }
      }
    }
  }

  /** The results of successive polls by the given workers at the given times. */
  ghost function PollAll(s: Broker, polls: seq<(string, int)>): seq<Option<Task>>
    decreases |polls|
  {
    if polls == [] then []
    else
      var (s', task) := OnPoll(s, polls[0].0, polls[0].1);
      [task] + PollAll(s', polls[1..])
  }

  lemma {:induction false} PollAllLength(s: Broker, polls: seq<(string, int)>)
    ensures |PollAll(s, polls)| == |polls|
    decreases |polls|
  {
    if polls != [] {
      PollAllLength(OnPoll(s, polls[0].0, polls[0].1).0, polls[1..]);
    }
  }

  /** After a poll that took position i, the other free positions are free still, one fewer before each. */
  lemma PollLeavesTheRest(s: Broker, s': Broker, i: int, k: int)
    requires Distinct(s.facts.order) && FreeAt(s, i) && (forall j :: 0 <= j < i ==> !FreeAt(s, j))
    requires s'.facts == s.facts && s'.inflight.Keys == s.inflight.Keys + {s.facts.order[i]}
    ensures FreeAt(s', k) <==> FreeAt(s, k) && k != i
    ensures k > i ==> |FreeBefore(s, k)| == |FreeBefore(s', k)| + 1
  {
    if k > i {
      assert FreeBefore(s, k) == FreeBefore(s', k) + {i};
    }
  }

  /** What the k-th of a series of polls brings: the task at the position with k free ones before it. */
  ghost predicate IsKthFree(s: Broker, k: nat, task: Option<Task>, i: int) {
    if task.None? then |AllFree(s)| <= k
    else
      && FreeAt(s, i) && |FreeBefore(s, i)| == k
      && task.value == Task(s.facts.order[i], Payload(s.facts, s.facts.order[i]))
  }

  lemma {:induction false} PollsTakeInOrder(s: Broker, polls: seq<(string, int)>, k: nat) returns (i: int)
    requires Distinct(s.facts.order) && k < |polls|
    ensures |PollAll(s, polls)| == |polls|
    ensures IsKthFree(s, k, PollAll(s, polls)[k], i)
    decreases |polls|
  {
    PollAllLength(s, polls);
    var (s', task) := OnPoll(s, polls[0].0, polls[0].1);
    var first := PollTakesFirstFree(s, polls[0].0, polls[0].1);
    if k == 0 {
      i := first;
      assert task.Some? ==> FreeBefore(s, i) == {};
      assert task.None? ==> AllFree(s) == {};
    } else {
      i := PollsTakeInOrder(s', polls[1..], k - 1);
      if task.Some? {
        PollLeavesTheRest(s, s', first, i);
        PollLeavesTheRest(s, s', first, |s.facts.order|);
      } else {
        assert AllFree(s) == {};
      }
    }
  }

  /**
   On a steady leader in any run, the k-th of a series of polls hands out the
   task at the position of the commit order that has exactly k free positions
   before it, with its submitted payload, and nothing if there is no such position.
   */
  lemma PollsFollowCommitOrder(events: seq<Event>, states: seq<Broker>, n: nat, polls: seq<(string, int)>, k: nat)
      returns (i: int)
    requires IsRun(events, states) && n <= |events| && k < |polls|
    ensures |PollAll(states[n], polls)| == |polls|
    ensures var s, task := states[n], PollAll(states[n], polls)[k];
            if task.None? then |AllFree(s)| <= k
            else
              && FreeAt(s, i) && |FreeBefore(s, i)| == k
              && s.facts.order[i] in s.facts.submitted
              && task.value == Task(s.facts.order[i], s.facts.submitted[s.facts.order[i]])
  {
    RunConserves(events, states, n);
    i := PollsTakeInOrder(states[n], polls, k);
  }

  /** More free positions come before a later place. */
  lemma FreeBeforeGrows(s: Broker, i: int, j: int)
    requires FreeAt(s, i) && i < j
    ensures |FreeBefore(s, i)| < |FreeBefore(s, j)|
  {
    assert i !in FreeBefore(s, i) && i in FreeBefore(s, j);
    SubsetSize(FreeBefore(s, i) + {i}, FreeBefore(s, j));
  }

  /** Whoever is free is handed out, after as many polls as there are free positions before. */
  lemma FreeIsHandedOut(s: Broker, polls: seq<(string, int)>, i: int)
    requires Distinct(s.facts.order) && FreeAt(s, i) && |FreeBefore(s, i)| < |polls|
    ensures |PollAll(s, polls)| == |polls|
    ensures PollAll(s, polls)[|FreeBefore(s, i)|] == Some(Task(s.facts.order[i], Payload(s.facts, s.facts.order[i])))
  {
    var j := PollsTakeInOrder(s, polls, |FreeBefore(s, i)|);
    FreeBeforeGrows(s, i, |s.facts.order|);
    if j < i {
      FreeBeforeGrows(s, j, i);
    } else if i < j {
      FreeBeforeGrows(s, i, j);
    }
  }

  /** So later polls of the series hand out strictly later positions. */
  lemma LaterPollsTakeLaterPositions(s: Broker, polls: seq<(string, int)>, k: nat, l: nat) returns (i: int, j: int)
    requires Distinct(s.facts.order) && k < l < |polls|
    ensures |PollAll(s, polls)| == |polls|
    ensures var a, b := PollAll(s, polls)[k], PollAll(s, polls)[l];
            b.Some? ==>
              && a.Some? && 0 <= i < j < |s.facts.order|
              && s.facts.order[i] == a.value.id && s.facts.order[j] == b.value.id
  {
    i := PollsTakeInOrder(s, polls, k);
    j := PollsTakeInOrder(s, polls, l);
    if PollAll(s, polls)[l].Some? {
      FreeBeforeGrows(s, j, |s.facts.order|);
      if PollAll(s, polls)[k].Some? && j < i {
        FreeBeforeGrows(s, j, i);
      }
    }
  }

  // ---- Reassignment ----

  /** Event i hands out task id. */
  ghost predicate HandsOut(events: seq<Event>, states: seq<Broker>, i: nat, id: string)
    requires i < |events| == |states| - 1
  {
    events[i].Polled? &&
    var task := OnPoll(states[i], events[i].worker, events[i].now).1;
    task.Some? && task.value.id == id
  }

  /** Event i is a sign of life for id: its hand-out, or a heartbeat for it. */
  ghost predicate SignOfLife(events: seq<Event>, states: seq<Broker>, i: nat, id: string)
    requires i < |events| == |states| - 1
  {
    (events[i].HeartBeat? && events[i].id == id) || HandsOut(events, states, i, id)
  }

  predicate Timed(e: Event) {
    e.Polled? || e.HeartBeat? || e.Scanned?
  }

  /** The time at which e reads the clock on behalf of task id; only a scan reads it more than once. */
  function TimeOf(e: Event, id: string): int
    requires Timed(e)
  {
    if e.Scanned? then e.clock(id) else e.now
  }

  /** The clock does not run backwards from one event to a later one. */
  ghost predicate ClockIsMonotone(events: seq<Event>) {
    forall i, j, id, id' {:trigger TimeOf(events[i], id), TimeOf(events[j], id')} ::
      0 <= i < j < |events| && Timed(events[i]) && Timed(events[j]) ==> TimeOf(events[i], id) <= TimeOf(events[j], id')
  }

  /** Event k takes id out of flight without completing it: a became-leader wipe, or a scan after too long a silence since i. */
  ghost predicate Releases(events: seq<Event>, states: seq<Broker>, i: nat, k: nat, id: string)
    requires i < k < |events| == |states| - 1
  {
    && id in states[k].inflight && id !in states[k + 1].inflight
    && (|| Wipes(states[k], events[k])
        || (events[k].Scanned? &&
            forall x :: i <= x < k && SignOfLife(events, states, x, id) && Timed(events[x]) ==>
              events[k].clock(id) - TimeOf(events[x], id) > TASK_TIMEOUT))
  }

  ghost predicate Released(events: seq<Event>, states: seq<Broker>, i: nat, p: nat, id: string)
    requires i < p <= |events| == |states| - 1
  {
    exists k: nat :: i < k < p && Releases(events, states, i, k, id)
  }

  /** lastHeartbeat of id is the time of some event since i, and no sign of life since i is later. */
  ghost predicate LatestOnRecord(events: seq<Event>, states: seq<Broker>, i: nat, p: nat, id: string)
    requires i < p <= |events| == |states| - 1 && id in states[p].inflight
  {
    var last := states[p].inflight[id].lastHeartbeat;
    && (forall x :: i <= x < p && SignOfLife(events, states, x, id) && Timed(events[x]) ==> TimeOf(events[x], id) <= last)
    && (exists y :: i <= y < p && Timed(events[y]) && TimeOf(events[y], id) == last)
  }

  /** Since its hand-out at i, task id is done, or was released, or is in flight with its latest sign of life on record. */
  ghost predicate Tracked(events: seq<Event>, states: seq<Broker>, i: nat, p: nat, id: string)
    requires i < p <= |events| == |states| - 1
  {
    var s := states[p];
    || id in s.facts.done
    || Released(events, states, i, p, id)
    || (id in s.inflight && LatestOnRecord(events, states, i, p, id))
  }

  lemma NextKeepsDone(s: Broker, e: Event, id: string)
    requires id in s.facts.done
    ensures id in Next(s, e).facts.done
  {
  }

  predicate Wipes(s: Broker, e: Event) {
    e.Refreshed? && e.isLeader && !s.wasLeader
  }

  /** A task leaves flight only by completion, by a wipe or by a scan; else only its heartbeats touch it. */
  lemma NextOfInFlight(s: Broker, e: Event, id: string)
    requires id in s.inflight
    ensures id !in Next(s, e).inflight ==>
              || id in Next(s, e).facts.done
              || Wipes(s, e)
              || (e.Scanned? && e.clock(id) - s.inflight[id].lastHeartbeat > TASK_TIMEOUT)
    ensures id in Next(s, e).inflight ==>
              Next(s, e).inflight[id].lastHeartbeat ==
              if e.HeartBeat? && e.id == id then e.now else s.inflight[id].lastHeartbeat
    ensures e.Polled? ==> OnPoll(s, e.worker, e.now).1 == None || OnPoll(s, e.worker, e.now).1.value.id != id
  {
    if e.Polled? && Available(s) != [] {
      AvailableIsFromOrder(s, s.facts.order, 0);
    }
  }

  lemma InFlightNext(events: seq<Event>, states: seq<Broker>, i: nat, p: nat, id: string)
    requires i < p < |events| && IsRun(events, states) && ClockIsMonotone(events)
    requires id in states[p].inflight && LatestOnRecord(events, states, i, p, id)
    ensures || id in states[p + 1].facts.done
            || Releases(events, states, i, p, id)
            || (id in states[p + 1].inflight && LatestOnRecord(events, states, i, p + 1, id))
  {
    var s, e := states[p], events[p];
    var y :| i <= y < p && Timed(events[y]) && TimeOf(events[y], id) == s.inflight[id].lastHeartbeat;
    NextOfInFlight(s, e, id);
    assert Timed(e) ==> TimeOf(events[y], id) <= TimeOf(events[p], id);
  }

  lemma TrackedNext(events: seq<Event>, states: seq<Broker>, i: nat, p: nat, id: string)
    requires i < p < |events| && IsRun(events, states) && ClockIsMonotone(events) && Tracked(events, states, i, p, id)
    ensures Tracked(events, states, i, p + 1, id)
  {
    if id in states[p].facts.done {
      NextKeepsDone(states[p], events[p], id);
    } else if Released(events, states, i, p, id) {
      var k: nat :| i < k < p && Releases(events, states, i, k, id);
      assert i < k < p + 1;
    } else {
      InFlightNext(events, states, i, p, id);
      assert Releases(events, states, i, p, id) ==> Released(events, states, i, p + 1, id);
    }
  }

  lemma {:induction false} HandOutIsTracked(events: seq<Event>, states: seq<Broker>, i: nat, p: nat, id: string)
    requires i < p <= |events| && IsRun(events, states) && ClockIsMonotone(events) && HandsOut(events, states, i, id)
    ensures Tracked(events, states, i, p, id)
    decreases p
  {
    if p == i + 1 {
      assert states[p].inflight[id].lastHeartbeat == events[i].now;
    } else {
      HandOutIsTracked(events, states, i, p - 1, id);
      TrackedNext(events, states, i, p - 1, id);
    }
  }

  /** Reassignment needs a cause: a task handed out twice was released in between, by a became-leader wipe or a scan after a full timeout of silence. */
  lemma ReassignmentHasCause(events: seq<Event>, states: seq<Broker>, i: nat, j: nat, id: string)
    requires i < j < |events| && IsRun(events, states) && ClockIsMonotone(events)
    requires HandsOut(events, states, i, id) && HandsOut(events, states, j, id)
    ensures Released(events, states, i, j, id)
  {
    HandOutIsTracked(events, states, i, j, id);
    AvailableIsFromOrder(states[j], states[j].facts.order, 0);
  }

  lemma {:induction false} DoneStaysDone(events: seq<Event>, states: seq<Broker>, i: nat, j: nat, id: string)
    requires IsRun(events, states) && i <= j <= |events| && id in states[i].facts.done
    ensures id in states[j].facts.done
    decreases j
  {
    if i < j {
      DoneStaysDone(events, states, i, j - 1, id);
      NextKeepsDone(states[j - 1], events[j - 1], id);
    }
  }

  /** Once its completion is applied, a task is never handed out again. */
  lemma CompletedIsNeverHandedOut(events: seq<Event>, states: seq<Broker>, i: nat, j: nat, id: string)
    requires IsRun(events, states) && i <= j < |events| && id in states[i].facts.done
    ensures !HandsOut(events, states, j, id)
  {
    DoneStaysDone(events, states, i, j, id);
    if Available(states[j]) != [] {
      AvailableIsFromOrder(states[j], states[j].facts.order, 0);
    }
  }

  // ---- Release ----

  /** A scan leaves in flight exactly the tasks that have been heard of within the timeout, and changes nothing else. */
  lemma ScanReleasesExactly(s: Broker, clock: string -> int, id: string)
    ensures var s' := Next(s, Scanned(clock));
            && s'.facts == s.facts && s'.wasLeader == s.wasLeader
            && (id in s'.inflight <==> id in s.inflight && clock(id) - s.inflight[id].lastHeartbeat <= TASK_TIMEOUT)
            && (id in s'.inflight ==> s'.inflight[id] == s.inflight[id])
  {
  }

  /** Becoming leader releases every task; any other refresh releases none. */
  lemma RefreshReleasesExactly(s: Broker, isLeader: bool)
    ensures var s' := Next(s, Refreshed(isLeader));
            && s'.facts == s.facts && s'.wasLeader == isLeader
            && s'.inflight == if !s.wasLeader && isLeader then map[] else s.inflight
  {
  }

  /** Event x is the last sign of life for id before moment p, and what lastHeartbeat records. */
  ghost predicate LastSign(events: seq<Event>, states: seq<Broker>, p: nat, id: string, x: nat)
    requires p <= |events| == |states| - 1 && id in states[p].inflight
  {
    && x < p && SignOfLife(events, states, x, id) && Timed(events[x])
    && TimeOf(events[x], id) == states[p].inflight[id].lastHeartbeat
    && forall y {:trigger SignOfLife(events, states, y, id)} :: x < y < p ==> !SignOfLife(events, states, y, id)
  }

  /** Every task in flight has a last sign of life. */
  lemma {:induction false} InFlightHasSign(events: seq<Event>, states: seq<Broker>, p: nat, id: string) returns (x: nat)
    requires IsRun(events, states) && p <= |events| && id in states[p].inflight
    ensures LastSign(events, states, p, id, x)
    decreases p
  {
    var s, e := states[p - 1], events[p - 1];
    if id in s.inflight {
      NextOfInFlight(s, e, id);
      x := InFlightHasSign(events, states, p - 1, id);
      if e.HeartBeat? && e.id == id {
        x := p - 1;
      }
    } else {
      x := p - 1;
      NewInFlightIsHandedOut(s, e, id);
    }
  }

  /** A task comes into flight only by being handed out. */
  lemma NewInFlightIsHandedOut(s: Broker, e: Event, id: string)
    requires id !in s.inflight && id in Next(s, e).inflight
    ensures e.Polled? && OnPoll(s, e.worker, e.now).1.Some? && OnPoll(s, e.worker, e.now).1.value.id == id
    ensures Next(s, e).inflight[id].lastHeartbeat == e.now
  {
  }

  /** The task handed out at event i has shown no life up to the scan at k for more than the timeout. */
  ghost predicate SilentUntil(events: seq<Event>, states: seq<Broker>, i: nat, k: nat, id: string)
    requires i <= k < |events| == |states| - 1 && events[k].Scanned?
  {
    forall x {:trigger SignOfLife(events, states, x, id)} ::
      i <= x < k && SignOfLife(events, states, x, id) && Timed(events[x]) ==>
        events[k].clock(id) - TimeOf(events[x], id) > TASK_TIMEOUT
  }

  /** A task that was handed out and has been silent for more than the timeout is out of flight after the next scan. */
  lemma StalledIsReleased(events: seq<Event>, states: seq<Broker>, i: nat, k: nat, id: string)
    requires IsRun(events, states) && i < k < |events| && HandsOut(events, states, i, id)
    requires events[k].Scanned? && SilentUntil(events, states, i, k, id)
    ensures id !in states[k + 1].inflight
  {
    if id in states[k].inflight {
      var x := InFlightHasSign(events, states, k, id);
      assert SignOfLife(events, states, i, id);
      assert i <= x && SignOfLife(events, states, x, id);
    }
    ScanReleasesExactly(states[k], events[k].clock, id);
  }

  /** A task once handed out stays submitted. */
  lemma {:induction false} HandedOutStaysSubmitted(events: seq<Event>, states: seq<Broker>, i: nat, p: nat, id: string)
    requires IsRun(events, states) && i < p <= |events| && HandsOut(events, states, i, id)
    ensures id in states[p].facts.submitted
    decreases p
  {
    if p == i + 1 {
      RunConserves(events, states, p);
    } else {
      HandedOutStaysSubmitted(events, states, i, p - 1, id);
      assert states[p] == Next(states[p - 1], events[p - 1]);
    }
  }

  /**
   And unless it is done by then, one of the next polls hands it out again, with
   its payload: at the latest the one after as many as there are free tasks before it.
   */
  lemma StalledIsOfferedAgain(events: seq<Event>, states: seq<Broker>, i: nat, k: nat, id: string, polls: seq<(string, int)>)
      returns (q: nat)
    requires IsRun(events, states) && i < k < |events| && HandsOut(events, states, i, id)
    requires events[k].Scanned? && SilentUntil(events, states, i, k, id)
    requires id !in states[k + 1].facts.done && |polls| >= |AllFree(states[k + 1])|
    ensures id in states[k + 1].facts.submitted
    ensures q < |polls| == |PollAll(states[k + 1], polls)|
    ensures PollAll(states[k + 1], polls)[q] == Some(Task(id, states[k + 1].facts.submitted[id]))
  {
    var s := states[k + 1];
    StalledIsReleased(events, states, i, k, id);
    HandedOutStaysSubmitted(events, states, i, k + 1, id);
    RunConserves(events, states, k + 1);
    var pos :| 0 <= pos < |s.facts.order| && s.facts.order[pos] == id;
    assert FreeAt(s, pos);
    FreeBeforeGrows(s, pos, |s.facts.order|);
    q := |FreeBefore(s, pos)|;
    FreeIsHandedOut(s, polls, pos);
  }
}
