/**
 The Raft log of internal/log/log.go: a mutable, 1-indexed sequence of entries
 whose slot 0 holds a sentinel.

 The protocol modules reason about the sentinel-free value `Log.Contents()`,
 a plain `seq<LogEntry>` in which position i holds the entry of index i+1.
 */
module RaftLog {

  datatype LogEntry = LogEntry(index: int, term: int, command: string)

  /** Slot 0 of every log, and the value returned for an index out of range. */
  const SENTINEL := LogEntry(0, 0, "")

  /** The term of the last entry; 0 for an empty log (the sentinel's term). */
  function TermOfLast(log: seq<LogEntry>): int {
    if log == [] then SENTINEL.term else log[|log| - 1].term
  }

  /** Every entry carries its own 1-based position. */
  ghost predicate Indexed(log: seq<LogEntry>) {
    forall i :: 0 <= i < |log| ==> log[i].index == i + 1
  }

  class Log {
    var entries: seq<LogEntry>

    ghost predicate Valid()
      reads this
    {
      && |entries| >= 1
      && entries[0] == SENTINEL
      && Indexed(entries[1..])
    }

    ghost function Contents(): seq<LogEntry>
      requires Valid()
      reads this
    {
      entries[1..]
    }

    constructor ()
      ensures Valid() && Contents() == []
    {
      entries := [SENTINEL];
    }

    /** The original panics unless the index is the next one, so the index is a precondition. */
    method Append(entry: LogEntry)
      requires Valid()
      requires entry.index == |Contents()| + 1
      modifies this
      ensures Valid() && Contents() == old(Contents()) + [entry]
    {
      ghost var before := Contents();
      entries := entries + [entry];
      assert entries[1..] == before + [entry];
    }

    function At(index: int): (r: (LogEntry, bool))
      requires Valid()
      reads this
      ensures r.1 <==> 1 <= index <= |Contents()|
      ensures r.1 ==> r.0 == Contents()[index - 1] && r.0.index == index
      ensures !r.1 ==> r.0 == SENTINEL
    {
      if index <= 0 || index >= |entries| then
        (SENTINEL, false)
      else
        assert entries[index] == Contents()[index - 1];
        (entries[index], true)
    }

    function LastIndex(): (r: int)
      requires Valid()
      reads this
      ensures r == |Contents()|
    {
      |entries| - 1
    }

    function LastTerm(): (r: int)
      requires Valid()
      reads this
      ensures r == TermOfLast(Contents())
    {
      entries[|entries| - 1].term
    }

    /** Drops every entry with index >= from; an index out of range drops nothing. */
    method Truncate(from: int)
      requires Valid()
      modifies this
      ensures Valid()
      ensures Contents() ==
              if 1 <= from <= |old(Contents())| then old(Contents())[..from - 1] else old(Contents())
    {
      if from <= 0 || from >= |entries| {
        return;
      }
      ghost var before := Contents();
      entries := entries[..from];
      assert entries[1..] == before[..from - 1];
    }

    /** A copy of the entries with index in the half-open range [from, to), clipped to the log. */
    function Entries(from: int, to: int): (r: seq<LogEntry>)
      requires Valid()
      reads this
      ensures var lo := if from <= 1 then 0 else from - 1;
              var hi := if to > |Contents()| then |Contents()| else to - 1;
              r == if lo < hi then Contents()[lo..hi] else []
      ensures forall i :: 0 <= i < |r| ==> from <= r[i].index < to && r[i].index == r[0].index + i
    {
      var lo := if from <= 0 then 1 else from;
      var hi := if to > |entries| then |entries| else to;
      if lo >= hi then
        []
      else
        assert entries[lo..hi] == Contents()[lo - 1..hi - 1];
        entries[lo..hi]
    }
  }
}
