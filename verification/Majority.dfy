/** Majorities of the nodes 0..N-1. */
module Majority {
  import opened RaftNode

  /** Two majorities of 0..N-1 share a member. */
  lemma QuorumsMeet(N: nat, a: set<int>, b: set<int>) returns (v: int)
    requires forall x :: x in a ==> 0 <= x < N
    requires forall x :: x in b ==> 0 <= x < N
    requires |a| >= Quorum(N) && |b| >= Quorum(N)
    ensures v in a && v in b
  {
    SubsetSize(a + b, Ids(N));
    assert |a + b| == |a| + |b| - |a * b|;
    v :| v in a * b;
  }

  /** The ids of an N-node cluster. */
  ghost function Ids(N: nat): (ids: set<int>)
    ensures |ids| == N
    ensures forall x :: x in ids <==> 0 <= x < N
  {
    if N == 0 then {} else Ids(N - 1) + {N - 1}
  }

  lemma SubsetSize(a: set<int>, b: set<int>)
    requires a <= b
    ensures |a| <= |b|
  {
    assert b == a + (b - a);
  }
}
