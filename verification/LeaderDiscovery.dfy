/**
 The client's search for the leader (internal/brokerclient/client.go): try the
 current address, move on when it fails or redirects, give up after a bounded
 number of hops. Calls are sequential: the original takes no lock.
 */
module LeaderDiscovery {

  /** What one attempt yields: a failure to dial or to call, or an answer with a redirect address. */
  datatype Answer = Failed | Answered(redirect: string) {
    /** An empty redirect is taken as success. */
    predicate Success() {
      Answered? && redirect == ""
    }
  }

  /** What the attempt at a given hop and address yields; answers may change over time. */
  type Oracle = (nat, string) -> Answer

  datatype Verdict = Ok | Unreachable | NoAddresses

  /** How a search ends: the verdict, the hops made and the index it rests on. */
  datatype Outcome = Outcome(verdict: Verdict, hops: nat, current: nat)

  /** (current + 1) % len(addrs). */
  function Advance(n: nat, current: nat): nat
    requires n > 0
  {
    (current + 1) % n
  }

  /** The index of the first occurrence, or -1. */
  function FirstIndex(addrs: seq<string>, addr: string): (i: int)
    ensures -1 <= i < |addrs|
    ensures i >= 0 ==> addrs[i] == addr && addr !in addrs[..i]
    ensures i < 0 ==> addr !in addrs
  {
    if addrs == [] then -1
    else if addrs[0] == addr then 0
    else
      var k := FirstIndex(addrs[1..], addr);
      assert addrs == [addrs[0]] + addrs[1..];
      assert k >= 0 ==> addrs[..k + 1] == [addrs[0]] + addrs[1..][..k];
      if k < 0 then -1 else k + 1
  }

  /** Where to try next after an answer that is not a success. */
  function NextIndex(addrs: seq<string>, current: nat, a: Answer): (next: nat)
    requires current < |addrs|
    ensures next < |addrs|
  {
    if a.Answered? && FirstIndex(addrs, a.redirect) >= 0 then FirstIndex(addrs, a.redirect)
    else Advance(|addrs|, current)
  }

  function Search(answer: Oracle, addrs: seq<string>, current: nat, hops: nat, maxHops: nat): (o: Outcome)
    requires current < |addrs| && hops <= maxHops
    ensures o.current < |addrs|
    decreases maxHops - hops
  {
    if hops == maxHops then Outcome(Unreachable, hops, current)
    else if answer(hops, addrs[current]).Success() then Outcome(Ok, hops + 1, current)
    else Search(answer, addrs, NextIndex(addrs, current, answer(hops, addrs[current])), hops + 1, maxHops)
  }

  function MaxHops(n: nat): nat {
    if 2 * n < 2 then 2 else 2 * n
  }

  // ---- The addresses attempted ----

  /**
   Where the attempt after an unsuccessful answer goes: to the first place of the
   address it redirects to if that is configured, and else to the next place
   around the list.
   */
  ghost predicate GoesTo(addrs: seq<string>, current: nat, a: Answer, next: nat) {
    && next < |addrs|
    && if a.Answered? && a.redirect in addrs
       then addrs[next] == a.redirect && a.redirect !in addrs[..next]
       else next == if current + 1 < |addrs| then current + 1 else 0
  }

  /** `tried` are the places attempted one after the other, the first at the given hop: each but the last failed and led to the next. */
  ghost predicate Walk(answer: Oracle, addrs: seq<string>, hop: nat, tried: seq<nat>) {
    && (forall h :: 0 <= h < |tried| ==> tried[h] < |addrs|)
    && forall h {:trigger tried[h]} :: 0 <= h < |tried| - 1 ==>
         && !answer(hop + h, addrs[tried[h]]).Success()
         && GoesTo(addrs, tried[h], answer(hop + h, addrs[tried[h]]), tried[h + 1])
  }

  /** How a walk from `start` ends: at its first success, or with all attempts allowed spent and the index moved on. */
  ghost predicate EndsAs(answer: Oracle, addrs: seq<string>, hop: nat, tried: seq<nat>, allowed: nat, o: Outcome) {
    && tried != [] && Walk(answer, addrs, hop, tried) && |tried| <= allowed
    && o.hops == hop + |tried|
    && var last := tried[|tried| - 1];
       var a := answer(hop + |tried| - 1, addrs[last]);
       if a.Success() then o.verdict == Ok && o.current == last
       else o.verdict == Unreachable && |tried| == allowed && GoesTo(addrs, last, a, o.current)
  }

  lemma NextGoesTo(addrs: seq<string>, current: nat, a: Answer)
    requires current < |addrs|
    ensures GoesTo(addrs, current, a, NextIndex(addrs, current, a))
  {
  }

  lemma WalkOn(answer: Oracle, addrs: seq<string>, hop: nat, current: nat, tried: seq<nat>)
    requires current < |addrs| && !answer(hop, addrs[current]).Success()
    requires tried != [] && Walk(answer, addrs, hop + 1, tried) && GoesTo(addrs, current, answer(hop, addrs[current]), tried[0])
    ensures Walk(answer, addrs, hop, [current] + tried)
  {
    var all := [current] + tried;
    forall h | 0 <= h < |all| - 1
      ensures !answer(hop + h, addrs[all[h]]).Success() && GoesTo(addrs, all[h], answer(hop + h, addrs[all[h]]), all[h + 1])
    {
      if h > 0 {
        assert all[h] == tried[h - 1] && all[h + 1] == tried[h];
      }
    }
  }

  lemma EndsOn(answer: Oracle, addrs: seq<string>, hop: nat, current: nat, tried: seq<nat>, allowed: nat, o: Outcome)
    requires current < |addrs| && !answer(hop, addrs[current]).Success()
    requires EndsAs(answer, addrs, hop + 1, tried, allowed, o)
    requires GoesTo(addrs, current, answer(hop, addrs[current]), tried[0])
    ensures EndsAs(answer, addrs, hop, [current] + tried, allowed + 1, o)
  {
    WalkOn(answer, addrs, hop, current, tried);
    var all := [current] + tried;
    assert all[|all| - 1] == tried[|tried| - 1];
  }

  lemma EndsHere(answer: Oracle, addrs: seq<string>, hop: nat, current: nat, o: Outcome)
    requires current < |addrs|
    requires var a := answer(hop, addrs[current]);
             if a.Success() then o == Outcome(Ok, hop + 1, current)
             else o == Outcome(Unreachable, hop + 1, NextIndex(addrs, current, a))
    ensures EndsAs(answer, addrs, hop, [current], 1, o)
    ensures answer(hop, addrs[current]).Success() ==> forall allowed: nat :: allowed >= 1 ==> EndsAs(answer, addrs, hop, [current], allowed, o)
  {
    NextGoesTo(addrs, current, answer(hop, addrs[current]));
    var tried := [current];
    assert Walk(answer, addrs, hop, tried) && tried[|tried| - 1] == current;
  }

  /**
   The search, by the places it attempts: it starts at `current`, follows every
   answer as it says, and ends at the first success or when all attempts are spent.
   */
  lemma {:induction false} SearchWalks(answer: Oracle, addrs: seq<string>, current: nat, hops: nat, maxHops: nat)
      returns (tried: seq<nat>)
    requires current < |addrs| && hops < maxHops
    ensures EndsAs(answer, addrs, hops, tried, maxHops - hops, Search(answer, addrs, current, hops, maxHops))
    ensures tried[0] == current
    decreases maxHops - hops
  {
    var a := answer(hops, addrs[current]);
    var o := Search(answer, addrs, current, hops, maxHops);
    if a.Success() || hops + 1 == maxHops {
      tried := [current];
      EndsHere(answer, addrs, hops, current, o);
    } else {
      NextGoesTo(addrs, current, a);
      var rest := SearchWalks(answer, addrs, NextIndex(addrs, current, a), hops + 1, maxHops);
      EndsOn(answer, addrs, hops, current, rest, maxHops - hops - 1, o);
      tried := [current] + rest;
    }
  }

  class Client {
    var addrs: seq<string>
    var current: nat

    ghost predicate Valid()
      reads this
    {
      addrs != [] ==> current < |addrs|
    }

    constructor (addrs: seq<string>)
      ensures Valid() && this.addrs == addrs && current == 0
    {
      this.addrs, current := addrs, 0;
    }

    method AddrIndex(addr: string) returns (i: int)
      ensures i == FirstIndex(addrs, addr)
    {
      for k := 0 to |addrs|
        invariant addr !in addrs[..k]
      {
        if addrs[k] == addr {
          return k;
        }
      }
      assert addrs == addrs[..|addrs|];
      return -1;
    }

    method Call(answer: Oracle) returns (verdict: Verdict, hops: nat)
      requires Valid()
      modifies this`current
      ensures Valid()
      ensures addrs == [] ==> verdict == NoAddresses && hops == 0 && current == old(current)
      ensures addrs != [] ==>
                Outcome(verdict, hops, current) == Search(answer, addrs, old(current), 0, MaxHops(|addrs|))
    {
      if |addrs| == 0 {
        return NoAddresses, 0;
      }
      var maxHops := 2 * |addrs|;
      if maxHops < 2 {
        maxHops := 2;
      }
      hops := 0;
      while hops < maxHops
        invariant hops <= maxHops && current < |addrs|
        invariant Search(answer, addrs, current, hops, maxHops) == Search(answer, addrs, old(current), 0, maxHops)
        decreases maxHops - hops
      {
        var addr := addrs[current];
        var a := answer(hops, addr);
        hops := hops + 1;
        if a.Failed? {
          current := Advance(|addrs|, current);
          continue;
        }
        if a.redirect != "" {
          var idx := AddrIndex(a.redirect);
          if idx >= 0 {
            current := idx;
          } else {
            current := Advance(|addrs|, current);
          }
          continue;
        }
        return Ok, hops;
      }
      return Unreachable, hops;
    }
  }

  /** In all cases the search stops within its bound, with the index in range, and reports success exactly if the last attempt succeeded. */
  lemma {:induction false} SearchStops(answer: Oracle, addrs: seq<string>, current: nat, hops: nat, maxHops: nat)
    requires current < |addrs| && hops < maxHops
    ensures var o := Search(answer, addrs, current, hops, maxHops);
            && hops < o.hops <= maxHops && o.current < |addrs|
            && (o.verdict == Ok || (o.verdict == Unreachable && o.hops == maxHops))
            && (o.verdict == Ok ==> answer(o.hops - 1, addrs[o.current]).Success())
    decreases maxHops - hops
  {
    if !answer(hops, addrs[current]).Success() && hops + 1 < maxHops {
      SearchStops(answer, addrs, NextIndex(addrs, current, answer(hops, addrs[current])), hops + 1, maxHops);
    }
  }

  // ---- Finding the leader ----

  /**
   The address `leader` always succeeds, and every other configured address
   fails, redirects outside the list, or redirects to the leader.
   */
  ghost predicate Leads(answer: Oracle, addrs: seq<string>, leader: string) {
    && (forall hop: nat :: answer(hop, leader).Success())
    && (forall hop: nat, addr: string :: addr in addrs && addr != leader ==>
          PointsTowards(addrs, leader, answer(hop, addr)))
  }

  predicate PointsTowards(addrs: seq<string>, leader: string, a: Answer) {
    a == Failed || (a.redirect != "" && (a.redirect !in addrs || a.redirect == leader))
  }

  /** How many steps forward, around the list, from `current` to `target`. */
  function Distance(n: nat, current: nat, target: nat): nat
    requires current < n && target < n
  {
    if current <= target then target - current else target + n - current
  }

  lemma AdvanceCloses(n: nat, current: nat, target: nat)
    requires current < n && target < n && current != target
    ensures Distance(n, Advance(n, current), target) == Distance(n, current, target) - 1
  {
  }

  /** From any index the search succeeds at the leader, within one hop more than the distance to it. */
  lemma {:induction false} SearchFindsLeader(answer: Oracle, addrs: seq<string>, target: nat, current: nat, hops: nat, maxHops: nat)
    requires current < |addrs| && target < |addrs| && Leads(answer, addrs, addrs[target])
    requires hops + Distance(|addrs|, current, target) + 1 <= maxHops
    ensures var o := Search(answer, addrs, current, hops, maxHops);
            && o.verdict == Ok && addrs[o.current] == addrs[target]
            && o.hops <= hops + Distance(|addrs|, current, target) + 1
    decreases maxHops - hops
  {
    if addrs[current] != addrs[target] {
      var a := answer(hops, addrs[current]);
      assert PointsTowards(addrs, addrs[target], a);
      if a.Answered? && FirstIndex(addrs, a.redirect) >= 0 {
        assert addrs[FirstIndex(addrs, a.redirect)] == addrs[target];
      } else {
        AdvanceCloses(|addrs|, current, target);
        SearchFindsLeader(answer, addrs, target, Advance(|addrs|, current), hops + 1, maxHops);
      }
    }
  }

  /** Leader discovery: from any starting index, if one address leads, the call succeeds there within len(addrs) hops. */
  lemma LeaderIsFound(answer: Oracle, addrs: seq<string>, target: nat, current: nat)
    requires current < |addrs| && target < |addrs| && Leads(answer, addrs, addrs[target])
    ensures var o := Search(answer, addrs, current, 0, MaxHops(|addrs|));
            o.verdict == Ok && o.hops <= |addrs| && addrs[o.current] == addrs[target]
  {
    SearchFindsLeader(answer, addrs, target, current, 0, MaxHops(|addrs|));
  }

  /** A redirect to a configured address that succeeds is followed at once: the call takes exactly two hops. */
  lemma RedirectTakesTwoHops(answer: Oracle, addrs: seq<string>, current: nat, target: nat)
    requires current < |addrs| && target < |addrs| && addrs[target] != ""
    requires answer(0, addrs[current]) == Answered(addrs[target]) && answer(1, addrs[target]).Success()
    ensures var o := Search(answer, addrs, current, 0, MaxHops(|addrs|));
            o.verdict == Ok && o.hops == 2 && addrs[o.current] == addrs[target]
  {
    var tried := SearchWalks(answer, addrs, current, 0, MaxHops(|addrs|));
    assert GoesTo(addrs, tried[0], answer(0, addrs[tried[0]]), tried[1]);
  }

  /** Giving up means that every attempt allowed was made, and none succeeded. */
  lemma UnreachableMeansAllFailed(answer: Oracle, addrs: seq<string>, current: nat) returns (tried: seq<nat>)
    requires current < |addrs|
    ensures Walk(answer, addrs, 0, tried) && tried != [] && tried[0] == current
    ensures Search(answer, addrs, current, 0, MaxHops(|addrs|)).verdict == Unreachable <==>
              && |tried| == (if |addrs| == 1 then 2 else 2 * |addrs|)
              && forall h :: 0 <= h < |tried| ==> !answer(h, addrs[tried[h]]).Success()
  {
    tried := SearchWalks(answer, addrs, current, 0, MaxHops(|addrs|));
    var last := |tried| - 1;
    assert forall h :: 0 <= h < last ==> !answer(h, addrs[tried[h]]).Success();
  }
}
