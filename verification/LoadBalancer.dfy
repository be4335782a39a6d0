/** Round-robin tickets: how often each index is drawn, for the load balancer and for the reactor's hand-off. */
module Tickets {
  /** How many of the m tickets from `start` on fall on index j of n. */
  function Hits(start: nat, m: nat, n: nat, j: nat): (r: nat)
    requires n > 0
  {
    if m == 0 then 0 else Hits(start, m - 1, n, j) + if (start + m - 1) % n == j then 1 else 0
  }

  lemma MultipleGrows(d: int, n: int)
    requires n > 0
    ensures d >= 1 ==> d * n >= n
    ensures d <= -1 ==> d * n <= -n
  {}

  lemma ModUnique(x: int, q: int, r: int, n: int)
    requires n > 0 && x == q * n + r && 0 <= r < n
    ensures x % n == r
  {
    assert x == x / n * n + x % n;
    assert (x / n - q) * n == r - x % n;
    MultipleGrows(x / n - q, n);
  }

  /** Ticket start + d is the one for j exactly when d is the distance from start to j around the ring. */
  lemma ModShift(start: nat, d: nat, n: nat, j: nat)
    requires n > 0 && d < n && j < n
    ensures (start + d) % n == j <==> (j - start) % n == d
  {
    if (start + d) % n == j {
      var q := (start + d) / n;
      assert start + d == q * n + j;
      assert j - start == (-q) * n + d;
      ModUnique(j - start, -q, d, n);
    }
    if (j - start) % n == d {
      var q := (j - start) / n;
      assert j - start == q * n + d;
      assert start + d == (-q) * n + j;
      ModUnique(start + d, -q, j, n);
    }
  }

  /** At most n consecutive tickets draw an index once or not at all. */
  lemma {:induction false} OneRound(start: nat, m: nat, n: nat, j: nat)
    requires n > 0 && m <= n && j < n
    ensures Hits(start, m, n, j) == if (j - start) % n < m then 1 else 0
  {
    if m > 0 {
      OneRound(start, m - 1, n, j);
      ModShift(start, m - 1, n, j);
    }
  }

  lemma {:induction false} HitsSplit(start: nat, a: nat, b: nat, n: nat, j: nat)
    requires n > 0
    ensures Hits(start, a + b, n, j) == Hits(start, a, n, j) + Hits(start + a, b, n, j)
  {
    if b > 0 {
      HitsSplit(start, a, b - 1, n, j);
      assert start + (a + b) - 1 == (start + a) + b - 1;
    }
  }

  /** Every full round draws each index exactly once. */
  lemma {:induction false} FullRounds(start: nat, q: nat, r: nat, n: nat, j: nat)
    requires n > 0 && j < n
    ensures q * n >= 0
    ensures Hits(start, q * n + r, n, j) == q + Hits(start + q * n, r, n, j)
    decreases q
  {
    if q > 0 {
      assert q * n == n + (q - 1) * n;
      FullRounds(start + n, q - 1, r, n, j);
      HitsSplit(start, n, (q - 1) * n + r, n, j);
      OneRound(start, n, n, j);
    }
  }

  /** Any m consecutive tickets draw each of the n indexes m/n times, rounded down or up. */
  lemma Fair(start: nat, m: nat, n: nat, j: nat)
    requires n > 0 && j < n
    ensures Hits(start, m, n, j) == m / n || (m % n > 0 && Hits(start, m, n, j) == m / n + 1)
  {
    var q, r := m / n, m % n;
    assert m == q * n + r;
    FullRounds(start, q, r, n, j);
    OneRound(start + q * n, r, n, j);
  }
}

module LoadBalancers {
  import opened Tickets

  /** `size_t` arithmetic wraps here. */
  const COUNTER_RANGE: nat := 0x1_0000_0000_0000_0000

  class RoundRobinLoadBalancer {
    var index: nat

    ghost predicate Valid()
      reads this
    {
      index < COUNTER_RANGE
    }

    constructor ()
      ensures Valid() && index == 0
    {
      index := 0;
    }

    /** One atomic fetch_add; the empty string when there are no nodes. */
    method Select(nodes: seq<string>) returns (host: string)
      requires Valid()
      modifies this
      ensures Valid()
      ensures nodes == [] ==> host == "" && index == old(index)
      ensures nodes != [] ==> host == nodes[old(index) % |nodes|] && index == (old(index) + 1) % COUNTER_RANGE
    {
      if |nodes| == 0 {
        return "";
      }
      var ticket := index;
      index := (index + 1) % COUNTER_RANGE;
      return nodes[ticket % |nodes|];
    }
  }

  /** One selection: the thread that made it and the index it drew. */
  datatype Pick = Pick(thread: nat, drawn: nat)

  /** The counter after k selections. */
  function CounterAfter(counter: nat, k: nat): (r: nat) {
    if k == 0 then counter else (CounterAfter(counter, k - 1) + 1) % COUNTER_RANGE
  }

  /** The selections of any threads, in the order of their fetch_adds, from a counter value on. */
  function Picks(counter: nat, schedule: seq<nat>, n: nat): (r: seq<Pick>)
    requires n > 0
  {
    if schedule == [] then []
    else
      var k := |schedule| - 1;
      Picks(counter, schedule[..k], n) + [Pick(schedule[k], CounterAfter(counter, k) % n)]
  }

  /** Calling Select once for every entry of the schedule gives the hosts of Picks, and advances the counter so far. */
  method SelectAll(balancer: RoundRobinLoadBalancer, nodes: seq<string>, schedule: seq<nat>)
    returns (hosts: seq<string>)
    requires balancer.Valid() && nodes != []
    modifies balancer
    ensures balancer.Valid() && balancer.index == CounterAfter(old(balancer.index), |schedule|)
    ensures |hosts| == |schedule| == |Picks(old(balancer.index), schedule, |nodes|)|
    ensures forall k | 0 <= k < |hosts| ::
              var pick := Picks(old(balancer.index), schedule, |nodes|)[k];
              pick.thread == schedule[k] && pick.drawn < |nodes| && hosts[k] == nodes[pick.drawn]
  {
    hosts := [];
    ghost var counter := balancer.index;
    for i := 0 to |schedule|
      invariant balancer.Valid() && balancer.index == CounterAfter(counter, i)
      invariant |hosts| == i == |Picks(counter, schedule[..i], |nodes|)|
      invariant forall k | 0 <= k < i ::
                  var pick := Picks(counter, schedule[..i], |nodes|)[k];
                  pick.thread == schedule[k] && pick.drawn < |nodes| && hosts[k] == nodes[pick.drawn]
    {
      assert schedule[..i + 1][..i] == schedule[..i];
      var host := balancer.Select(nodes);
      hosts := hosts + [host];
    }
    assert schedule[..|schedule|] == schedule;
  }

  function Drawn(picks: seq<Pick>, j: nat): (r: nat) {
    if picks == [] then 0
    else Drawn(picks[..|picks| - 1], j) + if picks[|picks| - 1].drawn == j then 1 else 0
  }

  lemma OnePick(picks: seq<Pick>, p: Pick, j: nat)
    ensures Drawn(picks + [p], j) == Drawn(picks, j) + if p.drawn == j then 1 else 0
  {
    assert (picks + [p])[..|picks|] == picks;
  }

  lemma {:induction false} CounterValue(counter: nat, k: nat)
    requires counter < COUNTER_RANGE && counter + k < 2 * COUNTER_RANGE
    ensures CounterAfter(counter, k) == if counter + k < COUNTER_RANGE then counter + k else counter + k - COUNTER_RANGE
  {
    if k > 0 {
      CounterValue(counter, k - 1);
    }
  }

  /** How many of m selections come before the counter wraps. */
  function Before(counter: nat, m: nat): (r: nat)
    requires counter < COUNTER_RANGE
    ensures r <= m
  {
    if counter + m <= COUNTER_RANGE then m else COUNTER_RANGE - counter
  }

  /** The draws before and after the counter's one wrap, each as a run of consecutive tickets. */
  lemma {:induction false} DrawnIsHits(counter: nat, schedule: seq<nat>, n: nat, j: nat)
    requires n > 0 && counter < COUNTER_RANGE && counter + |schedule| <= 2 * COUNTER_RANGE
    ensures Drawn(Picks(counter, schedule, n), j)
         == Hits(counter, Before(counter, |schedule|), n, j)
            + Hits(0, |schedule| - Before(counter, |schedule|), n, j)
  {
    if schedule != [] {
      var k := |schedule| - 1;
      DrawnIsHits(counter, schedule[..k], n, j);
      OnePick(Picks(counter, schedule[..k], n), Pick(schedule[k], CounterAfter(counter, k) % n), j);
      CounterValue(counter, k);
    }
  }

  /** Without a wrap of the counter, every index is drawn m/n times, rounded down or up, by whatever threads. */
  lemma FairWithoutWrap(counter: nat, schedule: seq<nat>, n: nat, j: nat)
    requires n > 0 && j < n && counter < COUNTER_RANGE && counter + |schedule| <= COUNTER_RANGE
    ensures var m, drawn := |schedule|, Drawn(Picks(counter, schedule, n), j);
            drawn == m / n || (m % n > 0 && drawn == m / n + 1)
  {
    DrawnIsHits(counter, schedule, n, j);
    Fair(counter, |schedule|, n, j);
  }

  /** Across one wrap, two indexes are drawn equally often up to two. */
  lemma FairAcrossWrap(counter: nat, schedule: seq<nat>, n: nat, i: nat, j: nat)
    requires n > 0 && i < n && j < n && counter < COUNTER_RANGE && counter + |schedule| <= 2 * COUNTER_RANGE
    ensures Drawn(Picks(counter, schedule, n), i) <= Drawn(Picks(counter, schedule, n), j) + 2
  {
    DrawnIsHits(counter, schedule, n, i);
    DrawnIsHits(counter, schedule, n, j);
    Fair(counter, Before(counter, |schedule|), n, i);
    Fair(counter, Before(counter, |schedule|), n, j);
    Fair(0, |schedule| - Before(counter, |schedule|), n, i);
    Fair(0, |schedule| - Before(counter, |schedule|), n, j);
  }
}
