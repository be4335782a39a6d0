/** ComputePercentiles on the values that its loads return, and what a quantile says about a list of samples. */
module Percentiles {
  import opened Wrappers
  import opened RuntimeStats

  datatype Result = Result(p50: real, p95: real, p99: real, max: real, avg: real, count: int)

  /** The middle of a bucket, in milliseconds. */
  function Mid(b: nat): (r: real) { (b as real + 0.5) * 0.1 }

  /** The number of samples in the first n buckets. */
  function Cumulative(hist: seq<int>, n: nat): (r: int)
    requires n <= |hist|
  {
    if n == 0 then 0 else Cumulative(hist, n - 1) + hist[n - 1]
  }

  /** The first bucket, from i on, whose cumulative count reaches the target. */
  function FirstFrom(hist: seq<int>, i: nat, target: int): (r: Option<nat>)
    requires i <= |hist|
    ensures r.Some? ==> i <= r.value < |hist| && Cumulative(hist, r.value + 1) >= target
    ensures forall n | i < n <= (if r.Some? then r.value else |hist|) :: Cumulative(hist, n) < target
    decreases |hist| - i
  {
    if i == |hist| then None
    else if Cumulative(hist, i + 1) >= target then Some(i)
    else FirstFrom(hist, i + 1, target)
  }

  function First(hist: seq<int>, target: int): (r: Option<nat>) { FirstFrom(hist, 0, target) }

  /** The reported value; 0 when no bucket reaches the target. */
  function Quantile(hist: seq<int>, target: int): (r: real) {
    match First(hist, target)
    case None => 0.0
    case Some(b) => Mid(b)
  }

  /** The rank of a quantile among `count` samples, in exact arithmetic. */
  function Target(count: int, percent: nat): (r: int) { count * percent / 100 }

  /** What is reported for the loaded values. */
  function Report(c: Counters): (r: Result) {
    if c.count == 0 then Result(0.0, 0.0, 0.0, 0.0, 0.0, 0)
    else
      Result(Quantile(c.hist, Target(c.count, 50)), Quantile(c.hist, Target(c.count, 95)),
             Quantile(c.hist, Target(c.count, 99)),
             c.max as real / 1000000.0, c.total as real / 1000000.0 / c.count as real, c.count)
  }

  /** `c` holds the values that the loads return, which need not be those of one state. */
  method ComputePercentiles(c: Counters) returns (r: Result)
    requires |c.hist| == BUCKETS && c.count >= 0
    ensures r == Report(c)
  {
    r := Result(0.0, 0.0, 0.0, 0.0, 0.0, c.count);
    if c.count == 0 {
      return;
    }
    r := r.(avg := c.total as real / 1000000.0 / c.count as real);
    r := r.(max := c.max as real / 1000000.0);
    var p50, p95, p99 := SearchHistogram(c.hist, Target(c.count, 50), Target(c.count, 95), Target(c.count, 99));
    r := r.(p50 := p50, p95 := p95, p99 := p99);
  }

  /** One pass over the histogram, left as soon as the largest target is reached. */
  method SearchHistogram(hist: seq<int>, target50: int, target95: int, target99: int)
    returns (p50: real, p95: real, p99: real)
    requires |hist| == BUCKETS && target50 <= target95 <= target99
    ensures p50 == Quantile(hist, target50) && p95 == Quantile(hist, target95) && p99 == Quantile(hist, target99)
  {
    var cumulative := 0;
    p50, p95, p99 := 0.0, 0.0, 0.0;
    var found50, found95, found99 := false, false, false;
    var i := 0;
    while i < BUCKETS
      invariant 0 <= i <= BUCKETS && cumulative == Cumulative(hist, i) && !found99
      invariant Searched(hist, i, target50, found50, p50)
      invariant Searched(hist, i, target95, found95, p95)
      invariant Searched(hist, i, target99, found99, p99)
    {
      cumulative := cumulative + hist[i];
      if !found50 && cumulative >= target50 {
        p50, found50 := Mid(i), true;
      }
      if !found95 && cumulative >= target95 {
        p95, found95 := Mid(i), true;
      }
      if !found99 && cumulative >= target99 {
        p99, found99 := Mid(i), true;
        break;
      }
      i := i + 1;
    }
  }

  /** Before bucket i: either the quantile is found, or no bucket so far has reached the target. */
  ghost predicate Searched(hist: seq<int>, i: nat, target: int, found: bool, p: real)
    requires i <= |hist|
  {
    if found then p == Quantile(hist, target)
    else p == 0.0 && First(hist, target) == FirstFrom(hist, i, target)
  }

  // ----- Which quantiles are found, and in what order -----

  lemma {:induction false} CumulativeIsSum(hist: seq<int>, n: nat)
    requires n <= |hist|
    ensures Cumulative(hist, n) == Sum(hist[..n])
  {
    if n > 0 {
      CumulativeIsSum(hist, n - 1);
      assert hist[..n][..n - 1] == hist[..n - 1];
    }
  }

  lemma {:induction false} CumulativeGrows(hist: seq<int>, m: nat, n: nat)
    requires m <= n <= |hist| && forall b | 0 <= b < |hist| :: hist[b] >= 0
    ensures Cumulative(hist, m) <= Cumulative(hist, n)
  {
    if m < n {
      CumulativeGrows(hist, m, n - 1);
    }
  }

  /** A quantile is found exactly when the whole histogram reaches its target. */
  lemma FoundExactly(hist: seq<int>, target: int)
    requires |hist| == BUCKETS && forall b | 0 <= b < |hist| :: hist[b] >= 0
    ensures First(hist, target).Some? <==> Sum(hist) >= target
  {
    CumulativeIsSum(hist, |hist|);
    assert hist[..|hist|] == hist;
    var r := First(hist, target);
    if r.Some? {
      CumulativeGrows(hist, r.value + 1, |hist|);
    }
  }

  /** Quantiles that are found are in the order of their targets. */
  lemma QuantilesOrdered(hist: seq<int>, low: int, high: int)
    requires low <= high && First(hist, high).Some?
    ensures First(hist, low).Some? && Quantile(hist, low) <= Quantile(hist, high)
  {
    var b := First(hist, high).value;
    assert Cumulative(hist, b + 1) >= low;
    var r := First(hist, low);
    assert r.Some? && r.value <= b;
  }

  /** More samples in every bucket: a quantile is found no later. */
  lemma FirstAntitone(low: seq<int>, high: seq<int>, target: int)
    requires |low| == |high| && forall b | 0 <= b < |low| :: low[b] <= high[b]
    requires First(low, target).Some?
    ensures First(high, target).Some? && Quantile(high, target) <= Quantile(low, target)
  {
    var b := First(low, target).value;
    CumulativeMonotone(low, high, b + 1);
    var r := First(high, target);
    assert r.Some? && r.value <= b;
  }

  lemma {:induction false} CumulativeMonotone(low: seq<int>, high: seq<int>, n: nat)
    requires n <= |low| == |high| && forall b | 0 <= b < |low| :: low[b] <= high[b]
    ensures Cumulative(low, n) <= Cumulative(high, n)
  {
    if n > 0 {
      CumulativeMonotone(low, high, n - 1);
    }
  }

  /** A quantile found among the first buckets is found there whatever the others hold. */
  lemma FirstOfPrefix(seen: seq<int>, tail: seq<int>, target: int)
    ensures First(seen, target).Some? ==> First(seen + tail, target) == First(seen, target)
  {
    var r, s := First(seen, target), First(seen + tail, target);
    if r.Some? {
      forall n | 0 <= n <= |seen| ensures Cumulative(seen + tail, n) == Cumulative(seen, n) {
        CumulativeOfPrefix(seen, tail, n);
      }
      assert Cumulative(seen + tail, r.value + 1) >= target;
      assert s.Some? && s.value <= r.value;
    }
  }

  lemma {:induction false} CumulativeOfPrefix(seen: seq<int>, tail: seq<int>, n: nat)
    requires n <= |seen|
    ensures Cumulative(seen + tail, n) == Cumulative(seen, n)
  {
    if n > 0 {
      CumulativeOfPrefix(seen, tail, n - 1);
    }
  }

  // ----- The bucket of a quantile holds the sample of its rank -----

  /** The number of samples in buckets before n. */
  function Below(samples: seq<real>, n: nat): (r: nat) {
    if samples == [] then 0
    else Below(samples[..|samples| - 1], n) + if Bucket(samples[|samples| - 1]) < n then 1 else 0
  }

  lemma {:induction false} BelowStep(samples: seq<real>, n: nat)
    ensures Below(samples, n + 1) == Below(samples, n) + InBucket(samples, n)
  {
    if samples != [] {
      BelowStep(samples[..|samples| - 1], n);
    }
  }

  lemma {:induction false} BelowZero(samples: seq<real>)
    ensures Below(samples, 0) == 0
  {
    if samples != [] {
      BelowZero(samples[..|samples| - 1]);
    }
  }

  lemma {:induction false} CumulativeIsBelow(hist: seq<int>, samples: seq<real>, n: nat)
    requires |hist| == BUCKETS && n <= BUCKETS && forall b | 0 <= b < BUCKETS :: hist[b] == InBucket(samples, b)
    ensures Cumulative(hist, n) == Below(samples, n)
  {
    if n == 0 {
      BelowZero(samples);
    } else {
      CumulativeIsBelow(hist, samples, n - 1);
      BelowStep(samples, n - 1);
    }
  }

  lemma {:induction false} BelowConcat(a: seq<real>, b: seq<real>, n: nat)
    ensures Below(a + b, n) == Below(a, n) + Below(b, n)
  {
    if b == [] {
      assert a + b == a;
    } else {
      BelowConcat(a, b[..|b| - 1], n);
      assert (a + b)[..|a + b| - 1] == a + b[..|b| - 1];
    }
  }

  lemma WithoutOne(b: seq<real>, i: nat, n: nat)
    requires i < |b|
    ensures multiset(b[..i] + b[i + 1..]) == multiset(b) - multiset{b[i]}
    ensures Below(b, n) == Below(b[..i] + b[i + 1..], n) + if Bucket(b[i]) < n then 1 else 0
  {
    var front, back := b[..i], b[i + 1..];
    assert b == front + [b[i]] + back;
    BelowConcat(front + [b[i]], back, n);
    BelowConcat(front, back, n);
    assert (front + [b[i]])[..i] == front;
  }

  lemma {:induction false} BelowOfPermutation(a: seq<real>, b: seq<real>, n: nat)
    requires multiset(a) == multiset(b)
    ensures Below(a, n) == Below(b, n)
  {
    assert |a| == |multiset(a)| == |multiset(b)| == |b|;
    if a != [] {
      var k := |a| - 1;
      assert a[k] in multiset(b);
      var i :| 0 <= i < |b| && b[i] == a[k];
      WithoutOne(b, i, n);
      WithoutOne(a, k, n);
      assert a[..k] + a[k + 1..] == a[..k];
      BelowOfPermutation(a[..k], b[..i] + b[i + 1..], n);
    }
  }

  lemma BucketMonotone(x: real, y: real)
    requires x <= y
    ensures Bucket(x) <= Bucket(y)
  {}

  predicate Sorted(s: seq<real>) { forall i, j | 0 <= i < j < |s| :: s[i] <= s[j] }

  lemma {:induction false} Inserted(s: seq<real>, x: real) returns (r: seq<real>)
    requires Sorted(s)
    ensures Sorted(r) && multiset(r) == multiset(s) + multiset{x}
    ensures forall i | 0 <= i < |r| :: r[i] == x || r[i] in s
  {
    if s == [] || s[|s| - 1] <= x {
      r := s + [x];
    } else {
      var front, last := s[..|s| - 1], s[|s| - 1];
      assert s == front + [last];
      r := Inserted(front, x);
      r := r + [last];
    }
  }

  /** Every list of samples has a sorted arrangement. */
  lemma {:induction false} SortedSamples(s: seq<real>) returns (r: seq<real>)
    ensures Sorted(r) && multiset(r) == multiset(s)
  {
    if s == [] {
      r := [];
    } else {
      assert s == s[..|s| - 1] + [s[|s| - 1]];
      r := SortedSamples(s[..|s| - 1]);
      r := Inserted(r, s[|s| - 1]);
    }
  }

  /** In a sorted list, the samples in buckets before n are the first ones. */
  lemma {:induction false} BelowInSorted(s: seq<real>, n: nat, j: nat)
    requires Sorted(s) && j < |s|
    ensures Below(s, n) <= |s|
    ensures Bucket(s[j]) < n <==> j < Below(s, n)
  {
    var k := |s| - 1;
    if k > 0 {
      BelowInSorted(s[..k], n, if j < k then j else k - 1);
      BucketMonotone(s[k - 1], s[k]);
      if j < k {
        BucketMonotone(s[j], s[k]);
      }
      BelowAll(s[..k], n);
    } else {
      assert Below(s[..k], n) == 0;
    }
  }

  lemma {:induction false} BelowAll(s: seq<real>, n: nat)
    ensures Below(s, n) <= |s|
    ensures (forall i | 0 <= i < |s| :: Bucket(s[i]) < n) ==> Below(s, n) == |s|
  {
    if s != [] {
      BelowAll(s[..|s| - 1], n);
    }
  }

  /** The bucket found is that of the target-th smallest sample; a target of 0 finds the first bucket in any case. */
  lemma QuantileBucket(hist: seq<int>, samples: seq<real>, sorted: seq<real>, target: nat)
    requires |hist| == BUCKETS && forall b | 0 <= b < BUCKETS :: hist[b] == InBucket(samples, b)
    requires multiset(sorted) == multiset(samples) && Sorted(sorted) && target <= |sorted|
    ensures First(hist, target) == Some(if target == 0 then 0 else Bucket(sorted[target - 1]))
  {
    if target == 0 {
      FirstAtZero(hist);
    } else {
      QuantileSample(hist, samples, sorted, target);
    }
  }

  lemma FirstAtZero(hist: seq<int>)
    requires |hist| == BUCKETS && hist[0] >= 0
    ensures First(hist, 0) == Some(0) && Quantile(hist, 0) == Mid(0)
  {
    assert Cumulative(hist, 1) == hist[0];
  }

  lemma QuantileSample(hist: seq<int>, samples: seq<real>, sorted: seq<real>, target: nat)
    requires |hist| == BUCKETS && forall b | 0 <= b < BUCKETS :: hist[b] == InBucket(samples, b)
    requires multiset(sorted) == multiset(samples) && Sorted(sorted) && 1 <= target <= |sorted|
    ensures First(hist, target) == Some(Bucket(sorted[target - 1]))
  {
    var b := Bucket(sorted[target - 1]);
    forall n | n == b || n == b + 1 ensures Cumulative(hist, n) == Below(sorted, n) {
      CumulativeIsBelow(hist, samples, n);
      BelowOfPermutation(sorted, samples, n);
    }
    BelowInSorted(sorted, b, target - 1);
    BelowInSorted(sorted, b + 1, target - 1);
    var r := First(hist, target);
    if r.Some? && r.value < b {
      CumulativeGrows(hist, r.value + 1, b);
    }
  }

  /** The middle of its bucket is within half a bucket of a duration exactly when the histogram's range has it. */
  lemma HalfABucket(x: real)
    ensures -0.05 <= Mid(Bucket(x)) - x <= 0.05 <==> 0.0 <= x <= 30.0
  {}

  /** The ranks of the three quantiles are at least 1 exactly from two calls on. */
  lemma RankPositiveExactly(count: int, percent: nat)
    requires count >= 0 && 50 <= percent <= 99
    ensures Target(count, percent) >= 1 <==> count >= 2
  {
    if count >= 2 {
      assert count * percent >= 2 * percent;
    }
  }

  /** After a single call all three are reported as 0.05 ms, whatever its duration. */
  lemma SingleCallIsFirstBucket(c: Counters)
    requires |c.hist| == BUCKETS && c.count == 1 && c.hist[0] >= 0
    ensures var r := Report(c); r.p50 == 0.05 && r.p95 == 0.05 && r.p99 == 0.05
  {
    FirstAtZero(c.hist);
  }
}
