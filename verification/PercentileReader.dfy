/**
 ComputePercentiles beside the threads that record: each of its loads is one atomic action, and steps of Record may
 come between any two of them, so that the count and the buckets it works on belong to no single state.
 */
module PercentileReaders {
  import opened Wrappers
  import opened RuntimeStats
  import opened Percentiles

  /** How far the reading of a stage has got; `seen` are the buckets loaded so far. */
  datatype Reader =
    | Unread
    | AtTotal(count: int)
    | AtMax(count: int, total: int)
    | Scanning(count: int, total: int, max: int, seen: seq<int>)

  datatype Observed = Observed(shared: State, reader: Reader)

  datatype Action = Record(thread: nat, step: Step) | LoadCount | LoadTotal | LoadPeak | LoadBucket

  /** The scan ends when the 99th percentile is found, or after the last bucket. */
  predicate Scanned(reader: Reader) {
    reader.Scanning? && (|reader.seen| >= BUCKETS || Found(reader, 99))
  }

  /** Whether the scan so far has reached the rank of a quantile. */
  predicate Found(reader: Reader, percent: nat)
    requires reader.Scanning?
  {
    First(reader.seen, Target(reader.count, percent)).Some?
  }

  function Reported(reader: Reader, percent: nat): (r: real)
    requires reader.Scanning?
  {
    Quantile(reader.seen, Target(reader.count, percent))
  }

  /** One atomic action: a step of a recording thread, or the reader's next load for stage k. */
  predicate Act(k: nat, s: Observed, a: Action, t: Observed) {
    && Shaped(s.shared) && k < STAGES
    && var c := s.shared.stages[k];
       match a
       case Record(i, step) => Next(s.shared, i, step, t.shared) && t.reader == s.reader
       case LoadCount => s.reader.Unread? && t == s.(reader := AtTotal(c.count))
       case LoadTotal =>
         // With a count of zero nothing more is read.
         s.reader.AtTotal? && s.reader.count != 0 && t == s.(reader := AtMax(s.reader.count, c.total))
       case LoadPeak =>
         s.reader.AtMax? && t == s.(reader := Scanning(s.reader.count, s.reader.total, c.max, []))
       case LoadBucket =>
         && s.reader.Scanning? && !Scanned(s.reader)
         && t == s.(reader := s.reader.(seen := s.reader.seen + [c.hist[|s.reader.seen|]]))
  }

  ghost predicate Path(k: nat, states: seq<Observed>, actions: seq<Action>) {
    && |states| == |actions| + 1
    && forall n | 0 <= n < |actions| :: Act(k, states[n], actions[n], states[n + 1])
  }

  ghost predicate ReadingRun(k: nat, states: seq<Observed>, actions: seq<Action>) {
    Path(k, states, actions) && Init(states[0].shared) && states[0].reader == Unread
  }

  // ----- What the reader will have seen -----

  function Loaded(reader: Reader): (n: nat) { if reader.Scanning? then |reader.seen| else 0 }

  ghost predicate Good(s: Observed) {
    Inv(s.shared) && Loaded(s.reader) <= BUCKETS && (!s.reader.Unread? ==> s.reader.count >= 0)
  }

  /** The buckets as loaded, and for the others their present contents: the scan's view if no call completes. */
  function Horizon(k: nat, s: Observed): (h: seq<int>)
    requires Shaped(s.shared) && k < STAGES && Loaded(s.reader) <= BUCKETS
    ensures |h| == BUCKETS
  {
    var hist := s.shared.stages[k].hist;
    if s.reader.Scanning? then s.reader.seen + hist[|s.reader.seen|..] else hist
  }

  /** 1 for the last step of a call for stage k whose bucket is still to be loaded. */
  function CaughtBy(k: nat, s: Observed, a: Action): (r: nat) {
    if a.Record? && a.step.AddHist? && a.thread < |s.shared.threads| && s.shared.threads[a.thread].MaxDone?
       && s.shared.threads[a.thread].stage == k && Bucket(s.shared.threads[a.thread].ms) >= Loaded(s.reader)
    then 1 else 0
  }

  /** The calls completed from state m to state n in time to be seen. */
  function Caught(k: nat, states: seq<Observed>, actions: seq<Action>, m: nat, n: nat): (r: nat)
    requires n <= |actions| <= |states|
  {
    if n <= m then 0 else Caught(k, states, actions, m, n - 1) + CaughtBy(k, states[n - 1], actions[n - 1])
  }

  /** No bucket shrinks. */
  predicate Grows(low: seq<int>, high: seq<int>) {
    |low| == |high| && forall b | 0 <= b < |low| :: low[b] <= high[b]
  }

  lemma GrowsOn(a: seq<int>, b: seq<int>, c: seq<int>)
    requires Grows(a, b) && Grows(b, c)
    ensures Grows(a, c)
  {
    assert forall i | 0 <= i < |a| :: a[i] <= b[i] <= c[i];
  }

  lemma HistIsNotNegative(s: State, k: nat)
    requires Inv(s) && k < STAGES
    ensures forall b | 0 <= b < BUCKETS :: s.stages[k].hist[b] >= 0
  {
    assert HistIsDone(s, k);
  }

  lemma RecordKeepsHorizon(k: nat, s: Observed, a: Action, t: Observed)
    requires Good(s) && Good(t) && k < STAGES && a.Record? && Act(k, s, a, t)
    ensures Sum(Horizon(k, t)) == Sum(Horizon(k, s)) + CaughtBy(k, s, a)
    ensures Grows(Horizon(k, s), Horizon(k, t)) && Grows(s.shared.stages[k].hist, t.shared.stages[k].hist)
  {
    var h := Horizon(k, s);
    if a.step.AddHist? && s.shared.threads[a.thread].stage == k {
      var b := Bucket(s.shared.threads[a.thread].ms);
      if b >= Loaded(s.reader) {
        SumUpdate(h, b, h[b] + 1);
        assert Horizon(k, t) == h[b := h[b] + 1];
      } else {
        assert Horizon(k, t) == h;
      }
    } else {
      assert t.shared.stages[k].hist == s.shared.stages[k].hist;
    }
  }

  /** From s to t the view gains `caught` samples, no bucket shrinks, and the view stays below the histogram. */
  ghost predicate Advances(k: nat, s: Observed, t: Observed, caught: int)
    requires Good(s) && Good(t) && k < STAGES
  {
    && Sum(Horizon(k, t)) == Sum(Horizon(k, s)) + caught
    && Grows(Horizon(k, s), Horizon(k, t))
    && Grows(s.shared.stages[k].hist, t.shared.stages[k].hist)
    && (Grows(Horizon(k, s), s.shared.stages[k].hist) ==> Grows(Horizon(k, t), t.shared.stages[k].hist))
    && (s.reader.Unread? || (!t.reader.Unread? && t.reader.count == s.reader.count))
  }

  lemma Onward(k: nat, s: Observed, t: Observed, u: Observed, c: int, d: int)
    requires Good(s) && Good(t) && Good(u) && k < STAGES && Advances(k, s, t, c) && Advances(k, t, u, d)
    ensures Advances(k, s, u, c + d)
  {
    GrowsOn(Horizon(k, s), Horizon(k, t), Horizon(k, u));
    GrowsOn(s.shared.stages[k].hist, t.shared.stages[k].hist, u.shared.stages[k].hist);
  }

  lemma LoadKeepsHorizon(k: nat, s: Observed, a: Action, t: Observed)
    requires Good(s) && k < STAGES && !a.Record? && Act(k, s, a, t)
    ensures Good(t) && Horizon(k, t) == Horizon(k, s)
  {
    assert Conserved(s.shared, k);
    if a.LoadBucket? {
      var seen, hist := s.reader.seen, s.shared.stages[k].hist;
      assert hist[|seen|..] == [hist[|seen|]] + hist[|seen| + 1..];
      assert seen + ([hist[|seen|]] + hist[|seen| + 1..]) == (seen + [hist[|seen|]]) + hist[|seen| + 1..];
    }
  }

  lemma RecordStaysBelow(k: nat, s: Observed, a: Action, t: Observed)
    requires Good(s) && Good(t) && k < STAGES && a.Record? && Act(k, s, a, t)
    requires Grows(Horizon(k, s), s.shared.stages[k].hist)
    ensures Grows(Horizon(k, t), t.shared.stages[k].hist)
  {
    RecordKeepsHorizon(k, s, a, t);
    var n := Loaded(s.reader);
    forall b | 0 <= b < BUCKETS ensures Horizon(k, t)[b] <= t.shared.stages[k].hist[b] {
      assert b < n ==> Horizon(k, t)[b] == Horizon(k, s)[b];
    }
  }

  lemma ActAdvances(k: nat, s: Observed, a: Action, t: Observed)
    requires Good(s) && k < STAGES && Act(k, s, a, t)
    ensures Good(t) && Advances(k, s, t, CaughtBy(k, s, a))
  {
    if a.Record? {
      StepKeepsInv(s.shared, a.thread, a.step, t.shared);
      RecordKeepsHorizon(k, s, a, t);
      if Grows(Horizon(k, s), s.shared.stages[k].hist) {
        RecordStaysBelow(k, s, a, t);
      }
    } else {
      LoadKeepsHorizon(k, s, a, t);
    }
  }

  /** Between two states, the reader's view gains exactly the calls caught, and no bucket ever shrinks. */
  lemma {:induction false} PathAdvances(k: nat, states: seq<Observed>, actions: seq<Action>, m: nat, n: nat)
    requires Path(k, states, actions) && m <= n < |states| && Good(states[m]) && k < STAGES
    ensures Good(states[n]) && Advances(k, states[m], states[n], Caught(k, states, actions, m, n))
    decreases n
  {
    if m < n {
      PathAdvances(k, states, actions, m, n - 1);
      StepAdvances(k, states, actions, n - 1);
      Onward(k, states[m], states[n - 1], states[n],
             Caught(k, states, actions, m, n - 1), CaughtBy(k, states[n - 1], actions[n - 1]));
    } else {
      assert Advances(k, states[m], states[m], 0);
    }
  }

  lemma StepAdvances(k: nat, states: seq<Observed>, actions: seq<Action>, n: nat)
    requires Path(k, states, actions) && n < |actions| && Good(states[n]) && k < STAGES
    ensures Good(states[n + 1])
    ensures Advances(k, states[n], states[n + 1], CaughtBy(k, states[n], actions[n]))
  {
    ActAdvances(k, states[n], actions[n], states[n + 1]);
  }

  /** No load returns more than the bucket holds in the end. */
  lemma SeenBelowHist(k: nat, states: seq<Observed>, actions: seq<Action>, n: nat)
    requires ReadingRun(k, states, actions) && n < |states| && k < STAGES
    ensures Good(states[n])
    ensures Grows(Horizon(k, states[n]), states[n].shared.stages[k].hist)
  {
    InitInv(states[0].shared);
    PathAdvances(k, states, actions, 0, n);
  }

  /** Once the scan is over, what it has seen and its view agree on every quantile up to the 99th. */
  lemma SeenIsHorizon(k: nat, s: Observed, percent: nat)
    requires Good(s) && k < STAGES && Scanned(s.reader) && percent <= 99
    ensures First(s.reader.seen, Target(s.reader.count, percent))
         == First(Horizon(k, s), Target(s.reader.count, percent))
  {
    var seen, count := s.reader.seen, s.reader.count;
    var tail := s.shared.stages[k].hist[|seen|..];
    FirstOfPrefix(seen, tail, Target(count, percent));
    if |seen| >= BUCKETS {
      assert seen + tail == seen;
    } else {
      RanksOrdered(count, percent, 99);
      QuantilesOrdered(seen, Target(count, percent), Target(count, 99));
    }
  }

  lemma RanksOrdered(count: int, low: nat, high: nat)
    requires count >= 0 && low <= high
    ensures 0 <= Target(count, low) <= Target(count, high)
    ensures high <= 100 ==> Target(count, high) <= count
  {
    assert count * low <= count * high;
    if high <= 100 {
      assert count * high <= count * 100;
    }
  }

  // ----- When the quantiles are found -----

  /**
   For every run, whatever is recorded between the loads: a quantile is found exactly when the calls in flight at the
   load of the count are no more than the samples above its rank and the calls caught by the scan. If the 99th
   percentile is found, all three are, in order.
   */
  lemma AllFoundExactly(k: nat, states: seq<Observed>, actions: seq<Action>, m: nat, n: nat, percent: nat)
    requires ReadingRun(k, states, actions) && m < n < |states| && k < STAGES && percent <= 99
    requires actions[m] == LoadCount && Scanned(states[n].reader)
    ensures Shaped(states[m].shared) && states[n].reader.count == states[m].shared.stages[k].count
    ensures var reader, count := states[n].reader, states[n].reader.count;
            && (Found(reader, percent) <==>
                  InFlight(states[m].shared, k) <= count - Target(count, percent) + Caught(k, states, actions, m, n))
            && (Found(reader, 99) ==>
                  && Found(reader, 50) && Found(reader, 95)
                  && Reported(reader, 50) <= Reported(reader, 95) <= Reported(reader, 99))
  {
    ReadsAll(k, states, actions, m, n);
    HistIsNotNegative(states[m].shared, k);
    var reader := states[n].reader;
    FoundInHorizon(k, states[n], percent);
    if Found(reader, 99) {
      RanksOrdered(reader.count, 95, 99);
      RanksOrdered(reader.count, 50, 95);
      QuantilesOrdered(reader.seen, Target(reader.count, 95), Target(reader.count, 99));
      QuantilesOrdered(reader.seen, Target(reader.count, 50), Target(reader.count, 95));
    }
  }

  lemma ReadsAll(k: nat, states: seq<Observed>, actions: seq<Action>, m: nat, n: nat)
    requires ReadingRun(k, states, actions) && m < n < |states| && k < STAGES && actions[m] == LoadCount
    ensures Good(states[m]) && Good(states[n])
    ensures !states[n].reader.Unread? && states[n].reader.count == states[m].shared.stages[k].count
    ensures Grows(states[m].shared.stages[k].hist, Horizon(k, states[n]))
    ensures Grows(Horizon(k, states[n]), states[n].shared.stages[k].hist)
    ensures Sum(Horizon(k, states[n]))
         == states[m].shared.stages[k].count - InFlight(states[m].shared, k) + Caught(k, states, actions, m, n)
  {
    SeenBelowHist(k, states, actions, m);
    SeenBelowHist(k, states, actions, n);
    assert Conserved(states[m].shared, k);
    assert Act(k, states[m], actions[m], states[m + 1]);
    PathAdvances(k, states, actions, m, n);
    ActAdvances(k, states[m], actions[m], states[m + 1]);
    PathAdvances(k, states, actions, m + 1, n);
  }

  lemma FoundInHorizon(k: nat, s: Observed, percent: nat)
    requires Good(s) && k < STAGES && Scanned(s.reader) && percent <= 99
    requires forall b | 0 <= b < BUCKETS :: Horizon(k, s)[b] >= 0
    ensures Found(s.reader, percent) <==> Sum(Horizon(k, s)) >= Target(s.reader.count, percent)
  {
    SeenIsHorizon(k, s, percent);
    FoundExactly(Horizon(k, s), Target(s.reader.count, percent));
  }

  // ----- Which readings are sure to find the quantiles -----

  lemma PathCons(k: nat, s: Observed, a: Action, states: seq<Observed>, actions: seq<Action>)
    requires Path(k, states, actions) && Act(k, s, a, states[0])
    ensures Path(k, [s] + states, [a] + actions)
    ensures ([s] + states)[|[a] + actions|] == states[|actions|]
  {}

  predicate Reading(s: Observed) {
    !s.reader.Unread? && (s.reader.AtTotal? ==> s.reader.count > 0)
  }

  function LoadsLeft(reader: Reader): (n: nat) {
    match reader
    case Scanning(_, _, _, seen) => if |seen| >= BUCKETS then 0 else BUCKETS - |seen|
    case AtMax(_, _) => BUCKETS + 1
    case _ => BUCKETS + 2
  }

  /** The reading of state s is over in state t, with the view that it had in s. */
  ghost predicate FinishedAs(k: nat, s: Observed, t: Observed)
    requires Good(s) && k < STAGES && !s.reader.Unread?
  {
    && Good(t) && Scanned(t.reader) && t.shared == s.shared && t.reader.count == s.reader.count
    && Horizon(k, t) == Horizon(k, s)
  }

  /** A reading that has begun can always be finished by the reader alone; its view then stays what it is. */
  lemma {:induction false} Alone(k: nat, s: Observed) returns (states: seq<Observed>, actions: seq<Action>)
    requires Good(s) && k < STAGES && Reading(s)
    ensures Path(k, states, actions) && states[0] == s
    ensures FinishedAs(k, s, states[|actions|])
    decreases LoadsLeft(s.reader)
  {
    if Scanned(s.reader) {
      states, actions := [s], [];
    } else {
      var a, t := NextLoad(k, s);
      states, actions := Alone(k, t);
      PathCons(k, s, a, states, actions);
      states, actions := [s] + states, [a] + actions;
    }
  }

  lemma NextLoad(k: nat, s: Observed) returns (a: Action, t: Observed)
    requires Good(s) && k < STAGES && Reading(s) && !Scanned(s.reader)
    ensures !a.Record? && a != LoadCount && Act(k, s, a, t) && t.shared == s.shared
    ensures Reading(t) && t.reader.count == s.reader.count && LoadsLeft(t.reader) < LoadsLeft(s.reader)
    ensures Good(t) && Horizon(k, t) == Horizon(k, s)
  {
    var c := s.shared.stages[k];
    match s.reader
    case AtTotal(count) =>
      a, t := LoadTotal, s.(reader := AtMax(count, c.total));
    case AtMax(count, total) =>
      a, t := LoadPeak, s.(reader := Scanning(count, total, c.max, []));
    case Scanning(count, total, max, seen) =>
      a, t := LoadBucket, s.(reader := Scanning(count, total, max, seen + [c.hist[|seen|]]));
      assert Horizon(k, t) == Horizon(k, s);
  }

  /** However the run goes on, the scan finds the quantile. */
  ghost predicate SureToFind(k: nat, s: Observed, percent: nat) {
    forall states: seq<Observed>, actions: seq<Action> ::
      Path(k, states, actions) && states[0] == s && Scanned(states[|actions|].reader) ==>
        Found(states[|actions|].reader, percent)
  }

  /**
   A reading that has just loaded a count is sure to find a quantile, whatever is recorded meanwhile, exactly when no
   more calls are in flight than there are samples above its rank.
   */
  lemma SureToFindExactly(k: nat, states: seq<Observed>, actions: seq<Action>, m: nat, percent: nat)
    requires ReadingRun(k, states, actions) && m < |actions| && k < STAGES && percent <= 99
    requires actions[m] == LoadCount && states[m + 1].reader.count > 0
    ensures Shaped(states[m].shared)
    ensures var count := states[m].shared.stages[k].count;
            SureToFind(k, states[m + 1], percent) <==> InFlight(states[m].shared, k) <= count - Target(count, percent)
  {
    ReadsAll(k, states, actions, m, m + 1);
    HistIsNotNegative(states[m].shared, k);
    assert Act(k, states[m], actions[m], states[m + 1]);
    var s := states[m + 1];
    var rank := Target(s.reader.count, percent);
    if Sum(Horizon(k, s)) >= rank {
      forall path: seq<Observed>, acts: seq<Action> |
          Path(k, path, acts) && path[0] == s && Scanned(path[|acts|].reader)
        ensures Found(path[|acts|].reader, percent)
      {
        PathAdvances(k, path, acts, 0, |acts|);
        FoundInHorizon(k, path[|acts|], percent);
      }
    } else {
      var path, acts := Alone(k, s);
      FoundInHorizon(k, path[|acts|], percent);
    }
  }

  // ----- What the method reports is what the reader has seen -----

  /** The method is proved for any loaded values; the buckets behind the exit of the loop make no difference. */
  lemma ReportIsSeen(k: nat, states: seq<Observed>, actions: seq<Action>, n: nat, c: Counters)
    requires ReadingRun(k, states, actions) && n < |states| && k < STAGES && Scanned(states[n].reader)
    requires var reader := states[n].reader;
             && c.count == reader.count > 0 && c.total == reader.total && c.max == reader.max
             && |c.hist| == BUCKETS && |reader.seen| <= BUCKETS && c.hist[..|reader.seen|] == reader.seen
    ensures var reader, r := states[n].reader, Report(c);
            && r.p50 == Reported(reader, 50) && r.p95 == Reported(reader, 95) && r.p99 == Reported(reader, 99)
            && (r.p99 == 0.0 <==> !Found(reader, 99))
  {
    var reader := states[n].reader;
    var seen, tail := reader.seen, c.hist[|reader.seen|..];
    assert c.hist == seen + tail;
    forall percent: nat | percent <= 99
      ensures Quantile(c.hist, Target(c.count, percent)) == Reported(reader, percent)
    {
      FirstOfPrefix(seen, tail, Target(c.count, percent));
      if |seen| >= BUCKETS {
        assert c.hist == seen;
      } else {
        RanksOrdered(c.count, percent, 99);
        QuantilesOrdered(seen, Target(c.count, percent), Target(c.count, 99));
      }
    }
  }

  // ----- What a reported quantile says about the samples -----

  /**
   In every run a reported quantile of rank 1 or more lies between the buckets of two samples: of the calls completed
   by the load of the count, and of those completed by the end of the scan, the one that has this rank. A quantile of
   rank 0 is the middle of the first bucket whatever the samples are.
   */
  lemma QuantileBracket(k: nat, states: seq<Observed>, actions: seq<Action>, m: nat, n: nat, percent: nat,
                        before: seq<real>, after: seq<real>)
    requires ReadingRun(k, states, actions) && m < n < |states| && k < STAGES && percent <= 99
    requires actions[m] == LoadCount && Scanned(states[n].reader)
    requires Shaped(states[m].shared) && Shaped(states[n].shared)
    requires multiset(before) == multiset(states[m].shared.done[k]) && Sorted(before)
    requires multiset(after) == multiset(states[n].shared.done[k]) && Sorted(after)
    ensures var rank, reader := Target(states[n].reader.count, percent), states[n].reader;
            && rank >= 0
            && (rank == 0 ==> Found(reader, percent) && Reported(reader, percent) == Mid(0))
            && (rank > 0 && Found(reader, percent) ==>
                  rank <= |after| && Mid(Bucket(after[rank - 1])) <= Reported(reader, percent))
            && (0 < rank <= |before| ==>
                  Found(reader, percent) && Reported(reader, percent) <= Mid(Bucket(before[rank - 1])))
  {
    ReadsAll(k, states, actions, m, n);
    SeenIsHorizon(k, states[n], percent);
    var rank := Target(states[n].reader.count, percent);
    RanksOrdered(states[n].reader.count, percent, percent);
    Bracketed(states[m].shared, Horizon(k, states[n]), states[n].shared, k, rank, before, after);
  }

  /** A view between the histograms of two reachable states. */
  lemma Bracketed(start: State, view: seq<int>, end: State, k: nat, rank: nat, before: seq<real>, after: seq<real>)
    requires Inv(start) && Inv(end) && k < STAGES && |view| == BUCKETS
    requires Grows(start.stages[k].hist, view) && Grows(view, end.stages[k].hist)
    requires multiset(before) == multiset(start.done[k]) && Sorted(before)
    requires multiset(after) == multiset(end.done[k]) && Sorted(after)
    ensures rank == 0 ==> First(view, rank) == Some(0)
    ensures rank > 0 && First(view, rank).Some? ==>
              rank <= |after| && Mid(Bucket(after[rank - 1])) <= Quantile(view, rank)
    ensures 0 < rank <= |before| ==>
              First(view, rank).Some? && Quantile(view, rank) <= Mid(Bucket(before[rank - 1]))
  {
    if rank == 0 {
      HistIsNotNegative(start, k);
      FirstAtZero(view);
    } else {
      SampleOfRank(start, k, before, rank);
      SampleOfRank(end, k, after, rank);
      if First(view, rank).Some? {
        FirstAntitone(view, end.stages[k].hist, rank);
      }
      if rank <= |before| {
        FirstAntitone(start.stages[k].hist, view, rank);
      }
    }
  }

  /** A rank is found exactly when so many calls are completed, and then in its sample's bucket. */
  lemma SampleOfRank(s: State, k: nat, sorted: seq<real>, rank: nat)
    requires Inv(s) && k < STAGES && rank >= 1 && multiset(sorted) == multiset(s.done[k]) && Sorted(sorted)
    ensures First(s.stages[k].hist, rank).Some? <==> rank <= |sorted|
    ensures rank <= |sorted| ==> Quantile(s.stages[k].hist, rank) == Mid(Bucket(sorted[rank - 1]))
  {
    HistIsNotNegative(s, k);
    FoundExactly(s.stages[k].hist, rank);
    assert Conserved(s, k) && HistIsDone(s, k);
    assert |sorted| == |multiset(sorted)| == |s.done[k]|;
    if rank <= |sorted| {
      QuantileBucket(s.stages[k].hist, s.done[k], sorted, rank);
    }
  }

  /**
   If no call was in flight at the load of the count and none completes during the scan: a quantile of rank 1 or more
   is the middle of the bucket of the sample of that rank, within 0.05 ms of it exactly when the histogram's range has
   that sample; a quantile of rank 0 is 0.05 ms.
   */
  lemma QuantileError(k: nat, states: seq<Observed>, actions: seq<Action>, m: nat, n: nat, percent: nat,
                      sorted: seq<real>)
    requires ReadingRun(k, states, actions) && m < n < |states| && k < STAGES && percent <= 99
    requires actions[m] == LoadCount && Scanned(states[n].reader)
    requires Shaped(states[m].shared) && Shaped(states[n].shared)
    requires InFlight(states[m].shared, k) == 0 && states[n].shared.done[k] == states[m].shared.done[k]
    requires multiset(sorted) == multiset(states[m].shared.done[k]) && Sorted(sorted)
    ensures var reader := states[n].reader;
            var rank := Target(reader.count, percent);
            && 0 <= rank <= |sorted| == reader.count
            && (rank == 0 ==> Reported(reader, percent) == 0.05)
            && (rank > 0 ==>
                  && Reported(reader, percent) == Mid(Bucket(sorted[rank - 1]))
                  && (-0.05 <= Reported(reader, percent) - sorted[rank - 1] <= 0.05
                      <==> 0.0 <= sorted[rank - 1] <= 30.0))
  {
    ReadsAll(k, states, actions, m, n);
    assert Conserved(states[m].shared, k);
    assert |sorted| == |multiset(sorted)| == |states[m].shared.done[k]|;
    var rank := Target(states[n].reader.count, percent);
    RanksOrdered(states[n].reader.count, percent, percent);
    QuantileBracket(k, states, actions, m, n, percent, sorted, sorted);
    if rank > 0 {
      HalfABucket(sorted[rank - 1]);
    }
  }

  /** Read when one call has begun, every quantile is 0.05 ms, however long that call takes or has taken. */
  lemma SingleCallReads(k: nat, states: seq<Observed>, actions: seq<Action>, m: nat, n: nat, percent: nat)
    requires ReadingRun(k, states, actions) && m < n < |states| && k < STAGES && percent <= 99
    requires actions[m] == LoadCount && Scanned(states[n].reader) && states[n].reader.count == 1
    ensures Found(states[n].reader, percent) && Reported(states[n].reader, percent) == 0.05
  {
    ReadsAll(k, states, actions, m, n);
    HistIsNotNegative(states[m].shared, k);
    SeenIsHorizon(k, states[n], percent);
    FirstAtZero(Horizon(k, states[n]));
  }

  // ----- Runs on both sides of the condition -----

  function Fresh(threads: nat): (s: State) {
    State(seq(STAGES, _ => Counters(0, 0, 0, seq(BUCKETS, _ => 0))), seq(threads, _ => RuntimeStats.Idle),
          seq(STAGES, _ => []), seq(STAGES, _ => []))
  }

  function Begun(s: State, i: nat, k: nat, ms: real): (t: State)
    requires Shaped(s) && i < |s.threads| && k < STAGES
  {
    var c := s.stages[k];
    WithCounters(s, i, Counted(k, ms), k, c.(count := c.count + 1)).(started := s.started[k := s.started[k] + [ms]])
  }

  lemma BeginsOne(s: State, i: nat, k: nat, ms: real)
    requires Shaped(s) && i < |s.threads| && s.threads[i] == RuntimeStats.Idle && k < STAGES
    ensures var t := Begun(s, i, k, ms);
            && Next(s, i, Begin(k, ms), t) && Shaped(t) && InFlight(t, k) == InFlight(s, k) + 1
            && t.threads == s.threads[i := Counted(k, ms)]
            && t.stages[k] == s.stages[k].(count := s.stages[k].count + 1)
  {
    SumOverUpdate(s.threads, i, Counted(k, ms), Inside(k), |s.threads|);
  }

  /** Two threads have begun a call each, and the reader has loaded the count. */
  lemma TwoBegun(k: nat) returns (states: seq<Observed>, actions: seq<Action>)
    requires k < STAGES
    ensures ReadingRun(k, states, actions) && |actions| == 3 && actions[2] == LoadCount
    ensures Good(states[2]) && Good(states[3]) && states[3] == Observed(states[2].shared, AtTotal(2))
    ensures InFlight(states[0].shared, k) == 0 && InFlight(states[2].shared, k) == 2
    ensures |states[3].shared.threads| == 2 && states[3].shared.threads[0] == Counted(k, 1.0)
    ensures states[3].shared.stages[k] == Counters(2, 0, 0, seq(BUCKETS, _ => 0))
  {
    var s0 := Fresh(2);
    SumOverZero(s0.threads, Inside(k), 2);
    BeginsOne(s0, 0, k, 1.0);
    var s1 := Begun(s0, 0, k, 1.0);
    BeginsOne(s1, 1, k, 1.0);
    var s2 := Begun(s1, 1, k, 1.0);
    states := [Observed(s0, Unread), Observed(s1, Unread), Observed(s2, Unread), Observed(s2, AtTotal(2))];
    actions := [Record(0, Begin(k, 1.0)), Record(1, Begin(k, 1.0)), LoadCount];
    assert Path(k, states, actions);
    SeenBelowHist(k, states, actions, 2);
    SeenBelowHist(k, states, actions, 3);
  }

  lemma Joined(k: nat, states: seq<Observed>, actions: seq<Action>, path: seq<Observed>, acts: seq<Action>)
    returns (all: seq<Observed>, allActs: seq<Action>)
    requires Path(k, states, actions) && Path(k, path, acts) && path[0] == states[|actions|]
    ensures Path(k, all, allActs) && all[0] == states[0] && all[|allActs|] == path[|acts|]
    ensures |allActs| == |actions| + |acts| && allActs[..|actions|] == actions && all[..|states|] == states
  {
    all, allActs := states + path[1..], actions + acts;
    forall i | 0 <= i < |allActs| ensures Act(k, all[i], allActs[i], all[i + 1]) {
      if i < |actions| {
        assert Act(k, states[i], actions[i], states[i + 1]);
      } else {
        var j := i - |actions|;
        assert all[i] == path[j] && all[i + 1] == path[j + 1] && allActs[i] == acts[j];
        assert Act(k, path[j], acts[j], path[j + 1]);
      }
    }
  }

  /** Nothing is in flight before the call, and yet the 99th percentile is reported as 0. */
  lemma NotFoundWhileInFlight(k: nat) returns (states: seq<Observed>, actions: seq<Action>)
    requires k < STAGES
    ensures ReadingRun(k, states, actions)
    ensures Shaped(states[0].shared) && InFlight(states[0].shared, k) == 0
    ensures Scanned(states[|actions|].reader) && states[|actions|].reader.count == 2
    ensures !Found(states[|actions|].reader, 99) && Reported(states[|actions|].reader, 99) == 0.0
  {
    states, actions := TwoBegun(k);
    var path, acts := Alone(k, states[3]);
    assert Conserved(states[2].shared, k);
    FoundInHorizon(k, path[|acts|], 99);
    states, actions := Joined(k, states, actions, path, acts);
  }

  /** One of two calls in flight completes between the load of the count and the scan, and that is enough. */
  lemma FoundAllTheSame(k: nat) returns (states: seq<Observed>, actions: seq<Action>)
    requires k < STAGES
    ensures ReadingRun(k, states, actions) && |actions| > 2 && actions[2] == LoadCount
    ensures Shaped(states[2].shared) && InFlight(states[2].shared, k) > 2 - Target(2, 99)
    ensures Scanned(states[|actions|].reader) && states[|actions|].reader.count == 2
    ensures Found(states[|actions|].reader, 99)
  {
    states, actions := TwoBegun(k);
    SumOfZeros(Horizon(k, states[3]));
    var path, acts := OneCompletes(k, states[3]);
    states, actions := Joined(k, states, actions, path, acts);
    var last := states[|actions|];
    assert Sum(Horizon(k, last)) == 1;
    path, acts := Alone(k, last);
    HistIsNotNegative(last.shared, k);
    FoundInHorizon(k, path[|acts|], 99);
    states, actions := Joined(k, states, actions, path, acts);
  }

  /** The rest of a call by thread 0, with no other thread in between. */
  lemma OneCompletes(k: nat, s: Observed) returns (states: seq<Observed>, actions: seq<Action>)
    requires k < STAGES && Good(s) && !s.reader.Unread? && Loaded(s.reader) == 0
    requires |s.shared.threads| > 0 && s.shared.threads[0] == Counted(k, 1.0) && s.shared.stages[k].max == 0
    ensures Path(k, states, actions) && states[0] == s && Good(states[|actions|])
    ensures states[|actions|].reader == s.reader
    ensures Sum(Horizon(k, states[|actions|])) == Sum(Horizon(k, s)) + 1
  {
    states, actions := MaxStored(k, s);
    PathAdvances(k, states, actions, 0, 3);
    var t := LastStep(k, states[3]);
    states, actions := Joined(k, states, actions, [states[3], t], [Record(0, AddHist)]);
  }

  lemma LastStep(k: nat, s: Observed) returns (t: Observed)
    requires k < STAGES && Good(s) && Loaded(s.reader) == 0
    requires |s.shared.threads| > 0 && s.shared.threads[0] == MaxDone(k, 1.0)
    ensures Act(k, s, Record(0, AddHist), t) && Good(t) && t.reader == s.reader
    ensures Sum(Horizon(k, t)) == Sum(Horizon(k, s)) + 1
  {
    var s0, c, b := s.shared, s.shared.stages[k], Bucket(1.0);
    t := Observed(WithCounters(s0, 0, RuntimeStats.Idle, k, c.(hist := c.hist[b := c.hist[b] + 1]))
                  .(done := s0.done[k := s0.done[k] + [1.0]]),
                  s.reader);
    ActAdvances(k, s, Record(0, AddHist), t);
  }

  /** Thread 0 goes from its first to its last step but one. */
  lemma MaxStored(k: nat, s: Observed) returns (states: seq<Observed>, actions: seq<Action>)
    requires k < STAGES && Good(s)
    requires |s.shared.threads| > 0 && s.shared.threads[0] == Counted(k, 1.0) && s.shared.stages[k].max == 0
    ensures Path(k, states, actions) && |actions| == 3 && states[0] == s
    ensures states[3].reader == s.reader && Shaped(states[3].shared)
    ensures |states[3].shared.threads| > 0 && states[3].shared.threads[0] == MaxDone(k, 1.0)
    ensures states[3].shared.stages[k].hist == s.shared.stages[k].hist
  {
    var s0, c, r := s.shared, s.shared.stages[k], s.reader;
    var ns := Nanoseconds(1.0);
    var s1 := WithCounters(s0, 0, Totaled(k, 1.0), k, c.(total := c.total + ns));
    var s2 := s1.(threads := s1.threads[0 := Comparing(k, 1.0, 0)]);
    var s3 := WithCounters(s2, 0, MaxDone(k, 1.0), k, s2.stages[k].(max := ns));
    states := [s, Observed(s1, r), Observed(s2, r), Observed(s3, r)];
    actions := [Record(0, AddTotal), Record(0, LoadMax), Record(0, SwapMax(false))];
  }
}
