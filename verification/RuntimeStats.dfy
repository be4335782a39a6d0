/**
 The runtime statistics: Record as a step system of atomic actions, over every interleaving of any number of
 threads.
 */
module RuntimeStats {
  const STAGES: nat := 9
  const BUCKETS: nat := 300

  // ----- Durations in milliseconds -----

  /** Conversion to an integer type: towards zero. */
  function Trunc(x: real): (r: int) { if x >= 0.0 then x.Floor else -((-x).Floor) }

  function Nanoseconds(ms: real): (r: int) { Trunc(ms * 1000000.0) }

  /** Buckets are a tenth of a millisecond wide; what is out of range goes to the first or last one. */
  function Bucket(ms: real): (b: nat)
    ensures b < BUCKETS
  {
    var b := Trunc(ms * 10.0);
    if b >= BUCKETS then BUCKETS - 1 else if b < 0 then 0 else b
  }

  // ----- Shared state and threads -----

  datatype Counters = Counters(count: int, total: int, max: int, hist: seq<int>)

  /** Where a thread is inside Record. */
  datatype Pc =
    | Idle
    | Counted(stage: nat, ms: real)
    | Totaled(stage: nat, ms: real)
    | Comparing(stage: nat, ms: real, oldMax: int)
    | MaxDone(stage: nat, ms: real)

  /** `done[k]` are the durations of the calls for stage k that have taken their last step, in that order. */
  datatype State = State(stages: seq<Counters>, threads: seq<Pc>, started: seq<seq<real>>, done: seq<seq<real>>)

  datatype Step =
    | Begin(stage: nat, ms: real)   // m_counts[stage]++
    | AddTotal                      // fetch_add on m_total_times
    | LoadMax                       // load of m_max_times
    | SwapMax(spurious: bool)       // one test of the loop condition with its compare_exchange_weak
    | AddHist                       // fetch_add on the bucket

  predicate Init(s: State) {
    && |s.stages| == STAGES && |s.started| == STAGES && |s.done| == STAGES
    && (forall k | 0 <= k < STAGES ::
          && s.stages[k] == Counters(0, 0, 0, seq(BUCKETS, _ => 0)) && s.started[k] == [] && s.done[k] == [])
    && forall i | 0 <= i < |s.threads| :: s.threads[i] == Idle
  }

  predicate Shaped(s: State) {
    && |s.stages| == STAGES && |s.started| == STAGES && |s.done| == STAGES
    && (forall k | 0 <= k < STAGES :: |s.stages[k].hist| == BUCKETS)
    && forall i | 0 <= i < |s.threads| :: s.threads[i] != Idle ==> s.threads[i].stage < STAGES
  }

  function WithCounters(s: State, i: nat, pc: Pc, stage: nat, c: Counters): (r: State)
    requires i < |s.threads| && stage < |s.stages|
  {
    s.(threads := s.threads[i := pc], stages := s.stages[stage := c])
  }

  /** Thread i takes one atomic step. */
  predicate Next(s: State, i: nat, step: Step, t: State) {
    Shaped(s) && i < |s.threads| &&
    match (step, s.threads[i])
    case (Begin(k, ms), Idle) =>
      && k < STAGES
      && var c := s.stages[k];
         t == WithCounters(s, i, Counted(k, ms), k, c.(count := c.count + 1))
              .(started := s.started[k := s.started[k] + [ms]])
    case (AddTotal, Counted(k, ms)) =>
      var c := s.stages[k];
      t == WithCounters(s, i, Totaled(k, ms), k, c.(total := c.total + Nanoseconds(ms)))
    case (LoadMax, Totaled(k, ms)) =>
      t == s.(threads := s.threads[i := Comparing(k, ms, s.stages[k].max)])
    case (SwapMax(spurious), Comparing(k, ms, oldMax)) =>
      var c, ns := s.stages[k], Nanoseconds(ms);
      if ns <= oldMax then t == s.(threads := s.threads[i := MaxDone(k, ms)])
      else if c.max == oldMax && !spurious then t == WithCounters(s, i, MaxDone(k, ms), k, c.(max := ns))
      else t == s.(threads := s.threads[i := Comparing(k, ms, c.max)])
    case (AddHist, MaxDone(k, ms)) =>
      var c, b := s.stages[k], Bucket(ms);
      t == WithCounters(s, i, Idle, k, c.(hist := c.hist[b := c.hist[b] + 1]))
           .(done := s.done[k := s.done[k] + [ms]])
    case _ => false
  }

  // ----- Counting -----

  function Sum(hist: seq<int>): (r: int) {
    if hist == [] then 0 else Sum(hist[..|hist| - 1]) + hist[|hist| - 1]
  }

  lemma {:induction false} SumUpdate(hist: seq<int>, b: nat, x: int)
    requires b < |hist|
    ensures Sum(hist[b := x]) == Sum(hist) + x - hist[b]
  {
    var n := |hist| - 1;
    if b == n {
      assert hist[b := x][..n] == hist[..n];
    } else {
      SumUpdate(hist[..n], b, x);
      assert hist[b := x][..n] == hist[..n][b := x];
    }
  }

  function SumOver(threads: seq<Pc>, f: Pc -> int, n: nat): (r: int)
    requires n <= |threads|
  {
    if n == 0 then 0 else SumOver(threads, f, n - 1) + f(threads[n - 1])
  }

  lemma {:induction false} SumOverUpdate(threads: seq<Pc>, i: nat, pc: Pc, f: Pc -> int, n: nat)
    requires i < |threads| && n <= |threads|
    ensures SumOver(threads[i := pc], f, n) == SumOver(threads, f, n) + if i < n then f(pc) - f(threads[i]) else 0
  {
    if n > 0 {
      SumOverUpdate(threads, i, pc, f, n - 1);
    }
  }

  lemma {:induction false} SumOverZero(threads: seq<Pc>, f: Pc -> int, n: nat)
    requires n <= |threads| && forall i | 0 <= i < n :: f(threads[i]) == 0
    ensures SumOver(threads, f, n) == 0
  {
    if n > 0 {
      SumOverZero(threads, f, n - 1);
    }
  }

  /** 1 for a thread between the first and the last step of a call for stage k. */
  function Inside(k: nat): (r: Pc -> int) { (pc: Pc) => if pc != Idle && pc.stage == k then 1 else 0 }

  /** What a call for stage k that has been counted has not yet added to the total. */
  function Owed(k: nat): (r: Pc -> int) { (pc: Pc) => if pc.Counted? && pc.stage == k then Nanoseconds(pc.ms) else 0 }

  function InFlight(s: State, k: nat): (r: int) { SumOver(s.threads, Inside(k), |s.threads|) }

  function Unpaid(s: State, k: nat): (r: int) { SumOver(s.threads, Owed(k), |s.threads|) }

  function SumNs(calls: seq<real>): (r: int) {
    if calls == [] then 0 else SumNs(calls[..|calls| - 1]) + Nanoseconds(calls[|calls| - 1])
  }

  lemma SumNsOneMore(calls: seq<real>, ms: real)
    ensures SumNs(calls + [ms]) == SumNs(calls) + Nanoseconds(ms)
  {
    assert (calls + [ms])[..|calls|] == calls;
  }

  /** How many durations fall into bucket b. */
  function InBucket(calls: seq<real>, b: nat): (r: nat) {
    if calls == [] then 0 else InBucket(calls[..|calls| - 1], b) + if Bucket(calls[|calls| - 1]) == b then 1 else 0
  }

  lemma InBucketOneMore(calls: seq<real>, ms: real, b: nat)
    ensures InBucket(calls + [ms], b) == InBucket(calls, b) + if Bucket(ms) == b then 1 else 0
  {
    assert (calls + [ms])[..|calls|] == calls;
  }

  // ----- The invariant, stage by stage -----

  /** Calls are counted at their first step, put into the histogram at their last, and paid for in between. */
  ghost predicate Conserved(s: State, k: nat)
    requires Shaped(s) && k < STAGES
  {
    var c := s.stages[k];
    && c.count == |s.started[k]|
    && Sum(c.hist) == |s.done[k]|
    && c.count - Sum(c.hist) == InFlight(s, k)
    && c.total + Unpaid(s, k) == SumNs(s.started[k])
  }

  ghost predicate HistIsDone(s: State, k: nat)
    requires Shaped(s) && k < STAGES
  {
    forall b | 0 <= b < BUCKETS :: s.stages[k].hist[b] == InBucket(s.done[k], b)
  }

  predicate ThreadOk(s: State, i: nat)
    requires Shaped(s) && i < |s.threads|
  {
    match s.threads[i]
    case Idle => true
    case Comparing(k, ms, oldMax) => ms in s.started[k] && oldMax <= s.stages[k].max
    case MaxDone(k, ms) => ms in s.started[k] && Nanoseconds(ms) <= s.stages[k].max
    case pc => pc.ms in s.started[pc.stage]
  }

  ghost predicate MaxOk(s: State, k: nat)
    requires Shaped(s) && k < STAGES
  {
    var max := s.stages[k].max;
    && 0 <= max
    && (max == 0 || exists ms :: ms in s.started[k] && Nanoseconds(ms) == max)
    && forall ms | ms in s.done[k] :: Nanoseconds(ms) <= max
  }

  ghost predicate Inv(s: State) {
    && Shaped(s)
    && (forall k | 0 <= k < STAGES :: Conserved(s, k) && HistIsDone(s, k) && MaxOk(s, k))
    && forall i | 0 <= i < |s.threads| :: ThreadOk(s, i)
  }

  lemma StepKeepsShape(s: State, i: nat, step: Step, t: State)
    requires Next(s, i, step, t)
    ensures Shaped(t) && |t.threads| == |s.threads|
    ensures t.threads == s.threads[i := t.threads[i]]
  {}

  lemma StepKeepsConserved(s: State, i: nat, step: Step, t: State, k: nat)
    requires Next(s, i, step, t) && Shaped(t) && k < STAGES && Conserved(s, k)
    ensures Conserved(t, k)
  {
    StepKeepsShape(s, i, step, t);
    SumOverUpdate(s.threads, i, t.threads[i], Inside(k), |s.threads|);
    SumOverUpdate(s.threads, i, t.threads[i], Owed(k), |s.threads|);
    match step
    case Begin(stage, ms) =>
      SumNsOneMore(s.started[stage], ms);
    case AddHist =>
      var pc := s.threads[i];
      var hist := s.stages[pc.stage].hist;
      SumUpdate(hist, Bucket(pc.ms), hist[Bucket(pc.ms)] + 1);
    case _ =>
  }

  lemma StepKeepsHist(s: State, i: nat, step: Step, t: State, k: nat)
    requires Next(s, i, step, t) && Shaped(t) && k < STAGES && HistIsDone(s, k)
    ensures HistIsDone(t, k)
  {
    if step.AddHist? && s.threads[i].stage == k {
      forall b | 0 <= b < BUCKETS ensures t.stages[k].hist[b] == InBucket(t.done[k], b) {
        InBucketOneMore(s.done[k], s.threads[i].ms, b);
      }
    }
  }

  /** No step lowers a maximum. */
  lemma MaxGrows(s: State, i: nat, step: Step, t: State, k: nat)
    requires Next(s, i, step, t) && Shaped(t) && k < STAGES
    ensures s.stages[k].max <= t.stages[k].max
  {}

  lemma StepKeepsMax(s: State, i: nat, step: Step, t: State, k: nat)
    requires Next(s, i, step, t) && Shaped(t) && k < STAGES && MaxOk(s, k) && ThreadOk(s, i)
    ensures MaxOk(t, k)
  {
    var max := s.stages[k].max;
    if max != 0 {
      var ms :| ms in s.started[k] && Nanoseconds(ms) == max;
      assert ms in t.started[k];
    }
  }

  lemma StepKeepsThread(s: State, i: nat, step: Step, t: State, j: nat)
    requires Next(s, i, step, t) && Shaped(t) && j < |s.threads| && |t.threads| == |s.threads|
    requires ThreadOk(s, i) && ThreadOk(s, j)
    ensures ThreadOk(t, j)
  {}

  lemma StepKeepsInv(s: State, i: nat, step: Step, t: State)
    requires Inv(s) && Next(s, i, step, t)
    ensures Inv(t)
  {
    StepKeepsShape(s, i, step, t);
    forall k | 0 <= k < STAGES ensures Conserved(t, k) && HistIsDone(t, k) && MaxOk(t, k) {
      StepKeepsConserved(s, i, step, t, k);
      StepKeepsHist(s, i, step, t, k);
      StepKeepsMax(s, i, step, t, k);
    }
    forall j | 0 <= j < |t.threads| ensures ThreadOk(t, j) {
      StepKeepsThread(s, i, step, t, j);
    }
  }

  // ----- Every run -----

  /** A run: in state n, thread movers[n] takes step steps[n]. */
  ghost predicate Run(states: seq<State>, movers: seq<nat>, steps: seq<Step>) {
    && |states| == |steps| + 1 && |movers| == |steps| && Init(states[0])
    && forall n | 0 <= n < |steps| :: Next(states[n], movers[n], steps[n], states[n + 1])
  }

  lemma InitInv(s: State)
    requires Init(s)
    ensures Inv(s)
  {
    forall k | 0 <= k < STAGES ensures Conserved(s, k) && HistIsDone(s, k) {
      SumOverZero(s.threads, Inside(k), |s.threads|);
      SumOverZero(s.threads, Owed(k), |s.threads|);
      SumOfZeros(s.stages[k].hist);
    }
  }

  lemma {:induction false} SumOfZeros(hist: seq<int>)
    requires forall b | 0 <= b < |hist| :: hist[b] == 0
    ensures Sum(hist) == 0
  {
    if hist != [] {
      SumOfZeros(hist[..|hist| - 1]);
    }
  }

  lemma {:induction false} RunKeepsInv(states: seq<State>, movers: seq<nat>, steps: seq<Step>, n: nat)
    requires Run(states, movers, steps) && n < |states|
    ensures Inv(states[n])
  {
    if n == 0 {
      InitInv(states[0]);
    } else {
      RunKeepsInv(states, movers, steps, n - 1);
      StepKeepsInv(states[n - 1], movers[n - 1], steps[n - 1], states[n]);
    }
  }

  /**
   In every reachable state: the count runs ahead of the histogram by exactly the calls in flight, and the total
   is that of all counted calls but for what those in flight have yet to add.
   */
  lemma CountsConserved(states: seq<State>, movers: seq<nat>, steps: seq<Step>, n: nat, k: nat)
    requires Run(states, movers, steps) && n < |states| && k < STAGES
    ensures Shaped(states[n])
    ensures var s := states[n];
            && s.stages[k].count - Sum(s.stages[k].hist) == InFlight(s, k)
            && s.stages[k].count == |s.started[k]|
            && s.stages[k].total == SumNs(s.started[k]) - Unpaid(s, k)
            && forall b | 0 <= b < BUCKETS :: s.stages[k].hist[b] == InBucket(s.done[k], b)
  {
    RunKeepsInv(states, movers, steps, n);
    assert Conserved(states[n], k) && HistIsDone(states[n], k);
  }

  /**
   The maximum never decreases; it is 0 or a recorded duration, and at least that of every completed call, even
   when compare_exchange_weak fails spuriously.
   */
  lemma {:induction false} MaxIsMax(states: seq<State>, movers: seq<nat>, steps: seq<Step>, m: nat, n: nat, k: nat)
    requires Run(states, movers, steps) && m <= n < |states| && k < STAGES
    ensures Shaped(states[m]) && Shaped(states[n])
    ensures states[m].stages[k].max <= states[n].stages[k].max
    ensures var max := states[n].stages[k].max;
            && (max == 0 || exists ms :: ms in states[n].started[k] && Nanoseconds(ms) == max)
            && forall ms | ms in states[n].done[k] :: Nanoseconds(ms) <= max
    decreases n
  {
    RunKeepsInv(states, movers, steps, m);
    RunKeepsInv(states, movers, steps, n);
    assert MaxOk(states[n], k);
    if m < n {
      MaxIsMax(states, movers, steps, m, n - 1, k);
      MaxGrows(states[n - 1], movers[n - 1], steps[n - 1], states[n], k);
    }
  }
}
