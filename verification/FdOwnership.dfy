/** Ownership of connections in the reactor: every interleaving of the accepting thread and the workers. */
module FdOwnership {
  import opened Tickets
  import opened Reactor
  import Bytes

  /**
   A worker: its hand-off vector, which is `taken` + `queue` while the worker goes through it under the mutex, and its
   poll array, whose entries are `live` or, between the close of their descriptor and their removal, `stale`.
   */
  datatype Worker = Worker(
    taken: seq<int>, queue: seq<int>, locked: bool,
    live: multiset<int>, stale: multiset<int>, running: bool)

  datatype State = State(
    workers: seq<Worker>,
    next: nat,             // the accepting thread's round-robin counter
    accepted: seq<int>,    // descriptors that accept returned
    closed: seq<int>,      // descriptors closed
    handed: seq<nat>)      // connections handed to each worker

  datatype Step =
    | Accept(fd: int)
    | Lock(w: nat)            // a worker begins to adopt
    | Take(w: nat)            // one new descriptor enters the array, or is closed when the array is full
    | Unlock(w: nat)          // the vector is cleared
    | Close(w: nat, fd: int)  // of an entry, by the scan or, once the worker has stopped, by the clean-up
    | Remove(w: nat)          // the scan drops the entry that it has closed
    | Stop(w: nat)

  function HeldBy(w: Worker): (r: multiset<int>) { multiset(w.queue) + w.live }

  function Has(w: Worker, fd: int): (r: int) { multiset(w.queue)[fd] + w.live[fd] }

  /** How often the first k workers hold a descriptor. */
  function Held(workers: seq<Worker>, k: nat, fd: int): (r: int)
    requires k <= |workers|
  {
    if k == 0 then 0 else Held(workers, k - 1, fd) + Has(workers[k - 1], fd)
  }

  function HeldByAll(s: State, fd: int): (r: int) { Held(s.workers, |s.workers|, fd) }

  const IDLE_WORKER: Worker := Worker([], [], false, multiset{}, multiset{}, true)

  predicate Init(s: State) {
    && |s.workers| > 0 && (forall w | 0 <= w < |s.workers| :: s.workers[w] == IDLE_WORKER)
    && s.next == 0 && s.accepted == [] && s.closed == []
    && |s.handed| == |s.workers| && forall w | 0 <= w < |s.handed| :: s.handed[w] == 0
  }

  function HandedOver(s: State, fd: int): (t: State)
    requires |s.workers| > 0 && |s.handed| == |s.workers|
  {
    var i := s.next % |s.workers|;
    s.(workers := s.workers[i := s.workers[i].(queue := s.workers[i].queue + [fd])],
       next := s.next + 1, accepted := s.accepted + [fd], handed := s.handed[i := s.handed[i] + 1])
  }

  /** Worker w goes on as `worker` after closing the descriptors in `shut`. */
  function Becomes(s: State, w: nat, worker: Worker, shut: seq<int>): (t: State)
    requires w < |s.workers|
  {
    s.(workers := s.workers[w := worker], closed := s.closed + shut)
  }

  function Taken(a: Worker): (b: Worker)
    requires a.queue != []
  {
    a.(taken := a.taken + [a.queue[0]], queue := a.queue[1..])
  }

  /** What a worker's step makes of it, and what the step closes. */
  predicate WorkerStep(a: Worker, step: Step, b: Worker, shut: seq<int>) {
    match step
    case Accept(_) => false
    case Lock(_) =>
      a.running && !a.locked && a.stale == multiset{} && b == a.(locked := true) && shut == []
    case Take(_) =>
      && a.locked && a.queue != []
      && var fd := a.queue[0];
         if |a.live| < MAX_FDS then b == Taken(a).(live := a.live + multiset{fd}) && shut == []
         else b == Taken(a) && shut == [fd]
    case Unlock(_) =>
      a.locked && a.queue == [] && b == a.(taken := [], locked := false) && shut == []
    case Close(_, fd) =>
      && !a.locked && fd in a.live && (a.running ==> a.stale == multiset{})
      && b == a.(live := a.live - multiset{fd}, stale := a.stale + multiset{fd}) && shut == [fd]
    case Remove(_) =>
      a.running && !a.locked && b == a.(stale := multiset{}) && shut == []
    case Stop(_) =>
      a.running && !a.locked && a.stale == multiset{} && b == a.(running := false) && shut == []
  }

  ghost predicate Next(s: State, step: Step, t: State) {
    match step
    case Accept(fd) =>
      // accept never returns a descriptor that is still open
      && multiset(s.accepted)[fd] == multiset(s.closed)[fd]
      && |s.workers| > 0 && |s.handed| == |s.workers|
      && !s.workers[s.next % |s.workers|].locked
      && t == HandedOver(s, fd)
    case _ =>
      && step.w < |s.workers|
      && exists worker, shut ::
           WorkerStep(s.workers[step.w], step, worker, shut) && t == Becomes(s, step.w, worker, shut)
  }

  ghost predicate Path(states: seq<State>, steps: seq<Step>) {
    && |states| == |steps| + 1
    && forall i | 0 <= i < |steps| :: Next(states[i], steps[i], states[i + 1])
  }

  ghost predicate Run(states: seq<State>, steps: seq<Step>) {
    Path(states, steps) && Init(states[0])
  }

  /** A descriptor is held by the workers as often as it was accepted and not closed: once or not at all. */
  predicate Owned(s: State, fd: int) {
    HeldByAll(s, fd) + multiset(s.closed)[fd] == multiset(s.accepted)[fd] && HeldByAll(s, fd) <= 1
  }

  predicate WorkerOk(w: Worker) {
    && |w.live| + |w.stale| <= MAX_FDS
    && (!w.locked ==> w.taken == []) && (w.locked ==> w.stale == multiset{})
  }

  ghost predicate Bounded(s: State) {
    forall w | 0 <= w < |s.workers| :: WorkerOk(s.workers[w])
  }

  ghost predicate Balanced(s: State) {
    && |s.workers| > 0 && |s.handed| == |s.workers|
    && forall w | 0 <= w < |s.workers| :: s.handed[w] == Hits(0, s.next, |s.workers|, w)
  }

  ghost predicate Inv(s: State) {
    (forall fd :: Owned(s, fd)) && Bounded(s) && Balanced(s)
  }

  lemma {:induction false} HeldUpdate(workers: seq<Worker>, i: nat, w: Worker, k: nat, fd: int)
    requires i < |workers| && k <= |workers|
    ensures Held(workers[i := w], k, fd)
         == Held(workers, k, fd) + if i < k then Has(w, fd) - Has(workers[i], fd) else 0
  {
    if k > 0 {
      HeldUpdate(workers, i, w, k - 1, fd);
    }
  }

  /** What a worker gives up in a step is what the step closes. */
  lemma WorkerStepConserves(a: Worker, step: Step, b: Worker, shut: seq<int>)
    requires WorkerOk(a) && WorkerStep(a, step, b, shut)
    ensures HeldBy(b) + multiset(shut) == HeldBy(a)
  {
    if step.Take? {
      assert a.queue == [a.queue[0]] + b.queue;
    }
  }

  lemma WorkerStepKeepsOk(a: Worker, step: Step, b: Worker, shut: seq<int>)
    requires WorkerOk(a) && WorkerStep(a, step, b, shut)
    ensures WorkerOk(b)
  {}

  lemma ClosingKeepsOwned(s: State, w: nat, worker: Worker, shut: seq<int>, fd: int)
    requires Owned(s, fd) && w < |s.workers|
    requires HeldBy(worker) + multiset(shut) == HeldBy(s.workers[w])
    ensures Owned(Becomes(s, w, worker, shut), fd)
  {
    HeldUpdate(s.workers, w, worker, |s.workers|, fd);
    assert (HeldBy(worker) + multiset(shut))[fd] == HeldBy(s.workers[w])[fd];
  }

  lemma AcceptKeepsOwned(s: State, conn: int, t: State, fd: int)
    requires Owned(s, fd) && Bounded(s) && Next(s, Accept(conn), t)
    ensures Owned(t, fd)
  {
    var i := s.next % |s.workers|;
    HeldUpdate(s.workers, i, t.workers[i], |s.workers|, fd);
    assert HeldBy(t.workers[i]) == HeldBy(s.workers[i]) + multiset{conn};
  }

  lemma StepKeepsOwned(s: State, step: Step, t: State, fd: int)
    requires Owned(s, fd) && Bounded(s) && Next(s, step, t)
    ensures Owned(t, fd)
  {
    if step.Accept? {
      AcceptKeepsOwned(s, step.fd, t, fd);
    } else {
      var worker, shut :| WorkerStep(s.workers[step.w], step, worker, shut) && t == Becomes(s, step.w, worker, shut);
      WorkerStepConserves(s.workers[step.w], step, worker, shut);
      ClosingKeepsOwned(s, step.w, worker, shut, fd);
    }
  }

  lemma StepKeepsBounded(s: State, step: Step, t: State)
    requires Bounded(s) && Next(s, step, t)
    ensures Bounded(t)
  {
    if !step.Accept? {
      var worker, shut :| WorkerStep(s.workers[step.w], step, worker, shut) && t == Becomes(s, step.w, worker, shut);
      WorkerStepKeepsOk(s.workers[step.w], step, worker, shut);
    }
  }

  lemma StepKeepsBalanced(s: State, step: Step, t: State)
    requires Balanced(s) && Next(s, step, t)
    ensures Balanced(t)
  {
    assert step.Accept? ==>
        forall w | 0 <= w < |t.workers| ::
          Hits(0, t.next, |t.workers|, w)
          == Hits(0, s.next, |s.workers|, w) + if s.next % |s.workers| == w then 1 else 0;
  }

  lemma {:induction false} InitiallyOwned(s: State, k: nat, fd: int)
    requires Init(s) && k <= |s.workers|
    ensures Held(s.workers, k, fd) == 0
  {
    if k > 0 {
      InitiallyOwned(s, k - 1, fd);
    }
  }

  lemma {:induction false} RunKeepsInv(states: seq<State>, steps: seq<Step>, i: nat)
    requires Run(states, steps) && i < |states|
    ensures Inv(states[i])
  {
    if i == 0 {
      forall fd ensures Owned(states[0], fd) {
        InitiallyOwned(states[0], |states[0].workers|, fd);
      }
    } else {
      RunKeepsInv(states, steps, i - 1);
      forall fd ensures Owned(states[i], fd) {
        StepKeepsOwned(states[i - 1], steps[i - 1], states[i], fd);
      }
      StepKeepsBounded(states[i - 1], steps[i - 1], states[i]);
      StepKeepsBalanced(states[i - 1], steps[i - 1], states[i]);
    }
  }

  lemma {:induction false} HeldByOne(workers: seq<Worker>, v: nat, k: nat, fd: int)
    requires k <= |workers|
    ensures Held(workers, k, fd) >= if v < k then HeldBy(workers[v])[fd] else 0
  {
    if k > 0 {
      HeldByOne(workers, v, k - 1, fd);
    }
  }

  lemma {:induction false} HeldByTwo(workers: seq<Worker>, v: nat, w: nat, k: nat, fd: int)
    requires v < w < k <= |workers|
    ensures HeldBy(workers[v])[fd] + HeldBy(workers[w])[fd] <= Held(workers, k, fd)
  {
    if w < k - 1 {
      HeldByTwo(workers, v, w, k - 1, fd);
    } else {
      HeldByOne(workers, v, k - 1, fd);
    }
  }

  /**
   In every state of every run: a descriptor is held once while it is open and not at all otherwise; what one
   worker holds, in its queue or its array, no other worker holds, and it is not in both.
   */
  lemma OwnedOnceOrClosed(states: seq<State>, steps: seq<Step>, i: nat, fd: int, v: nat, w: nat)
    requires Run(states, steps) && i < |states| && v < |states[i].workers| && w < |states[i].workers|
    ensures var s := states[i];
            && HeldByAll(s, fd) + multiset(s.closed)[fd] == multiset(s.accepted)[fd]
            && 0 <= HeldByAll(s, fd) <= 1
            && (fd in HeldBy(s.workers[v]) && fd in HeldBy(s.workers[w]) ==> v == w)
            && multiset(s.workers[v].queue)[fd] + s.workers[v].live[fd] <= 1
  {
    RunKeepsInv(states, steps, i);
    var s := states[i];
    assert Owned(s, fd);
    HeldByOne(s.workers, v, |s.workers|, fd);
    if v < w {
      HeldByTwo(s.workers, v, w, |s.workers|, fd);
    } else if w < v {
      HeldByTwo(s.workers, w, v, |s.workers|, fd);
    }
  }

  /** All numbers in a worker's memory. */
  function Stored(w: Worker): (r: multiset<int>) { multiset(w.taken + w.queue) + w.live + w.stale }

  /** The numbers in memory that are dealt with: of an entry not yet removed, or in a vector not yet cleared. */
  function Leftover(w: Worker): (r: multiset<int>) { multiset(w.taken) + w.stale }

  /** A number is in the memory of two workers only while one of them has dealt with it and not yet dropped it. */
  lemma InTwoOnlyWhileLeaving(states: seq<State>, steps: seq<Step>, i: nat, fd: int, v: nat, w: nat)
    requires Run(states, steps) && i < |states| && v < |states[i].workers| && w < |states[i].workers| && v != w
    requires fd in Stored(states[i].workers[v]) && fd in Stored(states[i].workers[w])
    ensures fd in Leftover(states[i].workers[v]) || fd in Leftover(states[i].workers[w])
  {
    OwnedOnceOrClosed(states, steps, i, fd, v, w);
  }

  /** Arrays never overflow, and any two workers get equally many connections up to one. */
  lemma CapacityAndBalance(states: seq<State>, steps: seq<Step>, i: nat, v: nat, w: nat)
    requires Run(states, steps) && i < |states| && v < |states[i].workers| && w < |states[i].workers|
    ensures |states[i].handed| == |states[i].workers|
    ensures |states[i].workers[v].live| + |states[i].workers[v].stale| <= MAX_FDS
    ensures states[i].handed[v] <= states[i].handed[w] + 1
  {
    RunKeepsInv(states, steps, i);
    Fair(0, states[i].next, |states[i].workers|, v);
    Fair(0, states[i].next, |states[i].workers|, w);
  }

  // ----- The worker's loops are paths of the step system -----

  lemma {:induction false} SameEntriesSameFds(a: seq<PollFd>, b: seq<PollFd>)
    requires multiset(a) == multiset(b)
    ensures multiset(FdsOf(a)) == multiset(FdsOf(b))
  {
    assert |a| == |multiset(a)| == |multiset(b)| == |b|;
    if a != [] {
      var k := |a| - 1;
      assert a[k] in multiset(b);
      var i :| 0 <= i < |b| && b[i] == a[k];
      EntryOut(a, k);
      EntryOut(b, i);
      SameEntriesSameFds(a[..k] + a[k + 1..], b[..i] + b[i + 1..]);
    }
  }

  lemma EntryOut(s: seq<PollFd>, i: nat)
    requires i < |s|
    ensures var rest := s[..i] + s[i + 1..];
            && multiset(rest) == multiset(s) - multiset{s[i]}
            && multiset(FdsOf(s)) == multiset(FdsOf(rest)) + multiset{s[i].fd}
  {
    assert s == s[..i] + [s[i]] + s[i + 1..];
    assert FdsOf(s) == FdsOf(s[..i]) + [s[i].fd] + FdsOf(s[i + 1..]);
    assert FdsOf(s[..i] + s[i + 1..]) == FdsOf(s[..i]) + FdsOf(s[i + 1..]);
  }

  lemma PathCons(s: State, step: Step, states: seq<State>, steps: seq<Step>)
    requires Path(states, steps) && Next(s, step, states[0])
    ensures Path([s] + states, [step] + steps)
  {}

  lemma {:induction false} CloseAll(s: State, w: nat, shut: seq<int>) returns (states: seq<State>, steps: seq<Step>)
    requires w < |s.workers| && var a := s.workers[w];
                                a.running && !a.locked && a.stale == multiset{} && multiset(shut) <= a.live
    ensures Path(states, steps) && states[0] == s
    ensures var a := s.workers[w];
            states[|steps|] == Becomes(s, w, a.(live := a.live - multiset(shut)), shut)
    decreases |shut|
  {
    var a := s.workers[w];
    if shut == [] {
      states, steps := [s], [];
      NothingShut(s, w);
    } else {
      var s1, s2 := CloseOne(s, w, shut[0]);
      assert shut == [shut[0]] + shut[1..];
      states, steps := CloseAll(s2, w, shut[1..]);
      ClosedInTurn(s, w, shut, s2, states[|steps|]);
      PathCons(s1, Remove(w), states, steps);
      states, steps := [s1] + states, [Remove(w)] + steps;
      PathCons(s, Close(w, shut[0]), states, steps);
      states, steps := [s] + states, [Close(w, shut[0])] + steps;
    }
  }

  lemma NothingShut(s: State, w: nat)
    requires w < |s.workers|
    ensures Becomes(s, w, s.workers[w].(live := s.workers[w].live - multiset([])), []) == s
    ensures Becomes(s, w, s.workers[w], []) == s
  {
    assert s.workers[w].live - multiset([]) == s.workers[w].live;
    assert s.workers[w := s.workers[w]] == s.workers && s.closed + [] == s.closed;
  }

  lemma CloseOne(s: State, w: nat, fd: int) returns (s1: State, s2: State)
    requires w < |s.workers| && var a := s.workers[w];
                                a.running && !a.locked && a.stale == multiset{} && fd in a.live
    ensures Next(s, Close(w, fd), s1) && Next(s1, Remove(w), s2)
    ensures var a := s.workers[w];
            s1 == Becomes(s, w, a.(live := a.live - multiset{fd}, stale := multiset{fd}), [fd])
    ensures s2 == Becomes(s, w, s.workers[w].(live := s.workers[w].live - multiset{fd}), [fd])
  {
    var a := s.workers[w];
    var b := a.(live := a.live - multiset{fd}, stale := a.stale + multiset{fd});
    assert b.stale == multiset{fd};
    var c := b.(stale := multiset{});
    s1 := Becomes(s, w, b, [fd]);
    s2 := Becomes(s1, w, c, []);
    assert WorkerStep(a, Close(w, fd), b, [fd]) && WorkerStep(b, Remove(w), c, []);
  }

  lemma ClosedInTurn(s: State, w: nat, shut: seq<int>, s2: State, t: State)
    requires w < |s.workers| && shut != [] && multiset(shut) <= s.workers[w].live
    requires s2 == Becomes(s, w, s.workers[w].(live := s.workers[w].live - multiset{shut[0]}), [shut[0]])
    requires t == Becomes(s2, w, s2.workers[w].(live := s2.workers[w].live - multiset(shut[1..])), shut[1..])
    ensures t == Becomes(s, w, s.workers[w].(live := s.workers[w].live - multiset(shut)), shut)
  {
    assert shut == [shut[0]] + shut[1..];
    Bytes.Assoc(s.closed, [shut[0]], shut[1..]);
    var live := s.workers[w].live;
    assert live - multiset{shut[0]} - multiset(shut[1..]) == live - multiset(shut);
  }

  /** What ScanReady guarantees about the entries is a path: each closed entry by a close and then its removal. */
  lemma ScanIsAPath(entries: seq<PollFd>, survivors: seq<PollFd>, shut: seq<PollFd>, s: State, w: nat)
    returns (states: seq<State>, steps: seq<Step>)
    requires multiset(survivors) + multiset(shut) == multiset(entries)
    requires w < |s.workers| && var a := s.workers[w];
                                a.running && !a.locked && a.stale == multiset{} && a.live == multiset(FdsOf(entries))
    ensures Path(states, steps) && states[0] == s
    ensures states[|steps|] == Becomes(s, w, s.workers[w].(live := multiset(FdsOf(survivors))), FdsOf(shut))
  {
    SameEntriesSameFds(survivors + shut, entries);
    assert FdsOf(survivors + shut) == FdsOf(survivors) + FdsOf(shut);
    states, steps := CloseAll(s, w, FdsOf(shut));
    assert s.workers[w].live - multiset(FdsOf(shut)) == multiset(FdsOf(survivors));
  }

  lemma AdoptedInTurn(live: seq<int>, fd: int, queue: seq<int>, rest: seq<int>)
    requires |live| <= MAX_FDS && queue == [fd] + rest
    ensures if |live| < MAX_FDS then Adopted(live, queue, MAX_FDS) == Adopted(live + [fd], rest, MAX_FDS)
            else Adopted(live, queue, MAX_FDS).live == Adopted(live, rest, MAX_FDS).live
                 && Adopted(live, queue, MAX_FDS).closed == [fd] + Adopted(live, rest, MAX_FDS).closed
  {
    if |live| < MAX_FDS {
      var k := Bytes.Min(|rest|, MAX_FDS - |live| - 1);
      assert queue[..k + 1] == [fd] + rest[..k];
      assert live + queue[..k + 1] == live + [fd] + rest[..k];
    }
  }

  lemma TakeOne(s: State, w: nat, live: seq<int>) returns (t: State, live': seq<int>, shut: seq<int>)
    requires w < |s.workers| && var a := s.workers[w];
                                a.locked && a.queue != [] && a.live == multiset(live) && |live| <= MAX_FDS
    ensures Next(s, Take(w), t) && t == Becomes(s, w, Taken(s.workers[w]).(live := multiset(live')), shut)
    ensures |live'| <= MAX_FDS
    ensures var a, queue := Adopted(live', s.workers[w].queue[1..], MAX_FDS), s.workers[w].queue;
            Adopted(live, queue, MAX_FDS) == Adoption(a.live, shut + a.closed)
  {
    var a := s.workers[w];
    var fd := a.queue[0];
    var room := |live| < MAX_FDS;
    live', shut := if room then live + [fd] else live, if room then [] else [fd];
    var b := Taken(a).(live := multiset(live'));
    assert |a.live| == |live| && WorkerStep(a, Take(w), b, shut);
    t := Becomes(s, w, b, shut);
    assert a.queue == [fd] + a.queue[1..];
    AdoptedInTurn(live, fd, a.queue, a.queue[1..]);
    assert [] + Adopted(live', a.queue[1..], MAX_FDS).closed == Adopted(live', a.queue[1..], MAX_FDS).closed;
  }

  lemma TakenInTurn(s: State, w: nat, shut: seq<int>, t: State, rest: Adoption)
    requires w < |s.workers| == |t.workers| && s.workers[w].queue != []
    requires t == Becomes(s, w, t.workers[w], shut)
    requires t.workers[w] == Taken(s.workers[w]).(live := t.workers[w].live)
    ensures var a, b := s.workers[w], t.workers[w];
            var c := a.(taken := a.taken + a.queue, queue := [], live := multiset(rest.live));
            && Becomes(t, w, b.(taken := b.taken + b.queue, queue := [], live := multiset(rest.live)), rest.closed)
            == Becomes(s, w, c, shut + rest.closed)
  {
    var a := s.workers[w];
    Bytes.Assoc(s.closed, shut, rest.closed);
    Bytes.Assoc(a.taken, [a.queue[0]], a.queue[1..]);
    assert a.queue == [a.queue[0]] + a.queue[1..];
  }

  lemma {:induction false} TakeAll(s: State, w: nat, live: seq<int>) returns (states: seq<State>, steps: seq<Step>)
    requires w < |s.workers| && var a := s.workers[w];
                                a.locked && a.live == multiset(live) && |live| <= MAX_FDS
    ensures Path(states, steps) && states[0] == s
    ensures var a, b := s.workers[w], Adopted(live, s.workers[w].queue, MAX_FDS);
            states[|steps|] == Becomes(s, w, a.(taken := a.taken + a.queue, queue := [], live := multiset(b.live)),
                                       b.closed)
    decreases |s.workers[w].queue|
  {
    var a := s.workers[w];
    if a.queue == [] {
      states, steps := [s], [];
      assert live + [] == live && a.taken + [] == a.taken;
      NothingShut(s, w);
    } else {
      var t, live', shut := TakeOne(s, w, live);
      states, steps := TakeAll(t, w, live');
      TakenInTurn(s, w, shut, t, Adopted(live', a.queue[1..], MAX_FDS));
      PathCons(s, Take(w), states, steps);
      states, steps := [s] + states, [Take(w)] + steps;
    }
  }

  /** What AdoptNewFds does to the array and the vector is a path, under the mutex from end to end. */
  lemma AdoptionIsAPath(s: State, w: nat, live: seq<int>) returns (states: seq<State>, steps: seq<Step>)
    requires w < |s.workers| && WorkerOk(s.workers[w])
    requires var a := s.workers[w];
             a.running && !a.locked && a.stale == multiset{} && a.live == multiset(live)
    ensures Path(states, steps) && states[0] == s
    ensures var a, b := s.workers[w], Adopted(live, s.workers[w].queue, MAX_FDS);
            states[|steps|] == Becomes(s, w, a.(queue := [], live := multiset(b.live)), b.closed)
  {
    var a := s.workers[w];
    var t := Becomes(s, w, a.(locked := true), []);
    assert WorkerStep(a, Lock(w), a.(locked := true), []);
    states, steps := TakeAll(t, w, live);
    var last := states[|steps|];
    var b := last.workers[w];
    var end := Becomes(last, w, b.(taken := [], locked := false), []);
    assert WorkerStep(b, Unlock(w), end.workers[w], []);
    states, steps := states + [end], steps + [Unlock(w)];
    PathCons(s, Lock(w), states, steps);
    states, steps := [s] + states, [Lock(w)] + steps;
  }

  lemma PathSnoc(states: seq<State>, steps: seq<Step>, step: Step, t: State)
    requires Path(states, steps) && Next(states[|steps|], step, t)
    ensures Path(states + [t], steps + [step])
  {}

  /** Two workers, of which the first is given descriptor 7, adopts it, and closes it; its entry is still there. */
  const START: State := State([IDLE_WORKER, IDLE_WORKER], 0, [], [], [0, 0])
  const HANDED: State := State([IDLE_WORKER.(queue := [7]), IDLE_WORKER], 1, [7], [], [1, 0])
  const SERVING: State := State([IDLE_WORKER.(live := multiset{7}), IDLE_WORKER], 1, [7], [], [1, 0])
  const CLOSING: State := State([IDLE_WORKER.(stale := multiset{7}), IDLE_WORKER], 1, [7], [7], [1, 0])

  lemma Accepts()
    ensures Next(START, Accept(7), HANDED)
  {
    var t := HandedOver(START, 7);
    assert t.workers[0].queue == [7] && t.workers[1] == IDLE_WORKER;
    assert t.workers == HANDED.workers && t.accepted == [7] && t.handed == [1, 0];
  }

  lemma Adopts() returns (states: seq<State>, steps: seq<Step>)
    ensures Path(states, steps) && states[0] == HANDED && states[|steps|] == SERVING
  {
    states, steps := AdoptionIsAPath(HANDED, 0, []);
    assert Adopted([], [7], MAX_FDS) == Adoption([7], []);
    assert multiset([7]) == multiset{7};
  }

  lemma Shuts()
    ensures Next(SERVING, Close(0, 7), CLOSING)
  {
    var t, _ := CloseOne(SERVING, 0, 7);
    assert t.workers == CLOSING.workers;
  }

  lemma OpenedAndClosed() returns (states: seq<State>, steps: seq<Step>)
    ensures Run(states, steps) && states[|steps|] == CLOSING
  {
    states, steps := Adopts();
    Shuts();
    PathSnoc(states, steps, Close(0, 7), CLOSING);
    states, steps := states + [CLOSING], steps + [Close(0, 7)];
    Accepts();
    PathCons(START, Accept(7), states, steps);
    states, steps := [START] + states, [Accept(7)] + steps;
  }

  /** A number is in two arrays when accept reuses it between its close and the removal of its entry. */
  lemma NumberInTwoArrays() returns (states: seq<State>, steps: seq<Step>)
    ensures Run(states, steps) && |states[|steps|].workers| == 2
    ensures 7 in states[|steps|].workers[0].stale && 7 in HeldBy(states[|steps|].workers[1])
  {
    states, steps := OpenedAndClosed();
    var t := HandedOver(CLOSING, 7);
    assert t.workers[0] == CLOSING.workers[0] && t.workers[1].queue == [7];
    PathSnoc(states, steps, Accept(7), t);
    states, steps := states + [t], steps + [Accept(7)];
  }
}
