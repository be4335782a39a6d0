/**
 The route table: copy-on-write publication under a mutex, lock-free reads, and the cached lookup of a service
 host, as a step system over every interleaving of any number of threads.
 */
module RouteTables {
  import opened Wrappers

  type Nodes = seq<string>
  type Table = map<string, Nodes>

  /** One UpdateRouteTable that was published. */
  datatype Update = Update(path: string, nodes: Nodes)

  function Lookup(table: Table, path: string): (r: Nodes) {
    if path in table then table[path] else []
  }

  function Apply(table: Table, u: Update): (r: Table) { table[u.path := u.nodes] }

  /** The table after the first n updates, in the order in which they were published. */
  function Fold(updates: seq<Update>, n: nat): (r: Table)
    requires n <= |updates|
  {
    if n == 0 then map[] else Apply(Fold(updates, n - 1), updates[n - 1])
  }

  // ----- Threads -----

  /** The query that an update belongs to: the version it read first. None for a watcher's update. */
  type Caller = Option<nat>

  /** What a read is for: GetRouteNodes on its own, or the first or second read of a query. */
  datatype Purpose = Alone | First | Second(first: nat)

  /**
   Where a thread is. A read loads the table pointer, and then looks up in the immutable table it points to, which
   by then need not be the current one; `since` is the number of reads that were finished at the load.
   */
  datatype Pc =
    | Idle
    | Holding(path: string, table: Table, version: nat, since: nat, purpose: Purpose)
    | Fetched(path: string, nodes: Nodes, caller: Caller)              // GetChildren has answered; no lock yet
    | Locked(path: string, nodes: Nodes, caller: Caller)
    | Copied(path: string, nodes: Nodes, base: Table, caller: Caller)  // a private copy of the table
    | Published(path: string, caller: Caller)                          // still holding the lock
    | Refreshed(path: string, first: nat)                              // a query after its own update
    | Found(path: string, first: nat, version: nat, nodes: Nodes)      // a query with the list it will choose from

  /** One finished read of the table by a thread. */
  datatype Read = Read(thread: nat, path: string, version: nat, since: nat, nodes: Nodes)

  /** One finished query: the versions of its first and its last read, and the host, or None for " ". */
  datatype Answer = Answer(path: string, first: nat, version: nat, host: Option<string>)

  /** `versions` are all tables ever published, the current one last. */
  datatype State = State(
    versions: seq<Table>, updates: seq<Update>, holder: Option<nat>,
    threads: seq<Pc>, readLog: seq<Read>, answers: seq<Answer>)

  datatype Step =
    | Get(path: string)                   // GetRouteNodes on its own: load of the pointer
    | Query(path: string)                 // QueryServiceHost starts: load of the pointer
    | Find                                // lookup in the table loaded
    | Watch(path: string, nodes: Nodes)   // a watcher's UpdateRouteTable fetches
    | Refresh(nodes: Nodes)               // a query that found no nodes fetches
    | Lock
    | Copy
    | Publish
    | Unlock
    | ReadAgain                           // a query after its own update: load of the pointer
    | Choose(drawn: nat)                  // the load balancer draws an index

  function Current(s: State): (r: nat)
    requires |s.versions| > 0
  {
    |s.versions| - 1
  }

  /** The host that a draw gives, if it has the form address:port. */
  function HostOf(nodes: Nodes, drawn: nat): (r: Option<string>) {
    if nodes == [] then None
    else
      var host := nodes[drawn % |nodes|];
      if host == "" || ':' !in host then None else Some(host)
  }

  predicate Init(s: State) {
    && s.versions == [map[]] && s.updates == [] && s.holder == None
    && (forall i | 0 <= i < |s.threads| :: s.threads[i] == Idle)
    && s.readLog == [] && s.answers == []
  }

  function AfterLoad(s: State, i: nat, path: string, purpose: Purpose): (t: State)
    requires |s.versions| > 0 && i < |s.threads|
  {
    s.(threads := s.threads[i := Holding(path, s.versions[Current(s)], Current(s), |s.readLog|, purpose)])
  }

  /** Thread i takes one atomic step. */
  predicate Next(s: State, i: nat, step: Step, t: State) {
    && |s.versions| > 0 && i < |s.threads|
    && match (step, s.threads[i])
       case (Get(path), Idle) => t == AfterLoad(s, i, path, Alone)
       case (Query(path), Idle) => t == AfterLoad(s, i, path, First)
       case (ReadAgain, Refreshed(path, first)) => t == AfterLoad(s, i, path, Second(first))
       case (Find, Holding(path, table, version, since, purpose)) =>
         var nodes := Lookup(table, path);
         t == s.(readLog := s.readLog + [Read(i, path, version, since, nodes)],
                 threads := s.threads[i := match purpose
                                           case Alone => Idle
                                           case First => Found(path, version, version, nodes)
                                           case Second(first) => Found(path, first, version, nodes)])
       case (Watch(path, nodes), Idle) =>
         t == s.(threads := s.threads[i := Fetched(path, nodes, None)])
       case (Refresh(nodes), Found(path, first, version, found)) =>
         && found == [] && version == first
         && t == s.(threads := s.threads[i := Fetched(path, nodes, Some(first))])
       case (Lock, Fetched(path, nodes, caller)) =>
         s.holder == None && t == s.(holder := Some(i), threads := s.threads[i := Locked(path, nodes, caller)])
       case (Copy, Locked(path, nodes, caller)) =>
         t == s.(threads := s.threads[i := Copied(path, nodes, s.versions[Current(s)], caller)])
       case (Publish, Copied(path, nodes, base, caller)) =>
         t == s.(versions := s.versions + [base[path := nodes]], updates := s.updates + [Update(path, nodes)],
                 threads := s.threads[i := Published(path, caller)])
       case (Unlock, Published(path, caller)) =>
         t == s.(holder := None,
                 threads := s.threads[i := if caller.None? then Idle else Refreshed(path, caller.value)])
       case (Choose(drawn), Found(path, first, version, nodes)) =>
         && (nodes != [] || version > first)
         && t == s.(answers := s.answers + [Answer(path, first, version, HostOf(nodes, drawn))],
                    threads := s.threads[i := Idle])
       case _ => false
  }

  // ----- The invariant -----

  /** The versions are the folds of the updates: none is ever lost. */
  ghost predicate Folded(s: State) {
    && |s.versions| == |s.updates| + 1
    && forall n | 0 <= n <= |s.updates| :: s.versions[n] == Fold(s.updates, n)
  }

  predicate InSection(pc: Pc) { pc.Locked? || pc.Copied? || pc.Published? }

  /** A thread is inside the critical section exactly if it holds the mutex, and then its copy is current. */
  ghost predicate ThreadOk(s: State, i: nat)
    requires i < |s.threads| && |s.versions| > 0
  {
    && (InSection(s.threads[i]) <==> s.holder == Some(i))
    && match s.threads[i]
       case Fetched(_, _, caller) => caller.Some? ==> caller.value <= Current(s)
       case Locked(_, _, caller) => caller.Some? ==> caller.value <= Current(s)
       case Copied(_, _, base, caller) =>
         base == s.versions[Current(s)] && (caller.Some? ==> caller.value <= Current(s))
       case Published(_, caller) => caller.Some? ==> caller.value < Current(s)
       case Refreshed(_, first) => first < Current(s)
       case Holding(_, table, version, since, purpose) =>
         && version <= Current(s) && table == s.versions[version]
         && (purpose.Second? ==> purpose.first < version)
         && Later(s.readLog, i, version, since)
       case Found(path, first, version, nodes) =>
         first <= version <= Current(s) && nodes == Lookup(s.versions[version], path)
       case Idle => true
  }

  /**
   A read of this version, begun when `since` reads were finished: they saw no later version, and all finished
   reads of the same thread are among them.
   */
  ghost predicate Later(log: seq<Read>, thread: nat, version: nat, since: nat) {
    && since <= |log|
    && (forall j | 0 <= j < since :: log[j].version <= version)
    && (forall j | 0 <= j < |log| && log[j].thread == thread :: j < since)
  }

  ghost predicate Ordered(log: seq<Read>) {
    forall k | 0 <= k < |log| :: Later(log[..k], log[k].thread, log[k].version, log[k].since)
  }

  predicate ReadOk(s: State, r: Read) {
    r.version < |s.versions| && r.nodes == Lookup(s.versions[r.version], r.path)
  }

  predicate AnswerOk(s: State, a: Answer) {
    && a.first <= a.version < |s.versions|
    && (a.host.Some? ==> a.path in s.versions[a.version] && a.host.value in s.versions[a.version][a.path])
    && (a.host.None? ==>
          var nodes := Lookup(s.versions[a.version], a.path);
          (nodes == [] && a.first < a.version) || exists host :: host in nodes && (host == "" || ':' !in host))
  }

  ghost predicate Inv(s: State) {
    && Folded(s)
    && (forall i | 0 <= i < |s.threads| :: ThreadOk(s, i))
    && (forall r | r in s.readLog :: ReadOk(s, r))
    && Ordered(s.readLog)
    && (forall a | a in s.answers :: AnswerOk(s, a))
  }

  lemma {:induction false} FoldOfMore(updates: seq<Update>, u: Update, n: nat)
    requires n <= |updates|
    ensures Fold(updates + [u], n) == Fold(updates, n)
  {
    if n > 0 {
      FoldOfMore(updates, u, n - 1);
    }
  }

  lemma StepKeepsFolded(s: State, i: nat, step: Step, t: State)
    requires Next(s, i, step, t) && Folded(s) && ThreadOk(s, i)
    ensures Folded(t) && |t.versions| >= |s.versions| && t.versions[..|s.versions|] == s.versions
  {
    if step.Publish? {
      var u := t.updates[|s.updates|];
      forall n | 0 <= n <= |s.updates| ensures t.versions[n] == Fold(t.updates, n) {
        FoldOfMore(s.updates, u, n);
      }
    }
  }

  lemma LoadIsLatest(s: State, i: nat)
    requires |s.versions| > 0 && forall r | r in s.readLog :: ReadOk(s, r)
    ensures Later(s.readLog, i, Current(s), |s.readLog|)
  {
    assert forall k | 0 <= k < |s.readLog| :: s.readLog[k] in s.readLog && ReadOk(s, s.readLog[k]);
  }

  lemma MoverStaysOk(s: State, i: nat, step: Step, t: State)
    requires Next(s, i, step, t) && |t.threads| == |s.threads|
    requires |t.versions| >= |s.versions| && t.versions[..|s.versions|] == s.versions
    requires ThreadOk(s, i) && forall r | r in s.readLog :: ReadOk(s, r)
    ensures ThreadOk(t, i)
  {
    LoadIsLatest(s, i);
  }

  lemma OtherStaysOk(s: State, i: nat, step: Step, t: State, j: nat)
    requires Next(s, i, step, t) && j < |s.threads| && |t.threads| == |s.threads| && i != j
    requires |t.versions| >= |s.versions| && t.versions[..|s.versions|] == s.versions
    requires ThreadOk(s, i) && ThreadOk(s, j)
    ensures ThreadOk(t, j)
  {
    assert forall n | 0 <= n < |s.versions| :: t.versions[n] == t.versions[..|s.versions|][n];
  }

  lemma StepKeepsThread(s: State, i: nat, step: Step, t: State, j: nat)
    requires Next(s, i, step, t) && j < |s.threads| && |t.threads| == |s.threads|
    requires |t.versions| >= |s.versions| && t.versions[..|s.versions|] == s.versions
    requires ThreadOk(s, i) && ThreadOk(s, j) && forall r | r in s.readLog :: ReadOk(s, r)
    ensures ThreadOk(t, j)
  {
    if i == j {
      MoverStaysOk(s, i, step, t);
    } else {
      OtherStaysOk(s, i, step, t, j);
    }
  }

  lemma StepKeepsReads(s: State, i: nat, step: Step, t: State)
    requires Next(s, i, step, t) && Inv(s)
    requires |t.versions| >= |s.versions| && t.versions[..|s.versions|] == s.versions
    ensures forall r | r in t.readLog :: ReadOk(t, r)
    ensures Ordered(t.readLog)
  {
    assert ThreadOk(s, i);
    assert forall n | 0 <= n < |s.versions| :: t.versions[n] == t.versions[..|s.versions|][n];
    forall r | r in s.readLog ensures ReadOk(t, r) {
      assert ReadOk(s, r);
    }
    if step.Find? {
      OneMoreRead(s.readLog, t.readLog[|s.readLog|]);
    }
  }

  lemma OneMoreRead(log: seq<Read>, r: Read)
    requires Ordered(log) && Later(log, r.thread, r.version, r.since)
    ensures Ordered(log + [r])
  {
    var all := log + [r];
    forall k | 0 <= k < |all| ensures Later(all[..k], all[k].thread, all[k].version, all[k].since) {
      assert all[..k] == log[..k];
      assert k == |log| ==> log[..k] == log;
    }
  }

  lemma StepKeepsAnswers(s: State, i: nat, step: Step, t: State)
    requires Next(s, i, step, t) && Inv(s)
    requires |t.versions| >= |s.versions| && t.versions[..|s.versions|] == s.versions
    ensures forall a | a in t.answers :: AnswerOk(t, a)
  {
    assert forall n | 0 <= n < |s.versions| :: t.versions[n] == t.versions[..|s.versions|][n];
    forall a | a in s.answers ensures AnswerOk(t, a) {
      assert AnswerOk(s, a);
    }
    if step.Choose? {
      assert ThreadOk(s, i);
      var pc := s.threads[i];
      if pc.nodes != [] {
        assert pc.nodes[step.drawn % |pc.nodes|] in pc.nodes;
      }
    }
  }

  // ----- Every run -----

  ghost predicate Run(states: seq<State>, movers: seq<nat>, steps: seq<Step>) {
    && |states| == |steps| + 1 && |movers| == |steps| && Init(states[0])
    && forall n | 0 <= n < |steps| :: Next(states[n], movers[n], steps[n], states[n + 1])
  }

  lemma {:induction false} RunKeepsInv(states: seq<State>, movers: seq<nat>, steps: seq<Step>, n: nat)
    requires Run(states, movers, steps) && n < |states|
    ensures Inv(states[n])
  {
    if n > 0 {
      RunKeepsInv(states, movers, steps, n - 1);
      var s, i, step, t := states[n - 1], movers[n - 1], steps[n - 1], states[n];
      StepKeepsFolded(s, i, step, t);
      StepKeepsReads(s, i, step, t);
      StepKeepsAnswers(s, i, step, t);
      forall j | 0 <= j < |t.threads| ensures ThreadOk(t, j) {
        StepKeepsThread(s, i, step, t, j);
      }
    }
  }

  /** The nodes last published for a path among the first n updates. */
  function LastFor(updates: seq<Update>, path: string, n: nat): (r: Nodes)
    requires n <= |updates|
  {
    if n == 0 then [] else if updates[n - 1].path == path then updates[n - 1].nodes else LastFor(updates, path, n - 1)
  }

  lemma {:induction false} LookupIsLast(updates: seq<Update>, path: string, n: nat)
    requires n <= |updates|
    ensures Lookup(Fold(updates, n), path) == LastFor(updates, path, n)
  {
    if n > 0 {
      LookupIsLast(updates, path, n - 1);
    }
  }

  /**
   In every state of every run, for every path the current table holds what was last published for that path:
   concurrent updates of other paths lose nothing.
   */
  lemma NoUpdateIsLost(states: seq<State>, movers: seq<nat>, steps: seq<Step>, n: nat, path: string)
    requires Run(states, movers, steps) && n < |states|
    ensures var s := states[n];
            && |s.versions| == |s.updates| + 1
            && Lookup(s.versions[Current(s)], path) == LastFor(s.updates, path, |s.updates|)
  {
    RunKeepsInv(states, movers, steps, n);
    LookupIsLast(states[n].updates, path, |states[n].updates|);
  }

  /**
   Every read is a lookup in one published version, although updates may be published between its load and its
   lookup. A read that begins after another is finished never sees an earlier version; so no reader goes back.
   */
  lemma ReadsAreLinear(states: seq<State>, movers: seq<nat>, steps: seq<Step>, n: nat, j: nat, k: nat)
    requires Run(states, movers, steps) && n < |states| && j <= k < |states[n].readLog|
    ensures var s, r := states[n], states[n].readLog[k];
            && r.version <= |s.updates| && r.nodes == LastFor(s.updates, r.path, r.version)
            && (j < r.since || s.readLog[j].thread == r.thread ==> s.readLog[j].version <= r.version)
  {
    RunKeepsInv(states, movers, steps, n);
    var s, r := states[n], states[n].readLog[k];
    assert r in s.readLog && ReadOk(s, r);
    LookupIsLast(s.updates, r.path, r.version);
    assert Later(s.readLog[..k], r.thread, r.version, r.since);
    assert j < k ==> s.readLog[..k][j] == s.readLog[j];
  }

  /**
   The host that a query returns is in the list published for its path in a version no older than its first read;
   when it reports absence, the list was empty even after its own update, or held an entry without an address.
   */
  lemma CacheThrough(states: seq<State>, movers: seq<nat>, steps: seq<Step>, n: nat, a: Answer)
    requires Run(states, movers, steps) && n < |states| && a in states[n].answers
    ensures var s := states[n];
            && a.first <= a.version <= |s.updates|
            && var nodes := LastFor(s.updates, a.path, a.version);
               && (a.host.Some? ==> a.host.value in nodes)
               && (a.host.None? ==>
                     || (nodes == [] && a.first < a.version)
                     || exists host :: host in nodes && (host == "" || ':' !in host))
  {
    RunKeepsInv(states, movers, steps, n);
    assert AnswerOk(states[n], a);
    LookupIsLast(states[n].updates, a.path, a.version);
  }
}
