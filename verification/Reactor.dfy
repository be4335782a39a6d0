/** The reactor worker: adopting new connections, the scan of the poll array, and the partial-write loop. */
module Reactor {
  import opened Bytes

  const MAX_FDS: nat := 4096

  // ----- The poll array -----

  /** An entry of the poll array after poll: which groups of result bits are set. */
  datatype PollFd = PollFd(fd: int, hangup: bool, readable: bool, other: bool) {
    predicate Ready() { hangup || readable || other }
  }

  /** `ok` says how ProcessOneRequest ends for a descriptor. */
  predicate Closes(p: PollFd, ok: int -> bool) { p.hangup || (p.readable && !ok(p.fd)) }

  /** The entries with a property, each as often as it occurs. */
  function Select(s: seq<PollFd>, f: PollFd -> bool): (r: multiset<PollFd>) {
    if s == [] then multiset{} else (if f(s[0]) then multiset{s[0]} else multiset{}) + Select(s[1..], f)
  }

  function IsReady(): (r: PollFd -> bool) { (p: PollFd) => p.Ready() }

  function WillClose(ok: int -> bool): (r: PollFd -> bool) { (p: PollFd) => Closes(p, ok) }

  function Ready(s: seq<PollFd>): (r: multiset<PollFd>) { Select(s, IsReady()) }

  function Closing(s: seq<PollFd>, ok: int -> bool): (r: multiset<PollFd>) { Select(s, WillClose(ok)) }

  lemma {:induction false} SelectConcat(a: seq<PollFd>, b: seq<PollFd>, f: PollFd -> bool)
    ensures Select(a + b, f) == Select(a, f) + Select(b, f)
  {
    if a == [] {
      assert a + b == b;
    } else {
      SelectConcat(a[1..], b, f);
      assert (a + b)[0] == a[0] && (a + b)[1..] == a[1..] + b;
    }
  }

  /** Moving the last entry into the place of the first keeps what is selected from the others. */
  lemma SelectSwapped(s: seq<PollFd>, swapped: seq<PollFd>, f: PollFd -> bool)
    requires |s| > 0
    requires swapped == if |s| == 1 then [] else [s[|s| - 1]] + s[1..|s| - 1]
    ensures Select(swapped, f) == Select(s[1..], f)
    ensures multiset(swapped) + multiset{s[0]} == multiset(s)
  {
    if |s| > 1 {
      var last, middle := [s[|s| - 1]], s[1..|s| - 1];
      assert s[1..] == middle + last;
      SelectConcat(last, middle, f);
      SelectConcat(middle, last, f);
      assert s == [s[0]] + (middle + last);
    } else {
      assert s == [s[0]];
    }
  }

  /** What is still to be visited and to be closed; the trigger keeps the recursion out of the scan's proof. */
  ghost predicate Left(todo: seq<PollFd>, ok: int -> bool, ready: multiset<PollFd>, closing: multiset<PollFd>) {
    forall s {:trigger Ready(s)} | s == todo :: ready == Ready(s) && closing == Closing(s, ok)
  }

  lemma PassBy(todo: seq<PollFd>, ok: int -> bool, ready: multiset<PollFd>, closing: multiset<PollFd>)
    returns (ready': multiset<PollFd>, closing': multiset<PollFd>)
    requires todo != [] && Left(todo, ok, ready, closing)
    ensures Left(todo[1..], ok, ready', closing')
    ensures ready == (if todo[0].Ready() then multiset{todo[0]} else multiset{}) + ready'
    ensures closing == (if Closes(todo[0], ok) then multiset{todo[0]} else multiset{}) + closing'
  {
    assert ready == Ready(todo);
    ready', closing' := Ready(todo[1..]), Closing(todo[1..], ok);
  }

  lemma SwapOut(todo: seq<PollFd>, swapped: seq<PollFd>, ok: int -> bool,
                ready: multiset<PollFd>, closing: multiset<PollFd>)
    requires todo != [] && swapped == if |todo| == 1 then [] else [todo[|todo| - 1]] + todo[1..|todo| - 1]
    requires Left(todo[1..], ok, ready, closing)
    ensures Left(swapped, ok, ready, closing)
  {
    assert ready == Ready(todo[1..]);
    SelectSwapped(todo, swapped, IsReady());
    SelectSwapped(todo, swapped, WillClose(ok));
  }

  /** Moving the last entry into slot i and shortening the array drops exactly the entry of slot i. */
  lemma SlotRemoved(a: seq<PollFd>, i: nat, b: seq<PollFd>)
    requires i < |a|
    requires b == if i == |a| - 1 then a[..i] else a[..i] + [a[|a| - 1]] + a[i + 1..|a| - 1]
    ensures multiset(b) + multiset{a[i]} == multiset(a)
  {
    if i == |a| - 1 {
      assert a == a[..i] + [a[i]];
    } else {
      assert a == a[..i] + [a[i]] + a[i + 1..|a| - 1] + [a[|a| - 1]];
    }
  }

  method RemoveSlot(fds: array<PollFd>, i: nat, num: nat)
    requires i < num <= fds.Length
    modifies fds
    ensures multiset(fds[..num - 1]) + multiset{old(fds[i])} == multiset(old(fds[..num]))
    ensures var todo := old(fds[i..num]);
            fds[i..num - 1] == if |todo| == 1 then [] else [todo[|todo| - 1]] + todo[1..|todo| - 1]
  {
    ghost var before := fds[..num];
    if i < num - 1 {
      fds[i] := fds[num - 1];
    }
    SlotRemoved(before, i, fds[..num - 1]);
  }

  /**
   One pass over the array after poll reported `readyCount` ready entries. Every ready entry is visited exactly
   once, although closing one moves the last entry into its slot; the entries that stay are the others.
   */
  method ScanReady(fds: array<PollFd>, numFds: nat, readyCount: nat, ok: int -> bool)
    returns (num: nat, visited: seq<PollFd>, closed: seq<PollFd>)
    requires numFds <= fds.Length
    requires readyCount == |Ready(fds[..numFds])|
    modifies fds
    ensures num <= numFds
    ensures multiset(visited) == Ready(old(fds[..numFds]))
    ensures multiset(closed) == Closing(old(fds[..numFds]), ok)
    ensures multiset(fds[..num]) + multiset(closed) == multiset(old(fds[..numFds]))
  {
    num, visited, closed := Scan(fds, numFds, readyCount, ok, Ready(fds[..numFds]), Closing(fds[..numFds], ok));
  }

  function WithEntry(log: seq<PollFd>, entry: PollFd, add: bool): (r: seq<PollFd>) {
    if add then log + [entry] else log
  }

  function Single(entry: PollFd, present: bool): (r: multiset<PollFd>) {
    if present then multiset{entry} else multiset{}
  }

  /** An entry leaves what is left and enters the log, or neither. */
  lemma Logged(log: seq<PollFd>, entry: PollFd, add: bool,
               left: multiset<PollFd>, left': multiset<PollFd>, all: multiset<PollFd>)
    requires multiset(log) + left == all && left == Single(entry, add) + left'
    ensures multiset(WithEntry(log, entry, add)) + left' == all
  {}

  lemma MovedOut(held: multiset<PollFd>, kept: multiset<PollFd>, log: seq<PollFd>, entry: PollFd, add: bool,
                 all: multiset<PollFd>)
    requires held + multiset(log) == all && kept + Single(entry, add) == held
    ensures kept + multiset(WithEntry(log, entry, add)) == all
  {}

  /** The loop of ScanReady; the last two parameters are proof data only. */
  method Scan(fds: array<PollFd>, numFds: nat, readyCount: nat, ok: int -> bool,
              ghost allReady: multiset<PollFd>, ghost allClosing: multiset<PollFd>)
    returns (num: nat, visited: seq<PollFd>, closed: seq<PollFd>)
    requires numFds <= fds.Length && readyCount == |allReady|
    requires Left(fds[..numFds], ok, allReady, allClosing)
    modifies fds
    ensures num <= numFds
    ensures multiset(visited) == allReady && multiset(closed) == allClosing
    ensures multiset(fds[..num]) + multiset(closed) == multiset(old(fds[..numFds]))
  {
    num, visited, closed := numFds, [], [];
    var ready := readyCount;
    var i := 0;
    ghost var readyLeft, closingLeft := allReady, allClosing;
    while i < num && ready > 0
      invariant 0 <= i <= num <= numFds
      invariant Left(fds[i..num], ok, readyLeft, closingLeft)
      invariant ready == |readyLeft|
      invariant multiset(visited) + readyLeft == allReady
      invariant multiset(closed) + closingLeft == allClosing
      invariant multiset(fds[..num]) + multiset(closed) == multiset(old(fds[..numFds]))
      decreases num - i
    {
      var entry := fds[i];
      ghost var held := multiset(fds[..num]);
      ghost var ready0, closing0 := readyLeft, closingLeft;
      readyLeft, closingLeft := VisitSlot(fds, i, num, ok, readyLeft, closingLeft);
      var isReady, closes := entry.Ready(), Closes(entry, ok);
      Logged(visited, entry, isReady, ready0, readyLeft, allReady);
      Logged(closed, entry, closes, closing0, closingLeft, allClosing);
      MovedOut(held, multiset(fds[..if closes then num - 1 else num]), closed, entry, closes,
               multiset(old(fds[..numFds])));
      ready := if isReady then ready - 1 else ready;
      visited := WithEntry(visited, entry, isReady);
      closed := WithEntry(closed, entry, closes);
      num, i := if closes then num - 1 else num, if closes then i else i + 1;
    }
    NoneLeft(fds[i..num], ok, readyLeft, closingLeft);
  }

  /** Visits the entry of slot i; if it closes, and only ready entries do, the last entry moves into the slot. */
  method VisitSlot(fds: array<PollFd>, i: nat, num: nat, ok: int -> bool,
                   ghost ready: multiset<PollFd>, ghost closing: multiset<PollFd>)
    returns (ghost ready': multiset<PollFd>, ghost closing': multiset<PollFd>)
    requires i < num <= fds.Length && Left(fds[i..num], ok, ready, closing)
    modifies fds
    ensures var entry, closes := old(fds[i]), Closes(old(fds[i]), ok);
            && ready == Single(entry, entry.Ready()) + ready'
            && closing == Single(entry, closes) + closing'
            && Left(if closes then fds[i..num - 1] else fds[i + 1..num], ok, ready', closing')
            && multiset(fds[..if closes then num - 1 else num]) + Single(entry, closes) == multiset(old(fds[..num]))
  {
    ghost var todo := fds[i..num];
    ready', closing' := PassBy(todo, ok, ready, closing);
    if Closes(fds[i], ok) {
      RemoveSlot(fds, i, num);
      SwapOut(todo, fds[i..num - 1], ok, ready', closing');
    } else {
      assert todo[1..] == fds[i + 1..num];
    }
  }

  lemma NoneLeft(todo: seq<PollFd>, ok: int -> bool, ready: multiset<PollFd>, closing: multiset<PollFd>)
    requires Left(todo, ok, ready, closing) && (todo == [] || |ready| == 0)
    ensures ready == multiset{} && closing == multiset{}
  {
    assert ready == Ready(todo);
    NoneReady(todo, ok);
  }

  lemma FirstOf(todo: seq<PollFd>, rest: seq<PollFd>, ok: int -> bool)
    requires todo != [] && rest == todo[1..]
    ensures Ready(todo) == (if todo[0].Ready() then multiset{todo[0]} else multiset{}) + Ready(rest)
    ensures Closing(todo, ok) == (if Closes(todo[0], ok) then multiset{todo[0]} else multiset{}) + Closing(rest, ok)
  {}

  /** With no ready entry left there is none to close: stopping early skips nothing. */
  lemma {:induction false} NoneReady(todo: seq<PollFd>, ok: int -> bool)
    requires |Ready(todo)| == 0
    ensures Ready(todo) == multiset{} && Closing(todo, ok) == multiset{}
  {
    if todo != [] {
      FirstOf(todo, todo[1..], ok);
      NoneReady(todo[1..], ok);
    }
  }

  // ----- Adopting the connections handed over by the accepting thread -----

  function FdsOf(s: seq<PollFd>): (r: seq<int>) { seq(|s|, i requires 0 <= i < |s| => s[i].fd) }

  /** The worker's descriptors afterwards and those it closes: what does not fit is closed. */
  datatype Adoption = Adoption(live: seq<int>, closed: seq<int>)

  function Adopted(live: seq<int>, newFds: seq<int>, capacity: nat): (r: Adoption) {
    var k := if |live| >= capacity then 0 else Min(|newFds|, capacity - |live|);
    Adoption(live + newFds[..k], newFds[k..])
  }

  method AdoptNewFds(fds: array<PollFd>, numFds: nat, newFds: seq<int>) returns (num: nat, closed: seq<int>)
    requires numFds <= fds.Length
    modifies fds
    ensures num <= fds.Length
    ensures Adoption(FdsOf(fds[..num]), closed) == Adopted(FdsOf(old(fds[..numFds])), newFds, fds.Length)
  {
    num, closed := numFds, [];
    ghost var live := FdsOf(fds[..numFds]);
    ghost var k := if numFds >= fds.Length then 0 else Min(|newFds|, fds.Length - numFds);
    for i := 0 to |newFds|
      invariant num == numFds + Min(i, k) <= fds.Length
      invariant closed == if i <= k then [] else newFds[k..i]
      invariant forall j | 0 <= j < num :: fds[j].fd == if j < numFds then live[j] else newFds[j - numFds]
    {
      if num < fds.Length {
        fds[num] := PollFd(newFds[i], false, false, false);
        num := num + 1;
      } else {
        closed := closed + [newFds[i]];
      }
    }
    assert FdsOf(fds[..num]) == live + newFds[..k];
  }

  // ----- The partial-write loop -----

  /** A pointer into a buffer and a length. */
  datatype IoVec = IoVec(data: Str, base: nat, len: nat) {
    predicate Valid() { base + len <= |data| }

    function Bytes(): (r: Str)
      requires Valid()
    {
      data[base..base + len]
    }

    function Advanced(n: nat): (r: IoVec)
      requires n <= len
    {
      IoVec(data, base + n, len - n)
    }
  }

  /** One answer of `writev`: up to n bytes accepted, try again, or an error. */
  datatype WriteAnswer = Accepted(n: nat) | Again | Broken

  class Peer {
    var accepted: Str              // all bytes the kernel has taken
    var script: seq<WriteAnswer>   // its answers; an error when none is left

    constructor (script: seq<WriteAnswer>)
      ensures accepted == [] && this.script == script
    {
      accepted, this.script := [], script;
    }

    /** The number of bytes taken from the two buffers in turn, or -1. */
    method Writev(a: IoVec, b: IoVec) returns (n: int, again: bool)
      requires a.Valid() && b.Valid()
      modifies this
      ensures again ==> n == -1
      ensures n == -1 || 0 <= n <= a.len + b.len
      ensures accepted == old(accepted) + if n == -1 then [] else (a.Bytes() + b.Bytes())[..n]
      ensures script == if old(script) == [] then [] else old(script)[1..]
      ensures n == -1 && !again <==> old(script) == [] || old(script)[0].Broken?
    {
      assert accepted + [] == accepted;
      if script == [] || script[0].Broken? {
        script := if script == [] then [] else script[1..];
        return -1, false;
      }
      if script[0].Again? {
        script := script[1..];
        return -1, true;
      }
      n := Min(script[0].n, a.len + b.len);
      again := false;
      accepted := accepted + (a.Bytes() + b.Bytes())[..n];
      script := script[1..];
    }
  }

  /** The bytes of a response: its length in network order, then its body. */
  function Response(body: Str): (r: Str) { BE32(Truncate32(|body|)) + body }

  /** What the two buffers still hold. */
  function Pending(a: IoVec, b: IoVec): (r: Str)
    requires a.Valid() && b.Valid()
  {
    a.Bytes() + b.Bytes()
  }

  /** The two buffers hold what `pending` holds behind its first n bytes. */
  ghost predicate HoldsRest(pending: Str, n: nat, a: IoVec, b: IoVec) {
    && n <= |pending| && a.Valid() && b.Valid()
    && a.len + b.len == |pending| - n && Pending(a, b) == pending[n..]
  }

  lemma BothAdvanced(a: IoVec, b: IoVec, n: nat)
    requires a.Valid() && b.Valid() && n <= a.len + b.len
    ensures n >= a.len ==> HoldsRest(Pending(a, b), n, a.(len := 0), b.Advanced(n - a.len))
    ensures n < a.len ==> HoldsRest(Pending(a, b), n, a.Advanced(n), b)
  {
    if n >= a.len {
      DropPast(a.Bytes(), b.Bytes(), n);
      assert a.(len := 0).Bytes() == [];
      assert b.Advanced(n - a.len).Bytes() == b.Bytes()[n - a.len..];
    } else {
      DropWithin(a.Bytes(), b.Bytes(), n);
      assert a.Advanced(n).Bytes() == a.Bytes()[n..];
    }
  }

  /** Moves the two buffers past the accepted bytes, in place. */
  method AdjustIov(iov: array<IoVec>, accepted: nat)
    requires iov.Length == 2 && iov[0].Valid() && iov[1].Valid() && accepted <= iov[0].len + iov[1].len
    modifies iov
    ensures HoldsRest(old(Pending(iov[0], iov[1])), accepted, iov[0], iov[1])
  {
    var n := accepted;
    ghost var a, b := iov[0], iov[1];
    BothAdvanced(a, b, accepted);
    while n > 0
      invariant n == 0 || n == accepted
      invariant if n == accepted then iov[0] == a && iov[1] == b
                else HoldsRest(Pending(a, b), accepted, iov[0], iov[1])
      decreases n
    {
      if n >= iov[0].len {
        n := n - iov[0].len;
        iov[0] := iov[0].(len := 0);
        if n > 0 {
          iov[1] := iov[1].Advanced(n);
          n := 0;
        }
      } else {
        iov[0] := iov[0].Advanced(n);
        n := 0;
      }
    }
    assert accepted == 0 ==> Pending(a, b)[0..] == Pending(a, b);
  }

  /**
   Writes a response, whatever partial writes the kernel makes: the bytes it has taken are always a prefix of the
   response, all of it exactly when the loop reports success.
   */
  method SendResponse(peer: Peer, body: Str) returns (ok: bool)
    modifies peer
    ensures var sent := |peer.accepted| - |old(peer.accepted)|;
            && 0 <= sent <= |Response(body)|
            && peer.accepted == old(peer.accepted) + Response(body)[..sent]
            && (ok <==> sent == |Response(body)|)
  {
    var respLen := BE32(Truncate32(|body|));
    var iov := new IoVec[2];
    iov[0], iov[1] := IoVec(respLen, 0, 4), IoVec(body, 0, |body|);
    ghost var whole := Response(body);
    assert iov[0].Bytes() == respLen && iov[1].Bytes() == body;
    assert whole[0..] == whole;
    var toSend := 4 + |body|;
    var sent := 0;
    while sent < toSend
      invariant 0 <= sent <= toSend == |whole|
      invariant HoldsRest(whole, sent, iov[0], iov[1])
      invariant peer.accepted == old(peer.accepted) + whole[..sent]
      decreases toSend - sent, |peer.script|
    {
      ghost var before := peer.accepted;
      var n, again := peer.Writev(iov[0], iov[1]);
      if n < 0 {
        if again {
          assert peer.accepted == before + [];
          continue;
        }
        return false;
      }
      NextPrefix(old(peer.accepted), whole, sent, n, before, peer.accepted);
      DropDrop(whole, sent, n);
      sent := sent + n;
      AdjustIov(iov, n);
    }
    return true;
  }

  lemma NextPrefix(start: Str, whole: Str, sent: nat, n: nat, before: Str, after: Str)
    requires sent + n <= |whole| && before == start + whole[..sent] && after == before + whole[sent..][..n]
    ensures after == start + whole[..sent + n]
  {
    assert whole[..sent + n] == whole[..sent] + whole[sent..][..n];
    Assoc(start, whole[..sent], whole[sent..][..n]);
  }
}
