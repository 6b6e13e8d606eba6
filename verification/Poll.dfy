/**
 poll (source/poll.c): three passes over the caller's array, a map of pipes to wait for, and the
 count that must match the array at every return. What the system answers is a parameter.
 */
module Poll {
  import opened CStrings

  const POLLIN: bv16 := 0x001
  const POLLPRI: bv16 := 0x002
  const POLLOUT: bv16 := 0x004
  const POLLERR: bv16 := 0x008
  const POLLHUP: bv16 := 0x010
  const POLLNVAL: bv16 := 0x020
  const POLLRDNORM: bv16 := 0x040
  const POLLWRNORM: bv16 := 0x100

  const MAXIMUM_WAIT_OBJECTS := 64
  const WAIT_TIMEOUT := 258

  datatype PollFd = PollFd(fd: int, events: bv16, revents: bv16)

  /** PeekNamedPipe. */
  datatype Peek = Bytes(n: nat) | BrokenPipe | PeekFails

  /** What a descriptor turns out to be in the first pass. */
  datatype Kind = Socket | BadHandle | BadType | Pipe(peek: Peek) | Other

  /** What the system says of one socket in the later passes. */
  datatype SocketAnswer = SocketAnswer(before: Option<int>, after: Option<int>, bytes: bool)

  /** The wait for pipes: whether the thread starts, the wait result, and the pipe's state then. */
  datatype WaitAnswer = WaitAnswer(thread: bool, state: nat, peek: Peek)

  /** select: an error, or the sockets that are ready. */
  datatype Selected = SelectFails | Selected(readable: set<int>, writable: set<int>, urgent: set<int>)

  function ReadBits(ev: bv16): bv16 {
    ev & (POLLIN | POLLRDNORM)
  }

  function WriteBits(ev: bv16): bv16 {
    ev & (POLLOUT | POLLWRNORM)
  }

  /** Some bit of m is set in r. */
  predicate On(r: bv16, m: bv16) {
    r & m != 0
  }

  /** What a pipe reports. */
  function PipeRevents(ev: bv16, peek: Peek): bv16 {
    (if ReadBits(ev) == 0 then 0
     else match peek
       case Bytes(n) => if n > 0 then ReadBits(ev) else 0
       case BrokenPipe => POLLHUP
       case PeekFails => POLLERR)
    | WriteBits(ev)
  }

  /** What the first pass reports. */
  function FirstRevents(e: PollFd, k: Kind): bv16 {
    if e.fd < 0 then 0
    else match k
      case Socket => 0
      case BadHandle => POLLNVAL
      case BadType => POLLNVAL
      case Pipe(peek) => PipeRevents(e.events, peek)
      case Other => e.events & (POLLIN | POLLOUT | POLLPRI)
  }

  /** r has only bits of m. */
  predicate Within(r: bv16, m: bv16) {
    r & m == r
  }

  lemma FirstWithin(e: PollFd, k: Kind)
    ensures Within(FirstRevents(e, k), e.events | POLLERR | POLLHUP | POLLNVAL)
  {
    PipeWithin(e.events);
  }

  /** A pipe reports requested bits, or an error or hang-up. */
  lemma PipeWithin(ev: bv16)
    ensures forall p :: Within(PipeRevents(ev, p), ev | POLLERR | POLLHUP | POLLNVAL)
  {
  }

  /** How many of the first n entries are ready. */
  function CountTo(s: seq<PollFd>, n: nat): (r: nat)
    requires n <= |s|
    ensures r <= n
  {
    if n == 0 then 0 else CountTo(s, n - 1) + if s[n - 1].revents != 0 then 1 else 0
  }

  /** Changing one entry changes the count by that entry alone. */
  lemma {:induction false} CountUpdate(s: seq<PollFd>, i: nat, e: PollFd, n: nat)
    requires i < |s| && n <= |s|
    ensures CountTo(s[i := e], n) ==
      CountTo(s, n) + (if i < n && e.revents != 0 then 1 else 0) - (if i < n && s[i].revents != 0 then 1 else 0)
    decreases n
  {
    if n > 0 {
      CountUpdate(s, i, e, n - 1);
    }
  }

  /** An entry the wait can wake: a pipe that was asked for reading and has nothing yet. */
  predicate Waits(e: PollFd, k: Kind) {
    e.fd >= 0 && k.Pipe? && FirstRevents(e, k) == 0
  }

  /** How many of the first n entries wait. */
  function WaitingTo(fds: seq<PollFd>, kinds: seq<Kind>, n: nat): nat
    requires n <= |fds| == |kinds|
  {
    |set i | 0 <= i < n && Waits(fds[i], kinds[i])|
  }

  lemma WaitingNext(fds: seq<PollFd>, kinds: seq<Kind>, n: nat)
    requires n < |fds| == |kinds|
    ensures WaitingTo(fds, kinds, n + 1) == WaitingTo(fds, kinds, n) + if Waits(fds[n], kinds[n]) then 1 else 0
  {
    var a := set i | 0 <= i < n && Waits(fds[i], kinds[i]);
    var b := set i | 0 <= i < n + 1 && Waits(fds[i], kinds[i]);
    assert b == if Waits(fds[n], kinds[n]) then a + {n} else a;
  }

  /** The map holds the indices below n of waiting pipes, in order: all of them, or the first 64. */
  ghost predicate WaitMap(map_: seq<nat>, count: nat, fds: seq<PollFd>, kinds: seq<Kind>, n: nat)
    requires n <= |fds| == |kinds| && count <= |map_|
  {
    && count == (if WaitingTo(fds, kinds, n) < MAXIMUM_WAIT_OBJECTS then WaitingTo(fds, kinds, n)
                 else MAXIMUM_WAIT_OBJECTS)
    && forall j :: 0 <= j < count ==>
         map_[j] < n && Waits(fds[map_[j]], kinds[map_[j]]) && WaitingTo(fds, kinds, map_[j]) == j
  }

  method PipeState(ev: bv16, peek: Peek) returns (r: bv16)
    ensures r == PipeRevents(ev, peek)
  {
    r := 0;
    if ev & (POLLIN | POLLRDNORM) != 0 {
      match peek {
        case Bytes(n) =>
          if n > 0 {
            r := r | (ev & (POLLIN | POLLRDNORM));
          }
        case BrokenPipe => r := r | POLLHUP;
        case PeekFails => r := r | POLLERR;
      }
    }
    if ev & (POLLOUT | POLLWRNORM) != 0 {
      r := r | (ev & (POLLOUT | POLLWRNORM));
    }
  }

  method OtherState(ev: bv16) returns (r: bv16)
    ensures r == ev & (POLLIN | POLLOUT | POLLPRI)
  {
    r := 0;
    if ev & POLLIN != 0 {
      r := r | POLLIN;
    }
    if ev & POLLOUT != 0 {
      r := r | POLLOUT;
    }
    if ev & POLLPRI != 0 {
      r := r | POLLPRI;
    }
  }

  /** One descriptor in the first pass: what it reports, and whether it goes on the wait list. */
  method Examine(e: PollFd, k: Kind) returns (r: bv16, waits: bool)
    requires e.fd >= 0 && !k.Socket?
    ensures r == FirstRevents(e, k) && (waits <==> Waits(e, k))
  {
    r, waits := 0, false;
    match k {
      case BadHandle => r := POLLNVAL;
      case BadType => r := POLLNVAL;
      case Pipe(peek) =>
        r := PipeState(e.events, peek);
        waits := r == 0;
      case Other => r := OtherState(e.events);
    }
  }

  /** The first pass over one entry. */
  method FirstEntry(fds: array<PollFd>, i: nat, k: Kind) returns (socket: bool, ready: bool, waits: bool)
    requires i < fds.Length
    modifies fds
    ensures fds[..] == old(fds[..])[i := old(fds[i]).(revents := FirstRevents(old(fds[i]), k))]
    ensures socket <==> old(fds[i]).fd >= 0 && k.Socket?
    ensures ready <==> fds[i].revents != 0
    ensures waits <==> Waits(old(fds[i]), k)
  {
    fds[i] := fds[i].(revents := 0);
    if fds[i].fd < 0 {
      return false, false, false;
    }
    socket, waits := k.Socket?, false;
    if !socket {
      var r;
      r, waits := Examine(fds[i], k);
      fds[i] := fds[i].(revents := r);
    }
    ready := fds[i].revents != 0;
  }

  /** The wait map after one more entry. */
  method AddToMap(map_: array<nat>, count: nat, i: nat, waits: bool, ghost fds: seq<PollFd>, ghost kinds: seq<Kind>)
    returns (count': nat)
    requires map_.Length == MAXIMUM_WAIT_OBJECTS && count <= MAXIMUM_WAIT_OBJECTS && i < |fds| == |kinds|
    requires WaitMap(map_[..], count, fds, kinds, i) && (waits <==> Waits(fds[i], kinds[i]))
    modifies map_
    ensures count' <= MAXIMUM_WAIT_OBJECTS && WaitMap(map_[..], count', fds, kinds, i + 1)
  {
    count' := count;
    WaitingNext(fds, kinds, i);
    if waits && count < MAXIMUM_WAIT_OBJECTS {
      map_[count] := i;
      count' := count + 1;
    }
  }

  /** The first n entries have been through the first pass, the others are as they were. */
  ghost predicate Examined(was: seq<PollFd>, now: seq<PollFd>, kinds: seq<Kind>, n: nat) {
    && |was| == |now| == |kinds|
    && (forall j :: 0 <= j < n && j < |was| ==> now[j] == was[j].(revents := FirstRevents(was[j], kinds[j])))
    && (forall j :: n <= j < |was| ==> now[j] == was[j])
  }

  /** The cache says which of the first n descriptors are sockets. */
  ghost predicate Cached(was: seq<PollFd>, cache: seq<bool>, kinds: seq<Kind>, n: nat) {
    && n <= |was| == |cache| == |kinds|
    && forall j :: 0 <= j < n ==> (cache[j] <==> was[j].fd >= 0 && kinds[j].Socket?)
  }

  /** The first pass: immediate readiness, the socket cache and the wait map. */
  method FirstPass(fds: array<PollFd>, kinds: seq<Kind>, cache: array<bool>, map_: array<nat>)
    returns (ready: nat, sockets: nat, count: nat)
    requires fds.Length == |kinds| == cache.Length && map_.Length == MAXIMUM_WAIT_OBJECTS
    modifies fds, cache, map_
    ensures Examined(old(fds[..]), fds[..], kinds, fds.Length)
    ensures Cached(old(fds[..]), cache[..], kinds, fds.Length)
    ensures ready == CountTo(fds[..], fds.Length)
    ensures sockets == 0 ==> forall j :: 0 <= j < cache.Length ==> !cache[j]
    ensures count <= MAXIMUM_WAIT_OBJECTS && WaitMap(map_[..], count, old(fds[..]), kinds, fds.Length)
  {
    ghost var was := fds[..];
    ready, sockets, count := 0, 0, 0;
    for i := 0 to fds.Length
      invariant Examined(was, fds[..], kinds, i)
      invariant Cached(was, cache[..], kinds, i)
      invariant ready == CountTo(fds[..], i)
      invariant sockets == 0 ==> forall j :: 0 <= j < i ==> !cache[j]
      invariant count <= MAXIMUM_WAIT_OBJECTS && WaitMap(map_[..], count, was, kinds, i)
    {
      ghost var before := fds[..];
      var socket, more, waits := FirstEntry(fds, i, kinds[i]);
      cache[i] := socket;
      if more {
        ready := ready + 1;
      }
      if socket {
        sockets := sockets + 1;
      }
      CountUpdate(before, i, fds[i], i);
      count := AddToMap(map_, count, i, waits, was, kinds);
    }
  }

  // ------------------------------------------------------------------ the wait for pipes

  /** WaitForHandles, run by a thread: the wait result if it names a handle, else a timeout. */
  method WaitForHandles(count: nat, state: nat) returns (result: nat)
    ensures result == if state < count then state else WAIT_TIMEOUT
  {
    result := WAIT_TIMEOUT;
    if count > 0 && state < count {
      result := state;
    }
  }

  /** What the pipe that ends the wait reports. */
  function Woken(ev: bv16, ans: WaitAnswer): bv16 {
    if ans.thread then PipeRevents(ev, ans.peek) else ReadBits(ev) | WriteBits(ev)
  }

  /** The wait: at most the one entry that the map names changes. */
  method WaitForPipes(fds: array<PollFd>, map_: array<nat>, count: nat, ans: WaitAnswer) returns (more: bool)
    requires 0 < count <= map_.Length == MAXIMUM_WAIT_OBJECTS
    requires forall j :: 0 <= j < count ==> map_[j] < fds.Length && fds[map_[j]].revents == 0
    modifies fds
    ensures ans.state >= count ==> fds[..] == old(fds[..]) && !more
    ensures ans.state < count ==>
      var k := map_[ans.state];
      && fds[..] == old(fds[..])[k := old(fds[k]).(revents := Woken(old(fds[k]).events, ans))]
      && (more <==> fds[k].revents != 0)
  {
    more := false;
    var result := ans.state;
    if ans.thread {
      result := WaitForHandles(count, ans.state);
    }
    if result < count {
      var k := map_[result];
      var r;
      if ans.thread {
        r := PipeState(fds[k].events, ans.peek);
      } else {
        r := (fds[k].events & (POLLIN | POLLRDNORM)) | (fds[k].events & (POLLOUT | POLLWRNORM));
      }
      fds[k] := fds[k].(revents := fds[k].revents | r);
      more := fds[k].revents != 0;
    }
  }

  // ------------------------------------------------------------------ the sockets

  const FD_SETSIZE := 64
  const READ: bv16 := POLLIN | POLLRDNORM
  const WRITE: bv16 := POLLOUT | POLLWRNORM
  const SOCKET_BITS: bv16 := POLLIN | POLLOUT | POLLPRI | POLLERR | POLLHUP | POLLNVAL

  /** An entry of the socket passes: a socket that has reported nothing yet. */
  predicate Pending(e: PollFd, socket: bool) {
    e.fd >= 0 && socket && e.revents == 0
  }

  /** The socket that an entry asks select about with the bits of mask, if it does. */
  function Question(e: PollFd, socket: bool, a: SocketAnswer, mask: bv16): Option<int> {
    if Pending(e, socket) && On(e.events, mask) then a.before else None
  }

  function Questions(fds: seq<PollFd>, cache: seq<bool>, ans: seq<SocketAnswer>, mask: bv16): (r: seq<Option<int>>)
    requires |fds| == |cache| == |ans|
    ensures |r| == |fds| && forall j :: 0 <= j < |fds| ==> r[j] == Question(fds[j], cache[j], ans[j], mask)
  {
    seq(|fds|, j requires 0 <= j < |fds| => Question(fds[j], cache[j], ans[j], mask))
  }

  /** The sockets that the first n questions are about. */
  function AskedAbout(qs: seq<Option<int>>, n: nat): set<int>
    requires n <= |qs|
  {
    set j | 0 <= j < n && qs[j].Some? :: qs[j].value
  }

  /** One of the first n questions is about socket s, as one of the first 64 sockets. */
  predicate Heard(qs: seq<Option<int>>, n: nat, s: int)
    requires n <= |qs|
  {
    exists j :: 0 <= j < n && HeardAt(qs, j, s)
  }

  predicate HeardAt(qs: seq<Option<int>>, j: nat, s: int)
    requires j < |qs|
  {
    qs[j] == Some(s) && |AskedAbout(qs, j)| < FD_SETSIZE
  }

  /** A select set with one socket more: none twice, and nothing beyond FD_SETSIZE. */
  function Inserted(set_: seq<int>, s: int): seq<int> {
    if s in set_ || |set_| >= FD_SETSIZE then set_ else set_ + [s]
  }

  /** The select set that the first n questions make. */
  function SetOf(qs: seq<Option<int>>, n: nat): seq<int>
    requires n <= |qs|
    decreases n
  {
    if n == 0 then []
    else
      var r := SetOf(qs, n - 1);
      if qs[n - 1].Some? then Inserted(r, qs[n - 1].value) else r
  }

  lemma AskedAboutNext(qs: seq<Option<int>>, n: nat)
    requires n < |qs|
    ensures AskedAbout(qs, n + 1) == AskedAbout(qs, n) + if qs[n].Some? then {qs[n].value} else {}
  {
  }

  ghost predicate Distinct(set_: seq<int>) {
    forall i, j :: 0 <= i < j < |set_| ==> set_[i] != set_[j]
  }

  /** The list holds members of the set, each once: all of them, or 64. */
  ghost predicate Lists(r: seq<int>, all: set<int>) {
    && Distinct(r) && (forall s :: s in r ==> s in all)
    && |r| == (if |all| < FD_SETSIZE then |all| else FD_SETSIZE)
    && (|all| <= FD_SETSIZE ==> forall s :: s in all ==> s in r)
  }

  lemma Grown(r: seq<int>, all: set<int>, q: Option<int>, r': seq<int>, all': set<int>)
    requires Lists(r, all)
    requires if q.Some? then r' == Inserted(r, q.value) && all' == all + {q.value} else r' == r && all' == all + {}
    ensures Lists(r', all')
  {
    if q == None || q.value in all {
      assert all' == all;
    } else {
      assert |all'| == |all| + 1;
    }
  }

  /** A select set holds the sockets asked about, each once, as far as there is room. */
  lemma {:induction false} SetOfMeaning(qs: seq<Option<int>>, n: nat)
    requires n <= |qs|
    ensures Lists(SetOf(qs, n), AskedAbout(qs, n))
    decreases n
  {
    if n == 0 {
      assert AskedAbout(qs, 0) == {};
    } else {
      SetOfMeaning(qs, n - 1);
      AskedAboutNext(qs, n - 1);
      Grown(SetOf(qs, n - 1), AskedAbout(qs, n - 1), qs[n - 1], SetOf(qs, n), AskedAbout(qs, n));
    }
  }

  /** It holds exactly the first 64 sockets asked about. */
  lemma {:induction false} SetOfExactly(qs: seq<Option<int>>, n: nat, s: int)
    requires n <= |qs|
    ensures s in SetOf(qs, n) <==> Heard(qs, n, s)
    decreases n
  {
    if n > 0 {
      SetOfExactly(qs, n - 1, s);
      SetOfMeaning(qs, n - 1);
      assert Heard(qs, n, s) <==> Heard(qs, n - 1, s) || HeardAt(qs, n - 1, s);
    }
  }

  /** Every question about a socket is heard exactly when they are about 64 sockets at most. */
  lemma HeardExactly(qs: seq<Option<int>>, n: nat)
    requires n <= |qs|
    ensures var all := AskedAbout(qs, n);
      && (forall s :: Heard(qs, n, s) ==> s in all)
      && ((forall s :: s in all ==> Heard(qs, n, s)) <==> |all| <= 64)
  {
    var r, all := SetOf(qs, n), AskedAbout(qs, n);
    SetOfMeaning(qs, n);
    forall s
      ensures s in r <==> Heard(qs, n, s)
    {
      SetOfExactly(qs, n, s);
    }
    if forall s :: s in all ==> s in r {
      Enough(all, r);
    }
  }

  /** A list that holds every member of a set is at least as long. */
  lemma {:induction false} Enough(all: set<int>, r: seq<int>)
    requires all <= set s | s in r
    ensures |all| <= |r|
    decreases |r|
  {
    if r != [] {
      var rest := all - {r[0]};
      assert rest <= set s | s in r[1..];
      Enough(rest, r[1..]);
      assert all <= rest + {r[0]};
    } else {
      assert all <= {};
    }
  }

  /** fd_isSet. */
  method IsSet(s: int, set_: seq<int>) returns (r: bool)
    ensures r <==> s in set_
  {
    for i := 0 to |set_|
      invariant s !in set_[..i]
    {
      if set_[i] == s {
        return true;
      }
    }
    r := false;
  }

  /** FD_SET: no socket twice, and nothing beyond FD_SETSIZE. */
  method FdSet(s: int, set_: seq<int>) returns (r: seq<int>)
    ensures r == Inserted(set_, s)
  {
    var there := IsSet(s, set_);
    r := set_;
    if !there && |set_| < FD_SETSIZE {
      r := set_ + [s];
    }
  }

  /** One entry's contribution to one select set. */
  method Gather(set_: seq<int>, asks: bool, s: int, ghost qs: seq<Option<int>>, ghost n: nat) returns (r: seq<int>)
    requires n < |qs| && set_ == SetOf(qs, n) && qs[n] == if asks then Some(s) else None
    ensures r == SetOf(qs, n + 1)
  {
    r := set_;
    if asks {
      r := FdSet(s, set_);
    }
  }

  /** Entry e after the loop that fills the select sets. */
  function Filled(e: PollFd, socket: bool, a: SocketAnswer): PollFd {
    if Pending(e, socket) && a.before == None then e.(revents := POLLNVAL) else e
  }

  /** The first n entries have been through a step that maps each entry by itself. */
  ghost predicate Stepped(was: seq<PollFd>, now: seq<PollFd>, next: seq<PollFd>, n: nat) {
    && |was| == |now| == |next|
    && (forall j :: 0 <= j < n && j < |was| ==> now[j] == next[j])
    && (forall j :: n <= j < |was| ==> now[j] == was[j])
  }

  /** The three sets that select gets. */
  datatype Sets = Sets(readers: seq<int>, writers: seq<int>, excepts: seq<int>)

  ghost predicate AllGathered(sets: Sets, fds: seq<PollFd>, cache: seq<bool>, ans: seq<SocketAnswer>, n: nat)
    requires n <= |fds| == |cache| == |ans|
  {
    && sets.readers == SetOf(Questions(fds, cache, ans, READ), n)
    && sets.writers == SetOf(Questions(fds, cache, ans, WRITE), n)
    && sets.excepts == SetOf(Questions(fds, cache, ans, POLLPRI), n)
  }

  ghost function FilledAll(fds: seq<PollFd>, cache: seq<bool>, ans: seq<SocketAnswer>): (r: seq<PollFd>)
    requires |fds| == |cache| == |ans|
    ensures |r| == |fds| && forall j :: 0 <= j < |fds| ==> r[j] == Filled(fds[j], cache[j], ans[j])
  {
    seq(|fds|, j requires 0 <= j < |fds| => Filled(fds[j], cache[j], ans[j]))
  }

  /** One entry in the loop that fills the sets. */
  method FillEntry(e: PollFd, a: SocketAnswer, sets: Sets, ghost fds: seq<PollFd>, ghost cache: seq<bool>,
                   ghost ans: seq<SocketAnswer>, ghost n: nat)
    returns (sets': Sets)
    requires n < |fds| == |cache| == |ans| && fds[n] == e && ans[n] == a
    requires Pending(e, cache[n]) && a.before.Some?
    requires AllGathered(sets, fds, cache, ans, n)
    ensures AllGathered(sets', fds, cache, ans, n + 1)
  {
    var s := a.before.value;
    var readers := Gather(sets.readers, On(e.events, READ), s, Questions(fds, cache, ans, READ), n);
    var writers := Gather(sets.writers, On(e.events, WRITE), s, Questions(fds, cache, ans, WRITE), n);
    var excepts := Gather(sets.excepts, On(e.events, POLLPRI), s, Questions(fds, cache, ans, POLLPRI), n);
    sets' := Sets(readers, writers, excepts);
  }

  lemma NobodyAsks(sets: Sets, fds: seq<PollFd>, cache: seq<bool>, ans: seq<SocketAnswer>, n: nat)
    requires n < |fds| == |cache| == |ans| && AllGathered(sets, fds, cache, ans, n)
    requires !Pending(fds[n], cache[n]) || ans[n].before == None
    ensures AllGathered(sets, fds, cache, ans, n + 1)
  {
  }

  /** One round of the loop that fills the select sets. */
  method FillStep(fds: array<PollFd>, cache: seq<bool>, ans: seq<SocketAnswer>, i: nat, sets: Sets,
                  ghost was: seq<PollFd>)
    returns (sets': Sets, bad: bool)
    requires i < fds.Length == |cache| == |ans| == |was| && fds[i] == was[i]
    requires AllGathered(sets, was, cache, ans, i)
    modifies fds
    ensures fds[..] == old(fds[..])[i := Filled(was[i], cache[i], ans[i])]
    ensures bad <==> Pending(was[i], cache[i]) && ans[i].before == None
    ensures AllGathered(sets', was, cache, ans, i + 1)
  {
    sets', bad := sets, false;
    if fds[i].fd < 0 || !cache[i] || fds[i].revents != 0 {
      NobodyAsks(sets, was, cache, ans, i);
      return;
    }
    if ans[i].before == None {
      NobodyAsks(sets, was, cache, ans, i);
      fds[i] := fds[i].(revents := POLLNVAL);
      return sets, true;
    }
    sets' := FillEntry(fds[i], ans[i], sets, was, cache, ans, i);
  }

  /** The same, with the count. */
  method FillRound(fds: array<PollFd>, cache: seq<bool>, ans: seq<SocketAnswer>, i: nat, sets: Sets, ready: nat,
                   ghost was: seq<PollFd>)
    returns (sets': Sets, ready': nat)
    requires i < fds.Length == |cache| == |ans| == |was| && fds[i] == was[i]
    requires AllGathered(sets, was, cache, ans, i) && ready == CountTo(fds[..], fds.Length)
    modifies fds
    ensures fds[..] == old(fds[..])[i := Filled(was[i], cache[i], ans[i])]
    ensures ready' == CountTo(fds[..], fds.Length)
    ensures AllGathered(sets', was, cache, ans, i + 1)
  {
    CountUpdate(fds[..], i, Filled(was[i], cache[i], ans[i]), fds.Length);
    var bad;
    sets', bad := FillStep(fds, cache, ans, i, sets, was);
    ready' := ready;
    if bad {
      ready' := ready' + 1;
    }
  }

  /** The loop that fills the select sets; descriptors gone bad report POLLNVAL. */
  method FillSets(fds: array<PollFd>, cache: seq<bool>, ans: seq<SocketAnswer>, ready: nat)
    returns (sets: Sets, ready': nat)
    requires fds.Length == |cache| == |ans| && ready == CountTo(fds[..], fds.Length)
    modifies fds
    ensures fds[..] == FilledAll(old(fds[..]), cache, ans)
    ensures ready' == CountTo(fds[..], fds.Length)
    ensures AllGathered(sets, old(fds[..]), cache, ans, fds.Length)
  {
    ghost var was := fds[..];
    ghost var next := FilledAll(was, cache, ans);
    sets, ready' := Sets([], [], []), ready;
    for i := 0 to fds.Length
      invariant Stepped(was, fds[..], next, i)
      invariant ready' == CountTo(fds[..], fds.Length)
      invariant AllGathered(sets, was, cache, ans, i)
    {
      sets, ready' := FillRound(fds, cache, ans, i, sets, ready', was);
    }
  }

  /** The sockets of a set that are ready, in order. */
  function Ready(set_: seq<int>, ready: set<int>): (r: seq<int>)
    ensures forall s :: s in r <==> s in set_ && s in ready
  {
    if set_ == [] then [] else (if set_[0] in ready then [set_[0]] else []) + Ready(set_[1..], ready)
  }

  /** select keeps of each set the sockets that are ready. */
  method Select(sets: Sets, sel: Selected) returns (r: Sets)
    requires sel.Selected?
    ensures forall s :: s in r.readers <==> s in sets.readers && s in sel.readable
    ensures forall s :: s in r.writers <==> s in sets.writers && s in sel.writable
    ensures forall s :: s in r.excepts <==> s in sets.excepts && s in sel.urgent
  {
    r := Sets(Ready(sets.readers, sel.readable), Ready(sets.writers, sel.writable), Ready(sets.excepts, sel.urgent));
  }

  /** What a socket reports that is in some of the three sets. */
  function SocketResult(readable: bool, writable: bool, urgent: bool, bytes: bool): bv16 {
    (if readable then (if bytes then POLLIN else POLLHUP) else 0)
    | (if writable then POLLOUT else 0)
    | (if urgent then POLLPRI else 0)
  }

  /** What a pending socket reports after select. */
  function SocketRevents(a: SocketAnswer, sets: Sets): bv16 {
    match a.after
    case None => 0
    case Some(s) => SocketResult(s in sets.readers, s in sets.writers, s in sets.excepts, a.bytes)
  }

  function Reported(e: PollFd, socket: bool, a: SocketAnswer, sets: Sets): PollFd {
    if Pending(e, socket) then e.(revents := SocketRevents(a, sets)) else e
  }

  ghost function ReportedAll(fds: seq<PollFd>, cache: seq<bool>, ans: seq<SocketAnswer>, sets: Sets): (r: seq<PollFd>)
    requires |fds| == |cache| == |ans|
    ensures |r| == |fds| && forall j :: 0 <= j < |fds| ==> r[j] == Reported(fds[j], cache[j], ans[j], sets)
  {
    seq(|fds|, j requires 0 <= j < |fds| => Reported(fds[j], cache[j], ans[j], sets))
  }

  method SocketState(a: SocketAnswer, sets: Sets) returns (r: bv16)
    ensures r == SocketRevents(a, sets)
  {
    r := 0;
    if a.after.Some? {
      var readable := IsSet(a.after.value, sets.readers);
      var writable := IsSet(a.after.value, sets.writers);
      var urgent := IsSet(a.after.value, sets.excepts);
      if readable {
        if a.bytes {
          r := r | POLLIN;
        } else {
          r := r | POLLHUP;
        }
      }
      if writable {
        r := r | POLLOUT;
      }
      if urgent {
        r := r | POLLPRI;
      }
    }
  }

  /** The loop after select. */
  method ReadSets(fds: array<PollFd>, cache: seq<bool>, ans: seq<SocketAnswer>, sets: Sets, ready: nat)
    returns (ready': nat)
    requires fds.Length == |cache| == |ans| && ready == CountTo(fds[..], fds.Length)
    modifies fds
    ensures fds[..] == ReportedAll(old(fds[..]), cache, ans, sets)
    ensures ready' == CountTo(fds[..], fds.Length)
  {
    ghost var was := fds[..];
    ghost var next := ReportedAll(was, cache, ans, sets);
    ready' := ready;
    for i := 0 to fds.Length
      invariant Stepped(was, fds[..], next, i)
      invariant ready' == CountTo(fds[..], fds.Length)
    {
      if fds[i].fd < 0 || !cache[i] || fds[i].revents != 0 {
        continue;
      }
      var r := SocketState(ans[i], sets);
      CountUpdate(fds[..], i, fds[i].(revents := r), fds.Length);
      fds[i] := fds[i].(revents := r);
      if r != 0 {
        ready' := ready' + 1;
      }
    }
  }

  /** Without the socket library every pending socket is an error. */
  method FailSockets(fds: array<PollFd>, cache: seq<bool>, ready: nat) returns (ready': nat)
    requires fds.Length == |cache| && ready == CountTo(fds[..], fds.Length)
    modifies fds
    ensures forall j :: 0 <= j < fds.Length ==>
      fds[j] == if Pending(old(fds[j]), cache[j]) then old(fds[j]).(revents := POLLERR) else old(fds[j])
    ensures ready' == CountTo(fds[..], fds.Length)
  {
    ready' := ready;
    for i := 0 to fds.Length
      invariant forall j :: 0 <= j < i ==>
        fds[j] == if Pending(old(fds[j]), cache[j]) then old(fds[j]).(revents := POLLERR) else old(fds[j])
      invariant forall j :: i <= j < fds.Length ==> fds[j] == old(fds[j])
      invariant ready' == CountTo(fds[..], fds.Length)
    {
      if fds[i].fd >= 0 && cache[i] && fds[i].revents == 0 {
        CountUpdate(fds[..], i, fds[i].(revents := POLLERR), fds.Length);
        fds[i] := fds[i].(revents := POLLERR);
        ready' := ready' + 1;
      }
    }
  }

  /** The socket half of poll changes pending sockets only, within the bits a socket can report. */
  ghost predicate SocketsOnly(was: seq<PollFd>, now: seq<PollFd>, cache: seq<bool>) {
    && |was| == |now| == |cache|
    && forall j :: 0 <= j < |was| ==>
         if Pending(was[j], cache[j])
         then now[j] == was[j].(revents := now[j].revents) && Within(now[j].revents, SOCKET_BITS)
         else now[j] == was[j]
  }

  lemma SocketWithin(a: SocketAnswer, sets: Sets)
    ensures Within(SocketRevents(a, sets), SOCKET_BITS)
  {
  }

  lemma TwoSteps(was: seq<PollFd>, cache: seq<bool>, ans: seq<SocketAnswer>, sets: Sets)
    requires |was| == |cache| == |ans|
    ensures SocketsOnly(was, FilledAll(was, cache, ans), cache)
    ensures SocketsOnly(was, ReportedAll(FilledAll(was, cache, ans), cache, ans, sets), cache)
  {
    var mid := FilledAll(was, cache, ans);
    var end := ReportedAll(mid, cache, ans, sets);
    forall j | 0 <= j < |was|
      ensures if Pending(was[j], cache[j]) then end[j] == was[j].(revents := end[j].revents)
                                                && Within(end[j].revents, SOCKET_BITS)
              else end[j] == was[j]
    {
      SocketWithin(ans[j], sets);
    }
  }

  /**
   What a pending socket reports: what select says of its handle, about everything that any entry
   with that handle asked and that was heard. The errors come before that.
   */
  ghost function SocketOutcome(was: seq<PollFd>, cache: seq<bool>, ans: seq<SocketAnswer>, loads: bool, sel: Selected,
                               j: nat): bv16
    requires j < |was| == |cache| == |ans|
  {
    if !loads then POLLERR
    else if ans[j].before == None then POLLNVAL
    else if sel.SelectFails? || ans[j].after == None then 0
    else
      var s := ans[j].after.value;
      SocketResult(s in sel.readable && Heard(Questions(was, cache, ans, READ), |was|, s),
                   s in sel.writable && Heard(Questions(was, cache, ans, WRITE), |was|, s),
                   s in sel.urgent && Heard(Questions(was, cache, ans, POLLPRI), |was|, s), ans[j].bytes)
  }

  /** Every pending socket reports its outcome. */
  ghost predicate AllDecided(was: seq<PollFd>, now: seq<PollFd>, cache: seq<bool>, ans: seq<SocketAnswer>,
                             loads: bool, sel: Selected)
  {
    && |was| == |now| == |cache| == |ans|
    && forall j :: 0 <= j < |was| && Pending(was[j], cache[j]) ==>
         now[j].revents == SocketOutcome(was, cache, ans, loads, sel, j)
  }

  /** Each pending socket reports exactly what was asked about it, was heard, and holds. */
  lemma {:induction false} SelectDecides(was: seq<PollFd>, cache: seq<bool>, ans: seq<SocketAnswer>, sets: Sets,
                                         chosen: Sets, sel: Selected)
    requires |was| == |cache| == |ans| && sel.Selected?
    requires AllGathered(sets, was, cache, ans, |was|)
    requires forall s :: s in chosen.readers <==> s in sets.readers && s in sel.readable
    requires forall s :: s in chosen.writers <==> s in sets.writers && s in sel.writable
    requires forall s :: s in chosen.excepts <==> s in sets.excepts && s in sel.urgent
    ensures AllDecided(was, ReportedAll(FilledAll(was, cache, ans), cache, ans, chosen), cache, ans, true, sel)
  {
    var now := ReportedAll(FilledAll(was, cache, ans), cache, ans, chosen);
    forall j | 0 <= j < |was| && Pending(was[j], cache[j])
      ensures now[j].revents == SocketOutcome(was, cache, ans, true, sel, j)
    {
      if ans[j].before.Some? && ans[j].after.Some? {
        var s := ans[j].after.value;
        SetOfExactly(Questions(was, cache, ans, READ), |was|, s);
        SetOfExactly(Questions(was, cache, ans, WRITE), |was|, s);
        SetOfExactly(Questions(was, cache, ans, POLLPRI), |was|, s);
      }
    }
  }

  /** The socket half of poll. */
  method PollSockets(fds: array<PollFd>, cache: seq<bool>, ans: seq<SocketAnswer>, loads: bool, sel: Selected,
                     ready: nat)
    returns (ready': nat)
    requires fds.Length == |cache| == |ans| && ready == CountTo(fds[..], fds.Length)
    modifies fds
    ensures SocketsOnly(old(fds[..]), fds[..], cache)
    ensures AllDecided(old(fds[..]), fds[..], cache, ans, loads, sel)
    ensures ready' == CountTo(fds[..], fds.Length)
  {
    if !loads {
      ready' := FailSockets(fds, cache, ready);
      return;
    }
    var sets;
    sets, ready' := FillSets(fds, cache, ans, ready);
    TwoSteps(old(fds[..]), cache, ans, sets);
    if sel.Selected? {
      var chosen := Select(sets, sel);
      ready' := ReadSets(fds, cache, ans, chosen, ready');
      SelectDecides(old(fds[..]), cache, ans, sets, chosen, sel);
      TwoSteps(old(fds[..]), cache, ans, chosen);
    }
  }

  // ------------------------------------------------------------------ poll

  /** What a caller may rely on for one entry, whatever the number of entries. */
  ghost predicate Fair(was: PollFd, now: PollFd, k: Kind) {
    && now.fd == was.fd && now.events == was.events
    && (was.fd < 0 ==> now.revents == 0)
    && (FirstRevents(was, k) != 0 ==> now.revents == FirstRevents(was, k))
    && Within(now.revents, if k.Socket? then SOCKET_BITS else was.events | POLLERR | POLLHUP | POLLNVAL)
  }

  ghost predicate AllFair(was: seq<PollFd>, now: seq<PollFd>, kinds: seq<Kind>) {
    |was| == |now| == |kinds| && forall j :: 0 <= j < |was| ==> Fair(was[j], now[j], kinds[j])
  }

  lemma ExaminedIsFair(was: seq<PollFd>, now: seq<PollFd>, kinds: seq<Kind>)
    requires Examined(was, now, kinds, |was|)
    ensures AllFair(was, now, kinds)
  {
    forall j | 0 <= j < |was|
      ensures Fair(was[j], now[j], kinds[j])
    {
      FirstWithin(was[j], kinds[j]);
    }
  }

  lemma WokenIsFair(was: seq<PollFd>, now: seq<PollFd>, kinds: seq<Kind>, k: nat, ans: WaitAnswer)
    requires AllFair(was, now, kinds) && k < |was| && Waits(was[k], kinds[k])
    ensures AllFair(was, now[k := now[k].(revents := Woken(now[k].events, ans))], kinds)
  {
    PipeWithin(was[k].events);
  }

  lemma SocketsAreFair(was: seq<PollFd>, mid: seq<PollFd>, now: seq<PollFd>, cache: seq<bool>, kinds: seq<Kind>)
    requires AllFair(was, mid, kinds) && Cached(was, cache, kinds, |was|)
    requires SocketsOnly(mid, now, cache)
    ensures AllFair(was, now, kinds)
  {
    forall j | 0 <= j < |was|
      ensures Fair(was[j], now[j], kinds[j])
    {
      assert Fair(was[j], mid[j], kinds[j]);
    }
  }

  /** The wait names entry j: the first pass found nothing, and j is the pipe at that place among the waiting ones. */
  predicate IsWoken(was: seq<PollFd>, kinds: seq<Kind>, ans: WaitAnswer, j: nat)
    requires j < |was| == |kinds|
  {
    && (forall i :: 0 <= i < |was| ==> FirstRevents(was[i], kinds[i]) == 0)
    && Waits(was[j], kinds[j]) && WaitingTo(was, kinds, j) == ans.state < MAXIMUM_WAIT_OBJECTS
  }

  /** Every entry but the sockets has what the first pass says, or what the wait says of the pipe it names. */
  ghost predicate PipesDecided(was: seq<PollFd>, now: seq<PollFd>, kinds: seq<Kind>, ans: WaitAnswer) {
    && |was| == |now| == |kinds|
    && forall j :: 0 <= j < |was| && (was[j].fd < 0 || !kinds[j].Socket?) ==>
         now[j].revents ==
           if IsWoken(was, kinds, ans, j) then Woken(was[j].events, ans) else FirstRevents(was[j], kinds[j])
  }

  /** Of two waiting entries the later one has more before it. */
  lemma WaitingAscends(fds: seq<PollFd>, kinds: seq<Kind>, i: nat, j: nat)
    requires i < j <= |fds| == |kinds| && Waits(fds[i], kinds[i])
    ensures WaitingTo(fds, kinds, i) < WaitingTo(fds, kinds, j)
  {
    var a := set k | 0 <= k < i && Waits(fds[k], kinds[k]);
    var b := set k | 0 <= k < j && Waits(fds[k], kinds[k]);
    assert a + {i} <= b;
    Smaller(a + {i}, b);
  }

  lemma Smaller(a: set<int>, b: set<int>)
    requires a <= b
    ensures |a| <= |b|
  {
    assert b == a + (b - a);
  }

  lemma OneIsWoken(was: seq<PollFd>, kinds: seq<Kind>, ans: WaitAnswer, k: nat)
    requires k < |was| == |kinds| && IsWoken(was, kinds, ans, k)
    ensures forall j :: 0 <= j < |was| && IsWoken(was, kinds, ans, j) ==> j == k
  {
    forall j | 0 <= j < |was| && IsWoken(was, kinds, ans, j)
      ensures j == k
    {
      if j < k {
        WaitingAscends(was, kinds, j, k);
      } else if k < j {
        WaitingAscends(was, kinds, k, j);
      }
    }
  }

  lemma NoneIsWoken(was: seq<PollFd>, kinds: seq<Kind>, ans: WaitAnswer, count: nat)
    requires |was| == |kinds| && count <= ans.state
    requires var all := WaitingTo(was, kinds, |was|);
      count == if all < MAXIMUM_WAIT_OBJECTS then all else MAXIMUM_WAIT_OBJECTS
    ensures forall j :: 0 <= j < |was| ==> !IsWoken(was, kinds, ans, j)
  {
    forall j | 0 <= j < |was|
      ensures !IsWoken(was, kinds, ans, j)
    {
      if Waits(was[j], kinds[j]) {
        WaitingAscends(was, kinds, j, |was|);
      }
    }
  }

  /** Without a wait every entry has what the first pass says. */
  lemma NotWoken(was: seq<PollFd>, now: seq<PollFd>, kinds: seq<Kind>, ans: WaitAnswer, count: nat)
    requires Examined(was, now, kinds, |was|)
    requires var all := WaitingTo(was, kinds, |was|);
      count == if all < MAXIMUM_WAIT_OBJECTS then all else MAXIMUM_WAIT_OBJECTS
    ensures count == 0 || CountTo(now, |now|) != 0 ==> PipesDecided(was, now, kinds, ans)
  {
    if count == 0 {
      NoneIsWoken(was, kinds, ans, 0);
    } else if CountTo(now, |now|) != 0 {
      SomethingReady(now, |now|);
    }
  }

  lemma {:induction false} SomethingReady(s: seq<PollFd>, n: nat)
    requires n <= |s| && CountTo(s, n) != 0
    ensures exists j :: 0 <= j < n && s[j].revents != 0
    decreases n
  {
    if s[n - 1].revents == 0 {
      SomethingReady(s, n - 1);
    }
  }

  lemma NothingReady(s: seq<PollFd>, n: nat)
    requires n <= |s| && CountTo(s, n) == 0
    ensures forall j :: 0 <= j < n ==> s[j].revents == 0
  {
  }

  /** The sockets of the call, and its entries with nothing reported yet. */
  function Sockets(was: seq<PollFd>, kinds: seq<Kind>): (r: seq<bool>)
    requires |was| == |kinds|
    ensures |r| == |was| && forall j :: 0 <= j < |was| ==> (r[j] <==> was[j].fd >= 0 && kinds[j].Socket?)
  {
    seq(|was|, j requires 0 <= j < |was| => was[j].fd >= 0 && kinds[j].Socket?)
  }

  function Cleared(was: seq<PollFd>): (r: seq<PollFd>)
    ensures |r| == |was| && forall j :: 0 <= j < |was| ==> r[j] == was[j].(revents := 0)
  {
    seq(|was|, j requires 0 <= j < |was| => was[j].(revents := 0))
  }

  /** The same sockets are pending, with the same requests. */
  ghost predicate SamePending(a: seq<PollFd>, b: seq<PollFd>, cache: seq<bool>) {
    && |a| == |b| == |cache|
    && forall i :: 0 <= i < |a| ==> a[i].events == b[i].events && (Pending(a[i], cache[i]) <==> Pending(b[i], cache[i]))
  }

  /** The wait for pipes does not change what is asked about sockets. */
  lemma SameOutcome(a: seq<PollFd>, b: seq<PollFd>, cache: seq<bool>, ans: seq<SocketAnswer>, loads: bool,
                    sel: Selected, j: nat)
    requires SamePending(a, b, cache) && j < |a| == |ans|
    ensures SocketOutcome(a, cache, ans, loads, sel, j) == SocketOutcome(b, cache, ans, loads, sel, j)
  {
    if ans[j].after.Some? {
      var s := ans[j].after.value;
      SameHeard(a, b, cache, ans, ans, READ, s);
      SameHeard(a, b, cache, ans, ans, WRITE, s);
      SameHeard(a, b, cache, ans, ans, POLLPRI, s);
    }
  }

  /** Handles that are asked about in the same way are heard in the same way. */
  lemma SameHeard(a: seq<PollFd>, b: seq<PollFd>, cache: seq<bool>, ans: seq<SocketAnswer>, ans': seq<SocketAnswer>,
                  mask: bv16, s: int)
    requires SamePending(a, b, cache) && |a| == |ans| == |ans'|
    requires forall j :: 0 <= j < |ans| ==> ans[j].before == ans'[j].before
    ensures Heard(Questions(a, cache, ans, mask), |a|, s) <==> Heard(Questions(b, cache, ans', mask), |b|, s)
  {
    assert Questions(a, cache, ans, mask) == Questions(b, cache, ans', mask);
  }

  /** No socket has reported anything before the socket half. */
  ghost predicate SocketsClear(was: seq<PollFd>, now: seq<PollFd>, kinds: seq<Kind>) {
    && |was| == |now| == |kinds|
    && forall j :: 0 <= j < |was| && was[j].fd >= 0 && kinds[j].Socket? ==> now[j].revents == 0
  }

  /** Seen from the caller's array, the sockets are decided as they are from the state after the wait. */
  lemma DecidedFromStart(was: seq<PollFd>, mid: seq<PollFd>, now: seq<PollFd>, kinds: seq<Kind>,
                         ans: seq<SocketAnswer>, loads: bool, sel: Selected)
    requires AllFair(was, mid, kinds) && SocketsClear(was, mid, kinds)
    requires AllDecided(mid, now, Sockets(was, kinds), ans, loads, sel)
    ensures AllDecided(Cleared(was), now, Sockets(was, kinds), ans, loads, sel)
  {
    var cache := Sockets(was, kinds);
    forall i | 0 <= i < |was|
      ensures mid[i].events == Cleared(was)[i].events
      ensures Pending(mid[i], cache[i]) <==> Pending(Cleared(was)[i], cache[i])
    {
      assert Fair(was[i], mid[i], kinds[i]);
    }
    forall j | 0 <= j < |was|
      ensures SocketOutcome(mid, cache, ans, loads, sel, j) == SocketOutcome(Cleared(was), cache, ans, loads, sel, j)
    {
      SameOutcome(mid, Cleared(was), cache, ans, loads, sel, j);
    }
  }

  /** The socket half leaves the other entries as they were decided before it. */
  lemma PipesStayDecided(was: seq<PollFd>, mid: seq<PollFd>, now: seq<PollFd>, kinds: seq<Kind>, wait: WaitAnswer)
    requires PipesDecided(was, mid, kinds, wait)
    requires SocketsOnly(mid, now, Sockets(was, kinds))
    ensures PipesDecided(was, now, kinds, wait)
  {
    var cache := Sockets(was, kinds);
    forall j | 0 <= j < |was| && (was[j].fd < 0 || !kinds[j].Socket?)
      ensures now[j] == mid[j]
    {
      assert !Pending(mid[j], cache[j]);
    }
  }

  /** A requestable bit of r that was not requested. */
  predicate Unrequested(r: bv16, events: bv16) {
    r & (POLLIN | POLLOUT | POLLPRI) & !events != 0
  }

  /** Some answer of the system makes entry j report a bit it did not request. */
  ghost predicate CanSurprise(was: seq<PollFd>, cache: seq<bool>, ans: seq<SocketAnswer>, j: nat)
    requires j < |was| == |cache| == |ans|
  {
    exists bytes, sel :: Surprises(was, cache, ans, j, SocketAnswer(ans[j].before, ans[j].before, bytes), sel)
  }

  ghost predicate Surprises(was: seq<PollFd>, cache: seq<bool>, ans: seq<SocketAnswer>, j: nat, a: SocketAnswer,
                            sel: Selected)
    requires j < |was| == |cache| == |ans|
  {
    sel.Selected? && Unrequested(SocketOutcome(was, cache, ans[j := a], true, sel, j), was[j].events)
  }

  /**
   The arrays for which a socket may report a bit it did not request are exactly those in which its
   entry leaves out POLLIN, POLLOUT or POLLPRI, and some entry with its handle asks for that bit or
   for its normal-data form, and is heard.
   */
  lemma UnrequestedExactly(was: seq<PollFd>, cache: seq<bool>, ans: seq<SocketAnswer>, j: nat)
    requires j < |was| == |cache| == |ans| && ans[j].before.Some?
    ensures var ev, s := was[j].events, ans[j].before.value;
      CanSurprise(was, cache, ans, j)
      <==> || (ev & POLLIN == 0 && Heard(Questions(was, cache, ans, READ), |was|, s))
           || (ev & POLLOUT == 0 && Heard(Questions(was, cache, ans, WRITE), |was|, s))
           || (ev & POLLPRI == 0 && Heard(Questions(was, cache, ans, POLLPRI), |was|, s))
  {
    var ev, s := was[j].events, ans[j].before.value;
    var r := Heard(Questions(was, cache, ans, READ), |was|, s);
    var w := Heard(Questions(was, cache, ans, WRITE), |was|, s);
    var u := Heard(Questions(was, cache, ans, POLLPRI), |was|, s);
    forall a: SocketAnswer, sel: Selected | a.before == a.after == Some(s) && sel.Selected?
      ensures Surprises(was, cache, ans, j, a, sel)
        <==> || (ev & POLLIN == 0 && s in sel.readable && r && a.bytes)
             || (ev & POLLOUT == 0 && s in sel.writable && w) || (ev & POLLPRI == 0 && s in sel.urgent && u)
    {
      SurpriseOf(was, cache, ans, j, a, sel);
    }
    var a, sel := SocketAnswer(Some(s), Some(s), true), Selected({s}, {s}, {s});
    assert Surprises(was, cache, ans, j, a, sel)
      <==> (ev & POLLIN == 0 && r) || (ev & POLLOUT == 0 && w) || (ev & POLLPRI == 0 && u);
  }

  lemma SurpriseOf(was: seq<PollFd>, cache: seq<bool>, ans: seq<SocketAnswer>, j: nat, a: SocketAnswer, sel: Selected)
    requires j < |was| == |cache| == |ans| && sel.Selected? && a.before == a.after == ans[j].before != None
    ensures var ev, s := was[j].events, ans[j].before.value;
      Surprises(was, cache, ans, j, a, sel)
      <==> || (ev & POLLIN == 0 && s in sel.readable && Heard(Questions(was, cache, ans, READ), |was|, s) && a.bytes)
           || (ev & POLLOUT == 0 && s in sel.writable && Heard(Questions(was, cache, ans, WRITE), |was|, s))
           || (ev & POLLPRI == 0 && s in sel.urgent && Heard(Questions(was, cache, ans, POLLPRI), |was|, s))
  {
    var s, ans' := ans[j].before.value, ans[j := a];
    SameHeard(was, was, cache, ans, ans', READ, s);
    SameHeard(was, was, cache, ans, ans', WRITE, s);
    SameHeard(was, was, cache, ans, ans', POLLPRI, s);
    UnrequestedBits(was[j].events, s in sel.readable && Heard(Questions(was, cache, ans', READ), |was|, s),
      s in sel.writable && Heard(Questions(was, cache, ans', WRITE), |was|, s),
      s in sel.urgent && Heard(Questions(was, cache, ans', POLLPRI), |was|, s), a.bytes);
  }

  lemma UnrequestedBits(ev: bv16, readable: bool, writable: bool, urgent: bool, bytes: bool)
    ensures Unrequested(SocketResult(readable, writable, urgent, bytes), ev)
      <==> (ev & POLLIN == 0 && readable && bytes) || (ev & POLLOUT == 0 && writable) || (ev & POLLPRI == 0 && urgent)
  {
  }

  /** The smallest case: a socket asked for POLLRDNORM alone reports POLLIN. */
  lemma NormalDataReportsPollin()
    ensures var was := [PollFd(3, 0x040, 0)];
      SocketOutcome(was, [true], [SocketAnswer(Some(7), Some(7), true)], true, Selected({7}, {}, {}), 0) == 0x001
  {
    var was, ans := [PollFd(3, POLLRDNORM, 0)], [SocketAnswer(Some(7), Some(7), true)];
    assert POLLRDNORM & READ != 0 && POLLRDNORM & WRITE == 0 && POLLRDNORM & POLLPRI == 0;
    assert AskedAbout(Questions(was, [true], ans, READ), 0) == {};
    assert HeardAt(Questions(was, [true], ans, READ), 0, 7);
  }

  /** The wait, after the first pass found nothing ready. */
  method Wait(fds: array<PollFd>, map_: array<nat>, count: nat, ans: WaitAnswer, ghost was: seq<PollFd>,
              kinds: seq<Kind>)
    returns (ready: nat)
    requires 0 < count <= map_.Length == MAXIMUM_WAIT_OBJECTS && fds.Length == |kinds|
    requires Examined(was, fds[..], kinds, |was|) && CountTo(fds[..], fds.Length) == 0
    requires WaitMap(map_[..], count, was, kinds, |was|)
    modifies fds
    ensures AllFair(was, fds[..], kinds) && PipesDecided(was, fds[..], kinds, ans)
    ensures SocketsClear(was, fds[..], kinds)
    ensures ready == CountTo(fds[..], fds.Length)
  {
    ghost var before := fds[..];
    ExaminedIsFair(was, before, kinds);
    NothingReady(before, fds.Length);
    forall j | 0 <= j < count
      ensures map_[j] < fds.Length && Waits(was[map_[j]], kinds[map_[j]]) && fds[map_[j]].revents == 0
    {
      assert map_[j] == map_[..][j];
    }
    var more := WaitForPipes(fds, map_, count, ans);
    ready := if more then 1 else 0;
    if ans.state < count {
      ghost var k := map_[ans.state];
      CountUpdate(before, k, fds[k], fds.Length);
      WokenIsFair(was, before, kinds, k, ans);
      assert map_[..][ans.state] == k;
      OneIsWoken(was, kinds, ans, k);
    } else {
      NoneIsWoken(was, kinds, ans, count);
    }
  }

  // ------------------------------------------------------------------ bit by bit

  /** No bit but those of m is reported. */
  predicate Only(r: bv16, m: bv16) {
    r & !m == 0
  }

  /**
   A pipe reports data if it was asked for and there is some, hang-up or an error if it was asked for
   data and has no writer or cannot be looked at, and that it can be written if that was asked for.
   */
  predicate PipeBits(r: bv16, ev: bv16, peek: Peek) {
    var asked := On(ev, POLLIN) || On(ev, POLLRDNORM);
    && (On(r, POLLIN) <==> On(ev, POLLIN) && peek.Bytes? && peek.n > 0)
    && (On(r, POLLRDNORM) <==> On(ev, POLLRDNORM) && peek.Bytes? && peek.n > 0)
    && (On(r, POLLHUP) <==> asked && peek.BrokenPipe?)
    && (On(r, POLLERR) <==> asked && peek.PeekFails?)
    && (On(r, POLLOUT) <==> On(ev, POLLOUT)) && (On(r, POLLWRNORM) <==> On(ev, POLLWRNORM))
    && Only(r, POLLIN | POLLRDNORM | POLLHUP | POLLERR | POLLOUT | POLLWRNORM)
  }

  /** A descriptor that is neither a pipe nor a socket is ready for what it was asked of three bits. */
  predicate FileBits(r: bv16, ev: bv16) {
    && (On(r, POLLIN) <==> On(ev, POLLIN)) && (On(r, POLLOUT) <==> On(ev, POLLOUT))
    && (On(r, POLLPRI) <==> On(ev, POLLPRI)) && Only(r, POLLIN | POLLOUT | POLLPRI)
  }

  /** What an entry other than a socket reports by itself. */
  predicate OwnBits(r: bv16, e: PollFd, k: Kind)
    requires e.fd < 0 || !k.Socket?
  {
    if e.fd < 0 then r == 0
    else if k.BadHandle? || k.BadType? then On(r, POLLNVAL) && Only(r, POLLNVAL)
    else if k.Other? then FileBits(r, e.events)
    else PipeBits(r, e.events, k.peek)
  }

  /** What the pipe that ended the wait reports: a new look, or without a thread everything that it was asked. */
  predicate WokenBits(r: bv16, ev: bv16, ans: WaitAnswer) {
    if ans.thread then PipeBits(r, ev, ans.peek)
    else
      && (On(r, POLLIN) <==> On(ev, POLLIN)) && (On(r, POLLRDNORM) <==> On(ev, POLLRDNORM))
      && (On(r, POLLOUT) <==> On(ev, POLLOUT)) && (On(r, POLLWRNORM) <==> On(ev, POLLWRNORM))
      && Only(r, POLLIN | POLLRDNORM | POLLOUT | POLLWRNORM)
  }

  /** An entry that waits: a pipe that reports nothing by itself. */
  predicate Idle(e: PollFd, k: Kind) {
    e.fd >= 0 && k.Pipe? && PipeBits(0, e.events, k.peek)
  }

  /** The entry reports nothing in the first pass. */
  predicate Silent(e: PollFd, k: Kind) {
    e.fd < 0 || k.Socket? || OwnBits(0, e, k)
  }

  /** The wait names entry j: it is the pipe at that place among the idle ones, and every entry is silent. */
  predicate EndsWait(was: seq<PollFd>, kinds: seq<Kind>, ans: WaitAnswer, j: nat)
    requires j < |was| == |kinds|
  {
    && (forall i :: 0 <= i < |was| ==> Silent(was[i], kinds[i]))
    && Idle(was[j], kinds[j]) && ans.state < 64
    && |set i | 0 <= i < j && Idle(was[i], kinds[i])| == ans.state
  }

  /** Every entry but the sockets, in bits. */
  ghost predicate BitsDecided(was: seq<PollFd>, now: seq<PollFd>, kinds: seq<Kind>, ans: WaitAnswer) {
    && |was| == |now| == |kinds|
    && forall j :: 0 <= j < |was| && (was[j].fd < 0 || !kinds[j].Socket?) ==>
         if EndsWait(was, kinds, ans, j) then WokenBits(now[j].revents, was[j].events, ans)
         else OwnBits(now[j].revents, was[j], kinds[j])
  }

  /** What an entry reports that asks for the five bits 0x001, 0x002, 0x004, 0x040 and 0x100. */
  lemma AskedForAll(n: nat)
    ensures PipeBits(if n > 0 then 0x145 else 0x104, 0x147, Bytes(n))
    ensures PipeBits(0x114, 0x147, BrokenPipe) && PipeBits(0x10C, 0x147, PeekFails)
    ensures FileBits(0x007, 0x147) && OwnBits(0x020, PollFd(3, 0x147, 0), BadHandle)
  {
  }

  lemma PipeInBits(ev: bv16, peek: Peek)
    ensures PipeBits(PipeRevents(ev, peek), ev, peek)
    ensures PipeBits(0, ev, peek) <==> PipeRevents(ev, peek) == 0
  {
  }

  lemma OwnInBits(e: PollFd, k: Kind)
    requires e.fd < 0 || !k.Socket?
    ensures OwnBits(FirstRevents(e, k), e, k)
    ensures OwnBits(0, e, k) <==> FirstRevents(e, k) == 0
  {
    if e.fd >= 0 && k.Pipe? {
      PipeInBits(e.events, k.peek);
    }
  }

  lemma WokenInBits(ev: bv16, ans: WaitAnswer)
    ensures WokenBits(Woken(ev, ans), ev, ans)
  {
    PipeInBits(ev, ans.peek);
  }

  lemma IdleExactly(e: PollFd, k: Kind)
    ensures Idle(e, k) <==> Waits(e, k)
    ensures Silent(e, k) <==> FirstRevents(e, k) == 0
  {
    if e.fd < 0 || !k.Socket? {
      OwnInBits(e, k);
    }
  }

  lemma EndsWaitExactly(was: seq<PollFd>, kinds: seq<Kind>, ans: WaitAnswer, j: nat)
    requires j < |was| == |kinds|
    ensures EndsWait(was, kinds, ans, j) <==> IsWoken(was, kinds, ans, j)
  {
    forall i | 0 <= i < |was|
      ensures Idle(was[i], kinds[i]) <==> Waits(was[i], kinds[i])
      ensures Silent(was[i], kinds[i]) <==> FirstRevents(was[i], kinds[i]) == 0
    {
      IdleExactly(was[i], kinds[i]);
    }
    assert (set i | 0 <= i < j && Idle(was[i], kinds[i])) == set i | 0 <= i < j && Waits(was[i], kinds[i]);
  }

  /** Bit by bit, every entry but the sockets reports what it was asked and what holds. */
  lemma PipesInBits(was: seq<PollFd>, now: seq<PollFd>, kinds: seq<Kind>, ans: WaitAnswer)
    requires PipesDecided(was, now, kinds, ans)
    ensures BitsDecided(was, now, kinds, ans)
  {
    forall j | 0 <= j < |was| && (was[j].fd < 0 || !kinds[j].Socket?)
      ensures if EndsWait(was, kinds, ans, j) then WokenBits(now[j].revents, was[j].events, ans)
              else OwnBits(now[j].revents, was[j], kinds[j])
    {
      EndsWaitExactly(was, kinds, ans, j);
      OwnInBits(was[j], kinds[j]);
      WokenInBits(was[j].events, ans);
    }
  }

  /** Entry i is a socket with a handle that asks for one of the bits of m. */
  predicate AsksFor(was: seq<PollFd>, kinds: seq<Kind>, ans: seq<SocketAnswer>, m: bv16, i: nat)
    requires i < |was| == |kinds| == |ans|
  {
    was[i].fd >= 0 && kinds[i].Socket? && On(was[i].events, m) && ans[i].before.Some?
  }

  /** Entry i asks about s, and at most 63 other handles have been asked about before it. */
  ghost predicate HeardFor(was: seq<PollFd>, kinds: seq<Kind>, ans: seq<SocketAnswer>, m: bv16, i: nat, s: int)
    requires i < |was| == |kinds| == |ans|
  {
    && AsksFor(was, kinds, ans, m, i) && ans[i].before == Some(s)
    && |set k | 0 <= k < i && AsksFor(was, kinds, ans, m, k) :: ans[k].before.value| <= 63
  }

  /** Some entry asked about s for these bits and was heard. */
  ghost predicate Answered(was: seq<PollFd>, kinds: seq<Kind>, ans: seq<SocketAnswer>, m: bv16, s: int)
    requires |was| == |kinds| == |ans|
  {
    exists i :: 0 <= i < |was| && HeardFor(was, kinds, ans, m, i, s)
  }

  /**
   A socket reports POLLERR alone without the socket library, POLLNVAL alone when its descriptor has
   gone bad, and else what select says of the questions heard about its handle; a readable socket
   without data reports POLLHUP.
   */
  ghost predicate SocketBits(r: bv16, was: seq<PollFd>, kinds: seq<Kind>, ans: seq<SocketAnswer>, loads: bool,
                             sel: Selected, j: nat)
    requires j < |was| == |kinds| == |ans|
  {
    if !loads then On(r, POLLERR) && Only(r, POLLERR)
    else if ans[j].before == None then On(r, POLLNVAL) && Only(r, POLLNVAL)
    else if sel.SelectFails? || ans[j].after == None then r == 0
    else
      var s := ans[j].after.value;
      var readable := s in sel.readable && Answered(was, kinds, ans, POLLIN | POLLRDNORM, s);
      && (On(r, POLLIN) <==> readable && ans[j].bytes) && (On(r, POLLHUP) <==> readable && !ans[j].bytes)
      && (On(r, POLLOUT) <==> s in sel.writable && Answered(was, kinds, ans, POLLOUT | POLLWRNORM, s))
      && (On(r, POLLPRI) <==> s in sel.urgent && Answered(was, kinds, ans, POLLPRI, s))
      && Only(r, POLLIN | POLLHUP | POLLOUT | POLLPRI)
  }

  /** Every socket, in bits. */
  ghost predicate SocketsDecided(was: seq<PollFd>, now: seq<PollFd>, kinds: seq<Kind>, ans: seq<SocketAnswer>,
                                 loads: bool, sel: Selected)
  {
    && |was| == |now| == |kinds| == |ans|
    && forall j :: 0 <= j < |was| && was[j].fd >= 0 && kinds[j].Socket? ==>
         SocketBits(now[j].revents, was, kinds, ans, loads, sel, j)
  }

  lemma AsksForExactly(was: seq<PollFd>, kinds: seq<Kind>, ans: seq<SocketAnswer>, m: bv16, i: nat)
    requires i < |was| == |kinds| == |ans|
    ensures Questions(Cleared(was), Sockets(was, kinds), ans, m)[i]
      == if AsksFor(was, kinds, ans, m, i) then ans[i].before else None
  {
    assert Cleared(was)[i].events == was[i].events;
  }

  lemma HeardForExactly(was: seq<PollFd>, kinds: seq<Kind>, ans: seq<SocketAnswer>, m: bv16, qs: seq<Option<int>>,
                        i: nat, s: int)
    requires |qs| == |was| == |kinds| == |ans| && i < |was|
    requires forall k :: 0 <= k < |was| ==> qs[k] == if AsksFor(was, kinds, ans, m, k) then ans[k].before else None
    ensures HeardFor(was, kinds, ans, m, i, s) <==> HeardAt(qs, i, s)
  {
    var a := set k | 0 <= k < i && AsksFor(was, kinds, ans, m, k) :: ans[k].before.value;
    assert a == AskedAbout(qs, i);
  }

  lemma AnsweredExactly(was: seq<PollFd>, kinds: seq<Kind>, ans: seq<SocketAnswer>, m: bv16, s: int)
    requires |was| == |kinds| == |ans|
    ensures Answered(was, kinds, ans, m, s) <==> Heard(Questions(Cleared(was), Sockets(was, kinds), ans, m), |was|, s)
  {
    var qs := Questions(Cleared(was), Sockets(was, kinds), ans, m);
    forall k | 0 <= k < |was|
      ensures qs[k] == if AsksFor(was, kinds, ans, m, k) then ans[k].before else None
    {
      AsksForExactly(was, kinds, ans, m, k);
    }
    forall i | 0 <= i < |was|
      ensures HeardFor(was, kinds, ans, m, i, s) <==> HeardAt(qs, i, s)
    {
      HeardForExactly(was, kinds, ans, m, qs, i, s);
    }
  }

  lemma SocketResultInBits(readable: bool, writable: bool, urgent: bool, bytes: bool)
    ensures var r := SocketResult(readable, writable, urgent, bytes);
      && (On(r, POLLIN) <==> readable && bytes) && (On(r, POLLHUP) <==> readable && !bytes)
      && (On(r, POLLOUT) <==> writable) && (On(r, POLLPRI) <==> urgent)
      && Only(r, POLLIN | POLLHUP | POLLOUT | POLLPRI)
  {
  }

  /** Bit by bit, every socket reports what was asked about its handle and holds. */
  lemma SocketsInBits(was: seq<PollFd>, now: seq<PollFd>, kinds: seq<Kind>, ans: seq<SocketAnswer>, loads: bool,
                      sel: Selected)
    requires |was| == |kinds| && AllDecided(Cleared(was), now, Sockets(was, kinds), ans, loads, sel)
    ensures SocketsDecided(was, now, kinds, ans, loads, sel)
  {
    var fds, cache := Cleared(was), Sockets(was, kinds);
    forall j | 0 <= j < |was| && was[j].fd >= 0 && kinds[j].Socket?
      ensures SocketBits(now[j].revents, was, kinds, ans, loads, sel, j)
    {
      assert Pending(fds[j], cache[j]);
      if loads && ans[j].before.Some? && sel.Selected? && ans[j].after.Some? {
        var s := ans[j].after.value;
        AnsweredExactly(was, kinds, ans, READ, s);
        AnsweredExactly(was, kinds, ans, WRITE, s);
        AnsweredExactly(was, kinds, ans, POLLPRI, s);
        SocketResultInBits(s in sel.readable && Heard(Questions(fds, cache, ans, READ), |was|, s),
          s in sel.writable && Heard(Questions(fds, cache, ans, WRITE), |was|, s),
          s in sel.urgent && Heard(Questions(fds, cache, ans, POLLPRI), |was|, s), ans[j].bytes);
      }
    }
  }

  // ------------------------------------------------------------------ the call

  /** poll. The result is -1 without memory, else the number of entries with a nonzero revents. */
  method Poll(fds: array<PollFd>, allocates: bool, kinds: seq<Kind>, wait: WaitAnswer,
              ans: seq<SocketAnswer>, loads: bool, sel: Selected)
    returns (result: int)
    requires fds.Length == |kinds| == |ans|
    modifies fds
    ensures !allocates ==> result == -1 && fds[..] == old(fds[..])
    ensures allocates ==> result == CountTo(fds[..], fds.Length) && AllFair(old(fds[..]), fds[..], kinds)
    ensures allocates ==> PipesDecided(old(fds[..]), fds[..], kinds, wait)
    ensures allocates ==> BitsDecided(old(fds[..]), fds[..], kinds, wait)
    ensures allocates ==> SocketsDecided(old(fds[..]), fds[..], kinds, ans, loads, sel)
    ensures allocates ==>
      AllDecided(Cleared(old(fds[..])), fds[..], Sockets(old(fds[..]), kinds), ans, loads, sel)
  {
    if !allocates {
      return -1;
    }
    ghost var was := fds[..];
    var cache := new bool[fds.Length];
    var map_ := new nat[MAXIMUM_WAIT_OBJECTS];
    var ready, sockets, count := FirstPass(fds, kinds, cache, map_);
    assert cache[..] == Sockets(was, kinds);
    ExaminedIsFair(was, fds[..], kinds);
    NotWoken(was, fds[..], kinds, wait, count);
    if count > 0 && ready == 0 {
      ready := Wait(fds, map_, count, wait, was, kinds);
    }
    if sockets > 0 {
      ghost var mid := fds[..];
      ready := PollSockets(fds, cache[..], ans, loads, sel, ready);
      SocketsAreFair(was, mid, fds[..], cache[..], kinds);
      PipesStayDecided(was, mid, fds[..], kinds, wait);
      DecidedFromStart(was, mid, fds[..], kinds, ans, loads, sel);
    }
    result := ready;
    PipesInBits(was, fds[..], kinds, wait);
    SocketsInBits(was, fds[..], kinds, ans, loads, sel);
  }

  /** The count is the number of indices with a nonzero revents. */
  lemma {:induction false} CountMeaning(s: seq<PollFd>, n: nat)
    requires n <= |s|
    ensures CountTo(s, n) == |set i | 0 <= i < n && s[i].revents != 0|
    decreases n
  {
    if n > 0 {
      CountMeaning(s, n - 1);
      var a := set i | 0 <= i < n - 1 && s[i].revents != 0;
      var b := set i | 0 <= i < n && s[i].revents != 0;
      assert b == if s[n - 1].revents != 0 then a + {n - 1} else a;
    }
  }
}
