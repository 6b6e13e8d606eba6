/**
 The growable array of spawn actions (source/posix_spawn_file_actions_init.c, addopen.c,
 addclose.c, adddup2.c, destroy.c). realloc and strdup may fail; paths are copies by value.
 */
module SpawnActions {
  import opened CStrings

  datatype Action =
    | Open(fd: int, path: string, oflag: int, mode: int)
    | Close(fd: int)
    | Dup2(fd: int, newfd: int)

  datatype Status = Ok | Einval | Enomem

  /** A call to one of the add functions, with what the allocator answers. */
  datatype Add =
    | AddOpen(fd: int, path: Option<string>, oflag: int, mode: int, grows: bool, copies: bool)
    | AddClose(fd: int, grows: bool)
    | AddDup2(fd: int, newfd: int, grows: bool)

  function Requested(a: Add): Action {
    match a
    case AddOpen(fd, path, oflag, mode, _, _) => Open(fd, if path.Some? then path.value else "", oflag, mode)
    case AddClose(fd, _) => Close(fd)
    case AddDup2(fd, newfd, _) => Dup2(fd, newfd)
  }

  /** The argument checks. addclose lets -1 through. */
  predicate Accepted(a: Add) {
    match a
    case AddOpen(fd, path, _, _, _, _) => fd != -1 && path.Some?
    case AddClose(_, _) => true
    case AddDup2(fd, newfd, _) => fd != -1 && newfd != -1
  }

  /** The array as the calls see it. */
  datatype State = State(actions: seq<Action>, capacity: nat, moved: nat)

  const EMPTY := State([], 0, 0)

  /** Room for one more; realloc carries the old elements over. */
  function Grown(s: State): State {
    if s.capacity > |s.actions| then s
    else State(s.actions, if s.capacity == 0 then 1 else 2 * s.capacity, s.moved + s.capacity)
  }

  /** Does realloc run, and fail? */
  predicate Refused(s: State, grows: bool) {
    s.capacity <= |s.actions| && !grows
  }

  function Result(s: State, a: Add): Status {
    if !Accepted(a) then Einval
    else if Refused(s, a.grows) then Enomem
    else if a.AddOpen? && !a.copies then Enomem
    else Ok
  }

  function Next(s: State, a: Add): State {
    if !Accepted(a) || Refused(s, a.grows) then s
    else
      var g := Grown(s);
      if Result(s, a) == Ok then g.(actions := g.actions + [Requested(a)]) else g
  }

  function Run(s: State, adds: seq<Add>): State
    decreases |adds|
  {
    if adds == [] then s else Run(Next(s, adds[0]), adds[1..])
  }

  /** The actions whose calls returned 0, in order. */
  function Successes(s: State, adds: seq<Add>): seq<Action>
    decreases |adds|
  {
    if adds == [] then []
    else (if Result(s, adds[0]) == Ok then [Requested(adds[0])] else []) + Successes(Next(s, adds[0]), adds[1..])
  }

  function Pow2(k: nat): (r: nat)
    ensures r >= 1
  {
    if k == 0 then 1 else 2 * Pow2(k - 1)
  }

  /** What every sequence of adds keeps. */
  ghost predicate Inv(s: State) {
    && |s.actions| <= s.capacity
    && (s.capacity == 0 || exists k: nat :: s.capacity == Pow2(k))
    && s.capacity <= (if |s.actions| == 0 then 1 else 2 * |s.actions|)
    && s.moved == (if s.capacity == 0 then 0 else s.capacity - 1)
  }

  lemma StepKeepsInv(s: State, a: Add)
    requires Inv(s)
    ensures Inv(Next(s, a))
  {
    if s.capacity == 0 {
      assert Pow2(0) == 1;
    } else {
      var k: nat :| s.capacity == Pow2(k);
      assert Pow2(k + 1) == 2 * s.capacity;
    }
  }

  /** A call that fails shows nothing: the actions stay, whatever the allocator did. */
  lemma FailureShowsNothing(s: State, a: Add)
    requires Result(s, a) != Ok
    ensures Next(s, a).actions == s.actions
  {
  }

  /**
   After any sequence of adds: the actions are the successful ones in order, the capacity is 0 or
   a power of two and at most twice what is used, and growing has moved capacity - 1 elements.
   */
  lemma {:induction false} RunKeepsInv(s: State, adds: seq<Add>)
    requires Inv(s)
    ensures Inv(Run(s, adds))
    ensures Run(s, adds).actions == s.actions + Successes(s, adds)
    decreases |adds|
  {
    if adds == [] {
      assert s.actions + [] == s.actions;
    } else {
      var t := Next(s, adds[0]);
      StepKeepsInv(s, adds[0]);
      RunKeepsInv(t, adds[1..]);
      var one := if Result(s, adds[0]) == Ok then [Requested(adds[0])] else [];
      assert t.actions == s.actions + one;
      Assoc(s.actions, one, Successes(t, adds[1..]));
    }
  }

  /** Amortised growth: n successful adds move fewer than 2n elements. */
  lemma AmortisedMoves(adds: seq<Add>)
    ensures var n := |Successes(EMPTY, adds)|;
      if n == 0 then Run(EMPTY, adds).moved == 0 else Run(EMPTY, adds).moved < 2 * n
  {
    RunKeepsInv(EMPTY, adds);
  }

  lemma {:induction false} RunAppend(s: State, adds: seq<Add>, a: Add)
    ensures Run(s, adds + [a]) == Next(Run(s, adds), a)
    decreases |adds|
  {
    if adds == [] {
      assert [a][1..] == [];
    } else {
      assert (adds + [a])[1..] == adds[1..] + [a];
      RunAppend(Next(s, adds[0]), adds[1..], a);
    }
  }

  // ---------------------------------------------------------------------------------------
  // In arguments and results
  // ---------------------------------------------------------------------------------------

  /** The stored action has the arguments of the call. */
  predicate Shows(x: Action, a: Add) {
    match a
    case AddOpen(fd, path, oflag, mode, _, _) =>
      x.Open? && x.fd == fd && path == Some(x.path) && x.oflag == oflag && x.mode == mode
    case AddClose(fd, _) => x.Close? && x.fd == fd
    case AddDup2(fd, newfd, _) => x.Dup2? && x.fd == fd && x.newfd == newfd
  }

  /** open and dup2 refuse a descriptor -1, open a missing path; close refuses nothing. */
  predicate BadArguments(a: Add) {
    match a
    case AddOpen(fd, path, _, _, _, _) => fd == -1 || path == None
    case AddClose(_, _) => false
    case AddDup2(fd, newfd, _) => fd == -1 || newfd == -1
  }

  /** The array is full and cannot grow, or the path cannot be copied. */
  predicate NoMemory(s: State, a: Add) {
    || (s.capacity <= |s.actions| && !a.grows)
    || (a.AddOpen? && !a.copies)
  }

  /**
   One call: EINVAL for bad arguments, ENOMEM without memory, and else one action more at the end,
   with the arguments of the call. A full array doubles, even if the path cannot be copied then.
   */
  lemma CallExactly(s: State, a: Add)
    ensures Result(s, a) == if BadArguments(a) then Einval else if NoMemory(s, a) then Enomem else Ok
    ensures var t := Next(s, a);
      && (if BadArguments(a) || NoMemory(s, a) then t.actions == s.actions
          else |t.actions| == |s.actions| + 1 && s.actions <= t.actions && Shows(t.actions[|s.actions|], a))
      && (if BadArguments(a) || |s.actions| < s.capacity || !a.grows then t.capacity == s.capacity
          else if s.capacity == 0 then t.capacity == 1
          else t.capacity == s.capacity + s.capacity)
  {
  }

  /** With memory, an array filled by good calls has one action for each, in order. */
  lemma {:induction false} AllShown(s: State, adds: seq<Add>)
    requires forall k :: 0 <= k < |adds| ==>
      !BadArguments(adds[k]) && adds[k].grows && (adds[k].AddOpen? ==> adds[k].copies)
    ensures var t := Run(s, adds);
      && |t.actions| == |s.actions| + |adds| && t.actions[..|s.actions|] == s.actions
      && forall k :: 0 <= k < |adds| ==> Shows(t.actions[|s.actions| + k], adds[k])
    decreases |adds|
  {
    if adds != [] {
      var t, rest := Next(s, adds[0]), adds[1..];
      CallExactly(s, adds[0]);
      assert forall k :: 0 <= k < |rest| ==> rest[k] == adds[k + 1];
      AllShown(t, rest);
      var u := Run(s, adds);
      assert u.actions[..|s.actions|] == u.actions[..|t.actions|][..|s.actions|];
      assert u.actions[|s.actions|] == u.actions[..|t.actions|][|s.actions|];
      forall k | 0 <= k < |adds|
        ensures Shows(u.actions[|s.actions| + k], adds[k])
      {
        assert k > 0 ==> Shows(u.actions[|t.actions| + (k - 1)], rest[k - 1]);
      }
    }
  }

  class FileActions {
    var buffer: array<Action>
    var used: nat
    // How many elements realloc has carried over since the array was last empty.
    ghost var moved: nat

    ghost predicate Valid()
      reads this
    {
      used <= buffer.Length
    }

    ghost function Contents(): State
      reads this, buffer
      requires Valid()
    {
      State(buffer[..used], buffer.Length, moved)
    }

    /** posix_spawn_file_actions_init. */
    constructor ()
      ensures Valid() && fresh(buffer) && Contents() == EMPTY && Inv(Contents())
    {
      buffer, used, moved := new Action[0], 0, 0;
    }

    /** The growth step: a new block with the old elements, twice the size (or one). */
    method Grow(grows: bool) returns (ok: bool)
      requires Valid()
      modifies this
      ensures Valid() && (buffer == old(buffer) || fresh(buffer))
      ensures ok <==> !Refused(old(Contents()), grows)
      ensures Contents() == if ok then Grown(old(Contents())) else old(Contents())
      ensures ok ==> used < buffer.Length
    {
      if buffer.Length == used {
        if !grows {
          return false;
        }
        var size := (if buffer.Length == 0 then 1 else 0) + buffer.Length * 2;
        var p := new Action[size](_ => Close(0));
        for i := 0 to used
          invariant buffer == old(buffer) && used == old(used) <= buffer.Length == old(buffer.Length) < p.Length
          invariant moved == old(moved) && buffer[..] == old(buffer[..])
          invariant p[..i] == buffer[..i]
        {
          p[i] := buffer[i];
        }
        buffer, moved := p, moved + used;
      }
      ok := true;
    }

    method Put(a: Action)
      requires Valid() && used < buffer.Length
      modifies this, buffer
      ensures Valid() && buffer == old(buffer)
      ensures Contents() == old(Contents()).(actions := old(Contents()).actions + [a])
    {
      buffer[used] := a;
      used := used + 1;
    }

    /** posix_spawn_file_actions_addopen: the path is copied after the array has grown. */
    method AddOpen(fd: int, path: Option<string>, oflag: int, mode: int, grows: bool, copies: bool) returns (r: Status)
      requires Valid()
      modifies this, buffer
      ensures Valid() && (buffer == old(buffer) || fresh(buffer))
      ensures r == Result(old(Contents()), Add.AddOpen(fd, path, oflag, mode, grows, copies))
      ensures Contents() == Next(old(Contents()), Add.AddOpen(fd, path, oflag, mode, grows, copies))
    {
      if fd == -1 || path == None {
        return Einval;
      }
      var ok := Grow(grows);
      if !ok {
        return Enomem;
      }
      if !copies {
        return Enomem;
      }
      Put(Open(fd, path.value, oflag, mode));
      r := Ok;
    }

    /** posix_spawn_file_actions_addclose: the check is on the pointer alone, so any fd passes. */
    method AddClose(fd: int, grows: bool) returns (r: Status)
      requires Valid()
      modifies this, buffer
      ensures Valid() && (buffer == old(buffer) || fresh(buffer))
      ensures r == Result(old(Contents()), Add.AddClose(fd, grows))
      ensures Contents() == Next(old(Contents()), Add.AddClose(fd, grows))
    {
      var ok := Grow(grows);
      if !ok {
        return Enomem;
      }
      Put(Close(fd));
      r := Ok;
    }

    /** posix_spawn_file_actions_adddup2. */
    method AddDup2(fd: int, newfd: int, grows: bool) returns (r: Status)
      requires Valid()
      modifies this, buffer
      ensures Valid() && (buffer == old(buffer) || fresh(buffer))
      ensures r == Result(old(Contents()), Add.AddDup2(fd, newfd, grows))
      ensures Contents() == Next(old(Contents()), Add.AddDup2(fd, newfd, grows))
    {
      if fd == -1 || newfd == -1 {
        return Einval;
      }
      var ok := Grow(grows);
      if !ok {
        return Enomem;
      }
      Put(Dup2(fd, newfd));
      r := Ok;
    }

    /** posix_spawn_file_actions_destroy. */
    method Destroy()
      requires Valid()
      modifies this
      ensures Valid() && fresh(buffer) && Contents() == EMPTY
    {
      buffer, used, moved := new Action[0], 0, 0;
    }

    method Call(a: Add) returns (r: Status)
      requires Valid()
      modifies this, buffer
      ensures Valid() && (buffer == old(buffer) || fresh(buffer))
      ensures r == Result(old(Contents()), a) && Contents() == Next(old(Contents()), a)
    {
      match a {
        case AddOpen(fd, path, oflag, mode, grows, copies) => r := AddOpen(fd, path, oflag, mode, grows, copies);
        case AddClose(fd, grows) => r := AddClose(fd, grows);
        case AddDup2(fd, newfd, grows) => r := AddDup2(fd, newfd, grows);
      }
    }

    /** Any sequence of adds on a fresh or destroyed array. */
    method Calls(adds: seq<Add>)
      requires Valid() && Contents() == EMPTY
      modifies this, buffer
      ensures Valid() && Inv(Contents())
      ensures Contents().actions == Successes(EMPTY, adds)
    {
      for i := 0 to |adds|
        invariant Valid() && (buffer == old(buffer) || fresh(buffer))
        invariant Contents() == Run(EMPTY, adds[..i])
      {
        var r := Call(adds[i]);
        assert adds[..i + 1] == adds[..i] + [adds[i]];
        RunAppend(EMPTY, adds[..i], adds[i]);
      }
      assert adds[..|adds|] == adds;
      RunKeepsInv(EMPTY, adds);
    }
  }
}
