/**
 The passwd database calls that share one static record and the netapi32 handle
 (source/getpwent.c, getpwnam.c, getpwuid.c, setpwent.c, endpwent.c): who owns which string and
 when it is freed. One thread; an Outcome says which allocations and system calls succeed.

 The class works on a heap of blocks. The state machine below it (Next) keeps only what a caller
 can observe and counts the blocks that nobody will ever free; each method refines one step.
 */
module PasswdDb {
  import opened CStrings

  /** Each source file has a static record of its own. */
  datatype Owner = OfGetpwent | OfGetpwnam | OfGetpwuid | OfSetpwent | OfGetpwnamR | OfGetpwuidR

  /** The string fields of a record: heap blocks, or NULL. */
  datatype Fields = Fields(name: Option<nat>, dir: Option<nat>, shell: Option<nat>)

  const NOTHING := Fields(None, None, None)

  function Block(x: Option<nat>): set<nat> {
    if x.Some? then {x.value} else {}
  }

  function Blocks(f: Fields): set<nat> {
    Block(f.name) + Block(f.dir) + Block(f.shell)
  }

  /** No block is in two fields. */
  predicate Separate(f: Fields) {
    && Block(f.name) !! Block(f.dir) && Block(f.name) !! Block(f.shell) && Block(f.dir) !! Block(f.shell)
  }

  /** A record that has been handed out; the name may be a failed copy. */
  predicate HandedOut(f: Fields) {
    f.dir.Some? && f.shell.Some?
  }

  /** GetUserNameW works, fails, or asks for a larger buffer and is called again. */
  datatype UserName = NameOk | NameFails | NameGrows(realloc: bool, again: bool)

  /** How the system answers during one call. */
  datatype Outcome = Outcome(
    dll: bool, wide: bool, user: UserName, converts: bool, nameBlock: bool,
    homeSet: bool, homeCopy: bool, homeHasParent: bool, homeBlock: bool,
    shellSet: bool, shellCopy: bool,
    functions: bool, info: bool, dirBlock: bool, shellBlock: bool)
  {
    predicate NameRead() {
      wide && (user.NameOk? || (user.NameGrows? && user.realloc && user.again))
    }

    predicate HomeGiven() {
      homeSet && homeCopy && homeHasParent && homeBlock
    }

    predicate ShellGiven() {
      shellSet && shellCopy
    }

    /** Directory and shell are both found, in the environment or elsewhere. */
    predicate Filled() {
      (HomeGiven() || dirBlock) && (ShellGiven() || shellBlock)
    }
  }

  /** The shared state as a caller sees it: `full` says that the current record has its strings. */
  datatype State = State(handle: bool, current: Option<Owner>, index: nat, full: bool)

  datatype Op =
    | GetPwEnt(o: Outcome)
    | GetPwNam(known: bool, o: Outcome)
    | GetPwUid(mine: bool, o: Outcome)
    | SetPwEnt(dll: bool)
    | EndPwEnt
    | StartReentrant(owner: Owner, dll: bool)

  const INITIAL := State(false, None, 0, false)

  function Loaded(s: State, owner: Owner, dll: bool): State {
    if s.handle || !dll then s else s.(handle := true, current := Some(owner))
  }

  /** Does the operation return a record? */
  predicate Succeeds(s: State, op: Op) {
    match op
    case GetPwEnt(o) =>
      (s.handle || o.dll) && s.index == 0 && o.NameRead() && o.converts && o.nameBlock && o.Filled()
    case GetPwNam(known, o) => known && (s.handle || o.dll) && o.converts && o.wide && o.Filled()
    case GetPwUid(mine, o) =>
      mine && o.NameRead() && o.converts && o.nameBlock && (s.handle || o.dll) && o.Filled()
    case _ => false
  }

  /** How many blocks does the operation lose? */
  function Loses(s: State, op: Op): nat {
    match op
    case GetPwNam(known, o) =>
      if known && o.nameBlock && !((s.handle || o.dll) && o.converts && o.wide) then 1 else 0
    case GetPwUid(mine, o) =>
      if !(mine && o.NameRead() && o.converts && o.nameBlock) then 0
      else if !(s.handle || o.dll) then 2
      else if o.ShellGiven() && !o.HomeGiven() && !o.dirBlock then 1
      else 0
    case _ => 0
  }

  function Next(s: State, op: Op): State {
    var ok := Succeeds(s, op);
    match op
    case GetPwEnt(o) =>
      Loaded(s, OfGetpwent, o.dll).(index := if ok then s.index + 1 else s.index, full := ok)
    case GetPwNam(known, o) =>
      if !known then s else Loaded(s, OfGetpwnam, o.dll).(full := ok)
    case GetPwUid(mine, o) =>
      if !mine then s
      else if !(o.NameRead() && o.converts && o.nameBlock) then s.(full := false)
      else Loaded(s, OfGetpwuid, o.dll).(full := ok)
    case SetPwEnt(dll) => if s.handle || dll then Loaded(s, OfSetpwent, dll).(full := false, index := 0) else s
    case EndPwEnt => s.(handle := false, current := None, full := false, index := 0)
    case StartReentrant(owner, dll) => Loaded(s, owner, dll)
  }

  function Run(s: State, ops: seq<Op>): State
    decreases |ops|
  {
    if ops == [] then s else Run(Next(s, ops[0]), ops[1..])
  }

  lemma {:induction false} RunAppend(s: State, ops: seq<Op>, op: Op)
    ensures Run(s, ops + [op]) == Next(Run(s, ops), op)
    decreases |ops|
  {
    if ops == [] {
      assert [op][1..] == [];
    } else {
      assert (ops + [op])[1..] == ops[1..] + [op];
      RunAppend(Next(s, ops[0]), ops[1..], op);
    }
  }

  predicate Consistent(s: State) {
    && (s.handle <==> s.current.Some?)
    && (s.full ==> s.current.Some?)
    && s.index <= 1
  }

  /** The handle is set exactly while a record is current, after every run. */
  lemma {:induction false} RunIsConsistent(s: State, ops: seq<Op>)
    requires Consistent(s)
    ensures Consistent(Run(s, ops))
    decreases |ops|
  {
    if ops != [] {
      RunIsConsistent(Next(s, ops[0]), ops[1..]);
    }
  }

  predicate Rewinds(op: Op) {
    op.SetPwEnt? || op.EndPwEnt?
  }

  /** How many times getpwent hands out a record. */
  function Entries(s: State, ops: seq<Op>): nat
    decreases |ops|
  {
    if ops == [] then 0
    else (if ops[0].GetPwEnt? && Succeeds(s, ops[0]) then 1 else 0) + Entries(Next(s, ops[0]), ops[1..])
  }

  /** Without a rewind getpwent returns the one user at most once, whatever else is called. */
  lemma {:induction false} OneEntryPerPass(s: State, ops: seq<Op>)
    requires forall k :: 0 <= k < |ops| ==> !Rewinds(ops[k])
    ensures Entries(s, ops) <= (if s.index == 0 then 1 else 0)
    ensures Entries(s, ops) == Run(s, ops).index - s.index
    decreases |ops|
  {
    if ops != [] {
      assert !Rewinds(ops[0]);
      assert forall k :: 0 <= k < |ops[1..]| ==> ops[1..][k] == ops[k + 1];
      OneEntryPerPass(Next(s, ops[0]), ops[1..]);
    }
  }

  /** How many blocks a run loses. */
  function Losses(s: State, ops: seq<Op>): nat
    decreases |ops|
  {
    if ops == [] then 0 else Loses(s, ops[0]) + Losses(Next(s, ops[0]), ops[1..])
  }

  lemma {:induction false} LossesAppend(s: State, ops: seq<Op>, op: Op)
    ensures Losses(s, ops + [op]) == Losses(s, ops) + Loses(Run(s, ops), op)
    decreases |ops|
  {
    if ops == [] {
      assert [op][1..] == [];
      assert Losses(Next(s, op), []) == 0;
    } else {
      assert (ops + [op])[1..] == ops[1..] + [op];
      LossesAppend(Next(s, ops[0]), ops[1..], op);
    }
  }

  /** What each call of a run returns. */
  function Results(s: State, ops: seq<Op>): (r: seq<bool>)
    decreases |ops|
  {
    if ops == [] then [] else [Succeeds(s, ops[0])] + Results(Next(s, ops[0]), ops[1..])
  }

  lemma {:induction false} ResultsAppend(s: State, ops: seq<Op>, op: Op)
    ensures Results(s, ops + [op]) == Results(s, ops) + [Succeeds(Run(s, ops), op)]
    decreases |ops|
  {
    if ops == [] {
      assert [op][1..] == [];
      assert Results(Next(s, op), []) == [];
    } else {
      assert (ops + [op])[1..] == ops[1..] + [op];
      ResultsAppend(Next(s, ops[0]), ops[1..], op);
    }
  }

  /** The call gets as far as loading netapi32, and the library is there. */
  predicate FindsLibrary(op: Op) {
    match op
    case GetPwEnt(o) => o.dll
    case GetPwNam(known, o) => known && o.dll
    case GetPwUid(mine, o) => mine && o.NameRead() && o.converts && o.nameBlock && o.dll
    case SetPwEnt(dll) => dll
    case StartReentrant(_, dll) => dll
    case EndPwEnt => false
  }

  predicate NoEnd(ops: seq<Op>, from: nat, to: nat)
    requires to <= |ops|
  {
    forall i :: from <= i < to ==> ops[i] != EndPwEnt
  }

  /** Before call k the library is loaded: some call found it, and no endpwent came after that. */
  predicate LoadedBefore(handle: bool, ops: seq<Op>, k: nat)
    requires k <= |ops|
  {
    (handle && NoEnd(ops, 0, k)) || exists j :: 0 <= j < k && FindsLibrary(ops[j]) && NoEnd(ops, j + 1, k)
  }

  lemma LoadedStep(handle: bool, ops: seq<Op>, k: nat)
    requires k < |ops|
    ensures LoadedBefore(handle, ops, k + 1)
      <==> ops[k] != EndPwEnt && (FindsLibrary(ops[k]) || LoadedBefore(handle, ops, k))
  {
    if ops[k] != EndPwEnt && LoadedBefore(handle, ops, k) {
      if handle && NoEnd(ops, 0, k) {
        assert NoEnd(ops, 0, k + 1);
      } else {
        var j :| 0 <= j < k && FindsLibrary(ops[j]) && NoEnd(ops, j + 1, k);
        assert NoEnd(ops, j + 1, k + 1);
      }
    }
    if FindsLibrary(ops[k]) {
      assert NoEnd(ops, k + 1, k + 1);
    }
    if LoadedBefore(handle, ops, k + 1) {
      if handle && NoEnd(ops, 0, k + 1) {
        assert ops[k] != EndPwEnt && NoEnd(ops, 0, k);
      } else {
        var j :| 0 <= j < k + 1 && FindsLibrary(ops[j]) && NoEnd(ops, j + 1, k + 1);
        assert j < k ==> ops[k] != EndPwEnt && NoEnd(ops, j + 1, k);
      }
    }
  }

  lemma {:induction false} LoadedPrefix(handle: bool, ops: seq<Op>, op: Op, k: nat)
    requires k <= |ops|
    ensures LoadedBefore(handle, ops + [op], k) <==> LoadedBefore(handle, ops, k)
    decreases k
  {
    if k > 0 {
      LoadedPrefix(handle, ops, op, k - 1);
      LoadedStep(handle, ops, k - 1);
      LoadedStep(handle, ops + [op], k - 1);
    }
  }

  /** The handle after a run says exactly that. */
  lemma {:induction false} LoadedExactly(s: State, ops: seq<Op>)
    ensures Run(s, ops).handle <==> LoadedBefore(s.handle, ops, |ops|)
    decreases |ops|
  {
    if ops != [] {
      var n := |ops| - 1;
      var front, op := ops[..n], ops[n];
      assert ops == front + [op];
      LoadedExactly(s, front);
      RunAppend(s, front, op);
      LoadedPrefix(s.handle, front, op, n);
      LoadedStep(s.handle, ops, n);
      HandleStep(Run(s, front), op);
    }
  }

  lemma HandleStep(s: State, op: Op)
    ensures Next(s, op).handle <==> op != EndPwEnt && (FindsLibrary(op) || s.handle)
  {
  }

  /** The first i + 1 calls are the first i and one more. */
  lemma OneCallMore(s: State, ops: seq<Op>, i: nat)
    requires i < |ops|
    ensures Run(s, ops[..i + 1]) == Next(Run(s, ops[..i]), ops[i])
    ensures Losses(s, ops[..i + 1]) == Losses(s, ops[..i]) + Loses(Run(s, ops[..i]), ops[i])
    ensures Results(s, ops[..i + 1]) == Results(s, ops[..i]) + [Succeeds(Run(s, ops[..i]), ops[i])]
  {
    RunAppend(s, ops[..i], ops[i]);
    LossesAppend(s, ops[..i], ops[i]);
    ResultsAppend(s, ops[..i], ops[i]);
    assert ops[..i + 1] == ops[..i] + [ops[i]];
  }

  /** A call that forgets a block, given what the system answers and whether the library is loaded. */
  predicate Forgets(op: Op, loaded: bool) {
    match op
    case GetPwNam(known, o) => known && o.nameBlock && !((loaded || o.dll) && o.converts && o.wide)
    case GetPwUid(mine, o) =>
      && mine && o.NameRead() && o.converts && o.nameBlock
      && (!(loaded || o.dll) || (o.ShellGiven() && !o.HomeGiven() && !o.dirBlock))
    case _ => false
  }

  /** A run loses nothing exactly when no call of it forgets a block. */
  lemma {:induction false} LossExactly(s: State, ops: seq<Op>)
    ensures Losses(s, ops) == 0
      <==> forall k :: 0 <= k < |ops| ==> !Forgets(ops[k], LoadedBefore(s.handle, ops, k))
    decreases |ops|
  {
    if ops != [] {
      var n := |ops| - 1;
      var front, op := ops[..n], ops[n];
      assert ops == front + [op];
      LossExactly(s, front);
      LossesAppend(s, front, op);
      LoadedExactly(s, front);
      LoadedPrefix(s.handle, front, op, n);
      assert Loses(Run(s, front), op) == 0 <==> !Forgets(op, LoadedBefore(s.handle, ops, n));
      forall k | 0 <= k < n
        ensures Forgets(ops[k], LoadedBefore(s.handle, ops, k))
          <==> Forgets(front[k], LoadedBefore(s.handle, front, k))
      {
        LoadedPrefix(s.handle, front, op, k);
      }
    }
  }

  /** getpwent, setpwent and endpwent lose nothing, whatever the system answers. */
  lemma {:induction false} IterationLosesNothing(s: State, ops: seq<Op>)
    requires forall k :: 0 <= k < |ops| ==> ops[k].GetPwEnt? || Rewinds(ops[k]) || ops[k].StartReentrant?
    ensures Losses(s, ops) == 0
    decreases |ops|
  {
    if ops != [] {
      assert ops[0].GetPwEnt? || Rewinds(ops[0]) || ops[0].StartReentrant?;
      assert forall k :: 0 <= k < |ops[1..]| ==> ops[1..][k] == ops[k + 1];
      IterationLosesNothing(Next(s, ops[0]), ops[1..]);
    }
  }

  /** Every owner is one of the six. */
  predicate Total(records: map<Owner, Fields>) {
    && OfGetpwent in records && OfGetpwnam in records && OfGetpwuid in records
    && OfSetpwent in records && OfGetpwnamR in records && OfGetpwuidR in records
  }

  lemma TotalHasAll(records: map<Owner, Fields>, o: Owner)
    requires Total(records)
    ensures o in records
  {
    match o {
      case OfGetpwent => case OfGetpwnam => case OfGetpwuid =>
      case OfSetpwent => case OfGetpwnamR => case OfGetpwuidR =>
    }
  }

  lemma AddBlock(s: set<nat>, x: Option<nat>)
    requires s !! Block(x)
    ensures |s + Block(x)| == |s| + if x.Some? then 1 else 0
  {
    if x == None {
      assert s + Block(x) == s;
    }
  }

  class Database {
    // The heap: live blocks, and a bound on the blocks ever handed out.
    var live: set<nat>
    var next: nat
    // The global structure and the static records.
    var handle: bool
    var current: Option<Owner>
    var index: nat
    var records: map<Owner, Fields>

    constructor ()
      ensures Valid() && live == {} && Abs() == INITIAL
    {
      live, next, handle, current, index := {}, 0, false, None, 0;
      records := map[OfGetpwent := NOTHING, OfGetpwnam := NOTHING, OfGetpwuid := NOTHING,
                     OfSetpwent := NOTHING, OfGetpwnamR := NOTHING, OfGetpwuidR := NOTHING];
      new;
      forall o: Owner
        ensures o in records && records[o] == NOTHING
      {
        TotalHasAll(records, o);
      }
    }

    function Record(): Fields
      reads `current, `records
    {
      if current.Some? && current.value in records then records[current.value] else NOTHING
    }

    /** The blocks that the current record owns. */
    function Owned(): set<nat>
      reads `current, `records
    {
      Blocks(Record())
    }

    /** Everything alive that no record owns. */
    function Foreign(): set<nat>
      reads `live, `current, `records
    {
      live - Owned()
    }

    ghost predicate Bounded()
      reads `live, `next
    {
      forall b :: b in live ==> b < next
    }

    /** The handle is set iff a record is current, and only that record owns strings. */
    ghost predicate Owners()
      reads `handle, `current, `records
    {
      && (handle <==> current.Some?)
      && (forall o :: o in records)
      && (forall o :: current != Some(o) ==> records[o] == NOTHING)
      && Separate(Record())
      && (Record() == NOTHING || HandedOut(Record()))
    }

    /** What the record owns is alive. */
    ghost predicate Valid()
      reads this
    {
      Owners() && Owned() <= live && Bounded()
    }

    function Abs(): State
      reads this
    {
      State(handle, current, index, Record() != NOTHING)
    }

    method Malloc(ok: bool) returns (p: Option<nat>)
      requires Bounded()
      modifies `live, `next
      ensures p.Some? <==> ok
      ensures old(next) <= next && Bounded()
      ensures p.Some? ==> old(next) <= p.value < next
      ensures live == old(live) + Block(p)
    {
      if ok {
        p := Some(next);
        live, next := live + {next}, next + 1;
      } else {
        p := None;
      }
    }

    /** free; a block that is not alive must never be passed. */
    method Release(p: Option<nat>)
      requires p.Some? ==> p.value in live
      modifies `live
      ensures live == old(live) - Block(p)
    {
      if p.Some? {
        live := live - {p.value};
      }
    }

    /** free_passwd_fields on the current record: each field is cleared, then freed. */
    method FreeFields()
      requires Valid()
      modifies `live, `records
      ensures Valid() && Record() == NOTHING
      ensures live == old(Foreign())
    {
      if current.Some? {
        var o := current.value;
        var f := records[o];
        records := records[o := f.(name := None)];
        Release(f.name);
        records := records[o := records[o].(dir := None)];
        Release(f.dir);
        records := records[o := records[o].(shell := None)];
        Release(f.shell);
        assert records[o] == NOTHING;
      }
    }

    /** Loads netapi32 on first use and makes the caller's record current. */
    method EnsureHandle(owner: Owner, dll: bool) returns (ok: bool)
      requires Valid()
      modifies `handle, `current
      ensures Valid() && Record() == old(Record()) && Foreign() == old(Foreign())
      ensures handle == ok
      ensures Abs() == Loaded(old(Abs()), owner, dll)
    {
      if !handle {
        if !dll {
          return false;
        }
        handle, current := true, Some(owner);
      }
      ok := true;
    }

    /** The wide user name: a block of its own, or NULL after an error. */
    method ReadUserName(o: Outcome) returns (w: Option<nat>)
      requires Bounded()
      modifies `live, `next
      ensures old(next) <= next && Bounded()
      ensures w.Some? ==> old(next) <= w.value < next
      ensures live == old(live) + Block(w)
      ensures w.Some? <==> o.NameRead()
    {
      w := Malloc(o.wide);
      if w == None {
        return;
      }
      if o.user.NameFails? || (o.user.NameGrows? && !o.user.realloc) {
        Release(w);
        return None;
      }
      if o.user.NameGrows? {
        Release(w);
        w := Malloc(true);
        if !o.user.again {
          Release(w);
          return None;
        }
      }
    }

    /** The wide name and its narrow copy; both or neither. */
    method ReadNames(o: Outcome) returns (w: Option<nat>, name: Option<nat>)
      requires Bounded()
      modifies `live, `next
      ensures old(next) <= next && Bounded()
      ensures w.Some? <==> o.NameRead() && o.converts && o.nameBlock
      ensures name.Some? == w.Some?
      ensures w.Some? ==> old(next) <= w.value < name.value < next
      ensures live == old(live) + Block(w) + Block(name)
    {
      name := None;
      w := ReadUserName(o);
      if w == None {
        return;
      }
      if o.converts {
        name := Malloc(o.nameBlock);
      }
      if name == None {
        Release(w);
        w := None;
      }
    }

    /** HOME: the copy is always freed; the result is the printed path, if there is one. */
    method HomeDirectory(o: Outcome) returns (dir: Option<nat>)
      requires Bounded()
      modifies `live, `next
      ensures old(next) <= next && Bounded()
      ensures dir.Some? ==> old(next) <= dir.value < next
      ensures live == old(live) + Block(dir)
      ensures dir.Some? <==> o.HomeGiven()
    {
      dir := None;
      if o.homeSet {
        var copy := Malloc(o.homeCopy);
        if copy.Some? {
          if o.homeHasParent {
            dir := Malloc(o.homeBlock);
          }
          Release(copy);
        }
      }
    }

    /** Directory and shell as the environment gives them. */
    method FromEnvironment(o: Outcome) returns (dir: Option<nat>, shell: Option<nat>)
      requires Bounded()
      modifies `live, `next
      ensures old(next) <= next && Bounded()
      ensures dir.Some? ==> old(next) <= dir.value
      ensures shell.Some? ==> old(next) <= shell.value && dir != shell
      ensures live == old(live) + Block(dir) + Block(shell)
      ensures dir.Some? <==> o.HomeGiven()
      ensures shell.Some? <==> o.ShellGiven()
    {
      dir := HomeDirectory(o);
      shell := None;
      if o.shellSet {
        shell := Malloc(o.shellCopy);
      }
    }

    /** NetUserGetInfo consumes the wide name and may answer with a block of its own. */
    method UserInfo(o: Outcome, w: nat) returns (info: Option<nat>)
      requires Bounded() && w in live
      modifies `live, `next
      ensures old(next) <= next && Bounded()
      ensures info.Some? ==> old(next) <= info.value < next
      ensures live == old(live) - {w} + Block(info)
    {
      info := None;
      if o.functions {
        info := Malloc(o.info);
      }
      Release(Some(w));
    }

    /** What HOME and SHELL did not give; on failure everything but a forgotten shell is freed. */
    method Fallback(o: Outcome, name: Option<nat>, info: Option<nat>, d: Option<nat>, s: Option<nat>, keepsShell: bool)
      returns (dir: Option<nat>, shell: Option<nat>)
      requires Bounded()
      requires Block(name) <= live && Separate(Fields(name, d, s)) && Block(d) + Block(s) <= live
      requires Block(info) <= live - Block(name) - Block(d) - Block(s)
      modifies `live, `next
      ensures old(next) <= next && Bounded()
      ensures dir.Some? == shell.Some? == ((d.Some? || o.dirBlock) && (s.Some? || o.shellBlock))
      ensures dir.Some? ==> dir == d || (d == None && old(next) <= dir.value)
      ensures shell.Some? ==> shell == s || (s == None && old(next) <= shell.value && dir != shell)
      ensures dir.Some? ==> live == old(live) - Block(info) + Block(dir) + Block(shell)
      ensures dir == None ==>
        live == old(live) - Block(info) - Block(d) - Block(name)
                - (if keepsShell && d == None && !o.dirBlock then {} else Block(s))
    {
      dir, shell := d, s;
      if dir == None {
        dir := Malloc(o.dirBlock);
        if dir == None {
          Release(info);
          if !keepsShell {
            Release(shell);
          }
          Release(name);
          return None, None;
        }
      }
      if shell == None {
        shell := Malloc(o.shellBlock);
        if shell == None {
          Release(dir);
          Release(info);
          Release(name);
          return None, None;
        }
      }
      Release(info);
    }

    /** The branch taken when the environment leaves something open; it consumes the wide name. */
    method Search(o: Outcome, name: Option<nat>, w: nat, d: Option<nat>, s: Option<nat>, keepsShell: bool)
      returns (dir: Option<nat>, shell: Option<nat>)
      requires Bounded() && w in live
      requires Block(name) <= live && Separate(Fields(name, d, s)) && Block(d) + Block(s) <= live
      requires Some(w) != name && Some(w) != d && Some(w) != s
      modifies `live, `next
      ensures old(next) <= next && Bounded()
      ensures dir.Some? == shell.Some? == ((d.Some? || o.dirBlock) && (s.Some? || o.shellBlock))
      ensures dir.Some? ==> dir == d || (d == None && old(next) <= dir.value)
      ensures shell.Some? ==> shell == s || (s == None && old(next) <= shell.value && dir != shell)
      ensures dir.Some? ==> live == old(live) - {w} + Block(dir) + Block(shell)
      ensures dir == None ==>
        live == old(live) - {w} - Block(d) - Block(name)
                - (if keepsShell && d == None && !o.dirBlock then {} else Block(s))
    {
      var info := UserInfo(o, w);
      dir, shell := Fallback(o, name, info, d, s, keepsShell);
    }

    /**
     From the HOME block to the end. On success there are a directory and a shell for the record.
     On failure all is freed, except a shell that the file forgets (keepsShell).
     */
    method Complete(o: Outcome, name: Option<nat>, w: nat, keepsShell: bool)
      returns (dir: Option<nat>, shell: Option<nat>, ghost lost: Option<nat>)
      requires Bounded()
      requires Block(name) <= live && w in live && name != Some(w)
      modifies `live, `next
      ensures Bounded()
      ensures dir.Some? == shell.Some? == o.Filled()
      ensures dir.Some? ==> old(next) <= dir.value && old(next) <= shell.value && dir != shell
      ensures dir.Some? ==> live == old(live) - {w} + Block(dir) + Block(shell)
      ensures dir == None ==> live == old(live) - Block(name) - {w} + Block(lost)
      ensures lost.Some? ==> old(next) <= lost.value
      ensures lost.Some? <==> keepsShell && o.ShellGiven() && !o.HomeGiven() && !o.dirBlock
    {
      var d, s := FromEnvironment(o);
      lost := if keepsShell && d == None && !o.dirBlock then s else None;
      if d == None || s == None {
        dir, shell := Search(o, name, w, d, s, keepsShell);
      } else {
        dir, shell := d, s;
        Release(Some(w));
      }
    }

    /** The last lines of the three lookups: the record gets its fields. */
    method Fill(name: Option<nat>, dir: nat, shell: nat)
      requires Valid() && handle && Record() == NOTHING
      requires Block(name) + {dir, shell} <= live && name != Some(dir) && name != Some(shell) && dir != shell
      modifies `records
      ensures Valid() && Record() == Fields(name, Some(dir), Some(shell))
    {
      records := records[current.value := Fields(name, Some(dir), Some(shell))];
    }

    /** From the HOME block to the return of a lookup that has both names. */
    method Finish(o: Outcome, name: Option<nat>, w: nat, keepsShell: bool) returns (r: bool, ghost lost: Option<nat>)
      requires Valid() && handle && Record() == NOTHING
      requires Block(name) <= live && w in live && name != Some(w)
      modifies `live, `next, `records
      ensures Valid()
      ensures r == o.Filled() == (Record() != NOTHING)
      ensures Foreign() == old(live) - Block(name) - {w} + Block(lost)
      ensures lost.Some? ==> old(next) <= lost.value
      ensures lost.Some? <==> keepsShell && o.ShellGiven() && !o.HomeGiven() && !o.dirBlock
    {
      var dir, shell;
      dir, shell, lost := Complete(o, name, w, keepsShell);
      r := dir.Some?;
      if r {
        Fill(name, dir.value, shell.value);
      }
    }

    /** The part of getpwent that reads the user name and fills the record. */
    method CurrentUser(o: Outcome) returns (r: bool)
      requires Valid() && handle && Record() == NOTHING
      modifies `live, `next, `records
      ensures Valid() && Foreign() == old(live)
      ensures r == (o.NameRead() && o.converts && o.nameBlock && o.Filled()) == (Record() != NOTHING)
    {
      var w, name := ReadNames(o);
      if w == None {
        return false;
      }
      ghost var lost;
      r, lost := Finish(o, name, w.value, false);
    }

    /** getpwent. */
    method GetPwEnt(o: Outcome) returns (r: bool)
      requires Valid()
      modifies this
      ensures Valid()
      ensures r == Succeeds(old(Abs()), Op.GetPwEnt(o))
      ensures r ==> Record().dir.Some? && Record().shell.Some?
      ensures Abs() == Next(old(Abs()), Op.GetPwEnt(o))
      ensures Foreign() == old(Foreign())
    {
      FreeFields();
      var ok := EnsureHandle(OfGetpwent, o.dll);
      if !ok || index > 0 {
        return false;
      }
      r := CurrentUser(o);
      if r {
        index := index + 1;
      }
    }

    /** The part of getpwnam after the handle is loaded; it may forget the name. */
    method NamedUser(o: Outcome, name: Option<nat>) returns (r: bool, ghost lost: Option<nat>)
      requires Valid() && handle && Record() == NOTHING && Block(name) <= live
      modifies `live, `next, `records
      ensures Valid()
      ensures r == (o.converts && o.wide && o.Filled()) == (Record() != NOTHING)
      ensures lost == (if o.converts && o.wide then None else name)
      ensures Foreign() == old(live) - Block(name) + Block(lost)
    {
      lost := name;
      if !o.converts {
        return false, lost;
      }
      var w := Malloc(o.wide);
      if w == None {
        return false, lost;
      }
      ghost var shell;
      r, shell := Finish(o, name, w.value, false);
      lost := None;
    }

    /** getpwnam from the copy of the name on; without the library the copy is forgotten. */
    method CopyName(o: Outcome) returns (r: bool, ghost lost: Option<nat>)
      requires Valid() && Record() == NOTHING
      modifies `live, `next, `records, `handle, `current
      ensures Valid() && r == (Record() != NOTHING)
      ensures Abs() == Loaded(old(Abs()), OfGetpwnam, o.dll).(full := r)
      ensures r == (handle && o.converts && o.wide && o.Filled())
      ensures Foreign() == old(live) + Block(lost)
      ensures lost.Some? ==> lost.value !in old(live)
      ensures lost.Some? <==> o.nameBlock && !(handle && o.converts && o.wide)
    {
      var name := Malloc(o.nameBlock);
      var ok := EnsureHandle(OfGetpwnam, o.dll);
      if !ok {
        return false, name;
      }
      r, lost := NamedUser(o, name);
    }

    /** getpwnam; `known` says that LookupAccountNameA knows the name. */
    method GetPwNam(known: bool, o: Outcome) returns (r: bool, ghost lost: Option<nat>)
      requires Valid()
      modifies this
      ensures Valid()
      ensures r == Succeeds(old(Abs()), Op.GetPwNam(known, o))
      ensures r ==> Record().dir.Some? && Record().shell.Some?
      ensures Abs() == Next(old(Abs()), Op.GetPwNam(known, o))
      ensures Foreign() == old(Foreign()) + Block(lost)
      ensures lost.Some? ==> lost.value !in old(Foreign())
      ensures Loses(old(Abs()), Op.GetPwNam(known, o)) == if lost.Some? then 1 else 0
    {
      lost := None;
      if !known {
        return false, lost;
      }
      FreeFields();
      r, lost := CopyName(o);
    }

    /** getpwuid after both names are read; without the library both are forgotten. */
    method LoadAndFill(o: Outcome, w: nat, name: nat)
      returns (r: bool, ghost lost: Option<nat>, ghost more: Option<nat>)
      requires Valid() && Record() == NOTHING
      requires w in live && name in live && w != name
      modifies `live, `next, `records, `handle, `current
      ensures Valid() && r == (Record() != NOTHING)
      ensures Abs() == Loaded(old(Abs()), OfGetpwuid, o.dll).(full := r)
      ensures r == (handle && o.Filled())
      ensures Foreign() == old(live) - {w, name} + Block(lost) + Block(more)
      ensures !handle ==> lost == Some(w) && more == Some(name)
      ensures handle ==> more == None
      ensures handle ==> (lost.Some? <==> o.ShellGiven() && !o.HomeGiven() && !o.dirBlock)
      ensures handle && lost.Some? ==> old(next) <= lost.value
    {
      more := None;
      var ok := EnsureHandle(OfGetpwuid, o.dll);
      if !ok {
        return false, Some(w), Some(name);
      }
      r, lost := Finish(o, Some(name), w, true);
    }

    /** getpwuid for the user's own id, once the old record is freed. */
    method ReadOwn(o: Outcome) returns (r: bool, ghost lost: Option<nat>, ghost more: Option<nat>)
      requires Valid() && Record() == NOTHING && live == Foreign()
      modifies this
      ensures Valid()
      ensures r == Succeeds(old(Abs()), Op.GetPwUid(true, o))
      ensures Abs() == Next(old(Abs()), Op.GetPwUid(true, o))
      ensures Foreign() == old(Foreign()) + Block(lost) + Block(more)
      ensures Block(lost) !! old(Foreign()) && Block(more) !! old(Foreign()) && Block(lost) !! Block(more)
      ensures Loses(old(Abs()), Op.GetPwUid(true, o))
           == (if lost.Some? then 1 else 0) + (if more.Some? then 1 else 0)
    {
      lost, more := None, None;
      var w, name := ReadNames(o);
      if w == None {
        return false, lost, more;
      }
      r, lost, more := LoadAndFill(o, w.value, name.value);
    }

    /** getpwuid; `mine` says that the id is 0 or the user's own. */
    method GetPwUid(mine: bool, o: Outcome)
      returns (r: bool, ghost lost: Option<nat>, ghost more: Option<nat>)
      requires Valid()
      modifies this
      ensures Valid()
      ensures r == Succeeds(old(Abs()), Op.GetPwUid(mine, o))
      ensures r ==> Record().dir.Some? && Record().shell.Some?
      ensures Abs() == Next(old(Abs()), Op.GetPwUid(mine, o))
      ensures Foreign() == old(Foreign()) + Block(lost) + Block(more)
      ensures Block(lost) !! old(Foreign()) && Block(more) !! old(Foreign()) && Block(lost) !! Block(more)
      ensures Loses(old(Abs()), Op.GetPwUid(mine, o))
           == (if lost.Some? then 1 else 0) + (if more.Some? then 1 else 0)
    {
      lost, more := None, None;
      if !mine {
        return false, lost, more;
      }
      FreeFields();
      r, lost, more := ReadOwn(o);
    }

    /** setpwent. */
    method SetPwEnt(dll: bool)
      requires Valid()
      modifies this
      ensures Valid()
      ensures Abs() == Next(old(Abs()), Op.SetPwEnt(dll))
      ensures Foreign() == old(Foreign())
    {
      var ok := EnsureHandle(OfSetpwent, dll);
      if !ok {
        return;
      }
      FreeFields();
      index := 0;
    }

    /** endpwent: the record is detached first, then freed. */
    method EndPwEnt()
      requires Valid()
      modifies this
      ensures Valid()
      ensures Abs() == Next(old(Abs()), Op.EndPwEnt)
      ensures Foreign() == old(Foreign())
    {
      if handle {
        handle := false;
      }
      var pw := current;
      current := None;
      if pw.Some? {
        var f := records[pw.value];
        records := records[pw.value := NOTHING];
        Release(f.name);
        Release(f.dir);
        Release(f.shell);
      }
      index := 0;
    }

    /** The part of getpwnam_r and getpwuid_r that touches the shared state. */
    method StartReentrant(owner: Owner, dll: bool)
      requires Valid()
      modifies this
      ensures Valid()
      ensures Abs() == Next(old(Abs()), Op.StartReentrant(owner, dll))
      ensures Foreign() == old(Foreign())
    {
      var ok := EnsureHandle(owner, dll);
    }

    /** The calls that lose nothing. */
    method CallIteration(op: Op) returns (r: bool)
      requires Valid() && !op.GetPwNam? && !op.GetPwUid?
      modifies this
      ensures Valid() && Abs() == Next(old(Abs()), op)
      ensures r == Succeeds(old(Abs()), op)
      ensures Foreign() == old(Foreign()) && Loses(old(Abs()), op) == 0
    {
      r := false;
      match op {
        case GetPwEnt(o) => r := GetPwEnt(o);
        case SetPwEnt(dll) => SetPwEnt(dll);
        case EndPwEnt => EndPwEnt();
        case StartReentrant(owner, dll) => StartReentrant(owner, dll);
      }
    }

    method CallByName(known: bool, o: Outcome) returns (r: bool)
      requires Valid()
      modifies this
      ensures Valid() && Abs() == Next(old(Abs()), Op.GetPwNam(known, o))
      ensures r == Succeeds(old(Abs()), Op.GetPwNam(known, o))
      ensures old(Foreign()) <= Foreign()
      ensures |Foreign()| == |old(Foreign())| + Loses(old(Abs()), Op.GetPwNam(known, o))
    {
      ghost var lost;
      r, lost := GetPwNam(known, o);
      AddBlock(old(Foreign()), lost);
    }

    method CallByUid(mine: bool, o: Outcome) returns (r: bool)
      requires Valid()
      modifies this
      ensures Valid() && Abs() == Next(old(Abs()), Op.GetPwUid(mine, o))
      ensures r == Succeeds(old(Abs()), Op.GetPwUid(mine, o))
      ensures old(Foreign()) <= Foreign()
      ensures |Foreign()| == |old(Foreign())| + Loses(old(Abs()), Op.GetPwUid(mine, o))
    {
      ghost var lost, more;
      r, lost, more := GetPwUid(mine, o);
      AddBlock(old(Foreign()), lost);
      AddBlock(old(Foreign()) + Block(lost), more);
    }

    method Call(op: Op) returns (r: bool)
      requires Valid()
      modifies this
      ensures Valid() && Abs() == Next(old(Abs()), op)
      ensures r == Succeeds(old(Abs()), op)
      ensures old(Foreign()) <= Foreign()
      ensures |Foreign()| == |old(Foreign())| + Loses(old(Abs()), op)
    {
      match op {
        case GetPwNam(known, o) => r := CallByName(known, o);
        case GetPwUid(mine, o) => r := CallByUid(mine, o);
        case _ => r := CallIteration(op);
      }
    }

    /** Any sequence of calls by one thread: the invariant holds and no block is freed twice. */
    method Calls(ops: seq<Op>) returns (results: seq<bool>)
      requires Valid()
      modifies this
      ensures Valid() && Abs() == Run(old(Abs()), ops)
      ensures old(Foreign()) <= Foreign()
      ensures |Foreign()| == |old(Foreign())| + Losses(old(Abs()), ops)
      ensures results == Results(old(Abs()), ops)
    {
      results := [];
      ghost var start := Abs();
      ghost var foreign := Foreign();
      for i := 0 to |ops|
        invariant Valid() && Abs() == Run(start, ops[..i])
        invariant foreign <= Foreign()
        invariant |Foreign()| == |foreign| + Losses(start, ops[..i])
        invariant results == Results(start, ops[..i])
      {
        var r := Call(ops[i]);
        results := results + [r];
        OneCallMore(start, ops, i);
      }
      assert ops[..|ops|] == ops;
    }
  }
}
