/**
 The blocking branch of waitid (source/waitid.c) and its helper threads.

 Windows can wait for at most 64 objects at once, so the caller collects up to 63 children and
 hands the rest of the process snapshot to a thread that does the same, and so on: a chain of
 waiters that share one snapshot cursor. The chain is modelled as a state machine whose steps
 are the single reads and writes of the waiters, in any interleaving with each other and with
 processes that exit. CreateThread, the waits and GetExitCodeProcess are assumed to succeed.
 */
module ChildWait {
  import opened CStrings

  const MAXIMUM_WAIT_OBJECTS := 64
  const BATCH := MAXIMUM_WAIT_OBJECTS - 1

  /** One process of the snapshot. */
  datatype Entry = Entry(pid: nat, ppid: nat)

  /** What does not change during the call: the snapshot, who may be opened, the exit codes. */
  datatype World = World(entries: seq<Entry>, openable: set<nat>, code: nat -> int, parent: nat) {

    predicate Wanted(e: Entry) {
      e.ppid == parent && e.pid in openable
    }

    /** The openable children among the first k entries, in snapshot order. */
    function Children(k: nat): (r: seq<nat>)
      requires k <= |entries|
    {
      if k == 0 then []
      else Children(k - 1) + (if Wanted(entries[k - 1]) then [entries[k - 1].pid] else [])
    }

    function AllChildren(): seq<nat> {
      Children(|entries|)
    }
  }

  /** The fields of WaitForProcessesStruct that are written. */
  datatype Wfps = Wfps(code: int, pid: nat, done: bool)

  /** What a waiter does next. */
  datatype Pc =
    | Check                  // test done at the head of the loop
    | Next                   // Process32Next, OpenProcess
    | Spawn                  // 63 handles: copy the structure and create the next thread
    | WaitFull               // wait for the 63 processes and the thread
    | StoreCode(h: nat)      // process h ended: store its exit code,
    | StorePid(h: nat)       //   its pid,
    | StoreDone(h: nat)      //   and done;
    | MarkChild              //   tell the thread,
    | Join                   //   and wait for it
    | CopyBack               // the thread ended: take over its structure
    | CloseBatch             // close the 64 handles and go on
    | Leave                  // behind the loop
    | WaitLast               // wait for the handles of the last batch
    | LastCode(h: nat)
    | LastPid(h: nat)
    | LastDone(h: nat)
    | Finish                 // close the handles of the last batch
    | CloseSnap              // the caller only: report and close the snapshot
    | Ended

  /**
   A waiter: its process handles, the structure it writes its result to (its parent's copy, or
   the caller's own), and whether it has been through CloseBatch.
   */
  datatype Waiter = Waiter(pc: Pc, batch: seq<nat>, out: Wfps, reused: bool)

  datatype Report = Report(pid: nat, status: int)

  /**
   The system. ws[0] is the caller of waitid, ws[k + 1] the thread that ws[k] created. `woke`
   records that some wait has returned.
   */
  datatype Sys = Sys(cursor: nat, snapOpen: bool, exited: set<nat>, ws: seq<Waiter>, woke: bool,
                     report: Option<Report>)

  // ---------------------------------------------------------------------------------------
  // Steps
  // ---------------------------------------------------------------------------------------

  /** Process32First has succeeded, and some processes may have ended already. */
  ghost predicate Init(w: World, s: Sys) {
    && w.entries != []
    && s.cursor == 0 && s.snapOpen && !s.woke && s.report == None
    && |s.ws| == 1
    && s.ws[0].pc == Check && s.ws[0].batch == [] && !s.ws[0].out.done && !s.ws[0].reused
  }

  function Put(s: Sys, k: nat, x: Waiter): Sys
    requires k < |s.ws|
  {
    s.(ws := s.ws[k := x])
  }

  function Goto(s: Sys, k: nat, pc: Pc): Sys
    requires k < |s.ws|
  {
    Put(s, k, s.ws[k].(pc := pc))
  }

  /** Process32Next moves the shared cursor; a wanted process is opened and collected. */
  function Advance(w: World, s: Sys, k: nat): Sys
    requires k < |s.ws| && s.cursor < |w.entries|
  {
    var e, me := w.entries[s.cursor], s.ws[k];
    var s' := s.(cursor := s.cursor + 1);
    if !w.Wanted(e) then Goto(s', k, Check)
    else
      var full := |me.batch| + 1 == BATCH;
      Put(s', k, me.(batch := me.batch + [e.pid], pc := if full then Spawn else Check))
  }

  /** A process handle of the batch is signalled. */
  ghost predicate Signalled(s: Sys, k: nat, h: nat)
    requires k < |s.ws|
  {
    h in s.ws[k].batch && h in s.exited
  }

  ghost predicate ChildEnded(s: Sys, k: nat) {
    k + 1 < |s.ws| && s.ws[k + 1].pc == Ended
  }

  ghost predicate WaiterStep(w: World, s: Sys, t: Sys, k: nat)
    requires k < |s.ws|
  {
    var me := s.ws[k];
    match me.pc
    case Check => t == Goto(s, k, if me.out.done then Leave else Next)
    case Next =>
      if s.cursor >= |w.entries| then t == Goto(s, k, Leave) else t == Advance(w, s, k)
    case Spawn =>
      && k == |s.ws| - 1
      && t == Goto(s, k, WaitFull).(ws := Goto(s, k, WaitFull).ws + [Waiter(Check, [], me.out, false)])
    case WaitFull =>
      || (exists h :: Signalled(s, k, h) && t == Goto(s, k, StoreCode(h)).(woke := true))
      || (ChildEnded(s, k) && t == Goto(s, k, CopyBack).(woke := true))
    case StoreCode(h) => t == Put(s, k, me.(pc := StorePid(h), out := me.out.(code := w.code(h))))
    case StorePid(h) => t == Put(s, k, me.(pc := StoreDone(h), out := me.out.(pid := h)))
    case StoreDone(h) => t == Put(s, k, me.(pc := MarkChild, out := me.out.(done := true)))
    case MarkChild =>
      && k + 1 < |s.ws|
      && var child := s.ws[k + 1];
      t == Put(Goto(s, k, Join), k + 1, child.(out := child.out.(done := true)))
    case Join => ChildEnded(s, k) && t == Goto(s, k, CloseBatch)
    case CopyBack =>
      k + 1 < |s.ws| && t == Put(s, k, me.(pc := CloseBatch, out := s.ws[k + 1].out))
    case CloseBatch =>
      && k + 2 == |s.ws|
      && t == s.(ws := s.ws[..k] + [me.(pc := Check, batch := [], reused := true)])
    case Leave => t == Goto(s, k, if !me.out.done && me.batch != [] then WaitLast else Finish)
    case WaitLast => exists h :: Signalled(s, k, h) && t == Goto(s, k, LastCode(h)).(woke := true)
    case LastCode(h) => t == Put(s, k, me.(pc := LastPid(h), out := me.out.(code := w.code(h))))
    case LastPid(h) => t == Put(s, k, me.(pc := LastDone(h), out := me.out.(pid := h)))
    case LastDone(h) => t == Put(s, k, me.(pc := Finish, out := me.out.(done := true)))
    case Finish => t == Put(s, k, me.(pc := if k == 0 then CloseSnap else Ended, batch := []))
    case CloseSnap =>
      t == Goto(s, k, Ended).(snapOpen := false,
                              report := if me.out.done then Some(Report(me.out.pid, me.out.code)) else None)
    case Ended => false
  }

  ghost predicate Step(w: World, s: Sys, t: Sys) {
    || (exists p :: t == s.(exited := s.exited + {p}))
    || (exists k :: 0 <= k < |s.ws| && WaiterStep(w, s, t, k))
  }

  /** A run from the start of the blocking branch. */
  ghost predicate Run(w: World, run: seq<Sys>) {
    && run != [] && Init(w, run[0])
    && forall i :: 0 <= i < |run| - 1 ==> StepAt(w, run, i)
  }

  ghost predicate StepAt(w: World, run: seq<Sys>, i: int)
    requires 0 <= i < |run| - 1
  {
    Step(w, run[i], run[i + 1])
  }

  ghost predicate Reachable(w: World, s: Sys) {
    exists run :: Run(w, run) && run[|run| - 1] == s
  }

  // ---------------------------------------------------------------------------------------
  // The invariant
  // ---------------------------------------------------------------------------------------

  predicate HasChild(pc: Pc) {
    || pc.WaitFull? || pc.StoreCode? || pc.StorePid? || pc.StoreDone? || pc.MarkChild? || pc.Join?
    || pc.CopyBack? || pc.CloseBatch?
  }

  /** Only these may move the shared cursor. */
  predicate MayAdvance(pc: Pc) {
    pc.Check? || pc.Next?
  }

  predicate Holding(pc: Pc) {
    pc.StoreCode? || pc.StorePid? || pc.StoreDone? || pc.LastCode? || pc.LastPid? || pc.LastDone?
  }

  /** States a waiter only enters, or stays in, while its own done flag is unset. */
  predicate Seeking(pc: Pc) {
    pc.Next? || pc.Spawn? || pc.WaitFull? || pc.WaitLast? || Holding(pc)
  }

  predicate Closing(pc: Pc) {
    pc.Finish? || pc.CloseSnap? || pc.Ended?
  }

  /** The chain: only its last waiter runs, all others stand at a full batch. */
  ghost predicate Chain(s: Sys) {
    && s.ws != []
    && (forall k :: 0 <= k < |s.ws| - 1 ==> HasChild(s.ws[k].pc) && |s.ws[k].batch| == BATCH)
    && var last := s.ws[|s.ws| - 1];
    && !HasChild(last.pc)
    && (if last.pc.Spawn? then |last.batch| == BATCH else |last.batch| < BATCH)
    && (last.pc.WaitLast? ==> last.batch != [])
    && (forall k :: 0 <= k < |s.ws| - 1 && (s.ws[k].pc.CopyBack? || s.ws[k].pc.CloseBatch?) ==>
          k == |s.ws| - 2 && last.pc.Ended?)
    && (forall k :: 0 <= k < |s.ws| && s.ws[k].pc.CloseSnap? ==> k == 0)
  }

  /** h is a child of the requested process, and it has ended. */
  ghost predicate Dead(w: World, s: Sys, h: nat) {
    h in w.AllChildren() && h in s.exited
  }

  ghost predicate ValidResult(w: World, s: Sys, o: Wfps) {
    Dead(w, s, o.pid) && o.code == w.code(o.pid)
  }

  /** No waiter before k has touched, or is going to touch, what k reports. */
  ghost predicate Trusted(ws: seq<Waiter>, k: nat)
    requires k <= |ws|
  {
    forall j :: 0 <= j < k ==> ws[j].pc.WaitFull? || ws[j].pc.CopyBack?
  }

  /** The snapshot is used up and the number of openable children is a multiple of 63. */
  ghost predicate Drained(w: World, s: Sys) {
    s.cursor == |w.entries| && |w.AllChildren()| % BATCH == 0
  }

  ghost predicate WaiterOk(w: World, s: Sys, k: nat)
    requires k < |s.ws|
  {
    var me := s.ws[k];
    && (forall h :: h in me.batch ==> h in w.AllChildren())
    && (Holding(me.pc) ==> Dead(w, s, me.pc.h))
    && (me.pc.StorePid? || me.pc.StoreDone? || me.pc.LastPid? || me.pc.LastDone? ==>
          me.out.code == w.code(me.pc.h))
    && (me.pc.StoreDone? || me.pc.LastDone? ==> me.out.pid == me.pc.h)
    && (Trusted(s.ws, k) ==> TrustedOk(w, s, k))
  }

  ghost predicate TrustedOk(w: World, s: Sys, k: nat)
    requires k < |s.ws|
  {
    var me := s.ws[k];
    && (me.out.done ==> ValidResult(w, s, me.out))
    && (Seeking(me.pc) ==> !me.out.done)
    && (me.pc.MarkChild? || me.pc.Join? ==> me.out.done)
    && (me.pc.CloseBatch? || Closing(me.pc) || me.reused ==> me.out.done || Drained(w, s))
    && (me.pc.Leave? && !me.out.done ==> s.cursor == |w.entries|)
    && (me.reused ==>
          me.batch == [] && (MayAdvance(me.pc) || me.pc.Leave? || Closing(me.pc)))
  }

  function Batches(ws: seq<Waiter>): (r: seq<seq<nat>>)
    ensures |r| == |ws| && forall k :: 0 <= k < |ws| ==> r[k] == ws[k].batch
  {
    seq(|ws|, k requires 0 <= k < |ws| => ws[k].batch)
  }

  /** The handles held along the chain are the openable children seen so far, in order. */
  ghost predicate Accounted(w: World, s: Sys) {
    s.cursor <= |w.entries| && Flatten(Batches(s.ws)) == w.Children(s.cursor)
  }

  /** While the last waiter is trusted and has closed nothing, nothing is lost. */
  ghost predicate Counting(w: World, s: Sys)
    requires s.ws != []
  {
    var last := s.ws[|s.ws| - 1];
    Trusted(s.ws, |s.ws| - 1) && !last.reused && !Closing(last.pc) ==> Accounted(w, s)
  }

  /** Before the first wait returns. */
  ghost predicate Quiet(w: World, s: Sys)
    requires s.ws != []
  {
    var last := s.ws[|s.ws| - 1];
    && (forall k :: 0 <= k < |s.ws| - 1 ==> s.ws[k].pc.WaitFull?)
    && (forall k :: 0 <= k < |s.ws| ==> !s.ws[k].out.done)
    && !last.reused && !Holding(last.pc)
    && (Closing(last.pc) ==> last.batch == [])
    && Accounted(w, s)
  }

  ghost predicate Inv(w: World, s: Sys) {
    && Chain(s)
    && s.cursor <= |w.entries|
    && (forall k :: 0 <= k < |s.ws| ==> WaiterOk(w, s, k))
    && Counting(w, s)
    && (!s.woke ==> Quiet(w, s))
    && (s.snapOpen <==> !s.ws[0].pc.Ended?)
    && (s.ws[0].pc.Ended? ==>
          s.report == if s.ws[0].out.done then Some(Report(s.ws[0].out.pid, s.ws[0].out.code)) else None)
    && (Closing(s.ws[0].pc) && !s.ws[0].pc.Finish? ==> s.ws[0].batch == [])
  }

  // ---------------------------------------------------------------------------------------
  // Every step keeps the invariant
  // ---------------------------------------------------------------------------------------

  predicate TrustKind(pc: Pc) {
    pc.WaitFull? || pc.CopyBack?
  }

  lemma {:induction false} ChildrenGrow(w: World, a: nat, b: nat)
    requires a <= b <= |w.entries|
    ensures w.Children(a) <= w.Children(b)
    decreases b
  {
    if a < b {
      ChildrenGrow(w, a, b - 1);
    }
  }

  lemma TrustPrefix(a: seq<Waiter>, b: seq<Waiter>, k: nat)
    requires k <= |a| && k <= |b| && a[..k] == b[..k]
    ensures Trusted(a, k) == Trusted(b, k)
  {
    assert forall j :: 0 <= j < k ==> a[j] == a[..k][j];
    assert forall j :: 0 <= j < k ==> b[j] == b[..k][j];
  }

  /** The waiters that a step does not touch stay in order. */
  lemma Untouched(w: World, s: Sys, t: Sys, k: nat, j: nat)
    requires Inv(w, s) && k < |s.ws| && j < |s.ws| && j < |t.ws| && k < |t.ws|
    requires forall i :: 0 <= i < |s.ws| && i < |t.ws| && i != k ==> t.ws[i] == s.ws[i]
    requires j != k
    requires s.exited <= t.exited && s.cursor <= t.cursor <= |w.entries|
    requires TrustKind(t.ws[k].pc) ==> TrustKind(s.ws[k].pc)
    ensures WaiterOk(w, t, j)
  {
    assert WaiterOk(w, s, j);
    assert Trusted(t.ws, j) ==> Trusted(s.ws, j);
  }

  /** A step that only replaces waiter k, and may let time pass. */
  ghost predicate Local(s: Sys, t: Sys, k: nat)
    requires k < |s.ws|
  {
    && |t.ws| == |s.ws|
    && (forall i :: 0 <= i < |s.ws| && i != k ==> t.ws[i] == s.ws[i])
    && t.exited == s.exited && t.cursor == s.cursor
  }

  lemma SameBatches(s: Sys, t: Sys, k: nat)
    requires k < |s.ws| && Local(s, t, k) && t.ws[k].batch == s.ws[k].batch
    ensures Batches(t.ws) == Batches(s.ws)
  {
  }

  lemma MiddleChain(w: World, s: Sys, t: Sys, k: nat)
    requires Inv(w, s) && k < |s.ws| - 1 && Local(s, t, k)
    requires HasChild(t.ws[k].pc) && t.ws[k].batch == s.ws[k].batch && t.snapOpen == s.snapOpen
    requires t.ws[k].pc.CopyBack? || t.ws[k].pc.CloseBatch? ==> ChildEnded(s, k)
    ensures Chain(t)
  {
  }

  /** A local step of a waiter in the middle of the chain. */
  lemma MiddleStep(w: World, s: Sys, t: Sys, k: nat)
    requires Inv(w, s) && k < |s.ws| - 1 && Local(s, t, k)
    requires t.ws[k].batch == s.ws[k].batch && HasChild(t.ws[k].pc)
    requires TrustKind(t.ws[k].pc) ==> TrustKind(s.ws[k].pc)
    requires t.ws[k].pc.CopyBack? || t.ws[k].pc.CloseBatch? ==> ChildEnded(s, k)
    requires t.snapOpen == s.snapOpen && t.report == s.report && t.woke
    requires WaiterOk(w, t, k)
    ensures Inv(w, t)
  {
    forall j | 0 <= j < |t.ws| ensures WaiterOk(w, t, j) {
      if j != k {
        Untouched(w, s, t, k, j);
      }
    }
    MiddleChain(w, s, t, k);
    SameBatches(s, t, k);
    var n := |s.ws| - 1;
    assert Trusted(t.ws, n) ==> Trusted(s.ws, n);
  }

  /** A local step of the last waiter that leaves its batch alone. */
  lemma LastStep(w: World, s: Sys, t: Sys, k: nat)
    requires Inv(w, s) && k == |s.ws| - 1 && Local(s, t, k)
    requires t.ws[k].batch == s.ws[k].batch && !HasChild(t.ws[k].pc)
    requires t.ws[k].reused == s.ws[k].reused
    requires !s.ws[k].pc.Ended? && !t.ws[k].pc.Ended? && !t.ws[k].pc.CloseSnap? && !s.ws[k].pc.CloseSnap?
    requires !s.ws[k].pc.Spawn? && !t.ws[k].pc.Spawn? && !Closing(s.ws[k].pc)
    requires t.ws[k].pc.WaitLast? ==> t.ws[k].batch != []
    requires t.snapOpen == s.snapOpen && t.report == s.report && (s.woke ==> t.woke)
    requires !t.woke ==> !Holding(t.ws[k].pc) && !t.ws[k].out.done
    requires !t.woke && Closing(t.ws[k].pc) ==> t.ws[k].batch == []
    requires WaiterOk(w, t, k)
    ensures Inv(w, t)
  {
    forall j | 0 <= j < |t.ws| ensures WaiterOk(w, t, j) {
      if j != k {
        Untouched(w, s, t, k, j);
      }
    }
    SameBatches(s, t, k);
    TrustPrefix(s.ws, t.ws, k);
  }

  lemma CheckStep(w: World, s: Sys, t: Sys, k: nat)
    requires Inv(w, s) && k < |s.ws| && s.ws[k].pc.Check? && WaiterStep(w, s, t, k)
    ensures Inv(w, t)
  {
    assert WaiterOk(w, s, k);
    TrustPrefix(s.ws, t.ws, k);
    LastStep(w, s, t, k);
  }

  lemma {:induction false} FlattenLast(parts: seq<seq<nat>>, x: nat)
    requires parts != []
    ensures var n := |parts| - 1;
            Flatten(parts[n := parts[n] + [x]]) == Flatten(parts) + [x]
  {
    var n := |parts| - 1;
    FlattenAppend(parts[..n], [parts[n]]);
    FlattenAppend(parts[..n], [parts[n] + [x]]);
    assert parts == parts[..n] + [parts[n]];
    assert parts[n := parts[n] + [x]] == parts[..n] + [parts[n] + [x]];
    FlattenSingle(parts[n]);
    FlattenSingle(parts[n] + [x]);
  }

  lemma FlattenSingle<T>(a: seq<T>)
    ensures Flatten([a]) == a
  {
    assert [a][1..] == [];
  }

  /** The waiter that moves the cursor past one entry. */
  lemma AdvanceLast(w: World, s: Sys, t: Sys, k: nat)
    requires Inv(w, s) && k == |s.ws| - 1 && s.ws[k].pc.Next? && s.cursor < |w.entries|
    requires t == Advance(w, s, k)
    ensures WaiterOk(w, t, k)
  {
    assert WaiterOk(w, s, k);
    TrustPrefix(s.ws, t.ws, k);
    ChildrenGrow(w, s.cursor + 1, |w.entries|);
    var e := w.entries[s.cursor];
    if w.Wanted(e) {
      assert e.pid in w.Children(s.cursor + 1);
    }
  }

  /** All waiters stay in order when the cursor moves past one entry. */
  lemma AdvanceWaiters(w: World, s: Sys, t: Sys, k: nat, j: nat)
    requires Inv(w, s) && k == |s.ws| - 1 && s.ws[k].pc.Next? && s.cursor < |w.entries|
    requires t == Advance(w, s, k) && j < |t.ws|
    ensures WaiterOk(w, t, j)
  {
    if j == k {
      AdvanceLast(w, s, t, k);
    } else {
      Untouched(w, s, t, k, j);
    }
  }

  lemma AdvanceAccounts(w: World, s: Sys, t: Sys, k: nat)
    requires s.ws != [] && k == |s.ws| - 1 && s.cursor < |w.entries| && Accounted(w, s)
    requires t == Advance(w, s, k)
    ensures Accounted(w, t)
  {
    var e := w.entries[s.cursor];
    if w.Wanted(e) {
      FlattenLast(Batches(s.ws), e.pid);
      assert Batches(t.ws) == Batches(s.ws)[k := s.ws[k].batch + [e.pid]];
    } else {
      assert Batches(t.ws) == Batches(s.ws);
    }
  }

  lemma AdvanceChain(w: World, s: Sys, t: Sys, k: nat)
    requires Chain(s) && k == |s.ws| - 1 && s.ws[k].pc.Next? && s.cursor < |w.entries|
    requires t == Advance(w, s, k)
    ensures Chain(t)
  {
  }

  /** The snapshot has an entry left: the cursor moves past it. */
  lemma AdvanceStep(w: World, s: Sys, t: Sys, k: nat)
    requires Inv(w, s) && k == |s.ws| - 1 && s.ws[k].pc.Next? && s.cursor < |w.entries|
    requires t == Advance(w, s, k)
    ensures Inv(w, t)
  {
    forall j | 0 <= j < |t.ws| ensures WaiterOk(w, t, j) {
      AdvanceWaiters(w, s, t, k, j);
    }
    assert WaiterOk(w, s, k);
    AdvanceChain(w, s, t, k);
    TrustPrefix(s.ws, t.ws, k);
    if Accounted(w, s) {
      AdvanceAccounts(w, s, t, k);
    }
  }

  lemma NextStep(w: World, s: Sys, t: Sys, k: nat)
    requires Inv(w, s) && k < |s.ws| && s.ws[k].pc.Next? && WaiterStep(w, s, t, k)
    ensures Inv(w, t)
  {
    assert k == |s.ws| - 1;
    if s.cursor < |w.entries| {
      AdvanceStep(w, s, t, k);
    } else {
      assert WaiterOk(w, s, k);
      TrustPrefix(s.ws, t.ws, k);
      LastStep(w, s, t, k);
    }
  }

  lemma SpawnWaiters(w: World, s: Sys, t: Sys, k: nat, j: nat)
    requires Inv(w, s) && k < |s.ws| && s.ws[k].pc.Spawn? && WaiterStep(w, s, t, k) && j < |t.ws|
    ensures WaiterOk(w, t, j)
  {
    assert WaiterOk(w, s, k);
    assert t.ws[..k] == s.ws[..k];
    TrustPrefix(s.ws, t.ws, k);
    if j < k {
      assert WaiterOk(w, s, j);
      assert t.ws[..j] == s.ws[..j];
      TrustPrefix(s.ws, t.ws, j);
    } else if j > k {
      assert Trusted(t.ws, j) ==> Trusted(t.ws, k);
    }
  }

  lemma SpawnBatches(s: Sys, t: Sys, k: nat)
    requires k == |s.ws| - 1
    requires t.ws == Goto(s, k, WaitFull).ws + [Waiter(Check, [], s.ws[k].out, false)]
    ensures Flatten(Batches(t.ws)) == Flatten(Batches(s.ws))
  {
    assert Batches(t.ws) == Batches(s.ws) + [[]];
    FlattenAppend(Batches(s.ws), [[]]);
    FlattenSingle<nat>([]);
  }

  lemma SpawnChain(w: World, s: Sys, t: Sys, k: nat)
    requires Chain(s) && k < |s.ws| && s.ws[k].pc.Spawn? && WaiterStep(w, s, t, k)
    ensures Chain(t)
  {
  }

  lemma SpawnStep(w: World, s: Sys, t: Sys, k: nat)
    requires Inv(w, s) && k < |s.ws| && s.ws[k].pc.Spawn? && WaiterStep(w, s, t, k)
    ensures Inv(w, t)
  {
    forall j | 0 <= j < |t.ws| ensures WaiterOk(w, t, j) {
      SpawnWaiters(w, s, t, k, j);
    }
    SpawnBatches(s, t, k);
    SpawnChain(w, s, t, k);
    assert WaiterOk(w, s, k);
    assert t.ws[..k] == s.ws[..k];
    TrustPrefix(s.ws, t.ws, k);
    assert Trusted(t.ws, k + 1) ==> Trusted(t.ws, k);
  }

  lemma WaitFullOk(w: World, s: Sys, t: Sys, k: nat)
    requires Inv(w, s) && k < |s.ws| && s.ws[k].pc.WaitFull? && WaiterStep(w, s, t, k)
    ensures Local(s, t, k) && t.ws[k].batch == s.ws[k].batch && WaiterOk(w, t, k)
  {
    assert WaiterOk(w, s, k);
    TrustPrefix(s.ws, t.ws, k);
  }

  lemma WaitFullStep(w: World, s: Sys, t: Sys, k: nat)
    requires Inv(w, s) && k < |s.ws| && s.ws[k].pc.WaitFull? && WaiterStep(w, s, t, k)
    ensures Inv(w, t)
  {
    WaitFullOk(w, s, t, k);
    MiddleStep(w, s, t, k);
  }

  lemma StoreStep(w: World, s: Sys, t: Sys, k: nat)
    requires Inv(w, s) && k < |s.ws| && WaiterStep(w, s, t, k)
    requires s.ws[k].pc.StoreCode? || s.ws[k].pc.StorePid? || s.ws[k].pc.StoreDone?
    ensures Inv(w, t)
  {
    assert WaiterOk(w, s, k);
    TrustPrefix(s.ws, t.ws, k);
    assert s.woke;
    MiddleStep(w, s, t, k);
  }

  lemma MarkWaiters(w: World, s: Sys, t: Sys, k: nat, j: nat)
    requires Inv(w, s) && k < |s.ws| && s.ws[k].pc.MarkChild? && WaiterStep(w, s, t, k) && j < |t.ws|
    ensures WaiterOk(w, t, j)
  {
    assert WaiterOk(w, s, j);
    if j > k {
      assert !Trusted(t.ws, j) by {
        assert t.ws[k].pc.Join?;
      }
    } else {
      TrustPrefix(s.ws, t.ws, j);
    }
  }

  lemma MarkStep(w: World, s: Sys, t: Sys, k: nat)
    requires Inv(w, s) && k < |s.ws| && s.ws[k].pc.MarkChild? && WaiterStep(w, s, t, k)
    ensures Inv(w, t)
  {
    assert s.woke;
    forall j | 0 <= j < |t.ws|
      ensures WaiterOk(w, t, j)
    {
      MarkWaiters(w, s, t, k, j);
    }
    assert !Trusted(t.ws, |t.ws| - 1) by {
      assert t.ws[k].pc.Join?;
    }
  }

  lemma JoinStep(w: World, s: Sys, t: Sys, k: nat)
    requires Inv(w, s) && k < |s.ws| && s.ws[k].pc.Join? && WaiterStep(w, s, t, k)
    ensures Inv(w, t)
  {
    assert s.woke;
    assert WaiterOk(w, s, k);
    TrustPrefix(s.ws, t.ws, k);
    MiddleStep(w, s, t, k);
  }

  lemma CopyStep(w: World, s: Sys, t: Sys, k: nat)
    requires Inv(w, s) && k < |s.ws| && s.ws[k].pc.CopyBack? && WaiterStep(w, s, t, k)
    ensures Inv(w, t)
  {
    assert s.woke;
    assert WaiterOk(w, s, k);
    assert WaiterOk(w, s, k + 1);
    TrustPrefix(s.ws, t.ws, k);
    assert Trusted(s.ws, k) ==> Trusted(s.ws, k + 1);
    MiddleStep(w, s, t, k);
  }

  lemma CloseStep(w: World, s: Sys, t: Sys, k: nat)
    requires Inv(w, s) && k < |s.ws| && s.ws[k].pc.CloseBatch? && WaiterStep(w, s, t, k)
    ensures Inv(w, t)
  {
    assert s.woke;
    assert WaiterOk(w, s, k);
    TrustPrefix(s.ws, t.ws, k);
    forall j | 0 <= j < |t.ws| ensures WaiterOk(w, t, j) {
      if j != k {
        Untouched(w, s, t, k, j);
      }
    }
  }

  lemma {:induction false} FullBatches(parts: seq<seq<nat>>)
    requires parts != [] && forall k :: 0 <= k < |parts| - 1 ==> |parts[k]| == BATCH
    ensures |Flatten(parts)| == BATCH * (|parts| - 1) + |parts[|parts| - 1]|
  {
    if |parts| == 1 {
      FlattenSingle(parts[0]);
      assert parts == [parts[0]];
    } else {
      FullBatches(parts[1..]);
    }
  }

  /** Leaving the loop with nothing collected and the snapshot used up. */
  lemma EmptyLastBatch(w: World, s: Sys)
    requires Chain(s) && Accounted(w, s) && s.cursor == |w.entries|
    requires s.ws[|s.ws| - 1].batch == []
    ensures Drained(w, s)
  {
    FullBatches(Batches(s.ws));
  }

  lemma LeaveStep(w: World, s: Sys, t: Sys, k: nat)
    requires Inv(w, s) && k < |s.ws| && s.ws[k].pc.Leave? && WaiterStep(w, s, t, k)
    ensures Inv(w, t)
  {
    var me := s.ws[k];
    assert WaiterOk(w, s, k);
    assert k == |s.ws| - 1;
    TrustPrefix(s.ws, t.ws, k);
    if Trusted(s.ws, k) && !me.out.done && me.batch == [] && !me.reused {
      EmptyLastBatch(w, s);
    }
    assert WaiterOk(w, t, k);
    LastStep(w, s, t, k);
  }

  /** The last waiter after its step, on the way from its wait to its result. */
  lemma LastWaitOk(w: World, s: Sys, t: Sys, k: nat)
    requires Inv(w, s) && k == |s.ws| - 1 && WaiterStep(w, s, t, k)
    requires s.ws[k].pc.WaitLast? || s.ws[k].pc.LastCode? || s.ws[k].pc.LastPid? || s.ws[k].pc.LastDone?
    ensures Local(s, t, k) && t.ws[k].batch == s.ws[k].batch && WaiterOk(w, t, k)
  {
    assert WaiterOk(w, s, k);
    TrustPrefix(s.ws, t.ws, k);
  }

  lemma LastWaitStep(w: World, s: Sys, t: Sys, k: nat)
    requires Inv(w, s) && k < |s.ws| && WaiterStep(w, s, t, k)
    requires s.ws[k].pc.WaitLast? || s.ws[k].pc.LastCode? || s.ws[k].pc.LastPid? || s.ws[k].pc.LastDone?
    ensures Inv(w, t)
  {
    assert k == |s.ws| - 1;
    LastWaitOk(w, s, t, k);
    LastStep(w, s, t, k);
  }

  lemma FinishStep(w: World, s: Sys, t: Sys, k: nat)
    requires Inv(w, s) && k < |s.ws| && WaiterStep(w, s, t, k) && s.ws[k].pc.Finish?
    ensures Inv(w, t)
  {
    assert k == |s.ws| - 1;
    FinishWaiters(w, s, t, k);
    if !s.woke {
      assert Batches(t.ws) == Batches(s.ws);
    }
  }

  lemma FinishWaiters(w: World, s: Sys, t: Sys, k: nat)
    requires Inv(w, s) && k == |s.ws| - 1 && WaiterStep(w, s, t, k)
    requires s.ws[k].pc.Finish? || s.ws[k].pc.CloseSnap?
    ensures forall j :: 0 <= j < |t.ws| ==> WaiterOk(w, t, j)
  {
    assert WaiterOk(w, s, k);
    TrustPrefix(s.ws, t.ws, k);
    forall j | 0 <= j < |t.ws| ensures WaiterOk(w, t, j) {
      if j != k {
        Untouched(w, s, t, k, j);
      }
    }
  }

  lemma CloseSnapStep(w: World, s: Sys, t: Sys, k: nat)
    requires Inv(w, s) && k < |s.ws| && WaiterStep(w, s, t, k) && s.ws[k].pc.CloseSnap?
    ensures Inv(w, t)
  {
    assert k == |s.ws| - 1 == 0;
    FinishWaiters(w, s, t, k);
    assert Batches(t.ws) == Batches(s.ws);
  }

  lemma ExitStep(w: World, s: Sys, t: Sys, p: nat)
    requires Inv(w, s) && t == s.(exited := s.exited + {p})
    ensures Inv(w, t)
  {
    forall j | 0 <= j < |t.ws| ensures WaiterOk(w, t, j) {
      assert WaiterOk(w, s, j);
    }
  }

  lemma StepKeepsInv(w: World, s: Sys, t: Sys)
    requires Inv(w, s) && Step(w, s, t)
    ensures Inv(w, t)
  {
    if p :| t == s.(exited := s.exited + {p}) {
      ExitStep(w, s, t, p);
    } else {
      var k :| 0 <= k < |s.ws| && WaiterStep(w, s, t, k);
      match s.ws[k].pc
      case Check => CheckStep(w, s, t, k);
      case Next => NextStep(w, s, t, k);
      case Spawn => SpawnStep(w, s, t, k);
      case WaitFull => WaitFullStep(w, s, t, k);
      case StoreCode(_) => StoreStep(w, s, t, k);
      case StorePid(_) => StoreStep(w, s, t, k);
      case StoreDone(_) => StoreStep(w, s, t, k);
      case MarkChild => MarkStep(w, s, t, k);
      case Join => JoinStep(w, s, t, k);
      case CopyBack => CopyStep(w, s, t, k);
      case CloseBatch => CloseStep(w, s, t, k);
      case Leave => LeaveStep(w, s, t, k);
      case WaitLast => LastWaitStep(w, s, t, k);
      case LastCode(_) => LastWaitStep(w, s, t, k);
      case LastPid(_) => LastWaitStep(w, s, t, k);
      case LastDone(_) => LastWaitStep(w, s, t, k);
      case Finish => FinishStep(w, s, t, k);
      case CloseSnap => CloseSnapStep(w, s, t, k);
      case Ended =>
    }
  }
}
