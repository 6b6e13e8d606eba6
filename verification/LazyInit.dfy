/**
 The double-checked start of the socket library that every socket wrapper begins with
 (source/socket.c and the same block in accept, bind, connect and the others), under the global
 lock of source/__436F64657252436C69626D696E677733325F657874656E646564.c.

 Any number of threads run the block in any interleaving; a step is one read or write of shared
 state. Loading the library and starting it may fail.
 */
module LazyInit {
  import opened CStrings

  /** What a thread does next. */
  datatype Pc =
    | Fast          // read the handle without the lock
    | LockTest      // lock: test the initialised flag
    | InitTest      //   init_lock: test it again,
    | InitSection   //   InitializeCriticalSection,
    | InitFlag      //   set the flag
    | Enter         //   EnterCriticalSection
    | Recheck       // read the handle again, holding the lock
    | Load          // dlopen, and store the handle
    | Startup       // WSAStartup
    | Unload        // dlclose after a failed start,
    | Clear         //   and reset the handle
    | LeaveFailed   // unlock and return -1
    | LeaveReady    // unlock and go on
    | Use           // behind the block: the library is used
    | Failed        // -1 has been returned

  /** A thread inside one call; `locked` records that it took the locked path. */
  datatype Thread = Thread(pc: Pc, locked: bool)

  /**
   The shared state: the handle (set or NULL), the critical section and its flag, and how often
   the library has been loaded, unloaded and successfully started.
   */
  datatype Sys = Sys(handle: bool, owner: Option<nat>, flag: bool, loads: nat, unloads: nat,
                     starts: nat, threads: map<nat, Thread>)

  ghost predicate Init(s: Sys) {
    && !s.handle && s.owner == None && s.loads == 0 && s.unloads == 0 && s.starts == 0
    && s.threads == map[]
  }

  function Goto(s: Sys, i: nat, pc: Pc): Sys
    requires i in s.threads
  {
    s.(threads := s.threads[i := s.threads[i].(pc := pc)])
  }

  ghost predicate ThreadStep(s: Sys, t: Sys, i: nat)
    requires i in s.threads
  {
    match s.threads[i].pc
    case Fast => t == Goto(s, i, if s.handle then Use else LockTest)
    case LockTest => t == Goto(s, i, if s.flag then Enter else InitTest)
    case InitTest => t == Goto(s, i, if s.flag then Enter else InitSection)
    case InitSection => t == Goto(s, i, InitFlag).(owner := None)
    case InitFlag => t == Goto(s, i, Enter).(flag := true)
    case Enter =>
      && s.owner == None
      && t == s.(owner := Some(i), threads := s.threads[i := Thread(Recheck, true)])
    case Recheck => t == Goto(s, i, if s.handle then LeaveReady else Load)
    case Load =>
      || t == Goto(s, i, Startup).(handle := true, loads := s.loads + 1)
      || t == Goto(s, i, LeaveFailed).(handle := false)
    case Startup =>
      || t == Goto(s, i, LeaveReady).(starts := s.starts + 1)
      || t == Goto(s, i, Unload)
    case Unload => t == Goto(s, i, Clear).(unloads := s.unloads + 1)
    case Clear => t == Goto(s, i, LeaveFailed).(handle := false)
    case LeaveFailed => t == Goto(s, i, Failed).(owner := if s.flag then None else s.owner)
    case LeaveReady => t == Goto(s, i, Use).(owner := if s.flag then None else s.owner)
    case Use => false
    case Failed => false
  }

  /** A new thread calls a wrapper, or one that has returned calls the next. */
  ghost predicate CallStep(s: Sys, t: Sys, i: nat) {
    && (i in s.threads ==> s.threads[i].pc.Use? || s.threads[i].pc.Failed?)
    && t == s.(threads := s.threads[i := Thread(Fast, false)])
  }

  ghost predicate Step(s: Sys, t: Sys) {
    || (exists i :: i in s.threads && ThreadStep(s, t, i))
    || (exists i :: CallStep(s, t, i))
  }

  /** A run of any number of threads; `ready` says whether init_lock ran before it. */
  ghost predicate Run(run: seq<Sys>, ready: bool) {
    && run != [] && Init(run[0]) && run[0].flag == ready
    && forall k :: 0 <= k < |run| - 1 ==> StepAt(run, k)
  }

  ghost predicate StepAt(run: seq<Sys>, k: int)
    requires 0 <= k < |run| - 1
  {
    Step(run[k], run[k + 1])
  }

  // ---------------------------------------------------------------------------------------
  // The invariant
  // ---------------------------------------------------------------------------------------

  /** Between EnterCriticalSection and LeaveCriticalSection. */
  predicate Inside(pc: Pc) {
    || pc.Recheck? || pc.Load? || pc.Startup? || pc.Unload? || pc.Clear?
    || pc.LeaveFailed? || pc.LeaveReady?
  }

  /** The handle is set exactly when the library is loaded once and started once. */
  predicate Settled(s: Sys) {
    if s.handle then s.loads == s.unloads + 1 && s.starts == 1
    else s.loads == s.unloads && s.starts == 0
  }

  /** What the thread that holds the lock has made of the shared state so far. */
  predicate OwnerOk(s: Sys, pc: Pc) {
    match pc
    case Recheck => Settled(s)
    case Load => Settled(s) && !s.handle
    case Startup => s.handle && s.loads == s.unloads + 1 && s.starts == 0
    case Unload => s.handle && s.loads == s.unloads + 1 && s.starts == 0
    case Clear => s.handle && s.loads == s.unloads && s.starts == 0
    case LeaveFailed => Settled(s) && !s.handle
    case LeaveReady => Settled(s) && s.handle
    case _ => false
  }

  /** One thread: it is inside the lock exactly when it owns it, and locked from there on. */
  predicate ThreadOk(th: Thread, owns: bool, starts: nat) {
    && (Inside(th.pc) <==> owns)
    && !th.pc.InitSection? && !th.pc.InitFlag?
    && (th.pc.Use? && th.locked ==> starts == 1)
    && (Inside(th.pc) ==> th.locked)
    && (th.locked ==> Inside(th.pc) || th.pc.Use? || th.pc.Failed?)
  }

  ghost predicate Inv(s: Sys) {
    && s.flag
    && (forall i :: i in s.threads ==> ThreadOk(s.threads[i], s.owner == Some(i), s.starts))
    && (match s.owner
        case None => Settled(s)
        case Some(i) => i in s.threads && OwnerOk(s, s.threads[i].pc))
  }

  lemma OutsideKeepsInv(s: Sys, t: Sys, i: nat)
    requires Inv(s) && i in s.threads && ThreadStep(s, t, i)
    requires s.threads[i].pc.Fast? || s.threads[i].pc.LockTest? || s.threads[i].pc.InitTest?
    ensures Inv(t)
  {
    assert ThreadOk(s.threads[i], s.owner == Some(i), s.starts);
  }

  lemma EnterKeepsInv(s: Sys, t: Sys, i: nat)
    requires Inv(s) && i in s.threads && ThreadStep(s, t, i) && s.threads[i].pc.Enter?
    ensures Inv(t)
  {
  }

  lemma OwnerIs(s: Sys, i: nat)
    requires Inv(s) && i in s.threads && Inside(s.threads[i].pc)
    ensures s.owner == Some(i) && s.threads[i].locked && OwnerOk(s, s.threads[i].pc)
  {
    assert ThreadOk(s.threads[i], s.owner == Some(i), s.starts);
  }

  /** Before the first start no thread relies on it. */
  lemma NotStartedYet(s: Sys, j: nat, starts: nat)
    requires Inv(s) && s.starts == 0 && j in s.threads
    ensures ThreadOk(s.threads[j], s.owner == Some(j), starts)
  {
    assert ThreadOk(s.threads[j], s.owner == Some(j), s.starts);
  }

  lemma InsideKeepsInv(s: Sys, t: Sys, i: nat)
    requires Inv(s) && i in s.threads && ThreadStep(s, t, i)
    requires Inside(s.threads[i].pc) && !s.threads[i].pc.LeaveFailed? && !s.threads[i].pc.LeaveReady?
    ensures Inv(t)
  {
    OwnerIs(s, i);
    forall j | j in t.threads && j != i
      ensures ThreadOk(t.threads[j], t.owner == Some(j), t.starts)
    {
      assert ThreadOk(s.threads[j], s.owner == Some(j), s.starts);
      if t.starts != s.starts {
        NotStartedYet(s, j, t.starts);
      }
    }
  }

  lemma LeaveKeepsInv(s: Sys, t: Sys, i: nat)
    requires Inv(s) && i in s.threads && ThreadStep(s, t, i)
    requires s.threads[i].pc.LeaveFailed? || s.threads[i].pc.LeaveReady?
    ensures Inv(t)
  {
    OwnerIs(s, i);
    forall j | j in t.threads && j != i
      ensures ThreadOk(t.threads[j], t.owner == Some(j), t.starts)
    {
      assert ThreadOk(s.threads[j], s.owner == Some(j), s.starts);
    }
  }

  lemma ThreadKeepsInv(s: Sys, t: Sys, i: nat)
    requires Inv(s) && i in s.threads && ThreadStep(s, t, i)
    ensures Inv(t)
  {
    assert ThreadOk(s.threads[i], s.owner == Some(i), s.starts);
    match s.threads[i].pc
    case Fast | LockTest | InitTest => OutsideKeepsInv(s, t, i);
    case Enter => EnterKeepsInv(s, t, i);
    case Recheck | Load | Startup | Unload | Clear => InsideKeepsInv(s, t, i);
    case LeaveFailed | LeaveReady => LeaveKeepsInv(s, t, i);
    case InitSection | InitFlag | Use | Failed =>
  }

  lemma CallKeepsInv(s: Sys, t: Sys, i: nat)
    requires Inv(s) && CallStep(s, t, i)
    ensures Inv(t)
  {
  }

  lemma {:induction false} RunKeepsInv(run: seq<Sys>, k: nat)
    requires Run(run, true) && k < |run|
    ensures Inv(run[k])
    decreases k
  {
    if k > 0 {
      RunKeepsInv(run, k - 1);
      var s, t := run[k - 1], run[k];
      assert StepAt(run, k - 1);
      if i :| i in s.threads && ThreadStep(s, t, i) {
        ThreadKeepsInv(s, t, i);
      } else {
        var i :| CallStep(s, t, i);
        CallKeepsInv(s, t, i);
      }
    }
  }

  // ---------------------------------------------------------------------------------------
  // Every run after init_lock
  // ---------------------------------------------------------------------------------------

  /** No two threads are ever inside the critical section. */
  lemma MutualExclusion(run: seq<Sys>, k: nat, i: nat, j: nat)
    requires Run(run, true) && k < |run| && i in run[k].threads && j in run[k].threads
    ensures Inside(run[k].threads[i].pc) && Inside(run[k].threads[j].pc) ==> i == j
  {
    RunKeepsInv(run, k);
  }

  /** WSAStartup succeeds at most once, and the library is never loaded twice at a time. */
  lemma StartedAtMostOnce(run: seq<Sys>, k: nat)
    requires Run(run, true) && k < |run|
    ensures run[k].starts <= 1
    ensures run[k].unloads <= run[k].loads <= run[k].unloads + 1
  {
    RunKeepsInv(run, k);
  }

  /** While the lock is free, loads minus unloads is one iff the handle is set, iff it is started. */
  lemma SettledWhenFree(run: seq<Sys>, k: nat)
    requires Run(run, true) && k < |run| && run[k].owner == None
    ensures run[k].handle <==> run[k].loads == run[k].unloads + 1
    ensures !run[k].handle <==> run[k].loads == run[k].unloads
    ensures run[k].handle <==> run[k].starts == 1
  {
    RunKeepsInv(run, k);
  }

  /** A thread that took the locked path and was not sent away finds the library started. */
  lemma LockedPathIsStarted(run: seq<Sys>, k: nat, i: nat)
    requires Run(run, true) && k < |run| && i in run[k].threads
    requires run[k].threads[i] == Thread(Use, true)
    ensures run[k].starts == 1 && run[k].handle
  {
    RunKeepsInv(run, k);
  }

  lemma StepKeepsStarted(s: Sys, t: Sys)
    requires Inv(s) && Step(s, t) && s.starts == 1
    ensures t.starts == 1 && t.handle == s.handle && t.loads == s.loads && t.unloads == s.unloads
  {
    if i :| i in s.threads && ThreadStep(s, t, i) && Inside(s.threads[i].pc) {
      OwnerIs(s, i);
    }
  }

  /** Once started, the library stays loaded and the handle set, and nobody loads it again. */
  lemma {:induction false} StartedForGood(run: seq<Sys>, k: nat, m: nat)
    requires Run(run, true) && k <= m < |run| && run[k].starts == 1
    ensures run[m].starts == 1 && run[m].handle && run[m].loads == run[k].loads
    ensures run[m].loads == run[m].unloads + 1
    decreases m
  {
    if k < m {
      StartedForGood(run, k, m - 1);
      RunKeepsInv(run, m - 1);
      assert StepAt(run, m - 1);
      StepKeepsStarted(run[m - 1], run[m]);
    } else {
      RunKeepsInv(run, k);
      StartedMeansSet(run[k]);
    }
  }

  lemma StartedMeansSet(s: Sys)
    requires Inv(s) && s.starts == 1
    ensures s.handle && s.loads == s.unloads + 1
  {
  }

  /** The lock is never lost: its holder can always go on, and lets it go within six steps. */
  function Rank(pc: Pc): nat {
    match pc
    case Recheck => 6
    case Load => 5
    case Startup => 4
    case Unload => 3
    case Clear => 2
    case LeaveFailed => 1
    case LeaveReady => 1
    case _ => 0
  }

  lemma HolderGoesOn(run: seq<Sys>, k: nat, i: nat)
    requires Run(run, true) && k < |run| && run[k].owner == Some(i)
    ensures i in run[k].threads
    ensures exists t :: ThreadStep(run[k], t, i)
    ensures forall t :: ThreadStep(run[k], t, i) ==>
              i in t.threads && Rank(t.threads[i].pc) < Rank(run[k].threads[i].pc)
              && (t.owner == Some(i) || (t.owner == None && Rank(t.threads[i].pc) == 0))
  {
    RunKeepsInv(run, k);
    var s := run[k];
    var t := match s.threads[i].pc
      case Recheck => Goto(s, i, if s.handle then LeaveReady else Load)
      case Load => Goto(s, i, LeaveFailed).(handle := false)
      case Startup => Goto(s, i, Unload)
      case Unload => Goto(s, i, Clear).(unloads := s.unloads + 1)
      case Clear => Goto(s, i, LeaveFailed).(handle := false)
      case LeaveFailed => Goto(s, i, Failed).(owner := if s.flag then None else s.owner)
      case LeaveReady => Goto(s, i, Use).(owner := if s.flag then None else s.owner);
    assert ThreadStep(s, t, i);
  }

  // ---------------------------------------------------------------------------------------
  // What does not hold
  // ---------------------------------------------------------------------------------------

  function Start(ready: bool): Sys {
    Sys(false, None, ready, 0, 0, 0, map[])
  }

  lemma Extend(run: seq<Sys>, ready: bool, t: Sys)
    requires Run(run, ready) && Step(run[|run| - 1], t)
    ensures Run(run + [t], ready)
  {
    var longer := run + [t];
    forall k | 0 <= k < |longer| - 1 ensures Step(longer[k], longer[k + 1]) {
      if k < |run| - 1 {
        assert StepAt(run, k);
      } else {
        assert longer[k] == run[|run| - 1];
      }
    }
  }

  lemma ByThread(run: seq<Sys>, ready: bool, t: Sys, i: nat) returns (longer: seq<Sys>)
    requires Run(run, ready) && i in run[|run| - 1].threads && ThreadStep(run[|run| - 1], t, i)
    ensures Run(longer, ready) && longer[|longer| - 1] == t
  {
    Extend(run, ready, t);
    longer := run + [t];
  }

  lemma ByCall(run: seq<Sys>, ready: bool, t: Sys, i: nat) returns (longer: seq<Sys>)
    requires Run(run, ready) && CallStep(run[|run| - 1], t, i)
    ensures Run(longer, ready) && longer[|longer| - 1] == t
  {
    Extend(run, ready, t);
    longer := run + [t];
  }

  /** A first thread on its way into the lock. */
  lemma FirstEnters(ready: bool) returns (run: seq<Sys>)
    ensures Run(run, ready)
    ensures run[|run| - 1] == Start(true).(threads := map[0 := Thread(Enter, false)])
  {
    run := [Start(ready)];
    var s1 := Start(ready).(threads := map[0 := Thread(Fast, false)]);
    run := ByCall(run, ready, s1, 0);
    var s2 := Goto(s1, 0, LockTest);
    run := ByThread(run, ready, s2, 0);
    if ready {
      run := ByThread(run, ready, Goto(s2, 0, Enter), 0);
    } else {
      var s3 := Goto(s2, 0, InitTest);
      run := ByThread(run, ready, s3, 0);
      var s4 := Goto(s3, 0, InitSection);
      run := ByThread(run, ready, s4, 0);
      var s5 := Goto(s4, 0, InitFlag).(owner := None);
      run := ByThread(run, ready, s5, 0);
      run := ByThread(run, ready, Goto(s5, 0, Enter).(flag := true), 0);
    }
  }

  /** A fast-path reader can go on while the library is loaded but not started yet. */
  lemma FastPathMayBeEarly(ready: bool) returns (run: seq<Sys>)
    ensures Run(run, ready)
    ensures var s := run[|run| - 1];
            1 in s.threads && s.threads[1] == Thread(Use, false) && s.starts == 0
  {
    run := FirstEnters(ready);
    var s3 := run[|run| - 1];
    var s4 := s3.(owner := Some(0), threads := s3.threads[0 := Thread(Recheck, true)]);
    run := ByThread(run, ready, s4, 0);
    var s5 := Goto(s4, 0, Load);
    run := ByThread(run, ready, s5, 0);
    var s6 := Goto(s5, 0, Startup).(handle := true, loads := 1);
    run := ByThread(run, ready, s6, 0);
    var s7 := s6.(threads := s6.threads[1 := Thread(Fast, false)]);
    run := ByCall(run, ready, s7, 1);
    var s8 := Goto(s7, 1, Use);
    run := ByThread(run, ready, s8, 1);
  }

  /** Two threads that both find the lock uninitialised can end up inside it together. */
  lemma LazyLockIsNotSafe() returns (run: seq<Sys>)
    ensures Run(run, false)
    ensures run[|run| - 1] == BothInside()
  {
    run := [Start(false)];
    var s1 := Start(false).(threads := map[0 := Thread(Fast, false)]);
    run := ByCall(run, false, s1, 0);
    var s2 := s1.(threads := s1.threads[1 := Thread(Fast, false)]);
    run := ByCall(run, false, s2, 1);
    var s3 := Goto(s2, 0, LockTest);
    run := ByThread(run, false, s3, 0);
    var s4 := Goto(s3, 1, LockTest);
    run := ByThread(run, false, s4, 1);
    var s5 := Goto(s4, 0, InitTest);
    run := ByThread(run, false, s5, 0);
    var s6 := Goto(s5, 1, InitTest);
    run := ByThread(run, false, s6, 1);
    var s7 := Goto(s6, 0, InitSection);
    run := ByThread(run, false, s7, 0);
    var s8 := Goto(s7, 1, InitSection);
    run := ByThread(run, false, s8, 1);
    run := BothEnter(run);
  }

  function BothAt(pc: Pc, locked: bool): map<nat, Thread> {
    map[0 := Thread(pc, locked), 1 := Thread(pc, locked)]
  }

  /** Two threads have just taken the lock. */
  function BothInside(): Sys {
    Start(true).(owner := Some(1), threads := BothAt(Recheck, true))
  }

  lemma BothEnter(run: seq<Sys>) returns (longer: seq<Sys>)
    requires Run(run, false)
    requires run[|run| - 1] == Start(false).(threads := BothAt(InitSection, false))
    ensures Run(longer, false)
    ensures longer[|longer| - 1] == BothInside()
  {
    var s8 := run[|run| - 1];
    var s9 := Goto(s8, 0, InitFlag).(owner := None);
    longer := ByThread(run, false, s9, 0);
    var s10 := Goto(s9, 0, Enter).(flag := true);
    longer := ByThread(longer, false, s10, 0);
    var s11 := s10.(owner := Some(0), threads := s10.threads[0 := Thread(Recheck, true)]);
    longer := ByThread(longer, false, s11, 0);
    var s12 := Goto(s11, 1, InitFlag).(owner := None);
    longer := ByThread(longer, false, s12, 1);
    var s13 := Goto(s12, 1, Enter).(flag := true);
    longer := ByThread(longer, false, s13, 1);
    var s14 := s13.(owner := Some(1), threads := s13.threads[1 := Thread(Recheck, true)]);
    longer := ByThread(longer, false, s14, 1);
  }

  /** Two threads inside the lock: one leaves by the locked path before the other has started the library. */
  lemma LockedPathMayBeEarly() returns (run: seq<Sys>)
    ensures Run(run, false)
    ensures var s := run[|run| - 1];
            1 in s.threads && s.threads[1] == Thread(Use, true) && s.starts == 0
  {
    run := LazyLockIsNotSafe();
    var s1 := Goto(BothInside(), 0, Load);
    run := ByThread(run, false, s1, 0);
    var s2 := Goto(s1, 0, Startup).(handle := true, loads := 1);
    run := ByThread(run, false, s2, 0);
    var s3 := Goto(s2, 1, LeaveReady);
    run := ByThread(run, false, s3, 1);
    run := ByThread(run, false, Goto(s3, 1, Use).(owner := None), 1);
  }

  // ---------------------------------------------------------------------------------------
  // What can happen: each outcome of loading and starting
  // ---------------------------------------------------------------------------------------

  /** Thread i can be at pc next, with this handle and these counters, the rest of the state as it is. */
  ghost predicate CanBe(s: Sys, i: nat, pc: Pc, handle: bool, loads: nat, unloads: nat, starts: nat) {
    && i in s.threads
    && exists t :: && ThreadStep(s, t, i) && i in t.threads && t.threads[i] == Thread(pc, true) && t.owner == s.owner
                   && t.handle == handle && t.loads == loads && t.unloads == unloads && t.starts == starts
  }

  /** In every reachable state the holder of the lock may load or fail to load, and start or fail to start. */
  lemma BothOutcomes(run: seq<Sys>, k: nat, i: nat)
    requires Run(run, true) && k < |run| && run[k].owner == Some(i)
    ensures var s := run[k];
      && i in s.threads
      && (s.threads[i].pc.Load? ==>
            && CanBe(s, i, Startup, true, s.loads + 1, s.unloads, s.starts)
            && CanBe(s, i, LeaveFailed, false, s.loads, s.unloads, s.starts))
      && (s.threads[i].pc.Startup? ==>
            && CanBe(s, i, LeaveReady, s.handle, s.loads, s.unloads, s.starts + 1)
            && CanBe(s, i, Unload, s.handle, s.loads, s.unloads, s.starts))
  {
    RunKeepsInv(run, k);
    var s := run[k];
    if s.threads[i].pc.Load? {
      assert ThreadStep(s, Goto(s, i, Startup).(handle := true, loads := s.loads + 1), i);
      assert ThreadStep(s, Goto(s, i, LeaveFailed).(handle := false), i);
    }
    if s.threads[i].pc.Startup? {
      assert ThreadStep(s, Goto(s, i, LeaveReady).(starts := s.starts + 1), i);
      assert ThreadStep(s, Goto(s, i, Unload), i);
    }
  }

  /** A first thread holds the lock and is about to load. */
  lemma FirstLoads(ready: bool) returns (run: seq<Sys>)
    ensures Run(run, ready)
    ensures run[|run| - 1] == Start(true).(owner := Some(0), threads := map[0 := Thread(Load, true)])
  {
    run := FirstEnters(ready);
    var s1 := run[|run| - 1];
    var s2 := s1.(owner := Some(0), threads := s1.threads[0 := Thread(Recheck, true)]);
    run := ByThread(run, ready, s2, 0);
    run := ByThread(run, ready, Goto(s2, 0, Load), 0);
    assert Goto(s2, 0, Load).threads == map[0 := Thread(Load, true)];
  }

  /** The library is started: the first thread has left the lock and goes on. */
  function Started(): Sys {
    Sys(true, None, true, 1, 0, 1, map[0 := Thread(Use, true)])
  }

  /** Loading and starting both work: the call goes on, with the library started and the lock free. */
  lemma StartWorks(ready: bool) returns (run: seq<Sys>)
    ensures Run(run, ready) && run[|run| - 1] == Started()
  {
    run := FirstLoads(ready);
    var s0 := run[|run| - 1];
    var s1 := Goto(s0, 0, Startup).(handle := true, loads := 1);
    run := ByThread(run, ready, s1, 0);
    var s2 := Goto(s1, 0, LeaveReady).(starts := 1);
    run := ByThread(run, ready, s2, 0);
    var s3 := Goto(s2, 0, Use).(owner := None);
    run := ByThread(run, ready, s3, 0);
    assert s3.threads == map[0 := Thread(Use, true)];
  }

  /** Loading fails: the call fails, and nothing is left behind. */
  lemma LoadFails(ready: bool) returns (run: seq<Sys>)
    ensures Run(run, ready)
    ensures run[|run| - 1] == Sys(false, None, true, 0, 0, 0, map[0 := Thread(Failed, true)])
  {
    run := FirstLoads(ready);
    var s0 := run[|run| - 1];
    var s1 := Goto(s0, 0, LeaveFailed).(handle := false);
    run := ByThread(run, ready, s1, 0);
    var s2 := Goto(s1, 0, Failed).(owner := None);
    run := ByThread(run, ready, s2, 0);
    assert s2.threads == map[0 := Thread(Failed, true)];
  }

  /** Starting fails: the call fails, and the library is unloaded again. */
  lemma StartFails(ready: bool) returns (run: seq<Sys>)
    ensures Run(run, ready)
    ensures run[|run| - 1] == Sys(false, None, true, 1, 1, 0, map[0 := Thread(Failed, true)])
  {
    run := FirstLoads(ready);
    var s0 := run[|run| - 1];
    var s1 := Goto(s0, 0, Startup).(handle := true, loads := 1);
    run := ByThread(run, ready, s1, 0);
    var s2 := Goto(s1, 0, Unload);
    run := ByThread(run, ready, s2, 0);
    var s3 := Goto(s2, 0, Clear).(unloads := 1);
    run := ByThread(run, ready, s3, 0);
    var s4 := Goto(s3, 0, LeaveFailed).(handle := false);
    run := ByThread(run, ready, s4, 0);
    var s5 := Goto(s4, 0, Failed).(owner := None);
    run := ByThread(run, ready, s5, 0);
    assert s5.threads == map[0 := Thread(Failed, true)];
  }

  /** The next call tries again, and may work. */
  lemma FailureIsNotFinal(ready: bool) returns (run: seq<Sys>)
    ensures Run(run, ready)
    ensures run[|run| - 1] == Sys(true, None, true, 2, 1, 1, map[0 := Thread(Use, true)])
  {
    run := StartFails(ready);
    run := CallAgain(ready, run);
    var s0 := run[|run| - 1];
    var s1 := Goto(s0, 0, Load);
    run := ByThread(run, ready, s1, 0);
    var s2 := Goto(s1, 0, Startup).(handle := true, loads := 2);
    run := ByThread(run, ready, s2, 0);
    var s3 := Goto(s2, 0, LeaveReady).(starts := 1);
    run := ByThread(run, ready, s3, 0);
    var s4 := Goto(s3, 0, Use).(owner := None);
    run := ByThread(run, ready, s4, 0);
    assert s4.threads == map[0 := Thread(Use, true)];
  }

  lemma CallAgain(ready: bool, run: seq<Sys>) returns (longer: seq<Sys>)
    requires Run(run, ready)
    requires var s := run[|run| - 1];
      !s.handle && s.flag && s.owner == None && s.threads == map[0 := Thread(Failed, true)]
    ensures Run(longer, ready)
    ensures var s := run[|run| - 1];
      longer[|longer| - 1] == s.(owner := Some(0), threads := map[0 := Thread(Recheck, true)])
  {
    var s0 := run[|run| - 1];
    var s1 := s0.(threads := s0.threads[0 := Thread(Fast, false)]);
    longer := ByCall(run, ready, s1, 0);
    var s2 := Goto(s1, 0, LockTest);
    longer := ByThread(longer, ready, s2, 0);
    var s3 := Goto(s2, 0, Enter);
    longer := ByThread(longer, ready, s3, 0);
    var s4 := s3.(owner := Some(0), threads := s3.threads[0 := Thread(Recheck, true)]);
    longer := ByThread(longer, ready, s4, 0);
    assert s4.threads == map[0 := Thread(Recheck, true)];
  }

  /** Once it is started, the next call goes on without the lock, and nothing is started again. */
  lemma FastPathGoesOn(ready: bool) returns (run: seq<Sys>)
    ensures Run(run, ready)
    ensures run[|run| - 1] == Started().(threads := map[0 := Thread(Use, false)])
  {
    run := StartWorks(ready);
    var s0 := run[|run| - 1];
    var s1 := s0.(threads := s0.threads[0 := Thread(Fast, false)]);
    run := ByCall(run, ready, s1, 0);
    var s2 := Goto(s1, 0, Use);
    run := ByThread(run, ready, s2, 0);
    assert s2.threads == map[0 := Thread(Use, false)];
  }

  /** A thread that waited for the lock finds the library started, and starts nothing. */
  lemma SecondFindsItStarted(ready: bool) returns (run: seq<Sys>)
    ensures Run(run, ready)
    ensures run[|run| - 1] == Started().(threads := BothAt(Use, true))
  {
    run := FirstLoads(ready);
    var s0 := run[|run| - 1];
    var s1 := s0.(threads := s0.threads[1 := Thread(Fast, false)]);
    run := ByCall(run, ready, s1, 1);
    var s2 := Goto(s1, 1, LockTest);
    run := ByThread(run, ready, s2, 1);
    var s3 := Goto(s2, 1, Enter);
    run := ByThread(run, ready, s3, 1);
    var s4 := Goto(s3, 0, Startup).(handle := true, loads := 1);
    run := ByThread(run, ready, s4, 0);
    var s5 := Goto(s4, 0, LeaveReady).(starts := 1);
    run := ByThread(run, ready, s5, 0);
    var s6 := Goto(s5, 0, Use).(owner := None);
    run := ByThread(run, ready, s6, 0);
    run := SecondLeaves(ready, run);
  }

  lemma SecondLeaves(ready: bool, run: seq<Sys>) returns (longer: seq<Sys>)
    requires Run(run, ready)
    requires run[|run| - 1] == Started().(threads := map[0 := Thread(Use, true), 1 := Thread(Enter, false)])
    ensures Run(longer, ready)
    ensures longer[|longer| - 1] == Started().(threads := BothAt(Use, true))
  {
    var s0 := run[|run| - 1];
    var s1 := s0.(owner := Some(1), threads := s0.threads[1 := Thread(Recheck, true)]);
    longer := ByThread(run, ready, s1, 1);
    var s2 := Goto(s1, 1, LeaveReady);
    longer := ByThread(longer, ready, s2, 1);
    var s3 := Goto(s2, 1, Use).(owner := None);
    longer := ByThread(longer, ready, s3, 1);
    assert s3.threads == BothAt(Use, true);
  }

  /** A thread that goes on behind the block, by the locked path or not, finds the library started. */
  ghost predicate StartedAtUse(ready: bool, locked: bool) {
    forall run: seq<Sys>, k: nat, i: nat ::
      (Run(run, ready) && k < |run| && i in run[k].threads && run[k].threads[i] == Thread(Use, locked))
      ==> run[k].starts == 1 && run[k].handle
  }

  /** That holds in every run exactly for the locked path after init_lock. */
  lemma StartedAtUseExactly(ready: bool, locked: bool)
    ensures StartedAtUse(ready, locked) <==> ready && locked
  {
    if !locked {
      var run := FastPathMayBeEarly(ready);
      assert 1 in run[|run| - 1].threads && run[|run| - 1].starts != 1;
    } else if !ready {
      var run := LockedPathMayBeEarly();
      assert 1 in run[|run| - 1].threads && run[|run| - 1].starts != 1;
    } else {
      forall run: seq<Sys>, k: nat, i: nat
        | Run(run, ready) && k < |run| && i in run[k].threads && run[k].threads[i] == Thread(Use, locked)
        ensures run[k].starts == 1 && run[k].handle
      {
        LockedPathIsStarted(run, k, i);
      }
    }
  }

  /** At most one thread is ever inside the lock. */
  ghost predicate Excludes(ready: bool) {
    forall run: seq<Sys>, k: nat, i: nat, j: nat ::
      (Run(run, ready) && k < |run| && i in run[k].threads && j in run[k].threads
       && Inside(run[k].threads[i].pc) && Inside(run[k].threads[j].pc)) ==> i == j
  }

  /** The lock excludes in every run exactly when init_lock ran before the first call. */
  lemma ExclusionExactly(ready: bool)
    ensures Excludes(ready) <==> ready
  {
    if ready {
      forall run: seq<Sys>, k: nat, i: nat, j: nat
        | Run(run, ready) && k < |run| && i in run[k].threads && j in run[k].threads
          && Inside(run[k].threads[i].pc) && Inside(run[k].threads[j].pc)
        ensures i == j
      {
        MutualExclusion(run, k, i, j);
      }
    } else {
      var run := LazyLockIsNotSafe();
      var s := run[|run| - 1];
      assert 0 in s.threads && 1 in s.threads && Inside(s.threads[0].pc) && Inside(s.threads[1].pc);
    }
  }
}
