/**
 What the chain of ChildWait guarantees in every reachable state, and exactly when a blocking
 waitid (source/waitid.c) is sure to wait for a child.
 */
module ChildWaitRuns {
  import opened CStrings
  import opened ChildWait

  lemma InitIsInv(w: World, s: Sys)
    requires Init(w, s)
    ensures Inv(w, s)
  {
    assert Batches(s.ws) == [[]];
    FlattenSingle<nat>([]);
  }

  /** The invariant holds throughout every run. */
  lemma {:induction false} RunKeepsInv(w: World, run: seq<Sys>, i: nat)
    requires Run(w, run) && i < |run|
    ensures Inv(w, run[i])
    decreases i
  {
    if i == 0 {
      InitIsInv(w, run[0]);
    } else {
      RunKeepsInv(w, run, i - 1);
      assert StepAt(w, run, i - 1);
      StepKeepsInv(w, run[i - 1], run[i]);
    }
  }

  lemma ReachableInv(w: World, s: Sys)
    requires Reachable(w, s)
    ensures Inv(w, s)
  {
    var run :| Run(w, run) && run[|run| - 1] == s;
    RunKeepsInv(w, run, |run| - 1);
  }

  // ---------------------------------------------------------------------------------------
  // What holds in every reachable state
  // ---------------------------------------------------------------------------------------

  /**
   At most one waiter can move the shared snapshot cursor, it is the last of the chain, and the
   snapshot is open when it does.
   */
  lemma OneWaiterAdvances(w: World, s: Sys, j: nat, k: nat)
    requires Reachable(w, s) && j < |s.ws| && k < |s.ws|
    ensures MayAdvance(s.ws[j].pc) && MayAdvance(s.ws[k].pc) ==> j == k
    ensures MayAdvance(s.ws[k].pc) ==> k == |s.ws| - 1 && s.snapOpen
    ensures s.ws[k].pc.Spawn? ==> k == |s.ws| - 1
    ensures HasChild(s.ws[k].pc) ==> k < |s.ws| - 1
  {
    ReachableInv(w, s);
  }

  /** No wait is given more than 64 handles, or none at all. */
  lemma WaitsFit(w: World, s: Sys, k: nat)
    requires Reachable(w, s) && k < |s.ws|
    ensures s.ws[k].pc.WaitFull? ==> |s.ws[k].batch| == 63
    ensures s.ws[k].pc.WaitLast? ==> 1 <= |s.ws[k].batch| <= 62
  {
    ReachableInv(w, s);
  }

  ghost predicate NoRepeats<T(!new)>(s: seq<T>) {
    forall i, j :: 0 <= i < j < |s| ==> s[i] != s[j]
  }

  /** A snapshot lists each process once. */
  ghost predicate PidsDistinct(w: World) {
    forall i, j :: 0 <= i < j < |w.entries| ==> w.entries[i].pid != w.entries[j].pid
  }

  /** The openable children are exactly those the snapshot shows with the requested parent. */
  lemma {:induction false} ChildrenMeaning(w: World, k: nat, h: nat)
    requires k <= |w.entries|
    ensures h in w.Children(k) <==>
            exists i :: 0 <= i < k && w.entries[i] == Entry(h, w.parent) && h in w.openable
    decreases k
  {
    if k > 0 {
      ChildrenMeaning(w, k - 1, h);
    }
  }

  /** h is in the snapshot under the requested parent, and may be opened. */
  predicate Openable(w: World, h: nat) {
    Entry(h, w.parent) in w.entries && h in w.openable
  }

  /** How many entries of the snapshot are such processes. */
  function Count(w: World): nat {
    CountTo(w, |w.entries|)
  }

  function CountTo(w: World, k: nat): nat
    requires k <= |w.entries|
  {
    |set i | 0 <= i < k && w.entries[i].ppid == w.parent && w.entries[i].pid in w.openable|
  }

  lemma OpenableIsChild(w: World, h: nat)
    ensures h in w.AllChildren() <==> Openable(w, h)
  {
    ChildrenMeaning(w, |w.entries|, h);
  }

  lemma {:induction false} CountIsLength(w: World, k: nat)
    requires k <= |w.entries|
    ensures CountTo(w, k) == |w.Children(k)|
    decreases k
  {
    if k > 0 {
      CountIsLength(w, k - 1);
      var a := set i | 0 <= i < k - 1 && w.entries[i].ppid == w.parent && w.entries[i].pid in w.openable;
      var b := set i | 0 <= i < k && w.entries[i].ppid == w.parent && w.entries[i].pid in w.openable;
      var e := w.entries[k - 1];
      assert b == if e.ppid == w.parent && e.pid in w.openable then a + {k - 1} else a;
    }
  }

  lemma {:induction false} ChildrenDistinct(w: World, k: nat)
    requires k <= |w.entries| && PidsDistinct(w)
    ensures NoRepeats(w.Children(k))
    decreases k
  {
    if k > 0 {
      ChildrenDistinct(w, k - 1);
      var earlier, e := w.Children(k - 1), w.entries[k - 1];
      forall i | 0 <= i < |earlier| ensures earlier[i] != e.pid {
        ChildrenMeaning(w, k - 1, earlier[i]);
      }
    }
  }

  /**
   Until the first wait returns, the chain holds a handle of each openable child enumerated so
   far, once each and in snapshot order.
   */
  lemma NothingLostBeforeFirstWake(w: World, s: Sys)
    requires Reachable(w, s) && !s.woke
    ensures s.cursor <= |w.entries|
    ensures Flatten(Batches(s.ws)) == w.Children(s.cursor)
    ensures PidsDistinct(w) ==> NoRepeats(Flatten(Batches(s.ws)))
  {
    ReachableInv(w, s);
    if PidsDistinct(w) {
      ChildrenDistinct(w, s.cursor);
    }
  }

  /**
   The snapshot is closed, and waitid returns, only when every helper thread has ended and every
   process handle is closed.
   */
  lemma SnapshotOutlivesWaiters(w: World, s: Sys)
    requires Reachable(w, s)
    ensures s.ws != []
    ensures s.ws[0].pc.Ended? <==> !s.snapOpen
    ensures !s.snapOpen ==> |s.ws| == 1 && s.ws[0].batch == []
  {
    ReachableInv(w, s);
  }

  /** Whatever is reported belongs to one and the same exited child of the requested process. */
  lemma ReportIsOneExitedChild(w: World, s: Sys)
    requires Reachable(w, s) && !s.snapOpen && s.report.Some?
    ensures var r := s.report.value;
            && r.pid in s.exited && r.status == w.code(r.pid) && r.pid in w.openable
            && exists i :: 0 <= i < |w.entries| && w.entries[i] == Entry(r.pid, w.parent)
  {
    ReachableInv(w, s);
    assert WaiterOk(w, s, 0) && Trusted(s.ws, 0);
    ChildrenMeaning(w, |w.entries|, s.report.value.pid);
  }

  /** A call without a report has run out of children, 63 at a time. */
  lemma NoReportMeansDrained(w: World, s: Sys)
    requires Reachable(w, s) && !s.snapOpen && s.report == None
    ensures Count(w) % 63 == 0
  {
    CountIsLength(w, |w.entries|);
    ReachableInv(w, s);
    assert WaiterOk(w, s, 0) && Trusted(s.ws, 0);
  }

  /** A waiter can take a step now. */
  ghost predicate CanStep(w: World, s: Sys) {
    exists k, t :: 0 <= k < |s.ws| && WaiterStep(w, s, t, k)
  }

  /** The chain never deadlocks: once all openable children have exited, someone can go on. */
  lemma NoDeadlock(w: World, s: Sys)
    requires Reachable(w, s) && s.snapOpen
    requires forall h :: Openable(w, h) ==> h in s.exited
    ensures CanStep(w, s)
  {
    ReachableInv(w, s);
    var n := |s.ws| - 1;
    var last := s.ws[n];
    assert WaiterOk(w, s, n);
    if last.pc.WaitLast? {
      var h := last.batch[0];
      OpenableIsChild(w, h);
      assert Signalled(s, n, h);
      assert WaiterStep(w, s, Goto(s, n, LastCode(h)).(woke := true), n);
    } else if last.pc.Ended? {
      var k := n - 1;
      assert ChildEnded(s, k);
      ParentCanStep(w, s, k);
    } else {
      LastCanStep(w, s, n);
    }
  }

  /** The waiter before one that has ended is never stuck. */
  lemma ParentCanStep(w: World, s: Sys, k: nat)
    requires k + 2 == |s.ws| && HasChild(s.ws[k].pc) && ChildEnded(s, k)
    ensures CanStep(w, s)
  {
    var me, child := s.ws[k], s.ws[k + 1];
    var t := match me.pc
      case WaitFull => Goto(s, k, CopyBack).(woke := true)
      case StoreCode(h) => Put(s, k, me.(pc := StorePid(h), out := me.out.(code := w.code(h))))
      case StorePid(h) => Put(s, k, me.(pc := StoreDone(h), out := me.out.(pid := h)))
      case StoreDone(h) => Put(s, k, me.(pc := MarkChild, out := me.out.(done := true)))
      case MarkChild => Put(Goto(s, k, Join), k + 1, child.(out := child.out.(done := true)))
      case Join => Goto(s, k, CloseBatch)
      case CopyBack => Put(s, k, me.(pc := CloseBatch, out := child.out))
      case CloseBatch => s.(ws := s.ws[..k] + [me.(pc := Check, batch := [], reused := true)]);
    assert WaiterStep(w, s, t, k);
  }

  lemma LastCanStep(w: World, s: Sys, n: nat)
    requires n + 1 == |s.ws| && !HasChild(s.ws[n].pc) && !s.ws[n].pc.Ended? && !s.ws[n].pc.WaitLast?
    ensures CanStep(w, s)
  {
    var me := s.ws[n];
    var t := match me.pc
      case Check => Goto(s, n, if me.out.done then Leave else Next)
      case Next => if s.cursor >= |w.entries| then Goto(s, n, Leave) else Advance(w, s, n)
      case Spawn => Goto(s, n, WaitFull).(ws := Goto(s, n, WaitFull).ws + [Waiter(Check, [], me.out, false)])
      case Leave => Goto(s, n, if !me.out.done && me.batch != [] then WaitLast else Finish)
      case LastCode(h) => Put(s, n, me.(pc := LastPid(h), out := me.out.(code := w.code(h))))
      case LastPid(h) => Put(s, n, me.(pc := LastDone(h), out := me.out.(pid := h)))
      case LastDone(h) => Put(s, n, me.(pc := Finish, out := me.out.(done := true)))
      case Finish => Put(s, n, me.(pc := if n == 0 then CloseSnap else Ended, batch := []))
      case CloseSnap => Goto(s, n, Ended).(snapOpen := false,
                              report := if me.out.done then Some(Report(me.out.pid, me.out.code)) else None);
    assert WaiterStep(w, s, t, n);
  }

  // ---------------------------------------------------------------------------------------
  // Multiples of 63: a call that returns although no child has exited
  // ---------------------------------------------------------------------------------------

  lemma Extend(w: World, run: seq<Sys>, t: Sys, k: nat)
    requires Run(w, run) && k < |run[|run| - 1].ws| && WaiterStep(w, run[|run| - 1], t, k)
    ensures Run(w, run + [t])
  {
    var longer := run + [t];
    forall i | 0 <= i < |longer| - 1 ensures StepAt(w, longer, i) {
      if i < |run| - 1 {
        assert StepAt(w, run, i);
      } else {
        assert longer[i] == run[|run| - 1] && longer[i + 1] == t;
      }
    }
  }

  /** Nobody has woken and nobody has exited; the last waiter stands at pc. */
  ghost predicate AllAsleep(w: World, s: Sys, pc: Pc) {
    && Inv(w, s) && !s.woke && s.snapOpen && s.exited == {} && s.report == None
    && s.ws[|s.ws| - 1].pc == pc
  }

  lemma SleepStep(w: World, run: seq<Sys>, t: Sys) returns (longer: seq<Sys>)
    requires Run(w, run) && Inv(w, run[|run| - 1])
    requires var s := run[|run| - 1];
             s.ws != [] && WaiterStep(w, s, t, |s.ws| - 1)
    ensures Run(w, longer) && longer[|longer| - 1] == t && Inv(w, t)
  {
    var s := run[|run| - 1];
    Extend(w, run, t, |s.ws| - 1);
    longer := run + [t];
    StepKeepsInv(w, s, t);
  }

  /** One entry of the snapshot is enumerated; a full batch gets a new thread. */
  lemma CollectOne(w: World, run: seq<Sys>) returns (longer: seq<Sys>)
    requires Run(w, run) && AllAsleep(w, run[|run| - 1], Next) && run[|run| - 1].cursor < |w.entries|
    ensures Run(w, longer) && AllAsleep(w, longer[|longer| - 1], Check)
    ensures longer[|longer| - 1].cursor == run[|run| - 1].cursor + 1
  {
    var s := run[|run| - 1];
    var k := |s.ws| - 1;
    var t := Advance(w, s, k);
    longer := SleepStep(w, run, t);
    if t.ws[k].pc.Spawn? {
      var u := Goto(t, k, WaitFull).(ws := Goto(t, k, WaitFull).ws + [Waiter(Check, [], t.ws[k].out, false)]);
      longer := SleepStep(w, longer, u);
    }
  }

  /** The last waiter goes on to Next, or at the end of the snapshot to Leave. */
  lemma AsleepStep(w: World, run: seq<Sys>, pc: Pc) returns (longer: seq<Sys>)
    requires Run(w, run) && (pc.Next? || (pc.Leave? && run[|run| - 1].cursor == |w.entries|))
    requires AllAsleep(w, run[|run| - 1], if pc.Next? then Check else Next)
    ensures Run(w, longer) && AllAsleep(w, longer[|longer| - 1], pc)
    ensures longer[|longer| - 1].cursor == run[|run| - 1].cursor
  {
    var s := run[|run| - 1];
    longer := SleepStep(w, run, Goto(s, |s.ws| - 1, pc));
  }

  /** The whole snapshot is enumerated, with a new thread for every 63 children. */
  lemma {:induction false} Collect(w: World, run: seq<Sys>) returns (longer: seq<Sys>)
    requires Run(w, run) && AllAsleep(w, run[|run| - 1], Check)
    ensures Run(w, longer) && AllAsleep(w, longer[|longer| - 1], Leave)
    ensures longer[|longer| - 1].cursor == |w.entries|
    decreases |w.entries| - run[|run| - 1].cursor
  {
    longer := AsleepStep(w, run, Next);
    var s := longer[|longer| - 1];
    if s.cursor == |w.entries| {
      longer := AsleepStep(w, longer, Leave);
    } else {
      longer := CollectOne(w, longer);
      longer := Collect(w, longer);
    }
  }

  /** The last thread has ended without a result, and all before it wait at full batches. */
  ghost predicate Unwinding(w: World, s: Sys) {
    var n := |s.ws| - 1;
    && Inv(w, s) && s.snapOpen && s.exited == {} && s.report == None
    && s.cursor == |w.entries| && n >= 0
    && !s.ws[n].out.done && s.ws[n].batch == []
    && (if n == 0 then s.ws[n].pc.CloseSnap? else s.ws[n].pc.Ended?)
    && forall k :: 0 <= k < n ==> s.ws[k].pc.WaitFull? && !s.ws[k].out.done
  }

  lemma MiddleExtend(w: World, run: seq<Sys>, t: Sys, k: nat) returns (longer: seq<Sys>)
    requires Run(w, run) && Inv(w, run[|run| - 1])
    requires k < |run[|run| - 1].ws| && WaiterStep(w, run[|run| - 1], t, k)
    ensures Run(w, longer) && longer[|longer| - 1] == t && Inv(w, t)
  {
    Extend(w, run, t, k);
    longer := run + [t];
    StepKeepsInv(w, run[|run| - 1], t);
  }

  /** The parent of an ended thread wakes, takes over nothing, and ends as well. */
  lemma UnwindOne(w: World, run: seq<Sys>) returns (longer: seq<Sys>)
    requires Run(w, run) && Unwinding(w, run[|run| - 1]) && |run[|run| - 1].ws| > 1
    ensures Run(w, longer) && Unwinding(w, longer[|longer| - 1])
    ensures |longer[|longer| - 1].ws| == |run[|run| - 1].ws| - 1
  {
    longer := UnwindCopy(w, run);
    var s2 := longer[|longer| - 1];
    var k := |s2.ws| - 2;
    var s3 := s2.(ws := s2.ws[..k] + [s2.ws[k].(pc := Check, batch := [], reused := true)]);
    longer := MiddleExtend(w, longer, s3, k);
    longer := UnwindTail(w, longer);
  }

  /** The parent wakes and takes over its thread's structure, which holds nothing. */
  lemma UnwindCopy(w: World, run: seq<Sys>) returns (longer: seq<Sys>)
    requires Run(w, run) && Unwinding(w, run[|run| - 1]) && |run[|run| - 1].ws| > 1
    ensures Run(w, longer) && Inv(w, longer[|longer| - 1])
    ensures var s, t := run[|run| - 1], longer[|longer| - 1]; var k := |s.ws| - 2;
      && t == s.(woke := true, ws := s.ws[k := s.ws[k].(pc := CloseBatch, out := s.ws[k + 1].out)])
  {
    var s0 := run[|run| - 1];
    var k := |s0.ws| - 2;
    var s1 := Goto(s0, k, CopyBack).(woke := true);
    assert ChildEnded(s0, k);
    longer := MiddleExtend(w, run, s1, k);
    var s2 := Put(s1, k, s1.ws[k].(pc := CloseBatch, out := s1.ws[k + 1].out));
    longer := MiddleExtend(w, longer, s2, k);
  }

  lemma UnwindTail(w: World, run: seq<Sys>) returns (longer: seq<Sys>)
    requires Run(w, run)
    requires var s := run[|run| - 1]; var n := |s.ws| - 1;
             && Inv(w, s) && s.snapOpen && s.exited == {} && s.report == None
             && s.cursor == |w.entries| && n >= 0
             && !s.ws[n].out.done && s.ws[n].batch == [] && s.ws[n].pc.Check?
             && forall k :: 0 <= k < n ==> s.ws[k].pc.WaitFull? && !s.ws[k].out.done
    ensures Run(w, longer) && Unwinding(w, longer[|longer| - 1])
    ensures |longer[|longer| - 1].ws| == |run[|run| - 1].ws|
  {
    var s0 := run[|run| - 1];
    var n := |s0.ws| - 1;
    var s1 := Goto(s0, n, Next);
    longer := SleepStep(w, run, s1);
    var s2 := Goto(s1, n, Leave);
    longer := SleepStep(w, longer, s2);
    longer := UnwindLeave(w, longer);
  }

  lemma UnwindLeave(w: World, run: seq<Sys>) returns (longer: seq<Sys>)
    requires Run(w, run)
    requires var s := run[|run| - 1]; var n := |s.ws| - 1;
             && Inv(w, s) && s.snapOpen && s.exited == {} && s.report == None
             && s.cursor == |w.entries| && n >= 0
             && !s.ws[n].out.done && s.ws[n].batch == [] && s.ws[n].pc.Leave?
             && forall k :: 0 <= k < n ==> s.ws[k].pc.WaitFull? && !s.ws[k].out.done
    ensures Run(w, longer) && Unwinding(w, longer[|longer| - 1])
    ensures |longer[|longer| - 1].ws| == |run[|run| - 1].ws|
  {
    var s0 := run[|run| - 1];
    var n := |s0.ws| - 1;
    longer := SleepStep(w, run, Goto(s0, n, Finish));
    longer := UnwindFinish(w, longer);
  }

  lemma UnwindFinish(w: World, run: seq<Sys>) returns (longer: seq<Sys>)
    requires Run(w, run)
    requires var s := run[|run| - 1]; var n := |s.ws| - 1;
             && Inv(w, s) && s.snapOpen && s.exited == {} && s.report == None
             && s.cursor == |w.entries| && n >= 0
             && !s.ws[n].out.done && s.ws[n].batch == [] && s.ws[n].pc.Finish?
             && forall k :: 0 <= k < n ==> s.ws[k].pc.WaitFull? && !s.ws[k].out.done
    ensures Run(w, longer) && Unwinding(w, longer[|longer| - 1])
    ensures |longer[|longer| - 1].ws| == |run[|run| - 1].ws|
  {
    var s := run[|run| - 1];
    var n := |s.ws| - 1;
    var t := Put(s, n, s.ws[n].(pc := if n == 0 then CloseSnap else Ended, batch := []));
    longer := SleepStep(w, run, t);
  }

  lemma {:induction false} Unwind(w: World, run: seq<Sys>) returns (longer: seq<Sys>)
    requires Run(w, run) && Unwinding(w, run[|run| - 1])
    ensures Run(w, longer)
    ensures var t := longer[|longer| - 1]; !t.snapOpen && t.report == None && t.exited == {}
    decreases |run[|run| - 1].ws|
  {
    var s := run[|run| - 1];
    if |s.ws| > 1 {
      longer := UnwindOne(w, run);
      longer := Unwind(w, longer);
    } else {
      longer := SleepStep(w, run, Goto(s, 0, Ended).(snapOpen := false, report := None));
    }
  }

  /** A run that enumerates all children while nothing else happens. */
  lemma AllCollected(w: World) returns (run: seq<Sys>)
    requires w.entries != []
    ensures Run(w, run) && AllAsleep(w, run[|run| - 1], Leave)
    ensures run[|run| - 1].cursor == |w.entries| && Flatten(Batches(run[|run| - 1].ws)) == w.AllChildren()
  {
    var start := Sys(0, true, {}, [Waiter(Check, [], Wfps(0, 0, false), false)], false, None);
    run := [start];
    InitIsInv(w, start);
    run := Collect(w, run);
  }

  /** With a multiple of 63 children, waitid can return while every process is still running. */
  lemma ReturnsWithoutExit(w: World) returns (run: seq<Sys>)
    requires w.entries != [] && Count(w) % 63 == 0
    ensures Run(w, run)
    ensures var t := run[|run| - 1]; !t.snapOpen && t.report == None && t.exited == {}
  {
    CountIsLength(w, |w.entries|);
    run := AllCollected(w);
    var s := run[|run| - 1];
    FullBatches(Batches(s.ws));
    assert s.ws[|s.ws| - 1].batch == [];
    run := UnwindLeave(w, run);
    run := Unwind(w, run);
  }

  /** waitid has returned in state s without having seen a child exit. */
  ghost predicate ReturnedEmpty(w: World, s: Sys) {
    Reachable(w, s) && !s.snapOpen && s.report == None
  }

  /**
   A blocking waitid is sure to return with an exited child exactly when the number of openable
   children is not a multiple of 63.
   */
  lemma WaitsForAChildExactly(w: World)
    requires w.entries != []
    ensures (forall s :: !ReturnedEmpty(w, s)) <==> Count(w) % 63 != 0
  {
    forall s | ReturnedEmpty(w, s) ensures Count(w) % 63 == 0 {
      NoReportMeansDrained(w, s);
    }
    if Count(w) % 63 == 0 {
      var run := ReturnsWithoutExit(w);
      assert ReturnedEmpty(w, run[|run| - 1]);
    }
  }

  // ---------------------------------------------------------------------------------------
  // When the chain is stuck although a child has exited
  // ---------------------------------------------------------------------------------------

  /** A waiter leaves its loop, or closes a full batch, only when it is done or the snapshot is used up. */
  predicate Fine(me: Waiter, end: bool) {
    && (me.pc.CloseBatch? || Closing(me.pc) || me.reused ==> me.out.done || end)
    && (me.pc.MarkChild? || me.pc.Join? ==> me.out.done)
    && (me.reused ==> me.batch == [] && (MayAdvance(me.pc) || me.pc.Leave? || Closing(me.pc)))
    && (me.reused && me.pc.Next? ==> end)
    && (me.pc.Leave? && !me.out.done ==> end)
    && (me.pc.WaitLast? || me.pc.LastCode? || me.pc.LastPid? || me.pc.LastDone? ==> end)
  }

  ghost predicate AllFine(w: World, s: Sys) {
    forall k :: 0 <= k < |s.ws| ==> Fine(s.ws[k], s.cursor == |w.entries|)
  }

  /** While the last waiter still holds what it has collected, nothing is lost. */
  ghost predicate Tally(w: World, s: Sys)
    requires s.ws != []
  {
    var last := s.ws[|s.ws| - 1];
    !last.reused && !Closing(last.pc) ==> Accounted(w, s)
  }

  /** The step of a waiter that changes no other one. */
  predicate Alone(pc: Pc) {
    !pc.Spawn? && !pc.MarkChild? && !pc.CloseBatch?
  }

  lemma AloneFrame(w: World, s: Sys, t: Sys, k: nat)
    requires k < |s.ws| && Alone(s.ws[k].pc) && WaiterStep(w, s, t, k) && s.cursor <= |w.entries|
    ensures |t.ws| == |s.ws| && s.cursor <= t.cursor <= |w.entries|
    ensures forall j :: 0 <= j < |s.ws| && j != k ==> t.ws[j] == s.ws[j]
  {
  }

  lemma SearchIsFine(w: World, s: Sys, t: Sys, k: nat)
    requires k < |s.ws| && WaiterStep(w, s, t, k) && s.cursor <= |w.entries|
    requires s.ws[k].pc.Check? || s.ws[k].pc.Next? || s.ws[k].pc.Leave?
    requires Fine(s.ws[k], s.cursor == |w.entries|)
    ensures k < |t.ws| && Fine(t.ws[k], t.cursor == |w.entries|)
  {
  }

  lemma FullIsFine(w: World, s: Sys, t: Sys, k: nat)
    requires Inv(w, s) && AllFine(w, s) && k < |s.ws| && WaiterStep(w, s, t, k)
    requires HasChild(s.ws[k].pc) && Alone(s.ws[k].pc)
    ensures k < |t.ws| && Fine(t.ws[k], t.cursor == |w.entries|)
  {
    assert Fine(s.ws[k], s.cursor == |w.entries|);
    if s.ws[k].pc.CopyBack? {
      assert Fine(s.ws[k + 1], s.cursor == |w.entries|);
    }
  }

  lemma LastIsFine(w: World, s: Sys, t: Sys, k: nat)
    requires k < |s.ws| && WaiterStep(w, s, t, k) && Fine(s.ws[k], s.cursor == |w.entries|)
    requires s.ws[k].pc.WaitLast? || s.ws[k].pc.LastCode? || s.ws[k].pc.LastPid? || s.ws[k].pc.LastDone?
    ensures k < |t.ws| && Fine(t.ws[k], t.cursor == |w.entries|)
  {
  }

  lemma ClosingIsFine(w: World, s: Sys, t: Sys, k: nat)
    requires k < |s.ws| && WaiterStep(w, s, t, k) && Fine(s.ws[k], s.cursor == |w.entries|)
    requires Closing(s.ws[k].pc)
    ensures k < |t.ws| && Fine(t.ws[k], t.cursor == |w.entries|)
  {
  }

  lemma AloneIsFine(w: World, s: Sys, t: Sys, k: nat)
    requires Inv(w, s) && AllFine(w, s) && k < |s.ws| && Alone(s.ws[k].pc) && WaiterStep(w, s, t, k)
    ensures k < |t.ws| && Fine(t.ws[k], t.cursor == |w.entries|)
  {
    var pc := s.ws[k].pc;
    assert Fine(s.ws[k], s.cursor == |w.entries|);
    if HasChild(pc) {
      FullIsFine(w, s, t, k);
    } else if pc.Check? || pc.Next? || pc.Leave? {
      SearchIsFine(w, s, t, k);
    } else if Closing(pc) {
      ClosingIsFine(w, s, t, k);
    } else {
      LastIsFine(w, s, t, k);
    }
  }

  lemma MarkIsFine(w: World, s: Sys, t: Sys, k: nat)
    requires AllFine(w, s) && k < |s.ws| && s.ws[k].pc.MarkChild? && WaiterStep(w, s, t, k)
    ensures AllFine(w, t)
  {
    forall j | 0 <= j < |t.ws|
      ensures Fine(t.ws[j], t.cursor == |w.entries|)
    {
      assert Fine(s.ws[j], s.cursor == |w.entries|);
    }
  }

  /** The chain gets longer or shorter by one. */
  lemma EdgeIsFine(w: World, s: Sys, t: Sys, k: nat)
    requires Inv(w, s) && AllFine(w, s) && k < |s.ws| && WaiterStep(w, s, t, k)
    requires s.ws[k].pc.Spawn? || s.ws[k].pc.CloseBatch?
    ensures AllFine(w, t)
  {
    forall j | 0 <= j < |t.ws|
      ensures Fine(t.ws[j], t.cursor == |w.entries|)
    {
      assert j < |s.ws| ==> Fine(s.ws[j], s.cursor == |w.entries|);
    }
  }

  lemma {:induction false} StepIsFine(w: World, s: Sys, t: Sys, k: nat)
    requires Inv(w, s) && AllFine(w, s) && k < |s.ws| && WaiterStep(w, s, t, k)
    ensures AllFine(w, t)
  {
    if Alone(s.ws[k].pc) {
      AloneFrame(w, s, t, k);
      AloneIsFine(w, s, t, k);
      forall j | 0 <= j < |t.ws| && j != k
        ensures Fine(t.ws[j], t.cursor == |w.entries|)
      {
        assert Fine(s.ws[j], s.cursor == |w.entries|);
      }
    } else if s.ws[k].pc.MarkChild? {
      MarkIsFine(w, s, t, k);
    } else {
      EdgeIsFine(w, s, t, k);
    }
  }

  /** A step that leaves the handles and the cursor alone. */
  predicate KeepsHandles(pc: Pc) {
    !pc.Next? && !pc.Spawn? && !pc.MarkChild? && !pc.CloseBatch? && !pc.Finish?
  }

  lemma HandlesKept(w: World, s: Sys, t: Sys, k: nat)
    requires k < |s.ws| && KeepsHandles(s.ws[k].pc) && WaiterStep(w, s, t, k)
    ensures Local(s, t, k) && t.ws[k].batch == s.ws[k].batch && t.ws[k].reused == s.ws[k].reused
    ensures Closing(s.ws[k].pc) ==> Closing(t.ws[k].pc)
  {
    if HasChild(s.ws[k].pc) {
      FullHandlesKept(w, s, t, k);
    }
  }

  lemma FullHandlesKept(w: World, s: Sys, t: Sys, k: nat)
    requires k < |s.ws| && KeepsHandles(s.ws[k].pc) && HasChild(s.ws[k].pc) && WaiterStep(w, s, t, k)
    ensures Local(s, t, k) && t.ws[k].batch == s.ws[k].batch && t.ws[k].reused == s.ws[k].reused
  {
  }

  lemma LocalTally(w: World, s: Sys, t: Sys, k: nat)
    requires s.ws != [] && Tally(w, s) && k < |s.ws| && Local(s, t, k)
    requires t.ws[k].batch == s.ws[k].batch && t.ws[k].reused == s.ws[k].reused
    requires Closing(s.ws[k].pc) ==> Closing(t.ws[k].pc)
    ensures t.ws != [] && Tally(w, t)
  {
    SameBatches(s, t, k);
  }

  lemma NextTally(w: World, s: Sys, t: Sys, k: nat)
    requires Inv(w, s) && Tally(w, s) && k < |s.ws| && s.ws[k].pc.Next? && WaiterStep(w, s, t, k)
    ensures t.ws != [] && Tally(w, t)
  {
    assert k == |s.ws| - 1;
    if s.cursor >= |w.entries| {
      LocalTally(w, s, t, k);
    } else if !s.ws[k].reused {
      AdvanceAccounts(w, s, t, k);
    }
  }

  lemma SpawnTally(w: World, s: Sys, t: Sys, k: nat)
    requires AllFine(w, s) && k < |s.ws| && Tally(w, s) && s.ws[k].pc.Spawn? && WaiterStep(w, s, t, k)
    ensures t.ws != [] && Tally(w, t)
  {
    assert Fine(s.ws[k], s.cursor == |w.entries|);
    SpawnBatches(s, t, k);
  }

  lemma MarkTally(w: World, s: Sys, t: Sys, k: nat)
    requires s.ws != [] && Tally(w, s) && k < |s.ws| && s.ws[k].pc.MarkChild? && WaiterStep(w, s, t, k)
    ensures t.ws != [] && Tally(w, t)
  {
    assert Batches(t.ws) == Batches(s.ws);
  }

  lemma StepKeepsTally(w: World, s: Sys, t: Sys, k: nat)
    requires Inv(w, s) && AllFine(w, s) && Tally(w, s) && k < |s.ws| && WaiterStep(w, s, t, k)
    ensures t.ws != [] && Tally(w, t)
  {
    if KeepsHandles(s.ws[k].pc) {
      HandlesKept(w, s, t, k);
      LocalTally(w, s, t, k);
    } else if s.ws[k].pc.Next? {
      NextTally(w, s, t, k);
    } else if s.ws[k].pc.Spawn? {
      SpawnTally(w, s, t, k);
    } else if s.ws[k].pc.MarkChild? {
      MarkTally(w, s, t, k);
    } else if s.ws[k].pc.Finish? {
      assert k == |s.ws| - 1;
    }
  }

  lemma {:induction false} RunIsFine(w: World, run: seq<Sys>, i: nat)
    requires Run(w, run) && i < |run|
    ensures run[i].ws != [] && AllFine(w, run[i]) && Tally(w, run[i])
    decreases i
  {
    if i == 0 {
      InitIsInv(w, run[0]);
    } else {
      RunIsFine(w, run, i - 1);
      RunKeepsInv(w, run, i - 1);
      assert StepAt(w, run, i - 1);
      StepKeepsFine(w, run[i - 1], run[i]);
    }
  }

  lemma StepKeepsFine(w: World, s: Sys, t: Sys)
    requires Inv(w, s) && AllFine(w, s) && Tally(w, s) && Step(w, s, t)
    ensures t.ws != [] && AllFine(w, t) && Tally(w, t)
  {
    if k :| 0 <= k < |s.ws| && WaiterStep(w, s, t, k) {
      StepIsFine(w, s, t, k);
      StepKeepsTally(w, s, t, k);
    } else {
      assert t.ws == s.ws && t.cursor == s.cursor;
    }
  }

  /** A waiter of a state that cannot go on is stuck. */
  lemma StuckAtLastWait(w: World, s: Sys)
    requires Reachable(w, s) && s.snapOpen && !CanStep(w, s)
    ensures s.ws != [] && s.ws[|s.ws| - 1].pc.WaitLast?
  {
    ReachableInv(w, s);
    var n := |s.ws| - 1;
    if s.ws[n].pc.Ended? {
      assert ChildEnded(s, n - 1);
      ParentCanStep(w, s, n - 1);
    } else if !s.ws[n].pc.WaitLast? {
      LastCanStep(w, s, n);
    }
  }

  /** A stuck call has enumerated all children, and its last thread waits for less than 63 of them. */
  lemma StuckHoldsAll(w: World, s: Sys)
    requires Reachable(w, s) && s.snapOpen && !CanStep(w, s)
    ensures s.ws != [] && Flatten(Batches(s.ws)) == w.AllChildren()
    ensures |w.AllChildren()| == BATCH * (|s.ws| - 1) + |s.ws[|s.ws| - 1].batch|
    ensures 0 < |s.ws[|s.ws| - 1].batch| < BATCH
  {
    StuckAtLastWait(w, s);
    ReachableInv(w, s);
    var run :| Run(w, run) && run[|run| - 1] == s;
    RunIsFine(w, run, |run| - 1);
    assert Fine(s.ws[|s.ws| - 1], s.cursor == |w.entries|);
    FullBatches(Batches(s.ws));
  }

  /** A child has exited, and the call has not returned. */
  ghost predicate ChildHasExited(w: World, s: Sys) {
    s.snapOpen && exists h :: Openable(w, h) && h in s.exited
  }

  /** With one batch at most, or only full ones, the call goes on as soon as one child has exited. */
  lemma GoesOnAfterOneExit(w: World, s: Sys)
    requires Reachable(w, s) && ChildHasExited(w, s)
    requires Count(w) <= 63 || Count(w) % 63 == 0
    ensures CanStep(w, s)
  {
    CountIsLength(w, |w.entries|);
    if !CanStep(w, s) {
      StuckIsChain(w, s);
      StuckHoldsAll(w, s);
      StuckAtLastWait(w, s);
      var h :| Openable(w, h) && h in s.exited;
      OpenableIsChild(w, h);
      OnlyBatchWakes(w, s, h);
    }
  }

  lemma StuckIsChain(w: World, s: Sys)
    requires Reachable(w, s) && s.snapOpen && !CanStep(w, s)
    ensures |w.AllChildren()| <= BATCH || |w.AllChildren()| % BATCH == 0 ==> |s.ws| == 1
  {
    StuckHoldsAll(w, s);
    PartialBatch(|s.ws| - 1, |s.ws[|s.ws| - 1].batch|);
  }

  lemma PartialBatch(full: nat, rest: nat)
    requires 0 < rest < BATCH
    ensures (BATCH * full + rest) % BATCH == rest
    ensures full > 0 ==> BATCH * full + rest > BATCH
  {
  }

  lemma OnlyBatchWakes(w: World, s: Sys, h: nat)
    requires |s.ws| == 1 && s.ws[0].pc.WaitLast? && h in Flatten(Batches(s.ws)) && h in s.exited
    ensures CanStep(w, s)
  {
    assert Batches(s.ws) == [s.ws[0].batch];
    FlattenSingle(s.ws[0].batch);
    assert Signalled(s, 0, h);
    assert WaiterStep(w, s, Goto(s, 0, LastCode(h)).(woke := true), 0);
  }

  // ---------------------------------------------------------------------------------------
  // The run that gets stuck
  // ---------------------------------------------------------------------------------------

  lemma {:induction false} FlattenHas<T>(parts: seq<seq<T>>, j: nat, x: T)
    requires j < |parts| && x in parts[j]
    ensures x in Flatten(parts)
  {
    if j > 0 {
      FlattenHas(parts[1..], j - 1, x);
    }
  }

  /** What the first batch holds, no other batch does. */
  lemma FirstBatchAlone<T(!new)>(parts: seq<seq<T>>, j: nat, x: T)
    requires 0 < j < |parts| && NoRepeats(Flatten(parts)) && x in parts[0]
    ensures x !in parts[j]
  {
    if x in parts[j] {
      FlattenHas(parts[1..], j - 1, x);
      RepeatedAcross(parts[0], Flatten(parts[1..]), x);
    }
  }

  lemma RepeatedAcross<T(!new)>(a: seq<T>, b: seq<T>, x: T)
    requires x in a && x in b
    ensures !NoRepeats(a + b)
  {
    var i :| 0 <= i < |a| && a[i] == x;
    var j :| 0 <= j < |b| && b[j] == x;
    assert (a + b)[i] == (a + b)[|a| + j];
  }

  lemma ExitExtend(w: World, run: seq<Sys>, h: nat) returns (longer: seq<Sys>)
    requires Run(w, run) && Inv(w, run[|run| - 1])
    ensures Run(w, longer) && Inv(w, longer[|longer| - 1])
    ensures var s := run[|run| - 1]; longer[|longer| - 1] == s.(exited := s.exited + {h})
  {
    var s := run[|run| - 1];
    var t := s.(exited := s.exited + {h});
    longer := run + [t];
    assert Step(w, s, t);
    forall i | 0 <= i < |longer| - 1
      ensures StepAt(w, longer, i)
    {
      if i < |run| - 1 {
        assert StepAt(w, run, i);
      } else {
        assert longer[i] == s && longer[i + 1] == t;
      }
    }
    StepKeepsInv(w, s, t);
  }

  /** All threads wait, and no process has exited. */
  ghost predicate AllWaiting(w: World, s: Sys) {
    && AllAsleep(w, s, WaitLast) && |s.ws| > 1
    && (forall k :: 0 <= k < |s.ws| - 1 ==> s.ws[k].pc.WaitFull?)
    && Flatten(Batches(s.ws)) == w.AllChildren()
  }

  lemma EveryoneWaits(w: World) returns (run: seq<Sys>)
    requires w.entries != [] && |w.AllChildren()| > BATCH && |w.AllChildren()| % BATCH != 0
    ensures Run(w, run) && AllWaiting(w, run[|run| - 1])
  {
    run := AllCollected(w);
    var s := run[|run| - 1];
    FullBatches(Batches(s.ws));
    run := LastOneWaits(w, run);
  }

  lemma LastOneWaits(w: World, run: seq<Sys>) returns (longer: seq<Sys>)
    requires Run(w, run) && AllAsleep(w, run[|run| - 1], Leave)
    requires var s := run[|run| - 1];
      |s.ws| > 1 && s.ws[|s.ws| - 1].batch != [] && Flatten(Batches(s.ws)) == w.AllChildren()
    ensures Run(w, longer) && AllWaiting(w, longer[|longer| - 1])
  {
    var s := run[|run| - 1];
    var n := |s.ws| - 1;
    longer := SleepStep(w, run, Goto(s, n, WaitLast));
    SameBatches(s, longer[|longer| - 1], n);
  }

  /** The first waiter has stored an exited child and waits for a thread that sees no exit of its own. */
  ghost predicate Blocked(w: World, s: Sys, h: nat) {
    && s.snapOpen && |s.ws| > 1 && s.ws[0].pc.Join? && s.exited == {h}
    && s.ws[0].out == Wfps(w.code(h), h, true) && s.ws[1].out.done && h in w.AllChildren()
    && (forall k :: 0 < k < |s.ws| - 1 ==> s.ws[k].pc.WaitFull?)
    && s.ws[|s.ws| - 1].pc.WaitLast?
    && (forall k :: 0 < k < |s.ws| ==> h !in s.ws[k].batch)
  }

  lemma BlockedIsStuck(w: World, s: Sys, h: nat)
    requires Blocked(w, s, h)
    ensures !CanStep(w, s)
  {
    forall k, t | 0 <= k < |s.ws|
      ensures !WaiterStep(w, s, t, k)
    {
      assert !ChildEnded(s, k);
      assert k > 0 ==> forall x :: !Signalled(s, k, x);
    }
  }

  /** s with the first waiter replaced. */
  ghost predicate FirstMoved(s: Sys, t: Sys, me: Waiter) {
    && s.ws != [] && t.ws == s.ws[0 := me]
    && t.exited == s.exited && t.snapOpen == s.snapOpen
  }

  /** The first waiter's steps after its child h has exited, up to storing it. */
  lemma FirstStores(w: World, run: seq<Sys>, h: nat) returns (longer: seq<Sys>)
    requires Run(w, run) && Inv(w, run[|run| - 1])
    requires var s := run[|run| - 1]; |s.ws| > 1 && s.ws[0].pc.WaitFull? && Signalled(s, 0, h)
    ensures Run(w, longer) && Inv(w, longer[|longer| - 1])
    ensures var s := run[|run| - 1];
      FirstMoved(s, longer[|longer| - 1], s.ws[0].(pc := StoreDone(h), out := Wfps(w.code(h), h, s.ws[0].out.done)))
  {
    var s0 := run[|run| - 1];
    var s1 := Goto(s0, 0, StoreCode(h)).(woke := true);
    assert WaiterStep(w, s0, s1, 0);
    longer := MiddleExtend(w, run, s1, 0);
    longer := FirstWrites(w, longer, h);
  }

  lemma FirstWrites(w: World, run: seq<Sys>, h: nat) returns (longer: seq<Sys>)
    requires Run(w, run) && Inv(w, run[|run| - 1])
    requires var s := run[|run| - 1]; |s.ws| > 1 && s.ws[0].pc == StoreCode(h)
    ensures Run(w, longer) && Inv(w, longer[|longer| - 1])
    ensures var s := run[|run| - 1];
      FirstMoved(s, longer[|longer| - 1], s.ws[0].(pc := StoreDone(h), out := Wfps(w.code(h), h, s.ws[0].out.done)))
  {
    var s1 := run[|run| - 1];
    longer := run;
    var s2 := Put(s1, 0, s1.ws[0].(pc := StorePid(h), out := s1.ws[0].out.(code := w.code(h))));
    longer := MiddleExtend(w, longer, s2, 0);
    var s3 := Put(s2, 0, s2.ws[0].(pc := StoreDone(h), out := s2.ws[0].out.(pid := h)));
    longer := MiddleExtend(w, longer, s3, 0);
  }

  /** And on to the join. */
  lemma FirstJoins(w: World, run: seq<Sys>, h: nat) returns (longer: seq<Sys>)
    requires Run(w, run) && Inv(w, run[|run| - 1])
    requires var s := run[|run| - 1]; |s.ws| > 1 && s.ws[0].pc == StoreDone(h)
    ensures Run(w, longer)
    ensures var s, t := run[|run| - 1], longer[|longer| - 1];
      && t.exited == s.exited && t.snapOpen == s.snapOpen
      && t.ws == s.ws[0 := s.ws[0].(pc := Join, out := s.ws[0].out.(done := true))]
                     [1 := s.ws[1].(out := s.ws[1].out.(done := true))]
  {
    var s3 := run[|run| - 1];
    var s4 := Put(s3, 0, s3.ws[0].(pc := MarkChild, out := s3.ws[0].out.(done := true)));
    longer := MiddleExtend(w, run, s4, 0);
    var s5 := Put(Goto(s4, 0, Join), 1, s4.ws[1].(out := s4.ws[1].out.(done := true)));
    longer := MiddleExtend(w, longer, s5, 0);
  }

  /** h is a child of the first batch and of no other. */
  ghost predicate FirstAlone(w: World, s: Sys, h: nat) {
    && s.ws != [] && h in s.ws[0].batch && h in w.AllChildren()
    && forall k :: 0 < k < |s.ws| ==> h !in s.ws[k].batch
  }

  lemma FirstChild(w: World, s: Sys) returns (h: nat)
    requires AllWaiting(w, s) && PidsDistinct(w) && |s.ws[0].batch| == BATCH
    ensures FirstAlone(w, s, h)
  {
    h := s.ws[0].batch[0];
    FlattenHas(Batches(s.ws), 0, h);
    ChildrenDistinct(w, |w.entries|);
    forall k | 0 < k < |s.ws|
      ensures h !in s.ws[k].batch
    {
      FirstBatchAlone(Batches(s.ws), k, h);
    }
  }

  /** The first waiter wakes for h, stores it and joins a helper that still waits. */
  lemma StuckOnExit(w: World, run: seq<Sys>, h: nat) returns (longer: seq<Sys>)
    requires Run(w, run) && AllWaiting(w, run[|run| - 1]) && FirstAlone(w, run[|run| - 1], h)
    ensures Run(w, longer) && Blocked(w, longer[|longer| - 1], h)
  {
    var s := run[|run| - 1];
    longer := ExitExtend(w, run, h);
    assert s.exited + {h} == {h};
    longer := FirstStores(w, longer, h);
    longer := FirstJoins(w, longer, h);
  }

  /**
   With more than 63 children, not a multiple of 63, waitid can be stuck although a child has exited
   and has been seen: it joins a helper that waits for the other children and does not look at done.
   */
  lemma GetsStuck(w: World) returns (run: seq<Sys>, h: nat)
    requires w.entries != [] && PidsDistinct(w)
    requires Count(w) > 63 && Count(w) % 63 != 0
    ensures Run(w, run) && Blocked(w, run[|run| - 1], h) && !CanStep(w, run[|run| - 1])
    ensures ChildHasExited(w, run[|run| - 1])
  {
    CountIsLength(w, |w.entries|);
    run := EveryoneWaits(w);
    h := FirstChild(w, run[|run| - 1]);
    run := StuckOnExit(w, run, h);
    BlockedIsStuck(w, run[|run| - 1], h);
    OpenableIsChild(w, h);
  }

  /**
   waitid goes on whenever one of the children has exited, in every run, exactly when all children
   fit into one batch or fill all batches.
   */
  lemma GoesOnExactly(w: World)
    requires w.entries != [] && PidsDistinct(w)
    ensures (forall s :: Reachable(w, s) && ChildHasExited(w, s) ==> CanStep(w, s))
      <==> Count(w) <= 63 || Count(w) % 63 == 0
  {
    if Count(w) <= 63 || Count(w) % 63 == 0 {
      forall s | Reachable(w, s) && ChildHasExited(w, s)
        ensures CanStep(w, s)
      {
        GoesOnAfterOneExit(w, s);
      }
    } else {
      var run, h := GetsStuck(w);
      var s := run[|run| - 1];
      assert Reachable(w, s) && ChildHasExited(w, s);
    }
  }

  /** Both together: waitid waits for a child, and goes on when there is one, exactly for 1 to 62 children. */
  lemma RightExactly(w: World)
    requires w.entries != [] && PidsDistinct(w)
    ensures (forall s :: !ReturnedEmpty(w, s))
         && (forall s :: Reachable(w, s) && ChildHasExited(w, s) ==> CanStep(w, s))
      <==> 1 <= Count(w) <= 62
  {
    WaitsForAChildExactly(w);
    GoesOnExactly(w);
  }
}
