/**
 The chain of ChildWait comes to an end (source/waitid.c): every step of a waiter lowers a rank, so a
 run holds a bounded number of them, and exactly when all children fit into one batch or fill all
 batches a call returns after one of them has exited.
 */
module ChildWaitEnds {
  import opened CStrings
  import opened ChildWait
  import opened ChildWaitRuns

  /** How many steps a waiter may still take where it stands, a helper that it is about to start included. */
  function Cost(pc: Pc): nat {
    match pc
    case Ended => 0
    case CloseSnap => 1
    case Finish => 2
    case LastDone(_) => 3
    case LastPid(_) => 4
    case LastCode(_) => 5
    case WaitLast => 6
    case Leave => 7
    case Next => 8
    case Check => 9
    case CloseBatch => 10
    case CopyBack => 11
    case Join => 11
    case MarkChild => 12
    case StoreDone(_) => 13
    case StorePid(_) => 14
    case StoreCode(_) => 15
    case WaitFull => 16
    case Spawn => 26
  }

  function Costs(ws: seq<Waiter>): nat {
    if ws == [] then 0 else Cost(ws[0].pc) + Costs(ws[1..])
  }

  /** What an entry of the snapshot can cost: the way from Next to Spawn, and one step. */
  const ENTRY := 19

  function Rank(w: World, s: Sys): nat
    requires s.cursor <= |w.entries|
  {
    ENTRY * (|w.entries| - s.cursor) + Costs(s.ws)
  }

  lemma {:induction false} CostsPut(ws: seq<Waiter>, k: nat, x: Waiter)
    requires k < |ws|
    ensures Costs(ws[k := x]) == Costs(ws) - Cost(ws[k].pc) + Cost(x.pc)
    decreases k
  {
    if k == 0 {
      assert ws[0 := x][1..] == ws[1..];
    } else {
      CostsPut(ws[1..], k - 1, x);
      assert ws[k := x][1..] == ws[1..][k - 1 := x];
    }
  }

  lemma {:induction false} CostsPush(ws: seq<Waiter>, x: Waiter)
    ensures Costs(ws + [x]) == Costs(ws) + Cost(x.pc)
    decreases |ws|
  {
    if ws == [] {
      assert [x][1..] == [];
    } else {
      CostsPush(ws[1..], x);
      assert (ws + [x])[1..] == ws[1..] + [x];
    }
  }

  /** A step that only replaces waiter k. */
  lemma {:induction false} PutLowers(w: World, s: Sys, t: Sys, k: nat, x: Waiter)
    requires k < |s.ws| && t.ws == s.ws[k := x] && t.cursor == s.cursor <= |w.entries|
    requires Cost(x.pc) < Cost(s.ws[k].pc)
    ensures Rank(w, t) < Rank(w, s)
  {
    CostsPut(s.ws, k, x);
  }

  lemma {:induction false} AdvanceLowers(w: World, s: Sys, k: nat)
    requires k < |s.ws| && s.ws[k].pc.Next? && s.cursor < |w.entries|
    ensures var t := Advance(w, s, k); t.cursor <= |w.entries| && Rank(w, t) < Rank(w, s)
  {
    CostsPut(s.ws, k, Advance(w, s, k).ws[k]);
  }

  lemma {:induction false} SpawnLowers(w: World, s: Sys, t: Sys, k: nat)
    requires k < |s.ws| && s.ws[k].pc.Spawn? && s.cursor <= |w.entries| && WaiterStep(w, s, t, k)
    ensures t.cursor <= |w.entries| && Rank(w, t) < Rank(w, s)
  {
    var ws := Goto(s, k, WaitFull).ws;
    CostsPut(s.ws, k, s.ws[k].(pc := WaitFull));
    CostsPush(ws, Waiter(Check, [], s.ws[k].out, false));
  }

  lemma {:induction false} MarkLowers(w: World, s: Sys, t: Sys, k: nat)
    requires k < |s.ws| && s.ws[k].pc.MarkChild? && s.cursor <= |w.entries| && WaiterStep(w, s, t, k)
    ensures t.cursor <= |w.entries| && Rank(w, t) < Rank(w, s)
  {
    var mid := Goto(s, k, Join);
    CostsPut(s.ws, k, mid.ws[k]);
    CostsPut(mid.ws, k + 1, t.ws[k + 1]);
  }

  lemma {:induction false} CloseLowers(w: World, s: Sys, t: Sys, k: nat)
    requires k < |s.ws| && s.ws[k].pc.CloseBatch? && s.cursor <= |w.entries| && WaiterStep(w, s, t, k)
    ensures t.cursor <= |w.entries| && Rank(w, t) < Rank(w, s)
  {
    var front, me, last := s.ws[..k], s.ws[k], s.ws[k + 1];
    assert s.ws == (front + [me]) + [last];
    CostsPush(front + [me], last);
    CostsPush(front, me);
    CostsPush(front, t.ws[k]);
  }

  /** Every step of a waiter lowers the rank. */
  lemma {:induction false} StepLowersRank(w: World, s: Sys, t: Sys, k: nat)
    requires k < |s.ws| && s.cursor <= |w.entries| && WaiterStep(w, s, t, k)
    ensures t.cursor <= |w.entries| && Rank(w, t) < Rank(w, s) && t.exited == s.exited
  {
    var pc := s.ws[k].pc;
    if pc.Spawn? {
      SpawnLowers(w, s, t, k);
    } else if pc.MarkChild? {
      MarkLowers(w, s, t, k);
    } else if pc.CloseBatch? {
      CloseLowers(w, s, t, k);
    } else if pc.Next? && s.cursor < |w.entries| {
      AdvanceLowers(w, s, k);
    } else {
      OtherLowers(w, s, t, k);
    }
  }

  lemma {:induction false} OtherLowers(w: World, s: Sys, t: Sys, k: nat)
    requires k < |s.ws| && s.cursor <= |w.entries| && WaiterStep(w, s, t, k)
    requires var pc := s.ws[k].pc; !pc.Spawn? && !pc.MarkChild? && !pc.CloseBatch?
    requires s.ws[k].pc.Next? ==> s.cursor == |w.entries|
    ensures t.cursor <= |w.entries| && Rank(w, t) < Rank(w, s) && t.exited == s.exited
  {
    if HasChild(s.ws[k].pc) {
      FullMoves(w, s, t, k);
    } else {
      LastMoves(w, s, t, k);
    }
    PutLowers(w, s, t, k, t.ws[k]);
  }

  lemma FullMoves(w: World, s: Sys, t: Sys, k: nat)
    requires k < |s.ws| && WaiterStep(w, s, t, k)
    requires var pc := s.ws[k].pc; HasChild(pc) && !pc.MarkChild? && !pc.CloseBatch?
    ensures |t.ws| == |s.ws| && t.ws == s.ws[k := t.ws[k]] && Cost(t.ws[k].pc) < Cost(s.ws[k].pc)
    ensures t.cursor == s.cursor && t.exited == s.exited
  {
  }

  lemma LastMoves(w: World, s: Sys, t: Sys, k: nat)
    requires k < |s.ws| && WaiterStep(w, s, t, k)
    requires var pc := s.ws[k].pc; !HasChild(pc) && !pc.Spawn? && (pc.Next? ==> s.cursor >= |w.entries|)
    ensures |t.ws| == |s.ws| && t.ws == s.ws[k := t.ws[k]] && Cost(t.ws[k].pc) < Cost(s.ws[k].pc)
    ensures t.cursor == s.cursor && t.exited == s.exited
  {
  }

  // ---------------------------------------------------------------------------------------
  // How many steps a run can hold
  // ---------------------------------------------------------------------------------------

  ghost predicate WaiterMoves(w: World, s: Sys, t: Sys) {
    exists k :: 0 <= k < |s.ws| && WaiterStep(w, s, t, k)
  }

  /** How many of the first n steps are steps of waiters. */
  ghost function Turns(w: World, run: seq<Sys>, n: nat): nat
    requires n < |run|
  {
    if n == 0 then 0 else Turns(w, run, n - 1) + if WaiterMoves(w, run[n - 1], run[n]) then 1 else 0
  }

  /** In any run the waiters take at most 19 steps for each entry of the snapshot, and 9 more. */
  lemma {:induction false} TurnsBounded(w: World, run: seq<Sys>, n: nat)
    requires Run(w, run) && n < |run|
    ensures run[n].cursor <= |w.entries|
    ensures Turns(w, run, n) + Rank(w, run[n]) <= ENTRY * |w.entries| + 9
    decreases n
  {
    if n == 0 {
      assert run[0].ws == [] + [run[0].ws[0]];
      CostsPush([], run[0].ws[0]);
    } else {
      TurnsBounded(w, run, n - 1);
      assert StepAt(w, run, n - 1);
      if WaiterMoves(w, run[n - 1], run[n]) {
        var k :| 0 <= k < |run[n - 1].ws| && WaiterStep(w, run[n - 1], run[n], k);
        StepLowersRank(w, run[n - 1], run[n], k);
      }
    }
  }

  // ---------------------------------------------------------------------------------------
  // When a call returns
  // ---------------------------------------------------------------------------------------

  /** The run goes on without another exit. */
  ghost predicate GoesOnTo(w: World, run: seq<Sys>, longer: seq<Sys>)
    requires run != []
  {
    && Run(w, longer) && run <= longer
    && longer[|longer| - 1].exited == run[|run| - 1].exited
  }

  ghost predicate Returned(run: seq<Sys>) {
    run != [] && !run[|run| - 1].snapOpen
  }

  ghost predicate CanReturn(w: World, run: seq<Sys>)
    requires run != []
  {
    exists longer :: GoesOnTo(w, run, longer) && Returned(longer)
  }

  /** All of a call that is left, by steps of waiters alone. */
  lemma {:induction false} GoesOnToReturn(w: World, run: seq<Sys>) returns (longer: seq<Sys>)
    requires Run(w, run) && ChildHasExited(w, run[|run| - 1]) && run[|run| - 1].cursor <= |w.entries|
    requires Count(w) <= 63 || Count(w) % 63 == 0
    ensures GoesOnTo(w, run, longer) && Returned(longer)
    ensures |longer| <= |run| + Rank(w, run[|run| - 1])
    decreases Rank(w, run[|run| - 1])
  {
    var s := run[|run| - 1];
    assert Reachable(w, s);
    GoesOnAfterOneExit(w, s);
    var k, t :| 0 <= k < |s.ws| && WaiterStep(w, s, t, k);
    StepLowersRank(w, s, t, k);
    Extend(w, run, t, k);
    longer := run + [t];
    if t.snapOpen {
      longer := GoesOnToReturn(w, longer);
    }
  }

  /** A call that cannot go on stays where it is until another process exits. */
  lemma {:induction false} StuckStays(w: World, run: seq<Sys>, longer: seq<Sys>, n: nat)
    requires run != [] && !CanStep(w, run[|run| - 1]) && Run(w, longer) && run <= longer
    requires |run| - 1 <= n < |longer| && longer[n].exited == run[|run| - 1].exited
    ensures longer[n] == run[|run| - 1]
    decreases n
  {
    if n >= |run| {
      assert StepAt(w, longer, n - 1);
      ExitsGrow(w, longer, |run| - 1, n - 1);
      ExitsGrow(w, longer, n - 1, n);
      StuckStays(w, run, longer, n - 1);
    }
  }

  lemma {:induction false} ExitsGrow(w: World, run: seq<Sys>, i: nat, j: nat)
    requires Run(w, run) && i <= j < |run|
    ensures run[i].exited <= run[j].exited
    decreases j
  {
    if i < j {
      ExitsGrow(w, run, i, j - 1);
      assert StepAt(w, run, j - 1);
    }
  }

  /** Every run in which a child has exited can go on to the return without another exit. */
  ghost predicate AlwaysReturns(w: World) {
    forall run :: Run(w, run) && ChildHasExited(w, run[|run| - 1]) ==> CanReturn(w, run)
  }

  /** It is so exactly when all children fit into one batch or fill all batches. */
  lemma ReturnsExactly(w: World)
    requires w.entries != [] && PidsDistinct(w)
    ensures AlwaysReturns(w) <==> Count(w) <= 63 || Count(w) % 63 == 0
  {
    if Count(w) <= 63 || Count(w) % 63 == 0 {
      forall run | Run(w, run) && ChildHasExited(w, run[|run| - 1])
        ensures CanReturn(w, run)
      {
        TurnsBounded(w, run, |run| - 1);
        var longer := GoesOnToReturn(w, run);
      }
    } else {
      var run, h := GetsStuck(w);
      var s := run[|run| - 1];
      assert ChildHasExited(w, s);
      forall longer | GoesOnTo(w, run, longer)
        ensures !Returned(longer)
      {
        StuckStays(w, run, longer, |longer| - 1);
      }
    }
  }

  /** For 1 to 62 children it returns with a report of a child that has exited. */
  lemma ReturnsWithAReport(w: World, run: seq<Sys>) returns (longer: seq<Sys>)
    requires Run(w, run) && ChildHasExited(w, run[|run| - 1]) && 1 <= Count(w) <= 62
    ensures GoesOnTo(w, run, longer) && |longer| <= |run| + ENTRY * |w.entries| + 9
    ensures var t := longer[|longer| - 1];
      && !t.snapOpen && t.report.Some?
      && Openable(w, t.report.value.pid) && t.report.value.pid in run[|run| - 1].exited
      && t.report.value.status == w.code(t.report.value.pid)
  {
    TurnsBounded(w, run, |run| - 1);
    longer := GoesOnToReturn(w, run);
    var t := longer[|longer| - 1];
    assert Reachable(w, t);
    if t.report == None {
      NoReportMeansDrained(w, t);
    }
    ReportIsOneExitedChild(w, t);
    ReportIsAChild(w, t);
  }

  lemma ReportIsAChild(w: World, s: Sys)
    requires Reachable(w, s) && !s.snapOpen && s.report.Some?
    ensures Openable(w, s.report.value.pid)
  {
    ReportIsOneExitedChild(w, s);
  }
}
