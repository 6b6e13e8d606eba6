/**
 What a caller of the passwd database can count on over whole runs (source/getpwent.c, getpwnam.c,
 getpwuid.c, setpwent.c, endpwent.c): which calls return a record, said in the system's answers and in
 the calls made before, whose static record is used, and whether it still holds its strings.
 */
module PasswdDbRules {
  import opened CStrings
  import opened PasswdDb

  /** GetUserNameW gives the user's name, at once or into a larger buffer. */
  predicate UserRead(o: Outcome) {
    && o.wide
    && match o.user
       case NameOk => true
       case NameFails => false
       case NameGrows(realloc, again) => realloc && again
  }

  /** Directory and shell: from HOME beside its parent and from SHELL, or from elsewhere. */
  predicate StringsFound(o: Outcome) {
    && (o.dirBlock || (o.homeSet && o.homeCopy && o.homeHasParent && o.homeBlock))
    && (o.shellBlock || (o.shellSet && o.shellCopy))
  }

  /** The library is loaded when call k begins. */
  predicate HasLibrary(ops: seq<Op>, k: nat)
    requires k <= |ops|
  {
    LoadedBefore(false, ops, k)
  }

  /** Call k starts a new pass: endpwent, or setpwent when the library is there. */
  predicate StartsPass(ops: seq<Op>, k: nat)
    requires k < |ops|
  {
    match ops[k]
    case EndPwEnt => true
    case SetPwEnt(dll) => dll || HasLibrary(ops, k)
    case _ => false
  }

  /** Call k is a getpwent that returned its record. */
  predicate HandsOut(ops: seq<Op>, k: nat)
    requires k < |ops|
  {
    ops[k].GetPwEnt? && Succeeds(Run(INITIAL, ops[..k]), ops[k])
  }

  /** Since the last new pass no getpwent has returned a record. */
  predicate FreshPass(ops: seq<Op>) {
    forall k :: 0 <= k < |ops| && HandsOut(ops, k) ==> exists j :: k < j < |ops| && StartsPass(ops, j)
  }

  lemma LastCall(ops: seq<Op>)
    requires ops != []
    ensures var n := |ops| - 1;
      && Run(INITIAL, ops) == Next(Run(INITIAL, ops[..n]), ops[n])
      && (Run(INITIAL, ops[..n]).handle <==> HasLibrary(ops, n))
      && forall k :: 0 <= k <= n ==> (HasLibrary(ops[..n], k) <==> HasLibrary(ops, k))
  {
    var n := |ops| - 1;
    var front, op := ops[..n], ops[n];
    assert ops == front + [op];
    RunAppend(INITIAL, front, op);
    LoadedExactly(INITIAL, front);
    forall k | 0 <= k <= n
      ensures HasLibrary(front, k) <==> HasLibrary(ops, k)
    {
      LoadedPrefix(false, front, op, k);
    }
  }

  lemma FrontCalls(ops: seq<Op>, k: nat)
    requires ops != [] && k < |ops| - 1
    ensures var front := ops[..|ops| - 1];
      (HandsOut(front, k) <==> HandsOut(ops, k)) && (StartsPass(front, k) <==> StartsPass(ops, k))
  {
    LastCall(ops);
    assert ops[..|ops| - 1][..k] == ops[..k];
  }

  /** The last call decides, or leaves the pass as it is. */
  lemma FreshStep(ops: seq<Op>)
    requires ops != []
    ensures var n := |ops| - 1;
      FreshPass(ops) <==> StartsPass(ops, n) || (FreshPass(ops[..n]) && !HandsOut(ops, n))
  {
    var n := |ops| - 1;
    var front := ops[..n];
    forall k | 0 <= k < n
      ensures HandsOut(front, k) <==> HandsOut(ops, k)
      ensures StartsPass(front, k) <==> StartsPass(ops, k)
    {
      FrontCalls(ops, k);
    }
    if FreshPass(ops) && !StartsPass(ops, n) {
      forall k | 0 <= k < n && HandsOut(front, k)
        ensures exists j :: k < j < n && StartsPass(front, j)
      {
        var j :| k < j < |ops| && StartsPass(ops, j);
      }
    }
    if StartsPass(ops, n) {
      forall k | 0 <= k < |ops| && HandsOut(ops, k)
        ensures exists j :: k < j < |ops| && StartsPass(ops, j)
      {
        assert k < n;
      }
    } else if FreshPass(front) && !HandsOut(ops, n) {
      forall k | 0 <= k < |ops| && HandsOut(ops, k)
        ensures exists j :: k < j < |ops| && StartsPass(ops, j)
      {
        var j :| k < j < n && StartsPass(front, j);
        assert StartsPass(ops, j);
      }
    }
  }

  /** The index is zero exactly in a fresh pass. */
  lemma {:induction false} IndexExactly(ops: seq<Op>)
    ensures Run(INITIAL, ops).index == 0 <==> FreshPass(ops)
    decreases |ops|
  {
    if ops != [] {
      var n := |ops| - 1;
      IndexExactly(ops[..n]);
      LastCall(ops);
      FreshStep(ops);
    }
  }

  /** getpwent returns a record exactly when the library is there, the pass is fresh, and all is found. */
  lemma GetPwEntExactly(ops: seq<Op>, o: Outcome)
    ensures Succeeds(Run(INITIAL, ops), GetPwEnt(o))
      <==> && (o.dll || HasLibrary(ops, |ops|)) && FreshPass(ops)
           && UserRead(o) && o.converts && o.nameBlock && StringsFound(o)
  {
    IndexExactly(ops);
    LoadedExactly(INITIAL, ops);
  }

  /** After a new pass has begun, getpwent hands its record out again. */
  lemma HandsOutAgain(ops: seq<Op>, o: Outcome)
    requires ops != [] && StartsPass(ops, |ops| - 1)
    requires o.dll && UserRead(o) && o.converts && o.nameBlock && StringsFound(o)
    ensures Succeeds(Run(INITIAL, ops), GetPwEnt(o))
    ensures !Succeeds(Run(INITIAL, ops + [GetPwEnt(o)]), GetPwEnt(o))
  {
    FreshStep(ops);
    GetPwEntExactly(ops, o);
    RunAppend(INITIAL, ops, GetPwEnt(o));
  }

  /** getpwnam needs no fresh pass and no user name of its own, but a known one that converts. */
  lemma GetPwNamExactly(ops: seq<Op>, known: bool, o: Outcome)
    ensures Succeeds(Run(INITIAL, ops), GetPwNam(known, o))
      <==> known && (o.dll || HasLibrary(ops, |ops|)) && o.converts && o.wide && StringsFound(o)
  {
    LoadedExactly(INITIAL, ops);
  }

  lemma GetPwUidExactly(ops: seq<Op>, mine: bool, o: Outcome)
    ensures Succeeds(Run(INITIAL, ops), GetPwUid(mine, o))
      <==> && mine && (o.dll || HasLibrary(ops, |ops|))
           && UserRead(o) && o.converts && o.nameBlock && StringsFound(o)
  {
    LoadedExactly(INITIAL, ops);
  }

  /** The other calls return no record. */
  lemma OthersReturnNothing(ops: seq<Op>, op: Op)
    requires op.SetPwEnt? || op.EndPwEnt? || op.StartReentrant?
    ensures !Succeeds(Run(INITIAL, ops), op)
  {
  }

  /** Whose static record a call brings into use when it loads the library. */
  function OwnerOf(op: Op): Option<Owner> {
    match op
    case GetPwEnt(_) => Some(OfGetpwent)
    case GetPwNam(_, _) => Some(OfGetpwnam)
    case GetPwUid(_, _) => Some(OfGetpwuid)
    case SetPwEnt(_) => Some(OfSetpwent)
    case EndPwEnt => None
    case StartReentrant(owner, _) => Some(owner)
  }

  /** Call k loads the library, and no endpwent comes after it. */
  predicate Loader(ops: seq<Op>, k: nat)
    requires k < |ops|
  {
    FindsLibrary(ops[k]) && !HasLibrary(ops, k) && NoEnd(ops, k + 1, |ops|)
  }

  /** The record in use is that of the call that loaded the library last. */
  lemma {:induction false} CurrentExactly(ops: seq<Op>)
    ensures Run(INITIAL, ops).current.Some? <==> HasLibrary(ops, |ops|)
    ensures forall k :: 0 <= k < |ops| && Loader(ops, k) ==> Run(INITIAL, ops).current == OwnerOf(ops[k])
    decreases |ops|
  {
    LoadedExactly(INITIAL, ops);
    RunIsConsistent(INITIAL, ops);
    if ops != [] {
      var n := |ops| - 1;
      var front := ops[..n];
      CurrentExactly(front);
      LastCall(ops);
      forall k | 0 <= k < |ops| && Loader(ops, k)
        ensures Run(INITIAL, ops).current == OwnerOf(ops[k])
      {
        if k < n {
          EarlierLoader(ops, k);
        } else {
          RunIsConsistent(INITIAL, front);
        }
      }
    }
  }

  lemma EarlierLoader(ops: seq<Op>, k: nat)
    requires ops != [] && k < |ops| - 1 && Loader(ops, k)
    ensures Loader(ops[..|ops| - 1], k) && HasLibrary(ops, |ops| - 1) && ops[|ops| - 1] != EndPwEnt
  {
    var n := |ops| - 1;
    LastCall(ops);
    assert NoEnd(ops, k + 1, n) && ops[n] != EndPwEnt;
    assert FindsLibrary(ops[k]) && NoEnd(ops, k + 1, n);
  }

  /** Call k frees the strings of the record in use, and fills it only if it returns it. */
  predicate Touches(ops: seq<Op>, k: nat)
    requires k < |ops|
  {
    match ops[k]
    case GetPwEnt(_) => true
    case GetPwNam(known, _) => known
    case GetPwUid(mine, _) => mine
    case SetPwEnt(_) => StartsPass(ops, k)
    case EndPwEnt => true
    case StartReentrant(_, _) => false
  }

  predicate Untouched(ops: seq<Op>, from: nat)
    requires from <= |ops|
  {
    forall j :: from <= j < |ops| ==> !Touches(ops, j)
  }

  /** Call k returned the record, and no later call touched it. */
  predicate ShownBy(ops: seq<Op>, k: nat)
    requires k < |ops|
  {
    Succeeds(Run(INITIAL, ops[..k]), ops[k]) && Untouched(ops, k + 1)
  }

  lemma ShownByFront(ops: seq<Op>, k: nat)
    requires ops != [] && k < |ops| - 1
    ensures var n := |ops| - 1; ShownBy(ops, k) <==> ShownBy(ops[..n], k) && !Touches(ops, n)
  {
    var n := |ops| - 1;
    var front := ops[..n];
    assert front[..k] == ops[..k] && front[k] == ops[k];
    forall j | 0 <= j < n
      ensures Touches(front, j) <==> Touches(ops, j)
    {
      FrontCalls(ops, j);
    }
  }

  lemma ShownByLast(ops: seq<Op>)
    requires ops != []
    ensures var n := |ops| - 1; ShownBy(ops, n) <==> Succeeds(Run(INITIAL, ops[..n]), ops[n])
  {
    assert Untouched(ops, |ops|);
  }

  /** The record in use holds strings exactly when the last call that touched it returned it. */
  lemma {:induction false} FullExactly(ops: seq<Op>)
    ensures Run(INITIAL, ops).full <==> exists k :: 0 <= k < |ops| && ShownBy(ops, k)
    decreases |ops|
  {
    if ops != [] {
      var n := |ops| - 1;
      FullExactly(ops[..n]);
      ShownStep(ops);
      FullStep(ops);
    }
  }

  lemma {:induction false} ShownStep(ops: seq<Op>)
    requires ops != []
    ensures var n := |ops| - 1;
      (exists k :: 0 <= k < |ops| && ShownBy(ops, k))
      <==> || Succeeds(Run(INITIAL, ops[..n]), ops[n])
           || (!Touches(ops, n) && exists k :: 0 <= k < n && ShownBy(ops[..n], k))
  {
    var n := |ops| - 1;
    ShownByLast(ops);
    forall k | 0 <= k < n
      ensures ShownBy(ops, k) <==> ShownBy(ops[..n], k) && !Touches(ops, n)
    {
      ShownByFront(ops, k);
    }
  }

  lemma {:induction false} FullStep(ops: seq<Op>)
    requires ops != []
    ensures var n := |ops| - 1;
      Run(INITIAL, ops).full
      <==> || Succeeds(Run(INITIAL, ops[..n]), ops[n])
           || (!Touches(ops, n) && Run(INITIAL, ops[..n]).full)
  {
    LastCall(ops);
  }
}
