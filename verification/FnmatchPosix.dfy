/**
 Where the matcher of source/fnmatch.c agrees with section 2.13 of XCU, POSIX.1-2017, and where it
 does not: brackets, a dangling backslash, a double final `*`, the final `*` under FNM_PATHNAME, and leading
 periods.
 Each answer is exact, on all strings; the witnesses are shortest strings of a pattern.
 */
module FnmatchPosix {
  import opened CStrings
  import opened Fnmatch

  // ---------------------------------------------------------------------------------------
  // Shortest strings
  // ---------------------------------------------------------------------------------------

  /** The fewest characters that the k-th token takes, in the code's reading. */
  function CodeLeast(toks: seq<Token>, k: nat): nat
    requires k < |toks|
  {
    if !toks[k].Star? || (k > 0 && k == |toks| - 1 && toks[k - 1].Star?) then 1 else 0
  }

  function Least(t: Token): nat {
    if t.Star? then 0 else 1
  }

  /** No segment of a is longer than that of b. */
  predicate Below(a: seq<string>, b: seq<string>) {
    |a| == |b| && forall k :: 0 <= k < |a| ==> |a[k]| <= |b[k]|
  }

  lemma {:induction false} FlattenBelow(a: seq<string>, b: seq<string>)
    requires Below(a, b)
    ensures |Flatten(a)| <= |Flatten(b)|
    ensures |Flatten(a)| == |Flatten(b)| ==> forall k :: 0 <= k < |a| ==> |a[k]| == |b[k]|
    decreases |a|
  {
    if a != [] {
      FlattenBelow(a[1..], b[1..]);
      if |Flatten(a)| == |Flatten(b)| {
        forall k | 0 <= k < |a|
          ensures |a[k]| == |b[k]|
        {
          assert k > 0 ==> |a[1..][k - 1]| == |b[1..][k - 1]|;
        }
      }
    }
  }

  /** Cuts of one string into pieces of the same lengths are the same, as far as the lengths agree. */
  lemma {:induction false} SameCut(a: seq<string>, b: seq<string>, n: nat)
    requires n <= |a| && n <= |b| && Flatten(a) == Flatten(b)
    requires forall k :: 0 <= k < n ==> |a[k]| == |b[k]|
    ensures forall k :: 0 <= k < n ==> a[k] == b[k]
    decreases n
  {
    if n > 0 {
      var s := Flatten(a);
      assert a[0] == s[..|a[0]|] && b[0] == s[..|b[0]|];
      assert Flatten(a[1..]) == s[|a[0]|..] && Flatten(b[1..]) == s[|b[0]|..];
      SameCut(a[1..], b[1..], n - 1);
      forall k | 0 <= k < n
        ensures a[k] == b[k]
      {
        assert k > 0 ==> a[1..][k - 1] == b[1..][k - 1];
      }
    }
  }

  /** A cut into shortest pieces is the only one of its string. */
  lemma TightIsUnique(a: seq<string>, b: seq<string>)
    requires Below(a, b) && Flatten(a) == Flatten(b)
    ensures a == b
  {
    FlattenBelow(a, b);
    SameCut(a, b, |a|);
  }

  /** A cut of the code, as it reads a pattern from the start. */
  ghost predicate Cut(toks: seq<Token>, s: string, segs: seq<string>, m: Mode) {
    CutsInto(false, true, toks, s, segs, m)
  }

  lemma CutIsLong(toks: seq<Token>, s: string, segs: seq<string>, m: Mode, k: nat)
    requires Cut(toks, s, segs, m) && k < |toks|
    ensures |segs[k]| >= CodeLeast(toks, k)
    ensures !toks[k].Star? ==> |segs[k]| == 1
  {
    assert TakesAt(false, true, toks, segs, k, m);
  }

  /** Every segment cut down to what its token needs. */
  function Tight(toks: seq<Token>, segs: seq<string>): (r: seq<string>)
    requires |segs| == |toks| && forall k :: 0 <= k < |toks| ==> CodeLeast(toks, k) <= |segs[k]|
    ensures |r| == |segs| && forall k :: 0 <= k < |r| ==> r[k] == segs[k][..CodeLeast(toks, k)]
  {
    seq(|segs|, k requires 0 <= k < |segs| => segs[k][..CodeLeast(toks, k)])
  }

  lemma TightIsCut(toks: seq<Token>, s: string, segs: seq<string>, m: Mode) returns (tight: seq<string>)
    requires !m.flags.pathname && Cut(toks, s, segs, m)
    ensures |tight| == |toks| && forall k :: 0 <= k < |toks| ==> |tight[k]| == CodeLeast(toks, k)
    ensures forall k :: 0 <= k < |toks| && !toks[k].Star? ==> tight[k] == segs[k]
    ensures Cut(toks, Flatten(tight), tight, m)
  {
    forall k | 0 <= k < |toks|
      ensures |segs[k]| >= CodeLeast(toks, k)
      ensures !toks[k].Star? ==> |segs[k]| == 1
    {
      CutIsLong(toks, s, segs, m, k);
    }
    tight := Tight(toks, segs);
    forall k | 0 <= k < |toks|
      ensures TakesAt(false, true, toks, tight, k, m)
    {
      assert TakesAt(false, true, toks, segs, k, m);
    }
  }

  /** No string of the pattern is shorter than a tight one. */
  lemma TightIsShortest(toks: seq<Token>, tight: seq<string>, s: string, segs: seq<string>, m: Mode)
    requires |tight| == |toks| && forall k :: 0 <= k < |toks| ==> |tight[k]| == CodeLeast(toks, k)
    requires Cut(toks, s, segs, m)
    ensures Below(tight, segs) && |Flatten(tight)| <= |s|
    ensures Flatten(tight) == s ==> tight == segs
  {
    forall k | 0 <= k < |toks|
      ensures |tight[k]| <= |segs[k]|
    {
      CutIsLong(toks, s, segs, m, k);
    }
    FlattenBelow(tight, segs);
    if Flatten(tight) == s {
      TightIsUnique(tight, segs);
    }
  }

  /** Another character in the place of a one-character token. */
  lemma ReplaceInCut(toks: seq<Token>, s: string, segs: seq<string>, n: nat, c: char, m: Mode)
    requires !m.flags.pathname && Cut(toks, s, segs, m) && n < |toks| && !toks[n].Star?
    requires Accepts(toks[n], [c], m) && PeriodOk(Guarded(true, toks, segs, n, m), toks[n], [c], m)
    ensures Cut(toks, Flatten(segs[n := [c]]), segs[n := [c]], m)
  {
    var segs' := segs[n := [c]];
    forall k | 0 <= k < |toks|
      ensures TakesAt(false, true, toks, segs', k, m)
    {
      assert TakesAt(false, true, toks, segs, k, m);
    }
  }

  /** The same for the token relation: every `*` can take nothing. */
  function Bare(toks: seq<Token>, segs: seq<string>): (r: seq<string>)
    requires |segs| == |toks|
    ensures |r| == |segs| && forall k :: 0 <= k < |r| ==> r[k] == if toks[k].Star? then "" else segs[k]
  {
    seq(|segs|, k requires 0 <= k < |segs| => if toks[k].Star? then "" else segs[k])
  }

  lemma BareFits(toks: seq<Token>, s: string, segs: seq<string>, m: Mode)
    requires !m.flags.pathname && FitsBy(true, toks, s, segs, m)
    ensures FitsBy(true, toks, Flatten(Bare(toks, segs)), Bare(toks, segs), m)
    ensures Below(Bare(toks, segs), segs)
    ensures forall k :: 0 <= k < |toks| ==> |Bare(toks, segs)[k]| == Least(toks[k])
  {
    var bare := Bare(toks, segs);
    forall k | 0 <= k < |toks|
      ensures FitsAt(true, toks, bare, k, m)
      ensures |bare[k]| == Least(toks[k])
    {
      assert FitsAt(true, toks, segs, k, m);
    }
  }

  // ---------------------------------------------------------------------------------------
  // Patterns that match something
  // ---------------------------------------------------------------------------------------

  /** Some character that the token accepts and that, at a guarded place, it may take. */
  ghost predicate Takes(t: Token, guarded: bool, m: Mode) {
    exists c :: Accepts(t, [c], m) && PeriodOk(guarded, t, [c], m)
  }

  /** The k-th place is guarded, as the tokens alone tell. */
  predicate GuardedPlace(toks: seq<Token>, k: nat, m: Mode)
    requires k < |toks|
  {
    k == 0 || toks[k - 1].Star? || (m.flags.pathname && toks[k - 1] == Lit('/'))
  }

  /** Every token but a `*` has a character to take at its place. */
  ghost predicate Possible(toks: seq<Token>, m: Mode) {
    forall k :: 0 <= k < |toks| && !toks[k].Star? ==> Takes(toks[k], GuardedPlace(toks, k, m), m)
  }

  /** One character for a token. */
  ghost function SampleOf(t: Token, guarded: bool, m: Mode): (r: string)
    requires t.Star? || Takes(t, guarded, m)
    ensures |r| == 1 && PeriodOk(guarded, t, r, m) && (if t.Star? then r == "x" else Accepts(t, r, m))
  {
    if t.Star? then "x" else var c :| Accepts(t, [c], m) && PeriodOk(guarded, t, [c], m); [c]
  }

  /** One character for every token, where `places` tells the guarded ones. */
  ghost function Sample(toks: seq<Token>, places: seq<bool>, m: Mode): (r: seq<string>)
    requires |places| == |toks| && forall k :: 0 <= k < |toks| ==> toks[k].Star? || Takes(toks[k], places[k], m)
    ensures |r| == |toks| && forall k :: 0 <= k < |toks| ==> r[k] == SampleOf(toks[k], places[k], m)
  {
    seq(|toks|, k requires 0 <= k < |toks| => SampleOf(toks[k], places[k], m))
  }

  function Places(toks: seq<Token>, m: Mode): (r: seq<bool>)
    ensures |r| == |toks| && forall k :: 0 <= k < |toks| ==> r[k] == GuardedPlace(toks, k, m)
  {
    seq(|toks|, k requires 0 <= k < |toks| => GuardedPlace(toks, k, m))
  }

  /** Whatever the tokens take, they guard the same places: only a literal slash takes a slash. */
  lemma PlacesAgree(toks: seq<Token>, segs: seq<string>, k: nat, m: Mode)
    requires k < |toks| == |segs| && (m.flags.pathname ==> SlashAlone(m))
    requires k > 0 && !toks[k - 1].Star? ==> Accepts(toks[k - 1], segs[k - 1], m)
    ensures Guarded(true, toks, segs, k, m) == GuardedPlace(toks, k, m)
  {
    if k > 0 && m.flags.pathname && toks[k - 1].Lit? {
      var c := segs[k - 1][0];
      assert m.MatchChar(toks[k - 1].c, c) && segs[k - 1] == [c];
    }
  }

  /** Segments that the tokens take show that each can take something. */
  lemma FitIsPossible(toks: seq<Token>, segs: seq<string>, m: Mode)
    requires |segs| == |toks| && (m.flags.pathname ==> SlashAlone(m))
    requires forall k :: 0 <= k < |toks| && !toks[k].Star? ==> FitsAt(true, toks, segs, k, m)
    ensures Possible(toks, m)
  {
    forall k | 0 <= k < |toks| && !toks[k].Star?
      ensures Takes(toks[k], GuardedPlace(toks, k, m), m)
    {
      assert FitsAt(true, toks, segs, k, m);
      assert k > 0 && !toks[k - 1].Star? ==> FitsAt(true, toks, segs, k - 1, m);
      PlacesAgree(toks, segs, k, m);
      assert segs[k] == [segs[k][0]];
    }
  }

  lemma SampleFits(toks: seq<Token>, m: Mode) returns (segs: seq<string>)
    requires (m.flags.pathname ==> SlashAlone(m)) && Possible(toks, m)
    ensures FitsBy(true, toks, Flatten(segs), segs, m) && Cut(toks, Flatten(segs), segs, m)
  {
    segs := Sample(toks, Places(toks, m), m);
    forall k | 0 <= k < |toks|
      ensures FitsAt(true, toks, segs, k, m) && TakesAt(false, true, toks, segs, k, m)
    {
      assert k > 0 ==> segs[k - 1] == SampleOf(toks[k - 1], Places(toks, m)[k - 1], m);
      PlacesAgree(toks, segs, k, m);
    }
  }

  /** Under every combination of flags, a string fits exactly when every token can take something. */
  lemma FitsSomethingExactly(toks: seq<Token>, m: Mode)
    requires m.flags.pathname ==> SlashAlone(m)
    ensures (exists s :: Fits(true, toks, s, m)) <==> Possible(toks, m)
  {
    if s :| Fits(true, toks, s, m) {
      var segs :| FitsBy(true, toks, s, segs, m);
      FitIsPossible(toks, segs, m);
    }
    if Possible(toks, m) {
      var segs := SampleFits(toks, m);
      assert Fits(true, toks, Flatten(segs), m);
    }
  }

  /** And so does the code match one. */
  lemma MatchesSomethingExactly(p: string, m: Mode)
    requires m.flags.pathname ==> SlashAlone(m)
    ensures (exists s :: Matches(p, s, None, m)) <==> Possible(Tokens(p, m.flags.noescape), m)
  {
    var toks := Tokens(p, m.flags.noescape);
    if s :| Matches(p, s, None, m) {
      MatchesIffDecomposes(p, s, None, m);
      var segs :| CutsInto(false, true, toks, s, segs, m);
      forall k | 0 <= k < |toks| && !toks[k].Star?
        ensures FitsAt(true, toks, segs, k, m)
      {
        assert TakesAt(false, true, toks, segs, k, m);
      }
      FitIsPossible(toks, segs, m);
    }
    if Possible(toks, m) {
      var segs := SampleFits(toks, m);
      MatchesIffDecomposes(p, Flatten(segs), None, m);
    }
  }

  // ---------------------------------------------------------------------------------------
  // A pattern that ends in two stars
  // ---------------------------------------------------------------------------------------

  function OneMore(toks: seq<Token>): seq<Token>
    requires toks != []
  {
    toks[..|toks| - 1] + [Any, Star]
  }

  lemma OneMoreFromTwoStars(toks: seq<Token>, s: string, m: Mode)
    requires !m.flags.pathname && !m.flags.period && EndsInTwoStars(toks)
    ensures Decomposes(false, true, toks, s, m) ==> Fits(true, OneMore(toks), s, m)
  {
    if Decomposes(false, true, toks, s, m) {
      var segs :| CutsInto(false, true, toks, s, segs, m);
      var more, n := OneMore(toks), |toks|;
      assert TakesAt(false, true, toks, segs, n - 1, m);
      var front, last := segs[..n - 1], segs[n - 1];
      FlattenAppend(front, [last]);
      FlattenAppend(front, [[last[0]], last[1..]]);
      FlattenOne(last);
      FlattenTwo([last[0]], last[1..]);
      assert segs == front + [last];
      var segs' := front + [[last[0]], last[1..]];
      forall k | 0 <= k < |more|
        ensures FitsAt(true, more, segs', k, m)
      {
        if k < n - 1 {
          assert TakesAt(false, true, toks, segs, k, m);
        }
      }
      assert FitsBy(true, more, s, segs', m);
    }
  }

  /** The segments of `?` and the last `*` make one segment for the last `*` alone. */
  lemma MergeLast(toks: seq<Token>, s: string, segs': seq<string>, m: Mode) returns (segs: seq<string>)
    requires !m.flags.pathname && !m.flags.period && EndsInTwoStars(toks) && FitsBy(true, OneMore(toks), s, segs', m)
    ensures CutsInto(false, true, toks, s, segs, m)
  {
    var more, n := OneMore(toks), |toks|;
    assert FitsAt(true, more, segs', n - 1, m);
    var front, c, last := segs'[..n - 1], segs'[n - 1], segs'[n];
    FlattenAppend(front, [c, last]);
    FlattenAppend(front, [c + last]);
    FlattenOne(c + last);
    FlattenTwo(c, last);
    assert segs' == front + [c, last];
    segs := front + [c + last];
    forall k | 0 <= k < n
      ensures TakesAt(false, true, toks, segs, k, m)
    {
      if k < n - 1 {
        assert FitsAt(true, more, segs', k, m);
      }
    }
  }

  lemma TwoStarsFromOneMore(toks: seq<Token>, s: string, m: Mode)
    requires !m.flags.pathname && !m.flags.period && EndsInTwoStars(toks) && Fits(true, OneMore(toks), s, m)
    ensures Decomposes(false, true, toks, s, m)
  {
    var segs' :| FitsBy(true, OneMore(toks), s, segs', m);
    var segs := MergeLast(toks, s, segs', m);
  }

  /** A pattern that ends in two stars is read as if a `?` stood before the last one. */
  lemma TwoStarsTakeOneMore(p: string, s: string, m: Mode)
    requires !m.flags.period && !m.flags.pathname
    requires EndsInTwoStars(Tokens(p, m.flags.noescape))
    ensures Matches(p, s, None, m) <==> Fits(true, OneMore(Tokens(p, m.flags.noescape)), s, m)
  {
    var toks := Tokens(p, m.flags.noescape);
    MatchesIffDecomposes(p, s, None, m);
    OneMoreFromTwoStars(toks, s, m);
    if Fits(true, OneMore(toks), s, m) {
      TwoStarsFromOneMore(toks, s, m);
    }
  }

  lemma FlattenOne(a: string)
    ensures Flatten([a]) == a
  {
    assert [a][1..] == [];
  }

  lemma FlattenTwo(a: string, b: string)
    ensures Flatten([a, b]) == a + b
  {
    assert [a, b][1..] == [b];
    FlattenOne(b);
  }

  /** A shortest string that fits a pattern ending in two stars leaves the last one nothing. */
  lemma SomeStringIsMissed(toks: seq<Token>, s: string, m: Mode) returns (t: string)
    requires !m.flags.pathname && EndsInTwoStars(toks) && Fits(true, toks, s, m)
    ensures Fits(true, toks, t, m) && !Decomposes(false, true, toks, t, m)
  {
    var segs :| FitsBy(true, toks, s, segs, m);
    var bare := Bare(toks, segs);
    BareFits(toks, s, segs, m);
    t := Flatten(bare);
    if Decomposes(false, true, toks, t, m) {
      var cut :| CutsInto(false, true, toks, t, cut, m);
      forall k | 0 <= k < |toks|
        ensures |bare[k]| <= |cut[k]|
      {
        CutIsLong(toks, t, cut, m, k);
      }
      TightIsUnique(bare, cut);
      CutIsLong(toks, t, cut, m, |toks| - 1);
      assert false;
    }
  }

  // ---------------------------------------------------------------------------------------
  // Brackets
  // ---------------------------------------------------------------------------------------

  /**
   The list of a bracket as POSIX reads it: a first `]` is a member, or starts a range. A range from
   `]` that would be empty is taken to make the bracket invalid, which POSIX leaves open.
   */
  function ReadPosixItems(p: string, m: Mode): (r: Items)
    ensures r.Items? ==> |r.rest| < |p|
  {
    if p == "" || p[0] != ']' then ReadItems(p)
    else if !RangeAhead(p) then Add(One(']'), ReadItems(p[1..]))
    else if m.InRange(']', ']', p[2]) then Add(Range(']', p[2]), ReadItems(p[3..]))
    else NoEnd
  }

  /**
   The tokens of a pattern as POSIX reads it: a `[` that opens no bracket stands for itself, and a
   backslash that ends the pattern unescaped makes it match nothing.
   */
  function PosixTokens(p: string, m: Mode): (r: seq<Token>)
    ensures r == [] <==> p == ""
    decreases |p|
  {
    if p == "" then []
    else if p[0] == '*' then [Star] + PosixTokens(p[1..], m)
    else if p[0] == '?' then [Any] + PosixTokens(p[1..], m)
    else if p[0] == '[' then
      var r := ReadPosixItems(Inside(p[1..]), m);
      if r.NoEnd? then [Lit('[')] + PosixTokens(p[1..], m)
      else [Bracket(Negated(p[1..]), r.items)] + PosixTokens(r.rest, m)
    else if Dangling(p, m.flags.noescape) then [Never]
    else
      var q := Unescape(p, m.flags.noescape);
      [Lit(q[0])] + PosixTokens(q[1..], m)
  }

  /**
   Every `[` that is read as such opens a closed bracket whose list does not begin with `]`, and no
   backslash is left dangling.
   */
  predicate SameReading(p: string, noescape: bool)
    decreases |p|
  {
    if p == "" then true
    else if p[0] == '*' || p[0] == '?' then SameReading(p[1..], noescape)
    else if p[0] == '[' then
      var q := Inside(p[1..]);
      var r := ReadItems(q);
      r.Items? && q[0] != ']' && SameReading(r.rest, noescape)
    else !Dangling(p, noescape) && SameReading(Unescape(p, noescape)[1..], noescape)
  }

  lemma {:induction false} SameTokens(p: string, m: Mode)
    requires SameReading(p, m.flags.noescape)
    ensures PosixTokens(p, m) == Tokens(p, m.flags.noescape)
    decreases |p|
  {
    if p == "" {
    } else if p[0] == '*' || p[0] == '?' {
      SameTokens(p[1..], m);
    } else if p[0] == '[' {
      SameTokens(ReadItems(Inside(p[1..])).rest, m);
    } else {
      SameTokens(Unescape(p, m.flags.noescape)[1..], m);
    }
  }

  /** A token that accepts nothing. */
  predicate Dead(t: Token) {
    t.Never? || t == Bracket(false, [])
  }

  /** One of the tokens accepts nothing, or the code's anything while the one of POSIX rejects `]`. */
  predicate Deviates(c: Token, x: Token, m: Mode) {
    Dead(c) || Dead(x) || (c == Bracket(true, []) && !x.Star? && !Accepts(x, "]", m))
  }

  lemma BracketDeviates(p: string, m: Mode)
    requires p != "" && p[0] == '[' && !m.MatchChar('[', ']')
    requires var q := Inside(p[1..]); ReadItems(q).NoEnd? || q[0] == ']'
    ensures Deviates(Tokens(p, m.flags.noescape)[0], PosixTokens(p, m)[0], m)
  {
    var q := Inside(p[1..]);
    var x := PosixTokens(p, m)[0];
    if ReadItems(q).Items? {
      var r := ReadPosixItems(q, m);
      if r.Items? {
        assert ItemAccepts(r.items[0], ']', m);
        assert AnyAccepts(r.items, "]"[0], m);
      }
    }
  }

  /** Where the two readings part. */
  lemma {:induction false} FirstDifference(p: string, m: Mode)
    returns (front: seq<Token>, c: Token, x: Token, ct: seq<Token>, pt: seq<Token>)
    requires !SameReading(p, m.flags.noescape) && !m.MatchChar('[', ']')
    ensures Tokens(p, m.flags.noescape) == front + [c] + ct && PosixTokens(p, m) == front + [x] + pt
    ensures Deviates(c, x, m)
    decreases |p|
  {
    var toks, ptoks := Tokens(p, m.flags.noescape), PosixTokens(p, m);
    if p[0] == '[' && var q := Inside(p[1..]); ReadItems(q).NoEnd? || q[0] == ']' {
      BracketDeviates(p, m);
      front, c, x, ct, pt := [], toks[0], ptoks[0], toks[1..], ptoks[1..];
    } else if Dangling(p, m.flags.noescape) {
      front, c, x, ct, pt := [], toks[0], Never, toks[1..], [];
    } else {
      var rest := SameFirst(p, m);
      front, c, x, ct, pt := FirstDifference(rest, m);
      Assoc([toks[0]], front + [c], ct);
      Assoc([toks[0]], front, [c]);
      Assoc([toks[0]], front + [x], pt);
      Assoc([toks[0]], front, [x]);
      front := [toks[0]] + front;
    }
  }

  /** Both readings begin with the same token, and what follows it still differs. */
  lemma SameFirst(p: string, m: Mode) returns (rest: string)
    requires !SameReading(p, m.flags.noescape) && !Dangling(p, m.flags.noescape)
    requires p[0] == '[' ==> var q := Inside(p[1..]); ReadItems(q).Items? && q[0] != ']'
    ensures |rest| < |p| && !SameReading(rest, m.flags.noescape)
    ensures Tokens(p, m.flags.noescape) == [Tokens(p, m.flags.noescape)[0]] + Tokens(rest, m.flags.noescape)
    ensures PosixTokens(p, m) == [Tokens(p, m.flags.noescape)[0]] + PosixTokens(rest, m)
  {
    rest :=
      if p[0] == '*' || p[0] == '?' then p[1..]
      else if p[0] == '[' then ReadItems(Inside(p[1..])).rest
      else Unescape(p, m.flags.noescape)[1..];
  }

  lemma DeadMatchesNothing(front: seq<Token>, c: Token, ct: seq<Token>, s: string, m: Mode)
    requires Dead(c)
    ensures !Decomposes(false, true, front + [c] + ct, s, m)
  {
    var toks := front + [c] + ct;
    assert toks[|front|] == c;
    forall segs
      ensures !CutsInto(false, true, toks, s, segs, m)
    {
      if |segs| == |toks| {
        DeadTakesNothing(toks, segs, |front|, m);
      }
    }
  }

  lemma DeadTakesNothing(toks: seq<Token>, segs: seq<string>, k: nat, m: Mode)
    requires k < |toks| == |segs| && Dead(toks[k])
    ensures !TakesAt(false, true, toks, segs, k, m)
  {
  }

  lemma DeadFitsNothing(front: seq<Token>, x: Token, pt: seq<Token>, s: string, m: Mode)
    requires Dead(x)
    ensures !Fits(true, front + [x] + pt, s, m)
  {
    var toks := front + [x] + pt;
    assert toks[|front|] == x;
    forall segs
      ensures !FitsBy(true, toks, s, segs, m)
    {
      assert |segs| == |toks| ==> !FitsAt(true, toks, segs, |front|, m);
    }
  }

  /** A shortest string of the pattern with `]` where the readings part. */
  lemma ClosingWitness(front: seq<Token>, ct: seq<Token>, s: string, m: Mode) returns (w: seq<string>)
    requires !m.flags.pathname && !m.flags.period
    requires Decomposes(false, true, front + [Bracket(true, [])] + ct, s, m)
    ensures var toks := front + [Bracket(true, [])] + ct;
      && Cut(toks, Flatten(w), w, m) && w[|front|] == "]"
      && forall k :: 0 <= k < |toks| ==> |w[k]| == CodeLeast(toks, k)
  {
    var toks := front + [Bracket(true, [])] + ct;
    var segs :| CutsInto(false, true, toks, s, segs, m);
    var tight := TightIsCut(toks, s, segs, m);
    var n := |front|;
    assert toks[n] == Bracket(true, []);
    ReplaceInCut(toks, Flatten(tight), tight, n, ']', m);
    w := tight[n := "]"];
  }

  /** The relation of POSIX fits w too, but then a shorter string as well. */
  lemma PosixIsShorter(front: seq<Token>, ct: seq<Token>, x: Token, pt: seq<Token>, w: seq<string>, m: Mode)
    returns (t: string)
    requires !m.flags.pathname && !m.flags.period && !x.Star? && !Accepts(x, "]", m)
    requires var toks := front + [Bracket(true, [])] + ct;
      && |w| == |toks| && w[|front|] == "]"
      && forall k :: 0 <= k < |toks| ==> |w[k]| == CodeLeast(toks, k)
    requires Fits(true, front + [x] + pt, Flatten(w), m)
    ensures Fits(true, front + [x] + pt, t, m) && |t| < |Flatten(w)|
  {
    var toks, ptoks, n := front + [Bracket(true, [])] + ct, front + [x] + pt, |front|;
    var segs :| FitsBy(true, ptoks, Flatten(w), segs, m);
    BareFits(ptoks, Flatten(w), segs, m);
    var bare := Bare(ptoks, segs);
    FlattenBelow(bare, segs);
    t := Flatten(bare);
    if |t| == |Flatten(w)| {
      forall k | 0 <= k < n + 1
        ensures |w[k]| == |segs[k]|
      {
        assert k < n ==> toks[k] == front[k] == ptoks[k];
        assert toks[n] == Bracket(true, []) && ptoks[n] == x;
      }
      SameCut(w, segs, n + 1);
      ClosingRejected(ptoks, segs, n, m);
      assert false;
    }
  }

  lemma ClosingRejected(toks: seq<Token>, segs: seq<string>, k: nat, m: Mode)
    requires k < |toks| == |segs| && segs[k] == "]" && !Accepts(toks[k], "]", m)
    ensures !FitsAt(true, toks, segs, k, m)
  {
  }

  /** A pattern that is read differently, and that matches something, disagrees on some string. */
  lemma ReadingsDisagree(p: string, s: string, m: Mode) returns (t: string)
    requires !m.flags.pathname && !m.flags.period && !m.MatchChar('[', ']')
    requires !SameReading(p, m.flags.noescape) && Matches(p, s, None, m)
    ensures Matches(p, t, None, m) != Fits(true, PosixTokens(p, m), t, m)
  {
    var front, c, x, ct, pt := FirstDifference(p, m);
    var toks := Tokens(p, m.flags.noescape);
    MatchesIffDecomposes(p, s, None, m);
    if Dead(c) {
      DeadMatchesNothing(front, c, ct, s, m);
      assert false;
    } else if Dead(x) {
      DeadFitsNothing(front, x, pt, s, m);
      t := s;
    } else {
      var w := ClosingWitness(front, ct, s, m);
      t := Flatten(w);
      MatchesIffDecomposes(p, t, None, m);
      if Fits(true, PosixTokens(p, m), t, m) {
        t := PosixIsShorter(front, ct, x, pt, w, m);
        MatchesIffDecomposes(p, t, None, m);
        if Decomposes(false, true, toks, t, m) {
          var segs :| CutsInto(false, true, toks, t, segs, m);
          TightIsShortest(toks, w, t, segs, m);
          assert false;
        }
      }
    }
  }

  lemma TwoStarsDisagree(p: string, s: string, m: Mode) returns (t: string)
    requires !m.flags.pathname && !m.flags.period
    requires SameReading(p, m.flags.noescape) && EndsInTwoStars(Tokens(p, m.flags.noescape))
    requires Fits(true, PosixTokens(p, m), s, m)
    ensures Matches(p, t, None, m) != Fits(true, PosixTokens(p, m), t, m)
  {
    SameTokens(p, m);
    t := SomeStringIsMissed(Tokens(p, m.flags.noescape), s, m);
    MatchesIffDecomposes(p, t, None, m);
  }

  /** fnmatch gives the answer of POSIX for every string. */
  ghost predicate Agrees(p: string, m: Mode) {
    forall s :: Matches(p, s, None, m) <==> Fits(true, PosixTokens(p, m), s, m)
  }

  /**
   Without FNM_PATHNAME and FNM_PERIOD, fnmatch agrees with POSIX on every string for exactly those
   patterns whose brackets are all closed, none of them beginning with `]`, and that end neither in a
   dangling backslash nor in two stars (or that match nothing in either reading).
   */
  lemma AgreesWithPosixExactly(p: string, m: Mode)
    requires !m.flags.period && !m.flags.pathname && !m.MatchChar('[', ']')
    ensures Agrees(p, m)
      <==> || (SameReading(p, m.flags.noescape) && !EndsInTwoStars(Tokens(p, m.flags.noescape)))
           || (!Possible(Tokens(p, m.flags.noescape), m) && !Possible(PosixTokens(p, m), m))
  {
    var toks, ptoks := Tokens(p, m.flags.noescape), PosixTokens(p, m);
    MatchesSomethingExactly(p, m);
    FitsSomethingExactly(ptoks, m);
    if SameReading(p, m.flags.noescape) {
      SameTokens(p, m);
      if !EndsInTwoStars(toks) {
        forall s
          ensures Matches(p, s, None, m) <==> Fits(true, ptoks, s, m)
        {
          MatchesIffFits(p, s, m);
        }
      } else if Possible(ptoks, m) {
        var s :| Fits(true, ptoks, s, m);
        var t := TwoStarsDisagree(p, s, m);
      } else {
        NothingToMatch(p, m);
      }
    } else if Possible(toks, m) {
      var s :| Matches(p, s, None, m);
      var t := ReadingsDisagree(p, s, m);
    } else {
      NothingToMatch(p, m);
    }
  }

  /** If the code matches nothing, it agrees exactly when POSIX does not either. */
  lemma NothingToMatch(p: string, m: Mode)
    requires !m.flags.period && !m.flags.pathname && !Possible(Tokens(p, m.flags.noescape), m)
    ensures Agrees(p, m) <==> !Possible(PosixTokens(p, m), m)
  {
    var ptoks := PosixTokens(p, m);
    MatchesSomethingExactly(p, m);
    FitsSomethingExactly(ptoks, m);
    forall s
      ensures !Matches(p, s, None, m)
    {
    }
    if Possible(ptoks, m) {
      var s :| Fits(true, ptoks, s, m);
      assert !Agrees(p, m) by {
        assert !Matches(p, s, None, m);
      }
    } else {
      forall s
        ensures !Fits(true, ptoks, s, m)
      {
      }
    }
  }

  /** The smallest disagreement over stars: `a**` does not match `a`. */
  lemma TwoStarsMissExhausted(m: Mode)
    requires !m.flags.period && !m.flags.pathname
    ensures !Matches("a**", "a", None, m)
    ensures Fits(true, PosixTokens("a**", m), "a", m)
  {
    var toks := PosixTokens("a**", m);
    assert "a**"[1..] == "**" && "**"[1..] == "*" && "*"[1..] == "" && "a"[1..] == "";
    assert toks == [Lit('a'), Star, Star];
    assert Matches("a**", "a", None, m) == Matches("**", "", Some('a'), m);
    FlattenTwo("", "");
    assert ["a", "", ""][1..] == ["", ""];
    assert FitsBy(true, toks, "a", ["a", "", ""], m);
  }

  /** Over brackets: `[]a]` does not match `]`, and `[` does not match itself. */
  lemma BracketsMissMembers(m: Mode)
    requires !m.flags.period && !m.flags.pathname
    ensures !Matches("[]a]", "]", None, m) && Fits(true, PosixTokens("[]a]", m), "]", m)
    ensures !Matches("[", "[", None, m) && Fits(true, PosixTokens("[", m), "[", m)
  {
    assert "[]a]"[1..] == "]a]" && "]a]"[1..] == "a]" && "a]"[1..] == "]" && "]"[1..] == "" && "["[1..] == "";
    assert ReadItems("]") == Items([], "");
    assert ReadItems("a]") == Items([One('a')], "");
    assert ReadPosixItems("]a]", m) == Items([One(']'), One('a')], "");
    assert PosixTokens("[]a]", m) == [Bracket(false, [One(']'), One('a')])];
    FitsChar(true, PosixTokens("[]a]", m), "]", m);
    assert ItemAccepts([One(']'), One('a')][0], ']', m);
    FitsNil(false, "", m);
    FitsChar(true, PosixTokens("[", m), "[", m);
  }

  /** Over escapes: a lone backslash, which for POSIX matches nothing, matches itself. */
  lemma DanglingMatchesItself(p: string, m: Mode)
    requires p == "\\" && !m.flags.noescape
    ensures Matches(p, p, None, m) && forall s :: !Fits(true, PosixTokens(p, m), s, m)
  {
    assert p[1..] == "";
    assert Unescape(p, false) == p;
    assert PosixTokens(p, m) == [] + [Never] + [];
    forall s
      ensures !Fits(true, PosixTokens(p, m), s, m)
    {
      DeadFitsNothing([], Never, [], s, m);
    }
  }

  // ---------------------------------------------------------------------------------------
  // The final `*` under FNM_PATHNAME
  // ---------------------------------------------------------------------------------------

  lemma {:induction false} SplitGrows(s: string)
    ensures |Split(s + "/", '/')| == |Split(s, '/')| + 1
    decreases |s|
  {
    if s == "" {
      assert s + "/" == "/" && "/"[1..] == "";
    } else {
      assert (s + "/")[1..] == s[1..] + "/";
      SplitGrows(s[1..]);
    }
  }

  /** A final `*` takes one character more, whatever it is. */
  lemma GrowLast(toks: seq<Token>, s: string, segs: seq<string>, c: char, m: Mode)
    requires EndsInStar(toks) && Cut(toks, s, segs, m)
    ensures Decomposes(false, true, toks, s + [c], m)
  {
    var n := |toks| - 1;
    var last := segs[n];
    var segs' := segs[n := last + [c]];
    assert segs == segs[..n] + [last] && segs' == segs[..n] + [last + [c]];
    FlattenAppend(segs[..n], [last]);
    FlattenAppend(segs[..n], [last + [c]]);
    FlattenOne(last);
    FlattenOne(last + [c]);
    Assoc(Flatten(segs[..n]), last, [c]);
    forall k | 0 <= k < |toks|
      ensures TakesAt(false, true, toks, segs', k, m)
    {
      assert TakesAt(false, true, toks, segs, k, m);
    }
    assert CutsInto(false, true, toks, s + [c], segs', m);
  }

  /** Pattern and string have equally many components, and each pair matches. */
  ghost predicate Componentwise(p: string, s: string, m: Mode) {
    FitsEach(true, Split(Tokens(p, m.flags.noescape), Lit('/')), Split(s, '/'), Plain(m))
  }

  /** A pattern that ends in a star and matches something gives a wrong answer, if not for s then for s with a slash. */
  lemma FinalStarDisagrees(p: string, s: string, m: Mode)
    requires m.flags.pathname && EndsInStar(Tokens(p, m.flags.noescape)) && Matches(p, s, None, m)
    ensures Matches(p, s + "/", None, m) && |Split(s + "/", '/')| == |Split(s, '/')| + 1
  {
    var toks := Tokens(p, m.flags.noescape);
    MatchesIffDecomposes(p, s, None, m);
    var segs :| CutsInto(false, true, toks, s, segs, m);
    GrowLast(toks, s, segs, '/', m);
    MatchesIffDecomposes(p, s + "/", None, m);
    SplitGrows(s);
  }

  /**
   Under FNM_PATHNAME, with or without FNM_PERIOD, fnmatch works component by component for every
   string exactly when the last token is not a `*` (or some token has nothing to take): a final `*`
   takes slashes.
   */
  lemma ComponentwiseExactly(p: string, m: Mode)
    requires m.flags.pathname && SlashAlone(m)
    ensures (forall s :: Matches(p, s, None, m) <==> Componentwise(p, s, m))
      <==> !EndsInStar(Tokens(p, m.flags.noescape)) || !Possible(Tokens(p, m.flags.noescape), m)
  {
    var toks := Tokens(p, m.flags.noescape);
    MatchesSomethingExactly(p, m);
    if !EndsInStar(toks) {
      forall s
        ensures Matches(p, s, None, m) <==> Componentwise(p, s, m)
      {
        PathnameIsComponentwise(p, s, m);
      }
    } else if Possible(toks, m) {
      var s :| Matches(p, s, None, m);
      FinalStarDisagrees(p, s, m);
      assert !Componentwise(p, s, m) || !Componentwise(p, s + "/", m);
    } else {
      FitsSomethingExactly(toks, m);
      forall s
        ensures !Matches(p, s, None, m) && !Componentwise(p, s, m)
      {
        FitsComponentwise(true, toks, s, m);
      }
    }
  }

  /** The smallest case: `a*` matches `a/b`, which has a component more. */
  lemma FinalStarTakesSlash(m: Mode)
    requires m.flags.pathname
    ensures Matches("a*", "a/b", None, m) && !Componentwise("a*", "a/b", m)
  {
    assert "a*"[1..] == "*" && "*"[1..] == "" && "a/b"[1..] == "/b" && "/b"[1..] == "b" && "b"[1..] == "";
    assert Tokens("a*", m.flags.noescape) == [Lit('a'), Star];
    assert [Lit('a'), Star][1..] == [Star] && [Star][1..] == [];
    assert |Split([Lit('a'), Star], Lit('/'))| == 1;
    assert |Split("a/b", '/')| == 2;
  }

  // ---------------------------------------------------------------------------------------
  // FNM_PERIOD
  // ---------------------------------------------------------------------------------------

  function WithoutPeriod(m: Mode): Mode {
    m.(flags := m.flags.(period := false))
  }

  /** POSIX: a leading period is matched only by a period that begins the pattern. */
  predicate PeriodExplicit(toks: seq<Token>, s: string) {
    s != "" && s[0] == '.' ==> toks != [] && toks[0] == Lit('.')
  }

  /** What the flag should do: the match without it, and leading periods explicit. */
  ghost predicate PosixPeriod(p: string, s: string, m: Mode) {
    Matches(p, s, None, WithoutPeriod(m)) && PeriodExplicit(Tokens(p, m.flags.noescape), s)
  }

  /** A token that the flag makes reject a period although it is not at the start. */
  predicate Unsafe(toks: seq<Token>, k: nat, m: Mode)
    requires k < |toks|
  {
    k > 0 && toks[k - 1].Star? && !toks[k].Star? && toks[k] != Lit('.') && Accepts(toks[k], ".", m)
  }

  /** No `*` at the start, and behind a `*` no token that would take a period, a literal one apart. */
  predicate PeriodSafe(toks: seq<Token>, m: Mode) {
    && (toks == [] || !toks[0].Star?)
    && forall k :: 0 <= k < |toks| ==> !Unsafe(toks, k, m)
  }

  lemma AcceptsSame(t: Token, seg: string, m: Mode)
    ensures Accepts(t, seg, m) == Accepts(t, seg, WithoutPeriod(m))
  {
    if t.Bracket? && |seg| == 1 {
      forall k | 0 <= k < |t.items|
        ensures ItemAccepts(t.items[k], seg[0], m) == ItemAccepts(t.items[k], seg[0], WithoutPeriod(m))
      {
      }
    }
  }

  /** A cut with the flag is a cut without it that minds the guarded places. */
  lemma PeriodCut(toks: seq<Token>, s: string, segs: seq<string>, m: Mode)
    requires |segs| == |toks|
    ensures Cut(toks, s, segs, m)
      <==> && Cut(toks, s, segs, WithoutPeriod(m))
           && forall k :: 0 <= k < |toks| ==> PeriodOk(Guarded(true, toks, segs, k, m), toks[k], segs[k], m)
  {
    forall k | 0 <= k < |toks|
      ensures TakesAt(false, true, toks, segs, k, m)
        <==> && TakesAt(false, true, toks, segs, k, WithoutPeriod(m))
             && PeriodOk(Guarded(true, toks, segs, k, m), toks[k], segs[k], m)
    {
      AcceptsSame(toks[k], segs[k], m);
    }
  }

  /** The first character of the string belongs to a first token that is not a `*`. */
  lemma FirstChar(toks: seq<Token>, s: string, segs: seq<string>, m: Mode)
    requires Cut(toks, s, segs, m) && toks != [] && !toks[0].Star?
    ensures s != "" && segs[0] == [s[0]]
  {
    assert TakesAt(false, true, toks, segs, 0, m);
  }

  /** For a first token that is not a `*`, the flag asks for no less than POSIX. */
  lemma PeriodIsEnough(p: string, s: string, m: Mode)
    requires !m.flags.pathname && m.flags.period && Matches(p, s, None, m)
    requires var toks := Tokens(p, m.flags.noescape); toks == [] || !toks[0].Star?
    ensures PosixPeriod(p, s, m)
  {
    var toks := Tokens(p, m.flags.noescape);
    MatchesIffDecomposes(p, s, None, m);
    MatchesIffDecomposes(p, s, None, WithoutPeriod(m));
    var segs :| CutsInto(false, true, toks, s, segs, m);
    PeriodCut(toks, s, segs, m);
    if toks != [] {
      FirstChar(toks, s, segs, m);
      assert PeriodOk(Guarded(true, toks, segs, 0, m), toks[0], segs[0], m);
    }
  }

  /** For a safe pattern, it asks for no more. */
  lemma PeriodIsNotTooMuch(p: string, s: string, m: Mode)
    requires !m.flags.pathname && m.flags.period && PosixPeriod(p, s, m)
    requires PeriodSafe(Tokens(p, m.flags.noescape), m)
    ensures Matches(p, s, None, m)
  {
    var toks := Tokens(p, m.flags.noescape);
    MatchesIffDecomposes(p, s, None, m);
    MatchesIffDecomposes(p, s, None, WithoutPeriod(m));
    var segs :| CutsInto(false, true, toks, s, segs, WithoutPeriod(m));
    forall k | 0 <= k < |toks|
      ensures PeriodOk(Guarded(true, toks, segs, k, m), toks[k], segs[k], m)
    {
      assert TakesAt(false, true, toks, segs, k, WithoutPeriod(m));
      AcceptsSame(toks[k], segs[k], m);
      assert !Unsafe(toks, k, m);
      if k == 0 {
        FirstChar(toks, s, segs, WithoutPeriod(m));
      }
    }
    PeriodCut(toks, s, segs, m);
    assert CutsInto(false, true, toks, s, segs, m);
  }

  /** A first `*` takes one character more in front. */
  lemma GrowFirst(toks: seq<Token>, s: string, c: char, m: Mode)
    requires !m.flags.pathname && toks != [] && toks[0].Star? && Decomposes(false, true, toks, s, m)
    ensures Decomposes(false, true, toks, [c] + s, m)
  {
    var segs :| CutsInto(false, true, toks, s, segs, m);
    var segs' := segs[0 := [c] + segs[0]];
    assert segs'[1..] == segs[1..];
    Assoc([c], segs[0], Flatten(segs[1..]));
    forall k | 0 <= k < |toks|
      ensures TakesAt(false, true, toks, segs', k, m)
    {
      assert TakesAt(false, true, toks, segs, k, m);
    }
    assert CutsInto(false, true, toks, [c] + s, segs', m);
  }

  /** A pattern that begins with a `*` gives a wrong answer for some string, if it gives a positive one. */
  lemma FirstStarDisagrees(p: string, s: string, m: Mode) returns (t: string)
    requires !m.flags.pathname && m.flags.period && (Matches(p, s, None, m) || PosixPeriod(p, s, m))
    requires var toks := Tokens(p, m.flags.noescape); toks != [] && toks[0].Star?
    ensures Matches(p, t, None, m) != PosixPeriod(p, t, m)
  {
    t := s;
    if Matches(p, s, None, m) {
      t := "." + s;
      MatchesIffDecomposes(p, s, None, m);
      GrowFirst(Tokens(p, m.flags.noescape), s, '.', m);
      MatchesIffDecomposes(p, t, None, m);
    }
  }

  /** So does one with an unsafe token: a shortest string with a period there has one cut only. */
  lemma UnsafeDisagrees(p: string, s: string, k: nat, m: Mode) returns (t: string)
    requires !m.flags.pathname && m.flags.period && PosixPeriod(p, s, m)
    requires var toks := Tokens(p, m.flags.noescape); k < |toks| && !toks[0].Star? && Unsafe(toks, k, m)
    ensures !Matches(p, t, None, m) && PosixPeriod(p, t, m)
  {
    var toks, m0 := Tokens(p, m.flags.noescape), WithoutPeriod(m);
    MatchesIffDecomposes(p, s, None, m0);
    var segs :| CutsInto(false, true, toks, s, segs, m0);
    var tight := TightIsCut(toks, s, segs, m0);
    AcceptsSame(toks[k], ".", m);
    ReplaceInCut(toks, Flatten(tight), tight, k, '.', m0);
    var w := tight[k := "."];
    t := Flatten(w);
    MatchesIffDecomposes(p, t, None, m0);
    FirstChar(toks, s, segs, m0);
    FirstChar(toks, t, w, m0);
    MatchesIffDecomposes(p, t, None, m);
    if Decomposes(false, true, toks, t, m) {
      var cut :| CutsInto(false, true, toks, t, cut, m);
      TightIsShortest(toks, w, t, cut, m);
      PeriodCut(toks, t, cut, m);
      UnsafeRejects(toks, cut, k, m);
      assert false;
    }
  }

  lemma UnsafeRejects(toks: seq<Token>, segs: seq<string>, k: nat, m: Mode)
    requires k < |toks| == |segs| && Unsafe(toks, k, m) && m.flags.period && segs[k] == "."
    ensures !PeriodOk(Guarded(true, toks, segs, k, m), toks[k], segs[k], m)
  {
  }

  /** Every token but a `*` has a character to take, where only the first place is guarded. */
  ghost predicate PossibleExplicit(toks: seq<Token>, m: Mode) {
    forall k :: 0 <= k < |toks| && !toks[k].Star? ==> Takes(toks[k], k == 0, m)
  }

  function FirstPlace(toks: seq<Token>): (r: seq<bool>)
    ensures |r| == |toks| && forall k :: 0 <= k < |toks| ==> r[k] == (k == 0)
  {
    seq(|toks|, k requires 0 <= k < |toks| => k == 0)
  }

  /** What can be taken at the guarded places can be taken. */
  lemma PossibleIsExplicit(toks: seq<Token>, m: Mode)
    requires Possible(toks, m)
    ensures PossibleExplicit(toks, m)
  {
    forall k | 0 <= k < |toks| && !toks[k].Star?
      ensures Takes(toks[k], k == 0, m)
    {
      var c :| Accepts(toks[k], [c], m) && PeriodOk(GuardedPlace(toks, k, m), toks[k], [c], m);
      assert PeriodOk(k == 0, toks[k], [c], m);
    }
  }

  /** Segments with an explicit leading period, too, show that each token can take something. */
  lemma ExplicitIsPossible(toks: seq<Token>, s: string, segs: seq<string>, m: Mode)
    requires |segs| == |toks| && Flatten(segs) == s && PeriodExplicit(toks, s)
    requires forall k :: 0 <= k < |toks| && !toks[k].Star? ==> Accepts(toks[k], segs[k], m)
    ensures PossibleExplicit(toks, m)
  {
    forall k | 0 <= k < |toks| && !toks[k].Star?
      ensures Takes(toks[k], k == 0, m)
    {
      assert segs[k] == [segs[k][0]];
      assert k == 0 ==> s[0] == segs[0][0];
      assert PeriodOk(k == 0, toks[k], segs[k], m);
    }
  }

  /** A string whose leading period is explicit, one character for every token. */
  lemma ExplicitSample(toks: seq<Token>, m: Mode) returns (segs: seq<string>)
    requires m.flags.period && PossibleExplicit(toks, m)
    ensures segs == Sample(toks, FirstPlace(toks), m) && PeriodExplicit(toks, Flatten(segs))
  {
    segs := Sample(toks, FirstPlace(toks), m);
    if toks != [] {
      assert segs[0] == SampleOf(toks[0], true, m);
      assert Flatten(segs)[0] == segs[0][0];
      assert segs[0] == [segs[0][0]];
    }
  }

  /** POSIX has a string to match exactly when every token can take something. */
  lemma PosixPeriodMatchesSomethingExactly(p: string, m: Mode)
    requires !m.flags.pathname && m.flags.period
    ensures (exists s :: PosixPeriod(p, s, m)) <==> PossibleExplicit(Tokens(p, m.flags.noescape), m)
  {
    var toks, m0 := Tokens(p, m.flags.noescape), WithoutPeriod(m);
    if s :| PosixPeriod(p, s, m) {
      MatchesIffDecomposes(p, s, None, m0);
      var segs :| CutsInto(false, true, toks, s, segs, m0);
      forall k | 0 <= k < |toks| && !toks[k].Star?
        ensures Accepts(toks[k], segs[k], m)
      {
        assert TakesAt(false, true, toks, segs, k, m0);
        AcceptsSame(toks[k], segs[k], m);
      }
      ExplicitIsPossible(toks, s, segs, m);
    }
    if PossibleExplicit(toks, m) {
      var segs := ExplicitSample(toks, m);
      forall k | 0 <= k < |toks|
        ensures TakesAt(false, true, toks, segs, k, m0)
      {
        assert segs[k] == SampleOf(toks[k], k == 0, m);
        AcceptsSame(toks[k], segs[k], m);
      }
      assert CutsInto(false, true, toks, Flatten(segs), segs, m0);
      MatchesIffDecomposes(p, Flatten(segs), None, m0);
      assert PosixPeriod(p, Flatten(segs), m);
    }
  }

  /**
   Without FNM_PATHNAME, FNM_PERIOD does for every string what POSIX asks exactly when the pattern is
   safe (or some token has nothing to take, a leading period apart).
   */
  lemma LeadingPeriodExactly(p: string, m: Mode)
    requires !m.flags.pathname && m.flags.period
    ensures (forall s :: Matches(p, s, None, m) <==> PosixPeriod(p, s, m))
      <==> PeriodSafe(Tokens(p, m.flags.noescape), m) || !PossibleExplicit(Tokens(p, m.flags.noescape), m)
  {
    var toks := Tokens(p, m.flags.noescape);
    PosixPeriodMatchesSomethingExactly(p, m);
    if PeriodSafe(toks, m) {
      forall s
        ensures Matches(p, s, None, m) <==> PosixPeriod(p, s, m)
      {
        if Matches(p, s, None, m) {
          PeriodIsEnough(p, s, m);
        } else if PosixPeriod(p, s, m) {
          PeriodIsNotTooMuch(p, s, m);
        }
      }
    } else if PossibleExplicit(toks, m) {
      var s :| PosixPeriod(p, s, m);
      if toks[0].Star? {
        var t := FirstStarDisagrees(p, s, m);
      } else {
        var k :| 0 <= k < |toks| && Unsafe(toks, k, m);
        var t := UnsafeDisagrees(p, s, k, m);
      }
    } else {
      MatchesSomethingExactly(p, m);
      if Possible(toks, m) {
        PossibleIsExplicit(toks, m);
      }
      assert forall s :: !Matches(p, s, None, m) && !PosixPeriod(p, s, m);
    }
  }

  // The same under FNM_PATHNAME, where every component has a leading place.

  /** A component that the tokens between two slashes should take. */
  ghost predicate PartPeriod(toks: seq<Token>, s: string, m: Mode) {
    Fits(true, toks, s, WithoutPeriod(m)) && PeriodExplicit(toks, s)
  }

  /** A fit with the flag is a fit without it that minds the guarded places. */
  lemma PeriodFit(toks: seq<Token>, s: string, segs: seq<string>, m: Mode)
    requires |segs| == |toks|
    ensures FitsBy(true, toks, s, segs, m)
      <==> && FitsBy(true, toks, s, segs, WithoutPeriod(m))
           && forall k :: 0 <= k < |toks| ==> PeriodOk(Guarded(true, toks, segs, k, m), toks[k], segs[k], m)
  {
    forall k | 0 <= k < |toks|
      ensures FitsAt(true, toks, segs, k, m)
        <==> && FitsAt(true, toks, segs, k, WithoutPeriod(m))
             && PeriodOk(Guarded(true, toks, segs, k, m), toks[k], segs[k], m)
    {
      AcceptsSame(toks[k], segs[k], m);
    }
  }

  lemma FirstFitChar(toks: seq<Token>, s: string, segs: seq<string>, m: Mode)
    requires FitsBy(true, toks, s, segs, m) && toks != [] && !toks[0].Star?
    ensures s != "" && segs[0] == [s[0]]
  {
    assert FitsAt(true, toks, segs, 0, m);
  }

  lemma PartIsEnough(toks: seq<Token>, s: string, m: Mode)
    requires !m.flags.pathname && m.flags.period && Fits(true, toks, s, m)
    requires toks == [] || !toks[0].Star?
    ensures PartPeriod(toks, s, m)
  {
    var segs :| FitsBy(true, toks, s, segs, m);
    PeriodFit(toks, s, segs, m);
    if toks != [] {
      FirstFitChar(toks, s, segs, m);
      assert PeriodOk(Guarded(true, toks, segs, 0, m), toks[0], segs[0], m);
    }
  }

  lemma PartIsNotTooMuch(toks: seq<Token>, s: string, m: Mode)
    requires !m.flags.pathname && m.flags.period && PartPeriod(toks, s, m) && PeriodSafe(toks, m)
    ensures Fits(true, toks, s, m)
  {
    var segs :| FitsBy(true, toks, s, segs, WithoutPeriod(m));
    forall k | 0 <= k < |toks|
      ensures PeriodOk(Guarded(true, toks, segs, k, m), toks[k], segs[k], m)
    {
      assert FitsAt(true, toks, segs, k, WithoutPeriod(m));
      AcceptsSame(toks[k], segs[k], m);
      assert !Unsafe(toks, k, m);
      if k == 0 {
        FirstFitChar(toks, s, segs, WithoutPeriod(m));
      }
    }
    PeriodFit(toks, s, segs, m);
    assert FitsBy(true, toks, s, segs, m);
  }

  lemma GrowFirstFit(toks: seq<Token>, s: string, c: char, m: Mode)
    requires !m.flags.pathname && toks != [] && toks[0].Star? && Fits(true, toks, s, m)
    ensures Fits(true, toks, [c] + s, m)
  {
    var segs :| FitsBy(true, toks, s, segs, m);
    var segs' := segs[0 := [c] + segs[0]];
    assert segs'[1..] == segs[1..];
    Assoc([c], segs[0], Flatten(segs[1..]));
    forall k | 0 <= k < |toks|
      ensures FitsAt(true, toks, segs', k, m)
    {
      assert FitsAt(true, toks, segs, k, m);
    }
    assert FitsBy(true, toks, [c] + s, segs', m);
  }

  lemma {:induction false} FlattenChars(segs: seq<string>, c: char)
    ensures c in Flatten(segs) <==> exists k :: 0 <= k < |segs| && c in segs[k]
    decreases |segs|
  {
    if segs != [] {
      FlattenChars(segs[1..], c);
      if k :| 0 <= k < |segs| && c in segs[k] {
        assert k > 0 ==> segs[1..][k - 1] == segs[k];
      }
      if k :| 0 <= k < |segs[1..]| && c in segs[1..][k] {
        assert segs[k + 1] == segs[1..][k];
      }
    }
  }

  /** The shortest string of an unsafe part, with a period at the unsafe token. */
  lemma UnsafePart(toks: seq<Token>, s: string, k: nat, m: Mode) returns (t: string)
    requires !m.flags.pathname && m.flags.period && PartPeriod(toks, s, m) && '/' !in s
    requires k < |toks| && !toks[0].Star? && Unsafe(toks, k, m)
    ensures '/' !in t && !Fits(true, toks, t, m) && PartPeriod(toks, t, m)
  {
    var m0 := WithoutPeriod(m);
    var segs :| FitsBy(true, toks, s, segs, m0);
    BareFits(toks, s, segs, m0);
    var w := Bare(toks, segs)[k := "."];
    t := Flatten(w);
    AcceptsSame(toks[k], ".", m);
    forall j | 0 <= j < |toks|
      ensures FitsAt(true, toks, w, j, m0)
    {
      assert FitsAt(true, toks, segs, j, m0);
    }
    assert FitsBy(true, toks, t, w, m0);
    FirstFitChar(toks, s, segs, m0);
    FirstFitChar(toks, t, w, m0);
    FlattenChars(segs, '/');
    FlattenChars(w, '/');
    forall cut
      ensures !FitsBy(true, toks, t, cut, m)
    {
      if |cut| == |toks| {
        OnlyBare(toks, t, w, k, cut, m);
      }
    }
  }

  lemma OnlyBare(toks: seq<Token>, t: string, w: seq<string>, k: nat, cut: seq<string>, m: Mode)
    requires m.flags.period && |cut| == |w| == |toks| && k < |toks| && Unsafe(toks, k, m)
    requires Flatten(w) == t && w[k] == "." && forall j :: 0 <= j < |toks| ==> |w[j]| == Least(toks[j])
    ensures !FitsBy(true, toks, t, cut, m)
  {
    if forall j :: 0 <= j < |toks| ==> |w[j]| <= |cut[j]| {
      if Flatten(cut) == t {
        TightIsUnique(w, cut);
        UnsafeRejects(toks, cut, k, m);
        PeriodFit(toks, t, cut, m);
      }
    } else {
      var j :| 0 <= j < |toks| && |w[j]| > |cut[j]|;
      assert !FitsAt(true, toks, cut, j, m);
    }
  }

  /** An unsafe part gives a wrong answer for some component, if it gives a positive one. */
  lemma PartDisagrees(toks: seq<Token>, s: string, m: Mode) returns (t: string)
    requires !m.flags.pathname && m.flags.period && !PeriodSafe(toks, m) && '/' !in s
    requires Fits(true, toks, s, m) && PartPeriod(toks, s, m)
    ensures '/' !in t && Fits(true, toks, t, m) != PartPeriod(toks, t, m)
  {
    if toks[0].Star? {
      t := "." + s;
      GrowFirstFit(toks, s, '.', m);
    } else {
      var k :| 0 <= k < |toks| && Unsafe(toks, k, m);
      t := UnsafePart(toks, s, k, m);
    }
  }

  lemma SplitAfterJoin(c: string, path: string)
    requires '/' !in c
    ensures Split(c + ("/" + path), '/') == [c] + Split(path, '/')
  {
    SplitWithout(c, path, '/');
    Assoc(c, "/", path);
  }

  lemma {:induction false} SplitOfJoin(cs: seq<string>)
    requires cs != [] && forall k :: 0 <= k < |cs| ==> '/' !in cs[k]
    ensures Split(JoinPath(cs), '/') == cs
    decreases |cs|
  {
    if |cs| == 1 {
      SplitWithout(cs[0], "", '/');
    } else {
      assert forall k :: 0 <= k < |cs[1..]| ==> cs[1..][k] == cs[k + 1];
      SplitOfJoin(cs[1..]);
      SplitAfterJoin(cs[0], JoinPath(cs[1..]));
    }
  }

  function Parts(p: string, m: Mode): seq<seq<Token>> {
    Split(Tokens(p, m.flags.noescape), Lit('/'))
  }

  /** What both flags should do: equally many components, each matched with its leading period explicit. */
  ghost predicate PathPeriod(parts: seq<seq<Token>>, comps: seq<string>, m: Mode) {
    |parts| == |comps| && forall k :: 0 <= k < |parts| ==> PartPeriod(parts[k], comps[k], m)
  }

  ghost predicate PosixPathPeriod(p: string, s: string, m: Mode) {
    PathPeriod(Parts(p, m), Split(s, '/'), Plain(m))
  }

  /** The parts are safe: each component is matched as it should be. */
  lemma SafePartsAgree(parts: seq<seq<Token>>, comps: seq<string>, m: Mode)
    requires !m.flags.pathname && m.flags.period
    requires forall k :: 0 <= k < |parts| ==> PeriodSafe(parts[k], m)
    ensures FitsEach(true, parts, comps, m) <==> PathPeriod(parts, comps, m)
  {
    if |parts| == |comps| {
      forall k | 0 <= k < |parts|
        ensures Fits(true || k > 0, parts[k], comps[k], m) <==> PartPeriod(parts[k], comps[k], m)
      {
        if Fits(true, parts[k], comps[k], m) {
          PartIsEnough(parts[k], comps[k], m);
        } else if PartPeriod(parts[k], comps[k], m) {
          PartIsNotTooMuch(parts[k], comps[k], m);
        }
      }
    }
  }

  /** One part is not safe: another component in its place makes the whole answer wrong. */
  lemma UnsafePartsDisagree(parts: seq<seq<Token>>, comps: seq<string>, k: nat, m: Mode) returns (other: seq<string>)
    requires !m.flags.pathname && m.flags.period && comps != []
    requires forall j :: 0 <= j < |comps| ==> '/' !in comps[j]
    requires FitsEach(true, parts, comps, m) && PathPeriod(parts, comps, m)
    requires k < |parts| && !PeriodSafe(parts[k], m)
    ensures other != [] && forall j :: 0 <= j < |other| ==> '/' !in other[j]
    ensures FitsEach(true, parts, other, m) != PathPeriod(parts, other, m)
  {
    assert Fits(true || k > 0, parts[k], comps[k], m);
    var c := PartDisagrees(parts[k], comps[k], m);
    other := comps[k := c];
    forall j | 0 <= j < |parts| && j != k
      ensures Fits(true || j > 0, parts[j], other[j], m) && PartPeriod(parts[j], other[j], m)
    {
      assert Fits(true || j > 0, parts[j], comps[j], m);
    }
    assert Fits(true || k > 0, parts[k], other[k], m) != PartPeriod(parts[k], other[k], m);
  }

  /** Every part of the pattern has a component to take. */
  ghost predicate PartsPossible(parts: seq<seq<Token>>, m: Mode) {
    forall k :: 0 <= k < |parts| ==> PossibleExplicit(parts[k], m)
  }

  /** Off slashes, and for tokens other than a slash, FNM_PATHNAME makes no difference. */
  lemma AcceptsPlain(t: Token, c: char, m: Mode)
    requires m.flags.pathname && SlashAlone(m) && !t.Star? && t != Lit('/')
    ensures Accepts(t, [c], m) <==> c != '/' && Accepts(t, [c], Plain(m))
  {
    var m1 := Plain(m);
    if t.Bracket? {
      assert forall k :: 0 <= k < |t.items| ==> ItemAccepts(t.items[k], c, m) == ItemAccepts(t.items[k], c, m1);
    } else if t.Lit? {
      assert m.MatchChar(t.c, c) == m1.MatchChar(t.c, c);
    }
  }

  /** Segments of a component show that its part can take something. */
  lemma ComponentIsPossible(part: seq<Token>, s: string, segs: seq<string>, m: Mode)
    requires m.flags.pathname && SlashAlone(m) && Lit('/') !in part && '/' !in s
    requires |segs| == |part| && Flatten(segs) == s && PeriodExplicit(part, s)
    requires forall k :: 0 <= k < |part| && !part[k].Star? ==> Accepts(part[k], segs[k], Plain(m))
    ensures PossibleExplicit(part, m)
  {
    FlattenChars(segs, '/');
    forall k | 0 <= k < |part| && !part[k].Star?
      ensures Accepts(part[k], segs[k], m)
    {
      assert segs[k] == [segs[k][0]];
      AcceptsPlain(part[k], segs[k][0], m);
    }
    ExplicitIsPossible(part, s, segs, m);
  }

  lemma PartPeriodIsPossible(part: seq<Token>, s: string, m: Mode)
    requires m.flags.pathname && SlashAlone(m) && Lit('/') !in part && '/' !in s && PartPeriod(part, s, Plain(m))
    ensures PossibleExplicit(part, m)
  {
    var m1 := Plain(m);
    var segs :| FitsBy(true, part, s, segs, WithoutPeriod(m1));
    forall k | 0 <= k < |part|
      ensures Accepts(part[k], segs[k], m1)
    {
      assert FitsAt(true, part, segs, k, WithoutPeriod(m1));
      AcceptsSame(part[k], segs[k], m1);
    }
    ComponentIsPossible(part, s, segs, m);
  }

  /** A component for a part, with an explicit leading period. */
  lemma PartSample(part: seq<Token>, m: Mode) returns (s: string)
    requires m.flags.pathname && m.flags.period && SlashAlone(m)
    requires Lit('/') !in part && PossibleExplicit(part, m)
    ensures '/' !in s && PartPeriod(part, s, Plain(m))
  {
    var m1 := Plain(m);
    var segs := ExplicitSample(part, m);
    s := Flatten(segs);
    forall k | 0 <= k < |part|
      ensures '/' !in segs[k] && FitsAt(true, part, segs, k, WithoutPeriod(m1))
    {
      assert segs[k] == SampleOf(part[k], k == 0, m);
      assert segs[k] == [segs[k][0]];
      if !part[k].Star? {
        AcceptsPlain(part[k], segs[k][0], m);
      }
      AcceptsSame(part[k], segs[k], m1);
    }
    FlattenChars(segs, '/');
    assert FitsBy(true, part, s, segs, WithoutPeriod(m1));
  }

  lemma {:induction false} PartsSample(parts: seq<seq<Token>>, m: Mode) returns (comps: seq<string>)
    requires m.flags.pathname && m.flags.period && SlashAlone(m) && PartsPossible(parts, m)
    requires forall k :: 0 <= k < |parts| ==> Lit('/') !in parts[k]
    ensures PathPeriod(parts, comps, Plain(m)) && forall k :: 0 <= k < |comps| ==> '/' !in comps[k]
    decreases |parts|
  {
    if parts == [] {
      comps := [];
    } else {
      assert forall k :: 0 <= k < |parts[1..]| ==> parts[1..][k] == parts[k + 1];
      var c := PartSample(parts[0], m);
      var cs := PartsSample(parts[1..], m);
      comps := [c] + cs;
      forall k | 0 <= k < |parts|
        ensures PartPeriod(parts[k], comps[k], Plain(m))
      {
        assert k > 0 ==> parts[k] == parts[1..][k - 1] && comps[k] == cs[k - 1];
      }
    }
  }

  lemma SplitParts<T>(xs: seq<T>, sep: T)
    ensures forall k :: 0 <= k < |Split(xs, sep)| ==> sep !in Split(xs, sep)[k]
  {
    forall k | 0 <= k < |Split(xs, sep)|
      ensures sep !in Split(xs, sep)[k]
    {
      assert Split(xs, sep)[k] in Split(xs, sep);
    }
  }

  /** With both flags, too, POSIX has a string to match exactly when every token can take something. */
  lemma PathPeriodMatchesSomethingExactly(p: string, m: Mode)
    requires m.flags.pathname && m.flags.period && SlashAlone(m)
    ensures (exists s :: PosixPathPeriod(p, s, m)) <==> PartsPossible(Parts(p, m), m)
  {
    var parts := Parts(p, m);
    SplitParts(Tokens(p, m.flags.noescape), Lit('/'));
    if s :| PosixPathPeriod(p, s, m) {
      SplitParts(s, '/');
      forall k | 0 <= k < |parts|
        ensures PossibleExplicit(parts[k], m)
      {
        PartPeriodIsPossible(parts[k], Split(s, '/')[k], m);
      }
    }
    if PartsPossible(parts, m) {
      var comps := PartsSample(parts, m);
      SplitOfJoin(comps);
      assert PosixPathPeriod(p, JoinPath(comps), m);
    }
  }

  lemma PartIsPossible(part: seq<Token>, s: string, m: Mode)
    requires m.flags.pathname && m.flags.period && SlashAlone(m) && Lit('/') !in part && '/' !in s
    requires Fits(true, part, s, Plain(m))
    ensures PossibleExplicit(part, m)
  {
    var segs :| FitsBy(true, part, s, segs, Plain(m));
    forall k | 0 <= k < |part|
      ensures Accepts(part[k], segs[k], Plain(m)) && PeriodOk(k == 0, part[k], segs[k], m)
    {
      assert FitsAt(true, part, segs, k, Plain(m));
    }
    FlattenChars(segs, '/');
    forall k | 0 <= k < |part| && !part[k].Star?
      ensures Takes(part[k], k == 0, m)
    {
      assert segs[k] == [segs[k][0]];
      AcceptsPlain(part[k], segs[k][0], m);
    }
  }

  /** What the code can match, POSIX can match too. */
  lemma MatchedPartsArePossible(p: string, s: string, m: Mode)
    requires m.flags.pathname && m.flags.period && SlashAlone(m) && Matches(p, s, None, m)
    ensures PartsPossible(Parts(p, m), m)
  {
    var toks, parts := Tokens(p, m.flags.noescape), Parts(p, m);
    MatchesSomethingExactly(p, m);
    FitsSomethingExactly(toks, m);
    assert exists x :: Matches(p, x, None, m) by {
      assert Matches(p, s, None, m);
    }
    var t :| Fits(true, toks, t, m);
    FitsComponentwise(true, toks, t, m);
    SplitParts(toks, Lit('/'));
    SplitParts(t, '/');
    forall k | 0 <= k < |parts|
      ensures PossibleExplicit(parts[k], m)
    {
      assert Fits(true || k > 0, parts[k], Split(t, '/')[k], Plain(m));
      PartIsPossible(parts[k], Split(t, '/')[k], m);
    }
  }

  /** A final star, and a string that both accept: fnmatch is wrong on some string. */
  lemma FinalStarPathDisagrees(p: string, s: string, m: Mode) returns (t: string)
    requires m.flags.pathname && EndsInStar(Tokens(p, m.flags.noescape))
    requires Matches(p, s, None, m) && PosixPathPeriod(p, s, m)
    ensures Matches(p, t, None, m) && !PosixPathPeriod(p, t, m)
  {
    t := s + "/";
    FinalStarDisagrees(p, s, m);
  }

  /** So it is with one unsafe part. */
  lemma UnsafePathDisagrees(p: string, s: string, m: Mode) returns (t: string)
    requires m.flags.pathname && m.flags.period && SlashAlone(m)
    requires Matches(p, s, None, m) && PosixPathPeriod(p, s, m)
    requires || EndsInStar(Tokens(p, m.flags.noescape))
             || exists k :: 0 <= k < |Parts(p, m)| && !PeriodSafe(Parts(p, m)[k], Plain(m))
    ensures Matches(p, t, None, m) != PosixPathPeriod(p, t, m)
  {
    if EndsInStar(Tokens(p, m.flags.noescape)) {
      t := FinalStarPathDisagrees(p, s, m);
    } else {
      var k :| 0 <= k < |Parts(p, m)| && !PeriodSafe(Parts(p, m)[k], Plain(m));
      PathnameIsComponentwise(p, s, m);
      SplitParts(s, '/');
      var other := UnsafePartsDisagree(Parts(p, m), Split(s, '/'), k, Plain(m));
      t := JoinPath(other);
      SplitOfJoin(other);
      PathnameIsComponentwise(p, t, m);
    }
  }

  /**
   With FNM_PATHNAME and FNM_PERIOD, fnmatch works component by component and asks for an explicit
   period at the start of every component, and for nothing else, exactly when the last token is not a
   `*` and every part of the pattern is safe (or some token has nothing to take).
   */
  lemma PathPeriodExactly(p: string, m: Mode)
    requires m.flags.pathname && m.flags.period && SlashAlone(m)
    ensures (forall s :: Matches(p, s, None, m) <==> PosixPathPeriod(p, s, m))
      <==> || (&& !EndsInStar(Tokens(p, m.flags.noescape))
               && forall k :: 0 <= k < |Parts(p, m)| ==> PeriodSafe(Parts(p, m)[k], Plain(m)))
           || !PartsPossible(Parts(p, m), m)
  {
    var toks, parts := Tokens(p, m.flags.noescape), Parts(p, m);
    PathPeriodMatchesSomethingExactly(p, m);
    if !PartsPossible(parts, m) {
      forall s
        ensures !Matches(p, s, None, m) && !PosixPathPeriod(p, s, m)
      {
        if Matches(p, s, None, m) {
          MatchedPartsArePossible(p, s, m);
        }
      }
    } else if EndsInStar(toks) || exists k :: 0 <= k < |parts| && !PeriodSafe(parts[k], Plain(m)) {
      var s :| PosixPathPeriod(p, s, m);
      if Matches(p, s, None, m) {
        var t := UnsafePathDisagrees(p, s, m);
        assert Matches(p, t, None, m) != PosixPathPeriod(p, t, m);
      }
    } else {
      forall s
        ensures Matches(p, s, None, m) <==> PosixPathPeriod(p, s, m)
      {
        PathnameIsComponentwise(p, s, m);
        SafePartsAgree(parts, Split(s, '/'), Plain(m));
      }
    }
  }

  /** The smallest cases: `*` takes a leading period, and `*?` forgets that its `*` has taken something. */
  lemma PeriodAndStar(m: Mode)
    requires m.flags == Flags(false, true, false, false)
    ensures Matches("*", ".x", None, m) && !PosixPeriod("*", ".x", m)
    ensures !Matches("*?", "a.", None, m) && PosixPeriod("*?", "a.", m)
  {
    var m0 := WithoutPeriod(m);
    assert "*"[1..] == "" && "*?"[1..] == "?" && "?"[1..] == "" && "a."[1..] == "." && "."[1..] == "";
    assert !Matches("?", "a.", None, m);
    assert !Matches("?", ".", None, m);
    assert !MatchesLater("?", "", m);
    assert !MatchesLater("?", ".", m);
    assert Matches("?", ".", None, m0) && MatchesLater("?", ".", m0);
  }

  /** With both flags: a `*` takes the leading period of a later component. */
  lemma PathPeriodAndStar(m: Mode)
    requires m.flags == Flags(true, true, false, false)
    ensures Matches("a/*x", "a/.x", None, m) && !PosixPathPeriod("a/*x", "a/.x", m)
  {
    assert "a/*x"[1..] == "/*x" && "/*x"[1..] == "*x" && "*x"[1..] == "x" && "x"[1..] == "";
    assert "a/.x"[1..] == "/.x" && "/.x"[1..] == ".x" && ".x"[1..] == "x";
    assert Matches("a/*x", "a/.x", None, m) by {
      assert Matches("x", "x", None, m);
      assert MatchesLater("x", "x", m);
      assert Matches("/*x", "/.x", Some('a'), m);
    }
    LaterPart("a/*x", "a/.x", m);
  }

  lemma LaterPart(p: string, s: string, m: Mode)
    requires p == "a/*x" && s == "a/.x" && !m.flags.noescape
    ensures !PosixPathPeriod(p, s, m)
  {
    var part := [Star, Lit('x')];
    assert "a/*x"[1..] == "/*x" && "/*x"[1..] == "*x" && "*x"[1..] == "x" && "x"[1..] == "";
    assert Tokens("a/*x", false) == [Lit('a')] + [Lit('/')] + part;
    SplitWithout([Lit('a')], part, Lit('/'));
    SplitWithout(part, [], Lit('/'));
    assert s == "a" + ("/" + ".x");
    SplitAfterJoin("a", ".x");
    SplitWithout(".x", "", '/');
    assert !PartPeriod(Parts(p, m)[1], Split(s, '/')[1], Plain(m));
  }
}
