/**
 The glob matcher (source/fnmatch.c): a pointer loop that recurses at every `*`.

 The matcher is proved against a function with the same branches, and that function against
 two declarative readings of a pattern as a list of tokens: a string matches when it can be
 cut into segments that the tokens accept, and under FNM_PATHNAME matching works component by
 component.
 */
module Fnmatch {
  import opened CStrings

  const FNM_NOMATCH := 1

  /** The flag word, one field for each bit of include/fnmatch.h. */
  datatype Flags = Flags(pathname: bool, period: bool, noescape: bool, casefold: bool)

  /** The value of a (signed) char, which ranges in brackets compare. */
  function Code(c: char): int {
    if c as int < 128 then c as int else c as int - 256
  }

  /** The C library's tolower for the locale in force, and the flags. */
  datatype Mode = Mode(flags: Flags, lower: char -> char) {

    predicate MatchChar(p: char, s: char) {
      if flags.casefold then lower(p) == lower(s) else p == s
    }

    predicate InRange(lo: char, s: char, hi: char) {
      if flags.casefold then Code(lower(lo)) <= Code(lower(s)) <= Code(lower(hi))
      else Code(lo) <= Code(s) <= Code(hi)
    }

    /** FNM_PATHNAME keeps wildcards off a slash. */
    predicate Barred(s: char) {
      flags.pathname && s == '/'
    }

    /** FNM_PERIOD: s is a period at the start of the string or of a component. */
    predicate Leading(s: char, prev: Option<char>) {
      flags.period && s == '.' && Starts(prev)
    }

    /** At the start of the string that a call gets, or of a component. */
    predicate Starts(prev: Option<char>) {
      prev == None || (flags.pathname && prev == Some('/'))
    }
  }

  // ---------------------------------------------------------------------------------------
  // The matcher as a function
  // ---------------------------------------------------------------------------------------

  /** The outcome of reading the inside of a bracket: no closing bracket, or what follows it. */
  datatype Scan = Unclosed | Closed(matched: bool, rest: string)

  predicate RangeAhead(p: string) {
    |p| > 2 && p[1] == '-' && p[2] != ']'
  }

  function ScanBracket(p: string, s: char, matched: bool, m: Mode): (r: Scan)
    ensures r.Closed? ==> |r.rest| < |p|
    decreases |p|
  {
    if p == "" then Unclosed
    else if p[0] == ']' then Closed(matched, p[1..])
    else if RangeAhead(p) then ScanBracket(p[3..], s, matched || m.InRange(p[0], s, p[2]), m)
    else ScanBracket(p[1..], s, matched || m.MatchChar(p[0], s), m)
  }

  predicate Negated(p: string) {
    p != "" && (p[0] == '!' || p[0] == '^')
  }

  /** What a bracket reads after its optional negation sign. */
  function Inside(p: string): string {
    if Negated(p) then p[1..] else p
  }

  /** A backslash escapes the next character, unless it is last or FNM_NOESCAPE is given. */
  function Unescape(p: string, noescape: bool): (r: string)
    requires p != ""
    ensures r != "" && |r| <= |p|
  {
    if p[0] == '\\' && !noescape && |p| > 1 then p[1..] else p
  }

  /** Does p match all of s? `prev` is the character before s, if the call has passed one. */
  predicate Matches(p: string, s: string, prev: Option<char>, m: Mode)
    decreases |p|, 0
  {
    if p == "" then s == ""
    else if p[0] == '*' then p[1..] == "" || MatchesLater(p[1..], s, m)
    else if s == "" then false
    else if p[0] == '?' then
      !m.Barred(s[0]) && !m.Leading(s[0], prev) && Matches(p[1..], s[1..], Some(s[0]), m)
    else if p[0] == '[' then
      && !m.Barred(s[0]) && !m.Leading(s[0], prev)
      && var scan := ScanBracket(Inside(p[1..]), s[0], false, m);
      && scan.Closed?
      && scan.matched != Negated(p[1..])
      && Matches(scan.rest, s[1..], Some(s[0]), m)
    else
      var q := Unescape(p, m.flags.noescape);
      && (m.Leading(s[0], prev) ==> q[0] == '.')
      && m.MatchChar(q[0], s[0])
      && Matches(q[1..], s[1..], Some(s[0]), m)
  }

  /** The loop of a `*` that more pattern follows: some nonempty tail of s matches p. */
  predicate MatchesLater(p: string, s: string, m: Mode)
    decreases |p|, 1 + |s|
  {
    && s != ""
    && (Matches(p, s, None, m) || (!m.Barred(s[0]) && MatchesLater(p, s[1..], m)))
  }

  // ---------------------------------------------------------------------------------------
  // The matcher as it runs
  // ---------------------------------------------------------------------------------------

  /** An array of characters that holds one C string and its terminator. */
  predicate Terminated(a: string) {
    |a| > 0 && a[|a| - 1] == NUL && forall k :: 0 <= k < |a| - 1 ==> a[k] != NUL
  }

  /** The C string that starts at index k. */
  function From(a: string, k: nat): string
    requires Terminated(a) && k < |a|
  {
    a[k..|a| - 1]
  }

  lemma FromStep(a: string, k: nat)
    requires Terminated(a) && k < |a|
    ensures From(a, k) == "" <==> a[k] == NUL
    ensures a[k] != NUL ==> From(a, k)[0] == a[k] && From(a, k)[1..] == From(a, k + 1)
  {
  }

  /** What a bracket element looks like from index k on. */
  lemma FromAhead(a: string, k: nat)
    requires Terminated(a) && k < |a| && a[k] != NUL
    ensures k + 1 < |a| && (a[k + 1] == '-' ==> k + 2 < |a|)
    ensures RangeAhead(From(a, k)) <==> a[k + 1] == '-' && a[k + 2] != NUL && a[k + 2] != ']'
    ensures RangeAhead(From(a, k)) ==> From(a, k)[2] == a[k + 2] && From(a, k)[3..] == From(a, k + 3)
  {
    FromStep(a, k);
    FromStep(a, k + 1);
    var u, v := From(a, k), From(a, k + 1);
    assert |u| > 1 ==> u[1] == v[0];
    if a[k + 1] == '-' {
      FromStep(a, k + 2);
      var w := From(a, k + 2);
      assert |u| > 2 ==> u[2] == w[0] && u[3..] == w[1..];
    }
  }

  /** The inner loop of a bracket, from just after the negation sign. */
  method RunBracket(pattern: string, start: nat, c: char, m: Mode)
    returns (p: nat, matched: bool)
    requires Terminated(pattern) && start < |pattern|
    ensures start <= p < |pattern|
    ensures pattern[p] == NUL || pattern[p] == ']'
    ensures ScanBracket(From(pattern, start), c, false, m)
            == if pattern[p] == NUL then Unclosed else Closed(matched, From(pattern, p + 1))
  {
    p, matched := start, false;
    while pattern[p] != NUL && pattern[p] != ']'
      invariant start <= p < |pattern|
      invariant ScanBracket(From(pattern, start), c, false, m)
                == ScanBracket(From(pattern, p), c, matched, m)
      decreases |pattern| - p
    {
      p, matched := RunItem(pattern, p, c, matched, m);
    }
    FromStep(pattern, p);
  }

  /** One turn of that loop: a range or a single character. */
  method RunItem(pattern: string, p: nat, c: char, was: bool, m: Mode) returns (p': nat, matched: bool)
    requires Terminated(pattern) && p < |pattern| && pattern[p] != NUL && pattern[p] != ']'
    ensures p < p' < |pattern|
    ensures ScanBracket(From(pattern, p), c, was, m) == ScanBracket(From(pattern, p'), c, matched, m)
  {
    FromStep(pattern, p);
    FromAhead(pattern, p);
    p', matched := p, was;
    if pattern[p + 1] == '-' && pattern[p + 2] != NUL && pattern[p + 2] != ']' {
      if m.InRange(pattern[p], c, pattern[p + 2]) {
        matched := true;
      }
      p' := p + 3;
    } else {
      if m.MatchChar(pattern[p], c) {
        matched := true;
      }
      p' := p + 1;
    }
  }

  function Before(a: string, start: nat, k: nat): Option<char>
    requires start <= k <= |a|
  {
    if k == start then None else Some(a[k - 1])
  }

  /** What a step that consumes one character of the string promises. */
  ghost predicate Stepped(pattern: string, p: nat, str: string, s: nat, prev: Option<char>,
                          ok: bool, p': nat, m: Mode)
    requires Terminated(pattern) && p < |pattern| && Terminated(str) && s < |str|
  {
    if ok then
      && p < p' < |pattern| && s + 1 < |str|
      && (Matches(From(pattern, p), From(str, s), prev, m)
          <==> Matches(From(pattern, p'), From(str, s + 1), Some(str[s]), m))
    else !Matches(From(pattern, p), From(str, s), prev, m)
  }

  /** case '?' */
  method StepAny(pattern: string, p: nat, str: string, s: nat, prev: Option<char>, m: Mode)
    returns (ok: bool, p': nat)
    requires Terminated(pattern) && p < |pattern| && Terminated(str) && s < |str|
    requires pattern[p] == '?'
    ensures Stepped(pattern, p, str, s, prev, ok, p', m)
  {
    FromStep(pattern, p);
    FromStep(str, s);
    ok := !(str[s] == NUL || m.Barred(str[s]) || m.Leading(str[s], prev));
    p' := p + 1;
  }

  /** Past the '[' and a negation, and through the list. */
  method ScanList(pattern: string, p: nat, c: char, m: Mode) returns (q: nat, matched: bool, negate: bool)
    requires Terminated(pattern) && p < |pattern| && pattern[p] == '['
    ensures p < q < |pattern| && negate == Negated(From(pattern, p + 1))
    ensures ScanBracket(Inside(From(pattern, p + 1)), c, false, m)
      == if pattern[q] == NUL then Unclosed else Closed(matched, From(pattern, q + 1))
  {
    FromStep(pattern, p);
    q := p + 1;
    FromStep(pattern, q);
    negate := pattern[q] == '!' || pattern[q] == '^';
    if negate {
      q := q + 1;
    }
    assert From(pattern, q) == Inside(From(pattern, p + 1));
    q, matched := RunBracket(pattern, q, c, m);
  }

  /** A bracket and a character that it may take: the scan decides, and the rest goes on behind it. */
  lemma {:induction false} BracketDecides(p: string, t: string, prev: Option<char>, m: Mode)
    requires p != "" && p[0] == '[' && t != "" && !m.Barred(t[0]) && !m.Leading(t[0], prev)
    ensures var scan := ScanBracket(Inside(p[1..]), t[0], false, m);
      Matches(p, t, prev, m)
      <==> scan.Closed? && scan.matched != Negated(p[1..]) && Matches(scan.rest, t[1..], Some(t[0]), m)
  {
  }

  lemma {:induction false} BracketRejects(p: string, s: string, prev: Option<char>, m: Mode)
    requires p != "" && p[0] == '[' && (s == "" || m.Barred(s[0]) || m.Leading(s[0], prev))
    ensures !Matches(p, s, prev, m)
  {
  }

  /** The bracket loop has stopped at q. */
  lemma {:induction false} BracketStepped(pattern: string, p: nat, str: string, s: nat, prev: Option<char>,
                                          q: nat, matched: bool, negate: bool, m: Mode)
    requires Terminated(pattern) && p < q < |pattern| && Terminated(str) && s < |str|
    requires pattern[p] == '[' && str[s] != NUL && !m.Barred(str[s]) && !m.Leading(str[s], prev)
    requires negate == Negated(From(pattern, p + 1))
    requires ScanBracket(Inside(From(pattern, p + 1)), str[s], false, m)
      == if pattern[q] == NUL then Unclosed else Closed(matched, From(pattern, q + 1))
    ensures Stepped(pattern, p, str, s, prev, pattern[q] != NUL && matched != negate, q + 1, m)
  {
    FromStep(pattern, p);
    FromStep(str, s);
    BracketDecides(From(pattern, p), From(str, s), prev, m);
  }

  /** case '[' */
  method StepBracket(pattern: string, p: nat, str: string, s: nat, prev: Option<char>, m: Mode)
    returns (ok: bool, p': nat)
    requires Terminated(pattern) && p < |pattern| && Terminated(str) && s < |str|
    requires pattern[p] == '['
    ensures Stepped(pattern, p, str, s, prev, ok, p', m)
  {
    FromStep(pattern, p);
    FromStep(str, s);
    if str[s] == NUL || m.Barred(str[s]) || m.Leading(str[s], prev) {
      BracketRejects(From(pattern, p), From(str, s), prev, m);
      return false, p;
    }
    var q, matched, negate := ScanList(pattern, p, str[s], m);
    BracketStepped(pattern, p, str, s, prev, q, matched, negate, m);
    ok, p' := pattern[q] != NUL && matched != negate, q + 1;
  }

  /** case '\\' and default */
  method StepLiteral(pattern: string, p0: nat, str: string, s: nat, prev: Option<char>, m: Mode)
    returns (ok: bool, p': nat)
    requires Terminated(pattern) && p0 < |pattern| && Terminated(str) && s < |str|
    requires pattern[p0] != NUL && pattern[p0] !in "*?["
    ensures Stepped(pattern, p0, str, s, prev, ok, p', m)
  {
    var p := p0;
    FromStep(pattern, p);
    FromStep(pattern, p + 1);
    FromStep(str, s);
    if pattern[p] == '\\' && !m.flags.noescape && pattern[p + 1] != NUL {
      p := p + 1;
    }
    assert From(pattern, p) == Unescape(From(pattern, p0), m.flags.noescape);
    p' := p + 1;
    if str[s] == NUL {
      return false, p';
    }
    if m.Leading(str[s], prev) {
      if pattern[p] != '.' {
        return false, p';
      }
    }
    if !m.MatchChar(pattern[p], str[s]) {
      return false, p';
    }
    ok := true;
  }

  /**
   fnmatch_internal. Every read of pattern and string is within its terminator, and the result
   is the one the matching function gives.
   */
  method FnmatchInternal(pattern: string, p0: nat, str: string, s0: nat, m: Mode) returns (r: int)
    requires Terminated(pattern) && p0 < |pattern|
    requires Terminated(str) && s0 < |str|
    ensures r == if Matches(From(pattern, p0), From(str, s0), None, m) then 0 else FNM_NOMATCH
    decreases |pattern| - p0, 0
  {
    var p, s := p0, s0;
    ghost var goal := Matches(From(pattern, p0), From(str, s0), None, m);
    while pattern[p] != NUL
      invariant p0 <= p < |pattern| && s0 <= s < |str|
      invariant goal == Matches(From(pattern, p), From(str, s), Before(str, s0, s), m)
      decreases |pattern| - p
    {
      var ok;
      if pattern[p] == '*' {
        FromStep(pattern, p);
        p := p + 1;
        FromStep(pattern, p);
        if pattern[p] == NUL {
          return 0;
        }
        r := RunStar(pattern, p, str, s, m);
        return;
      } else if pattern[p] == '?' {
        ok, p := StepAny(pattern, p, str, s, Before(str, s0, s), m);
      } else if pattern[p] == '[' {
        ok, p := StepBracket(pattern, p, str, s, Before(str, s0, s), m);
      } else {
        ok, p := StepLiteral(pattern, p, str, s, Before(str, s0, s), m);
      }
      if !ok {
        return FNM_NOMATCH;
      }
      s := s + 1;
    }
    FromStep(pattern, p);
    FromStep(str, s);
    r := if str[s] != NUL then FNM_NOMATCH else 0;
  }

  /** The loop of a `*` at p - 1 that more pattern follows. */
  method RunStar(pattern: string, p: nat, str: string, s0: nat, m: Mode) returns (r: int)
    requires Terminated(pattern) && p < |pattern|
    requires Terminated(str) && s0 < |str|
    ensures r == if MatchesLater(From(pattern, p), From(str, s0), m) then 0 else FNM_NOMATCH
    decreases |pattern| - p, 1
  {
    var s := s0;
    while str[s] != NUL
      invariant s0 <= s < |str|
      invariant MatchesLater(From(pattern, p), From(str, s0), m)
                <==> MatchesLater(From(pattern, p), From(str, s), m)
      decreases |str| - s
    {
      FromStep(str, s);
      var inner := FnmatchInternal(pattern, p, str, s, m);
      if inner == 0 {
        return 0;
      }
      if m.Barred(str[s]) {
        return FNM_NOMATCH;
      }
      s := s + 1;
    }
    FromStep(str, s);
    r := FNM_NOMATCH;
  }

  /** fnmatch: a NULL pattern or string never matches. */
  method Fnmatch(pattern: Option<CString>, str: Option<CString>, m: Mode) returns (r: int)
    ensures r == 0 || r == 1
    ensures r == 0 <==> pattern.Some? && str.Some? && Matches(pattern.value, str.value, None, m)
  {
    if pattern == None || str == None {
      return FNM_NOMATCH;
    }
    var p, s := pattern.value + [NUL], str.value + [NUL];
    assert From(p, 0) == pattern.value && From(s, 0) == str.value;
    r := FnmatchInternal(p, 0, s, 0, m);
  }

  // ---------------------------------------------------------------------------------------
  // Patterns as tokens
  // ---------------------------------------------------------------------------------------

  datatype Item = One(c: char) | Range(lo: char, hi: char)

  /** Never is a bracket that is not closed: it accepts nothing. */
  datatype Token = Star | Any | Bracket(negate: bool, items: seq<Item>) | Lit(c: char) | Never

  datatype Items = NoEnd | Items(items: seq<Item>, rest: string)

  function Add(i: Item, r: Items): Items {
    if r.NoEnd? then NoEnd else Items([i] + r.items, r.rest)
  }

  function ReadItems(p: string): (r: Items)
    ensures r.Items? ==> |r.rest| < |p|
    decreases |p|
  {
    if p == "" then NoEnd
    else if p[0] == ']' then Items([], p[1..])
    else if RangeAhead(p) then Add(Range(p[0], p[2]), ReadItems(p[3..]))
    else Add(One(p[0]), ReadItems(p[1..]))
  }

  function Tokens(p: string, noescape: bool): (r: seq<Token>)
    ensures r == [] <==> p == ""
    decreases |p|
  {
    if p == "" then []
    else if p[0] == '*' then [Star] + Tokens(p[1..], noescape)
    else if p[0] == '?' then [Any] + Tokens(p[1..], noescape)
    else if p[0] == '[' then
      var r := ReadItems(Inside(p[1..]));
      if r.NoEnd? then [Never]
      else [Bracket(Negated(p[1..]), r.items)] + Tokens(r.rest, noescape)
    else
      var q := Unescape(p, noescape);
      [Lit(q[0])] + Tokens(q[1..], noescape)
  }

  predicate ItemAccepts(i: Item, s: char, m: Mode) {
    match i
    case One(c) => m.MatchChar(c, s)
    case Range(lo, hi) => m.InRange(lo, s, hi)
  }

  predicate AnyAccepts(items: seq<Item>, s: char, m: Mode) {
    exists k :: 0 <= k < |items| && ItemAccepts(items[k], s, m)
  }

  /** The strings one token accepts; a `*` accepts any, without slashes under FNM_PATHNAME. */
  predicate Accepts(t: Token, seg: string, m: Mode) {
    match t
    case Star => m.flags.pathname ==> '/' !in seg
    case Any => |seg| == 1 && !m.Barred(seg[0])
    case Bracket(negate, items) =>
      |seg| == 1 && !m.Barred(seg[0]) && AnyAccepts(items, seg[0], m) != negate
    case Lit(c) => |seg| == 1 && m.MatchChar(c, seg[0])
    case Never => false
  }

  /**
   The code's own reading of the k-th token: a `*` that ends the pattern accepts anything at
   all, slashes included, but takes at least one character when it follows another `*`.
   `after` says whether a `*` stood before the tokens.
   */
  predicate AcceptsAt(after: bool, toks: seq<Token>, k: nat, seg: string, m: Mode)
    requires k < |toks|
  {
    if k == |toks| - 1 && toks[k].Star? then
      (if k == 0 then after else toks[k - 1].Star?) ==> seg != ""
    else Accepts(toks[k], seg, m)
  }

  /** FNM_PERIOD: at a guarded place only a literal period takes a period, a `*` apart. */
  predicate PeriodOk(guarded: bool, t: Token, seg: string, m: Mode) {
    m.flags.period && guarded && !t.Star? && seg == "." ==> t == Lit('.')
  }

  /** Behind a `*`, and under FNM_PATHNAME behind a slash, the place is guarded. */
  predicate Guards(t: Token, seg: string, m: Mode) {
    t.Star? || (m.flags.pathname && seg == "/")
  }

  /** `lead` says whether the first place is guarded. */
  predicate Guarded(lead: bool, toks: seq<Token>, segs: seq<string>, k: nat, m: Mode)
    requires k < |toks| == |segs|
  {
    if k == 0 then lead else Guards(toks[k - 1], segs[k - 1], m)
  }

  /** The k-th token takes the k-th segment. */
  predicate TakesAt(after: bool, lead: bool, toks: seq<Token>, segs: seq<string>, k: nat, m: Mode)
    requires k < |toks| == |segs|
  {
    AcceptsAt(after, toks, k, segs[k], m) && PeriodOk(Guarded(lead, toks, segs, k, m), toks[k], segs[k], m)
  }

  ghost predicate CutsInto(after: bool, lead: bool, toks: seq<Token>, s: string, segs: seq<string>, m: Mode) {
    && |segs| == |toks|
    && Flatten(segs) == s
    && forall k :: 0 <= k < |toks| ==> TakesAt(after, lead, toks, segs, k, m)
  }

  /** s can be cut into segments that the tokens take one by one. */
  ghost predicate Decomposes(after: bool, lead: bool, toks: seq<Token>, s: string, m: Mode) {
    exists segs :: CutsInto(after, lead, toks, s, segs, m)
  }

  /** The first token takes k characters, and the others take the rest. */
  ghost predicate FirstTakes(after: bool, lead: bool, toks: seq<Token>, s: string, k: nat, m: Mode)
    requires toks != [] && k <= |s|
  {
    && AcceptsAt(after, toks, 0, s[..k], m) && PeriodOk(lead, toks[0], s[..k], m)
    && Decomposes(toks[0].Star?, Guards(toks[0], s[..k], m), toks[1..], s[k..], m)
  }

  lemma PeelCut(after: bool, lead: bool, toks: seq<Token>, s: string, segs: seq<string>, m: Mode)
    requires toks != [] && CutsInto(after, lead, toks, s, segs, m)
    ensures |segs[0]| <= |s| && FirstTakes(after, lead, toks, s, |segs[0]|, m)
  {
    var k := |segs[0]|;
    assert s[..k] == segs[0] && s[k..] == Flatten(segs[1..]);
    var lead' := Guards(toks[0], segs[0], m);
    forall j | 0 <= j < |toks[1..]|
      ensures TakesAt(toks[0].Star?, lead', toks[1..], segs[1..], j, m)
    {
      assert TakesAt(after, lead, toks, segs, j + 1, m);
    }
    assert CutsInto(toks[0].Star?, lead', toks[1..], s[k..], segs[1..], m);
    assert TakesAt(after, lead, toks, segs, 0, m);
  }

  lemma JoinCut(after: bool, lead: bool, toks: seq<Token>, s: string, k: nat, m: Mode)
    requires toks != [] && k <= |s| && FirstTakes(after, lead, toks, s, k, m)
    ensures Decomposes(after, lead, toks, s, m)
  {
    var lead' := Guards(toks[0], s[..k], m);
    var rest :| CutsInto(toks[0].Star?, lead', toks[1..], s[k..], rest, m);
    var segs := [s[..k]] + rest;
    assert Flatten(segs) == s[..k] + s[k..] == s;
    forall j | 0 <= j < |toks|
      ensures TakesAt(after, lead, toks, segs, j, m)
    {
      if j > 0 {
        assert TakesAt(toks[0].Star?, lead', toks[1..], rest, j - 1, m);
      }
    }
    assert CutsInto(after, lead, toks, s, segs, m);
  }

  /** Peeling off the first token and its segment. */
  lemma DecomposesCons(after: bool, lead: bool, toks: seq<Token>, s: string, m: Mode)
    requires toks != []
    ensures Decomposes(after, lead, toks, s, m) <==> exists k :: 0 <= k <= |s| && FirstTakes(after, lead, toks, s, k, m)
  {
    if Decomposes(after, lead, toks, s, m) {
      var segs :| CutsInto(after, lead, toks, s, segs, m);
      PeelCut(after, lead, toks, s, segs, m);
    }
    if k :| 0 <= k <= |s| && FirstTakes(after, lead, toks, s, k, m) {
      JoinCut(after, lead, toks, s, k, m);
    }
  }

  lemma DecomposesNil(after: bool, lead: bool, s: string, m: Mode)
    ensures Decomposes(after, lead, [], s, m) <==> s == ""
  {
    assert Flatten<char>([]) == "";
    if s == "" {
      assert CutsInto(after, lead, [], s, [], m);
    }
  }

  /** A token that stands for one character. */
  lemma DecomposesChar(after: bool, lead: bool, toks: seq<Token>, s: string, m: Mode)
    requires toks != [] && !toks[0].Star?
    ensures Decomposes(after, lead, toks, s, m) <==>
            && s != "" && Accepts(toks[0], [s[0]], m) && PeriodOk(lead, toks[0], [s[0]], m)
            && Decomposes(false, m.flags.pathname && s[0] == '/', toks[1..], s[1..], m)
  {
    DecomposesCons(after, lead, toks, s, m);
    if s != "" {
      assert s[..1] == [s[0]];
    }
    if k :| 0 <= k <= |s| && FirstTakes(after, lead, toks, s, k, m) {
      assert k == 1;
    }
    if && s != "" && Accepts(toks[0], [s[0]], m) && PeriodOk(lead, toks[0], [s[0]], m)
       && Decomposes(false, m.flags.pathname && s[0] == '/', toks[1..], s[1..], m) {
      assert FirstTakes(after, lead, toks, s, 1, m);
    }
  }

  lemma DecomposesLastStar(after: bool, lead: bool, s: string, m: Mode)
    ensures Decomposes(after, lead, [Star], s, m) <==> (after ==> s != "")
  {
    var toks := [Star];
    if after ==> s != "" {
      assert Flatten([s]) == s + Flatten<char>([]) == s;
      assert TakesAt(after, lead, toks, [s], 0, m);
      assert CutsInto(after, lead, toks, s, [s], m);
    }
    if Decomposes(after, lead, toks, s, m) {
      var segs :| CutsInto(after, lead, toks, s, segs, m);
      assert TakesAt(after, lead, toks, segs, 0, m);
      assert Flatten(segs) == segs[0] + Flatten(segs[1..]);
    }
  }

  /** Whether a `*` stood before only matters to a lone `*`. */
  lemma AfterIrrelevant(lead: bool, toks: seq<Token>, s: string, m: Mode)
    requires toks != [Star]
    ensures Decomposes(true, lead, toks, s, m) == Decomposes(false, lead, toks, s, m)
  {
    forall segs
      ensures CutsInto(true, lead, toks, s, segs, m) == CutsInto(false, lead, toks, s, segs, m)
    {
      if |segs| == |toks| {
        forall k | 0 <= k < |toks|
          ensures TakesAt(true, lead, toks, segs, k, m) == TakesAt(false, lead, toks, segs, k, m)
        {
          assert k == 0 == |toks| - 1 ==> toks == [toks[0]];
        }
      }
    }
  }

  /** After a `*`, the empty string fits no tokens at all. */
  lemma {:induction false} EmptyNeverFits(lead: bool, toks: seq<Token>, m: Mode)
    requires toks != []
    ensures !Decomposes(true, lead, toks, "", m)
    decreases |toks|
  {
    if !toks[0].Star? {
      DecomposesChar(true, lead, toks, "", m);
    } else if |toks| == 1 {
      assert toks == [Star];
      DecomposesLastStar(true, lead, "", m);
    } else {
      EmptyNeverFits(true, toks[1..], m);
      DecomposesCons(true, lead, toks, "", m);
      forall k | 0 <= k <= 0 ensures ""[k..] == "" {}
    }
  }

  lemma {:induction false} ScanIsItems(p: string, s: char, matched: bool, m: Mode)
    ensures var r := ReadItems(p);
            ScanBracket(p, s, matched, m)
            == if r.NoEnd? then Unclosed
               else Closed(matched || AnyAccepts(r.items, s, m), r.rest)
    decreases |p|
  {
    if p != "" && p[0] != ']' {
      if RangeAhead(p) {
        ScanIsItems(p[3..], s, matched || m.InRange(p[0], s, p[2]), m);
        if ReadItems(p[3..]).Items? {
          AnyAcceptsCons(Range(p[0], p[2]), ReadItems(p[3..]).items, s, m);
        }
      } else {
        ScanIsItems(p[1..], s, matched || m.MatchChar(p[0], s), m);
        if ReadItems(p[1..]).Items? {
          AnyAcceptsCons(One(p[0]), ReadItems(p[1..]).items, s, m);
        }
      }
    }
  }

  lemma AnyAcceptsCons(item: Item, items: seq<Item>, s: char, m: Mode)
    ensures AnyAccepts([item] + items, s, m) <==> ItemAccepts(item, s, m) || AnyAccepts(items, s, m)
  {
    var all := [item] + items;
    assert all[0] == item;
    assert forall k :: 0 <= k < |items| ==> items[k] == all[k + 1];
    assert forall k :: 1 <= k < |all| ==> all[k] == items[k - 1];
  }

  /**
   The recursive, backtracking matcher decides exactly the declarative relation, for every
   pattern, every string and every combination of flags.
   */
  lemma {:induction false} MatchesIffDecomposes(p: string, s: string, prev: Option<char>, m: Mode)
    ensures Matches(p, s, prev, m) <==> Decomposes(false, m.Starts(prev), Tokens(p, m.flags.noescape), s, m)
    decreases |p|, 2
  {
    var toks, lead := Tokens(p, m.flags.noescape), m.Starts(prev);
    if p == "" {
      DecomposesNil(false, lead, s, m);
    } else if p[0] == '*' {
      if p[1..] == "" {
        assert toks == [Star];
        DecomposesLastStar(false, lead, s, m);
      } else {
        assert toks[1..] == Tokens(p[1..], m.flags.noescape);
        LaterIffDecomposes(p[1..], s, m);
        StarTakes(lead, toks, s, m);
      }
    } else if p[0] == '?' {
      AnyIffDecomposes(p, s, prev, m);
    } else if p[0] == '[' {
      BracketIffDecomposes(p, s, prev, m);
    } else {
      LiteralIffDecomposes(p, s, prev, m);
    }
  }

  lemma {:induction false} AnyIffDecomposes(p: string, s: string, prev: Option<char>, m: Mode)
    requires p != "" && p[0] == '?'
    ensures Matches(p, s, prev, m) <==> Decomposes(false, m.Starts(prev), Tokens(p, m.flags.noescape), s, m)
    decreases |p|, 1
  {
    var toks := Tokens(p, m.flags.noescape);
    DecomposesChar(false, m.Starts(prev), toks, s, m);
    assert toks[1..] == Tokens(p[1..], m.flags.noescape);
    if s != "" {
      MatchesIffDecomposes(p[1..], s[1..], Some(s[0]), m);
    }
  }

  lemma {:induction false} BracketIffDecomposes(p: string, s: string, prev: Option<char>, m: Mode)
    requires p != "" && p[0] == '['
    ensures Matches(p, s, prev, m) <==> Decomposes(false, m.Starts(prev), Tokens(p, m.flags.noescape), s, m)
    decreases |p|, 1
  {
    var toks := Tokens(p, m.flags.noescape);
    DecomposesChar(false, m.Starts(prev), toks, s, m);
    if s != "" {
      ScanIsItems(Inside(p[1..]), s[0], false, m);
      var r := ReadItems(Inside(p[1..]));
      if r.Items? {
        assert toks[1..] == Tokens(r.rest, m.flags.noescape);
        MatchesIffDecomposes(r.rest, s[1..], Some(s[0]), m);
      }
    }
  }

  lemma {:induction false} LiteralIffDecomposes(p: string, s: string, prev: Option<char>, m: Mode)
    requires p != "" && p[0] != '*' && p[0] != '?' && p[0] != '['
    ensures Matches(p, s, prev, m) <==> Decomposes(false, m.Starts(prev), Tokens(p, m.flags.noescape), s, m)
    decreases |p|, 1
  {
    var toks := Tokens(p, m.flags.noescape);
    DecomposesChar(false, m.Starts(prev), toks, s, m);
    if s != "" {
      var q := Unescape(p, m.flags.noescape);
      assert toks[1..] == Tokens(q[1..], m.flags.noescape);
      MatchesIffDecomposes(q[1..], s[1..], Some(s[0]), m);
    }
  }

  /** A `*` that is not the last token takes a prefix, and leaves a guarded place. */
  lemma StarTakes(lead: bool, toks: seq<Token>, s: string, m: Mode)
    requires |toks| > 1 && toks[0].Star?
    ensures Decomposes(false, lead, toks, s, m) <==> exists k :: 0 <= k <= |s| && StarLeaves(toks[1..], s, k, m)
  {
    DecomposesCons(false, lead, toks, s, m);
    forall k | 0 <= k <= |s|
      ensures FirstTakes(false, lead, toks, s, k, m) <==> StarLeaves(toks[1..], s, k, m)
    {
    }
  }

  /** A `*` takes k characters, and the tokens behind it take the rest. */
  ghost predicate StarLeaves(toks: seq<Token>, s: string, k: nat, m: Mode)
    requires k <= |s|
  {
    Accepts(Star, s[..k], m) && Decomposes(true, true, toks, s[k..], m)
  }

  /** The `*` loop finds a cut point if there is one. */
  lemma {:induction false} LaterIffDecomposes(p: string, s: string, m: Mode)
    requires p != ""
    ensures MatchesLater(p, s, m) <==>
            exists k :: 0 <= k <= |s| && StarLeaves(Tokens(p, m.flags.noescape), s, k, m)
    decreases |p|, 3 + |s|
  {
    var toks := Tokens(p, m.flags.noescape);
    EmptyNeverFits(true, toks, m);
    assert s[|s|..] == "";
    if s != "" {
      MatchesIffDecomposes(p, s, None, m);
      if toks == [Star] {
        DecomposesLastStar(true, true, s, m);
        DecomposesLastStar(false, true, s, m);
      } else {
        AfterIrrelevant(true, toks, s, m);
      }
      LaterIffDecomposes(p, s[1..], m);
      LaterStep(toks, s, m);
    }
  }

  /** The cut point is at the front, or behind a character that the `*` may take. */
  lemma LaterStep(toks: seq<Token>, s: string, m: Mode)
    requires s != ""
    ensures (exists k :: 0 <= k <= |s| && StarLeaves(toks, s, k, m))
      <==> || Decomposes(true, true, toks, s, m)
           || (!m.Barred(s[0]) && exists k :: 0 <= k <= |s[1..]| && StarLeaves(toks, s[1..], k, m))
  {
    assert s[..0] == "" && s[0..] == s;
    if Decomposes(true, true, toks, s, m) {
      assert StarLeaves(toks, s, 0, m);
    }
    forall k | 1 <= k <= |s|
      ensures StarLeaves(toks, s, k, m) <==> !m.Barred(s[0]) && StarLeaves(toks, s[1..], k - 1, m)
    {
      StarShift(s, k, m);
      assert s[1..][k - 1..] == s[k..];
    }
    if !m.Barred(s[0]) {
      if k :| 0 <= k <= |s[1..]| && StarLeaves(toks, s[1..], k, m) {
        assert StarLeaves(toks, s, k + 1, m);
      }
    }
  }

  lemma StarShift(s: string, k: nat, m: Mode)
    requires 1 <= k <= |s|
    ensures Accepts(Star, s[..k], m) <==> !m.Barred(s[0]) && Accepts(Star, s[1..][..k - 1], m)
  {
    assert s[..k] == [s[0]] + s[1..][..k - 1];
  }

  // ---------------------------------------------------------------------------------------
  // The token relation
  // ---------------------------------------------------------------------------------------

  /** Accepts without the code's own reading of a final `*`. */
  predicate FitsAt(lead: bool, toks: seq<Token>, segs: seq<string>, k: nat, m: Mode)
    requires k < |toks| == |segs|
  {
    Accepts(toks[k], segs[k], m) && PeriodOk(Guarded(lead, toks, segs, k, m), toks[k], segs[k], m)
  }

  ghost predicate FitsBy(lead: bool, toks: seq<Token>, s: string, segs: seq<string>, m: Mode) {
    && |segs| == |toks|
    && Flatten(segs) == s
    && forall k :: 0 <= k < |toks| ==> FitsAt(lead, toks, segs, k, m)
  }

  /** Every token, the last one included, accepts its own segment and nothing more is asked. */
  ghost predicate Fits(lead: bool, toks: seq<Token>, s: string, m: Mode) {
    exists segs :: FitsBy(lead, toks, s, segs, m)
  }

  predicate EndsInStar(toks: seq<Token>) {
    toks != [] && toks[|toks| - 1].Star?
  }

  predicate EndsInTwoStars(toks: seq<Token>) {
    |toks| >= 2 && toks[|toks| - 1].Star? && toks[|toks| - 2].Star?
  }

  /** Where a final `*` is not special, the two readings coincide. */
  lemma DecomposesIffFits(lead: bool, toks: seq<Token>, s: string, m: Mode)
    requires !EndsInTwoStars(toks)
    requires m.flags.pathname ==> !EndsInStar(toks)
    ensures Decomposes(false, lead, toks, s, m) <==> Fits(lead, toks, s, m)
  {
    forall segs
      ensures CutsInto(false, lead, toks, s, segs, m) == FitsBy(lead, toks, s, segs, m)
    {
      if |segs| == |toks| {
        forall k | 0 <= k < |toks|
          ensures TakesAt(false, lead, toks, segs, k, m) == FitsAt(lead, toks, segs, k, m)
        {
        }
      }
    }
  }

  /** Without FNM_PATHNAME, fnmatch is the token relation for every pattern that does not end in two stars. */
  lemma MatchesIffFits(p: string, s: string, m: Mode)
    requires !m.flags.pathname && !EndsInTwoStars(Tokens(p, m.flags.noescape))
    ensures Matches(p, s, None, m) <==> Fits(true, Tokens(p, m.flags.noescape), s, m)
  {
    MatchesIffDecomposes(p, s, None, m);
    DecomposesIffFits(true, Tokens(p, m.flags.noescape), s, m);
  }

  // ---------------------------------------------------------------------------------------
  // FNM_PATHNAME works component by component
  // ---------------------------------------------------------------------------------------

  function Split<T(==)>(xs: seq<T>, sep: T): (r: seq<seq<T>>)
    ensures |r| >= 1
    ensures forall part :: part in r ==> sep !in part
  {
    if xs == [] then [[]]
    else
      var r := Split(xs[1..], sep);
      if xs[0] == sep then [[]] + r else [[xs[0]] + r[0]] + r[1..]
  }

  /** The same call without FNM_PATHNAME. */
  function Plain(m: Mode): Mode {
    m.(flags := m.flags.(pathname := false))
  }

  /** No other character folds to a slash. */
  ghost predicate SlashAlone(m: Mode) {
    forall c :: m.MatchChar('/', c) || m.MatchChar(c, '/') ==> c == '/'
  }

  /** Each component of the string fits the tokens between the matching slashes. */
  ghost predicate FitsEach(lead: bool, parts: seq<seq<Token>>, comps: seq<string>, m: Mode) {
    |parts| == |comps| && forall k :: 0 <= k < |parts| ==> Fits(lead || k > 0, parts[k], comps[k], m)
  }

  /** The first token accepts k characters, and the rest fits the others. */
  ghost predicate FirstFits(lead: bool, toks: seq<Token>, s: string, k: nat, m: Mode)
    requires toks != [] && k <= |s|
  {
    && Accepts(toks[0], s[..k], m) && PeriodOk(lead, toks[0], s[..k], m)
    && Fits(Guards(toks[0], s[..k], m), toks[1..], s[k..], m)
  }

  lemma FitsCons(lead: bool, toks: seq<Token>, s: string, m: Mode)
    requires toks != []
    ensures Fits(lead, toks, s, m) <==> exists k :: 0 <= k <= |s| && FirstFits(lead, toks, s, k, m)
  {
    if Fits(lead, toks, s, m) {
      var segs :| FitsBy(lead, toks, s, segs, m);
      PeelFit(lead, toks, s, segs, m);
    }
    if k :| 0 <= k <= |s| && FirstFits(lead, toks, s, k, m) {
      JoinFit(lead, toks, s, k, m);
    }
  }

  lemma PeelFit(lead: bool, toks: seq<Token>, s: string, segs: seq<string>, m: Mode)
    requires toks != [] && FitsBy(lead, toks, s, segs, m)
    ensures |segs[0]| <= |s| && FirstFits(lead, toks, s, |segs[0]|, m)
  {
    var k := |segs[0]|;
    assert s[..k] == segs[0] && s[k..] == Flatten(segs[1..]);
    var lead' := Guards(toks[0], segs[0], m);
    forall j | 0 <= j < |toks[1..]|
      ensures FitsAt(lead', toks[1..], segs[1..], j, m)
    {
      assert FitsAt(lead, toks, segs, j + 1, m);
    }
    assert FitsBy(lead', toks[1..], s[k..], segs[1..], m);
    assert FitsAt(lead, toks, segs, 0, m);
  }

  lemma JoinFit(lead: bool, toks: seq<Token>, s: string, k: nat, m: Mode)
    requires toks != [] && k <= |s| && FirstFits(lead, toks, s, k, m)
    ensures Fits(lead, toks, s, m)
  {
    var lead' := Guards(toks[0], s[..k], m);
    var rest :| FitsBy(lead', toks[1..], s[k..], rest, m);
    var segs := [s[..k]] + rest;
    assert Flatten(segs) == s[..k] + s[k..] == s;
    forall j | 0 <= j < |toks|
      ensures FitsAt(lead, toks, segs, j, m)
    {
      if j > 0 {
        assert FitsAt(lead', toks[1..], rest, j - 1, m);
      }
    }
    assert FitsBy(lead, toks, s, segs, m);
  }

  lemma FitsNil(lead: bool, s: string, m: Mode)
    ensures Fits(lead, [], s, m) <==> s == ""
  {
    assert Flatten<char>([]) == "";
    if s == "" {
      assert FitsBy(lead, [], s, [], m);
    }
  }

  lemma FitsChar(lead: bool, toks: seq<Token>, s: string, m: Mode)
    requires toks != [] && !toks[0].Star?
    ensures Fits(lead, toks, s, m) <==>
            && s != "" && Accepts(toks[0], [s[0]], m) && PeriodOk(lead, toks[0], [s[0]], m)
            && Fits(m.flags.pathname && s[0] == '/', toks[1..], s[1..], m)
  {
    FitsCons(lead, toks, s, m);
    if s != "" {
      assert s[..1] == [s[0]];
    }
    if k :| 0 <= k <= |s| && FirstFits(lead, toks, s, k, m) {
      assert k == 1;
    }
    if && s != "" && Accepts(toks[0], [s[0]], m) && PeriodOk(lead, toks[0], [s[0]], m)
       && Fits(m.flags.pathname && s[0] == '/', toks[1..], s[1..], m) {
      assert FirstFits(lead, toks, s, 1, m);
    }
  }

  lemma FitsEachFirst(lead: bool, a: seq<Token>, ps: seq<seq<Token>>, b: string, cs: seq<string>, m: Mode)
    ensures FitsEach(lead, [a] + ps, [b] + cs, m) <==> Fits(lead, a, b, m) && FitsEach(true, ps, cs, m)
  {
    var parts, comps := [a] + ps, [b] + cs;
    assert parts[1..] == ps && comps[1..] == cs;
    if FitsEach(lead, parts, comps, m) {
      assert Fits(lead || 0 > 0, parts[0], comps[0], m);
      forall k | 0 <= k < |ps|
        ensures Fits(true || k > 0, ps[k], cs[k], m)
      {
        assert Fits(lead || k + 1 > 0, parts[k + 1], comps[k + 1], m);
      }
    }
    if Fits(lead, a, b, m) && FitsEach(true, ps, cs, m) {
      forall k | 0 <= k < |parts|
        ensures Fits(lead || k > 0, parts[k], comps[k], m)
      {
        if k > 0 {
          assert Fits(true || k - 1 > 0, ps[k - 1], cs[k - 1], m);
        }
      }
    }
  }

  lemma {:induction false} FitsComponentwise(lead: bool, toks: seq<Token>, s: string, m: Mode)
    requires m.flags.pathname && SlashAlone(m)
    ensures Fits(lead, toks, s, m) <==> FitsEach(lead, Split(toks, Lit('/')), Split(s, '/'), Plain(m))
    decreases |toks|, 2
  {
    var parts, comps := Split(toks, Lit('/')), Split(s, '/');
    if toks == [] {
      NilCase(lead, s, m);
    } else if toks[0] == Lit('/') {
      SlashCase(lead, toks, s, m);
    } else if !toks[0].Star? {
      CharCase(lead, toks, s, m);
    } else {
      StarCase(lead, toks, s, m);
    }
  }

  lemma NilCase(lead: bool, s: string, m: Mode)
    ensures Fits(lead, [], s, m) <==> FitsEach(lead, [[]], Split(s, '/'), Plain(m))
  {
    var comps := Split(s, '/');
    FitsNil(lead, s, m);
    FitsNil(lead, comps[0], Plain(m));
    FitsEachFirst(lead, [], [], comps[0], comps[1..], Plain(m));
    assert comps == [comps[0]] + comps[1..];
    if s != "" && s[0] == '/' {
      assert |comps| >= 2;
    }
  }

  lemma {:induction false} SlashCase(lead: bool, toks: seq<Token>, s: string, m: Mode)
    requires m.flags.pathname && SlashAlone(m)
    requires toks != [] && toks[0] == Lit('/')
    ensures Fits(lead, toks, s, m) <==> FitsEach(lead, Split(toks, Lit('/')), Split(s, '/'), Plain(m))
    decreases |toks|, 0
  {
    FitsChar(lead, toks, s, m);
    var rest := Split(toks[1..], Lit('/'));
    if s != "" {
      FitsComponentwise(true, toks[1..], s[1..], m);
      var comps := Split(s[1..], '/');
      FitsNil(lead, "", Plain(m));
      if s[0] == '/' {
        FitsEachFirst(lead, [], rest, "", comps, Plain(m));
      } else {
        FitsEachFirst(lead, [], rest, [s[0]] + comps[0], comps[1..], Plain(m));
        FitsNil(lead, [s[0]] + comps[0], Plain(m));
      }
    }
  }

  lemma {:induction false} CharCase(lead: bool, toks: seq<Token>, s: string, m: Mode)
    requires m.flags.pathname && SlashAlone(m)
    requires toks != [] && toks[0] != Lit('/') && !toks[0].Star?
    ensures Fits(lead, toks, s, m) <==> FitsEach(lead, Split(toks, Lit('/')), Split(s, '/'), Plain(m))
    decreases |toks|, 0
  {
    FitsChar(lead, toks, s, m);
    var r := Split(toks[1..], Lit('/'));
    var first := [toks[0]] + r[0];
    assert first[1..] == r[0];
    if s == "" {
      FitsEachFirst(lead, first, r[1..], "", [], Plain(m));
      FitsChar(lead, first, "", Plain(m));
    } else {
      var q := Split(s[1..], '/');
      if s[0] == '/' {
        FitsEachFirst(lead, first, r[1..], "", q, Plain(m));
        FitsChar(lead, first, "", Plain(m));
      } else {
        FitsComponentwise(false, toks[1..], s[1..], m);
        FitsEachFirst(lead, first, r[1..], [s[0]] + q[0], q[1..], Plain(m));
        FitsChar(lead, first, [s[0]] + q[0], Plain(m));
        assert ([s[0]] + q[0])[1..] == q[0];
        assert r == [r[0]] + r[1..] && q == [q[0]] + q[1..];
        FitsEachFirst(false, r[0], r[1..], q[0], q[1..], Plain(m));
      }
    }
  }

  /** Cutting a string inside its first component only shortens that component. */
  lemma {:induction false} SplitTail(s: string, k: nat)
    requires k <= |s|
    ensures '/' !in s[..k] <==> k <= |Split(s, '/')[0]|
    ensures '/' !in s[..k] ==>
              && Split(s[k..], '/') == [Split(s, '/')[0][k..]] + Split(s, '/')[1..]
    decreases k
  {
    var all := Split(s, '/');
    if k == 0 {
      assert s[0..] == s;
      assert all == [all[0][0..]] + all[1..];
    } else {
      SplitTail(s[1..], k - 1);
      assert s[..k] == [s[0]] + s[1..][..k - 1];
      assert s[1..][k - 1..] == s[k..];
      var q := Split(s[1..], '/');
      if s[0] != '/' {
        assert all[0] == [s[0]] + q[0];
        assert k <= |all[0]| ==> all[0][k..] == q[0][k - 1..];
        assert all[1..] == q[1..];
      }
    }
  }

  lemma {:induction false} StarCase(lead: bool, toks: seq<Token>, s: string, m: Mode)
    requires m.flags.pathname && SlashAlone(m)
    requires toks != [] && toks[0].Star?
    ensures Fits(lead, toks, s, m) <==> FitsEach(lead, Split(toks, Lit('/')), Split(s, '/'), Plain(m))
    decreases |toks|, 1
  {
    var r, q := Split(toks[1..], Lit('/')), Split(s, '/');
    var first := [toks[0]] + r[0];
    assert first[1..] == r[0];
    assert r == [r[0]] + r[1..] && q == [q[0]] + q[1..];
    FitsCons(lead, toks, s, m);
    FitsCons(lead, first, q[0], Plain(m));
    FitsEachFirst(lead, first, r[1..], q[0], q[1..], Plain(m));
    FirstComponentFits(s);
    forall k | 0 <= k <= |s|
      ensures FirstFits(lead, toks, s, k, m) ==> k <= |q[0]|
      ensures k <= |q[0]| ==>
        (FirstFits(lead, toks, s, k, m)
         <==> FirstFits(lead, first, q[0], k, Plain(m)) && FitsEach(true, r[1..], q[1..], Plain(m)))
    {
      StarPrefix(lead, toks, s, k, m);
    }
    if Fits(lead, toks, s, m) {
      var k :| 0 <= k <= |s| && FirstFits(lead, toks, s, k, m);
      assert FirstFits(lead, first, q[0], k, Plain(m));
    }
    if Fits(lead, first, q[0], Plain(m)) && FitsEach(true, r[1..], q[1..], Plain(m)) {
      var k :| 0 <= k <= |q[0]| && FirstFits(lead, first, q[0], k, Plain(m));
      assert FirstFits(lead, toks, s, k, m);
    }
  }

  /** What the first `*` takes is in the first component. */
  lemma {:induction false} StarPrefix(lead: bool, toks: seq<Token>, s: string, k: nat, m: Mode)
    requires m.flags.pathname && SlashAlone(m)
    requires toks != [] && toks[0].Star? && k <= |s|
    ensures var r, q := Split(toks[1..], Lit('/')), Split(s, '/');
      && (FirstFits(lead, toks, s, k, m) ==> k <= |q[0]|)
      && (k <= |q[0]| ==>
            (FirstFits(lead, toks, s, k, m)
             <==> FirstFits(lead, [toks[0]] + r[0], q[0], k, Plain(m)) && FitsEach(true, r[1..], q[1..], Plain(m))))
    decreases |toks|, 0
  {
    var r, q := Split(toks[1..], Lit('/')), Split(s, '/');
    assert ([toks[0]] + r[0])[1..] == r[0];
    SplitTail(s, k);
    if k <= |q[0]| {
      FitsComponentwise(true, toks[1..], s[k..], m);
      assert r == [r[0]] + r[1..];
      FitsEachFirst(true, r[0], r[1..], q[0][k..], q[1..], Plain(m));
    }
  }

  lemma {:induction false} FirstComponentFits(s: string)
    ensures |Split(s, '/')[0]| <= |s|
    decreases |s|
  {
    if s != "" {
      FirstComponentFits(s[1..]);
    }
  }

  /**
   With FNM_PATHNAME, for a pattern whose last token is not a `*`, fnmatch succeeds exactly when
   pattern and string have equally many components and each pair fits without the flag.
   */
  lemma PathnameIsComponentwise(p: string, s: string, m: Mode)
    requires m.flags.pathname && SlashAlone(m)
    requires !EndsInStar(Tokens(p, m.flags.noescape))
    ensures Matches(p, s, None, m) <==>
            FitsEach(true, Split(Tokens(p, m.flags.noescape), Lit('/')), Split(s, '/'), Plain(m))
  {
    var toks := Tokens(p, m.flags.noescape);
    MatchesIffDecomposes(p, s, None, m);
    DecomposesIffFits(true, toks, s, m);
    FitsComponentwise(true, toks, s, m);
  }

  // The same theorem on patterns as strings: fnmatch of a path is fnmatch of its components.

  /** A last backslash that escapes nothing. */
  predicate Dangling(p: string, noescape: bool) {
    !noescape && |p| == 1 && p[0] == '\\'
  }

  /** Reading p ends where p ends: no open bracket, no dangling escape. */
  predicate Complete(p: string, noescape: bool)
    decreases |p|
  {
    if p == "" then true
    else if p[0] == '*' || p[0] == '?' then Complete(p[1..], noescape)
    else if p[0] == '[' then
      var r := ReadItems(Inside(p[1..]));
      r.Items? && Complete(r.rest, noescape)
    else !Dangling(p, noescape) && Complete(Unescape(p, noescape)[1..], noescape)
  }

  lemma {:induction false} ItemsConcat(p: string, q: string)
    requires ReadItems(p).Items?
    ensures ReadItems(p + q) == Items(ReadItems(p).items, ReadItems(p).rest + q)
    decreases |p|
  {
    if p[0] == ']' {
      assert (p + q)[1..] == p[1..] + q;
    } else if RangeAhead(p) {
      ItemsConcat(p[3..], q);
      assert (p + q)[3..] == p[3..] + q;
    } else {
      ItemsConcat(p[1..], q);
      assert (p + q)[1..] == p[1..] + q;
      assert !RangeAhead(p + q) by {
        assert |p| == 2 ==> p[1..][0] == p[1] && p[1..][1..] == "";
      }
    }
  }

  lemma {:induction false} TokensConcat(p: string, q: string, noescape: bool)
    requires Complete(p, noescape)
    ensures Tokens(p + q, noescape) == Tokens(p, noescape) + Tokens(q, noescape)
    decreases |p|
  {
    if p == "" {
      assert p + q == q;
    } else if q == "" {
      assert p + q == p;
    } else {
      var rest := Behind(p, noescape);
      var head := AfterToken(p, q, noescape);
      TokensConcat(rest, q, noescape);
      Assoc([head], Tokens(rest, noescape), Tokens(q, noescape));
    }
  }

  /** The first token of p ends inside p. */
  predicate EndsInside(p: string, noescape: bool) {
    p != "" && !Dangling(p, noescape) && (p[0] == '[' ==> ReadItems(Inside(p[1..])).Items?)
  }

  /** What is left of p behind its first token. */
  function Behind(p: string, noescape: bool): (rest: string)
    requires EndsInside(p, noescape)
    ensures |rest| < |p|
    ensures Complete(p, noescape) <==> Complete(rest, noescape)
  {
    if p[0] == '[' then ReadItems(Inside(p[1..])).rest
    else if p[0] == '*' || p[0] == '?' then p[1..]
    else Unescape(p, noescape)[1..]
  }

  /** The first token of p is also the first token of p + q. */
  lemma {:induction false} AfterToken(p: string, q: string, noescape: bool) returns (head: Token)
    requires EndsInside(p, noescape)
    ensures Tokens(p, noescape) == [head] + Tokens(Behind(p, noescape), noescape)
    ensures Tokens(p + q, noescape) == [head] + Tokens(Behind(p, noescape) + q, noescape)
  {
    head := Tokens(p, noescape)[0];
    if p[0] == '*' || p[0] == '?' {
      assert (p + q)[1..] == p[1..] + q;
    } else if p[0] == '[' {
      AfterBracket(p, q, noescape);
    } else {
      AfterCharacter(p, q, noescape);
    }
  }

  lemma {:induction false} AfterBracket(p: string, q: string, noescape: bool)
    requires p != "" && p[0] == '[' && ReadItems(Inside(p[1..])).Items?
    ensures var head, rest := Tokens(p, noescape)[0], ReadItems(Inside(p[1..])).rest;
      Tokens(p, noescape) == [head] + Tokens(rest, noescape)
      && Tokens(p + q, noescape) == [head] + Tokens(rest + q, noescape)
  {
    var b := p[1..];
    BracketFirst(p, noescape);
    assert (p + q)[1..] == b + q;
    InsideOf(b, q);
    ItemsConcat(Inside(b), q);
    BracketFirst(p + q, noescape);
  }

  lemma InsideOf(b: string, q: string)
    requires b != ""
    ensures Inside(b + q) == Inside(b) + q && (Negated(b + q) <==> Negated(b))
  {
    assert (b + q)[1..] == b[1..] + q;
  }

  lemma {:induction false} BracketFirst(p: string, noescape: bool)
    requires p != "" && p[0] == '[' && ReadItems(Inside(p[1..])).Items?
    ensures var r := ReadItems(Inside(p[1..]));
      Tokens(p, noescape) == [Bracket(Negated(p[1..]), r.items)] + Tokens(r.rest, noescape)
  {
  }

  lemma {:induction false} AfterCharacter(p: string, q: string, noescape: bool)
    requires p != "" && p[0] != '[' && p[0] != '*' && p[0] != '?' && EndsInside(p, noescape)
    ensures var head, rest := Tokens(p, noescape)[0], Behind(p, noescape);
      Tokens(p, noescape) == [head] + Tokens(rest, noescape)
      && Tokens(p + q, noescape) == [head] + Tokens(rest + q, noescape)
  {
    var u := Unescape(p, noescape);
    assert Unescape(p + q, noescape) == u + q;
    assert (u + q)[1..] == u[1..] + q;
  }

  /** A component: complete, and without a slash token. */
  predicate Component(p: string, noescape: bool) {
    Complete(p, noescape) && Lit('/') !in Tokens(p, noescape)
  }

  function JoinPath(ps: seq<string>): string
    requires ps != []
  {
    if |ps| == 1 then ps[0] else ps[0] + ("/" + JoinPath(ps[1..]))
  }

  function TokensOfEach(ps: seq<string>, noescape: bool): (r: seq<seq<Token>>)
    ensures |r| == |ps| && forall k :: 0 <= k < |ps| ==> r[k] == Tokens(ps[k], noescape)
  {
    seq(|ps|, k requires 0 <= k < |ps| => Tokens(ps[k], noescape))
  }

  lemma {:induction false} SplitWithout<T>(a: seq<T>, b: seq<T>, sep: T)
    requires sep !in a
    ensures Split(a, sep) == [a]
    ensures Split(a + [sep] + b, sep) == [a] + Split(b, sep)
    decreases |a|
  {
    var t := a + [sep] + b;
    if a == [] {
      assert t[1..] == b;
    } else {
      SplitWithout(a[1..], b, sep);
      assert t[1..] == a[1..] + [sep] + b;
      assert [a[0]] + a[1..] == a;
    }
  }

  lemma TokensOfSlash(a: string, rest: string, noescape: bool)
    requires Complete(a, noescape)
    ensures Tokens(a + ("/" + rest), noescape)
            == Tokens(a, noescape) + [Lit('/')] + Tokens(rest, noescape)
  {
    TokensConcat(a, "/" + rest, noescape);
    SlashFirst(rest, noescape);
    Assoc(Tokens(a, noescape), [Lit('/')], Tokens(rest, noescape));
  }

  lemma SlashFirst(rest: string, noescape: bool)
    ensures Tokens("/" + rest, noescape) == [Lit('/')] + Tokens(rest, noescape)
  {
    assert ("/" + rest)[1..] == rest;
  }

  lemma TokensOfEachCons(ps: seq<string>, noescape: bool)
    requires ps != []
    ensures TokensOfEach(ps, noescape) == [Tokens(ps[0], noescape)] + TokensOfEach(ps[1..], noescape)
  {
  }

  lemma {:induction false} JoinedTokens(ps: seq<string>, noescape: bool)
    requires ps != [] && forall p :: p in ps ==> Component(p, noescape)
    ensures Split(Tokens(JoinPath(ps), noescape), Lit('/')) == TokensOfEach(ps, noescape)
    decreases |ps|
  {
    var a, tail := Tokens(ps[0], noescape), ps[1..];
    assert Component(ps[0], noescape);
    TokensOfEachCons(ps, noescape);
    if tail == [] {
      SplitWithout(a, [], Lit('/'));
    } else {
      JoinedTokens(tail, noescape);
      TokensOfSlash(ps[0], JoinPath(tail), noescape);
      SplitWithout(a, Tokens(JoinPath(tail), noescape), Lit('/'));
    }
  }

  /** The last token of a path is a `*` only if that of its last component is. */
  lemma {:induction false} JoinedEnd(ps: seq<string>, noescape: bool)
    requires ps != [] && forall p :: p in ps ==> Component(p, noescape)
    ensures EndsInStar(Tokens(JoinPath(ps), noescape)) == EndsInStar(Tokens(ps[|ps| - 1], noescape))
    decreases |ps|
  {
    if |ps| > 1 {
      assert Component(ps[0], noescape);
      JoinedEnd(ps[1..], noescape);
      TokensOfSlash(ps[0], JoinPath(ps[1..]), noescape);
      EndOfConcat(Tokens(ps[0], noescape), Tokens(JoinPath(ps[1..]), noescape));
      assert ps[1..][|ps| - 2] == ps[|ps| - 1];
    }
  }

  lemma EndOfConcat(a: seq<Token>, b: seq<Token>)
    ensures EndsInStar(a + [Lit('/')] + b) == EndsInStar(b)
  {
    var t := a + [Lit('/')] + b;
    if b == [] {
      assert t[|t| - 1] == Lit('/');
    } else {
      assert t[|t| - 1] == b[|b| - 1];
    }
  }

  /**
   fnmatch of a path with FNM_PATHNAME is fnmatch of the components without it: for components
   none of which ends in two stars, the last of which does not end in a star.
   */
  lemma PathnameOfComponents(ps: seq<string>, s: string, m: Mode)
    requires m.flags.pathname && SlashAlone(m)
    requires ps != []
    requires forall p :: p in ps ==>
               Component(p, m.flags.noescape) && !EndsInTwoStars(Tokens(p, m.flags.noescape))
    requires !EndsInStar(Tokens(ps[|ps| - 1], m.flags.noescape))
    ensures Matches(JoinPath(ps), s, None, m) <==>
            var comps := Split(s, '/');
            && |comps| == |ps|
            && forall k :: 0 <= k < |ps| ==> Matches(ps[k], comps[k], None, Plain(m))
  {
    var comps := Split(s, '/');
    JoinedTokens(ps, m.flags.noescape);
    JoinedEnd(ps, m.flags.noescape);
    PathnameIsComponentwise(JoinPath(ps), s, m);
    EachAgrees(ps, comps, Plain(m));
  }

  lemma EachAgrees(ps: seq<string>, comps: seq<string>, m: Mode)
    requires !m.flags.pathname
    requires forall p :: p in ps ==> !EndsInTwoStars(Tokens(p, m.flags.noescape))
    ensures FitsEach(true, TokensOfEach(ps, m.flags.noescape), comps, m)
       <==> |comps| == |ps| && forall k :: 0 <= k < |ps| ==> Matches(ps[k], comps[k], None, m)
  {
    if |comps| == |ps| {
      forall k | 0 <= k < |ps|
        ensures Matches(ps[k], comps[k], None, m)
                <==> Fits(true || k > 0, TokensOfEach(ps, m.flags.noescape)[k], comps[k], m)
      {
        MatchesIffFits(ps[k], comps[k], m);
      }
    }
  }

  // ---------------------------------------------------------------------------------------
  // FNM_CASEFOLD
  // ---------------------------------------------------------------------------------------

  function Lower(s: string, lower: char -> char): (r: string)
    ensures |r| == |s| && forall k :: 0 <= k < |s| ==> r[k] == lower(s[k])
  {
    seq(|s|, k requires 0 <= k < |s| => lower(s[k]))
  }

  /** The characters that the matcher looks for. */
  predicate Special(c: char) {
    || c == '*' || c == '?' || c == '[' || c == ']' || c == '!' || c == '^'
    || c == '-' || c == '\\' || c == '/' || c == '.'
  }

  /** Lower-casing is idempotent, and no other character becomes one that the matcher looks for. */
  ghost predicate GoodLower(lower: char -> char) {
    && (forall c :: lower(lower(c)) == lower(c))
    && (forall c {:trigger lower(c)} :: Special(c) || Special(lower(c)) ==> lower(c) == c)
  }

  lemma LowerTail(s: string, k: nat, lower: char -> char)
    requires k <= |s|
    ensures Lower(s[k..], lower) == Lower(s, lower)[k..]
  {
  }

  /** tolower of the C locale. */
  function AsciiLower(c: char): char {
    if 'A' <= c <= 'Z' then (c as int + 32) as char else c
  }

  lemma AsciiLowerIsGood()
    ensures GoodLower(AsciiLower)
  {
    forall c ensures AsciiLower(AsciiLower(c)) == AsciiLower(c) {
      assert 'A' <= c <= 'Z' ==> AsciiLower(c) as int == c as int + 32;
    }
    forall c | Special(c) || Special(AsciiLower(c)) ensures AsciiLower(c) == c {
      assert 'A' <= c <= 'Z' ==> 'a' <= AsciiLower(c) <= 'z';
    }
  }

  function Folding(m: Mode, on: bool): Mode {
    m.(flags := m.flags.(casefold := on))
  }

  function LowerPrev(prev: Option<char>, lower: char -> char): Option<char> {
    match prev case None => None case Some(c) => Some(lower(c))
  }

  lemma {:induction false} ScanFolds(p: string, s: char, matched: bool, m: Mode)
    requires GoodLower(m.lower)
    ensures var r := ScanBracket(p, s, matched, Folding(m, true));
            ScanBracket(Lower(p, m.lower), m.lower(s), matched, m)
            == if r.Unclosed? then Unclosed else Closed(r.matched, Lower(r.rest, m.lower))
    decreases |p|
  {
    var lp := Lower(p, m.lower);
    if p != "" {
      LowerTail(p, 1, m.lower);
      if p[0] != ']' {
        assert RangeAhead(p) <==> RangeAhead(lp);
        var f := Folding(m, true);
        if RangeAhead(p) {
          LowerTail(p, 3, m.lower);
          assert f.InRange(p[0], s, p[2]) == m.InRange(lp[0], m.lower(s), lp[2]);
          ScanFolds(p[3..], s, matched || f.InRange(p[0], s, p[2]), m);
        } else {
          assert f.MatchChar(p[0], s) == m.MatchChar(lp[0], m.lower(s));
          ScanFolds(p[1..], s, matched || f.MatchChar(p[0], s), m);
        }
      }
    }
  }

  /**
   Matching with FNM_CASEFOLD is matching the lower-cased pattern against the lower-cased string,
   bracket ranges included, whatever the other flags.
   */
  lemma {:induction false} CaseFoldIsLowering(p: string, s: string, prev: Option<char>, m: Mode)
    requires GoodLower(m.lower)
    ensures Matches(p, s, prev, Folding(m, true))
            == Matches(Lower(p, m.lower), Lower(s, m.lower), LowerPrev(prev, m.lower), m)
    decreases |p|, 0
  {
    var f := Folding(m, true);
    var lp, ls := Lower(p, m.lower), Lower(s, m.lower);
    if p != "" {
      LowerTail(p, 1, m.lower);
      if p[0] == '*' {
        if p[1..] != "" {
          LaterFolds(p[1..], s, m);
        }
      } else if s != "" {
        LowerTail(s, 1, m.lower);
        assert f.Barred(s[0]) == m.Barred(ls[0]);
        assert f.Leading(s[0], prev) == m.Leading(ls[0], LowerPrev(prev, m.lower));
        if p[0] == '?' {
          CaseFoldIsLowering(p[1..], s[1..], Some(s[0]), m);
        } else if p[0] == '[' {
          assert Negated(p[1..]) == Negated(lp[1..]);
          assert Inside(lp[1..]) == Lower(Inside(p[1..]), m.lower) by {
            if Negated(p[1..]) {
              LowerTail(p[1..], 1, m.lower);
            }
          }
          ScanFolds(Inside(p[1..]), s[0], false, m);
          var r := ScanBracket(Inside(p[1..]), s[0], false, f);
          if r.Closed? {
            CaseFoldIsLowering(r.rest, s[1..], Some(s[0]), m);
          }
        } else {
          var q := Unescape(p, m.flags.noescape);
          assert Unescape(lp, m.flags.noescape) == Lower(q, m.lower);
          LowerTail(q, 1, m.lower);
          CaseFoldIsLowering(q[1..], s[1..], Some(s[0]), m);
        }
      }
    }
  }

  lemma {:induction false} LaterFolds(p: string, s: string, m: Mode)
    requires GoodLower(m.lower)
    ensures MatchesLater(p, s, Folding(m, true))
            == MatchesLater(Lower(p, m.lower), Lower(s, m.lower), m)
    decreases |p|, 1 + |s|
  {
    if s != "" {
      CaseFoldIsLowering(p, s, None, m);
      LowerTail(s, 1, m.lower);
      LaterFolds(p, s[1..], m);
    }
  }
}
