/**
 What each kind of pattern matches (source/fnmatch.c), said in characters: literal text, `?`, escapes,
 brackets of characters and ranges, and `*`. Nothing here rests on how the matcher compares.
 */
module FnmatchAtoms {
  import opened CStrings
  import opened Fnmatch

  /** A character as the call sees it: lowered under FNM_CASEFOLD. */
  function Seen(c: char, m: Mode): char {
    if m.flags.casefold then m.lower(c) else c
  }

  /** Text without `*`, `?`, `[` and backslash. */
  predicate Ordinary(p: string) {
    forall k :: 0 <= k < |p| ==> p[k] != '*' && p[k] != '?' && p[k] != '[' && p[k] != '\\'
  }

  /** The same text, but for case under FNM_CASEFOLD. */
  predicate SameText(p: string, s: string, m: Mode) {
    |p| == |s| && forall k :: 0 <= k < |p| ==> Seen(p[k], m) == Seen(s[k], m)
  }

  /** Under both flags no other character is taken for a period. */
  ghost predicate PeriodAlone(m: Mode) {
    m.flags.period && m.flags.casefold ==> forall c {:trigger m.lower(c)} :: m.lower(c) == m.lower('.') ==> c == '.'
  }

  /** The character before what follows p. */
  function Last(p: string, prev: Option<char>): Option<char> {
    if p == "" then prev else Some(p[|p| - 1])
  }

  /** Ordinary text in front of a pattern takes the same text, and nothing else. */
  lemma {:induction false} OrdinaryFront(p: string, q: string, s: string, prev: Option<char>, m: Mode)
    requires Ordinary(p) && PeriodAlone(m)
    ensures Matches(p + q, s, prev, m)
      <==> |p| <= |s| && SameText(p, s[..|p|], m) && Matches(q, s[|p|..], Last(s[..|p|], prev), m)
    decreases |p|
  {
    if p == "" {
      assert p + q == q && s[0..] == s;
    } else if s != "" {
      var r := p + q;
      assert r[0] == p[0] && r[1..] == p[1..] + q;
      assert Unescape(r, m.flags.noescape) == r;
      OrdinaryFront(p[1..], q, s[1..], Some(s[0]), m);
      if |p| <= |s| {
        OneMoreFront(p, s, prev, m);
      }
    }
  }

  lemma OneMoreFront(p: string, s: string, prev: Option<char>, m: Mode)
    requires p != "" && |p| <= |s|
    ensures s[1..][|p| - 1..] == s[|p|..]
    ensures Last(s[..|p|], prev) == Last(s[1..][..|p| - 1], Some(s[0]))
    ensures SameText(p, s[..|p|], m) <==> Seen(p[0], m) == Seen(s[0], m) && SameText(p[1..], s[1..][..|p| - 1], m)
  {
    var t, rest, n := s[..|p|], s[1..], |p| - 1;
    assert t[1..] == rest[..n] && t[0] == s[0];
    assert rest[n..] == s[|p|..];
    assert n > 0 ==> t[n] == rest[..n][n - 1];
    SameTextCons(p, t, m);
  }

  lemma SameTextCons(p: string, t: string, m: Mode)
    requires |p| == |t| && p != ""
    ensures SameText(p, t, m) <==> Seen(p[0], m) == Seen(t[0], m) && SameText(p[1..], t[1..], m)
  {
    if SameText(p, t, m) {
      assert forall k :: 0 <= k < |p| - 1 ==> p[1..][k] == p[k + 1] && t[1..][k] == t[k + 1];
    }
    if Seen(p[0], m) == Seen(t[0], m) && SameText(p[1..], t[1..], m) {
      forall k | 0 <= k < |p|
        ensures Seen(p[k], m) == Seen(t[k], m)
      {
        assert k > 0 ==> p[k] == p[1..][k - 1] && t[k] == t[1..][k - 1];
      }
    }
  }

  /** A pattern without metacharacters matches itself, and nothing else. */
  lemma OrdinaryExactly(p: string, s: string, m: Mode)
    requires Ordinary(p) && PeriodAlone(m)
    ensures Matches(p, s, None, m) <==> SameText(p, s, m)
  {
    assert p + "" == p;
    OrdinaryFront(p, "", s, None, m);
    if |p| <= |s| {
      assert s[|p|..] == "" <==> |s| == |p|;
      assert |s| == |p| ==> s[..|p|] == s;
    }
  }

  // ---------------------------------------------------------------------------------------
  // One character: `?`, escapes and brackets
  // ---------------------------------------------------------------------------------------

  /** The k-th character is no slash that FNM_PATHNAME keeps for itself, and no leading period under FNM_PERIOD. */
  predicate Free(s: string, k: nat, m: Mode)
    requires k < |s|
  {
    && !(m.flags.pathname && s[k] == '/')
    && !(m.flags.period && s[k] == '.' && (k == 0 || (m.flags.pathname && s[k - 1] == '/')))
  }

  /** s is the text p and one character more. */
  predicate OneBehind(p: string, s: string, m: Mode) {
    |s| == |p| + 1 && SameText(p, s[..|p|], m)
  }

  /** Behind ordinary text, what takes one character decides. */
  lemma {:induction false} OneAfter(p: string, q: string, s: string, m: Mode)
    requires Ordinary(p) && PeriodAlone(m)
    requires forall t, prev :: Matches(q, t, prev, m) ==> |t| == 1
    ensures Matches(p + q, s, None, m)
      <==> OneBehind(p, s, m) && Matches(q, [s[|p|]], if p == "" then None else Some(s[|p| - 1]), m)
  {
    OrdinaryFront(p, q, s, None, m);
    if |s| == |p| + 1 {
      assert s[|p|..] == [s[|p|]];
    } else if |p| <= |s| {
      assert |s[|p|..]| != 1;
    }
  }

  /** `?` takes any one character that is free. */
  lemma QuestionExactly(p: string, s: string, m: Mode)
    requires Ordinary(p) && PeriodAlone(m)
    ensures Matches(p + "?", s, None, m) <==> OneBehind(p, s, m) && Free(s, |p|, m)
  {
    assert "?"[1..] == "";
    OneAfter(p, "?", s, m);
    if |s| == |p| + 1 {
      assert [s[|p|]][1..] == "";
    }
  }

  /** An escaped character takes itself, whatever it is, unless FNM_NOESCAPE is set. */
  lemma EscapeExactly(p: string, c: char, s: string, m: Mode)
    requires Ordinary(p) && PeriodAlone(m) && !m.flags.noescape
    ensures Matches(p + ("\\" + [c]), s, None, m) <==> OneBehind(p, s, m) && Seen(s[|p|], m) == Seen(c, m)
  {
    var q := "\\" + [c];
    assert q[0] == '\\' && q[1..] == [c] && [c][1..] == "";
    assert Unescape(q, false) == [c];
    OneAfter(p, q, s, m);
    if |s| == |p| + 1 {
      assert [s[|p|]][1..] == "";
    }
  }

  /** With it, a backslash is an ordinary character. */
  lemma BackslashExactly(p: string, q: string, s: string, m: Mode)
    requires Ordinary(p) && Ordinary(q) && PeriodAlone(m) && m.flags.noescape
    ensures Matches(p + ("\\" + q), s, None, m) <==> SameText(p + ("\\" + q), s, m)
  {
    var r := "\\" + q;
    assert r[0] == '\\' && r[1..] == q;
    OrdinaryFront(p, r, s, None, m);
    if |p| < |s| {
      var t := s[|p|..];
      assert q + "" == q;
      OrdinaryFront(q, "", t[1..], Some(t[0]), m);
      assert |t[1..]| == |q| ==> t[1..][..|q|] == t[1..] && t[1..][|q|..] == "";
      if |s| == |p| + |r| {
        JoinedText(p, r, s, m);
        JoinedText("\\", q, t, m);
        assert "\\" + q == r && t[..1] == [t[0]] && t[1..] == t[|"\\"|..];
      }
    }
  }

  /** Two texts side by side. */
  lemma JoinedText(p: string, q: string, s: string, m: Mode)
    requires |s| == |p| + |q|
    ensures SameText(p + q, s, m) <==> SameText(p, s[..|p|], m) && SameText(q, s[|p|..], m)
  {
    var r := p + q;
    if SameText(r, s, m) {
      assert forall k :: 0 <= k < |p| ==> r[k] == p[k] && s[..|p|][k] == s[k];
      assert forall k :: 0 <= k < |q| ==> r[|p| + k] == q[k] && s[|p|..][k] == s[|p| + k];
    }
    if SameText(p, s[..|p|], m) && SameText(q, s[|p|..], m) {
      forall k | 0 <= k < |r|
        ensures Seen(r[k], m) == Seen(s[k], m)
      {
        if k < |p| {
          assert r[k] == p[k] && s[..|p|][k] == s[k];
        } else {
          assert r[k] == q[k - |p|] && s[|p|..][k - |p|] == s[k];
        }
      }
    }
  }

  /** The order of signed characters: 128 to 255 come before 0 to 127. */
  function Order(c: char): nat {
    (c as int + 128) % 256
  }

  /** The item of a bracket has this character. */
  predicate Has(i: Item, c: char, m: Mode) {
    match i
    case One(d) => Seen(c, m) == Seen(d, m)
    case Range(lo, hi) => Order(Seen(lo, m)) <= Order(Seen(c, m)) <= Order(Seen(hi, m))
  }

  predicate SomeHas(items: seq<Item>, c: char, m: Mode) {
    exists k :: 0 <= k < |items| && Has(items[k], c, m)
  }

  /** A bracket's list as it is written. */
  function Text(items: seq<Item>): string {
    if items == [] then ""
    else (match items[0] case One(c) => [c] case Range(lo, hi) => [lo] + "-" + [hi]) + Text(items[1..])
  }

  predicate Byte(c: char) {
    c as int < 256
  }

  /** The item begins with a dash. */
  predicate Dashed(i: Item) {
    match i
    case One(c) => c == '-'
    case Range(lo, hi) => lo == '-'
  }

  /**
   Lists that read as they are written: bytes, no `]`, and a dash at the start of an item only where
   it makes no range with the character before it: first, behind a range, or as the last character.
   */
  predicate Writable(items: seq<Item>) {
    forall k :: 0 <= k < |items| ==>
      && (match items[k]
          case One(c) => c != ']' && Byte(c)
          case Range(lo, hi) => lo != ']' && hi != ']' && Byte(lo) && Byte(hi))
      && (k > 0 && Dashed(items[k]) ==> items[k - 1].Range? || (k == |items| - 1 && items[k].One?))
  }

  lemma WritableRest(items: seq<Item>)
    requires Writable(items) && items != []
    ensures Writable(items[1..])
  {
    var rest := items[1..];
    assert forall k :: 0 <= k < |rest| ==> rest[k] == items[k + 1];
    forall k | 0 < k < |rest| && Dashed(rest[k])
      ensures rest[k - 1].Range? || (k == |rest| - 1 && rest[k].One?)
    {
      assert items[(k + 1) - 1] == rest[k - 1] && Dashed(items[k + 1]);
    }
  }

  /** Characters are bytes, and tolower keeps them so. */
  ghost predicate Bytes(m: Mode) {
    forall c {:trigger m.lower(c)} :: Byte(c) ==> Byte(m.lower(c))
  }

  lemma SignedOrder(a: char, b: char)
    requires Byte(a) && Byte(b)
    ensures Order(a) <= Order(b) <==> Code(a) <= Code(b)
  {
  }

  lemma HasItem(i: Item, c: char, m: Mode)
    requires Bytes(m) && Byte(c) && Writable([i])
    ensures Has(i, c, m) <==> ItemAccepts(i, c, m)
  {
    assert [i][0] == i;
    if i.Range? {
      SignedOrder(Seen(i.lo, m), Seen(c, m));
      SignedOrder(Seen(c, m), Seen(i.hi, m));
    }
  }

  /** What is written reads back as a list with the same items. */
  lemma {:induction false} TextReads(items: seq<Item>, c: char, matched: bool, m: Mode)
    requires Bytes(m) && Byte(c) && Writable(items)
    ensures ScanBracket(Text(items) + "]", c, matched, m) == Closed(matched || SomeHas(items, c, m), "")
    decreases |items|
  {
    var p := Text(items) + "]";
    if items == [] {
      assert p == "]" && "]"[1..] == "";
    } else {
      var i, rest := items[0], items[1..];
      WritableRest(items);
      assert Writable([i]);
      HasItem(i, c, m);
      SomeHasCons(i, rest, c, m);
      assert [i] + rest == items;
      TextReads(rest, c, matched || Has(i, c, m), m);
      FirstItem(items, c, matched, m);
    }
  }

  lemma SomeHasCons(i: Item, rest: seq<Item>, c: char, m: Mode)
    ensures SomeHas([i] + rest, c, m) <==> Has(i, c, m) || SomeHas(rest, c, m)
  {
    var items := [i] + rest;
    if k :| 0 <= k < |items| && Has(items[k], c, m) {
      assert k > 0 ==> items[k] == rest[k - 1];
    }
    if k :| 0 <= k < |rest| && Has(rest[k], c, m) {
      assert items[k + 1] == rest[k];
    }
    assert items[0] == i;
  }

  lemma FirstItem(items: seq<Item>, c: char, matched: bool, m: Mode)
    requires items != [] && Writable(items)
    ensures ScanBracket(Text(items) + "]", c, matched, m)
      == ScanBracket(Text(items[1..]) + "]", c, matched || ItemAccepts(items[0], c, m), m)
  {
    var p, rest := Text(items) + "]", Text(items[1..]) + "]";
    match items[0]
    case One(d) =>
      assert p == [d] + rest && p[1..] == rest;
      SecondOfText(items);
    case Range(lo, hi) =>
      assert p == [lo, '-', hi] + rest && p[3..] == rest;
  }

  /** A character that is no range is followed by no dash, or by the last one. */
  lemma SecondOfText(items: seq<Item>)
    requires items != [] && items[0].One? && Writable(items)
    ensures !RangeAhead(Text(items) + "]")
  {
    var rest := items[1..];
    assert |items| > 1 ==> rest[0] == items[1];
    if |items| > 1 && Dashed(items[1]) {
      assert items[2 - 1] == items[1] && rest[1..] == [];
      assert Text(rest) == "-";
    }
  }

  /** A bracket, negated or not, takes a free character that it has, or has not. */
  lemma {:induction false} BracketExactly(p: string, bang: string, items: seq<Item>, s: string, m: Mode)
    requires Ordinary(p) && PeriodAlone(m) && Bytes(m) && Writable(items)
    requires forall k :: 0 <= k < |s| ==> Byte(s[k])
    requires bang == "!" || bang == "^" || (bang == "" && (items == [] || Text(items)[0] !in "!^"))
    ensures Matches(p + ("[" + bang + Text(items) + "]"), s, None, m)
      <==> OneBehind(p, s, m) && Free(s, |p|, m) && SomeHas(items, s[|p|], m) != (bang != "")
  {
    var list := Text(items) + "]";
    var q := "[" + bang + Text(items) + "]";
    BracketOpens(bang, items, list, q);
    forall t, prev | Matches(q, t, prev, m)
      ensures |t| == 1
    {
      if t != "" {
        ScanRest(items, t[0], false, m);
        BracketTakesOne(q, list, t, prev, m);
      }
    }
    OneAfter(p, q, s, m);
    if |s| == |p| + 1 {
      TextReads(items, s[|p|], false, m);
      BracketTakes(q, list, s[|p|], if p == "" then None else Some(s[|p| - 1]), m);
    }
  }

  lemma BracketOpens(bang: string, items: seq<Item>, list: string, q: string)
    requires list == Text(items) + "]" && q == "[" + bang + Text(items) + "]"
    requires bang == "!" || bang == "^" || (bang == "" && (items == [] || Text(items)[0] !in "!^"))
    ensures q != "" && q[0] == '[' && Inside(q[1..]) == list && (Negated(q[1..]) <==> bang != "")
  {
    assert q[1..] == bang + list;
    if bang == "" {
      assert q[1..] == list;
    } else {
      assert q[1..][1..] == list;
    }
  }

  /** A bracket that is closed at the end of the pattern takes one character. */
  lemma {:induction false} BracketTakesOne(q: string, list: string, t: string, prev: Option<char>, m: Mode)
    requires q != "" && q[0] == '[' && Inside(q[1..]) == list && t != "" && Matches(q, t, prev, m)
    requires var scan := ScanBracket(list, t[0], false, m); scan.Closed? && scan.rest == ""
    ensures |t| == 1
  {
    assert t[1..] == "";
  }

  lemma {:induction false} BracketTakes(q: string, list: string, c: char, prev: Option<char>, m: Mode)
    requires q != "" && q[0] == '[' && Inside(q[1..]) == list
    requires var scan := ScanBracket(list, c, false, m); scan.Closed? && scan.rest == ""
    ensures Matches(q, [c], prev, m)
      <==> && !(m.flags.pathname && c == '/')
           && !(m.flags.period && c == '.' && (prev == None || (m.flags.pathname && prev == Some('/'))))
           && ScanBracket(list, c, false, m).matched != Negated(q[1..])
  {
    assert [c][1..] == "";
  }

  /** The bracket ends where its list does, whatever the character. */
  lemma {:induction false} ScanRest(items: seq<Item>, c: char, matched: bool, m: Mode)
    requires Writable(items)
    ensures var scan := ScanBracket(Text(items) + "]", c, matched, m); scan.Closed? && scan.rest == ""
    decreases |items|
  {
    if items == [] {
      assert "" + "]" == "]" && "]"[1..] == "";
    } else {
      WritableRest(items);
      FirstItem(items, c, matched, m);
      ScanRest(items[1..], c, matched || ItemAccepts(items[0], c, m), m);
    }
  }

  /** A single range, without FNM_CASEFOLD, on ASCII characters. */
  lemma RangeExactly(lo: char, hi: char, c: char, m: Mode)
    requires !m.flags.casefold && lo as int < 128 && hi as int < 128 && c as int < 128
    requires lo !in "!^]" && hi != ']' && Bytes(m)
    ensures Matches("[" + [lo] + "-" + [hi] + "]", [c], None, m)
      <==> lo <= c <= hi && !(m.flags.pathname && c == '/') && !(m.flags.period && c == '.')
  {
    var items := [Range(lo, hi)];
    assert items[1..] == [] && Text(items) == [lo] + "-" + [hi];
    assert "" + ("[" + "" + Text(items) + "]") == "[" + [lo] + "-" + [hi] + "]";
    BracketExactly("", "", items, [c], m);
    assert SomeHas(items, c, m) <==> Has(items[0], c, m);
  }

  /** A dash at the end of the list is a member, not a range. */
  lemma {:induction false} LastDashExactly(c: char, d: char, m: Mode)
    requires c !in "!^]"
    ensures Matches("[" + [c] + "-]", [d], None, m)
      <==> && (Seen(d, m) == Seen(c, m) || Seen(d, m) == Seen('-', m))
           && !(m.flags.pathname && d == '/') && !(m.flags.period && d == '.')
  {
    var list, q := [c] + "-]", "[" + [c] + "-]";
    assert q[1..] == list && list[1..] == "-]" && "-]"[1..] == "]" && "]"[1..] == "";
    assert Inside(list) == list && !Negated(list);
    assert ScanBracket("]", d, true, m) == Closed(true, "") && ScanBracket("]", d, false, m) == Closed(false, "");
    assert forall b: bool :: ScanBracket("-]", d, b, m) == ScanBracket("]", d, b || m.MatchChar('-', d), m);
    BracketTakes(q, list, d, None, m);
  }

  // ---------------------------------------------------------------------------------------
  // `*`
  // ---------------------------------------------------------------------------------------

  /** A final `*` takes whatever is left, slashes and leading periods included. */
  lemma {:induction false} FinalStarExactly(p: string, s: string, m: Mode)
    requires Ordinary(p) && PeriodAlone(m)
    ensures Matches(p + "*", s, None, m) <==> |p| <= |s| && SameText(p, s[..|p|], m)
  {
    assert "*"[1..] == "";
    OrdinaryFront(p, "*", s, None, m);
  }

  /** Between two texts a `*` takes everything, but under FNM_PATHNAME no slash. */
  lemma {:induction false} StarExactly(p: string, q: string, s: string, m: Mode)
    requires Ordinary(p) && Ordinary(q) && q != "" && PeriodAlone(m)
    ensures Matches(p + ("*" + q), s, None, m)
      <==> && |p| + |q| <= |s| && SameText(p, s[..|p|], m) && SameText(q, s[|s| - |q|..], m)
           && (m.flags.pathname ==> '/' !in s[|p|..|s| - |q|])
  {
    var r := "*" + q;
    assert r[0] == '*' && r[1..] == q;
    OrdinaryFront(p, r, s, None, m);
    if |p| <= |s| {
      var t := s[|p|..];
      assert Matches(r, t, Last(s[..|p|], None), m) == MatchesLater(q, t, m);
      LaterExactly(q, t, m);
      if |q| <= |t| {
        assert t[|t| - |q|..] == s[|s| - |q|..] && t[..|t| - |q|] == s[|p|..|s| - |q|];
      }
    }
  }

  /** The text may come later, behind anything that the `*` may take. */
  lemma {:induction false} LaterExactly(q: string, t: string, m: Mode)
    requires Ordinary(q) && q != "" && PeriodAlone(m)
    ensures MatchesLater(q, t, m)
      <==> |q| <= |t| && SameText(q, t[|t| - |q|..], m) && (m.flags.pathname ==> '/' !in t[..|t| - |q|])
    decreases |t|
  {
    OrdinaryExactly(q, t, m);
    if t != "" {
      var rest := t[1..];
      LaterExactly(q, rest, m);
      if |q| == |t| {
        assert t[0..] == t && t[..0] == "";
      } else if |q| < |t| {
        OneLater(t, |t| - |q|, m);
      }
    }
  }

  lemma OneLater(t: string, n: nat, m: Mode)
    requires 0 < n <= |t|
    ensures t[1..][n - 1..] == t[n..]
    ensures '/' in t[..n] <==> t[0] == '/' || '/' in t[1..][..n - 1]
  {
    assert t[..n] == [t[0]] + t[1..][..n - 1];
  }

  // ---------------------------------------------------------------------------------------
  // Where the reading of a pattern ends
  // ---------------------------------------------------------------------------------------

  /** Reading p and then q is reading p + q. */
  ghost predicate ReadsOn(p: string, q: string, noescape: bool) {
    Tokens(p + q, noescape) == Tokens(p, noescape) + Tokens(q, noescape)
  }

  lemma {:induction false} ClosesSomewhere(z: string)
    requires z != "" && z[|z| - 1] == ']'
    ensures ReadItems(z).Items?
    decreases |z|
  {
    if z[0] != ']' {
      ClosesSomewhere(if RangeAhead(z) then z[3..] else z[1..]);
    }
  }

  lemma BehindHead(head: Token, all: seq<Token>, front: seq<Token>, back: seq<Token>)
    ensures [head] + all == ([head] + front) + back <==> all == front + back
  {
    Assoc([head], front, back);
    assert ([head] + all)[1..] == all && ([head] + (front + back))[1..] == front + back;
  }

  /** A dangling backslash escapes what follows. */
  lemma {:induction false} DanglingEscapes(p: string, noescape: bool)
    requires Dangling(p, noescape)
    ensures !ReadsOn(p, "*", noescape)
  {
    assert p == "\\" && Unescape(p + "*", noescape) == "*" && "*"[1..] == "";
    assert Tokens(p + "*", noescape) == [Lit('*')] + Tokens("", noescape);
    assert |Tokens(p, noescape)| >= 1 && |Tokens("*", noescape)| >= 1;
  }

  /** An open bracket is closed by what follows. */
  lemma {:induction false} OpenIsClosed(p: string, noescape: bool)
    requires p != "" && p[0] == '[' && ReadItems(Inside(p[1..])).NoEnd?
    ensures !ReadsOn(p, "]", noescape)
  {
    assert (p + "]")[1..] == p[1..] + "]";
    assert Inside(p[1..] + "]") == Inside(p[1..]) + "]";
    ClosesSomewhere(Inside(p[1..] + "]"));
    BracketFirst(p + "]", noescape);
    assert (Tokens(p, noescape) + Tokens("]", noescape))[0] == Never;
    assert Tokens(p + "]", noescape)[0].Bracket?;
  }

  lemma {:induction false} ReadsDifferently(p: string, noescape: bool) returns (q: string)
    requires !Complete(p, noescape)
    ensures !ReadsOn(p, q, noescape)
    decreases |p|
  {
    if Dangling(p, noescape) {
      q := "*";
      DanglingEscapes(p, noescape);
    } else if p[0] == '[' && ReadItems(Inside(p[1..])).NoEnd? {
      q := "]";
      OpenIsClosed(p, noescape);
    } else {
      var rest := Behind(p, noescape);
      q := ReadsDifferently(rest, noescape);
      var head := AfterToken(p, q, noescape);
      BehindHead(head, Tokens(rest + q, noescape), Tokens(rest, noescape), Tokens(q, noescape));
    }
  }

  /** A pattern is complete, as components of a path must be, exactly when nothing behind it changes its reading. */
  lemma CompleteExactly(p: string, noescape: bool)
    ensures Complete(p, noescape) <==> forall q :: ReadsOn(p, q, noescape)
  {
    if Complete(p, noescape) {
      forall q
        ensures ReadsOn(p, q, noescape)
      {
        TokensConcat(p, q, noescape);
      }
    } else {
      var q := ReadsDifferently(p, noescape);
    }
  }
}
