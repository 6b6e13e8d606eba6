/**
 What the reader of the services database means (source/getservent.c:20-58), stated with the
 characters and numbers themselves: which lines give no entry, where words end, how a port is read
 and stored, how much one fgets takes, and which entry a lookup returns.
 */
module ServicesRules {
  import opened CStrings
  import opened Services

  // ------------------------------------------------------------------ words and gaps

  predicate Gap(s: string) {
    forall k :: 0 <= k < |s| ==> s[k] == ' ' || s[k] == '\t' || s[k] == '\n'
  }

  predicate Bare(s: string) {
    s != "" && ' ' !in s && '\t' !in s && '\n' !in s
  }

  /** A word of a line and the gap behind it. */
  datatype Piece = Piece(word: string, gap: string)

  function Spread(ps: seq<Piece>): string {
    if ps == [] then "" else ps[0].word + ps[0].gap + Spread(ps[1..])
  }

  /** Only the last gap may be missing. */
  ghost predicate Good(ps: seq<Piece>) {
    forall k :: 0 <= k < |ps| ==> Bare(ps[k].word) && Gap(ps[k].gap) && (ps[k].gap == "" ==> k == |ps| - 1)
  }

  lemma GoodRest(ps: seq<Piece>)
    requires Good(ps) && ps != []
    ensures Good(ps[1..])
    ensures Bare(ps[0].word) && Gap(ps[0].gap) && (ps[0].gap == "" ==> ps[1..] == [])
  {
    assert forall k :: 0 <= k < |ps[1..]| ==> ps[1..][k] == ps[k + 1];
  }

  lemma {:induction false} SkipGap(gap: string, rest: string)
    requires Gap(gap)
    ensures SkipDelims(gap + rest) == SkipDelims(rest)
    decreases |gap|
  {
    if gap == "" {
      assert gap + rest == rest;
    } else {
      assert (gap + rest)[1..] == gap[1..] + rest;
      SkipGap(gap[1..], rest);
    }
  }

  lemma GapThenTokens(gap: string, rest: string)
    requires Gap(gap)
    ensures Tokens(gap + rest) == Tokens(rest)
  {
    SkipGap(gap, rest);
  }

  lemma {:induction false} TokenLenOfAll(w: string)
    requires forall k :: 0 <= k < |w| ==> !Delim(w[k])
    ensures TokenLen(w) == |w|
    decreases |w|
  {
    if w != "" {
      TokenLenOfAll(w[1..]);
    }
  }

  lemma LastWord(w: string)
    requires Bare(w)
    ensures Tokens(w) == [w]
  {
    TokenLenOfAll(w);
    assert SkipDelims(w) == w && w[..|w|] == w;
    TokensFront(w);
    assert Tokens(w)[1..] == [];
  }

  lemma FirstWord(w: string, gap: string, rest: string)
    requires Bare(w) && Gap(gap) && gap != ""
    ensures Tokens(w + gap + rest) == [w] + Tokens(rest)
  {
    var s := w + gap + rest;
    var more := gap[1..] + rest;
    assert s == w + [gap[0]] + more;
    TokenLenOf(w, gap[0], more);
    assert SkipDelims(s) == s && s[..|w|] == w && s[|w| + 1..] == more;
    TokensFront(s);
    GapThenTokens(gap[1..], rest);
  }

  lemma FrontPiece(ps: seq<Piece>)
    requires Good(ps) && ps != []
    ensures Tokens(Spread(ps)) == [ps[0].word] + Tokens(Spread(ps[1..]))
  {
    GoodRest(ps);
    var w, gap, rest := ps[0].word, ps[0].gap, Spread(ps[1..]);
    if gap == "" {
      assert w + gap + rest == w;
      LastWord(w);
    } else {
      FirstWord(w, gap, rest);
    }
  }

  lemma {:induction false} TokensOfPieces(ps: seq<Piece>)
    requires Good(ps)
    ensures var ts := Tokens(Spread(ps)); |ts| == |ps| && forall k :: 0 <= k < |ps| ==> ts[k] == ps[k].word
    decreases |ps|
  {
    if ps != [] {
      GoodRest(ps);
      FrontPiece(ps);
      TokensOfPieces(ps[1..]);
      assert forall k :: 0 < k < |ps| ==> ps[k] == ps[1..][k - 1];
    }
  }

  /** strtok finds the words of a line between any gaps of spaces, tabs and line ends. */
  lemma TokensExactly(lead: string, ps: seq<Piece>)
    requires Gap(lead) && Good(ps)
    ensures var ts := Tokens(lead + Spread(ps)); |ts| == |ps| && forall k :: 0 <= k < |ps| ==> ts[k] == ps[k].word
  {
    GapThenTokens(lead, Spread(ps));
    TokensOfPieces(ps);
  }

  lemma SpreadMore(p: Piece, ps: seq<Piece>)
    ensures Spread([p] + ps) == p.word + p.gap + Spread(ps)
  {
    assert ([p] + ps)[1..] == ps;
  }

  /** Every text is words between gaps, so that the lemma before this one covers all lines. */
  lemma {:induction false} EveryLineIsSpread(s: string) returns (lead: string, ps: seq<Piece>)
    ensures Gap(lead) && Good(ps) && s == lead + Spread(ps)
    decreases |s|
  {
    lead, ps := "", [];
    if s != "" {
      var c := [s[0]];
      var lead', ps' := EveryLineIsSpread(s[1..]);
      assert s == c + s[1..];
      if Gap(c) {
        return c + lead', ps';
      }
      if lead' == "" && ps' != [] {
        GoodRest(ps');
        ps := [Piece(c + ps'[0].word, ps'[0].gap)] + ps'[1..];
        SpreadMore(ps[0], ps'[1..]);
      } else {
        ps := [Piece(c, lead')] + ps';
        SpreadMore(ps[0], ps');
      }
    }
  }

  // ------------------------------------------------------------------ one line

  predicate Blanks(s: string) {
    forall k :: 0 <= k < |s| ==> s[k] == ' ' || s[k] == '\t'
  }

  lemma {:induction false} SkipAllBlanks(lead: string, rest: string)
    requires Blanks(lead) && (rest != "" ==> rest[0] != ' ' && rest[0] != '\t')
    ensures SkipBlanks(lead + rest) == rest
    decreases |lead|
  {
    if lead == "" {
      assert lead + rest == rest;
    } else {
      assert (lead + rest)[1..] == lead[1..] + rest;
      SkipAllBlanks(lead[1..], rest);
    }
  }

  /** Behind any blanks a '#', the end of the line or the end of the text: there is no entry. */
  lemma NoEntryLine(lead: string, rest: string)
    requires Blanks(lead)
    ensures Parse(lead) == None
    ensures Parse(lead + ("#" + rest)) == None
    ensures Parse(lead + ("\n" + rest)) == None
  {
    assert lead + "" == lead;
    SkipAllBlanks(lead, "");
    SkipAllBlanks(lead, "#" + rest);
    SkipAllBlanks(lead, "\n" + rest);
  }

  lemma {:induction false} SlashedExactly(s: string)
    ensures Slashed(s) <==> '/' in s
  {
    if s != "" {
      SlashedExactly(s[1..]);
    }
  }

  lemma ParseIsEntry(lead: string, ps: seq<Piece>)
    requires Blanks(lead) && Good(ps) && ps != [] && ps[0].word[0] != '#'
    ensures Parse(lead + Spread(ps)) == Entry(Tokens(Spread(ps)))
  {
    var w, s := ps[0].word, Spread(ps);
    assert Bare(w) && w[0] in w && s[0] == w[0];
    SkipAllBlanks(lead, s);
  }

  /** A line in which no word behind the first has a '/' gives no entry. */
  lemma NoPortNoEntry(lead: string, ps: seq<Piece>)
    requires Blanks(lead) && Good(ps) && ps != [] && ps[0].word[0] != '#'
    requires forall j :: 1 <= j < |ps| ==> '/' !in ps[j].word
    ensures Parse(lead + Spread(ps)) == None
  {
    ParseIsEntry(lead, ps);
    TokensOfPieces(ps);
    var ts := Tokens(Spread(ps));
    forall k | 0 <= k < |ts| - 1
      ensures !Slashed(ts[1..][k])
    {
      SlashedExactly(ps[k + 1].word);
    }
    FirstSlashedIs(ts[1..], |ts| - 1);
  }

  /** The first word behind the name that has a '/'. */
  lemma PortAt(ts: seq<string>, k: nat)
    requires 1 <= k < |ts| && '/' in ts[k]
    requires forall j :: 1 <= j < k ==> '/' !in ts[j]
    ensures FirstSlashed(ts[1..]) == k - 1
  {
    forall j | 0 <= j < k
      ensures Slashed(ts[1..][j]) <==> j == k - 1
    {
      SlashedExactly(ts[j + 1]);
    }
    FirstSlashedIs(ts[1..], k - 1);
  }

  lemma EntryExactly(ts: seq<string>, k: nat, number: string, proto: string)
    requires 1 <= k < |ts| && ts[k] == number + "/" + proto && '/' !in number
    requires forall j :: 1 <= j < k ==> '/' !in ts[j]
    ensures Entry(ts) == Some(Service(ts[0], Keep(ts[1..k]), Htons(Atoi(number)), TrimEnd(proto)))
  {
    var t := ts[k];
    assert t[|number|] == '/';
    PortAt(ts, k);
    EntryOf(ts, k - 1);
    SlashOf(number, proto);
    assert t[..|number|] == number && t[|number| + 1..] == proto;
  }

  lemma KeepExactly<T>(s: seq<T>)
    ensures |Keep(s)| == if |s| <= 31 then |s| else 31
    ensures forall j :: 0 <= j < |Keep(s)| ==> Keep(s)[j] == s[j]
  {
  }

  /**
   The entry of a line: its first word, at most 31 of the words before the first one with a '/',
   and the two parts of that one.
   */
  lemma LineExactly(lead: string, ps: seq<Piece>, k: nat, number: string, proto: string)
    requires Blanks(lead) && Good(ps) && 1 <= k < |ps| && ps[0].word[0] != '#'
    requires forall j :: 1 <= j < k ==> '/' !in ps[j].word
    requires ps[k].word == number + "/" + proto && '/' !in number
    ensures var e := Parse(lead + Spread(ps));
      && e.Some? && e.value.name == ps[0].word
      && |e.value.aliases| == (if k <= 32 then k - 1 else 31)
      && (forall j :: 0 <= j < |e.value.aliases| ==> e.value.aliases[j] == ps[j + 1].word)
      && e.value.port == Htons(Atoi(number)) && e.value.proto == TrimEnd(proto)
  {
    ParseIsEntry(lead, ps);
    TokensOfPieces(ps);
    var ts := Tokens(Spread(ps));
    EntryExactly(ts, k, number, proto);
    KeepExactly(ts[1..k]);
  }

  // ------------------------------------------------------------------ the port and the protocol

  predicate White(c: char) {
    c == ' ' || c == '\t' || c == '\n' || c == '\r'
  }

  /** Trailing white space goes, but the first character stays whatever it is. */
  lemma {:induction false} TrimExactly(p: string, tail: string)
    requires p != "" && (|p| == 1 || !White(p[|p| - 1]))
    requires forall k :: 0 <= k < |tail| ==> White(tail[k])
    ensures TrimEnd(p + tail) == p && TrimEnd("") == ""
    decreases |tail|
  {
    if tail == "" {
      assert p + tail == p;
    } else {
      var n := |tail| - 1;
      assert (p + tail)[..|p| + n] == p + tail[..n];
      TrimExactly(p, tail[..n]);
    }
  }

  predicate Numeral(s: string) {
    forall k :: 0 <= k < |s| ==> '0' <= s[k] <= '9'
  }

  /** The end of a number: the end of the text, or a character that is no digit. */
  predicate Ends(s: string) {
    s == "" || !('0' <= s[0] <= '9')
  }

  lemma {:induction false} ValueStops(ds: string, rest: string, acc: nat)
    requires Numeral(ds) && Ends(rest)
    ensures Value(ds + rest, acc) == Value(ds, acc)
    decreases |ds|
  {
    if ds == "" {
      assert ds + rest == rest;
    } else {
      assert (ds + rest)[1..] == ds[1..] + rest;
      ValueStops(ds[1..], rest, acc * 10 + (ds[0] as int - '0' as int));
    }
  }

  lemma ValueGrows(ds: string, c: char)
    requires Numeral(ds) && '0' <= c <= '9'
    ensures Value(ds + [c], 0) == 10 * Value(ds, 0) + (c as int - 48)
  {
    ValueAppend(ds, [c], 0);
    assert [c][1..] == "";
  }

  lemma AtoiOfDigits(ds: string)
    requires Numeral(ds) && ds != ""
    ensures Atoi(ds) == if Value(ds, 0) > 2147483647 then 2147483647 else Value(ds, 0)
  {
    assert SkipSpace(ds) == ds;
  }

  lemma AtoiOfMinus(ds: string)
    requires Numeral(ds)
    ensures Atoi("-" + ds) == if Value(ds, 0) > 2147483648 then -2147483648 else -(Value(ds, 0) as int)
  {
    var s := "-" + ds;
    assert SkipSpace(s) == s && s[1..] == ds;
  }

  /** The number ends at the first character that is no digit. */
  lemma AtoiStops(ds: string, rest: string)
    requires Numeral(ds) && Ends(rest)
    ensures ds != "" ==> Atoi(ds + rest) == Atoi(ds)
    ensures Atoi("-" + (ds + rest)) == Atoi("-" + ds)
  {
    var s := ds + rest;
    ValueStops(ds, rest, 0);
    AtoiOfMinus(ds);
    assert SkipSpace("-" + s) == "-" + s && ("-" + s)[1..] == s;
    if ds != "" {
      AtoiOfDigits(ds);
      assert s[0] == ds[0] && SkipSpace(s) == s;
    }
  }

  /** One more digit: ten times the number and the digit, up to the upper bound of int. */
  lemma AtoiGrows(ds: string, c: char)
    requires Numeral(ds) && '0' <= c <= '9'
    ensures Atoi([c]) == c as int - 48
    ensures ds != "" ==>
      var n := 10 * Atoi(ds) + (c as int - 48);
      Atoi(ds + [c]) == if n > 2147483647 then 2147483647 else n
  {
    AtoiOfDigits([c]);
    assert [c][1..] == "";
    if ds != "" {
      ValueGrows(ds, c);
      AtoiOfDigits(ds);
      AtoiOfDigits(ds + [c]);
    }
  }

  /** The same behind a minus sign, down to the lower bound. */
  lemma AtoiGrowsDown(ds: string, c: char)
    requires Numeral(ds) && '0' <= c <= '9'
    ensures Atoi("-") == 0
    ensures
      var n := 10 * Atoi("-" + ds) - (c as int - 48);
      Atoi("-" + (ds + [c])) == if n < -2147483648 then -2147483648 else n
  {
    assert SkipSpace("-") == "-" && "-"[1..] == "";
    ValueGrows(ds, c);
    AtoiOfMinus(ds);
    AtoiOfMinus(ds + [c]);
  }

  /** A plus sign before a digit, or before none, changes nothing. */
  lemma AtoiPlus(s: string)
    requires s == "" || '0' <= s[0] <= '9'
    ensures Atoi("+" + s) == Atoi(s)
    ensures Atoi("") == 0
  {
    assert ("+" + s)[1..] == s && SkipSpace("+" + s) == "+" + s && SkipSpace(s) == s;
  }

  /** White space in front is skipped; a text that then has neither digit nor sign is zero. */
  lemma AtoiStarts(c: char, s: string)
    ensures c in " \t\n\r\U{0B}\U{0C}" ==> Atoi([c] + s) == Atoi(s)
    ensures c !in " \t\n\r\U{0B}\U{0C}+-0123456789" ==> Atoi([c] + s) == 0
  {
    assert ([c] + s)[1..] == s;
  }

  /** The stored port has the low byte of the number first in value and the second byte last. */
  lemma PortBytes(n: int)
    ensures Htons(n) / 256 == n % 256 && Htons(n) % 256 == n / 256 % 256
  {
    assert n % 0x1_0000 == n - (n / 0x1_0000) * 0x1_0000;
    assert n / 0x100 == (n / 0x1_0000) * 0x100 + (n % 0x1_0000) / 0x100;
  }

  // ------------------------------------------------------------------ the stream and the lookups

  lemma {:induction false} LineTakes(l: string, rest: string, room: nat)
    requires '\n' !in l && |l| <= room
    ensures |l| < room ==> LineLength(l + ("\n" + rest), room) == |l| + 1
    ensures |l| == room || rest == "" ==> LineLength(l + rest, room) == |l|
    decreases |l|
  {
    if l != "" {
      assert (l + rest)[1..] == l[1..] + rest;
      assert (l + ("\n" + rest))[1..] == l[1..] + ("\n" + rest);
      LineTakes(l[1..], rest, room - 1);
    }
  }

  lemma RecordsFront(s: string, n: nat)
    requires s != "" && n == LineLength(s, 1023) && n <= |s|
    ensures Records(s) == Listed(Parse(UpToNul(s[..n]))) + Records(s[n..])
  {
  }

  /**
   One fgets takes a line with its end, or 1023 characters of a longer one, or what is left of the
   file; each piece is parsed by itself.
   */
  lemma LinesExactly(l: string, rest: string)
    requires '\n' !in l
    ensures |l| <= 1022 ==> Records(l + ("\n" + rest)) == Listed(Parse(UpToNul(l + "\n"))) + Records(rest)
    ensures |l| == 1023 ==> Records(l + rest) == Listed(Parse(UpToNul(l))) + Records(rest)
    ensures 0 < |l| <= 1023 ==> Records(l) == Listed(Parse(UpToNul(l)))
    ensures Records("") == []
  {
    if |l| <= 1022 {
      var s := l + ("\n" + rest);
      LineTakes(l, rest, 1023);
      assert s[..|l| + 1] == l + "\n" && s[|l| + 1..] == rest;
      RecordsFront(s, |l| + 1);
    }
    if |l| == 1023 {
      var s := l + rest;
      LineTakes(l, rest, 1023);
      assert s[..|l|] == l && s[|l|..] == rest;
      RecordsFront(s, |l|);
    }
    if 0 < |l| <= 1023 {
      LineTakes(l, "", 1023);
      assert l + "" == l && l[..|l|] == l && l[|l|..] == "";
      RecordsFront(l, |l|);
    }
  }

  /** A terminator inside a line ends the string that is parsed. */
  lemma LineEndsAtNul(l: string, rest: string)
    requires '\0' !in l
    ensures UpToNul(l) == l && UpToNul(l + ['\0'] + rest) == l
  {
    WholeString(l);
    UpToNulStops(l, rest);
  }

  /** What a caller of getservbyname asks for: the name or an alias, and the protocol unless it is NULL. */
  ghost predicate Answers(s: Service, name: string, proto: Option<string>) {
    && (s.name == name || exists j :: 0 <= j < |s.aliases| && s.aliases[j] == name)
    && (proto.Some? ==> s.proto == proto.value)
  }

  lemma NamedExactly(s: Service, name: string, proto: Option<string>)
    ensures Named(s, name, proto) <==> Answers(s, name, proto)
  {
    if name in s.aliases {
      var j :| 0 <= j < |s.aliases| && s.aliases[j] == name;
    }
  }

  /** getservbyname returns entry n exactly when n answers and no entry before it does. */
  lemma NameFoundExactly(ss: seq<Service>, name: string, proto: Option<string>, n: nat)
    requires n <= |ss|
    ensures FirstNamed(ss, name, proto) == n
      <==> (n < |ss| ==> Answers(ss[n], name, proto)) && forall k :: 0 <= k < n ==> !Answers(ss[k], name, proto)
  {
    var m := FirstNamed(ss, name, proto);
    forall k | 0 <= k < |ss|
      ensures Named(ss[k], name, proto) <==> Answers(ss[k], name, proto)
    {
      NamedExactly(ss[k], name, proto);
    }
    if m < n {
      assert Named(ss[m], name, proto);
    }
    if n < m {
      assert !Named(ss[n], name, proto);
    }
  }

  /** The entry has the port, byte by byte, and the protocol unless it is NULL. */
  ghost predicate OnPort(s: Service, port: int, proto: Option<string>) {
    && s.port / 256 == port % 256 && s.port % 256 == port / 256 % 256
    && (proto.Some? ==> s.proto == proto.value)
  }

  lemma HasPortExactly(s: Service, port: int, proto: Option<string>)
    ensures HasPort(s, port, proto) <==> OnPort(s, port, proto)
  {
    PortBytes(port);
  }

  /** The same for getservbyport. */
  lemma PortFoundExactly(ss: seq<Service>, port: int, proto: Option<string>, n: nat)
    requires n <= |ss|
    ensures FirstWithPort(ss, port, proto) == n
      <==> (n < |ss| ==> OnPort(ss[n], port, proto)) && forall k :: 0 <= k < n ==> !OnPort(ss[k], port, proto)
  {
    var m := FirstWithPort(ss, port, proto);
    forall k | 0 <= k < |ss|
      ensures HasPort(ss[k], port, proto) <==> OnPort(ss[k], port, proto)
    {
      HasPortExactly(ss[k], port, proto);
    }
    if m < n {
      assert HasPort(ss[m], port, proto);
    }
    if n < m {
      assert !HasPort(ss[n], port, proto);
    }
  }

  /** The Windows file comes first, /etc/services only where that cannot be opened. */
  lemma WindowsFirst(db: ServDb)
    ensures db.windows.Some? ==> db.All() == Records(db.windows.value)
    ensures db.windows == None && db.unix.Some? ==> db.All() == Records(db.unix.value)
    ensures db.windows == None && db.unix == None ==> db.All() == []
  {
  }
}
