/**
 How posix_spawn turns argv into the single command line string that a Windows process
 receives, and envp into its environment block (source/posix_spawn.c, whose three printer
 functions source/posix_spawnp.c repeats word for word).

 The reader of the command line is the argument parser of the Microsoft C runtime. Its rules
 are written down here as a specification of their own, and the printer is proved to be
 inverted by them.
 */
module CommandLine {
  import opened CStrings

  // ---------------------------------------------------------------------------------------
  // The reader: the argument rules of the Microsoft C runtime
  // ---------------------------------------------------------------------------------------

  predicate Blank(c: char) {
    c == ' ' || c == '\t'
  }

  function Slashes(n: nat): (r: string)
    ensures |r| == n && forall k :: 0 <= k < n ==> r[k] == '\\'
  {
    seq(n, _ => '\\')
  }

  /** One argument and the text that follows it. */
  datatype Parsed = Parsed(arg: string, rest: string)

  function Prepend(front: string, p: Parsed): Parsed {
    Parsed(front + p.arg, p.rest)
  }

  /**
   The program name: double quotes are dropped and protect blanks, and nothing is escaped.
   */
  function ReadProgramName(s: string, quoted: bool): (p: Parsed)
    ensures |p.rest| <= |s|
    ensures '\"' !in p.arg
  {
    if s == "" then Parsed("", "")
    else if s[0] == '\"' then ReadProgramName(s[1..], !quoted)
    else if Blank(s[0]) && !quoted then Parsed("", s)
    else Prepend([s[0]], ReadProgramName(s[1..], quoted))
  }

  /**
   A later argument. `pending` counts the backslashes just read: before a double quote each
   pair stands for one backslash and an odd one makes the quote literal; anywhere else they
   stand for themselves. Inside quotes a doubled quote is a literal one.
   */
  function ReadArgument(s: string, quoted: bool, pending: nat): (p: Parsed)
    ensures |p.rest| <= |s|
    ensures p.rest == "" || Blank(p.rest[0])
  {
    if s == "" then Parsed(Slashes(pending), "")
    else if s[0] == '\\' then ReadArgument(s[1..], quoted, pending + 1)
    else if s[0] == '\"' then
      if pending % 2 == 1 then
        Prepend(Slashes(pending / 2) + "\"", ReadArgument(s[1..], quoted, 0))
      else if quoted && |s| > 1 && s[1] == '\"' then
        Prepend(Slashes(pending / 2) + "\"", ReadArgument(s[2..], quoted, 0))
      else
        Prepend(Slashes(pending / 2), ReadArgument(s[1..], !quoted, 0))
    else if Blank(s[0]) && !quoted then Parsed(Slashes(pending), s)
    else Prepend(Slashes(pending) + [s[0]], ReadArgument(s[1..], quoted, 0))
  }

  function SkipBlanks(s: string): (r: string)
    ensures |r| <= |s|
    ensures r == "" || !Blank(r[0])
  {
    if s != "" && Blank(s[0]) then SkipBlanks(s[1..]) else s
  }

  /** All arguments after the program name. */
  function ReadArguments(s: string): (r: seq<string>)
    decreases |s|
  {
    var t := SkipBlanks(s);
    if t == "" then []
    else
      var p := ReadArgument(t, false, 0);
      ArgumentConsumes(t);
      [p.arg] + ReadArguments(p.rest)
  }

  /** Reading an argument that does not start with a blank uses at least one character. */
  lemma ArgumentConsumes(t: string)
    requires t != "" && !Blank(t[0])
    ensures |ReadArgument(t, false, 0).rest| < |t|
  {
    assert |ReadArgument(t[1..], false, 0).rest| <= |t[1..]|;
    assert |ReadArgument(t[1..], true, 0).rest| <= |t[1..]|;
    assert |ReadArgument(t[1..], false, 1).rest| <= |t[1..]|;
  }

  function ReadCommandLine(s: string): seq<string> {
    var p := ReadProgramName(s, false);
    [p.arg] + ReadArguments(p.rest)
  }

  // ---------------------------------------------------------------------------------------
  // The printer, as a function
  // ---------------------------------------------------------------------------------------

  predicate HasBlank(s: string) {
    exists k :: 0 <= k < |s| && Blank(s[k])
  }

  /** The length of the run of backslashes at the end of s, given a run of `c` before s. */
  function RunAfter(s: string, c: nat): (r: nat)
    decreases |s|
  {
    if s == "" then c else RunAfter(s[1..], if s[0] == '\\' then c + 1 else 0)
  }

  /** Every double quote gets a backslash, and so does each backslash of the run before it. */
  function Escape(s: string, c: nat): (r: string)
    decreases |s|
  {
    if s == "" then ""
    else if s[0] == '\"' then Slashes(c) + "\\\"" + Escape(s[1..], 0)
    else [s[0]] + Escape(s[1..], if s[0] == '\\' then c + 1 else 0)
  }

  /** One printed argument. */
  function Quote(s: string): (r: string) {
    if HasBlank(s) then "\"" + Escape(s, 0) + Slashes(RunAfter(s, 0)) + "\"" else Escape(s, 0)
  }

  function QuoteProgramName(s: string): string {
    if HasBlank(s) then "\"" + s + "\"" else s
  }

  /** The printed arguments after the first, each preceded by a space. */
  function Tail(args: seq<string>): (r: string) {
    if args == [] then "" else " " + Quote(args[0]) + Tail(args[1..])
  }

  function Print(argv: seq<string>): string
    requires argv != []
  {
    QuoteProgramName(argv[0]) + Tail(argv[1..])
  }

  // ---------------------------------------------------------------------------------------
  // The printer is inverted by the reader
  // ---------------------------------------------------------------------------------------

  predicate EndsArgument(rest: string) {
    rest == "" || Blank(rest[0])
  }

  lemma {:induction false} ReadsSlashes(n: nat, s: string, quoted: bool, pending: nat)
    ensures ReadArgument(Slashes(n) + s, quoted, pending) == ReadArgument(s, quoted, pending + n)
    decreases n
  {
    if n == 0 {
      assert Slashes(n) + s == s;
    } else {
      assert (Slashes(n) + s)[1..] == Slashes(n - 1) + s;
      ReadsSlashes(n - 1, s, quoted, pending + 1);
    }
  }

  /** Text outside quotes: the printed form reads back as the pending backslashes and s. */
  lemma {:induction false} ReadsUnquoted(s: string, c: nat, rest: string)
    requires !HasBlank(s) && EndsArgument(rest)
    ensures ReadArgument(Escape(s, c) + rest, false, c) == Parsed(Slashes(c) + s, rest)
    decreases |s|
  {
    if s == "" {
      assert Escape(s, c) + rest == rest;
      assert Slashes(c) + s == Slashes(c);
    } else {
      assert !Blank(s[0]);
      assert !HasBlank(s[1..]) by {
        assert forall k :: 0 <= k < |s[1..]| ==> s[1..][k] == s[k + 1];
      }
      if s[0] == '\"' {
        ReadsEscapedQuote(s, c, rest, false);
        ReadsUnquoted(s[1..], 0, rest);
        assert Slashes(c) + "\"" + (Slashes(0) + s[1..]) == Slashes(c) + s;
      } else {
        var c' := if s[0] == '\\' then c + 1 else 0;
        ReadsUnquoted(s[1..], c', rest);
        ReadsPlain(s, c, rest, false);
      }
    }
  }

  /** Text inside quotes, with the backslashes before the closing quote doubled. */
  lemma {:induction false} ReadsQuoted(s: string, c: nat, rest: string)
    requires EndsArgument(rest)
    ensures var tail := Slashes(RunAfter(s, c)) + "\"" + rest;
            ReadArgument(Escape(s, c) + tail, true, c) == Parsed(Slashes(c) + s, rest)
    decreases |s|
  {
    var tail := Slashes(RunAfter(s, c)) + "\"" + rest;
    if s == "" {
      assert Escape(s, c) + tail == Slashes(c) + ("\"" + rest);
      ReadsSlashes(c, "\"" + rest, true, c);
      assert ("\"" + rest)[1..] == rest;
      assert ReadArgument(rest, false, 0) == Parsed("", rest);
      assert Slashes(c) + s == Slashes(c) + "";
    } else if s[0] == '\"' {
      ReadsEscapedQuote(s, c, tail, true);
      ReadsQuoted(s[1..], 0, rest);
      assert Slashes(c) + "\"" + (Slashes(0) + s[1..]) == Slashes(c) + s;
    } else {
      var c' := if s[0] == '\\' then c + 1 else 0;
      ReadsQuoted(s[1..], c', rest);
      ReadsPlain(s, c, tail, true);
    }
  }

  lemma ReadsEscapedQuote(s: string, c: nat, tail: string, quoted: bool)
    requires s != "" && s[0] == '\"'
    ensures ReadArgument(Escape(s, c) + tail, quoted, c)
            == Prepend(Slashes(c) + "\"", ReadArgument(Escape(s[1..], 0) + tail, quoted, 0))
  {
    var after := "\"" + (Escape(s[1..], 0) + tail);
    assert Escape(s, c) + tail == Slashes(c + 1) + after;
    ReadsSlashes(c + 1, after, quoted, c);
    assert after[1..] == Escape(s[1..], 0) + tail;
    assert (c + (c + 1)) / 2 == c;
  }

  lemma ReadsBackslash(text: string, quoted: bool, c: nat)
    ensures ReadArgument(['\\'] + text, quoted, c) == ReadArgument(text, quoted, c + 1)
  {
    assert (['\\'] + text)[1..] == text;
  }

  lemma ReadsCharacter(ch: char, text: string, quoted: bool, c: nat)
    requires ch != '\\' && ch != '\"' && (quoted || !Blank(ch))
    ensures ReadArgument([ch] + text, quoted, c) == Prepend(Slashes(c) + [ch], ReadArgument(text, quoted, 0))
  {
    assert ([ch] + text)[1..] == text;
  }

  lemma SlashesShift(c: nat, s: string)
    requires s != ""
    ensures s[0] == '\\' ==> Slashes(c + 1) + s[1..] == Slashes(c) + s
    ensures Slashes(c) + [s[0]] + (Slashes(0) + s[1..]) == Slashes(c) + s
  {
  }

  lemma ReadsPlain(s: string, c: nat, tail: string, quoted: bool)
    requires s != "" && s[0] != '\"' && (quoted || !Blank(s[0]))
    requires var c' := if s[0] == '\\' then c + 1 else 0;
             ReadArgument(Escape(s[1..], c') + tail, quoted, c').arg == Slashes(c') + s[1..]
    ensures var c' := if s[0] == '\\' then c + 1 else 0;
            ReadArgument(Escape(s, c) + tail, quoted, c)
            == Parsed(Slashes(c) + s, ReadArgument(Escape(s[1..], c') + tail, quoted, c').rest)
  {
    SlashesShift(c, s);
    if s[0] == '\\' {
      var more := Escape(s[1..], c + 1);
      Assoc([s[0]], more, tail);
      ReadsBackslash(more + tail, quoted, c);
    } else {
      var more := Escape(s[1..], 0);
      Assoc([s[0]], more, tail);
      ReadsCharacter(s[0], more + tail, quoted, c);
    }
  }

  /** The pieces of a quoted argument and what follows it, grouped from the right. */
  lemma QuotedForm(body: string, run: string, rest: string)
    ensures ("\"" + body + run + "\"") + rest == "\"" + (body + (run + "\"" + rest))
  {
    Assoc("\"" + body + run, "\"", rest);
    Assoc("\"" + body, run, "\"" + rest);
    Assoc("\"", body, run + ("\"" + rest));
    Assoc(run, "\"", rest);
  }

  /** Every nonempty argument survives printing and reading, whatever it contains. */
  lemma ArgumentRoundTrip(s: string, rest: string)
    requires EndsArgument(rest)
    ensures ReadArgument(Quote(s) + rest, false, 0) == Parsed(s, rest)
  {
    assert Slashes(0) + s == s;
    if HasBlank(s) {
      ReadsQuoted(s, 0, rest);
      QuotedForm(Escape(s, 0), Slashes(RunAfter(s, 0)), rest);
      ReadsOpeningQuote(Escape(s, 0) + (Slashes(RunAfter(s, 0)) + "\"" + rest));
    } else {
      ReadsUnquoted(s, 0, rest);
    }
  }

  lemma ReadsOpeningQuote(inner: string)
    ensures ReadArgument("\"" + inner, false, 0) == ReadArgument(inner, true, 0)
  {
    assert ("\"" + inner)[1..] == inner;
    var p := ReadArgument(inner, true, 0);
    assert Slashes(0) + p.arg == p.arg;
  }

  /** Printed text never begins with a bare double quote, so quotes are never doubled. */
  lemma QuotedBodyIsNotQuote(s: string, c: nat)
    requires s != ""
    ensures Escape(s, c) != "" && Escape(s, c)[0] != '\"'
  {
  }

  /** A printed argument starts neither with a blank nor, when it is nonempty, with nothing. */
  lemma QuoteStart(s: string)
    ensures Quote(s) == "" <==> s == ""
    ensures s != "" ==> !Blank(Quote(s)[0])
  {
    if s != "" {
      QuotedBodyIsNotQuote(s, 0);
      if !HasBlank(s) {
        assert !Blank(s[0]);
      }
    }
  }

  function NonEmpty(args: seq<string>): (r: seq<string>)
    ensures forall a :: a in r ==> a in args && a != ""
    ensures |r| <= |args|
  {
    if args == [] then []
    else if args[0] == "" then NonEmpty(args[1..])
    else [args[0]] + NonEmpty(args[1..])
  }

  lemma {:induction false} NonEmptyIdentity(args: seq<string>)
    ensures NonEmpty(args) == args <==> "" !in args
  {
    if args != [] {
      NonEmptyIdentity(args[1..]);
      if args[0] == "" {
        assert |NonEmpty(args)| < |args|;
      } else {
        assert NonEmpty(args)[1..] == NonEmpty(args[1..]);
      }
    }
  }

  lemma SpaceIsSkipped(text: string)
    ensures SkipBlanks(" " + text) == SkipBlanks(text)
    ensures ReadArguments(" " + text) == ReadArguments(text)
  {
    assert (" " + text)[1..] == text;
  }

  /** The arguments after the first come back in order, except that empty ones vanish. */
  lemma {:induction false} TailRoundTrip(args: seq<string>)
    ensures EndsArgument(Tail(args))
    ensures ReadArguments(Tail(args)) == NonEmpty(args)
  {
    if args != [] {
      var rest := Tail(args[1..]);
      TailRoundTrip(args[1..]);
      Assoc(" ", Quote(args[0]), rest);
      QuoteStart(args[0]);
      SpaceIsSkipped(Quote(args[0]) + rest);
      if args[0] == "" {
        assert Quote(args[0]) + rest == rest;
        assert ReadArguments(" " + rest) == ReadArguments(rest);
      } else {
        ArgumentRoundTrip(args[0], rest);
        assert SkipBlanks(Quote(args[0]) + rest) == Quote(args[0]) + rest;
      }
    }
  }

  /** Inside quotes the program name runs to the closing quote, outside to the first blank. */
  lemma {:induction false} ReadsProgramName(s: string, after: string, quoted: bool)
    requires '\"' !in s && (quoted || !HasBlank(s)) && EndsArgument(after)
    ensures ReadProgramName(s + (if quoted then "\"" + after else after), quoted) == Parsed(s, after)
    decreases |s|
  {
    var rest := if quoted then "\"" + after else after;
    if s == "" {
      assert s + rest == rest;
      assert ("\"" + after)[1..] == after;
    } else {
      assert (s + rest)[1..] == s[1..] + rest;
      assert !quoted ==> !Blank(s[0]);
      assert !quoted ==> !HasBlank(s[1..]) by {
        assert forall k :: 0 <= k < |s[1..]| ==> s[1..][k] == s[k + 1];
      }
      ReadsProgramName(s[1..], after, quoted);
      assert [s[0]] + s[1..] == s;
    }
  }

  lemma ProgramNameRoundTrip(s: string, after: string)
    requires '\"' !in s && EndsArgument(after)
    ensures ReadProgramName(QuoteProgramName(s) + after, false) == Parsed(s, after)
  {
    if HasBlank(s) {
      var inner := s + ("\"" + after);
      assert QuoteProgramName(s) + after == "\"" + inner;
      assert ("\"" + inner)[1..] == inner;
      ReadsProgramName(s, after, true);
    } else {
      ReadsProgramName(s, after, false);
    }
  }

  /**
   What a process started with the printed line sees: the program name, then the nonempty
   arguments in order.
   */
  lemma PrintThenRead(argv: seq<string>)
    requires argv != [] && '\"' !in argv[0]
    ensures ReadCommandLine(Print(argv)) == [argv[0]] + NonEmpty(argv[1..])
  {
    TailRoundTrip(argv[1..]);
    ProgramNameRoundTrip(argv[0], Tail(argv[1..]));
  }

  /**
   The round trip holds for exactly those argument vectors whose program name has no double
   quote and whose later arguments are all nonempty.
   */
  lemma RoundTripExactly(argv: seq<string>)
    requires argv != []
    ensures ReadCommandLine(Print(argv)) == argv <==> '\"' !in argv[0] && "" !in argv[1..]
  {
    var back := ReadCommandLine(Print(argv));
    if '\"' in argv[0] {
      assert '\"' !in back[0];
    } else {
      PrintThenRead(argv);
      NonEmptyIdentity(argv[1..]);
      assert back[1..] == NonEmpty(argv[1..]);
      assert [argv[0]] + argv[1..] == argv;
    }
  }

  // ---------------------------------------------------------------------------------------
  // argvToCommandLinePart: a sizing loop, then a writing loop over the allocation
  // ---------------------------------------------------------------------------------------

  /** The text that closes a quoted argument. */
  function Closing(s: string): string {
    if HasBlank(s) then Slashes(RunAfter(s, 0)) + "\"" else ""
  }

  function Opening(s: string): string {
    if HasBlank(s) then "\"" else ""
  }

  lemma QuoteParts(s: string)
    ensures Quote(s) == Opening(s) + Escape(s, 0) + Closing(s)
  {
  }

  lemma QuoteFrom(s: string, c: nat)
    requires c == if HasBlank(s) then RunAfter(s, 0) else 0
    ensures HasBlank(s) ==> Quote(s) == Opening(s) + Escape(s, 0) + Slashes(c) + "\""
    ensures !HasBlank(s) ==> Quote(s) == Opening(s) + Escape(s, 0) + Slashes(c)
  {
  }

  lemma HasBlankStep(s: string, i: nat)
    requires i < |s|
    ensures HasBlank(s[i..]) <==> Blank(s[i]) || HasBlank(s[i + 1..])
  {
    var here, next := s[i..], s[i + 1..];
    assert here[0] == s[i];
    assert forall k :: 0 <= k < |next| ==> next[k] == here[k + 1];
    assert forall k :: 1 <= k < |here| ==> here[k] == next[k - 1];
  }

  /**
   The sizing loop. Its two results fix the size of the allocation, which is exactly the
   printed text.
   */
  method SizePart(str: CString) returns (hasS: nat, extraData: nat)
    ensures hasS == if HasBlank(str) then 1 else 0
    ensures |Quote(str)| == |str| + extraData
  {
    var c: nat, i := 0, 0;
    hasS, extraData := 0, 0;
    assert str[0..] == str;
    while i != |str|
      invariant 0 <= i <= |str| && hasS <= 1
      invariant HasBlank(str) <==> hasS == 1 || HasBlank(str[i..])
      invariant |Escape(str, 0)| == i + extraData + |Escape(str[i..], c)|
      invariant RunAfter(str, 0) == RunAfter(str[i..], c)
    {
      HasBlankStep(str, i);
      assert str[i..][1..] == str[i + 1..];
      if Blank(str[i]) {
        hasS := 1;
      }
      if str[i] == '\"' {
        extraData := extraData + c + 1;
      }
      c := c + 1;
      c := c * (if str[i] == '\\' then 1 else 0);
      i := i + 1;
    }
    extraData := extraData + c * hasS + hasS * 2;
    QuoteParts(str);
  }

  /** What one character is printed as, after a run of c backslashes. */
  function EscapeChar(ch: char, c: nat): string {
    if ch == '\"' then Slashes(c) + "\\\"" else [ch]
  }

  lemma EscapeStep(s: string, i: nat, c: nat)
    requires i < |s|
    ensures var c' := if s[i] == '\\' then c + 1 else 0;
            && Escape(s[i..], c) == EscapeChar(s[i], c) + Escape(s[i + 1..], c')
            && RunAfter(s[i..], c) == RunAfter(s[i + 1..], c')
  {
    assert s[i..][1..] == s[i + 1..];
  }

  /** *p++ = ch */
  method Put(out: array<char>, p: nat, ch: char) returns (q: nat)
    requires p < out.Length
    modifies out
    ensures q == p + 1
    ensures out[..q] == old(out[..p]) + [ch]
  {
    out[p] := ch;
    q := p + 1;
  }

  /** Writes c backslashes at p. */
  method WriteSlashes(out: array<char>, p: nat, c: nat) returns (q: nat)
    requires p + c <= out.Length
    modifies out
    ensures q == p + c
    ensures out[..q] == old(out[..p]) + Slashes(c)
  {
    q := p;
    var left := c;
    while left != 0
      invariant 0 <= left <= c && q == p + (c - left)
      invariant out[..q] == old(out[..p]) + Slashes(c - left)
    {
      q := Put(out, q, '\\');
      left := left - 1;
      assert Slashes(c - left) == Slashes(c - left - 1) + ['\\'];
    }
  }

  /** The body of the writing loop for one character. */
  method WriteChar(out: array<char>, p: nat, ch: char, c: nat) returns (q: nat)
    requires p + |EscapeChar(ch, c)| <= out.Length
    modifies out
    ensures q == p + |EscapeChar(ch, c)|
    ensures out[..q] == old(out[..p]) + EscapeChar(ch, c)
  {
    if ch == '\"' {
      q := WriteSlashes(out, p, c);
      q := Put(out, q, '\\');
      q := Put(out, q, '\"');
    } else {
      q := Put(out, p, ch);
    }
  }

  /** The writing loop: the escaped text lands at p, and the final run length is returned. */
  method WriteEscaped(out: array<char>, p: nat, str: CString) returns (q: nat, c: nat)
    requires p + |Escape(str, 0)| <= out.Length
    modifies out
    ensures q == p + |Escape(str, 0)|
    ensures out[..q] == old(out[..p]) + Escape(str, 0)
    ensures c == RunAfter(str, 0)
  {
    var i := 0;
    q, c := p, 0;
    ghost var base, written := out[..p], "";
    assert str[0..] == str;
    assert base + "" == base;
    while i != |str|
      invariant 0 <= i <= |str|
      invariant q == p + |written| && q + |Escape(str[i..], c)| <= out.Length
      invariant out[..q] == base + written
      invariant written + Escape(str[i..], c) == Escape(str, 0)
      invariant RunAfter(str, 0) == RunAfter(str[i..], c)
    {
      EscapeStep(str, i, c);
      ghost var piece, rest := EscapeChar(str[i], c), Escape(str[i + 1..], if str[i] == '\\' then c + 1 else 0);
      q := WriteChar(out, q, str[i], c);
      Assoc(base, written, piece);
      Assoc(written, piece, rest);
      written := written + piece;
      if str[i] == '\"' {
        c := 0;
      }
      c := c + 1;
      c := c * (if str[i] == '\\' then 1 else 0);
      i := i + 1;
    }
    assert written + "" == written;
  }

  /** The closing quote, which the terminator overwrites when none is needed. */
  method ClosePart(out: array<char>, at: nat, hasS: nat)
    requires hasS <= 1 && at + hasS + 1 == out.Length
    modifies out
    ensures hasS == 1 ==> out[..] == old(out[..at]) + "\"" + [NUL]
    ensures hasS == 0 ==> out[..] == old(out[..at]) + [NUL]
  {
    var p := at;
    out[p] := '\"';
    p := p + hasS;
    out[p] := NUL;
  }

  /**
   argvToCommandLinePart: `alive` says whether the allocation succeeds. On success the whole
   allocation is written, with the printed argument and its terminator.
   */
  method ArgvToCommandLinePart(str: CString, alive: bool) returns (out: array?<char>)
    ensures out == null <==> !alive
    ensures out != null ==> fresh(out) && out[..] == Quote(str) + [NUL]
  {
    var hasS, extraData := SizePart(str);
    if !alive {
      return null;
    }
    QuoteParts(str);
    out := new char[|str| + extraData + 1];
    var p: nat := 0;
    out[p] := '\"';
    p := p + hasS;
    assert out[..p] == Opening(str);
    var c;
    p, c := WriteEscaped(out, p, str);
    c := c * hasS;
    p := WriteSlashes(out, p, c);
    QuoteFrom(str, c);
    ClosePart(out, p, hasS);
  }

  // ---------------------------------------------------------------------------------------
  // argvToCommandLine
  // ---------------------------------------------------------------------------------------

  lemma QuoteHasNoNul(s: CString)
    ensures NUL !in Quote(s)
  {
    EscapeHasNoNul(s, 0);
  }

  lemma {:induction false} EscapeHasNoNul(s: string, c: nat)
    requires NUL !in s
    ensures NUL !in Escape(s, c)
    decreases |s|
  {
    if s != "" {
      EscapeHasNoNul(s[1..], if s[0] == '\\' then c + 1 else 0);
      EscapeHasNoNul(s[1..], 0);
    }
  }

  /** strlen of a printed part. */
  method PartLength(part: array<char>, ghost text: CString) returns (n: nat)
    requires part[..] == text + [NUL]
    ensures n == |text|
  {
    n := 0;
    assert part.Length == |text| + 1;
    assert forall k :: 0 <= k < |text| ==> part[k] == part[..][k] == text[k];
    assert part[|text|] == part[..][|text|] == NUL;
    while part[n] != NUL
      invariant 0 <= n <= |text|
      decreases |text| - n
    {
      n := n + 1;
    }
  }

  /** The index of the first blank of str, or its length. */
  method FirstBlank(str: CString) returns (k: nat)
    ensures k <= |str|
    ensures k < |str| <==> HasBlank(str)
  {
    k := 0;
    while k != |str| && str[k] != ' ' && str[k] != '\t'
      invariant 0 <= k <= |str|
      invariant forall j :: 0 <= j < k ==> !Blank(str[j])
    {
      k := k + 1;
    }
  }

  /** The printed form of the first k arguments after the program name. */
  function TailTo(args: seq<string>, k: nat): string
    requires k <= |args|
  {
    if k == 0 then ""
    else if k == 1 then " " + Quote(args[0])
    else TailTo(args, k - 1) + " " + Quote(args[k - 1])
  }

  lemma {:induction false} TailSplit(args: seq<string>, k: nat)
    requires 0 < k <= |args|
    ensures TailTo(args, k) + Tail(args[k..]) == Tail(args)
    decreases k
  {
    if k > 1 {
      TailSplit(args, k - 1);
      var rest := args[k - 1..];
      assert rest[0] == args[k - 1] && rest[1..] == args[k..];
      TailFront(TailTo(args, k - 1), rest);
    }
  }

  lemma TailFront(front: string, rest: seq<string>)
    requires rest != []
    ensures front + Tail(rest) == (front + " " + Quote(rest[0])) + Tail(rest[1..])
  {
    Assoc(front, " ", Quote(rest[0]));
    Assoc(front, " " + Quote(rest[0]), Tail(rest[1..]));
  }

  lemma TailAll(args: seq<string>, n: nat)
    requires n == |args|
    ensures TailTo(args, n) == Tail(args)
  {
    if n > 0 {
      TailSplit(args, n);
      assert args[n..] == [];
      NothingBehind(TailTo(args, n));
    }
  }

  lemma NothingBehind(t: string)
    ensures t + "" == t
  {
  }

  /** Whether each of the first k allocations succeeds, given the numbers of those that fail. */
  predicate AllAlive(failing: set<nat>, k: nat) {
    k == 0 || (k - 1 !in failing && AllAlive(failing, k - 1))
  }

  lemma AliveNext(failing: set<nat>, k: nat)
    requires AllAlive(failing, k)
    ensures AllAlive(failing, k + 1) <==> k !in failing
  {
  }

  lemma {:induction false} AliveFails(failing: set<nat>, k: nat, n: nat)
    requires !AllAlive(failing, k) && k <= n
    ensures !AllAlive(failing, n)
    decreases n
  {
    if k < n {
      AliveFails(failing, k, n - 1);
    }
  }

  /**
   The sizing pass of argvToCommandLine. `peek` is what source/posix_spawn.c:112 reads past the
   end of argv[0] when it has a blank; when it has none that line reads its terminator.
   */
  method SizeCommandLine(argv: seq<CString>, failing: set<nat>, peek: bool)
    returns (ok: bool, size: nat)
    requires argv != []
    ensures ok <==> AllAlive(failing, |argv| - 1)
    ensures ok ==> size == |Print(argv)| + 1 + (if HasBlank(argv[0]) && peek then 1 else 0)
  {
    var args := argv[1..];
    var k := FirstBlank(argv[0]);
    size := if k < |argv[0]| then 1 else 0;
    size := size * 2;
    size := size + |argv[0]|;
    size := size + (if k < |argv[0]| && peek then 1 else 0);
    if |args| != 0 {
      size := size + 1;
    }
    size := size + (if |args| == 0 then 1 else 0);
    assert size == |QuoteProgramName(argv[0])| + 1 + (if HasBlank(argv[0]) && peek then 1 else 0);
    ok, size := SizeArguments(args, failing, size);
  }

  /** The length of one printed argument, which is printed to be measured. */
  method PartSize(arg: CString, alive: bool) returns (n: Option<nat>)
    ensures n == if alive then Some(|Quote(arg)|) else None
  {
    var part := ArgvToCommandLinePart(arg, alive);
    if part == null {
      return None;
    }
    QuoteHasNoNul(arg);
    var length := PartLength(part, Quote(arg));
    n := Some(length);
  }

  /** The loop of the sizing pass over the later arguments. */
  method SizeArguments(args: seq<CString>, failing: set<nat>, from: nat) returns (ok: bool, size: nat)
    ensures ok <==> AllAlive(failing, |args|)
    ensures ok ==> size == from + |Tail(args)|
  {
    size := from;
    var i := 0;
    while i != |args|
      invariant 0 <= i <= |args|
      invariant AllAlive(failing, i)
      invariant size == from + |TailTo(args, i)|
    {
      var n := PartSize(args[i], i !in failing);
      if n == None {
        AliveFails(failing, i + 1, |args|);
        return false, 0;
      }
      size := size + n.value + 1;
      i := i + 1;
    }
    TailAll(args, i);
    ok := true;
  }

  /** memcpy of a printed part, without its terminator. */
  method CopyPart(out: array<char>, at: nat, part: array<char>, n: nat)
    requires n <= part.Length && at + n <= out.Length && out != part
    modifies out
    ensures out[..at + n] == old(out[..at]) + part[..n]
  {
    var k := 0;
    while k != n
      invariant 0 <= k <= n
      invariant out[..at + k] == old(out[..at]) + part[..k]
    {
      out[at + k] := part[k];
      k := k + 1;
      assert part[..k] == part[..k - 1] + [part[k - 1]];
    }
  }

  /** memcpy of a string. */
  method CopyString(out: array<char>, at: nat, text: string)
    requires at + |text| <= out.Length
    modifies out
    ensures out[..at + |text|] == old(out[..at]) + text
  {
    var k := 0;
    while k != |text|
      invariant 0 <= k <= |text|
      invariant out[..at + k] == old(out[..at]) + text[..k]
    {
      out[at + k] := text[k];
      k := k + 1;
      assert text[..k] == text[..k - 1] + [text[k - 1]];
    }
    assert text[..k] == text;
  }

  /**
   argvToCommandLine. The j-th allocation fails when j is in `failing`: one for each later
   argument while sizing, one for the line, one for each later argument while writing. The line
   is the printed text and its terminator, and fills the allocation to within the one byte that
   `peek` may add.
   */
  method ArgvToCommandLine(argv: Option<seq<CString>>, failing: set<nat>, peek: bool)
    returns (out: array?<char>)
    ensures out != null <==>
            argv.Some? && argv.value != [] && AllAlive(failing, 2 * |argv.value| - 1)
    ensures out != null ==>
              && fresh(out)
              && var line := Print(argv.value) + [NUL];
              && out.Length == |line| + (if HasBlank(argv.value[0]) && peek then 1 else 0)
              && out[..|line|] == line
  {
    if argv == None || argv.value == [] {
      return null;
    }
    var list := argv.value;
    var args := list[1..];
    var ok, size := SizeCommandLine(list, failing, peek);
    if !ok {
      AliveFails(failing, |args|, 2 * |list| - 1);
      return null;
    }
    if |args| in failing {
      AliveFails(failing, |list|, 2 * |list| - 1);
      return null;
    }
    out := new char[size];
    ghost var lines := Lines(list);
    assert LineIs(list, lines, 0) && LineIs(list, lines, |list| - 1);
    LineIsPrint(list);
    LineGrows(list, 0);
    var i := WriteProgramName(out, list[0], |args| != 0);
    var written;
    written, i := WriteArguments(out, i, list, failing, lines);
    if !written {
      return null;
    }
    out[i] := NUL;
    assert out[..i + 1] == Print(list) + [NUL];
  }

  /** The line after j later arguments have been printed behind the program name. */
  ghost function Printed(name: string, list: seq<string>, j: nat): string
    requires j < |list|
  {
    if j == 0 then name else Printed(name, list, j - 1) + " " + Quote(list[j])
  }

  /** The buffer after j later arguments: the line so far, and a space if another one follows. */
  ghost function Line(list: seq<string>, j: nat): string
    requires j < |list|
  {
    var line := Printed(QuoteProgramName(list[0]), list, j);
    if j + 1 < |list| then line + " " else line
  }

  lemma {:induction false} PrintedIs(name: string, list: seq<string>, j: nat)
    requires j < |list|
    ensures Printed(name, list, j) == name + TailTo(list[1..], j)
    decreases j
  {
    if j == 1 {
      Assoc(name, " ", Quote(list[1]));
    } else if j > 1 {
      PrintedIs(name, list, j - 1);
      assert list[1..][j - 1] == list[j];
      Regroup(name, TailTo(list[1..], j - 1), Quote(list[j]));
    }
  }

  lemma PrintedAll(name: string, list: seq<string>)
    requires list != []
    ensures Printed(name, list, |list| - 1) == name + Tail(list[1..])
  {
    PrintedIs(name, list, |list| - 1);
    TailAll(list[1..], |list| - 1);
  }

  lemma Regroup(name: string, t: string, text: string)
    ensures (name + t) + " " + text == name + (t + " " + text)
  {
    Assoc(name, t, " ");
    Assoc(name, t + " ", text);
  }

  /** The text after a printed argument that is kept. */
  ghost function Kept(line: string, text: string, more: bool): string {
    if more then line + text + " " else line + text
  }

  lemma LineNext(list: seq<string>, j: nat)
    requires j + 1 < |list|
    ensures Line(list, j + 1) == Kept(Line(list, j), Quote(list[j + 1]), j + 2 < |list|)
  {
  }

  lemma {:induction false} LineGrows(list: seq<string>, j: nat)
    requires j < |list|
    ensures |Line(list, j)| <= |Line(list, |list| - 1)|
    decreases |list| - j
  {
    if j + 1 < |list| {
      LineGrows(list, j + 1);
      LineNext(list, j);
    }
  }

  lemma LineIsPrint(list: seq<string>)
    requires list != []
    ensures Line(list, |list| - 1) == Print(list)
  {
    PrintedAll(QuoteProgramName(list[0]), list);
  }

  /** One printed argument and the space that is kept only when another one follows. */
  method WriteSeparated(out: array<char>, at: nat, part: array<char>, ghost text: CString, more: bool,
                        ghost line: string)
    returns (i: nat)
    requires part[..] == text + [NUL] && part != out
    requires |Kept(line, text, more)| < out.Length
    requires at == |line| && out[..at] == line
    modifies out
    ensures i == |Kept(line, text, more)| && out[..i] == Kept(line, text, more)
  {
    var n := PartLength(part, text);
    assert part[..n] == part[..][..n] == text;
    CopyPart(out, at, part, n);
    i := at + n;
    out[i] := ' ';
    assert out[..i + 1] == line + text + " ";
    i := i + (if more then 1 else 0);
  }

  ghost predicate LineIs(list: seq<string>, lines: seq<string>, j: nat) {
    j < |list| && j < |lines| && lines[j] == Line(list, j)
  }

  /** `lines` are the buffer's contents after each round of the loop. */
  ghost predicate AllLines(list: seq<string>, lines: seq<string>) {
    |lines| == |list| && forall j: nat :: j < |list| ==> LineIs(list, lines, j)
  }

  ghost function Lines(list: seq<string>): (r: seq<string>)
    ensures AllLines(list, r)
  {
    var r := seq(|list|, j requires 0 <= j < |list| => Line(list, j));
    assert forall j: nat :: j < |list| ==> LineIs(list, r, j);
    r
  }

  /** One round of the loop: print the argument to a block of its own, then copy it. */
  method WriteNext(out: array<char>, at: nat, list: seq<CString>, j: nat, alive: bool, ghost lines: seq<string>)
    returns (ok: bool, i: nat)
    requires AllLines(list, lines) && j + 1 < |list| && |lines[|list| - 1]| < out.Length
    requires at == |lines[j]| <= out.Length && out[..at] == lines[j]
    modifies out
    ensures ok <==> alive
    ensures ok ==> i == |lines[j + 1]| < out.Length && out[..i] == lines[j + 1]
  {
    var part := ArgvToCommandLinePart(list[j + 1], alive);
    if part == null {
      return false, 0;
    }
    QuoteHasNoNul(list[j + 1]);
    assert LineIs(list, lines, j) && LineIs(list, lines, j + 1) && LineIs(list, lines, |list| - 1);
    LineNext(list, j);
    LineGrows(list, j + 1);
    i := WriteSeparated(out, at, part, Quote(list[j + 1]), j + 2 != |list|, lines[j]);
    ok := true;
  }

  /** The loop that prints the later arguments. */
  method WriteArguments(out: array<char>, start: nat, list: seq<CString>, failing: set<nat>, ghost lines: seq<string>)
    returns (ok: bool, i: nat)
    requires list != [] && AllAlive(failing, |list|)
    requires AllLines(list, lines) && |lines[|list| - 1]| < out.Length
    requires start == |lines[0]| <= out.Length && out[..start] == lines[0]
    modifies out
    ensures ok <==> AllAlive(failing, 2 * |list| - 1)
    ensures ok ==> i < out.Length && out[..i] == lines[|list| - 1]
  {
    var j := 0;
    ghost var calls := |list|;
    i := start;
    while j + 1 != |list|
      invariant 0 <= j < |list| && calls == |list| + j
      invariant AllAlive(failing, calls)
      invariant i == |lines[j]| <= out.Length && out[..i] == lines[j]
    {
      AliveNext(failing, calls);
      calls := calls + 1;
      ok, i := WriteNext(out, i, list, j, |list| + j !in failing, lines);
      if !ok {
        AliveFails(failing, calls, 2 * |list| - 1);
        return;
      }
      j := j + 1;
    }
    assert calls == 2 * |list| - 1;
    ok := true;
  }

  /** The first argument, in quotes when it has a blank, and the separator when more follow. */
  method WriteProgramName(out: array<char>, name: CString, more: bool) returns (i: nat)
    requires |QuoteProgramName(name)| < out.Length
    requires more ==> |QuoteProgramName(name)| + 1 < out.Length
    modifies out
    ensures i == |QuoteProgramName(name)| + (if more then 1 else 0)
    ensures out[..i] == QuoteProgramName(name) + (if more then " " else "")
  {
    var k := FirstBlank(name);
    var hasS := if k < |name| then 1 else 0;
    out[0] := '\"';
    assert out[..hasS] == Opening(name);
    CopyString(out, hasS, name);
    i := |name| + hasS;
    assert out[..i] == Opening(name) + name;
    out[i] := '\"';
    i := i + hasS;
    assert out[..i] == QuoteProgramName(name);
    out[i] := ' ';
    i := i + (if more then 1 else 0);
  }

  lemma {:induction false} TailHasNoNul(args: seq<CString>)
    ensures NUL !in Tail(args)
  {
    if args != [] {
      QuoteHasNoNul(args[0]);
      TailHasNoNul(args[1..]);
    }
  }

  /**
   From the buffer that ArgvToCommandLine fills to the arguments the started process sees: they
   are argv for exactly the vectors that the printer can represent.
   */
  lemma StartedProcessSees(argv: seq<CString>, buffer: string)
    requires argv != []
    requires Print(argv) + [NUL] <= buffer
    ensures ReadCommandLine(UpToNul(buffer)) == argv <==> '\"' !in argv[0] && "" !in argv[1..]
  {
    TailHasNoNul(argv[1..]);
    var n := |Print(argv)| + 1;
    assert buffer == Print(argv) + [NUL] + buffer[n..];
    UpToNulStops(Print(argv), buffer[n..]);
    RoundTripExactly(argv);
  }

  // ---------------------------------------------------------------------------------------
  // envpToEnvironment
  // ---------------------------------------------------------------------------------------

  /** The nonempty entries, each with its terminator. */
  function Entries(envp: seq<string>): (r: string) {
    if envp == [] then ""
    else if envp[0] == "" then Entries(envp[1..])
    else envp[0] + [NUL] + Entries(envp[1..])
  }

  /** The environment block: an empty one is two terminators. */
  function Block(envp: seq<string>): string {
    if Entries(envp) == "" then [NUL, NUL] else Entries(envp) + [NUL]
  }

  /** How Windows reads a block: strings up to the first empty one. */
  function ReadBlock(b: string): seq<string>
    decreases |b|
  {
    var s := UpToNul(b);
    if s == "" || |s| == |b| then [] else [s] + ReadBlock(b[|s| + 1..])
  }

  lemma {:induction false} ReadsEntries(envp: seq<CString>)
    ensures ReadBlock(Entries(envp) + [NUL]) == NonEmpty(envp)
    decreases |envp|
  {
    if envp == [] {
      assert Entries(envp) + [NUL] == "" + [NUL] + "";
      UpToNulStops("", "");
    } else {
      ReadsEntries(envp[1..]);
      var rest := Entries(envp[1..]) + [NUL];
      if envp[0] != "" {
        Assoc(envp[0] + [NUL], Entries(envp[1..]), [NUL]);
        ReadsOne(envp[0], rest);
      }
    }
  }

  lemma ReadsOne(entry: CString, rest: string)
    requires entry != ""
    ensures ReadBlock(entry + [NUL] + rest) == [entry] + ReadBlock(rest)
  {
    UpToNulStops(entry, rest);
    assert (entry + [NUL] + rest)[|entry| + 1..] == rest;
  }

  /** The block of an environment reads back as its nonempty entries, in order. */
  lemma BlockRoundTrip(envp: seq<CString>)
    ensures ReadBlock(Block(envp)) == NonEmpty(envp)
    ensures NonEmpty(envp) == [] <==> Block(envp) == [NUL, NUL]
  {
    ReadsEntries(envp);
    if Entries(envp) == "" {
      assert ReadBlock([NUL, NUL]) == [];
      assert ReadBlock("" + [NUL]) == [];
    } else {
      EntriesEmpty(envp);
      EntriesStart(envp);
    }
  }

  lemma {:induction false} EntriesEmpty(envp: seq<string>)
    ensures Entries(envp) == "" <==> NonEmpty(envp) == []
  {
    if envp != [] {
      EntriesEmpty(envp[1..]);
    }
  }

  lemma {:induction false} EntriesStart(envp: seq<CString>)
    ensures Entries(envp) != "" ==> Entries(envp)[0] != NUL
  {
    if envp != [] {
      EntriesStart(envp[1..]);
    }
  }

  /** The entries of the first k strings. */
  ghost function EntriesTo(envp: seq<string>, k: nat): string
    requires k <= |envp|
  {
    if k == 0 then ""
    else if envp[k - 1] == "" then EntriesTo(envp, k - 1)
    else EntriesTo(envp, k - 1) + envp[k - 1] + [NUL]
  }

  lemma {:induction false} EntriesSplit(envp: seq<string>, k: nat)
    requires k <= |envp|
    ensures EntriesTo(envp, k) + Entries(envp[k..]) == Entries(envp)
    decreases k
  {
    if k == 0 {
      assert envp[0..] == envp;
    } else {
      EntriesSplit(envp, k - 1);
      var rest := envp[k - 1..];
      assert rest[0] == envp[k - 1] && rest[1..] == envp[k..];
      if envp[k - 1] != "" {
        Assoc(EntriesTo(envp, k - 1), envp[k - 1], [NUL]);
        Assoc(EntriesTo(envp, k - 1), envp[k - 1] + [NUL], Entries(envp[k..]));
      }
    }
  }

  lemma EntriesAll(envp: seq<string>)
    ensures EntriesTo(envp, |envp|) == Entries(envp)
  {
    EntriesSplit(envp, |envp|);
    assert EntriesTo(envp, |envp|) + "" == EntriesTo(envp, |envp|);
  }

  lemma {:induction false} EntriesGrow(envp: seq<string>, k: nat)
    requires k <= |envp|
    ensures |EntriesTo(envp, k)| <= |EntriesTo(envp, |envp|)|
    decreases |envp| - k
  {
    if k < |envp| {
      EntriesGrow(envp, k + 1);
    }
  }

  /** One entry and its terminator; an empty one is passed over. */
  method WriteEntry(out: array<char>, at: nat, entry: CString, ghost before: string) returns (p: nat)
    requires at == |before| && out.Length > at + (if entry == "" then 0 else |entry| + 1)
    requires out[..at] == before
    modifies out
    ensures entry == "" ==> p == at && out[..p] == before
    ensures entry != "" ==> p == at + |entry| + 1 && out[..p] == before + entry + [NUL]
  {
    p := at;
    if entry != "" {
      CopyString(out, p, entry);
      p := p + |entry|;
      ghost var text := out[..p];
      out[p] := NUL;
      p := p + 1;
      assert out[..p] == text + [NUL];
    }
  }

  /**
   envpToEnvironment: on success the block fills the whole allocation.
   */
  method EnvpToEnvironment(envp: Option<seq<CString>>, alive: bool) returns (out: array?<char>)
    ensures out != null <==> envp.Some? && alive
    ensures out != null ==> fresh(out) && out[..] == Block(envp.value)
  {
    if envp == None {
      return null;
    }
    var list := envp.value;
    var size, i := 0, 0;
    while i != |list|
      invariant 0 <= i <= |list|
      invariant size == |EntriesTo(list, i)|
    {
      if list[i] != "" {
        size := size + |list[i]| + 1;
      }
      i := i + 1;
    }
    EntriesAll(list);
    size := size + (if size == 0 then 1 else 0);
    size := size + 1;
    if !alive {
      return null;
    }
    out := new char[size];
    var p := 0;
    i := 0;
    while i != |list|
      invariant 0 <= i <= |list|
      invariant p == |EntriesTo(list, i)| < out.Length
      invariant out[..p] == EntriesTo(list, i)
    {
      EntriesGrow(list, i + 1);
      p := WriteEntry(out, p, list[i], EntriesTo(list, i));
      i := i + 1;
    }
    out[p] := NUL;
    p := p + (if p == 0 then 1 else 0);
    out[p] := NUL;
    assert out[..] == out[..p] + [NUL];
  }
}
