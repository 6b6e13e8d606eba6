/**
 The printed line and its reader (source/posix_spawn.c) in characters: which arguments are quoted, how
 backslashes and double quotes are written, and where the runtime's parser ends an argument.
 */
module CommandLineRules {
  import opened CStrings
  import opened CommandLine

  predicate SpaceOrTab(s: string) {
    ' ' in s || '\t' in s
  }

  /** Only spaces and tabs. */
  predicate Gap(s: string) {
    forall k :: 0 <= k < |s| ==> s[k] == ' ' || s[k] == '\t'
  }

  predicate EndsInBackslash(s: string) {
    s != "" && s[|s| - 1] == '\\'
  }

  // ---------------------------------------------------------------------------------------
  // What is printed
  // ---------------------------------------------------------------------------------------

  lemma BlanksExactly(s: string)
    ensures HasBlank(s) <==> SpaceOrTab(s)
  {
    if c :| c in s && (c == ' ' || c == '\t') {
      var k :| 0 <= k < |s| && s[k] == c;
      assert Blank(s[k]);
    }
  }

  /** An argument is put into quotes exactly when it has a space or a tab. */
  lemma QuotedExactly(s: string)
    ensures Quote(s) != "" && Quote(s)[0] == '\"' <==> SpaceOrTab(s)
  {
    BlanksExactly(s);
    if !HasBlank(s) && s != "" {
      QuotedBodyIsNotQuote(s, 0);
    }
  }

  /** And so is a program name without a double quote. */
  lemma NameQuotedExactly(s: string)
    requires '\"' !in s
    ensures QuoteProgramName(s) == if SpaceOrTab(s) then "\"" + s + "\"" else s
  {
    BlanksExactly(s);
  }

  /** Text without double quotes is not escaped. */
  lemma {:induction false} EscapeKeeps(s: string, c: nat, rest: string)
    requires '\"' !in s
    ensures Escape(s + rest, c) == s + Escape(rest, RunAfter(s, c))
    decreases |s|
  {
    if s == "" {
      assert s + rest == rest;
    } else {
      var c' := if s[0] == '\\' then c + 1 else 0;
      assert (s + rest)[1..] == s[1..] + rest;
      EscapeKeeps(s[1..], c', rest);
      assert [s[0]] + (s[1..] + Escape(rest, RunAfter(s[1..], c'))) == s + Escape(rest, RunAfter(s, c));
    }
  }

  /** A run of n backslashes at the end counts n. */
  lemma {:induction false} RunOf(t: string, n: nat, c: nat)
    requires !EndsInBackslash(t) && (t == "" ==> c == 0)
    ensures RunAfter(t + Slashes(n), c) == n
    decreases |t|
  {
    if t == "" {
      assert t + Slashes(n) == Slashes(n);
      RunOfSlashes(n, 0);
    } else {
      assert (t + Slashes(n))[1..] == t[1..] + Slashes(n);
      RunOf(t[1..], n, if t[0] == '\\' then c + 1 else 0);
    }
  }

  lemma {:induction false} RunOfSlashes(n: nat, c: nat)
    ensures RunAfter(Slashes(n), c) == n + c
    decreases n
  {
    if n > 0 {
      assert Slashes(n)[1..] == Slashes(n - 1);
      RunOfSlashes(n - 1, c + 1);
    }
  }

  /** An argument without double quotes: only backslashes in front of the closing quote are doubled. */
  lemma {:induction false} QuoteWithoutMarks(t: string, n: nat)
    requires '\"' !in t && !EndsInBackslash(t)
    ensures var s := t + Slashes(n);
      Quote(s) == if SpaceOrTab(t) then "\"" + t + Slashes(2 * n) + "\"" else s
  {
    var s := t + Slashes(n);
    BlanksExactly(s);
    assert SpaceOrTab(s) <==> SpaceOrTab(t) by {
      assert forall c :: c in s <==> c in t || c in Slashes(n);
    }
    EscapeKeeps(s, 0, "");
    assert s + "" == s;
    RunOf(t, n, 0);
    assert s + Slashes(n) == t + Slashes(2 * n);
    Assoc("\"", s, Slashes(n));
    Assoc("\"", t, Slashes(2 * n));
  }

  /** A double quote is written with a backslash, and the n backslashes in front of it are doubled. */
  lemma {:induction false} EscapeMark(t: string, n: nat, rest: string)
    requires '\"' !in t && !EndsInBackslash(t)
    ensures Escape(t + Slashes(n) + ("\"" + rest), 0) == t + Slashes(2 * n + 1) + ("\"" + Escape(rest, 0))
  {
    var s, mark := t + Slashes(n), "\"" + rest;
    EscapeKeeps(s, 0, mark);
    RunOf(t, n, 0);
    assert mark[1..] == rest;
    assert s + (Slashes(n) + "\\\"" + Escape(rest, 0)) == t + Slashes(2 * n + 1) + ("\"" + Escape(rest, 0));
  }

  /** Each later argument follows a space. */
  lemma {:induction false} PrintedAfterSpace(argv: seq<string>, a: string)
    requires argv != []
    ensures Print(argv + [a]) == Print(argv) + " " + Quote(a)
  {
    assert (argv + [a])[1..] == argv[1..] + [a];
    TailAfterSpace(argv[1..], a);
  }

  lemma {:induction false} TailAfterSpace(args: seq<string>, a: string)
    ensures Tail(args + [a]) == Tail(args) + " " + Quote(a)
    decreases |args|
  {
    if args == [] {
      assert args + [a] == [a] && [a][1..] == [];
    } else {
      assert (args + [a])[1..] == args[1..] + [a];
      TailAfterSpace(args[1..], a);
    }
  }

  // ---------------------------------------------------------------------------------------
  // How it is read
  // ---------------------------------------------------------------------------------------

  /** Text without blanks, backslashes and double quotes. */
  predicate Bare(w: string) {
    forall k :: 0 <= k < |w| ==> w[k] != ' ' && w[k] != '\t' && w[k] != '\\' && w[k] != '\"'
  }

  lemma {:induction false} ReadsBare(w: string, rest: string, quoted: bool)
    requires if quoted then '\"' !in w && '\\' !in w else Bare(w)
    ensures ReadArgument(w + rest, quoted, 0) == Prepend(w, ReadArgument(rest, quoted, 0))
    decreases |w|
  {
    if w == "" {
      assert w + rest == rest;
    } else {
      assert (w + rest)[1..] == w[1..] + rest;
      ReadsBare(w[1..], rest, quoted);
      var p := ReadArgument(rest, quoted, 0);
      assert Slashes(0) + [w[0]] + (w[1..] + p.arg) == w + p.arg;
    }
  }

  /** Outside quotes a space or a tab ends an argument, and no other character does. */
  lemma {:induction false} WordEndsExactly(w: string, c: char, rest: string)
    requires Bare(w) && c != '\\' && c != '\"'
    ensures ReadArgument(w + ([c] + rest), false, 0) == Parsed(w, [c] + rest) <==> c == ' ' || c == '\t'
  {
    ReadsBare(w, [c] + rest, false);
    assert ([c] + rest)[1..] == rest;
    if c == ' ' || c == '\t' {
      assert w + Slashes(0) == w;
    } else {
      ReadsBare([c], rest, false);
    }
  }

  /** Inside quotes blanks are text, and the quotes themselves vanish. */
  lemma {:induction false} QuotesProtect(w: string, rest: string)
    requires '\"' !in w && '\\' !in w && (rest == "" || rest[0] != '\"')
    ensures ReadArgument("\"" + (w + ("\"" + rest)), false, 0) == Prepend(w, ReadArgument(rest, false, 0))
  {
    var closing := "\"" + rest;
    ReadsOpeningQuote(w + closing);
    ReadsBare(w, closing, true);
    ClosingQuote(rest);
  }

  lemma {:induction false} ClosingQuote(rest: string)
    requires rest == "" || rest[0] != '\"'
    ensures ReadArgument("\"" + rest, true, 0) == ReadArgument(rest, false, 0)
  {
    var s, p := "\"" + rest, ReadArgument(rest, false, 0);
    assert s[1..] == rest;
    assert Slashes(0) + p.arg == p.arg;
  }

  /** Two double quotes inside quotes are one of text. */
  lemma {:induction false} DoubledQuote(rest: string)
    ensures ReadArgument("\"\"" + rest, true, 0) == Prepend("\"", ReadArgument(rest, true, 0))
  {
    var s := "\"\"" + rest;
    assert s[2..] == rest;
    assert Slashes(0) + "\"" == "\"";
  }

  /** 2n backslashes and a double quote: n backslashes, and quotes begin or end. */
  lemma {:induction false} EvenBackslashes(n: nat, rest: string, quoted: bool)
    requires quoted ==> rest == "" || rest[0] != '\"'
    ensures ReadArgument(Slashes(2 * n) + ("\"" + rest), quoted, 0)
      == Prepend(Slashes(n), ReadArgument(rest, !quoted, 0))
  {
    ReadsSlashes(2 * n, "\"" + rest, quoted, 0);
    assert ("\"" + rest)[1..] == rest;
  }

  /** 2n + 1 backslashes and a double quote: n backslashes and a double quote of text. */
  lemma {:induction false} OddBackslashes(n: nat, rest: string, quoted: bool)
    ensures ReadArgument(Slashes(2 * n + 1) + ("\"" + rest), quoted, 0)
      == Prepend(Slashes(n) + "\"", ReadArgument(rest, quoted, 0))
  {
    ReadsSlashes(2 * n + 1, "\"" + rest, quoted, 0);
    assert ("\"" + rest)[1..] == rest;
  }

  /** Backslashes in front of anything else are text. */
  lemma {:induction false} OtherBackslashes(n: nat, c: char, rest: string, quoted: bool)
    requires c != '\"' && c != '\\' && (quoted || (c != ' ' && c != '\t'))
    ensures ReadArgument(Slashes(n) + ([c] + rest), quoted, 0)
      == Prepend(Slashes(n) + [c], ReadArgument(rest, quoted, 0))
  {
    ReadsSlashes(n, [c] + rest, quoted, 0);
    assert ([c] + rest)[1..] == rest;
  }

  lemma {:induction false} TrailingBackslashes(n: nat, rest: string)
    requires rest == "" || rest[0] == ' ' || rest[0] == '\t'
    ensures ReadArgument(Slashes(n) + rest, false, 0) == Parsed(Slashes(n), rest)
  {
    ReadsSlashes(n, rest, false, 0);
  }

  /** Any gap of spaces and tabs is skipped, and nothing else. */
  lemma {:induction false} GapIsSkipped(gap: string, s: string)
    requires Gap(gap) && (s == "" || (s[0] != ' ' && s[0] != '\t'))
    ensures SkipBlanks(gap + s) == s
    decreases |gap|
  {
    if gap == "" {
      assert gap + s == s;
    } else {
      assert (gap + s)[1..] == gap[1..] + s;
      assert Gap(gap[1..]) by {
        assert forall k :: 0 <= k < |gap| - 1 ==> gap[1..][k] == gap[k + 1];
      }
      GapIsSkipped(gap[1..], s);
    }
  }

  /** Words with gaps in front of them. */
  function Spaced(gaps: seq<string>, words: seq<string>): string
    requires |gaps| == |words|
  {
    if words == [] then "" else gaps[0] + (words[0] + Spaced(gaps[1..], words[1..]))
  }

  /** A line of bare words reads as these words, whatever the gaps. */
  lemma {:induction false} BareWordsRead(gaps: seq<string>, words: seq<string>)
    requires |gaps| == |words|
    requires forall k :: 0 <= k < |words| ==> gaps[k] != "" && Gap(gaps[k]) && words[k] != "" && Bare(words[k])
    ensures ReadArguments(Spaced(gaps, words)) == words
    ensures var s := Spaced(gaps, words); s == "" || s[0] == ' ' || s[0] == '\t'
    decreases |words|
  {
    if words != [] {
      var rest, w := Spaced(gaps[1..], words[1..]), words[0];
      assert forall k :: 0 <= k < |words| - 1 ==> gaps[1..][k] == gaps[k + 1] && words[1..][k] == words[k + 1];
      BareWordsRead(gaps[1..], words[1..]);
      assert (w + rest)[0] == w[0];
      GapIsSkipped(gaps[0], w + rest);
      FirstWord(w, rest);
      assert gaps[0][0] == (gaps[0] + (w + rest))[0];
    }
  }

  lemma {:induction false} FirstWord(w: string, rest: string)
    requires Bare(w) && (rest == "" || rest[0] == ' ' || rest[0] == '\t')
    ensures ReadArgument(w + rest, false, 0) == Parsed(w, rest)
  {
    ReadsBare(w, rest, false);
    assert ReadArgument(rest, false, 0) == Parsed("", rest);
    assert w + "" == w;
  }

  /** The program name ends at a space or a tab outside quotes; quotes vanish, and backslashes are text. */
  lemma {:induction false} NameEndsExactly(w: string, c: char, rest: string)
    requires '\"' !in w && !SpaceOrTab(w) && c != '\"'
    ensures ReadProgramName(w + ([c] + rest), false) == Parsed(w, [c] + rest) <==> c == ' ' || c == '\t'
  {
    ReadsName(w, [c] + rest, false);
    assert ([c] + rest)[1..] == rest;
    if c == ' ' || c == '\t' {
      assert w + "" == w;
    } else {
      assert [c] + rest == "" + ([c] + rest);
      ReadsName([c], rest, false);
    }
  }

  lemma {:induction false} ReadsName(w: string, rest: string, quoted: bool)
    requires '\"' !in w && (quoted || !SpaceOrTab(w))
    ensures ReadProgramName(w + rest, quoted) == Prepend(w, ReadProgramName(rest, quoted))
    decreases |w|
  {
    if w == "" {
      assert w + rest == rest;
    } else {
      assert (w + rest)[1..] == w[1..] + rest;
      assert w[0] in w && forall c :: c in w[1..] ==> c in w;
      ReadsName(w[1..], rest, quoted);
      assert [w[0]] + (w[1..] + ReadProgramName(rest, quoted).arg) == w + ReadProgramName(rest, quoted).arg;
    }
  }

  lemma {:induction false} NameQuotesProtect(w: string, rest: string)
    requires '\"' !in w
    ensures ReadProgramName("\"" + (w + ("\"" + rest)), false) == Prepend(w, ReadProgramName(rest, false))
  {
    var inner, outer := w + ("\"" + rest), "\"" + rest;
    assert ("\"" + inner)[1..] == inner && outer[1..] == rest;
    ReadsName(w, outer, true);
  }

  // ---------------------------------------------------------------------------------------
  // The environment block
  // ---------------------------------------------------------------------------------------

  /** Nothing but empty entries: two terminators. */
  lemma {:induction false} EmptyBlock(envp: seq<string>)
    requires forall k :: 0 <= k < |envp| ==> envp[k] == ""
    ensures Block(envp) == "\0\0"
  {
    NoEntries(envp);
  }

  lemma {:induction false} NoEntries(envp: seq<string>)
    requires forall k :: 0 <= k < |envp| ==> envp[k] == ""
    ensures Entries(envp) == ""
    decreases |envp|
  {
    if envp != [] {
      assert forall k :: 0 <= k < |envp| - 1 ==> envp[1..][k] == envp[k + 1];
      NoEntries(envp[1..]);
    }
  }

  /** One entry more, with its terminator, in front of the block's last one; an empty entry adds nothing. */
  lemma {:induction false} BlockGrows(envp: seq<string>, e: string)
    ensures e == "" ==> Block(envp + [e]) == Block(envp)
    ensures e != "" ==> Block(envp + [e]) == Entries(envp) + e + "\0\0"
    ensures Entries(envp) != "" ==> Block(envp) == Entries(envp) + "\0"
  {
    EntriesGrow(envp, e);
    assert [NUL] == "\0" && "\0" + "\0" == "\0\0";
    if e != "" {
      assert Entries(envp) + e + [NUL] + [NUL] == Entries(envp) + e + "\0\0";
    }
  }

  lemma {:induction false} EntriesGrow(envp: seq<string>, e: string)
    ensures Entries(envp + [e]) == if e == "" then Entries(envp) else Entries(envp) + e + [NUL]
    decreases |envp|
  {
    if envp == [] {
      assert envp + [e] == [e] && [e][1..] == [];
      assert "" + e + [NUL] == e + [NUL] + "";
    } else {
      assert (envp + [e])[1..] == envp[1..] + [e];
      EntriesGrow(envp[1..], e);
    }
  }
}
