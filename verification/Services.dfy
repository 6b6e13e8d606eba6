/**
 The services database (source/getservent.c, getservbyname.c, getservbyport.c, setservent.c,
 endservent.c): one shared stream, one line buffer that strtok cuts up in place, and one static
 entry that points into the buffer. The file is a string as the C stream delivers it.
 */
module Services {
  import opened CStrings

  const ROOM := 1023
  const MAX_ALIASES := 31

  /** A services entry by value. The port is in network byte order. */
  datatype Service = Service(name: string, aliases: seq<string>, port: nat, proto: string)

  // ------------------------------------------------------------------ the pure reader

  predicate Blank(c: char) {
    c == ' ' || c == '\t'
  }

  predicate Delim(c: char) {
    c == ' ' || c == '\t' || c == '\n'
  }

  function SkipBlanks(s: string): (r: string)
    ensures |r| <= |s|
  {
    if s != "" && Blank(s[0]) then SkipBlanks(s[1..]) else s
  }

  function SkipDelims(s: string): (r: string)
    ensures |r| <= |s|
    ensures r != "" ==> !Delim(r[0])
  {
    if s != "" && Delim(s[0]) then SkipDelims(s[1..]) else s
  }

  /** The length of the token at the front of s. */
  function TokenLen(s: string): (n: nat)
    ensures n <= |s|
  {
    if s == "" || Delim(s[0]) then 0 else 1 + TokenLen(s[1..])
  }

  /** What strtok keeps for its next call: it steps over the delimiter that it overwrites. */
  function AfterToken(t: string): (r: string)
    ensures |r| <= |t|
  {
    var n := TokenLen(t);
    if n < |t| then t[n + 1..] else ""
  }

  function Tokens(s: string): seq<string>
    decreases |s|
  {
    var t := SkipDelims(s);
    if t == "" then []
    else
      assert TokenLen(t) > 0;
      [t[..TokenLen(t)]] + Tokens(AfterToken(t))
  }

  /** The index of the first '/', or the length. */
  function Slash(s: string): (n: nat)
    ensures n <= |s|
  {
    if s == "" || s[0] == '/' then 0 else 1 + Slash(s[1..])
  }

  predicate Slashed(s: string) {
    Slash(s) < |s|
  }

  /** The index of the first token with a '/', or the number of tokens. */
  function FirstSlashed(ts: seq<string>): (n: nat)
    ensures n <= |ts|
    ensures n < |ts| ==> Slashed(ts[n])
    ensures forall k :: 0 <= k < n ==> !Slashed(ts[k])
  {
    if ts == [] || Slashed(ts[0]) then 0 else 1 + FirstSlashed(ts[1..])
  }

  predicate Space(c: char) {
    c == ' ' || c == '\t' || c == '\n' || c == '\r'
  }

  /** The protocol without trailing white space, of which one character always stays. */
  function TrimEnd(s: string): (r: string)
    ensures r <= s
  {
    if |s| > 1 && Space(s[|s| - 1]) then TrimEnd(s[..|s| - 1]) else s
  }

  predicate Digit(c: char) {
    '0' <= c <= '9'
  }

  function SkipSpace(s: string): string {
    if s != "" && (Space(s[0]) || s[0] == '\U{0B}' || s[0] == '\U{0C}') then SkipSpace(s[1..]) else s
  }

  function Value(s: string, acc: nat): nat
    decreases |s|
  {
    if s == "" || !Digit(s[0]) then acc else Value(s[1..], acc * 10 + (s[0] as int - '0' as int))
  }

  /** atoi of the Microsoft runtime: saturates at the bounds of int. */
  function Atoi(s: string): (n: int)
    ensures -0x8000_0000 <= n <= 0x7FFF_FFFF
  {
    var t := SkipSpace(s);
    if t != "" && t[0] == '-' then
      var v: int := Value(t[1..], 0);
      if v > 0x8000_0000 then -0x8000_0000 else -v
    else
      var v := Value(if t != "" && t[0] == '+' then t[1..] else t, 0);
      if v > 0x7FFF_FFFF then 0x7FFF_FFFF else v
  }

  /** htons on a little-endian machine, after the conversion to u_short. */
  function Htons(n: int): (r: nat)
    ensures r < 0x1_0000
  {
    var u := n % 0x1_0000;
    (u % 0x100) * 0x100 + u / 0x100
  }

  /** Two ports have the same network form exactly when they agree modulo 2^16. */
  lemma HtonsExactly(a: int, b: int)
    ensures Htons(a) == Htons(b) <==> a % 0x1_0000 == b % 0x1_0000
  {
    if Htons(a) == Htons(b) {
      var u, v := a % 0x1_0000, b % 0x1_0000;
      assert u / 0x100 == Htons(a) % 0x100 && v / 0x100 == Htons(b) % 0x100;
      assert u % 0x100 == Htons(a) / 0x100 && v % 0x100 == Htons(b) / 0x100;
    }
  }

  lemma HtonsIsOneToOne(a: nat, b: nat)
    requires a < 0x1_0000 && b < 0x1_0000
    ensures Htons(a) == Htons(b) <==> a == b
  {
    HtonsExactly(a, b);
  }

  /** Swapping the bytes of a port twice gives it back, and once only when they agree. */
  lemma HtonsSwaps(port: nat)
    requires port < 0x1_0000
    ensures Htons(Htons(port)) == port
    ensures Htons(port) == port <==> port / 0x100 == port % 0x100
  {
    var low, high := port % 0x100, port / 0x100;
    assert Htons(port) == low * 0x100 + high;
    assert Htons(port) / 0x100 == low && Htons(port) % 0x100 == high;
  }

  function Keep<T>(s: seq<T>): (r: seq<T>)
    ensures r <= s
  {
    if |s| <= MAX_ALIASES then s else s[..MAX_ALIASES]
  }

  /** The entry that a token list gives: a name, aliases, then port/protocol. */
  function Entry(ts: seq<string>): Option<Service> {
    if ts == [] then None
    else
      var k := FirstSlashed(ts[1..]);
      if k == |ts| - 1 then None
      else
        var t := ts[1 + k];
        var at := Slash(t);
        Some(Service(ts[0], Keep(ts[1..1 + k]), Htons(Atoi(t[..at])), TrimEnd(t[at + 1..])))
  }

  /** One line of the file: a comment, a line of no use, or an entry. */
  function Parse(text: string): Option<Service> {
    var l := SkipBlanks(text);
    if l == "" || l[0] == '#' || l[0] == '\n' then None else Entry(Tokens(l))
  }

  /** How much of s one fgets takes. */
  function LineLength(s: string, room: nat): (n: nat)
    ensures n <= |s| && n <= room
    ensures s != "" && room > 0 ==> n > 0
  {
    if s == "" || room == 0 then 0
    else if s[0] == '\n' then 1
    else 1 + LineLength(s[1..], room - 1)
  }

  function Listed(e: Option<Service>): seq<Service> {
    if e == None then [] else [e.value]
  }

  /** All entries of a file, in order. */
  function Records(s: string): seq<Service>
    decreases |s|
  {
    if s == "" then []
    else
      var n := LineLength(s, ROOM);
      Listed(Parse(UpToNul(s[..n]))) + Records(s[n..])
  }

  predicate ProtoFits(s: Service, proto: Option<string>) {
    proto == None || s.proto == proto.value
  }

  predicate Named(s: Service, name: string, proto: Option<string>) {
    (s.name == name || name in s.aliases) && ProtoFits(s, proto)
  }

  /** The first entry of that name (or alias) and protocol: its index, or the number of entries. */
  function FirstNamed(ss: seq<Service>, name: string, proto: Option<string>): (n: nat)
    ensures n <= |ss|
    ensures n < |ss| ==> Named(ss[n], name, proto)
    ensures forall k :: 0 <= k < n ==> !Named(ss[k], name, proto)
  {
    if ss == [] || Named(ss[0], name, proto) then 0 else 1 + FirstNamed(ss[1..], name, proto)
  }

  predicate HasPort(s: Service, port: int, proto: Option<string>) {
    s.port == Htons(port) && ProtoFits(s, proto)
  }

  function FirstWithPort(ss: seq<Service>, port: int, proto: Option<string>): (n: nat)
    ensures n <= |ss|
    ensures n < |ss| ==> HasPort(ss[n], port, proto)
    ensures forall k :: 0 <= k < n ==> !HasPort(ss[k], port, proto)
  {
    if ss == [] || HasPort(ss[0], port, proto) then 0 else 1 + FirstWithPort(ss[1..], port, proto)
  }

  // ------------------------------------------------------------------ writing and reading back

  /** A word that strtok leaves whole. */
  predicate Word(s: string) {
    s != "" && NUL !in s && forall k :: 0 <= k < |s| ==> !Delim(s[k])
  }

  function Join(ts: seq<string>): string {
    if ts == [] then "\n" else ts[0] + " " + Join(ts[1..])
  }

  lemma {:induction false} TokenLenOf(w: string, c: char, rest: string)
    requires Delim(c) && forall k :: 0 <= k < |w| ==> !Delim(w[k])
    ensures TokenLen(w + [c] + rest) == |w|
    decreases |w|
  {
    var s := w + [c] + rest;
    if w != "" {
      assert s[1..] == w[1..] + [c] + rest;
      TokenLenOf(w[1..], c, rest);
    }
  }

  lemma TokensFront(s: string)
    ensures Tokens(s) == [] <==> SkipDelims(s) == ""
    ensures var t := SkipDelims(s); t != "" ==>
      Tokens(s)[0] == t[..TokenLen(t)] && Tokens(s)[1..] == Tokens(AfterToken(t))
  {
  }

  lemma WordInFront(w: string, rest: string)
    requires Word(w)
    ensures var s := w + " " + rest;
      SkipDelims(s) == s && s[..TokenLen(s)] == w && AfterToken(s) == rest
  {
    var s := w + " " + rest;
    assert s == w + [' '] + rest;
    TokenLenOf(w, ' ', rest);
    assert s[0] == w[0];
  }

  /** strtok finds exactly the words that were written. */
  lemma {:induction false} JoinThenTokens(ts: seq<string>)
    requires forall k :: 0 <= k < |ts| ==> Word(ts[k])
    ensures Tokens(Join(ts)) == ts
  {
    if ts == [] {
      assert SkipDelims("\n"[1..]) == "";
    } else {
      WordInFront(ts[0], Join(ts[1..]));
      TokensFront(Join(ts));
      assert forall k :: 0 <= k < |ts[1..]| ==> ts[1..][k] == ts[k + 1];
      JoinThenTokens(ts[1..]);
    }
  }

  function Decimal(n: nat): (r: string)
    ensures r != "" && forall k :: 0 <= k < |r| ==> Digit(r[k])
  {
    var d := ['0' + (n % 10) as char];
    if n < 10 then d else Decimal(n / 10) + d
  }

  lemma {:induction false} ValueAppend(a: string, b: string, acc: nat)
    requires forall k :: 0 <= k < |a| ==> Digit(a[k])
    ensures Value(a + b, acc) == Value(b, Value(a, acc))
    decreases |a|
  {
    if a == "" {
      assert a + b == b;
    } else {
      assert (a + b)[1..] == a[1..] + b;
      ValueAppend(a[1..], b, acc * 10 + (a[0] as int - '0' as int));
    }
  }

  lemma {:induction false} DecimalReadsBack(n: nat)
    ensures Value(Decimal(n), 0) == n
  {
    var d := ['0' + (n % 10) as char];
    assert d[1..] == "";
    if n >= 10 {
      DecimalReadsBack(n / 10);
      ValueAppend(Decimal(n / 10), d, 0);
    }
  }

  lemma {:induction false} SlashOf(a: string, b: string)
    requires '/' !in a
    ensures Slash(a + "/" + b) == |a|
  {
    if a != "" {
      assert (a + "/" + b)[1..] == a[1..] + "/" + b;
      SlashOf(a[1..], b);
    }
  }

  lemma {:induction false} FirstSlashedOf(before: seq<string>, t: string, after: seq<string>)
    requires Slashed(t) && forall k :: 0 <= k < |before| ==> !Slashed(before[k])
    ensures FirstSlashed(before + [t] + after) == |before|
  {
    var ts := before + [t] + after;
    if before != [] {
      assert ts[1..] == before[1..] + [t] + after;
      assert forall k :: 0 <= k < |before[1..]| ==> before[1..][k] == before[k + 1];
      FirstSlashedOf(before[1..], t, after);
    }
  }

  /** The parts of a line: name, words before the port, port and protocol, words after it. */
  datatype Layout = Layout(name: string, before: seq<string>, port: nat, proto: string, after: seq<string>)
  {
    function Words(): seq<string> {
      [name] + (before + [Decimal(port) + "/" + proto] + after)
    }

    ghost predicate Valid() {
      && Word(name) && name[0] != '#'
      && (forall k :: 0 <= k < |before| ==> Word(before[k]) && !Slashed(before[k]))
      && port < 0x1_0000
      && NUL !in proto && (forall k :: 0 <= k < |proto| ==> !Space(proto[k]))
      && (forall k :: 0 <= k < |after| ==> Word(after[k]))
    }
  }

  lemma WordsAreWords(l: Layout)
    requires l.Valid()
    ensures forall k :: 0 <= k < |l.Words()| ==> Word(l.Words()[k])
  {
    var t := Decimal(l.port) + "/" + l.proto;
    assert Word(t);
  }

  lemma PortReadsBack(port: nat)
    requires port < 0x1_0000
    ensures Atoi(Decimal(port)) == port
  {
    DecimalReadsBack(port);
    assert SkipSpace(Decimal(port)) == Decimal(port);
  }

  lemma EntryOf(ts: seq<string>, k: nat)
    requires k + 1 < |ts| && FirstSlashed(ts[1..]) == k
    ensures var t := ts[1 + k];
      Entry(ts) == Some(Service(ts[0], Keep(ts[1..1 + k]), Htons(Atoi(t[..Slash(t)])), TrimEnd(t[Slash(t) + 1..])))
  {
    assert ts[1..][k] == ts[1 + k];
  }

  lemma PortWordReadsBack(port: nat, proto: string)
    requires port < 0x1_0000 && forall k :: 0 <= k < |proto| ==> !Space(proto[k])
    ensures var t := Decimal(port) + "/" + proto;
      Slashed(t) && Atoi(t[..Slash(t)]) == port && TrimEnd(t[Slash(t) + 1..]) == proto
  {
    var digits := Decimal(port);
    var t := digits + "/" + proto;
    assert '/' !in digits;
    SlashOf(digits, proto);
    assert t[..|digits|] == digits && t[|digits| + 1..] == proto;
    PortReadsBack(port);
  }

  lemma WordsSplit(l: Layout)
    requires l.Valid()
    ensures var ts, k := l.Words(), |l.before|;
      && 1 + k < |ts| && ts[0] == l.name && ts[1..1 + k] == l.before
      && ts[1 + k] == Decimal(l.port) + "/" + l.proto && FirstSlashed(ts[1..]) == k
  {
    var ts := l.Words();
    PortWordReadsBack(l.port, l.proto);
    FirstSlashedOf(l.before, Decimal(l.port) + "/" + l.proto, l.after);
    assert ts[1..] == l.before + [Decimal(l.port) + "/" + l.proto] + l.after;
  }

  lemma EntryReadsBack(l: Layout)
    requires l.Valid()
    ensures Entry(l.Words()) == Some(Service(l.name, Keep(l.before), Htons(l.port), l.proto))
  {
    WordsSplit(l);
    EntryOf(l.Words(), |l.before|);
    PortWordReadsBack(l.port, l.proto);
  }

  /**
   A written line reads back as its name, at most 31 of the words before the port, the port and
   the protocol. Words after the port, where a services file has its aliases, are not seen.
   */
  lemma LineReadsBack(l: Layout)
    requires l.Valid()
    ensures Parse(Join(l.Words())) == Some(Service(l.name, Keep(l.before), Htons(l.port), l.proto))
  {
    var ts := l.Words();
    WordsAreWords(l);
    JoinThenTokens(ts);
    EntryReadsBack(l);
    var s := Join(ts);
    assert s[0] == l.name[0];
    assert SkipBlanks(s) == s;
  }

  /** A line that one fgets takes whole. */
  predicate FitsALine(s: string) {
    0 < |s| <= ROOM && s[|s| - 1] == '\n' && '\n' !in s[..|s| - 1] && NUL !in s
  }

  lemma {:induction false} LineLengthOf(s: string, rest: string, room: nat)
    requires 0 < |s| <= room && s[|s| - 1] == '\n' && '\n' !in s[..|s| - 1]
    ensures LineLength(s + rest, room) == |s|
    decreases |s|
  {
    if |s| > 1 {
      assert s[0] == s[..|s| - 1][0];
      assert (s + rest)[1..] == s[1..] + rest;
      assert s[1..][..|s| - 2] == s[..|s| - 1][1..];
      LineLengthOf(s[1..], rest, room - 1);
    }
  }

  function Parsed(lines: seq<string>): seq<Service> {
    if lines == [] then [] else Listed(Parse(lines[0])) + Parsed(lines[1..])
  }

  lemma {:induction false} WholeString(s: CString)
    ensures UpToNul(s) == s
  {
    if s != "" {
      WholeString(s[1..]);
    }
  }

  /** A file of lines that fit the buffer has the entries of its lines, in order. */
  lemma {:induction false} RecordsOfLines(lines: seq<string>)
    requires forall k :: 0 <= k < |lines| ==> FitsALine(lines[k])
    ensures Records(Flatten(lines)) == Parsed(lines)
    decreases |lines|
  {
    if lines != [] {
      var s := Flatten(lines);
      var rest := Flatten(lines[1..]);
      assert FitsALine(lines[0]);
      LineLengthOf(lines[0], rest, ROOM);
      assert s[..|lines[0]|] == lines[0] && s[|lines[0]|..] == rest;
      WholeString(lines[0]);
      assert forall k :: 0 <= k < |lines[1..]| ==> lines[1..][k] == lines[k + 1];
      RecordsOfLines(lines[1..]);
    }
  }

  lemma ParsedFront(line: string, lines: seq<string>)
    ensures Parsed([line] + lines) == Listed(Parse(line)) + Parsed(lines)
  {
    assert ([line] + lines)[1..] == lines;
  }

  function Written(ls: seq<Layout>): (r: seq<string>)
    ensures |r| == |ls| && forall k :: 0 <= k < |ls| ==> r[k] == Join(ls[k].Words())
  {
    if ls == [] then [] else [Join(ls[0].Words())] + Written(ls[1..])
  }

  function Seen(ls: seq<Layout>): (r: seq<Service>)
    ensures |r| == |ls|
    ensures forall k :: 0 <= k < |ls| ==>
      r[k] == Service(ls[k].name, Keep(ls[k].before), Htons(ls[k].port), ls[k].proto)
  {
    if ls == [] then []
    else [Service(ls[0].name, Keep(ls[0].before), Htons(ls[0].port), ls[0].proto)] + Seen(ls[1..])
  }

  lemma {:induction false} ParsedWritten(ls: seq<Layout>)
    requires forall k :: 0 <= k < |ls| ==> ls[k].Valid()
    ensures Parsed(Written(ls)) == Seen(ls)
  {
    if ls != [] {
      assert ls[0].Valid();
      LineReadsBack(ls[0]);
      assert forall k :: 0 <= k < |ls[1..]| ==> ls[1..][k] == ls[k + 1];
      ParsedWritten(ls[1..]);
      ParsedFront(Join(ls[0].Words()), Written(ls[1..]));
    }
  }

  lemma {:induction false} JoinIsALine(ts: seq<string>)
    requires forall k :: 0 <= k < |ts| ==> Word(ts[k])
    ensures var s := Join(ts); |s| > 0 && s[|s| - 1] == '\n' && '\n' !in s[..|s| - 1] && NUL !in s
  {
    if ts != [] {
      assert forall k :: 0 <= k < |ts[1..]| ==> ts[1..][k] == ts[k + 1];
      JoinIsALine(ts[1..]);
      var r := Join(ts[1..]);
      var s := Join(ts);
      assert s[..|s| - 1] == ts[0] + " " + r[..|r| - 1];
      assert Word(ts[0]);
      assert '\n' !in ts[0];
    }
  }

  /** A whole file of written lines reads back, line for line. */
  lemma FileReadsBack(ls: seq<Layout>)
    requires forall k :: 0 <= k < |ls| ==> ls[k].Valid() && |Join(ls[k].Words())| <= ROOM
    ensures Records(Flatten(Written(ls))) == Seen(ls)
  {
    forall k | 0 <= k < |ls|
      ensures FitsALine(Written(ls)[k])
    {
      WordsAreWords(ls[k]);
      JoinIsALine(ls[k].Words());
    }
    RecordsOfLines(Written(ls));
    ParsedWritten(ls);
  }

  /**
   Every word beside the name and the port is an alias of the entry exactly when none stands behind
   the port and at most 31 stand before it. A line in the standard layout, with its aliases behind
   the port, keeps them only when it has none.
   */
  lemma AliasesSeenExactly(l: Layout)
    requires l.Valid()
    ensures var e := Parse(Join(l.Words()));
      && e.Some?
      && (e.value.aliases == l.before + l.after <==> l.after == [] && |l.before| <= MAX_ALIASES)
      && (l.before == [] ==> (e.value.aliases == l.after <==> l.after == []))
  {
    LineReadsBack(l);
    if l.after == [] {
      assert l.before + l.after == l.before;
    } else {
      assert |Keep(l.before)| < |l.before + l.after|;
    }
  }

  predicate LineHasPort(l: Layout, port: int, proto: Option<string>) {
    l.port == port && (proto == None || l.proto == proto.value)
  }

  /** The first line with that port and protocol, or the number of lines. */
  function FirstLine(ls: seq<Layout>, port: int, proto: Option<string>): (n: nat)
    ensures n <= |ls|
    ensures n < |ls| ==> LineHasPort(ls[n], port, proto)
    ensures forall k :: 0 <= k < n ==> !LineHasPort(ls[k], port, proto)
  {
    if ls == [] || LineHasPort(ls[0], port, proto) then 0 else 1 + FirstLine(ls[1..], port, proto)
  }

  /** Lines that one fgets each takes whole. */
  ghost predicate Fitting(ls: seq<Layout>) {
    forall k :: 0 <= k < |ls| ==> ls[k].Valid() && |Join(ls[k].Words())| <= ROOM
  }

  /** What getservbyport finds in a written file: the first line with that port in host order. */
  lemma HostOrderFindsTheLine(ls: seq<Layout>, port: nat, proto: Option<string>)
    requires Fitting(ls) && port < 0x1_0000
    ensures FirstWithPort(Records(Flatten(Written(ls))), port, proto) == FirstLine(ls, port, proto)
  {
    FileReadsBack(ls);
    forall k | 0 <= k < |ls|
      ensures HasPort(Seen(ls)[k], port, proto) <==> LineHasPort(ls[k], port, proto)
    {
      assert ls[k].Valid();
      PortOfALine(Seen(ls)[k], ls[k], port, proto);
    }
    FirstsAgree(Seen(ls), ls, port, proto);
  }

  lemma PortOfALine(s: Service, l: Layout, port: nat, proto: Option<string>)
    requires s.port == Htons(l.port) && s.proto == l.proto && l.port < 0x1_0000 && port < 0x1_0000
    ensures HasPort(s, port, proto) <==> LineHasPort(l, port, proto)
  {
    HtonsIsOneToOne(l.port, port);
  }

  lemma FirstsAgree(ss: seq<Service>, ls: seq<Layout>, port: nat, proto: Option<string>)
    requires |ss| == |ls|
    requires forall k :: 0 <= k < |ls| ==> (HasPort(ss[k], port, proto) <==> LineHasPort(ls[k], port, proto))
    ensures FirstWithPort(ss, port, proto) == FirstLine(ls, port, proto)
  {
    var n, m := FirstWithPort(ss, port, proto), FirstLine(ls, port, proto);
    assert n < |ls| ==> LineHasPort(ls[n], port, proto);
    assert m < |ls| ==> HasPort(ss[m], port, proto);
  }

  /** A file of one short line: a one-letter service with that port. */
  lemma OneLine(port: nat) returns (l: Layout)
    requires port < 0x1_0000
    ensures Fitting([l]) && l.port == port
  {
    l := Layout("a", [], port, "t", []);
    DecimalIsShort(port);
    JoinOfTwo("a", Decimal(port) + "/" + "t");
    assert l.Words() == ["a", Decimal(port) + "/" + "t"];
  }

  lemma JoinOfTwo(a: string, b: string)
    ensures |Join([a, b])| == |a| + |b| + 3
  {
    assert [a, b][1..] == [b] && [b][1..] == [];
    assert Join([b]) == b + " " + Join([]);
  }

  lemma DecimalIsShort(n: nat)
    requires n < 0x1_0000
    ensures |Decimal(n)| <= 5
  {
    assert n >= 10 ==> |Decimal(n)| == |Decimal(n / 10)| + 1;
    assert n >= 100 ==> |Decimal(n / 10)| == |Decimal(n / 10 / 10)| + 1;
    assert n >= 1000 ==> |Decimal(n / 10 / 10)| == |Decimal(n / 10 / 10 / 10)| + 1;
    assert n >= 10000 ==> |Decimal(n / 10 / 10 / 10)| == |Decimal(n / 10 / 10 / 10 / 10)| + 1;
  }

  lemma OneLineIsFound(l: Layout, port: nat)
    requires Fitting([l]) && port < 0x1_0000
    ensures FirstWithPort(Records(Flatten(Written([l]))), port, None) == if l.port == port then 0 else 1
  {
    HostOrderFindsTheLine([l], port, None);
    assert FirstLine([l][1..], port, None) == 0;
  }

  /** Every port with two different bytes, such as 80, is missed in network order by some file that has it. */
  lemma MissedInNetworkOrder(port: nat) returns (l: Layout)
    requires port < 0x1_0000 && port / 0x100 != port % 0x100
    ensures Fitting([l]) && FirstLine([l], port, None) == 0
    ensures FirstWithPort(Records(Flatten(Written([l]))), Htons(port), None) == 1
  {
    HtonsSwaps(port);
    l := OneLine(port);
    OneLineIsFound(l, Htons(port));
  }

  /**
   POSIX passes the port in network byte order. So called, getservbyport finds the right line of
   every file exactly when the two bytes of the port agree.
   */
  lemma NetworkOrderExactly(port: nat)
    requires port < 0x1_0000
    ensures (forall ls, proto :: Fitting(ls) ==>
        FirstWithPort(Records(Flatten(Written(ls))), Htons(port), proto) == FirstLine(ls, port, proto))
      <==> port / 0x100 == port % 0x100
  {
    HtonsSwaps(port);
    if Htons(port) == port {
      forall ls, proto | Fitting(ls)
        ensures FirstWithPort(Records(Flatten(Written(ls))), Htons(port), proto) == FirstLine(ls, port, proto)
      {
        HostOrderFindsTheLine(ls, port, proto);
      }
    } else {
      var l := MissedInNetworkOrder(port);
    }
  }

  // ------------------------------------------------------------------ the code on its buffer

  /** s is the C string at index k of the buffer. */
  ghost predicate Text(b: seq<char>, k: int, s: string)
    decreases |s|
  {
    && 0 <= k && k + |s| < |b|
    && if s == "" then b[k] == NUL else s[0] != NUL && b[k] == s[0] && Text(b, k + 1, s[1..])
  }

  /** The first n characters of the buffer are unchanged. */
  ghost predicate Same(b: seq<char>, c: seq<char>, n: nat) {
    |b| == |c| && forall k :: 0 <= k < n && k < |b| ==> c[k] == b[k]
  }

  /** Text inside an unchanged part is unchanged. */
  lemma {:induction false} TextStays(b: seq<char>, c: seq<char>, k: int, s: string, n: nat)
    requires Text(b, k, s) && k + |s| < n && Same(b, c, n)
    ensures Text(c, k, s)
    decreases |s|
  {
    if s != "" {
      TextStays(b, c, k + 1, s[1..], n);
    }
  }

  /** Reading one character of a C string. */
  lemma TextHead(b: seq<char>, k: int, s: string)
    requires Text(b, k, s)
    ensures s == "" <==> b[k] == NUL
    ensures s != "" ==> b[k] == s[0] && Text(b, k + 1, s[1..])
  {
  }

  /** while (*line == ' ' || *line == '\t') line++ */
  method SkipLeading(a: array<char>, ghost s: string) returns (p: nat)
    requires Text(a[..], 0, s)
    ensures Text(a[..], p, SkipBlanks(s))
  {
    ghost var b := a[..];
    p := 0;
    ghost var u := s;
    TextHead(b, p, u);
    while Blank(a[p])
      invariant Text(b, p, u) && SkipBlanks(u) == SkipBlanks(s)
      invariant u == "" <==> a[p] == NUL
      invariant u != "" ==> a[p] == u[0]
      decreases a.Length - p
    {
      TextHead(b, p, u);
      p, u := p + 1, u[1..];
      TextHead(b, p, u);
    }
  }

  /** The first half of strtok: step over delimiters. */
  method SkipToToken(a: array<char>, from: nat, ghost s: string) returns (p: nat)
    requires Text(a[..], from, s)
    ensures from <= p && Text(a[..], p, SkipDelims(s))
  {
    ghost var b := a[..];
    p := from;
    ghost var u := s;
    TextHead(b, p, u);
    while Delim(a[p])
      invariant from <= p && Text(b, p, u) && SkipDelims(u) == SkipDelims(s)
      invariant u == "" <==> a[p] == NUL
      invariant u != "" ==> a[p] == u[0]
      decreases a.Length - p
    {
      TextHead(b, p, u);
      p, u := p + 1, u[1..];
      TextHead(b, p, u);
    }
  }

  /** The second half: the index of the delimiter or terminator that ends the token. */
  method TokenEnd(a: array<char>, from: nat, ghost t: string) returns (p: nat)
    requires Text(a[..], from, t)
    ensures p == from + TokenLen(t) && p < a.Length
    ensures a[p] == NUL <==> TokenLen(t) == |t|
  {
    ghost var b := a[..];
    p := from;
    ghost var u := t;
    TextHead(b, p, u);
    while a[p] != NUL && !Delim(a[p])
      invariant from <= p && Text(b, p, u) && p - from + TokenLen(u) == TokenLen(t)
      invariant |t| - |u| == p - from
      invariant u == "" <==> a[p] == NUL
      invariant u != "" ==> a[p] == u[0]
      decreases a.Length - p
    {
      TextHead(b, p, u);
      p, u := p + 1, u[1..];
      TextHead(b, p, u);
    }
  }

  /** A terminator written at a delimiter makes two C strings of one. */
  lemma {:induction false} Cut(b: seq<char>, k: nat, t: string, n: nat)
    requires Text(b, k, t) && n < |t|
    ensures var c := b[k + n := NUL];
      Text(c, k, t[..n]) && Text(c, k + n + 1, t[n + 1..])
    decreases n
  {
    var c := b[k + n := NUL];
    if n == 0 {
      TextAhead(b, c, k + 1, t[1..]);
    } else {
      Cut(b, k + 1, t[1..], n - 1);
      assert t[1..][..n - 1] == t[..n][1..];
      assert t[1..][n..] == t[n + 1..];
    }
  }

  lemma {:induction false} TextAhead(b: seq<char>, c: seq<char>, k: nat, s: string)
    requires Text(b, k, s) && |b| == |c| && forall j :: k <= j < |b| ==> c[j] == b[j]
    ensures Text(c, k, s)
    decreases |s|
  {
    if s != "" {
      TextAhead(b, c, k + 1, s[1..]);
    }
  }

  /** A token of the text s, cut out of the buffer, and the text that strtok goes on with. */
  ghost predicate Took(b: seq<char>, t: string, token: nat, rest: nat) {
    && t != "" && token + TokenLen(t) <= rest
    && (AfterToken(t) != "" ==> token + TokenLen(t) < rest)
    && Text(b, token, t[..TokenLen(t)]) && Text(b, rest, AfterToken(t))
  }

  /** The terminator that strtok writes, if the token does not end the text. */
  method CutToken(a: array<char>, p: nat, ghost t: string) returns (rest: nat)
    requires Text(a[..], p, t) && t != "" && !Delim(t[0])
    modifies a
    ensures Took(a[..], t, p, rest)
    ensures Same(old(a[..]), a[..], p + 1)
  {
    var end := TokenEnd(a, p, t);
    var n := end - p;
    if a[end] == NUL {
      rest := end;
      assert n == |t| && t[..n] == t;
    } else {
      Terminate(a, p, t, n);
      rest := end + 1;
    }
  }

  /** A terminator written over the delimiter after the first n characters. */
  method Terminate(a: array<char>, p: nat, ghost t: string, n: nat)
    requires Text(a[..], p, t) && n < |t|
    modifies a
    ensures Text(a[..], p, t[..n]) && Text(a[..], p + n + 1, t[n + 1..])
    ensures Same(old(a[..]), a[..], p + n)
  {
    a[p + n] := NUL;
    Cut(old(a[..]), p, t, n);
  }

  lemma {:induction false} CharAt(b: seq<char>, k: nat, t: string, n: nat)
    requires Text(b, k, t) && n < |t|
    ensures b[k + n] == t[n] && t[n] != NUL
    decreases n
  {
    if n > 0 {
      CharAt(b, k + 1, t[1..], n - 1);
    }
  }

  /** strtok, called with the place where the last call left off. */
  method StrTok(a: array<char>, from: nat, ghost s: string) returns (token: Option<nat>, rest: nat)
    requires Text(a[..], from, s)
    modifies a
    ensures token == None <==> SkipDelims(s) == ""
    ensures Same(old(a[..]), a[..], from + 1)
    ensures token.Some? ==> from <= token.value && Took(a[..], SkipDelims(s), token.value, rest)
  {
    var p := SkipToToken(a, from, s);
    ghost var t := SkipDelims(s);
    TextHead(a[..], p, t);
    if a[p] == NUL {
      return None, p;
    }
    rest := CutToken(a, p, t);
    token := Some(p);
  }

  /** strchr (token, '/') != NULL, and where. */
  method FindSlash(a: array<char>, from: nat, ghost t: string) returns (found: bool, at: nat)
    requires Text(a[..], from, t)
    ensures at == from + Slash(t) && (found <==> Slashed(t))
  {
    ghost var b := a[..];
    at := from;
    ghost var u := t;
    TextHead(b, at, u);
    while a[at] != NUL && a[at] != '/'
      invariant from <= at && Text(b, at, u) && at - from + Slash(u) == Slash(t)
      invariant |t| - |u| == at - from
      invariant u == "" <==> a[at] == NUL
      invariant u != "" ==> a[at] == u[0]
      decreases a.Length - at
    {
      TextHead(b, at, u);
      at, u := at + 1, u[1..];
      TextHead(b, at, u);
    }
    found := a[at] == '/';
  }

  method StrLen(a: array<char>, from: nat, ghost s: string) returns (n: nat)
    requires Text(a[..], from, s)
    ensures n == |s|
  {
    ghost var b := a[..];
    n := 0;
    ghost var u := s;
    TextHead(b, from + n, u);
    while a[from + n] != NUL
      invariant Text(b, from + n, u) && n + |u| == |s|
      invariant u == "" <==> a[from + n] == NUL
      decreases |u|
    {
      TextHead(b, from + n, u);
      n, u := n + 1, u[1..];
      TextHead(b, from + n, u);
    }
  }

  /** The loop that takes white space off the end of the protocol. */
  method TrimProtocol(a: array<char>, from: nat, ghost s: string)
    requires Text(a[..], from, s)
    modifies a
    ensures Text(a[..], from, TrimEnd(s))
    ensures Same(old(a[..]), a[..], from)
  {
    var n := StrLen(a, from, s);
    var end: int := from + n - 1;
    ghost var u := s;
    if u != "" {
      LastOf(a[..], from, u);
    }
    while end > from && Space(a[end])
      invariant end == from + |u| - 1 && Text(a[..], from, u) && TrimEnd(u) == TrimEnd(s)
      invariant u != "" ==> a[end] == u[|u| - 1]
      invariant Same(old(a[..]), a[..], from)
    {
      Terminate(a, from, u, end - from);
      end, u := end - 1, u[..|u| - 1];
      LastOf(a[..], from, u);
    }
  }

  lemma LastOf(b: seq<char>, k: nat, s: string)
    requires Text(b, k, s) && s != ""
    ensures b[k + |s| - 1] == s[|s| - 1]
  {
    CharAt(b, k, s, |s| - 1);
  }

  // ------------------------------------------------------------------ one line of the file

  /** The first m of several C strings, all before index n. */
  ghost predicate TextsTo(b: seq<char>, ks: seq<nat>, ss: seq<string>, n: nat, m: nat)
    requires m <= |ks| == |ss|
  {
    m == 0 || (Text(b, ks[m - 1], ss[m - 1]) && ks[m - 1] + |ss[m - 1]| < n && TextsTo(b, ks, ss, n, m - 1))
  }

  /** The C strings at several places, all before index n. */
  ghost predicate Texts(b: seq<char>, ks: seq<nat>, ss: seq<string>, n: nat) {
    |ks| == |ss| && TextsTo(b, ks, ss, n, |ks|)
  }

  lemma {:induction false} TextsToStay(b: seq<char>, c: seq<char>, ks: seq<nat>, ss: seq<string>,
                                       n: nat, n': nat, m: nat)
    requires m <= |ks| == |ss| && TextsTo(b, ks, ss, n, m) && Same(b, c, n) && n <= n'
    ensures TextsTo(c, ks, ss, n', m)
    decreases m
  {
    if m > 0 {
      TextStays(b, c, ks[m - 1], ss[m - 1], n);
      TextsToStay(b, c, ks, ss, n, n', m - 1);
    }
  }

  lemma TextsStay(b: seq<char>, c: seq<char>, ks: seq<nat>, ss: seq<string>, n: nat, n': nat)
    requires Texts(b, ks, ss, n) && Same(b, c, n) && n <= n'
    ensures Texts(c, ks, ss, n')
  {
    TextsToStay(b, c, ks, ss, n, n', |ks|);
  }

  lemma {:induction false} TextsToMore(b: seq<char>, ks: seq<nat>, ss: seq<string>, k: nat, s: string, n: nat, m: nat)
    requires m <= |ks| == |ss| && TextsTo(b, ks, ss, n, m)
    ensures TextsTo(b, ks + [k], ss + [s], n, m)
    decreases m
  {
    if m > 0 {
      TextsToMore(b, ks, ss, k, s, n, m - 1);
    }
  }

  /** One more string. */
  lemma TextsMore(b: seq<char>, ks: seq<nat>, ss: seq<string>, k: nat, s: string, n: nat)
    requires Texts(b, ks, ss, n) && Text(b, k, s) && k + |s| < n
    ensures Texts(b, ks + [k], ss + [s], n)
  {
    TextsToMore(b, ks, ss, k, s, n, |ks|);
  }

  /** What is left of a line after n tokens. */
  function After(s: string, n: nat): string
    decreases n
  {
    if n == 0 then s else AfterToken(SkipDelims(After(s, n - 1)))
  }

  lemma {:induction false} TokensAfter(s: string, n: nat)
    requires n <= |Tokens(s)|
    ensures Tokens(After(s, n)) == Tokens(s)[n..]
    decreases n
  {
    if n > 0 {
      TokensAfter(s, n - 1);
      TokensFront(After(s, n - 1));
      assert Tokens(s)[n - 1..][1..] == Tokens(s)[n..];
    }
  }

  /** Word n of the line, seen from the text that is left there. */
  ghost predicate WordAt(s: string, ts: seq<string>, n: nat) {
    var t := SkipDelims(After(s, n));
    && (t == "" <==> n >= |ts|)
    && (n < |ts| ==> ts[n] == t[..TokenLen(t)] && |ts[n]| == TokenLen(t))
  }

  /** ts are the words of s. */
  ghost predicate WordsOf(s: string, ts: seq<string>) {
    forall n: nat :: n <= |ts| ==> WordAt(s, ts, n)
  }

  lemma TokensAreWords(s: string)
    ensures WordsOf(s, Tokens(s))
  {
    var ts := Tokens(s);
    forall n: nat | n <= |ts|
      ensures WordAt(s, ts, n)
    {
      TokensAfter(s, n);
      TokensFront(After(s, n));
      assert n < |ts| ==> ts[n] == ts[n..][0];
    }
  }

  /** strtok stands at token i of the words ts of s, or past them all; it goes on at rest. */
  ghost predicate AtToken(b: seq<char>, token: Option<nat>, rest: nat, s: string, ts: seq<string>, i: nat) {
    && i <= |ts| && (token == None ==> i == |ts|)
    && (token.Some? ==>
          && i < |ts| && Text(b, token.value, ts[i]) && Text(b, rest, After(s, i + 1))
          && token.value + |ts[i]| <= rest
          && (After(s, i + 1) != "" ==> token.value + |ts[i]| < rest))
  }

  method NextToken(a: array<char>, from: nat, ghost s: string, ghost ts: seq<string>, ghost i: nat)
    returns (token: Option<nat>, rest: nat, slashed: bool)
    requires WordsOf(s, ts) && i <= |ts| && Text(a[..], from, After(s, i))
    modifies a
    ensures AtToken(a[..], token, rest, s, ts, i)
    ensures Same(old(a[..]), a[..], from + 1)
    ensures token.Some? ==> from <= token.value && After(s, i) != ""
    ensures token.Some? ==> (slashed <==> Slashed(ts[i]))
  {
    assert WordAt(s, ts, i);
    token, rest := StrTok(a, from, After(s, i));
    slashed := false;
    if token.Some? {
      var at;
      slashed, at := FindSlash(a, token.value, ts[i]);
    }
  }

  lemma {:induction false} FirstSlashedIs(ts: seq<string>, i: nat)
    requires i <= |ts| && forall k :: 0 <= k < i ==> !Slashed(ts[k])
    requires i < |ts| ==> Slashed(ts[i])
    ensures FirstSlashed(ts) == i
  {
  }

  /** The word joins the aliases, if there is room. */
  function Append<T>(s: seq<T>, x: T): seq<T> {
    if |s| < MAX_ALIASES then s + [x] else s
  }

  /** The words 1 to i - 1 of the line, at most 31 of them. */
  ghost function KeptWords(ts: seq<string>, i: nat): (r: seq<string>)
    requires i <= |ts|
  {
    if i <= 1 then [] else Append(KeptWords(ts, i - 1), ts[i - 1])
  }

  /** None of the words 1 to i - 1 has a '/'. */
  ghost predicate Unslashed(ts: seq<string>, i: nat)
    requires i <= |ts|
  {
    i <= 1 || (Unslashed(ts, i - 1) && !Slashed(ts[i - 1]))
  }

  lemma {:induction false} KeptWordsAre(ts: seq<string>, i: nat)
    requires 1 <= i <= |ts|
    ensures KeptWords(ts, i) == Keep(ts[1..i])
    decreases i
  {
    if i > 1 {
      KeptWordsAre(ts, i - 1);
      assert ts[1..i] == ts[1..i - 1] + [ts[i - 1]];
    }
  }

  lemma {:induction false} UnslashedAre(ts: seq<string>, i: nat)
    requires 1 <= i <= |ts| && Unslashed(ts, i)
    ensures forall k :: 1 <= k < i ==> !Slashed(ts[k])
    decreases i
  {
    if i > 1 {
      UnslashedAre(ts, i - 1);
    }
  }

  /** The loop is over without a port: there is no entry. */
  lemma LoopEnds(ts: seq<string>)
    requires ts != [] && Unslashed(ts, |ts|)
    ensures Entry(ts) == None
  {
    UnslashedAre(ts, |ts|);
    FirstSlashedIs(ts[1..], |ts| - 1);
  }

  /** The loop is over at the port: these are the aliases. */
  lemma LoopStops(ts: seq<string>, i: nat)
    requires 1 <= i < |ts| && Unslashed(ts, i) && Slashed(ts[i])
    ensures var at := Slash(ts[i]);
      Entry(ts) == Some(Service(ts[0], KeptWords(ts, i), Htons(Atoi(ts[i][..at])), TrimEnd(ts[i][at + 1..])))
  {
    UnslashedAre(ts, i);
    FirstSlashedIs(ts[1..], i - 1);
    KeptWordsAre(ts, i);
    EntryOf(ts, i - 1);
  }

  /** The alias loop stands at word i, with the name and the aliases among the words before it. */
  ghost predicate Looping(b: seq<char>, s: string, ts: seq<string>, i: nat, name: nat,
                          aliases: seq<nat>, ss: seq<string>, token: Option<nat>, rest: nat)
  {
    && 1 <= i && AtToken(b, token, rest, s, ts, i)
    && (token.Some? ==>
          && Text(b, name, ts[0]) && name + |ts[0]| < token.value
          && Texts(b, aliases, ss, token.value))
  }

  /** The next word; the aliases found so far stay where they are. */
  method Onward(a: array<char>, from: nat, ghost s: string, ghost ts: seq<string>, ghost i: nat,
                ghost ks: seq<nat>, ghost ss: seq<string>)
    returns (token: Option<nat>, rest: nat, slashed: bool)
    requires WordsOf(s, ts) && i <= |ts| && Text(a[..], from, After(s, i))
    requires Texts(a[..], ks, ss, if After(s, i) == "" then from + 1 else from)
    modifies a
    ensures AtToken(a[..], token, rest, s, ts, i)
    ensures token.Some? ==> Texts(a[..], ks, ss, token.value)
    ensures Same(old(a[..]), a[..], from + 1)
    ensures token.Some? ==> from <= token.value && (slashed <==> Slashed(ts[i]))
  {
    token, rest, slashed := NextToken(a, from, s, ts, i);
    if token.Some? {
      TextsStay(old(a[..]), a[..], ks, ss, from, token.value);
    }
  }

  lemma KeepWord(b: seq<char>, ks: seq<nat>, ss: seq<string>, word: nat, s: string, n: nat)
    requires Texts(b, ks, ss, word) && Text(b, word, s) && word + |s| < n
    ensures Texts(b, Append(ks, word), Append(ss, s), n)
  {
    TextsStay(b, b, ks, ss, word, n);
    TextsMore(b, ks, ss, word, s, n);
  }

  /** One round of the alias loop: keep the word if there is room, and fetch the next. */
  method NextAlias(a: array<char>, word: nat, from: nat, ghost s: string, ghost ts: seq<string>, ghost i: nat,
                   ghost name: nat, ks: seq<nat>, ghost ss: seq<string>)
    returns (aliases: seq<nat>, token: Option<nat>, rest: nat, slashed: bool)
    requires WordsOf(s, ts) && i < |ts| && Looping(a[..], s, ts, i, name, ks, ss, Some(word), from)
    modifies a
    ensures Looping(a[..], s, ts, i + 1, name, aliases, Append(ss, ts[i]), token, rest)
    ensures token.Some? ==> (slashed <==> Slashed(ts[i + 1]))
  {
    aliases := Append(ks, word);
    KeepWord(a[..], ks, ss, word, ts[i], if After(s, i + 1) == "" then from + 1 else from);
    token, rest, slashed := Onward(a, from, s, ts, i + 1, aliases, Append(ss, ts[i]));
    TextStays(old(a[..]), a[..], name, ts[0], from + 1);
  }

  /** The alias loop before its test, with every word so far free of '/'. */
  ghost predicate AliasesAt(b: seq<char>, s: string, ts: seq<string>, i: nat, name: nat,
                            aliases: seq<nat>, token: Option<nat>, rest: nat, slashed: bool)
  {
    && i <= |ts| && Unslashed(ts, i)
    && Looping(b, s, ts, i, name, aliases, KeptWords(ts, i), token, rest)
    && (token.Some? ==> i < |ts| && (slashed <==> Slashed(ts[i])))
  }

  /** One turn of the alias loop. */
  method AliasTurn(a: array<char>, word: nat, from: nat, ghost s: string, ghost ts: seq<string>, ghost i: nat,
                   ghost name: nat, ks: seq<nat>)
    returns (aliases: seq<nat>, token: Option<nat>, rest: nat, slashed: bool)
    requires WordsOf(s, ts) && AliasesAt(a[..], s, ts, i, name, ks, Some(word), from, false)
    modifies a
    ensures AliasesAt(a[..], s, ts, i + 1, name, aliases, token, rest, slashed)
  {
    aliases, token, rest, slashed := NextAlias(a, word, from, s, ts, i, name, ks, KeptWords(ts, i));
  }

  /** The alias loop: at most 31 words up to the one with a '/', which strtok leaves as token. */
  method AliasLoop(a: array<char>, ghost s: string, ghost ts: seq<string>, ghost name: nat,
                   first: Option<nat>, next: nat, firstSlashed: bool)
    returns (aliases: seq<nat>, token: Option<nat>, ghost i: nat, rest: nat, slashed: bool)
    requires WordsOf(s, ts) && AliasesAt(a[..], s, ts, 1, name, [], first, next, firstSlashed)
    modifies a
    ensures AliasesAt(a[..], s, ts, i, name, aliases, token, rest, slashed)
    ensures token.Some? ==> slashed
  {
    aliases, token, i, rest, slashed := [], first, 1, next, firstSlashed;
    while token.Some? && !slashed
      invariant AliasesAt(a[..], s, ts, i, name, aliases, token, rest, slashed)
      decreases |ts| - i
    {
      aliases, token, rest, slashed := AliasTurn(a, token.value, rest, s, ts, i, name, aliases);
      i := i + 1;
    }
  }

  /** The words after the name up to the port. */
  method TakeAliases(a: array<char>, from: nat, ghost s: string, ghost ts: seq<string>, ghost name: nat)
    returns (aliases: seq<nat>, token: Option<nat>, ghost i: nat, ghost rest: nat)
    requires WordsOf(s, ts) && AtToken(a[..], Some(name), from, s, ts, 0)
    modifies a
    ensures 1 <= i <= |ts| && Unslashed(ts, i)
    ensures Looping(a[..], s, ts, i, name, aliases, KeptWords(ts, i), token, rest)
    ensures token.Some? ==> Slashed(ts[i])
  {
    var first, next, slashed := NextToken(a, from, s, ts, 1);
    TextStays(old(a[..]), a[..], name, ts[0], from + 1);
    aliases, token, i, rest, slashed := AliasLoop(a, s, ts, name, first, next, slashed);
  }

  /** The static entry: places in the line buffer. */
  datatype Pointers = Pointers(name: nat, aliases: seq<nat>, port: nat, proto: nat)

  ghost predicate Points(b: seq<char>, e: Pointers, s: Service) {
    && Text(b, e.name, s.name) && e.port == s.port && Text(b, e.proto, s.proto)
    && Texts(b, e.aliases, s.aliases, |b|)
  }

  function StringAt(b: seq<char>, k: nat): CString
    requires k <= |b|
  {
    UpToNul(b[k..])
  }

  lemma {:induction false} TextIsString(b: seq<char>, k: nat, s: string)
    requires Text(b, k, s)
    ensures StringAt(b, k) == s
    decreases |s|
  {
    assert b[k..][0] == b[k];
    if s != "" {
      TextIsString(b, k + 1, s[1..]);
      assert b[k..][1..] == b[k + 1..];
    }
  }

  /** The port token: cut at its '/', converted, and the protocol trimmed. */
  method TakePort(a: array<char>, token: nat, ghost t: string) returns (port: nat, proto: nat)
    requires Text(a[..], token, t) && Slashed(t)
    modifies a
    ensures port == Htons(Atoi(t[..Slash(t)]))
    ensures Text(a[..], proto, TrimEnd(t[Slash(t) + 1..]))
    ensures Same(old(a[..]), a[..], token)
  {
    var found, slash := FindSlash(a, token, t);
    ghost var n := Slash(t);
    Terminate(a, token, t, slash - token);
    TextIsString(a[..], token, t[..n]);
    port := Htons(Atoi(StringAt(a[..], token)));
    proto := slash + 1;
    TrimProtocol(a, proto, t[n + 1..]);
  }

  /** The rest of the entry, from its last token. */
  method FillEntry(a: array<char>, name: nat, aliases: seq<nat>, token: nat, ghost ts: seq<string>, ghost i: nat)
    returns (e: Pointers)
    requires 1 <= i < |ts| && Unslashed(ts, i) && Slashed(ts[i])
    requires Text(a[..], name, ts[0]) && name + |ts[0]| < token
    requires Text(a[..], token, ts[i]) && Texts(a[..], aliases, KeptWords(ts, i), token)
    modifies a
    ensures Entry(ts).Some? && Points(a[..], e, Entry(ts).value)
  {
    LoopStops(ts, i);
    var port, proto := TakePort(a, token, ts[i]);
    TextStays(old(a[..]), a[..], name, ts[0], token);
    TextsStay(old(a[..]), a[..], aliases, KeptWords(ts, i), token, a.Length);
    e := Pointers(name, aliases, port, proto);
  }

  /** The words of a line that is neither blank nor a comment. */
  method ParseWords(a: array<char>, from: nat, ghost s: string) returns (e: Option<Pointers>)
    requires Text(a[..], from, s)
    modifies a
    ensures e == None <==> Entry(Tokens(s)) == None
    ensures e.Some? ==> Points(a[..], e.value, Entry(Tokens(s)).value)
  {
    ghost var ts := Tokens(s);
    TokensAreWords(s);
    var name, rest, slashed := NextToken(a, from, s, ts, 0);
    if name == None {
      return None;
    }
    e := ParseRest(a, name.value, rest, s, ts);
  }

  method ParseRest(a: array<char>, name: nat, rest: nat, ghost s: string, ghost ts: seq<string>)
    returns (e: Option<Pointers>)
    requires WordsOf(s, ts) && AtToken(a[..], Some(name), rest, s, ts, 0)
    modifies a
    ensures e == None <==> Entry(ts) == None
    ensures e.Some? ==> Points(a[..], e.value, Entry(ts).value)
  {
    ghost var i, last;
    var aliases, token;
    aliases, token, i, last := TakeAliases(a, rest, s, ts, name);
    if token == None {
      LoopEnds(ts);
      return None;
    }
    var entry := FillEntry(a, name, aliases, token.value, ts, i);
    e := Some(entry);
  }

  /** The body of the loop in getservent, on the line in the buffer. */
  method ParseLine(a: array<char>, ghost s: string) returns (e: Option<Pointers>)
    requires Text(a[..], 0, s)
    modifies a
    ensures e == None <==> Parse(s) == None
    ensures e.Some? ==> Points(a[..], e.value, Parse(s).value)
  {
    var l := SkipLeading(a, s);
    ghost var t := SkipBlanks(s);
    TextHead(a[..], l, t);
    if a[l] == '#' || a[l] == '\n' || a[l] == NUL {
      return None;
    }
    e := ParseWords(a, l, t);
  }

  lemma {:induction false} TextsAt(b: seq<char>, ks: seq<nat>, ss: seq<string>, n: nat, m: nat, j: nat)
    requires j < m <= |ks| == |ss| && TextsTo(b, ks, ss, n, m)
    ensures Text(b, ks[j], ss[j])
    decreases m
  {
    if j < m - 1 {
      TextsAt(b, ks, ss, n, m - 1, j);
    }
  }

  /** The loop over the aliases in getservbyname. */
  method HasAlias(a: array<char>, ks: seq<nat>, name: string, ghost ss: seq<string>) returns (r: bool)
    requires Texts(a[..], ks, ss, a.Length)
    ensures r <==> name in ss
  {
    for i := 0 to |ks|
      invariant name !in ss[..i]
    {
      TextsAt(a[..], ks, ss, a.Length, |ks|, i);
      TextIsString(a[..], ks[i], ss[i]);
      if StringAt(a[..], ks[i]) == name {
        return true;
      }
    }
    r := false;
  }

  // ------------------------------------------------------------------ the shared stream

  /** Calls that a program makes before a lookup. */
  datatype Op =
    | Get
    | Set
    | End
    | ByName(name: Option<string>, proto: Option<string>)
    | ByPort(port: int, proto: Option<string>)

  class ServDb {
    // What fopen finds at the Windows path and at /etc/services.
    const windows: Option<string>
    const unix: Option<string>
    // serv_file, what it has not delivered yet, serv_line and serv_entry.
    var file: Option<string>
    var left: string
    const line: array<char>
    var entry: Pointers
    // The entry last found, by value.
    ghost var shown: Service

    constructor (windows: Option<string>, unix: Option<string>)
      ensures Valid() && fresh(line) && this.windows == windows && this.unix == unix && file == None
    {
      this.windows, this.unix := windows, unix;
      file, left, line := None, "", new char[ROOM + 1];
    }

    /** What an open stream reads from. */
    function Disk(): Option<string> {
      if windows.Some? then windows else unix
    }

    ghost predicate Valid()
      reads `file
    {
      line.Length == ROOM + 1 && (file.Some? ==> file == Disk())
    }

    /** All entries of the file; none if it cannot be opened. */
    function All(): seq<Service> {
      if Disk() == None then [] else Records(Disk().value)
    }

    /** The entries that getservent has not returned yet. */
    function Ahead(): seq<Service>
      reads `file, `left
    {
      if file.Some? then Records(left) else All()
    }

    /** The static entry shows `shown`. */
    ghost predicate Shows()
      reads `entry, `shown, line
    {
      Points(line[..], entry, shown)
    }

    /** The characters that one fgets takes from the stream. */
    method FillLine() returns (n: nat, ghost taken: string)
      requires Valid()
      modifies `left, line
      ensures old(left) == taken + left && |taken| == n == LineLength(old(left), ROOM)
      ensures line[..n] == taken
    {
      n, taken := 0, "";
      var stop := false;
      ghost var whole, goal := left, LineLength(left, ROOM);
      while n < ROOM && left != "" && !stop
        invariant n <= ROOM && n == |taken| && whole == taken + left
        invariant line[..n] == taken
        invariant goal == n + if stop then 0 else LineLength(left, ROOM - n)
        decreases ROOM - n
      {
        var c := left[0];
        line[n] := c;
        taken := taken + [c];
        n, left, stop := n + 1, left[1..], c == '\n';
      }
    }

    /** fgets: a line or as much as fits, and a terminator; false at the end of the file. */
    method Fgets() returns (ok: bool, ghost taken: string)
      requires Valid()
      modifies `left, line
      ensures ok <==> old(left) != ""
      ensures !ok ==> left == old(left)
      ensures ok ==> old(left) == taken + left && |taken| == LineLength(old(left), ROOM)
      ensures ok ==> Text(line[..], 0, UpToNul(taken))
    {
      taken := "";
      if left == "" {
        return false, taken;
      }
      ok := true;
      var n;
      n, taken := FillLine();
      line[n] := NUL;
      UpToNulIsText(line[..], 0, n);
      assert line[..][0..n] == taken;
    }

    /** One round of getservent: a line, and the entry it gives, if any. */
    method Round() returns (ok: bool, e: Option<Pointers>, ghost found: Option<Service>)
      requires Valid() && file.Some?
      modifies `left, line
      ensures ok ==> |left| < |old(left)| && old(Ahead()) == Listed(found) + Ahead()
      ensures ok ==> (e.Some? <==> found.Some?)
      ensures ok && e.Some? ==> Points(line[..], e.value, found.value)
      ensures !ok ==> left == old(left) && Ahead() == []
    {
      ghost var before := left;
      ghost var taken;
      ok, taken := Fgets();
      e, found := None, None;
      if ok {
        assert before[..|taken|] == taken && before[|taken|..] == left;
        found := Parse(UpToNul(taken));
        e := ParseLine(line, UpToNul(taken));
      }
    }

    /** The stream, opened if it is not open. */
    method Open() returns (ok: bool)
      requires Valid()
      modifies `file, `left
      ensures Valid() && Ahead() == old(Ahead())
      ensures if ok then file.Some? else Ahead() == []
    {
      if file == None {
        file := windows;
        if file == None {
          file := unix;
        }
        if file == None {
          return false;
        }
        left := file.value;
      }
      ok := true;
    }

    /** getservent: the next entry, in the static record. */
    method GetServEnt() returns (r: bool)
      requires Valid()
      modifies this, line
      ensures Valid()
      ensures r <==> old(Ahead()) != []
      ensures r ==> Shows() && old(Ahead()) == [shown] + Ahead()
      ensures !r ==> Ahead() == []
    {
      var open := Open();
      if !open {
        return false;
      }
      ghost var ahead := Ahead();
      while true
        invariant Valid() && file.Some? && ahead == Ahead()
        decreases |left|
      {
        var more, e;
        ghost var found;
        more, e, found := Round();
        if !more {
          return false;
        }
        if e.Some? {
          entry, shown := e.value, found.value;
          return true;
        }
      }
    }

    /** setservent. */
    method SetServEnt()
      requires Valid()
      modifies `left
      ensures Ahead() == All()
    {
      if file.Some? {
        left := file.value;
      }
    }

    /** endservent. */
    method EndServEnt()
      requires Valid()
      modifies `file
      ensures Valid() && file == None && Ahead() == All()
    {
      if file.Some? {
        file := None;
      }
    }

    /** getservent in a search that has passed over the entries in `seen`. */
    method Advance(ghost all: seq<Service>, ghost seen: seq<Service>) returns (r: bool)
      requires Valid() && all == seen + Ahead()
      modifies this, line
      ensures Valid()
      ensures r ==> Shows() && all == seen + [shown] + Ahead()
      ensures !r ==> all == seen
    {
      ghost var ahead := Ahead();
      r := GetServEnt();
      if r {
        Assoc(seen, [shown], Ahead());
      }
    }

    /** The loop of getservbyname. */
    method SearchName(name: string, proto: Option<string>, ghost all: seq<Service>)
      returns (r: bool, ghost seen: seq<Service>)
      requires Valid() && Ahead() == all
      modifies this, line
      ensures Valid()
      ensures forall s :: s in seen ==> !Named(s, name, proto)
      ensures r ==> Shows() && Named(shown, name, proto) && all == seen + [shown] + Ahead()
      ensures !r ==> all == seen
    {
      seen := [];
      r := Advance(all, seen);
      while r
        invariant Valid()
        invariant forall s :: s in seen ==> !Named(s, name, proto)
        invariant r ==> Shows() && all == seen + [shown] + Ahead()
        invariant !r ==> all == seen
        decreases |all| - |seen|
      {
        var fits := Fits(name, proto);
        if fits {
          return;
        }
        seen := seen + [shown];
        r := Advance(all, seen);
      }
    }

    /** getservbyname: the first entry of the file with that name or alias, whatever came before. */
    method GetServByName(name: Option<string>, proto: Option<string>) returns (r: bool)
      requires Valid()
      modifies this, line
      ensures Valid()
      ensures name == None ==> !r && Ahead() == old(Ahead())
      ensures name.Some? ==>
        var k := FirstNamed(All(), name.value, proto);
        && (r <==> k < |All()|)
        && (r ==> Shows() && shown == All()[k] && All() == All()[..k] + [shown] + Ahead())
    {
      if name == None {
        return false;
      }
      SetServEnt();
      ghost var seen;
      r, seen := SearchName(name.value, proto, All());
      FirstNamedIs(All(), name.value, proto, seen);
      if r {
        assert All()[..|seen|] == seen;
      }
    }

    /** The comparisons of getservbyname on the static entry. */
    method Fits(name: string, proto: Option<string>) returns (r: bool)
      requires Valid() && Shows()
      ensures r <==> Named(shown, name, proto)
    {
      TextIsString(line[..], entry.name, shown.name);
      TextIsString(line[..], entry.proto, shown.proto);
      var good := proto == None || StringAt(line[..], entry.proto) == proto.value;
      if StringAt(line[..], entry.name) == name && good {
        return true;
      }
      var alias := HasAlias(line, entry.aliases, name, shown.aliases);
      r := alias && good;
    }

    /** The comparisons of getservbyport on the static entry. */
    method FitsPort(port: int, proto: Option<string>) returns (r: bool)
      requires Valid() && Shows()
      ensures r <==> HasPort(shown, port, proto)
    {
      TextIsString(line[..], entry.proto, shown.proto);
      r := entry.port == Htons(port) && (proto == None || StringAt(line[..], entry.proto) == proto.value);
    }

    /** The loop of getservbyport. */
    method SearchPort(port: int, proto: Option<string>, ghost all: seq<Service>)
      returns (r: bool, ghost seen: seq<Service>)
      requires Valid() && Ahead() == all
      modifies this, line
      ensures Valid()
      ensures forall s :: s in seen ==> !HasPort(s, port, proto)
      ensures r ==> Shows() && HasPort(shown, port, proto) && all == seen + [shown] + Ahead()
      ensures !r ==> all == seen
    {
      seen := [];
      r := Advance(all, seen);
      while r
        invariant Valid()
        invariant forall s :: s in seen ==> !HasPort(s, port, proto)
        invariant r ==> Shows() && all == seen + [shown] + Ahead()
        invariant !r ==> all == seen
        decreases |all| - |seen|
      {
        var fits := FitsPort(port, proto);
        if fits {
          return;
        }
        seen := seen + [shown];
        r := Advance(all, seen);
      }
    }

    /** getservbyport: the port is in host order, and compared modulo 2^16. */
    method GetServByPort(port: int, proto: Option<string>) returns (r: bool)
      requires Valid()
      modifies this, line
      ensures Valid()
      ensures var k := FirstWithPort(All(), port, proto);
        && (r <==> k < |All()|)
        && (r ==> Shows() && shown == All()[k] && All() == All()[..k] + [shown] + Ahead())
    {
      SetServEnt();
      ghost var seen;
      r, seen := SearchPort(port, proto, All());
      FirstWithPortIs(All(), port, proto, seen);
      if r {
        assert All()[..|seen|] == seen;
      }
    }

    /** The call as POSIX makes it, on a written file: right when the two bytes of the port agree. */
    method GetServByNetworkPort(port: nat, proto: Option<string>, ghost ls: seq<Layout>) returns (r: bool)
      requires Valid() && port < 0x1_0000
      requires Fitting(ls) && Disk() == Some(Flatten(Written(ls)))
      modifies this, line
      ensures Valid()
      ensures r ==> exists k :: 0 <= k < |ls| && shown == Seen(ls)[k] && LineHasPort(ls[k], Htons(port), proto)
      ensures !r ==> forall k :: 0 <= k < |ls| ==> !LineHasPort(ls[k], Htons(port), proto)
      ensures port / 0x100 == port % 0x100 ==>
        var k := FirstLine(ls, port, proto);
        (r <==> k < |ls|) && (r ==> Shows() && shown == Seen(ls)[k])
    {
      HostOrderFindsTheLine(ls, Htons(port), proto);
      HtonsSwaps(port);
      FileReadsBack(ls);
      r := GetServByPort(Htons(port), proto);
    }

    method Call(op: Op)
      requires Valid()
      modifies this, line
      ensures Valid()
    {
      match op {
        case Get => var r := GetServEnt();
        case Set => SetServEnt();
        case End => EndServEnt();
        case ByName(name, proto) => var r := GetServByName(name, proto);
        case ByPort(port, proto) => var r := GetServByPort(port, proto);
      }
    }

    method History(ops: seq<Op>)
      requires Valid()
      modifies this, line
      ensures Valid()
    {
      for i := 0 to |ops|
        invariant Valid()
      {
        Call(ops[i]);
      }
    }

    /** After any history of calls both lookups depend on the file alone, and iteration restarts. */
    method AfterAnyHistory(ops: seq<Op>, name: string, port: int, proto: Option<string>)
      returns (named: bool, ghost byName: Service, ported: bool, ghost byPort: Service)
      requires Valid()
      modifies this, line
      ensures Valid()
      ensures named <==> exists k :: 0 <= k < |All()| && Named(All()[k], name, proto)
      ensures named ==> byName == All()[FirstNamed(All(), name, proto)]
      ensures ported <==> exists k :: 0 <= k < |All()| && HasPort(All()[k], port, proto)
      ensures ported ==> byPort == All()[FirstWithPort(All(), port, proto)]
    {
      History(ops);
      NamedSomewhere(All(), name, proto);
      PortSomewhere(All(), port, proto);
      named := GetServByName(Some(name), proto);
      byName := shown;
      ported := GetServByPort(port, proto);
      byPort := shown;
    }
  }

  lemma {:induction false} NamedSomewhere(ss: seq<Service>, name: string, proto: Option<string>)
    ensures FirstNamed(ss, name, proto) < |ss| <==> exists k :: 0 <= k < |ss| && Named(ss[k], name, proto)
  {
  }

  lemma {:induction false} PortSomewhere(ss: seq<Service>, port: int, proto: Option<string>)
    ensures FirstWithPort(ss, port, proto) < |ss| <==> exists k :: 0 <= k < |ss| && HasPort(ss[k], port, proto)
  {
  }

  lemma FirstNamedIs(ss: seq<Service>, name: string, proto: Option<string>, seen: seq<Service>)
    requires seen <= ss && forall s :: s in seen ==> !Named(s, name, proto)
    requires |seen| < |ss| ==> Named(ss[|seen|], name, proto)
    ensures FirstNamed(ss, name, proto) == |seen|
  {
    forall j | 0 <= j < |seen|
      ensures !Named(ss[j], name, proto)
    {
      assert seen[j] in seen;
    }
  }

  lemma FirstWithPortIs(ss: seq<Service>, port: int, proto: Option<string>, seen: seq<Service>)
    requires seen <= ss && forall s :: s in seen ==> !HasPort(s, port, proto)
    requires |seen| < |ss| ==> HasPort(ss[|seen|], port, proto)
    ensures FirstWithPort(ss, port, proto) == |seen|
  {
    forall j | 0 <= j < |seen|
      ensures !HasPort(ss[j], port, proto)
    {
      assert seen[j] in seen;
    }
  }

  lemma {:induction false} UpToNulIsText(b: seq<char>, k: nat, n: nat)
    requires k <= n < |b| && b[n] == NUL
    ensures Text(b, k, UpToNul(b[k..n]))
    decreases n - k
  {
    if k < n && b[k] != NUL {
      UpToNulIsText(b, k + 1, n);
      assert b[k..n][1..] == b[k + 1..n];
    }
  }
}
