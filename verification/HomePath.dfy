/**
 The home directory that every passwd lookup derives from HOME: the directory beside the
 caller's own, named after the user (the same block in source/getpwent.c, getpwnam.c, getpwuid.c,
 getpwnam_r.c and getpwuid_r.c). It edits a copy of HOME in place.
 */
module HomePath {
  import opened CStrings

  predicate Separator(c: char) {
    c == '\\' || c == '/'
  }

  /** HOME without its trailing separators. */
  function Trim(s: string): (r: string)
    ensures r <= s
    ensures r == "" || !Separator(r[|r| - 1])
    ensures forall k :: |r| <= k < |s| ==> Separator(s[k])
  {
    if s != "" && Separator(s[|s| - 1]) then Trim(s[..|s| - 1]) else s
  }

  /** The index of the last separator, or -1. */
  function LastSeparator(s: string): (k: int)
    ensures -1 <= k < |s|
    ensures k >= 0 ==> Separator(s[k])
    ensures forall j :: k < j < |s| ==> !Separator(s[j])
  {
    if s == "" then -1
    else if Separator(s[|s| - 1]) then |s| - 1
    else LastSeparator(s[..|s| - 1])
  }

  /** The parent of HOME, if it has one. */
  function Parent(home: string): (r: Option<string>) {
    var t := Trim(home);
    var k := LastSeparator(t);
    if k < 0 then None else Some(t[..k])
  }

  /** The directory beside HOME that is named `name`. */
  function Sibling(home: string, name: string): Option<string> {
    match Parent(home)
    case None => None
    case Some(p) => Some(p + "\\" + name)
  }

  ghost predicate AllSeparators(s: string) {
    forall k :: 0 <= k < |s| ==> s[k] == '\\' || s[k] == '/'
  }

  ghost predicate NoSeparators(s: string) {
    forall k :: 0 <= k < |s| ==> s[k] != '\\' && s[k] != '/'
  }

  /** home is parent, one separator, a nonempty leaf, and trailing separators. */
  ghost predicate Shape(home: string, parent: string, sep: char, leaf: string, trail: string) {
    && home == parent + [sep] + leaf + trail
    && (sep == '\\' || sep == '/') && leaf != "" && NoSeparators(leaf) && AllSeparators(trail)
  }

  lemma TrimUnique(s: string, t: string, trail: string)
    requires s == t + trail && AllSeparators(trail)
    requires t == "" || !Separator(t[|t| - 1])
    ensures Trim(s) == t
  {
    var r := Trim(s);
    assert t <= s && r <= s;
    assert forall k :: |t| <= k < |s| ==> Separator(s[k]) by {
      assert forall k :: |t| <= k < |s| ==> s[k] == trail[k - |t|];
    }
  }

  lemma ParentHasShape(home: string, parent: string) returns (sep: char, leaf: string, trail: string)
    requires Parent(home) == Some(parent)
    ensures Shape(home, parent, sep, leaf, trail)
  {
    var t := Trim(home);
    var k := LastSeparator(t);
    sep, leaf, trail := t[k], t[k + 1..], home[|t|..];
    assert t == parent + [sep] + leaf;
    assert home == t + trail;
    assert leaf != "" by {
      assert t[|t| - 1] != t[k];
    }
  }

  lemma ShapeHasParent(home: string, parent: string, sep: char, leaf: string, trail: string)
    requires Shape(home, parent, sep, leaf, trail)
    ensures Parent(home) == Some(parent)
  {
    var t := parent + [sep] + leaf;
    assert t[|t| - 1] == leaf[|leaf| - 1];
    TrimUnique(home, t, trail);
    assert t[|parent|] == sep;
    assert forall j :: |parent| < j < |t| ==> t[j] == leaf[j - |parent| - 1];
    assert t[..|parent|] == parent;
  }

  /** HOME has a parent exactly when it has that shape, and the shape determines the parent. */
  lemma ParentExactly(home: string, parent: string)
    ensures Parent(home) == Some(parent) <==>
            exists sep, leaf, trail :: Shape(home, parent, sep, leaf, trail)
  {
    if Parent(home) == Some(parent) {
      var sep, leaf, trail := ParentHasShape(home, parent);
    }
    if sep, leaf, trail :| Shape(home, parent, sep, leaf, trail) {
      ShapeHasParent(home, parent, sep, leaf, trail);
    }
  }

  // ---------------------------------------------------------------------------------------
  // The block as it runs, on a copy of HOME
  // ---------------------------------------------------------------------------------------

  /** The array holds the string s and its terminator, perhaps with rubbish behind it. */
  ghost predicate Holds(a: array<char>, s: CString)
    reads a
  {
    |s| < a.Length && a[..|s|] == s && a[|s|] == NUL
  }

  lemma HoldsAt(a: array<char>, s: CString)
    requires Holds(a, s)
    ensures forall k :: 0 <= k < |s| ==> a[k] == s[k] && a[k] != NUL
  {
    forall k | 0 <= k < |s| ensures a[k] == s[k] && a[k] != NUL {
      assert a[k] == a[..|s|][k];
    }
  }

  method Strlen(a: array<char>, ghost s: CString) returns (n: nat)
    requires Holds(a, s)
    ensures n == |s|
  {
    HoldsAt(a, s);
    n := 0;
    while a[n] != NUL
      invariant 0 <= n <= |s|
      decreases |s| - n
    {
      n := n + 1;
    }
  }

  /** strrchr: the last index of c, or -1. */
  method Strrchr(a: array<char>, c: char, ghost s: CString) returns (k: int)
    requires Holds(a, s) && c != NUL
    ensures -1 <= k < |s|
    ensures k >= 0 ==> s[k] == c
    ensures forall j :: k < j < |s| ==> s[j] != c
  {
    HoldsAt(a, s);
    k := -1;
    var i := 0;
    while a[i] != NUL
      invariant 0 <= i <= |s| && -1 <= k < i
      invariant k >= 0 ==> s[k] == c
      invariant forall j :: k < j < i ==> s[j] != c
      decreases |s| - i
    {
      if a[i] == c {
        k := i;
      }
      i := i + 1;
    }
  }

  /** Removes trailing separators by writing terminators over them. */
  method TrimInPlace(path: array<char>, ghost home: CString) returns (ghost left: CString)
    requires Holds(path, home)
    modifies path
    ensures left == Trim(home) && Holds(path, left)
  {
    var len := Strlen(path, home);
    left := home;
    while len > 0 && (path[len - 1] == '\\' || path[len - 1] == '/')
      invariant 0 <= len <= |home| && left == home[..len]
      invariant Holds(path, left)
      invariant Trim(home) == Trim(left)
    {
      HoldsAt(path, left);
      len := len - 1;
      path[len] := NUL;
      left := left[..len];
      assert path[..len] == left;
    }
    HoldsAt(path, left);
  }

  /**
   The block up to the point where the new path is printed: path becomes the parent of HOME, or
   None is returned when HOME has no parent.
   */
  method CutToParent(path: array<char>, ghost home: CString) returns (parent: Option<nat>)
    requires Holds(path, home)
    modifies path
    ensures parent == None <==> Parent(home) == None
    ensures parent.Some? ==> parent.value == |Parent(home).value| < path.Length
    ensures parent.Some? ==> path[..parent.value + 1] == Parent(home).value + [NUL]
  {
    ghost var t := TrimInPlace(path, home);
    HoldsAt(path, t);
    var lastSlash := Strrchr(path, '\\', t);
    var altSlash := Strrchr(path, '/', t);
    if altSlash > lastSlash {
      lastSlash := altSlash;
    }
    LastIsLast(t, lastSlash);
    if lastSlash < 0 {
      return None;
    }
    path[lastSlash] := NUL;
    assert path[..lastSlash] == t[..lastSlash];
    assert path[..lastSlash + 1] == t[..lastSlash] + [NUL];
    parent := Some(lastSlash);
  }

  lemma LastIsLast(t: string, k: int)
    requires -1 <= k < |t| && (k >= 0 ==> Separator(t[k]))
    requires forall j :: k < j < |t| ==> !Separator(t[j])
    ensures LastSeparator(t) == k
  {
  }
}
