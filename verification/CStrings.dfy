/**
 The C values that every module shares: NUL-free strings, optional (nullable) values and
 small facts about sequences.
 */
module CStrings {

  const NUL := '\0'

  /** The characters of a C string before its terminator. */
  type CString = s: string | NUL !in s

  /** A pointer that may be NULL, seen as the value it points to. */
  datatype Option<+T> = None | Some(value: T)

  /** The contents of a C string stored in memory: everything before the first NUL. */
  function UpToNul(s: string): (r: CString)
    ensures |r| <= |s|
    ensures r == s[..|r|]
    ensures |r| < |s| ==> s[|r|] == NUL
  {
    if s == "" || s[0] == NUL then "" else [s[0]] + UpToNul(s[1..])
  }

  /** A NUL-free prefix that a NUL follows is the whole C string stored there. */
  lemma {:induction false} UpToNulStops(s: CString, rest: string)
    ensures UpToNul(s + [NUL] + rest) == s
    decreases |s|
  {
    var whole := s + [NUL] + rest;
    if s != "" {
      UpToNulStops(s[1..], rest);
      assert whole[1..] == s[1..] + [NUL] + rest;
    }
  }

  lemma Assoc<T>(a: seq<T>, b: seq<T>, c: seq<T>)
    ensures (a + b) + c == a + (b + c)
  {
  }

  /** The elements of several sequences, in order. */
  function Flatten<T>(parts: seq<seq<T>>): (r: seq<T>)
  {
    if parts == [] then [] else parts[0] + Flatten(parts[1..])
  }

  lemma {:induction false} FlattenAppend<T>(a: seq<seq<T>>, b: seq<seq<T>>)
    ensures Flatten(a + b) == Flatten(a) + Flatten(b)
    decreases |a|
  {
    if a == [] {
      assert a + b == b;
    } else {
      FlattenAppend(a[1..], b);
      assert (a + b)[1..] == a[1..] + b;
    }
  }
}
