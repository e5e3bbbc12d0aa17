/** Python-level building blocks shared by the crawler model: optional values
    and failures, code-point text, list slicing, a few `str` methods, Python
    list objects that are changed in place, and `list(set)`. */
module Common {

  datatype Option<+T> = None | Some(value: T)

  datatype Result<+T, +E> = Success(value: T) | Failure(error: E)

  /** A Python `str` is a sequence of code points, surrogates included:
      `chr` of any four hex digits is a valid `str`. */
  type CodePoint = c: int | 0 <= c < 0x11_0000

  type Text = seq<CodePoint>

  /** The code points of a Dafny string literal, for writing examples. */
  function TextOf(s: string): (t: Text)
    ensures |t| == |s|
    ensures forall i :: 0 <= i < |s| ==> t[i] == s[i] as int
  {
    if s == [] then [] else [s[0] as int] + TextOf(s[1..])
  }

  function Min(a: int, b: int): int { if a <= b then a else b }

  function Max(a: int, b: int): int { if a >= b then a else b }

  /** `s[:n]` on a Python list, for any integer `n` (a negative `n` counts
      from the end). */
  function PyPrefix<T>(s: seq<T>, n: int): (r: seq<T>)
    ensures |r| <= |s| && r == s[..|r|]
    ensures 0 <= n ==> |r| == Min(n, |s|)
    ensures n < 0 ==> |r| == Max(0, |s| + n)
  {
    if 0 <= n then (if n <= |s| then s[..n] else s)
    else if 0 <= |s| + n then s[..|s| + n]
    else []
  }

  predicate Distinct<T(==)>(s: seq<T>) {
    forall i, j :: 0 <= i < j < |s| ==> s[i] != s[j]
  }

  /** `set(s)`. */
  function Elems<T>(s: seq<T>): set<T> {
    set x | x in s
  }

  /** `s[:i] + s[i+1:]`, what `list.pop(i)` leaves behind. */
  function RemoveAt<T>(s: seq<T>, i: nat): (r: seq<T>)
    requires i < |s|
    ensures |r| == |s| - 1
    ensures forall k :: 0 <= k < i ==> r[k] == s[k]
    ensures forall k :: i <= k < |r| ==> r[k] == s[k + 1]
  {
    s[..i] + s[i + 1..]
  }

  /** Removing a later element leaves the head in front. */
  lemma RemoveAtCons<T>(s: seq<T>, i: nat)
    requires 0 < i < |s|
    ensures RemoveAt(s, i) == [s[0]] + RemoveAt(s[1..], i - 1)
  {
  }

  /** `list.insert(i, x)`. */
  function InsertAt<T>(s: seq<T>, i: nat, x: T): (r: seq<T>)
    requires i <= |s|
  {
    s[..i] + [x] + s[i..]
  }

  /** Popping an element and inserting it back where it was restores the list. */
  lemma PopThenInsertRestores<T>(s: seq<T>, i: nat)
    requires i < |s|
    ensures InsertAt(RemoveAt(s, i), i, s[i]) == s
    ensures multiset(RemoveAt(s, i)) + multiset{s[i]} == multiset(s)
  {
    var r := RemoveAt(s, i);
    assert r[..i] == s[..i];
    assert r[i..] == s[i + 1..];
    assert s == s[..i] + [s[i]] + s[i + 1..];
  }

  /** Concatenation regrouped, proved apart from the heavy contexts that
      need it. */
  lemma AppendAssoc<T>(a: seq<T>, b: seq<T>, c: seq<T>)
    ensures (a + b) + c == a + (b + c)
  {
  }

  predicate StartsWith(s: string, prefix: string) {
    |prefix| <= |s| && s[..|prefix|] == prefix
  }

  predicate EndsWith(s: string, suffix: string) {
    |suffix| <= |s| && s[|s| - |suffix|..] == suffix
  }

  /** `s.replace(pattern, '')`: every non-overlapping occurrence of
      `pattern`, found scanning left to right, is deleted. */
  function RemoveAll(s: string, pattern: string): (r: string)
    requires pattern != []
    ensures |r| <= |s|
    decreases |s|
  {
    if |s| < |pattern| then s
    else if s[..|pattern|] == pattern then RemoveAll(s[|pattern|..], pattern)
    else [s[0]] + RemoveAll(s[1..], pattern)
  }

  /** A string without the first character of `pattern` loses nothing. */
  lemma {:induction false} RemoveAllAbsent(s: string, pattern: string)
    requires pattern != [] && pattern[0] !in s
    ensures RemoveAll(s, pattern) == s
    decreases |s|
  {
    if |s| >= |pattern| {
      assert s[..|pattern|][0] == s[0];
      RemoveAllAbsent(s[1..], pattern);
    }
  }

  /** A Python list object: every holder of the reference sees the changes
      made through it. */
  class ListRef<T> {
    var elems: seq<T>

    constructor (elems: seq<T>)
      ensures this.elems == elems
    {
      this.elems := elems;
    }

    /** `list.pop(i)` at an index the caller has checked. */
    method Pop(i: nat) returns (x: T)
      requires i < |elems|
      modifies this
      ensures x == old(elems[i])
      ensures elems == RemoveAt(old(elems), i)
    {
      x := elems[i];
      elems := elems[..i] + elems[i + 1..];
    }
  }

  /** `list(s)` for a Python set: each element once, in an order the
      language leaves unspecified (here whatever `:|` picks). */
  method SetToSeq<T>(s: set<T>) returns (r: seq<T>)
    ensures Distinct(r)
    ensures forall x :: x in r <==> x in s
  {
    r := [];
    var rest := s;
    while rest != {}
      invariant rest <= s
      invariant Distinct(r)
      invariant forall x :: x in r <==> x in s && x !in rest
      decreases rest
    {
      var x :| x in rest;
      r := r + [x];
      rest := rest - {x};
    }
  }
}
