/**
 * Character and string helpers shared by the DNA toolkit and the sequence class:
 * ASCII upper-casing (Python's str.upper on the characters that matter here),
 * single-character replacement (str.replace) and reversal (the slice [::-1]).
 */
module Chars {

  /** Python's str.upper on one character, restricted to ASCII letters. */
  function Upper(c: char): char {
    if 'a' <= c <= 'z' then (c as int - 32) as char else c
  }

  /** Python's s.upper(): every character upper-cased, length unchanged. */
  function UpperString(s: string): (r: string)
    ensures |r| == |s|
    ensures forall i | 0 <= i < |s| :: r[i] == Upper(s[i])
  {
    if s == [] then [] else UpperString(s[..|s| - 1]) + [Upper(s[|s| - 1])]
  }

  /** Python's s.replace(a, b) for one-character a and b. */
  function Replace(s: string, a: char, b: char): (r: string)
    ensures |r| == |s|
    ensures forall i | 0 <= i < |s| :: r[i] == (if s[i] == a then b else s[i])
  {
    if s == [] then [] else Replace(s[..|s| - 1], a, b) + [if s[|s| - 1] == a then b else s[|s| - 1]]
  }

  /** Python's s[::-1]. */
  function Reverse<T>(s: seq<T>): (r: seq<T>)
    ensures |r| == |s|
    ensures forall i | 0 <= i < |s| :: r[i] == s[|s| - 1 - i]
  {
    if s == [] then [] else Reverse(s[1..]) + [s[0]]
  }

  lemma UpperIdempotent(s: string)
    ensures UpperString(UpperString(s)) == UpperString(s)
  {
  }

  lemma {:induction false} ReverseInvolution<T>(s: seq<T>)
    ensures Reverse(Reverse(s)) == s
  {
    var r := Reverse(Reverse(s));
    assert forall i | 0 <= i < |s| :: r[i] == s[i];
  }

  /** Two different symbols occur at most |s| times together. */
  lemma {:induction false} TwoCountsBound(s: string, a: char, b: char)
    requires a != b
    ensures multiset(s)[a] + multiset(s)[b] <= |s|
  {
    if s != [] {
      TwoCountsBound(s[..|s| - 1], a, b);
      assert s == s[..|s| - 1] + [s[|s| - 1]];
    }
  }

  /** A prefix grows by the next element. */
  lemma TakeSnoc<T>(s: seq<T>, i: nat)
    requires i < |s|
    ensures s[..i + 1] == s[..i] + [s[i]]
  {
  }

  /** Replacing a by b and then b by a restores a string that had no b. */
  lemma {:induction false} ReplaceRoundTrip(s: string, a: char, b: char)
    requires b !in s
    ensures Replace(Replace(s, a, b), b, a) == s
  {
    var r := Replace(Replace(s, a, b), b, a);
    forall i | 0 <= i < |s| ensures r[i] == s[i] {
      assert s[i] != b;
    }
  }

  /** A Python slice bound: negative values count from the end, then clamped to [0, n]. */
  function ClampIndex(a: int, n: nat): (k: nat)
    ensures k <= n
  {
    if a < 0 then (if a + n < 0 then 0 else a + n) else if a > n then n else a
  }

  /** Python's s[a:b] with step 1. */
  function Slice(s: string, a: int, b: int): (r: string)
    ensures |r| <= |s|
    ensures forall i | 0 <= i < |r| :: r[i] in s
  {
    var lo, hi := ClampIndex(a, |s|), ClampIndex(b, |s|);
    if lo < hi then s[lo..hi] else []
  }

  /** The four cases of a slice bound: in range, from the end, past the end, before the start. */
  lemma ClampIndexCases(a: int, n: nat)
    ensures 0 <= a <= n ==> ClampIndex(a, n) == a
    ensures a < 0 <= a + n ==> ClampIndex(a, n) == n + a
    ensures n < a ==> ClampIndex(a, n) == n
    ensures a + n < 0 ==> ClampIndex(a, n) == 0
  {
  }

  /** Within bounds, a slice is the plain subsequence. */
  lemma SliceInRange(s: string, a: int, b: int)
    requires 0 <= a <= b <= |s|
    ensures Slice(s, a, b) == s[a..b]
  {
  }

  /** A negative start counts from the end, and an end past the string stops at its end. */
  lemma SliceFromEnd(s: string, a: int, b: int)
    requires a < 0 <= a + |s| && |s| <= b
    ensures Slice(s, a, b) == s[|s| + a..]
  {
  }

  /** Bounds that meet or cross once resolved give the empty string. */
  lemma SliceCrossed(s: string, a: int, b: int)
    requires ClampIndex(b, |s|) <= ClampIndex(a, |s|)
    ensures Slice(s, a, b) == []
  {
  }
}
