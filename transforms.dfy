/**
 * Derived strands and GC statistics of a sequence: complement, reverse
 * complement and GC content (sequences.py).
 */
module Transforms {
  import opened Chars
  import opened Alphabet
  import Constants

  /** Looking up every upper-cased character of s in table raises no KeyError. */
  predicate Complementable(table: map<char, char>, s: string) {
    forall i | 0 <= i < |s| :: Upper(s[i]) in table
  }

  /**
   * The complement strand: position i holds the table entry of the upper-cased
   * symbol at position i, so the order and the length are those of s.
   */
  function Complemented(table: map<char, char>, s: string): (r: string)
    requires Complementable(table, s)
    ensures |r| == |s|
    ensures forall i | 0 <= i < |s| :: r[i] == table[Upper(s[i])]
  {
    if s == [] then [] else Complemented(table, s[..|s| - 1]) + [table[Upper(s[|s| - 1])]]
  }

  /** The reverse complement: the complement strand read from its far end. */
  function ReverseComplemented(table: map<char, char>, s: string): (r: string)
    requires Complementable(table, s)
    ensures |r| == |s|
    ensures forall i | 0 <= i < |s| :: r[i] == table[Upper(s[|s| - 1 - i])]
    ensures r == Reverse(Complemented(table, s))
  {
    Reverse(Complemented(table, s))
  }

  /** Complementing valid DNA yields valid, upper-case DNA. */
  lemma {:induction false} ComplementOfDnaIsDna(s: string)
    requires IsValidIgnoringCase(DNA, s)
    ensures Complementable(Constants.NucComplements, s)
    ensures IsValidFor(DNA, Complemented(Constants.NucComplements, s))
    ensures IsValidFor(DNA, ReverseComplemented(Constants.NucComplements, s))
  {
    Constants.ComplementsTotalOnNucleotides();
  }

  /** Valid DNA needs no upper-casing: its symbols are already upper-case. */
  lemma {:induction false} ValidIsUpper(t: SeqType, s: string)
    requires IsValidFor(t, s)
    ensures UpperString(s) == s
  {
    AlphabetShape(t);
    var u := UpperString(s);
    assert forall i | 0 <= i < |s| :: u[i] == s[i];
  }

  /** Upper-case DNA can be complemented, and upper-casing leaves each of its symbols alone. */
  lemma UpperDnaComplementable(u: string)
    requires IsValidFor(DNA, u)
    ensures Complementable(Constants.NucComplements, u)
    ensures forall j | 0 <= j < |u| :: Upper(u[j]) == u[j]
  {
    Constants.ComplementsTotalOnNucleotides();
  }

  /** Complementing a DNA symbol twice gives back its upper-case form. */
  lemma DoubleComplement(c: char)
    requires Upper(c) in Constants.Nucleotides
    ensures var table, u := Constants.NucComplements, Upper(c);
      u in table && table[u] in table && Upper(table[u]) == table[u] && table[table[u]] == u
  {
    Constants.ComplementIsInvolution();
  }

  /** Complementing DNA twice returns the upper-cased input. */
  lemma {:induction false} ComplementInvolution(s: string)
    requires IsValidIgnoringCase(DNA, s)
    ensures Complementable(Constants.NucComplements, s)
    ensures Complemented(Constants.NucComplements, Complemented(Constants.NucComplements, s)) == UpperString(s)
  {
    var table := Constants.NucComplements;
    ComplementOfDnaIsDna(s);
    var c := Complemented(table, s);
    UpperDnaComplementable(c);
    var cc := Complemented(table, c);
    forall i | 0 <= i < |s| ensures cc[i] == UpperString(s)[i] {
      DoubleComplement(s[i]);
    }
  }

  /** Taking the reverse complement of DNA twice returns the upper-cased input. */
  lemma {:induction false} ReverseComplementInvolution(s: string)
    requires IsValidIgnoringCase(DNA, s)
    ensures Complementable(Constants.NucComplements, s)
    ensures var rc := ReverseComplemented(Constants.NucComplements, s);
      Complementable(Constants.NucComplements, rc) &&
      ReverseComplemented(Constants.NucComplements, rc) == UpperString(s)
  {
    var table := Constants.NucComplements;
    ComplementOfDnaIsDna(s);
    var rc := ReverseComplemented(table, s);
    UpperDnaComplementable(rc);
    var rr := ReverseComplemented(table, rc);
    forall i | 0 <= i < |s| ensures rr[i] == UpperString(s)[i] {
      DoubleComplement(s[i]);
    }
  }

  /** Number of G and C symbols (case-sensitive, as str.count). */
  function GcCount(s: string): (r: nat)
    ensures r <= |s|
  {
    TwoCountsBound(s, 'G', 'C');
    multiset(s)['G'] + multiset(s)['C']
  }

  lemma MulSucc(q: int, d: int)
    ensures (q + 1) * d == q * d + d
  {
  }

  lemma MulMonotone(a: int, b: int, d: nat)
    requires a <= b
    ensures a * d <= b * d
  {
  }

  /** Integer quotient of n by d. */
  function Quotient(n: nat, d: nat): (q: nat)
    requires d > 0
    ensures q * d <= n < q * d + d
  {
    n / d
  }

  /** Python's round(n / d) on exact rationals: the nearest integer, ties to the even one. */
  function RoundHalfEven(n: nat, d: nat): (r: nat)
    requires d > 0
    ensures 2 * n <= 2 * (r * d) + d && 2 * (r * d) <= 2 * n + d
    ensures 2 * (r * d) + d == 2 * n || 2 * (r * d) == 2 * n + d ==> r % 2 == 0
  {
    var q := Quotient(n, d);
    var rem := n - q * d;
    if 2 * rem > d || (2 * rem == d && q % 2 == 1) then
      MulSucc(q, d);
      q + 1
    else
      q
  }

  /** A fraction g / d in [0, 1], scaled to a percentage and rounded, stays in [0, 100]. */
  lemma {:induction false} PercentBounds(g: nat, d: nat)
    requires 0 < d && g <= d
    ensures RoundHalfEven(100 * g, d) <= 100
    ensures g == 0 ==> RoundHalfEven(100 * g, d) == 0
    ensures g == d ==> RoundHalfEven(100 * g, d) == 100
  {
    var r := RoundHalfEven(100 * g, d);
    if r > 100 {
      MulMonotone(101, r, d);
    }
    if g == 0 && r > 0 {
      MulMonotone(1, r, d);
    }
    if g == d && r < 100 {
      MulMonotone(r, 99, d);
    }
  }

  /**
   * GC content of a non-empty sequence, as a whole percentage: 100 * gc / |s|
   * rounded to the nearest integer, ties to even.
   */
  function GcContent(s: string): (r: nat)
    requires |s| > 0
    ensures r <= 100
    ensures 200 * GcCount(s) <= 2 * (r * |s|) + |s| && 2 * (r * |s|) <= 200 * GcCount(s) + |s|
    ensures GcCount(s) == 0 ==> r == 0
    ensures GcCount(s) == |s| ==> r == 100
  {
    PercentBounds(GcCount(s), |s|);
    RoundHalfEven(100 * GcCount(s), |s|)
  }

  /**
   * The consecutive, non-overlapping windows of width w that fit entirely in
   * s, from the left; a shorter remainder is dropped.
   */
  function Windows(s: string, w: nat): (r: seq<string>)
    requires w > 0
    ensures forall k | 0 <= k < |r| :: |r[k]| == w
    decreases |s|
  {
    if |s| < w then [] else [s[..w]] + Windows(s[w..], w)
  }

  /** There are |s| / w windows: as many as fit, and one more would not. */
  lemma {:induction false} WindowsCount(s: string, w: nat)
    requires w > 0
    ensures |Windows(s, w)| * w <= |s| < |Windows(s, w)| * w + w
    decreases |s|
  {
    if |s| >= w {
      WindowsCount(s[w..], w);
      MulSucc(|Windows(s[w..], w)|, w);
    }
  }

  /** Window k covers positions k * w up to k * w + w of s. */
  lemma {:induction false} WindowAt(s: string, w: nat, k: nat)
    requires w > 0 && k < |Windows(s, w)|
    ensures k * w + w <= |s|
    ensures Windows(s, w)[k] == s[k * w..k * w + w]
    decreases k
  {
    if k > 0 {
      var tail := s[w..];
      assert Windows(s, w)[k] == Windows(tail, w)[k - 1];
      WindowAt(tail, w, k - 1);
      var a := (k - 1) * w;
      MulSucc(k - 1, w);
      assert k * w == a + w;
      DropThenSlice(s, w, a, a + w);
    }
  }

  lemma DropThenSlice(s: string, d: nat, lo: nat, hi: nat)
    requires lo <= hi && d + hi <= |s|
    ensures s[d..][lo..hi] == s[d + lo..d + hi]
  {
  }

  /** Transcription (T to U) of valid DNA is valid RNA, and the reverse substitution undoes it. */
  lemma TranscriptionRoundTrip(s: string)
    ensures IsValidFor(DNA, s) ==> IsValidFor(RNA, Replace(s, 'T', 'U'))
    ensures IsValidFor(DNA, s) ==> Replace(Replace(s, 'T', 'U'), 'U', 'T') == s
  {
    if IsValidFor(DNA, s) {
      ReplaceRoundTrip(s, 'T', 'U');
    }
  }
}
