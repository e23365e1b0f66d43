/**
 * Per-type alphabets and lookup tables used by the sequence class.
 *
 * The class consults three tables keyed by the sequence type: the valid symbols,
 * the complement table and the codon table. Only the DNA alphabet and the DNA
 * complement table exist as data (constants.py); the RNA alphabet is the one
 * count_nuc spells out, and the RNA complement table and both codon tables are
 * kept abstract in Tables, constrained only by WellFormed.
 */
module Alphabet {
  import Chars
  import Constants

  datatype SeqType = DNA | RNA

  /** The symbols valid for a sequence type. */
  function NucleotideBase(t: SeqType): seq<char> {
    match t
    case DNA => Constants.Nucleotides
    case RNA => ['A', 'G', 'U', 'C']
  }

  /** Every character of s is a symbol of type t (s is taken as it stands, not upper-cased). */
  predicate IsValidFor(t: SeqType, s: string) {
    forall i | 0 <= i < |s| :: s[i] in NucleotideBase(t)
  }

  /** Every character of s, once upper-cased, is a symbol of type t: the validation test. */
  predicate IsValidIgnoringCase(t: SeqType, s: string) {
    forall i | 0 <= i < |s| :: Chars.Upper(s[i]) in NucleotideBase(t)
  }

  /** The tables the shown constants do not define. */
  datatype Tables = Tables(
    rnaComplements: map<char, char>,
    dnaCodons: map<string, char>,
    rnaCodons: map<string, char>)

  function ComplementTable(tables: Tables, t: SeqType): map<char, char> {
    match t
    case DNA => Constants.NucComplements
    case RNA => tables.rnaComplements
  }

  function CodonTable(tables: Tables, t: SeqType): map<string, char> {
    match t
    case DNA => tables.dnaCodons
    case RNA => tables.rnaCodons
  }

  /** A three-letter word over the given symbols. */
  predicate IsCodonOver(w: string, symbols: seq<char>) {
    |w| == 3 && forall i | 0 <= i < 3 :: w[i] in symbols
  }

  /** The complement table of t maps every symbol of t back into the alphabet of t. */
  predicate ComplementClosed(tables: Tables, t: SeqType) {
    forall c | c in NucleotideBase(t) ::
      c in ComplementTable(tables, t) && ComplementTable(tables, t)[c] in NucleotideBase(t)
  }

  /**
   * What the abstract tables are assumed to satisfy: the RNA complement table is
   * total on the RNA alphabet, and each codon table is total on the three-letter
   * words over its type's alphabet.
   */
  ghost predicate WellFormed(tables: Tables) {
    && (forall c | c in NucleotideBase(RNA) :: c in tables.rnaComplements)
    && (forall w | IsCodonOver(w, NucleotideBase(DNA)) :: w in tables.dnaCodons)
    && (forall w | IsCodonOver(w, NucleotideBase(RNA)) :: w in tables.rnaCodons)
  }

  /** Each alphabet has four distinct symbols, all already upper-case. */
  lemma AlphabetShape(t: SeqType)
    ensures |NucleotideBase(t)| == 4
    ensures forall i, j | 0 <= i < j < 4 :: NucleotideBase(t)[i] != NucleotideBase(t)[j]
    ensures forall c | c in NucleotideBase(t) :: 'A' <= c <= 'Z'
  {
  }

  /** The DNA complement table needs no assumption: it is closed on the DNA alphabet. */
  lemma DnaComplementClosed(tables: Tables)
    ensures ComplementClosed(tables, DNA)
  {
    Constants.ComplementsTotalOnNucleotides();
  }

  /** On a valid sequence the counts of the four symbols add up to its length. */
  lemma {:induction false} SymbolCountsSum(t: SeqType, s: string)
    requires IsValidFor(t, s)
    ensures var b := NucleotideBase(t);
      multiset(s)[b[0]] + multiset(s)[b[1]] + multiset(s)[b[2]] + multiset(s)[b[3]] == |s|
  {
    if s != [] {
      var init := s[..|s| - 1];
      assert s == init + [s[|s| - 1]];
      SymbolCountsSum(t, init);
    }
  }

  /** On an upper-cased string, validation ignoring case is plain validation. */
  lemma ValidationOfUpper(t: SeqType, s: string)
    ensures IsValidIgnoringCase(t, Chars.UpperString(s)) <==> IsValidFor(t, Chars.UpperString(s))
  {
    var u := Chars.UpperString(s);
    assert forall i | 0 <= i < |u| :: Chars.Upper(u[i]) == u[i];
  }

  /** Validation ignoring case is validation of the upper-cased string. */
  lemma ValidIgnoringCaseIsValidUpper(t: SeqType, s: string)
    ensures IsValidIgnoringCase(t, s) <==> IsValidFor(t, Chars.UpperString(s))
  {
  }

  /** Occurrences in s of each symbol of the alphabet of t, zero counts included. */
  function SymbolCounts(t: SeqType, s: string): map<char, nat> {
    map c | c in NucleotideBase(t) :: multiset(s)[c]
  }

  /** The counts before any symbol is read: every symbol of the alphabet at zero. */
  lemma SymbolCountsEmpty(t: SeqType)
    ensures SymbolCounts(t, []) == match t
      case DNA => map['A' := 0, 'G' := 0, 'T' := 0, 'C' := 0]
      case RNA => map['A' := 0, 'G' := 0, 'U' := 0, 'C' := 0]
  {
  }

  /** Reading one more symbol of the alphabet adds one to its count and to no other. */
  lemma SymbolCountsSnoc(t: SeqType, s: string, c: char)
    requires c in NucleotideBase(t)
    ensures c in SymbolCounts(t, s)
    ensures SymbolCounts(t, s + [c]) == SymbolCounts(t, s)[c := SymbolCounts(t, s)[c] + 1]
  {
    assert multiset(s + [c]) == multiset(s) + multiset{c};
  }

  /**
   * The counts are keyed by the alphabet and give each symbol's occurrences; for
   * a valid sequence they add up to its length.
   */
  lemma SymbolCountsMeaning(t: SeqType, s: string)
    ensures SymbolCounts(t, s).Keys == set c | c in NucleotideBase(t)
    ensures forall c | c in SymbolCounts(t, s) :: SymbolCounts(t, s)[c] == multiset(s)[c]
    ensures IsValidFor(t, s) ==> var m, b := SymbolCounts(t, s), NucleotideBase(t);
      m[b[0]] + m[b[1]] + m[b[2]] + m[b[3]] == |s|
  {
    if IsValidFor(t, s) {
      SymbolCountsSum(t, s);
    }
  }
}
