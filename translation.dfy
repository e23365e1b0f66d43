/**
 * Codon translation: a nucleotide string read three symbols at a time from an
 * offset, each codon looked up in the codon table of the sequence type; the six
 * reading frames; and the codons that code for one amino acid (sequences.py).
 */
module Translation {
  import opened Alphabet
  import opened Transforms

  /** The three symbols starting at pos, taken verbatim (no upper-casing). */
  function Codon(s: string, pos: nat): string
    requires pos + 3 <= |s|
  {
    s[pos..pos + 3]
  }

  /** Every codon read from offset p in steps of three is a key of table (no KeyError). */
  predicate CodonsKnown(table: map<string, char>, s: string, p: nat)
    decreases |s| - p
  {
    p + 3 <= |s| ==> Codon(s, p) in table && CodonsKnown(table, s, p + 3)
  }

  /**
   * The amino-acid symbols of the codons at p, p + 3, p + 6, ... while a whole
   * codon remains; a trailing one or two symbols are never translated.
   */
  function Translated(table: map<string, char>, s: string, p: nat): seq<char>
    requires CodonsKnown(table, s, p)
    decreases |s| - p
  {
    if p + 3 <= |s| then [table[Codon(s, p)]] + Translated(table, s, p + 3) else []
  }

  /** The number of whole codons after offset p in a string of length n. */
  function WholeCodons(n: nat, p: nat): nat {
    if p <= n then (n - p) / 3 else 0
  }

  /** The frame at offset p has one symbol per whole codon after p. */
  lemma {:induction false} TranslatedLength(table: map<string, char>, s: string, p: nat)
    requires CodonsKnown(table, s, p)
    ensures |Translated(table, s, p)| == WholeCodons(|s|, p)
    decreases |s| - p
  {
    if p + 3 <= |s| {
      TranslatedLength(table, s, p + 3);
    }
  }

  /** Symbol k of the frame at offset p is the amino acid of the codon at p + 3k. */
  lemma {:induction false} TranslatedAt(table: map<string, char>, s: string, p: nat, k: nat)
    requires CodonsKnown(table, s, p)
    requires k < |Translated(table, s, p)|
    ensures p + 3 * k + 3 <= |s| && Codon(s, p + 3 * k) in table
    ensures Translated(table, s, p)[k] == table[Codon(s, p + 3 * k)]
    decreases k
  {
    if k > 0 {
      TranslatedAt(table, s, p + 3, k - 1);
    }
  }

  /** A codon table total on the alphabet can translate any valid sequence from any offset. */
  lemma {:induction false} CodonsKnownWhenValid(tables: Tables, t: SeqType, s: string, p: nat)
    requires WellFormed(tables) && IsValidFor(t, s)
    ensures CodonsKnown(CodonTable(tables, t), s, p)
    decreases |s| - p
  {
    if p + 3 <= |s| {
      assert IsCodonOver(Codon(s, p), NucleotideBase(t));
      CodonsKnownWhenValid(tables, t, s, p + 3);
    }
  }

  /** No lookup made while building the six reading frames of s raises KeyError. */
  predicate FramesDefined(tables: Tables, t: SeqType, s: string) {
    var table := CodonTable(tables, t);
    && Complementable(ComplementTable(tables, t), s)
    && CodonsKnown(table, s, 0) && CodonsKnown(table, s, 1) && CodonsKnown(table, s, 2)
    && var rc := ReverseComplemented(ComplementTable(tables, t), s);
       CodonsKnown(table, rc, 0) && CodonsKnown(table, rc, 1) && CodonsKnown(table, rc, 2)
  }

  /**
   * The six reading frames, in the fixed order: offsets 0, 1, 2 of s, then offsets
   * 0, 1, 2 of its reverse complement.
   */
  function ReadingFrames(tables: Tables, t: SeqType, s: string): (frames: seq<seq<char>>)
    requires FramesDefined(tables, t, s)
    ensures |frames| == 6
  {
    var table := CodonTable(tables, t);
    var rc := ReverseComplemented(ComplementTable(tables, t), s);
    [Translated(table, s, 0), Translated(table, s, 1), Translated(table, s, 2),
     Translated(table, rc, 0), Translated(table, rc, 1), Translated(table, rc, 2)]
  }

  /** Frames 0 to 2 read s from offsets 0, 1, 2; frames 3 to 5 read its reverse complement likewise. */
  lemma ReadingFramesOrder(tables: Tables, t: SeqType, s: string)
    requires FramesDefined(tables, t, s)
    ensures var table, frames := CodonTable(tables, t), ReadingFrames(tables, t, s);
      var rc := ReverseComplemented(ComplementTable(tables, t), s);
      && frames[0] == Translated(table, s, 0) && frames[1] == Translated(table, s, 1)
      && frames[2] == Translated(table, s, 2) && frames[3] == Translated(table, rc, 0)
      && frames[4] == Translated(table, rc, 1) && frames[5] == Translated(table, rc, 2)
  {
  }

  /**
   * Each frame holds one amino acid per whole codon after its offset; a frame of
   * the reverse complement is as long as the forward frame with the same offset.
   */
  lemma ReadingFramesLengths(tables: Tables, t: SeqType, s: string)
    requires FramesDefined(tables, t, s)
    ensures var frames := ReadingFrames(tables, t, s);
      && |frames[0]| == WholeCodons(|s|, 0) && |frames[1]| == WholeCodons(|s|, 1)
      && |frames[2]| == WholeCodons(|s|, 2)
      && |frames[3]| == |frames[0]| && |frames[4]| == |frames[1]| && |frames[5]| == |frames[2]|
  {
    var table := CodonTable(tables, t);
    var rc := ReverseComplemented(ComplementTable(tables, t), s);
    var frames := ReadingFrames(tables, t, s);
    assert |rc| == |s|;
    assert frames[0] == Translated(table, s, 0) && frames[3] == Translated(table, rc, 0);
    assert frames[1] == Translated(table, s, 1) && frames[4] == Translated(table, rc, 1);
    assert frames[2] == Translated(table, s, 2) && frames[5] == Translated(table, rc, 2);
    TranslatedLength(table, s, 0);
    TranslatedLength(table, s, 1);
    TranslatedLength(table, s, 2);
    TranslatedLength(table, rc, 0);
    TranslatedLength(table, rc, 1);
    TranslatedLength(table, rc, 2);
  }

  /**
   * Valid sequences of a type whose tables are well formed, and whose complement
   * table keeps the alphabet (always so for DNA), have all six frames defined.
   */
  lemma {:induction false} FramesDefinedWhenValid(tables: Tables, t: SeqType, s: string)
    requires WellFormed(tables) && ComplementClosed(tables, t) && IsValidFor(t, s)
    ensures FramesDefined(tables, t, s)
  {
    var table := ComplementTable(tables, t);
    AlphabetShape(t);
    ValidIsUpper(t, s);
    assert Complementable(table, s) by {
      forall i | 0 <= i < |s| ensures Chars.Upper(s[i]) in table {
        assert Chars.UpperString(s)[i] == s[i];
      }
    }
    var rc := ReverseComplemented(table, s);
    assert IsValidFor(t, rc) by {
      forall i | 0 <= i < |rc| ensures rc[i] in NucleotideBase(t) {
        assert Chars.UpperString(s)[|s| - 1 - i] == s[|s| - 1 - i];
      }
    }
    CodonsKnownWhenValid(tables, t, s, 0);
    CodonsKnownWhenValid(tables, t, s, 1);
    CodonsKnownWhenValid(tables, t, s, 2);
    CodonsKnownWhenValid(tables, t, rc, 0);
    CodonsKnownWhenValid(tables, t, rc, 1);
    CodonsKnownWhenValid(tables, t, rc, 2);
  }

  /**
   * The codons at p, p + 3, ... whose amino acid is aa, in reading order, repeats
   * kept: exactly the codons behind the occurrences of aa in the translated frame.
   */
  function SelectedCodons(table: map<string, char>, s: string, p: nat, aa: char): (r: seq<string>)
    requires CodonsKnown(table, s, p)
    decreases |s| - p
  {
    if p + 3 <= |s| then
      (if table[Codon(s, p)] == aa then [Codon(s, p)] else []) + SelectedCodons(table, s, p + 3, aa)
    else
      []
  }

  /** Every selected codon is a three-letter word of the table that encodes aa. */
  lemma {:induction false} SelectedCodonsEncode(table: map<string, char>, s: string, p: nat, aa: char)
    requires CodonsKnown(table, s, p)
    ensures forall w | w in SelectedCodons(table, s, p, aa) :: |w| == 3 && w in table && table[w] == aa
    decreases |s| - p
  {
    if p + 3 <= |s| {
      SelectedCodonsEncode(table, s, p + 3, aa);
    }
  }

  /** One codon is selected per occurrence of aa in the translated frame. */
  lemma {:induction false} SelectedCodonsCount(table: map<string, char>, s: string, p: nat, aa: char)
    requires CodonsKnown(table, s, p)
    ensures |SelectedCodons(table, s, p, aa)| == multiset(Translated(table, s, p))[aa]
    decreases |s| - p
  {
    if p + 3 <= |s| {
      SelectedCodonsCount(table, s, p + 3, aa);
      assert Translated(table, s, p) == [table[Codon(s, p)]] + Translated(table, s, p + 3);
    }
  }

  /** One step of the selection: the codon at p, if it encodes aa, then the rest. */
  lemma SelectedCodonsStep(table: map<string, char>, s: string, p: nat, aa: char)
    requires CodonsKnown(table, s, p) && p + 3 <= |s|
    ensures Codon(s, p) in table && CodonsKnown(table, s, p + 3)
    ensures SelectedCodons(table, s, p, aa)
      == (if table[Codon(s, p)] == aa then [Codon(s, p)] else []) + SelectedCodons(table, s, p + 3, aa)
  {
  }

  /** Every codon of the frame whose amino acid is aa is selected. */
  lemma {:induction false} SelectedCodonsComplete(table: map<string, char>, s: string, p: nat, aa: char, k: nat)
    requires CodonsKnown(table, s, p)
    requires p + 3 * k + 3 <= |s|
    ensures Codon(s, p + 3 * k) in table
    ensures table[Codon(s, p + 3 * k)] == aa ==> Codon(s, p + 3 * k) in SelectedCodons(table, s, p, aa)
    decreases k
  {
    if k > 0 {
      SelectedCodonsComplete(table, s, p + 3, aa, k - 1);
    }
  }
}
