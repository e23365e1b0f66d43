/**
 * The sequence object of sequences.py: a nucleotide string, upper-cased on
 * construction, with a name and a type (DNA or RNA), and the analyses it offers.
 * Each method that loops is proved against the specification function of the
 * module that defines the analysis.
 */
module Sequences {
  import opened Wrappers
  import opened Chars
  import opened Alphabet
  import opened Transforms
  import opened Translation
  import opened ProteinFinder

  /** What transcript answers for a sequence that is not DNA. */
  const NotDnaMessage: string := "Not a valid DNA sequence - cannot transcript"

  /** The range all_proteins accepts: a non-empty slice, or both bounds 0 for the whole sequence. */
  predicate RangeAccepted(startPos: int, endPos: int) {
    endPos > startPos || (endPos == startPos && startPos == 0)
  }

  /** The part of s that all_proteins reads for an accepted range. */
  function Selection(s: string, startPos: int, endPos: int): (r: string)
    ensures forall i | 0 <= i < |r| :: r[i] in s
  {
    if endPos > startPos then Slice(s, startPos, endPos) else s
  }

  /** Both bounds 0 select the whole sequence; an in-range pair selects that part of it. */
  lemma SelectionCases(s: string, startPos: int, endPos: int)
    ensures startPos == 0 && endPos == 0 ==> Selection(s, startPos, endPos) == s
    ensures 0 <= startPos < endPos <= |s| ==> Selection(s, startPos, endPos) == s[startPos..endPos]
  {
    if 0 <= startPos < endPos <= |s| {
      SliceInRange(s, startPos, endPos);
    }
  }

  /** Any selection from a valid sequence is valid, so all its frames are defined. */
  lemma SelectionFramesDefined(tables: Tables, t: SeqType, s: string, startPos: int, endPos: int)
    requires WellFormed(tables) && ComplementClosed(tables, t) && IsValidFor(t, s)
    ensures FramesDefined(tables, t, Selection(s, startPos, endPos))
  {
    var sel := Selection(s, startPos, endPos);
    assert IsValidFor(t, sel) by {
      forall i | 0 <= i < |sel| ensures sel[i] in NucleotideBase(t) {
        var j :| 0 <= j < |s| && s[j] == sel[i];
      }
    }
    FramesDefinedWhenValid(tables, t, sel);
  }

  /** Each distinct element of xs mapped to its number of occurrences. */
  function Frequencies(xs: seq<string>): map<string, nat> {
    map w | w in xs :: multiset(xs)[w]
  }

  /** The keys are exactly the elements of xs, each with a positive count. */
  lemma FrequenciesMeaning(xs: seq<string>)
    ensures forall w :: w in Frequencies(xs) <==> w in xs
    ensures forall w | w in Frequencies(xs) :: Frequencies(xs)[w] == multiset(xs)[w] > 0
  {
  }

  /** One pass of the selection loop of codon_frequency keeps the selection still to come. */
  lemma SelectionAdvances(table: map<string, char>, s: string, i: nat, aa: char, taken: seq<string>, selected: seq<string>)
    requires CodonsKnown(table, s, i) && i + 3 <= |s|
    requires taken + SelectedCodons(table, s, i, aa) == selected
    ensures s[i..i + 3] in table && CodonsKnown(table, s, i + 3)
    ensures (if table[s[i..i + 3]] == aa then taken + [s[i..i + 3]] else taken)
      + SelectedCodons(table, s, i + 3, aa) == selected
  {
    SelectedCodonsStep(table, s, i, aa);
    var rest := SelectedCodons(table, s, i + 3, aa);
    var c := s[i..i + 3];
    if table[c] == aa {
      assert taken + [c] + rest == taken + ([c] + rest);
    } else {
      assert [] + rest == rest;
    }
  }

  lemma SelectionEnds(table: map<string, char>, s: string, i: nat, aa: char)
    requires CodonsKnown(table, s, i) && i + 3 > |s|
    ensures SelectedCodons(table, s, i, aa) == []
  {
  }

  /** Every codon counted by codon_frequency is one that encodes the amino acid asked for. */
  lemma CodonFrequencyKeys(table: map<string, char>, s: string, aa: char)
    requires CodonsKnown(table, s, 0)
    ensures forall w | w in Frequencies(SelectedCodons(table, s, 0, aa)) :: |w| == 3 && w in table && table[w] == aa
  {
    SelectedCodonsEncode(table, s, 0, aa);
  }

  /** dict(collections.Counter(xs)): the occurrences of each element, counted in one pass. */
  method Tally(xs: seq<string>) returns (counts: map<string, nat>)
    ensures counts == Frequencies(xs)
  {
    counts := map[];
    for j := 0 to |xs|
      invariant counts == Frequencies(xs[..j])
    {
      var w := xs[j];
      var n := if w in counts then counts[w] else 0;
      TakeSnoc(xs, j);
      FrequenciesSnoc(xs[..j], w);
      assert Frequencies(xs[..j + 1]) == counts[w := n + 1];
      counts := counts[w := n + 1];
    }
    assert xs[..|xs|] == xs;
  }

  /** One more occurrence of w adds one to its count, starting from zero. */
  lemma FrequenciesSnoc(xs: seq<string>, w: string)
    ensures var m := Frequencies(xs);
      Frequencies(xs + [w]) == m[w := (if w in m then m[w] else 0) + 1]
  {
    var m, m' := Frequencies(xs), Frequencies(xs + [w]);
    var expected := m[w := (if w in m then m[w] else 0) + 1];
    assert multiset(xs + [w]) == multiset(xs) + multiset{w};
    assert forall v :: v in m' <==> v in expected;
    assert forall v | v in m' :: m'[v] == expected[v];
  }

  class Sequence {
    var strand: string
    var name: string
    var kind: SeqType
    var isValid: bool
    /** The complement and codon tables the analyses look symbols up in. */
    const tables: Tables

    /** A constructed object: its stored string passed validation for its type. */
    ghost predicate Valid()
      reads this
    {
      isValid && IsValidFor(kind, strand)
    }

    /** Stores the upper-cased string and records whether it is valid for the type. */
    constructor (s: string, kind: SeqType, name: string, tables: Tables)
      ensures this.strand == UpperString(s) && this.name == name && this.kind == kind
      ensures this.tables == tables
      ensures isValid <==> IsValidFor(kind, this.strand)
    {
      this.strand := UpperString(s);
      this.name := name;
      this.kind := kind;
      this.tables := tables;
      new;
      isValid := Validate(strand);
      ValidationOfUpper(kind, s);
    }

    /** The constructor followed by its assertion: an invalid string yields no object. */
    static method Create(s: string, kind: SeqType, name: string, tables: Tables) returns (r: Option<Sequence>)
      ensures r.Some? <==> IsValidFor(kind, UpperString(s))
      ensures r.Some? ==> fresh(r.value) && r.value.Valid()
      ensures r.Some? ==> r.value.strand == UpperString(s) && r.value.name == name
      ensures r.Some? ==> r.value.kind == kind && r.value.tables == tables
    {
      var obj := new Sequence(s, kind, name, tables);
      if obj.isValid {
        r := Some(obj);
      } else {
        r := None;
      }
    }

    /** Whether every upper-cased character of s belongs to the alphabet of the type. */
    method Validate(s: string) returns (valid: bool)
      ensures valid <==> IsValidIgnoringCase(kind, s)
    {
      var toCheck := UpperString(s);
      var i := 0;
      while i < |toCheck|
        invariant 0 <= i <= |toCheck|
        invariant forall j | 0 <= j < i :: toCheck[j] in NucleotideBase(kind)
      {
        if toCheck[i] !in NucleotideBase(kind) {
          return false;
        }
        i := i + 1;
      }
      return true;
    }

    /** Occurrences of each symbol of the alphabet of the type, zero counts included. */
    method CountNuc() returns (freq: map<char, nat>)
      requires Valid()
      ensures freq == SymbolCounts(kind, strand)
    {
      if kind == DNA {
        freq := map['A' := 0, 'G' := 0, 'T' := 0, 'C' := 0];
      } else {
        freq := map['A' := 0, 'G' := 0, 'U' := 0, 'C' := 0];
      }
      SymbolCountsEmpty(kind);
      for i := 0 to |strand|
        invariant freq == SymbolCounts(kind, strand[..i])
      {
        var nuc := strand[i];
        SymbolCountsSnoc(kind, strand[..i], nuc);
        freq := freq[nuc := freq[nuc] + 1];
        TakeSnoc(strand, i);
      }
      assert strand[..|strand|] == strand;
    }

    /**
     * DNA: every T becomes U and nothing else changes, giving valid RNA from which
     * the reverse substitution restores the DNA. RNA: the fixed refusal message.
     */
    function Transcript(): (r: string)
      reads this
      ensures kind == DNA ==> |r| == |strand| && 'T' !in r
      ensures kind == DNA ==> forall i | 0 <= i < |strand| :: r[i] == if strand[i] == 'T' then 'U' else strand[i]
      ensures kind == DNA && IsValidFor(DNA, strand) ==> IsValidFor(RNA, r) && Replace(r, 'U', 'T') == strand
      ensures kind == RNA ==> r == NotDnaMessage
    {
      if kind == DNA then
        TranscriptionRoundTrip(strand);
        Replace(strand, 'T', 'U')
      else
        NotDnaMessage
    }

    /** The complement strand of s under the complement table of the type. */
    method Complement(s: string) returns (c: string)
      requires Complementable(ComplementTable(tables, kind), s)
      ensures |c| == |s|
      ensures forall i | 0 <= i < |s| :: c[i] == ComplementTable(tables, kind)[Upper(s[i])]
      ensures c == Complemented(ComplementTable(tables, kind), s)
    {
      var table := ComplementTable(tables, kind);
      c := "";
      for i := 0 to |s|
        invariant Complementable(table, s[..i])
        invariant c == Complemented(table, s[..i])
      {
        c := c + [table[Upper(s[i])]];
        assert s[..i + 1][..i] == s[..i];
      }
      assert s[..|s|] == s;
    }

    /** The complement strand of s, reversed. */
    method ReverseComplement(s: string) returns (rc: string)
      requires Complementable(ComplementTable(tables, kind), s)
      ensures rc == ReverseComplemented(ComplementTable(tables, kind), s)
    {
      var c := Complement(s);
      rc := Reverse(c);
    }

    /**
     * The GC content of each whole window of the given width, from the left; a
     * negative width yields no windows (an empty range), a zero width is refused.
     */
    method GcContentSubseq(windowSize: int) returns (res: seq<nat>)
      requires windowSize != 0
      ensures windowSize < 0 ==> res == []
      ensures windowSize > 0 ==> |res| == |Windows(strand, windowSize)|
      ensures windowSize > 0 ==> forall k | 0 <= k < |res| :: res[k] == GcContent(Windows(strand, windowSize)[k])
    {
      res := [];
      if windowSize < 0 {
        return;
      }
      var w: nat := windowSize;
      var all := Windows(strand, w);
      var i := 0;
      while i < |strand| - w + 1
        invariant 0 <= i <= |strand|
        invariant |res| <= |all|
        invariant Windows(strand[i..], w) == all[|res|..]
        invariant forall k | 0 <= k < |res| :: res[k] == GcContent(all[k])
        decreases |strand| - i
      {
        var subseq := strand[i..i + w];
        assert strand[i..][..w] == subseq && strand[i..][w..] == strand[i + w..];
        res := res + [GcContent(subseq)];
        i := i + w;
      }
      assert |Windows(strand[i..], w)| == 0;
    }

    /** The amino acids of the codons at initPos, initPos + 3, ... that fit in s. */
    method Translate(s: string, initPos: nat) returns (codons: seq<char>)
      requires CodonsKnown(CodonTable(tables, kind), s, initPos)
      ensures codons == Translated(CodonTable(tables, kind), s, initPos)
    {
      var table := CodonTable(tables, kind);
      codons := [];
      var pos := initPos;
      while pos < |s| - 2
        invariant initPos <= pos
        invariant CodonsKnown(table, s, pos)
        invariant codons + Translated(table, s, pos) == Translated(table, s, initPos)
        decreases |s| - pos
      {
        codons := codons + [table[s[pos..pos + 3]]];
        pos := pos + 3;
      }
    }

    /**
     * The first pass of codon_frequency: the codons of the frame at offset 0 whose
     * amino acid is aminoAcid, in reading order, repeats kept.
     */
    method CodonsEncoding(aminoAcid: char) returns (tempList: seq<string>)
      requires CodonsKnown(CodonTable(tables, kind), strand, 0)
      ensures tempList == SelectedCodons(CodonTable(tables, kind), strand, 0, aminoAcid)
    {
      var table := CodonTable(tables, kind);
      ghost var selected := SelectedCodons(table, strand, 0, aminoAcid);
      tempList := [];
      var i := 0;
      while i < |strand| - 2
        invariant 0 <= i
        invariant CodonsKnown(table, strand, i)
        invariant tempList + SelectedCodons(table, strand, i, aminoAcid) == selected
        decreases |strand| - i
      {
        var toCheck := strand[i..i + 3];
        SelectionAdvances(table, strand, i, aminoAcid, tempList, selected);
        if table[toCheck] == aminoAcid {
          tempList := tempList + [toCheck];
        }
        i := i + 3;
      }
      SelectionEnds(table, strand, i, aminoAcid);
      assert tempList + [] == tempList;
    }

    /**
     * How often each codon of the frame at offset 0 that encodes aminoAcid occurs;
     * codons encoding other amino acids are absent.
     */
    method CodonFrequency(aminoAcid: char) returns (counts: map<string, nat>)
      requires CodonsKnown(CodonTable(tables, kind), strand, 0)
      ensures counts == Frequencies(SelectedCodons(CodonTable(tables, kind), strand, 0, aminoAcid))
    {
      var tempList := CodonsEncoding(aminoAcid);
      counts := Tally(tempList);
    }

    /** The six reading frames of s, in the order of ReadingFrames. */
    method GenerateReadingFrames(s: string) returns (frames: seq<seq<char>>)
      requires FramesDefined(tables, kind, s)
      ensures frames == ReadingFrames(tables, kind, s)
    {
      frames := [];
      var f := Translate(s, 0);
      frames := frames + [f];
      f := Translate(s, 1);
      frames := frames + [f];
      f := Translate(s, 2);
      frames := frames + [f];
      var rc := ReverseComplement(s);
      f := Translate(rc, 0);
      frames := frames + [f];
      rc := ReverseComplement(s);
      f := Translate(rc, 1);
      frames := frames + [f];
      rc := ReverseComplement(s);
      f := Translate(rc, 2);
      frames := frames + [f];
    }

    /** The proteins of one frame: the automaton Proteins, run step by step. */
    method FindRfProteins(aaSeq: seq<char>) returns (proteins: seq<string>)
      ensures proteins == Proteins(aaSeq)
    {
      var currentProt: seq<string> := [];
      proteins := [];
      for k := 0 to |aaSeq|
        invariant Run(State(currentProt, proteins), aaSeq[k..]) == Run(State([], []), aaSeq)
      {
        var aa := aaSeq[k];
        assert aaSeq[k..] == [aa] + aaSeq[k + 1..];
        if aa == Stop {
          if currentProt != [] {
            var before := proteins;
            for m := 0 to |currentProt|
              invariant proteins == before + currentProt[..m]
            {
              TakeSnoc(currentProt, m);
              proteins := proteins + [currentProt[m]];
            }
            assert currentProt[..|currentProt|] == currentProt;
            currentProt := [];
          }
        } else {
          if aa == Start {
            currentProt := currentProt + [""];
          }
          var ext := currentProt;
          for m := 0 to |currentProt|
            invariant |currentProt| == |ext|
            invariant forall j | 0 <= j < |currentProt| :: currentProt[j] == if j < m then ext[j] + [aa] else ext[j]
          {
            currentProt := currentProt[m := currentProt[m] + [aa]];
          }
          assert currentProt == ExtendAll(ext, [aa]);
        }
      }
    }

    /** The proteins of each frame, appended frame after frame. */
    method CollectProteins(rfs: seq<seq<char>>) returns (res: seq<string>)
      ensures res == AllFrameProteins(rfs)
    {
      res := [];
      for k := 0 to |rfs|
        invariant res == AllFrameProteins(rfs[..k])
      {
        var prots := FindRfProteins(rfs[k]);
        for m := 0 to |prots|
          invariant res == AllFrameProteins(rfs[..k]) + prots[..m]
        {
          TakeSnoc(prots, m);
          res := res + [prots[m]];
        }
        assert prots[..|prots|] == prots;
        assert rfs[..k + 1][..k] == rfs[..k];
      }
      assert rfs[..|rfs|] == rfs;
    }

    /**
     * The proteins of the six frames of the selected range, frame by frame, or
     * sorted by decreasing length (stably) when ordered; an unaccepted range
     * yields nothing.
     */
    method AllProteins(startPos: int, endPos: int, ordered: bool) returns (r: Option<seq<string>>)
      requires RangeAccepted(startPos, endPos) ==> FramesDefined(tables, kind, Selection(strand, startPos, endPos))
      ensures r.None? <==> !RangeAccepted(startPos, endPos)
      ensures r.Some? ==>
        var found := AllFrameProteins(ReadingFrames(tables, kind, Selection(strand, startPos, endPos)));
        r.value == if ordered then SortByLengthDesc(found) else found
    {
      ghost var selection := Selection(strand, startPos, endPos);
      var rfs: seq<seq<char>>;
      if endPos > startPos {
        rfs := GenerateReadingFrames(Slice(strand, startPos, endPos));
      } else if endPos == startPos && startPos == 0 {
        rfs := GenerateReadingFrames(strand);
      } else {
        return None;
      }
      assert rfs == ReadingFrames(tables, kind, selection);
      var res := CollectProteins(rfs);
      if ordered {
        return Some(SortByLengthDesc(res));
      }
      return Some(res);
    }
  }
}
