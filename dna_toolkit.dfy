/**
 * The stand-alone DNA helpers of DNAToolkit.py: validation, nucleotide counts
 * and transcription of a plain string. Counting and transcription first
 * validate, and give nothing for a string that is not DNA. The nucleotide list
 * of DNAToolkit.py is the same as the one of constants.py, Constants.Nucleotides.
 */
module DnaToolkit {
  import opened Wrappers
  import opened Chars
  import opened Alphabet
  import Constants

  /** Whether every upper-cased character of s is a DNA nucleotide. */
  method ValidateSequence(s: string) returns (valid: bool)
    ensures valid <==> IsValidIgnoringCase(DNA, s)
  {
    var toCheck := UpperString(s);
    for i := 0 to |toCheck|
      invariant forall j | 0 <= j < i :: toCheck[j] in Constants.Nucleotides
    {
      if toCheck[i] !in Constants.Nucleotides {
        return false;
      }
    }
    return true;
  }

  /**
   * Occurrences of A, G, T and C in s, ignoring case, zero counts included.
   * Nothing for a string that is not DNA.
   */
  method CountNuc(s: string) returns (r: Option<map<char, nat>>)
    ensures r.Some? <==> IsValidIgnoringCase(DNA, s)
    ensures r.Some? ==> r.value == SymbolCounts(DNA, UpperString(s))
  {
    var valid := ValidateSequence(s);
    if !valid {
      return None;
    }
    var freq: map<char, nat> := map['A' := 0, 'G' := 0, 'T' := 0, 'C' := 0];
    SymbolCountsEmpty(DNA);
    var toCheck := UpperString(s);
    ValidIgnoringCaseIsValidUpper(DNA, s);
    for i := 0 to |toCheck|
      invariant freq == SymbolCounts(DNA, toCheck[..i])
    {
      var nuc := toCheck[i];
      SymbolCountsSnoc(DNA, toCheck[..i], nuc);
      freq := freq[nuc := freq[nuc] + 1];
      TakeSnoc(toCheck, i);
    }
    assert toCheck[..|toCheck|] == toCheck;
    return Some(freq);
  }

  /**
   * Transcription as written: for valid DNA, every upper-case T becomes U and
   * nothing else changes, so substituting back restores the input. Validation
   * ignores case but the substitution does not, so a lower-case t is kept.
   */
  function TranscriptSequence(s: string): (r: Option<string>)
    ensures r.Some? <==> IsValidIgnoringCase(DNA, s)
    ensures r.Some? ==> |r.value| == |s| && 'T' !in r.value
    ensures r.Some? ==> forall i | 0 <= i < |s| :: r.value[i] == if s[i] == 'T' then 'U' else s[i]
    ensures r.Some? ==> Replace(r.value, 'U', 'T') == s
  {
    if IsValidIgnoringCase(DNA, s) then
      assert 'U' !in s by {
        forall i | 0 <= i < |s| ensures s[i] != 'U' {
          assert Upper(s[i]) in Constants.Nucleotides;
        }
      }
      ReplaceRoundTrip(s, 'T', 'U');
      Some(Replace(s, 'T', 'U'))
    else
      None
  }

  /** A lower-case thymine passes validation and survives transcription. */
  lemma LowercaseThymineKept()
    ensures TranscriptSequence("at") == Some("at")
  {
    var s := "at";
    assert Upper(s[0]) == 'A' && Upper(s[1]) == 'T';
    assert IsValidIgnoringCase(DNA, s);
    var r := Replace(s, 'T', 'U');
    assert |r| == 2 && r[0] == 'a' && r[1] == 't';
    assert r == s;
  }

  /**
   * Transcription that upper-cases first, as the class does on construction:
   * every valid DNA string, whatever its case, yields valid RNA.
   */
  function TranscriptSequenceUpper(s: string): (r: Option<string>)
    ensures r.Some? <==> IsValidIgnoringCase(DNA, s)
    ensures r.Some? ==> |r.value| == |s| && IsValidFor(RNA, r.value)
    ensures r.Some? ==> Replace(r.value, 'U', 'T') == UpperString(s)
  {
    if IsValidIgnoringCase(DNA, s) then
      var u := UpperString(s);
      ValidIgnoringCaseIsValidUpper(DNA, s);
      assert 'U' !in u;
      ReplaceRoundTrip(u, 'T', 'U');
      Some(Replace(u, 'T', 'U'))
    else
      None
  }
}
