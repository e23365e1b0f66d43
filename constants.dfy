/** The DNA alphabet and its complement table (constants.py). */
module Constants {

  /** Adenine, Guanine, Thymine and Cytosine, in the order the source lists them. */
  const Nucleotides: seq<char> := ['A', 'G', 'T', 'C']

  /** Each nucleotide mapped to the one it pairs with. */
  const NucComplements: map<char, char> := map['A' := 'T', 'G' := 'C', 'T' := 'A', 'C' := 'G']

  lemma NucleotidesAreFourDistinctSymbols()
    ensures |Nucleotides| == 4
    ensures forall i, j | 0 <= i < j < |Nucleotides| :: Nucleotides[i] != Nucleotides[j]
    ensures (set c | c in Nucleotides) == {'A', 'G', 'T', 'C'}
  {
  }

  lemma ComplementsTotalOnNucleotides()
    ensures NucComplements.Keys == set c | c in Nucleotides
    ensures forall c | c in NucComplements :: NucComplements[c] in Nucleotides
  {
  }

  lemma ComplementIsInvolution()
    ensures forall c | c in NucComplements ::
      NucComplements[c] in NucComplements && NucComplements[NucComplements[c]] == c
  {
  }

  lemma ComplementPairsAreAtAndGc()
    ensures forall c | c in NucComplements :: NucComplements[c] != c
    ensures NucComplements['A'] == 'T' && NucComplements['T'] == 'A'
    ensures NucComplements['G'] == 'C' && NucComplements['C'] == 'G'
  {
  }
}
