# DNA toolkit: a verified model of the sequence-analysis core

This project models the core of the Python `dna_toolkit` in Dafny. It covers three files:

- `sequences.py`: the `sequence` class. It upper-cases and validates a nucleotide string on construction. It then offers nucleotide counts, transcription, complement and reverse complement, GC content (whole and per window), codon translation, codon frequencies, the six reading frames, and protein extraction from translated frames.
- `DNAToolkit.py`: stand-alone helpers for plain strings (validation, nucleotide counts, transcription).
- `constants.py`: the DNA alphabet and its complement table.

Modules:

- `Constants` holds the data of `constants.py` and its properties.
- `Alphabet` holds the per-type alphabet, the tables, validation and symbol counts.
- `Chars` holds Python's `upper`, `replace`, `[::-1]` and slicing on strings.
- `Transforms` covers complement, reverse complement, GC content and windows.
- `Translation` covers codons, frames and codon selection.
- `ProteinFinder` holds the protein automaton, an independent reference definition of its result, and the stable sort by length.
- `Sequences` holds the class `Sequence`, whose methods loop as the source does. Each is proved against the specification functions of the modules above.
- `DnaToolkit` holds the stand-alone helpers.

Model decisions:

- **Tables.** `sequences.py` looks symbols up in per-type tables: `nucleotide_base[type]`, `nuc_complements[type]`, `dna_codons` and `rna_codons`. The `constants.py` in the repository defines only the flat DNA list and the flat DNA complement dictionary. The model therefore uses those two as the DNA entries. The RNA alphabet is the one `count_nuc` spells out (A, G, U, C). The RNA complement table and both codon tables are abstract fields of `Alphabet.Tables`. `Alphabet.WellFormed` states what they are assumed to satisfy: total on the alphabet, or on its three-letter words.
- **KeyError lookups.** A dictionary lookup that would raise `KeyError` is excluded by a precondition: `Complementable`, `CodonsKnown` or `FramesDefined`. Lemmas (`FramesDefinedWhenValid`, `SelectionFramesDefined`) show that valid sequences always meet it when the tables are well formed and the complement table of the type maps its alphabet into itself. That holds for DNA (`Alphabet.DnaComplementClosed`) and is assumed for RNA, since `Alphabet.WellFormed` only makes the RNA complement table total on the alphabet.
- **Field names.** The fields `seq` and `label` are called `strand` and `name`, because `seq` is a Dafny keyword. `type` is called `kind`.
- **Failures.** The assertion at the end of the constructor is modelled by `Sequence.Create`, which returns `None` where Python raises `AssertionError`. The helpers that print an error and return `None` return `None` here.
- **Where the documentation and the code disagree, the model follows the code:**
  - `find_rf_proteins` keeps the start symbol and every symbol after it. The frame `MAAMC_` yields `["MAAMC", "MC"]`, not the `["AAC", "C"]` of the comment at sequences.py:224.
  - `gc_content_subseq` with a negative width returns `[]`, because Python's range is empty. A zero width raises `ValueError`, so it is a precondition.
  - `transcript` on an RNA sequence returns the fixed message string rather than failing.

## Model

| member | source | states |
|---|---|---|
| Constants.NucleotidesAreFourDistinctSymbols | constants.py:4 | the nucleotide list is exactly the four distinct symbols A, G, T, C |
| Constants.ComplementsTotalOnNucleotides | constants.py:4-6 | the complement table is defined on exactly the nucleotides and maps into them |
| Constants.ComplementIsInvolution | constants.py:6 | complementing twice gives back the nucleotide |
| Constants.ComplementPairsAreAtAndGc | constants.py:6 | no nucleotide is its own complement; the pairs are A with T and G with C |
| Alphabet.AlphabetShape | sequences.py:88-91 | each type's alphabet has four distinct symbols, all upper-case letters |
| Alphabet.DnaComplementClosed | constants.py:4-6 | the DNA complement table maps every DNA symbol to a DNA symbol |
| Alphabet.ValidationOfUpper | sequences.py:9-12 | on the upper-cased string that the constructor stores, validation ignoring case is plain membership in the alphabet |
| Alphabet.ValidIgnoringCaseIsValidUpper | sequences.py:24-31 | validation ignoring case holds iff the upper-cased string is over the alphabet |
| Alphabet.SymbolCountsEmpty | sequences.py:88-91 | before any symbol is read, every symbol of the alphabet has count 0 |
| Alphabet.SymbolCountsSnoc | sequences.py:94-95 | reading one more symbol adds one to its count and changes no other count |
| Alphabet.SymbolCountsSum | sequences.py:86-96 | on a valid sequence the counts of the four symbols add up to its length |
| Alphabet.SymbolCountsMeaning | sequences.py:86-96 | the count map has exactly the four alphabet symbols as keys, each mapped to its number of occurrences; on a valid sequence the values sum to its length |
| Chars.UpperString | sequences.py:9 | upper-casing keeps the length and upper-cases each character in place |
| Chars.UpperIdempotent | sequences.py:27 | upper-casing an upper-cased string changes nothing |
| Chars.Replace | sequences.py:103 | replacement keeps the length; each occurrence of the old symbol becomes the new one and every other character stays |
| Chars.ReplaceRoundTrip | sequences.py:103 | if the new symbol did not occur in the string, replacing back restores it |
| Chars.Reverse | sequences.py:120 | reversal keeps the length and puts position i at position len-1-i |
| Chars.ReverseInvolution | sequences.py:120 | reversing twice gives back the input |
| Chars.TwoCountsBound | sequences.py:125 | two distinct symbols together occur at most len times |
| Chars.ClampIndex | sequences.py:235 | a Python slice bound, after negative indexing and clamping, lies within [0, len] |
| Chars.Slice | sequences.py:235 | a Python slice is no longer than the string and holds only its characters |
| Chars.ClampIndexCases | sequences.py:235 | a slice bound in range is kept, a negative one counts from the end, one past the end stops at the end, one before the start stops at 0 |
| Chars.SliceInRange | sequences.py:235 | with 0 <= a <= b <= len, s[a:b] is the plain subsequence from a to b |
| Chars.SliceFromEnd | sequences.py:235 | a negative start within the length and an end at or past the end give the last -a symbols |
| Chars.SliceCrossed | sequences.py:235 | bounds that meet or cross once resolved give the empty string |
| Transforms.Complemented | sequences.py:108-115 | the complement keeps the length and puts table[upper(s[i])] at position i |
| Transforms.ReverseComplemented | sequences.py:118-120 | the reverse complement is the complement reversed: position i holds the complement of s[len-1-i] |
| Transforms.ComplementOfDnaIsDna | sequences.py:108-120 | valid DNA can be complemented, and its complement and reverse complement are valid DNA |
| Transforms.ValidIsUpper | sequences.py:9-14 | a valid sequence is unchanged by upper-casing |
| Transforms.UpperDnaComplementable | sequences.py:114 | upper-case DNA can be looked up in the complement table |
| Transforms.DoubleComplement | constants.py:6 | complementing an upper-cased nucleotide twice gives back its upper-case form |
| Transforms.ComplementInvolution | sequences.py:108-115 | complementing valid DNA twice gives back its upper-cased form |
| Transforms.ReverseComplementInvolution | sequences.py:118-120 | taking the reverse complement of valid DNA twice gives back its upper-cased form |
| Transforms.GcCount | sequences.py:125 | the number of G and C symbols is at most the length |
| Transforms.RoundHalfEven | sequences.py:125 | Python's round of n/d on exact rationals: within one half of n/d, and even at an exact tie (built on the floor quotient `Quotient`) |
| Transforms.PercentBounds | sequences.py:125 | a rounded percentage of a fraction in [0, 1] lies in [0, 100]: 0 for none, 100 for all |
| Transforms.GcContent | sequences.py:123-125 | GC content of a non-empty string: the nearest whole percentage to 100*gc/len, in [0, 100]; 0 with no G or C, 100 when all are G or C |
| Transforms.Windows | sequences.py:135-137 | every window has exactly the window width |
| Transforms.WindowsCount | sequences.py:135 | there are floor(len/w) windows: as many as fit, with the remainder dropped |
| Transforms.WindowAt | sequences.py:135-137 | window k is the slice from k*w to k*w + w |
| Transforms.TranscriptionRoundTrip | sequences.py:100-105 | transcribing valid DNA gives valid RNA, and replacing U by T restores the DNA |
| Translation.TranslatedLength | sequences.py:142-153 | the frame from offset p has floor((len-p)/3) symbols when p <= len, else none |
| Translation.TranslatedAt | sequences.py:148-152 | symbol k of the frame from offset p is the table entry of the codon at p + 3k |
| Translation.CodonsKnownWhenValid | sequences.py:150-152 | a codon table total on the alphabet never misses a codon of a valid sequence |
| Translation.ReadingFrames | sequences.py:184-196 | there are exactly six frames |
| Translation.ReadingFramesOrder | sequences.py:188-194 | frames 0, 1, 2 translate s from offsets 0, 1, 2, and frames 3, 4, 5 translate its reverse complement from offsets 0, 1, 2 |
| Translation.ReadingFramesLengths | sequences.py:184-196 | frames 0-2 have one symbol per whole codon after offsets 0, 1, 2; each reverse-complement frame is as long as the forward frame with the same offset |
| Translation.FramesDefinedWhenValid | sequences.py:184-196 | valid sequences have all six frames defined when the tables are well formed and the complement table maps the alphabet into itself (always so for DNA, assumed for RNA) |
| Translation.SelectedCodonsStep | sequences.py:160-171 | one step of the codon scan: the codon at p, if it encodes the amino acid, then the rest |
| Translation.SelectedCodonsEncode | sequences.py:160-171 | every selected codon is a three-letter table key that encodes the amino acid |
| Translation.SelectedCodonsCount | sequences.py:160-171 | one codon is selected per occurrence of the amino acid in the translated frame |
| Translation.SelectedCodonsComplete | sequences.py:160-171 | every codon of the frame that encodes the amino acid is selected |
| ProteinFinder.ExtendAll | sequences.py:225-226 | every open accumulator is extended by the symbol, and their number is unchanged |
| ProteinFinder.StartSuffixes | sequences.py:219-221 | one start suffix per start symbol of the segment |
| ProteinFinder.StartSuffixAt | sequences.py:219-226 | each start suffix is a non-empty suffix of the segment beginning with M |
| ProteinFinder.StartSuffixesShrink | sequences.py:219-226 | start suffixes come longest first |
| ProteinFinder.FirstStop | sequences.py:207 | the first stop position: a stop is there (if any), and none before it |
| ProteinFinder.RunAppend | sequences.py:205 | running over a + b is running over a, then over b |
| ProteinFinder.RunStopFree | sequences.py:217-226 | over a stop-free segment, the open accumulators grow by the segment, its start suffixes open after them, and nothing is reported |
| ProteinFinder.RunThroughStop | sequences.py:207-216 | a stop-free segment closed by a stop reports the segment's start suffixes |
| ProteinFinder.RunMatchesReference | sequences.py:199-228 | the finder reports exactly the reference proteins, appended to those already reported |
| ProteinFinder.ProteinsMatchReference | sequences.py:199-228 | find_rf_proteins equals the reference: for each stop-terminated segment, its suffixes that begin with M, longest first |
| ProteinFinder.ReferenceShape | sequences.py:199-228 | every reference protein is non-empty, starts with M and holds no stop |
| ProteinFinder.ReferenceCount | sequences.py:199-228 | there are at most as many reference proteins as M symbols |
| ProteinFinder.ProteinsShapeAndCount | sequences.py:199-228 | every reported protein starts with M and holds no stop, and at most one is reported per M |
| ProteinFinder.UnterminatedTailDropped | sequences.py:205-228 | a stop-free tail adds nothing: accumulators open at the end are not reported |
| ProteinFinder.StopWithNothingOpen | sequences.py:207-210 | a stop with no open accumulator changes nothing |
| ProteinFinder.SinceLastStop | sequences.py:205-216 | the text since the last stop holds no stop |
| ProteinFinder.OpenAfterRun | sequences.py:201-226 | the open accumulators after any prefix are the start suffixes of the text since the last stop |
| ProteinFinder.StartSuffixesChained | sequences.py:219-226 | start suffixes are chained: each begins with M, and each later one is a proper suffix of every earlier one |
| ProteinFinder.FlushAtStop | sequences.py:207-216 | a stop reports the open accumulators in start order, each later-started one a suffix of the earlier ones, and closes them |
| ProteinFinder.NestedStartsExample | sequences.py:223-226 | the frame MAAMC_ yields MAAMC, then MC |
| ProteinFinder.AllFrameProteinsShape | sequences.py:244-248 | every protein gathered from any frame starts with M and holds no stop |
| ProteinFinder.InsertByLength | sequences.py:253 | inserting adds exactly the one element (multiset) |
| ProteinFinder.InsertBounded | sequences.py:253 | inserting an element within a length bound keeps every element within it |
| ProteinFinder.InsertKeepsOrder | sequences.py:253 | inserting into a list of non-increasing lengths keeps it non-increasing |
| ProteinFinder.InsertStable | sequences.py:253 | the inserted element comes first among the elements of its length |
| ProteinFinder.SortByLengthDesc | sequences.py:253 | the sorted list is a permutation of the input |
| ProteinFinder.SortOrdersByLength | sequences.py:253 | the sorted list has non-increasing lengths |
| ProteinFinder.SortIsStable | sequences.py:253 | elements of equal length keep their original relative order |
| Sequences.Selection | sequences.py:234-238 | the selected range holds only characters of the sequence |
| Sequences.SelectionCases | sequences.py:234-238 | both bounds 0 select the whole sequence; bounds 0 <= startPos < endPos <= len select exactly that part |
| Sequences.SelectionFramesDefined | sequences.py:234-238 | any selection of a valid sequence has all six frames defined when the tables are well formed and the complement table maps the alphabet into itself (always so for DNA, assumed for RNA) |
| Sequences.FrequenciesMeaning | sequences.py:175 | the Counter's keys are exactly the listed codons, each mapped to its positive number of occurrences |
| Sequences.FrequenciesSnoc | sequences.py:175 | counting one more occurrence adds one to its count, starting from zero |
| Sequences.Tally | sequences.py:175 | the one-pass count equals the occurrence map of the list |
| Sequences.SelectionAdvances | sequences.py:160-171 | one pass of the codon scan keeps the list taken so far plus the selection still to come |
| Sequences.SelectionEnds | sequences.py:160 | with no whole codon left, nothing more is selected |
| Sequences.CodonFrequencyKeys | sequences.py:156-175 | every codon counted by codon_frequency is a three-letter word that encodes the amino acid |
| Sequences.Sequence.constructor | sequences.py:8-12 | stores the upper-cased string, the name and the type; is_valid holds iff the stored string is over the type's alphabet |
| Sequences.Sequence.Create | sequences.py:8-14 | an object is produced iff the upper-cased string is valid for the type, and then it is valid with the given fields |
| Sequences.Sequence.Validate | sequences.py:24-31 | true iff every upper-cased character is in the type's alphabet (the empty string included) |
| Sequences.Sequence.CountNuc | sequences.py:86-96 | the map from each symbol of the type's alphabet to its occurrences in the sequence |
| Sequences.Sequence.Transcript | sequences.py:100-105 | DNA: same length, every T turned to U and nothing else changed, no T left; from valid DNA, valid RNA that U to T restores. RNA: the fixed message |
| Sequences.Sequence.Complement | sequences.py:108-115 | same length, with the table entry of upper(s[i]) at position i |
| Sequences.Sequence.ReverseComplement | sequences.py:118-120 | the complement reversed |
| Sequences.Sequence.GcContentSubseq | sequences.py:129-139 | for w >= 1, the GC content of each whole window from the left, in order; for w < 0, nothing |
| Sequences.Sequence.Translate | sequences.py:142-153 | the amino acids of the codons at initPos, initPos+3, ... that fit |
| Sequences.Sequence.CodonsEncoding | sequences.py:158-171 | the codons of frame 0 that encode the amino acid, in reading order, repeats kept |
| Sequences.Sequence.CodonFrequency | sequences.py:156-175 | the occurrence count of each distinct codon of frame 0 that encodes the amino acid |
| Sequences.Sequence.GenerateReadingFrames | sequences.py:184-196 | the six frames: offsets 0, 1, 2 of s, then offsets 0, 1, 2 of its reverse complement |
| Sequences.Sequence.FindRfProteins | sequences.py:199-228 | the loop computes exactly the automaton's reported proteins |
| Sequences.Sequence.CollectProteins | sequences.py:244-248 | the proteins of each frame, concatenated in frame order |
| Sequences.Sequence.AllProteins | sequences.py:231-254 | None iff the range is refused; otherwise the proteins of the six frames of the selection in frame order, or stably sorted by decreasing length when ordered |
| DnaToolkit.ValidateSequence | DNAToolkit.py:19-25 | true iff every upper-cased character is A, G, T or C (the empty string included) |
| DnaToolkit.CountNuc | DNAToolkit.py:28-40 | None iff the string is invalid; otherwise keys A, G, T, C with case-insensitive occurrence counts |
| DnaToolkit.TranscriptSequence | DNAToolkit.py:44-49 | None iff invalid; otherwise same length, every upper-case T turned to U and every other character (lower-case t included) kept, with U to T restoring the input |
| DnaToolkit.LowercaseThymineKept | DNAToolkit.py:44-47 | the valid input "at" is transcribed to "at" |
| DnaToolkit.TranscriptSequenceUpper | DNAToolkit.py:44-49 | with upper-casing first: None iff invalid; otherwise valid RNA of the same length, which U to T turns into the upper-cased input |

## Left out

- `print_info` and `__describe` (sequences.py:34-81), and `print_information` (DNAToolkit.py:8-15), are console output only.
- The printed error messages in `count_nuc`, `transcript_sequence` and `all_proteins` are left out. Only the `None` result is modelled.
- `generate` (sequences.py:17-20) draws random symbols and is not modelled.
- `coloured` (utilities.py) is terminal colouring, and the demo script main.py is not part of the library. Neither is modelled.
- Sequences.Sequence.CodonFrequency: returns the integer counts. The source then divides each count by the total and rounds to two decimals in floating point (sequences.py:176-181); that step is left out.
- Transforms.GcContent: requires a non-empty string. On an empty string `gc_content` divides by zero and raises `ZeroDivisionError` (sequences.py:125). `gc_content_subseq` never calls it on an empty window, because its width is at least 1.
- Transforms.GcContent: computed exactly, rounded half to even. The source computes `(gc / len) * 100` in binary floating point before `round`. At values that are exact ties in the rationals, the float result can fall on either side of the tie. For example, with 23 G/C symbols in 40, `(23 / 40) * 100` is 57.49999999999999 in double precision, so the source gives 57 where the exact model gives 58.
- The `is` comparison of amino acids at sequences.py:165 and 169 is modelled as equality. The symbols are single characters.
- Chars.Upper: upper-cases ASCII letters only. Python's `str.upper` also maps other Unicode letters, and some of them to several characters.
- Dictionary key order of the count maps and of `Counter` is not modelled. Maps are unordered here.
- Type strings other than "DNA" and "RNA" are not modelled; the type is a two-valued datatype here. In the source, such a type makes construction raise `KeyError` at the alphabet lookup (sequences.py:29) for a non-empty string. For the empty string that lookup never runs, so construction succeeds; `count_nuc` then raises `UnboundLocalError` because its dictionary is never bound (sequences.py:88-95), and `transcript` returns the fixed message.
- Default arguments of the constructor are not modelled. Every argument is explicit.
- Sequences.Sequence.Translate: `initPos` is a natural number, so the source's behaviour for a negative `init_pos` is not modelled. There, the loop at sequences.py:148 steps through negative positions. On any string of two or more symbols it reaches -3, -2 or -1, where the slice `seq[pos:pos+3]` holds fewer than three symbols. Looking that slice up in a codon table keyed by codons raises `KeyError`.
- Sequences.Sequence.CountNuc: requires a valid object. A string outside the alphabet can only reach `count_nuc` if the constructor's assertion is disabled, and it would then raise `KeyError`.
- The contents of the codon tables and of the RNA complement table are not in the repository's `constants.py`. They are kept abstract, constrained only by `Alphabet.WellFormed`.
- Complement, reverse complement and translation on strings that would make a lookup raise `KeyError` are excluded by their preconditions. Python raises an exception for them.

## Findings

| source | as written | input that shows it | evidently intended | confidence | as-written member | corrected member |
|---|---|---|---|---|---|---|
| DNAToolkit.py:44-47 | validation ignores case, but the replacement of T by U does not, so a lower-case thymine is never transcribed | `"at"` is valid and is returned unchanged as `"at"`, so the result still contains a thymine | transcribe after upper-casing, as the class does on construction, giving `"AU"` | medium, not executed | DnaToolkit.LowercaseThymineKept | DnaToolkit.TranscriptSequenceUpper |
