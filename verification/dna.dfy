/** The sequence validator `is_dna_sequence`: a string is a DNA sequence when
    every character is one of the four canonical bases A, C, G, T
    (case-sensitive, no ambiguity codes). */
module Dna {

  /** Membership in the literal 'ACGT'. */
  predicate IsBase(c: char) {
    c == 'A' || c == 'C' || c == 'G' || c == 'T'
  }

  /** `all(base in 'ACGT' for base in sequence)`: every character is a
      base; in particular the empty string is accepted. */
  predicate IsDnaSequence(s: string) {
    forall i :: 0 <= i < |s| ==> IsBase(s[i])
  }

  /** A single character outside A, C, G, T (an 'N', a lower-case base, a
      '>') anywhere in the string makes the validator reject it, while the
      empty string is accepted. */
  lemma RejectsNonBase(s: string, i: int)
    requires 0 <= i < |s| && !IsBase(s[i])
    ensures !IsDnaSequence(s)
    ensures IsDnaSequence("")
  {
  }

  /** The validator on a few inputs: it is case-sensitive and knows no
      ambiguity codes. */
  lemma ValidatorExamples()
    ensures IsDnaSequence("ACGT") && IsDnaSequence("GATTACA")
    ensures !IsDnaSequence("acgt") && !IsDnaSequence("ACGN") && !IsDnaSequence(">seq1")
  {
    assert !IsBase("acgt"[0]);
    assert !IsBase("ACGN"[3]);
    assert !IsBase(">seq1"[0]);
  }

  /** Every substring of a DNA sequence is a DNA sequence, so every window
      the counter takes from a validated sequence is one. */
  lemma DnaSlice(s: string, i: int, j: int)
    requires IsDnaSequence(s) && 0 <= i <= j <= |s|
    ensures IsDnaSequence(s[i..j])
  {
    assert forall m :: 0 <= m < j - i ==> s[i..j][m] == s[i + m];
  }

  /** A DNA sequence contains neither a tab nor a newline, the two
      separators of the TSV output. */
  lemma DnaHasNoSeparator(s: string)
    requires IsDnaSequence(s)
    ensures '\t' !in s && '\n' !in s
  {
  }

  /** A concatenation is a DNA sequence exactly when both parts are. */
  lemma DnaConcat(a: string, b: string)
    ensures IsDnaSequence(a + b) <==> IsDnaSequence(a) && IsDnaSequence(b)
  {
    assert forall i :: 0 <= i < |a| ==> (a + b)[i] == a[i];
    assert forall i :: 0 <= i < |b| ==> (a + b)[|a| + i] == b[i];
    if IsDnaSequence(a) && IsDnaSequence(b) {
      forall i | 0 <= i < |a + b| ensures IsBase((a + b)[i]) {
        if i >= |a| {
          assert (a + b)[i] == b[i - |a|];
        }
      }
    }
  }
}
