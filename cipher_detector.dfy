/**
  The classical-cipher detector: text made of letters and whitespace is
  judged by its Index of Coincidence. An English-like index suggests a
  shift cipher (Caesar, ROT13), a slightly lower one a substitution.
 */
module CipherDetector {
  import opened Types
  import opened Text
  import opened Coincidence

  const NaturalLanguage: Evidence := Note("IC similar to natural language")
  const PossibleSubstitution: Evidence := Note("Possible substitution cipher")

  /** Only letters and whitespace. */
  predicate LettersAndSpaces(t: string)
  {
    forall i :: 0 <= i < |t| ==> IsAsciiAlpha(t[i]) || IsWhitespace(t[i])
  }

  /**
    `CipherDetector::detect`. An answer is a Caesar guess at 0.70 or a
    substitution guess at 0.65, with the index of the trimmed text as the
    first evidence line and its reading as the second.
   */
  function Detect(input: string): (r: Option<DetectionResult>)
    ensures r.Some? ==> LettersAndSpaces(Trim(input))
    ensures r.Some? ==> r.value.cipherType in {Cipher(Caesar), Cipher(Substitution)}
    ensures r.Some? ==> r.value.confidence == if r.value.cipherType == Cipher(Caesar) then 70 else 65
    ensures r.Some? ==> |r.value.evidence| == 2 && r.value.evidence[0] == IcValue(Ic(Trim(input)))
    ensures r.Some? ==>
              r.value.evidence[1] == if r.value.cipherType == Cipher(Caesar) then NaturalLanguage else PossibleSubstitution
  {
    var t := Trim(input);
    if !LettersAndSpaces(t) then None
    else
      var ic := Ic(t);
      if IsLikelyEnglish(t) then
        Some(NewResult(Cipher(Caesar), 70).WithEvidence(IcValue(ic)).WithEvidence(NaturalLanguage))
      else if ic > 0.055 && ic < 0.075 then
        Some(NewResult(Cipher(Substitution), 65).WithEvidence(IcValue(ic)).WithEvidence(PossibleSubstitution))
      else None
  }

  /** `detect` answers with cipher `c`. */
  predicate Reports(input: string, c: ClassicalCipher)
  {
    Detect(input).Some? && Detect(input).value.cipherType == Cipher(c)
  }

  /**
    The index bands: Caesar exactly on (0.06, 0.08); substitution exactly
    on (0.055, 0.06], because its nominal band (0.055, 0.075) is checked
    after the Caesar band; nothing outside (0.055, 0.08).
   */
  lemma Bands(input: string)
    ensures var t := Trim(input);
      && (Reports(input, Caesar) <==> LettersAndSpaces(t) && 0.06 < Ic(t) < 0.08)
      && (Reports(input, Substitution) <==> LettersAndSpaces(t) && 0.055 < Ic(t) <= 0.06)
      && (Ic(t) <= 0.055 || Ic(t) >= 0.08 ==> Detect(input).None?)
  {
  }

  /** Text with fewer than two letters has index 0 and gets no answer. */
  lemma TooFewLetters(input: string)
    requires LetterCount(Trim(input)) <= 1
    ensures Detect(input).None?
  {
    Bands(input);
  }

  /** A text repeating one letter has index 1, far above the English band. */
  lemma OneLetterRepeated(input: string, k: nat)
    requires k < 26 && LetterCount(Trim(input)) >= 2
    requires forall i :: 0 <= i < |Trim(input)| && IsAsciiAlpha(Trim(input)[i]) ==> LetterIndex(Trim(input)[i]) == k
    ensures Detect(input).None?
  {
    IcSingleLetter(Trim(input), k);
    Bands(input);
  }
}
