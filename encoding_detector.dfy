/**
  The encoding detector: the trimmed input is checked for Base64, hex,
  binary and Morse text in that order, and the first test that passes
  decides the answer.
 */
module EncodingDetector {
  import opened Types
  import opened Text
  import opened Signature
  import opened Frequency

  const Base64Charset: Evidence := Note("Valid Base64 character set")
  const Base64Padding: Evidence := Note("Correct padding")
  const HexDigits: Evidence := Note("Hexadecimal characters only")
  const EvenLength: Evidence := Note("Even length")
  const BinaryDigits: Evidence := Note("Binary characters only")
  const MorseMarks: Evidence := Note("Morse code characters detected")

  /**
    `EncodingDetector::detect`. Every answer is an encoding with confidence
    0.90 or 0.85: Base64 and binary at 0.90, hex and Morse at 0.85, with
    the evidence lines of that branch in order.
   */
  function Detect(input: string): (r: Option<DetectionResult>)
    ensures r.Some? ==> r.value.cipherType.Encoding? && r.value.evidence != []
    ensures r.Some? ==> r.value.confidence == if r.value.cipherType.encoding in {Base64, Binary} then 90 else 85
    ensures r.Some? ==> r.value.cipherType.encoding in {Base64, Hex, Binary, Morse}
    ensures r.Some? && r.value.cipherType.encoding == Base64 ==> r.value.evidence == [Base64Charset, Base64Padding]
    ensures r.Some? && r.value.cipherType.encoding == Hex ==> r.value.evidence == [HexDigits, EvenLength]
  {
    var t := Trim(input);
    var freq := Analyze(t);
    if CheckBase64Signature(t) then
      Some(NewResult(Encoding(Base64), 90).WithEvidence(Base64Charset).WithEvidence(Base64Padding))
    else if IsHexOnly(freq) && Utf8Length(t) % 2 == 0 then
      Some(NewResult(Encoding(Hex), 85).WithEvidence(HexDigits).WithEvidence(EvenLength))
    else if CheckBinarySignature(t) then
      Some(NewResult(Encoding(Binary), 90).WithEvidence(BinaryDigits))
    else if CheckMorseSignature(t) then
      Some(NewResult(Encoding(Morse), 85).WithEvidence(MorseMarks))
    else None
  }

  /** `detect` answers with encoding `e`. */
  predicate Reports(input: string, e: EncodingType)
  {
    Detect(input).Some? && Detect(input).value.cipherType == Encoding(e)
  }

  /**
    The tests run in priority order: an answer is given only when every
    earlier test failed, and there is no answer only when all four fail.
   */
  lemma PriorityOrder(input: string)
    ensures var t := Trim(input);
      && (Reports(input, Base64) <==> CheckBase64Signature(t))
      && (Reports(input, Hex) ==> !CheckBase64Signature(t) && AllHex(t) && |t| % 2 == 0)
      && (Reports(input, Binary) ==> !CheckBase64Signature(t) && !Reports(input, Hex) && CheckBinarySignature(t))
      && (Reports(input, Morse) ==> !CheckBase64Signature(t) && !CheckBinarySignature(t) && CheckMorseSignature(t))
      && (Detect(input).None? <==>
            !CheckBase64Signature(t) && !(AllHex(t) && |t| % 2 == 0)
            && !CheckBinarySignature(t) && !CheckMorseSignature(t))
  {
    var t := Trim(input);
    CharsetQueriesOfText(t);
    if AllHex(t) {
      HexIsAscii(t);
    }
  }

  /**
    Base64 is reported exactly when the trimmed text has a length that is a
    multiple of 4, uses only the Base64 alphabet and does not end in three
    `=`; in particular never when the length is not a multiple of 4.
   */
  lemma ReportsBase64Iff(input: string)
    ensures var t := Trim(input);
      Reports(input, Base64) <==>
        && |t| % 4 == 0
        && (forall i :: 0 <= i < |t| ==> IsBase64Char(t[i]))
        && !(|t| >= 3 && t[|t| - 3..] == "===")
    ensures |Trim(input)| % 4 != 0 ==> !Reports(input, Base64)
  {
    Base64SignatureIff(Trim(input));
  }

  /** For text of hex digits only, the Base64 test comes down to the length. */
  lemma HexIsBase64Exactly(t: string)
    requires AllHex(t)
    ensures CheckBase64Signature(t) <==> |t| % 4 == 0
  {
    Base64SignatureIff(t);
    if |t| >= 3 {
      assert t[|t| - 3..][2] == t[|t| - 1];
    }
  }

  /**
    Hex is reported exactly when the trimmed text is all hex digits and its
    length is 2 more than a multiple of 4: an even length that is a
    multiple of 4 is taken by the Base64 test first.
   */
  lemma ReportsHexIff(input: string)
    ensures var t := Trim(input); Reports(input, Hex) <==> AllHex(t) && |t| % 4 == 2
  {
    var t := Trim(input);
    PriorityOrder(input);
    if AllHex(t) {
      HexIsBase64Exactly(t);
      HexIsAscii(t);
      CharsetQueriesOfText(t);
      EvenQuarters(|t|);
    }
  }

  lemma EvenQuarters(n: nat)
    ensures n % 4 == 2 <==> n % 2 == 0 && n % 4 != 0
  {
  }

  /** Empty or all-whitespace input trims to the empty string, which passes as Base64. */
  lemma BlankInputIsBase64(input: string)
    requires forall i :: 0 <= i < |input| ==> IsWhitespace(input[i])
    ensures Detect(input) == Some(DetectionResult(Encoding(Base64), 90, [Base64Charset, Base64Padding]))
  {
    TrimAllWhitespace(input);
    EmptyPassesSignatures();
  }

  /**
    A binary answer for text without spaces has an odd length: a run of
    `0` and `1` of even length is hex text, taken by Base64 or hex first.
   */
  lemma BinaryWithoutSpacesIsOdd(input: string)
    requires Reports(input, Binary)
    requires forall i :: 0 <= i < |Trim(input)| ==> Trim(input)[i] != ' '
    ensures |Trim(input)| % 2 == 1
  {
    var t := Trim(input);
    PriorityOrder(input);
    ReportsHexIff(input);
    assert AllHex(t);
    HexIsBase64Exactly(t);
    OddFromQuarters(|t|);
  }

  lemma OddFromQuarters(n: nat)
    requires n % 4 != 0 && n % 4 != 2
    ensures n % 2 == 1
  {
  }

  /**
    A Morse answer is never all spaces: the trimmed text starts with a
    dot, a dash or a slash.
   */
  lemma MorseStartsWithMark(input: string)
    requires Reports(input, Morse)
    ensures var t := Trim(input); t != [] && t[0] in {'.', '-', '/'}
  {
    var t := Trim(input);
    PriorityOrder(input);
    if t == [] {
      EmptyPassesSignatures();
    }
  }
}
