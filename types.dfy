/**
  The classification taxonomy and the result value every detector returns.
  Confidences are fixed priors; they are kept as integer hundredths
  (95 stands for 0.95) so that comparison and sorting are exact.
 */
module Types {

  datatype Option<+T> = None | Some(value: T)

  datatype HashType =
    | MD5 | SHA1 | SHA224 | SHA256 | SHA384 | SHA512
    | SHA3_224 | SHA3_256 | SHA3_384 | SHA3_512
    | BLAKE2b | BLAKE2s | RIPEMD160 | Whirlpool

  /** Base32, URL and HTML belong to the taxonomy but no detector produces them. */
  datatype EncodingType = Base64 | Base32 | Hex | Binary | Morse | URL | HTML

  /** Only Caesar and Substitution are produced by a detector. */
  datatype ClassicalCipher = Caesar | Vigenere | Atbash | ROT13 | Substitution

  datatype CipherType =
    | Hash(hash: HashType)
    | Encoding(encoding: EncodingType)
    | Cipher(cipher: ClassicalCipher)
    | Unknown

  /**
    One line of evidence. The formatted text of the original is kept as a
    token: the fixed sentences verbatim, the formatted ones by what they show.
   */
  datatype Evidence =
    | Note(text: string)                       // a fixed sentence
    | MatchesLength(hash: HashType)            // "Matches <type> length"
    | MatchesNamedLength(name: string, len: nat) // "Matches <name> length (<len>)"
    | IcValue(ic: real)                        // "Index of Coincidence: <ic>"

  datatype DetectionResult = DetectionResult(
    cipherType: CipherType,
    confidence: nat,          // hundredths
    evidence: seq<Evidence>)
  {
    /** Builder step: append one evidence line at the end. */
    function WithEvidence(e: Evidence): (r: DetectionResult)
      ensures r.cipherType == cipherType && r.confidence == confidence
      ensures |r.evidence| == |evidence| + 1
      ensures r.evidence[..|evidence|] == evidence && r.evidence[|evidence|] == e
    {
      DetectionResult(cipherType, confidence, evidence + [e])
    }
  }

  /** A fresh result: the given type and confidence, no evidence yet. */
  function NewResult(t: CipherType, confidence: nat): (r: DetectionResult)
    ensures r.cipherType == t && r.confidence == confidence && r.evidence == []
  {
    DetectionResult(t, confidence, [])
  }

  /** Appending several lines one after the other, in order. */
  function WithAll(r: DetectionResult, es: seq<Evidence>): DetectionResult
    decreases |es|
  {
    if es == [] then r else WithAll(r.WithEvidence(es[0]), es[1..])
  }

  /**
    Repeated appends keep every earlier line in place and add the new lines
    at the end in the order given, with no deduplication.
   */
  lemma {:induction false} WithAllAppends(r: DetectionResult, es: seq<Evidence>)
    ensures WithAll(r, es).cipherType == r.cipherType
    ensures WithAll(r, es).confidence == r.confidence
    ensures WithAll(r, es).evidence == r.evidence + es
    decreases |es|
  {
    if es != [] {
      WithAllAppends(r.WithEvidence(es[0]), es[1..]);
      assert r.evidence + [es[0]] + es[1..] == r.evidence + es;
    }
  }

  /** The sort key used by every ranking: the confidence. */
  function Conf(r: DetectionResult): int
  {
    r.confidence
  }

  /**
    CipherType equality is structural: two Hash values are equal exactly
    when their hash types are, and different variants never compare equal.
   */
  lemma CipherTypeEquality(a: HashType, b: HashType, e: EncodingType, c: ClassicalCipher)
    ensures Hash(a) == Hash(b) <==> a == b
    ensures Hash(a) != Encoding(e) && Hash(a) != Cipher(c) && Hash(a) != Unknown
    ensures Encoding(e) != Cipher(c) && Encoding(e) != Unknown && Cipher(c) != Unknown
  {
  }

  /**
    Published digest size in bits of each algorithm. This is an independent
    reference for the length tables of the signature search and the hash
    detector: a hex digest of an algorithm has DigestBits / 4 characters.
   */
  function DigestBits(h: HashType): nat
  {
    match h
    case MD5 => 128
    case SHA1 => 160
    case RIPEMD160 => 160
    case SHA224 => 224
    case SHA3_224 => 224
    case SHA256 => 256
    case SHA3_256 => 256
    case BLAKE2s => 256
    case SHA384 => 384
    case SHA3_384 => 384
    case SHA512 => 512
    case SHA3_512 => 512
    case BLAKE2b => 512
    case Whirlpool => 512
  }

  /**
    A count looked up in a character-count map, 0 for a character never
    inserted: `get(&c).copied().unwrap_or(0)`, and the value that
    `entry(c).or_insert(0)` starts from.
   */
  function Get(m: map<char, nat>, c: char): nat
  {
    if c in m then m[c] else 0
  }
}
