/**
  Signature search: structural predicates that need no statistics. A hex
  length table for hash digests, and charset/padding checks for Base64,
  binary and Morse text.
 */
module Signature {
  import opened Types
  import opened Text

  /** The candidate hash names for a hex digest of `len` characters, in table order. */
  function HashNamesForLength(len: nat): Option<seq<string>>
  {
    match len
    case 32 => Some(["MD5"])
    case 40 => Some(["SHA1", "RIPEMD160"])
    case 56 => Some(["SHA224", "SHA3-224"])
    case 64 => Some(["SHA256", "SHA3-256", "BLAKE2s"])
    case 96 => Some(["SHA384", "SHA3-384"])
    case 128 => Some(["SHA512", "SHA3-512", "BLAKE2b", "Whirlpool"])
    case _ => None
  }

  /**
    `check_hash_length`: the candidate names for a hex string, by its byte
    length. Non-hex text and lengths outside the table give None; a Some
    list is never empty (the original's empty-list guard never fires).
   */
  function CheckHashLength(text: string): (r: Option<seq<string>>)
    ensures !AllHex(text) ==> r == None
    ensures r.Some? ==> 1 <= |r.value| <= 4
    ensures r.Some? ==> |text| in {32, 40, 56, 64, 96, 128}
  {
    if !AllHex(text) then None
    else
      HexIsAscii(text);
      HashNamesForLength(Utf8Length(text))
  }

  /** Hex digits are ASCII, so for hex text the byte length is the character count. */
  lemma HexIsAscii(text: string)
    requires AllHex(text)
    ensures Utf8Length(text) == |text|
  {
    Utf8LengthAscii(text);
  }

  /** The algorithm a candidate name stands for (the names the table uses). */
  function NamedHash(name: string): Option<HashType>
  {
    match name
    case "MD5" => Some(MD5)
    case "SHA1" => Some(SHA1)
    case "SHA224" => Some(SHA224)
    case "SHA256" => Some(SHA256)
    case "SHA384" => Some(SHA384)
    case "SHA512" => Some(SHA512)
    case "SHA3-224" => Some(SHA3_224)
    case "SHA3-256" => Some(SHA3_256)
    case "SHA3-384" => Some(SHA3_384)
    case "SHA3-512" => Some(SHA3_512)
    case "BLAKE2b" => Some(BLAKE2b)
    case "BLAKE2s" => Some(BLAKE2s)
    case "RIPEMD160" => Some(RIPEMD160)
    case "Whirlpool" => Some(Whirlpool)
    case _ => None
  }

  /**
    The table is right about digest sizes: for hex text, every candidate
    name denotes an algorithm whose digest has exactly 4 * |text| bits, and
    the names are pairwise distinct.
   */
  lemma CheckHashLengthSound(text: string)
    requires CheckHashLength(text).Some?
    ensures var names := CheckHashLength(text).value;
      && (forall i :: 0 <= i < |names| ==>
            NamedHash(names[i]).Some? && DigestBits(NamedHash(names[i]).value) == 4 * |text|)
      && (forall i, j :: 0 <= i < j < |names| ==> names[i] != names[j])
  {
    HexIsAscii(text);
  }

  /**
    The table is complete: for hex text of a listed length, every algorithm
    whose digest has 4 * |text| bits is among the candidates.
   */
  lemma CheckHashLengthComplete(text: string, h: HashType)
    requires AllHex(text) && DigestBits(h) == 4 * |text|
    ensures CheckHashLength(text).Some?
    ensures exists i :: 0 <= i < |CheckHashLength(text).value|
                     && NamedHash(CheckHashLength(text).value[i]) == Some(h)
  {
    HexIsAscii(text);
    var names := CheckHashLength(text).value;
    match h
    case MD5 => assert NamedHash(names[0]) == Some(h);
    case SHA1 => assert NamedHash(names[0]) == Some(h);
    case RIPEMD160 => assert NamedHash(names[1]) == Some(h);
    case SHA224 => assert NamedHash(names[0]) == Some(h);
    case SHA3_224 => assert NamedHash(names[1]) == Some(h);
    case SHA256 => assert NamedHash(names[0]) == Some(h);
    case SHA3_256 => assert NamedHash(names[1]) == Some(h);
    case BLAKE2s => assert NamedHash(names[2]) == Some(h);
    case SHA384 => assert NamedHash(names[0]) == Some(h);
    case SHA3_384 => assert NamedHash(names[1]) == Some(h);
    case SHA512 => assert NamedHash(names[0]) == Some(h);
    case SHA3_512 => assert NamedHash(names[1]) == Some(h);
    case BLAKE2b => assert NamedHash(names[2]) == Some(h);
    case Whirlpool => assert NamedHash(names[3]) == Some(h);
  }

  /** Length of the run of `=` at the end of `s`. */
  function TrailingPadding(s: string): (n: nat)
    ensures n <= |s|
    ensures forall i :: |s| - n <= i < |s| ==> s[i] == '='
    ensures n < |s| ==> s[|s| - n - 1] != '='
  {
    if s != [] && s[|s| - 1] == '=' then 1 + TrailingPadding(s[..|s| - 1]) else 0
  }

  /**
    `check_base64_signature`: byte length a multiple of 4, Base64 alphabet,
    at most two trailing `=`. Accepted text is ASCII, so its character
    count is a multiple of 4 too; the empty text is accepted.
   */
  predicate CheckBase64Signature(text: string): (b: bool)
    ensures b ==> AllAscii(text) && |text| % 4 == 0
    ensures text == [] ==> b
  {
    Utf8LengthAscii(text);
    && Utf8Length(text) % 4 == 0
    && (forall i :: 0 <= i < |text| ==> IsBase64Char(text[i]))
    && TrailingPadding(text) <= 2
  }

  /**
    What the Base64 check accepts, stated on characters: the length is a
    multiple of 4, every character is in the alphabet, and the text does
    not end in three `=`. An `=` anywhere else is not rejected.
   */
  lemma Base64SignatureIff(text: string)
    ensures CheckBase64Signature(text) <==>
      && |text| % 4 == 0
      && (forall i :: 0 <= i < |text| ==> IsBase64Char(text[i]))
      && !(|text| >= 3 && text[|text| - 3..] == "===")
  {
    if forall i :: 0 <= i < |text| ==> IsBase64Char(text[i]) {
      Utf8LengthAscii(text);
    }
    if |text| >= 3 && text[|text| - 3..] == "===" {
      assert text[|text| - 1] == '=' && text[|text| - 2] == '=' && text[|text| - 3] == '=';
      PaddingAtLeast(text, 3);
    }
    if TrailingPadding(text) > 2 {
      assert text[|text| - 3..] == "===";
    }
  }

  lemma {:induction false} PaddingAtLeast(s: string, k: nat)
    requires k <= |s| && forall i :: |s| - k <= i < |s| ==> s[i] == '='
    ensures TrailingPadding(s) >= k
  {
    if k > 0 {
      PaddingAtLeast(s[..|s| - 1], k - 1);
    }
  }

  /** A Base64 signature has a length that is a multiple of 4. */
  lemma Base64NeedsMultipleOfFour(text: string)
    requires |text| % 4 != 0
    ensures !CheckBase64Signature(text)
  {
    Base64SignatureIff(text);
  }

  /** Interior `=` passes, three trailing `=` fail. */
  lemma Base64PaddingExamples()
    ensures CheckBase64Signature("a=bc")
    ensures CheckBase64Signature("ab==")
    ensures !CheckBase64Signature("a===")
  {
    Base64SignatureIff("a=bc");
    Base64SignatureIff("ab==");
    Base64SignatureIff("a===");
  }

  predicate IsBinaryChar(c: char) { c == '0' || c == '1' || c == ' ' }
  predicate IsMorseChar(c: char) { c == '.' || c == '-' || c == ' ' || c == '/' }

  /**
    `check_binary_signature`: only `0`, `1` and spaces. Apart from the
    spaces, binary text is hex text; the empty text is accepted.
   */
  predicate CheckBinarySignature(text: string): (b: bool)
    ensures b ==> forall i :: 0 <= i < |text| ==> IsAsciiHexDigit(text[i]) || text[i] == ' '
    ensures text == [] ==> b
  {
    forall i :: 0 <= i < |text| ==> IsBinaryChar(text[i])
  }

  /**
    `check_morse_signature`: only `.`, `-`, spaces and `/`. Morse text has
    no letter or digit at all; the empty text is accepted.
   */
  predicate CheckMorseSignature(text: string): (b: bool)
    ensures b ==> forall i :: 0 <= i < |text| ==> !IsAsciiAlphanumeric(text[i])
    ensures text == [] ==> b
  {
    forall i :: 0 <= i < |text| ==> IsMorseChar(text[i])
  }

  /** The empty string passes all three charset checks vacuously. */
  lemma EmptyPassesSignatures()
    ensures CheckBase64Signature("") && CheckBinarySignature("") && CheckMorseSignature("")
  {
  }
}
