/**
  The pieces of Rust's string and char library the engine relies on:
  character classes, `str::trim`, ASCII upper-casing and `str::len`
  (a UTF-8 byte count).
 */
module Text {

  /** `char::is_whitespace`: the Unicode White_Space property. */
  predicate IsWhitespace(c: char)
  {
    || ('\t' <= c <= '\r')
    || c == ' ' || c == '\U{85}' || c == '\U{A0}' || c == '\U{1680}'
    || ('\U{2000}' <= c <= '\U{200A}')
    || c == '\U{2028}' || c == '\U{2029}' || c == '\U{202F}' || c == '\U{205F}' || c == '\U{3000}'
  }

  predicate IsAscii(c: char) { c < '\U{80}' }
  predicate IsAsciiDigit(c: char) { '0' <= c <= '9' }
  predicate IsAsciiUpper(c: char) { 'A' <= c <= 'Z' }
  predicate IsAsciiLower(c: char) { 'a' <= c <= 'z' }
  predicate IsAsciiAlpha(c: char) { IsAsciiUpper(c) || IsAsciiLower(c) }
  predicate IsAsciiAlphanumeric(c: char) { IsAsciiAlpha(c) || IsAsciiDigit(c) }
  predicate IsAsciiHexDigit(c: char) { IsAsciiDigit(c) || ('a' <= c <= 'f') || ('A' <= c <= 'F') }

  /** Alphanumeric, `+`, `/` or `=`: the Base64 alphabet with its padding. */
  predicate IsBase64Char(c: char) { IsAsciiAlphanumeric(c) || c == '+' || c == '/' || c == '=' }

  predicate AllHex(s: string) { forall i :: 0 <= i < |s| ==> IsAsciiHexDigit(s[i]) }
  predicate AllAscii(s: string) { forall i :: 0 <= i < |s| ==> IsAscii(s[i]) }

  /** `char::to_ascii_uppercase`. */
  function ToAsciiUpper(c: char): (u: char)
    ensures IsAsciiAlpha(c) <==> IsAsciiUpper(u)
    ensures !IsAsciiAlpha(c) ==> u == c
    ensures IsAsciiUpper(c) ==> u == c
  {
    if IsAsciiLower(c) then (c as int - 32) as char else c
  }

  function UpperAscii(s: string): (u: string)
    ensures |u| == |s| && forall i :: 0 <= i < |s| ==> u[i] == ToAsciiUpper(s[i])
  {
    seq(|s|, i requires 0 <= i < |s| => ToAsciiUpper(s[i]))
  }

  /** The length of the leading run of whitespace. */
  function LeadingWhitespace(s: string): (k: nat)
    ensures k <= |s|
    ensures forall i :: 0 <= i < k ==> IsWhitespace(s[i])
    ensures k < |s| ==> !IsWhitespace(s[k])
  {
    if s == [] || !IsWhitespace(s[0]) then 0 else 1 + LeadingWhitespace(s[1..])
  }

  /**
    Where the trailing run of whitespace of `s[..j]` starts, not looking
    left of position `k`.
   */
  function TrailingFrom(s: string, k: nat, j: nat): (e: nat)
    requires k <= j <= |s|
    ensures k <= e <= j
    ensures forall i :: e <= i < j ==> IsWhitespace(s[i])
    ensures e > k ==> !IsWhitespace(s[e - 1])
    decreases j
  {
    if j > k && IsWhitespace(s[j - 1]) then TrailingFrom(s, k, j - 1) else j
  }

  /**
    `str::trim`: the slice of the input that remains once the whitespace at
    both ends is dropped; everything dropped is whitespace.
   */
  function Trim(s: string): (r: string)
    ensures var k := LeadingWhitespace(s);
      && k + |r| <= |s| && r == s[k..k + |r|]
      && (forall i :: 0 <= i < k ==> IsWhitespace(s[i]))
      && (forall i :: k + |r| <= i < |s| ==> IsWhitespace(s[i]))
    ensures r != [] ==> !IsWhitespace(r[0]) && !IsWhitespace(r[|r| - 1])
  {
    var k := LeadingWhitespace(s);
    s[k..TrailingFrom(s, k, |s|)]
  }

  /** A string made of whitespace only trims to the empty string. */
  lemma TrimAllWhitespace(s: string)
    requires forall i :: 0 <= i < |s| ==> IsWhitespace(s[i])
    ensures Trim(s) == []
  {
  }

  /** Number of bytes of `c` in UTF-8. */
  function Utf8Width(c: char): (w: nat)
    ensures 1 <= w <= 4 && (w == 1 <==> IsAscii(c))
  {
    if c < '\U{80}' then 1 else if c < '\U{800}' then 2 else if c < '\U{10000}' then 3 else 4
  }

  /** `str::len`: the UTF-8 byte length. */
  function Utf8Length(s: string): (n: nat)
    ensures n >= |s|
  {
    if s == [] then 0 else Utf8Length(s[..|s| - 1]) + Utf8Width(s[|s| - 1])
  }

  /** For ASCII text, bytes and characters coincide. */
  lemma {:induction false} Utf8LengthAscii(s: string)
    ensures Utf8Length(s) == |s| <==> AllAscii(s)
  {
    if s != [] {
      Utf8LengthAscii(s[..|s| - 1]);
      if Utf8Length(s) == |s| {
        assert Utf8Length(s[..|s| - 1]) >= |s| - 1;
      }
    }
  }
}
