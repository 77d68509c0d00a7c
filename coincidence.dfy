/**
  The Index of Coincidence: the chance that two letters drawn from the text
  are the same letter, sum f(f-1) / (n(n-1)) over the letter counts f of a
  text with n letters. The original computes it in f64; here it is the
  exact rational, compared with the same thresholds as exact rationals.
  The original's letter counter is an i32, so its denominator wraps around
  on long texts; `IcAsWritten` models that, and `Ic` is the index as
  intended, which the detectors use.
 */
module Coincidence {
  import opened Types
  import opened Text
  import opened Quotient

  /** The empty letter histogram. */
  const Zeros: seq<nat> := [0, 0, 0, 0, 0, 0, 0, 0, 0, 0, 0, 0, 0, 0, 0, 0, 0, 0, 0, 0, 0, 0, 0, 0, 0, 0]

  /** Position of a letter in the alphabet, ignoring case. */
  function LetterIndex(c: char): (k: nat)
    requires IsAsciiAlpha(c)
    ensures k < 26
  {
    ToAsciiUpper(c) as int - 'A' as int
  }

  /** The k-th upper-case letter. */
  function Letter(k: nat): (c: char)
    requires k < 26
    ensures IsAsciiUpper(c) && LetterIndex(c) == k
  {
    ('A' as int + k) as char
  }

  /**
    The letter histogram: entry k counts the k-th letter, in either case.
    Its counts add up to the number of letters.
   */
  function Tally(t: string): (h: seq<nat>)
    ensures |h| == 26 && Sum(h) == LetterCount(t)
  {
    if t == [] then
      ZeroSums(Zeros);
      Zeros
    else
      var h := Tally(t[..|t| - 1]);
      var c := t[|t| - 1];
      if IsAsciiAlpha(c) then
        SumIncrement(h, LetterIndex(c));
        h[LetterIndex(c) := h[LetterIndex(c)] + 1]
      else h
  }

  /** Number of ASCII letters in `t`. */
  function LetterCount(t: string): nat
  {
    if t == [] then 0
    else LetterCount(t[..|t| - 1]) + if IsAsciiAlpha(t[|t| - 1]) then 1 else 0
  }

  function Sum(h: seq<nat>): nat
  {
    if h == [] then 0 else Sum(h[..|h| - 1]) + h[|h| - 1]
  }

  /** f(f-1), the ordered pairs of equal letters among f copies. */
  function Pairs(f: nat): nat
  {
    if f == 0 then 0 else f * (f - 1)
  }

  function PairSum(h: seq<nat>): nat
  {
    if h == [] then 0 else PairSum(h[..|h| - 1]) + Pairs(h[|h| - 1])
  }

  /**
    `CoincidenceIndex::calculate` as intended: 0 when there are fewer than
    two letters, else the pair ratio of the letter histogram of the
    upper-cased text. It is a probability.
   */
  function Ic(text: string): (ic: real)
    ensures 0.0 <= ic <= 1.0
    ensures LetterCount(text) <= 1 ==> ic == 0.0
  {
    var h := Tally(UpperAscii(text));
    var n := Sum(h);
    LetterCountUpper(text);
    if n <= 1 then 0.0
    else
      PairSumBound(h);
      PairsPositive(n);
      RatioAtMostOne(PairSum(h), Pairs(n));
      PairSum(h) as real / Pairs(n) as real
  }

  /**
    `calculate` step by step: one pass counting the letters of the
    upper-cased text in a map, with `n` counting them too, then the sum of
    f(f-1) over the counts, divided by n(n-1) without overflow.
   */
  method Calculate(text: string) returns (ic: real)
    ensures ic == Ic(text)
  {
    var t := UpperAscii(text);
    var freq, n := CountLetters(t);
    LetterCountUpper(text);
    if n <= 1 {
      return 0.0;
    }
    var sum := SumPairs(freq, Tally(t));
    var pairs := n * (n - 1);
    assert pairs == Pairs(Sum(Tally(t)));
    ic := sum as real / pairs as real;
  }

  /**
    The counting loop of `calculate`: a map from each letter that occurs to
    its count, with no other key, and the number of letters, which is the
    sum of those counts.
   */
  method CountLetters(t: string) returns (freq: map<char, nat>, n: nat)
    requires forall i :: 0 <= i < |t| && IsAsciiAlpha(t[i]) ==> IsAsciiUpper(t[i])
    ensures forall k :: 0 <= k < 26 ==> Get(freq, Letter(k)) == Tally(t)[k]
    ensures forall c :: c in freq ==> IsAsciiUpper(c) && freq[c] > 0
    ensures n == LetterCount(t) == Sum(Tally(t))
  {
    freq := map[];
    n := 0;
    for i := 0 to |t|
      invariant forall k :: 0 <= k < 26 ==> Get(freq, Letter(k)) == Tally(t[..i])[k]
      invariant forall c :: c in freq ==> IsAsciiUpper(c) && freq[c] > 0
      invariant n == LetterCount(t[..i])
    {
      var c := t[i];
      CountStep(freq, t, i);
      if IsAsciiAlpha(c) {
        freq := freq[c := Get(freq, c) + 1];
        n := n + 1;
      }
    }
    assert t[..|t|] == t;
  }

  /** The summing step of `calculate`: f(f-1) added up over the letter counts. */
  method SumPairs(freq: map<char, nat>, ghost h: seq<nat>) returns (sum: nat)
    requires |h| == 26 && forall k :: 0 <= k < 26 ==> Get(freq, Letter(k)) == h[k]
    ensures sum == PairSum(h)
  {
    sum := 0;
    for k := 0 to 26
      invariant sum == PairSum(h[..k])
    {
      assert h[..k + 1][..k] == h[..k];
      var f := Get(freq, Letter(k));
      sum := sum + Pairs(f);
    }
    assert h[..26] == h;
  }

  /** One step of the counting loop keeps the map in step with the histogram. */
  lemma CountStep(freq: map<char, nat>, t: string, i: nat)
    requires i < |t| && (IsAsciiAlpha(t[i]) ==> IsAsciiUpper(t[i]))
    requires forall k :: 0 <= k < 26 ==> Get(freq, Letter(k)) == Tally(t[..i])[k]
    ensures var f := if IsAsciiAlpha(t[i]) then freq[t[i] := Get(freq, t[i]) + 1] else freq;
      && (forall k :: 0 <= k < 26 ==> Get(f, Letter(k)) == Tally(t[..i + 1])[k])
      && LetterCount(t[..i + 1]) == LetterCount(t[..i]) + (if IsAsciiAlpha(t[i]) then 1 else 0)
  {
    assert t[..i + 1][..i] == t[..i];
    if IsAsciiAlpha(t[i]) {
      assert Letter(LetterIndex(t[i])) == t[i];
    }
  }

  /** Raising one count raises the total by one. */
  lemma {:induction false} SumIncrement(h: seq<nat>, k: nat)
    requires k < |h|
    ensures Sum(h[k := h[k] + 1]) == Sum(h) + 1
  {
    var h' := h[k := h[k] + 1];
    if k < |h| - 1 {
      assert h'[..|h| - 1] == h[..|h| - 1][k := h[k] + 1];
      SumIncrement(h[..|h| - 1], k);
    } else {
      assert h'[..|h| - 1] == h[..|h| - 1];
    }
  }

  lemma {:induction false} LetterCountUpper(t: string)
    ensures LetterCount(UpperAscii(t)) == LetterCount(t)
  {
    if t != [] {
      assert UpperAscii(t)[..|t| - 1] == UpperAscii(t[..|t| - 1]);
      LetterCountUpper(t[..|t| - 1]);
    }
  }

  /** Sum f(f-1) <= n(n-1) when the counts f add up to n. */
  lemma {:induction false} PairSumBound(h: seq<nat>)
    ensures PairSum(h) <= Pairs(Sum(h))
  {
    if h != [] {
      PairSumBound(h[..|h| - 1]);
      PairsSuperadditive(Sum(h[..|h| - 1]), h[|h| - 1]);
    }
  }

  /** Pairs within two groups are among the pairs of their union. */
  lemma PairsSuperadditive(x: nat, y: nat)
    ensures Pairs(x) + Pairs(y) <= Pairs(x + y)
  {
    var a, b: int := x, y;
    assert (a + b) * (a + b - 1) == a * (a - 1) + b * (b - 1) + 2 * a * b;
    assert 0 <= a * b;
  }

  /** Upper-casing first, as the original does, and counting either case are the same. */
  lemma IcCaseInsensitive(s: string, t: string)
    requires |s| == |t| && forall i :: 0 <= i < |s| ==> ToAsciiUpper(s[i]) == ToAsciiUpper(t[i])
    ensures Ic(s) == Ic(t)
  {
    assert UpperAscii(s) == UpperAscii(t);
  }

  /** Inserting a character that is not an ASCII letter leaves the index unchanged. */
  lemma IcIgnoresNonLetters(a: string, c: char, b: string)
    requires !IsAsciiAlpha(c)
    ensures Ic(a + [c] + b) == Ic(a + b)
  {
    assert UpperAscii(a + [c] + b) == UpperAscii(a) + [c] + UpperAscii(b);
    assert UpperAscii(a + b) == UpperAscii(a) + UpperAscii(b);
    TallyInsert(UpperAscii(a), c, UpperAscii(b));
  }

  lemma {:induction false} TallyInsert(x: string, c: char, y: string)
    requires !IsAsciiAlpha(c)
    ensures Tally(x + [c] + y) == Tally(x + y)
  {
    if y == [] {
      assert (x + [c])[..|x|] == x;
      assert x + [c] + y == x + [c] && x + y == x;
    } else {
      var y', d := y[..|y| - 1], y[|y| - 1];
      TallyInsert(x, c, y');
      assert (x + [c] + y)[..|x + [c] + y| - 1] == x + [c] + y';
      assert (x + y)[..|x + y| - 1] == x + y';
    }
  }

  /**
    A text whose letters (at least two) are all the same letter, in either
    case, has index exactly 1.
   */
  lemma IcSingleLetter(text: string, k: nat)
    requires k < 26 && LetterCount(text) >= 2
    requires forall i :: 0 <= i < |text| && IsAsciiAlpha(text[i]) ==> LetterIndex(text[i]) == k
    ensures Ic(text) == 1.0
  {
    SingleLetterTally(text, k);
    LetterCountUpper(text);
    var n := Sum(Tally(UpperAscii(text)));
    PairsPositive(n);
    SelfRatio(Pairs(n));
  }

  lemma SelfRatio(d: nat)
    requires d > 0
    ensures d as real / d as real == 1.0
  {
  }

  /** Two or more letters make at least one pair. */
  lemma PairsPositive(n: nat)
    requires n >= 2
    ensures Pairs(n) > 0
  {
  }

  /** All the letters of `text` fall in one bucket of its histogram. */
  lemma SingleLetterTally(text: string, k: nat)
    requires k < 26
    requires forall i :: 0 <= i < |text| && IsAsciiAlpha(text[i]) ==> LetterIndex(text[i]) == k
    ensures var h := Tally(UpperAscii(text)); PairSum(h) == Pairs(Sum(h))
  {
    var t := UpperAscii(text);
    forall i | 0 <= i < |t| && IsAsciiAlpha(t[i]) ensures LetterIndex(t[i]) == k {
      assert IsAsciiAlpha(text[i]) && t[i] == ToAsciiUpper(text[i]);
    }
    TallyOneLetter(t, k);
    SingleSupport(Tally(t), k);
  }

  lemma {:induction false} TallyOneLetter(t: string, k: nat)
    requires k < 26
    requires forall i :: 0 <= i < |t| && IsAsciiAlpha(t[i]) ==> LetterIndex(t[i]) == k
    ensures forall j :: 0 <= j < 26 && j != k ==> Tally(t)[j] == 0
  {
    if t != [] {
      TallyOneLetter(t[..|t| - 1], k);
    }
  }

  lemma {:induction false} SingleSupport(h: seq<nat>, k: nat)
    requires k < |h| && forall j :: 0 <= j < |h| && j != k ==> h[j] == 0
    ensures Sum(h) == h[k] && PairSum(h) == Pairs(h[k])
  {
    var g := h[..|h| - 1];
    if k < |h| - 1 {
      SingleSupport(g, k);
    } else {
      ZeroSums(g);
    }
  }

  lemma {:induction false} ZeroSums(h: seq<nat>)
    requires forall j :: 0 <= j < |h| ==> h[j] == 0
    ensures Sum(h) == 0 && PairSum(h) == 0
  {
    if h != [] {
      ZeroSums(h[..|h| - 1]);
    }
  }

  /**
    `is_likely_english`: the index lies strictly between 0.06 and 0.08.
    That needs at least two letters, and excludes random-like text.
   */
  predicate IsLikelyEnglish(text: string): (b: bool)
    ensures b ==> LetterCount(text) >= 2
    ensures b ==> !IsLikelyRandom(text)
  {
    0.06 < Ic(text) < 0.08
  }

  /** `is_likely_random`: the index is below 0.045, as for text with under two letters. */
  predicate IsLikelyRandom(text: string): (b: bool)
    ensures LetterCount(text) <= 1 ==> b
  {
    Ic(text) < 0.045
  }

  /** The lowest i32 value, -2^31. */
  const I32Min: int := -0x8000_0000

  /** Two's-complement wrap-around to i32, as a release build does `*` on i32 values. */
  function WrapI32(x: int): (w: int)
    ensures I32Min <= w < -I32Min
    ensures (x - w) % 0x1_0000_0000 == 0
    ensures I32Min <= x < -I32Min ==> w == x
  {
    (x - I32Min) % 0x1_0000_0000 + I32Min
  }

  /**
    `calculate` as written: `n` is given no type, so it is an i32, and in a
    release build `n * (n - 1)` wraps around once n reaches 46,342 (a
    debug build panics there instead). The pair sum is then divided by the
    wrapped product.
   */
  function IcAsWritten(text: string): (r: Ratio)
    ensures LetterCount(text) <= 1 ==> r == Value(0.0)
  {
    var h := Tally(UpperAscii(text));
    LetterCountUpper(text);
    WrittenQuotient(PairSum(h), WrapI32(Sum(h)))
  }

  /** The last two lines of `calculate`, given the pair sum and the i32 counter. */
  function WrittenQuotient(pairs: nat, n: int): Ratio
  {
    if n <= 1 then Value(0.0) else Divide(pairs, WrapI32(n * (n - 1)))
  }

  /** Up to 46,341 letters the product fits in an i32, and the written code gives the intended index. */
  lemma IcAsWrittenAgrees(text: string)
    requires LetterCount(text) <= 46341
    ensures IcAsWritten(text) == Value(Ic(text))
  {
    var h := Tally(UpperAscii(text));
    LetterCountUpper(text);
    var n := Sum(h);
    if n >= 2 {
      QuotientFits(PairSum(h), n);
    }
  }

  lemma QuotientFits(pairs: nat, n: nat)
    requires 2 <= n <= 46341
    ensures WrapI32(n) == n
    ensures WrittenQuotient(pairs, n) == Value(pairs as real / Pairs(n) as real)
  {
    ProductBelow(n);
    assert WrapI32(n * (n - 1)) == n * (n - 1) == Pairs(n);
  }

  lemma ProductBelow(n: nat)
    requires 2 <= n <= 46341
    ensures n * (n - 1) <= 46341 * 46340
  {
    MulLe(n - 1, 46340, n);
    MulLe(n, 46341, 46340);
  }

  lemma {:induction false} MulLe(a: nat, b: nat, c: nat)
    requires a <= b
    ensures a * c <= b * c
  {
    if c > 0 {
      MulLe(a, b, c - 1);
      assert a * c == a * (c - 1) + a;
      assert b * c == b * (c - 1) + b;
    }
  }

  /**
    From 46,342 to 65,536 letters the wrapped product is negative, so the
    written code gives an index of at most 0 for every text, English prose
    included, where the intended index is a probability.
   */
  lemma IcAsWrittenNonPositive(text: string)
    requires 46342 <= LetterCount(text) <= 65536
    ensures IcAsWritten(text).Value? && IcAsWritten(text).value <= 0.0
  {
    var h := Tally(UpperAscii(text));
    LetterCountUpper(text);
    QuotientWraps(PairSum(h), Sum(h));
  }

  /** The quotient over a wrapped, negative product: at most 0, and below 0 for a positive pair sum. */
  lemma QuotientWraps(pairs: nat, n: nat)
    requires 46342 <= n <= 65536
    ensures WrapI32(n) == n
    ensures WrittenQuotient(pairs, n).Value? && WrittenQuotient(pairs, n).value <= 0.0
    ensures pairs > 0 ==> WrittenQuotient(pairs, n).value < 0.0
  {
    WrappedProduct(n);
    NonPositiveQuotient(pairs, WrapI32(n * (n - 1)));
  }

  /**
    The wrapped product of `calculate`, for 46,342 to 65,536 letters: the
    true product less 2^32, which is negative.
   */
  lemma WrappedProduct(n: nat)
    requires 46342 <= n <= 65536
    ensures WrapI32(n) == n
    ensures WrapI32(n * (n - 1)) == n * (n - 1) - 0x1_0000_0000 < 0
  {
    MulLe(46341, n - 1, n);
    MulLe(46342, n, 46341);
    MulLe(n - 1, 65535, n);
    MulLe(n, 65536, 65535);
    WrapOnce(n * (n - 1));
  }

  /** A value between 2^31 and 2^32 + 2^31 wraps around exactly once. */
  lemma WrapOnce(x: int)
    requires -I32Min <= x < 0x1_0000_0000 - I32Min
    ensures WrapI32(x) == x - 0x1_0000_0000
  {
    var y := x - I32Min;
    assert 0x1_0000_0000 <= y < 2 * 0x1_0000_0000;
    assert y % 0x1_0000_0000 == y - 0x1_0000_0000;
  }

  lemma NonPositiveQuotient(a: nat, d: int)
    requires d < 0
    ensures Divide(a, d).Value? && Divide(a, d).value <= 0.0
    ensures a > 0 ==> Divide(a, d).value < 0.0
  {
    var q := a as real / d as real;
    assert q * d as real == a as real;
  }

  /**
    The counterexample: 46,342 to 65,536 copies of one letter have index
    exactly 1, but the written code gives a negative index (about -1.00005
    for 46,342 letters).
   */
  lemma IcAsWrittenOneLetter(text: string, k: nat)
    requires k < 26 && 46342 <= LetterCount(text) <= 65536
    requires forall i :: 0 <= i < |text| && IsAsciiAlpha(text[i]) ==> LetterIndex(text[i]) == k
    ensures Ic(text) == 1.0
    ensures IcAsWritten(text).Value? && IcAsWritten(text).value < 0.0
  {
    IcSingleLetter(text, k);
    SingleLetterTally(text, k);
    var h := Tally(UpperAscii(text));
    LetterCountUpper(text);
    PairsPositive(Sum(h));
    QuotientWraps(PairSum(h), Sum(h));
  }
}
