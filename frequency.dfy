/**
  Character histogram of a text and the charset queries answered from it.
 */
module Frequency {
  import opened Types
  import opened Text
  import opened Sorting
  import opened Quotient

  /** The histogram of every character, and the byte length of the text. */
  datatype FrequencyAnalysis = FrequencyAnalysis(charFreq: map<char, nat>, totalChars: nat)

  /** Each character of the text mapped to its number of occurrences. */
  function Histogram(text: string): map<char, nat>
  {
    map c | c in text :: multiset(text)[c]
  }

  /** The analysis `FrequencyAnalysis::new` builds for `text`. */
  function Analyze(text: string): FrequencyAnalysis
  {
    FrequencyAnalysis(Histogram(text), Utf8Length(text))
  }

  /** `FrequencyAnalysis::new`: one pass over the text, bumping each character's count. */
  method NewAnalysis(text: string) returns (fa: FrequencyAnalysis)
    ensures fa == Analyze(text)
    ensures forall c :: c in fa.charFreq <==> c in text
  {
    var charFreq: map<char, nat> := map[];
    var totalChars := Utf8Length(text);
    for i := 0 to |text|
      invariant charFreq == Histogram(text[..i])
    {
      var c := text[i];
      HistogramSnoc(text[..i], c);
      assert text[..i + 1] == text[..i] + [c];
      charFreq := charFreq[c := (if c in charFreq then charFreq[c] else 0) + 1];
    }
    assert text[..|text|] == text;
    fa := FrequencyAnalysis(charFreq, totalChars);
  }

  /** Appending `c` raises the count of `c` by one and leaves the others. */
  lemma HistogramSnoc(s: string, c: char)
    ensures Histogram(s + [c])
         == Histogram(s)[c := (if c in Histogram(s) then Histogram(s)[c] else 0) + 1]
  {
    var h, h' := Histogram(s), Histogram(s + [c]);
    assert multiset(s + [c]) == multiset(s) + multiset{c};
    forall d ensures d in h' <==> d in s || d == c {
      assert d in s + [c] <==> d in s || d == c;
    }
    assert c !in h ==> multiset(s)[c] == 0;
  }

  /** Sum of the counts of a histogram. */
  ghost function SumCounts(m: map<char, nat>): nat
    decreases |m|
  {
    if m == map[] then 0
    else
      var k :| k in m;
      m[k] + SumCounts(m - {k})
  }

  /** The sum may be split at any key, not only at the one SumCounts picks. */
  lemma {:induction false} SumCountsAt(m: map<char, nat>, k: char)
    requires k in m
    ensures SumCounts(m) == m[k] + SumCounts(m - {k})
    decreases |m|
  {
    var j :| j in m && SumCounts(m) == m[j] + SumCounts(m - {j});
    if j != k {
      SumCountsAt(m - {j}, k);
      SumCountsAt(m - {k}, j);
      assert m - {j} - {k} == m - {k} - {j};
    }
  }

  /**
    The histogram accounts for every character exactly once: its counts sum
    to the number of characters. For ASCII text that number is also
    `totalChars`, the byte length.
   */
  lemma {:induction false} HistogramTotal(text: string)
    ensures SumCounts(Histogram(text)) == |text|
    ensures AllAscii(text) ==> Analyze(text).totalChars == |text|
  {
    Utf8LengthAscii(text);
    if text != [] {
      var s, c := text[..|text| - 1], text[|text| - 1];
      assert text == s + [c];
      HistogramTotal(s);
      HistogramSnoc(s, c);
      SumCountsBump(Histogram(s), c);
    }
  }

  /** Counting one more `c` adds one to the sum of the counts. */
  lemma SumCountsBump(h: map<char, nat>, c: char)
    ensures SumCounts(h[c := (if c in h then h[c] else 0) + 1]) == SumCounts(h) + 1
  {
    var h' := h[c := (if c in h then h[c] else 0) + 1];
    SumCountsAt(h', c);
    if c in h {
      SumCountsAt(h, c);
      assert h' - {c} == h - {c};
    } else {
      assert h' - {c} == h;
    }
  }

  /**
    `char_frequency`: the count of `c` divided by the byte length, as f64
    division does it. It is finite exactly when the length is not 0, and
    then the frequency times the length is the count; with length 0 it is
    NaN for an unseen character.
   */
  function CharFrequency(fa: FrequencyAnalysis, c: char): (r: Ratio)
    ensures r.Value? <==> fa.totalChars != 0
    ensures r.Value? ==> r.value * fa.totalChars as real == Get(fa.charFreq, c) as real
    ensures fa.totalChars == 0 && c !in fa.charFreq ==> r == NaN
  {
    Divide(Get(fa.charFreq, c), fa.totalChars)
  }

  /**
    For non-empty text the frequency is the share of `c` among the bytes:
    0 for an absent character, and count / length for ASCII text. For
    empty text the division is 0 / 0.
   */
  lemma CharFrequencyOfText(text: string, c: char)
    ensures text == [] ==> CharFrequency(Analyze(text), c) == NaN
    ensures text != [] && c !in text ==> CharFrequency(Analyze(text), c) == Value(0.0)
    ensures text != [] && AllAscii(text) ==>
      CharFrequency(Analyze(text), c) == Value(multiset(text)[c] as real / |text| as real)
  {
    Utf8LengthAscii(text);
    assert c !in text ==> c !in Histogram(text);
  }

  /** For non-empty text every frequency is a finite value between 0 and 1. */
  lemma CharFrequencyBounds(text: string, c: char)
    requires text != []
    ensures CharFrequency(Analyze(text), c).Value?
    ensures 0.0 <= CharFrequency(Analyze(text), c).value <= 1.0
  {
    var h := Histogram(text);
    var count := if c in h then h[c] else 0;
    if c in h {
      HistogramTotal(text);
      SumCountsAt(h, c);
    }
    assert count <= |text| <= Utf8Length(text);
    RatioAtMostOne(count, Utf8Length(text));
  }

  /**
    `is_hex_only`: every distinct character is a hex digit. It holds of
    the empty histogram, and hex digits are in the Base64 alphabet.
   */
  predicate IsHexOnly(fa: FrequencyAnalysis): (b: bool)
    ensures fa.charFreq == map[] ==> b
    ensures b ==> IsBase64Charset(fa)
  {
    forall c :: c in fa.charFreq ==> IsAsciiHexDigit(c)
  }

  /**
    `is_base64_charset`: every distinct character is in the Base64
    alphabet, which is ASCII only.
   */
  predicate IsBase64Charset(fa: FrequencyAnalysis): (b: bool)
    ensures fa.charFreq == map[] ==> b
    ensures b ==> forall c :: c in fa.charFreq ==> IsAscii(c)
  {
    forall c :: c in fa.charFreq ==> IsBase64Char(c)
  }

  /** Asking the histogram is asking the text: the charset queries are per-character tests. */
  lemma CharsetQueriesOfText(text: string)
    ensures IsHexOnly(Analyze(text)) <==> AllHex(text)
    ensures IsBase64Charset(Analyze(text)) <==> forall i :: 0 <= i < |text| ==> IsBase64Char(text[i])
  {
    var h := Histogram(text);
    if IsHexOnly(Analyze(text)) {
      forall i | 0 <= i < |text| ensures IsAsciiHexDigit(text[i]) {
        assert text[i] in h;
      }
    }
    if IsBase64Charset(Analyze(text)) {
      forall i | 0 <= i < |text| ensures IsBase64Char(text[i]) {
        assert text[i] in h;
      }
    }
  }

  function CountOf(p: (char, nat)): int { p.1 }

  /**
    `most_common_chars(n)`: at most n histogram entries, distinct, ranked by
    non-increasing count, and no character left out has a larger count than
    one kept. The order among equal counts comes from hash-map iteration,
    so it is left open (the choice made by Entries is arbitrary).
   */
  method MostCommonChars(fa: FrequencyAnalysis, n: nat) returns (top: seq<(char, nat)>)
    ensures |top| == if n < |fa.charFreq| then n else |fa.charFreq|
    ensures forall i :: 0 <= i < |top| ==> top[i].0 in fa.charFreq && fa.charFreq[top[i].0] == top[i].1
    ensures forall i, j :: 0 <= i < j < |top| ==> top[i].0 != top[j].0
    ensures NonIncreasing(top, CountOf)
    ensures forall c, i :: c in fa.charFreq && (forall k :: 0 <= k < |top| ==> top[k].0 != c) && 0 <= i < |top|
              ==> top[i].1 >= fa.charFreq[c]
  {
    var entries := Entries(fa.charFreq);
    var sorted := SortDesc(entries, CountOf);
    RankedEntries(fa.charFreq, entries);
    var cut := if n < |sorted| then n else |sorted|;
    top := sorted[..cut];
    LeftOutRankLower(fa.charFreq, sorted, cut);
  }

  /** Ranking the entries keeps them the entries of the histogram, each once. */
  lemma RankedEntries(m: map<char, nat>, entries: seq<(char, nat)>)
    requires forall i :: 0 <= i < |entries| ==> entries[i].0 in m && entries[i].1 == m[entries[i].0]
    requires forall c :: c in m ==> (c, m[c]) in entries
    requires Distinct(entries)
    ensures var sorted := SortDesc(entries, CountOf);
      && |sorted| == |entries| && NonIncreasing(sorted, CountOf) && Distinct(sorted)
      && (forall i :: 0 <= i < |sorted| ==> sorted[i].0 in m && m[sorted[i].0] == sorted[i].1)
      && (forall c :: c in m ==> (c, m[c]) in sorted)
  {
    var sorted := SortDesc(entries, CountOf);
    DistinctPermutation(entries, sorted);
    forall i | 0 <= i < |sorted| ensures sorted[i] in entries {
      assert sorted[i] in multiset(sorted);
    }
    forall c | c in m ensures (c, m[c]) in sorted {
      assert (c, m[c]) in multiset(sorted);
    }
  }

  /** The `(char, count)` pairs of a histogram, each once, in arbitrary order. */
  method Entries(m: map<char, nat>) returns (entries: seq<(char, nat)>)
    ensures |entries| == |m|
    ensures forall i :: 0 <= i < |entries| ==> entries[i].0 in m && entries[i].1 == m[entries[i].0]
    ensures forall c :: c in m ==> (c, m[c]) in entries
    ensures Distinct(entries)
  {
    entries := [];
    var rest := m.Keys;
    while rest != {}
      invariant rest <= m.Keys
      invariant |entries| + |rest| == |m.Keys|
      invariant forall i :: 0 <= i < |entries| ==>
                  entries[i].0 in m && entries[i].0 !in rest && entries[i].1 == m[entries[i].0]
      invariant forall c :: c in m && c !in rest ==> (c, m[c]) in entries
      invariant Distinct(entries)
      decreases |rest|
    {
      var c :| c in rest;
      entries := entries + [(c, m[c])];
      rest := rest - {c};
    }
  }

  /** A prefix of the ranked entries keeps the histogram's counts, each character once, and the larger counts. */
  lemma LeftOutRankLower(m: map<char, nat>, sorted: seq<(char, nat)>, cut: nat)
    requires cut <= |sorted| && NonIncreasing(sorted, CountOf)
    requires forall i :: 0 <= i < |sorted| ==> sorted[i].0 in m && m[sorted[i].0] == sorted[i].1
    requires forall c :: c in m ==> (c, m[c]) in sorted
    requires Distinct(sorted)
    ensures var top := sorted[..cut];
      && |top| == cut
      && (forall i :: 0 <= i < |top| ==> top[i].0 in m && m[top[i].0] == top[i].1)
      && (forall i, j :: 0 <= i < j < |top| ==> top[i].0 != top[j].0)
      && NonIncreasing(top, CountOf)
      && (forall c, i :: c in m && (forall k :: 0 <= k < |top| ==> top[k].0 != c) && 0 <= i < |top|
            ==> top[i].1 >= m[c])
  {
    var top := sorted[..cut];
    assert forall i :: 0 <= i < |top| ==> top[i] == sorted[i];
    forall i, j | 0 <= i < j < |top| ensures top[i].0 != top[j].0 {
      assert sorted[i] != sorted[j];
    }
    forall c, i | c in m && (forall k :: 0 <= k < |top| ==> top[k].0 != c) && 0 <= i < |top|
      ensures top[i].1 >= m[c]
    {
      var j :| 0 <= j < |sorted| && sorted[j] == (c, m[c]);
      assert CountOf(sorted[i]) >= CountOf(sorted[j]);
    }
  }
}
