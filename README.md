# ciphex classification engine, in Dafny

ciphex takes a raw string and guesses what it is: a hash digest (MD5, the
SHA families, BLAKE2, RIPEMD-160, Whirlpool), a data encoding (Base64, hex,
binary, Morse) or a classical cipher (a Caesar shift or a substitution).
This project models the engine behind that guess and proves what its
answers mean.

The engine is built from these parts:

- **Signature search** (`Signature`): a table from hex length to candidate
  hash names, and charset and padding checks for Base64, binary and Morse
  text.
- **Character histogram** (`Frequency`): a per-character count map with
  charset queries, a per-character frequency and a most-common ranking.
- **Index of Coincidence** (`Coincidence`): the sum of f(f-1) over the
  letter counts f, divided by n(n-1) for n letters, with fixed thresholds
  on the result. Both this and the character frequency are f64 quotients
  of counts, modelled once in `Quotient`, including what division by zero
  gives.
- **Three detectors** (`HashDetector`, `EncodingDetector`,
  `CipherDetector`), each answering with a `DetectionResult` or declining.
- **The aggregator** (`UniversalDetector`): `detect` keeps the first
  answer, and `detect_all` ranks every answer by confidence.
- **Shared pieces**: `Types` holds the taxonomy and the result value, with
  its append-only evidence list. `Text` holds the parts of Rust's string
  library the engine relies on: `trim`, the character classes, and `len`
  as a UTF-8 byte count. `Sorting` holds the stable `sort_by` used for
  every ranking.

Representation choices:

- Confidences are integer hundredths (95 stands for 0.95), so every
  comparison and every ranking is exact.
- The Index of Coincidence is an exact `real` rational, compared against
  the same thresholds written as rationals.
- The loops of the source are methods, each proved equal to a
  specification function. The lemmas are stated about that function:
  - `FrequencyAnalysis::new` is `Frequency.NewAnalysis`, specified by
    `Frequency.Analyze`;
  - `CoincidenceIndex::calculate` is `Coincidence.Calculate`, specified by
    `Coincidence.Ic`;
  - `HashDetector::detect_all` is `HashDetector.DetectAll`, specified by
    `HashDetector.AllCandidates`;
  - `UniversalDetector::detect_all` is `UniversalDetector.DetectAll`,
    specified by `UniversalDetector.AllResults`.
- Rust's `slice::sort_by` is a stable sort. It is modelled as the pure
  stable insertion sort `Sorting.SortDesc`. `Sorting.StableSortUnique`
  shows that it is the only stable non-increasing arrangement of its input.

The code has some behaviours a reader may not expect. Each is proved
below:

- Empty or all-whitespace input passes the Base64 check vacuously and is
  reported as Base64 at 0.90.
- Hex is reported only for lengths that are 2 more than a multiple of 4,
  because the Base64 check runs first.
- A substitution answer needs an index in (0.055, 0.06], because the
  Caesar band (0.06, 0.08) is checked first.
- `detect` and the head of `detect_all` disagree on 56-, 96- and
  128-character hex digests. `detect` reports a hash, while `detect_all`
  ranks Base64 at 0.90 above every hash candidate.

Two more behaviours of the code a reader might assume otherwise:

- `char_frequency` on empty text divides 0 by 0 and gives NaN, not 0.
- The rankings are stable. Ties keep their input order rather than being
  left unspecified.

## Model

| member | source | states |
|---|---|---|
| `Types.NewResult` | crates/core/src/types.rs:70-76 | a new result has the given type and confidence and no evidence |
| `Types.DetectionResult.WithEvidence` | crates/core/src/types.rs:78-85 | appending evidence keeps the type, the confidence and every earlier line in place, and adds exactly one line at the end (`with_evidence` and `add_evidence` alike) |
| `Types.WithAllAppends` | crates/core/src/types.rs:78-85 | repeated appends add the new lines at the end in order, with no deduplication, and change neither type nor confidence |
| `Types.CipherTypeEquality` | crates/core/src/types.rs:4-10 | equality is structural: `Hash(a) == Hash(b)` exactly when `a == b`, and different variants are never equal |
| `Text.Trim` | crates/detectors/src/hash.rs:8 | the trimmed text is a slice of the input, only whitespace is dropped at both ends, and the result neither starts nor ends with whitespace |
| `Text.Utf8LengthAscii` | crates/analysis/src/signature.rs:5 | the byte length equals the character count exactly when the text is ASCII |
| `Signature.CheckHashLength` | crates/analysis/src/signature.rs:4-48 | non-hex text gives None; a Some list holds 1 to 4 names and comes only from a length in {32, 40, 56, 64, 96, 128} |
| `Signature.HexIsAscii` | crates/analysis/src/signature.rs:5-6 | for hex text the byte length `len` is the character count |
| `Signature.CheckHashLengthSound` | crates/analysis/src/signature.rs:14-41 | every candidate name denotes an algorithm whose digest has exactly 4 bits per hex character, and no name is listed twice |
| `Signature.CheckHashLengthComplete` | crates/analysis/src/signature.rs:14-41 | every algorithm whose digest size fits the length of hex text is among the candidates |
| `Signature.CheckBase64Signature` | crates/analysis/src/signature.rs:50-65 | passing text is ASCII with a character count that is a multiple of 4, and the empty text passes |
| `Signature.CheckBinarySignature` | crates/analysis/src/signature.rs:67-69 | passing text holds only hex digits and spaces, so binary digits alone also look like hex; the empty text passes |
| `Signature.CheckMorseSignature` | crates/analysis/src/signature.rs:71-74 | passing text holds no letter or digit, and the empty text passes |
| `Signature.Base64SignatureIff` | crates/analysis/src/signature.rs:50-65 | accepted exactly when the length is a multiple of 4, every character is alphanumeric, `+`, `/` or `=`, and the text does not end in three `=`; an interior `=` is not rejected |
| `Signature.Base64NeedsMultipleOfFour` | crates/analysis/src/signature.rs:51-53 | a length that is not a multiple of 4 fails the Base64 check |
| `Signature.Base64PaddingExamples` | crates/analysis/src/signature.rs:63-64 | "a=bc" and "ab==" pass, "a===" fails |
| `Signature.EmptyPassesSignatures` | crates/analysis/src/signature.rs:50-74 | the empty string passes the Base64, binary and Morse checks |
| `Signature.TrailingPadding` | crates/analysis/src/signature.rs:63 | the counted run is all `=`, and the character before it, if any, is not `=` |
| `Frequency.NewAnalysis` | crates/analysis/src/frequency.rs:11-23 | the loop leaves each character mapped to its number of occurrences and only characters of the text as keys, with `total_chars` the byte length |
| `Frequency.HistogramSnoc` | crates/analysis/src/frequency.rs:15-17 | one loop step raises the count of the character read by one and leaves every other count alone |
| `Frequency.HistogramTotal` | crates/analysis/src/frequency.rs:13-16 | the counts add up to the number of characters, which is `total_chars` for ASCII text |
| `Quotient.Divide` | crates/analysis/src/frequency.rs:26 | a count over an integer is finite exactly when the divisor is not 0, and then multiplies back to the count; 0/0 is NaN and a positive count over 0 is infinite |
| `Quotient.RatioAtMostOne` | crates/analysis/src/coincidence.rs:26 | a count at most its positive divisor gives a finite value in [0, 1] |
| `Frequency.CharFrequency` | crates/analysis/src/frequency.rs:25-27 | finite exactly when `total_chars` is not 0, and then frequency times `total_chars` is the stored count (0 for an absent character); an absent character over 0 characters is NaN |
| `Frequency.CharFrequencyOfText` | crates/analysis/src/frequency.rs:25-27 | for non-empty text the frequency is 0 for an absent character and count / length for ASCII text; for empty text it is 0/0, NaN |
| `Frequency.CharFrequencyBounds` | crates/analysis/src/frequency.rs:25-27 | for non-empty text every frequency is a finite value between 0 and 1 |
| `Frequency.CharsetQueriesOfText` | crates/analysis/src/frequency.rs:49-57 | `is_hex_only` holds exactly when every character of the text is a hex digit, and `is_base64_charset` exactly when every character is in the Base64 alphabet |
| `Frequency.IsHexOnly` | crates/analysis/src/frequency.rs:49-51 | holds for an empty map, and implies `is_base64_charset` |
| `Frequency.IsBase64Charset` | crates/analysis/src/frequency.rs:53-57 | holds for an empty map, and only when every key is ASCII |
| `Frequency.Entries` | crates/analysis/src/frequency.rs:30 | the collected pairs are the histogram's entries, each exactly once |
| `Frequency.RankedEntries` | crates/analysis/src/frequency.rs:31 | sorting the entries by count keeps them the histogram's entries, each once, in non-increasing count order |
| `Frequency.MostCommonChars` | crates/analysis/src/frequency.rs:29-33 | min(n, distinct characters) pairs, each a true histogram entry, no character twice, non-increasing by count, and no character left out has a larger count than one kept |
| `Frequency.LeftOutRankLower` | crates/analysis/src/frequency.rs:32 | taking a prefix of the ranking keeps true entries in order, and every left-out character counts no more than any kept one |
| `Coincidence.Tally` | crates/analysis/src/coincidence.rs:14-19 | the 26 letter counts add up to the number of letters |
| `Coincidence.Ic` | crates/analysis/src/coincidence.rs:9-27 | the intended index is a probability in [0, 1], and 0 for text with fewer than two letters |
| `Coincidence.Calculate` | crates/analysis/src/coincidence.rs:9-27 | the map-and-counter computation returns the index `Ic` as intended, without the `i32` overflow of `n * (n - 1)` (see Findings) |
| `Coincidence.CountLetters` | crates/analysis/src/coincidence.rs:14-19 | after the loop the map holds each letter's count, its keys are exactly the upper-case letters that occur (each with a positive count), and the counter `n` equals the number of letters, that is, the sum of all counts |
| `Coincidence.SumPairs` | crates/analysis/src/coincidence.rs:25 | the sum of f(f-1) over the map's counts |
| `Coincidence.CountStep` | crates/analysis/src/coincidence.rs:15-18 | one loop step keeps the map and the counter in step with the letters read so far |
| `Coincidence.LetterCountUpper` | crates/analysis/src/coincidence.rs:10 | upper-casing keeps the number of letters |
| `Coincidence.PairSumBound` | crates/analysis/src/coincidence.rs:25-26 | the sum of f(f-1) is at most n(n-1) when the counts add up to n, so the ratio is at most 1 |
| `Coincidence.IcCaseInsensitive` | crates/analysis/src/coincidence.rs:10 | texts that agree up to letter case have the same index |
| `Coincidence.IcIgnoresNonLetters` | crates/analysis/src/coincidence.rs:14-19 | inserting a character that is not an ASCII letter anywhere leaves the index unchanged |
| `Coincidence.TallyInsert` | crates/analysis/src/coincidence.rs:15 | a character that is not a letter changes no letter count |
| `Coincidence.IcSingleLetter` | crates/analysis/src/coincidence.rs:25-26 | two or more letters that are all the same letter give index exactly 1 |
| `Coincidence.IsLikelyEnglish` | crates/analysis/src/coincidence.rs:29-32 | English-like text (index in (0.06, 0.08)) has at least two letters and is never random-like |
| `Coincidence.IsLikelyRandom` | crates/analysis/src/coincidence.rs:34-37 | text with fewer than two letters is random-like (index 0 < 0.045) |
| `Coincidence.WrapI32` | crates/analysis/src/coincidence.rs:12-26 | the i32 wrap-around of release builds: a value in [-2^31, 2^31) congruent to the input modulo 2^32, and the input itself when it fits |
| `Coincidence.IcAsWritten` | crates/analysis/src/coincidence.rs:12-26 | the index with `n` and `n * (n - 1)` wrapping as i32; 0 for text with fewer than two letters |
| `Coincidence.IcAsWrittenAgrees` | crates/analysis/src/coincidence.rs:21-26 | up to 46,341 letters the i32 product does not overflow and the computation gives the intended `Ic` |
| `Coincidence.IcAsWrittenNonPositive` | crates/analysis/src/coincidence.rs:26 | from 46,342 to 65,536 letters the wrapped denominator is negative and the index is at most 0 |
| `Coincidence.IcAsWrittenOneLetter` | crates/analysis/src/coincidence.rs:26 | 46,342 to 65,536 copies of one letter have intended index 1 but a negative computed index |
| `Coincidence.WrappedProduct` | crates/analysis/src/coincidence.rs:26 | from 46,342 to 65,536 letters, `n * (n - 1)` wraps exactly once, to n(n-1) - 2^32 < 0 |
| `HashDetector.Detect` | crates/detectors/src/hash.rs:7-29 | answers exactly for hex text of a listed length, with a hash whose digest size matches the length, a confidence in [0.85, 0.95], and the two evidence lines, length line first |
| `HashDetector.NameEntryAgrees` | crates/detectors/src/hash.rs:45-61 | the loop's table gives an entry to exactly the names the signature table uses, for the same algorithm, with a confidence in [0.75, 0.95] |
| `HashDetector.AllCandidates` | crates/detectors/src/hash.rs:31-72 | the candidates are ranked by non-increasing confidence, and a non-empty list comes from hex text and holds at most 4 results |
| `HashDetector.DetectAll` | crates/detectors/src/hash.rs:31-72 | the loop and the sort return `AllCandidates`, ranked by non-increasing confidence |
| `HashDetector.TableNamesBuild` | crates/detectors/src/hash.rs:44-68 | when every name has an entry, the loop builds one result per name, in name order, and `continue` is never taken |
| `HashDetector.BuiltCandidates` | crates/detectors/src/hash.rs:38-68 | for hex text of a table length, one result per candidate name, each the result of that name's entry |
| `HashDetector.BuiltAt` | crates/detectors/src/hash.rs:63-67 | each built result is a hash of the named algorithm, with a matching digest size, a confidence in [0.75, 0.95] and the two evidence lines |
| `HashDetector.AllCandidatesCount` | crates/detectors/src/hash.rs:31-70 | empty exactly for non-hex text or an unlisted length; otherwise one result per candidate name; always ranked by non-increasing confidence |
| `HashDetector.AllCandidatesEntries` | crates/detectors/src/hash.rs:44-70 | every result is a hash whose digest size matches the length, with a confidence in [0.75, 0.95] and the hex note as its second and last evidence line |
| `HashDetector.RankedAt` | crates/detectors/src/hash.rs:70 | sorting only rearranges the built results, so each ranked one keeps their properties |
| `HashDetector.AllCandidatesComplete` | crates/detectors/src/hash.rs:38-70 | every algorithm whose digest size fits hex text appears among the results |
| `HashDetector.PrimaryLeadsTable` | crates/detectors/src/hash.rs:14-22 | the single-guess table and the candidate table cover the same lengths, and the single guess is the first candidate with the highest confidence of its row |
| `HashDetector.RankedHead` | crates/detectors/src/hash.rs:70 | for hex text of a listed length, the primary guess heads the ranking |
| `HashDetector.DetectIsTopCandidate` | crates/detectors/src/hash.rs:14-21 | `detect` answers exactly when `detect_all` is non-empty, with the type and confidence of its first result |
| `HashDetector.AllCandidatesFor512Bits` | crates/detectors/src/hash.rs:70 | the stable ranking for a 128-character digest is SHA512, SHA3-512, Whirlpool, BLAKE2b |
| `HashDetector.Sorted512` | crates/detectors/src/hash.rs:44-70 | the 512-bit row, built and ranked, is SHA512, SHA3-512, Whirlpool, BLAKE2b |
| `HashDetector.SortFour` | crates/detectors/src/hash.rs:70 | confidences 0.85, 0.80, 0.75, 0.80 rank with the last two swapped and the two 0.80 results in input order |
| `EncodingDetector.Detect` | crates/detectors/src/encoding.rs:7-46 | every answer is Base64, hex, binary or Morse, at 0.90 for Base64 and binary and 0.85 otherwise, with at least one evidence line; Base64 and hex carry their two lines in order |
| `EncodingDetector.PriorityOrder` | crates/detectors/src/encoding.rs:12-45 | Base64 exactly when its check passes; each later answer only when every earlier check failed; None exactly when all four fail |
| `EncodingDetector.ReportsBase64Iff` | crates/detectors/src/encoding.rs:12-17 | Base64 exactly when the trimmed length is a multiple of 4, the alphabet is right and there are no three trailing `=`; never for other lengths |
| `EncodingDetector.HexIsBase64Exactly` | crates/detectors/src/encoding.rs:12-21 | for hex text the Base64 check passes exactly when the length is a multiple of 4 |
| `EncodingDetector.ReportsHexIff` | crates/detectors/src/encoding.rs:21-27 | hex exactly when the trimmed text is all hex digits and its length is 2 more than a multiple of 4 |
| `EncodingDetector.BlankInputIsBase64` | crates/detectors/src/encoding.rs:8-17 | empty or all-whitespace input is Base64 at 0.90 with its two evidence lines |
| `EncodingDetector.BinaryWithoutSpacesIsOdd` | crates/detectors/src/encoding.rs:12-35 | a binary answer for text without spaces has odd length |
| `EncodingDetector.MorseStartsWithMark` | crates/detectors/src/encoding.rs:38-43 | a Morse answer is never blank: the trimmed text starts with `.`, `-` or `/` |
| `CipherDetector.Detect` | crates/detectors/src/cipher.rs:7-39 | an answer needs letters and whitespace only; it is Caesar at 0.70 or substitution at 0.65, with exactly two evidence lines: the index first, then "IC similar to natural language" for Caesar or "Possible substitution cipher" for substitution |
| `CipherDetector.Bands` | crates/detectors/src/cipher.rs:21-38 | Caesar exactly for an index in (0.06, 0.08), substitution exactly in (0.055, 0.06], and no answer at or below 0.055 or at or above 0.08 |
| `CipherDetector.TooFewLetters` | crates/detectors/src/cipher.rs:18-38 | text with fewer than two letters gets no answer |
| `CipherDetector.OneLetterRepeated` | crates/detectors/src/cipher.rs:18-38 | text repeating one letter has index 1 and gets no answer |
| `UniversalDetector.Detect` | crates/detectors/src/lib.rs:14-33 | confidence 0 marks exactly the Unknown answer, and there is always evidence |
| `UniversalDetector.DetectPriority` | crates/detectors/src/lib.rs:14-33 | a hash exactly when the hash detector answers, an encoding exactly when it declines and the encoding detector answers, a cipher exactly when only the cipher detector answers, and Unknown at 0.0 with "No pattern matched" exactly when all decline |
| `UniversalDetector.AllResults` | crates/detectors/src/lib.rs:35-62 | never empty, ranked by non-increasing confidence, and at most 6 results (4 hash candidates, an encoding and a cipher answer) |
| `UniversalDetector.DetectAll` | crates/detectors/src/lib.rs:35-62 | returns `AllResults`: never empty and ranked by non-increasing confidence |
| `UniversalDetector.Collect` | crates/detectors/src/lib.rs:38-61 | extending, pushing, the Unknown fallback and the sort give the ranking of the gathered answers |
| `UniversalDetector.RankedLength` | crates/detectors/src/lib.rs:52-60 | the ranking is non-empty and non-increasing, as long as the gathered answers, and just Unknown when there are none |
| `UniversalDetector.RankedUnknown` | crates/detectors/src/lib.rs:52-57 | when no answer is Unknown, Unknown is ranked exactly when there were no answers |
| `UniversalDetector.AllResultsShape` | crates/detectors/src/lib.rs:35-62 | never empty, non-increasing, one result per hash candidate plus the encoding and cipher answers, or only Unknown; Unknown appears exactly when all three detectors decline |
| `UniversalDetector.FirstAnswerRanked` | crates/detectors/src/lib.rs:14-50 | the first answer is among the ranked answers when the hash answer heads the hash list |
| `UniversalDetector.DetectAmongAll` | crates/detectors/src/lib.rs:14-50 | the type and confidence of `detect` occur among the results of `detect_all` |
| `UniversalDetector.TopRankDiffers` | crates/detectors/src/lib.rs:14-60 | for a hex digest of 56, 96 or 128 characters, `detect` is a hash while `detect_all` ranks Base64 first |
| `UniversalDetector.HashesAtMost85` | crates/detectors/src/hash.rs:14-22 | hex digests of 56, 96 or 128 characters get a hash answer and candidates of at most 0.85 |
| `UniversalDetector.HexDigestIsBase64` | crates/detectors/src/encoding.rs:12-17 | hex text whose length is a multiple of 4 is reported as Base64 at 0.90 |
| `UniversalDetector.BaseTopsRanking` | crates/detectors/src/lib.rs:60 | a 0.90 answer outranks hash candidates of at most 0.85 and any cipher answer |
| `Sorting.SortDesc` | crates/detectors/src/lib.rs:60 | the ranking is a permutation of its input, ordered by non-increasing key |
| `Sorting.SortDescStable` | crates/detectors/src/hash.rs:70 | stability: for every key, the elements with that key keep their input order |
| `Sorting.StableSortUnique` | crates/analysis/src/frequency.rs:31 | any stable non-increasing arrangement of the same elements equals `SortDesc` |
| `Sorting.SortDescStrictMax` | crates/detectors/src/lib.rs:60 | an element with a strictly larger key than all others comes first |
| `Sorting.SortDescHead` | crates/detectors/src/hash.rs:70 | a first element with a maximal key stays first |
| `Sorting.DistinctPermutation` | crates/analysis/src/frequency.rs:31 | rearranging a sequence without repetitions keeps it without repetitions |

## Left out

- The command-line front end (`crates/cli/src/main.rs`): argument parsing, coloured output, JSON output and percentage display are presentation and I/O.
- `FrequencyAnalysis::entropy` (crates/analysis/src/frequency.rs:35-47) is out of scope: it needs floating-point `log2`.
- f64 arithmetic. The index of coincidence and `char_frequency` are exact rationals, so rounding near the band edges is not modelled.
- `Coincidence.Ic` upper-cases ASCII letters only. Rust's `to_uppercase` also maps some non-ASCII characters to ASCII letters (ß to SS, ſ to S, the ligature ﬀ to FF), which the original then counts and this model does not.
- `CipherDetector.Detect`, and through it `UniversalDetector.Detect` and `UniversalDetector.DetectAll`, use the intended index `Coincidence.Ic`, not `Coincidence.IcAsWritten`. For texts of 46,342 to 65,536 letters the model can therefore answer Caesar or substitution, while a release build of the source computes an index of at most 0 and gives no cipher answer.
- `Coincidence.IsLikelyEnglish` and `Coincidence.IsLikelyRandom` are likewise stated on the intended index `Coincidence.Ic`. For texts of 46,342 to 65,536 letters a release build of the source computes an index of at most 0, so `is_likely_random` always holds and `is_likely_english` never does, while the model decides both from the intended index.
- `CipherDetector.Detect` admits only ASCII letters, besides whitespace. Rust's `char::is_alphabetic` also admits non-ASCII letters (é, ж), which the original passes to the index and this model rejects.
- Evidence text is not modelled: the `format!` output (the `{:.4}` of the index, the `{:?}` of a hash type) is kept as tokens. The order and the number of evidence lines are modelled exactly.
- `add_evidence` updates the evidence `Vec` of a local, uniquely owned result in place. It is modelled by `Types.DetectionResult.WithEvidence` on values, which is the same for a value nobody else can see. Aliasing plays no part.
- The in-place `sort_by` calls are modelled as the pure `Sorting.SortDesc`, on sequences rather than on a buffer updated in place.
- `Frequency.MostCommonChars` leaves the order among equal counts open. It comes from hash-map iteration order, modelled by the arbitrary choice in `Frequency.Entries`.
- `Coincidence.SumPairs` adds up f(f-1) over the 26 letters, with 0 for an absent letter, rather than over the map's values. The sum is the same because `Coincidence.CountLetters` leaves only upper-case letters as keys.
- `Coincidence.Calculate` and `Coincidence.Ic` compute the index as intended, with unbounded integers. In the source `n` is an `i32`, so `n * (n - 1)` overflows from 46,342 letters on: a debug build panics, and a release build wraps. The wrap is modelled by `Coincidence.IcAsWritten` (see Findings). The panic is not modelled, and neither is `usize` overflow of the letter counts and of f(f-1), which needs more than 2^32 copies of one letter.
- Serde `Serialize`/`Deserialize`, the `Display` impl of `CipherType` (crates/core/src/types.rs:58-67) and the unused `CipherError` type.
- The encoding detector builds a `FrequencyAnalysis` of the trimmed text only to ask `is_hex_only`. The model builds the same value with `Frequency.Analyze`.

## Findings

| source | as written | input that shows it | evidently intended | confidence | as-written member | corrected member |
|---|---|---|---|---|---|---|
| crates/analysis/src/coincidence.rs:12-26 | `n` is an `i32` (integer fallback), so `n * (n - 1)` overflows once n ≥ 46,342: a debug build panics, and a release build wraps to a negative denominator | 46,342 copies of `a`: n(n-1) = 2,147,534,622 wraps to -2,147,432,674, so the index is about -1.00005 instead of 1; English prose of that length gets an index ≤ 0, so it reads as random and the cipher detector gives no answer | the exact Σf(f-1) / (n(n-1)), a value in [0, 1] | not executed | `Coincidence.IcAsWritten` (`Coincidence.IcAsWrittenOneLetter`, `Coincidence.IcAsWrittenNonPositive`) | `Coincidence.Ic` (`Coincidence.Calculate`) |
