/**
  The hash detector: a trimmed string of hex digits whose length is that of
  a known digest. `Detect` makes one guess per length; `DetectAll` lists
  every algorithm the signature table allows, ranked by confidence.
 */
module HashDetector {
  import opened Types
  import opened Text
  import opened Sorting
  import opened Signature

  /** The fixed second evidence line of every hash result. */
  const HexNote: Evidence := Note("Hexadecimal characters only")

  /** The single guess `detect` makes for a hex string of `len` bytes. */
  function PrimaryForLength(len: nat): Option<(HashType, nat)>
  {
    match len
    case 32 => Some((MD5, 95))
    case 40 => Some((SHA1, 90))
    case 56 => Some((SHA224, 85))
    case 64 => Some((SHA256, 90))
    case 96 => Some((SHA384, 85))
    case 128 => Some((SHA512, 85))
    case _ => None
  }

  /**
    `HashDetector::detect`: hex text of a digest length gives the primary
    algorithm for that length, with two evidence lines; anything else gives
    None.
   */
  function Detect(input: string): (r: Option<DetectionResult>)
    ensures var t := Trim(input);
      r.Some? <==> AllHex(t) && |t| in {32, 40, 56, 64, 96, 128}
    ensures r.Some? ==>
      && r.value.cipherType.Hash?
      && DigestBits(r.value.cipherType.hash) == 4 * |Trim(input)|
      && r.value.evidence == [MatchesLength(r.value.cipherType.hash), HexNote]
      && 85 <= r.value.confidence <= 95
  {
    var t := Trim(input);
    if !AllHex(t) then None
    else
      HexIsAscii(t);
      match PrimaryForLength(Utf8Length(t))
      case None => None
      case Some((h, c)) => Some(NewResult(Hash(h), c).WithEvidence(MatchesLength(h)).WithEvidence(HexNote))
  }

  /** The `(algorithm, confidence)` that `detect_all` gives a table name; None means `continue`. */
  function NameEntry(name: string): Option<(HashType, nat)>
  {
    match name
    case "MD5" => Some((MD5, 95))
    case "SHA1" => Some((SHA1, 90))
    case "SHA224" => Some((SHA224, 85))
    case "SHA256" => Some((SHA256, 90))
    case "SHA384" => Some((SHA384, 85))
    case "SHA512" => Some((SHA512, 85))
    case "SHA3-224" => Some((SHA3_224, 80))
    case "SHA3-256" => Some((SHA3_256, 80))
    case "SHA3-384" => Some((SHA3_384, 80))
    case "SHA3-512" => Some((SHA3_512, 80))
    case "BLAKE2b" => Some((BLAKE2b, 75))
    case "BLAKE2s" => Some((BLAKE2s, 75))
    case "RIPEMD160" => Some((RIPEMD160, 85))
    case "Whirlpool" => Some((Whirlpool, 80))
    case _ => None
  }

  /**
    The entries of `detect_all` name the same algorithms as the signature
    table's names, with confidences between 0.75 and 0.95.
   */
  lemma NameEntryAgrees(name: string)
    ensures NameEntry(name).Some? <==> NamedHash(name).Some?
    ensures NameEntry(name).Some? ==>
      NameEntry(name).value.0 == NamedHash(name).value && 75 <= NameEntry(name).value.1 <= 95
  {
  }

  /** The result `detect_all` builds for one table name. */
  function Candidate(name: string, h: HashType, c: nat, len: nat): DetectionResult
  {
    NewResult(Hash(h), c).WithEvidence(MatchesNamedLength(name, len)).WithEvidence(HexNote)
  }

  /** The results of the loop of `detect_all`, in table order, before sorting. */
  function BuildResults(names: seq<string>, len: nat): (rs: seq<DetectionResult>)
    ensures |rs| <= |names|
  {
    if names == [] then []
    else
      var rest := BuildResults(names[..|names| - 1], len);
      var name := names[|names| - 1];
      match NameEntry(name)
      case None => rest
      case Some((h, c)) => rest + [Candidate(name, h, c, len)]
  }

  /**
    What `detect_all` returns for `input`: at most four results, ranked by
    non-increasing confidence, and none unless the trimmed text is hex.
   */
  function AllCandidates(input: string): (rs: seq<DetectionResult>)
    ensures NonIncreasing(rs, Conf)
    ensures rs != [] ==> AllHex(Trim(input)) && |rs| <= 4
  {
    var t := Trim(input);
    if !AllHex(t) then []
    else
      match CheckHashLength(t)
      case None => []
      case Some(names) => SortDesc(BuildResults(names, Utf8Length(t)), Conf)
  }

  /**
    `HashDetector::detect_all`: one pass over the candidate names, building
    a result for each, then the stable sort by descending confidence.
   */
  method DetectAll(input: string) returns (results: seq<DetectionResult>)
    ensures results == AllCandidates(input)
    ensures NonIncreasing(results, Conf)
  {
    var t := Trim(input);
    if !AllHex(t) {
      return [];
    }
    var possible := CheckHashLength(t);
    if possible.None? {
      return [];
    }
    var names := possible.value;
    var len := Utf8Length(t);
    results := [];
    for i := 0 to |names|
      invariant results == BuildResults(names[..i], len)
    {
      var name := names[i];
      assert names[..i + 1][..i] == names[..i];
      var entry := NameEntry(name);
      if entry.None? {
        continue;
      }
      var (h, c) := entry.value;
      var result := NewResult(Hash(h), c);
      result := result.WithEvidence(MatchesNamedLength(name, len));
      result := result.WithEvidence(HexNote);
      results := results + [result];
    }
    assert names[..|names|] == names;
    results := SortDesc(results, Conf);
  }

  /** The result built for a name that has an entry. */
  function CandidateOf(name: string, len: nat): DetectionResult
    requires NameEntry(name).Some?
  {
    Candidate(name, NameEntry(name).value.0, NameEntry(name).value.1, len)
  }

  /** Every name of the table has an entry, so the loop builds one result per name. */
  lemma {:induction false} TableNamesBuild(names: seq<string>, len: nat)
    requires forall i :: 0 <= i < |names| ==> NameEntry(names[i]).Some?
    ensures |BuildResults(names, len)| == |names|
    ensures forall i :: 0 <= i < |names| ==> BuildResults(names, len)[i] == CandidateOf(names[i], len)
  {
    if names != [] {
      var init := names[..|names| - 1];
      assert forall i :: 0 <= i < |init| ==> init[i] == names[i];
      TableNamesBuild(init, len);
      BuildSnoc(names, len);
      var prefix := BuildResults(init, len);
      var built := prefix + [CandidateOf(names[|names| - 1], len)];
      forall i | 0 <= i < |names| ensures built[i] == CandidateOf(names[i], len) {
        if i < |init| {
          assert built[i] == prefix[i] && names[i] == init[i];
        } else {
          assert i == |prefix|;
        }
      }
    }
  }

  /** A name with an entry adds its result at the end. */
  lemma BuildSnoc(names: seq<string>, len: nat)
    requires names != [] && NameEntry(names[|names| - 1]).Some?
    ensures BuildResults(names, len)
         == BuildResults(names[..|names| - 1], len) + [CandidateOf(names[|names| - 1], len)]
  {
  }

  /**
    For hex text of a table length, the loop builds one result per
    candidate name, in order: the result of that name's entry.
   */
  lemma BuiltCandidates(t: string)
    requires AllHex(t) && CheckHashLength(t).Some?
    ensures Utf8Length(t) == |t|
    ensures var names := CheckHashLength(t).value; var built := BuildResults(names, |t|);
      && |built| == |names|
      && forall i :: 0 <= i < |names| ==> NameEntry(names[i]).Some? && built[i] == CandidateOf(names[i], |t|)
  {
    HexIsAscii(t);
    var names := CheckHashLength(t).value;
    CheckHashLengthSound(t);
    forall i | 0 <= i < |names| ensures NameEntry(names[i]).Some? {
      NameEntryAgrees(names[i]);
    }
    TableNamesBuild(names, |t|);
  }

  /**
    The i-th result built for hex text of a table length is a hash of the
    algorithm its name stands for, whose digest has 4 * |t| bits, with a
    confidence between 0.75 and 0.95 and the two evidence lines.
   */
  lemma BuiltAt(t: string, i: nat)
    requires AllHex(t) && CheckHashLength(t).Some?
    requires i < |BuildResults(CheckHashLength(t).value, |t|)|
    ensures var names := CheckHashLength(t).value; var r := BuildResults(names, |t|)[i];
      && i < |names| && NamedHash(names[i]).Some?
      && r.cipherType == Hash(NamedHash(names[i]).value)
      && DigestBits(NamedHash(names[i]).value) == 4 * |t|
      && 75 <= r.confidence <= 95
      && r.evidence == [MatchesNamedLength(names[i], |t|), HexNote]
      && r.cipherType.Hash? && DigestBits(r.cipherType.hash) == 4 * |t|
      && |r.evidence| == 2 && r.evidence[1] == HexNote
  {
    var names := CheckHashLength(t).value;
    BuiltCandidates(t);
    CheckHashLengthSound(t);
    NameEntryAgrees(names[i]);
  }

  /** What `detect_all` ranks for hex text of a table length. */
  lemma {:induction false} AllCandidatesOfHex(input: string)
    requires AllHex(Trim(input)) && CheckHashLength(Trim(input)).Some?
    ensures var t := Trim(input);
      AllCandidates(input) == SortDesc(BuildResults(CheckHashLength(t).value, |t|), Conf)
  {
    HexIsAscii(Trim(input));
  }

  /**
    `detect_all` yields one result per candidate name of the signature
    table, so nothing at all for non-hex text or a length outside the
    table, and the list is ranked by non-increasing confidence.
   */
  lemma AllCandidatesCount(input: string)
    ensures var t := Trim(input);
      AllCandidates(input) == [] <==> !(AllHex(t) && |t| in {32, 40, 56, 64, 96, 128})
    ensures AllCandidates(input) != [] ==>
      |AllCandidates(input)| == |CheckHashLength(Trim(input)).value|
    ensures NonIncreasing(AllCandidates(input), Conf)
  {
    var t := Trim(input);
    if AllHex(t) {
      HexIsAscii(t);
      if CheckHashLength(t).Some? {
        BuiltCandidates(t);
        AllCandidatesOfHex(input);
      }
    }
  }

  /**
    Each result of `detect_all` is a hash whose digest size matches the
    length of the text, with a confidence between 0.75 and 0.95 and two
    evidence lines, the second of them the hex note.
   */
  lemma AllCandidatesEntries(input: string)
    ensures var rs := AllCandidates(input);
      forall i :: 0 <= i < |rs| ==>
        && rs[i].cipherType.Hash?
        && DigestBits(rs[i].cipherType.hash) == 4 * |Trim(input)|
        && 75 <= rs[i].confidence <= 95
        && |rs[i].evidence| == 2 && rs[i].evidence[1] == HexNote
  {
    var t := Trim(input);
    if AllHex(t) && CheckHashLength(t).Some? {
      AllCandidatesOfHex(input);
      var built := BuildResults(CheckHashLength(t).value, |t|);
      var rs := SortDesc(built, Conf);
      forall i | 0 <= i < |rs|
        ensures && rs[i].cipherType.Hash?
                && DigestBits(rs[i].cipherType.hash) == 4 * |t|
                && 75 <= rs[i].confidence <= 95
                && |rs[i].evidence| == 2 && rs[i].evidence[1] == HexNote
      {
        RankedAt(t, i);
      }
    }
  }

  /** Ranking moves the built results around, so each ranked result is one of them. */
  lemma RankedAt(t: string, i: nat)
    requires AllHex(t) && CheckHashLength(t).Some?
    requires i < |SortDesc(BuildResults(CheckHashLength(t).value, |t|), Conf)|
    ensures var r := SortDesc(BuildResults(CheckHashLength(t).value, |t|), Conf)[i];
      && r.cipherType.Hash? && DigestBits(r.cipherType.hash) == 4 * |t|
      && 75 <= r.confidence <= 95
      && |r.evidence| == 2 && r.evidence[1] == HexNote
  {
    var built := BuildResults(CheckHashLength(t).value, |t|);
    var rs := SortDesc(built, Conf);
    assert rs[i] in multiset(built);
    var k :| 0 <= k < |built| && built[k] == rs[i];
    BuiltAt(t, k);
  }

  /**
    Every algorithm whose digest fits the length of hex text appears among
    the results of `detect_all`.
   */
  lemma AllCandidatesComplete(input: string, h: HashType)
    requires AllHex(Trim(input)) && DigestBits(h) == 4 * |Trim(input)|
    ensures exists i :: 0 <= i < |AllCandidates(input)| && AllCandidates(input)[i].cipherType == Hash(h)
  {
    var t := Trim(input);
    CheckHashLengthComplete(t, h);
    var names := CheckHashLength(t).value;
    var k :| 0 <= k < |names| && NamedHash(names[k]) == Some(h);
    BuiltCandidates(t);
    var built := BuildResults(names, |t|);
    BuiltAt(t, k);
    var rs := SortDesc(built, Conf);
    AllCandidatesOfHex(input);
    assert built[k] in multiset(rs);
    var j :| 0 <= j < |rs| && rs[j] == built[k];
  }

  /**
    In every row of the signature table the first name is the primary
    guess of `detect` for that length, and no later name has a higher
    confidence.
   */
  lemma PrimaryLeadsTable(len: nat)
    ensures HashNamesForLength(len).Some? <==> PrimaryForLength(len).Some?
    ensures HashNamesForLength(len).Some? ==>
      var names := HashNamesForLength(len).value;
      && NameEntry(names[0]) == PrimaryForLength(len)
      && forall i :: 0 <= i < |names| ==>
           NameEntry(names[i]).Some? && NameEntry(names[i]).value.1 <= NameEntry(names[0]).value.1
  {
  }

  /** For hex text of a table length, the primary guess heads the ranking. */
  lemma RankedHead(t: string)
    requires AllHex(t) && CheckHashLength(t).Some?
    ensures PrimaryForLength(|t|).Some?
    ensures var ranked := SortDesc(BuildResults(CheckHashLength(t).value, |t|), Conf);
      && ranked != []
      && ranked[0].cipherType == Hash(PrimaryForLength(|t|).value.0)
      && ranked[0].confidence == PrimaryForLength(|t|).value.1
  {
    HexIsAscii(t);
    BuiltCandidates(t);
    PrimaryLeadsTable(|t|);
    var names := CheckHashLength(t).value;
    var built := BuildResults(names, |t|);
    NameEntryAgrees(names[0]);
    forall i | 0 <= i < |built| ensures Conf(built[i]) <= Conf(built[0]) {
    }
    SortDescHead(built, Conf);
  }

  /**
    The single guess of `detect` is the top-ranked result of `detect_all`:
    both exist for the same inputs, and the first result of `detect_all`
    has the algorithm and the confidence `detect` reports.
   */
  lemma DetectIsTopCandidate(input: string)
    ensures Detect(input).Some? <==> AllCandidates(input) != []
    ensures Detect(input).Some? ==>
      && AllCandidates(input)[0].cipherType == Detect(input).value.cipherType
      && AllCandidates(input)[0].confidence == Detect(input).value.confidence
  {
    AllCandidatesCount(input);
    var t := Trim(input);
    if Detect(input).Some? {
      HexIsAscii(t);
      AllCandidatesOfHex(input);
      RankedHead(t);
    }
  }

  /** The four results for a 512-bit digest, ranked. */
  lemma Ranked512(t: string)
    requires AllHex(t) && |t| == 128
    ensures CheckHashLength(t).Some?
    ensures var ranked := SortDesc(BuildResults(CheckHashLength(t).value, |t|), Conf);
      && |ranked| == 4
      && ranked[0].cipherType == Hash(SHA512) && ranked[1].cipherType == Hash(SHA3_512)
      && ranked[2].cipherType == Hash(Whirlpool) && ranked[3].cipherType == Hash(BLAKE2b)
  {
    HexIsAscii(t);
    assert CheckHashLength(t).value == ["SHA512", "SHA3-512", "BLAKE2b", "Whirlpool"];
    Sorted512(|t|);
  }

  /** The 512-bit row of the table, built and ranked. */
  lemma Sorted512(len: nat)
    ensures var ranked := SortDesc(BuildResults(["SHA512", "SHA3-512", "BLAKE2b", "Whirlpool"], len), Conf);
      && |ranked| == 4
      && ranked[0].cipherType == Hash(SHA512) && ranked[1].cipherType == Hash(SHA3_512)
      && ranked[2].cipherType == Hash(Whirlpool) && ranked[3].cipherType == Hash(BLAKE2b)
  {
    var c1, c2 := Candidate("SHA512", SHA512, 85, len), Candidate("SHA3-512", SHA3_512, 80, len);
    var c3, c4 := Candidate("BLAKE2b", BLAKE2b, 75, len), Candidate("Whirlpool", Whirlpool, 80, len);
    Build512(len);
    SortFour(c1, c2, c3, c4);
  }

  lemma Build512(len: nat)
    ensures BuildResults(["SHA512", "SHA3-512", "BLAKE2b", "Whirlpool"], len)
         == [Candidate("SHA512", SHA512, 85, len), Candidate("SHA3-512", SHA3_512, 80, len),
             Candidate("BLAKE2b", BLAKE2b, 75, len), Candidate("Whirlpool", Whirlpool, 80, len)]
  {
    var n3 := ["SHA512", "SHA3-512", "BLAKE2b"];
    var n4 := ["SHA512", "SHA3-512", "BLAKE2b", "Whirlpool"];
    Build512Prefix(len);
    Entries512();
    assert n3[..2] == ["SHA512", "SHA3-512"] && n4[..3] == n3;
    BuildSnoc(n3, len);
    BuildSnoc(n4, len);
  }

  lemma Build512Prefix(len: nat)
    ensures BuildResults(["SHA512", "SHA3-512"], len)
         == [Candidate("SHA512", SHA512, 85, len), Candidate("SHA3-512", SHA3_512, 80, len)]
  {
    var n1, n2 := ["SHA512"], ["SHA512", "SHA3-512"];
    Entries512();
    assert n1[..0] == [] && n2[..1] == n1;
    BuildSnoc(n1, len);
    BuildSnoc(n2, len);
  }

  lemma Entries512()
    ensures NameEntry("SHA512") == Some((SHA512, 85)) && NameEntry("SHA3-512") == Some((SHA3_512, 80))
    ensures NameEntry("BLAKE2b") == Some((BLAKE2b, 75)) && NameEntry("Whirlpool") == Some((Whirlpool, 80))
  {
  }

  /** The stable ranking of four results with confidences 0.85, 0.80, 0.75, 0.80. */
  lemma SortFour(a: DetectionResult, b: DetectionResult, c: DetectionResult, d: DetectionResult)
    requires Conf(a) == 85 && Conf(b) == 80 && Conf(c) == 75 && Conf(d) == 80
    ensures SortDesc([a, b, c, d], Conf) == [a, b, d, c]
  {
    SwapLastTwo(a, b, c, d, Conf);
  }

  /**
    Ranking is stable: for a 128-character hex digest, the order is SHA512
    (0.85), then SHA3-512 and Whirlpool (0.80, in table order), then
    BLAKE2b (0.75).
   */
  lemma AllCandidatesFor512Bits(input: string)
    requires AllHex(Trim(input)) && |Trim(input)| == 128
    ensures |AllCandidates(input)| == 4
    ensures AllCandidates(input)[0].cipherType == Hash(SHA512)
    ensures AllCandidates(input)[1].cipherType == Hash(SHA3_512)
    ensures AllCandidates(input)[2].cipherType == Hash(Whirlpool)
    ensures AllCandidates(input)[3].cipherType == Hash(BLAKE2b)
  {
    Ranked512(Trim(input));
    AllCandidatesOfHex(input);
  }
}
