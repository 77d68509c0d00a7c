/**
  The aggregator. `Detect` asks the hash, encoding and cipher detectors
  in that order and keeps the first answer; `DetectAll` gathers every
  answer and ranks them by confidence. When nobody answers, the result is
  Unknown at confidence 0.
 */
module UniversalDetector {
  import opened Types
  import opened Text
  import opened Sorting
  import HashDetector
  import EncodingDetector
  import CipherDetector

  const NoMatch: Evidence := Note("No pattern matched")

  /** The fallback answer: Unknown, confidence 0, one evidence line. */
  const UnknownResult: DetectionResult := NewResult(Unknown, 0).WithEvidence(NoMatch)

  /**
    The first answer among the hash, encoding and cipher answers, in that
    order, else Unknown.
   */
  function FirstAnswer(h: Option<DetectionResult>, e: Option<DetectionResult>, c: Option<DetectionResult>): DetectionResult
  {
    match h
    case Some(r) => r
    case None =>
      match e
      case Some(r) => r
      case None =>
        match c
        case Some(r) => r
        case None => UnknownResult
  }

  /**
    `UniversalDetector::detect`: the first answer of hash, encoding and
    cipher detection, in that order, else Unknown. Confidence 0 marks
    exactly the Unknown answer, and there is always evidence.
   */
  function Detect(input: string): (r: DetectionResult)
    ensures r.confidence == 0 <==> r.cipherType == Unknown
    ensures r.evidence != []
  {
    FirstAnswer(HashDetector.Detect(input), EncodingDetector.Detect(input), CipherDetector.Detect(input))
  }

  /** None of the three detectors answers. */
  predicate AllDecline(input: string)
  {
    && HashDetector.Detect(input).None?
    && EncodingDetector.Detect(input).None?
    && CipherDetector.Detect(input).None?
  }

  /**
    Which detector `detect` listens to: the answer is a hash exactly when
    the hash detector answers, an encoding exactly when the hash detector
    declines and the encoding detector answers, a cipher exactly when only
    the cipher detector answers, and Unknown exactly when all decline.
   */
  lemma DetectPriority(input: string)
    ensures Detect(input).cipherType.Hash? <==> HashDetector.Detect(input).Some?
    ensures Detect(input).cipherType.Encoding? <==>
      HashDetector.Detect(input).None? && EncodingDetector.Detect(input).Some?
    ensures Detect(input).cipherType.Cipher? <==>
      HashDetector.Detect(input).None? && EncodingDetector.Detect(input).None? && CipherDetector.Detect(input).Some?
    ensures Detect(input).cipherType.Unknown? <==> AllDecline(input)
    ensures AllDecline(input) ==> Detect(input) == DetectionResult(Unknown, 0, [NoMatch])
  {
    var h, e, c := HashDetector.Detect(input), EncodingDetector.Detect(input), CipherDetector.Detect(input);
    assert Detect(input) == FirstAnswer(h, e, c);
    assert h.Some? ==> h.value.cipherType.Hash?;
    assert e.Some? ==> e.value.cipherType.Encoding?;
    assert c.Some? ==> c.value.cipherType.Cipher?;
  }

  function Optional(o: Option<DetectionResult>): seq<DetectionResult>
  {
    if o.Some? then [o.value] else []
  }

  /** The answers gathered, with the Unknown fallback when there are none, ranked. */
  function Ranked(hs: seq<DetectionResult>, e: Option<DetectionResult>, c: Option<DetectionResult>): seq<DetectionResult>
  {
    var all := hs + Optional(e) + Optional(c);
    SortDesc(if all == [] then [UnknownResult] else all, Conf)
  }

  /**
    What `detect_all` returns: never empty, ranked by non-increasing
    confidence, and at most six results (four hash candidates, one
    encoding, one cipher).
   */
  function AllResults(input: string): (rs: seq<DetectionResult>)
    ensures rs != [] && NonIncreasing(rs, Conf)
    ensures |rs| <= 6
  {
    RankedLength(HashDetector.AllCandidates(input), EncodingDetector.Detect(input), CipherDetector.Detect(input));
    Ranked(HashDetector.AllCandidates(input), EncodingDetector.Detect(input), CipherDetector.Detect(input))
  }

  /**
    `UniversalDetector::detect_all`: extend with every hash candidate, push
    the encoding and the cipher answers, fall back to Unknown when the list
    is still empty, and sort by descending confidence.
   */
  method DetectAll(input: string) returns (results: seq<DetectionResult>)
    ensures results == AllResults(input)
    ensures results != [] && NonIncreasing(results, Conf)
  {
    var hashResults := HashDetector.DetectAll(input);
    var encoding := EncodingDetector.Detect(input);
    var cipher := CipherDetector.Detect(input);
    results := Collect(hashResults, encoding, cipher);
  }

  /** The gathering and ranking steps of `detect_all`, on the three detectors' answers. */
  method Collect(hs: seq<DetectionResult>, encoding: Option<DetectionResult>, cipher: Option<DetectionResult>)
    returns (results: seq<DetectionResult>)
    ensures results == Ranked(hs, encoding, cipher)
    ensures results != [] && NonIncreasing(results, Conf)
  {
    results := [];
    results := results + hs;
    if encoding.Some? {
      results := results + [encoding.value];
    }
    if cipher.Some? {
      results := results + [cipher.value];
    }
    assert results == hs + Optional(encoding) + Optional(cipher);
    if results == [] {
      results := results + [UnknownResult];
    }
    results := SortDesc(results, Conf);
    RankedLength(hs, encoding, cipher);
  }

  /**
    The ranking is never empty, is non-increasing, and is as long as the
    gathered answers, or 1 when there are none, in which case it is just
    Unknown.
   */
  lemma RankedLength(hs: seq<DetectionResult>, e: Option<DetectionResult>, c: Option<DetectionResult>)
    ensures var rs := Ranked(hs, e, c); var none := hs == [] && e.None? && c.None?;
      && rs != [] && NonIncreasing(rs, Conf)
      && |rs| == (if none then 1 else |hs| + |Optional(e)| + |Optional(c)|)
      && (none ==> rs == [UnknownResult])
  {
    var all := hs + Optional(e) + Optional(c);
    assert all == [] <==> hs == [] && e.None? && c.None?;
  }

  /** When no gathered answer is Unknown, Unknown is ranked exactly when there were none. */
  lemma RankedUnknown(hs: seq<DetectionResult>, e: Option<DetectionResult>, c: Option<DetectionResult>)
    requires forall i :: 0 <= i < |hs| ==> !hs[i].cipherType.Unknown?
    requires e.Some? ==> !e.value.cipherType.Unknown?
    requires c.Some? ==> !c.value.cipherType.Unknown?
    ensures var rs := Ranked(hs, e, c);
      (exists i :: 0 <= i < |rs| && rs[i].cipherType == Unknown) <==> hs == [] && e.None? && c.None?
  {
    var all := hs + Optional(e) + Optional(c);
    var rs := Ranked(hs, e, c);
    RankedLength(hs, e, c);
    if all != [] {
      GatheredKnown(hs, e, c);
      PermutationKnown(all, rs);
    } else {
      assert rs[0].cipherType == Unknown;
    }
  }

  lemma GatheredKnown(hs: seq<DetectionResult>, e: Option<DetectionResult>, c: Option<DetectionResult>)
    requires forall i :: 0 <= i < |hs| ==> !hs[i].cipherType.Unknown?
    requires e.Some? ==> !e.value.cipherType.Unknown?
    requires c.Some? ==> !c.value.cipherType.Unknown?
    ensures var all := hs + Optional(e) + Optional(c);
      forall i :: 0 <= i < |all| ==> !all[i].cipherType.Unknown?
  {
  }

  lemma PermutationKnown(all: seq<DetectionResult>, rs: seq<DetectionResult>)
    requires multiset(all) == multiset(rs)
    requires forall i :: 0 <= i < |all| ==> !all[i].cipherType.Unknown?
    ensures forall i :: 0 <= i < |rs| ==> !rs[i].cipherType.Unknown?
  {
    forall i | 0 <= i < |rs| ensures !rs[i].cipherType.Unknown? {
      assert rs[i] in multiset(all);
    }
  }

  /**
    `detect_all` is never empty and is ranked by non-increasing
    confidence. It holds one result per hash candidate plus one for each
    of the encoding and cipher answers, or just the Unknown fallback when
    all three detectors decline; Unknown appears exactly then.
   */
  lemma AllResultsShape(input: string)
    ensures AllResults(input) != [] && NonIncreasing(AllResults(input), Conf)
    ensures |AllResults(input)| ==
      if AllDecline(input) then 1
      else |HashDetector.AllCandidates(input)|
           + |Optional(EncodingDetector.Detect(input))|
           + |Optional(CipherDetector.Detect(input))|
    ensures AllDecline(input) ==> AllResults(input) == [UnknownResult]
    ensures (exists i :: 0 <= i < |AllResults(input)| && AllResults(input)[i].cipherType == Unknown)
            <==> AllDecline(input)
  {
    HashDetector.AllCandidatesEntries(input);
    HashDetector.DetectIsTopCandidate(input);
    var hs, e, c := HashDetector.AllCandidates(input), EncodingDetector.Detect(input), CipherDetector.Detect(input);
    RankedLength(hs, e, c);
    RankedUnknown(hs, e, c);
  }

  /** The first answer is among the ranked answers, when the hash answer heads the hash list. */
  lemma FirstAnswerRanked(hs: seq<DetectionResult>, h: Option<DetectionResult>, e: Option<DetectionResult>, c: Option<DetectionResult>)
    requires h.Some? <==> hs != []
    requires h.Some? ==> hs[0].cipherType == h.value.cipherType && hs[0].confidence == h.value.confidence
    ensures var rs := Ranked(hs, e, c); var d := FirstAnswer(h, e, c);
      exists i :: 0 <= i < |rs| && rs[i].cipherType == d.cipherType && rs[i].confidence == d.confidence
  {
    var all := hs + Optional(e) + Optional(c);
    var rs := Ranked(hs, e, c);
    var x := if h.Some? then hs[0] else FirstAnswer(h, e, c);
    if all != [] {
      assert x == all[0];
      assert x in multiset(all);
    } else {
      assert x == UnknownResult;
    }
    assert x in multiset(rs);
    var i :| 0 <= i < |rs| && rs[i] == x;
  }

  /** The answer of `detect` is among the answers of `detect_all`, with the same confidence. */
  lemma DetectAmongAll(input: string)
    ensures exists i ::
              && 0 <= i < |AllResults(input)|
              && AllResults(input)[i].cipherType == Detect(input).cipherType
              && AllResults(input)[i].confidence == Detect(input).confidence
  {
    var hs, h := HashDetector.AllCandidates(input), HashDetector.Detect(input);
    var e, c := EncodingDetector.Detect(input), CipherDetector.Detect(input);
    HashDetector.DetectIsTopCandidate(input);
    FirstAnswerRanked(hs, h, e, c);
    assert AllResults(input) == Ranked(hs, e, c);
    assert Detect(input) == FirstAnswer(h, e, c);
  }

  /**
    `detect` and the head of `detect_all` can disagree: a hex digest of 56,
    96 or 128 characters is reported by `detect` as a hash, while
    `detect_all` ranks Base64 (0.90) above every hash candidate (at most
    0.85).
   */
  lemma TopRankDiffers(input: string)
    requires AllHex(Trim(input)) && |Trim(input)| in {56, 96, 128}
    ensures Detect(input).cipherType.Hash?
    ensures AllResults(input)[0].cipherType == Encoding(Base64)
  {
    var hs, h := HashDetector.AllCandidates(input), HashDetector.Detect(input);
    var e, c := EncodingDetector.Detect(input), CipherDetector.Detect(input);
    HashesAtMost85(input);
    var n := |Trim(input)|;
    assert n % 4 == 0 by {
      assert n == 56 || n == 96 || n == 128;
    }
    HexDigestIsBase64(input);
    BaseTopsRanking(hs, e.value, c);
    assert AllResults(input) == Ranked(hs, e, c);
    assert Detect(input) == FirstAnswer(h, e, c);
  }

  /** Hex digests of 56, 96 or 128 characters are hashes ranked at 0.85 or less. */
  lemma HashesAtMost85(input: string)
    requires AllHex(Trim(input)) && |Trim(input)| in {56, 96, 128}
    ensures HashDetector.Detect(input).Some?
    ensures var hs := HashDetector.AllCandidates(input);
      forall i :: 0 <= i < |hs| ==> Conf(hs[i]) <= 85
  {
    HashDetector.DetectIsTopCandidate(input);
    HashDetector.AllCandidatesCount(input);
    var hs := HashDetector.AllCandidates(input);
    forall i | 0 <= i < |hs| ensures Conf(hs[i]) <= 85 {
      assert Conf(hs[i]) <= Conf(hs[0]);
    }
  }

  /** Hex text whose length is a multiple of 4 is reported as Base64 at 0.90. */
  lemma HexDigestIsBase64(input: string)
    requires AllHex(Trim(input)) && |Trim(input)| % 4 == 0
    ensures var e := EncodingDetector.Detect(input);
      e.Some? && e.value.cipherType == Encoding(Base64) && e.value.confidence == 90
  {
    EncodingDetector.HexIsBase64Exactly(Trim(input));
    EncodingDetector.PriorityOrder(input);
  }

  /** A 0.90 answer outranks hash candidates of at most 0.85 and any cipher answer. */
  lemma BaseTopsRanking(hs: seq<DetectionResult>, b: DetectionResult, c: Option<DetectionResult>)
    requires b.confidence == 90
    requires forall i :: 0 <= i < |hs| ==> Conf(hs[i]) <= 85
    requires c.Some? ==> c.value.confidence <= 70
    ensures Ranked(hs, Some(b), c)[0] == b
  {
    var all := hs + [b] + Optional(c);
    assert all[|hs|] == b;
    forall i | 0 <= i < |all| && all[i] != b ensures Conf(all[i]) < Conf(b) {
      if i < |hs| {
        assert all[i] == hs[i];
      } else if i > |hs| {
        assert all[i] == c.value;
      }
    }
    SortDescStrictMax(all, Conf, b);
  }
}
