/** The encoding detective: it scores a text against nine encodings, decodes it with the
    best-scoring one (or the second best when the best gives nothing new), and repeats on the
    result for up to 20 layers. */
module EncodingDetective {
  import opened Text
  import opened Wrappers
  import opened Js
  import opened HtmlEntities
  import Base32Tool
  import HexTool
  import BinaryTool
  import AsciiTool
  import Rot13Tool
  import MorseTable = Morse

  datatype Encoding = Base64 | Base32 | Hex | Binary | Url | Html | Ascii | Rot13 | Morse

  /** The encodings in the order of the pattern table, which is the order they are tried. */
  const Encodings: seq<Encoding> := [Base64, Base32, Hex, Binary, Url, Html, Ascii, Rot13, Morse]

  lemma EncodingsComplete(e: Encoding)
    ensures e in Encodings
  {
  }

  function MinLength(e: Encoding): nat
  {
    match e
    case Base64 => 4
    case Base32 => 8
    case Hex => 2
    case Binary => 8
    case Url => 3
    case Html => 3
    case Ascii => 2
    case Rot13 => 1
    case Morse => 3
  }

  // Pattern tests

  /** `str.replace(/\s/g, '')`. */
  function Squeeze(s: JsString): (r: JsString)
    ensures NoSpace(r)
  {
    Filter(s, NotSpace)
  }

  predicate IsBase64Char(c: CodeUnit) { IsAlnum(c) || c == '+' as int || c == '/' as int }

  /** The start of the run of `=` that ends `s[..j]`. */
  function PadRunStart(s: JsString, j: nat): (i: nat)
    requires j <= |s|
    ensures i <= j
    ensures forall k | i <= k < j :: s[k] == Base32Tool.Pad
    ensures i > 0 ==> s[i - 1] != Base32Tool.Pad
    decreases j
  {
    if j > 0 && s[j - 1] == Base32Tool.Pad then PadRunStart(s, j - 1) else j
  }

  /** `s` is base-64 characters followed by `n` padding characters. */
  predicate Base64Split(s: JsString, n: nat)
  {
    n <= |s| && (forall k | 0 <= k < |s| - n :: IsBase64Char(s[k])) && (forall k | |s| - n <= k < |s| :: s[k] == Base32Tool.Pad)
  }

  /** `/^[A-Za-z0-9+/]*={0,2}$/.test(s)`, decided by the run of `=` at the end: `=` is not a
      base-64 character, so the characters before that run must all be base-64 ones. */
  predicate Base64Shape(s: JsString)
  {
    var i := PadRunStart(s, |s|);
    |s| - i <= 2 && forall k | 0 <= k < i :: IsBase64Char(s[k])
  }

  /** The run-based test agrees with the regular expression: some split into base-64
      characters and at most two `=` exists. */
  lemma Base64ShapeIff(s: JsString)
    ensures Base64Shape(s) <==> exists n | 0 <= n <= 2 :: Base64Split(s, n)
  {
    var i := PadRunStart(s, |s|);
    if Base64Shape(s) {
      assert Base64Split(s, |s| - i);
    }
    if n :| 0 <= n <= 2 && Base64Split(s, n) {
      PadRunBelow(s, |s|, |s| - n);
      if n < |s| {
        assert IsBase64Char(s[|s| - n - 1]);
      }
      assert i == |s| - n;
    }
  }

  lemma {:induction false} PadRunBelow(s: JsString, j: nat, m: nat)
    requires m <= j <= |s|
    requires forall k | m <= k < j :: s[k] == Base32Tool.Pad
    ensures PadRunStart(s, j) <= m
    decreases j
  {
    if j > m {
      PadRunBelow(s, j - 1, m);
    }
  }

  /** A character of `[A-Z2-7=\s]` under the `i` flag: without the `u` flag only ASCII letters
      fold onto `A`-`Z`. */
  predicate IsBase32TestChar(c: CodeUnit) { IsLetter(c) || ('2' as int <= c <= '7' as int) || c == Base32Tool.Pad }

  predicate AllHex(s: JsString) { forall k | 0 <= k < |s| :: IsHexDigit(s[k]) }

  predicate AllBits(s: JsString) { forall k | 0 <= k < |s| :: BinaryTool.IsBit(s[k]) }

  predicate IsMorseMark(c: CodeUnit) { c == MorseTable.Dot || c == MorseTable.Dash }

  predicate IsMorseTestChar(c: CodeUnit) { IsMorseMark(c) || c == MorseTable.Slash || IsSpace(c) }

  /** `/%[0-9A-Fa-f]{2}/` matches at `i`. */
  predicate PercentAt(s: JsString, i: nat)
  {
    i + 3 <= |s| && s[i] == '%' as int && IsHexDigit(s[i + 1]) && IsHexDigit(s[i + 2])
  }

  predicate IsAlnumUnit(c: CodeUnit) { IsAlnum(c) }

  predicate IsDigitUnit(c: CodeUnit) { IsDigit(c) }

  predicate IsHexUnit(c: CodeUnit) { IsHexDigit(c) }

  /** `&[a-zA-Z][a-zA-Z0-9]*;` matches at `i`. */
  predicate NamedEntityAt(s: JsString, i: nat)
  {
    i + 2 <= |s| && s[i] == '&' as int && IsLetter(s[i + 1])
    && var j := RunEnd(s, i + 2, IsAlnumUnit); j < |s| && s[j] == ';' as int
  }

  /** `&#[0-9]+;` matches at `i`. */
  predicate DecimalRefAt(s: JsString, i: nat)
  {
    i + 2 <= |s| && s[i] == '&' as int && s[i + 1] == '#' as int
    && var j := RunEnd(s, i + 2, IsDigitUnit); i + 2 < j < |s| && s[j] == ';' as int
  }

  /** `&#x[0-9A-Fa-f]+;` matches at `i`. */
  predicate HexRefAt(s: JsString, i: nat)
  {
    i + 3 <= |s| && s[i] == '&' as int && s[i + 1] == '#' as int && s[i + 2] == 'x' as int
    && var j := RunEnd(s, i + 3, IsHexUnit); i + 3 < j < |s| && s[j] == ';' as int
  }

  /** A token `parseInt` reads as a printable ASCII code. */
  predicate PrintableCode(token: JsString)
  {
    var n := ParseInt(token, 0);
    n.Some? && 32 <= n.value <= 126
  }

  /** The test of each encoding's pattern. */
  predicate Test(s: JsString, e: Encoding)
  {
    match e
    case Base64 => |s| % 4 == 0 && Base64Shape(s)
    case Base32 => var t := Squeeze(s); forall k | 0 <= k < |t| :: IsBase32TestChar(t[k])
    case Hex => var t := Squeeze(s); AllHex(t) && |t| % 2 == 0
    case Binary => var t := Squeeze(s); AllBits(t) && |t| % 8 == 0
    case Url => exists i | 0 <= i < |s| :: PercentAt(s, i)
    case Html => exists i | 0 <= i < |s| :: NamedEntityAt(s, i) || DecimalRefAt(s, i) || HexRefAt(s, i)
    case Ascii => var parts := SplitWs(Trim(s)); |parts| > 1 && forall k | 0 <= k < |parts| :: PrintableCode(parts[k])
    case Rot13 => (forall k | 0 <= k < |s| :: IsLetter(s[k]) || IsSpace(s[k])) && |s| > 3
    case Morse => |s| > 0 && forall k | 0 <= k < |s| :: IsMorseTestChar(s[k])
  }

  /** The Base32 test accepts exactly the texts made of the characters the Base32 tool's own
      pattern allows: removing white space first changes nothing, since the class has `\s`. */
  lemma Base32TestIff(s: JsString)
    ensures Test(s, Base32) <==> forall k | 0 <= k < |s| :: Base32Tool.IsBase32Like(s[k])
  {
    var t := Squeeze(s);
    FilterAll(s, NotSpace, IsBase32TestChar);
    assert Test(s, Base32) <==> forall k | 0 <= k < |t| :: IsBase32TestChar(t[k]);
  }

  /** The hexadecimal test: the non-space characters are an even number of hexadecimal
      digits. */
  lemma HexTestIff(s: JsString)
    ensures Test(s, Hex) <==> (forall k | 0 <= k < |s| :: IsHexDigit(s[k]) || IsSpace(s[k])) && |Squeeze(s)| % 2 == 0
  {
    FilterAll(s, NotSpace, IsHexUnit);
  }

  /** The binary test: the non-space characters are binary digits, a multiple of eight of
      them. */
  lemma BinaryTestIff(s: JsString)
    ensures Test(s, Binary) <==> (forall k | 0 <= k < |s| :: BinaryTool.IsBit(s[k]) || IsSpace(s[k])) && |Squeeze(s)| % 8 == 0
  {
    FilterAll(s, NotSpace, BinaryTool.KeepBit);
  }

  // Scoring

  /** The number of matches of the global `/%[0-9A-Fa-f]{2}/g` from `i` on. */
  function PercentCount(s: JsString, i: nat): nat
    requires i <= |s|
    decreases |s| - i
  {
    if i == |s| then 0
    else if PercentAt(s, i) then 1 + PercentCount(s, i + 3)
    else PercentCount(s, i + 1)
  }

  /** The number of matches of the global `/&[a-zA-Z][a-zA-Z0-9]*;/g` from `i` on. */
  function NamedEntityCount(s: JsString, i: nat): nat
    requires i <= |s|
    decreases |s| - i
  {
    if i == |s| then 0
    else if NamedEntityAt(s, i) then 1 + NamedEntityCount(s, RunEnd(s, i + 2, IsAlnumUnit) + 1)
    else NamedEntityCount(s, i + 1)
  }

  /** The number of matches of the global `/[.\-]/g`. */
  function MarkCount(s: JsString): (n: nat)
    ensures n <= |s|
  {
    if |s| == 0 then 0 else MarkCount(s[..|s| - 1]) + (if IsMorseMark(s[|s| - 1]) then 1 else 0)
  }

  /** The points for length: 20 from the minimum length on, 10 more beyond twice that. */
  function LengthPoints(s: JsString, e: Encoding): nat
  {
    (if |s| >= MinLength(e) then 20 else 0) + (if |s| > 2 * MinLength(e) then 10 else 0)
  }

  /** The points specific to each encoding. (`endsWith('==')` implies `endsWith('=')`, so the
      base-64 test is one suffix test.) */
  function PatternPoints(s: JsString, e: Encoding): nat
  {
    match e
    case Base64 => (if |s| > 0 && s[|s| - 1] == Base32Tool.Pad then 30 else 0) + (if |s| % 4 == 0 then 20 else 0)
    case Base32 => (if Base32Tool.Pad in s then 20 else 0) + (if |s| % 8 == 0 then 15 else 0)
    case Hex => (if |s| % 2 == 0 then 25 else 0) + (var t := Squeeze(s); if |t| > 0 && AllHex(t) then 20 else 0)
    case Binary => if |s| % 8 == 0 then 30 else 0
    case Url => 5 * PercentCount(s, 0)
    case Html => 10 * NamedEntityCount(s, 0)
    case Ascii => var parts := SplitWs(Trim(s)); if forall k | 0 <= k < |parts| :: ParseInt(parts[k], 0).Some? then 25 else 0
    case Rot13 => 0
    case Morse => 2 * MarkCount(s)
  }

  /** `scoreEncoding(input, encoding)`. */
  function Score(s: JsString, e: Encoding): nat
  {
    if !Test(s, e) then 0 else Min(LengthPoints(s, e) + PatternPoints(s, e), 100)
  }

  function Min(a: nat, b: nat): nat { if a <= b then a else b }

  /** A score is at most 100, and 0 when the pattern's test fails. */
  lemma ScoreBounds(s: JsString, e: Encoding)
    ensures Score(s, e) <= 100
    ensures !Test(s, e) ==> Score(s, e) == 0
  {
  }

  /** A text that passes the test and has the encoding's minimum length scores at least 20. */
  lemma LongEnoughScores(s: JsString, e: Encoding)
    requires Test(s, e) && |s| >= MinLength(e)
    ensures Score(s, e) >= 20
  {
  }

  /** For base 64, URL encoding, HTML entities, ASCII codes and ROT13 the score is positive
      exactly when the test passes: passing the test already earns points. */
  lemma ScorePositiveIff(s: JsString, e: Encoding)
    requires e in {Base64, Url, Html, Ascii, Rot13}
    ensures Score(s, e) > 0 <==> Test(s, e)
  {
    match e
    case Base64 => ScorePositiveOf(s, Base64);
    case Url => ScorePositiveUrl(s);
    case Html => ScorePositiveHtml(s);
    case Ascii => ScorePositiveAscii(s);
    case Rot13 => ScorePositiveOf(s, Rot13);
  }

  lemma ScorePositiveOf(s: JsString, e: Encoding)
    requires e == Base64 || e == Rot13
    ensures Score(s, e) > 0 <==> Test(s, e)
  {
  }

  lemma ScorePositiveUrl(s: JsString)
    ensures Score(s, Url) > 0 <==> Test(s, Url)
  {
    if Test(s, Url) {
      var i :| 0 <= i < |s| && PercentAt(s, i);
    }
  }

  lemma ScorePositiveHtml(s: JsString)
    ensures Score(s, Html) > 0 <==> Test(s, Html)
  {
    if Test(s, Html) {
      var i :| 0 <= i < |s| && (NamedEntityAt(s, i) || DecimalRefAt(s, i) || HexRefAt(s, i));
    }
  }

  lemma ScorePositiveAscii(s: JsString)
    ensures Score(s, Ascii) > 0 <==> Test(s, Ascii)
  {
    if Test(s, Ascii) {
      var parts := SplitWs(Trim(s));
      assert forall k | 0 <= k < |parts| :: ParseInt(parts[k], 0).Some?;
    }
  }

  /** For the other four a text can pass the test and still score 0, which leaves it out of
      the detections: a single white-space character is empty hexadecimal and binary, three
      letters are Base32-like, and a slash is Morse. */
  lemma ZeroScoreHex()
    ensures Test([32], Hex) && Score([32], Hex) == 0
  {
    assert Squeeze([32]) == [];
  }

  lemma ZeroScoreBinary()
    ensures Test([32], Binary) && Score([32], Binary) == 0
  {
    assert Squeeze([32]) == [];
  }

  lemma ZeroScoreBase32()
    ensures Test([65, 66, 67], Base32) && Score([65, 66, 67], Base32) == 0
  {
    var abc: JsString := [65, 66, 67];
    assert forall k | 0 <= k < |abc| :: NotSpace(abc[k]);
    assert Squeeze(abc) == abc;
    assert Base32Tool.Pad !in abc;
  }

  lemma ZeroScoreMorse()
    ensures Test([MorseTable.Slash], Morse) && Score([MorseTable.Slash], Morse) == 0
  {
    assert MarkCount([MorseTable.Slash]) == 0;
  }

  /** `scoreEncoding`: the test, the length points, then the pattern points, capped at 100. */
  method ScoreEncoding(input: JsString, encoding: Encoding) returns (score: nat)
    ensures score == Score(input, encoding)
  {
    if !Test(input, encoding) {
      return 0;
    }
    score := 0;
    if |input| >= MinLength(encoding) {
      score := score + 20;
    }
    if |input| > MinLength(encoding) * 2 {
      score := score + 10;
    }
    score := score + PatternPoints(input, encoding);
    score := Min(score, 100);
  }

  // Detection

  datatype Confidence = High | Medium | Low

  /** The label of a score: above 70 is high, above 40 medium, the rest low. */
  function ConfidenceOf(score: nat): Confidence
  {
    if score > 70 then High else if score > 40 then Medium else Low
  }

  datatype Candidate = Candidate(encoding: Encoding, score: nat, confidence: Confidence)

  /** The position of an encoding in the pattern table. */
  function Rank(e: Encoding): (r: nat)
    ensures r < |Encodings| && Encodings[r] == e
  {
    match e
    case Base64 => 0
    case Base32 => 1
    case Hex => 2
    case Binary => 3
    case Url => 4
    case Html => 5
    case Ascii => 6
    case Rot13 => 7
    case Morse => 8
  }

  lemma RankOfEncodings(k: nat)
    requires k < |Encodings|
    ensures Rank(Encodings[k]) == k
  {
  }

  /** The candidates the loop of `detectEncoding` pushes for the encodings `es`, in order:
      those with a positive score. */
  function CandidatesOf(s: JsString, es: seq<Encoding>): seq<Candidate>
  {
    if |es| == 0 then []
    else
      var e := es[|es| - 1];
      var score := Score(s, e);
      CandidatesOf(s, es[..|es| - 1]) + (if score > 0 then [Candidate(e, score, ConfidenceOf(score))] else [])
  }

  /** `sort((a, b) => b.score - a.score)`, which ECMAScript requires to be stable: insertion of
      each element after every earlier one of at least its score. */
  function SortByScore(cs: seq<Candidate>): (r: seq<Candidate>)
    ensures |r| == |cs|
  {
    if |cs| == 0 then [] else Insert(SortByScore(cs[..|cs| - 1]), cs[|cs| - 1])
  }

  function Insert(sorted: seq<Candidate>, c: Candidate): (r: seq<Candidate>)
    ensures |r| == |sorted| + 1
  {
    if |sorted| == 0 then [c]
    else if sorted[0].score >= c.score then [sorted[0]] + Insert(sorted[1..], c)
    else [c] + sorted
  }

  /** `detectEncoding(input)`. */
  function Detect(s: JsString): seq<Candidate>
  {
    SortByScore(CandidatesOf(s, Encodings))
  }

  /** A candidate for `s`: the encoding's score, positive, and its label. */
  predicate Detected(s: JsString, c: Candidate)
  {
    c.score == Score(s, c.encoding) && c.score > 0 && c.confidence == ConfidenceOf(c.score)
  }

  /** `a` comes before `b` in the detections: a higher score, or the same score and an
      earlier place in the pattern table. */
  predicate Before(a: Candidate, b: Candidate)
  {
    a.score > b.score || (a.score == b.score && Rank(a.encoding) < Rank(b.encoding))
  }

  predicate Ordered(cs: seq<Candidate>)
  {
    forall i, j | 0 <= i < j < |cs| :: Before(cs[i], cs[j])
  }

  /** The detections are the candidates that score above 0, each with its score and label,
      from the highest score down, ties in the order of the pattern table. */
  lemma DetectShape(s: JsString)
    ensures Ordered(Detect(s))
    ensures forall c :: c in Detect(s) <==> Detected(s, c)
  {
    CandidatesShape(s, |Encodings|);
    assert Encodings[..|Encodings|] == Encodings;
    SortShape(CandidatesOf(s, Encodings));
  }

  /** There is at most one detection per encoding, and every encoding that scores above 0 is
      among them. */
  lemma DetectEncodings(s: JsString, e: Encoding)
    ensures Score(s, e) > 0 <==> exists k | 0 <= k < |Detect(s)| :: Detect(s)[k].encoding == e
    ensures forall i, j | 0 <= i < j < |Detect(s)| :: Detect(s)[i].encoding != Detect(s)[j].encoding
  {
    DetectShape(s);
    var r := Detect(s);
    if Score(s, e) > 0 {
      var c := Candidate(e, Score(s, e), ConfidenceOf(Score(s, e)));
      assert Detected(s, c);
      var k :| 0 <= k < |r| && r[k] == c;
    }
    if k :| 0 <= k < |r| && r[k].encoding == e {
      assert r[k] in r;
    }
    forall i, j | 0 <= i < j < |r| ensures r[i].encoding != r[j].encoding {
      assert r[i] in r && r[j] in r;
      assert Before(r[i], r[j]);
    }
  }

  /** The candidates for the first `n` encodings of the table: exactly the detected ones
      among them, in table order. */
  lemma {:induction false} CandidatesShape(s: JsString, n: nat)
    requires n <= |Encodings|
    ensures var cs := CandidatesOf(s, Encodings[..n]);
      (forall i, j | 0 <= i < j < |cs| :: Rank(cs[i].encoding) < Rank(cs[j].encoding))
      && (forall c :: c in cs <==> Detected(s, c) && Rank(c.encoding) < n)
  {
    if n > 0 {
      var es := Encodings[..n];
      assert es[..n - 1] == Encodings[..n - 1];
      CandidatesShape(s, n - 1);
      RankOfEncodings(n - 1);
      forall c | Detected(s, c) && Rank(c.encoding) == n - 1
        ensures c == Candidate(es[n - 1], Score(s, es[n - 1]), ConfidenceOf(Score(s, es[n - 1])))
      {
        assert c.encoding == Encodings[n - 1];
      }
    }
  }

  /** Sorting candidates listed in table order puts them in detection order and keeps
      exactly the same candidates. */
  lemma {:induction false} SortShape(cs: seq<Candidate>)
    requires forall i, j | 0 <= i < j < |cs| :: Rank(cs[i].encoding) < Rank(cs[j].encoding)
    ensures Ordered(SortByScore(cs))
    ensures forall c :: c in SortByScore(cs) <==> c in cs
  {
    if |cs| > 0 {
      var init, last := cs[..|cs| - 1], cs[|cs| - 1];
      SortShape(init);
      var sorted := SortByScore(init);
      forall k | 0 <= k < |sorted| ensures Rank(sorted[k].encoding) < Rank(last.encoding) {
        assert sorted[k] in init;
      }
      InsertShape(sorted, last);
      assert cs == init + [last];
    }
  }

  /** Inserting a candidate that comes after all others in table order keeps detection order
      and adds exactly that candidate. */
  lemma {:induction false} InsertShape(sorted: seq<Candidate>, c: Candidate)
    requires Ordered(sorted)
    requires forall k | 0 <= k < |sorted| :: Rank(sorted[k].encoding) < Rank(c.encoding)
    ensures Ordered(Insert(sorted, c))
    ensures forall x :: x in Insert(sorted, c) <==> x in sorted || x == c
    decreases |sorted|
  {
    if |sorted| > 0 && sorted[0].score >= c.score {
      var rest := sorted[1..];
      InsertShape(rest, c);
      var r := Insert(sorted, c);
      assert r == [sorted[0]] + Insert(rest, c);
      forall j | 1 <= j < |r| ensures Before(r[0], r[j]) {
        assert r[j] in Insert(rest, c);
        if r[j] != c {
          var k :| 0 <= k < |rest| && rest[k] == r[j];
          assert Before(sorted[0], sorted[k + 1]);
        }
      }
      assert sorted == [sorted[0]] + rest;
    }
  }

  /** `detectEncoding`: the candidates in table order, then the sort. */
  method DetectEncoding(input: JsString) returns (detections: seq<Candidate>)
    ensures detections == Detect(input)
  {
    var candidates: seq<Candidate> := [];
    var i := 0;
    while i < |Encodings|
      invariant 0 <= i <= |Encodings|
      invariant candidates == CandidatesOf(input, Encodings[..i])
    {
      var e := Encodings[i];
      var score := ScoreEncoding(input, e);
      if score > 0 {
        candidates := candidates + [Candidate(e, score, ConfidenceOf(score))];
      }
      assert Encodings[..i + 1][..i] == Encodings[..i];
      i := i + 1;
    }
    assert Encodings[..i] == Encodings;
    detections := SortByScore(candidates);
  }

  // Decoders

  /** What the decoders call and this model does not define, with `None` for a thrown error:
      `decodeURIComponent(escape(atob(str)))`, `decodeURIComponent` and
      `TextDecoder.decode`. */
  datatype Foreign = Foreign(base64Text: JsString -> Option<JsString>, uriDecode: JsString -> Option<JsString>, utf8Decode: seq<byte> -> JsString)

  /** The Base32 decoder: the same cleaning, table and bit accumulation as the Base32 tool's,
      returning `null` instead of throwing. */
  function Base32Text(s: JsString, utf8Decode: seq<byte> -> JsString): (r: Option<JsString>)
  {
    match Base32Tool.DecodeSpec(s)
    case Success(bytes) => Some(utf8Decode(bytes))
    case Failure(_) => None
  }

  /** The hexadecimal decoder: white space removed, then `/.{1,2}/g` chunks read in radix 16;
      no chunks is `null`. */
  function HexText(s: JsString): (r: Option<JsString>)
  {
    var chunks := DotChunks(Squeeze(s), 2);
    if |chunks| == 0 then None else Some(seq(|chunks|, k requires 0 <= k < |chunks| => HexTool.ChunkValue(chunks[k])))
  }

  /** The binary decoder: white space removed, then `/.{1,8}/g` chunks read in radix 2. */
  function BinaryText(s: JsString): (r: Option<JsString>)
  {
    var chunks := DotChunks(Squeeze(s), 8);
    if |chunks| == 0 then None else Some(seq(|chunks|, k requires 0 <= k < |chunks| => BinaryTool.ChunkValue(chunks[k])))
  }

  /** The global replacement of `&#(\d+);` from `i` on, each reference becoming the code unit
      of its decimal number. */
  function DecimalRefs(s: JsString, i: nat): JsString
    requires i <= |s|
    decreases |s| - i
  {
    if i == |s| then []
    else if DecimalRefAt(s, i) then
      var j := RunEnd(s, i + 2, IsDigitUnit);
      [FromCharCode(ParseInt(s[i + 2..j], 0))] + DecimalRefs(s, j + 1)
    else [s[i]] + DecimalRefs(s, i + 1)
  }

  /** The global replacement of `&#x([0-9A-Fa-f]+);` from `i` on. */
  function HexRefs(s: JsString, i: nat): JsString
    requires i <= |s|
    decreases |s| - i
  {
    if i == |s| then []
    else if HexRefAt(s, i) then
      var j := RunEnd(s, i + 3, IsHexUnit);
      [FromCharCode(ParseInt(s[i + 3..j], 16))] + HexRefs(s, j + 1)
    else [s[i]] + HexRefs(s, i + 1)
  }

  /** The HTML decoder: the five named entities in turn, `&amp;` last, then decimal and
      hexadecimal references. */
  function HtmlText(s: JsString): JsString
  {
    var named := Replace(Replace(Replace(Replace(Replace(
      s, EntityLt, ['<' as int]), EntityGt, ['>' as int]), EntityQuot, ['"' as int]), EntityApos, ['\'' as int]), EntityAmp, ['&' as int]);
    HexRefs(DecimalRefs(named, 0), 0)
  }

  function Replace(s: JsString, pat: JsString, rep: JsString): JsString
    requires |pat| > 0
  {
    ReplaceAll<CodeUnit>(s, pat, rep)
  }

  /** What the Morse decoder makes of one code: its letter or digit, or the code itself. */
  function MorsePiece(code: JsString): JsString
  {
    match MorseTable.LetterOf(code)
    case Some(c) => [c]
    case None => code
  }

  /** The Morse decoder: the text split at white space, each code translated, the pieces
      concatenated. */
  function MorseText(s: JsString): JsString
  {
    var codes := SplitWs(s);
    Join<CodeUnit>(seq(|codes|, k requires 0 <= k < |codes| => MorsePiece(codes[k])), [])
  }

  /** `decodingFunctions[encoding](str)`, with `None` for `null`. */
  function Decode(e: Encoding, s: JsString, ext: Foreign): Option<JsString>
  {
    match e
    case Base64 => ext.base64Text(s)
    case Base32 => Base32Text(s, ext.utf8Decode)
    case Hex => HexText(s)
    case Binary => BinaryText(s)
    case Url => ext.uriDecode(s)
    case Html => Some(HtmlText(s))
    case Ascii => Some(AsciiTool.Decode(Trim(s)))
    case Rot13 => Some(Rot13Tool.ExecuteRot13Tool(s))
    case Morse => Some(MorseText(s))
  }

  /** The Base32 decoder gives `null` exactly when a cleaned character is outside the
      alphabet, and reads back every Base32 encoding. */
  lemma Base32TextShape(s: JsString, bytes: seq<byte>, utf8Decode: seq<byte> -> JsString)
    ensures Base32Text(s, utf8Decode).None? <==> exists k | 0 <= k < |Base32Tool.Clean(s)| :: Base32Tool.DecodeValue(Base32Tool.Clean(s)[k]).None?
    ensures Base32Text(Base32Tool.EncodeSpec(bytes), utf8Decode) == Some(utf8Decode(bytes))
  {
    Base32Tool.DecodeSpecShape(s);
    Base32Tool.RoundTrip(bytes);
  }

  /** The hexadecimal and binary decoders give `null` exactly for text that is all white
      space. */
  lemma ChunkTextNone(s: JsString)
    ensures HexText(s).None? <==> NoneKept(s)
    ensures BinaryText(s).None? <==> NoneKept(s)
  {
    var t := Squeeze(s);
    assert NoLineTerminator(t);
    DotChunksShape(t, 2);
    DotChunksShape(t, 8);
    if NoneKept(s) {
      FilterNone(s, NotSpace);
    } else {
      var i :| 0 <= i < |s| && NotSpace(s[i]);
      FilterKeeps(s, NotSpace, i);
    }
  }

  predicate NoneKept(s: JsString) { forall k | 0 <= k < |s| :: IsSpace(s[k]) }

  /** The hexadecimal decoder reads back the hex tool's encoding of a non-empty string of codes
      below 256. */
  lemma HexTextRoundTrip(x: JsString)
    requires |x| > 0 && forall k | 0 <= k < |x| :: x[k] < 256
    ensures HexText(HexTool.Encode(x)) == Some(x)
  {
    var gs := HexTool.Groups(x);
    HexEncodeJoin(x);
    HexTool.RoundTrip(x);
    Latin1NoSurrogatePair(x);
    assert |gs| > 0 && |gs[0]| > 0;
    HexTextOfGroups(gs, x);
  }

  /** The encoding is its groups joined by single spaces, and the groups are digits. */
  lemma HexEncodeJoin(x: JsString)
    ensures HexTool.Encode(x) == Join(HexTool.Groups(x), [32])
    ensures forall k, j | 0 <= k < |HexTool.Groups(x)| && 0 <= j < |HexTool.Groups(x)[k]| :: IsHexDigit(HexTool.Groups(x)[k][j])
  {
    Space();
    var gs := HexTool.Groups(x);
    forall k | 0 <= k < |gs| ensures forall j | 0 <= j < |gs[k]| :: IsHexDigit(gs[k][j]) {
      assert gs[k] == HexTool.HexGroup(CodePointHeads(x)[k]);
    }
  }

  /** Groups of digits joined by spaces decode here as the tool decodes them. */
  lemma HexTextOfGroups(gs: seq<JsString>, x: JsString)
    requires |gs| > 0 && |gs[0]| > 0
    requires forall k, j | 0 <= k < |gs| && 0 <= j < |gs[k]| :: IsHexDigit(gs[k][j])
    requires HexTool.Decode(Join(gs, [32])) == x
    ensures HexText(Join(gs, [32])) == Some(x)
  {
    var e := Join(gs, [32]);
    HexSqueeze(gs);
    assert e[0] == gs[0][0] && HexTool.KeepHex(e[0]);
    FilterKeeps(e, HexTool.KeepHex, 0);
    var chunks := DotChunks(Squeeze(e), 2);
    assert |chunks| > 0;
    assert HexTool.Decode(e) == seq(|chunks|, k requires 0 <= k < |chunks| => HexTool.ChunkValue(chunks[k]));
  }

  /** Removing white space from hexadecimal groups joined by spaces keeps exactly their
      digits. */
  lemma HexSqueeze(gs: seq<JsString>)
    requires forall k, j | 0 <= k < |gs| && 0 <= j < |gs[k]| :: IsHexDigit(gs[k][j])
    ensures Squeeze(Join(gs, [32])) == Filter(Join(gs, [32]), HexTool.KeepHex)
  {
    assert forall k, j | 0 <= k < |gs| && 0 <= j < |gs[k]| :: NotSpace(gs[k][j]) && HexTool.KeepHex(gs[k][j]);
    FilterJoin(gs, [32], NotSpace);
    FilterJoin(gs, [32], HexTool.KeepHex);
  }

  /** The binary decoder reads back the binary tool's encoding of a non-empty string of codes
      below 256. */
  lemma BinaryTextRoundTrip(x: JsString)
    requires |x| > 0 && forall k | 0 <= k < |x| :: x[k] < 256
    ensures BinaryText(BinaryTool.Encode(x)) == Some(x)
  {
    var gs := BinaryTool.Groups(x);
    BinaryEncodeJoin(x);
    BinaryTool.RoundTrip(x);
    Latin1NoSurrogatePair(x);
    assert |gs| > 0 && |gs[0]| > 0;
    BinaryTextOfGroups(gs, x);
  }

  /** The encoding is its groups joined by single spaces, and the groups are digits. */
  lemma BinaryEncodeJoin(x: JsString)
    ensures BinaryTool.Encode(x) == Join(BinaryTool.Groups(x), [32])
    ensures forall k, j | 0 <= k < |BinaryTool.Groups(x)| && 0 <= j < |BinaryTool.Groups(x)[k]| :: BinaryTool.IsBit(BinaryTool.Groups(x)[k][j])
  {
    Space();
    var gs := BinaryTool.Groups(x);
    forall k | 0 <= k < |gs| ensures forall j | 0 <= j < |gs[k]| :: BinaryTool.IsBit(gs[k][j]) {
      assert gs[k] == BinaryTool.BinaryGroup(CodePointHeads(x)[k]);
    }
  }

  /** Groups of digits joined by spaces decode here as the tool decodes them. */
  lemma BinaryTextOfGroups(gs: seq<JsString>, x: JsString)
    requires |gs| > 0 && |gs[0]| > 0
    requires forall k, j | 0 <= k < |gs| && 0 <= j < |gs[k]| :: BinaryTool.IsBit(gs[k][j])
    requires BinaryTool.Decode(Join(gs, [32])) == x
    ensures BinaryText(Join(gs, [32])) == Some(x)
  {
    var e := Join(gs, [32]);
    BinarySqueeze(gs);
    assert e[0] == gs[0][0] && BinaryTool.KeepBit(e[0]);
    FilterKeeps(e, BinaryTool.KeepBit, 0);
    var chunks := DotChunks(Squeeze(e), 8);
    assert |chunks| > 0;
    assert BinaryTool.Decode(e) == seq(|chunks|, k requires 0 <= k < |chunks| => BinaryTool.ChunkValue(chunks[k]));
  }

  /** Removing white space from binary groups joined by spaces keeps exactly their digits. */
  lemma BinarySqueeze(gs: seq<JsString>)
    requires forall k, j | 0 <= k < |gs| && 0 <= j < |gs[k]| :: BinaryTool.IsBit(gs[k][j])
    ensures Squeeze(Join(gs, [32])) == Filter(Join(gs, [32]), BinaryTool.KeepBit)
  {
    assert forall k, j | 0 <= k < |gs| && 0 <= j < |gs[k]| :: NotSpace(gs[k][j]) && BinaryTool.KeepBit(gs[k][j]);
    FilterJoin(gs, [32], NotSpace);
    FilterJoin(gs, [32], BinaryTool.KeepBit);
  }

  /** The Morse decoder reads back the tools page's Morse code of non-empty text made of
      upper-case letters and digits. */
  lemma MorseTextRoundTrip(x: JsString)
    requires |x| > 0 && forall k | 0 <= k < |x| :: MorseTable.IsMorseLetter(x[k])
    ensures MorseText(MorseTable.TextToMorse(x)) == x
  {
    MorseTable.UpperMorseText(x);
    var syms := seq(|x|, k requires 0 <= k < |x| => MorseTable.Symbol(x[k]));
    assert MorseTable.TextToMorse(x) == Join(syms, [32]);
    forall k | 0 <= k < |syms| ensures |syms[k]| > 0 && NoSpace(syms[k]) && MorsePiece(syms[k]) == [x[k]] {
      MorseTable.LetterOfCode(x[k]);
    }
    SplitWsJoin(syms);
    var pieces := seq(|syms|, k requires 0 <= k < |syms| => MorsePiece(syms[k]));
    assert pieces == seq(|x|, k requires 0 <= k < |x| => [x[k]]);
    JoinSingletons(x);
  }

  /** Text without `&` passes the HTML decoder unchanged. */
  lemma HtmlTextPlain(s: JsString)
    requires '&' as int !in s
    ensures HtmlText(s) == s
  {
    assert EntityLt[0] == EntityGt[0] == EntityQuot[0] == EntityApos[0] == EntityAmp[0] == '&' as int;
    ReplaceAllAbsent<CodeUnit>(s, EntityLt, ['<' as int]);
    ReplaceAllAbsent<CodeUnit>(s, EntityGt, ['>' as int]);
    ReplaceAllAbsent<CodeUnit>(s, EntityQuot, ['"' as int]);
    ReplaceAllAbsent<CodeUnit>(s, EntityApos, ['\'' as int]);
    ReplaceAllAbsent<CodeUnit>(s, EntityAmp, ['&' as int]);
    DecimalRefsPlain(s, 0);
    HexRefsPlain(s, 0);
    assert s[0..] == s;
  }

  lemma {:induction false} DecimalRefsPlain(s: JsString, i: nat)
    requires i <= |s| && '&' as int !in s
    ensures DecimalRefs(s, i) == s[i..]
    decreases |s| - i
  {
    if i < |s| {
      DecimalRefsPlain(s, i + 1);
      assert s[i..] == [s[i]] + s[i + 1..];
    }
  }

  lemma {:induction false} HexRefsPlain(s: JsString, i: nat)
    requires i <= |s| && '&' as int !in s
    ensures HexRefs(s, i) == s[i..]
    decreases |s| - i
  {
    if i < |s| {
      HexRefsPlain(s, i + 1);
      assert s[i..] == [s[i]] + s[i + 1..];
    }
  }

  // The layer loop

  const MaxLayers: nat := 20

  /** One entry of `results.layers`. */
  datatype LayerRecord = LayerRecord(layer: nat, encoding: Encoding, confidence: Confidence, score: nat,
                                     input: JsString, output: JsString, alternatives: seq<Candidate>)

  /** The detections and the decoders the loop consults: `Detect` and `DecoderOf(ext)` in the
      detective. The loop is stated for any such pair, so that reasoning about the loop does
      not unfold the scoring. */
  type Detector = JsString -> seq<Candidate>
  type LayerDecoder = (Encoding, JsString) -> Option<JsString>

  function DecoderOf(ext: Foreign): LayerDecoder
  {
    (e: Encoding, s: JsString) => Decode(e, s, ext)
  }

  /** A decoding the loop takes: not `null`, not empty, and not the text it came from. */
  predicate Accepted(d: Option<JsString>, current: JsString)
  {
    d.Some? && |d.value| > 0 && d.value != current
  }

  /** `detections.slice(0, 3)`. */
  function Alternatives(ds: seq<Candidate>): (r: seq<Candidate>)
    ensures |r| == if |ds| < 3 then |ds| else 3
    ensures r == ds[..|r|]
  {
    if |ds| <= 3 then ds else ds[..3]
  }

  /** What one pass of the loop does: stop, or take a candidate and its decoding. */
  datatype Step = Stop | Take(choice: Candidate, output: JsString)

  /** One pass: no detections stops; the best detection is taken if its decoding is accepted,
      otherwise the second best if there is one and its decoding is accepted; otherwise the
      loop stops. */
  function StepOf(current: JsString, detect: Detector, decode: LayerDecoder): Step
  {
    var ds := detect(current);
    if |ds| == 0 then Stop
    else if Accepted(decode(ds[0].encoding, current), current) then Take(ds[0], decode(ds[0].encoding, current).value)
    else if |ds| > 1 && Accepted(decode(ds[1].encoding, current), current) then Take(ds[1], decode(ds[1].encoding, current).value)
    else Stop
  }

  /** Where the loop is: the current text, `layerCount` and the layers so far. */
  datatype Ran = Ran(current: JsString, layerCount: nat, layers: seq<LayerRecord>)

  /** The loop of `executeEncodingDetective` from a given state, while fewer than 20 layers
      are decoded and the text is not empty. */
  function Run(current: JsString, count: nat, layers: seq<LayerRecord>, detect: Detector, decode: LayerDecoder): Ran
    requires count <= MaxLayers
    decreases MaxLayers - count
  {
    if count == MaxLayers || |current| == 0 then Ran(current, count, layers)
    else
      match StepOf(current, detect, decode)
      case Stop => Ran(current, count, layers)
      case Take(c, out) =>
        var record := LayerRecord(count + 1, c.encoding, c.confidence, c.score, current, out, Alternatives(detect(current)));
        Run(out, count + 1, layers + [record], detect, decode)
  }

  /** The candidate a layer records. */
  function Chosen(l: LayerRecord): Candidate
  {
    Candidate(l.encoding, l.score, l.confidence)
  }

  /** A layer took the best detection of its input, or the second best when the best one's
      decoding was not accepted; it records the first three detections, and its output is
      the accepted decoding. */
  predicate LayerOk(l: LayerRecord, detect: Detector, decode: LayerDecoder)
  {
    var ds := detect(l.input);
    |l.input| > 0 && |ds| > 0 && l.alternatives == Alternatives(ds)
    && (Chosen(l) == ds[0] || (|ds| > 1 && Chosen(l) == ds[1] && !Accepted(decode(ds[0].encoding, l.input), l.input)))
    && decode(l.encoding, l.input) == Some(l.output) && Accepted(Some(l.output), l.input)
  }

  /** The layers are numbered from 1, the first decodes `start`, and each later one decodes
      the output of the one before. */
  predicate Chain(layers: seq<LayerRecord>, start: JsString, detect: Detector, decode: LayerDecoder)
  {
    (forall k | 0 <= k < |layers| :: layers[k].layer == k + 1 && LayerOk(layers[k], detect, decode))
    && (|layers| > 0 ==> layers[0].input == start)
    && (forall k | 0 <= k < |layers| - 1 :: layers[k + 1].input == layers[k].output)
  }

  /** Where the loop is, in the middle of a run from `start`. */
  predicate Running(current: JsString, count: nat, layers: seq<LayerRecord>, start: JsString, detect: Detector, decode: LayerDecoder)
  {
    count <= MaxLayers && |layers| == count && Chain(layers, start, detect, decode)
    && (count == 0 ==> current == start)
    && (count > 0 ==> current == layers[count - 1].output)
  }

  lemma ChainSnoc(layers: seq<LayerRecord>, start: JsString, l: LayerRecord, detect: Detector, decode: LayerDecoder)
    requires Chain(layers, start, detect, decode)
    requires l.layer == |layers| + 1 && LayerOk(l, detect, decode)
    requires |layers| == 0 ==> l.input == start
    requires |layers| > 0 ==> l.input == layers[|layers| - 1].output
    ensures Chain(layers + [l], start, detect, decode)
  {
    var more := layers + [l];
    assert forall k | 0 <= k < |layers| :: more[k] == layers[k];
  }

  /** The loop ends with at most 20 layers, chained from `start`, standing at the last
      output, and it ends because 20 layers are decoded, the text is empty, or a pass
      stops. */
  lemma {:induction false} RunShape(current: JsString, count: nat, layers: seq<LayerRecord>, start: JsString, detect: Detector, decode: LayerDecoder)
    requires Running(current, count, layers, start, detect, decode)
    ensures var u := Run(current, count, layers, detect, decode);
      Running(u.current, u.layerCount, u.layers, start, detect, decode)
      && (u.layerCount == MaxLayers || |u.current| == 0 || StepOf(u.current, detect, decode).Stop?)
    decreases MaxLayers - count
  {
    if count < MaxLayers && |current| > 0 {
      match StepOf(current, detect, decode)
      case Stop =>
      case Take(c, out) =>
        var l := LayerRecord(count + 1, c.encoding, c.confidence, c.score, current, out, Alternatives(detect(current)));
        RunningSnoc(current, count, layers, start, detect, decode);
        RunShape(out, count + 1, layers + [l], start, detect, decode);
    }
  }

  /** A pass that takes a candidate moves the loop to the next layer. */
  lemma RunningSnoc(current: JsString, count: nat, layers: seq<LayerRecord>, start: JsString, detect: Detector, decode: LayerDecoder)
    requires Running(current, count, layers, start, detect, decode)
    requires count < MaxLayers && |current| > 0 && StepOf(current, detect, decode).Take?
    ensures var st := StepOf(current, detect, decode);
      var c, out := st.choice, st.output;
      Running(out, count + 1, layers + [LayerRecord(count + 1, c.encoding, c.confidence, c.score, current, out, Alternatives(detect(current)))],
        start, detect, decode)
  {
    var st := StepOf(current, detect, decode);
    var l := LayerRecord(count + 1, st.choice.encoding, st.choice.confidence, st.choice.score, current, st.output, Alternatives(detect(current)));
    assert Chosen(l) == st.choice;
    ChainSnoc(layers, start, l, detect, decode);
  }

  /** The overall confidence: high when every layer is, medium when some layer is, low when
      none is, and no rating without layers. */
  datatype Overall = Rated(level: Confidence) | Unrated

  function OverallOf(count: nat, layers: seq<LayerRecord>): Overall
  {
    if count == 0 then Unrated
    else if forall k | 0 <= k < |layers| :: layers[k].confidence == High then Rated(High)
    else if exists k | 0 <= k < |layers| :: layers[k].confidence == High then Rated(Medium)
    else Rated(Low)
  }

  datatype Analysis = Analysis(totalLayers: nat, encodingsDetected: seq<Encoding>, confidence: Overall)

  /** The object `executeEncodingDetective` returns. */
  datatype DetectiveReport = DetectiveReport(original: JsString, layers: seq<LayerRecord>, analysis: Analysis, finalResult: JsString)

  function EncodingsOf(layers: seq<LayerRecord>): (r: seq<Encoding>)
    ensures |r| == |layers| && forall k | 0 <= k < |layers| :: r[k] == layers[k].encoding
  {
    seq(|layers|, k requires 0 <= k < |layers| => layers[k].encoding)
  }

  /** The report made from where the loop ended. */
  function Summary(input: JsString, u: Ran): DetectiveReport
  {
    DetectiveReport(input, u.layers, Analysis(u.layerCount, Distinct(EncodingsOf(u.layers)), OverallOf(u.layerCount, u.layers)), u.current)
  }

  function DetectiveWith(input: JsString, detect: Detector, decode: LayerDecoder): DetectiveReport
  {
    Summary(input, Run(Trim(input), 0, [], detect, decode))
  }

  /** `executeEncodingDetective(input)`. */
  function Detective(input: JsString, ext: Foreign): DetectiveReport
  {
    DetectiveWith(input, Detect, DecoderOf(ext))
  }

  /** The report: at most 20 layers, counted by `totalLayers`, numbered from 1 and chained
      from the trimmed input; the final result is the last output, or the trimmed input when
      nothing was decoded; the encodings detected are the layers' encodings without
      repetition; and the overall confidence follows the layers' labels. */
  lemma DetectiveShape(input: JsString, detect: Detector, decode: LayerDecoder)
    ensures var r := DetectiveWith(input, detect, decode);
      r.original == input && r.analysis.totalLayers == |r.layers| <= MaxLayers
      && Chain(r.layers, Trim(input), detect, decode)
      && r.finalResult == (if |r.layers| == 0 then Trim(input) else r.layers[|r.layers| - 1].output)
      && NoDuplicates(r.analysis.encodingsDetected)
      && (forall e :: e in r.analysis.encodingsDetected <==> exists k | 0 <= k < |r.layers| :: r.layers[k].encoding == e)
      && forall i, j | 0 <= i < j < |r.analysis.encodingsDetected| ::
        IndexOf(EncodingsOf(r.layers), r.analysis.encodingsDetected[i])
        < IndexOf(EncodingsOf(r.layers), r.analysis.encodingsDetected[j])
  {
    RunShape(Trim(input), 0, [], Trim(input), detect, decode);
    EncodingsDetected(DetectiveWith(input, detect, decode).layers);
  }

  /** `[...new Set(layers.map(l => l.encoding))]` lists each layer's encoding once, in the
      order of the first layer that has it. */
  lemma EncodingsDetected(layers: seq<LayerRecord>)
    ensures NoDuplicates(Distinct(EncodingsOf(layers)))
    ensures forall e :: e in Distinct(EncodingsOf(layers)) <==> exists k | 0 <= k < |layers| :: layers[k].encoding == e
    ensures var es := EncodingsOf(layers);
      forall i, j | 0 <= i < j < |Distinct(es)| :: IndexOf(es, Distinct(es)[i]) < IndexOf(es, Distinct(es)[j])
  {
    var es := EncodingsOf(layers);
    DistinctFirstOrder(es);
    forall e ensures e in Distinct(es) <==> exists k | 0 <= k < |layers| :: layers[k].encoding == e {
      if e in Distinct(es) {
        var k :| 0 <= k < |Distinct(es)| && Distinct(es)[k] == e;
        var j :| 0 <= j < |es| && es[j] == e;
      }
      if k :| 0 <= k < |layers| && layers[k].encoding == e {
        assert es[k] == e;
      }
    }
  }

  /** The loop stops only after 20 layers, at empty text, or where no detection's decoding is
      taken. */
  lemma DetectiveStops(input: JsString, detect: Detector, decode: LayerDecoder)
    ensures var r := DetectiveWith(input, detect, decode);
      |r.layers| == MaxLayers || |r.finalResult| == 0 || StepOf(r.finalResult, detect, decode).Stop?
  {
    RunShape(Trim(input), 0, [], Trim(input), detect, decode);
  }

  /** The overall confidence is unrated exactly without layers, high exactly when every layer
      is high, medium exactly when some but not every layer is, and low exactly when layers
      exist and none is high. */
  lemma OverallShape(count: nat, layers: seq<LayerRecord>)
    requires count == |layers|
    ensures OverallOf(count, layers) == Unrated <==> |layers| == 0
    ensures OverallOf(count, layers) == Rated(High) <==> |layers| > 0 && forall k | 0 <= k < |layers| :: layers[k].confidence == High
    ensures OverallOf(count, layers) == Rated(Medium) <==>
      (exists k | 0 <= k < |layers| :: layers[k].confidence == High) && (exists k | 0 <= k < |layers| :: layers[k].confidence != High)
    ensures OverallOf(count, layers) == Rated(Low) <==> |layers| > 0 && forall k | 0 <= k < |layers| :: layers[k].confidence != High
  {
    if |layers| > 0 {
      if forall k | 0 <= k < |layers| :: layers[k].confidence == High {
        assert layers[0].confidence == High;
      } else {
        var j :| 0 <= j < |layers| && layers[j].confidence != High;
      }
    }
  }

  /** With the detective's own detections, every layer's candidate is a detection of its
      input: its score is that encoding's score for the input, between 1 and 100, and its
      label is the one for that score. */
  lemma DetectiveLayers(input: JsString, ext: Foreign)
    ensures var r := Detective(input, ext);
      forall k | 0 <= k < |r.layers| ::
        Detected(r.layers[k].input, Chosen(r.layers[k])) && r.layers[k].score <= 100
  {
    var r := Detective(input, ext);
    DetectiveShape(input, Detect, DecoderOf(ext));
    forall k | 0 <= k < |r.layers| ensures Detected(r.layers[k].input, Chosen(r.layers[k])) && r.layers[k].score <= 100 {
      assert LayerOk(r.layers[k], Detect, DecoderOf(ext));
      LayerDetected(r.layers[k], ext);
    }
  }

  /** A layer of a run with the detective's own detections holds one of them. */
  lemma LayerDetected(l: LayerRecord, ext: Foreign)
    requires LayerOk(l, Detect, DecoderOf(ext))
    ensures Detected(l.input, Chosen(l)) && l.score <= 100
  {
    DetectShape(l.input);
    assert Chosen(l) in Detect(l.input);
    ScoreBounds(l.input, l.encoding);
  }

  /** The loop of `executeEncodingDetective`. */
  method RunLayers(input: JsString, detect: Detector, decode: LayerDecoder) returns (u: Ran)
    ensures u == Run(Trim(input), 0, [], detect, decode)
  {
    var current := Trim(input);
    var layerCount := 0;
    var layers: seq<LayerRecord> := [];
    while layerCount < MaxLayers && |current| > 0
      invariant layerCount <= MaxLayers
      invariant Run(current, layerCount, layers, detect, decode) == Run(Trim(input), 0, [], detect, decode)
      decreases MaxLayers - layerCount
    {
      var detections, step := ChooseLayer(current, detect, decode);
      if step.Stop? {
        break;
      }
      var c := step.choice;
      layers := layers + [LayerRecord(layerCount + 1, c.encoding, c.confidence, c.score, current, step.output, Alternatives(detections))];
      current := step.output;
      layerCount := layerCount + 1;
    }
    u := Ran(current, layerCount, layers);
  }

  /** The choice one pass of the loop makes: the best detection when its decoding is accepted,
      else the second best when there is one and its decoding is accepted. */
  method ChooseLayer(current: JsString, detect: Detector, decode: LayerDecoder) returns (detections: seq<Candidate>, step: Step)
    ensures detections == detect(current) && step == StepOf(current, detect, decode)
  {
    detections := detect(current);
    if |detections| == 0 {
      return detections, Stop;
    }
    var best := detections[0];
    var decoded := decode(best.encoding, current);
    if !Accepted(decoded, current) {
      if |detections| > 1 {
        var second := detections[1];
        var secondDecoded := decode(second.encoding, current);
        if secondDecoded.Some? && |secondDecoded.value| > 0 && secondDecoded.value != current {
          return detections, Take(second, secondDecoded.value);
        }
      }
      return detections, Stop;
    }
    step := Take(best, decoded.value);
  }

  /** `executeEncodingDetective`: the loop, then the analysis. */
  method ExecuteEncodingDetective(input: JsString, ext: Foreign) returns (r: DetectiveReport)
    ensures r == Detective(input, ext)
  {
    var u := RunLayers(input, Detect, DecoderOf(ext));
    r := Summary(input, u);
  }
}
