/** The hex tool: encoding prints each character's code in lower-case hexadecimal, padded to
    two digits and separated by single spaces; decoding deletes everything but hexadecimal
    digits and reads the rest two digits at a time. */
module HexTool {
  import opened Text
  import opened Wrappers
  import opened Js

  predicate KeepHex(c: CodeUnit) { IsHexDigit(c) }

  /** Lower-case hexadecimal digits only. */
  predicate LowerHex(g: JsString)
  {
    forall k | 0 <= k < |g| :: IsHexDigit(g[k]) && !IsUpper(g[k])
  }

  /** The group printed for one code. */
  function HexGroup(c: CodeUnit): (g: JsString)
    ensures |g| >= 2
    ensures LowerHex(g)
    ensures ParseInt(g, 16) == Some(c)
    ensures c < 256 ==> |g| == 2
  {
    var g := PadStart(ToStringRadix(c, 16), 2, '0' as int);
    GroupFacts(c, g);
    LowerHexPadded(c, ToStringRadix(c, 16), g);
    ParsePadded(c, 16, 2);
    g
  }

  lemma GroupFacts(c: CodeUnit, g: JsString)
    requires g == PadStart(ToStringRadix(c, 16), 2, '0' as int)
    ensures |g| >= 2
    ensures c < 256 ==> |g| == 2
  {
    ByteWidth(c);
  }

  lemma LowerHexPadded(c: CodeUnit, t: JsString, g: JsString)
    requires t == ToStringRadix(c, 16) && g == PadStart(t, 2, '0' as int)
    ensures LowerHex(g)
  {
    var ds := Digits(c, 16);
    var m := |g| - |t|;
    forall k | 0 <= k < |g| ensures IsHexDigit(g[k]) && !IsUpper(g[k]) {
      if k >= m {
        assert g[k] == t[k - m] == DigitChar(ds[k - m]);
      }
    }
  }

  lemma ByteWidth(c: nat)
    ensures c < 256 ==> |Digits(c, 16)| <= 2
  {
    if c < 256 {
      assert Power(16, 2) == 256;
      DigitsWidth(c, 16, 2);
    }
  }

  /** The groups of the encoding, one per code point of the input. */
  function Groups(input: JsString): (gs: seq<JsString>)
    ensures |gs| == |CodePointHeads(input)|
    ensures forall k | 0 <= k < |gs| :: gs[k] == HexGroup(CodePointHeads(input)[k])
  {
    var heads := CodePointHeads(input);
    seq(|heads|, k requires 0 <= k < |heads| => HexGroup(heads[k]))
  }

  function Encode(input: JsString): JsString
  {
    Join(Groups(input), Str(" "))
  }

  /** The encoding is the groups joined by single spaces, and each group is at least two
      lower-case hexadecimal digits whose value is the code of its character. */
  lemma EncodeShape(input: JsString)
    ensures Encode(input) == Join(Groups(input), [32])
    ensures forall k | 0 <= k < |Groups(input)| ::
      (|Groups(input)[k]| >= 2
      && LowerHex(Groups(input)[k])
      && ParseInt(Groups(input)[k], 16) == Some(CodePointHeads(input)[k]))
  {
    Space();
    var gs := Groups(input);
    forall k | 0 <= k < |gs| ensures |gs[k]| >= 2
      && LowerHex(gs[k])
      && ParseInt(gs[k], 16) == Some(CodePointHeads(input)[k])
    {
      assert gs[k] == HexGroup(CodePointHeads(input)[k]);
    }
  }

  /** The value of a chunk of hexadecimal digits. */
  function ChunkValue(chunk: JsString): (v: CodeUnit)
  {
    FromCharCode(ParseInt(chunk, 16))
  }

  /** The group of a code below 256 is two digits, on one line, that read back as the code. */
  lemma ByteGroup(c: CodeUnit)
    requires c < 256
    ensures |HexGroup(c)| == 2 && NoLineTerminator(HexGroup(c)) && ChunkValue(HexGroup(c)) == c
  {
    var g := HexGroup(c);
    LowerHexNoBreak(g);
    ChunkOf(g, c);
  }

  lemma LowerHexNoBreak(g: JsString)
    requires LowerHex(g)
    ensures NoLineTerminator(g)
  {
    forall j | 0 <= j < |g| ensures !IsLineTerminator(g[j]) {
      assert IsHexDigit(g[j]);
    }
  }

  lemma ChunkOf(g: JsString, c: CodeUnit)
    requires ParseInt(g, 16) == Some(c)
    ensures ChunkValue(g) == c
  {
  }

  const InvalidHex: JsString := Str("Invalid hex input")

  function Decode(input: JsString): (r: JsString)
    ensures (forall k | 0 <= k < |input| :: !IsHexDigit(input[k])) ==> r == InvalidHex
  {
    var cleaned := Filter(input, KeepHex);
    var chunks := DotChunks(cleaned, 2);
    if |chunks| == 0 then InvalidHex
    else seq(|chunks|, k requires 0 <= k < |chunks| => ChunkValue(chunks[k]))
  }

  /** Decoding reads the hexadecimal digits of the input in order, two at a time, with an odd
      last digit read alone; each pair becomes the code unit it denotes. */
  lemma DecodeShape(input: JsString)
    requires exists k | 0 <= k < |input| :: IsHexDigit(input[k])
    ensures var cleaned := Filter(input, KeepHex);
      var chunks := DotChunks(cleaned, 2);
      Join(chunks, []) == cleaned && |chunks| > 0
      && (forall k | 0 <= k < |chunks| - 1 :: |chunks[k]| == 2)
      && Decode(input) == seq(|chunks|, k requires 0 <= k < |chunks| => ChunkValue(chunks[k]))
  {
    var cleaned := Filter(input, KeepHex);
    var i :| 0 <= i < |input| && IsHexDigit(input[i]);
    FilterKeeps(input, KeepHex, i);
    DotChunksShape(cleaned, 2);
  }

  /** `executeHexTool(input, action)`: any action other than `'encode'` decodes. The `catch`
      branch is not modelled, because nothing in the `try` block throws. */
  function ExecuteHexTool(input: JsString, action: JsString): JsString
  {
    if action == Str("encode") then Encode(input) else Decode(input)
  }

  /** Decoding the encoding of a non-empty string of codes below 256 gives it back. */
  lemma RoundTrip(x: JsString)
    requires |x| > 0 && forall k | 0 <= k < |x| :: x[k] < 256
    ensures Decode(Encode(x)) == x
  {
    var gs := Groups(x);
    ByteGroups(x);
    Space();
    PairsRead(gs);
    var r := Decode(Encode(x));
    assert |r| == |x|;
    forall k | 0 <= k < |x| ensures r[k] == x[k] {
      assert r[k] == ChunkValue(gs[k]);
    }
  }

  /** The groups of codes below 256: two lower-case digits each, reading back as the code. */
  lemma ByteGroups(x: JsString)
    requires forall k | 0 <= k < |x| :: x[k] < 256
    ensures |Groups(x)| == |x|
    ensures forall k | 0 <= k < |x| ::
      |Groups(x)[k]| == 2 && LowerHex(Groups(x)[k]) && ChunkValue(Groups(x)[k]) == x[k]
  {
    Latin1NoSurrogatePair(x);
    var gs := Groups(x);
    forall k | 0 <= k < |x| ensures |gs[k]| == 2 && LowerHex(gs[k]) && ChunkValue(gs[k]) == x[k] {
      assert gs[k] == HexGroup(x[k]);
      ByteGroup(x[k]);
    }
  }

  /** Deleting the spaces between two-digit groups and cutting the rest in pairs gives the
      groups back. */
  lemma PairsRead(gs: seq<JsString>)
    requires forall k | 0 <= k < |gs| :: |gs[k]| == 2 && LowerHex(gs[k])
    ensures DotChunks(Filter(Join(gs, [32]), KeepHex), 2) == gs
  {
    forall k, j | 0 <= k < |gs| && 0 <= j < |gs[k]| ensures KeepHex(gs[k][j]) && !IsLineTerminator(gs[k][j]) {
      assert LowerHex(gs[k]);
    }
    FilterJoin(gs, [32], KeepHex);
    DotChunksOfPieces(gs, 2);
  }
}
