/** The binary tool: encoding prints each character's code in binary, padded to eight digits
    and separated by single spaces; decoding deletes everything but `0` and `1` and reads the
    rest eight digits at a time. */
module BinaryTool {
  import opened Text
  import opened Wrappers
  import opened Js

  predicate IsBit(c: int) { c == '0' as int || c == '1' as int }
  predicate KeepBit(c: CodeUnit) { IsBit(c) }

  /** The group printed for one code. */
  function BinaryGroup(c: CodeUnit): (g: JsString)
    ensures |g| >= 8
    ensures forall k | 0 <= k < |g| :: IsBit(g[k])
    ensures ParseInt(g, 2) == Some(c)
    ensures c < 256 ==> |g| == 8
  {
    var t := ToStringRadix(c, 2);
    var g := PadStart(t, 8, '0' as int);
    ParsePadded(c, 2, 8);
    ByteWidth(c);
    BitsPadded(c, t, g);
    g
  }

  lemma ByteWidth(c: nat)
    ensures c < 256 ==> |Digits(c, 2)| <= 8
  {
    if c < 256 {
      assert Power(2, 8) == 256;
      DigitsWidth(c, 2, 8);
    }
  }

  lemma BitsPadded(c: CodeUnit, t: JsString, g: JsString)
    requires t == ToStringRadix(c, 2) && g == PadStart(t, 8, '0' as int)
    ensures forall k | 0 <= k < |g| :: IsBit(g[k])
  {
    var ds := Digits(c, 2);
    var m := |g| - |t|;
    forall k | 0 <= k < |g| ensures IsBit(g[k]) {
      if k >= m {
        assert g[k] == t[k - m] == DigitChar(ds[k - m]);
      }
    }
  }

  /** The groups of the encoding, one per code point of the input. */
  function Groups(input: JsString): (gs: seq<JsString>)
    ensures |gs| == |CodePointHeads(input)|
    ensures forall k | 0 <= k < |gs| :: gs[k] == BinaryGroup(CodePointHeads(input)[k])
  {
    var heads := CodePointHeads(input);
    seq(|heads|, k requires 0 <= k < |heads| => BinaryGroup(heads[k]))
  }

  function Encode(input: JsString): JsString
  {
    Join(Groups(input), Str(" "))
  }

  /** The encoding is the groups joined by single spaces, and each group is at least eight
      binary digits whose value is the code of its character. */
  lemma EncodeShape(input: JsString)
    ensures Encode(input) == Join(Groups(input), [32])
    ensures forall k | 0 <= k < |Groups(input)| ::
      (|Groups(input)[k]| >= 8
      && (forall j | 0 <= j < |Groups(input)[k]| :: IsBit(Groups(input)[k][j]))
      && ParseInt(Groups(input)[k], 2) == Some(CodePointHeads(input)[k]))
  {
    Space();
    var gs := Groups(input);
    forall k | 0 <= k < |gs| ensures |gs[k]| >= 8
      && (forall j | 0 <= j < |gs[k]| :: IsBit(gs[k][j]))
      && ParseInt(gs[k], 2) == Some(CodePointHeads(input)[k])
    {
      assert gs[k] == BinaryGroup(CodePointHeads(input)[k]);
    }
  }

  function ChunkValue(chunk: JsString): CodeUnit
  {
    FromCharCode(ParseInt(chunk, 2))
  }

  const InvalidBinary: JsString := Str("Invalid binary input")

  function Decode(input: JsString): (r: JsString)
    ensures (forall k | 0 <= k < |input| :: !IsBit(input[k])) ==> r == InvalidBinary
  {
    var cleaned := Filter(input, KeepBit);
    var chunks := DotChunks(cleaned, 8);
    if |chunks| == 0 then InvalidBinary
    else seq(|chunks|, k requires 0 <= k < |chunks| => ChunkValue(chunks[k]))
  }

  /** Decoding reads the binary digits of the input in order, eight at a time, with a shorter
      last chunk read as it is; each chunk becomes the code unit it denotes. */
  lemma DecodeShape(input: JsString)
    requires exists k | 0 <= k < |input| :: IsBit(input[k])
    ensures var cleaned := Filter(input, KeepBit);
      var chunks := DotChunks(cleaned, 8);
      Join(chunks, []) == cleaned && |chunks| > 0
      && (forall k | 0 <= k < |chunks| - 1 :: |chunks[k]| == 8)
      && Decode(input) == seq(|chunks|, k requires 0 <= k < |chunks| => ChunkValue(chunks[k]))
  {
    var cleaned := Filter(input, KeepBit);
    var i :| 0 <= i < |input| && IsBit(input[i]);
    FilterKeeps(input, KeepBit, i);
    DotChunksShape(cleaned, 8);
  }

  /** `executeBinaryTool(input, action)`: any action other than `'encode'` decodes. The
      `catch` branch is not modelled, because nothing in the `try` block throws. */
  function ExecuteBinaryTool(input: JsString, action: JsString): JsString
  {
    if action == Str("encode") then Encode(input) else Decode(input)
  }

  /** Decoding the encoding of a non-empty string of codes below 256 gives it back. */
  lemma RoundTrip(x: JsString)
    requires |x| > 0 && forall k | 0 <= k < |x| :: x[k] < 256
    ensures Decode(Encode(x)) == x
  {
    Latin1NoSurrogatePair(x);
    var gs := Groups(x);
    assert |gs| == |x|;
    forall k | 0 <= k < |gs| ensures |gs[k]| == 8 && (forall j | 0 <= j < 8 :: IsBit(gs[k][j])) {
      assert gs[k] == BinaryGroup(x[k]);
    }
    Space();
    FilterJoin(gs, [32], KeepBit);
    DotChunksOfPieces(gs, 8);
    var r := Decode(Encode(x));
    assert |r| == |x|;
    forall k | 0 <= k < |x| ensures r[k] == x[k] {
      assert r[k] == ChunkValue(gs[k]);
      assert ParseInt(gs[k], 2) == Some(x[k]);
    }
  }
}
