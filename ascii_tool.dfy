/** The ASCII tool: encoding prints each character's decimal code, separated by single
    spaces; decoding splits at white space and turns each token into one code unit with
    `parseInt` and `String.fromCharCode`. */
module AsciiTool {
  import opened Text
  import opened Wrappers
  import opened Js

  /** The decimal codes of the input's code points. */
  function Codes(input: JsString): (cs: seq<JsString>)
    ensures |cs| == |CodePointHeads(input)|
    ensures forall k | 0 <= k < |cs| :: cs[k] == Decimal(CodePointHeads(input)[k])
  {
    var heads := CodePointHeads(input);
    seq(|heads|, k requires 0 <= k < |heads| => Decimal(heads[k]))
  }

  function Encode(input: JsString): JsString
  {
    Join(Codes(input), Str(" "))
  }

  /** The encoding is the codes joined by single spaces, and each one is a decimal numeral
      that `parseInt` reads back as the code of its character. */
  lemma EncodeShape(input: JsString)
    ensures Encode(input) == Join(Codes(input), [32])
    ensures forall k | 0 <= k < |Codes(input)| ::
      (|Codes(input)[k]| >= 1
      && (forall j | 0 <= j < |Codes(input)[k]| :: IsDigit(Codes(input)[k][j]))
      && ParseInt(Codes(input)[k], 0) == Some(CodePointHeads(input)[k]))
  {
    Space();
    forall k | 0 <= k < |Codes(input)| ensures ParseInt(Codes(input)[k], 0) == Some(CodePointHeads(input)[k]) {
      ParseDecimal(CodePointHeads(input)[k]);
    }
  }

  /** The code unit a token stands for: `String.fromCharCode(parseInt(token))`, which is
      U+0000 for a token that does not start with a digit. */
  function TokenValue(token: JsString): CodeUnit
  {
    FromCharCode(ParseInt(token, 0))
  }

  function Decode(input: JsString): (r: JsString)
    ensures |r| == |SplitWs(input)| >= 1
    ensures forall k | 0 <= k < |r| :: r[k] == TokenValue(SplitWs(input)[k])
  {
    var tokens := SplitWs(input);
    seq(|tokens|, k requires 0 <= k < |tokens| => TokenValue(tokens[k]))
  }

  /** The empty input decodes to one U+0000, because `parseInt('')` is `NaN`. */
  lemma DecodeEmpty()
    ensures Decode([]) == [0]
  {
    assert SplitWs([]) == [[]];
    assert ParseInt([], 0).None?;
  }

  /** `executeASCIITool(input, action)`: any action other than `'encode'` decodes. The `catch`
      branch is not modelled, because nothing in the `try` block throws. */
  function ExecuteAsciiTool(input: JsString, action: JsString): JsString
  {
    if action == Str("encode") then Encode(input) else Decode(input)
  }

  /** Decoding the encoding of a non-empty string without surrogate pairs gives it back. */
  lemma RoundTrip(x: JsString)
    requires |x| > 0 && NoSurrogatePair(x)
    ensures Decode(Encode(x)) == x
  {
    var cs := Codes(x);
    assert |cs| == |x|;
    forall k | 0 <= k < |cs| ensures |cs[k]| > 0 && NoSpace(cs[k]) {
      assert cs[k] == Decimal(x[k]);
    }
    Space();
    SplitWsJoin(cs);
    var r := Decode(Encode(x));
    forall k | 0 <= k < |x| ensures r[k] == x[k] {
      ParseDecimal(x[k]);
    }
  }
}
