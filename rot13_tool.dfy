/** The ROT13 tool: each ASCII letter moves 13 places within its case range. */
module Rot13Tool {
  import opened Js
  import CaesarTool

  function Rot13Char(c: CodeUnit): (r: CodeUnit)
    ensures !IsLetter(c) ==> r == c
    ensures IsUpper(c) <==> IsUpper(r)
    ensures IsLower(c) <==> IsLower(r)
  {
    if IsLetter(c) then
      var start := if c <= 'Z' as int then 65 else 97;
      (c - start + 13) % 26 + start
    else c
  }

  /** `executeROT13Tool(input)`. */
  function ExecuteRot13Tool(input: JsString): (r: JsString)
    ensures |r| == |input|
    ensures forall k | 0 <= k < |input| :: !IsLetter(input[k]) ==> r[k] == input[k]
    ensures forall k | 0 <= k < |input| :: (IsUpper(input[k]) <==> IsUpper(r[k])) && (IsLower(input[k]) <==> IsLower(r[k]))
  {
    seq(|input|, k requires 0 <= k < |input| => Rot13Char(input[k]))
  }

  /** Applying ROT13 twice gives the input back. */
  lemma Rot13Involution(input: JsString)
    ensures ExecuteRot13Tool(ExecuteRot13Tool(input)) == input
  {
    forall k | 0 <= k < |input| ensures ExecuteRot13Tool(ExecuteRot13Tool(input))[k] == input[k] {
      assert Rot13Char(Rot13Char(input[k])) == input[k];
    }
  }

  /** ROT13 is the Caesar cipher with shift 13. */
  lemma Rot13IsCaesar13(input: JsString)
    ensures ExecuteRot13Tool(input) == CaesarTool.ExecuteCaesarTool(input, 13)
  {
    forall k | 0 <= k < |input| ensures ExecuteRot13Tool(input)[k] == CaesarTool.ExecuteCaesarTool(input, 13)[k] {
      assert Rot13Char(input[k]) == CaesarTool.ShiftChar(input[k], 13);
    }
  }
}
