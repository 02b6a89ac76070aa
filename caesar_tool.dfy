/** The Caesar cipher tool: each ASCII letter moves `shift` places within its own case
    range, computed with JavaScript's truncating `%`; every other code unit is kept. */
module CaesarTool {
  import opened Js

  /** The code unit a letter is replaced by; other code units are kept. For a negative shift
      the truncating remainder can leave the letter's range. */
  function ShiftChar(c: CodeUnit, shift: int): (r: CodeUnit)
    ensures !IsLetter(c) ==> r == c
    ensures IsLetter(c) && shift >= 0 ==> (IsUpper(c) <==> IsUpper(r)) && (IsLower(c) <==> IsLower(r))
  {
    if IsLetter(c) then
      var start := if c <= 'Z' as int then 65 else 97;
      JsRem(c - start + shift, 26) + start
    else c
  }

  /** `executeCaesarTool(input, shift = 3)`. */
  function ExecuteCaesarTool(input: JsString, shift: int := 3): (r: JsString)
    ensures |r| == |input|
    ensures forall k | 0 <= k < |input| :: !IsLetter(input[k]) ==> r[k] == input[k]
    ensures shift >= 0 ==> forall k | 0 <= k < |input| ::
      (IsUpper(input[k]) ==> IsUpper(r[k])) && (IsLower(input[k]) ==> IsLower(r[k]))
  {
    seq(|input|, k requires 0 <= k < |input| => ShiftChar(input[k], shift))
  }

  lemma ShiftCharInverse(c: CodeUnit, s: int)
    requires 0 <= s <= 26
    ensures ShiftChar(ShiftChar(c, s), 26 - s) == c
  {
  }

  /** Shifting by `26 - s` undoes a shift by `s`. */
  lemma CaesarInverse(input: JsString, s: int)
    requires 0 <= s <= 26
    ensures ExecuteCaesarTool(ExecuteCaesarTool(input, s), 26 - s) == input
  {
    forall k | 0 <= k < |input| ensures ExecuteCaesarTool(ExecuteCaesarTool(input, s), 26 - s)[k] == input[k] {
      ShiftCharInverse(input[k], s);
    }
  }
}
