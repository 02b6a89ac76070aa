/** International Morse code for the letters `A`-`Z` and the digits `0`-`9`, as the tables of
    the tools page (`textToMorse`, `morseToText`) and of the encoding detective spell it, and
    the tools page's encoder and decoder. */
module Morse {
  import opened Text
  import opened Wrappers
  import opened Js

  const Dot: CodeUnit := '.' as int
  const Dash: CodeUnit := '-' as int
  /** The word separator `/` of the tools page. */
  const Slash: CodeUnit := '/' as int
  const Gap: CodeUnit := ' ' as int

  predicate IsMorseLetter(c: CodeUnit) { IsUpper(c) || IsDigit(c) }

  /** The code of a capital letter. */
  function LetterCode(c: CodeUnit): (r: JsString)
    requires IsUpper(c)
  {
    if c == 'A' as int then [Dot, Dash]
    else if c == 'B' as int then [Dash, Dot, Dot, Dot]
    else if c == 'C' as int then [Dash, Dot, Dash, Dot]
    else if c == 'D' as int then [Dash, Dot, Dot]
    else if c == 'E' as int then [Dot]
    else if c == 'F' as int then [Dot, Dot, Dash, Dot]
    else if c == 'G' as int then [Dash, Dash, Dot]
    else if c == 'H' as int then [Dot, Dot, Dot, Dot]
    else if c == 'I' as int then [Dot, Dot]
    else if c == 'J' as int then [Dot, Dash, Dash, Dash]
    else if c == 'K' as int then [Dash, Dot, Dash]
    else if c == 'L' as int then [Dot, Dash, Dot, Dot]
    else if c == 'M' as int then [Dash, Dash]
    else if c == 'N' as int then [Dash, Dot]
    else if c == 'O' as int then [Dash, Dash, Dash]
    else if c == 'P' as int then [Dot, Dash, Dash, Dot]
    else if c == 'Q' as int then [Dash, Dash, Dot, Dash]
    else if c == 'R' as int then [Dot, Dash, Dot]
    else if c == 'S' as int then [Dot, Dot, Dot]
    else if c == 'T' as int then [Dash]
    else if c == 'U' as int then [Dot, Dot, Dash]
    else if c == 'V' as int then [Dot, Dot, Dot, Dash]
    else if c == 'W' as int then [Dot, Dash, Dash]
    else if c == 'X' as int then [Dash, Dot, Dot, Dash]
    else if c == 'Y' as int then [Dash, Dot, Dash, Dash]
    else [Dash, Dash, Dot, Dot]
  }

  /** The code of a digit. */
  function DigitCode(c: CodeUnit): (r: JsString)
    requires IsDigit(c)
  {
    if c == '0' as int then [Dash, Dash, Dash, Dash, Dash]
    else if c == '1' as int then [Dot, Dash, Dash, Dash, Dash]
    else if c == '2' as int then [Dot, Dot, Dash, Dash, Dash]
    else if c == '3' as int then [Dot, Dot, Dot, Dash, Dash]
    else if c == '4' as int then [Dot, Dot, Dot, Dot, Dash]
    else if c == '5' as int then [Dot, Dot, Dot, Dot, Dot]
    else if c == '6' as int then [Dash, Dot, Dot, Dot, Dot]
    else if c == '7' as int then [Dash, Dash, Dot, Dot, Dot]
    else if c == '8' as int then [Dash, Dash, Dash, Dot, Dot]
    else [Dash, Dash, Dash, Dash, Dot]
  }

  /** The code of a letter or digit. */
  function CodeOf(c: CodeUnit): (r: JsString)
    requires IsMorseLetter(c)
  {
    if IsUpper(c) then LetterCode(c) else DigitCode(c)
  }

  /** The letter or digit a code stands for (the detective's `morseMap`, and the tools page's
      `morseToChar` without its entry for `/`); `None` for any other string. The table is
      searched by the length of the code first. */
  function LetterOf(code: JsString): (r: Option<CodeUnit>)
  {
    if |code| == 1 then
      if code == [Dot] then Some('E' as int)
      else if code == [Dash] then Some('T' as int)
      else None
    else if |code| == 2 then
      if code == [Dot, Dash] then Some('A' as int)
      else if code == [Dot, Dot] then Some('I' as int)
      else if code == [Dash, Dash] then Some('M' as int)
      else if code == [Dash, Dot] then Some('N' as int)
      else None
    else if |code| == 3 then
      if code == [Dash, Dot, Dot] then Some('D' as int)
      else if code == [Dash, Dash, Dot] then Some('G' as int)
      else if code == [Dash, Dot, Dash] then Some('K' as int)
      else if code == [Dash, Dash, Dash] then Some('O' as int)
      else if code == [Dot, Dash, Dot] then Some('R' as int)
      else if code == [Dot, Dot, Dot] then Some('S' as int)
      else if code == [Dot, Dot, Dash] then Some('U' as int)
      else if code == [Dot, Dash, Dash] then Some('W' as int)
      else None
    else if |code| == 4 then
      if code == [Dash, Dot, Dot, Dot] then Some('B' as int)
      else if code == [Dash, Dot, Dash, Dot] then Some('C' as int)
      else if code == [Dot, Dot, Dash, Dot] then Some('F' as int)
      else if code == [Dot, Dot, Dot, Dot] then Some('H' as int)
      else if code == [Dot, Dash, Dash, Dash] then Some('J' as int)
      else if code == [Dot, Dash, Dot, Dot] then Some('L' as int)
      else if code == [Dot, Dash, Dash, Dot] then Some('P' as int)
      else if code == [Dash, Dash, Dot, Dash] then Some('Q' as int)
      else if code == [Dot, Dot, Dot, Dash] then Some('V' as int)
      else if code == [Dash, Dot, Dot, Dash] then Some('X' as int)
      else if code == [Dash, Dot, Dash, Dash] then Some('Y' as int)
      else if code == [Dash, Dash, Dot, Dot] then Some('Z' as int)
      else None
    else if |code| == 5 then
      if code == [Dash, Dash, Dash, Dash, Dash] then Some('0' as int)
      else if code == [Dot, Dash, Dash, Dash, Dash] then Some('1' as int)
      else if code == [Dot, Dot, Dash, Dash, Dash] then Some('2' as int)
      else if code == [Dot, Dot, Dot, Dash, Dash] then Some('3' as int)
      else if code == [Dot, Dot, Dot, Dot, Dash] then Some('4' as int)
      else if code == [Dot, Dot, Dot, Dot, Dot] then Some('5' as int)
      else if code == [Dash, Dot, Dot, Dot, Dot] then Some('6' as int)
      else if code == [Dash, Dash, Dot, Dot, Dot] then Some('7' as int)
      else if code == [Dash, Dash, Dash, Dot, Dot] then Some('8' as int)
      else if code == [Dash, Dash, Dash, Dash, Dot] then Some('9' as int)
      else None
    else None
  }

  lemma LetterOfCodeAM(c: CodeUnit)
    requires 'A' as int <= c <= 'M' as int
    ensures LetterOf(LetterCode(c)) == Some(c)
  {
  }

  lemma LetterOfCodeNS(c: CodeUnit)
    requires 'N' as int <= c <= 'S' as int
    ensures LetterOf(LetterCode(c)) == Some(c)
  {
  }

  lemma LetterOfCodeTZ(c: CodeUnit)
    requires 'T' as int <= c <= 'Z' as int
    ensures LetterOf(LetterCode(c)) == Some(c)
  {
    if c <= 'V' as int {
      LetterOfCodeTV(c);
    } else if c <= 'X' as int {
      LetterOfCodeWX(c);
    } else {
      LetterOfCodeYZ(c);
    }
  }

  lemma LetterOfCodeTV(c: CodeUnit)
    requires 'T' as int <= c <= 'V' as int
    ensures LetterOf(LetterCode(c)) == Some(c)
  {
  }

  lemma LetterOfCodeWX(c: CodeUnit)
    requires 'W' as int <= c <= 'X' as int
    ensures LetterOf(LetterCode(c)) == Some(c)
  {
  }

  lemma LetterOfCodeYZ(c: CodeUnit)
    requires 'Y' as int <= c <= 'Z' as int
    ensures LetterOf(LetterCode(c)) == Some(c)
  {
  }

  lemma LetterOfCodeDigit(c: CodeUnit)
    requires IsDigit(c)
    ensures LetterOf(DigitCode(c)) == Some(c)
  {
  }

  /** Every code is a non-empty string of dots and dashes, and reading it back gives its
      letter: no two letters share a code. */
  lemma LetterOfCode(c: CodeUnit)
    requires IsMorseLetter(c)
    ensures LetterOf(CodeOf(c)) == Some(c)
    ensures |CodeOf(c)| > 0 && forall k | 0 <= k < |CodeOf(c)| :: CodeOf(c)[k] == Dot || CodeOf(c)[k] == Dash
  {
    if IsUpper(c) && c <= 'M' as int {
      LetterOfCodeAM(c);
    } else if IsUpper(c) && c <= 'S' as int {
      LetterOfCodeNS(c);
    } else if IsUpper(c) {
      LetterOfCodeTZ(c);
    } else {
      LetterOfCodeDigit(c);
    }
  }

  // ---------------------------------------------------------------------------------------
  // The tools page's encoder and decoder

  /** What `textToMorse` prints for one code unit of the upper-cased text: its code, `/` for
      a space, and any other code unit as it is. */
  function Symbol(c: CodeUnit): (r: JsString)
  {
    if IsMorseLetter(c) then CodeOf(c) else if c == Gap then [Slash] else [c]
  }

  /** `textToMorse`: the symbols of the upper-cased text, one per code unit, separated by
      single spaces. */
  function TextToMorse(text: JsString): (r: JsString)
  {
    var u := ToUpper(text);
    Join<CodeUnit>(seq(|u|, k requires 0 <= k < |u| => Symbol(u[k])), [Gap])
  }

  /** What `morseToText` makes of one piece: the letter of a code, a space for `/`, and any
      other piece as it is. */
  function Piece(code: JsString): (r: JsString)
  {
    if code == [Slash] then [Gap]
    else match LetterOf(code)
      case Some(c) => [c]
      case None => code
  }

  /** `morseToText`: the input is split at every single space and the pieces are translated
      and concatenated. */
  function MorseToText(morse: JsString): (r: JsString)
  {
    var codes := SplitOn(morse, Gap);
    Join<CodeUnit>(seq(|codes|, k requires 0 <= k < |codes| => Piece(codes[k])), [])
  }

  /** The characters `textToMorse` has a code for, besides the space. */
  predicate IsMorseText(x: JsString)
  {
    forall k | 0 <= k < |x| :: IsMorseLetter(x[k]) || x[k] == Gap
  }

  /** Upper-case letters, digits and spaces are their own upper case. */
  lemma UpperMorseText(x: JsString)
    requires IsMorseText(x)
    ensures ToUpper(x) == x
  {
    ToUpperAscii(x);
  }

  /** A symbol holds no space, and translating it back gives its character. */
  lemma PieceOfSymbol(c: CodeUnit)
    requires IsMorseLetter(c) || c == Gap
    ensures Gap !in Symbol(c)
    ensures Piece(Symbol(c)) == [c]
  {
    if IsMorseLetter(c) {
      LetterOfCode(c);
      assert CodeOf(c) != [Slash] by {
        assert CodeOf(c)[0] == Dot || CodeOf(c)[0] == Dash;
      }
    }
  }

  /** Reading back the Morse code of upper-case letters, digits and spaces gives them back. */
  lemma MorseRoundTrip(x: JsString)
    requires IsMorseText(x)
    ensures MorseToText(TextToMorse(x)) == x
  {
    UpperMorseText(x);
    var syms := seq(|x|, k requires 0 <= k < |x| => Symbol(x[k]));
    assert TextToMorse(x) == Join(syms, [Gap]);
    if |x| == 0 {
      assert SplitOn(Join(syms, [Gap]), Gap) == [[]];
      assert LetterOf([]) == None;
    } else {
      forall k | 0 <= k < |syms| ensures Gap !in syms[k] && Piece(syms[k]) == [x[k]] {
        PieceOfSymbol(x[k]);
      }
      SplitOnJoin(syms, Gap);
      var pieces := seq(|syms|, k requires 0 <= k < |syms| => Piece(syms[k]));
      assert pieces == seq(|x|, k requires 0 <= k < |x| => [x[k]]);
      JoinSingletons(x);
    }
  }
}
