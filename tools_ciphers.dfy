/** The cipher helpers of the tools page: ROT47, Atbash, Vigenère, XOR, Bacon and the HTML
    entity encoder and decoder. */
module ToolsCiphers {
  import opened Text
  import opened Wrappers
  import opened Js
  import opened HtmlEntities
  import opened Bits

  // ROT47

  /** The printable ASCII range `[\x21-\x7E]` that ROT47 rotates. */
  predicate IsRot47Char(c: int) { 0x21 <= c <= 0x7E }

  /** One code unit under ROT47: 47 places round the 94 printable characters. */
  function Rot47Char(c: CodeUnit): (r: CodeUnit)
    ensures IsRot47Char(c) <==> IsRot47Char(r)
    ensures !IsRot47Char(c) ==> r == c
  {
    if IsRot47Char(c) then 33 + (c - 33 + 47) % 94 else c
  }

  /** The `rot47` case of `executeTool`. */
  function Rot47(input: JsString): (r: JsString)
    ensures |r| == |input|
    ensures forall k | 0 <= k < |input| :: IsRot47Char(input[k]) <==> IsRot47Char(r[k])
    ensures forall k | 0 <= k < |input| :: !IsRot47Char(input[k]) ==> r[k] == input[k]
  {
    seq(|input|, k requires 0 <= k < |input| => Rot47Char(input[k]))
  }

  lemma Rot47CharInvolution(c: CodeUnit)
    ensures Rot47Char(Rot47Char(c)) == c
  {
    if IsRot47Char(c) {
      var x := c - 33;
      if x < 47 {
        assert (x + 47) % 94 == x + 47;
        assert (x + 47 + 47) % 94 == x;
      } else {
        assert (x + 47) % 94 == x - 47;
      }
    }
  }

  /** ROT47 applied twice gives the input back. */
  lemma Rot47Involution(input: JsString)
    ensures Rot47(Rot47(input)) == input
  {
    forall k | 0 <= k < |input| ensures Rot47(Rot47(input))[k] == input[k] {
      Rot47CharInvolution(input[k]);
    }
  }

  // Atbash

  /** One code unit under Atbash: a letter is mirrored within its case range, `A` with `Z`
      and `a` with `z`; other code units are kept. */
  function AtbashChar(c: CodeUnit): (r: CodeUnit)
    ensures IsUpper(c) <==> IsUpper(r)
    ensures IsLower(c) <==> IsLower(r)
    ensures !IsLetter(c) ==> r == c
  {
    if IsLetter(c) then
      if c <= 'Z' as int then 155 - c else 219 - c
    else c
  }

  /** The `atbash-cipher` case of `executeTool`. */
  function Atbash(input: JsString): (r: JsString)
    ensures |r| == |input|
    ensures forall k | 0 <= k < |input| ::
      (IsUpper(input[k]) <==> IsUpper(r[k])) && (IsLower(input[k]) <==> IsLower(r[k]))
    ensures forall k | 0 <= k < |input| :: !IsLetter(input[k]) ==> r[k] == input[k]
  {
    seq(|input|, k requires 0 <= k < |input| => AtbashChar(input[k]))
  }

  /** Atbash applied twice gives the input back. */
  lemma AtbashInvolution(input: JsString)
    ensures Atbash(Atbash(input)) == input
  {
    forall k | 0 <= k < |input| ensures Atbash(Atbash(input))[k] == input[k] {
      assert Atbash(Atbash(input))[k] == AtbashChar(AtbashChar(input[k]));
    }
  }

  // Vigenère

  const VigenereKeyError: JsString := Str("Key required for Vigenère cipher")

  /** The letter `c` moved by the key character `k` (upper-cased): forward when encrypting and
      backward when decrypting, by the distance of `k` from `A`. JavaScript's truncating `%`
      is written out, since a key character other than a letter can move the result out of
      the letter's case range. The remainder is above -26, so the code is between 40 and 122
      and `String.fromCharCode` leaves it as it is. */
  function VigenereShift(c: CodeUnit, k: CodeUnit, encrypt: bool): (r: CodeUnit)
    requires IsLetter(c)
    ensures IsUpper(k) ==> (IsUpper(c) <==> IsUpper(r)) && (IsLower(c) <==> IsLower(r))
  {
    var base := if c <= 'Z' as int then 65 else 97;
    var shift := k - 65;
    var charShift := if encrypt then shift else -shift;
    JsRem(c - base + charShift + 26, 26) + base
  }

  /** The number of letters in `s`: the key position after `s` has been processed. */
  function LetterCount(s: JsString): (n: nat)
    ensures n <= |s|
  {
    if |s| == 0 then 0 else LetterCount(s[..|s| - 1]) + (if IsLetter(s[|s| - 1]) then 1 else 0)
  }

  /** The output character at `i`: a letter uses the key character at the number of letters
      before it, modulo the key length; any other character is copied. */
  function VigenereAt(text: JsString, upper: JsString, encrypt: bool, i: nat): CodeUnit
    requires |upper| > 0 && i < |text|
  {
    if IsLetter(text[i]) then VigenereShift(text[i], upper[LetterCount(text[..i]) % |upper|], encrypt)
    else text[i]
  }

  /** `vigenereProcess(text, key, encrypt)`. The loop runs over code points, but a letter is
      one code unit and a surrogate pair is copied as it is, so per code unit is the same. */
  function Vigenere(text: JsString, key: JsString, encrypt: bool): (r: JsString)
    ensures |key| == 0 ==> r == VigenereKeyError
    ensures |key| > 0 ==> |r| == |text| && forall k {:trigger r[k]} | 0 <= k < |text| :: !IsLetter(text[k]) ==> r[k] == text[k]
  {
    if |key| == 0 then VigenereKeyError
    else
      var upper := ToUpper(key);
      seq(|text|, i requires 0 <= i < |text| => VigenereAt(text, upper, encrypt, i))
  }

  method VigenereProcess(text: JsString, key: JsString, encrypt: bool) returns (result: JsString)
    ensures result == Vigenere(text, key, encrypt)
  {
    if |key| == 0 {
      return VigenereKeyError;
    }
    var upper := ToUpper(key);
    result := [];
    var keyIndex := 0;
    var i := 0;
    while i < |text|
      invariant 0 <= i <= |text| && |result| == i
      invariant keyIndex == LetterCount(text[..i])
      invariant forall j | 0 <= j < i :: result[j] == VigenereAt(text, upper, encrypt, j)
    {
      var c := text[i];
      if IsLetter(c) {
        result := result + [VigenereShift(c, upper[keyIndex % |upper|], encrypt)];
        keyIndex := keyIndex + 1;
      } else {
        result := result + [c];
      }
      assert text[..i + 1][..i] == text[..i];
      i := i + 1;
    }
  }

  /** A key made of ASCII letters only. */
  predicate LetterKey(key: JsString)
  {
    |key| > 0 && forall k | 0 <= k < |key| :: IsLetter(key[k])
  }

  lemma {:induction false} LetterCountAppend(s: JsString, t: JsString)
    ensures LetterCount(s + t) == LetterCount(s) + LetterCount(t)
    decreases |t|
  {
    if |t| == 0 {
      assert s + t == s;
    } else {
      assert (s + t)[..|s + t| - 1] == s + t[..|t| - 1];
      LetterCountAppend(s, t[..|t| - 1]);
    }
  }

  lemma {:induction false} LetterCountAgree(a: JsString, b: JsString)
    requires |a| == |b| && forall k | 0 <= k < |a| :: IsLetter(a[k]) <==> IsLetter(b[k])
    ensures LetterCount(a) == LetterCount(b)
    decreases |a|
  {
    if |a| > 0 {
      LetterCountAgree(a[..|a| - 1], b[..|b| - 1]);
    }
  }

  lemma VigenereShiftInverse(c: CodeUnit, k: CodeUnit)
    requires IsLetter(c) && IsUpper(k)
    ensures VigenereShift(VigenereShift(c, k, true), k, false) == c
  {
    var base := if c <= 'Z' as int then 65 else 97;
    var x, s := c - base, k - 65;
    var e := VigenereShift(c, k, true);
    if x + s < 26 {
      assert e == x + s + base;
    } else {
      assert e == x + s - 26 + base;
    }
  }

  /** An ASCII key upper-cases to the letters `A` to `Z`. */
  lemma UpperLetterKey(key: JsString)
    requires LetterKey(key)
    ensures |ToUpper(key)| == |key| && forall k | 0 <= k < |key| :: IsUpper(ToUpper(key)[k])
  {
    ToUpperAscii(key);
  }

  /** With a key of ASCII letters, decrypting the encryption gives the text back. */
  lemma VigenereRoundTrip(text: JsString, key: JsString)
    requires LetterKey(key)
    ensures Vigenere(Vigenere(text, key, true), key, false) == text
  {
    var upper := ToUpper(key);
    UpperLetterKey(key);
    var y := Vigenere(text, key, true);
    var z := Vigenere(y, key, false);
    forall i | 0 <= i < |text| ensures IsLetter(y[i]) <==> IsLetter(text[i]) {
      if IsLetter(text[i]) {
        assert y[i] == VigenereShift(text[i], upper[LetterCount(text[..i]) % |upper|], true);
      }
    }
    forall i | 0 <= i < |text| ensures z[i] == text[i] {
      LetterCountAgree(y[..i], text[..i]);
      if IsLetter(text[i]) {
        var n := LetterCount(text[..i]) % |upper|;
        assert z[i] == VigenereShift(y[i], upper[n], false);
        VigenereShiftInverse(text[i], upper[n]);
      }
    }
  }

  /** Characters other than letters use no key position: text without letters in front of
      `rest` leaves the encryption of `rest` as it was. */
  lemma {:induction false} VigenereSkipsNonLetters(plain: JsString, rest: JsString, key: JsString, encrypt: bool)
    requires |key| > 0 && forall k | 0 <= k < |plain| :: !IsLetter(plain[k])
    ensures Vigenere(plain + rest, key, encrypt) == plain + Vigenere(rest, key, encrypt)
  {
    var s := plain + rest;
    var r, t := Vigenere(s, key, encrypt), Vigenere(rest, key, encrypt);
    NoLetterCount(plain);
    forall m | 0 <= m < |s| ensures r[m] == (plain + t)[m] {
      if m < |plain| {
        FrontAt(plain, rest, key, encrypt, m);
      } else {
        ShiftedAt(plain, rest, key, encrypt, m);
      }
    }
  }

  lemma {:induction false} FrontAt(plain: JsString, rest: JsString, key: JsString, encrypt: bool, m: nat)
    requires |key| > 0 && m < |plain| && !IsLetter(plain[m])
    ensures Vigenere(plain + rest, key, encrypt)[m] == (plain + Vigenere(rest, key, encrypt))[m]
  {
    assert (plain + rest)[m] == plain[m];
  }

  lemma AppendAt(a: JsString, b: JsString, m: nat)
    requires |a| <= m < |a| + |b|
    ensures (a + b)[m] == b[m - |a|]
  {
  }

  /** Equal outputs at two positions, read off the two encryptions. */
  lemma {:induction false} SameIndex(a: JsString, i: nat, b: JsString, j: nat, key: JsString, encrypt: bool)
    requires |key| > 0 && i < |a| && j < |b|
    requires a[i] == b[j] && LetterCount(a[..i]) == LetterCount(b[..j])
    ensures Vigenere(a, key, encrypt)[i] == Vigenere(b, key, encrypt)[j]
  {
    SameAt(a, i, b, j, ToUpper(key), encrypt);
    VigenereIndex(a, key, encrypt, i);
    VigenereIndex(b, key, encrypt, j);
  }

  lemma {:induction false} VigenereIndex(text: JsString, key: JsString, encrypt: bool, i: nat)
    requires |key| > 0 && i < |text|
    ensures Vigenere(text, key, encrypt)[i] == VigenereAt(text, ToUpper(key), encrypt, i)
  {
  }

  /** Behind letter-free text the same key position serves each code unit of `rest`. */
  lemma {:induction false} ShiftedAt(plain: JsString, rest: JsString, key: JsString, encrypt: bool, m: nat)
    requires |key| > 0 && |plain| <= m < |plain| + |rest| && LetterCount(plain) == 0
    ensures Vigenere(plain + rest, key, encrypt)[m] == (plain + Vigenere(rest, key, encrypt))[m]
  {
    var s, j := plain + rest, m - |plain|;
    LettersBehind(plain, rest, m);
    AppendAt(plain, rest, m);
    SameIndex(s, m, rest, j, key, encrypt);
    AppendAt(plain, Vigenere(rest, key, encrypt), m);
  }

  /** Behind letter-free text, a prefix of `rest` counts its own letters only. */
  lemma {:induction false} LettersBehind(plain: JsString, rest: JsString, m: nat)
    requires |plain| <= m <= |plain| + |rest| && LetterCount(plain) == 0
    ensures LetterCount((plain + rest)[..m]) == LetterCount(rest[..m - |plain|])
  {
    assert (plain + rest)[..m] == plain + rest[..m - |plain|];
    LetterCountAppend(plain, rest[..m - |plain|]);
  }

  /** The output at a position depends on its code unit and the letters before it only. */
  lemma {:induction false} SameAt(a: JsString, i: nat, b: JsString, j: nat, upper: JsString, encrypt: bool)
    requires |upper| > 0 && i < |a| && j < |b|
    requires a[i] == b[j] && LetterCount(a[..i]) == LetterCount(b[..j])
    ensures VigenereAt(a, upper, encrypt, i) == VigenereAt(b, upper, encrypt, j)
  {
  }

  lemma {:induction false} NoLetterCount(s: JsString)
    requires forall k | 0 <= k < |s| :: !IsLetter(s[k])
    ensures LetterCount(s) == 0
    decreases |s|
  {
    if |s| > 0 {
      NoLetterCount(s[..|s| - 1]);
    }
  }

  // XOR

  const XorKeyError: JsString := Str("Key required for XOR cipher")

  /** The exclusive or of two code units. JavaScript's `^` works on 32-bit integers, and on
      two 16-bit values it is the exclusive or of their 16 bits. */
  function XorCode(a: CodeUnit, b: CodeUnit): CodeUnit
  {
    UnitWidthPow();
    XorBits(a, b, UnitWidth)
  }

  /** `xorCipher(text, key)`: each code unit xor-ed with the key's code unit at the same
      position modulo the key length. */
  function Xor(text: JsString, key: JsString): (r: JsString)
    ensures |key| == 0 ==> r == XorKeyError
    ensures |key| > 0 ==> |r| == |text|
  {
    if |key| == 0 then XorKeyError
    else seq(|text|, i requires 0 <= i < |text| => XorCode(text[i], key[i % |key|]))
  }

  method XorCipher(text: JsString, key: JsString) returns (result: JsString)
    ensures result == Xor(text, key)
  {
    if |key| == 0 {
      return XorKeyError;
    }
    result := [];
    var i := 0;
    while i < |text|
      invariant 0 <= i <= |text| && |result| == i
      invariant forall j | 0 <= j < i :: result[j] == XorCode(text[j], key[j % |key|])
    {
      result := result + [XorCode(text[i], key[i % |key|])];
      i := i + 1;
    }
  }

  lemma XorCodeTwice(a: CodeUnit, b: CodeUnit)
    ensures XorCode(XorCode(a, b), b) == a
  {
    UnitWidthPow();
    XorBitsTwice(a, b, UnitWidth);
  }

  /** XOR with the same non-empty key, applied twice, gives the text back. */
  lemma XorInvolution(text: JsString, key: JsString)
    requires |key| > 0
    ensures Xor(Xor(text, key), key) == text
  {
    forall i | 0 <= i < |text| ensures Xor(Xor(text, key), key)[i] == text[i] {
      XorCodeTwice(text[i], key[i % |key|]);
    }
  }

  // Bacon

  const A: CodeUnit := 'A' as int
  const B: CodeUnit := 'B' as int

  /** The group of `baconMap` for a capital letter. */
  function BaconCode(c: CodeUnit): (r: JsString)
    requires IsUpper(c)
  {
    if c == 'A' as int then [A, A, A, A, A]
    else if c == 'B' as int then [A, A, A, A, B]
    else if c == 'C' as int then [A, A, A, B, A]
    else if c == 'D' as int then [A, A, A, B, B]
    else if c == 'E' as int then [A, A, B, A, A]
    else if c == 'F' as int then [A, A, B, A, B]
    else if c == 'G' as int then [A, A, B, B, A]
    else if c == 'H' as int then [A, A, B, B, B]
    else if c == 'I' as int then [A, B, A, A, A]
    else if c == 'J' as int then [A, B, A, A, B]
    else if c == 'K' as int then [A, B, A, B, A]
    else if c == 'L' as int then [A, B, A, B, B]
    else if c == 'M' as int then [A, B, B, A, A]
    else if c == 'N' as int then [A, B, B, A, B]
    else if c == 'O' as int then [A, B, B, B, A]
    else if c == 'P' as int then [A, B, B, B, B]
    else if c == 'Q' as int then [B, A, A, A, A]
    else if c == 'R' as int then [B, A, A, A, B]
    else if c == 'S' as int then [B, A, A, B, A]
    else if c == 'T' as int then [B, A, A, B, B]
    else if c == 'U' as int then [B, A, B, A, A]
    else if c == 'V' as int then [B, A, B, A, B]
    else if c == 'W' as int then [B, A, B, B, A]
    else if c == 'X' as int then [B, A, B, B, B]
    else if c == 'Y' as int then [B, B, A, A, A]
    else [B, B, A, A, B]
  }

  /** `baconMap[char] || char`. */
  function BaconOf(c: CodeUnit): (r: JsString)
    ensures !IsUpper(c) ==> r == [c]
  {
    if IsUpper(c) then BaconCode(c) else [c]
  }

  /** `baconCipher(text)`: upper-case the text, and join the groups of its code units with
      single spaces. */
  function Bacon(text: JsString): (r: JsString)
  {
    var upper := ToUpper(text);
    Join<CodeUnit>(seq(|upper|, k requires 0 <= k < |upper| => BaconOf(upper[k])), [' ' as int])
  }

  /** A group of five letters `A` and `B`. */
  predicate IsAbGroup(g: JsString)
  {
    |g| == 5 && forall k | 0 <= k < 5 :: g[k] == A || g[k] == B
  }

  function AbBit(c: CodeUnit): nat { if c == B then 1 else 0 }

  /** The number a five-letter group spells with `A` as 0 and `B` as 1, most significant
      first. */
  function AbValue(g: JsString): nat
    requires |g| == 5
  {
    16 * AbBit(g[0]) + 8 * AbBit(g[1]) + 4 * AbBit(g[2]) + 2 * AbBit(g[3]) + AbBit(g[4])
  }

  /** The table gives the letter `c` the five-bit binary numeral of its distance from `A`. */
  lemma BaconBinary(c: CodeUnit)
    requires IsUpper(c)
    ensures IsAbGroup(BaconCode(c)) && AbValue(BaconCode(c)) == c - A
  {
    if c <= 'I' as int {
      BaconBinaryAI(c);
    } else if c <= 'R' as int {
      BaconBinaryJR(c);
    } else {
      BaconBinarySZ(c);
    }
  }

  lemma BaconBinaryAI(c: CodeUnit)
    requires 'A' as int <= c <= 'I' as int
    ensures IsAbGroup(BaconCode(c)) && AbValue(BaconCode(c)) == c - A
  {
  }

  lemma BaconBinaryJR(c: CodeUnit)
    requires 'J' as int <= c <= 'R' as int
    ensures IsAbGroup(BaconCode(c)) && AbValue(BaconCode(c)) == c - A
  {
  }

  lemma BaconBinarySZ(c: CodeUnit)
    requires 'S' as int <= c <= 'Z' as int
    ensures IsAbGroup(BaconCode(c)) && AbValue(BaconCode(c)) == c - A
  {
  }

  /** The letter a group stands for, `?` for a group that is not five letters long. This
      and `BaconLetters` are a reference reader for the encoder, not part of the tools page. */
  function GroupLetter(g: JsString): CodeUnit
  {
    if |g| == 5 then (A + AbValue(g)) % 0x1_0000 else '?' as int
  }

  /** Reads an encoded text back, one letter per space-separated group. */
  function BaconLetters(s: JsString): (r: JsString)
  {
    var groups := SplitOn<CodeUnit>(s, ' ' as int);
    seq(|groups|, k requires 0 <= k < |groups| => GroupLetter(groups[k]))
  }

  /** Every letter of upper-case ASCII text becomes a group of five `A`/`B` letters, and
      reading the groups back gives the text. */
  lemma BaconRoundTrip(x: JsString)
    requires |x| > 0 && forall k | 0 <= k < |x| :: IsUpper(x[k])
    ensures forall k | 0 <= k < |x| :: IsAbGroup(BaconOf(x[k]))
    ensures BaconLetters(Bacon(x)) == x
  {
    ToUpperAscii(x);
    assert ToUpper(x) == x;
    var gs := seq(|x|, k requires 0 <= k < |x| => BaconOf(x[k]));
    forall k | 0 <= k < |x| ensures IsAbGroup(gs[k]) && GroupLetter(gs[k]) == x[k] {
      BaconBinary(x[k]);
    }
    assert forall k | 0 <= k < |gs| :: ' ' as int !in gs[k];
    SplitOnJoin<CodeUnit>(gs, ' ' as int);
    assert Bacon(x) == Join<CodeUnit>(gs, [' ' as int]);
  }

  // HTML entities

  /** The characters `html-encode` replaces. */
  predicate IsMarkup(c: int)
  {
    c == '&' as int || c == '<' as int || c == '>' as int || c == '"' as int || c == '\'' as int
  }

  /** The replacement of one code unit in `html-encode`. */
  function EntityOf(c: CodeUnit): (r: JsString)
    ensures |r| > 0 && r[0] == (if IsMarkup(c) then '&' as int else c)
    ensures forall k | 0 <= k < |r| :: !IsMarkup(r[k]) || (k == 0 && IsMarkup(c))
  {
    if c == '&' as int then EntityAmp
    else if c == '<' as int then EntityLt
    else if c == '>' as int then EntityGt
    else if c == '"' as int then EntityQuot
    else if c == '\'' as int then EntityApos
    else [c]
  }

  /** The `html-encode` case of `executeTool`: the only `&` left in the result are those that
      open an entity, and `<`, `>`, `"` and `'` are gone. */
  function HtmlEncode(input: JsString): (r: JsString)
    ensures forall k | 0 <= k < |r| :: r[k] != '<' as int && r[k] != '>' as int && r[k] != '"' as int && r[k] != '\'' as int
    decreases |input|
  {
    if |input| == 0 then [] else EntityOf(input[0]) + HtmlEncode(input[1..])
  }

  /** The one entity `/&(?:amp|lt|gt|quot|#39);/` matches at the start of `s`, as the character
      it stands for and its length. */
  function EntityPrefix(s: JsString): (m: Option<(CodeUnit, nat)>)
    ensures m.Some? ==> 0 < m.value.1 <= |s|
    ensures |s| > 0 && s[0] != '&' as int ==> m.None?
  {
    if StartsWith(s, EntityAmp) then Some(('&' as int, |EntityAmp|))
    else if StartsWith(s, EntityLt) then Some(('<' as int, |EntityLt|))
    else if StartsWith(s, EntityGt) then Some(('>' as int, |EntityGt|))
    else if StartsWith(s, EntityQuot) then Some(('"' as int, |EntityQuot|))
    else if StartsWith(s, EntityApos) then Some(('\'' as int, |EntityApos|))
    else None
  }

  /** The `html-decode` case of `executeTool`: one pass from left to right, each match
      replaced by its character and the scan going on after it. */
  function HtmlDecode(input: JsString): (r: JsString)
    ensures |r| <= |input|
    ensures '&' as int !in input ==> r == input
    decreases |input|
  {
    if |input| == 0 then []
    else match EntityPrefix(input)
      case Some((c, n)) => [c] + HtmlDecode(input[n..])
      case None => [input[0]] + HtmlDecode(input[1..])
  }

  /** The encoding of a character, followed by anything, starts with the entity for that
      character and only that one. */
  lemma EntityPrefixOf(c: CodeUnit, rest: JsString)
    ensures EntityPrefix(EntityOf(c) + rest) == if IsMarkup(c) then Some((c, |EntityOf(c)| as nat)) else None
  {
    var s := EntityOf(c) + rest;
    var e := EntityOf(c);
    assert s[..|e|] == e;
    if IsMarkup(c) {
      assert s[1] == e[1];
    }
  }

  /** Decoding the encoding gives the input back. */
  lemma {:induction false} HtmlRoundTrip(x: JsString)
    ensures HtmlDecode(HtmlEncode(x)) == x
    decreases |x|
  {
    if |x| > 0 {
      var e, rest := EntityOf(x[0]), HtmlEncode(x[1..]);
      assert HtmlEncode(x) == e + rest;
      EntityPrefixOf(x[0], rest);
      if IsMarkup(x[0]) {
        assert (e + rest)[|e|..] == rest;
      } else {
        assert (e + rest)[1..] == rest;
      }
      HtmlRoundTrip(x[1..]);
      assert x == [x[0]] + x[1..];
    }
  }
}
