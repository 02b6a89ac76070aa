/** What the frontend relies on from JavaScript's strings and numbers: strings are sequences of
    UTF-16 code units; the `\s` class and the white space `trim` and `parseInt` skip;
    `split(/\s+/)`; `parseInt`; `String.fromCharCode`; `Number.prototype.toString(radix)`;
    `padStart`; `Array.from` over a string; and upper/lower case mapping. */
module Js {
  import opened Text
  import opened Wrappers

  type CodeUnit = x: int | 0 <= x < 0x1_0000
  type JsString = seq<CodeUnit>

  /** A Dafny string literal as a JavaScript string (the literals of the model are all
      in the Basic Multilingual Plane, where a character is one code unit). */
  function Str(s: string): (r: JsString)
    ensures |r| == |s|
    ensures forall i | 0 <= i < |s| :: r[i] == (s[i] as int) % 0x1_0000
  {
    seq(|s|, i requires 0 <= i < |s| => (s[i] as int) % 0x1_0000)
  }

  lemma Space()
    ensures Str(" ") == [32]
  {
  }

  predicate IsDigit(c: int) { '0' as int <= c <= '9' as int }
  predicate IsUpper(c: int) { 'A' as int <= c <= 'Z' as int }
  predicate IsLower(c: int) { 'a' as int <= c <= 'z' as int }
  predicate IsLetter(c: int) { IsUpper(c) || IsLower(c) }
  predicate IsAlnum(c: int) { IsLetter(c) || IsDigit(c) }
  predicate IsHexDigit(c: int) { IsDigit(c) || 'a' as int <= c <= 'f' as int || 'A' as int <= c <= 'F' as int }
  /** `\w` of a regular expression without the `u` flag. */
  predicate IsWordChar(c: int) { IsAlnum(c) || c == '_' as int }

  /** `\r`, `\n`, U+2028 and U+2029: the characters `.` does not match. */
  predicate IsLineTerminator(c: int) { c == 10 || c == 13 || c == 0x2028 || c == 0x2029 }

  /** `\s`, which is also the set of characters `trim` removes and `parseInt` skips:
      the ECMAScript WhiteSpace and LineTerminator characters. */
  predicate IsSpace(c: int)
  {
    (9 <= c <= 13) || c == 32 || c == 0xA0 || c == 0x1680 || (0x2000 <= c <= 0x200A)
    || c == 0x2028 || c == 0x2029 || c == 0x202F || c == 0x205F || c == 0x3000 || c == 0xFEFF
  }

  predicate NotSpace(c: CodeUnit) { !IsSpace(c) }
  predicate NoSpace(s: JsString) { forall i | 0 <= i < |s| :: !IsSpace(s[i]) }

  /** The end of the run of white space starting at `i`. */
  function SpaceRunEnd(s: JsString, i: nat): (j: nat)
    requires i <= |s|
    ensures i <= j <= |s|
    ensures forall k | i <= k < j :: IsSpace(s[k])
    ensures j < |s| ==> !IsSpace(s[j])
    decreases |s| - i
  {
    if i < |s| && IsSpace(s[i]) then SpaceRunEnd(s, i + 1) else i
  }

  /** The start of the run of white space ending at `j`, not going below `lo`. */
  function SpaceRunStart(s: JsString, lo: nat, j: nat): (i: nat)
    requires lo <= j <= |s|
    ensures lo <= i <= j
    ensures forall k | i <= k < j :: IsSpace(s[k])
    ensures i > lo ==> !IsSpace(s[i - 1])
    decreases j
  {
    if j > lo && IsSpace(s[j - 1]) then SpaceRunStart(s, lo, j - 1) else j
  }

  /** `trimStart`. */
  function TrimStart(s: JsString): (r: JsString)
    ensures |r| <= |s| && r == s[|s| - |r|..]
    ensures forall k | 0 <= k < |s| - |r| :: IsSpace(s[k])
    ensures |r| > 0 ==> !IsSpace(r[0])
  {
    s[SpaceRunEnd(s, 0)..]
  }

  /** `r` is `s[i..j]` and only white space of `s` lies outside that slice. */
  predicate TrimSlice(s: JsString, r: JsString, i: nat, j: nat)
  {
    i <= j <= |s| && r == s[i..j]
    && (forall k | 0 <= k < i :: IsSpace(s[k])) && (forall k | j <= k < |s| :: IsSpace(s[k]))
  }

  /** `trim`: the slice of `s` between its leading and its trailing white space. */
  function Trim(s: JsString): (r: JsString)
    ensures exists i: nat, j: nat :: TrimSlice(s, r, i, j)
    ensures |r| > 0 ==> !IsSpace(r[0]) && !IsSpace(r[|r| - 1])
  {
    var i := SpaceRunEnd(s, 0);
    var j := SpaceRunStart(s, i, |s|);
    assert TrimSlice(s, s[i..j], i, j);
    s[i..j]
  }

  /** The index of the first white-space character of `s`, or `|s|`. */
  function FirstSpace(s: JsString): (i: nat)
    ensures i <= |s|
    ensures NoSpace(s[..i])
    ensures i < |s| ==> IsSpace(s[i])
  {
    if |s| == 0 || IsSpace(s[0]) then 0 else
      var i := FirstSpace(s[1..]);
      assert s[..i + 1] == [s[0]] + s[1..][..i];
      i + 1
  }

  /** `split(/\s+/)`: the pieces between maximal runs of white space; a leading or trailing
      run gives an empty first or last piece, and the empty string gives one empty piece. */
  function SplitWs(s: JsString): (r: seq<JsString>)
    ensures |r| >= 1
    ensures forall k | 0 <= k < |r| :: NoSpace(r[k])
    decreases |s|
  {
    var i := FirstSpace(s);
    if i == |s| then [s]
    else [s[..i]] + SplitWs(s[SpaceRunEnd(s, i)..])
  }

  /** Joining non-empty space-free tokens with one space and splitting at white space gives the
      tokens back. */
  lemma {:induction false} SplitWsJoin(parts: seq<JsString>)
    requires |parts| >= 1
    requires forall k | 0 <= k < |parts| :: |parts[k]| > 0 && NoSpace(parts[k])
    ensures SplitWs(Join(parts, [32])) == parts
    decreases |parts|
  {
    var s := Join(parts, [32]);
    if |parts| == 1 {
      FirstSpaceOfNoSpace(s);
    } else {
      var rest := Join(parts[1..], [32]);
      assert s == parts[0] + [32] + rest;
      assert s[..|parts[0]|] == parts[0];
      FirstSpaceAt(s, |parts[0]|);
      JoinFirstNotSpace(parts[1..]);
      assert SpaceRunEnd(s, |parts[0]| + 1) == |parts[0]| + 1;
      assert s[|parts[0]| + 1..] == rest;
      SplitWsJoin(parts[1..]);
    }
  }

  lemma FirstSpaceOfNoSpace(s: JsString)
    requires NoSpace(s)
    ensures FirstSpace(s) == |s|
  {
  }

  lemma {:induction false} FirstSpaceAt(s: JsString, j: nat)
    requires j < |s| && NoSpace(s[..j]) && IsSpace(s[j])
    ensures FirstSpace(s) == j
    decreases j
  {
    if j > 0 {
      assert s[0] == s[..j][0];
      assert s[1..][..j - 1] == s[..j][1..];
      FirstSpaceAt(s[1..], j - 1);
    }
  }

  lemma JoinFirstNotSpace(parts: seq<JsString>)
    requires |parts| >= 1 && |parts[0]| > 0 && NoSpace(parts[0])
    ensures |Join(parts, [32])| > 0 && !IsSpace(Join(parts, [32])[0])
  {
    if |parts| > 1 {
      assert Join(parts, [32]) == parts[0] + [32] + Join(parts[1..], [32]);
    }
  }

  /** The white-space-separated words (`trim().split(/\s+/).filter(w => w.length > 0)`). */
  function Words(s: JsString): (r: seq<JsString>)
    ensures forall k | 0 <= k < |r| :: |r[k]| > 0 && NoSpace(r[k])
  {
    NonEmpty(SplitWs(Trim(s)))
  }

  function NonEmpty(pieces: seq<JsString>): (r: seq<JsString>)
    ensures forall k | 0 <= k < |r| :: |r[k]| > 0
    ensures forall k | 0 <= k < |r| :: r[k] in pieces
  {
    if |pieces| == 0 then []
    else if |pieces[0]| == 0 then NonEmpty(pieces[1..])
    else [pieces[0]] + NonEmpty(pieces[1..])
  }

  /** The value of a digit character in radixes up to 36, if it is one. */
  function DigitOf(c: CodeUnit): (d: Option<nat>)
    ensures d.Some? ==> d.value < 36
  {
    if IsDigit(c) then Some(c - '0' as int)
    else if IsLower(c) then Some(c - 'a' as int + 10)
    else if IsUpper(c) then Some(c - 'A' as int + 10)
    else None
  }

  /** The longest prefix of `s` made of digits of `radix`, as their values. */
  function DigitPrefix(s: JsString, radix: nat): (ds: seq<nat>)
    ensures |ds| <= |s|
    ensures forall k | 0 <= k < |ds| :: DigitOf(s[k]).Some? && DigitOf(s[k]).value < radix && ds[k] == DigitOf(s[k]).value
    ensures |ds| < |s| ==> DigitOf(s[|ds|]).None? || DigitOf(s[|ds|]).value >= radix
  {
    if |s| > 0 && DigitOf(s[0]).Some? && DigitOf(s[0]).value < radix then [DigitOf(s[0]).value] + DigitPrefix(s[1..], radix)
    else []
  }

  /** A radix-16 or unspecified-radix `parseInt` skips a `0x` or `0X` prefix. */
  predicate HasHexPrefix(u: JsString)
  {
    |u| >= 2 && u[0] == '0' as int && (u[1] == 'x' as int || u[1] == 'X' as int)
  }

  /** `parseInt(s, radix)`, with radix 0 standing for an omitted radix; `None` is `NaN`.
      Leading white space is skipped, then one sign; an omitted radix means 10 and radix 16 or
      an omitted radix let a `0x` prefix select 16; the value is that of the longest prefix of
      digits, and `NaN` if there is none. */
  function ParseInt(s: JsString, radix: nat): (r: Option<int>)
    requires radix == 0 || 2 <= radix <= 36
  {
    var t := TrimStart(s);
    var negative := |t| > 0 && t[0] == '-' as int;
    var u := if |t| > 0 && (t[0] == '-' as int || t[0] == '+' as int) then t[1..] else t;
    var stripPrefix := radix == 0 || radix == 16;
    var v := if stripPrefix && HasHexPrefix(u) then u[2..] else u;
    var base := if stripPrefix && HasHexPrefix(u) then 16 else if radix == 0 then 10 else radix;
    var ds := DigitPrefix(v, base);
    var value: int := DigitsValue(ds, base);
    if |ds| == 0 then None else Some(if negative then -value else value)
  }

  /** A string made only of digits (of radix 10 when the radix is omitted) parses to the value
      of its digits: there is no white space or sign to skip, and no `0x` prefix, because
      `x` is not a digit below 16. */
  lemma ParseIntDigits(s: JsString, radix: nat, ds: seq<nat>)
    requires radix == 0 || 2 <= radix <= 36
    requires |s| == |ds| > 0
    requires forall k | 0 <= k < |s| :: DigitOf(s[k]) == Some(ds[k]) && ds[k] < (if radix == 0 then 10 else radix)
    ensures ParseInt(s, radix) == Some(DigitsValue(ds, if radix == 0 then 10 else radix))
  {
    var base := if radix == 0 then 10 else radix;
    assert DigitOf(s[0]).Some?;
    assert !IsSpace(s[0]) && s[0] != '-' as int && s[0] != '+' as int;
    assert SpaceRunEnd(s, 0) == 0;
    assert TrimStart(s) == s;
    if |s| >= 2 && (radix == 0 || radix == 16) {
      assert DigitOf(s[1]).value < 16;
      assert !HasHexPrefix(s);
    }
    DigitPrefixAll(s, base, ds);
  }

  /** `parseInt` reads back what `toString(radix)` printed, also after zero padding. */
  lemma ParsePadded(n: nat, radix: nat, width: nat)
    requires 2 <= radix <= 16
    ensures ParseInt(PadStart(ToStringRadix(n, radix), width, '0' as int), radix) == Some(n)
  {
    var t := ToStringRadix(n, radix);
    var g := PadStart(t, width, '0' as int);
    var m := |g| - |t|;
    var ds := Repeat<nat>(0, m) + Digits(n, radix);
    PaddedDigits(t, Digits(n, radix), width, radix);
    ParseIntDigits(g, radix, ds);
    LeadingZeros(m, Digits(n, radix), radix);
  }

  /** The characters of a zero-padded numeral `t` with digits `e` are the digits `e` after
      `0` digits. */
  lemma PaddedDigits(t: JsString, e: seq<nat>, width: nat, radix: nat)
    requires 2 <= radix <= 36 && |t| == |e| > 0
    requires forall j | 0 <= j < |e| :: e[j] < radix && t[j] == DigitChar(e[j])
    ensures var g := PadStart(t, width, '0' as int);
      var ds := Repeat<nat>(0, |g| - |t|) + e;
      |g| == |ds| > 0
      && forall k | 0 <= k < |g| :: DigitOf(g[k]) == Some(ds[k]) && ds[k] < radix && g[k] < 128 && !IsUpper(g[k])
  {
    var g := PadStart(t, width, '0' as int);
    var m := |g| - |t|;
    var zs := Repeat<nat>(0, m);
    var zc := Repeat('0' as int, m);
    var ds := zs + e;
    assert g == zc + t;
    forall k | 0 <= k < |g| ensures DigitOf(g[k]) == Some(ds[k]) && ds[k] < radix && g[k] < 128 && !IsUpper(g[k]) {
      if k < m {
        assert g[k] == zc[k] == '0' as int;
        assert ds[k] == zs[k] == 0;
      } else {
        assert g[k] == t[k - m] == DigitChar(e[k - m]);
        assert ds[k] == e[k - m];
      }
    }
  }

  /** `parseInt` with an omitted radix reads back a decimal numeral. */
  lemma ParseDecimal(n: nat)
    ensures ParseInt(Decimal(n), 0) == Some(n)
  {
    var t := Decimal(n);
    ParseIntDigits(t, 0, Digits(n, 10));
  }

  lemma {:induction false} DigitPrefixAll(s: JsString, radix: nat, ds: seq<nat>)
    requires |s| == |ds|
    requires forall k | 0 <= k < |s| :: DigitOf(s[k]) == Some(ds[k]) && ds[k] < radix
    ensures DigitPrefix(s, radix) == ds
    decreases |s|
  {
    if |s| > 0 {
      DigitPrefixAll(s[1..], radix, ds[1..]);
    }
  }

  /** `String.fromCharCode(n)`: the number is reduced modulo 2^16, and `NaN` gives U+0000. */
  function FromCharCode(n: Option<int>): (c: CodeUnit)
    ensures n.None? ==> c == 0
    ensures n.Some? && 0 <= n.value < 0x1_0000 ==> c == n.value
    ensures n.Some? ==> (c - n.value) % 0x1_0000 == 0
  {
    match n
    case None => 0
    case Some(v) => v % 0x1_0000
  }

  /** The character of a digit as `Number.prototype.toString` prints it (lower case). */
  function DigitChar(d: nat): (c: CodeUnit)
    requires d < 36
    ensures DigitOf(c) == Some(d)
    ensures d < 16 ==> IsHexDigit(c) && !IsUpper(c)
    ensures d < 10 <==> IsDigit(c)
  {
    if d < 10 then '0' as int + d else 'a' as int + d - 10
  }

  /** `n.toString(radix)` for a non-negative integer `n`. */
  function ToStringRadix(n: nat, radix: nat): (r: JsString)
    requires 2 <= radix <= 36
    ensures |r| == |Digits(n, radix)|
    ensures forall k | 0 <= k < |r| :: r[k] == DigitChar(Digits(n, radix)[k])
  {
    var ds := Digits(n, radix);
    seq(|ds|, k requires 0 <= k < |ds| => DigitChar(ds[k]))
  }

  /** `s.padStart(width, fill)` with a one-character fill. */
  function PadStart(s: JsString, width: nat, fill: CodeUnit): (r: JsString)
    ensures |r| == if |s| >= width then |s| else width
    ensures r == Repeat(fill, |r| - |s|) + s
  {
    if |s| >= width then (assert s == [] + s; s) else Repeat(fill, width - |s|) + s
  }

  predicate IsHighSurrogate(c: int) { 0xD800 <= c <= 0xDBFF }
  predicate IsLowSurrogate(c: int) { 0xDC00 <= c <= 0xDFFF }

  /** No high surrogate is immediately followed by a low one: the string holds only
      characters of the Basic Multilingual Plane (and unpaired surrogates). */
  predicate NoSurrogatePair(s: JsString)
  {
    forall k | 0 <= k < |s| - 1 :: !(IsHighSurrogate(s[k]) && IsLowSurrogate(s[k + 1]))
  }

  /** `Array.from(s).map(ch => ch.charCodeAt(0))`: `Array.from` iterates by code point, and
      `charCodeAt(0)` of a surrogate pair is its high surrogate. */
  function CodePointHeads(s: JsString): (r: seq<CodeUnit>)
    ensures |r| <= |s|
    ensures NoSurrogatePair(s) ==> r == s
  {
    if |s| == 0 then []
    else if |s| >= 2 && IsHighSurrogate(s[0]) && IsLowSurrogate(s[1]) then [s[0]] + CodePointHeads(s[2..])
    else
      assert NoSurrogatePair(s) ==> NoSurrogatePair(s[1..]) by {
        if NoSurrogatePair(s) {
          forall k | 0 <= k < |s[1..]| - 1 ensures !(IsHighSurrogate(s[1..][k]) && IsLowSurrogate(s[1..][k + 1])) {
            assert s[1..][k] == s[k + 1] && s[1..][k + 1] == s[k + 2];
          }
        }
      }
      [s[0]] + CodePointHeads(s[1..])
  }

  /** Code units below 256 contain no surrogates, so no surrogate pair. */
  lemma Latin1NoSurrogatePair(s: JsString)
    requires forall k | 0 <= k < |s| :: s[k] < 256
    ensures NoSurrogatePair(s)
  {
  }

  /** `toUpperCase` of one code unit. Exact for ASCII and for every character whose upper case
      consists of ASCII letters (dotless i, long s, sharp s and the Latin ligatures U+FB00 to
      U+FB06, whose upper cases are written as their codes: 70 `F`, 73 `I`, 76 `L`, 83 `S`,
      84 `T`); other characters are kept as they are. */
  function UpperOf(c: CodeUnit): (r: JsString)
    ensures |r| >= 1
    ensures c < 128 ==> |r| == 1 && (IsLower(c) ==> r[0] == c - 32) && (!IsLower(c) ==> r[0] == c)
  {
    if IsLower(c) then [c - 32]
    else if c == 0x131 then [73]
    else if c == 0x17F then [83]
    else if c == 0xDF then [83, 83]
    else if c == 0xFB00 then [70, 70]
    else if c == 0xFB01 then [70, 73]
    else if c == 0xFB02 then [70, 76]
    else if c == 0xFB03 then [70, 70, 73]
    else if c == 0xFB04 then [70, 70, 76]
    else if c == 0xFB05 || c == 0xFB06 then [83, 84]
    else [c]
  }

  /** `toLowerCase` of one code unit. Exact for ASCII and for the two characters whose lower
      case contains an ASCII letter (capital I with dot above and the Kelvin sign); other
      characters are kept as they are. */
  function LowerOf(c: CodeUnit): (r: JsString)
    ensures |r| >= 1
    ensures c < 128 ==> |r| == 1 && (IsUpper(c) ==> r[0] == c + 32) && (!IsUpper(c) ==> r[0] == c)
  {
    if IsUpper(c) then [c + 32]
    else if c == 0x130 then [0x69, 0x307]
    else if c == 0x212A then [0x6B]
    else [c]
  }

  function ToUpper(s: JsString): (r: JsString)
    ensures (forall k | 0 <= k < |s| :: s[k] < 128) ==> |r| == |s|
    ensures |r| >= |s|
  {
    if |s| == 0 then [] else UpperOf(s[0]) + ToUpper(s[1..])
  }

  function ToLower(s: JsString): (r: JsString)
    ensures (forall k | 0 <= k < |s| :: s[k] < 128) ==> |r| == |s|
    ensures |r| >= |s|
  {
    if |s| == 0 then [] else LowerOf(s[0]) + ToLower(s[1..])
  }

  lemma {:induction false} ToUpperAppend(s: JsString, t: JsString)
    ensures ToUpper(s + t) == ToUpper(s) + ToUpper(t)
    decreases |s|
  {
    if |s| == 0 {
      assert s + t == t;
    } else {
      assert (s + t)[1..] == s[1..] + t;
      ToUpperAppend(s[1..], t);
    }
  }

  /** On ASCII text `toUpperCase` maps every character to its upper case and keeps the length. */
  lemma {:induction false} ToUpperAscii(s: JsString)
    requires forall k | 0 <= k < |s| :: s[k] < 128
    ensures |ToUpper(s)| == |s|
    ensures forall k | 0 <= k < |s| :: ToUpper(s)[k] == Fold(s[k])
    decreases |s|
  {
    if |s| > 0 {
      ToUpperAscii(s[1..]);
      assert ToUpper(s) == [Fold(s[0])] + ToUpper(s[1..]);
    }
  }

  /** Text without white space is its own `trim`. */
  lemma TrimNoSpace(s: JsString)
    requires NoSpace(s)
    ensures Trim(s) == s
  {
    assert SpaceRunEnd(s, 0) == 0;
    assert SpaceRunStart(s, 0, |s|) == |s|;
  }

  /** The ASCII letter `c` stands for when a regular expression with the `i` flag and without
      the `u` flag compares it with an ASCII pattern character. */
  function Fold(c: int): int
  {
    if IsLower(c) then c - 32 else c
  }

  /** The truncating remainder of JavaScript's `%` for a positive divisor. */
  function JsRem(a: int, b: int): (r: int)
    requires b > 0
    ensures a >= 0 ==> 0 <= r < b
    ensures a < 0 ==> -b < r <= 0 && r == -((-a) % b)
    ensures a >= 0 ==> r == a % b
  {
    if a >= 0 then a % b else -((-a) % b)
  }

  /** The decimal numeral of a natural number, as a template literal prints it. */
  function Decimal(n: nat): (r: JsString)
    ensures |r| >= 1 && forall k | 0 <= k < |r| :: IsDigit(r[k])
  {
    ToStringRadix(n, 10)
  }

  /** The length of the run of at most `n` characters other than line terminators at `i`. */
  function DotRun(s: JsString, i: nat, n: nat): (m: nat)
    requires i <= |s|
    ensures m <= n && i + m <= |s|
    ensures forall k | i <= k < i + m :: !IsLineTerminator(s[k])
    ensures m < n && i + m < |s| ==> IsLineTerminator(s[i + m])
    decreases n
  {
    if n == 0 || i == |s| || IsLineTerminator(s[i]) then 0 else 1 + DotRun(s, i + 1, n - 1)
  }

  /** The matches of the global regular expression `/.{1,n}/g` in `s`, from index `i` on:
      each match takes as many as `n` characters up to the next line terminator, and line
      terminators themselves are skipped. */
  function DotChunksFrom(s: JsString, i: nat, n: nat): (r: seq<JsString>)
    requires i <= |s| && n >= 1
    ensures forall k | 0 <= k < |r| :: 1 <= |r[k]| <= n
    decreases |s| - i
  {
    if i == |s| then []
    else if IsLineTerminator(s[i]) then DotChunksFrom(s, i + 1, n)
    else
      var m := DotRun(s, i, n);
      [s[i..i + m]] + DotChunksFrom(s, i + m, n)
  }

  /** `s.match(/.{1,n}/g)`, where an empty list stands for `null`. */
  function DotChunks(s: JsString, n: nat): (r: seq<JsString>)
    requires n >= 1
    ensures forall k | 0 <= k < |r| :: 1 <= |r[k]| <= n
  {
    DotChunksFrom(s, 0, n)
  }

  /** Without line terminators, the matches of `/.{1,n}/g` cut `s` into pieces of `n`
      characters, the last one possibly shorter, whose concatenation is `s`. */
  lemma DotChunksOfPieces(pieces: seq<JsString>, n: nat)
    requires n >= 1
    requires forall k | 0 <= k < |pieces| :: |pieces[k]| == n
    requires forall k, j | 0 <= k < |pieces| && 0 <= j < n :: !IsLineTerminator(pieces[k][j])
    ensures DotChunks(Join(pieces, []), n) == pieces
  {
    var s := Join(pieces, []);
    assert s[0..] == s;
    DotChunksOfPiecesFrom(pieces, n, s, 0);
  }

  lemma {:induction false} DotChunksOfPiecesFrom(pieces: seq<JsString>, n: nat, s: JsString, i: nat)
    requires n >= 1 && i <= |s| && s[i..] == Join(pieces, [])
    requires forall k | 0 <= k < |pieces| :: |pieces[k]| == n
    requires forall k, j | 0 <= k < |pieces| && 0 <= j < n :: !IsLineTerminator(pieces[k][j])
    ensures DotChunksFrom(s, i, n) == pieces
    decreases |pieces|
  {
    if |pieces| > 0 {
      var p0 := pieces[0];
      var rest := Join(pieces[1..], []);
      assert Join(pieces, []) == p0 + rest by {
        if |pieces| == 1 { assert rest == []; }
      }
      assert s[i..i + n] == p0 && s[i + n..] == rest by {
        assert s[i..][..n] == p0 && s[i..][n..] == rest;
      }
      DotChunksStep(s, i, n, p0);
      DotChunksOfPiecesFrom(pieces[1..], n, s, i + n);
      assert pieces == [p0] + pieces[1..];
    }
  }

  /** A match of `n` characters without line terminators at `i` is the next chunk. */
  lemma DotChunksStep(s: JsString, i: nat, n: nat, p0: JsString)
    requires n >= 1 && i + n <= |s| && s[i..i + n] == p0
    requires forall j | 0 <= j < n :: !IsLineTerminator(p0[j])
    ensures DotChunksFrom(s, i, n) == [p0] + DotChunksFrom(s, i + n, n)
  {
    assert forall k | i <= k < i + n :: s[k] == p0[k - i];
    DotRunFull(s, i, n);
    assert !IsLineTerminator(s[i]);
  }

  lemma {:induction false} DotRunFull(s: JsString, i: nat, n: nat)
    requires i + n <= |s|
    requires forall k | i <= k < i + n :: !IsLineTerminator(s[k])
    ensures DotRun(s, i, n) == n
    decreases n
  {
    if n > 0 {
      DotRunFull(s, i + 1, n - 1);
    }
  }

  predicate NoLineTerminator(s: JsString) { forall k | 0 <= k < |s| :: !IsLineTerminator(s[k]) }

  /** Without line terminators the matches of `/.{1,n}/g` are consecutive pieces of `n`
      characters, the last one possibly shorter, that together make up the string; there are
      none exactly when the string is empty. */
  lemma DotChunksShape(s: JsString, n: nat)
    requires n >= 1 && NoLineTerminator(s)
    ensures Join(DotChunks(s, n), []) == s
    ensures forall k | 0 <= k < |DotChunks(s, n)| - 1 :: |DotChunks(s, n)[k]| == n
    ensures |DotChunks(s, n)| == 0 <==> |s| == 0
  {
    DotChunksShapeFrom(s, 0, n);
  }

  lemma DotChunksShapeFrom(s: JsString, i: nat, n: nat)
    requires n >= 1 && i <= |s| && NoLineTerminator(s)
    ensures Join(DotChunksFrom(s, i, n), []) == s[i..]
    ensures forall k | 0 <= k < |DotChunksFrom(s, i, n)| - 1 :: |DotChunksFrom(s, i, n)[k]| == n
    ensures |DotChunksFrom(s, i, n)| == 0 <==> i == |s|
  {
    DotChunksJoinFrom(s, i, n);
    DotChunksLengthsFrom(s, i, n);
  }

  lemma {:induction false} DotChunksJoinFrom(s: JsString, i: nat, n: nat)
    requires n >= 1 && i <= |s| && NoLineTerminator(s)
    ensures Join(DotChunksFrom(s, i, n), []) == s[i..]
    decreases |s| - i
  {
    if i < |s| {
      var m := DotRun(s, i, n);
      var rest := DotChunksFrom(s, i + m, n);
      DotChunksJoinFrom(s, i + m, n);
      var r := [s[i..i + m]] + rest;
      assert DotChunksFrom(s, i, n) == r;
      assert s[i..] == s[i..i + m] + s[i + m..];
      JoinCons(s[i..i + m], rest);
    }
  }

  lemma {:induction false} DotChunksLengthsFrom(s: JsString, i: nat, n: nat)
    requires n >= 1 && i <= |s| && NoLineTerminator(s)
    ensures forall k | 0 <= k < |DotChunksFrom(s, i, n)| - 1 :: |DotChunksFrom(s, i, n)[k]| == n
    ensures |DotChunksFrom(s, i, n)| == 0 <==> i == |s|
    decreases |s| - i
  {
    if i < |s| {
      var m := DotRun(s, i, n);
      var rest := DotChunksFrom(s, i + m, n);
      DotChunksLengthsFrom(s, i + m, n);
      assert DotChunksFrom(s, i, n) == [s[i..i + m]] + rest;
      if |rest| > 0 {
        assert i + m < |s|;
        assert m == n;
      }
    }
  }
}
