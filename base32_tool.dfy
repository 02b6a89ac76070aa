/** The Base32 tool: the encoder and decoder of section 6 of RFC 4648 with their
    bit-accumulator loops, the multi-layer decoder that keeps decoding while the text still
    looks like Base32, and the tool's entry point. Text is turned into bytes and back by
    UTF-8, which is a parameter of the model (`utf8Encode`, `utf8Decode`). JavaScript's
    32-bit `<<` is modelled by keeping the accumulator modulo 2^32 (the bit pattern of the
    Int32 value); `>>` followed by a mask reads the same bits of that pattern. */
module Base32Tool {
  import opened Text
  import opened Wrappers
  import opened Js
  import opened Arith
  import opened Bits

  /** The alphabet's character for a 5-bit value: `A`-`Z` for 0-25, `2`-`7` for 26-31. */
  function AlphabetChar(v: nat): (c: CodeUnit)
    requires v < 32
    ensures IsUpper(c) || ('2' as int <= c <= '7' as int)
  {
    if v < 26 then 65 + v else 24 + v
  }

  /** The table is the RFC 4648 alphabet as the tool spells it. */
  lemma AlphabetIsRfc4648()
    ensures forall v | 0 <= v < 32 :: Str("ABCDEFGHIJKLMNOPQRSTUVWXYZ234567")[v] == AlphabetChar(v)
  {
    var a := "ABCDEFGHIJKLMNOPQRSTUVWXYZ234567";
    AlphabetHalves();
    forall v | 0 <= v < 32 ensures a[v] as int == AlphabetChar(v) {
      if v < 16 {
        assert a[v] == "ABCDEFGHIJKLMNOP"[v];
      } else {
        assert a[v] == "QRSTUVWXYZ234567"[v - 16];
      }
    }
  }

  lemma AlphabetHalves()
    ensures "ABCDEFGHIJKLMNOPQRSTUVWXYZ234567" == "ABCDEFGHIJKLMNOP" + "QRSTUVWXYZ234567"
    ensures forall v | 0 <= v < 16 :: "ABCDEFGHIJKLMNOP"[v] as int == 65 + v
    ensures forall v | 0 <= v < 16 :: "QRSTUVWXYZ234567"[v] as int == AlphabetChar(16 + v)
  {
  }

  /** The decoding table: the value of an alphabet character, nothing for any other. */
  function DecodeValue(c: int): (r: Option<nat>)
    ensures r.Some? ==> r.value < 32 && AlphabetChar(r.value) == c
    ensures r.None? ==> forall v | 0 <= v < 32 :: AlphabetChar(v) != c
  {
    if IsUpper(c) then Some(c - 65)
    else if '2' as int <= c <= '7' as int then Some(c - 24)
    else None
  }

  /** The 5-bit groups of a bit string, the last one filled up with zero bits. */
  function Groups(bits: seq<bit>): (r: seq<nat>)
    ensures |r| == (|bits| + 4) / 5
    ensures forall k | 0 <= k < |r| :: r[k] < 32
    decreases |bits|
  {
    if |bits| == 0 then []
    else if |bits| < 5 then [Value(bits + Repeat<bit>(0, 5 - |bits|))]
    else [Value(bits[..5])] + Groups(bits[5..])
  }

  lemma {:induction false} GroupsAppend(a: seq<bit>, t: seq<bit>)
    requires |a| % 5 == 0
    ensures Groups(a + t) == Groups(a) + Groups(t)
    decreases |a|
  {
    if |a| == 0 {
      assert a + t == t;
    } else {
      assert (a + t)[..5] == a[..5];
      assert (a + t)[5..] == a[5..] + t;
      GroupsAppend(a[5..], t);
    }
  }

  /** The alphabet characters of 5-bit values. */
  function Chars(gs: seq<nat>): (r: JsString)
    requires forall k | 0 <= k < |gs| :: gs[k] < 32
    ensures |r| == |gs|
    ensures forall k | 0 <= k < |r| :: DecodeValue(r[k]) == Some(gs[k])
  {
    seq(|gs|, k requires 0 <= k < |gs| => AlphabetChar(gs[k]))
  }

  lemma CharsSnoc(gs: seq<nat>, g: nat)
    requires forall k | 0 <= k < |gs| :: gs[k] < 32
    requires g < 32
    ensures Chars(gs + [g]) == Chars(gs) + [AlphabetChar(g)]
  {
  }

  /** The width of a group; see `ByteWidth`. */
  const GroupWidth: nat := 5

  const Pad: CodeUnit := '=' as int

  /** The `=` characters that bring a length of `n` up to a multiple of 8. */
  function Padding(n: nat): (r: JsString)
    ensures (n + |r|) % 8 == 0 && |r| < 8
    ensures forall k | 0 <= k < |r| :: r[k] == Pad
  {
    Repeat(Pad, (8 - n % 8) % 8)
  }

  /** What `base32Encode` returns for the bytes of its input. */
  function EncodeSpec(bytes: seq<byte>): JsString
  {
    var body := Chars(Groups(ByteBits(bytes)));
    body + Padding(|body|)
  }

  /** Moving the first `n` pending bits over to the done ones keeps their concatenation. */
  lemma Regroup(done: seq<bit>, pending: seq<bit>, n: nat)
    requires n <= |pending|
    ensures (done + pending[..n]) + pending[n..] == done + pending
  {
    assert pending[..n] + pending[n..] == pending;
  }

  /** Appending the same bits to both sides of an equation between concatenations. */
  lemma Extend(done: seq<bit>, pending: seq<bit>, more: seq<bit>, whole: seq<bit>)
    requires done + pending == whole
    ensures done + (pending + more) == whole + more
  {
  }

  /** `(buffer << 8) | byte`: the byte's eight bits join the pending ones. */
  lemma PushByte(buffer: nat, pending: seq<bit>, b: byte, pushed: nat)
    requires |pending| <= 24 && BitsOf(buffer, |pending|) == pending
    requires pushed == (buffer * 256 + b) % Word
    ensures BitsOf(pushed, |pending| + ByteWidth) == pending + BitsOf(b, ByteWidth)
  {
    ByteWidthPow();
    PushLow(buffer, pending, b, ByteWidth, 256, pushed);
  }

  lemma ByteBitsSnoc(bytes: seq<byte>, i: nat)
    requires i < |bytes|
    ensures ByteBits(bytes[..i + 1]) == ByteBits(bytes[..i]) + BitsOf(bytes[i], ByteWidth)
  {
    assert bytes[..i + 1][..i] == bytes[..i];
  }

  /** `(buffer >> (bitsLeft - 5)) & 31`: the top five pending bits become the next group. */
  lemma EmitGroup(buffer: nat, pending: seq<bit>)
    requires |pending| >= 5 && BitsOf(buffer, |pending|) == pending
    ensures (buffer / Pow2(|pending| - 5)) % 32 == Value(pending[..5])
    ensures BitsOf(buffer, |pending| - 5) == pending[5..]
  {
    assert Pow2(5) == 32;
    TakeHigh(buffer, pending, 5, |pending| - 5);
  }

  /** A complete 5-bit group after whole groups. */
  lemma {:induction false} GroupsSnoc(done: seq<bit>, g: seq<bit>)
    requires |done| % 5 == 0 && |g| == 5
    ensures Groups(done + g) == Groups(done) + [Value(g)]
    ensures |done + g| % 5 == 0
  {
    GroupsAppend(done, g);
    assert g[..5] == g && g[5..] == [];
  }

  lemma GroupsShort(rest: seq<bit>)
    requires 0 < |rest| < 5
    ensures Groups(rest) == [Value(rest + Repeat<bit>(0, 5 - |rest|))]
  {
  }

  /** `(buffer << (5 - bitsLeft)) & 31` is the value of the pending bits filled up with zeros. */
  lemma FlushValue(rest: seq<bit>, buffer: nat)
    requires 0 < |rest| < 5 && BitsOf(buffer, |rest|) == rest
    ensures ((buffer * Pow2(5 - |rest|)) % Word) % 32 == Value(rest + Repeat<bit>(0, 5 - |rest|))
  {
    var m := 5 - |rest|;
    var x := buffer * Pow2(m);
    BitsOfIff(buffer, rest);
    PowAdd(|rest|, m);
    assert Pow2(5) == 32;
    PowAdd(5, 27);
    WordPow();
    ModMod(x, 32, Pow2(27));
    assert (x % Word) % 32 == x % 32;
    ShiftInMod(buffer, Pow2(|rest|), Pow2(m), 0);
    assert x % 32 == Value(rest) * Pow2(m);
    var zeros := Repeat<bit>(0, m);
    ValueAppend(rest, zeros);
    ZeroBitsValue(m);
  }

  /** The last group, when fewer than five bits are pending after the last byte. */
  lemma FlushGroup(done: seq<bit>, rest: seq<bit>, buffer: nat)
    requires |done| % 5 == 0 && 0 < |rest| < 5 && BitsOf(buffer, |rest|) == rest
    ensures ((buffer * Pow2(5 - |rest|)) % Word) % 32 < 32
    ensures Groups(done + rest) == Groups(done) + [((buffer * Pow2(5 - |rest|)) % Word) % 32]
  {
    GroupsShort(rest);
    GroupsAppend(done, rest);
    FlushValue(rest, buffer);
  }

  /** `base32Encode`, on the bytes of its input. `done` are the bits already written out as
      characters, `pending` the `bitsLeft` bits held in the low end of `buffer`. */
  method Base32Encode(bytes: seq<byte>) returns (result: JsString)
    ensures result == EncodeSpec(bytes)
  {
    result := [];
    var buffer: nat := 0;
    var bitsLeft: nat := 0;
    ghost var done: seq<bit> := [];
    ghost var pending: seq<bit> := [];
    var i := 0;
    while i < |bytes|
      invariant 0 <= i <= |bytes|
      invariant done + pending == ByteBits(bytes[..i])
      invariant |pending| == bitsLeft < 5 && |done| % 5 == 0
      invariant BitsOf(buffer, bitsLeft) == pending
      invariant result == Chars(Groups(done))
    {
      buffer, bitsLeft, result, done, pending := EncodeByte(bytes, i, buffer, bitsLeft, result, done, pending);
      i := i + 1;
    }
    assert bytes[..i] == bytes;
    result := FlushAndPad(buffer, bitsLeft, result, done, pending);
  }

  /** One pass of the outer loop of `base32Encode`: the byte goes into `buffer`, and the
      groups it completes are written out. */
  method EncodeByte(bytes: seq<byte>, i: nat, buffer: nat, bitsLeft: nat, result: JsString,
                    ghost done: seq<bit>, ghost pending: seq<bit>)
    returns (buffer': nat, bitsLeft': nat, result': JsString, ghost done': seq<bit>, ghost pending': seq<bit>)
    requires i < |bytes| && done + pending == ByteBits(bytes[..i])
    requires |pending| == bitsLeft < 5 && |done| % 5 == 0
    requires BitsOf(buffer, bitsLeft) == pending && result == Chars(Groups(done))
    ensures done' + pending' == ByteBits(bytes[..i + 1])
    ensures |pending'| == bitsLeft' < 5 && |done'| % 5 == 0
    ensures BitsOf(buffer', bitsLeft') == pending' && result' == Chars(Groups(done'))
  {
    // buffer = (buffer << 8) | bytes[i]
    buffer' := (buffer * 256 + bytes[i]) % Word;
    PushByte(buffer, pending, bytes[i], buffer');
    ByteBitsSnoc(bytes, i);
    Extend(done, pending, BitsOf(bytes[i], ByteWidth), ByteBits(bytes[..i]));
    ghost var more := pending + BitsOf(bytes[i], ByteWidth);
    bitsLeft', result', done', pending' := EmitGroups(buffer', bitsLeft + 8, result, done, more);
  }

  /** The end of `base32Encode`: the remaining bits as one last character, then the padding. */
  method FlushAndPad(buffer: nat, bitsLeft: nat, result: JsString, ghost done: seq<bit>, ghost pending: seq<bit>)
    returns (out: JsString)
    requires |pending| == bitsLeft < 5 && |done| % 5 == 0
    requires BitsOf(buffer, bitsLeft) == pending && result == Chars(Groups(done))
    ensures out == Chars(Groups(done + pending)) + Padding(|Chars(Groups(done + pending))|)
  {
    out := result;
    if bitsLeft > 0 {
      FlushGroup(done, pending, buffer);
      // (buffer << (5 - bitsLeft)) & 31
      var index := ((buffer * Pow2(5 - bitsLeft)) % Word) % 32;
      CharsSnoc(Groups(done), index);
      out := out + [AlphabetChar(index)];
    } else {
      assert done + pending == done;
    }
    out := PadToBlock(out);
  }

  /** The inner loop of `base32Encode`: a character for every five pending bits, taken from
      the top of `buffer`. */
  method EmitGroups(buffer: nat, bitsLeft: nat, result: JsString, ghost done: seq<bit>, ghost pending: seq<bit>)
    returns (left: nat, out: JsString, ghost done': seq<bit>, ghost pending': seq<bit>)
    requires |pending| == bitsLeft <= 12 && |done| % 5 == 0
    requires BitsOf(buffer, bitsLeft) == pending
    requires result == Chars(Groups(done))
    ensures done' + pending' == done + pending
    ensures |pending'| == left < 5 && |done'| % 5 == 0
    ensures BitsOf(buffer, left) == pending'
    ensures out == Chars(Groups(done'))
  {
    left, out, done', pending' := bitsLeft, result, done, pending;
    while left >= 5
      invariant done' + pending' == done + pending
      invariant |pending'| == left <= 12 && |done'| % 5 == 0
      invariant BitsOf(buffer, left) == pending'
      invariant out == Chars(Groups(done'))
    {
      EmitGroup(buffer, pending');
      GroupsSnoc(done', pending'[..5]);
      Regroup(done', pending', 5);
      // (buffer >> (bitsLeft - 5)) & 31
      var index := (buffer / Pow2(left - 5)) % 32;
      CharsSnoc(Groups(done'), index);
      out := out + [AlphabetChar(index)];
      left := left - 5;
      done', pending' := done' + pending'[..5], pending'[5..];
    }
  }

  /** The padding loop of `base32Encode`: `=` until the length is a multiple of 8. */
  method PadToBlock(body: JsString) returns (result: JsString)
    ensures result == body + Padding(|body|)
  {
    result := body;
    PadCount(|body|, |result|);
    while |result| % 8 != 0
      invariant |body| <= |result| <= |body| + (8 - |body| % 8) % 8
      invariant result == body + Repeat(Pad, |result| - |body|)
      invariant |result| % 8 == 0 <==> |result| == |body| + (8 - |body| % 8) % 8
      decreases |body| + 8 - |result|
    {
      RepeatSnoc(Pad, |result| - |body|);
      result := result + [Pad];
      PadCount(|body|, |result|);
    }
  }

  /** Between a length and the next multiple of 8, only that multiple is one. */
  lemma PadCount(b: nat, r: nat)
    requires b <= r <= b + (8 - b % 8) % 8
    ensures r % 8 == 0 <==> r == b + (8 - b % 8) % 8
  {
    var q, k := b % 8, r - b;
    assert b == 8 * (b / 8) + q;
    assert r == 8 * (b / 8) + (q + k);
    assert q + k <= 8;
  }

  /** The encoder writes `ceil(8n/5)` alphabet characters for `n` bytes and then only `=`,
      up to a multiple of 8 characters. */
  lemma EncodeShape(bytes: seq<byte>)
    ensures |EncodeSpec(bytes)| % 8 == 0
    ensures (8 * |bytes| + 4) / 5 <= |EncodeSpec(bytes)| < (8 * |bytes| + 4) / 5 + 8
    ensures forall k | 0 <= k < (8 * |bytes| + 4) / 5 :: DecodeValue(EncodeSpec(bytes)[k]).Some?
    ensures forall k | (8 * |bytes| + 4) / 5 <= k < |EncodeSpec(bytes)| :: EncodeSpec(bytes)[k] == Pad
  {
  }

  /** The characters `input.replace(/[=\s]/g, '')` keeps. */
  predicate IsKept(c: CodeUnit)
  {
    c != Pad && !IsSpace(c)
  }

  /** `input.replace(/[=\s]/g, '').toUpperCase()`. */
  function Clean(input: JsString): JsString
  {
    ToUpper(Filter(input, IsKept))
  }

  /** The first index from `i` on whose code unit is not in the decoding table. */
  function FirstInvalid(s: JsString, i: nat): (r: Option<nat>)
    requires i <= |s|
    ensures r.Some? ==> i <= r.value < |s| && DecodeValue(s[r.value]).None?
    ensures r.Some? ==> forall k | i <= k < r.value :: DecodeValue(s[k]).Some?
    ensures r.None? <==> forall k | i <= k < |s| :: DecodeValue(s[k]).Some?
    decreases |s| - i
  {
    if i == |s| then None
    else if DecodeValue(s[i]).None? then Some(i)
    else FirstInvalid(s, i + 1)
  }

  /** The code point that starts at `i`: a surrogate pair is one character. */
  function CodePointAt(s: JsString, i: nat): (r: JsString)
    requires i < |s|
    ensures 1 <= |r| <= 2 && r[0] == s[i]
    ensures |r| == 2 <==> i + 1 < |s| && IsHighSurrogate(s[i]) && IsLowSurrogate(s[i + 1])
  {
    if i + 1 < |s| && IsHighSurrogate(s[i]) && IsLowSurrogate(s[i + 1]) then s[i..i + 2] else [s[i]]
  }

  const InvalidPrefix: JsString := Str("Invalid Base32 character: ")

  /** The message `base32Decode` throws for a character outside the alphabet. */
  function InvalidCharacter(c: JsString): JsString
  {
    InvalidPrefix + c
  }

  /** The value of a character in the decoding table; the decoder reads it only for alphabet
      characters, having rejected any other first. */
  function CharValue(c: int): (v: nat)
    ensures v < 32
  {
    match DecodeValue(c)
    case Some(v) => v
    case None => 0
  }

  /** The five bits of each character of a string (of alphabet characters, where it is used). */
  function ValueBits(s: JsString): (r: seq<bit>)
    ensures |r| == 5 * |s|
  {
    if |s| == 0 then [] else ValueBits(s[..|s| - 1]) + BitsOf(CharValue(s[|s| - 1]), GroupWidth)
  }

  lemma {:induction false} ValueBitsAppend(a: JsString, b: JsString)
    ensures ValueBits(a + b) == ValueBits(a) + ValueBits(b)
    decreases |b|
  {
    if |b| == 0 {
      assert a + b == a;
    } else {
      var ab := a + b;
      var front := b[..|b| - 1];
      assert ab[..|ab| - 1] == a + front;
      ValueBitsAppend(a, front);
      ValueBitsLast(ab);
      ValueBitsLast(b);
    }
  }

  /** The bits of a string end with those of its last character. */
  lemma ValueBitsLast(s: JsString)
    requires |s| > 0
    ensures ValueBits(s) == ValueBits(s[..|s| - 1]) + BitsOf(CharValue(s[|s| - 1]), GroupWidth)
  {
  }

  /** What `base32Decode` yields before its bytes are read as UTF-8: the bytes, or the
      message it throws. */
  function DecodeSpec(input: JsString): Result<seq<byte>, JsString>
  {
    var cleaned := Clean(input);
    match FirstInvalid(cleaned, 0)
    case Some(i) => Failure(InvalidCharacter(CodePointAt(cleaned, i)))
    case None => Success(BytesOf(ValueBits(cleaned)))
  }

  /** The decoder throws exactly when a cleaned character is outside the alphabet, naming the
      first such character; otherwise it yields `floor(5n/8)` bytes for `n` cleaned
      characters. */
  lemma DecodeSpecShape(input: JsString)
    ensures DecodeSpec(input).Failure? <==> exists k | 0 <= k < |Clean(input)| :: DecodeValue(Clean(input)[k]).None?
    ensures DecodeSpec(input).Failure? ==> exists i | 0 <= i < |Clean(input)| ::
      DecodeValue(Clean(input)[i]).None? && (forall k | 0 <= k < i :: DecodeValue(Clean(input)[k]).Some?)
      && DecodeSpec(input).error == InvalidCharacter(CodePointAt(Clean(input), i))
    ensures DecodeSpec(input).Success? ==> |DecodeSpec(input).value| == 5 * |Clean(input)| / 8
  {
  }

  /** A complete byte after whole bytes. */
  lemma BytesSnoc(done: seq<bit>, g: seq<bit>)
    requires |done| % 8 == 0 && |g| == 8
    ensures BytesOf(done + g) == BytesOf(done) + [Value(g)]
  {
    BytesOfAppend(done, g);
    assert g[..8] == g && g[8..] == [];
  }

  lemma ValueBitsSnoc(s: JsString, i: nat)
    requires i < |s|
    ensures ValueBits(s[..i + 1]) == ValueBits(s[..i]) + BitsOf(CharValue(s[i]), GroupWidth)
  {
    assert s[..i + 1][..i] == s[..i];
  }

  /** `(buffer << 5) | value`: the five bits of a character join the pending ones. */
  lemma PushValue(buffer: nat, pending: seq<bit>, v: nat, pushed: nat)
    requires |pending| <= 27 && BitsOf(buffer, |pending|) == pending && v < 32
    requires pushed == (buffer * 32 + v) % Word
    ensures BitsOf(pushed, |pending| + GroupWidth) == pending + BitsOf(v, GroupWidth)
  {
    assert Pow2(GroupWidth) == 32 by { assert Pow2(5) == 32; }
    PushLow(buffer, pending, v, GroupWidth, 32, pushed);
  }

  /** `(buffer >> (bitsLeft - 8)) & 255`: the top eight pending bits become the next byte. */
  lemma EmitByte(buffer: nat, done: seq<bit>, pending: seq<bit>)
    requires |pending| >= 8 && |done| % 8 == 0 && BitsOf(buffer, |pending|) == pending
    ensures (buffer / Pow2(|pending| - 8)) % 256 == Value(pending[..8])
    ensures BitsOf(buffer, |pending| - 8) == pending[8..]
    ensures BytesOf(done + pending[..8]) == BytesOf(done) + [Value(pending[..8])]
  {
    assert Pow2(8) == 256;
    TakeHigh(buffer, pending, 8, |pending| - 8);
    BytesSnoc(done, pending[..8]);
  }

  /** The validation loop of `base32Decode`: the first character outside the alphabet. */
  method FindInvalid(cleaned: JsString) returns (r: Option<nat>)
    ensures r == FirstInvalid(cleaned, 0)
  {
    var j := 0;
    while j < |cleaned|
      invariant 0 <= j <= |cleaned|
      invariant FirstInvalid(cleaned, 0) == FirstInvalid(cleaned, j)
    {
      if DecodeValue(cleaned[j]).None? {
        return Some(j);
      }
      j := j + 1;
    }
    return None;
  }

  /** The bit-accumulator loop of `base32Decode`: five bits in per character, a byte out
      whenever eight are pending. */
  method DecodeBits(cleaned: JsString) returns (result: seq<byte>)
    requires forall k | 0 <= k < |cleaned| :: DecodeValue(cleaned[k]).Some?
    ensures result == BytesOf(ValueBits(cleaned))
  {
    var buffer: nat := 0;
    var bitsLeft: nat := 0;
    ghost var done: seq<bit> := [];
    ghost var pending: seq<bit> := [];
    result := [];
    var i := 0;
    while i < |cleaned|
      invariant 0 <= i <= |cleaned|
      invariant done + pending == ValueBits(cleaned[..i])
      invariant |pending| == bitsLeft < 8 && |done| % 8 == 0
      invariant BitsOf(buffer, bitsLeft) == pending
      invariant result == BytesOf(done)
    {
      buffer, bitsLeft, result, done, pending := DecodeChar(cleaned, i, buffer, bitsLeft, result, done, pending);
      i := i + 1;
    }
    assert cleaned[..i] == cleaned;
    BytesOfAppend(done, pending);
  }

  /** One pass of the bit-accumulator loop: the character's five bits go into `buffer`, and a
      byte comes out once eight are pending. */
  method DecodeChar(cleaned: JsString, i: nat, buffer: nat, bitsLeft: nat, result: seq<byte>,
                    ghost done: seq<bit>, ghost pending: seq<bit>)
    returns (buffer': nat, bitsLeft': nat, result': seq<byte>, ghost done': seq<bit>, ghost pending': seq<bit>)
    requires i < |cleaned| && forall k | 0 <= k < |cleaned| :: DecodeValue(cleaned[k]).Some?
    requires done + pending == ValueBits(cleaned[..i])
    requires |pending| == bitsLeft < 8 && |done| % 8 == 0
    requires BitsOf(buffer, bitsLeft) == pending && result == BytesOf(done)
    ensures done' + pending' == ValueBits(cleaned[..i + 1])
    ensures |pending'| == bitsLeft' < 8 && |done'| % 8 == 0
    ensures BitsOf(buffer', bitsLeft') == pending' && result' == BytesOf(done')
  {
    var value := DecodeValue(cleaned[i]).value;
    // buffer = (buffer << 5) | value
    buffer' := (buffer * 32 + value) % Word;
    PushValue(buffer, pending, value, buffer');
    ValueBitsSnoc(cleaned, i);
    Extend(done, pending, BitsOf(value, GroupWidth), ValueBits(cleaned[..i]));
    bitsLeft' := bitsLeft + 5;
    pending' := pending + BitsOf(value, GroupWidth);
    done' := done;
    result' := result;
    if bitsLeft' >= 8 {
      EmitByte(buffer', done', pending');
      Regroup(done', pending', 8);
      // (buffer >> (bitsLeft - 8)) & 255
      result' := result' + [(buffer' / Pow2(bitsLeft' - 8)) % 256];
      bitsLeft' := bitsLeft' - 8;
      done', pending' := done' + pending'[..8], pending'[8..];
    }
  }

  /** `base32Decode` up to its final UTF-8 decoding: the cleaning, the validation loop that
      throws on the first character outside the alphabet, and the bit-accumulator loop. */
  method Base32Decode(input: JsString) returns (r: Result<seq<byte>, JsString>)
    ensures r == DecodeSpec(input)
  {
    var cleaned := Clean(input);
    var invalid := FindInvalid(cleaned);
    if invalid.Some? {
      return Failure(InvalidCharacter(CodePointAt(cleaned, invalid.value)));
    }
    var bytes := DecodeBits(cleaned);
    return Success(bytes);
  }

  // ---------------------------------------------------------------------------------------
  // What the decoder promises

  lemma DecodeAlphabet(v: nat)
    requires v < 32
    ensures DecodeValue(AlphabetChar(v)) == Some(v)
  {
  }

  /** `Clean`, one character at a time. */
  lemma CleanCons(c: CodeUnit, rest: JsString)
    ensures Clean([c] + rest) == (if IsKept(c) then UpperOf(c) else []) + Clean(rest)
  {
    assert ([c] + rest)[1..] == rest;
    var kept: JsString := if IsKept(c) then [c] else [];
    assert Filter([c] + rest, IsKept) == kept + Filter(rest, IsKept);
    ToUpperAppend(kept, Filter(rest, IsKept));
    if IsKept(c) {
      assert [c][1..] == [];
      assert ToUpper(kept) == UpperOf(c) + [];
    }
  }

  /** A character of the class `[A-Z2-7=\s]` of a regular expression with the `i` flag. */
  predicate IsBase32Like(c: CodeUnit)
  {
    IsLetter(c) || ('2' as int <= c <= '7' as int) || c == Pad || IsSpace(c)
  }

  /** `/^[A-Z2-7=\s]+$/i.test(s)`. */
  predicate LooksBase32(s: JsString)
  {
    |s| > 0 && forall k | 0 <= k < |s| :: IsBase32Like(s[k])
  }

  lemma {:induction false} CleanValid(s: JsString)
    requires forall k | 0 <= k < |s| :: IsBase32Like(s[k])
    ensures forall k | 0 <= k < |Clean(s)| :: DecodeValue(Clean(s)[k]).Some?
    decreases |s|
  {
    if |s| > 0 {
      CleanCons(s[0], s[1..]);
      assert s == [s[0]] + s[1..];
      CleanValid(s[1..]);
    }
  }

  /** Text that passes the multi-layer decoder's regular expression always decodes: the
      `catch` around `base32Decode` there never fires. */
  lemma LooksBase32Decodes(s: JsString)
    requires forall k | 0 <= k < |s| :: IsBase32Like(s[k])
    ensures DecodeSpec(s).Success?
  {
    CleanValid(s);
  }

  /** `=` and white space are ignored wherever they stand. */
  lemma DecodeIgnoresJunk(a: JsString, junk: JsString, b: JsString)
    requires forall k | 0 <= k < |junk| :: junk[k] == Pad || IsSpace(junk[k])
    ensures DecodeSpec(a + junk + b) == DecodeSpec(a + b)
  {
    KeptIgnoresJunk(a, junk, b);
    assert Clean(a + junk + b) == Clean(a + b);
  }

  lemma KeptIgnoresJunk(a: JsString, junk: JsString, b: JsString)
    requires forall k | 0 <= k < |junk| :: junk[k] == Pad || IsSpace(junk[k])
    ensures Filter(a + junk + b, IsKept) == Filter(a + b, IsKept)
  {
    assert forall k | 0 <= k < |junk| :: !IsKept(junk[k]);
    var fa, fb := Filter(a, IsKept), Filter(b, IsKept);
    FilterAppend(a + junk, b, IsKept);
    FilterAppend(a, junk, IsKept);
    FilterAppend(a, b, IsKept);
    assert Filter(a + junk, IsKept) == fa + [] == fa;
  }

  lemma {:induction false} CleanFold(a: JsString, b: JsString)
    requires |a| == |b|
    requires forall k | 0 <= k < |a| :: a[k] < 128 && b[k] < 128 && Fold(a[k]) == Fold(b[k])
    ensures Clean(a) == Clean(b)
    decreases |a|
  {
    if |a| > 0 {
      assert forall k | 0 <= k < |a| - 1 :: a[1..][k] == a[k + 1] && b[1..][k] == b[k + 1];
      CleanFold(a[1..], b[1..]);
      CleanFoldStep(a, b);
    }
  }

  lemma {:induction false} CleanFoldStep(a: JsString, b: JsString)
    requires |a| == |b| > 0 && a[0] < 128 && b[0] < 128 && Fold(a[0]) == Fold(b[0])
    requires Clean(a[1..]) == Clean(b[1..])
    ensures Clean(a) == Clean(b)
  {
    CleanCons(a[0], a[1..]);
    CleanCons(b[0], b[1..]);
    FoldSame(a[0], b[0]);
    assert a == [a[0]] + a[1..];
    assert b == [b[0]] + b[1..];
  }

  /** Two ASCII characters that agree up to case are kept alike and upper-case alike. */
  lemma FoldSame(x: CodeUnit, y: CodeUnit)
    requires x < 128 && y < 128 && Fold(x) == Fold(y)
    ensures IsKept(x) == IsKept(y) && UpperOf(x) == UpperOf(y)
  {
  }

  /** The decoder does not tell upper from lower case. */
  lemma DecodeCaseInsensitive(a: JsString, b: JsString)
    requires |a| == |b|
    requires forall k | 0 <= k < |a| :: a[k] < 128 && b[k] < 128 && Fold(a[k]) == Fold(b[k])
    ensures DecodeSpec(a) == DecodeSpec(b)
  {
    CleanFold(a, b);
  }

  /** The bits of 5-bit values, five each. */
  function GroupBits(gs: seq<nat>): (r: seq<bit>)
    ensures |r| == GroupWidth * |gs|
  {
    if |gs| == 0 then [] else BitsOf(gs[0], GroupWidth) + GroupBits(gs[1..])
  }

  lemma {:induction false} ValueBitsChars(gs: seq<nat>)
    requires forall k | 0 <= k < |gs| :: gs[k] < 32
    ensures ValueBits(Chars(gs)) == GroupBits(gs)
    decreases |gs|
  {
    if |gs| > 0 {
      var c := AlphabetChar(gs[0]);
      assert Chars(gs) == [c] + Chars(gs[1..]);
      ValueBitsAppend([c], Chars(gs[1..]));
      DecodeAlphabet(gs[0]);
      assert [c][..0] == [];
      assert ValueBits([c]) == BitsOf(gs[0], GroupWidth);
      ValueBitsChars(gs[1..]);
    }
  }

  /** Splitting bits into groups and back gives the bits, followed by the zero bits that
      filled up the last group. */
  /** How many zero bits fill up the last group of `bits`. */
  function Fill(bits: seq<bit>): (n: nat)
    ensures n < 5
    decreases |bits|
  {
    if |bits| == 0 then 0 else if |bits| < 5 then 5 - |bits| else Fill(bits[5..])
  }

  lemma {:induction false} GroupBitsGroups(bits: seq<bit>)
    ensures GroupBits(Groups(bits)) == bits + Repeat<bit>(0, Fill(bits))
    decreases |bits|
  {
    if |bits| == 0 {
    } else if |bits| < 5 {
      var filled := bits + Repeat<bit>(0, 5 - |bits|);
      BitsOfValue(filled);
      assert [Value(filled)][1..] == [];
      assert GroupBits([Value(filled)]) == BitsOf(Value(filled), GroupWidth) + [];
    } else {
      var head, tail := bits[..5], bits[5..];
      var g := Value(head);
      var rest := Groups(tail);
      var zeros := Repeat<bit>(0, Fill(bits));
      assert Groups(bits) == [g] + rest;
      assert ([g] + rest)[1..] == rest;
      assert GroupBits(Groups(bits)) == BitsOf(g, GroupWidth) + GroupBits(rest);
      BitsOfValue(head);
      assert BitsOf(g, GroupWidth) == head;
      GroupBitsGroups(tail);
      assert GroupBits(rest) == tail + zeros;
      assert head + (tail + zeros) == bits + zeros by {
        assert bits == head + tail;
      }
    }
  }

  /** Decoding undoes encoding, for every byte string. */
  lemma RoundTrip(bytes: seq<byte>)
    ensures DecodeSpec(EncodeSpec(bytes)) == Success(bytes)
  {
    var bits := ByteBits(bytes);
    var gs := Groups(bits);
    CleanEncode(bytes);
    ValueBitsChars(gs);
    GroupBitsGroups(bits);
    BytesOfByteBits(bytes, Repeat<bit>(0, Fill(bits)));
  }

  /** Cleaning an encoding drops its padding and keeps its alphabet characters. */
  lemma CleanEncode(bytes: seq<byte>)
    ensures Clean(EncodeSpec(bytes)) == Chars(Groups(ByteBits(bytes)))
  {
    var body := Chars(Groups(ByteBits(bytes)));
    KeptEncode(body);
    UpperChars(Groups(ByteBits(bytes)));
  }

  lemma {:induction false} KeptEncode(body: JsString)
    requires forall k | 0 <= k < |body| :: IsUpper(body[k]) || ('2' as int <= body[k] <= '7' as int)
    ensures Filter(body + Padding(|body|), IsKept) == body
  {
    var pad := Padding(|body|);
    assert Filter(body, IsKept) == body by {
      assert forall k | 0 <= k < |body| :: IsKept(body[k]);
    }
    assert Filter(pad, IsKept) == [] by {
      assert forall k | 0 <= k < |pad| :: pad[k] == Pad;
    }
    FilterAppend(body, pad, IsKept);
    assert body + [] == body;
  }

  lemma UpperChars(gs: seq<nat>)
    requires forall k | 0 <= k < |gs| :: gs[k] < 32
    ensures ToUpper(Chars(gs)) == Chars(gs)
  {
    var body := Chars(gs);
    assert forall k | 0 <= k < |body| :: body[k] == AlphabetChar(gs[k]);
    ToUpperAscii(body);
  }

  // ---------------------------------------------------------------------------------------
  // The multi-layer decoder

  /** One entry of `layers`. */
  datatype Layer = Layer(layer: nat, input: JsString, output: JsString)

  /** What `multiLayerBase32Decode` returns. */
  datatype LayersResult = LayersResult(finalResult: JsString, layers: seq<Layer>, totalLayers: nat)

  /** The state the loop of `multiLayerBase32Decode` stops in. */
  datatype Unwound = Unwound(current: JsString, attempts: nat, layers: seq<Layer>)

  /** A Base32 decoder up to UTF-8: `DecodeSpec` in the tool. The loop is stated for any such
      decoder, so that reasoning about the loop does not unfold the decoding itself. */
  type Decoder = JsString -> Result<seq<byte>, JsString>

  const MaxAttempts: nat := 50

  const NotValid: JsString := Str("Not a valid Base32 string")

  /** What one pass of the loop of `multiLayerBase32Decode` does with the current text:
      stop without a layer (the text does not look like Base32, or decoding throws), record a
      layer and stop (its output equals its input or does not look like Base32), or record a
      layer and go on with its output. */
  datatype Pass = Halt | Last(decoded: JsString) | Next(decoded: JsString)

  function PassOf(current: JsString, decode: Decoder, utf8Decode: seq<byte> -> JsString): Pass
  {
    if !LooksBase32(current) then Halt
    else
      match decode(current)
      case Failure(_) => Halt
      case Success(bytes) =>
        var decoded := utf8Decode(bytes);
        if decoded == current || !LooksBase32(decoded) then Last(decoded) else Next(decoded)
  }

  /** The loop of `multiLayerBase32Decode` from a given state, until 50 attempts are used up
      or a pass stops. */
  function Unwind(current: JsString, attempts: nat, layers: seq<Layer>, decode: Decoder, utf8Decode: seq<byte> -> JsString): Unwound
    requires attempts <= MaxAttempts
    decreases MaxAttempts - attempts
  {
    if attempts == MaxAttempts then Unwound(current, attempts, layers)
    else
      match PassOf(current, decode, utf8Decode)
      case Halt => Unwound(current, attempts, layers)
      case Last(decoded) => Unwound(current, attempts, layers + [Layer(attempts + 1, current, decoded)])
      case Next(decoded) => Unwind(decoded, attempts + 1, layers + [Layer(attempts + 1, current, decoded)], decode, utf8Decode)
  }

  /** The decoder never throws on text that looks like Base32. */
  ghost predicate AcceptsBase32(decode: Decoder)
  {
    forall s | LooksBase32(s) :: decode(s).Success?
  }

  lemma DecodeSpecAcceptsBase32()
    ensures AcceptsBase32(DecodeSpec)
  {
    forall s | LooksBase32(s)
      ensures DecodeSpec(s).Success?
    {
      LooksBase32Decodes(s);
    }
  }

  /** A layer records Base32 text and what decoding it gave. */
  predicate DecodedLayer(l: Layer, decode: Decoder, utf8Decode: seq<byte> -> JsString)
  {
    LooksBase32(l.input) && decode(l.input).Success? && l.output == utf8Decode(decode(l.input).value)
  }

  /** The layers are numbered from 1, the first decodes `start`, and every later one decodes
      the output of the one before, which differed from its own input. */
  predicate Chain(layers: seq<Layer>, start: JsString, decode: Decoder, utf8Decode: seq<byte> -> JsString)
  {
    (forall k | 0 <= k < |layers| :: layers[k].layer == k + 1 && DecodedLayer(layers[k], decode, utf8Decode))
    && (|layers| > 0 ==> layers[0].input == start)
    && (forall k | 0 <= k < |layers| - 1 :: layers[k + 1].input == layers[k].output && layers[k].output != layers[k].input)
  }

  lemma ChainSnoc(layers: seq<Layer>, start: JsString, l: Layer, decode: Decoder, utf8Decode: seq<byte> -> JsString)
    requires Chain(layers, start, decode, utf8Decode)
    requires l.layer == |layers| + 1 && DecodedLayer(l, decode, utf8Decode)
    requires |layers| == 0 ==> l.input == start
    requires |layers| > 0 ==> l.input == layers[|layers| - 1].output && l.input != layers[|layers| - 1].input
    ensures Chain(layers + [l], start, decode, utf8Decode)
  {
    var more := layers + [l];
    assert forall k | 0 <= k < |layers| :: more[k] == layers[k];
  }

  /** Where the loop is, in the middle of a run from `start`. */
  predicate Running(current: JsString, attempts: nat, layers: seq<Layer>, start: JsString, decode: Decoder, utf8Decode: seq<byte> -> JsString)
  {
    attempts <= MaxAttempts && |layers| == attempts && Chain(layers, start, decode, utf8Decode)
    && (attempts == 0 ==> current == start)
    && (attempts > 0 ==> current == layers[attempts - 1].output && current != layers[attempts - 1].input)
  }

  /** The loop stops within 50 attempts with at most 50 layers, every one of them decoded from
      the output of the previous; either the last layer ends the run (its output is its input
      or is not Base32) and the loop is still at that layer's input, or the loop stands at the
      last output with the attempts used up or text that is not Base32. */
  lemma {:induction false} UnwindShape(current: JsString, attempts: nat, layers: seq<Layer>, start: JsString, decode: Decoder, utf8Decode: seq<byte> -> JsString)
    requires AcceptsBase32(decode)
    requires Running(current, attempts, layers, start, decode, utf8Decode)
    ensures var u := Unwind(current, attempts, layers, decode, utf8Decode);
      u.attempts <= MaxAttempts && |u.layers| <= MaxAttempts && Chain(u.layers, start, decode, utf8Decode)
      && (|u.layers| == u.attempts ==> Running(u.current, u.attempts, u.layers, start, decode, utf8Decode)
                                       && (u.attempts == MaxAttempts || !LooksBase32(u.current)))
      && (|u.layers| == u.attempts + 1 ==> u.layers[u.attempts].input == u.current
                                           && (u.layers[u.attempts].output == u.current || !LooksBase32(u.layers[u.attempts].output)))
      && (|u.layers| == u.attempts || |u.layers| == u.attempts + 1)
    decreases MaxAttempts - attempts
  {
    if attempts < MaxAttempts && LooksBase32(current) {
      var decoded := utf8Decode(decode(current).value);
      var more := layers + [Layer(attempts + 1, current, decoded)];
      ChainSnoc(layers, start, Layer(attempts + 1, current, decoded), decode, utf8Decode);
      if PassOf(current, decode, utf8Decode).Next? {
        UnwindShape(decoded, attempts + 1, more, start, decode, utf8Decode);
      }
    }
  }

  /** The value of `finalResult` after the loop: the last layer's output unless it is empty,
      otherwise the text the loop stopped at. */
  function FinalText(u: Unwound): JsString
  {
    if |u.layers| > 0 && |u.layers[|u.layers| - 1].output| > 0 then u.layers[|u.layers| - 1].output else u.current
  }

  /** The result of `multiLayerBase32Decode` as written: "not valid" whenever `attempts` is
      still 0. */
  function ReportAsWritten(u: Unwound): LayersResult
  {
    if u.attempts == 0 then LayersResult(NotValid, [], 0) else LayersResult(FinalText(u), u.layers, |u.layers|)
  }

  /** The result as intended: "not valid" only when no layer was decoded. */
  function Report(u: Unwound): LayersResult
  {
    if |u.layers| == 0 then LayersResult(NotValid, [], 0) else LayersResult(FinalText(u), u.layers, |u.layers|)
  }

  /** The result of the multi-layer decoder as written, for a given decoder. */
  function MultiLayerAsWrittenWith(input: JsString, decode: Decoder, utf8Decode: seq<byte> -> JsString): LayersResult
  {
    ReportAsWritten(Unwind(Trim(input), 0, [], decode, utf8Decode))
  }

  /** The result of the multi-layer decoder as intended, for a given decoder. */
  function MultiLayerWith(input: JsString, decode: Decoder, utf8Decode: seq<byte> -> JsString): LayersResult
  {
    Report(Unwind(Trim(input), 0, [], decode, utf8Decode))
  }

  function MultiLayerAsWritten(input: JsString, utf8Decode: seq<byte> -> JsString): LayersResult
  {
    MultiLayerAsWrittenWith(input, DecodeSpec, utf8Decode)
  }

  function MultiLayer(input: JsString, utf8Decode: seq<byte> -> JsString): LayersResult
  {
    MultiLayerWith(input, DecodeSpec, utf8Decode)
  }

  /** One pass of the loop, with the decoder given as a function (`DecodeSpec`, which
      `Base32Decode` computes, in the tool). */
  method TryLayer(current: JsString, decode: Decoder, utf8Decode: seq<byte> -> JsString) returns (pass: Pass)
    ensures pass == PassOf(current, decode, utf8Decode)
  {
    if !LooksBase32(current) {
      return Halt;
    }
    var r := decode(current);
    if r.Failure? {
      return Halt;
    }
    var decoded := utf8Decode(r.value);
    if decoded == current || !LooksBase32(decoded) {
      return Last(decoded);
    }
    return Next(decoded);
  }

  /** The loop of `multiLayerBase32Decode`. */
  method DecodeLayers(input: JsString, decode: Decoder, utf8Decode: seq<byte> -> JsString) returns (u: Unwound)
    ensures u == Unwind(Trim(input), 0, [], decode, utf8Decode)
  {
    var current := Trim(input);
    var layers: seq<Layer> := [];
    var attempts: nat := 0;
    while attempts < MaxAttempts
      invariant attempts <= MaxAttempts
      invariant Unwind(current, attempts, layers, decode, utf8Decode) == Unwind(Trim(input), 0, [], decode, utf8Decode)
    {
      var pass := TryLayer(current, decode, utf8Decode);
      if pass.Halt? {
        break;
      }
      layers := layers + [Layer(attempts + 1, current, pass.decoded)];
      if pass.Last? {
        break;
      }
      current := pass.decoded;
      attempts := attempts + 1;
    }
    u := Unwound(current, attempts, layers);
  }

  /** `multiLayerBase32Decode` as written: the loop, then the report that checks `attempts`. */
  method MultiLayerBase32DecodeAsWritten(input: JsString, utf8Decode: seq<byte> -> JsString) returns (r: LayersResult)
    ensures r == MultiLayerAsWritten(input, utf8Decode)
  {
    var u := DecodeLayers(input, DecodeSpec, utf8Decode);
    r := ReportAsWritten(u);
  }

  /** `multiLayerBase32Decode` with the final check on the recorded layers. */
  method MultiLayerBase32Decode(input: JsString, utf8Decode: seq<byte> -> JsString) returns (r: LayersResult)
    ensures r == MultiLayer(input, utf8Decode)
  {
    var u := DecodeLayers(input, DecodeSpec, utf8Decode);
    r := Report(u);
  }

  /** The decoder's result, for any decoder that accepts text that looks like Base32 (the
      tool's does, by `DecodeSpecAcceptsBase32`): the layers chained from the trimmed input,
      at most 50 of them, counted by `totalLayers`; "not valid" exactly when the trimmed input
      does not look like Base32; otherwise the last layer's output (or the text the loop
      stopped at, if that output is empty). */
  lemma {:induction false} MultiLayerShape(input: JsString, decode: Decoder, utf8Decode: seq<byte> -> JsString)
    requires AcceptsBase32(decode)
    ensures var r := MultiLayerWith(input, decode, utf8Decode);
      r.totalLayers == |r.layers| <= MaxAttempts && Chain(r.layers, Trim(input), decode, utf8Decode)
      && (|r.layers| == 0 <==> !LooksBase32(Trim(input)))
      && (|r.layers| == 0 ==> r.finalResult == NotValid)
      && (|r.layers| > 0 && |r.layers[|r.layers| - 1].output| > 0 ==> r.finalResult == r.layers[|r.layers| - 1].output)
  {
    var start := Trim(input);
    var u := Unwind(start, 0, [], decode, utf8Decode);
    assert MultiLayerWith(input, decode, utf8Decode) == Report(u);
    assert |u.layers| <= MaxAttempts && Chain(u.layers, start, decode, utf8Decode) by {
      UnwindShape(start, 0, [], start, decode, utf8Decode);
    }
    assert |u.layers| == 0 <==> !LooksBase32(start) by {
      UnwindShape(start, 0, [], start, decode, utf8Decode);
      if !LooksBase32(start) {
        UnwindHalts(start, 0, [], decode, utf8Decode);
      }
    }
    ReportFacts(u);
  }

  /** The report keeps the layers and counts them; it says "not valid" when there are none
      and otherwise gives the last output when that is not empty. */
  lemma ReportFacts(u: Unwound)
    ensures var r := Report(u);
      r.layers == u.layers && r.totalLayers == |u.layers|
      && (|u.layers| == 0 ==> r.finalResult == NotValid)
      && (|u.layers| > 0 && |u.layers[|u.layers| - 1].output| > 0 ==> r.finalResult == u.layers[|u.layers| - 1].output)
  {
  }

  /** Text that does not look like Base32 stops the loop where it is. */
  lemma {:induction false} UnwindHalts(current: JsString, attempts: nat, layers: seq<Layer>, decode: Decoder, utf8Decode: seq<byte> -> JsString)
    requires attempts <= MaxAttempts && !LooksBase32(current)
    ensures Unwind(current, attempts, layers, decode, utf8Decode) == Unwound(current, attempts, layers)
  {
    assert PassOf(current, decode, utf8Decode) == Halt;
  }

  /** As written, a single layer that ends the run is thrown away: Base32 text whose decoded
      text equals it or does not look like Base32 is reported as not valid, although it
      decoded. */
  lemma SingleLayerDropped(input: JsString, decode: Decoder, utf8Decode: seq<byte> -> JsString)
    requires LooksBase32(Trim(input)) && decode(Trim(input)).Success?
    requires var d := utf8Decode(decode(Trim(input)).value); d == Trim(input) || !LooksBase32(d)
    ensures MultiLayerAsWrittenWith(input, decode, utf8Decode) == LayersResult(NotValid, [], 0)
    ensures MultiLayerWith(input, decode, utf8Decode).layers == [Layer(1, Trim(input), utf8Decode(decode(Trim(input)).value))]
  {
  }

  lemma EncodeLooksBase32(bytes: seq<byte>)
    requires |bytes| > 0
    ensures LooksBase32(EncodeSpec(bytes)) && NoSpace(EncodeSpec(bytes))
  {
    EncodeShape(bytes);
  }

  /** The Base32 encoding of bytes whose UTF-8 text does not look like Base32 (such as
      `GE======`, the encoding of the byte `0x31`, whose text is `1`) is reported as not a
      valid Base32 string; the corrected decoder returns one layer holding that text. */
  lemma SingleLayerEncoding(bytes: seq<byte>, utf8Decode: seq<byte> -> JsString)
    requires |bytes| > 0 && !LooksBase32(utf8Decode(bytes))
    ensures MultiLayerAsWritten(EncodeSpec(bytes), utf8Decode) == LayersResult(NotValid, [], 0)
    ensures MultiLayer(EncodeSpec(bytes), utf8Decode).layers == [Layer(1, EncodeSpec(bytes), utf8Decode(bytes))]
  {
    var e := EncodeSpec(bytes);
    EncodeLooksBase32(bytes);
    TrimNoSpace(e);
    RoundTrip(bytes);
    SingleLayerDropped(e, DecodeSpec, utf8Decode);
  }

  /** The text `1` does not look like Base32, so the encoding of the byte `0x31` is reported
      as not valid whenever UTF-8 reads the byte as `1`. */
  lemma OneIsNotBase32()
    ensures !LooksBase32(Str("1"))
  {
    assert !IsBase32Like(Str("1")[0]);
  }

  // ---------------------------------------------------------------------------------------
  // The entry point

  datatype Base32Output = Encoded(text: JsString) | Decoded(result: LayersResult)

  /** `executeBase32Tool`: `encode` encodes the UTF-8 bytes of the input; every other action
      runs the multi-layer decoder as it is written, which reports a single valid layer as
      not valid (`SingleLayerDropped`). */
  method ExecuteBase32Tool(input: JsString, action: JsString, utf8Encode: JsString -> seq<byte>, utf8Decode: seq<byte> -> JsString)
    returns (out: Base32Output)
    ensures action == Str("encode") ==> out == Encoded(EncodeSpec(utf8Encode(input)))
    ensures action != Str("encode") ==> out == Decoded(MultiLayerAsWritten(input, utf8Decode))
  {
    if action == Str("encode") {
      var text := Base32Encode(utf8Encode(input));
      return Encoded(text);
    }
    var r := MultiLayerBase32DecodeAsWritten(input, utf8Decode);
    return Decoded(r);
  }

  /** The tool with the decoder's layer check corrected: a single valid layer is reported. */
  method ExecuteBase32ToolCorrected(input: JsString, action: JsString, utf8Encode: JsString -> seq<byte>, utf8Decode: seq<byte> -> JsString)
    returns (out: Base32Output)
    ensures action == Str("encode") ==> out == Encoded(EncodeSpec(utf8Encode(input)))
    ensures action != Str("encode") ==> out == Decoded(MultiLayer(input, utf8Decode))
  {
    if action == Str("encode") {
      var text := Base32Encode(utf8Encode(input));
      return Encoded(text);
    }
    var r := MultiLayerBase32Decode(input, utf8Decode);
    return Decoded(r);
  }
}
