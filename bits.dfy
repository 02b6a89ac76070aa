/** Bit strings, most significant bit first, and their values: the common ground of the
    base 32 and the byte-level codecs. */
module Bits {
  import opened Text
  import opened Arith

  type bit = b: int | 0 <= b < 2

  function Pow2(e: nat): (p: nat)
    ensures p >= 1
  {
    if e == 0 then 1 else 2 * Pow2(e - 1)
  }

  lemma {:induction false} PowAdd(a: nat, b: nat)
    ensures Pow2(a + b) == Pow2(a) * Pow2(b)
    decreases b
  {
    if b > 0 {
      PowAdd(a, b - 1);
      assert Pow2(a + b) == 2 * Pow2(a + b - 1);
    }
  }

  /** The number a bit string spells, most significant bit first. */
  function Value(s: seq<bit>): (v: nat)
    ensures v < Pow2(|s|)
  {
    if |s| == 0 then 0 else Value(s[..|s| - 1]) * 2 + s[|s| - 1]
  }

  lemma {:induction false} ValueAppend(a: seq<bit>, b: seq<bit>)
    ensures Value(a + b) == Value(a) * Pow2(|b|) + Value(b)
    decreases |b|
  {
    if |b| == 0 {
      assert a + b == a;
    } else {
      var b', last := b[..|b| - 1], b[|b| - 1];
      assert (a + b)[..|a + b| - 1] == a + b';
      ValueAppend(a, b');
      var x, p, y := Value(a), Pow2(|b'|), Value(b');
      assert Value(a + b) == Value(a + b') * 2 + last;
      assert Value(a + b') == x * p + y;
      assert Value(b) == y * 2 + last;
      assert Pow2(|b|) == 2 * p;
      Distrib(x, p, y, 2);
    }
  }

  lemma {:induction false} ZeroBitsValue(n: nat)
    ensures Value(Repeat<bit>(0, n)) == 0
    decreases n
  {
    if n > 0 {
      var z := Repeat<bit>(0, n);
      assert z[..n - 1] == Repeat<bit>(0, n - 1);
      ZeroBitsValue(n - 1);
    }
  }

  /** The low `w` bits of `v`, most significant first. */
  function BitsOf(v: nat, w: nat): (r: seq<bit>)
    ensures |r| == w
  {
    if w == 0 then [] else BitsOf(v / 2, w - 1) + [v % 2]
  }

  /** The bits `BitsOf` writes spell `v` modulo `2^w`. */
  lemma {:induction false} ValueBitsOf(v: nat, w: nat)
    ensures Value(BitsOf(v, w)) == v % Pow2(w)
    decreases w
  {
    if w > 0 {
      var r := BitsOf(v, w);
      assert r[..w - 1] == BitsOf(v / 2, w - 1);
      ValueBitsOf(v / 2, w - 1);
      ShiftInMod(v / 2, Pow2(w - 1), 2, v % 2);
    }
  }

  /** Only the low `w` bits of `v` matter to `BitsOf(v, w)`. */
  lemma {:induction false} BitsOfMod(v: nat, w: nat)
    ensures BitsOf(v, w) == BitsOf(v % Pow2(w), w)
    decreases w
  {
    if w > 0 {
      var p := Pow2(w - 1);
      DivMod(v, 2, p);
      ModMod(v, 2, p);
      BitsOfMod(v / 2, w - 1);
      BitsOfMod((v % Pow2(w)) / 2, w - 1);
      ModUnique((v / 2) % p, 0, (v / 2) % p, p);
    }
  }

  /** `BitsOf` inverts `Value`. */
  lemma {:induction false} BitsOfValue(s: seq<bit>)
    ensures BitsOf(Value(s), |s|) == s
    decreases |s|
  {
    if |s| > 0 {
      var s' := s[..|s| - 1];
      ModUnique(Value(s), Value(s'), s[|s| - 1], 2);
      BitsOfValue(s');
      assert s == s' + [s[|s| - 1]];
    }
  }

  /** The low bits of `v` are `s` exactly when `v` is `Value(s)` modulo `2^|s|`. */
  lemma BitsOfIff(v: nat, s: seq<bit>)
    ensures BitsOf(v, |s|) == s <==> v % Pow2(|s|) == Value(s)
  {
    ValueBitsOf(v, |s|);
    BitsOfMod(v, |s|);
    if v % Pow2(|s|) == Value(s) {
      BitsOfValue(s);
    }
  }

  /** A 32-bit accumulator whose low `w + k` bits are `s` yields the first `w` bits of `s`
      when shifted right by `k` and masked to `w` bits, and keeps the rest of `s` below. */
  lemma TakeHigh(buffer: nat, s: seq<bit>, w: nat, k: nat)
    requires |s| == w + k && BitsOf(buffer, w + k) == s
    ensures (buffer / Pow2(k)) % Pow2(w) == Value(s[..w])
    ensures BitsOf(buffer, k) == s[w..]
  {
    BitsOfIff(buffer, s);
    TakeHighValue(buffer, s, w, k);
    TakeLow(buffer, s, w, k);
  }

  lemma TakeHighValue(buffer: nat, s: seq<bit>, w: nat, k: nat)
    requires |s| == w + k && buffer % Pow2(w + k) == Value(s)
    ensures (buffer / Pow2(k)) % Pow2(w) == Value(s[..w])
  {
    PowAdd(k, w);
    assert s == s[..w] + s[w..];
    ValueAppend(s[..w], s[w..]);
    ModUnique(Value(s), Value(s[..w]), Value(s[w..]), Pow2(k));
    DivMod(buffer, Pow2(k), Pow2(w));
  }

  lemma TakeLow(buffer: nat, s: seq<bit>, w: nat, k: nat)
    requires |s| == w + k && buffer % Pow2(w + k) == Value(s)
    ensures BitsOf(buffer, k) == s[w..]
  {
    PowAdd(k, w);
    assert s == s[..w] + s[w..];
    ValueAppend(s[..w], s[w..]);
    ModUnique(Value(s), Value(s[..w]), Value(s[w..]), Pow2(k));
    ModMod(buffer, Pow2(k), Pow2(w));
    BitsOfIff(buffer, s[w..]);
  }

  /** The modulus of JavaScript's 32-bit shifts. */
  const Word: nat := 0x1_0000_0000

  lemma WordPow()
    ensures Pow2(32) == Word
  {
    assert Pow2(4) == 16;
    PowAdd(4, 4);
    PowAdd(8, 8);
    PowAdd(16, 16);
  }

  /** Shifting a 32-bit accumulator whose low bits are `s` left by `w` and or-ing in the
      `w`-bit value `v` leaves `s` followed by the bits of `v` in its low bits. */
  lemma PushLow(buffer: nat, s: seq<bit>, v: nat, w: nat, pw: nat, pushed: nat)
    requires BitsOf(buffer, |s|) == s && pw == Pow2(w) && v < pw && |s| + w <= 32
    requires pushed == (buffer * pw + v) % Word
    ensures BitsOf(pushed, |s| + w) == s + BitsOf(v, w)
  {
    var n := |s|;
    var x := buffer * pw + v;
    var t := BitsOf(v, w);
    WordModLow(x, n + w);
    BitsOfIff(buffer, s);
    ShiftedValue(buffer, s, v, w, pw);
    AppendBitsValue(s, v, w, pw);
    assert pushed % Pow2(n + w) == Value(s + t);
    BitsOfIff(pushed, s + t);
  }

  /** Appending the `w` bits of `v < 2^w` shifts the value left by `w` and adds `v`. */
  lemma AppendBitsValue(s: seq<bit>, v: nat, w: nat, pw: nat)
    requires pw == Pow2(w) && v < pw
    ensures |s + BitsOf(v, w)| == |s| + w
    ensures Value(s + BitsOf(v, w)) == Value(s) * pw + v
  {
    var t := BitsOf(v, w);
    ValueBitsOf(v, w);
    ModUnique(v, 0, v, pw);
    ValueAppend(s, t);
  }

  /** Reducing modulo 2^32 keeps the low `m <= 32` bits. */
  lemma WordModLow(x: nat, m: nat)
    requires m <= 32
    ensures (x % Word) % Pow2(m) == x % Pow2(m)
  {
    var pm, rest := Pow2(m), Pow2(32 - m);
    PowAdd(m, 32 - m);
    WordPow();
    assert Word == pm * rest;
    ModMod(x, pm, rest);
  }

  /** Shifting left by `w` and adding a `w`-bit value puts that value below the low bits. */
  lemma ShiftedValue(buffer: nat, s: seq<bit>, v: nat, w: nat, pw: nat)
    requires buffer % Pow2(|s|) == Value(s) && pw == Pow2(w) && v < pw
    ensures (buffer * pw + v) % Pow2(|s| + w) == Value(s) * pw + v
  {
    var pn := Pow2(|s|);
    PowAdd(|s|, w);
    assert Pow2(|s| + w) == pn * pw;
    ShiftInMod(buffer, pn, pw, v);
  }

  /** The width of a UTF-16 code unit. */
  const UnitWidth: nat := 16

  lemma UnitWidthPow()
    ensures Pow2(UnitWidth) == 0x1_0000
  {
    assert Pow2(8) == 256;
    PowAdd(8, 8);
  }

  /** The bitwise exclusive or of the low `w` bits of `a` and `b`. */
  function XorBits(a: nat, b: nat, w: nat): (r: nat)
    ensures r < Pow2(w)
  {
    if w == 0 then 0 else 2 * XorBits(a / 2, b / 2, w - 1) + (a % 2 + b % 2) % 2
  }

  /** Exclusive or with the same `b` twice gives back the low `w` bits of `a`. */
  lemma {:induction false} XorBitsTwice(a: nat, b: nat, w: nat)
    ensures XorBits(XorBits(a, b, w), b, w) == a % Pow2(w)
    decreases w
  {
    if w > 0 {
      XorBitsTwiceStep(a, b, w);
      XorBitsTwice(a / 2, b / 2, w - 1);
      HalfMod(a, w);
    }
  }

  /** One bit of `XorBitsTwice`: the lowest bit comes back, the rest is the same question
      one bit narrower. */
  lemma XorBitsTwiceStep(a: nat, b: nat, w: nat)
    requires w > 0
    ensures XorBits(XorBits(a, b, w), b, w) == 2 * XorBits(XorBits(a / 2, b / 2, w - 1), b / 2, w - 1) + a % 2
  {
    var q, l := XorBits(a / 2, b / 2, w - 1), (a % 2 + b % 2) % 2;
    var r := 2 * q + l;
    assert XorBits(a, b, w) == r;
    assert r / 2 == q && r % 2 == l;
    assert (l + b % 2) % 2 == a % 2;
  }

  /** The low `w` bits of `a` are its lowest bit below the low `w - 1` bits of `a / 2`. */
  lemma HalfMod(a: nat, w: nat)
    requires w > 0
    ensures a % Pow2(w) == 2 * ((a / 2) % Pow2(w - 1)) + a % 2
  {
    var p := Pow2(w - 1);
    ShiftInMod(a / 2, p, 2, a % 2);
    assert a / 2 * 2 + a % 2 == a;
    assert Pow2(w) == p * 2;
  }

  /** The width of a byte. A named constant rather than a literal, so that the verifier does
      not unfold `BitsOf(b, ByteWidth)` bit by bit. */
  const ByteWidth: nat := 8

  lemma ByteWidthPow()
    ensures Pow2(ByteWidth) == 256
  {
    assert Pow2(8) == 256;
  }

  /** The bits of a byte string, eight per byte. */
  function ByteBits(bytes: seq<byte>): (r: seq<bit>)
    ensures |r| == 8 * |bytes|
  {
    if |bytes| == 0 then [] else ByteBits(bytes[..|bytes| - 1]) + BitsOf(bytes[|bytes| - 1], ByteWidth)
  }

  /** The bytes spelled by a bit string, eight bits each; fewer than eight left-over bits are
      dropped. */
  function BytesOf(bits: seq<bit>): (r: seq<byte>)
    ensures |r| == |bits| / 8
    decreases |bits|
  {
    if |bits| < 8 then [] else [Value(bits[..8])] + BytesOf(bits[8..])
  }

  lemma {:induction false} BytesOfAppend(a: seq<bit>, t: seq<bit>)
    requires |a| % 8 == 0
    ensures BytesOf(a + t) == BytesOf(a) + BytesOf(t)
    decreases |a|
  {
    if |a| == 0 {
      assert a + t == t;
    } else {
      assert (a + t)[..8] == a[..8];
      assert (a + t)[8..] == a[8..] + t;
      BytesOfAppend(a[8..], t);
    }
  }

  /** Reading bytes back from their bits, with fewer than eight extra bits behind them, gives
      the bytes. */
  lemma {:induction false} BytesOfByteBits(bytes: seq<byte>, tail: seq<bit>)
    requires |tail| < 8
    ensures BytesOf(ByteBits(bytes) + tail) == bytes
    decreases |bytes|
  {
    if |bytes| == 0 {
      assert ByteBits(bytes) + tail == tail;
    } else {
      var init, b := bytes[..|bytes| - 1], bytes[|bytes| - 1];
      var last := BitsOf(b, ByteWidth);
      assert ByteBits(bytes) + tail == ByteBits(init) + (last + tail);
      BytesOfAppend(ByteBits(init), last + tail);
      BytesOfByteBits(init, []);
      assert ByteBits(init) + [] == ByteBits(init);
      assert (last + tail)[..8] == last;
      assert (last + tail)[8..] == tail;
      assert BytesOf(last + tail) == [Value(last)] + BytesOf(tail);
      ByteWidthPow();
      ModUnique(b, 0, b, Pow2(ByteWidth));
      ValueBitsOf(b, ByteWidth);
      assert Value(last) == b;
      assert bytes == init + [b];
    }
  }
}
