/** Facts about Euclidean division and remainder by positive divisors, used to follow the
    shift-and-mask arithmetic of the bit-level codecs. */
module Arith {
  lemma MulCancelLt(a: int, b: int, p: int)
    requires p > 0 && a * p < b * p
    ensures a < b
  {
  }

  lemma MulLe(a: int, b: int, m: int)
    requires m > 0 && a <= b
    ensures a * m <= b * m
  {
  }

  lemma Distrib(x: int, p: int, y: int, m: int)
    ensures (x * p + y) * m == x * (m * p) + y * m
  {
  }

  /** Quotient and remainder are determined by `x == q * d + r` with `0 <= r < d`. */
  lemma ModUnique(x: int, q: int, r: int, d: int)
    requires d > 0 && x == q * d + r && 0 <= r < d
    ensures x / d == q && x % d == r
  {
    var q2, r2 := x / d, x % d;
    assert x == q2 * d + r2;
    assert q2 * d < (q + 1) * d;
    MulCancelLt(q2, q + 1, d);
    assert q * d < (q2 + 1) * d;
    MulCancelLt(q, q2 + 1, d);
  }

  /** Shifting `x` left by a factor `m` and filling in `r` below, then keeping the low
      `d * m`, is keeping the low `d` of `x` before the shift. */
  lemma ShiftInMod(x: int, d: int, m: int, r: int)
    requires d > 0 && m > 0 && 0 <= r < m
    ensures (x * m + r) % (d * m) == (x % d) * m + r
  {
    var q := x / d;
    var s := x % d;
    assert x == q * d + s && 0 <= s < d;
    assert x * m == (q * d) * m + s * m by {
      MulAddRight(q * d, s, m);
    }
    assert (q * d) * m == q * (d * m) by {
      MulAssoc(q, d, m);
    }
    assert s * m + r < d * m by {
      MulLe(s + 1, d, m);
    }
    ModUnique(x * m + r, q, s * m + r, d * m);
  }

  lemma MulAddRight(a: int, b: int, m: int)
    ensures (a + b) * m == a * m + b * m
  {
  }

  lemma MulAssoc(a: int, b: int, c: int)
    ensures (a * b) * c == a * (b * c)
  {
  }

  /** Keeping the low `d * m` and then the low `d` is keeping the low `d`. */
  lemma ModMod(x: int, d: int, m: int)
    requires d > 0 && m > 0
    ensures (x % (d * m)) % d == x % d
  {
    var q := x / (d * m);
    var r := x % (d * m);
    assert x == q * (d * m) + r;
    var q2 := r / d;
    var r2 := r % d;
    assert r == q2 * d + r2 && 0 <= r2 < d;
    assert x == (q * m + q2) * d + r2;
    ModUnique(x, q * m + q2, r2, d);
  }

  /** A right shift followed by a mask reads the same digits as a mask followed by a shift. */
  lemma DivMod(x: int, p: int, q: int)
    requires p > 0 && q > 0
    ensures (x / p) % q == (x % (p * q)) / p
  {
    var a := x / (p * q);
    var r := x % (p * q);
    assert x == a * (p * q) + r && 0 <= r < p * q;
    var b := r / p;
    var c := r % p;
    assert r == b * p + c && 0 <= c < p;
    assert b * p < q * p;
    MulCancelLt(b, q, p);
    assert x == (a * q + b) * p + c;
    ModUnique(x, a * q + b, c, p);
    ModUnique(a * q + b, a, b, q);
  }
}
