/** Sequence operations shared by the JavaScript and the Python parts of the model:
    joining and splitting, counting, de-duplication in first-occurrence order, and
    positional digits of a natural number. */
module Text {

  /** A byte, as held by a Python `bytes` object or a JavaScript `Uint8Array`. */
  type byte = x: int | 0 <= x < 0x100

  /** `parts` with `sep` between consecutive parts (`Array.prototype.join`, `str.join`).
      With an empty separator this is plain concatenation. */
  function Join<T>(parts: seq<seq<T>>, sep: seq<T>): seq<T>
    decreases |parts|
  {
    if |parts| == 0 then []
    else if |parts| == 1 then parts[0]
    else parts[0] + sep + Join(parts[1..], sep)
  }

  lemma {:induction false} JoinLength<T>(parts: seq<seq<T>>, sep: seq<T>, each: nat)
    requires forall k | 0 <= k < |parts| :: |parts[k]| == each
    ensures |parts| > 0 ==> |Join(parts, sep)| == |parts| * each + (|parts| - 1) * |sep|
    ensures |parts| == 0 ==> Join(parts, sep) == []
    decreases |parts|
  {
    if |parts| > 1 {
      JoinLength(parts[1..], sep, each);
    }
  }

  /** Every element of a join comes from a part or from the separator. */
  lemma {:induction false} JoinElements<T>(parts: seq<seq<T>>, sep: seq<T>, P: T -> bool)
    requires forall k, j | 0 <= k < |parts| && 0 <= j < |parts[k]| :: P(parts[k][j])
    requires forall j | 0 <= j < |sep| :: P(sep[j])
    ensures forall j | 0 <= j < |Join(parts, sep)| :: P(Join(parts, sep)[j])
    decreases |parts|
  {
    if |parts| > 1 {
      JoinElements(parts[1..], sep, P);
      var rest := Join(parts[1..], sep);
      assert Join(parts, sep) == parts[0] + sep + rest;
      forall j | 0 <= j < |Join(parts, sep)| ensures P(Join(parts, sep)[j]) {
        if j < |parts[0]| {
          assert Join(parts, sep)[j] == parts[0][j];
        } else if j < |parts[0]| + |sep| {
          assert Join(parts, sep)[j] == sep[j - |parts[0]|];
        } else {
          assert Join(parts, sep)[j] == rest[j - |parts[0]| - |sep|];
        }
      }
    }
  }

  lemma {:induction false} JoinAppend<T>(parts: seq<seq<T>>, last: seq<T>, sep: seq<T>)
    requires |parts| > 0
    ensures Join(parts + [last], sep) == Join(parts, sep) + sep + last
    decreases |parts|
  {
    if |parts| == 1 {
      assert parts + [last] == [parts[0], last];
      assert (parts + [last])[1..] == [last];
    } else {
      assert (parts + [last])[1..] == parts[1..] + [last];
      JoinAppend(parts[1..], last, sep);
    }
  }

  lemma {:induction false} ConcatAppend<T>(parts: seq<seq<T>>, last: seq<T>)
    ensures Join(parts + [last], []) == Join(parts, []) + last
  {
    if |parts| == 0 {
      assert parts + [last] == [last];
    } else {
      JoinAppend(parts, last, []);
    }
  }

  lemma JoinCons<T>(x: seq<T>, rest: seq<seq<T>>)
    ensures Join([x] + rest, []) == x + Join(rest, [])
  {
    if |rest| == 0 {
      assert [x] + rest == [x];
    } else {
      assert ([x] + rest)[1..] == rest;
    }
  }

  /** The index of the first occurrence of `x` in `s`. */
  function IndexOf<T(==)>(s: seq<T>, x: T): (i: nat)
    requires x in s
    ensures i < |s| && s[i] == x && x !in s[..i]
  {
    if s[0] == x then 0 else
      var i := IndexOf(s[1..], x);
      assert s[..i + 1] == [s[0]] + s[1..][..i];
      i + 1
  }

  /** The pieces of `s` between occurrences of `sep` (`String.prototype.split` and `str.split`
      with a one-character separator): always at least one piece, possibly empty ones. */
  function SplitOn<T(==)>(s: seq<T>, sep: T): (r: seq<seq<T>>)
    ensures |r| >= 1
    ensures forall k | 0 <= k < |r| :: sep !in r[k]
    decreases |s|
  {
    if sep !in s then [s]
    else
      var i := IndexOf(s, sep);
      [s[..i]] + SplitOn(s[i + 1..], sep)
  }

  lemma {:induction false} JoinSplitOn<T>(s: seq<T>, sep: T)
    ensures Join(SplitOn(s, sep), [sep]) == s
    decreases |s|
  {
    if sep in s {
      var i := IndexOf(s, sep);
      var head, rest := s[..i], s[i + 1..];
      var tail := SplitOn(rest, sep);
      var parts := [head] + tail;
      assert SplitOn(s, sep) == parts;
      assert parts[1..] == tail;
      JoinSplitOn(rest, sep);
      assert Join(parts, [sep]) == head + [sep] + Join(tail, [sep]);
      assert s == head + [sep] + rest;
    }
  }

  /** The first occurrence of `x` is at `j` when `x` is at `j` and nowhere before. */
  lemma {:induction false} IndexOfAt<T>(s: seq<T>, x: T, j: nat)
    requires j < |s| && s[j] == x && x !in s[..j]
    ensures IndexOf(s, x) == j
    decreases j
  {
    if j > 0 {
      assert s[0] == s[..j][0];
      assert s[1..][..j - 1] == s[..j][1..];
      IndexOfAt(s[1..], x, j - 1);
    }
  }

  lemma {:induction false} SplitOnJoin<T>(parts: seq<seq<T>>, sep: T)
    requires |parts| >= 1
    requires forall k | 0 <= k < |parts| :: sep !in parts[k]
    ensures SplitOn(Join(parts, [sep]), sep) == parts
    decreases |parts|
  {
    if |parts| > 1 {
      var s := Join(parts, [sep]);
      var rest := Join(parts[1..], [sep]);
      assert s == parts[0] + [sep] + rest;
      assert s[|parts[0]|] == sep;
      assert s[..|parts[0]|] == parts[0];
      IndexOfAt(s, sep, |parts[0]|);
      assert s[|parts[0]| + 1..] == rest;
      SplitOnJoin(parts[1..], sep);
    }
  }

  /** Concatenating the one-element pieces of `s` gives `s`. */
  lemma {:induction false} JoinSingletons<T>(s: seq<T>)
    ensures Join(seq(|s|, k requires 0 <= k < |s| => [s[k]]), []) == s
    decreases |s|
  {
    var parts := seq(|s|, k requires 0 <= k < |s| => [s[k]]);
    if |s| > 1 {
      var tail := seq(|s| - 1, k requires 0 <= k < |s| - 1 => [s[1..][k]]);
      assert parts[1..] == tail;
      JoinSingletons(s[1..]);
      assert Join(parts, []) == [s[0]] + [] + Join(tail, []);
      assert s == [s[0]] + s[1..];
    }
  }

  /** Number of elements of `s` equal to `x`. */
  function CountOf<T(==)>(s: seq<T>, x: T): (n: nat)
    ensures n <= |s|
    ensures n == |s| - CountNot(s, x)
  {
    if |s| == 0 then 0 else CountOf(s[..|s| - 1], x) + (if s[|s| - 1] == x then 1 else 0)
  }

  function CountNot<T(==)>(s: seq<T>, x: T): nat
  {
    if |s| == 0 then 0 else CountNot(s[..|s| - 1], x) + (if s[|s| - 1] == x then 0 else 1)
  }

  lemma {:induction false} CountOfAppend<T>(s: seq<T>, t: seq<T>, x: T)
    ensures CountOf(s + t, x) == CountOf(s, x) + CountOf(t, x)
    decreases |t|
  {
    if |t| > 0 {
      assert (s + t)[..|s + t| - 1] == s + t[..|t| - 1];
      CountOfAppend(s, t[..|t| - 1], x);
    } else {
      assert s + t == s;
    }
  }

  lemma {:induction false} CountOfPositive<T>(s: seq<T>, x: T)
    requires x in s
    ensures CountOf(s, x) >= 1
    decreases |s|
  {
    if s[|s| - 1] != x {
      assert s == s[..|s| - 1] + [s[|s| - 1]];
      assert x in s[..|s| - 1];
      CountOfPositive(s[..|s| - 1], x);
    }
  }

  /** Number of non-overlapping occurrences of a non-empty `pat`, scanning from the left
      (Python's `bytes.count`, the length of a JavaScript global `match` of a literal). */
  function CountSub<T(==)>(s: seq<T>, pat: seq<T>): (n: nat)
    requires |pat| > 0
    ensures n * |pat| <= |s|
    decreases |s|
  {
    if |s| < |pat| then 0
    else if s[..|pat|] == pat then 1 + CountSub(s[|pat|..], pat)
    else CountSub(s[1..], pat)
  }

  /** True when `pat` occurs in `s` starting at index `i`. */
  predicate SubAt<T(==)>(s: seq<T>, i: nat, pat: seq<T>)
  {
    i + |pat| <= |s| && s[i..i + |pat|] == pat
  }

  /** `pat` occurs somewhere in `s` (`pat in s` for Python strings, `includes` in JavaScript). */
  predicate HasSub<T(==)>(s: seq<T>, pat: seq<T>)
  {
    exists i | 0 <= i <= |s| :: SubAt(s, i, pat)
  }

  predicate StartsWith<T(==)>(s: seq<T>, pre: seq<T>)
  {
    |pre| <= |s| && s[..|pre|] == pre
  }

  predicate EndsWith<T(==)>(s: seq<T>, suf: seq<T>)
  {
    |suf| <= |s| && s[|s| - |suf|..] == suf
  }

  predicate NoDuplicates<T(==)>(s: seq<T>)
  {
    forall i, j | 0 <= i < j < |s| :: s[i] != s[j]
  }

  /** The distinct elements of `s` in the order of their first occurrence
      (`[...new Set(s)]` in JavaScript, a `dict`/`Counter` key order in Python). */
  function Distinct<T(==)>(s: seq<T>): (r: seq<T>)
    ensures NoDuplicates(r)
    ensures forall i | 0 <= i < |r| :: r[i] in s
    ensures forall i | 0 <= i < |s| :: s[i] in r
    ensures |r| <= |s|
    decreases |s|
  {
    if |s| == 0 then []
    else
      var d := Distinct(s[..|s| - 1]);
      assert forall i | 0 <= i < |s| - 1 :: s[i] == s[..|s| - 1][i];
      if s[|s| - 1] in d then d else d + [s[|s| - 1]]
  }

  /** `Distinct` of a prefix is a prefix of `Distinct`: values keep their first-occurrence
      order. */
  lemma {:induction false} DistinctPrefix<T>(s: seq<T>, k: nat)
    requires k <= |s|
    ensures var d := Distinct(s[..k]);
      |d| <= |Distinct(s)| && Distinct(s)[..|d|] == d
    decreases |s| - k
  {
    if k < |s| {
      DistinctPrefix(s, k + 1);
      var d0 := Distinct(s[..k]);
      var d1 := Distinct(s[..k + 1]);
      assert s[..k + 1][..|s[..k + 1]| - 1] == s[..k];
      assert d1[..|d0|] == d0;
      assert Distinct(s)[..|d0|] == Distinct(s)[..|d1|][..|d0|];
    } else {
      assert s[..k] == s;
    }
  }

  /** A value that first occurs before `b` comes before `b` in `Distinct`. */
  lemma DistinctOrder<T>(s: seq<T>, b: T, i: nat, j: nat)
    requires b in s && i < |Distinct(s)| && j < |Distinct(s)| && Distinct(s)[j] == b
    requires Distinct(s)[i] in s[..IndexOf(s, b)]
    ensures i < j
  {
    var ds := Distinct(s);
    var k := IndexOf(s, b);
    var d := Distinct(s[..k]);
    DistinctPrefix(s, k);
    assert forall t | 0 <= t < |d| :: ds[t] == d[t];
    var x := ds[i];
    var u :| 0 <= u < k && s[..k][u] == x;
    var i' :| 0 <= i' < |d| && d[i'] == x;
    assert ds[i'] == x;
    assert forall t | 0 <= t < |d| :: d[t] in s[..k];
    assert forall t | 0 <= t < |d| :: ds[t] != b;
  }

  /** The first occurrence of a value in a prefix is its first occurrence in the whole. */
  lemma {:induction false} IndexOfPrefix<T>(s: seq<T>, k: nat, x: T)
    requires k <= |s| && x in s[..k]
    ensures x in s && IndexOf(s, x) == IndexOf(s[..k], x)
  {
    var b := IndexOf(s[..k], x);
    assert s[b] == x;
    var a := IndexOf(s, x);
    assert s[..k][..b] == s[..b];
    assert s[..a][..a] == s[..a];
  }

  /** A value absent from `s[..|s| - 1]` first occurs at the last position. */
  lemma {:induction false} IndexOfLast<T>(s: seq<T>)
    requires |s| > 0 && s[|s| - 1] !in s[..|s| - 1]
    ensures IndexOf(s, s[|s| - 1]) == |s| - 1
  {
    assert forall j | 0 <= j < |s| - 1 :: s[j] == s[..|s| - 1][j];
  }

  /** `Distinct` lists the values in the order of their first occurrences in `s`. */
  lemma {:induction false} DistinctFirstOrder<T>(s: seq<T>)
    ensures forall i, j | 0 <= i < j < |Distinct(s)| ::
      IndexOf(s, Distinct(s)[i]) < IndexOf(s, Distinct(s)[j])
    decreases |s|
  {
    if |s| > 0 {
      var t := s[..|s| - 1];
      DistinctFirstOrder(t);
      forall i, j | 0 <= i < j < |Distinct(s)|
        ensures IndexOf(s, Distinct(s)[i]) < IndexOf(s, Distinct(s)[j])
      {
        FirstOrderStep(s, i, j);
      }
    }
  }

  /** The step of `DistinctFirstOrder`: given the order on `s` without its last element. */
  lemma {:induction false} FirstOrderStep<T>(s: seq<T>, i: nat, j: nat)
    requires |s| > 0 && i < j < |Distinct(s)|
    requires var t := s[..|s| - 1];
      forall i, j | 0 <= i < j < |Distinct(t)| ::
        IndexOf(t, Distinct(t)[i]) < IndexOf(t, Distinct(t)[j])
    ensures IndexOf(s, Distinct(s)[i]) < IndexOf(s, Distinct(s)[j])
  {
    var t := s[..|s| - 1];
    var d, r := Distinct(t), Distinct(s);
    assert r[..|d|] == d;
    assert r[i] == d[i] && d[i] in t;
    IndexOfPrefix(s, |s| - 1, r[i]);
    if j < |d| {
      assert r[j] == d[j] && d[j] in t;
      IndexOfPrefix(s, |s| - 1, r[j]);
    } else {
      IndexOfLast(s);
    }
  }

  /** Reversal (`split('').reverse().join('')`). */
  function Reverse<T>(s: seq<T>): (r: seq<T>)
    ensures |r| == |s|
    ensures forall i | 0 <= i < |s| :: r[i] == s[|s| - 1 - i]
  {
    if |s| == 0 then [] else Reverse(s[1..]) + [s[0]]
  }

  lemma ReverseInvolution<T>(s: seq<T>)
    ensures Reverse(Reverse(s)) == s
  {
    assert |Reverse(Reverse(s))| == |s|;
    forall i | 0 <= i < |s| ensures Reverse(Reverse(s))[i] == s[i] {
      assert Reverse(Reverse(s))[i] == Reverse(s)[|s| - 1 - i];
    }
  }

  /** Value of a digit sequence, most significant digit first. */
  function DigitsValue(ds: seq<nat>, base: nat): nat
  {
    if |ds| == 0 then 0 else DigitsValue(ds[..|ds| - 1], base) * base + ds[|ds| - 1]
  }

  /** The positional digits of `n` in `base`, most significant first, without leading zeros
      (one `0` digit for zero): what `Number.prototype.toString(base)` and Python's
      `str`/`format` print, before each digit is turned into a character. */
  function Digits(n: nat, base: nat): (ds: seq<nat>)
    requires base >= 2
    ensures |ds| >= 1
    ensures forall k | 0 <= k < |ds| :: ds[k] < base
    ensures DigitsValue(ds, base) == n
    ensures n > 0 ==> ds[0] != 0
    ensures n < base <==> |ds| == 1
    decreases n
  {
    if n < base then [n]
    else
      DivFacts(n, base);
      var front := Digits(n / base, base);
      var ds := front + [n % base];
      assert ds[..|ds| - 1] == front;
      ds
  }

  lemma DivFacts(n: nat, base: nat)
    requires base >= 2 && n >= base
    ensures n == (n / base) * base + n % base && n % base < base && 1 <= n / base < n
  {
  }

  /** A natural number below `base^width` has at most `width` digits. */
  lemma {:induction false} DigitsWidth(n: nat, base: nat, width: nat)
    requires base >= 2 && width >= 1
    requires n < Power(base, width)
    ensures |Digits(n, base)| <= width
    decreases width
  {
    if n >= base {
      assert Power(base, 1) == base;
      assert width > 1;
      assert n / base < Power(base, width - 1) by {
        DivBound(n, base, Power(base, width - 1));
      }
      DigitsWidth(n / base, base, width - 1);
    }
  }

  function Power(b: nat, e: nat): nat
  {
    if e == 0 then 1 else b * Power(b, e - 1)
  }

  lemma DivBound(n: nat, d: nat, p: nat)
    requires d >= 1 && n < d * p
    ensures n / d < p
  {
    var q := n / d;
    assert d * q <= n;
    assert d * q < d * p;
    assert d * (p - q) > 0;
  }

  /** The elements of `s` that satisfy `keep`, in order (a global `replace` of a negated
      character class by the empty string). */
  function Filter<T>(s: seq<T>, keep: T -> bool): (r: seq<T>)
    ensures |r| <= |s|
    ensures forall k | 0 <= k < |r| :: keep(r[k])
    ensures (forall k | 0 <= k < |s| :: keep(s[k])) ==> r == s
    ensures (forall k | 0 <= k < |s| :: !keep(s[k])) ==> r == []
  {
    if |s| == 0 then [] else (if keep(s[0]) then [s[0]] else []) + Filter(s[1..], keep)
  }

  lemma {:induction false} FilterAppend<T>(s: seq<T>, t: seq<T>, keep: T -> bool)
    ensures Filter(s + t, keep) == Filter(s, keep) + Filter(t, keep)
    decreases |s|
  {
    if |s| == 0 {
      assert s + t == t;
    } else {
      assert (s + t)[1..] == s[1..] + t;
      FilterAppend(s[1..], t, keep);
    }
  }

  /** Filtering a join drops a separator that `keep` rejects. */
  lemma {:induction false} FilterJoin<T>(parts: seq<seq<T>>, sep: seq<T>, keep: T -> bool)
    requires forall k, j | 0 <= k < |parts| && 0 <= j < |parts[k]| :: keep(parts[k][j])
    requires forall j | 0 <= j < |sep| :: !keep(sep[j])
    ensures Filter(Join(parts, sep), keep) == Join(parts, [])
    decreases |parts|
  {
    if |parts| == 1 {
      assert Join(parts, sep) == parts[0];
    } else if |parts| > 1 {
      FilterJoin(parts[1..], sep, keep);
      FilterAppend(parts[0] + sep, Join(parts[1..], sep), keep);
      FilterAppend(parts[0], sep, keep);
      FilterNone(sep, keep);
    }
  }

  /** Dropped elements around `r` leave only what `r` keeps. */
  lemma {:induction false} FilterBetween<T>(a: seq<T>, r: seq<T>, b: seq<T>, keep: T -> bool)
    requires forall k | 0 <= k < |a| :: !keep(a[k])
    requires forall k | 0 <= k < |b| :: !keep(b[k])
    ensures Filter(a + r + b, keep) == Filter(r, keep)
  {
    FilterNone(a, keep);
    FilterNone(b, keep);
    FilterAppend(a + r, b, keep);
    FilterAppend(a, r, keep);
  }

  lemma {:induction false} FilterNone<T>(s: seq<T>, keep: T -> bool)
    requires forall j | 0 <= j < |s| :: !keep(s[j])
    ensures Filter(s, keep) == []
    decreases |s|
  {
    if |s| > 0 {
      FilterNone(s[1..], keep);
    }
  }

  function Repeat<T>(x: T, n: nat): (r: seq<T>)
    ensures |r| == n && forall k | 0 <= k < n :: r[k] == x
  {
    if n == 0 then [] else [x] + Repeat(x, n - 1)
  }

  /** One more element at the back of a repetition. */
  lemma RepeatSnoc<T>(x: T, n: nat)
    ensures Repeat(x, n) + [x] == Repeat(x, n + 1)
  {
    assert (Repeat(x, n) + [x])[0..n] == Repeat(x, n);
  }

  /** Leading zero digits do not change a value. */
  lemma {:induction false} LeadingZeros(m: nat, ds: seq<nat>, base: nat)
    ensures DigitsValue(Repeat<nat>(0, m) + ds, base) == DigitsValue(ds, base)
    decreases |ds|
  {
    var z := Repeat<nat>(0, m);
    if |ds| == 0 {
      assert z + ds == z;
      ZerosValue(m, base);
    } else {
      var s := z + ds;
      assert s[..|s| - 1] == z + ds[..|ds| - 1];
      LeadingZeros(m, ds[..|ds| - 1], base);
    }
  }

  lemma {:induction false} ZerosValue(m: nat, base: nat)
    ensures DigitsValue(Repeat<nat>(0, m), base) == 0
    decreases m
  {
    if m > 0 {
      var z: seq<nat> := Repeat<nat>(0, m);
      assert z[..m - 1] == Repeat<nat>(0, m - 1);
      ZerosValue(m - 1, base);
      assert DigitsValue(z, base) == DigitsValue(z[..m - 1], base) * base + z[m - 1];
    }
  }

  /** A kept element makes the filtered sequence non-empty. */
  lemma {:induction false} FilterKeeps<T>(s: seq<T>, keep: T -> bool, i: nat)
    requires i < |s| && keep(s[i])
    ensures |Filter(s, keep)| > 0
    decreases i
  {
    if i > 0 && !keep(s[0]) {
      FilterKeeps(s[1..], keep, i - 1);
    }
  }

  /** The end of the run of elements satisfying `p` that starts at `i`. */
  function RunEnd<T>(s: seq<T>, i: nat, p: T -> bool): (j: nat)
    requires i <= |s|
    ensures i <= j <= |s|
    ensures forall k | i <= k < j :: p(s[k])
    ensures j < |s| ==> !p(s[j])
    decreases |s| - i
  {
    if i < |s| && p(s[i]) then RunEnd(s, i + 1, p) else i
  }

  predicate AllAre<T>(s: seq<T>, p: T -> bool)
  {
    forall k | 0 <= k < |s| :: p(s[k])
  }

  lemma AllAreSnoc<T>(s: seq<T>, p: T -> bool)
    requires |s| > 0
    ensures AllAre(s, p) <==> AllAre(s[..|s| - 1], p) && p(s[|s| - 1])
  {
    assert forall k | 0 <= k < |s| - 1 :: s[..|s| - 1][k] == s[k];
  }

  predicate KeptAre<T>(s: seq<T>, keep: T -> bool, p: T -> bool)
  {
    forall k | 0 <= k < |s| :: keep(s[k]) ==> p(s[k])
  }

  lemma AllAreCons<T>(x: T, t: seq<T>, p: T -> bool)
    ensures AllAre([x] + t, p) <==> p(x) && AllAre(t, p)
  {
    var s := [x] + t;
    assert s[0] == x;
    assert forall k | 0 <= k < |t| :: s[k + 1] == t[k];
    if p(x) && AllAre(t, p) {
      forall k | 0 <= k < |s| ensures p(s[k]) {
        if k > 0 { assert s[k] == t[k - 1]; }
      }
    }
  }

  lemma KeptAreCons<T>(s: seq<T>, keep: T -> bool, p: T -> bool)
    requires |s| > 0
    ensures KeptAre(s, keep, p) <==> (keep(s[0]) ==> p(s[0])) && KeptAre(s[1..], keep, p)
  {
    assert forall k | 0 <= k < |s| - 1 :: s[1..][k] == s[k + 1];
  }

  lemma {:induction false} FilterAllAre<T>(s: seq<T>, keep: T -> bool, p: T -> bool)
    ensures AllAre(Filter(s, keep), p) <==> KeptAre(s, keep, p)
    decreases |s|
  {
    if |s| > 0 {
      FilterAllAre(s[1..], keep, p);
      KeptAreCons(s, keep, p);
      var rest := Filter(s[1..], keep);
      if keep(s[0]) {
        assert Filter(s, keep) == [s[0]] + rest;
        AllAreCons(s[0], rest, p);
      } else {
        assert Filter(s, keep) == rest;
      }
    } else {
      assert |Filter(s, keep)| == 0;
    }
  }

  /** Filtering keeps a sequence whose every element is kept. */
  lemma FilterKeepsAll<T>(s: seq<T>, keep: T -> bool)
    requires AllAre(s, keep)
    ensures Filter(s, keep) == s
  {
  }

  /** Every element that survives a filter has a property exactly when every kept element of
      the original has it. */
  lemma FilterAll<T>(s: seq<T>, keep: T -> bool, p: T -> bool)
    ensures (forall k | 0 <= k < |Filter(s, keep)| :: p(Filter(s, keep)[k])) <==> (forall k | 0 <= k < |s| :: keep(s[k]) ==> p(s[k]))
  {
    FilterAllAre(s, keep, p);
  }

  /** `s.replace(/pat/g, rep)` for a literal, non-empty pattern: the occurrences are found from
      left to right, each search resuming after the previous occurrence. */
  function ReplaceAll<T(==)>(s: seq<T>, pat: seq<T>, rep: seq<T>): seq<T>
    requires |pat| > 0
    decreases |s|
  {
    if |s| < |pat| then s
    else if s[..|pat|] == pat then rep + ReplaceAll(s[|pat|..], pat, rep)
    else [s[0]] + ReplaceAll(s[1..], pat, rep)
  }

  /** Without the first element of the pattern there is nothing to replace. */
  lemma {:induction false} ReplaceAllAbsent<T>(s: seq<T>, pat: seq<T>, rep: seq<T>)
    requires |pat| > 0 && pat[0] !in s
    ensures ReplaceAll(s, pat, rep) == s
    decreases |s|
  {
    if |s| >= |pat| {
      assert s[..|pat|][0] == s[0] != pat[0];
      ReplaceAllAbsent(s[1..], pat, rep);
      assert s == [s[0]] + s[1..];
    }
  }

  /** Replacing a single element works element by element, so it distributes over
      concatenation. */
  lemma {:induction false} ReplaceAllAppend<T>(a: seq<T>, b: seq<T>, c: T, rep: seq<T>)
    ensures ReplaceAll(a + b, [c], rep) == ReplaceAll(a, [c], rep) + ReplaceAll(b, [c], rep)
    decreases |a|
  {
    if |a| > 0 {
      assert (a + b)[..1] == a[..1] == [a[0]];
      assert (a + b)[1..] == a[1..] + b;
      ReplaceAllAppend(a[1..], b, c, rep);
    } else {
      assert a + b == b;
    }
  }

  /** Replacing a single element by text without it leaves no occurrence of it. */
  lemma {:induction false} ReplaceAllGone<T>(s: seq<T>, c: T, rep: seq<T>)
    requires c !in rep
    ensures c !in ReplaceAll(s, [c], rep)
    decreases |s|
  {
    if |s| >= 1 {
      ReplaceAllGone(s[1..], c, rep);
      if s[..1] != [c] {
        assert s[0] != c by { assert s[..1][0] == s[0]; }
      }
    }
  }

  /** The replacement brings in none of the elements that neither the text nor the
      replacement holds. */
  lemma {:induction false} ReplaceAllKeepsOut<T>(s: seq<T>, c: T, rep: seq<T>, d: T)
    requires d !in s && d !in rep
    ensures d !in ReplaceAll(s, [c], rep)
    decreases |s|
  {
    if |s| >= 1 {
      assert d !in s[1..] by {
        assert forall k | 0 <= k < |s| - 1 :: s[1..][k] == s[k + 1];
      }
      ReplaceAllKeepsOut(s[1..], c, rep, d);
    }
  }

  /** Filters that agree on every element keep the same elements. */
  lemma {:induction false} FilterAgree<T>(s: seq<T>, p: T -> bool, q: T -> bool)
    requires forall k | 0 <= k < |s| :: p(s[k]) == q(s[k])
    ensures Filter(s, p) == Filter(s, q)
    decreases |s|
  {
    if |s| > 0 {
      assert forall k | 1 <= k < |s| :: s[1..][k - 1] == s[k];
      FilterAgree(s[1..], p, q);
    }
  }

  // A stable insertion sort (`Array.prototype.sort` and Python's `sorted` are stable)

  /** `x` inserted before the first element whose key is not smaller. */
  function InsertBy<T>(x: T, s: seq<T>, key: T -> int): (r: seq<T>)
    ensures multiset(r) == multiset(s) + multiset{x}
  {
    if |s| == 0 then [x]
    else if key(x) <= key(s[0]) then [x] + s
    else
      assert s == [s[0]] + s[1..];
      [s[0]] + InsertBy(x, s[1..], key)
  }

  /** Insertion sort by increasing key. */
  function SortBy<T>(s: seq<T>, key: T -> int): (r: seq<T>)
    ensures multiset(r) == multiset(s)
  {
    if |s| == 0 then []
    else
      assert s == [s[0]] + s[1..];
      InsertBy(s[0], SortBy(s[1..], key), key)
  }

  predicate Ascending<T>(s: seq<T>, key: T -> int)
  {
    forall i, j | 0 <= i < j < |s| :: key(s[i]) <= key(s[j])
  }

  lemma {:induction false} InsertByAscending<T>(x: T, s: seq<T>, key: T -> int)
    requires Ascending(s, key)
    ensures Ascending(InsertBy(x, s, key), key)
    decreases |s|
  {
    if |s| > 0 && key(x) > key(s[0]) {
      var rest := InsertBy(x, s[1..], key);
      assert Ascending(s[1..], key) by {
        forall i, j | 0 <= i < j < |s| - 1 ensures key(s[1..][i]) <= key(s[1..][j]) {
          assert s[1..][i] == s[i + 1] && s[1..][j] == s[j + 1];
        }
      }
      InsertByAscending(x, s[1..], key);
      forall j | 0 <= j < |rest| ensures key(s[0]) <= key(rest[j]) {
        assert rest[j] in multiset(rest);
        if rest[j] != x {
          assert rest[j] in multiset(s[1..]);
          var m :| 0 <= m < |s[1..]| && s[1..][m] == rest[j];
          assert s[m + 1] == rest[j];
        }
      }
      assert InsertBy(x, s, key) == [s[0]] + rest;
    }
  }

  /** The sort orders by key. */
  lemma {:induction false} SortByAscending<T>(s: seq<T>, key: T -> int)
    ensures Ascending(SortBy(s, key), key)
    decreases |s|
  {
    if |s| > 0 {
      SortByAscending(s[1..], key);
      InsertByAscending(s[0], SortBy(s[1..], key), key);
    }
  }

  /** The elements whose key is `c`. */
  function KeyIs<T>(key: T -> int, c: int): T -> bool
  {
    x => key(x) == c
  }

  lemma FilterCons<T>(x: T, s: seq<T>, keep: T -> bool)
    ensures Filter([x] + s, keep) == (if keep(x) then [x] else []) + Filter(s, keep)
  {
    assert ([x] + s)[1..] == s;
  }

  lemma {:induction false} InsertByFilter<T>(x: T, s: seq<T>, key: T -> int, c: int)
    ensures Filter(InsertBy(x, s, key), KeyIs(key, c)) == (if key(x) == c then [x] else []) + Filter(s, KeyIs(key, c))
    decreases |s|
  {
    var p := KeyIs(key, c);
    if |s| == 0 {
      FilterCons(x, [], p);
    } else if key(x) <= key(s[0]) {
      FilterCons(x, s, p);
    } else {
      var y, t := s[0], s[1..];
      InsertByFilter(x, t, key, c);
      assert s == [y] + t;
      assert InsertBy(x, s, key) == [y] + InsertBy(x, t, key);
      FilterPast(y, InsertBy(x, t, key), t, p, if key(x) == c then [x] else []);
    }
  }

  /** Putting `y` in front of two sequences that filter alike, up to a prefix `f` of kept
      elements that `y` must come after, keeps them alike. */
  lemma FilterPast<T>(y: T, r: seq<T>, t: seq<T>, keep: T -> bool, f: seq<T>)
    requires Filter(r, keep) == f + Filter(t, keep)
    requires f == [] || !keep(y)
    ensures Filter([y] + r, keep) == f + Filter([y] + t, keep)
  {
    FilterCons(y, r, keep);
    FilterCons(y, t, keep);
    var fr, ft := Filter(r, keep), Filter(t, keep);
    if keep(y) {
      assert f == [];
      assert Filter([y] + r, keep) == [y] + fr;
      assert fr == ft;
    } else {
      assert Filter([y] + r, keep) == [] + fr == fr;
      assert Filter([y] + t, keep) == [] + ft == ft;
    }
  }

  /** The sort is stable: the elements of one key keep their order. */
  lemma {:induction false} SortByStable<T>(s: seq<T>, key: T -> int, c: int)
    ensures Filter(SortBy(s, key), KeyIs(key, c)) == Filter(s, KeyIs(key, c))
    decreases |s|
  {
    if |s| > 0 {
      SortByStable(s[1..], key, c);
      InsertByFilter(s[0], SortBy(s[1..], key), key, c);
    }
  }

  /** A sequence without duplicates holds each value at most once. */
  lemma {:induction false} AtMostOnce<T>(a: seq<T>)
    requires NoDuplicates(a)
    ensures forall x :: multiset(a)[x] <= 1
    decreases |a|
  {
    if |a| > 0 {
      var t := a[1..];
      assert NoDuplicates(t) by {
        forall i, j | 0 <= i < j < |t| ensures t[i] != t[j] {
          assert t[i] == a[i + 1] && t[j] == a[j + 1];
        }
      }
      AtMostOnce(t);
      assert a[0] !in multiset(t) by {
        forall m | 0 <= m < |t| ensures t[m] != a[0] {
          assert t[m] == a[m + 1];
        }
      }
      assert a == [a[0]] + t;
    }
  }

  /** A rearrangement of a sequence without duplicates has none. */
  lemma PermNoDuplicates<T>(a: seq<T>, b: seq<T>)
    requires NoDuplicates(a) && multiset(a) == multiset(b)
    ensures NoDuplicates(b)
  {
    AtMostOnce(a);
    forall i, j | 0 <= i < j < |b| ensures b[i] != b[j] {
      assert b == b[..j] + b[j..];
      assert b[i] in multiset(b[..j]);
      assert multiset(b)[b[j]] == multiset(b[..j])[b[j]] + multiset(b[j..])[b[j]];
    }
  }

  /** Each part followed by `sep`, all concatenated, is the join of the parts and one final
      empty part: text in which every line ends with a line break. */
  lemma {:induction false} TerminatedJoin<T>(parts: seq<seq<T>>, sep: T)
    ensures Join(seq(|parts|, k requires 0 <= k < |parts| => parts[k] + [sep]), []) == Join(parts + [[]], [sep])
    decreases |parts|
  {
    if |parts| > 0 {
      var front := parts[..|parts| - 1];
      var last := parts[|parts| - 1];
      TerminatedJoin(front, sep);
      var lines := seq(|parts|, k requires 0 <= k < |parts| => parts[k] + [sep]);
      var frontLines := seq(|front|, k requires 0 <= k < |front| => front[k] + [sep]);
      assert lines == frontLines + [last + [sep]];
      ConcatAppend(frontLines, last + [sep]);
      assert parts == front + [last];
      JoinAppend(parts, [], [sep]);
      if |front| == 0 {
        assert front + [[]] == [[]];
      } else {
        JoinAppend(front, [], [sep]);
        JoinAppend(front, last, [sep]);
      }
    }
  }

  /** In a join of parts of width `w` with a one-element separator, part `j` starts at
      `(w + 1) * j`. */
  lemma {:induction false} JoinCellAt<T>(parts: seq<seq<T>>, sep: T, w: nat, j: nat)
    requires forall k | 0 <= k < |parts| :: |parts[k]| == w
    requires j < |parts|
    ensures (w + 1) * j + w <= |Join(parts, [sep])|
    ensures Join(parts, [sep])[(w + 1) * j..(w + 1) * j + w] == parts[j]
    decreases j
  {
    var whole := Join(parts, [sep]);
    if |parts| == 1 {
      assert whole == parts[0];
    } else {
      var rest := Join(parts[1..], [sep]);
      assert whole == parts[0] + [sep] + rest;
      if j > 0 {
        JoinCellAt(parts[1..], sep, w, j - 1);
        var o := (w + 1) * (j - 1);
        MulStep(w + 1, j);
        assert o + w <= |rest|;
        assert whole[w + 1 + o..w + 1 + o + w] == rest[o..o + w];
      } else {
        assert whole[..w] == parts[0];
      }
    }
  }

  lemma MulStep(a: nat, j: nat)
    requires j > 0
    ensures a * j == a + a * (j - 1)
  {
  }

}
