/** What the backend relies on from Python's strings: `str.isspace` (which is also what
    `split()`, `strip()` and the regular-expression class `\s` use), `split()`, `strip()`,
    `os.path.basename` and `os.path.splitext` on POSIX paths, `str.isprintable` on the
    characters `chr(b)` of bytes, lower-casing, case-insensitive comparison of regular
    expressions, and upper-case hexadecimal rendering of bytes. Python strings are Dafny
    `string`s (sequences of Unicode scalar values). */
module Py {
  import opened Text

  predicate IsAsciiDigit(c: char) { '0' <= c <= '9' }
  predicate IsAsciiUpper(c: char) { 'A' <= c <= 'Z' }
  predicate IsAsciiLower(c: char) { 'a' <= c <= 'z' }
  predicate IsAsciiAlnum(c: char) { IsAsciiDigit(c) || IsAsciiUpper(c) || IsAsciiLower(c) }

  /** `\w` of a `str` pattern: letters, digits and underscore in the Unicode sense.
      The non-ASCII part of the Unicode tables is the parameter `unicodeAlnum`. */
  predicate IsWordChar(c: char, unicodeAlnum: char -> bool)
  {
    if c < 128 as char then IsAsciiAlnum(c) || c == '_' else unicodeAlnum(c)
  }

  /** `str.isspace()` of one character, also the white space of `split()`, `strip()` and `\s`. */
  predicate IsSpace(c: char)
  {
    ('\U{0009}' <= c <= '\U{000D}') || ('\U{001C}' <= c <= '\U{001F}') || c == ' ' || c == '\U{0085}'
    || c == '\U{00A0}' || c == '\U{1680}' || ('\U{2000}' <= c <= '\U{200A}') || c == '\U{2028}'
    || c == '\U{2029}' || c == '\U{202F}' || c == '\U{205F}' || c == '\U{3000}'
  }

  predicate NoSpace(s: string) { forall i | 0 <= i < |s| :: !IsSpace(s[i]) }

  /** `chr(b).isprintable()` for a byte `b`: everything except the C0 and C1 controls, DEL,
      the no-break space U+00A0 and the soft hyphen U+00AD. */
  predicate IsPrintableByte(b: byte)
  {
    (0x20 <= b <= 0x7E) || (0xA1 <= b <= 0xAC) || (0xAE <= b <= 0xFF)
  }

  /** The end of the run of white space starting at `i`. */
  function SpaceRunEnd(s: string, i: nat): (j: nat)
    requires i <= |s|
    ensures i <= j <= |s|
    ensures forall k | i <= k < j :: IsSpace(s[k])
    ensures j < |s| ==> !IsSpace(s[j])
    decreases |s| - i
  {
    if i < |s| && IsSpace(s[i]) then SpaceRunEnd(s, i + 1) else i
  }

  /** The end of the run of non-white-space characters starting at `i`. */
  function WordRunEnd(s: string, i: nat): (j: nat)
    requires i <= |s|
    ensures i <= j <= |s|
    ensures forall k | i <= k < j :: !IsSpace(s[k])
    ensures j < |s| ==> IsSpace(s[j])
    decreases |s| - i
  {
    if i < |s| && !IsSpace(s[i]) then WordRunEnd(s, i + 1) else i
  }

  /** The start of the run of white space ending at `j`, not going below `lo`. */
  function SpaceRunStart(s: string, lo: nat, j: nat): (i: nat)
    requires lo <= j <= |s|
    ensures lo <= i <= j
    ensures forall k | i <= k < j :: IsSpace(s[k])
    ensures i > lo ==> !IsSpace(s[i - 1])
    decreases j
  {
    if j > lo && IsSpace(s[j - 1]) then SpaceRunStart(s, lo, j - 1) else j
  }

  /** `s.split()` from index `i` on: the maximal runs of non-white-space characters. */
  function SplitFrom(s: string, i: nat): (r: seq<string>)
    requires i <= |s|
    ensures forall k | 0 <= k < |r| :: |r[k]| > 0 && NoSpace(r[k])
    ensures |r| == 0 <==> forall k | i <= k < |s| :: IsSpace(s[k])
    decreases |s| - i
  {
    var a := SpaceRunEnd(s, i);
    if a == |s| then []
    else
      var b := WordRunEnd(s, a);
      [s[a..b]] + SplitFrom(s, b)
  }

  /** `s.split()` without arguments: the white-space-separated fields, with no empty ones. */
  function Split(s: string): (r: seq<string>)
    ensures forall k | 0 <= k < |r| :: |r[k]| > 0 && NoSpace(r[k])
    ensures |r| == 0 <==> forall k | 0 <= k < |s| :: IsSpace(s[k])
  {
    SplitFrom(s, 0)
  }

  /** The first field of a string that is not all white space begins at its first
      non-white-space character and ends before the next white space. */
  lemma SplitFirst(s: string)
    requires |Split(s)| > 0
    ensures Split(s)[0] == s[SpaceRunEnd(s, 0)..WordRunEnd(s, SpaceRunEnd(s, 0))]
  {
  }

  /** `r` is `s[i..j]` and only white space of `s` lies outside that slice. */
  predicate StripSlice(s: string, r: string, i: nat, j: nat)
  {
    i <= j <= |s| && r == s[i..j]
    && (forall k | 0 <= k < i :: IsSpace(s[k])) && (forall k | j <= k < |s| :: IsSpace(s[k]))
  }

  /** `s.strip()`. */
  function Strip(s: string): (r: string)
    ensures |r| <= |s|
    ensures |r| > 0 ==> !IsSpace(r[0]) && !IsSpace(r[|r| - 1])
    ensures exists i: nat, j: nat :: StripSlice(s, r, i, j)
  {
    var i := SpaceRunEnd(s, 0);
    var j := SpaceRunStart(s, i, |s|);
    assert StripSlice(s, s[i..j], i, j);
    s[i..j]
  }

  /** One past the index of the last occurrence of `c` in `s[..j]`, or 0 if there is none
      (`s.rfind(c) + 1`). */
  function AfterLast(s: string, j: nat, c: char): (i: nat)
    requires j <= |s|
    ensures i <= j
    ensures i > 0 ==> s[i - 1] == c
    ensures forall k | i <= k < j :: s[k] != c
    decreases j
  {
    if j == 0 then 0 else if s[j - 1] == c then j else AfterLast(s, j - 1, c)
  }

  /** `os.path.basename` on a POSIX path: what follows the last `/`. */
  function Basename(p: string): (r: string)
    ensures '/' !in r
    ensures EndsWith(p, r)
    ensures |r| < |p| ==> p[|p| - |r| - 1] == '/'
  {
    var i := AfterLast(p, |p|, '/');
    assert forall k | 0 <= k < |p| - i :: p[i..][k] == p[i + k];
    p[i..]
  }

  /** `os.path.splitext` on a POSIX path: `(root, ext)` with `root + ext == p`. The extension
      starts at the last `.` of the last path component, provided that component has a
      character other than `.` before it; otherwise it is empty. */
  function SplitExt(p: string): (r: (string, string))
    ensures r.0 + r.1 == p
    ensures r.1 == [] || (r.1[0] == '.' && '/' !in r.1 && '.' !in r.1[1..])
  {
    var sep := AfterLast(p, |p|, '/');
    var dot := AfterLast(p, |p|, '.');
    if dot > sep + 1 && exists k | sep <= k < dot - 1 :: p[k] != '.' then
      var ext := p[dot - 1..];
      assert p[..dot - 1] + ext == p;
      assert forall k | 1 <= k < |ext| :: ext[k] == p[dot - 1 + k];
      (p[..dot - 1], ext)
    else (assert p + [] == p; (p, []))
  }

  /** `str.lower()` of one character. Exact for ASCII and for the two characters whose lower
      case holds an ASCII letter (capital I with dot above and the Kelvin sign); other
      characters are kept as they are. */
  function LowerChar(c: char): (r: string)
    ensures c < 128 as char ==> |r| == 1 && (IsAsciiUpper(c) ==> r[0] as int == c as int + 32) && (!IsAsciiUpper(c) ==> r[0] == c)
  {
    if IsAsciiUpper(c) then [(c as int + 32) as char]
    else if c == '\U{0130}' then "i\U{0307}"
    else if c == '\U{212A}' then "k"
    else [c]
  }

  function Lower(s: string): (r: string)
    ensures (forall k | 0 <= k < |s| :: s[k] < 128 as char) ==> |r| == |s|
  {
    if |s| == 0 then [] else LowerChar(s[0]) + Lower(s[1..])
  }

  /** No ASCII capital survives lower-casing. */
  lemma {:induction false} LowerNoUpper(s: string)
    ensures forall k | 0 <= k < |Lower(s)| :: !IsAsciiUpper(Lower(s)[k])
    decreases |s|
  {
    if |s| > 0 {
      LowerNoUpper(s[1..]);
      var h, t := LowerChar(s[0]), Lower(s[1..]);
      assert forall k | 0 <= k < |h| :: !IsAsciiUpper(h[k]);
      assert Lower(s) == h + t;
      forall k | 0 <= k < |h + t| ensures !IsAsciiUpper((h + t)[k]) {
        if k >= |h| {
          assert (h + t)[k] == t[k - |h|];
        }
      }
    }
  }

  /** `bytes.lower()`: only ASCII letters change. */
  function LowerByte(b: byte): (r: byte)
    ensures 'A' as int <= b <= 'Z' as int ==> r == b + 32
    ensures !('A' as int <= b <= 'Z' as int) ==> r == b
  {
    if 'A' as int <= b <= 'Z' as int then b + 32 else b
  }

  /** Whether a character of the subject matches the ASCII pattern character `p` of a
      regular expression compiled with `re.IGNORECASE` over `str`: equal after simple case
      folding, where `i` also matches U+0130 and U+0131, `s` also matches U+017F and `k` also
      matches the Kelvin sign U+212A. */
  predicate FoldMatch(c: char, p: char)
    requires p < 128 as char
  {
    c == p
    || (IsAsciiLower(p) && c as int == p as int - 32)
    || (IsAsciiUpper(p) && c as int == p as int + 32)
    || ((p == 'i' || p == 'I') && (c == '\U{0130}' || c == '\U{0131}'))
    || ((p == 's' || p == 'S') && c == '\U{017F}')
    || ((p == 'k' || p == 'K') && c == '\U{212A}')
  }

  /** Whether the literal `pat` matches `s` at `i` under `re.IGNORECASE`. */
  predicate FoldAt(s: string, i: nat, pat: string)
    requires forall k | 0 <= k < |pat| :: pat[k] < 128 as char
  {
    i + |pat| <= |s| && forall k | 0 <= k < |pat| :: FoldMatch(s[i + k], pat[k])
  }

  /** `re.search(pat, s, re.IGNORECASE)` for a literal pattern finds a match. */
  predicate FoldSearch(s: string, pat: string)
    requires forall k | 0 <= k < |pat| :: pat[k] < 128 as char
  {
    exists i | 0 <= i <= |s| :: FoldAt(s, i, pat)
  }

  /** The upper-case hexadecimal digit of a value below 16. */
  function HexDigitUpper(d: nat): (c: char)
    requires d < 16
    ensures ('0' <= c <= '9') || ('A' <= c <= 'F')
  {
    if d < 10 then (48 + d) as char else (55 + d) as char
  }

  /** `b.hex().upper()` for one byte: two upper-case hexadecimal digits. */
  function HexByteUpper(b: byte): (r: string)
    ensures |r| == 2
    ensures forall k | 0 <= k < 2 :: ('0' <= r[k] <= '9') || ('A' <= r[k] <= 'F')
  {
    [HexDigitUpper(b / 16), HexDigitUpper(b % 16)]
  }

  /** `data.hex().upper()`. */
  function HexUpper(data: seq<byte>): (r: string)
    ensures |r| == 2 * |data|
    ensures forall k | 0 <= k < |data| :: r[2 * k..2 * k + 2] == HexByteUpper(data[k])
  {
    if |data| == 0 then []
    else
      var rest := HexUpper(data[1..]);
      var r := HexByteUpper(data[0]) + rest;
      assert forall k | 1 <= k < |data| :: r[2 * k..2 * k + 2] == rest[2 * (k - 1)..2 * (k - 1) + 2];
      r
  }

  /** `str(n)` for a natural number. */
  function Decimal(n: nat): (r: string)
    ensures |r| >= 1 && forall k | 0 <= k < |r| :: IsAsciiDigit(r[k])
  {
    var ds := Digits(n, 10);
    seq(|ds|, k requires 0 <= k < |ds| => (48 + ds[k]) as char)
  }
}
