/** The integer part of `analyze_file_structure` in
    `backend/custom-scripts/file-inspector/file_inspector.py`: byte statistics, padding and
    structure detection and the header of a file. Reading the file is given as its outcome;
    the entropy and the percentages (floating point) are not part of this model. */
module FileInspector {
  import opened Text
  import opened Wrappers
  import Py

  const ErrorPrefix: string := "Failed to analyze file: "

  /** `str()` of the `IndexError` that `most_common(1)[0]` raises for an empty file. */
  const EmptyIndexError: string := "list index out of range"

  const NullPadding: string := "Null padding detected"
  const HighPadding: string := "High byte padding detected"
  const StructuredPattern: string := "Structured data pattern detected"
  const NoPatterns: string := "No obvious patterns detected"

  /** The dictionary `analyze_file_structure` returns, without its floating-point entries. */
  datatype Inspection =
    | Inspection(
        fileSize: nat,
        fileName: string,
        uniqueBytes: nat,
        mostCommonByte: string,
        mostCommonCount: nat,
        nullBytes: nat,
        asciiChars: nat,
        patterns: seq<string>,
        headerHex: string,
        headerAscii: string)
    | Failed(error: string)

  // Byte frequencies (`Counter(data)`)

  /** The position, among the candidates `ds`, of the first one with the greatest count in
      `data`: what `Counter.most_common(1)` picks, scanning the counter in insertion order and
      keeping the first maximum. */
  function FirstMax(ds: seq<byte>, data: seq<byte>): (j: nat)
    requires |ds| > 0
    ensures j < |ds|
    ensures forall i | 0 <= i < |ds| :: CountOf(data, ds[i]) <= CountOf(data, ds[j])
    ensures forall i | 0 <= i < j :: CountOf(data, ds[i]) < CountOf(data, ds[j])
    decreases |ds|
  {
    if |ds| == 1 then 0
    else
      var init := ds[..|ds| - 1];
      var j := FirstMax(init, data);
      assert forall i | 0 <= i < |ds| - 1 :: init[i] == ds[i];
      if CountOf(data, ds[|ds| - 1]) > CountOf(data, ds[j]) then |ds| - 1 else j
  }

  /** `byte_freq.most_common(1)[0][0]`: the byte of greatest count, the earliest to appear
      among equals. */
  function MostCommon(data: seq<byte>): byte
    requires |data| > 0
  {
    var ds := Distinct(data);
    ds[FirstMax(ds, data)]
  }

  function LowerHexDigit(d: nat): (c: char)
    requires d < 16
  {
    if d < 10 then (48 + d) as char else (87 + d) as char
  }

  /** The value of a lower-case hexadecimal digit. */
  function HexValue(c: char): nat
  {
    if '0' <= c <= '9' then c as nat - 48 else if 'a' <= c <= 'f' then c as nat - 87 else 0
  }

  /** `f"0x{b:02x}"`. */
  function ByteLiteral(b: byte): string
  {
    "0x" + [LowerHexDigit(b / 16), LowerHexDigit(b % 16)]
  }

  /** The bytes `32 <= b <= 126` counts as ASCII characters. */
  predicate IsAscii(b: byte)
  {
    32 <= b <= 126
  }

  /** `sum(1 for b in data if 32 <= b <= 126)`. */
  function AsciiCount(data: seq<byte>): nat
    decreases |data|
  {
    if |data| == 0 then 0 else AsciiCount(data[..|data| - 1]) + (if IsAscii(data[|data| - 1]) then 1 else 0)
  }

  // Patterns

  /** `data[::8]`: every eighth byte, from the first. */
  function EveryEighth(data: seq<byte>): (r: seq<byte>)
    ensures |r| == (|data| + 7) / 8
    ensures forall k | 0 <= k < |r| :: 8 * k < |data| && r[k] == data[8 * k]
  {
    seq((|data| + 7) / 8, k requires 0 <= k < (|data| + 7) / 8 => data[8 * k])
  }

  /** `data.count(b'\x00\x00') > len(data) * 0.01`, compared exactly. */
  predicate NullPadded(data: seq<byte>)
  {
    100 * CountSub(data, [0, 0]) > |data|
  }

  /** `data.count(b'\xFF\xFF') > len(data) * 0.01`, compared exactly. */
  predicate HighPadded(data: seq<byte>)
  {
    100 * CountSub(data, [0xFF, 0xFF]) > |data|
  }

  /** `len(set(data[::8])) < 10`. */
  predicate Structured(data: seq<byte>)
  {
    |Distinct(EveryEighth(data))| < 10
  }

  /** The detections, in the order `analyze_file_structure` tests them. */
  function Detected(data: seq<byte>): seq<string>
  {
    (if NullPadded(data) then [NullPadding] else [])
    + (if HighPadded(data) then [HighPadding] else [])
    + (if Structured(data) then [StructuredPattern] else [])
  }

  /** `analysis['patterns']`. */
  function Patterns(data: seq<byte>): seq<string>
  {
    var found := Detected(data);
    if |found| == 0 then [NoPatterns] else found
  }

  // Header

  /** `data[:32]`. */
  function Header(data: seq<byte>): (h: seq<byte>)
  {
    if |data| <= 32 then data else data[..32]
  }

  /** `''.join(chr(b) if 32 <= b <= 126 else '.' for b in header)`. */
  function HeaderAscii(header: seq<byte>): (r: string)
    ensures |r| == |header|
  {
    seq(|header|, k requires 0 <= k < |header| => if IsAscii(header[k]) then header[k] as char else '.')
  }

  /** The dictionary for a non-empty file. */
  function InspectionOf(data: seq<byte>, fileName: string): Inspection
    requires |data| > 0
  {
    var b := MostCommon(data);
    Inspection(|data|, fileName, |Distinct(data)|, ByteLiteral(b), CountOf(data, b), CountOf(data, 0),
      AsciiCount(data), Patterns(data), Py.HexUpper(Header(data)), HeaderAscii(Header(data)))
  }

  /** `analyze_file_structure(file_path)`, where `read` is the outcome of reading the file and
      `fileName` is `file_path.name`. */
  method AnalyzeFileStructure(read: Result<seq<byte>, string>, fileName: string) returns (r: Inspection)
    ensures read.Failure? ==> r == Failed(ErrorPrefix + read.error)
    ensures read.Success? && |read.value| == 0 ==> r == Failed(ErrorPrefix + EmptyIndexError)
    ensures read.Success? && |read.value| > 0 ==> r == InspectionOf(read.value, fileName)
  {
    if read.Failure? {
      return Failed(ErrorPrefix + read.error);
    }
    var data := read.value;
    var fileSize := |data|;
    var uniqueBytes := |Distinct(data)|;
    if |data| == 0 {
      return Failed(ErrorPrefix + EmptyIndexError);
    }
    var top := MostCommon(data);
    var mostCommonByte := ByteLiteral(top);
    var mostCommonCount := CountOf(data, top);
    var nullBytes := CountOf(data, 0);
    var asciiChars := AsciiCount(data);
    var patterns := DetectPatterns(data);
    var header := Header(data);
    r := Inspection(fileSize, fileName, uniqueBytes, mostCommonByte, mostCommonCount, nullBytes, asciiChars,
      patterns, Py.HexUpper(header), HeaderAscii(header));
  }

  /** The pattern detection of `analyze_file_structure`: each test that fires appends its
      message, and an empty list becomes the default message. */
  method DetectPatterns(data: seq<byte>) returns (patterns: seq<string>)
    ensures patterns == Patterns(data)
  {
    var found: seq<string> := [];
    if 100 * CountSub(data, [0, 0]) > |data| {
      found := found + [NullPadding];
    }
    if 100 * CountSub(data, [0xFF, 0xFF]) > |data| {
      found := found + [HighPadding];
    }
    if |Distinct(EveryEighth(data))| < 10 {
      found := found + [StructuredPattern];
    }
    assert found == Detected(data);
    patterns := if |found| > 0 then found else [NoPatterns];
  }

  // What the dictionary says

  /** A list of distinct values below `m` has at most `m` elements. */
  lemma {:induction false} NoDuplicatesBound(s: seq<byte>, m: nat)
    requires NoDuplicates(s) && forall i | 0 <= i < |s| :: s[i] < m
    ensures |s| <= m
    decreases m
  {
    if m > 0 {
      if (m - 1) in s {
        var j :| 0 <= j < |s| && s[j] == m - 1;
        var t := s[..j] + s[j + 1..];
        assert forall i | 0 <= i < |t| :: t[i] == if i < j then s[i] else s[i + 1];
        NoDuplicatesBound(t, m - 1);
      } else {
        NoDuplicatesBound(s, m - 1);
      }
    }
  }

  /** `unique_bytes` of a non-empty file is between 1 and 256, and every byte of the file is
      among the distinct values counted. */
  lemma UniqueBytes(data: seq<byte>)
    requires |data| > 0
    ensures 1 <= |Distinct(data)| <= 256
    ensures forall i | 0 <= i < |data| :: data[i] in Distinct(data)
  {
    NoDuplicatesBound(Distinct(data), 256);
    assert data[0] in Distinct(data);
  }

  /** `most_common_byte` names a byte of the file whose count, `most_common_count`, is at least
      one and no smaller than any other byte's; every byte that first appears before it has a
      smaller count. */
  lemma MostCommonSpec(data: seq<byte>)
    requires |data| > 0
    ensures var b := MostCommon(data);
      b in data && CountOf(data, b) >= 1
      && (forall x: byte | x in data :: CountOf(data, x) <= CountOf(data, b))
      && (forall x: byte | x in data[..IndexOf(data, b)] :: CountOf(data, x) < CountOf(data, b))
  {
    var ds := Distinct(data);
    var j := FirstMax(ds, data);
    var b := ds[j];
    CountOfPositive(data, b);
    forall x: byte | x in data ensures CountOf(data, x) <= CountOf(data, b) {
      var i :| 0 <= i < |ds| && ds[i] == x;
    }
    forall x: byte | x in data[..IndexOf(data, b)] ensures CountOf(data, x) < CountOf(data, b) {
      var i :| 0 <= i < |ds| && ds[i] == x;
      DistinctOrder(data, b, i, j);
    }
  }

  /** `most_common_byte` is `0x` and two lower-case hexadecimal digits that denote the byte. */
  lemma ByteLiteralDigits(b: byte)
    ensures var r := ByteLiteral(b);
      |r| == 4 && r[..2] == "0x"
      && (forall k | 2 <= k < 4 :: ('0' <= r[k] <= '9') || ('a' <= r[k] <= 'f'))
      && 16 * HexValue(r[2]) + HexValue(r[3]) == b
  {
  }

  /** The null bytes and the ASCII characters are disjoint: together at most the file size. */
  lemma {:induction false} NullAndAscii(data: seq<byte>)
    ensures CountOf(data, 0) + AsciiCount(data) <= |data|
    decreases |data|
  {
    if |data| > 0 {
      NullAndAscii(data[..|data| - 1]);
    }
  }

  /** `patterns` is never empty; each detection message is present exactly when its condition
      holds, and the default message exactly when none does; no message appears twice. */
  lemma PatternsSpec(data: seq<byte>)
    ensures var ps := Patterns(data);
      |ps| >= 1 && NoDuplicates(ps)
      && (NullPadding in ps <==> NullPadded(data))
      && (HighPadding in ps <==> HighPadded(data))
      && (StructuredPattern in ps <==> Structured(data))
      && (NoPatterns in ps <==> !NullPadded(data) && !HighPadded(data) && !Structured(data))
  {
    assert NullPadding[0] == 'N' && HighPadding[0] == 'H' && StructuredPattern[0] == 'S' && NoPatterns[0] == 'N';
    assert NullPadding[1] == 'u' && NoPatterns[1] == 'o';
  }

  /** A file of at most 72 bytes samples at most nine bytes for `data[::8]`, so it is always
      reported as structured. */
  lemma ShortFilesStructured(data: seq<byte>)
    requires |data| <= 72
    ensures Structured(data)
    ensures StructuredPattern in Patterns(data)
  {
    PatternsSpec(data);
  }

  /** `header_hex` is the upper-case hexadecimal of the first `min(32, n)` bytes, two digits per
      byte; `header_ascii` has one character per header byte, the byte itself when it is
      between 32 and 126 and `.` otherwise. */
  lemma HeaderSpec(data: seq<byte>)
    ensures var h := Header(data);
      |h| == (if |data| <= 32 then |data| else 32) && h == data[..|h|]
      && |Py.HexUpper(h)| == 2 * |h|
      && (forall k | 0 <= k < |h| :: Py.HexUpper(h)[2 * k..2 * k + 2] == Py.HexByteUpper(data[k]))
      && (forall k | 0 <= k < |h| ::
        (IsAscii(data[k]) ==> HeaderAscii(h)[k] as int == data[k])
        && (!IsAscii(data[k]) ==> HeaderAscii(h)[k] == '.'))
  {
  }
}
