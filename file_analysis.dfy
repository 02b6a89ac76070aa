/** The two byte views of `frontend/src/pages/FileAnalysisPage.js`: the printable strings of an
    uploaded file (`extractStringsFromBinary`) and its hex dump (`generateHexDump`). The file
    is the `Uint8Array` of its bytes. */
module FileAnalysis {
  import opened Text
  import opened Js
  import opened StringScan
  import opened Wrappers

  // extractStringsFromBinary

  /** One `{value, offset, length}` entry. */
  datatype Entry = Entry(value: JsString, offset: int, length: int)

  /** The bytes the page counts as printable: 32 to 126. */
  predicate Visible(b: byte)
  {
    b >= 32 && b <= 126 && b != 127
  }

  /** `String.fromCharCode` of each byte. */
  function Chars(bytes: seq<byte>): (s: JsString)
    ensures |s| == |bytes| && forall k | 0 <= k < |s| :: s[k] == bytes[k]
  {
    seq(|bytes|, k requires 0 <= k < |bytes| => bytes[k] as CodeUnit)
  }

  function EntryOf(data: seq<byte>, r: Run): Entry
    requires r.offset + r.length <= |data|
  {
    Entry(Chars(data[r.offset..r.offset + r.length]), r.offset, r.length)
  }

  function Entries(data: seq<byte>, runs: seq<Run>): (es: seq<Entry>)
    requires forall a | 0 <= a < |runs| :: runs[a].offset + runs[a].length <= |data|
    ensures |es| == |runs|
  {
    seq(|runs|, a requires 0 <= a < |runs| => EntryOf(data, runs[a]))
  }

  lemma EntriesAppend(data: seq<byte>, runs: seq<Run>, r: Run)
    requires forall a | 0 <= a < |runs| :: runs[a].offset + runs[a].length <= |data|
    requires r.offset + r.length <= |data|
    ensures Entries(data, runs + [r]) == Entries(data, runs) + [EntryOf(data, r)]
  {
  }

  /** `extractStringsFromBinary(data, minLength)`. */
  method ExtractStringsFromBinary(data: seq<byte>, minLength: int) returns (strings: seq<Entry>)
    ensures strings == Entries(data, Extract(data, Visible, minLength))
  {
    strings := [];
    var currentString: JsString := [];
    ghost var runs: seq<Run>, open: nat := [], 0;
    for i := 0 to |data|
      invariant (runs, open) == ScanState(data, Visible, minLength, i)
      invariant strings == Entries(data, runs)
      invariant currentString == Chars(data[i - open..i])
    {
      strings, currentString, runs, open := ScanByte(data, minLength, i, strings, currentString, runs, open);
    }
    strings := FlushRun(data, minLength, strings, currentString, runs, open);
  }

  /** The run still open after the last byte is kept, with its entry, when it is long enough. */
  method FlushRun(data: seq<byte>, minLength: int, strings: seq<Entry>, currentString: JsString,
                  ghost runs: seq<Run>, ghost open: nat)
    returns (strings': seq<Entry>)
    requires (runs, open) == ScanState(data, Visible, minLength, |data|)
    requires strings == Entries(data, runs)
    requires currentString == Chars(data[|data| - open..|data|])
    ensures strings' == Entries(data, Extract(data, Visible, minLength))
  {
    strings' := strings;
    if |currentString| >= minLength {
      KeepEntry(data, runs, open, |data|);
      strings' := strings + [Entry(currentString, |data| - |currentString|, |currentString|)];
    }
  }

  /** One pass of the loop of `extractStringsFromBinary`, at the byte `data[i]`. */
  method ScanByte(data: seq<byte>, minLength: int, i: nat, strings: seq<Entry>, currentString: JsString,
                  ghost runs: seq<Run>, ghost open: nat)
    returns (strings': seq<Entry>, currentString': JsString, ghost runs': seq<Run>, ghost open': nat)
    requires i < |data|
    requires (runs, open) == ScanState(data, Visible, minLength, i)
    requires strings == Entries(data, runs)
    requires currentString == Chars(data[i - open..i])
    ensures (runs', open') == ScanState(data, Visible, minLength, i + 1)
    ensures strings' == Entries(data, runs')
    ensures currentString' == Chars(data[i + 1 - open'..i + 1])
  {
    var b := data[i];
    if b >= 32 && b <= 126 && b != 127 {
      VisibleStep(data, minLength, i);
      strings', currentString', runs', open' := strings, currentString + [b as CodeUnit], runs, open + 1;
    } else {
      BreakStep(data, minLength, i);
      strings', runs' := strings, runs;
      if |currentString| >= minLength {
        strings' := strings + [Entry(currentString, i - |currentString|, |currentString|)];
        runs' := runs + [Run(i - open, open)];
      }
      currentString', open' := [], 0;
    }
  }

  /** A printable byte extends the open run and its text. */
  lemma VisibleStep(data: seq<byte>, minLength: int, i: nat)
    requires i < |data| && Visible(data[i])
    ensures var st := ScanState(data, Visible, minLength, i);
      ScanState(data, Visible, minLength, i + 1) == (st.0, st.1 + 1)
      && Chars(data[i - st.1..i + 1]) == Chars(data[i - st.1..i]) + [data[i] as CodeUnit]
  {
    var st := ScanState(data, Visible, minLength, i);
    ScanStep(data, Visible, minLength, i);
    CharsSnoc(data, i - st.1, i);
  }

  /** Any other byte closes the open run, which is kept, with its entry, when it is long
      enough. */
  lemma BreakStep(data: seq<byte>, minLength: int, i: nat)
    requires i < |data| && !Visible(data[i])
    ensures var st := ScanState(data, Visible, minLength, i);
      && (st.1 >= minLength ==> ScanState(data, Visible, minLength, i + 1) == (st.0 + [Run(i - st.1, st.1)], 0))
      && (st.1 < minLength ==> ScanState(data, Visible, minLength, i + 1) == (st.0, 0))
      && Entries(data, st.0 + [Run(i - st.1, st.1)]) == Entries(data, st.0) + [Entry(Chars(data[i - st.1..i]), i - st.1, st.1)]
  {
    var st := ScanState(data, Visible, minLength, i);
    ScanStep(data, Visible, minLength, i);
    KeepEntry(data, st.0, st.1, i);
  }

  /** Keeping the run of `open` bytes that ends at `e` adds its entry. */
  lemma KeepEntry(data: seq<byte>, runs: seq<Run>, open: nat, e: nat)
    requires open <= e <= |data|
    requires forall a | 0 <= a < |runs| :: runs[a].offset + runs[a].length <= |data|
    ensures Entries(data, runs + [Run(e - open, open)]) == Entries(data, runs) + [Entry(Chars(data[e - open..e]), e - open, open)]
  {
    EntriesAppend(data, runs, Run(e - open, open));
  }

  lemma CharsSnoc(data: seq<byte>, lo: nat, i: nat)
    requires lo <= i < |data|
    ensures Chars(data[lo..i + 1]) == Chars(data[lo..i]) + [data[i] as CodeUnit]
  {
    assert data[lo..i + 1] == data[lo..i] + [data[i]];
  }

  /** Every entry holds the bytes `data[offset..offset + length]`, at least `minLength` of
      them, all between 32 and 126, and they cannot be extended: the bytes just before and
      just after, where there are any, are not printable. */
  lemma EntriesSound(data: seq<byte>, minLength: int)
    ensures var es := Entries(data, Extract(data, Visible, minLength));
      forall a | 0 <= a < |es| ::
        0 <= es[a].offset && es[a].offset + es[a].length <= |data|
        && es[a].value == Chars(data[es[a].offset..es[a].offset + es[a].length])
        && es[a].length >= minLength && |es[a].value| == es[a].length
        && (forall k | 0 <= k < |es[a].value| :: 32 <= es[a].value[k] <= 126)
        && Maximal(data, Visible, es[a].offset, es[a].length)
  {
    var runs := Extract(data, Visible, minLength);
    ExtractSound(data, Visible, minLength);
    var es := Entries(data, runs);
    forall a | 0 <= a < |es|
      ensures forall k | 0 <= k < |es[a].value| :: 32 <= es[a].value[k] <= 126
    {
      var r := runs[a];
      forall k | 0 <= k < |es[a].value| ensures 32 <= es[a].value[k] <= 126 {
        assert es[a].value[k] == data[r.offset + k];
        assert Visible(data[r.offset + k]);
      }
    }
  }

  /** The entries come in order of their offsets, none overlapping the next. */
  lemma EntriesInOrder(data: seq<byte>, minLength: int)
    ensures var es := Entries(data, Extract(data, Visible, minLength));
      forall a, b | 0 <= a < b < |es| :: es[a].offset + es[a].length < es[b].offset
  {
    ExtractInOrder(data, Visible, minLength);
  }

  /** Every maximal run of at least `minLength` bytes between 32 and 126 is listed. */
  lemma EntriesComplete(data: seq<byte>, minLength: int, o: nat, l: nat)
    requires l >= minLength && Maximal(data, Visible, o, l)
    ensures Entry(Chars(data[o..o + l]), o, l) in Entries(data, Extract(data, Visible, minLength))
  {
    var runs := Extract(data, Visible, minLength);
    ExtractComplete(data, Visible, minLength, o, l);
    var a :| 0 <= a < |runs| && runs[a] == Run(o, l);
    assert Entries(data, runs)[a] == Entry(Chars(data[o..o + l]), o, l);
  }

  // generateHexDump

  /** `generateHexDump`'s `bytesPerLine`, which the page leaves at its default. */
  const BytesPerLine: nat := 16

  /** `n.toString(16).padStart(width, '0').toUpperCase()`. */
  function HexField(n: nat, width: nat): JsString
  {
    ToUpper(PadStart(ToStringRadix(n, 16), width, '0' as int))
  }

  /** How a number is written in hexadecimal digits of at least some width. The page writes
      `HexField`; the line functions take it as a parameter so that reasoning about the layout
      of a line does not depend on how the digits are computed. */
  type HexOf = (nat, nat) -> JsString

  /** The hex cell of position `k`: the byte in two digits, or two spaces past the end. */
  function HexCell(data: seq<byte>, k: nat, hexOf: HexOf): JsString
  {
    if k < |data| then hexOf(data[k], 2) else [32, 32]
  }

  /** The ASCII cell of position `k`: the byte itself when it is between 32 and 126, `.` for
      any other byte, and a space past the end. */
  function AsciiCell(data: seq<byte>, k: nat): CodeUnit
  {
    if k < |data| then (if 32 <= data[k] <= 126 then data[k] else '.' as int) else 32
  }

  /** The eight hex cells of a half line, from position `lo`. */
  function HalfLine(data: seq<byte>, lo: nat, hexOf: HexOf): (cells: seq<JsString>)
    ensures |cells| == 8
  {
    seq(8, j requires 0 <= j < 8 => HexCell(data, lo + j, hexOf))
  }

  /** The ASCII column of the line at `i`. */
  function Column(data: seq<byte>, i: nat): (col: JsString)
    ensures |col| == BytesPerLine
  {
    seq<CodeUnit>(BytesPerLine, j requires 0 <= j < BytesPerLine => AsciiCell(data, i + j))
  }

  const Gap: JsString := [32, 32]
  const Bar: JsString := [124]

  /** The line for offset `i` without its line break:
      address, two spaces, eight cells, two spaces, eight cells, two spaces, `|`, the ASCII
      column, `|`. */
  function Body(data: seq<byte>, i: nat, hexOf: HexOf): JsString
  {
    hexOf(i, 8) + Gap + Join(HalfLine(data, i, hexOf), [32]) + Gap + Join(HalfLine(data, i + 8, hexOf), [32])
    + Gap + Bar + Column(data, i) + Bar
  }

  function Line(data: seq<byte>, i: nat, hexOf: HexOf): JsString
  {
    Body(data, i, hexOf) + [10]
  }

  /** `Math.ceil(n / 16)`: the number of lines. */
  function LineCount(n: nat): (c: nat)
    ensures BytesPerLine * c >= n && (c > 0 ==> BytesPerLine * (c - 1) < n)
  {
    (n + BytesPerLine - 1) / BytesPerLine
  }

  /** The first `k` lines. */
  function Lines(data: seq<byte>, k: nat, hexOf: HexOf): (ls: seq<JsString>)
    ensures |ls| == k
  {
    seq(k, t requires 0 <= t < k => Line(data, BytesPerLine * t, hexOf))
  }

  lemma LinesAppend(data: seq<byte>, k: nat, hexOf: HexOf)
    ensures Lines(data, k + 1, hexOf) == Lines(data, k, hexOf) + [Line(data, BytesPerLine * k, hexOf)]
  {
    assert Lines(data, k + 1, hexOf)[..k] == Lines(data, k, hexOf);
  }

  /** The text `generateHexDump` returns. */
  function HexDump(data: seq<byte>): JsString
  {
    Join(Lines(data, LineCount(|data|), HexField), [])
  }

  /** One pass of the outer loop of `generateHexDump`: the line for offset `i`. */
  method DumpLine(data: seq<byte>, i: nat, hexOf: HexOf) returns (line: JsString)
    ensures line == Line(data, i, hexOf)
  {
    var address := hexOf(i, 8);
    var hexBytes: seq<JsString> := [];
    var asciiChars: JsString := [];
    for j := 0 to BytesPerLine
      invariant |hexBytes| == |asciiChars| == j
      invariant forall t | 0 <= t < j :: hexBytes[t] == HexCell(data, i + t, hexOf) && asciiChars[t] == AsciiCell(data, i + t)
    {
      if i + j < |data| {
        var b := data[i + j];
        hexBytes := hexBytes + [hexOf(b, 2)];
        asciiChars := asciiChars + [if b >= 32 && b <= 126 then b else '.' as int];
      } else {
        hexBytes := hexBytes + [[32, 32]];
        asciiChars := asciiChars + [32];
      }
    }
    assert hexBytes[..8] == HalfLine(data, i, hexOf);
    assert hexBytes[8..] == HalfLine(data, i + 8, hexOf);
    assert asciiChars == Column(data, i);
    line := address + Gap + Join(hexBytes[..8], [32]) + Gap + Join(hexBytes[8..], [32]) + Gap + Bar + asciiChars + Bar + [10];
  }

  /** The loop of `generateHexDump`, with the hexadecimal rendering as a parameter. */
  method DumpWith(data: seq<byte>, hexOf: HexOf) returns (hex: JsString)
    ensures hex == Join(Lines(data, LineCount(|data|), hexOf), [])
  {
    hex := [];
    var i := 0;
    ghost var k := 0;
    while i < |data|
      invariant i == BytesPerLine * k && k <= LineCount(|data|)
      invariant hex == Join(Lines(data, k, hexOf), [])
      decreases |data| - i
    {
      var line := DumpLine(data, i, hexOf);
      LinesAppend(data, k, hexOf);
      ConcatAppend(Lines(data, k, hexOf), line);
      hex := hex + line;
      i, k := i + BytesPerLine, k + 1;
    }
  }

  /** `generateHexDump(data)`. */
  method GenerateHexDump(data: seq<byte>) returns (hex: JsString)
    ensures hex == HexDump(data)
  {
    hex := DumpWith(data, HexField);
  }

  // What the dump looks like

  predicate IsUpperHexDigit(c: int)
  {
    IsDigit(c) || 'A' as int <= c <= 'F' as int
  }

  lemma PowersOf16()
    ensures Power(16, 2) == 0x100 && Power(16, 8) == 0x1_0000_0000
  {
    assert Power(16, 1) == 16;
    assert Power(16, 2) == 0x100;
    assert Power(16, 3) == 0x1000;
    assert Power(16, 4) == 0x1_0000;
    assert Power(16, 5) == 0x10_0000;
    assert Power(16, 6) == 0x100_0000;
    assert Power(16, 7) == 0x1000_0000;
  }

  /** A number below `16^width` is written in exactly `width` upper-case hexadecimal digits,
      and `parseInt(_, 16)` reads the number back. */
  lemma HexFieldDigits(n: nat, width: nat)
    requires width >= 1 && n < Power(16, width)
    ensures var r := HexField(n, width);
      |r| == width && (forall k | 0 <= k < width :: IsUpperHexDigit(r[k])) && ParseInt(r, 16) == Some(n)
  {
    DigitsWidth(n, 16, width);
    UpperPadded(ToStringRadix(n, 16), Digits(n, 16), width);
  }

  /** A numeral `t` with hexadecimal digits `e`, zero-padded to `width` and upper-cased, has
      `width` upper-case digits and reads back as the value of `e`. */
  lemma UpperPadded(t: JsString, e: seq<nat>, width: nat)
    requires |t| == |e| > 0 && |t| <= width
    requires forall j | 0 <= j < |e| :: e[j] < 16 && t[j] == DigitChar(e[j])
    ensures var r := ToUpper(PadStart(t, width, '0' as int));
      |r| == width && (forall k | 0 <= k < width :: IsUpperHexDigit(r[k])) && ParseInt(r, 16) == Some(DigitsValue(e, 16))
  {
    var g := PadStart(t, width, '0' as int);
    var m := |g| - |t|;
    var ds: seq<nat> := Repeat<nat>(0, m) + e;
    PaddedDigits(t, e, width, 16);
    UpperDigits(g, ds);
    var r := ToUpper(g);
    ParseIntDigits(r, 16, ds);
    LeadingZeros(m, e, 16);
    assert ParseInt(r, 16) == Some(DigitsValue(ds, 16));
    assert DigitsValue(ds, 16) == DigitsValue(e, 16);
  }

  /** Upper-casing lower-case hexadecimal digits `ds` gives upper-case digits of the same
      values. */
  lemma UpperDigits(g: JsString, ds: seq<nat>)
    requires |g| == |ds|
    requires forall k | 0 <= k < |g| :: DigitOf(g[k]) == Some(ds[k]) && ds[k] < 16 && g[k] < 128 && !IsUpper(g[k])
    ensures |ToUpper(g)| == |g|
    ensures forall k | 0 <= k < |g| :: DigitOf(ToUpper(g)[k]) == Some(ds[k]) && IsUpperHexDigit(ToUpper(g)[k])
  {
    ToUpperAscii(g);
    var r := ToUpper(g);
    forall k | 0 <= k < |g| ensures DigitOf(r[k]) == Some(ds[k]) && IsUpperHexDigit(r[k]) {
      FoldHexDigit(g[k], ds[k]);
    }
  }

  /** Upper-casing a hexadecimal digit keeps its value and makes it an upper-case digit. */
  lemma FoldHexDigit(c: CodeUnit, d: nat)
    requires DigitOf(c) == Some(d) && d < 16 && !IsUpper(c)
    ensures DigitOf(Fold(c)) == Some(d) && IsUpperHexDigit(Fold(c))
  {
  }

  /** A byte's cell is its two upper-case hexadecimal digits, which read back as the byte;
      past the end of the data the cell is two spaces. */
  lemma HexCellOf(data: seq<byte>, k: nat)
    ensures var cell := HexCell(data, k, HexField);
      |cell| == 2
      && (k < |data| ==> IsUpperHexDigit(cell[0]) && IsUpperHexDigit(cell[1]) && ParseInt(cell, 16) == Some(data[k]))
      && (k >= |data| ==> cell == [32, 32])
  {
    PowersOf16();
    if k < |data| {
      HexFieldDigits(data[k], 2);
    }
  }

  /** Where the start of cell `j` of a line is. */
  function CellStart(j: nat): nat
  {
    if j < 8 then 10 + 3 * j else 35 + 3 * (j - 8)
  }

  /** A rendering that writes every byte in two characters, none of them a line break. */
  ghost predicate ByteCells(hexOf: HexOf)
  {
    forall b: byte :: |hexOf(b, 2)| == 2 && 10 !in hexOf(b, 2)
  }

  lemma HexFieldCells()
    ensures ByteCells(HexField)
  {
    PowersOf16();
    forall b: byte ensures |HexField(b, 2)| == 2 && 10 !in HexField(b, 2) {
      HexFieldNoBreak(b, 2);
    }
  }

  /** Hexadecimal digits hold no line break. */
  lemma HexFieldNoBreak(n: nat, width: nat)
    requires width >= 1 && n < Power(16, width)
    ensures |HexField(n, width)| == width && 10 !in HexField(n, width)
  {
    HexFieldDigits(n, width);
    UpperHexNoBreak(HexField(n, width));
  }

  lemma UpperHexNoBreak(r: JsString)
    requires forall k | 0 <= k < |r| :: IsUpperHexDigit(r[k])
    ensures 10 !in r
  {
    assert forall k | 0 <= k < |r| :: r[k] != 10;
  }

  lemma HexCellWith(data: seq<byte>, k: nat, hexOf: HexOf)
    requires ByteCells(hexOf)
    ensures |HexCell(data, k, hexOf)| == 2 && 10 !in HexCell(data, k, hexOf)
  {
    if k < |data| {
      var b := data[k];
      assert |hexOf(b, 2)| == 2 && 10 !in hexOf(b, 2);
    }
  }

  lemma HalfLineLayout(data: seq<byte>, lo: nat, j: nat, hexOf: HexOf)
    requires ByteCells(hexOf) && j < 8
    ensures |Join(HalfLine(data, lo, hexOf), [32])| == 23
    ensures Join(HalfLine(data, lo, hexOf), [32])[3 * j..3 * j + 2] == HexCell(data, lo + j, hexOf)
  {
    var cells := HalfLine(data, lo, hexOf);
    forall t | 0 <= t < 8 ensures |cells[t]| == 2 {
      HexCellWith(data, lo + t, hexOf);
    }
    JoinLength(cells, [32], 2);
    JoinCellAt(cells, 32, 2, j);
  }

  /** Where the pieces of a body sit, whatever their contents. */
  lemma Frame(h: JsString, j1: JsString, j2: JsString, col: JsString)
    requires |h| == 8 && |j1| == 23 && |j2| == 23 && |col| == BytesPerLine
    ensures var b := h + Gap + j1 + Gap + j2 + Gap + Bar + col + Bar;
      |b| == 78 && b[..8] == h && b[60] == '|' as int && b[61..77] == col && b[77] == '|' as int
      && (forall t | 0 <= t < 23 :: b[10 + t] == j1[t] && b[35 + t] == j2[t])
  {
    var b := h + Gap + j1 + Gap + j2 + Gap + Bar + col + Bar;
    assert b[61..77] == col;
  }

  lemma BodyFrameWith(data: seq<byte>, i: nat, hexOf: HexOf)
    requires ByteCells(hexOf) && |hexOf(i, 8)| == 8
    ensures var b := Body(data, i, hexOf);
      |b| == 78 && b[..8] == hexOf(i, 8)
      && b[60] == '|' as int && b[61..77] == Column(data, i) && b[77] == '|' as int
  {
    HalfLineLayout(data, i, 0, hexOf);
    HalfLineLayout(data, i + 8, 0, hexOf);
    Frame(hexOf(i, 8), Join(HalfLine(data, i, hexOf), [32]), Join(HalfLine(data, i + 8, hexOf), [32]), Column(data, i));
  }

  lemma FrameCells(h: JsString, j1: JsString, j2: JsString, col: JsString, t: nat)
    requires |h| == 8 && |j1| == 23 && |j2| == 23 && |col| == BytesPerLine && t + 2 <= 23
    ensures var b := h + Gap + j1 + Gap + j2 + Gap + Bar + col + Bar;
      |b| == 78 && b[10 + t..12 + t] == j1[t..t + 2] && b[35 + t..37 + t] == j2[t..t + 2]
  {
    Frame(h, j1, j2, col);
  }

  lemma BodyCellWith(data: seq<byte>, i: nat, j: nat, hexOf: HexOf)
    requires ByteCells(hexOf) && |hexOf(i, 8)| == 8 && j < BytesPerLine
    ensures var b := Body(data, i, hexOf);
      CellStart(j) + 2 <= |b| && b[CellStart(j)..CellStart(j) + 2] == HexCell(data, i + j, hexOf)
  {
    var j1 := Join(HalfLine(data, i, hexOf), [32]);
    var j2 := Join(HalfLine(data, i + 8, hexOf), [32]);
    HalvesCell(data, i, j, hexOf);
    FrameCell(hexOf(i, 8), j1, j2, Column(data, i), j, HexCell(data, i + j, hexOf));
  }

  /** Both halves take 23 code units, and cell `j` sits in the one it belongs to. */
  lemma HalvesCell(data: seq<byte>, i: nat, j: nat, hexOf: HexOf)
    requires ByteCells(hexOf) && j < BytesPerLine
    ensures var j1, j2 := Join(HalfLine(data, i, hexOf), [32]), Join(HalfLine(data, i + 8, hexOf), [32]);
      var cell := HexCell(data, i + j, hexOf);
      |j1| == 23 && |j2| == 23
      && (j < 8 ==> j1[3 * j..3 * j + 2] == cell)
      && (j >= 8 ==> j2[3 * (j - 8)..3 * (j - 8) + 2] == cell)
  {
    HalfLineLayout(data, i, if j < 8 then j else 0, hexOf);
    HalfLineLayout(data, i + 8, if j >= 8 then j - 8 else 0, hexOf);
  }

  /** Cell `j` of the two halves sits at `CellStart(j)` of the body. */
  lemma FrameCell(h: JsString, j1: JsString, j2: JsString, col: JsString, j: nat, cell: JsString)
    requires |h| == 8 && |j1| == 23 && |j2| == 23 && |col| == BytesPerLine && j < BytesPerLine
    requires j < 8 ==> j1[3 * j..3 * j + 2] == cell
    requires j >= 8 ==> j2[3 * (j - 8)..3 * (j - 8) + 2] == cell
    ensures var b := h + Gap + j1 + Gap + j2 + Gap + Bar + col + Bar;
      CellStart(j) + 2 <= |b| && b[CellStart(j)..CellStart(j) + 2] == cell
  {
    FrameCells(h, j1, j2, col, if j < 8 then 3 * j else 3 * (j - 8));
  }

  /** In a line whose offset has at most eight hexadecimal digits: the address takes the first
      eight characters, cell `j` starts at `CellStart(j)`, the ASCII column sits between two
      `|` at 60 and 77, and the body is 78 characters wide. */
  lemma BodyLayout(data: seq<byte>, i: nat, j: nat)
    requires i < 0x1_0000_0000 && j < BytesPerLine
    ensures var b := Body(data, i, HexField);
      |b| == 78 && b[..8] == HexField(i, 8)
      && b[CellStart(j)..CellStart(j) + 2] == HexCell(data, i + j, HexField)
      && b[60] == '|' as int && b[61..77] == Column(data, i) && b[77] == '|' as int
  {
    PowersOf16();
    HexFieldDigits(i, 8);
    HexFieldCells();
    BodyFrameWith(data, i, HexField);
    BodyCellWith(data, i, j, HexField);
  }

  lemma BodyNoBreakWith(data: seq<byte>, i: nat, hexOf: HexOf)
    requires ByteCells(hexOf) && 10 !in hexOf(i, 8)
    ensures 10 !in Body(data, i, hexOf)
  {
    var notBreak := (c: CodeUnit) => c != 10;
    var h1 := HalfLine(data, i, hexOf);
    var h2 := HalfLine(data, i + 8, hexOf);
    forall t | 0 <= t < 8 ensures 10 !in h1[t] && 10 !in h2[t] {
      HexCellWith(data, i + t, hexOf);
      HexCellWith(data, i + 8 + t, hexOf);
    }
    JoinElements(h1, [32], notBreak);
    JoinElements(h2, [32], notBreak);
    var col := Column(data, i);
    forall t | 0 <= t < |col| ensures col[t] != 10 {
      assert col[t] == AsciiCell(data, i + t);
    }
  }

  /** A line's body holds no line break: its characters are hexadecimal digits, spaces, `|`,
      bytes between 32 and 126 and `.`. */
  lemma BodyNoBreak(data: seq<byte>, i: nat)
    requires i < 0x1_0000_0000
    ensures 10 !in Body(data, i, HexField)
  {
    PowersOf16();
    HexFieldNoBreak(i, 8);
    HexFieldCells();
    BodyNoBreakWith(data, i, HexField);
  }

  /** The bodies of the lines of the dump. */
  function Bodies(data: seq<byte>): (bs: seq<JsString>)
    ensures |bs| == LineCount(|data|)
  {
    seq(LineCount(|data|), t requires 0 <= t < LineCount(|data|) => Body(data, BytesPerLine * t, HexField))
  }

  /** The dump is one line per 16-byte chunk, `ceil(n / 16)` of them: split at line breaks it
      gives the line bodies and one empty string after the last break. It is 79 characters
      per line, and empty for empty data. */
  lemma {:induction false} HexDumpLines(data: seq<byte>)
    requires |data| <= 0x1_0000_0000
    ensures SplitOn(HexDump(data), 10) == Bodies(data) + [[]]
    ensures |HexDump(data)| == 79 * LineCount(|data|)
  {
    var bs := Bodies(data);
    DumpJoin(data);
    LinesShape(data);
    SplitOnJoin(bs + [[]], 10);
    JoinLength(Lines(data, LineCount(|data|), HexField), [], 79);
  }

  /** The dump is the line bodies joined by line breaks, with a break after the last. */
  lemma {:induction false} DumpJoin(data: seq<byte>)
    ensures HexDump(data) == Join(Bodies(data) + [[]], [10])
  {
    var bs := Bodies(data);
    var ls := Lines(data, LineCount(|data|), HexField);
    assert ls == seq(|bs|, t requires 0 <= t < |bs| => bs[t] + [10]);
    TerminatedJoin(bs, 10);
  }

  lemma {:induction false} LinesShape(data: seq<byte>)
    requires |data| <= 0x1_0000_0000
    ensures var bs, ls := Bodies(data), Lines(data, LineCount(|data|), HexField);
      (forall t | 0 <= t < |bs + [[]]| :: 10 !in (bs + [[]])[t])
      && forall t | 0 <= t < |ls| :: |ls[t]| == 79
  {
    var bs, ls := Bodies(data), Lines(data, LineCount(|data|), HexField);
    forall t | 0 <= t < |bs| ensures 10 !in bs[t] && |ls[t]| == 79 {
      LineShape(data, t);
    }
    assert forall t | 0 <= t < |bs| :: (bs + [[]])[t] == bs[t];
  }

  /** Line `t` of the dump is its 78-character body, which holds no line break, and a break. */
  lemma LineShape(data: seq<byte>, t: nat)
    requires |data| <= 0x1_0000_0000 && t < LineCount(|data|)
    ensures var b := Body(data, BytesPerLine * t, HexField);
      10 !in b && |b| == 78 && |Line(data, BytesPerLine * t, HexField)| == 79
  {
    var i := BytesPerLine * t;
    assert i < |data|;
    BodyNoBreak(data, i);
    BodyLayout(data, i, 0);
  }
}
