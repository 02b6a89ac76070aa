/** `analyze_file_metadata` of the exiftool-analyzer script: basic facts from `stat`, the first
    sixteen bytes in upper-case hexadecimal with a file type read from their magic prefix,
    three digests of the content, and a count and sample of the lines printed by the `strings`
    command; any exception outside the `strings` step turns the whole result into an error
    entry. The file system is given as results of `stat` and of reading the file, the digests
    (`hashlib`) as functions of the content and the `strings` run as its outcome. */
module Exiftool {
  import opened Text
  import opened Wrappers
  import Py

  // File type by magic bytes

  const JpegMagic: seq<byte> := [0xFF, 0xD8, 0xFF]
  const PngMagic: seq<byte> := [0x89, 0x50, 0x4E, 0x47]
  const GifMagic: seq<byte> := [0x47, 0x49, 0x46, 0x38]
  const PdfMagic: seq<byte> := [0x25, 0x50, 0x44, 0x46]
  const ZipMagic: seq<byte> := [0x50, 0x4B, 0x03, 0x04]
  const ElfMagic: seq<byte> := [0x7F, 0x45, 0x4C, 0x46]
  const MzMagic: seq<byte> := [0x4D, 0x5A]

  const Unknown := "Unknown"

  /** The `if`/`elif` chain on `header.startswith(...)`. */
  function FileType(header: seq<byte>): string
  {
    if StartsWith(header, JpegMagic) then "JPEG Image"
    else if StartsWith(header, PngMagic) then "PNG Image"
    else if StartsWith(header, GifMagic) then "GIF Image"
    else if StartsWith(header, PdfMagic) then "PDF Document"
    else if StartsWith(header, ZipMagic) then "ZIP Archive"
    else if StartsWith(header, ElfMagic) then "ELF Executable"
    else if StartsWith(header, MzMagic) then "Windows Executable"
    else Unknown
  }

  /** The signatures as a table, in the order they are tried. */
  const Signatures: seq<(seq<byte>, string)> := [
    (JpegMagic, "JPEG Image"), (PngMagic, "PNG Image"), (GifMagic, "GIF Image"),
    (PdfMagic, "PDF Document"), (ZipMagic, "ZIP Archive"), (ElfMagic, "ELF Executable"),
    (MzMagic, "Windows Executable")]

  /** The name of the first signature of `table` that `header` starts with. */
  function FirstMatch(header: seq<byte>, table: seq<(seq<byte>, string)>): string
  {
    if |table| == 0 then Unknown
    else if StartsWith(header, table[0].0) then table[0].1
    else FirstMatch(header, table[1..])
  }

  /** A table lookup names the first signature the header starts with, and gives `Unknown`
      exactly when none fits (for a table whose names are not `Unknown`). */
  lemma {:induction false} FirstMatchSpec(header: seq<byte>, table: seq<(seq<byte>, string)>)
    requires forall i | 0 <= i < |table| :: table[i].1 != Unknown
    ensures var r := FirstMatch(header, table);
      (r == Unknown <==> forall i | 0 <= i < |table| :: !StartsWith(header, table[i].0))
      && (r != Unknown ==> exists i | 0 <= i < |table| ::
            StartsWith(header, table[i].0) && r == table[i].1
            && forall j | 0 <= j < i :: !StartsWith(header, table[j].0))
    decreases |table|
  {
    if |table| > 0 && !StartsWith(header, table[0].0) {
      var t := table[1..];
      assert forall i | 0 <= i < |t| :: t[i] == table[i + 1];
      FirstMatchSpec(header, t);
      var r := FirstMatch(header, t);
      if r != Unknown {
        var i :| 0 <= i < |t| && StartsWith(header, t[i].0) && r == t[i].1
          && forall j | 0 <= j < i :: !StartsWith(header, t[j].0);
        assert StartsWith(header, table[i + 1].0) && r == table[i + 1].1;
        assert forall j | 0 <= j < i + 1 :: !StartsWith(header, table[j].0) by {
          forall j | 0 <= j < i + 1 ensures !StartsWith(header, table[j].0) {
            if j > 0 {
              assert table[j] == t[j - 1];
            }
          }
        }
      } else {
        forall i | 0 <= i < |table| ensures !StartsWith(header, table[i].0) {
          if i > 0 {
            assert table[i] == t[i - 1];
          }
        }
      }
    }
  }

  /** The chain is the table lookup. */
  lemma {:induction false} FileTypeIsFirstMatch(header: seq<byte>)
    ensures FileType(header) == FirstMatch(header, Signatures)
  {
    var t := Signatures;
    assert t[0..] == t;
    FirstMatchStep(header, t, 0);
    if !StartsWith(header, JpegMagic) {
      FirstMatchStep(header, t, 1);
      if !StartsWith(header, PngMagic) {
        FirstMatchStep(header, t, 2);
        if !StartsWith(header, GifMagic) {
          FirstMatchStep(header, t, 3);
          if !StartsWith(header, PdfMagic) {
            FirstMatchStep(header, t, 4);
            if !StartsWith(header, ZipMagic) {
              FirstMatchStep(header, t, 5);
              if !StartsWith(header, ElfMagic) {
                FirstMatchStep(header, t, 6);
                assert t[7..] == [];
              }
            }
          }
        }
      }
    }
  }

  lemma {:induction false} FirstMatchStep(header: seq<byte>, table: seq<(seq<byte>, string)>, k: nat)
    requires k < |table|
    ensures FirstMatch(header, table[k..])
      == if StartsWith(header, table[k].0) then table[k].1 else FirstMatch(header, table[k + 1..])
  {
    assert table[k..][1..] == table[k + 1..];
  }

  /** The file type names the first signature the header starts with, and is `Unknown`
      exactly when none fits. */
  lemma FileTypeSpec(header: seq<byte>)
    ensures var r := FileType(header);
      (r == Unknown <==> forall i | 0 <= i < |Signatures| :: !StartsWith(header, Signatures[i].0))
      && (r != Unknown ==> exists i | 0 <= i < |Signatures| ::
            StartsWith(header, Signatures[i].0) && r == Signatures[i].1
            && forall j | 0 <= j < i :: !StartsWith(header, Signatures[j].0))
  {
    FileTypeIsFirstMatch(header);
    assert forall i | 0 <= i < |Signatures| :: Signatures[i].1 != Unknown;
    FirstMatchSpec(header, Signatures);
  }

  /** The signatures begin with different bytes, so a header fits at most one of them and the
      order of the chain does not matter. */
  lemma SignaturesExclusive(header: seq<byte>, i: nat, j: nat)
    requires i < j < |Signatures|
    ensures !(StartsWith(header, Signatures[i].0) && StartsWith(header, Signatures[j].0))
  {
    var firsts: seq<byte> := [0xFF, 0x89, 0x47, 0x25, 0x50, 0x7F, 0x4D];
    assert forall k | 0 <= k < |Signatures| :: |Signatures[k].0| > 0 && Signatures[k].0[0] == firsts[k];
    assert firsts[i] != firsts[j];
  }

  /** Sixteen bytes are enough: every signature is shorter, so the type of the header read is
      the type of the whole content. */
  lemma FileTypeOfHeader(content: seq<byte>)
    ensures FileType(Header(content)) == FileType(content)
  {
    var h := Header(content);
    forall p: seq<byte> | |p| <= HeaderSize ensures StartsWith(h, p) == StartsWith(content, p) {
      if |p| <= |h| {
        assert h[..|p|] == content[..|p|];
      }
    }
  }

  // The header

  const HeaderSize: nat := 16

  /** `f.read(16)`: the first sixteen bytes, or all of a shorter file. */
  function Header(content: seq<byte>): (h: seq<byte>)
    ensures |h| == if |content| < HeaderSize then |content| else HeaderSize
    ensures h <= content
  {
    if |content| < HeaderSize then content else content[..HeaderSize]
  }

  /** The `File Header` entry: two upper-case hexadecimal digits per byte of the header. */
  lemma HeaderHexSpec(content: seq<byte>)
    ensures var hex := Py.HexUpper(Header(content));
      |hex| == 2 * (if |content| < HeaderSize then |content| else HeaderSize)
      && forall k | 0 <= k < |Header(content)| :: hex[2 * k..2 * k + 2] == Py.HexByteUpper(content[k])
  {
  }

  // Permissions: `oct(st_mode)[-3:]`

  function OctalDigit(d: nat): (c: char)
    requires d < 8
    ensures '0' <= c <= '7'
  {
    (48 + d) as char
  }

  /** `oct(m)`: `0o` and the octal digits of `m`. */
  function Oct(m: nat): (r: string)
    ensures |r| >= 3 && r[..2] == "0o"
  {
    var ds := Digits(m, 8);
    "0o" + seq(|ds|, k requires 0 <= k < |ds| => OctalDigit(ds[k]))
  }

  /** The last three characters of `oct(m)`. */
  function Permissions(m: nat): (r: string)
    ensures |r| == 3
  {
    var o := Oct(m);
    o[|o| - 3..]
  }

  /** The digits of a number of at least two digits: those of its quotient, then its last. */
  lemma DigitsStep(n: nat)
    requires n >= 8
    ensures Digits(n, 8) == Digits(n / 8, 8) + [n % 8]
  {
  }

  /** For a mode of at least three octal digits (any mode `stat` reports, since it holds the
      file-type bits) the entry is the three permission digits: owner, group and others. */
  lemma {:induction false} PermissionsSpec(m: nat)
    requires m >= 64
    ensures Permissions(m) == [OctalDigit(m / 64 % 8), OctalDigit(m / 8 % 8), OctalDigit(m % 8)]
  {
    var ds := Digits(m, 8);
    LastThreeDigits(m);
    var o := Oct(m);
    assert |o| == 2 + |ds|;
    assert o[|o| - 3] == OctalDigit(ds[|ds| - 3]);
    assert o[|o| - 2] == OctalDigit(ds[|ds| - 2]);
    assert o[|o| - 1] == OctalDigit(ds[|ds| - 1]);
  }

  /** The last three octal digits of a number of at least three. */
  lemma {:induction false} LastThreeDigits(m: nat)
    requires m >= 64
    ensures var ds := Digits(m, 8);
      |ds| >= 3 && ds[|ds| - 3] == m / 64 % 8 && ds[|ds| - 2] == m / 8 % 8 && ds[|ds| - 1] == m % 8
  {
    DigitsStep(m);
    DigitsStep(m / 8);
    assert m / 8 / 8 == m / 64;
    var front := Digits(m / 64, 8);
    assert front[|front| - 1] == m / 64 % 8 by {
      if m / 64 >= 8 {
        DigitsStep(m / 64);
      }
    }
    assert Digits(m, 8) == front + [m / 8 % 8] + [m % 8];
  }

  /** A mode below `0o100` would keep part of the `0o` prefix. */
  lemma PermissionsSmallMode(m: nat)
    requires m < 64
    ensures 'o' in Permissions(m)
  {
    var ds := Digits(m, 8);
    if m >= 8 {
      DigitsStep(m);
    }
    assert |ds| <= 2;
    var o := Oct(m);
    assert o[1] == 'o';
    assert Permissions(m)[1 - (|o| - 3)] == o[1];
  }

  // The `strings` step

  /** How `subprocess.run(['strings', path], ...)` ended: it returned, or it raised (the
      command is missing or timed out). */
  datatype StringsRun = Completed(returncode: int, stdout: string) | Raised

  /** The lines of `result.stdout.strip().split('\n')`. */
  function StringLines(stdout: string): (lines: seq<string>)
    ensures |lines| >= 1
  {
    SplitOn(Py.Strip(stdout), '\n')
  }

  predicate LongEnough(s: string) { |s| >= 4 }

  const SampleSize: nat := 5

  /** `strings[:5]`. */
  function Sample(lines: seq<string>): seq<string>
  {
    if |lines| <= SampleSize then lines else lines[..SampleSize]
  }

  // The metadata

  /** A value of the metadata dictionary. */
  datatype Value = Textual(text: string) | Number(n: nat) | Lines(lines: seq<string>)

  /** The dictionary, as its entries in insertion order. */
  type Metadata = seq<(string, Value)>

  /** What `stat` reports; the modification time is given as the text `isoformat` prints. */
  datatype Stat = Stat(size: nat, mode: nat, modified: string)

  /** The digest functions of `hashlib`, as hexadecimal text. */
  datatype Digests = Digests(md5: seq<byte> -> string, sha1: seq<byte> -> string, sha256: seq<byte> -> string)

  const ErrorPrefix := "Failed to analyze file: "
  const NoStrings := "N/A (strings command not available)"

  /** The entries added by the `strings` step. */
  function StringsEntries(run: StringsRun): Metadata
  {
    match run
    case Raised => [("Strings Count", Textual(NoStrings))]
    case Completed(code, stdout) =>
      if code == 0 then
        var lines := StringLines(stdout);
        [("Strings Count", Number(|Filter(lines, LongEnough)|)), ("Sample Strings", Lines(Sample(lines)))]
      else []
  }

  /** The entries taken from `stat`. */
  function StatEntries(name: string, st: Stat): Metadata
  {
    [("File Name", Textual(name)),
     ("File Size", Textual(Py.Decimal(st.size) + " bytes")),
     ("File Modified", Textual(st.modified)),
     ("File Permissions", Textual(Permissions(st.mode)))]
  }

  /** The entries taken from the content. */
  function ContentEntries(content: seq<byte>, digests: Digests): Metadata
  {
    [("File Header", Textual(Py.HexUpper(Header(content)))),
     ("File Type", Textual(FileType(Header(content)))),
     ("MD5", Textual(digests.md5(content))),
     ("SHA1", Textual(digests.sha1(content))),
     ("SHA256", Textual(digests.sha256(content)))]
  }

  /** The entries of a file that `stat` and `open` could read, in insertion order. */
  function FileEntries(name: string, st: Stat, content: seq<byte>, digests: Digests, run: StringsRun): Metadata
  {
    StatEntries(name, st) + ContentEntries(content, digests) + StringsEntries(run)
  }

  function ErrorEntry(message: string): Metadata
  {
    [("Error", Textual(ErrorPrefix + message))]
  }

  /** `analyze_file_metadata(file_path)`: the metadata filled step by step, and the error entry
      alone once `stat` or a read of the file raises. */
  method AnalyzeFileMetadata(name: string, stat: Result<Stat, string>, content: Result<seq<byte>, string>,
                             digests: Digests, run: StringsRun) returns (metadata: Metadata)
    ensures stat.Failure? ==> metadata == ErrorEntry(stat.error)
    ensures stat.Success? && content.Failure? ==> metadata == ErrorEntry(content.error)
    ensures stat.Success? && content.Success? ==>
      metadata == FileEntries(name, stat.value, content.value, digests, run)
  {
    if stat.Failure? {
      return ErrorEntry(stat.error);
    }
    metadata := StatStep(name, stat.value);
    if content.Failure? {
      return ErrorEntry(content.error);
    }
    metadata := ContentStep(metadata, content.value, digests);
    metadata := StringsStep(metadata, run);
  }

  /** The four `stat` entries, added one at a time. */
  method StatStep(name: string, st: Stat) returns (metadata: Metadata)
    ensures metadata == StatEntries(name, st)
  {
    metadata := [];
    metadata := metadata + [("File Name", Textual(name))];
    metadata := metadata + [("File Size", Textual(Py.Decimal(st.size) + " bytes"))];
    metadata := metadata + [("File Modified", Textual(st.modified))];
    metadata := metadata + [("File Permissions", Textual(Permissions(st.mode)))];
  }

  /** The header, type and digest entries, appended one at a time. */
  method ContentStep(m0: Metadata, data: seq<byte>, digests: Digests) returns (metadata: Metadata)
    ensures metadata == m0 + ContentEntries(data, digests)
  {
    var header := Header(data);
    metadata := m0;
    metadata := metadata + [("File Header", Textual(Py.HexUpper(header)))];
    metadata := metadata + [("File Type", Textual(FileType(header)))];
    metadata := metadata + [("MD5", Textual(digests.md5(data)))];
    metadata := metadata + [("SHA1", Textual(digests.sha1(data)))];
    metadata := metadata + [("SHA256", Textual(digests.sha256(data)))];
  }

  /** The entries of the `strings` step appended. */
  method StringsStep(m0: Metadata, run: StringsRun) returns (metadata: Metadata)
    ensures metadata == m0 + StringsEntries(run)
  {
    metadata := m0;
    match run {
      case Raised =>
        metadata := metadata + [("Strings Count", Textual(NoStrings))];
      case Completed(code, stdout) =>
        if code == 0 {
          var strings := SplitOn(Py.Strip(stdout), '\n');
          metadata := metadata + [("Strings Count", Number(|Filter(strings, LongEnough)|))];
          metadata := metadata + [("Sample Strings", Lines(Sample(strings)))];
        }
    }
  }

  // What the metadata holds

  function Keys(m: Metadata): (ks: seq<string>)
    ensures |ks| == |m|
  {
    seq(|m|, i requires 0 <= i < |m| => m[i].0)
  }

  const BaseKeys: seq<string> := ["File Name", "File Size", "File Modified", "File Permissions",
    "File Header", "File Type", "MD5", "SHA1", "SHA256"]

  const StringsCountKey := "Strings Count"
  const SampleKey := "Sample Strings"

  /** The keys the `strings` step adds: the count and the sample after a successful run,
      nothing after a failing one, and the count alone when the command could not run. */
  lemma StringsKeys(run: StringsRun)
    ensures var ks := Keys(StringsEntries(run));
      (run.Raised? ==> ks == [StringsCountKey])
      && (run.Completed? && run.returncode == 0 ==> ks == [StringsCountKey, SampleKey])
      && (run.Completed? && run.returncode != 0 ==> ks == [])
  {
  }

  /** No two of the keys a file can get are equal. */
  lemma KeysDistinct()
    ensures NoDuplicates(BaseKeys + [StringsCountKey, SampleKey])
  {
    var ks := BaseKeys + [StringsCountKey, SampleKey];
    var lens: seq<nat> := [9, 9, 13, 16, 11, 9, 3, 4, 6, 13, 14];
    assert forall k | 0 <= k < |ks| :: |ks[k]| == lens[k];
    assert ks[0][5] == 'N' && ks[1][5] == 'S' && ks[5][5] == 'T' && ks[2][0] == 'F' && ks[9][0] == 'S';
  }

  lemma PrefixNoDuplicates<T>(s: seq<T>, n: nat)
    requires NoDuplicates(s) && n <= |s|
    ensures NoDuplicates(s[..n])
  {
    assert forall i | 0 <= i < n :: s[..n][i] == s[i];
  }

  /** A file that could be read gets the nine basic keys in this order, then those of the
      `strings` step; no key is repeated, so the list of entries is the dictionary. */
  lemma {:induction false} FileKeys(name: string, st: Stat, content: seq<byte>, digests: Digests, run: StringsRun)
    ensures var ks := Keys(FileEntries(name, st, content, digests, run));
      ks == BaseKeys + Keys(StringsEntries(run)) && NoDuplicates(ks)
  {
    var base := StatEntries(name, st) + ContentEntries(content, digests);
    var extra := Keys(StringsEntries(run));
    var all := BaseKeys + [StringsCountKey, SampleKey];
    assert FileEntries(name, st, content, digests, run) == base + StringsEntries(run);
    KeysAppend(base, StringsEntries(run));
    BaseEntryKeys(name, st, content, digests);
    StringsKeys(run);
    KeysDistinct();
    assert BaseKeys + extra == all[..9 + |extra|];
    PrefixNoDuplicates(all, 9 + |extra|);
  }

  lemma KeysAppend(a: Metadata, b: Metadata)
    ensures Keys(a + b) == Keys(a) + Keys(b)
  {
  }

  lemma BaseEntryKeys(name: string, st: Stat, content: seq<byte>, digests: Digests)
    ensures Keys(StatEntries(name, st) + ContentEntries(content, digests)) == BaseKeys
  {
  }

  /** The `strings` entries: the count is the number of lines with at least four
      characters, and the sample the first five lines (or all of fewer); output that is only
      white space gives one empty line, so a count of zero and a sample of `[""]`. */
  lemma StringsSpec(stdout: string)
    ensures var lines := StringLines(stdout); var s := Sample(lines);
      |Filter(lines, LongEnough)| <= |lines|
      && (forall k | 0 <= k < |Filter(lines, LongEnough)| :: |Filter(lines, LongEnough)[k]| >= 4)
      && s <= lines && |s| == (if |lines| <= SampleSize then |lines| else SampleSize)
      && ((forall k | 0 <= k < |stdout| :: Py.IsSpace(stdout[k])) ==> lines == [""] && s == [""])
  {
    var lines := StringLines(stdout);
    if forall k | 0 <= k < |stdout| :: Py.IsSpace(stdout[k]) {
      var t := Py.Strip(stdout);
      assert |t| == 0;
      assert '\n' !in t;
    }
  }
}
