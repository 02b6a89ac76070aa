/** The scan behind the three printable-string extractors (`extractStringsFromBinary` of the
    file-analysis page, `extract_strings` of the backend server and the ASCII part of the
    string-extractor script). Bytes are read in order; a byte the extractor counts as
    printable extends the current run and any other byte ends it; a run that ends is kept
    when it has at least `minLength` bytes, and so is the run still open at the end of the
    data. The extractors differ only in what they count as printable. */
module StringScan {
  import opened Text

  /** A kept run: where it starts in the data and how many bytes it has. */
  datatype Run = Run(offset: nat, length: nat)

  /** The bytes `[o, o + l)` are all printable. */
  predicate AllPrintable(data: seq<byte>, printable: byte -> bool, o: nat, l: nat)
    requires o + l <= |data|
  {
    forall k | o <= k < o + l :: printable(data[k])
  }

  /** `[o, o + l)` is a run of printable bytes that cannot be extended to the left. */
  predicate StartsRun(data: seq<byte>, printable: byte -> bool, o: nat, l: nat)
  {
    o + l <= |data| && AllPrintable(data, printable, o, l) && (o == 0 || !printable(data[o - 1]))
  }

  /** `[o, o + l)` is a run of printable bytes that cannot be extended to either side. */
  predicate Maximal(data: seq<byte>, printable: byte -> bool, o: nat, l: nat)
  {
    StartsRun(data, printable, o, l) && (o + l == |data| || !printable(data[o + l]))
  }

  /** A maximal run closed by a non-printable byte (rather than by the end of the data). */
  predicate Closed(data: seq<byte>, printable: byte -> bool, o: nat, l: nat)
  {
    StartsRun(data, printable, o, l) && o + l < |data| && !printable(data[o + l])
  }

  /** The runs kept and the length of the open run after the first `i` bytes. */
  function ScanState(data: seq<byte>, printable: byte -> bool, minLength: int, i: nat): (st: (seq<Run>, nat))
    requires i <= |data|
    ensures st.1 <= i
    ensures forall a | 0 <= a < |st.0| :: st.0[a].offset + st.0[a].length + st.1 < i
    decreases i
  {
    if i == 0 then ([], 0)
    else
      var st := ScanState(data, printable, minLength, i - 1);
      if printable(data[i - 1]) then (st.0, st.1 + 1)
      else if st.1 >= minLength then (st.0 + [Run(i - 1 - st.1, st.1)], 0)
      else (st.0, 0)
  }

  /** One byte of the scan: a printable byte extends the open run, any other byte closes it,
      keeping it when it has at least `minLength` bytes. */
  lemma ScanStep(data: seq<byte>, printable: byte -> bool, minLength: int, i: nat)
    requires i < |data|
    ensures var st := ScanState(data, printable, minLength, i);
      ScanState(data, printable, minLength, i + 1)
      == if printable(data[i]) then (st.0, st.1 + 1)
         else if st.1 >= minLength then (st.0 + [Run(i - st.1, st.1)], 0)
         else (st.0, 0)
  {
  }

  /** The runs an extractor keeps, in order. */
  function Extract(data: seq<byte>, printable: byte -> bool, minLength: int): (runs: seq<Run>)
    ensures forall a | 0 <= a < |runs| :: runs[a].offset + runs[a].length <= |data|
  {
    var st := ScanState(data, printable, minLength, |data|);
    if st.1 >= minLength then st.0 + [Run(|data| - st.1, st.1)] else st.0
  }

  /** The text of a run as Python sees it: `chr` of each byte. */
  function RunChars(data: seq<byte>, r: Run): (s: string)
    requires r.offset + r.length <= |data|
    ensures |s| == r.length && forall k | 0 <= k < |s| :: s[k] as int == data[r.offset + k]
  {
    seq(r.length, k requires 0 <= k < r.length => data[r.offset + k] as char)
  }

  /** The texts of the kept runs. */
  function Texts(data: seq<byte>, runs: seq<Run>): (ts: seq<string>)
    requires forall a | 0 <= a < |runs| :: runs[a].offset + runs[a].length <= |data|
    ensures |ts| == |runs|
  {
    seq(|runs|, a requires 0 <= a < |runs| => RunChars(data, runs[a]))
  }

  lemma TextsAppend(data: seq<byte>, runs: seq<Run>, r: Run)
    requires forall a | 0 <= a < |runs| :: runs[a].offset + runs[a].length <= |data|
    requires r.offset + r.length <= |data|
    ensures Texts(data, runs + [r]) == Texts(data, runs) + [RunChars(data, r)]
  {
  }

  /** A printable byte extends the open run and its text. */
  lemma PrintableStep(data: seq<byte>, printable: byte -> bool, minLength: int, i: nat)
    requires i < |data| && printable(data[i])
    ensures var st := ScanState(data, printable, minLength, i);
      ScanState(data, printable, minLength, i + 1) == (st.0, st.1 + 1)
      && RunChars(data, Run(i - st.1, st.1 + 1)) == RunChars(data, Run(i - st.1, st.1)) + [data[i] as char]
  {
    ScanStep(data, printable, minLength, i);
  }

  /** Any other byte closes the open run, which is kept, with its text, when it is long
      enough. */
  lemma ClosingStep(data: seq<byte>, printable: byte -> bool, minLength: int, i: nat)
    requires i < |data| && !printable(data[i])
    ensures var st := ScanState(data, printable, minLength, i);
      && (st.1 >= minLength ==> ScanState(data, printable, minLength, i + 1) == (st.0 + [Run(i - st.1, st.1)], 0))
      && (st.1 < minLength ==> ScanState(data, printable, minLength, i + 1) == (st.0, 0))
      && Texts(data, st.0 + [Run(i - st.1, st.1)]) == Texts(data, st.0) + [RunChars(data, Run(i - st.1, st.1))]
  {
    var st := ScanState(data, printable, minLength, i);
    ScanStep(data, printable, minLength, i);
    TextsAppend(data, st.0, Run(i - st.1, st.1));
  }

  /** Two runs that cannot be extended to the left and end at the same place start there too. */
  lemma StartUnique(data: seq<byte>, printable: byte -> bool, o1: nat, o2: nat, e: nat)
    requires o1 <= e && o2 <= e
    requires StartsRun(data, printable, o1, e - o1) && StartsRun(data, printable, o2, e - o2)
    ensures o1 == o2
  {
  }

  /** The open run after `i` bytes is the run of `c` printable bytes ending at `i`. */
  predicate OpenRun(data: seq<byte>, printable: byte -> bool, i: nat, c: nat)
    requires c <= i <= |data|
  {
    StartsRun(data, printable, i - c, c)
  }

  /** Every kept run is a closed run of at least `minLength` bytes that ends before `e`. */
  predicate KeptClosed(data: seq<byte>, printable: byte -> bool, minLength: int, rs: seq<Run>, e: nat)
  {
    forall a | 0 <= a < |rs| ::
      rs[a].length >= minLength && Closed(data, printable, rs[a].offset, rs[a].length)
      && rs[a].offset + rs[a].length < e
  }

  /** The runs come in order, each one ending before the next starts. */
  predicate InOrder(rs: seq<Run>)
  {
    forall a, b | 0 <= a < b < |rs| :: rs[a].offset + rs[a].length < rs[b].offset
  }

  /** Every closed run of at least `minLength` bytes that ends before `i` is kept. */
  ghost predicate KeptAll(data: seq<byte>, printable: byte -> bool, minLength: int, rs: seq<Run>, i: nat)
  {
    forall o: nat, l: nat | l >= minLength && Closed(data, printable, o, l) && o + l < i :: Run(o, l) in rs
  }

  lemma {:induction false} ScanOpen(data: seq<byte>, printable: byte -> bool, minLength: int, i: nat)
    requires i <= |data|
    ensures var st := ScanState(data, printable, minLength, i);
      OpenRun(data, printable, i, st.1)
    decreases i
  {
    if i > 0 {
      ScanOpen(data, printable, minLength, i - 1);
    }
  }

  lemma {:induction false} ScanClosed(data: seq<byte>, printable: byte -> bool, minLength: int, i: nat)
    requires i <= |data|
    ensures var st := ScanState(data, printable, minLength, i);
      KeptClosed(data, printable, minLength, st.0, i - st.1)
    decreases i
  {
    if i > 0 {
      ScanClosed(data, printable, minLength, i - 1);
      ScanOpen(data, printable, minLength, i - 1);
      var st := ScanState(data, printable, minLength, i - 1);
      if !printable(data[i - 1]) {
        assert Closed(data, printable, i - 1 - st.1, st.1);
      }
    }
  }

  lemma {:induction false} ScanInOrder(data: seq<byte>, printable: byte -> bool, minLength: int, i: nat)
    requires i <= |data|
    ensures InOrder(ScanState(data, printable, minLength, i).0)
    decreases i
  {
    if i > 0 {
      ScanInOrder(data, printable, minLength, i - 1);
    }
  }

  lemma {:induction false} ScanAll(data: seq<byte>, printable: byte -> bool, minLength: int, i: nat)
    requires i <= |data|
    ensures KeptAll(data, printable, minLength, ScanState(data, printable, minLength, i).0, i)
    decreases i
  {
    if i > 0 {
      ScanAll(data, printable, minLength, i - 1);
      ScanOpen(data, printable, minLength, i - 1);
      var st := ScanState(data, printable, minLength, i - 1);
      var rs, c := st.0, st.1;
      var rs' := ScanState(data, printable, minLength, i).0;
      forall o: nat, l: nat | l >= minLength && Closed(data, printable, o, l) && o + l < i
        ensures Run(o, l) in rs'
      {
        if o + l == i - 1 {
          StartUnique(data, printable, o, i - 1 - c, i - 1);
          assert rs' == rs + [Run(o, l)];
        } else {
          assert Run(o, l) in rs;
        }
      }
    }
  }

  /** Everything an extractor keeps is a maximal run of printable bytes of at least
      `minLength` bytes. */
  lemma ExtractSound(data: seq<byte>, printable: byte -> bool, minLength: int)
    ensures var runs := Extract(data, printable, minLength);
      forall a | 0 <= a < |runs| ::
        runs[a].length >= minLength && Maximal(data, printable, runs[a].offset, runs[a].length)
  {
    ScanClosed(data, printable, minLength, |data|);
    ScanOpen(data, printable, minLength, |data|);
  }

  /** The kept runs come in order of their offsets, each one ending before the next starts. */
  lemma ExtractInOrder(data: seq<byte>, printable: byte -> bool, minLength: int)
    ensures InOrder(Extract(data, printable, minLength))
  {
    ScanClosed(data, printable, minLength, |data|);
    ScanInOrder(data, printable, minLength, |data|);
  }

  /** Every maximal run of printable bytes with at least `minLength` bytes is kept. */
  lemma ExtractComplete(data: seq<byte>, printable: byte -> bool, minLength: int, o: nat, l: nat)
    requires l >= minLength && Maximal(data, printable, o, l)
    ensures Run(o, l) in Extract(data, printable, minLength)
  {
    var st := ScanState(data, printable, minLength, |data|);
    if o + l == |data| {
      ScanOpen(data, printable, minLength, |data|);
      StartUnique(data, printable, o, |data| - st.1, |data|);
      assert Extract(data, printable, minLength) == st.0 + [Run(o, l)];
    } else {
      ScanAll(data, printable, minLength, |data|);
      assert Closed(data, printable, o, l);
      assert Run(o, l) in st.0;
    }
  }

  /** Empty data yields no runs when `minLength` is positive (with a smaller one, the final
      flush keeps the empty open run). */
  lemma ExtractEmpty(printable: byte -> bool, minLength: int)
    requires minLength >= 1
    ensures Extract([], printable, minLength) == []
  {
  }
}
