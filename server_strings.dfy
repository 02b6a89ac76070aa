/** `extract_strings` of `backend/server.py`: the printable strings of an uploaded file, the
    characters `chr(b)` of its bytes for which `isprintable()` holds and which are not a line
    feed, carriage return or tab. */
module ServerStrings {
  import opened Text
  import opened Py
  import opened StringScan

  /** The bytes `extract_strings` keeps in a string. */
  predicate Kept(b: byte)
  {
    IsPrintableByte(b) && b != '\n' as int && b != '\r' as int && b != '\t' as int
  }

  /** `extract_strings(data, min_length)`. */
  method ExtractStrings(data: seq<byte>, minLength: int) returns (strings: seq<string>)
    ensures strings == Texts(data, Extract(data, Kept, minLength))
  {
    strings := [];
    var currentString: string := "";
    ghost var runs: seq<Run>, open: nat := [], 0;
    for i := 0 to |data|
      invariant (runs, open) == ScanState(data, Kept, minLength, i)
      invariant strings == Texts(data, runs) && currentString == RunChars(data, Run(i - open, open))
    {
      strings, currentString, runs, open := ScanByte(data, minLength, i, strings, currentString, runs, open);
    }
    strings := FlushRun(data, minLength, strings, currentString, runs, open);
  }

  /** One pass of the loop over the bytes, at `data[i]`. */
  method ScanByte(data: seq<byte>, minLength: int, i: nat, strings: seq<string>, currentString: string,
                  ghost runs: seq<Run>, ghost open: nat)
    returns (strings': seq<string>, currentString': string, ghost runs': seq<Run>, ghost open': nat)
    requires i < |data|
    requires (runs, open) == ScanState(data, Kept, minLength, i)
    requires strings == Texts(data, runs) && currentString == RunChars(data, Run(i - open, open))
    ensures (runs', open') == ScanState(data, Kept, minLength, i + 1)
    ensures strings' == Texts(data, runs') && currentString' == RunChars(data, Run(i + 1 - open', open'))
  {
    var c := data[i] as char;
    if IsPrintableByte(data[i]) && c !in "\n\r\t" {
      PrintableStep(data, Kept, minLength, i);
      strings', currentString', runs', open' := strings, currentString + [c], runs, open + 1;
    } else {
      ClosingStep(data, Kept, minLength, i);
      strings', runs' := strings, runs;
      if |currentString| >= minLength {
        strings' := strings + [currentString];
        runs' := runs + [Run(i - open, open)];
      }
      currentString', open' := "", 0;
    }
  }

  /** The run still open after the last byte is kept when it is long enough. */
  method FlushRun(data: seq<byte>, minLength: int, strings: seq<string>, currentString: string,
                  ghost runs: seq<Run>, ghost open: nat)
    returns (strings': seq<string>)
    requires (runs, open) == ScanState(data, Kept, minLength, |data|)
    requires strings == Texts(data, runs) && currentString == RunChars(data, Run(|data| - open, open))
    ensures strings' == Texts(data, Extract(data, Kept, minLength))
  {
    strings' := strings;
    if |currentString| >= minLength {
      TextsAppend(data, runs, Run(|data| - open, open));
      strings' := strings + [currentString];
    }
  }

  /** The exclusion of line feed, carriage return and tab changes nothing: `isprintable()`
      already rejects them. */
  lemma KeptIsPrintable(b: byte)
    ensures Kept(b) <==> IsPrintableByte(b)
  {
  }

  /** Every string has at least `minLength` characters, each `chr` of a byte for which
      `isprintable()` holds and none a line break or tab, and is the text of a run of such
      bytes that cannot be extended to either side. */
  lemma StringsSound(data: seq<byte>, minLength: int)
    ensures var runs := Extract(data, Kept, minLength);
      var ss := Texts(data, runs);
      forall a | 0 <= a < |ss| ::
        |ss[a]| >= minLength && ss[a] == RunChars(data, runs[a])
        && Maximal(data, Kept, runs[a].offset, runs[a].length)
        && (forall k | 0 <= k < |ss[a]| :: IsPrintableByte(ss[a][k] as int) && ss[a][k] !in "\n\r\t")
  {
    var runs := Extract(data, Kept, minLength);
    ExtractSound(data, Kept, minLength);
    var ss := Texts(data, runs);
    forall a | 0 <= a < |ss|
      ensures forall k | 0 <= k < |ss[a]| :: IsPrintableByte(ss[a][k] as int) && ss[a][k] !in "\n\r\t"
    {
      var r := runs[a];
      forall k | 0 <= k < |ss[a]| ensures IsPrintableByte(ss[a][k] as int) && ss[a][k] !in "\n\r\t" {
        assert ss[a][k] as int == data[r.offset + k];
        assert Kept(data[r.offset + k]);
      }
    }
  }

  /** The strings come in the order of the runs they came from, none overlapping the next. */
  lemma StringsInOrder(data: seq<byte>, minLength: int)
    ensures InOrder(Extract(data, Kept, minLength))
  {
    ExtractInOrder(data, Kept, minLength);
  }

  /** Every maximal run of at least `minLength` kept bytes is listed, the run still open at the
      end of the data included. */
  lemma StringsComplete(data: seq<byte>, minLength: int, o: nat, l: nat)
    requires l >= minLength && Maximal(data, Kept, o, l)
    ensures RunChars(data, Run(o, l)) in Texts(data, Extract(data, Kept, minLength))
  {
    var runs := Extract(data, Kept, minLength);
    ExtractComplete(data, Kept, minLength, o, l);
    var a :| 0 <= a < |runs| && runs[a] == Run(o, l);
    assert Texts(data, runs)[a] == RunChars(data, Run(o, l));
  }

  /** Empty data gives no strings when `min_length` is positive; with `min_length <= 0` the
      final flush appends the empty string. */
  lemma StringsEmpty(minLength: int)
    ensures minLength >= 1 ==> Texts([], Extract([], Kept, minLength)) == []
    ensures minLength <= 0 ==> Texts([], Extract([], Kept, minLength)) == [""]
  {
    if minLength <= 0 {
      assert Extract([], Kept, minLength) == [Run(0, 0)];
    }
  }
}
