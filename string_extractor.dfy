/** `backend/custom-scripts/string-extractor/string_extractor.py`: `extract_strings` reads a
    file and lists its ASCII strings (plus the UTF-8 and UTF-16 strings a regular expression
    finds), and `analyze_strings` counts them, looks for seven patterns in them and summarises
    their lengths. Reading the file is given as its outcome; the regular-expression searches are
    parameters. */
module StringExtractor {
  import opened Text
  import opened Wrappers
  import opened StringScan
  import Arith

  // extract_strings

  /** The bytes of an ASCII string: 32 to 126. */
  predicate Ascii(b: byte)
  {
    32 <= b <= 126
  }

  /** The dictionary `extract_strings` returns: the `ascii`, `unicode` and `wide` lists, or the
      single `error` entry. */
  datatype Extracted =
    | Extracted(ascii: seq<string>, unicode: seq<string>, wide: seq<string>)
    | Failed(error: string)

  /** `re.findall` of the string pattern over the UTF-8 (or UTF-16 LE) decoding of the data. */
  type Finder = seq<byte> -> seq<string>

  const ErrorPrefix: string := "Failed to extract strings: "

  /** `extract_strings(file_path, min_length)`, where `read` is the outcome of reading the file
      (the data, or the text of the exception). */
  method ExtractStrings(read: Result<seq<byte>, string>, minLength: int, unicodeOf: Finder, wideOf: Finder)
    returns (r: Extracted)
    ensures read.Failure? ==> r == Failed(ErrorPrefix + read.error)
    ensures read.Success? ==>
      r == Extracted(Texts(read.value, Extract(read.value, Ascii, minLength)), unicodeOf(read.value), wideOf(read.value))
  {
    if read.Failure? {
      return Failed(ErrorPrefix + read.error);
    }
    var data := read.value;
    var asciiStrings: seq<string> := [];
    var currentString: string := "";
    ghost var runs: seq<Run>, open: nat := [], 0;
    for i := 0 to |data|
      invariant (runs, open) == ScanState(data, Ascii, minLength, i)
      invariant asciiStrings == Texts(data, runs) && currentString == RunChars(data, Run(i - open, open))
    {
      asciiStrings, currentString, runs, open := ScanByte(data, minLength, i, asciiStrings, currentString, runs, open);
    }
    asciiStrings := FlushRun(data, minLength, asciiStrings, currentString, runs, open);
    r := Extracted(asciiStrings, unicodeOf(data), wideOf(data));
  }

  /** One pass of the loop over the bytes, at `data[i]`. */
  method ScanByte(data: seq<byte>, minLength: int, i: nat, asciiStrings: seq<string>, currentString: string,
                  ghost runs: seq<Run>, ghost open: nat)
    returns (asciiStrings': seq<string>, currentString': string, ghost runs': seq<Run>, ghost open': nat)
    requires i < |data|
    requires (runs, open) == ScanState(data, Ascii, minLength, i)
    requires asciiStrings == Texts(data, runs) && currentString == RunChars(data, Run(i - open, open))
    ensures (runs', open') == ScanState(data, Ascii, minLength, i + 1)
    ensures asciiStrings' == Texts(data, runs') && currentString' == RunChars(data, Run(i + 1 - open', open'))
  {
    var b := data[i];
    if 32 <= b <= 126 {
      PrintableStep(data, Ascii, minLength, i);
      asciiStrings', currentString', runs', open' := asciiStrings, currentString + [b as char], runs, open + 1;
    } else {
      ClosingStep(data, Ascii, minLength, i);
      asciiStrings', runs' := asciiStrings, runs;
      if |currentString| >= minLength {
        asciiStrings' := asciiStrings + [currentString];
        runs' := runs + [Run(i - open, open)];
      }
      currentString', open' := "", 0;
    }
  }

  /** The run still open after the last byte is kept when it is long enough. */
  method FlushRun(data: seq<byte>, minLength: int, asciiStrings: seq<string>, currentString: string,
                  ghost runs: seq<Run>, ghost open: nat)
    returns (asciiStrings': seq<string>)
    requires (runs, open) == ScanState(data, Ascii, minLength, |data|)
    requires asciiStrings == Texts(data, runs) && currentString == RunChars(data, Run(|data| - open, open))
    ensures asciiStrings' == Texts(data, Extract(data, Ascii, minLength))
  {
    asciiStrings' := asciiStrings;
    if |currentString| >= minLength {
      TextsAppend(data, runs, Run(|data| - open, open));
      asciiStrings' := asciiStrings + [currentString];
    }
  }

  /** Every ASCII string has at least `minLength` characters, all between 32 and 126, and is
      the text of a run of such bytes that cannot be extended to either side; the runs come in
      order, none overlapping the next. */
  lemma AsciiSound(data: seq<byte>, minLength: int)
    ensures var runs := Extract(data, Ascii, minLength);
      var ss := Texts(data, runs);
      InOrder(runs)
      && forall a | 0 <= a < |ss| ::
        |ss[a]| >= minLength && ss[a] == RunChars(data, runs[a])
        && Maximal(data, Ascii, runs[a].offset, runs[a].length)
        && (forall k | 0 <= k < |ss[a]| :: ' ' <= ss[a][k] <= '~')
  {
    var runs := Extract(data, Ascii, minLength);
    ExtractSound(data, Ascii, minLength);
    ExtractInOrder(data, Ascii, minLength);
    var ss := Texts(data, runs);
    forall a | 0 <= a < |ss|
      ensures forall k | 0 <= k < |ss[a]| :: ' ' <= ss[a][k] <= '~'
    {
      var r := runs[a];
      forall k | 0 <= k < |ss[a]| ensures ' ' <= ss[a][k] <= '~' {
        assert ss[a][k] as int == data[r.offset + k];
        assert Ascii(data[r.offset + k]);
      }
    }
  }

  /** Every maximal run of at least `minLength` ASCII bytes is listed, the run still open at
      the end of the data included. */
  lemma AsciiComplete(data: seq<byte>, minLength: int, o: nat, l: nat)
    requires l >= minLength && Maximal(data, Ascii, o, l)
    ensures RunChars(data, Run(o, l)) in Texts(data, Extract(data, Ascii, minLength))
  {
    var runs := Extract(data, Ascii, minLength);
    ExtractComplete(data, Ascii, minLength, o, l);
    var a :| 0 <= a < |runs| && runs[a] == Run(o, l);
    assert Texts(data, runs)[a] == RunChars(data, Run(o, l));
  }

  // analyze_strings

  /** The lists of the dictionary in its order, the `error` entry left out. */
  function Groups(e: Extracted): (gs: seq<seq<string>>)
    ensures |gs| == if e.Failed? then 0 else 3
  {
    if e.Failed? then [] else [e.ascii, e.unicode, e.wide]
  }

  /** `all_strings`: the lists one after the other. */
  function AllStrings(e: Extracted): seq<string>
  {
    Join(Groups(e), [])
  }

  /** `by_type`: the length of each list, by key. */
  function ByType(e: Extracted): map<string, nat>
  {
    if e.Failed? then map[]
    else map["ascii" := |e.ascii|, "unicode" := |e.unicode|, "wide" := |e.wide|]
  }

  /** The names of the seven patterns, in the dictionary's order. */
  const PatternNames: seq<string> :=
    ["URLs", "Email addresses", "File paths", "IP addresses", "Credit card numbers", "Registry keys", "Base64"]

  /** `patterns[name].findall(s)` for the pattern at an index of `PatternNames`. */
  type FindAll = (nat, string) -> seq<string>

  /** The matches of pattern `p` in `all`, string after string. */
  function Matches(all: seq<string>, p: nat, findall: FindAll): seq<string>
    decreases |all|
  {
    if |all| == 0 then [] else Matches(all[..|all| - 1], p, findall) + findall(p, all[|all| - 1])
  }

  /** The patterns among the first `n` with a match, each with all its matches. */
  function Found(all: seq<string>, findall: FindAll, names: seq<string>, n: nat): seq<(string, seq<string>)>
    requires n <= |names|
    decreases n
  {
    if n == 0 then []
    else
      var ms := Matches(all, n - 1, findall);
      Found(all, findall, names, n - 1) + (if |ms| > 0 then [(names[n - 1], ms)] else [])
  }

  /** Each entry's matches without duplicates (`list(set(matches))`, here in order of first
      occurrence). */
  function Deduped(f: seq<(string, seq<string>)>): (d: seq<(string, seq<string>)>)
    ensures |d| == |f| && forall i | 0 <= i < |f| :: d[i].0 == f[i].0
  {
    seq(|f|, i requires 0 <= i < |f| => (f[i].0, Distinct(f[i].1)))
  }

  lemma DedupedAppend(f: seq<(string, seq<string>)>, k: string, ms: seq<string>)
    ensures Deduped(f + [(k, ms)]) == Deduped(f) + [(k, Distinct(ms))]
  {
  }

  /** `found_patterns`. */
  function FoundPatterns(all: seq<string>, findall: FindAll): seq<(string, seq<string>)>
  {
    Deduped(Found(all, findall, PatternNames, |PatternNames|))
  }

  /** `string_lengths`: the least and greatest length, and the sum and the number of lengths
      of which `avg` is the quotient. */
  datatype Lengths = Lengths(min: nat, max: nat, sum: nat, count: nat)

  /** The least length of a non-empty list of strings. */
  function MinLength(all: seq<string>): (m: nat)
    requires |all| > 0
    ensures (forall i | 0 <= i < |all| :: m <= |all[i]|) && exists i | 0 <= i < |all| :: |all[i]| == m
    decreases |all|
  {
    if |all| == 1 then |all[0]|
    else
      var m := MinLength(all[..|all| - 1]);
      assert forall i | 0 <= i < |all| - 1 :: all[..|all| - 1][i] == all[i];
      if |all[|all| - 1]| < m then |all[|all| - 1]| else m
  }

  /** The greatest length of a non-empty list of strings. */
  function MaxLength(all: seq<string>): (m: nat)
    requires |all| > 0
    ensures (forall i | 0 <= i < |all| :: |all[i]| <= m) && exists i | 0 <= i < |all| :: |all[i]| == m
    decreases |all|
  {
    if |all| == 1 then |all[0]|
    else
      var m := MaxLength(all[..|all| - 1]);
      assert forall i | 0 <= i < |all| - 1 :: all[..|all| - 1][i] == all[i];
      if |all[|all| - 1]| > m then |all[|all| - 1]| else m
  }

  /** The total length of a list of strings. */
  function SumLength(all: seq<string>): nat
    decreases |all|
  {
    if |all| == 0 then 0 else SumLength(all[..|all| - 1]) + |all[|all| - 1]|
  }

  function LengthsOf(all: seq<string>): Option<Lengths>
  {
    if |all| == 0 then None else Some(Lengths(MinLength(all), MaxLength(all), SumLength(all), |all|))
  }

  /** The dictionary `analyze_strings` returns (`interesting_patterns` stays empty). */
  datatype Analysis = Analysis(
    totalStrings: nat,
    byType: map<string, nat>,
    interestingPatterns: seq<string>,
    foundPatterns: seq<(string, seq<string>)>,
    stringLengths: Option<Lengths>)

  /** `analyze_strings(strings_dict)`. */
  method AnalyzeStrings(e: Extracted, findall: FindAll) returns (analysis: Analysis)
    ensures var all := AllStrings(e);
      analysis == Analysis(|all|, ByType(e), [], FoundPatterns(all, findall), LengthsOf(all))
  {
    var allStrings := ConcatGroups(Groups(e));
    var names := PatternNames;
    var foundPatterns: seq<(string, seq<string>)> := [];
    for p := 0 to |names|
      invariant foundPatterns == Deduped(Found(allStrings, findall, names, p))
    {
      var matches := PatternMatches(allStrings, p, findall);
      if |matches| > 0 {
        DedupedAppend(Found(allStrings, findall, names, p), names[p], matches);
        foundPatterns := foundPatterns + [(names[p], Distinct(matches))];
      }
    }
    analysis := Analysis(|allStrings|, ByType(e), [], foundPatterns, LengthsOf(allStrings));
  }

  /** The loop that concatenates the three lists. */
  method ConcatGroups(groups: seq<seq<string>>) returns (allStrings: seq<string>)
    ensures allStrings == Join(groups, [])
  {
    allStrings := [];
    for k := 0 to |groups|
      invariant allStrings == Join(groups[..k], [])
    {
      assert groups[..k + 1] == groups[..k] + [groups[k]];
      ConcatAppend(groups[..k], groups[k]);
      allStrings := allStrings + groups[k];
    }
    assert groups[..|groups|] == groups;
  }

  /** The inner loop: the matches of pattern `p` in every string, in order. */
  method PatternMatches(allStrings: seq<string>, p: nat, findall: FindAll) returns (matches: seq<string>)
    ensures matches == Matches(allStrings, p, findall)
  {
    matches := [];
    for j := 0 to |allStrings|
      invariant matches == Matches(allStrings[..j], p, findall)
    {
      assert allStrings[..j + 1][..j] == allStrings[..j];
      matches := matches + findall(p, allStrings[j]);
    }
    assert allStrings[..|allStrings|] == allStrings;
  }

  /** `total_strings` is the sum of the counts in `by_type`, which has one key per list and
      none at all for the error dictionary. */
  lemma TotalIsSum(e: Extracted)
    ensures e.Failed? ==> ByType(e) == map[] && AllStrings(e) == []
    ensures e.Extracted? ==> (ByType(e).Keys == {"ascii", "unicode", "wide"}
      && |AllStrings(e)| == ByType(e)["ascii"] + ByType(e)["unicode"] + ByType(e)["wide"])
  {
    if e.Extracted? {
      var gs := Groups(e);
      assert gs[1..] == [e.unicode, e.wide] && gs[1..][1..] == [e.wide];
      assert Join(gs[1..], []) == e.unicode + [] + e.wide;
      assert AllStrings(e) == e.ascii + [] + Join(gs[1..], []);
    }
  }

  lemma NamesDistinct()
    ensures NoDuplicates(PatternNames)
  {
    assert forall p | 0 <= p < |PatternNames| :: |PatternNames[p]| == [4, 15, 10, 12, 19, 13, 6][p];
  }

  /** A dictionary, as its list of entries, has key `k`. */
  predicate HasKey(f: seq<(string, seq<string>)>, k: string)
  {
    exists i | 0 <= i < |f| :: f[i].0 == k
  }

  lemma HasKeyAppend(g: seq<(string, seq<string>)>, t: seq<(string, seq<string>)>, k: string)
    ensures HasKey(g + t, k) <==> HasKey(g, k) || HasKey(t, k)
  {
    if HasKey(g + t, k) {
      var i :| 0 <= i < |g + t| && (g + t)[i].0 == k;
      if i >= |g| {
        assert t[i - |g|].0 == k;
      }
    }
    if HasKey(g, k) {
      var i :| 0 <= i < |g| && g[i].0 == k;
      assert (g + t)[i].0 == k;
    }
    if HasKey(t, k) {
      var i :| 0 <= i < |t| && t[i].0 == k;
      assert (g + t)[|g| + i].0 == k;
    }
  }

  /** Among patterns with distinct names, after the first `n` patterns: pattern `p` has an
      entry exactly when it is one of them and matches somewhere. */
  lemma {:induction false} FoundKey(all: seq<string>, findall: FindAll, names: seq<string>, n: nat, p: nat)
    requires NoDuplicates(names) && n <= |names| && p < |names|
    ensures HasKey(Found(all, findall, names, n), names[p]) <==> (p < n && |Matches(all, p, findall)| > 0)
    decreases n
  {
    if n > 0 {
      FoundKey(all, findall, names, n - 1, p);
      var ms := Matches(all, n - 1, findall);
      var t := if |ms| > 0 then [(names[n - 1], ms)] else [];
      HasKeyAppend(Found(all, findall, names, n - 1), t, names[p]);
      if |ms| > 0 {
        assert t[0].0 == names[n - 1];
      }
      assert HasKey(t, names[p]) <==> |ms| > 0 && names[n - 1] == names[p];
    }
  }

  /** Every entry with key `k` holds `ms`. */
  predicate ValuesAre(f: seq<(string, seq<string>)>, k: string, ms: seq<string>)
  {
    forall i | 0 <= i < |f| && f[i].0 == k :: f[i].1 == ms
  }

  /** Among patterns with distinct names, the entry of pattern `p` holds its matches. */
  lemma {:induction false} FoundValue(all: seq<string>, findall: FindAll, names: seq<string>, n: nat, p: nat)
    requires NoDuplicates(names) && n <= |names| && p < |names|
    ensures ValuesAre(Found(all, findall, names, n), names[p], Matches(all, p, findall))
    decreases n
  {
    if n > 0 {
      FoundValue(all, findall, names, n - 1, p);
      var g := Found(all, findall, names, n - 1);
      var ms := Matches(all, n - 1, findall);
      var f := Found(all, findall, names, n);
      assert f == g + (if |ms| > 0 then [(names[n - 1], ms)] else []);
      forall i | 0 <= i < |f| && f[i].0 == names[p] ensures f[i].1 == Matches(all, p, findall) {
        if i < |g| {
          assert f[i] == g[i] && g[i].0 == names[p];
        } else {
          assert |ms| > 0 && f[i] == (names[n - 1], ms);
          assert p == n - 1;
        }
      }
    }
  }

  /** A dictionary of patterns with distinct names has an entry for a pattern exactly when it
      matches somewhere, and the entry lists each of its matches once. */
  lemma DedupedFoundWith(all: seq<string>, findall: FindAll, names: seq<string>, p: nat)
    requires NoDuplicates(names) && p < |names|
    ensures var f := Deduped(Found(all, findall, names, |names|));
      var ms := Matches(all, p, findall);
      (HasKey(f, names[p]) <==> |ms| > 0)
      && (forall i | 0 <= i < |f| && f[i].0 == names[p] ::
        NoDuplicates(f[i].1) && forall m :: m in f[i].1 <==> m in ms)
  {
    var raw := Found(all, findall, names, |names|);
    var f := Deduped(raw);
    FoundKey(all, findall, names, |names|, p);
    FoundValue(all, findall, names, |names|, p);
    assert HasKey(f, names[p]) <==> HasKey(raw, names[p]) by {
      if HasKey(raw, names[p]) {
        var i :| 0 <= i < |raw| && raw[i].0 == names[p];
        assert f[i].0 == names[p];
      }
    }
    forall i | 0 <= i < |f| && f[i].0 == names[p]
      ensures NoDuplicates(f[i].1) && forall m :: m in f[i].1 <==> m in Matches(all, p, findall)
    {
      assert f[i].1 == Distinct(raw[i].1);
    }
  }

  /** A pattern has an entry in `found_patterns` exactly when it matches somewhere, and the
      entry lists each of its matches once. */
  lemma FoundPatternsKeys(all: seq<string>, findall: FindAll, p: nat)
    requires p < |PatternNames|
    ensures var f := FoundPatterns(all, findall);
      var ms := Matches(all, p, findall);
      (HasKey(f, PatternNames[p]) <==> |ms| > 0)
      && (forall i | 0 <= i < |f| && f[i].0 == PatternNames[p] ::
        NoDuplicates(f[i].1) && forall m :: m in f[i].1 <==> m in ms)
  {
    NamesDistinct();
    DedupedFoundWith(all, findall, PatternNames, p);
  }

  /** `string_lengths` is there exactly when some string is, and then its minimum is at most
      its maximum, every length lies between them, both are lengths of some string, and
      `count` is the number of strings. */
  lemma LengthsSummary(all: seq<string>)
    ensures LengthsOf(all).Some? <==> |all| > 0
    ensures LengthsOf(all).Some? ==> var l := LengthsOf(all).value;
      l.min <= l.max && l.count == |all|
      && (forall i | 0 <= i < |all| :: l.min <= |all[i]| <= l.max)
      && (exists i | 0 <= i < |all| :: |all[i]| == l.min)
      && (exists i | 0 <= i < |all| :: |all[i]| == l.max)
  {
    if |all| > 0 {
      var m := MinLength(all);
      var i :| 0 <= i < |all| && |all[i]| == m;
    }
  }

  /** The lengths add up: the sum is at least `min * count` and at most `max * count`. */
  lemma {:induction false} SumBetween(all: seq<string>)
    requires |all| > 0
    ensures MinLength(all) * |all| <= SumLength(all) <= MaxLength(all) * |all|
    decreases |all|
  {
    if |all| > 1 {
      var n := |all|;
      var init := all[..n - 1];
      var x := |all[n - 1]|;
      SumBetween(init);
      assert SumLength(all) == SumLength(init) + x;
      assert MinLength(all) == if x < MinLength(init) then x else MinLength(init);
      assert MaxLength(all) == if x > MaxLength(init) then x else MaxLength(init);
      BoundStep(MinLength(all), MinLength(init), x, n - 1);
      BoundStep(MaxLength(init), MaxLength(all), x, n - 1);
      assert MinLength(all) * n <= MinLength(init) * (n - 1) + x;
      assert MaxLength(init) * (n - 1) + x <= MaxLength(all) * n;
    }
  }

  /** Adding one length `x` to `n` lengths bounded by `lo` and `hi`: a lower bound carries over
      when `lo <= x`, an upper bound when `x <= hi`. */
  lemma BoundStep(lo: int, hi: int, x: int, n: nat)
    requires lo <= hi && n >= 1
    ensures lo <= x ==> lo * (n + 1) <= hi * n + x
    ensures x <= hi ==> lo * n + x <= hi * (n + 1)
  {
    Arith.MulLe(lo, hi, n);
    assert lo * (n + 1) == lo * n + lo;
    assert hi * (n + 1) == hi * n + hi;
  }

}
