/** The word-frequency helper of the tools page: the words of the lower-cased text are
    counted into a plain object, its entries are sorted by falling count, and the first twenty
    are printed as `word: count` lines. */
module WordFrequency {
  import opened Text
  import opened Js

  // The words: matches of `\b\w+\b`

  predicate WordUnit(c: CodeUnit) { IsWordChar(c) }

  /** The matches of the global pattern `\b\w+\b` from index `i` on: the maximal runs of word
      characters, since a greedy `\w+` that starts at a boundary runs to the next one. */
  function RunsFrom(s: JsString, i: nat): (r: seq<JsString>)
    requires i <= |s|
    ensures forall k | 0 <= k < |r| :: |r[k]| > 0 && forall j | 0 <= j < |r[k]| :: IsWordChar(r[k][j])
    decreases |s| - i
  {
    if i == |s| then []
    else if IsWordChar(s[i]) then
      var j := RunEnd(s, i, WordUnit);
      [s[i..j]] + RunsFrom(s, j)
    else RunsFrom(s, i + 1)
  }

  function WordRuns(s: JsString): seq<JsString>
  {
    RunsFrom(s, 0)
  }

  /** The words, put together, are exactly the word characters of the text, in order. */
  lemma {:induction false} RunsKeepWordChars(s: JsString, i: nat)
    requires i <= |s|
    ensures Join(RunsFrom(s, i), []) == Filter(s[i..], WordUnit)
    decreases |s| - i
  {
    if i < |s| {
      if IsWordChar(s[i]) {
        var j := RunEnd(s, i, WordUnit);
        RunsKeepWordChars(s, j);
        RunStep(s, i, j);
      } else {
        RunsKeepWordChars(s, i + 1);
        SkipStep(s, i);
      }
    }
  }

  /** A word, then the words after it. */
  lemma RunStep(s: JsString, i: nat, j: nat)
    requires i < |s| && IsWordChar(s[i]) && j == RunEnd(s, i, WordUnit)
    requires Join(RunsFrom(s, j), []) == Filter(s[j..], WordUnit)
    ensures Join(RunsFrom(s, i), []) == Filter(s[i..], WordUnit)
  {
    var run, rest := s[i..j], s[j..];
    assert RunsFrom(s, i) == [run] + RunsFrom(s, j);
    JoinCons(run, RunsFrom(s, j));
    assert s[i..] == run + rest;
    FilterAppend(run, rest, WordUnit);
    FilterKeepsAll(run, WordUnit);
  }

  /** A code unit that is not a word character contributes nothing. */
  lemma SkipStep(s: JsString, i: nat)
    requires i < |s| && !IsWordChar(s[i])
    requires Join(RunsFrom(s, i + 1), []) == Filter(s[i + 1..], WordUnit)
    ensures Join(RunsFrom(s, i), []) == Filter(s[i..], WordUnit)
  {
    assert s[i..] == [s[i]] + s[i + 1..];
    FilterCons(s[i], s[i + 1..], WordUnit);
  }

  /** Words separated by single spaces are matched one by one. */
  lemma {:induction false} RunsOfJoin(parts: seq<JsString>)
    requires forall k | 0 <= k < |parts| :: |parts[k]| > 0 && forall j | 0 <= j < |parts[k]| :: IsWordChar(parts[k][j])
    ensures WordRuns(Join(parts, [32])) == parts
    decreases |parts|
  {
    if |parts| > 0 {
      var s := Join(parts, [32]);
      var w := parts[0];
      RunEndAt(s, w);
      if |parts| == 1 {
        assert s == w;
        assert RunsFrom(s, |w|) == [];
        assert s[0..|w|] == w;
      } else {
        var rest := Join(parts[1..], [32]);
        assert s == w + [32] + rest;
        assert s[0..|w|] == w;
        RunsOfJoin(parts[1..]);
        RunsShiftAt(s, |w| + 1);
        assert s[|w| + 1..] == rest;
        assert s[|w|] == 32;
        assert RunsFrom(s, |w|) == RunsFrom(s, |w| + 1);
      }
    }
  }

  /** The run of word characters at the start of `s` is its first part. */
  lemma RunEndAt(s: JsString, w: JsString)
    requires |w| > 0 && |w| <= |s| && s[..|w|] == w
    requires forall j | 0 <= j < |w| :: IsWordChar(w[j])
    requires |w| < |s| ==> !IsWordChar(s[|w|])
    ensures RunEnd(s, 0, WordUnit) == |w|
  {
    RunEndFrom(s, 0, |w|);
  }

  lemma {:induction false} RunEndFrom(s: JsString, i: nat, j: nat)
    requires i <= j <= |s|
    requires forall k | i <= k < j :: IsWordChar(s[k])
    requires j < |s| ==> !IsWordChar(s[j])
    ensures RunEnd(s, i, WordUnit) == j
    decreases j - i
  {
    if i < j {
      RunEndFrom(s, i + 1, j);
    }
  }

  lemma {:induction false} RunEndShift(s: JsString, i: nat, rest: JsString, k: nat)
    requires i + k <= |s| && s[i..] == rest
    ensures RunEnd(s, i + k, WordUnit) == i + RunEnd(rest, k, WordUnit)
    decreases |s| - i - k
  {
    if i + k < |s| && IsWordChar(s[i + k]) {
      assert s[i + k] == rest[k];
      RunEndShift(s, i, rest, k + 1);
    }
  }

  /** Scanning from index `d` of `t` finds the words of `t[d..]`. */
  lemma {:induction false} RunsShiftAt(t: JsString, d: nat)
    requires d <= |t|
    ensures RunsFrom(t, d) == RunsFrom(t[d..], 0)
    decreases |t| - d
  {
    var u := t[d..];
    if d < |t| {
      assert t[d] == u[0];
      if IsWordChar(t[d]) {
        var j := RunEnd(t, d, WordUnit);
        RunEndShift(t, d, u, 0);
        assert t[d..j] == u[0..j - d];
        assert t[j..] == u[j - d..];
        RunsShiftAt(t, j);
        RunsShiftAt(u, j - d);
      } else {
        assert t[d + 1..] == u[1..];
        RunsShiftAt(t, d + 1);
        RunsShiftAt(u, 1);
      }
    }
  }

  // The `frequency` object

  /** A plain object with number-valued own properties: their values, and the keys in the
      order the properties were created. */
  datatype Counts = Counts(values: map<JsString, nat>, keys: seq<JsString>)

  /** Every property is listed once in creation order. */
  ghost predicate Valid(o: Counts)
  {
    NoDuplicates(o.keys) && forall k :: k in o.values <==> k in o.keys
  }

  /** `frequency[word] || 0`. */
  function Get(o: Counts, word: JsString): nat
  {
    if word in o.values then o.values[word] else 0
  }

  /** `frequency[word] = value`: a new key is created at the end of the creation order. */
  function Put(o: Counts, word: JsString, value: nat): Counts
  {
    if word in o.values then Counts(o.values[word := value], o.keys)
    else Counts(o.values[word := value], o.keys + [word])
  }

  /** Setting a property keeps the object well formed. */
  lemma PutValid(o: Counts, word: JsString, value: nat)
    requires Valid(o)
    ensures Valid(Put(o, word, value))
    ensures Put(o, word, value).values == o.values[word := value]
  {
    if word !in o.values {
      assert forall i | 0 <= i < |o.keys| :: o.keys[i] != word;
    }
  }

  /** What counting `words` gives: each distinct word with its number of occurrences, created
      in the order of first occurrence. */
  function Tally(words: seq<JsString>): Counts
  {
    Counts(Occurrences(words), Distinct(words))
  }

  /** The tally lists every distinct word once, in first-occurrence order. */
  lemma TallyValid(words: seq<JsString>)
    ensures Valid(Tally(words))
  {
    OccurrencesCount(words);
  }

  /** The counts of the words, one word after the other. */
  function Occurrences(words: seq<JsString>): map<JsString, nat>
  {
    if |words| == 0 then map[]
    else
      var counts := Occurrences(words[..|words| - 1]);
      var w := words[|words| - 1];
      counts[w := (if w in counts then counts[w] else 0) + 1]
  }

  /** The counts hold exactly the words, each with its number of occurrences. */
  lemma {:induction false} OccurrencesCount(words: seq<JsString>)
    ensures forall k :: k in Occurrences(words) <==> k in words
    ensures forall k | k in Occurrences(words) :: Occurrences(words)[k] == CountOf(words, k)
    decreases |words|
  {
    if |words| > 0 {
      var p, w := words[..|words| - 1], words[|words| - 1];
      OccurrencesCount(p);
      assert words == p + [w];
      if w !in p {
        CountOfAbsent(p, w);
      }
    }
  }

  /** Counting one more word updates the tally of the words before it. */
  lemma TallyStep(words: seq<JsString>, i: nat)
    requires i < |words|
    ensures Tally(words[..i + 1]) == Put(Tally(words[..i]), words[i], Get(Tally(words[..i]), words[i]) + 1)
  {
    var p, w := words[..i], words[i];
    assert words[..i + 1] == p + [w];
    assert (p + [w])[..|p|] == p;
    DistinctStep(p, w);
    OccurrencesCount(p);
  }

  lemma DistinctStep(p: seq<JsString>, w: JsString)
    ensures Distinct(p + [w]) == if w in p then Distinct(p) else Distinct(p) + [w]
  {
    assert (p + [w])[..|p|] == p;
  }

  lemma {:induction false} CountOfAbsent<T>(s: seq<T>, x: T)
    requires x !in s
    ensures CountOf(s, x) == 0
    decreases |s|
  {
    if |s| > 0 {
      assert s[..|s| - 1] <= s;
      CountOfAbsent(s[..|s| - 1], x);
    }
  }

  /** `words.forEach(word => frequency[word] = (frequency[word] || 0) + 1)`. */
  method CountWords(words: seq<JsString>) returns (frequency: Counts)
    ensures frequency == Tally(words)
  {
    frequency := Counts(map[], []);
    for i := 0 to |words|
      invariant frequency == Tally(words[..i])
    {
      var word := words[i];
      TallyStep(words, i);
      frequency := Put(frequency, word, Get(frequency, word) + 1);
    }
    assert words[..|words|] == words;
  }

  // `Object.entries(frequency)`

  /** The value of a string of decimal digits. */
  function IndexValue(k: JsString): nat
  {
    if |k| == 0 then 0
    else IndexValue(k[..|k| - 1]) * 10 + (if IsDigit(k[|k| - 1]) then k[|k| - 1] - '0' as int else 0)
  }

  /** A key that is an array index: the canonical decimal form of an integer below
      2^32 - 1. Such keys are enumerated before all others, in increasing numeric order. */
  predicate IsArrayIndex(k: JsString)
  {
    |k| >= 1 && (forall i | 0 <= i < |k| :: IsDigit(k[i])) && (k[0] != '0' as int || |k| == 1)
    && IndexValue(k) < 0xFFFF_FFFF
  }

  predicate NotArrayIndex(k: JsString) { !IsArrayIndex(k) }

  function IndexKey(k: JsString): int { IndexValue(k) }

  /** The order in which `Object.entries` lists own properties: array-index keys in increasing
      numeric order, then the other keys in creation order. */
  function EnumerationOrder(keys: seq<JsString>): seq<JsString>
  {
    SortBy(Filter(keys, IsArrayIndex), IndexKey) + Filter(keys, NotArrayIndex)
  }

  /** Filtering by a predicate and by its negation splits a sequence into two parts. */
  lemma {:induction false} FilterSplit<T>(s: seq<T>, p: T -> bool, q: T -> bool)
    requires forall x :: q(x) == !p(x)
    ensures multiset(Filter(s, p)) + multiset(Filter(s, q)) == multiset(s)
    decreases |s|
  {
    if |s| > 0 {
      var x, rest := s[0], s[1..];
      FilterSplit(rest, p, q);
      FilterSplitStep(x, rest, p, q);
      assert s == [x] + rest;
    }
  }

  /** One more element at the front goes to exactly one of the two parts. */
  lemma FilterSplitStep<T>(x: T, rest: seq<T>, p: T -> bool, q: T -> bool)
    requires forall y :: q(y) == !p(y)
    requires multiset(Filter(rest, p)) + multiset(Filter(rest, q)) == multiset(rest)
    ensures multiset(Filter([x] + rest, p)) + multiset(Filter([x] + rest, q)) == multiset([x] + rest)
  {
    FilterCons(x, rest, p);
    FilterCons(x, rest, q);
    var a: seq<T> := if p(x) then [x] else [];
    var b: seq<T> := if q(x) then [x] else [];
    assert multiset(a) + multiset(b) == multiset{x};
    assert multiset(a + Filter(rest, p)) == multiset(a) + multiset(Filter(rest, p));
    assert multiset(b + Filter(rest, q)) == multiset(b) + multiset(Filter(rest, q));
    assert multiset([x] + rest) == multiset{x} + multiset(rest);
  }

  /** The enumeration lists every key once: it rearranges the creation order, with the
      array-index keys first and ascending. */
  lemma EnumerationOrderSpec(keys: seq<JsString>)
    ensures multiset(EnumerationOrder(keys)) == multiset(keys)
    ensures var front := SortBy(Filter(keys, IsArrayIndex), IndexKey);
      Ascending(front, IndexKey) && (forall i | 0 <= i < |front| :: IsArrayIndex(front[i]))
      && EnumerationOrder(keys) == front + Filter(keys, NotArrayIndex)
  {
    FilterSplit(keys, IsArrayIndex, NotArrayIndex);
    var idx := Filter(keys, IsArrayIndex);
    var front := SortBy(idx, IndexKey);
    SortByAscending(idx, IndexKey);
    forall i | 0 <= i < |front| ensures IsArrayIndex(front[i]) {
      assert front[i] in multiset(idx);
      var m :| 0 <= m < |idx| && idx[m] == front[i];
    }
  }

  /** One `[word, count]` pair of `Object.entries`. */
  datatype Entry = Entry(word: JsString, count: nat)

  function EntriesOf(o: Counts, keys: seq<JsString>): (r: seq<Entry>)
    ensures |r| == |keys|
    ensures forall i | 0 <= i < |r| :: r[i] == Entry(keys[i], Get(o, keys[i]))
  {
    if |keys| == 0 then [] else [Entry(keys[0], Get(o, keys[0]))] + EntriesOf(o, keys[1..])
  }

  function Entries(o: Counts): seq<Entry>
  {
    EntriesOf(o, EnumerationOrder(o.keys))
  }

  // Facts about the entries

  /** `es` lists each distinct word of `words` once, with its number of occurrences. */
  predicate Describes(es: seq<Entry>, words: seq<JsString>)
  {
    (forall i | 0 <= i < |es| :: es[i].word in words && es[i].count == CountOf(words, es[i].word))
    && (forall i, j | 0 <= i < j < |es| :: es[i].word != es[j].word)
    && (forall w | w in words :: exists i | 0 <= i < |es| :: es[i].word == w)
  }

  /** The entries of the tally describe the words. */
  lemma EntriesDescribe(words: seq<JsString>)
    ensures Describes(Entries(Tally(words)), words)
    ensures |Entries(Tally(words))| == |Distinct(words)|
  {
    var o := Tally(words);
    var keys := Distinct(words);
    var order := EnumerationOrder(keys);
    var es := Entries(o);
    OccurrencesCount(words);
    EnumerationOrderSpec(keys);
    assert |order| == |multiset(order)| == |multiset(keys)| == |keys|;
    PermNoDuplicates(keys, order);
    forall i | 0 <= i < |es| ensures es[i].word in words && es[i].count == CountOf(words, es[i].word) {
      assert es[i].word == order[i];
      assert order[i] in multiset(keys);
      var m :| 0 <= m < |keys| && keys[m] == order[i];
    }
    forall w | w in words ensures exists i | 0 <= i < |es| :: es[i].word == w {
      var n :| 0 <= n < |words| && words[n] == w;
      assert w in keys;
      assert w in multiset(order);
      var m :| 0 <= m < |order| && order[m] == w;
      assert es[m].word == w;
    }
  }

  /** A rearrangement of a description is a description. */
  lemma DescribesPerm(a: seq<Entry>, b: seq<Entry>, words: seq<JsString>)
    requires Describes(a, words) && multiset(a) == multiset(b)
    ensures Describes(b, words)
  {
    assert NoDuplicates(a) by {
      forall i, j | 0 <= i < j < |a| ensures a[i] != a[j] {
        assert a[i].word != a[j].word;
      }
    }
    PermNoDuplicates(a, b);
    forall i | 0 <= i < |b| ensures exists m | 0 <= m < |a| :: a[m] == b[i] {
      assert b[i] in multiset(a);
    }
    forall i, j | 0 <= i < j < |b| ensures b[i].word != b[j].word {
      var m1 :| 0 <= m1 < |a| && a[m1] == b[i];
      var m2 :| 0 <= m2 < |a| && a[m2] == b[j];
      assert m1 == m2 || a[m1].word != a[m2].word;
    }
    forall w | w in words ensures exists i | 0 <= i < |b| :: b[i].word == w {
      var m :| 0 <= m < |a| && a[m].word == w;
      assert a[m] in multiset(b);
      var i :| 0 <= i < |b| && b[i] == a[m];
    }
  }

  // `.sort(([,a], [,b]) => b - a).slice(0, 20)`

  /** The sort key: the comparator `b - a` puts larger counts first. */
  function NegCount(e: Entry): int { 0 - e.count as int }

  const Limit: nat := 20

  /** `.slice(0, 20)`. */
  function Top(es: seq<Entry>): (r: seq<Entry>)
    ensures |r| == if |es| <= Limit then |es| else Limit
    ensures r <= es
  {
    if |es| <= Limit then es else es[..Limit]
  }

  /** The entries printed for `text`, in printing order. */
  function Shown(text: JsString): seq<Entry>
  {
    Top(SortBy(Entries(Tally(WordRuns(ToLower(text)))), NegCount))
  }

  /** The first entries of a description sorted by falling count. */
  lemma TopSpec(sorted: seq<Entry>, words: seq<JsString>)
    requires Describes(sorted, words) && Ascending(sorted, NegCount)
    ensures var shown := Top(sorted);
      (forall i | 0 <= i < |shown| :: shown[i].word in words && shown[i].count == CountOf(words, shown[i].word))
      && (forall i, j | 0 <= i < j < |shown| :: shown[i].count >= shown[j].count && shown[i].word != shown[j].word)
  {
    var shown := Top(sorted);
    forall i, j | 0 <= i < j < |shown|
      ensures shown[i].count >= shown[j].count && shown[i].word != shown[j].word
    {
      assert shown[i] == sorted[i] && shown[j] == sorted[j];
      assert NegCount(sorted[i]) <= NegCount(sorted[j]);
    }
    forall i | 0 <= i < |shown| ensures shown[i].word in words && shown[i].count == CountOf(words, shown[i].word) {
      assert shown[i] == sorted[i];
    }
  }

  /** A word that is not among the first entries occurs no more often than any of them. */
  lemma TopCovers(sorted: seq<Entry>, words: seq<JsString>, w: JsString)
    requires Describes(sorted, words) && Ascending(sorted, NegCount) && w in words
    ensures var shown := Top(sorted);
      (exists i | 0 <= i < |shown| :: shown[i].word == w)
      || (forall i | 0 <= i < |shown| :: CountOf(words, w) <= shown[i].count)
  {
    var shown := Top(sorted);
    var m :| 0 <= m < |sorted| && sorted[m].word == w;
    if m < |shown| {
      assert shown[m] == sorted[m];
    } else {
      forall i | 0 <= i < |shown| ensures CountOf(words, w) <= shown[i].count {
        assert shown[i] == sorted[i];
        assert NegCount(sorted[i]) <= NegCount(sorted[m]);
      }
    }
  }

  /** The entries sorted by falling count, as a description of the words. */
  lemma SortedDescribe(words: seq<JsString>)
    ensures var sorted := SortBy(Entries(Tally(words)), NegCount);
      Describes(sorted, words) && Ascending(sorted, NegCount) && |sorted| == |Distinct(words)|
  {
    var es := Entries(Tally(words));
    var sorted := SortBy(es, NegCount);
    EntriesDescribe(words);
    DescribesPerm(es, sorted, words);
    SortByAscending(es, NegCount);
    assert |sorted| == |multiset(sorted)| == |multiset(es)| == |es|;
  }

  /** At most twenty entries are printed, and all of them when the text has at most twenty
      distinct words. */
  lemma ShownSize(text: JsString)
    ensures var words := WordRuns(ToLower(text));
      |Shown(text)| == if |Distinct(words)| <= Limit then |Distinct(words)| else Limit
  {
    SortedDescribe(WordRuns(ToLower(text)));
  }

  /** The printed entries are distinct words of the (lower-cased) text, each with its true
      number of occurrences, by falling count. */
  lemma ShownSpec(text: JsString)
    ensures var words := WordRuns(ToLower(text)); var shown := Shown(text);
      (forall i | 0 <= i < |shown| :: shown[i].word in words && shown[i].count == CountOf(words, shown[i].word))
      && (forall i, j | 0 <= i < j < |shown| :: shown[i].count >= shown[j].count && shown[i].word != shown[j].word)
  {
    var words := WordRuns(ToLower(text));
    SortedDescribe(words);
    TopSpec(SortBy(Entries(Tally(words)), NegCount), words);
  }

  /** Every word left out occurs no more often than any word shown. */
  lemma ShownCovers(text: JsString, w: JsString)
    requires w in WordRuns(ToLower(text))
    ensures var words := WordRuns(ToLower(text)); var shown := Shown(text);
      (exists i | 0 <= i < |shown| :: shown[i].word == w)
      || (forall i | 0 <= i < |shown| :: CountOf(words, w) <= shown[i].count)
  {
    var words := WordRuns(ToLower(text));
    SortedDescribe(words);
    TopCovers(SortBy(Entries(Tally(words)), NegCount), words, w);
  }

  // `.map(([word, count]) => `${word}: ${count}`).join('\n')`

  const Colon: JsString := Str(": ")

  function EntryLine(e: Entry): JsString
  {
    e.word + Colon + Decimal(e.count)
  }

  function EntryLines(es: seq<Entry>): (r: seq<JsString>)
    ensures |r| == |es|
    ensures forall i | 0 <= i < |es| :: r[i] == EntryLine(es[i])
  {
    if |es| == 0 then [] else [EntryLine(es[0])] + EntryLines(es[1..])
  }

  /** The output of `getWordFrequency(text)`. */
  function WordFrequencyReport(text: JsString): JsString
  {
    Join(EntryLines(Shown(text)), [10])
  }

  /** `getWordFrequency`: count the words into the object, then sort, cut and print its
      entries. */
  method GetWordFrequency(text: JsString) returns (result: JsString)
    ensures result == WordFrequencyReport(text)
  {
    var words := WordRuns(ToLower(text));
    var frequency := CountWords(words);
    var sorted := SortBy(Entries(frequency), NegCount);
    result := Join(EntryLines(Top(sorted)), [10]);
  }

  lemma LineNoBreak(e: Entry)
    requires forall j | 0 <= j < |e.word| :: IsWordChar(e.word[j])
    ensures 10 !in EntryLine(e)
  {
    var d := Decimal(e.count);
    assert EntryLine(e) == e.word + Colon + d;
    forall j | 0 <= j < |EntryLine(e)| ensures EntryLine(e)[j] != 10 {
      if j < |e.word| {
        assert EntryLine(e)[j] == e.word[j];
      } else if j < |e.word| + |Colon| {
        assert EntryLine(e)[j] == Colon[j - |e.word|];
      } else {
        assert EntryLine(e)[j] == d[j - |e.word| - |Colon|];
      }
    }
  }

  lemma WordOfRuns(s: JsString, w: JsString)
    requires w in WordRuns(s)
    ensures forall j | 0 <= j < |w| :: IsWordChar(w[j])
  {
    var m :| 0 <= m < |WordRuns(s)| && WordRuns(s)[m] == w;
  }

  /** The report has one `word: count` line per shown entry, and is empty exactly when the
      text has no word. */
  lemma ReportLines(text: JsString)
    ensures var shown := Shown(text);
      (|shown| == 0 <==> |WordRuns(ToLower(text))| == 0)
      && (|shown| == 0 ==> WordFrequencyReport(text) == [])
      && (|shown| > 0 ==> SplitOn(WordFrequencyReport(text), 10) == EntryLines(shown))
  {
    var words := WordRuns(ToLower(text));
    var sorted := SortBy(Entries(Tally(words)), NegCount);
    var shown := Top(sorted);
    SortedDescribe(words);
    if |words| > 0 {
      assert words[0] in Distinct(words);
    }
    var lines := EntryLines(shown);
    if |shown| > 0 {
      forall k | 0 <= k < |lines| ensures 10 !in lines[k] {
        assert shown[k] == sorted[k];
        WordOfRuns(ToLower(text), shown[k].word);
        LineNoBreak(shown[k]);
      }
      SplitOnJoin(lines, 10);
    }
  }
}
