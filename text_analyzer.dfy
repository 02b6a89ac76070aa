/** `analyze_text` of the text-analyzer script: the integer and word metrics of a text. The
    result dictionary is filled key by key: the length, the number of white-space separated
    words, the number of lines, the ten most common characters, the ten most common words of
    the lower-cased text (matches of `\b\w+\b`), the average word length and a readability
    grade. The Unicode letters and digits beyond ASCII that `\w` accepts are the parameter
    `unicodeAlnum`. */
module TextAnalyzer {
  import opened Text
  import Py
  import opened Counter

  // `text.count('\n') + 1`

  function LineCount(text: string): (n: nat)
    ensures n >= 1
  {
    CountOf(text, '\n') + 1
  }

  lemma {:induction false} CountOfAbsent<T>(s: seq<T>, x: T)
    requires x !in s
    ensures CountOf(s, x) == 0
    decreases |s|
  {
    if |s| > 0 {
      assert x !in s[..|s| - 1];
      CountOfAbsent(s[..|s| - 1], x);
    }
  }

  /** Every separator ends one piece of the split and starts another. */
  lemma {:induction false} CountSplitOn<T>(s: seq<T>, sep: T)
    ensures CountOf(s, sep) + 1 == |SplitOn(s, sep)|
    decreases |s|
  {
    if sep !in s {
      CountOfAbsent(s, sep);
    } else {
      var i := IndexOf(s, sep);
      CountSplitOn(s[i + 1..], sep);
      assert s == s[..i] + [sep] + s[i + 1..];
      CountOfAppend(s[..i] + [sep], s[i + 1..], sep);
      CountOfAppend(s[..i], [sep], sep);
      CountOfAbsent(s[..i], sep);
      assert CountOf([sep], sep) == CountOf([sep][..0], sep) + 1;
    }
  }

  /** The line count is the number of pieces `text.split('\n')` would give, so it is at least
      one, also for the empty text. */
  lemma LineCountLines(text: string)
    ensures LineCount(text) == |SplitOn(text, '\n')| >= 1
  {
    CountSplitOn(text, '\n');
  }

  // `re.findall(r'\b\w+\b', text.lower())`

  function WordChar(unicodeAlnum: char -> bool): char -> bool
  {
    c => Py.IsWordChar(c, unicodeAlnum)
  }

  /** The matches of `\b\w+\b` from index `i` on, where `w` is `\w`: the maximal runs of word
      characters, since a greedy `\w+` that starts at a boundary runs to the next one and
      then stands at a boundary. */
  function WordsFrom(s: string, i: nat, w: char -> bool): (r: seq<string>)
    requires i <= |s|
    ensures forall k | 0 <= k < |r| :: |r[k]| > 0 && forall j | 0 <= j < |r[k]| :: w(r[k][j])
    decreases |s| - i
  {
    if i == |s| then []
    else if w(s[i]) then
      var j := RunEnd(s, i, w);
      [s[i..j]] + WordsFrom(s, j, w)
    else WordsFrom(s, i + 1, w)
  }

  /** The words of the lower-cased text. */
  function Words(text: string, unicodeAlnum: char -> bool): seq<string>
  {
    WordsFrom(Py.Lower(text), 0, WordChar(unicodeAlnum))
  }

  /** The words hold exactly the word characters of the text, in order: none is lost and
      none is added. */
  lemma {:induction false} WordsJoin(s: string, i: nat, w: char -> bool)
    requires i <= |s|
    ensures Join(WordsFrom(s, i, w), []) == Filter(s[i..], w)
    decreases |s| - i
  {
    if i < |s| {
      if w(s[i]) {
        var j := RunEnd(s, i, w);
        WordsJoin(s, j, w);
        WordsJoinRun(s, i, j, w);
      } else {
        WordsJoin(s, i + 1, w);
        assert s[i..] == [s[i]] + s[i + 1..];
        FilterCons(s[i], s[i + 1..], w);
      }
    }
  }

  /** The step of `WordsJoin` over one word `s[i..j]`. */
  lemma WordsJoinRun(s: string, i: nat, j: nat, w: char -> bool)
    requires i < |s| && w(s[i]) && j == RunEnd(s, i, w)
    requires Join(WordsFrom(s, j, w), []) == Filter(s[j..], w)
    ensures Join(WordsFrom(s, i, w), []) == Filter(s[i..], w)
  {
    var run, rest := s[i..j], s[j..];
    assert WordsFrom(s, i, w) == [run] + WordsFrom(s, j, w);
    JoinCons(run, WordsFrom(s, j, w));
    assert s[i..] == run + rest;
    FilterAppend(run, rest, w);
    FilterKeepsAll(run, w);
  }

  /** A word starts at `k`: a word character with no word character before it. */
  predicate IsStart(s: string, k: nat, w: char -> bool)
    requires k < |s|
  {
    w(s[k]) && (k == 0 || !w(s[k - 1]))
  }

  /** The number of word starts at or after `i`. */
  function Starts(s: string, i: nat, w: char -> bool): nat
    requires i <= |s|
    decreases |s| - i
  {
    if i == |s| then 0 else (if IsStart(s, i, w) then 1 else 0) + Starts(s, i + 1, w)
  }

  /** Inside a run of word characters no word starts. */
  lemma {:induction false} RunNoStarts(s: string, k: nat, j: nat, w: char -> bool)
    requires 1 <= k <= j <= |s|
    requires forall m | k - 1 <= m < j :: w(s[m])
    ensures Starts(s, k, w) == Starts(s, j, w)
    decreases j - k
  {
    if k < j {
      RunNoStarts(s, k + 1, j, w);
    }
  }

  /** `i` is not inside a run of word characters. */
  predicate Boundary(s: string, i: nat, w: char -> bool)
    requires i <= |s|
  {
    i == 0 || i == |s| || !w(s[i - 1]) || !w(s[i])
  }

  /** There is one word per maximal run of word characters. */
  lemma {:induction false} WordsCount(s: string, i: nat, w: char -> bool)
    requires i <= |s| && Boundary(s, i, w)
    ensures |WordsFrom(s, i, w)| == Starts(s, i, w)
    decreases |s| - i
  {
    if i < |s| {
      if w(s[i]) {
        var j := RunEnd(s, i, w);
        RunNoStarts(s, i + 1, j, w);
        WordsCount(s, j, w);
      } else {
        WordsCount(s, i + 1, w);
      }
    }
  }

  /** A property of every character of the text holds for every character of its words. */
  lemma {:induction false} WordsInherit(s: string, i: nat, w: char -> bool, P: char -> bool)
    requires i <= |s|
    requires forall k | 0 <= k < |s| :: P(s[k])
    ensures var r := WordsFrom(s, i, w);
      forall k, j | 0 <= k < |r| && 0 <= j < |r[k]| :: P(r[k][j])
    decreases |s| - i
  {
    if i < |s| {
      if w(s[i]) {
        var j := RunEnd(s, i, w);
        WordsInherit(s, j, w, P);
        var r := WordsFrom(s, i, w);
        assert r == [s[i..j]] + WordsFrom(s, j, w);
        forall k, m | 0 <= k < |r| && 0 <= m < |r[k]| ensures P(r[k][m]) {
          if k == 0 {
            assert r[k][m] == s[i + m];
          } else {
            assert r[k] == WordsFrom(s, j, w)[k - 1];
          }
        }
      } else {
        WordsInherit(s, i + 1, w, P);
        assert WordsFrom(s, i, w) == WordsFrom(s, i + 1, w);
      }
    }
  }

  // `sum(len(word) for word in words)`

  function SumLengths(words: seq<string>): nat
  {
    if |words| == 0 then 0 else |words[0]| + SumLengths(words[1..])
  }

  lemma {:induction false} SumLengthsJoin(words: seq<string>)
    ensures SumLengths(words) == |Join(words, [])|
    decreases |words|
  {
    if |words| > 0 {
      SumLengthsJoin(words[1..]);
      assert words == [words[0]] + words[1..];
      JoinCons(words[0], words[1..]);
    }
  }

  /** `avg_word_length`: the integer `0`, or the quotient `total / count` (a float). */
  datatype Average = Zero | Quotient(total: nat, count: nat)

  function AverageOf(words: seq<string>, wordCount: nat): Average
  {
    if wordCount > 0 then Quotient(SumLengths(words), wordCount) else Zero
  }

  // Readability: words per line compared with 15 and 8

  const Complex := "Complex"
  const Medium := "Medium"
  const Simple := "Simple"
  const NotApplicable := "N/A"

  /** The grade of `word_count / line_count`; for positive counts `wc / lc > 15` is
      `wc > 15 * lc`, and likewise for 8. */
  function Readability(wordCount: nat, lineCount: nat): (g: string)
    ensures lineCount > 0 ==>
      (g == NotApplicable <==> wordCount == 0)
      && (g == Complex <==> wordCount > 15 * lineCount)
      && (g == Medium <==> 8 * lineCount < wordCount <= 15 * lineCount)
      && (g == Simple <==> 0 < wordCount <= 8 * lineCount)
  {
    if wordCount > 0 && lineCount > 0 then
      if wordCount > 15 * lineCount then Complex
      else if wordCount > 8 * lineCount then Medium
      else Simple
    else NotApplicable
  }

  // The results

  /** The number of entries of each frequency table. */
  const Top: nat := 10

  /** The integer and word keys of the result dictionary. */
  datatype Results = Results(
    length: nat,
    wordCount: nat,
    lineCount: nat,
    charFrequency: seq<(char, nat)>,
    wordFrequency: seq<(string, nat)>,
    avgWordLength: Average,
    readability: string)

  /** `analyze_text(text)`, filling the keys in the order the script does. */
  method AnalyzeText(text: string, unicodeAlnum: char -> bool) returns (results: Results)
    ensures results.length == |text|
    ensures results.wordCount == |Py.Split(text)|
    ensures results.lineCount == LineCount(text)
    ensures results.charFrequency == MostCommon(text, Top)
    ensures results.wordFrequency == MostCommon(Words(text, unicodeAlnum), Top)
    ensures results.avgWordLength == AverageOf(Words(text, unicodeAlnum), |Py.Split(text)|)
    ensures results.readability == Readability(|Py.Split(text)|, LineCount(text))
  {
    results := Results(0, 0, 0, [], [], Zero, NotApplicable);
    results := results.(length := |text|);
    results := results.(wordCount := |Py.Split(text)|);
    results := results.(lineCount := CountOf(text, '\n') + 1);
    results := results.(charFrequency := MostCommon(text, Top));
    var words := WordsFrom(Py.Lower(text), 0, WordChar(unicodeAlnum));
    results := results.(wordFrequency := MostCommon(words, Top));
    if results.wordCount > 0 {
      results := results.(avgWordLength := Quotient(SumLengths(words), results.wordCount));
    } else {
      results := results.(avgWordLength := Zero);
    }
    if results.wordCount > 0 && results.lineCount > 0 {
      var grade := if results.wordCount > 15 * results.lineCount then Complex
        else if results.wordCount > 8 * results.lineCount then Medium
        else Simple;
      results := results.(readability := grade);
    } else {
      results := results.(readability := NotApplicable);
    }
  }

  // What the metrics mean

  /** The character table: at most ten distinct characters of the text, each with its number
      of occurrences, by falling count, and no character left out occurs more often than one
      listed. */
  lemma CharFrequencySpec(text: string, c: char)
    ensures var r := MostCommon(text, Top);
      |r| == (if |Distinct(text)| <= Top then |Distinct(text)| else Top)
      && (forall i | 0 <= i < |r| :: r[i].0 in text && r[i].1 == CountOf(text, r[i].0))
      && (forall i, j | 0 <= i < j < |r| :: r[i].0 != r[j].0 && r[i].1 >= r[j].1)
      && (c in text ==> (exists i | 0 <= i < |r| :: r[i].0 == c) || (forall i | 0 <= i < |r| :: CountOf(text, c) <= r[i].1))
  {
    MostCommonSize(text, Top);
    MostCommonSpec(text, Top);
    if c in text {
      MostCommonCovers(text, Top, c);
    }
  }

  /** Every word is a non-empty run of word characters without ASCII capitals. */
  predicate LowerWord(x: string, unicodeAlnum: char -> bool)
  {
    |x| > 0 && forall j | 0 <= j < |x| :: Py.IsWordChar(x[j], unicodeAlnum) && !Py.IsAsciiUpper(x[j])
  }

  lemma WordsLower(text: string, unicodeAlnum: char -> bool)
    ensures var words := Words(text, unicodeAlnum);
      forall m | 0 <= m < |words| :: LowerWord(words[m], unicodeAlnum)
  {
    var s := Py.Lower(text);
    var w := WordChar(unicodeAlnum);
    var words := Words(text, unicodeAlnum);
    Py.LowerNoUpper(text);
    var P := (c: char) => !Py.IsAsciiUpper(c);
    WordsInherit(s, 0, w, P);
    assert words == WordsFrom(s, 0, w);
    forall m | 0 <= m < |words| ensures LowerWord(words[m], unicodeAlnum) {
      forall j | 0 <= j < |words[m]| ensures Py.IsWordChar(words[m][j], unicodeAlnum) && !Py.IsAsciiUpper(words[m][j]) {
        assert w(words[m][j]);
        assert P(words[m][j]);
      }
    }
  }

  /** The word table: at most ten distinct words, each a non-empty run of word characters
      without ASCII capitals, with its number of occurrences, by falling count. */
  lemma WordFrequencySpec(text: string, unicodeAlnum: char -> bool)
    ensures var words := Words(text, unicodeAlnum); var r := MostCommon(words, Top);
      |r| <= Top
      && (forall i | 0 <= i < |r| :: r[i].0 in words && r[i].1 == CountOf(words, r[i].0))
      && (forall i, j | 0 <= i < j < |r| :: r[i].0 != r[j].0 && r[i].1 >= r[j].1)
      && (forall i | 0 <= i < |r| :: LowerWord(r[i].0, unicodeAlnum))
  {
    var words := Words(text, unicodeAlnum);
    var r := MostCommon(words, Top);
    MostCommonSize(words, Top);
    MostCommonSpec(words, Top);
    WordsLower(text, unicodeAlnum);
    forall i | 0 <= i < |r| ensures LowerWord(r[i].0, unicodeAlnum) {
      var m :| 0 <= m < |words| && words[m] == r[i].0;
    }
  }

  /** The words are the maximal runs of word characters of the lower-cased text: together
      they hold its word characters in order, and there is one per run. */
  lemma WordsSpec(text: string, unicodeAlnum: char -> bool)
    ensures var s := Py.Lower(text); var w := WordChar(unicodeAlnum);
      Join(Words(text, unicodeAlnum), []) == Filter(s, w)
      && |Words(text, unicodeAlnum)| == Starts(s, 0, w)
  {
    var s := Py.Lower(text);
    var w := WordChar(unicodeAlnum);
    WordsJoin(s, 0, w);
    assert s[0..] == s;
    WordsCount(s, 0, w);
  }

  /** The average is `0` exactly when the text is all white space; otherwise its numerator is
      the number of word characters of the lower-cased text (the lengths of the `\w+` words,
      while the denominator counts the white-space separated words). */
  lemma AverageSpec(text: string, unicodeAlnum: char -> bool)
    ensures var a := AverageOf(Words(text, unicodeAlnum), |Py.Split(text)|);
      (a == Zero <==> forall k | 0 <= k < |text| :: Py.IsSpace(text[k]))
      && (a.Quotient? ==>
            (a.count == |Py.Split(text)| > 0
             && a.total == |Filter(Py.Lower(text), WordChar(unicodeAlnum))| <= |Py.Lower(text)|))
  {
    var words := Words(text, unicodeAlnum);
    SumLengthsJoin(words);
    WordsSpec(text, unicodeAlnum);
  }

  /** The grade: `N/A` exactly for a text of white space only, and otherwise by words per
      line, Complex above 15, Medium above 8, Simple up to 8. */
  lemma ReadabilitySpec(text: string)
    ensures var wc := |Py.Split(text)|; var lc := LineCount(text); var g := Readability(wc, lc);
      (g == NotApplicable <==> forall k | 0 <= k < |text| :: Py.IsSpace(text[k]))
      && (g == Complex <==> wc > 15 * lc)
      && (g == Medium <==> 8 * lc < wc <= 15 * lc)
      && (g == Simple <==> 0 < wc <= 8 * lc)
  {
  }
}
