/** The text-processing cases of the tools page: the case converter, the length counter,
    white-space removal, line sorting and line de-duplication. Each is a chain of string
    operations, so each is a function of the input text. */
module TextCases {
  import opened Text
  import opened Js

  // case-converter

  /** The title case of text without white space (the replacement of one match of the
      pattern `\w\S*`, together with the characters before the match): characters up to the
      first word character are kept, that character is upper-cased and the rest lower-cased. */
  function TitleWord(w: JsString): JsString
  {
    if |w| == 0 then []
    else if IsWordChar(w[0]) then UpperOf(w[0]) + ToLower(w[1..])
    else [w[0]] + TitleWord(w[1..])
  }

  /** Replacing every match of the pattern `\w\S*` (global flag) by its first character
      upper-cased and the rest lower-cased: the scan for the next match moves one character
      at a time until a word character, and a match runs from there to the next white space. */
  function TitleCase(s: JsString): JsString
    decreases |s|
  {
    if |s| == 0 then []
    else if IsWordChar(s[0]) then
      var j := FirstSpace(s);
      UpperOf(s[0]) + ToLower(s[1..j]) + TitleCase(s[j..])
    else [s[0]] + TitleCase(s[1..])
  }

  /** Text without white space is title-cased as one word. */
  lemma {:induction false} TitleCaseNoSpace(w: JsString)
    requires NoSpace(w)
    ensures TitleCase(w) == TitleWord(w)
    decreases |w|
  {
    if |w| > 0 {
      if IsWordChar(w[0]) {
        FirstSpaceOfNoSpace(w);
        assert w[|w|..] == [];
        assert w[1..|w|] == w[1..];
      } else {
        TitleCaseNoSpace(w[1..]);
      }
    }
  }

  /** A white-space character ends a word: what precedes it is title-cased on its own. */
  lemma {:induction false} TitleCaseSplit(w: JsString, c: CodeUnit, t: JsString)
    requires NoSpace(w) && IsSpace(c)
    ensures TitleCase(w + [c] + t) == TitleWord(w) + [c] + TitleCase(t)
    decreases |w|
  {
    var s := w + [c] + t;
    if |w| == 0 {
      assert s == [c] + t;
      assert s[1..] == t;
    } else if IsWordChar(w[0]) {
      TitleCaseWordSplit(w, c, t);
    } else {
      assert s[1..] == w[1..] + [c] + t;
      TitleCaseSplit(w[1..], c, t);
    }
  }

  /** `TitleCaseSplit` where the text starts with a word character. */
  lemma {:induction false} TitleCaseWordSplit(w: JsString, c: CodeUnit, t: JsString)
    requires NoSpace(w) && IsSpace(c) && |w| > 0 && IsWordChar(w[0])
    ensures TitleCase(w + [c] + t) == TitleWord(w) + [c] + TitleCase(t)
  {
    var s := w + [c] + t;
    assert s[..|w|] == w;
    FirstSpaceAt(s, |w|);
    assert s[1..|w|] == w[1..];
    assert s[|w|..] == [c] + t;
    TitleCaseSpace(c, t);
    assert TitleCase(s) == UpperOf(w[0]) + ToLower(w[1..]) + ([c] + TitleCase(t));
  }

  lemma TitleCaseSpace(c: CodeUnit, t: JsString)
    requires IsSpace(c)
    ensures TitleCase([c] + t) == [c] + TitleCase(t)
  {
    assert ([c] + t)[1..] == t;
  }

  function TitleWords(parts: seq<JsString>): (r: seq<JsString>)
    ensures |r| == |parts|
  {
    if |parts| == 0 then [] else [TitleWord(parts[0])] + TitleWords(parts[1..])
  }

  /** Title case works word by word: on words joined by a white-space character it is the
      join of the title-cased words. */
  lemma {:induction false} TitleCaseJoin(parts: seq<JsString>, c: CodeUnit)
    requires |parts| >= 1 && IsSpace(c)
    requires forall k | 0 <= k < |parts| :: NoSpace(parts[k])
    ensures TitleCase(Join(parts, [c])) == Join(TitleWords(parts), [c])
    decreases |parts|
  {
    if |parts| == 1 {
      TitleCaseNoSpace(parts[0]);
    } else {
      var rest := Join(parts[1..], [c]);
      assert Join(parts, [c]) == parts[0] + [c] + rest;
      TitleCaseSplit(parts[0], c, rest);
      TitleCaseJoin(parts[1..], c);
      assert TitleWords(parts)[1..] == TitleWords(parts[1..]);
    }
  }

  /** An ASCII word that starts with a word character gets that character upper-cased and
      every later one lower-cased. */
  lemma TitleWordAscii(w: JsString)
    requires |w| >= 1 && IsWordChar(w[0])
    requires forall k | 0 <= k < |w| :: w[k] < 128
    ensures |TitleWord(w)| == |w|
    ensures TitleWord(w)[0] == (if IsLower(w[0]) then w[0] - 32 else w[0])
    ensures forall k | 1 <= k < |w| :: TitleWord(w)[k] == (if IsUpper(w[k]) then w[k] + 32 else w[k])
  {
    ToLowerAscii(w[1..]);
  }

  const UpperLabel: JsString := Str("Upper: ")
  const LowerLabel: JsString := Str("Lower: ")
  const TitleLabel: JsString := Str("Title: ")

  /** The output of the case converter. */
  function CaseConverter(s: JsString): JsString
  {
    Join([UpperLabel + ToUpper(s), LowerLabel + ToLower(s), TitleLabel + TitleCase(s)], [10])
  }

  /** A text of one line gives three lines of output: its upper, lower and title case. */
  lemma CaseConverterLines(s: JsString)
    requires 10 !in s
    ensures SplitOn(CaseConverter(s), 10) ==
      [UpperLabel + ToUpper(s), LowerLabel + ToLower(s), TitleLabel + TitleCase(s)]
  {
    ToUpperNoNewline(s);
    ToLowerNoNewline(s);
    TitleCaseNoNewline(s);
    LabelsHaveNoBreak();
    NoBreakConcat(UpperLabel, ToUpper(s));
    NoBreakConcat(LowerLabel, ToLower(s));
    NoBreakConcat(TitleLabel, TitleCase(s));
    SplitThree(UpperLabel + ToUpper(s), LowerLabel + ToLower(s), TitleLabel + TitleCase(s));
  }

  lemma {:induction false} ToLowerAscii(s: JsString)
    requires forall k | 0 <= k < |s| :: s[k] < 128
    ensures |ToLower(s)| == |s|
    ensures forall k | 0 <= k < |s| :: ToLower(s)[k] == (if IsUpper(s[k]) then s[k] + 32 else s[k])
    decreases |s|
  {
    if |s| > 0 {
      ToLowerAscii(s[1..]);
      assert ToLower(s) == LowerOf(s[0]) + ToLower(s[1..]);
    }
  }

  lemma {:induction false} ToUpperNoNewline(s: JsString)
    requires 10 !in s
    ensures 10 !in ToUpper(s)
    decreases |s|
  {
    if |s| > 0 {
      ToUpperNoNewline(s[1..]);
      assert ToUpper(s) == UpperOf(s[0]) + ToUpper(s[1..]);
    }
  }

  lemma {:induction false} ToLowerNoNewline(s: JsString)
    requires 10 !in s
    ensures 10 !in ToLower(s)
    decreases |s|
  {
    if |s| > 0 {
      ToLowerNoNewline(s[1..]);
      assert ToLower(s) == LowerOf(s[0]) + ToLower(s[1..]);
    }
  }

  lemma {:induction false} TitleCaseNoNewline(s: JsString)
    requires 10 !in s
    ensures 10 !in TitleCase(s)
    decreases |s|
  {
    if |s| > 0 {
      if IsWordChar(s[0]) {
        var j := FirstSpace(s);
        assert 10 !in s[1..j] && 10 !in s[j..];
        ToLowerNoNewline(s[1..j]);
        TitleCaseNoNewline(s[j..]);
      } else {
        TitleCaseNoNewline(s[1..]);
      }
    }
  }

  lemma NoBreakConcat(x: JsString, y: JsString)
    requires 10 !in x && 10 !in y
    ensures 10 !in x + y
  {
  }

  lemma LabelsHaveNoBreak()
    ensures 10 !in UpperLabel && 10 !in LowerLabel && 10 !in TitleLabel
    ensures 10 !in CharactersLabel && 10 !in WordsLabel && 10 !in LinesLabel
  {
  }

  /** Three pieces without a line break, joined by line feeds, split back into the pieces. */
  lemma SplitThree(a: JsString, b: JsString, c: JsString)
    requires 10 !in a && 10 !in b && 10 !in c
    ensures SplitOn(Join([a, b, c], [10]), 10) == [a, b, c]
  {
    SplitOnJoin([a, b, c], 10);
  }

  // text-length

  const CharactersLabel: JsString := Str("Characters: ")
  const WordsLabel: JsString := Str("Words: ")
  const LinesLabel: JsString := Str("Lines: ")

  /** The output of the length counter: code units, white-space separated words, and pieces
      between line feeds. */
  function TextLength(s: JsString): JsString
  {
    Join([CharactersLabel + Decimal(|s|), WordsLabel + Decimal(|Words(s)|), LinesLabel + Decimal(|SplitOn(s, 10)|)], [10])
  }

  /** The output is always three lines, one per count. */
  lemma TextLengthLines(s: JsString)
    ensures SplitOn(TextLength(s), 10) ==
      [CharactersLabel + Decimal(|s|), WordsLabel + Decimal(|Words(s)|), LinesLabel + Decimal(|SplitOn(s, 10)|)]
  {
    DecimalNoNewline(|s|);
    DecimalNoNewline(|Words(s)|);
    DecimalNoNewline(|SplitOn(s, 10)|);
    LabelsHaveNoBreak();
    NoBreakConcat(CharactersLabel, Decimal(|s|));
    NoBreakConcat(WordsLabel, Decimal(|Words(s)|));
    NoBreakConcat(LinesLabel, Decimal(|SplitOn(s, 10)|));
    SplitThree(CharactersLabel + Decimal(|s|), WordsLabel + Decimal(|Words(s)|), LinesLabel + Decimal(|SplitOn(s, 10)|));
  }

  lemma DecimalNoNewline(n: nat)
    ensures 10 !in Decimal(n)
  {
    var d := Decimal(n);
    assert forall k | 0 <= k < |d| :: d[k] != 10;
  }

  /** The line count is one more than the number of line feeds. */
  lemma {:induction false} LineCount(s: JsString)
    ensures |SplitOn(s, 10)| == CountOf(s, 10) + 1
    decreases |s|
  {
    if 10 in s {
      var i := IndexOf(s, 10);
      LineCount(s[i + 1..]);
      assert s == s[..i] + [10] + s[i + 1..];
      CountOfAppend(s[..i] + [10], s[i + 1..], 10);
      CountOfAppend(s[..i], [10], 10);
      CountOfAbsent(s[..i], 10);
    } else {
      CountOfAbsent(s, 10);
    }
  }

  lemma {:induction false} CountOfAbsent<T>(s: seq<T>, x: T)
    requires x !in s
    ensures CountOf(s, x) == 0
    decreases |s|
  {
    if |s| > 0 {
      assert s[..|s| - 1] <= s;
      CountOfAbsent(s[..|s| - 1], x);
    }
  }

  /** Words joined by single spaces are counted one by one. */
  lemma WordCount(parts: seq<JsString>)
    requires |parts| >= 1
    requires forall k | 0 <= k < |parts| :: |parts[k]| > 0 && NoSpace(parts[k])
    ensures Words(Join(parts, [32])) == parts
  {
    var s := Join(parts, [32]);
    JoinFirstNotSpace(parts);
    JoinLastNotSpace(parts);
    TrimEnds(s);
    SplitWsJoin(parts);
    NonEmptyAll(parts);
  }

  lemma {:induction false} JoinLastNotSpace(parts: seq<JsString>)
    requires |parts| >= 1
    requires forall k | 0 <= k < |parts| :: |parts[k]| > 0 && NoSpace(parts[k])
    ensures |Join(parts, [32])| > 0 && !IsSpace(Join(parts, [32])[|Join(parts, [32])| - 1])
    decreases |parts|
  {
    if |parts| > 1 {
      JoinLastNotSpace(parts[1..]);
      var rest := Join(parts[1..], [32]);
      assert Join(parts, [32]) == parts[0] + [32] + rest;
    }
  }

  /** Text that neither starts nor ends with white space is its own `trim`. */
  lemma TrimEnds(s: JsString)
    requires |s| == 0 || (!IsSpace(s[0]) && !IsSpace(s[|s| - 1]))
    ensures Trim(s) == s
  {
    assert SpaceRunEnd(s, 0) == 0;
    assert SpaceRunStart(s, 0, |s|) == |s|;
  }

  lemma {:induction false} NonEmptyAll(pieces: seq<JsString>)
    requires forall k | 0 <= k < |pieces| :: |pieces[k]| > 0
    ensures NonEmpty(pieces) == pieces
    decreases |pieces|
  {
    if |pieces| > 0 {
      NonEmptyAll(pieces[1..]);
    }
  }

  // remove-whitespace

  /** `replace(/\s+/g, ' ')`: every maximal run of white space becomes one space. */
  function Collapse(s: JsString): (r: JsString)
    ensures |r| <= |s|
    decreases |s|
  {
    if |s| == 0 then []
    else if IsSpace(s[0]) then [32] + Collapse(s[SpaceRunEnd(s, 0)..])
    else [s[0]] + Collapse(s[1..])
  }

  /** The output of white-space removal. */
  function RemoveWhitespace(s: JsString): JsString
  {
    Trim(Collapse(s))
  }

  /** Every white-space character is a plain space, and no two of them are adjacent. */
  predicate Collapsed(s: JsString)
  {
    forall k | 0 <= k < |s| && IsSpace(s[k]) :: s[k] == 32 && (k + 1 < |s| ==> !IsSpace(s[k + 1]))
  }

  lemma {:induction false} CollapseShape(s: JsString)
    ensures Collapsed(Collapse(s))
    ensures |s| > 0 && !IsSpace(s[0]) ==> |Collapse(s)| > 0 && !IsSpace(Collapse(s)[0])
    decreases |s|
  {
    if |s| > 0 {
      var r := Collapse(s);
      if IsSpace(s[0]) {
        var j := SpaceRunEnd(s, 0);
        var rest := Collapse(s[j..]);
        CollapseShape(s[j..]);
        assert r == [32] + rest;
        assert forall k | 1 <= k < |r| :: r[k] == rest[k - 1];
      } else {
        var rest := Collapse(s[1..]);
        CollapseShape(s[1..]);
        assert r == [s[0]] + rest;
        assert forall k | 1 <= k < |r| :: r[k] == rest[k - 1];
      }
    }
  }

  /** Collapsing keeps every character that is not white space, in order. */
  lemma {:induction false} CollapseKeeps(s: JsString)
    ensures Filter(Collapse(s), NotSpace) == Filter(s, NotSpace)
    decreases |s|
  {
    if |s| > 0 {
      if IsSpace(s[0]) {
        var j := SpaceRunEnd(s, 0);
        var space: JsString := [32];
        CollapseKeeps(s[j..]);
        assert Collapse(s) == space + Collapse(s[j..]);
        FilterAppend(space, Collapse(s[j..]), NotSpace);
        FilterNone(space, NotSpace);
        assert s == s[..j] + s[j..];
        FilterAppend(s[..j], s[j..], NotSpace);
        FilterNone(s[..j], NotSpace);
      } else {
        CollapseKeeps(s[1..]);
        FilterAppend([s[0]], Collapse(s[1..]), NotSpace);
        FilterAppend([s[0]], s[1..], NotSpace);
        assert s == [s[0]] + s[1..];
      }
    }
  }

  /** The result has no leading or trailing white space, its only white space is single
      spaces, and it keeps every other character of the input in order. */
  lemma RemoveWhitespaceShape(s: JsString)
    ensures var r := RemoveWhitespace(s);
      Collapsed(r) && (|r| > 0 ==> !IsSpace(r[0]) && !IsSpace(r[|r| - 1]))
      && Filter(r, NotSpace) == Filter(s, NotSpace)
  {
    var c := Collapse(s);
    CollapseShape(s);
    CollapseKeeps(s);
    var r := Trim(c);
    var i: nat, j: nat :| TrimSlice(c, r, i, j);
    CollapsedSlice(c, i, j);
    TrimKeeps(c, i, j);
  }

  lemma {:induction false} CollapsedSlice(c: JsString, i: nat, j: nat)
    requires i <= j <= |c| && Collapsed(c)
    ensures Collapsed(c[i..j])
  {
    var r := c[i..j];
    forall k | 0 <= k < |r| && IsSpace(r[k]) ensures r[k] == 32 && (k + 1 < |r| ==> !IsSpace(r[k + 1])) {
      assert r[k] == c[i + k];
      if k + 1 < |r| {
        assert r[k + 1] == c[i + k + 1];
      }
    }
  }

  /** Cutting off white space at both ends keeps the other characters. */
  lemma {:induction false} TrimKeeps(c: JsString, i: nat, j: nat)
    requires TrimSlice(c, Trim(c), i, j)
    ensures Filter(Trim(c), NotSpace) == Filter(c, NotSpace)
  {
    var a, r, b := c[..i], Trim(c), c[j..];
    assert c == a + r + b by {
      assert r == c[i..j];
    }
    assert forall k | 0 <= k < |a| :: !NotSpace(a[k]) by {
      forall k | 0 <= k < |a| ensures !NotSpace(a[k]) {
        assert a[k] == c[k];
      }
    }
    assert forall k | 0 <= k < |b| :: !NotSpace(b[k]) by {
      forall k | 0 <= k < |b| ensures !NotSpace(b[k]) {
        assert b[k] == c[j + k];
      }
    }
    FilterBetween(a, r, b, NotSpace);
  }

  /** Collapsed text is left as it is by collapsing. */
  lemma {:induction false} CollapseCollapsed(s: JsString)
    requires Collapsed(s)
    ensures Collapse(s) == s
    decreases |s|
  {
    if |s| > 0 {
      assert Collapsed(s[1..]) by {
        forall k | 0 <= k < |s[1..]| && IsSpace(s[1..][k])
          ensures s[1..][k] == 32 && (k + 1 < |s[1..]| ==> !IsSpace(s[1..][k + 1]))
        {
          assert s[1..][k] == s[k + 1];
        }
      }
      if IsSpace(s[0]) {
        assert SpaceRunEnd(s, 0) == 1 by {
          assert |s| > 1 ==> !IsSpace(s[1]);
          assert SpaceRunEnd(s, 1) == 1;
        }
      }
      CollapseCollapsed(s[1..]);
    }
  }

  /** Removing white space twice changes nothing more. */
  lemma RemoveWhitespaceIdempotent(s: JsString)
    ensures RemoveWhitespace(RemoveWhitespace(s)) == RemoveWhitespace(s)
  {
    var r := RemoveWhitespace(s);
    RemoveWhitespaceShape(s);
    CollapseCollapsed(r);
    TrimEnds(r);
  }

  // sort-lines

  /** The order of the default `sort`: code units compared one by one, a proper prefix
      first. */
  predicate LexLe(a: JsString, b: JsString)
    decreases |a|
  {
    |a| == 0 || (|b| > 0 && (a[0] < b[0] || (a[0] == b[0] && LexLe(a[1..], b[1..]))))
  }

  lemma {:induction false} LexTotal(a: JsString, b: JsString)
    ensures LexLe(a, b) || LexLe(b, a)
    decreases |a|
  {
    if |a| > 0 && |b| > 0 && a[0] == b[0] {
      LexTotal(a[1..], b[1..]);
    }
  }

  lemma {:induction false} LexAntisymmetric(a: JsString, b: JsString)
    requires LexLe(a, b) && LexLe(b, a)
    ensures a == b
    decreases |a|
  {
    if |a| > 0 {
      LexAntisymmetric(a[1..], b[1..]);
      assert a == [a[0]] + a[1..];
      assert b == [b[0]] + b[1..];
    }
  }

  lemma {:induction false} LexTransitive(a: JsString, b: JsString, c: JsString)
    requires LexLe(a, b) && LexLe(b, c)
    ensures LexLe(a, c)
    decreases |a|
  {
    if |a| > 0 && a[0] == b[0] && b[0] == c[0] {
      LexTransitive(a[1..], b[1..], c[1..]);
    }
  }

  predicate Sorted(lines: seq<JsString>)
  {
    forall i, j | 0 <= i < j < |lines| :: LexLe(lines[i], lines[j])
  }

  /** `x` inserted into sorted `lines` before the first line it does not follow. */
  function Insert(x: JsString, lines: seq<JsString>): (r: seq<JsString>)
    ensures multiset(r) == multiset(lines) + multiset{x}
  {
    if |lines| == 0 then [x]
    else if LexLe(x, lines[0]) then [x] + lines
    else
      assert lines == [lines[0]] + lines[1..];
      [lines[0]] + Insert(x, lines[1..])
  }

  lemma {:induction false} InsertSorted(x: JsString, lines: seq<JsString>)
    requires Sorted(lines)
    ensures Sorted(Insert(x, lines))
    decreases |lines|
  {
    var r := Insert(x, lines);
    if |lines| > 0 {
      if LexLe(x, lines[0]) {
        forall j | 1 <= j < |r| ensures LexLe(x, r[j]) {
          if j > 1 {
            LexTransitive(x, lines[0], lines[j - 1]);
          }
        }
      } else {
        LexTotal(x, lines[0]);
        InsertSorted(x, lines[1..]);
        InsertBound(x, lines[1..], lines[0]);
        assert r == [lines[0]] + Insert(x, lines[1..]);
      }
    }
  }

  /** A lower bound of `x` and of every line bounds the lines after insertion. */
  lemma {:induction false} InsertBound(x: JsString, lines: seq<JsString>, y: JsString)
    requires LexLe(y, x) && forall k | 0 <= k < |lines| :: LexLe(y, lines[k])
    ensures forall k | 0 <= k < |Insert(x, lines)| :: LexLe(y, Insert(x, lines)[k])
    decreases |lines|
  {
    if |lines| > 0 && !LexLe(x, lines[0]) {
      InsertBound(x, lines[1..], y);
      var rest := Insert(x, lines[1..]);
      assert Insert(x, lines) == [lines[0]] + rest;
      assert forall k | 1 <= k < |Insert(x, lines)| :: Insert(x, lines)[k] == rest[k - 1];
    }
  }

  /** Insertion sort, the reference for the default `sort` on strings. */
  function Sort(lines: seq<JsString>): (r: seq<JsString>)
    ensures multiset(r) == multiset(lines)
  {
    if |lines| == 0 then []
    else
      assert lines == [lines[0]] + lines[1..];
      Insert(lines[0], Sort(lines[1..]))
  }

  lemma {:induction false} SortSorted(lines: seq<JsString>)
    ensures Sorted(Sort(lines))
    decreases |lines|
  {
    if |lines| > 0 {
      SortSorted(lines[1..]);
      InsertSorted(lines[0], Sort(lines[1..]));
    }
  }

  /** Two sorted arrangements of the same lines are the same sequence, so the sorted output
      does not depend on which sorting algorithm produced it. */
  lemma {:induction false} SortedUnique(a: seq<JsString>, b: seq<JsString>)
    requires Sorted(a) && Sorted(b) && multiset(a) == multiset(b)
    ensures a == b
    decreases |a|
  {
    assert |a| == |multiset(a)| == |multiset(b)| == |b|;
    if |a| > 0 {
      HeadsEqual(a, b);
      TailsSame(a, b);
      SortedTail(a);
      SortedTail(b);
      SortedUnique(a[1..], b[1..]);
    }
  }

  /** Two arrangements of the same lines that start with the same line continue with the same
      lines. */
  lemma TailsSame(a: seq<JsString>, b: seq<JsString>)
    requires multiset(a) == multiset(b) && |a| > 0 && |b| > 0 && a[0] == b[0]
    ensures multiset(a[1..]) == multiset(b[1..])
  {
    assert a == [a[0]] + a[1..] && b == [b[0]] + b[1..];
    assert multiset(a) == multiset{a[0]} + multiset(a[1..]);
    assert multiset(b) == multiset{a[0]} + multiset(b[1..]);
    assert multiset(a[1..]) == multiset(a) - multiset{a[0]} == multiset(b[1..]);
  }

  lemma SortedTail(a: seq<JsString>)
    requires Sorted(a) && |a| > 0
    ensures Sorted(a[1..])
  {
    forall i, j | 0 <= i < j < |a| - 1 ensures LexLe(a[1..][i], a[1..][j]) {
      assert a[1..][i] == a[i + 1] && a[1..][j] == a[j + 1];
    }
  }

  /** The first lines of two sorted arrangements of the same lines are the same line. */
  lemma HeadsEqual(a: seq<JsString>, b: seq<JsString>)
    requires Sorted(a) && Sorted(b) && multiset(a) == multiset(b) && |a| > 0 && |b| > 0
    ensures a[0] == b[0]
  {
    assert a[0] in multiset(b) && b[0] in multiset(a);
    var i :| 0 <= i < |b| && b[i] == a[0];
    var j :| 0 <= j < |a| && a[j] == b[0];
    LexRefl(a[0]);
    LexRefl(b[0]);
    assert LexLe(b[0], a[0]) by {
      if i > 0 { assert LexLe(b[0], b[i]); }
    }
    assert LexLe(a[0], b[0]) by {
      if j > 0 { assert LexLe(a[0], a[j]); }
    }
    LexAntisymmetric(a[0], b[0]);
  }

  lemma {:induction false} LexRefl(a: JsString)
    ensures LexLe(a, a)
    decreases |a|
  {
    if |a| > 0 {
      LexRefl(a[1..]);
    }
  }

  /** The output of line sorting. */
  function SortLines(s: JsString): JsString
  {
    Join(Sort(SplitOn(s, 10)), [10])
  }

  /** The output lines are the input lines, sorted: a sorted rearrangement of them. */
  lemma SortLinesSpec(s: JsString)
    ensures var lines := SplitOn(SortLines(s), 10);
      Sorted(lines) && multiset(lines) == multiset(SplitOn(s, 10))
  {
    var lines := SplitOn(s, 10);
    SortedLinesSplit(lines);
    SortSorted(lines);
  }

  /** Sorted lines joined by line feeds split back into the same lines. */
  lemma SortedLinesSplit(lines: seq<JsString>)
    requires |lines| >= 1
    requires forall k | 0 <= k < |lines| :: 10 !in lines[k]
    ensures SplitOn(Join(Sort(lines), [10]), 10) == Sort(lines)
  {
    var r := Sort(lines);
    assert |r| >= 1 by {
      assert |multiset(r)| == |multiset(lines)|;
    }
    forall k | 0 <= k < |r| ensures 10 !in r[k] {
      assert r[k] in multiset(lines);
    }
    SplitOnJoin(r, 10);
  }

  /** Sorting sorted lines changes nothing. */
  lemma SortLinesIdempotent(s: JsString)
    ensures SortLines(SortLines(s)) == SortLines(s)
  {
    var lines := SplitOn(s, 10);
    SortedLinesSplit(lines);
    var sorted := Sort(lines);
    SortSorted(lines);
    SortSorted(sorted);
    SortedUnique(Sort(sorted), sorted);
  }

  // unique-lines

  /** The output of line de-duplication: each distinct line once, in the order of its first
      occurrence (`new Set` keeps insertion order). */
  function UniqueLines(s: JsString): JsString
  {
    Join(Distinct(SplitOn(s, 10)), [10])
  }

  /** Distinct lines joined by line feeds split back into the same lines. */
  lemma DistinctLinesSplit(lines: seq<JsString>)
    requires |lines| >= 1
    requires forall k | 0 <= k < |lines| :: 10 !in lines[k]
    ensures SplitOn(Join(Distinct(lines), [10]), 10) == Distinct(lines)
  {
    var r := Distinct(lines);
    assert lines[0] in r;
    forall k | 0 <= k < |r| ensures 10 !in r[k] {
      assert r[k] in lines;
    }
    SplitOnJoin(r, 10);
  }

  /** The output lines are pairwise different, are exactly the lines of the input, and
      keep the order in which each line first occurs in the input. */
  lemma UniqueLinesSpec(s: JsString)
    ensures var lines := SplitOn(UniqueLines(s), 10);
      NoDuplicates(lines) && (forall line :: line in lines <==> line in SplitOn(s, 10))
      && forall i, j | 0 <= i < j < |lines| ::
        IndexOf(SplitOn(s, 10), lines[i]) < IndexOf(SplitOn(s, 10), lines[j])
  {
    var lines := SplitOn(s, 10);
    DistinctLinesSplit(lines);
    DistinctFirstOrder(lines);
  }

  /** De-duplicating lines that are already distinct changes nothing. */
  lemma {:induction false} DistinctOfDistinct<T>(s: seq<T>)
    requires NoDuplicates(s)
    ensures Distinct(s) == s
    decreases |s|
  {
    if |s| > 0 {
      var front := s[..|s| - 1];
      assert NoDuplicates(front) by {
        forall i, j | 0 <= i < j < |front| ensures front[i] != front[j] {
          assert front[i] == s[i] && front[j] == s[j];
        }
      }
      DistinctOfDistinct(front);
      assert s[|s| - 1] !in front by {
        forall i | 0 <= i < |front| ensures front[i] != s[|s| - 1] {
          assert front[i] == s[i];
        }
      }
      assert s == front + [s[|s| - 1]];
    }
  }

  /** De-duplicating twice changes nothing more. */
  lemma UniqueLinesIdempotent(s: JsString)
    ensures UniqueLines(UniqueLines(s)) == UniqueLines(s)
  {
    var lines := SplitOn(s, 10);
    DistinctLinesSplit(lines);
    DistinctOfDistinct(Distinct(lines));
  }
}
