/** The `grep-tool` case of the tools page: the input's lines on which a regular expression
    built from the pattern with the `g` and `i` flags `test`s true, joined by line feeds. One
    regular expression object serves every line, and with the `g` flag `test` starts at its
    `lastIndex` and leaves it behind for the next line. */
module GrepLines {
  import opened Text
  import opened Wrappers
  import opened Js
  import JsRegex

  /** A compiled regular expression's search: the end of the first match in the line that
      starts at or after the given index, if there is one. */
  type Search = (JsString, nat) -> Option<nat>

  /** What `test` answers, and the `lastIndex` it leaves. */
  datatype Tested = Tested(found: bool, lastIndex: nat)

  /** `RegExp.prototype.test` on a regular expression with the `g` flag (RegExpBuiltinExec,
      section 22.2.7.2 of ECMAScript 2024): a `lastIndex` beyond the end of the line fails;
      otherwise the search starts at `lastIndex`; a failure resets `lastIndex` to 0 and a match
      moves it to where the match ends. */
  function Test(search: Search, line: JsString, lastIndex: nat): Tested
  {
    if lastIndex > |line| then Tested(false, 0)
    else match search(line, lastIndex)
      case None => Tested(false, 0)
      case Some(e) => Tested(true, e)
  }

  /** `lines.filter(line => regex.test(line))`: each line is tested where the previous test
      left `lastIndex`. */
  function Filter(search: Search, lines: seq<JsString>, lastIndex: nat): seq<JsString>
    decreases |lines|
  {
    if |lines| == 0 then []
    else
      var t := Test(search, lines[0], lastIndex);
      (if t.found then [lines[0]] else []) + Filter(search, lines[1..], t.lastIndex)
  }

  /** The case: `new RegExp(pattern, 'gi')` (`compile`, whose failure is the message of the
      `SyntaxError` it throws), then `input.split('\n')`, the filter from `lastIndex` 0 and
      `join('\n')`. */
  function Output(compile: JsString -> Result<Search, JsString>, pattern: JsString,
                  input: JsString): (r: Result<JsString, JsString>)
    ensures r.Failure? <==> compile(pattern).Failure?
    ensures r.Failure? ==> r.error == compile(pattern).error
  {
    match compile(pattern)
    case Failure(message) => Failure(message)
    case Success(search) => Success(Join(Filter(search, SplitOn(input, 10), 0), [10]))
  }

  /** The line has a match starting somewhere in it. */
  predicate HasMatch(search: Search, line: JsString)
  {
    exists i: nat | i <= |line| :: search(line, i).Some?
  }

  /** Every kept line is one of the lines and has a match, and no line is kept more often
      than it occurs. */
  lemma FilterKeepsMatching(search: Search, lines: seq<JsString>, lastIndex: nat)
    ensures var kept := Filter(search, lines, lastIndex);
      multiset(kept) <= multiset(lines) && forall k | 0 <= k < |kept| :: HasMatch(search, kept[k])
  {
    FilterFromLines(search, lines, lastIndex);
    FilterMatches(search, lines, lastIndex);
    var kept := Filter(search, lines, lastIndex);
    forall k | 0 <= k < |kept| ensures HasMatch(search, kept[k]) {
      assert kept[k] in kept;
    }
  }

  lemma {:induction false} FilterFromLines(search: Search, lines: seq<JsString>, lastIndex: nat)
    ensures multiset(Filter(search, lines, lastIndex)) <= multiset(lines)
    decreases |lines|
  {
    if |lines| > 0 {
      var t := Test(search, lines[0], lastIndex);
      FilterFromLines(search, lines[1..], t.lastIndex);
      assert lines == [lines[0]] + lines[1..];
    }
  }

  lemma {:induction false} FilterMatches(search: Search, lines: seq<JsString>, lastIndex: nat)
    ensures forall line | line in Filter(search, lines, lastIndex) :: HasMatch(search, line)
    decreases |lines|
  {
    if |lines| > 0 {
      var t := Test(search, lines[0], lastIndex);
      var rest := Filter(search, lines[1..], t.lastIndex);
      FilterMatches(search, lines[1..], t.lastIndex);
      if t.found {
        assert HasMatch(search, lines[0]) by {
          assert search(lines[0], lastIndex).Some?;
        }
        assert Filter(search, lines, lastIndex) == [lines[0]] + rest;
      } else {
        assert Filter(search, lines, lastIndex) == rest;
      }
    }
  }

  /** The output, split at line feeds, gives back the kept lines, whenever a line is kept. */
  lemma OutputLines(search: Search, input: JsString)
    ensures var kept := Filter(search, SplitOn(input, 10), 0);
      |kept| > 0 ==> SplitOn(Join(kept, [10]), 10) == kept
  {
    var lines := SplitOn(input, 10);
    var kept := Filter(search, lines, 0);
    FilterKeepsMatching(search, lines, 0);
    if |kept| > 0 {
      forall k | 0 <= k < |kept| ensures 10 !in kept[k] {
        assert kept[k] in multiset(lines);
      }
      SplitOnJoin(kept, 10);
    }
  }

  /** A line with no match anywhere in it is never kept. */
  lemma UnmatchedLineDropped(search: Search, lines: seq<JsString>, lastIndex: nat, line: JsString)
    requires !HasMatch(search, line)
    ensures line !in Filter(search, lines, lastIndex)
  {
    FilterKeepsMatching(search, lines, lastIndex);
  }

  /** A search with a match starting at or after `i` also has one starting at or after any
      earlier index, as the search of a regular expression does. */
  ghost predicate Monotone(search: Search)
  {
    forall line: JsString, i: nat, j: nat | j <= i <= |line| && search(line, i).Some? :: search(line, j).Some?
  }

  /** What the filter evidently is for: the lines with a match, each searched from its start,
      as a fresh regular expression (or one without the `g` flag) would. */
  function FilterIntended(search: Search, lines: seq<JsString>): seq<JsString>
    decreases |lines|
  {
    if |lines| == 0 then []
    else (if search(lines[0], 0).Some? then [lines[0]] else []) + FilterIntended(search, lines[1..])
  }

  /** The intended filter keeps exactly the lines with a match from their start, in their
      order. */
  lemma {:induction false} FilterIntendedSpec(search: Search, lines: seq<JsString>)
    ensures var kept := FilterIntended(search, lines);
      Sub(kept, lines) && forall l | l in lines :: l in kept <==> search(l, 0).Some?
    decreases |lines|
  {
    if |lines| > 0 {
      var rest := FilterIntended(search, lines[1..]);
      FilterIntendedSpec(search, lines[1..]);
      forall l | l in lines ensures l in FilterIntended(search, lines) <==> search(l, 0).Some? {
        if l != lines[0] {
          assert l in lines[1..];
        } else if l in rest {
          SubMembers(rest, lines[1..], l);
        }
      }
      assert [lines[0]] + lines[1..] == lines;
      if search(lines[0], 0).Some? {
        var kept := [lines[0]] + rest;
        assert kept[1..] == rest;
      } else {
        assert FilterIntended(search, lines) == rest;
        SubSkip(rest, lines[1..], lines[0]);
      }
    }
  }

  /** `t` is a subsequence of `s`: `s` with some of its elements left out, in order. */
  predicate Sub<T(==)>(t: seq<T>, s: seq<T>)
    decreases |s|
  {
    |t| == 0 || (|s| > 0 && if t[0] == s[0] then Sub(t[1..], s[1..]) else Sub(t, s[1..]))
  }

  lemma {:induction false} SubSkip<T>(t: seq<T>, s: seq<T>, x: T)
    requires Sub(t, s)
    ensures Sub(t, [x] + s)
    decreases |s|, 1
  {
    var s' := [x] + s;
    assert s'[1..] == s;
    if |t| > 0 && t[0] == x {
      SubTail(t, s);
    }
  }

  lemma {:induction false} SubTail<T>(t: seq<T>, s: seq<T>)
    requires |t| > 0 && Sub(t, s)
    ensures Sub(t[1..], s)
    decreases |s|, 0
  {
    if t[0] == s[0] {
      SubSkip(t[1..], s[1..], s[0]);
      assert [s[0]] + s[1..] == s;
    } else {
      SubTail(t, s[1..]);
      SubSkip(t[1..], s[1..], s[0]);
      assert [s[0]] + s[1..] == s;
    }
  }

  lemma {:induction false} SubMembers<T>(t: seq<T>, s: seq<T>, x: T)
    requires Sub(t, s) && x in t
    ensures x in s
    decreases |s|
  {
    if t[0] == s[0] {
      if x != t[0] {
        assert x in t[1..];
        SubMembers(t[1..], s[1..], x);
      }
    } else {
      SubMembers(t, s[1..], x);
    }
  }

  lemma SubSelf<T>(s: seq<T>)
    ensures Sub(s, s)
    decreases |s|
  {
    if |s| > 0 {
      SubSelf(s[1..]);
    }
  }

  /** With a search that behaves like a regular expression's, carrying `lastIndex` can only
      drop lines: what the filter keeps is a subsequence of what the intended filter keeps. */
  lemma {:induction false} FilterWithinIntended(search: Search, lines: seq<JsString>, lastIndex: nat)
    requires Monotone(search)
    ensures Sub(Filter(search, lines, lastIndex), FilterIntended(search, lines))
    decreases |lines|
  {
    if |lines| > 0 {
      var t := Test(search, lines[0], lastIndex);
      var rest := Filter(search, lines[1..], t.lastIndex);
      var want := FilterIntended(search, lines[1..]);
      FilterWithinIntended(search, lines[1..], t.lastIndex);
      if t.found {
        assert search(lines[0], lastIndex).Some? && lastIndex <= |lines[0]|;
        assert search(lines[0], 0).Some?;
        var kept, intended := [lines[0]] + rest, [lines[0]] + want;
        assert kept[1..] == rest && intended[1..] == want;
      } else if search(lines[0], 0).Some? {
        assert Filter(search, lines, lastIndex) == rest;
        assert FilterIntended(search, lines) == [lines[0]] + want;
        SubSkip(rest, want, lines[0]);
      } else {
        assert Filter(search, lines, lastIndex) == rest;
        assert FilterIntended(search, lines) == want;
      }
    }
  }

  /** After a line the filter does not keep, `lastIndex` is back at 0, so the next line is
      searched from its start as the intended filter searches it. */
  lemma DroppedLineResets(search: Search, line: JsString, next: JsString, rest: seq<JsString>, lastIndex: nat)
    requires !Test(search, line, lastIndex).found
    ensures Filter(search, [line, next] + rest, lastIndex)
         == (if search(next, 0).Some? then [next] else []) + Filter(search, rest, Test(search, next, 0).lastIndex)
  {
    var lines := [line, next] + rest;
    assert lines[1..] == [next] + rest;
    assert lines[1..][1..] == rest;
  }

  // The search of a regular expression of the fragment the sanitizer uses

  /** The search of `re` with the `g` flag: the first index from `from` on where `re` matches,
      and where that match ends. */
  function Scan(re: JsRegex.Regex, line: JsString, from: nat): (r: Option<nat>)
    ensures r.Some? ==> from <= r.value <= |line|
    decreases |line| - from
  {
    if from > |line| then None
    else match JsRegex.FirstMatch(line, from, re.alts, re.ignoreCase)
      case Some(e) => Some(e)
      case None => if from == |line| then None else Scan(re, line, from + 1)
  }

  lemma {:induction false} ScanEarlier(re: JsRegex.Regex, line: JsString, i: nat, j: nat)
    requires j <= i <= |line| && Scan(re, line, i).Some?
    ensures Scan(re, line, j).Some?
    decreases i - j
  {
    if j < i && JsRegex.FirstMatch(line, j, re.alts, re.ignoreCase).None? {
      ScanEarlier(re, line, i, j + 1);
    }
  }

  /** The search of a regular expression finds a match from any earlier index too. */
  lemma ScanMonotone(re: JsRegex.Regex)
    ensures Monotone((line: JsString, from: nat) => Scan(re, line, from))
  {
    var search: Search := (line: JsString, from: nat) => Scan(re, line, from);
    forall line: JsString, i: nat, j: nat | j <= i <= |line| && search(line, i).Some?
      ensures search(line, j).Some?
    {
      ScanEarlier(re, line, i, j);
    }
  }

  /** `/a/gi` run over the lines `xa` and `a`: the first test leaves `lastIndex` at 2, past the
      end of `a`, so `a` is dropped, where the intended filter keeps both lines. */
  lemma SecondMatchDropped()
    ensures var search: Search := (line: JsString, from: nat) => Scan(JsRegex.Regex([[JsRegex.Lit(['a' as int])]], true), line, from);
      var input: JsString := ['x' as int, 'a' as int, 10, 'a' as int];
      var compile := (p: JsString) => Success(search);
      Output(compile, ['a' as int], input) == Success(['x' as int, 'a' as int])
      && Join(FilterIntended(search, SplitOn(input, 10)), [10]) == input
  {
    var re := JsRegex.Regex([[JsRegex.Lit(['a' as int])]], true);
    var search: Search := (line: JsString, from: nat) => Scan(re, line, from);
    var xa: JsString := ['x' as int, 'a' as int];
    var a: JsString := ['a' as int];
    var input: JsString := ['x' as int, 'a' as int, 10, 'a' as int];
    assert SplitOn(input, 10) == [xa, a] by {
      IndexOfAt(input, 10, 2);
      assert input[..2] == xa && input[3..] == a;
    }
    assert JsRegex.FirstMatch(xa, 0, re.alts, true).None?;
    assert JsRegex.LitAt(xa, 1, ['a' as int], true);
    assert JsRegex.MatchEnd(xa, 1, re.alts[0], true) == JsRegex.MatchEnd(xa, 2, [], true);
    assert JsRegex.FirstMatch(xa, 1, re.alts, true) == Some(2);
    assert Scan(re, xa, 0) == Some(2);
    assert JsRegex.LitAt(a, 0, ['a' as int], true);
    assert JsRegex.MatchEnd(a, 0, re.alts[0], true) == JsRegex.MatchEnd(a, 1, [], true);
    assert JsRegex.FirstMatch(a, 0, re.alts, true) == Some(1);
    assert Scan(re, a, 0) == Some(1);
    assert Test(search, xa, 0) == Tested(true, 2);
    assert Test(search, a, 2) == Tested(false, 0);
    assert [xa, a][1..] == [a] && [a][1..] == [];
    assert Filter(search, [a], 2) == [];
    assert FilterIntended(search, [a]) == [a];
    assert Filter(search, [xa, a], 0) == [xa];
    assert FilterIntended(search, [xa, a]) == [xa, a];
  }
}
