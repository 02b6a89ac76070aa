/** The fragment of JavaScript regular expressions that the client-side sanitizer uses, without
    the `u` flag: literals (with or without `i`), `\s`, `\w`, `.` and `[^>]`, each once, greedily
    repeated (`*`, `+`) or lazily repeated (`*?`), and a top-level alternation. Matching is
    over UTF-16 code units with the backtracking order of the ECMAScript semantics, and
    `s.replace(re, '')` with the `g` flag deletes the matches found from left to right. */
module JsRegex {
  import opened Js
  import opened Wrappers

  /** `\s`, `\w`, `.` (anything but a line terminator) and `[^>]`. */
  datatype Class = Space | Word | Dot | NotGt

  predicate InClass(c: CodeUnit, k: Class)
  {
    match k
    case Space => IsSpace(c)
    case Word => IsWordChar(c)
    case Dot => !IsLineTerminator(c)
    case NotGt => c != '>' as int
  }

  /** Literal text, one character of a class, a greedy `*` or `+`, and a lazy `*?`. */
  datatype Piece = Lit(text: JsString) | One(cls: Class) | Star(cls: Class) | Plus(cls: Class) | Lazy(cls: Class)

  /** The alternatives in the order they are tried, and the `i` flag. */
  datatype Regex = Regex(alts: seq<seq<Piece>>, ignoreCase: bool)

  /** A subject code unit matches the ASCII pattern character `p`. Without `u`, `i` compares
      the characters after upper-casing, but never lets a non-ASCII character match an ASCII
      one, so an ASCII letter matches exactly its two cases and anything else only itself. */
  predicate CharEq(c: CodeUnit, p: CodeUnit, ignoreCase: bool)
  {
    if ignoreCase then Fold(c) == Fold(p) else c == p
  }

  predicate LitAt(s: JsString, i: nat, l: JsString, ignoreCase: bool)
  {
    i + |l| <= |s| && forall k | 0 <= k < |l| :: CharEq(s[i + k], l[k], ignoreCase)
  }

  /** Where the first match of `ps` at `i` ends, in backtracking order: a greedy repetition
      tries the longest run first, a lazy one the shortest. */
  function MatchEnd(s: JsString, i: nat, ps: seq<Piece>, ic: bool): (r: Option<nat>)
    requires i <= |s|
    ensures r.Some? ==> i <= r.value <= |s|
    decreases |ps|, |s| - i
  {
    if |ps| == 0 then Some(i)
    else match ps[0]
      case Lit(l) => if LitAt(s, i, l, ic) then MatchEnd(s, i + |l|, ps[1..], ic) else None
      case One(k) => if i < |s| && InClass(s[i], k) then MatchEnd(s, i + 1, ps[1..], ic) else None
      case Star(k) =>
        if i < |s| && InClass(s[i], k) then
          (match MatchEnd(s, i + 1, ps, ic) case Some(e) => Some(e) case None => MatchEnd(s, i, ps[1..], ic))
        else MatchEnd(s, i, ps[1..], ic)
      case Plus(k) => if i < |s| && InClass(s[i], k) then MatchEnd(s, i + 1, [Star(k)] + ps[1..], ic) else None
      case Lazy(k) =>
        match MatchEnd(s, i, ps[1..], ic)
        case Some(e) => Some(e)
        case None => if i < |s| && InClass(s[i], k) then MatchEnd(s, i + 1, ps, ic) else None
  }

  /** The end of the match of the first alternative that matches at `i`. */
  function FirstMatch(s: JsString, i: nat, alts: seq<seq<Piece>>, ic: bool): (r: Option<nat>)
    requires i <= |s|
    ensures r.Some? ==> i <= r.value <= |s|
    ensures r.Some? <==> exists a | 0 <= a < |alts| :: MatchEnd(s, i, alts[a], ic).Some?
  {
    if |alts| == 0 then None
    else match MatchEnd(s, i, alts[0], ic)
      case Some(e) => Some(e)
      case None =>
        var r := FirstMatch(s, i, alts[1..], ic);
        assert forall a | 1 <= a < |alts| :: alts[1..][a - 1] == alts[a];
        r
  }

  /** A match at `i` that consumes at least one code unit. */
  predicate Hit(s: JsString, i: nat, re: Regex)
    requires i <= |s|
  {
    var m := FirstMatch(s, i, re.alts, re.ignoreCase);
    m.Some? && m.value > i
  }

  /** `s.replace(re, '')` with the `g` flag, from index `i` on: a match is deleted and the
      search resumes where it ended; an empty match deletes nothing and the search moves on. */
  function RemoveFrom(s: JsString, i: nat, re: Regex): (r: JsString)
    requires i <= |s|
    decreases |s| - i
  {
    if i == |s| then []
    else if Hit(s, i, re) then RemoveFrom(s, FirstMatch(s, i, re.alts, re.ignoreCase).value, re)
    else [s[i]] + RemoveFrom(s, i + 1, re)
  }

  function Remove(s: JsString, re: Regex): JsString
  {
    RemoveFrom(s, 0, re)
  }

  /** `t` is `s` with some elements deleted. */
  predicate Subsequence(t: JsString, s: JsString)
    decreases |s|
  {
    if |t| == 0 then true
    else if |s| == 0 then false
    else if t[0] == s[0] then Subsequence(t[1..], s[1..])
    else Subsequence(t, s[1..])
  }

  lemma {:induction false} SubsequenceDrop(t: JsString, s: JsString, n: nat)
    requires n <= |s| && Subsequence(t, s[n..])
    ensures Subsequence(t, s)
    decreases n
  {
    if n > 0 {
      assert s[n..] == s[1..][n - 1..];
      SubsequenceDrop(t, s[1..], n - 1);
      if |t| > 0 && t[0] == s[0] {
        SubsequenceShorter(t, s[1..]);
      }
    }
  }

  /** A subsequence of `s` stays one when its first element is dropped. */
  lemma {:induction false} SubsequenceShorter(t: JsString, s: JsString)
    requires |t| > 0 && Subsequence(t, s)
    ensures Subsequence(t[1..], s)
    decreases |s|, 1
  {
    if t[0] == s[0] {
      SubsequenceTail(t[1..], s);
    } else {
      SubsequenceShorter(t, s[1..]);
      SubsequenceTail(t[1..], s);
    }
  }

  /** Every subsequence of a tail is a subsequence of the whole. */
  lemma {:induction false} SubsequenceTail(t: JsString, s: JsString)
    requires |s| > 0 && Subsequence(t, s[1..])
    ensures Subsequence(t, s)
    decreases |s|, 0
  {
    if |t| > 0 && t[0] == s[0] {
      SubsequenceShorter(t, s[1..]);
    }
  }

  lemma {:induction false} SubsequenceSelf(s: JsString)
    ensures Subsequence(s, s)
    decreases |s|
  {
    if |s| > 0 {
      SubsequenceSelf(s[1..]);
    }
  }

  lemma {:induction false} SubsequenceTrans(a: JsString, b: JsString, c: JsString)
    requires Subsequence(a, b) && Subsequence(b, c)
    ensures Subsequence(a, c)
    decreases |c|
  {
    if |a| > 0 {
      if b[0] == c[0] {
        if a[0] == b[0] {
          SubsequenceTrans(a[1..], b[1..], c[1..]);
        } else {
          SubsequenceTrans(a, b[1..], c[1..]);
          SubsequenceTail(a, c);
        }
      } else {
        SubsequenceTrans(a, b, c[1..]);
        SubsequenceTail(a, c);
      }
    }
  }

  lemma SubsequenceLength(t: JsString, s: JsString)
    requires Subsequence(t, s)
    ensures |t| <= |s|
    decreases |s|
  {
  }

  /** Only a subsequence as long as `s` is `s` itself. */
  lemma {:induction false} SubsequenceFull(t: JsString, s: JsString)
    requires Subsequence(t, s) && |t| == |s|
    ensures t == s
    decreases |s|
  {
    if |s| > 0 {
      if t[0] == s[0] {
        SubsequenceFull(t[1..], s[1..]);
      } else {
        SubsequenceLength(t, s[1..]);
      }
    }
  }

  /** Removing matches only deletes code units, never reorders or adds them. */
  lemma {:induction false} RemoveFromSubsequence(s: JsString, i: nat, re: Regex)
    requires i <= |s|
    ensures Subsequence(RemoveFrom(s, i, re), s[i..])
    decreases |s| - i
  {
    if i < |s| {
      if Hit(s, i, re) {
        var e := FirstMatch(s, i, re.alts, re.ignoreCase).value;
        RemoveFromSubsequence(s, e, re);
        assert s[e..] == s[i..][e - i..];
        SubsequenceDrop(RemoveFrom(s, e, re), s[i..], e - i);
      } else {
        RemoveFromSubsequence(s, i + 1, re);
        var r := RemoveFrom(s, i + 1, re);
        assert ([s[i]] + r)[1..] == r;
        assert s[i..][1..] == s[i + 1..];
      }
    }
  }

  /** The removal leaves the text unchanged exactly when no match that consumes a code unit
      starts anywhere in it. */
  lemma {:induction false} RemoveFromUnchanged(s: JsString, i: nat, re: Regex)
    requires i <= |s|
    ensures RemoveFrom(s, i, re) == s[i..] <==> forall j | i <= j < |s| :: !Hit(s, j, re)
    decreases |s| - i
  {
    if i < |s| {
      RemoveFromUnchanged(s, i + 1, re);
      if Hit(s, i, re) {
        var e := FirstMatch(s, i, re.alts, re.ignoreCase).value;
        RemoveFromSubsequence(s, e, re);
        SubsequenceLength(RemoveFrom(s, e, re), s[e..]);
      } else {
        assert s[i..] == [s[i]] + s[i + 1..];
      }
    }
  }

  lemma RemoveShortens(s: JsString, re: Regex)
    ensures Subsequence(Remove(s, re), s) && |Remove(s, re)| <= |s|
    ensures Remove(s, re) == s <==> forall j | 0 <= j < |s| :: !Hit(s, j, re)
  {
    RemoveFromSubsequence(s, 0, re);
    assert s[0..] == s;
    SubsequenceLength(Remove(s, re), s);
    RemoveFromUnchanged(s, 0, re);
  }

  // Reasoning about matches on particular subjects.

  /** Every literal of a pattern that matches occurs in the subject. */
  lemma {:induction false} MatchHasLit(s: JsString, i: nat, ps: seq<Piece>, ic: bool, m: nat)
    requires i <= |s| && MatchEnd(s, i, ps, ic).Some? && m < |ps| && ps[m].Lit?
    ensures exists p | i <= p <= |s| :: LitAt(s, p, ps[m].text, ic)
    decreases |ps|, |s| - i
  {
    match ps[0]
    case Lit(l) =>
      if m == 0 {
        assert LitAt(s, i, l, ic);
      } else {
        MatchHasLit(s, i + |l|, ps[1..], ic, m - 1);
      }
    case One(k) =>
      MatchHasLit(s, i + 1, ps[1..], ic, m - 1);
    case Star(k) =>
      if i < |s| && InClass(s[i], k) && MatchEnd(s, i + 1, ps, ic).Some? {
        MatchHasLit(s, i + 1, ps, ic, m);
      } else {
        MatchHasLit(s, i, ps[1..], ic, m - 1);
      }
    case Plus(k) =>
      assert ([Star(k)] + ps[1..])[m] == ps[m];
      MatchHasLit(s, i + 1, [Star(k)] + ps[1..], ic, m);
    case Lazy(k) =>
      if MatchEnd(s, i, ps[1..], ic).Some? {
        MatchHasLit(s, i, ps[1..], ic, m - 1);
      } else {
        MatchHasLit(s, i + 1, ps, ic, m);
      }
  }

  /** A regular expression each of whose alternatives has a literal containing a character
      that does not occur in `s` (in either case when `i` is set) never hits in `s`. */
  predicate Blocked(s: JsString, re: Regex)
  {
    forall a | 0 <= a < |re.alts| :: AltBlocked(s, re.alts[a], re.ignoreCase)
  }

  /** One of the literals of `alt` has a code unit missing from `s`. */
  predicate AltBlocked(s: JsString, alt: seq<Piece>, ignoreCase: bool)
  {
    exists m, k | 0 <= m < |alt| && alt[m].Lit? && 0 <= k < |alt[m].text| :: Missing(s, alt[m].text[k], ignoreCase)
  }

  /** No code unit of `s` equals `c` (in either case when `ignoreCase` is set). */
  predicate Missing(s: JsString, c: CodeUnit, ignoreCase: bool)
  {
    forall j | 0 <= j < |s| :: !CharEq(s[j], c, ignoreCase)
  }

  lemma NoHitWhenBlocked(s: JsString, re: Regex, i: nat)
    requires i <= |s| && Blocked(s, re)
    ensures !Hit(s, i, re)
  {
    if Hit(s, i, re) {
      var a :| 0 <= a < |re.alts| && MatchEnd(s, i, re.alts[a], re.ignoreCase).Some?;
      var m, k :| 0 <= m < |re.alts[a]| && re.alts[a][m].Lit? && 0 <= k < |re.alts[a][m].text|
        && Missing(s, re.alts[a][m].text[k], re.ignoreCase);
      MatchHasLit(s, i, re.alts[a], re.ignoreCase, m);
      assert false;
    }
  }

  /** A blocked regular expression removes nothing. */
  lemma RemoveBlocked(s: JsString, re: Regex)
    requires Blocked(s, re)
    ensures Remove(s, re) == s
  {
    forall j | 0 <= j < |s| ensures !Hit(s, j, re) {
      NoHitWhenBlocked(s, re, j);
    }
    RemoveShortens(s, re);
  }

  // A match depends only on the code units it spans.

  /** Two texts that agree on `n` code units from `i` and `i2` agree on each tail of that
      span and on its first code unit. */
  lemma SameSpan(s: JsString, i: nat, s2: JsString, i2: nat, n: nat, d: nat)
    requires i + n <= |s| && i2 + n <= |s2| && s2[i2..i2 + n] == s[i..i + n] && d <= n
    ensures s2[i2 + d..i2 + n] == s[i + d..i + n]
    ensures d < n ==> s2[i2 + d] == s[i + d]
  {
    var a, b := s2[i2..i2 + n], s[i..i + n];
    assert s2[i2 + d..i2 + n] == a[d..];
    assert s[i + d..i + n] == b[d..];
    if d < n {
      assert s2[i2 + d] == a[d] && s[i + d] == b[d];
    }
  }

  /** A literal found at the start of a span is found where the span is repeated. */
  lemma LitSpan(s: JsString, i: nat, s2: JsString, i2: nat, n: nat, l: JsString, ic: bool)
    requires i + n <= |s| && i2 + n <= |s2| && s2[i2..i2 + n] == s[i..i + n]
    requires |l| <= n && LitAt(s, i, l, ic)
    ensures LitAt(s2, i2, l, ic)
  {
    forall k | 0 <= k < |l| ensures CharEq(s2[i2 + k], l[k], ic) {
      SameSpan(s, i, s2, i2, n, k);
    }
  }

  /** A text that repeats the span of a match elsewhere matches there too. */
  lemma {:induction false} MatchTransfer(s: JsString, i: nat, e: nat, s2: JsString, i2: nat, ps: seq<Piece>, ic: bool)
    requires i <= |s| && i2 <= |s2| && MatchEnd(s, i, ps, ic) == Some(e)
    requires i2 + (e - i) <= |s2| && s2[i2..i2 + (e - i)] == s[i..e]
    ensures MatchEnd(s2, i2, ps, ic).Some?
    decreases |ps|, |s| - i, 1
  {
    if |ps| > 0 {
      match ps[0]
      case Lit(l) => LitTransfer(s, i, e, s2, i2, ps, ic);
      case One(k) => OneTransfer(s, i, e, s2, i2, ps, ic);
      case Star(k) => StarTransfer(s, i, e, s2, i2, ps, ic);
      case Plus(k) => PlusTransfer(s, i, e, s2, i2, ps, ic);
      case Lazy(k) => LazyTransfer(s, i, e, s2, i2, ps, ic);
    }
  }

  lemma {:induction false} LitTransfer(s: JsString, i: nat, e: nat, s2: JsString, i2: nat, ps: seq<Piece>, ic: bool)
    requires i <= |s| && i2 <= |s2| && MatchEnd(s, i, ps, ic) == Some(e)
    requires i2 + (e - i) <= |s2| && s2[i2..i2 + (e - i)] == s[i..e]
    requires |ps| > 0 && ps[0].Lit?
    ensures MatchEnd(s2, i2, ps, ic).Some?
    decreases |ps|, |s| - i, 0
  {
    var l := ps[0].text;
    assert LitAt(s, i, l, ic);
    assert MatchEnd(s, i + |l|, ps[1..], ic) == Some(e);
    LitSpan(s, i, s2, i2, e - i, l, ic);
    SliceTail(s, i, s2, i2, e, |l|);
    MatchTransfer(s, i + |l|, e, s2, i2 + |l|, ps[1..], ic);
    assert MatchEnd(s2, i2, ps, ic) == MatchEnd(s2, i2 + |l|, ps[1..], ic);
  }

  lemma {:induction false} OneTransfer(s: JsString, i: nat, e: nat, s2: JsString, i2: nat, ps: seq<Piece>, ic: bool)
    requires i <= |s| && i2 <= |s2| && MatchEnd(s, i, ps, ic) == Some(e)
    requires i2 + (e - i) <= |s2| && s2[i2..i2 + (e - i)] == s[i..e]
    requires |ps| > 0 && ps[0].One?
    ensures MatchEnd(s2, i2, ps, ic).Some?
    decreases |ps|, |s| - i, 0
  {
    var k := ps[0].cls;
    assert i < |s| && InClass(s[i], k);
    assert MatchEnd(s, i + 1, ps[1..], ic) == Some(e);
    SliceTail(s, i, s2, i2, e, 1);
    MatchTransfer(s, i + 1, e, s2, i2 + 1, ps[1..], ic);
    assert i2 < |s2| && InClass(s2[i2], k);
    assert MatchEnd(s2, i2, ps, ic) == MatchEnd(s2, i2 + 1, ps[1..], ic);
  }

  lemma {:induction false} StarTransfer(s: JsString, i: nat, e: nat, s2: JsString, i2: nat, ps: seq<Piece>, ic: bool)
    requires i <= |s| && i2 <= |s2| && MatchEnd(s, i, ps, ic) == Some(e)
    requires i2 + (e - i) <= |s2| && s2[i2..i2 + (e - i)] == s[i..e]
    requires |ps| > 0 && ps[0].Star?
    ensures MatchEnd(s2, i2, ps, ic).Some?
    decreases |ps|, |s| - i, 0
  {
    var k := ps[0].cls;
    if i < |s| && InClass(s[i], k) && MatchEnd(s, i + 1, ps, ic).Some? {
      assert MatchEnd(s, i + 1, ps, ic) == Some(e);
      SliceTail(s, i, s2, i2, e, 1);
      MatchTransfer(s, i + 1, e, s2, i2 + 1, ps, ic);
      assert i2 < |s2| && InClass(s2[i2], k);
    } else {
      assert MatchEnd(s, i, ps[1..], ic) == Some(e);
      MatchTransfer(s, i, e, s2, i2, ps[1..], ic);
    }
  }

  lemma {:induction false} PlusTransfer(s: JsString, i: nat, e: nat, s2: JsString, i2: nat, ps: seq<Piece>, ic: bool)
    requires i <= |s| && i2 <= |s2| && MatchEnd(s, i, ps, ic) == Some(e)
    requires i2 + (e - i) <= |s2| && s2[i2..i2 + (e - i)] == s[i..e]
    requires |ps| > 0 && ps[0].Plus?
    ensures MatchEnd(s2, i2, ps, ic).Some?
    decreases |ps|, |s| - i, 0
  {
    var k := ps[0].cls;
    assert i < |s| && InClass(s[i], k);
    assert MatchEnd(s, i + 1, [Star(k)] + ps[1..], ic) == Some(e);
    SliceTail(s, i, s2, i2, e, 1);
    MatchTransfer(s, i + 1, e, s2, i2 + 1, [Star(k)] + ps[1..], ic);
    assert i2 < |s2| && InClass(s2[i2], k);
    assert MatchEnd(s2, i2, ps, ic) == MatchEnd(s2, i2 + 1, [Star(k)] + ps[1..], ic);
  }

  lemma {:induction false} LazyTransfer(s: JsString, i: nat, e: nat, s2: JsString, i2: nat, ps: seq<Piece>, ic: bool)
    requires i <= |s| && i2 <= |s2| && MatchEnd(s, i, ps, ic) == Some(e)
    requires i2 + (e - i) <= |s2| && s2[i2..i2 + (e - i)] == s[i..e]
    requires |ps| > 0 && ps[0].Lazy?
    ensures MatchEnd(s2, i2, ps, ic).Some?
    decreases |ps|, |s| - i, 0
  {
    var k := ps[0].cls;
    if MatchEnd(s, i, ps[1..], ic).Some? {
      MatchTransfer(s, i, e, s2, i2, ps[1..], ic);
    } else {
      assert MatchEnd(s, i + 1, ps, ic) == Some(e);
      SliceTail(s, i, s2, i2, e, 1);
      MatchTransfer(s, i + 1, e, s2, i2 + 1, ps, ic);
      assert i2 < |s2| && InClass(s2[i2], k);
    }
  }

  lemma SliceTail(s: JsString, i: nat, s2: JsString, i2: nat, e: nat, d: nat)
    requires i <= e <= |s| && i2 + (e - i) <= |s2| && s2[i2..i2 + (e - i)] == s[i..e] && d <= e - i
    ensures s2[i2 + d..i2 + d + (e - (i + d))] == s[i + d..e]
    ensures d < e - i ==> s2[i2 + d] == s[i + d]
  {
    SameSpan(s, i, s2, i2, e - i, d);
  }

  /** Every alternative starts with a non-empty literal. */
  predicate LitLed(re: Regex)
  {
    forall a | 0 <= a < |re.alts| :: |re.alts[a]| > 0 && re.alts[a][0].Lit? && |re.alts[a][0].text| > 0
  }

  /** When every alternative starts with a non-empty literal, every match consumes a code
      unit. */
  lemma {:induction false} FirstMatchConsumes(s: JsString, i: nat, alts: seq<seq<Piece>>, ic: bool)
    requires i <= |s| && LitLed(Regex(alts, ic))
    ensures FirstMatch(s, i, alts, ic).Some? ==> FirstMatch(s, i, alts, ic).value > i
    decreases |alts|
  {
    if |alts| > 0 {
      assert forall a | 0 <= a < |alts| - 1 :: alts[1..][a] == alts[a + 1];
      FirstMatchConsumes(s, i, alts[1..], ic);
    }
  }

  /** A match of any alternative of such a regular expression is a hit. */
  lemma HitFrom(s: JsString, i: nat, re: Regex, a: nat)
    requires i <= |s| && LitLed(re) && a < |re.alts| && MatchEnd(s, i, re.alts[a], re.ignoreCase).Some?
    ensures Hit(s, i, re)
  {
    FirstMatchConsumes(s, i, re.alts, re.ignoreCase);
  }

  /** No code unit of `c`'s kind is matched by the piece. */
  predicate PieceAvoids(p: Piece, c: CodeUnit, ic: bool)
  {
    match p
    case Lit(l) => forall k | 0 <= k < |l| :: !CharEq(c, l[k], ic)
    case One(k) => !InClass(c, k)
    case Star(k) => !InClass(c, k)
    case Plus(k) => !InClass(c, k)
    case Lazy(k) => !InClass(c, k)
  }

  /** No piece of `ps` matches the code unit `c`. */
  predicate Avoids(ps: seq<Piece>, c: CodeUnit, ic: bool)
  {
    forall m | 0 <= m < |ps| :: PieceAvoids(ps[m], c, ic)
  }

  /** A code unit that no piece matches does not occur in the span of a match. */
  lemma {:induction false} SpanAvoids(s: JsString, i: nat, ps: seq<Piece>, ic: bool, c: CodeUnit)
    requires i <= |s| && MatchEnd(s, i, ps, ic).Some? && Avoids(ps, c, ic)
    ensures forall q | i <= q < MatchEnd(s, i, ps, ic).value :: s[q] != c
    decreases |ps|, |s| - i
  {
    if |ps| > 0 {
      assert Avoids(ps[1..], c, ic) by {
        assert forall m | 0 <= m < |ps| - 1 :: ps[1..][m] == ps[m + 1];
      }
      assert PieceAvoids(ps[0], c, ic);
      match ps[0]
      case Lit(l) =>
        forall q | i <= q < i + |l| ensures s[q] != c {
          assert CharEq(s[i + (q - i)], l[q - i], ic);
        }
        SpanAvoids(s, i + |l|, ps[1..], ic, c);
      case One(k) =>
        SpanAvoids(s, i + 1, ps[1..], ic, c);
      case Star(k) =>
        if i < |s| && InClass(s[i], k) && MatchEnd(s, i + 1, ps, ic).Some? {
          SpanAvoids(s, i + 1, ps, ic, c);
        } else {
          SpanAvoids(s, i, ps[1..], ic, c);
        }
      case Plus(k) =>
        var ps' := [Star(k)] + ps[1..];
        assert Avoids(ps', c, ic) by {
          assert forall m | 1 <= m < |ps'| :: ps'[m] == ps[m];
        }
        SpanAvoids(s, i + 1, ps', ic, c);
      case Lazy(k) =>
        if MatchEnd(s, i, ps[1..], ic).Some? {
          SpanAvoids(s, i, ps[1..], ic, c);
        } else {
          SpanAvoids(s, i + 1, ps, ic, c);
        }
    }
  }

  /** A hit inside a slice is a hit of the whole text. */
  lemma SliceHit(t: JsString, a: nat, b: nat, j: nat, re: Regex)
    requires a <= b <= |t| && j <= b - a && LitLed(re)
    ensures Hit(t[a..b], j, re) ==> Hit(t, a + j, re)
  {
    if Hit(t[a..b], j, re) {
      var alt :| 0 <= alt < |re.alts| && MatchEnd(t[a..b], j, re.alts[alt], re.ignoreCase).Some?;
      SliceMatch(t, a, b, j, re.alts[alt], re.ignoreCase);
      HitFrom(t, a + j, re, alt);
    }
  }

  /** A match inside a slice is a match of the whole text. */
  lemma SliceMatch(t: JsString, a: nat, b: nat, j: nat, ps: seq<Piece>, ic: bool)
    requires a <= b <= |t| && j <= b - a && MatchEnd(t[a..b], j, ps, ic).Some?
    ensures MatchEnd(t, a + j, ps, ic).Some?
  {
    var s := t[a..b];
    var e := MatchEnd(s, j, ps, ic).value;
    SliceOfSlice(t, a, b, j, e);
    MatchTransfer(s, j, e, t, a + j, ps, ic);
  }

  lemma SliceOfSlice(t: JsString, a: nat, b: nat, j: nat, e: nat)
    requires a <= b <= |t| && j <= e <= b - a
    ensures a + j + (e - j) <= |t| && t[a + j..a + j + (e - j)] == t[a..b][j..e]
  {
    var s := t[a..b];
    assert a + j + (e - j) == a + e;
    forall q | 0 <= q < e - j ensures s[j..e][q] == t[a + j..a + e][q] {
      assert s[j + q] == t[a + j + q];
    }
  }
}
