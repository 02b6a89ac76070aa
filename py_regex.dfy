/** The fragment of Python's `re` that the backend's deny-lists use: case-insensitive literal
    text, `\s*`, `\s+` and `.*` (which stops at a newline), searched for anywhere in a string
    with backtracking, as `re.search(pattern, s, re.IGNORECASE)` does. */
module PyRegex {
  import opened Py

  /** The character classes of the fragment: `\s` and `.` without `re.DOTALL`. */
  datatype Class = Space | NotNewline

  predicate InClass(c: char, k: Class)
  {
    match k
    case Space => IsSpace(c)
    case NotNewline => c != '\n'
  }

  /** One element of a pattern: literal text, a class repeated any number of times, or a
      class repeated at least once. */
  datatype Piece = Lit(text: string) | Star(cls: Class) | Plus(cls: Class)

  /** The literal `l` (ASCII) matches `s` at `i` under `re.IGNORECASE`. */
  predicate LitAt(s: string, i: nat, l: string)
  {
    (forall k | 0 <= k < |l| :: l[k] < 128 as char) && FoldAt(s, i, l)
  }

  /** The pattern `ps` matches a prefix of `s[i..]`. A repetition tries every length, as the
      backtracking matcher does. */
  predicate MatchesAt(s: string, i: nat, ps: seq<Piece>)
    requires i <= |s|
    decreases |ps|, |s| - i
  {
    if |ps| == 0 then true
    else match ps[0]
      case Lit(l) => LitAt(s, i, l) && MatchesAt(s, i + |l|, ps[1..])
      case Star(k) => MatchesAt(s, i, ps[1..]) || (i < |s| && InClass(s[i], k) && MatchesAt(s, i + 1, ps))
      case Plus(k) => i < |s| && InClass(s[i], k) && MatchesAt(s, i + 1, [Star(k)] + ps[1..])
  }

  /** A match starting at `i` or later. */
  predicate SearchFrom(s: string, i: nat, ps: seq<Piece>)
    requires i <= |s|
    decreases |s| - i
  {
    MatchesAt(s, i, ps) || (i < |s| && SearchFrom(s, i + 1, ps))
  }

  /** `re.search(pattern, s, re.IGNORECASE)` finds a match. */
  predicate Search(s: string, ps: seq<Piece>)
  {
    SearchFrom(s, 0, ps)
  }

  /** The search succeeds exactly when the pattern matches at some index. */
  lemma {:induction false} SearchFromAt(s: string, i: nat, ps: seq<Piece>)
    requires i <= |s|
    ensures SearchFrom(s, i, ps) <==> exists j | i <= j <= |s| :: MatchesAt(s, j, ps)
    decreases |s| - i
  {
    if exists j | i <= j <= |s| :: MatchesAt(s, j, ps) {
      var j :| i <= j <= |s| && MatchesAt(s, j, ps);
      if j > i {
        SearchFromAt(s, i + 1, ps);
      }
    }
    if MatchesAt(s, i, ps) {
      assert SearchFrom(s, i, ps);
      assert exists j | i <= j <= |s| :: MatchesAt(s, j, ps) by {
        assert i <= i <= |s| && MatchesAt(s, i, ps);
      }
    } else if SearchFrom(s, i, ps) {
      SearchFromAt(s, i + 1, ps);
      var j :| i + 1 <= j <= |s| && MatchesAt(s, j, ps);
      assert i <= j <= |s|;
    }
  }

  lemma SearchAt(s: string, ps: seq<Piece>)
    ensures Search(s, ps) <==> exists j | 0 <= j <= |s| :: MatchesAt(s, j, ps)
  {
    SearchFromAt(s, 0, ps);
  }

  /** A pattern that starts with a literal matches only where that literal does. */
  lemma MatchNeedsLit(s: string, i: nat, l: string, rest: seq<Piece>)
    requires i <= |s| && MatchesAt(s, i, [Lit(l)] + rest)
    ensures LitAt(s, i, l)
  {
    assert ([Lit(l)] + rest)[0] == Lit(l);
  }

  /** A match of a pattern that starts with a literal is that literal followed by a match of
      the rest. */
  lemma MatchLit(s: string, i: nat, l: string, rest: seq<Piece>)
    requires i <= |s| && MatchesAt(s, i, [Lit(l)] + rest)
    ensures LitAt(s, i, l) && i + |l| <= |s| && MatchesAt(s, i + |l|, rest)
  {
    assert ([Lit(l)] + rest)[0] == Lit(l) && ([Lit(l)] + rest)[1..] == rest;
  }

  /** Every literal of a pattern that matches occurs somewhere in the subject. */
  lemma {:induction false} MatchHasLit(s: string, i: nat, ps: seq<Piece>, m: nat)
    requires i <= |s| && MatchesAt(s, i, ps) && m < |ps| && ps[m].Lit?
    ensures exists p | i <= p <= |s| :: LitAt(s, p, ps[m].text)
    decreases |ps|, |s| - i
  {
    match ps[0]
    case Lit(l) =>
      if m == 0 {
        assert LitAt(s, i, l);
      } else {
        MatchHasLit(s, i + |l|, ps[1..], m - 1);
      }
    case Star(k) =>
      if MatchesAt(s, i, ps[1..]) {
        MatchHasLit(s, i, ps[1..], m - 1);
      } else {
        MatchHasLit(s, i + 1, ps, m);
      }
    case Plus(k) =>
      assert ([Star(k)] + ps[1..])[m] == ps[m];
      MatchHasLit(s, i + 1, [Star(k)] + ps[1..], m);
  }

  /** A pattern cannot match a subject in which no character matches the `k`-th character of
      one of its literals. */
  lemma NoMatchWithout(s: string, ps: seq<Piece>, m: nat, k: nat)
    requires m < |ps| && ps[m].Lit? && k < |ps[m].text| && ps[m].text[k] < 128 as char
    requires forall i | 0 <= i < |s| :: !FoldMatch(s[i], ps[m].text[k])
    ensures !Search(s, ps)
  {
    SearchAt(s, ps);
    if Search(s, ps) {
      var j :| 0 <= j <= |s| && MatchesAt(s, j, ps);
      MatchHasLit(s, j, ps, m);
      assert false;
    }
  }

  /** A pattern cannot match a subject in which no two adjacent characters match the `k`-th
      and the next character of one of its literals. */
  lemma NoMatchWithoutPair(s: string, ps: seq<Piece>, m: nat, k: nat)
    requires m < |ps| && ps[m].Lit? && k + 1 < |ps[m].text|
    requires ps[m].text[k] < 128 as char && ps[m].text[k + 1] < 128 as char
    requires forall i | 0 <= i < |s| - 1 :: !(FoldMatch(s[i], ps[m].text[k]) && FoldMatch(s[i + 1], ps[m].text[k + 1]))
    ensures !Search(s, ps)
  {
    SearchAt(s, ps);
    if Search(s, ps) {
      var j :| 0 <= j <= |s| && MatchesAt(s, j, ps);
      MatchHasLit(s, j, ps, m);
      assert false;
    }
  }

  // Single steps of a match, for exhibiting one.

  lemma LitStep(s: string, i: nat, l: string, rest: seq<Piece>)
    requires LitAt(s, i, l) && MatchesAt(s, i + |l|, rest)
    ensures MatchesAt(s, i, [Lit(l)] + rest)
  {
    assert ([Lit(l)] + rest)[1..] == rest;
  }

  lemma StarStop(s: string, i: nat, k: Class, rest: seq<Piece>)
    requires i <= |s| && MatchesAt(s, i, rest)
    ensures MatchesAt(s, i, [Star(k)] + rest)
  {
    assert ([Star(k)] + rest)[1..] == rest;
  }

  lemma PlusStep(s: string, i: nat, k: Class, rest: seq<Piece>)
    requires i < |s| && InClass(s[i], k) && MatchesAt(s, i + 1, [Star(k)] + rest)
    ensures MatchesAt(s, i, [Plus(k)] + rest)
  {
    assert ([Plus(k)] + rest)[1..] == rest;
  }

  lemma Found(s: string, i: nat, ps: seq<Piece>)
    requires i <= |s| && MatchesAt(s, i, ps)
    ensures Search(s, ps)
  {
    SearchFromAt(s, 0, ps);
    assert exists j | 0 <= j <= |s| :: MatchesAt(s, j, ps) by {
      assert 0 <= i <= |s| && MatchesAt(s, i, ps);
    }
  }

  /** `n` characters of class `k` from `i`, followed by a match of `rest`, match the
      repetition `[Star(k)] + rest`. */
  lemma {:induction false} StarRun(s: string, i: nat, n: nat, k: Class, rest: seq<Piece>)
    requires i + n <= |s| && (forall t | i <= t < i + n :: InClass(s[t], k)) && MatchesAt(s, i + n, rest)
    ensures MatchesAt(s, i, [Star(k)] + rest)
    decreases n
  {
    if n == 0 {
      StarStop(s, i, k, rest);
    } else {
      StarRun(s, i + 1, n - 1, k, rest);
      assert ([Star(k)] + rest)[0] == Star(k);
    }
  }

  /** The same with at least one character, for `[Plus(k)] + rest`. */
  lemma PlusRun(s: string, i: nat, n: nat, k: Class, rest: seq<Piece>)
    requires 0 < n && i + n <= |s| && (forall t | i <= t < i + n :: InClass(s[t], k)) && MatchesAt(s, i + n, rest)
    ensures MatchesAt(s, i, [Plus(k)] + rest)
  {
    StarRun(s, i + 1, n - 1, k, rest);
    PlusStep(s, i, k, rest);
  }

  /** `\s*` followed by a literal that starts with a lower-case letter or `/` can only stop at
      the end of the run of white space: the literal then starts there. */
  lemma {:induction false} StarSpaceThenLit(s: string, i: nat, l: string, rest: seq<Piece>)
    requires i <= |s| && 0 < |l| && (IsAsciiLower(l[0]) || l[0] == '/')
    requires MatchesAt(s, i, [Star(Space), Lit(l)] + rest)
    ensures LitAt(s, SpaceRunEnd(s, i), l) && MatchesAt(s, SpaceRunEnd(s, i) + |l|, rest)
    decreases |s| - i
  {
    var ps := [Star(Space), Lit(l)] + rest;
    assert ps[0] == Star(Space) && ps[1..] == [Lit(l)] + rest;
    if MatchesAt(s, i, [Lit(l)] + rest) {
      MatchNeedsLit(s, i, l, rest);
      assert FoldMatch(s[i + 0], l[0]);
      assert ([Lit(l)] + rest)[1..] == rest;
    } else {
      StarSpaceThenLit(s, i + 1, l, rest);
    }
  }

  /** `\s+` followed by such a literal: at least one white-space character, then the literal
      at the end of the run. */
  lemma PlusSpaceThenLit(s: string, i: nat, l: string, rest: seq<Piece>)
    requires i <= |s| && 0 < |l| && (IsAsciiLower(l[0]) || l[0] == '/')
    requires MatchesAt(s, i, [Plus(Space), Lit(l)] + rest)
    ensures i < |s| && IsSpace(s[i]) && SpaceRunEnd(s, i) > i
    ensures LitAt(s, SpaceRunEnd(s, i), l) && MatchesAt(s, SpaceRunEnd(s, i) + |l|, rest)
  {
    var ps := [Plus(Space), Lit(l)] + rest;
    assert ps[0] == Plus(Space) && [Star(Space)] + ps[1..] == [Star(Space), Lit(l)] + rest;
    StarSpaceThenLit(s, i + 1, l, rest);
  }
}
