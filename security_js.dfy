/** The client-side checks of `frontend/src/utils/security.js`: the text sanitizer, the file
    name and file checks, the form check and the `localStorage` rate limiter. `Date.now()` and
    the browser's storage are the caller's: the clock is a parameter and the storage a field. */
module FrontSecurity {
  import opened Js
  import opened Text
  import opened Wrappers
  import opened JsRegex
  import opened HtmlEntities

  const MaxTextLength: int := 5000
  const MaxFilenameLength: nat := 255
  const MaxFileSize: nat := 50 * 1024 * 1024

  // ---------------------------------------------------------------------------------------
  // sanitizeTextInput

  /** `SECURITY_CONFIG.DANGEROUS_PATTERNS`, in order. `[^>]*` is greedy, `.*?` lazy; only
      the path-traversal pattern lacks the `i` flag. */
  const ScriptPattern := Regex([[Lit(Str("<script")), Star(NotGt), Lit(Str(">")), Lazy(Dot), Lit(Str("</script>"))]], true)
  const JavascriptPattern := Regex([[Lit(Str("javascript:"))]], true)
  const VbscriptPattern := Regex([[Lit(Str("vbscript:"))]], true)
  const HandlerPattern := Regex([[Lit(Str("on")), Plus(Word), Star(Space), Lit(Str("="))]], true)
  const ExpressionPattern := Regex([[Lit(Str("expression")), Star(Space), Lit(Str("("))]], true)
  const ImportPattern := Regex([[Lit(Str("@import"))]], true)
  const BackgroundPattern := Regex([[Lit(Str("background-image")), Star(Space), Lit(Str(":"))]], true)
  const TraversalPattern := Regex([[Lit(Str("../"))], [Lit(Str("\\.\\")), One(Dot)]], false)
  const IframePattern := Regex([[Lit(Str("<iframe")), Star(NotGt), Lit(Str(">")), Lazy(Dot), Lit(Str("</iframe>"))]], true)
  const ObjectPattern := Regex([[Lit(Str("<object")), Star(NotGt), Lit(Str(">")), Lazy(Dot), Lit(Str("</object>"))]], true)
  const EmbedPattern := Regex([[Lit(Str("<embed")), Star(NotGt), Lit(Str(">")), Lazy(Dot), Lit(Str("</embed>"))]], true)

  const DangerousPatterns: seq<Regex> := [
    ScriptPattern, JavascriptPattern, VbscriptPattern, HandlerPattern, ExpressionPattern, ImportPattern,
    BackgroundPattern, TraversalPattern, IframePattern, ObjectPattern, EmbedPattern
  ]

  const EntityHexApos: JsString := Str("&#x27;")
  const EntitySlash: JsString := Str("&#x2F;")

  /** `s.slice(0, end)`: a negative end counts from the back. */
  function SliceTo(s: JsString, end: int): (r: JsString)
    ensures |r| <= |s| && r == s[..|r|]
    ensures end >= 0 ==> |r| == if end < |s| then end else |s|
  {
    if end < 0 then (if |s| + end < 0 then [] else s[..|s| + end])
    else if end < |s| then s[..end] else s
  }

  /** The text after the first `j` patterns have each been removed, in order. */
  function StripPatterns(s: JsString, patterns: seq<Regex>, j: nat): JsString
    requires j <= |patterns|
  {
    if j == 0 then s else Remove(StripPatterns(s, patterns, j - 1), patterns[j - 1])
  }

  /** The six global replacements, ampersand first. */
  function EncodeEntities(s: JsString): JsString
  {
    var amp := ReplaceAll<CodeUnit>(s, ['&' as int], EntityAmp);
    var lt := ReplaceAll<CodeUnit>(amp, ['<' as int], EntityLt);
    var gt := ReplaceAll<CodeUnit>(lt, ['>' as int], EntityGt);
    var quot := ReplaceAll<CodeUnit>(gt, ['"' as int], EntityQuot);
    var apos := ReplaceAll<CodeUnit>(quot, ['\'' as int], EntityHexApos);
    ReplaceAll<CodeUnit>(apos, ['/' as int], EntitySlash)
  }

  /** What `sanitizeTextInput(input, maxLength)` returns; `None` is a value that is not a
      string (or `null`/`undefined`). */
  function SanitizedText(input: Option<JsString>, maxLength: int): JsString
  {
    if input.None? || |input.value| == 0 then []
    else Trim(EncodeEntities(StripPatterns(SliceTo(input.value, maxLength), DangerousPatterns, |DangerousPatterns|)))
  }

  /** The `forEach` that removes each pattern in turn. */
  method RemovePatterns(s: JsString, patterns: seq<Regex>) returns (r: JsString)
    ensures r == StripPatterns(s, patterns, |patterns|)
  {
    r := s;
    for j := 0 to |patterns|
      invariant r == StripPatterns(s, patterns, j)
    {
      r := Remove(r, patterns[j]);
    }
  }

  /** `sanitizeTextInput`. */
  method SanitizeTextInput(input: Option<JsString>, maxLength: int) returns (r: JsString)
    ensures r == SanitizedText(input, maxLength)
  {
    if input.None? || |input.value| == 0 {
      return [];
    }
    var sanitized := SliceTo(input.value, maxLength);
    sanitized := RemovePatterns(sanitized, DangerousPatterns);
    sanitized := ReplaceAll<CodeUnit>(sanitized, ['&' as int], EntityAmp);
    sanitized := ReplaceAll<CodeUnit>(sanitized, ['<' as int], EntityLt);
    sanitized := ReplaceAll<CodeUnit>(sanitized, ['>' as int], EntityGt);
    sanitized := ReplaceAll<CodeUnit>(sanitized, ['"' as int], EntityQuot);
    sanitized := ReplaceAll<CodeUnit>(sanitized, ['\'' as int], EntityHexApos);
    sanitized := ReplaceAll<CodeUnit>(sanitized, ['/' as int], EntitySlash);
    r := Trim(sanitized);
  }

  /** The characters the entity encoding removes. */
  predicate Markup(c: CodeUnit)
  {
    c == '<' as int || c == '>' as int || c == '"' as int || c == '\'' as int || c == '/' as int
  }

  lemma EntitiesPlain()
    ensures forall k | 0 <= k < |EntityAmp| :: !Markup(EntityAmp[k])
    ensures forall k | 0 <= k < |EntityLt| :: !Markup(EntityLt[k])
    ensures forall k | 0 <= k < |EntityGt| :: !Markup(EntityGt[k])
    ensures forall k | 0 <= k < |EntityQuot| :: !Markup(EntityQuot[k])
    ensures forall k | 0 <= k < |EntityHexApos| :: !Markup(EntityHexApos[k])
    ensures forall k | 0 <= k < |EntitySlash| :: !Markup(EntitySlash[k])
  {
  }

  /** After the replacements each markup character is gone. */
  lemma EncodedPlain(s: JsString)
    ensures forall k | 0 <= k < |EncodeEntities(s)| :: !Markup(EncodeEntities(s)[k])
  {
    EntitiesPlain();
    var amp := ReplaceAll<CodeUnit>(s, ['&' as int], EntityAmp);
    var lt := ReplaceAll<CodeUnit>(amp, ['<' as int], EntityLt);
    var gt := ReplaceAll<CodeUnit>(lt, ['>' as int], EntityGt);
    var quot := ReplaceAll<CodeUnit>(gt, ['"' as int], EntityQuot);
    var apos := ReplaceAll<CodeUnit>(quot, ['\'' as int], EntityHexApos);
    var slash := ReplaceAll<CodeUnit>(apos, ['/' as int], EntitySlash);
    ReplaceAllGone<CodeUnit>(amp, '<' as int, EntityLt);
    ReplaceAllKeepsOut<CodeUnit>(lt, '>' as int, EntityGt, '<' as int);
    ReplaceAllGone<CodeUnit>(lt, '>' as int, EntityGt);
    ReplaceAllKeepsOut<CodeUnit>(gt, '"' as int, EntityQuot, '<' as int);
    ReplaceAllKeepsOut<CodeUnit>(gt, '"' as int, EntityQuot, '>' as int);
    ReplaceAllGone<CodeUnit>(gt, '"' as int, EntityQuot);
    ReplaceAllKeepsOut<CodeUnit>(quot, '\'' as int, EntityHexApos, '<' as int);
    ReplaceAllKeepsOut<CodeUnit>(quot, '\'' as int, EntityHexApos, '>' as int);
    ReplaceAllKeepsOut<CodeUnit>(quot, '\'' as int, EntityHexApos, '"' as int);
    ReplaceAllGone<CodeUnit>(quot, '\'' as int, EntityHexApos);
    ReplaceAllKeepsOut<CodeUnit>(apos, '/' as int, EntitySlash, '<' as int);
    ReplaceAllKeepsOut<CodeUnit>(apos, '/' as int, EntitySlash, '>' as int);
    ReplaceAllKeepsOut<CodeUnit>(apos, '/' as int, EntitySlash, '"' as int);
    ReplaceAllKeepsOut<CodeUnit>(apos, '/' as int, EntitySlash, '\'' as int);
    ReplaceAllGone<CodeUnit>(apos, '/' as int, EntitySlash);
  }

  /** The sanitized text has no `<`, `>`, `"`, `'` or `/`, and no white space at either end;
      a missing or empty input gives the empty string. */
  lemma SanitizedTextSafe(input: Option<JsString>, maxLength: int)
    ensures var r := SanitizedText(input, maxLength);
      (forall k | 0 <= k < |r| :: !Markup(r[k]))
      && (|r| > 0 ==> !IsSpace(r[0]) && !IsSpace(r[|r| - 1]))
      && (input.None? || input.value == [] ==> r == [])
  {
    if input.Some? && |input.value| > 0 {
      var stripped := StripPatterns(SliceTo(input.value, maxLength), DangerousPatterns, |DangerousPatterns|);
      EncodedPlain(stripped);
      TrimPlain(EncodeEntities(stripped));
    }
  }

  lemma TrimPlain(e: JsString)
    requires forall k | 0 <= k < |e| :: !Markup(e[k])
    ensures forall k | 0 <= k < |Trim(e)| :: !Markup(Trim(e)[k])
  {
    var i: nat, j: nat :| TrimSlice(e, Trim(e), i, j);
    assert forall k | 0 <= k < |Trim(e)| :: Trim(e)[k] == e[i + k];
  }

  /** Before the encoding, the text is the slice with code units deleted, never added. */
  lemma {:induction false} StripPatternsShortens(s: JsString, patterns: seq<Regex>, j: nat)
    requires j <= |patterns|
    ensures Subsequence(StripPatterns(s, patterns, j), s)
    decreases j
  {
    if j == 0 {
      SubsequenceSelf(s);
    } else {
      StripPatternsShortens(s, patterns, j - 1);
      var t := StripPatterns(s, patterns, j - 1);
      RemoveShortens(t, patterns[j - 1]);
      SubsequenceTrans(Remove(t, patterns[j - 1]), t, s);
    }
  }

  // A single pass of removals can leave a pattern behind: deleting one occurrence joins the
  // text around it.

  /** A regular expression of one literal hits exactly where the literal occurs. */
  lemma LitHit(s: JsString, i: nat, l: JsString, ic: bool)
    requires i <= |s| && |l| > 0
    ensures Hit(s, i, Regex([[Lit(l)]], ic)) <==> LitAt(s, i, l, ic)
    ensures LitAt(s, i, l, ic) ==> FirstMatch(s, i, [[Lit(l)]], ic) == Some(i + |l|)
  {
    var alts := [[Lit(l)]];
    assert alts[1..] == [];
    assert FirstMatch(s, i, alts[1..], ic) == None;
    assert FirstMatch(s, i, alts, ic) == MatchEnd(s, i, [Lit(l)], ic);
    assert [Lit(l)][1..] == [];
    if LitAt(s, i, l, ic) {
      assert MatchEnd(s, i + |l|, [], ic) == Some(i + |l|);
    }
  }

  /** A regular expression with one alternative is blocked by a character of one of its
      literals that the text lacks. */
  lemma BlockedBy(s: JsString, re: Regex, m: nat, k: nat)
    requires |re.alts| == 1 && m < |re.alts[0]| && re.alts[0][m].Lit? && k < |re.alts[0][m].text|
    requires Missing(s, re.alts[0][m].text[k], re.ignoreCase)
    ensures Remove(s, re) == s
  {
    assert AltBlocked(s, re.alts[0], re.ignoreCase);
    assert Blocked(s, re);
    RemoveBlocked(s, re);
  }

  const Nested: JsString := [64, 105, 109, 64, 105, 109, 112, 111, 114, 116, 112, 111, 114, 116]
  const Joined: JsString := [64, 105, 109, 112, 111, 114, 116]

  /** A code unit of `@import`. */
  predicate ImportLetter(c: int)
  {
    c == 64 || c == 105 || c == 109 || c == 112 || c == 111 || c == 114 || c == 116
  }

  /** A code unit of `@IMPORT`. */
  predicate FoldedImportLetter(c: int)
  {
    c == 64 || c == 73 || c == 77 || c == 80 || c == 79 || c == 82 || c == 84
  }

  /** `s` uses the letters of `@import` only. */
  predicate ImportLetters(s: JsString)
  {
    forall j | 0 <= j < |s| :: ImportLetter(s[j])
  }

  /** `@im@importport` and `@import` use the letters of `@import` only. */
  lemma Letters()
    ensures ImportLetters(Nested) && ImportLetters(Joined)
  {
  }

  /** The code units of `Nested` and `Joined` spell `@im@importport` and `@import`. */
  lemma Spelled()
    ensures Nested == Str("@im@importport") && Joined == Str("@import")
  {
  }

  lemma ImportIsJoined()
    ensures ImportPattern == Regex([[Lit(Joined)]], true)
  {
    assert Joined == Str("@import");
  }

  lemma Absent(s: JsString, c: CodeUnit, ic: bool)
    requires ImportLetters(s)
    requires !ImportLetter(c) && !FoldedImportLetter(c) && !FoldedImportLetter(Fold(c))
    ensures Missing(s, c, ic)
  {
    forall j | 0 <= j < |s| ensures !CharEq(s[j], c, ic) {
      assert ImportLetter(s[j]);
      assert FoldedImportLetter(Fold(s[j]));
    }
  }

  lemma KeepsScript(s: JsString)
    requires ImportLetters(s)
    ensures Remove(s, ScriptPattern) == s && Remove(s, IframePattern) == s
    ensures Remove(s, ObjectPattern) == s && Remove(s, EmbedPattern) == s
  {
    Absent(s, '<' as int, true);
    BlockedBy(s, ScriptPattern, 0, 0);
    BlockedBy(s, IframePattern, 0, 0);
    BlockedBy(s, ObjectPattern, 0, 0);
    BlockedBy(s, EmbedPattern, 0, 0);
  }

  lemma KeepsJavascript(s: JsString)
    requires ImportLetters(s)
    ensures Remove(s, JavascriptPattern) == s
  {
    Absent(s, 'j' as int, true);
    BlockedBy(s, JavascriptPattern, 0, 0);
  }

  lemma KeepsVbscript(s: JsString)
    requires ImportLetters(s)
    ensures Remove(s, VbscriptPattern) == s
  {
    Absent(s, 'v' as int, true);
    BlockedBy(s, VbscriptPattern, 0, 0);
  }

  lemma KeepsHandler(s: JsString)
    requires ImportLetters(s)
    ensures Remove(s, HandlerPattern) == s
  {
    Absent(s, '=' as int, true);
    BlockedBy(s, HandlerPattern, 3, 0);
  }

  lemma KeepsExpression(s: JsString)
    requires ImportLetters(s)
    ensures Remove(s, ExpressionPattern) == s
  {
    Absent(s, 'x' as int, true);
    BlockedBy(s, ExpressionPattern, 0, 1);
  }

  lemma KeepsBackground(s: JsString)
    requires ImportLetters(s)
    ensures Remove(s, BackgroundPattern) == s
  {
    Absent(s, 'b' as int, true);
    BlockedBy(s, BackgroundPattern, 0, 0);
  }

  lemma KeepsTraversal(s: JsString)
    requires ImportLetters(s)
    ensures Remove(s, TraversalPattern) == s
  {
    var re := TraversalPattern;
    Absent(s, '.' as int, false);
    Absent(s, '\\' as int, false);
    assert re.alts[0][0].text[0] == '.' as int && re.alts[1][0].text[0] == '\\' as int;
    assert AltBlocked(s, re.alts[0], false);
    assert AltBlocked(s, re.alts[1], false);
    assert Blocked(s, re);
    RemoveBlocked(s, re);
  }

  lemma NestedTail()
    ensures RemoveFrom(Nested, 10, ImportPattern) == Nested[10..]
  {
    ImportIsJoined();
    forall j | 10 <= j < |Nested| ensures !Hit(Nested, j, ImportPattern) {
      LitHit(Nested, j, Joined, true);
    }
    RemoveFromUnchanged(Nested, 10, ImportPattern);
  }

  lemma NestedSkip()
    ensures RemoveFrom(Nested, 3, ImportPattern) == Nested[10..]
  {
    ImportIsJoined();
    NestedTail();
    LitHit(Nested, 3, Joined, true);
    assert LitAt(Nested, 3, Joined, true);
  }

  /** Where nothing hits, `RemoveFrom` keeps the code unit and moves on. */
  lemma KeepStep(s: JsString, i: nat, re: Regex)
    requires i < |s| && !Hit(s, i, re)
    ensures RemoveFrom(s, i, re) == [s[i]] + RemoveFrom(s, i + 1, re)
  {
  }

  lemma NestedNoHit(i: nat)
    requires i < 3
    ensures !Hit(Nested, i, ImportPattern)
  {
    ImportIsJoined();
    LitHit(Nested, i, Joined, true);
    var k := if i == 0 then 3 else 0;
    assert Fold(Nested[i + k]) != Fold(Joined[k]);
  }

  /** No hit at any of the positions from `i` up to `j`. */
  predicate NoHits(s: JsString, i: nat, j: nat, re: Regex)
    requires j <= |s|
    decreases j - i
  {
    i >= j || (!Hit(s, i, re) && NoHits(s, i + 1, j, re))
  }

  /** Positions without a hit are kept one by one. */
  lemma {:induction false} KeepRun(s: JsString, i: nat, j: nat, re: Regex)
    requires i <= j <= |s| && NoHits(s, i, j, re)
    ensures RemoveFrom(s, i, re) == s[i..j] + RemoveFrom(s, j, re)
    decreases j - i
  {
    if i < j {
      KeepStep(s, i, re);
      KeepRun(s, i + 1, j, re);
      assert s[i..j] == [s[i]] + s[i + 1..j];
    }
  }

  lemma NestedSplice()
    ensures Remove(Nested, ImportPattern) == Joined
  {
    NestedNoHit(0);
    NestedNoHit(1);
    NestedNoHit(2);
    assert NoHits(Nested, 3, 3, ImportPattern);
    assert NoHits(Nested, 0, 3, ImportPattern);
    KeepRun(Nested, 0, 3, ImportPattern);
    NestedSkip();
    assert Nested[0..3] + Nested[10..] == Joined;
  }

  /** One more pass step: the `j`-th pattern removed from what the first `j - 1` left. */
  lemma StripStep(s: JsString, patterns: seq<Regex>, j: nat, t: JsString)
    requires 0 < j <= |patterns| && StripPatterns(s, patterns, j - 1) == t
    ensures StripPatterns(s, patterns, j) == Remove(t, patterns[j - 1])
  {
  }

  /** The patterns in their order. */
  lemma PatternOrder()
    ensures var d := DangerousPatterns;
      d[0] == ScriptPattern && d[1] == JavascriptPattern && d[2] == VbscriptPattern
      && d[3] == HandlerPattern && d[4] == ExpressionPattern && d[5] == ImportPattern
      && d[6] == BackgroundPattern && d[7] == TraversalPattern && d[8] == IframePattern
      && d[9] == ObjectPattern && d[10] == EmbedPattern && |d| == 11
  {
  }

  /** The first five patterns leave a text of the letters of `@import` as it is. */
  lemma StripFirstFive(s: JsString)
    requires ImportLetters(s)
    ensures StripPatterns(s, DangerousPatterns, 5) == s
  {
    var d := DangerousPatterns;
    PatternOrder();
    KeepsScript(s);
    StripStep(s, d, 1, s);
    KeepsJavascript(s);
    StripStep(s, d, 2, s);
    KeepsVbscript(s);
    StripStep(s, d, 3, s);
    KeepsHandler(s);
    StripStep(s, d, 4, s);
    KeepsExpression(s);
    StripStep(s, d, 5, s);
  }

  /** The last five patterns leave such a text as it is too. */
  lemma StripLastFive(s: JsString, t: JsString)
    requires ImportLetters(t) && StripPatterns(s, DangerousPatterns, 6) == t
    ensures StripPatterns(s, DangerousPatterns, 11) == t
  {
    var d := DangerousPatterns;
    PatternOrder();
    KeepsBackground(t);
    StripStep(s, d, 7, t);
    KeepsTraversal(t);
    StripStep(s, d, 8, t);
    KeepsScript(t);
    StripStep(s, d, 9, t);
    StripStep(s, d, 10, t);
    StripStep(s, d, 11, t);
  }

  lemma StripNestedRest()
    ensures StripPatterns(Nested, DangerousPatterns, 11) == Joined
  {
    Letters();
    StripFirstFive(Nested);
    NestedSplice();
    PatternOrder();
    StripStep(Nested, DangerousPatterns, 6, Nested);
    StripLastFive(Nested, Joined);
  }

  /** A text without `&` and markup characters is left as it is by the encoding. */
  lemma EncodeUnchanged(s: JsString)
    requires forall k | 0 <= k < |s| :: !Markup(s[k]) && s[k] != '&' as int
    ensures EncodeEntities(s) == s
  {
    Lacks(s, '&' as int);
    ReplaceAllAbsent<CodeUnit>(s, ['&' as int], EntityAmp);
    Lacks(s, '<' as int);
    ReplaceAllAbsent<CodeUnit>(s, ['<' as int], EntityLt);
    Lacks(s, '>' as int);
    ReplaceAllAbsent<CodeUnit>(s, ['>' as int], EntityGt);
    Lacks(s, '"' as int);
    ReplaceAllAbsent<CodeUnit>(s, ['"' as int], EntityQuot);
    Lacks(s, '\'' as int);
    ReplaceAllAbsent<CodeUnit>(s, ['\'' as int], EntityHexApos);
    Lacks(s, '/' as int);
    ReplaceAllAbsent<CodeUnit>(s, ['/' as int], EntitySlash);
  }

  lemma Lacks(s: JsString, c: CodeUnit)
    requires forall k | 0 <= k < |s| :: s[k] != c
    ensures [c][0] !in s
  {
  }

  lemma JoinedPlain()
    ensures EncodeEntities(Joined) == Joined && Trim(Joined) == Joined
  {
    var s := Joined;
    Letters();
    forall k | 0 <= k < |s| ensures !Markup(s[k]) && s[k] != '&' as int && !IsSpace(s[k]) {
      assert ImportLetter(s[k]);
    }
    EncodeUnchanged(s);
    TrimNoSpace(s);
  }

  /** `sanitizeTextInput('@im@importport')` is `'@import'`, which the sixth pattern matches:
      removing the inner `@import` joins its two halves. */
  lemma SanitizedTextLeavesPattern()
    ensures SanitizedText(Some(Str("@im@importport")), MaxTextLength) == Str("@import")
    ensures Hit(SanitizedText(Some(Str("@im@importport")), MaxTextLength), 0, DangerousPatterns[5])
  {
    Spelled();
    SanitizedNested();
    PatternOrder();
  }

  lemma SanitizedNested()
    ensures SanitizedText(Some(Nested), MaxTextLength) == Joined
    ensures Hit(Joined, 0, ImportPattern)
  {
    ImportIsJoined();
    assert SliceTo(Nested, MaxTextLength) == Nested;
    PatternOrder();
    StripNestedRest();
    JoinedPlain();
    LitHit(Joined, 0, Joined, true);
  }

  /** The patterns removed over and over until a whole pass changes nothing. */
  function StripStable(s: JsString): (r: JsString)
    ensures StripPatterns(r, DangerousPatterns, |DangerousPatterns|) == r
    ensures Subsequence(r, s)
    decreases |s|
  {
    var t := StripPatterns(s, DangerousPatterns, |DangerousPatterns|);
    StripPatternsShortens(s, DangerousPatterns, |DangerousPatterns|);
    SubsequenceLength(t, s);
    if |t| == |s| then
      SubsequenceFull(t, s);
      SubsequenceSelf(s);
      s
    else
      var r := StripStable(t);
      SubsequenceTrans(r, t, s);
      r
  }

  /** The sanitizer with the removals repeated until nothing changes. */
  function SanitizedTextStable(input: Option<JsString>, maxLength: int): JsString
  {
    if input.None? || |input.value| == 0 then []
    else Trim(EncodeEntities(StripStable(SliceTo(input.value, maxLength))))
  }

  /** Each pass is no longer than the one before. */
  lemma {:induction false} StripPatternsMonotone(s: JsString, patterns: seq<Regex>, i: nat, j: nat)
    requires i <= j <= |patterns|
    ensures Subsequence(StripPatterns(s, patterns, j), StripPatterns(s, patterns, i))
    decreases j
  {
    if j == i {
      SubsequenceSelf(StripPatterns(s, patterns, i));
    } else {
      StripPatternsMonotone(s, patterns, i, j - 1);
      var t := StripPatterns(s, patterns, j - 1);
      RemoveShortens(t, patterns[j - 1]);
      SubsequenceTrans(Remove(t, patterns[j - 1]), t, StripPatterns(s, patterns, i));
    }
  }

  /** When a whole pass leaves the text unchanged, each single pattern does. */
  lemma StableEach(c: JsString, patterns: seq<Regex>, j: nat)
    requires StripPatterns(c, patterns, |patterns|) == c && j < |patterns|
    ensures Remove(c, patterns[j]) == c
  {
    StripPatternsMonotone(c, patterns, 0, j);
    StripPatternsMonotone(c, patterns, j, j + 1);
    StripPatternsMonotone(c, patterns, j + 1, |patterns|);
    var a := StripPatterns(c, patterns, j);
    var b := StripPatterns(c, patterns, j + 1);
    SubsequenceLength(a, c);
    SubsequenceLength(b, a);
    SubsequenceLength(c, b);
    SubsequenceFull(a, c);
    SubsequenceFull(b, a);
  }

  /** After the repeated removal no dangerous pattern matches anywhere in the text. */
  lemma StripStableClean(s: JsString, p: nat, j: nat)
    requires p < |DangerousPatterns| && j < |StripStable(s)|
    ensures !Hit(StripStable(s), j, DangerousPatterns[p])
  {
    StableEach(StripStable(s), DangerousPatterns, p);
    RemoveShortens(StripStable(s), DangerousPatterns[p]);
  }

  /** The corrected sanitizer keeps every guarantee of the single pass. */
  lemma SanitizedTextStableSafe(input: Option<JsString>, maxLength: int)
    ensures var r := SanitizedTextStable(input, maxLength);
      (forall k | 0 <= k < |r| :: !Markup(r[k]))
      && (|r| > 0 ==> !IsSpace(r[0]) && !IsSpace(r[|r| - 1]))
      && (input.None? || input.value == [] ==> r == [])
  {
    if input.Some? && |input.value| > 0 {
      var stripped := StripStable(SliceTo(input.value, maxLength));
      EncodedPlain(stripped);
      TrimPlain(EncodeEntities(stripped));
    }
  }

  // The entity encoding brings in no dangerous pattern, so the corrected sanitizer's output
  // holds none.

  /** The code units the encoding replaces by an entity. */
  predicate Encoded(c: CodeUnit)
  {
    c == '&' as int || Markup(c)
  }

  /** What the encoding makes of one code unit, the entities spelled out as code units. */
  function EntityImage(c: CodeUnit): (r: JsString)
    ensures |r| > 0
  {
    if c == '&' as int then ['&' as int, 'a' as int, 'm' as int, 'p' as int, ';' as int]
    else if c == '<' as int then ['&' as int, 'l' as int, 't' as int, ';' as int]
    else if c == '>' as int then ['&' as int, 'g' as int, 't' as int, ';' as int]
    else if c == '"' as int then ['&' as int, 'q' as int, 'u' as int, 'o' as int, 't' as int, ';' as int]
    else if c == '\'' as int then ['&' as int, '#' as int, 'x' as int, '2' as int, '7' as int, ';' as int]
    else if c == '/' as int then ['&' as int, '#' as int, 'x' as int, '2' as int, 'F' as int, ';' as int]
    else [c]
  }

  /** The entities the encoding writes, as code units. */
  lemma EntitiesSpelled()
    ensures EntityAmp == EntityImage('&' as int) && EntityLt == EntityImage('<' as int)
    ensures EntityGt == EntityImage('>' as int) && EntityQuot == EntityImage('"' as int)
    ensures EntityHexApos == EntityImage('\'' as int) && EntitySlash == EntityImage('/' as int)
  {
  }

  /** The images of the code units of `s`, one after another. */
  function Images(s: JsString): JsString
  {
    if |s| == 0 then [] else EntityImage(s[0]) + Images(s[1..])
  }

  /** An entity starts with `&`, ends with `;` and is made for a code unit that is no line
      terminator; every other code unit is its own image. */
  lemma ImageHead(c: CodeUnit)
    ensures Encoded(c) <==> EntityImage(c)[0] == '&' as int
    ensures !Encoded(c) ==> EntityImage(c) == [c]
    ensures Encoded(c) ==> !IsLineTerminator(c) && |EntityImage(c)| > 1
  {
  }

  /** Each replacement pass works on single code units, so the encoding distributes over
      concatenation. */
  lemma EncodeAppend(a: JsString, b: JsString)
    ensures EncodeEntities(a + b) == EncodeEntities(a) + EncodeEntities(b)
  {
    ReplaceAllAppend<CodeUnit>(a, b, '&' as int, EntityAmp);
    var a1 := ReplaceAll<CodeUnit>(a, ['&' as int], EntityAmp);
    var b1 := ReplaceAll<CodeUnit>(b, ['&' as int], EntityAmp);
    ReplaceAllAppend<CodeUnit>(a1, b1, '<' as int, EntityLt);
    var a2 := ReplaceAll<CodeUnit>(a1, ['<' as int], EntityLt);
    var b2 := ReplaceAll<CodeUnit>(b1, ['<' as int], EntityLt);
    ReplaceAllAppend<CodeUnit>(a2, b2, '>' as int, EntityGt);
    var a3 := ReplaceAll<CodeUnit>(a2, ['>' as int], EntityGt);
    var b3 := ReplaceAll<CodeUnit>(b2, ['>' as int], EntityGt);
    ReplaceAllAppend<CodeUnit>(a3, b3, '"' as int, EntityQuot);
    var a4 := ReplaceAll<CodeUnit>(a3, ['"' as int], EntityQuot);
    var b4 := ReplaceAll<CodeUnit>(b3, ['"' as int], EntityQuot);
    ReplaceAllAppend<CodeUnit>(a4, b4, '\'' as int, EntityHexApos);
    var a5 := ReplaceAll<CodeUnit>(a4, ['\'' as int], EntityHexApos);
    var b5 := ReplaceAll<CodeUnit>(b4, ['\'' as int], EntityHexApos);
    ReplaceAllAppend<CodeUnit>(a5, b5, '/' as int, EntitySlash);
  }

  /** One pass over a single code unit replaces it exactly when it is the one looked for. */
  lemma OnePass(s: JsString, x: CodeUnit, rep: JsString)
    requires |s| == 1
    ensures ReplaceAll<CodeUnit>(s, [x], rep) == if s[0] == x then rep else s
  {
    assert s[..1] == s == [s[0]];
    assert s[1..] == [];
  }

  /** A pass looking for a markup character leaves text without markup alone. */
  lemma PlainPass(e: JsString, x: CodeUnit, rep: JsString)
    requires Markup(x) && forall k | 0 <= k < |e| :: !Markup(e[k])
    ensures ReplaceAll<CodeUnit>(e, [x], rep) == e
  {
    ReplaceAllAbsent<CodeUnit>(e, [x], rep);
  }

  /** The encoding of one code unit is its image. */
  lemma EncodeOne(c: CodeUnit)
    ensures EncodeEntities([c]) == EntityImage(c)
  {
    EntitiesPlain();
    EntitiesSpelled();
    var s: JsString := [c];
    OnePass(s, '&' as int, EntityAmp);
    var e1 := ReplaceAll<CodeUnit>(s, ['&' as int], EntityAmp);
    if c == '&' as int {
      PlainPass(EntityAmp, '<' as int, EntityLt);
      PlainPass(EntityAmp, '>' as int, EntityGt);
      PlainPass(EntityAmp, '"' as int, EntityQuot);
      PlainPass(EntityAmp, '\'' as int, EntityHexApos);
      PlainPass(EntityAmp, '/' as int, EntitySlash);
      return;
    }
    OnePass(s, '<' as int, EntityLt);
    if c == '<' as int {
      PlainPass(EntityLt, '>' as int, EntityGt);
      PlainPass(EntityLt, '"' as int, EntityQuot);
      PlainPass(EntityLt, '\'' as int, EntityHexApos);
      PlainPass(EntityLt, '/' as int, EntitySlash);
      return;
    }
    OnePass(s, '>' as int, EntityGt);
    if c == '>' as int {
      PlainPass(EntityGt, '"' as int, EntityQuot);
      PlainPass(EntityGt, '\'' as int, EntityHexApos);
      PlainPass(EntityGt, '/' as int, EntitySlash);
      return;
    }
    OnePass(s, '"' as int, EntityQuot);
    if c == '"' as int {
      PlainPass(EntityQuot, '\'' as int, EntityHexApos);
      PlainPass(EntityQuot, '/' as int, EntitySlash);
      return;
    }
    OnePass(s, '\'' as int, EntityHexApos);
    if c == '\'' as int {
      PlainPass(EntityHexApos, '/' as int, EntitySlash);
      return;
    }
    OnePass(s, '/' as int, EntitySlash);
  }

  /** The encoding replaces each code unit by its image. */
  lemma {:induction false} EncodeIsImages(s: JsString)
    ensures EncodeEntities(s) == Images(s)
    decreases |s|
  {
    if |s| > 0 {
      assert s == [s[0]] + s[1..];
      EncodeAppend([s[0]], s[1..]);
      EncodeOne(s[0]);
      EncodeIsImages(s[1..]);
    }
  }

  /** Every position of the encoded text lies at offset `o` of the image of some `s[k]`. */
  lemma {:induction false} Locate(s: JsString, p: nat) returns (k: nat, o: nat)
    requires p < |Images(s)|
    ensures k < |s| && o < |EntityImage(s[k])|
    ensures Images(s)[p..] == EntityImage(s[k])[o..] + Images(s[k + 1..])
    decreases |s|
  {
    var img := EntityImage(s[0]);
    assert Images(s) == img + Images(s[1..]);
    if p < |img| {
      k, o := 0, p;
      assert (img + Images(s[1..]))[p..] == img[p..] + Images(s[1..]);
    } else {
      var k', o' := Locate(s[1..], p - |img|);
      k, o := k' + 1, o';
      assert s[1..][k'] == s[k] && s[1..][k' + 1..] == s[k + 1..];
      assert (img + Images(s[1..]))[p..] == Images(s[1..])[p - |img|..];
    }
  }

  /** A stretch of the encoded text from a code unit's image on without `&` consists of
      code units copied unchanged. */
  lemma {:induction false} Walk(s: JsString, n: nat)
    requires n <= |Images(s)| && forall q | 0 <= q < n :: Images(s)[q] != '&' as int
    ensures n <= |s| && Images(s)[..n] == s[..n] && Images(s[n..]) == Images(s)[n..]
    decreases n
  {
    if n == 0 {
      assert s[0..] == s;
    } else {
      var r := Images(s[1..]);
      PlainHead(s, n);
      Walk(s[1..], n - 1);
      ConsSlices(s[0], r, n);
      ConsSlices(s[0], s[1..], n);
      assert [s[0]] + s[1..] == s;
    }
  }

  /** The first step of `Walk`: a first code unit whose image does not start with `&` is its
      own image, and the rest of the stretch lies in the images of the rest. */
  lemma PlainHead(s: JsString, n: nat)
    requires 0 < n <= |Images(s)| && forall q | 0 <= q < n :: Images(s)[q] != '&' as int
    ensures |s| > 0 && Images(s) == [s[0]] + Images(s[1..])
    ensures n - 1 <= |Images(s[1..])| && forall q | 0 <= q < n - 1 :: Images(s[1..])[q] != '&' as int
  {
    assert |s| > 0;
    var img := EntityImage(s[0]);
    assert Images(s) == img + Images(s[1..]);
    ImageHead(s[0]);
    assert img[0] == Images(s)[0];
    forall q | 0 <= q < n - 1 ensures Images(s[1..])[q] != '&' as int {
      assert Images(s[1..])[q] == Images(s)[q + 1];
    }
  }

  lemma ConsSlices<T>(x: T, r: seq<T>, n: nat)
    requires 0 < n <= 1 + |r|
    ensures ([x] + r)[..n] == [x] + r[..n - 1] && ([x] + r)[n..] == r[n - 1..]
  {
  }

  /** The code units that occur in an entity after its `&`. */
  predicate InteriorUnit(c: CodeUnit)
  {
    c == 'a' as int || c == 'm' as int || c == 'p' as int || c == ';' as int || c == 'l' as int
    || c == 't' as int || c == 'g' as int || c == 'q' as int || c == 'u' as int || c == 'o' as int
    || c == '#' as int || c == 'x' as int || c == '2' as int || c == '7' as int || c == 'F' as int
  }

  /** Past its `&`, an entity holds only those code units, and its `o` is followed by `t`. */
  lemma Interior(c: CodeUnit, o: nat)
    requires Encoded(c) && 1 <= o < |EntityImage(c)|
    ensures InteriorUnit(EntityImage(c)[o])
    ensures EntityImage(c)[o] == 'o' as int ==> o + 1 < |EntityImage(c)| && EntityImage(c)[o + 1] == 't' as int
  {
  }

  /** `x` followed by `y` cannot be read inside an entity. */
  predicate StartsOutside(x: CodeUnit, y: CodeUnit, ic: bool)
  {
    !CharEq('a' as int, x, ic) && !CharEq('m' as int, x, ic) && !CharEq('p' as int, x, ic)
    && !CharEq(';' as int, x, ic) && !CharEq('l' as int, x, ic) && !CharEq('t' as int, x, ic)
    && !CharEq('g' as int, x, ic) && !CharEq('q' as int, x, ic) && !CharEq('u' as int, x, ic)
    && !CharEq('#' as int, x, ic) && !CharEq('x' as int, x, ic) && !CharEq('2' as int, x, ic)
    && !CharEq('7' as int, x, ic) && !CharEq('F' as int, x, ic)
    && (CharEq('o' as int, x, ic) ==> !CharEq('t' as int, y, ic))
  }

  /** No entity holds the first two code units of `l` past its `&`. */
  predicate NotInside(l: JsString, ic: bool)
  {
    |l| >= 2 && StartsOutside(l[0], l[1], ic)
  }

  /** A literal that cannot start inside an entity, found in the encoded text, starts at the
      image of some code unit. */
  lemma AtBoundary(c: JsString, p: nat, l: JsString, ic: bool) returns (k: nat)
    requires p <= |Images(c)| && LitAt(Images(c), p, l, ic) && NotInside(l, ic)
    ensures k <= |c| && Images(c[k..]) == Images(c)[p..]
  {
    var t := Images(c);
    var o: nat;
    k, o := Locate(c, p);
    var img := EntityImage(c[k]);
    ImageHead(c[k]);
    assert t[p] == t[p..][0] == img[o];
    assert o + 1 < |img| ==> t[p + 1] == t[p..][1] == img[o + 1];
    assert CharEq(t[p + 0], l[0], ic) && CharEq(t[p + 1], l[1], ic);
    if o > 0 {
      Interior(c[k], o);
      assert false;
    }
    assert c[k..][1..] == c[k + 1..];
  }

  /** A stretch without `&` that starts at the image of `c[k]` is copied from `c`. */
  lemma Copied(c: JsString, k: nat, t: JsString, p: nat, e: nat)
    requires k <= |c| && p <= e <= |t| && Images(c[k..]) == t[p..]
    requires forall q | p <= q < e :: t[q] != '&' as int
    ensures k + (e - p) <= |c| && c[k..k + (e - p)] == t[p..e]
    ensures Images(c[k + (e - p)..]) == t[e..]
  {
    var u, n := c[k..], e - p;
    WalkFrom(u, t, p, n);
    assert c[k..k + n] == u[..n];
    assert u[n..] == c[k + n..];
  }

  /** `Walk` for a text whose encoding is a suffix of `t`. */
  lemma WalkFrom(u: JsString, t: JsString, p: nat, n: nat)
    requires p + n <= |t| && Images(u) == t[p..]
    requires forall q | p <= q < p + n :: t[q] != '&' as int
    ensures n <= |u| && u[..n] == t[p..p + n] && Images(u[n..]) == t[p + n..]
  {
    NoAmpFrom(Images(u), t, p, n);
    Walk(u, n);
    SuffixSlices(t, p, n);
  }

  lemma NoAmpFrom(w: JsString, t: JsString, p: nat, n: nat)
    requires p + n <= |t| && w == t[p..]
    requires forall q | p <= q < p + n :: t[q] != '&' as int
    ensures n <= |w| && forall q | 0 <= q < n :: w[q] != '&' as int
  {
    forall q | 0 <= q < n ensures w[q] != '&' as int {
      assert w[q] == t[p + q];
    }
  }

  lemma SuffixSlices<T>(t: seq<T>, p: nat, n: nat)
    requires p + n <= |t|
    ensures t[p..][..n] == t[p..p + n] && t[p..][n..] == t[p + n..]
  {
  }

  /** A dangerous pattern's alternative that no `&` can take part in and that cannot start
      inside an entity matches in the encoded text only where it matches the original. */
  lemma Pulled(c: JsString, p: nat, re: Regex, a: nat) returns (k: nat)
    requires p <= |Images(c)| && LitLed(re) && a < |re.alts|
    requires MatchEnd(Images(c), p, re.alts[a], re.ignoreCase).Some?
    requires Avoids(re.alts[a], '&' as int, re.ignoreCase) && NotInside(re.alts[a][0].text, re.ignoreCase)
    ensures k < |c| && Hit(c, k, re)
  {
    var t, ps, ic := Images(c), re.alts[a], re.ignoreCase;
    var l := ps[0].text;
    var e := MatchEnd(t, p, ps, ic).value;
    assert LitAt(t, p, l, ic) && MatchEnd(t, p, ps, ic) == MatchEnd(t, p + |l|, ps[1..], ic);
    SpanAvoids(t, p, ps, ic, '&' as int);
    k := AtBoundary(c, p, l, ic);
    Copied(c, k, t, p, e);
    MatchTransfer(t, p, e, c, k, ps, ic);
    HitFrom(c, k, re, a);
  }

  /** `\\.\\`, the literal of the second alternative of the path-traversal pattern. */
  const BackDotBack: JsString := Str("\\.\\")

  /** In text without `/` only the second alternative of the path-traversal pattern hits:
      `\\.\\` followed by a code unit that is no line terminator. */
  lemma TraversalShape(t: JsString, p: nat)
    requires p <= |t| && Hit(t, p, TraversalPattern) && forall k | 0 <= k < |t| :: !Markup(t[k])
    ensures p + 3 < |t| && LitAt(t, p, BackDotBack, false) && !IsLineTerminator(t[p + 3])
    ensures forall q | p <= q < p + 3 :: t[q] != '&' as int
  {
    var alts := TraversalPattern.alts;
    var dots := Str("../");
    assert dots[2] == '/' as int;
    assert !LitAt(t, p, dots, false) by {
      if p + 3 <= |t| {
        assert !Markup(t[p + 2]);
      }
    }
    assert alts[0] == [Lit(dots)] && alts[1] == [Lit(BackDotBack), One(Dot)];
    assert MatchEnd(t, p, alts[1], false).Some?;
    assert |BackDotBack| == 3 && alts[1][1..] == [One(Dot)] && [One(Dot)][1..] == [];
    assert MatchEnd(t, p, alts[1], false) == MatchEnd(t, p + 3, [One(Dot)], false);
    forall q | p <= q < p + 3 ensures t[q] != '&' as int {
      assert CharEq(t[p + (q - p)], BackDotBack[q - p], false);
    }
  }

  /** `\\.\\` followed by a code unit that is no line terminator is a hit. */
  lemma TraversalHit(c: JsString, k: nat)
    requires k + 3 < |c| && LitAt(c, k, BackDotBack, false) && !IsLineTerminator(c[k + 3])
    ensures Hit(c, k, TraversalPattern)
  {
    var alts := TraversalPattern.alts;
    assert alts[1] == [Lit(BackDotBack), One(Dot)];
    assert |BackDotBack| == 3 && alts[1][1..] == [One(Dot)] && [One(Dot)][1..] == [];
    assert LitAt(c, k, alts[1][0].text, false);
    assert MatchEnd(c, k, alts[1], false) == MatchEnd(c, k + 3, [One(Dot)], false);
    assert MatchEnd(c, k + 3, [One(Dot)], false) == MatchEnd(c, k + 4, [], false);
    PatternsLitLed();
    HitFrom(c, k, TraversalPattern, 1);
  }

  /** The code unit whose image starts a non-empty stretch of the encoded text is no line
      terminator when that stretch does not start with one. */
  lemma FirstNotTerminator(rest: JsString, u: JsString)
    requires Images(rest) == u && |u| > 0 && !IsLineTerminator(u[0])
    ensures |rest| > 0 && !IsLineTerminator(rest[0])
  {
    assert |rest| > 0;
    assert Images(rest) == EntityImage(rest[0]) + Images(rest[1..]);
    ImageHead(rest[0]);
  }

  /** The path-traversal pattern matches in the encoded text only where it matches the
      original: `\\.\\` is copied unchanged, and the code unit after it is no line terminator
      in the original either. */
  lemma TraversalPulled(c: JsString, p: nat) returns (k: nat)
    requires p <= |Images(c)| && Hit(Images(c), p, TraversalPattern)
    ensures k < |c| && Hit(c, k, TraversalPattern)
  {
    var t := Images(c);
    EncodeIsImages(c);
    EncodedPlain(c);
    TraversalShape(t, p);
    BackDotBackOutside();
    k := AtBoundary(c, p, BackDotBack, false);
    Copied(c, k, t, p, p + 3);
    assert t[p + 3..][0] == t[p + 3];
    FirstNotTerminator(c[k + 3..], t[p + 3..]);
    assert c[k + 3..][0] == c[k + 3];
    LitSpan(t, p, c, k, 3, BackDotBack, false);
    TraversalHit(c, k);
  }

  /** Each dangerous pattern starts every alternative with a non-empty literal. */
  lemma PatternsLitLed()
    ensures forall q | 0 <= q < |DangerousPatterns| :: LitLed(DangerousPatterns[q])
  {
  }

  /** The tag patterns need `<`, which the encoded text lacks. */
  lemma TagBlocked(t: JsString, re: Regex)
    requires forall k | 0 <= k < |t| :: !Markup(t[k])
    requires |re.alts| == 1 && |re.alts[0]| > 0 && re.alts[0][0].Lit? && |re.alts[0][0].text| > 0
    requires re.alts[0][0].text[0] == '<' as int
    ensures Blocked(t, re)
  {
    assert Missing(t, re.alts[0][0].text[0], re.ignoreCase);
    assert AltBlocked(t, re.alts[0], re.ignoreCase);
  }

  /** A literal without `&` does not match it, in either case. */
  lemma LitAvoidsAmp(l: JsString)
    requires forall k | 0 <= k < |l| :: l[k] != '&' as int
    ensures PieceAvoids(Lit(l), '&' as int, true)
  {
  }

  lemma JavascriptPlain()
    ensures Avoids(JavascriptPattern.alts[0], '&' as int, true)
    ensures NotInside(JavascriptPattern.alts[0][0].text, true)
  {
    var l := Str("javascript:");
    LitAvoidsAmp(l);
  }

  lemma VbscriptPlain()
    ensures Avoids(VbscriptPattern.alts[0], '&' as int, true)
    ensures NotInside(VbscriptPattern.alts[0][0].text, true)
  {
    var l := Str("vbscript:");
    LitAvoidsAmp(l);
  }

  lemma HandlerPlain()
    ensures Avoids(HandlerPattern.alts[0], '&' as int, true)
    ensures NotInside(HandlerPattern.alts[0][0].text, true)
  {
    var l := Str("on");
    LitAvoidsAmp(l);
    LitAvoidsAmp(Str("="));
  }

  lemma ExpressionPlain()
    ensures Avoids(ExpressionPattern.alts[0], '&' as int, true)
    ensures NotInside(ExpressionPattern.alts[0][0].text, true)
  {
    var l := Str("expression");
    LitAvoidsAmp(l);
    LitAvoidsAmp(Str("("));
  }

  lemma ImportPlain()
    ensures Avoids(ImportPattern.alts[0], '&' as int, true)
    ensures NotInside(ImportPattern.alts[0][0].text, true)
  {
    var l := Str("@import");
    LitAvoidsAmp(l);
  }

  lemma BackgroundPlain()
    ensures Avoids(BackgroundPattern.alts[0], '&' as int, true)
    ensures NotInside(BackgroundPattern.alts[0][0].text, true)
  {
    var l := Str("background-image");
    LitAvoidsAmp(l);
    LitAvoidsAmp(Str(":"));
  }

  lemma BackDotBackOutside()
    ensures NotInside(BackDotBack, false)
  {
    assert BackDotBack[0] == '\\' as int && BackDotBack[1] == '.' as int;
  }

  /** The six patterns of one alternative that neither hold `&` nor can start inside an
      entity. */
  lemma PlainPatterns(q: nat)
    requires 1 <= q <= 6
    ensures |DangerousPatterns[q].alts| == 1 && DangerousPatterns[q].ignoreCase
    ensures Avoids(DangerousPatterns[q].alts[0], '&' as int, true)
    ensures NotInside(DangerousPatterns[q].alts[0][0].text, true)
  {
    if q == 1 {
      JavascriptPlain();
    } else if q == 2 {
      VbscriptPlain();
    } else if q == 3 {
      HandlerPlain();
    } else if q == 4 {
      ExpressionPlain();
    } else if q == 5 {
      ImportPlain();
    } else {
      BackgroundPlain();
    }
  }

  /** Text whose original held no dangerous pattern holds none after the encoding. */
  lemma ImagesClean(c: JsString, q: nat, p: nat)
    requires q < |DangerousPatterns| && p <= |Images(c)|
    requires forall j, q' | 0 <= j < |c| && 0 <= q' < |DangerousPatterns| :: !Hit(c, j, DangerousPatterns[q'])
    ensures !Hit(Images(c), p, DangerousPatterns[q])
  {
    var re := DangerousPatterns[q];
    var t := Images(c);
    PatternsLitLed();
    if q == 0 || q == 8 || q == 9 || q == 10 {
      EncodeIsImages(c);
      EncodedPlain(c);
      TagBlocked(t, re);
      NoHitWhenBlocked(t, re, p);
    } else if q == 7 {
      if Hit(t, p, re) {
        var k := TraversalPulled(c, p);
        assert false;
      }
    } else if Hit(t, p, re) {
      PlainPatterns(q);
      assert MatchEnd(t, p, re.alts[0], re.ignoreCase).Some?;
      var k := Pulled(c, p, re, 0);
      assert false;
    }
  }

  /** A slice of the encoded text of a clean text is clean. */
  lemma SliceClean(c: JsString, a: nat, b: nat, j: nat, q: nat)
    requires a <= b <= |Images(c)| && j < b - a && q < |DangerousPatterns|
    requires forall j, q' | 0 <= j < |c| && 0 <= q' < |DangerousPatterns| :: !Hit(c, j, DangerousPatterns[q'])
    ensures !Hit(Images(c)[a..b], j, DangerousPatterns[q])
  {
    PatternsLitLed();
    ImagesClean(c, q, a + j);
    SliceNoHit(Images(c), a, b, j, DangerousPatterns[q]);
  }

  lemma SliceNoHit(t: JsString, a: nat, b: nat, j: nat, re: Regex)
    requires a <= b <= |t| && j < b - a && LitLed(re) && !Hit(t, a + j, re)
    ensures !Hit(t[a..b], j, re)
  {
    SliceHit(t, a, b, j, re);
  }

  /** The corrected sanitizer leaves no dangerous pattern anywhere in what it returns: the
      repeated removal leaves none, the entity encoding brings in none and `trim` keeps a
      slice. */
  lemma SanitizedTextStableClean(input: Option<JsString>, maxLength: int)
    ensures var r := SanitizedTextStable(input, maxLength);
      forall j, q | 0 <= j < |r| && 0 <= q < |DangerousPatterns| :: !Hit(r, j, DangerousPatterns[q])
  {
    if input.Some? && |input.value| > 0 {
      var s := SliceTo(input.value, maxLength);
      var c := StripStable(s);
      forall j, q | 0 <= j < |c| && 0 <= q < |DangerousPatterns| ensures !Hit(c, j, DangerousPatterns[q]) {
        StripStableClean(s, q, j);
      }
      EncodeIsImages(c);
      var t := Images(c);
      var r := Trim(t);
      var a: nat, b: nat :| TrimSlice(t, r, a, b);
      assert a <= b <= |t| && r == t[a..b];
      forall j, q | 0 <= j < |r| && 0 <= q < |DangerousPatterns| ensures !Hit(r, j, DangerousPatterns[q]) {
        SliceClean(c, a, b, j, q);
      }
    }
  }
}
