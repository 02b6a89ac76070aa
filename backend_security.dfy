/** The backend's trust-boundary checks (`backend/security.py`): the `SecurityConfig`
    constants and the `SecurityValidator` checks on upload names, upload contents and script
    commands, the client address behind proxies, and the generic error response. Randomness
    (`secrets.token_hex`), the clock, the request's headers and the entropy estimate are
    parameters. */
module BackendSecurity {
  import opened Text
  import opened Wrappers
  import opened Py
  import opened PyRegex

  // ---------------------------------------------------------------------------------------
  // SecurityConfig

  /** `MAX_FILE_SIZE`: 50 MiB. */
  const MaxFileSize: nat := 50 * 1024 * 1024

  const AllowedMimeTypes: set<string> := {
    "text/plain", "text/csv", "text/html", "text/xml", "application/json", "application/xml",
    "application/zip", "application/x-tar", "application/x-gzip", "application/x-7z-compressed",
    "application/x-rar-compressed",
    "application/x-executable", "application/x-dosexec", "application/x-mach-binary", "application/x-elf",
    "image/jpeg", "image/png", "image/gif", "image/bmp", "image/webp", "image/tiff",
    "application/pdf", "application/msword",
    "application/vnd.openxmlformats-officedocument.wordprocessingml.document",
    "application/vnd.ms-excel",
    "application/vnd.openxmlformats-officedocument.spreadsheetml.sheet",
    "application/x-python-code", "application/javascript", "text/x-python", "text/x-c",
    "text/x-java-source",
    "application/octet-stream"
  }

  const AllowedFileExtensions: set<string> := {
    ".txt", ".csv", ".json", ".xml", ".html", ".htm",
    ".zip", ".tar", ".gz", ".7z", ".rar",
    ".exe", ".dll", ".so", ".dylib", ".bin",
    ".jpg", ".jpeg", ".png", ".gif", ".bmp", ".webp", ".tiff",
    ".pdf", ".doc", ".docx", ".xls", ".xlsx",
    ".py", ".js", ".c", ".cpp", ".h", ".java",
    ".log", ".conf", ".cfg", ".ini"
  }

  /** `DANGEROUS_PATTERNS`. All seven are literal text: `\.\./` is `../` and `\\\.\\` is
      backslash, dot, backslash. */
  const DangerousPatterns: seq<seq<Piece>> := [
    [Lit("../")], [Lit("\\.\\")], [Lit("<script")], [Lit("javascript:")], [Lit("vbscript:")],
    [Lit("file://")], [Lit("data:")]
  ]

  /** `ALLOWED_SCRIPT_COMMANDS`: nineteen program names. */
  const AllowedScriptCommands: set<string> := {
    "python", "python3", "node", "bash", "sh",
    "grep", "awk", "sed", "cat", "head", "tail",
    "file", "strings", "hexdump", "xxd",
    "openssl", "base64", "md5sum", "sha256sum"
  }

  // ---------------------------------------------------------------------------------------
  // sanitize_filename

  /** `HTTPException(status_code, detail)`. */
  datatype HttpError = HttpError(status: nat, detail: string)

  const EmptyFilename := "Filename cannot be empty"
  const DangerousFilename := "Dangerous filename pattern detected"
  const MaxNameLength: nat := 255
  const StemLength: nat := 250

  /** A character that `re.sub(r'[^\w\-_\.]', '_', ...)` keeps. */
  predicate Kept(c: char, unicodeAlnum: char -> bool)
  {
    IsWordChar(c, unicodeAlnum) || c == '-' || c == '.'
  }

  predicate AllKept(s: string, unicodeAlnum: char -> bool)
  {
    forall k | 0 <= k < |s| :: Kept(s[k], unicodeAlnum)
  }

  /** `re.sub(r'[^\w\-_\.]', '_', s)`. */
  function ReplaceUnsafe(s: string, unicodeAlnum: char -> bool): (r: string)
    ensures |r| == |s|
    ensures AllKept(r, unicodeAlnum)
  {
    seq(|s|, k requires 0 <= k < |s| => if Kept(s[k], unicodeAlnum) then s[k] else '_')
  }

  /** `s[:n]`. */
  function Prefix(s: string, n: nat): (r: string)
    ensures |r| == if |s| <= n then |s| else n
    ensures forall k | 0 <= k < |r| :: r[k] == s[k]
  {
    if |s| <= n then s else s[..n]
  }

  /** The length cap as written: a name over 255 characters keeps the first 250 characters
      of its `splitext` root and its whole extension. */
  function CapAsWritten(s: string): string
  {
    if |s| > MaxNameLength then
      var (name, ext) := SplitExt(s);
      Prefix(name, StemLength) + ext
    else s
  }

  /** The corrected length cap: the root is cut so that root and extension fill exactly 255
      characters, and an extension that alone is longer than that is cut itself. */
  function Cap(s: string): (r: string)
    ensures |r| <= MaxNameLength
  {
    if |s| > MaxNameLength then
      var (name, ext) := SplitExt(s);
      if |ext| <= MaxNameLength then name[..MaxNameLength - |ext|] + ext else s[..MaxNameLength]
    else s
  }

  /** The name used when nothing usable is left: `f"safe_file_{token}.bin"`. */
  function SafeName(token: string): string
  {
    "safe_file_" + token + ".bin"
  }

  function Fallback(s: string, token: string): string
  {
    if |s| == 0 || s == "." || s == ".." then SafeName(token) else s
  }

  /** Some pattern of `patterns` occurs in `s`. */
  predicate AnyMatch(s: string, patterns: seq<seq<Piece>>)
  {
    exists j | 0 <= j < |patterns| :: Search(s, patterns[j])
  }

  /** Some dangerous pattern occurs in `name`, in any letter case. */
  predicate Dangerous(name: string)
  {
    AnyMatch(name, DangerousPatterns)
  }

  /** The `for pattern in ...: if re.search(...)` loop: tries the patterns in order and stops
      at the first one that matches. */
  method FindAny(s: string, patterns: seq<seq<Piece>>) returns (found: bool)
    ensures found <==> AnyMatch(s, patterns)
  {
    for j := 0 to |patterns|
      invariant forall k | 0 <= k < j :: !Search(s, patterns[k])
    {
      if Search(s, patterns[j]) {
        return true;
      }
    }
    return false;
  }

  /** `sanitize_filename(filename)` with the length cap `cap`, the random hex `token` and the
      non-ASCII part of `\w` as parameters. Every rejection is a 400. */
  function SanitizeWith(filename: string, token: string, unicodeAlnum: char -> bool, cap: string -> string): (r: Result<string, HttpError>)
    ensures r.Failure? ==> r.error.status == 400
  {
    if |filename| == 0 then Failure(HttpError(400, EmptyFilename))
    else
      var name := Basename(filename);
      if Dangerous(name) then Failure(HttpError(400, DangerousFilename))
      else Success(Fallback(cap(ReplaceUnsafe(name, unicodeAlnum)), token))
  }

  /** `sanitize_filename` as written. */
  function SanitizedAsWritten(filename: string, token: string, unicodeAlnum: char -> bool): Result<string, HttpError>
  {
    SanitizeWith(filename, token, unicodeAlnum, CapAsWritten)
  }

  /** `sanitize_filename` with the corrected length cap. */
  function Sanitized(filename: string, token: string, unicodeAlnum: char -> bool): Result<string, HttpError>
  {
    SanitizeWith(filename, token, unicodeAlnum, Cap)
  }

  /** `sanitize_filename`, step by step: the name is reassigned after each stage and the
      dangerous patterns are tried in order. */
  method SanitizeFilename(filename: string, token: string, unicodeAlnum: char -> bool) returns (r: Result<string, HttpError>)
    ensures r == SanitizedAsWritten(filename, token, unicodeAlnum)
  {
    if |filename| == 0 {
      return Failure(HttpError(400, EmptyFilename));
    }
    var name := Basename(filename);
    var dangerous := FindAny(name, DangerousPatterns);
    if dangerous {
      return Failure(HttpError(400, DangerousFilename));
    }
    name := ReplaceUnsafe(name, unicodeAlnum);
    if |name| > MaxNameLength {
      var (stem, ext) := SplitExt(name);
      name := Prefix(stem, StemLength) + ext;
    }
    if |name| == 0 || name == "." || name == ".." {
      name := SafeName(token);
    }
    return Success(name);
  }

  /** What `secrets.token_hex(8)` returns: sixteen lower-case hexadecimal digits. */
  predicate HexToken(token: string)
  {
    |token| == 16 && forall k | 0 <= k < 16 :: '0' <= token[k] <= '9' || 'a' <= token[k] <= 'f'
  }

  lemma SafeNameKept(token: string, unicodeAlnum: char -> bool)
    requires HexToken(token)
    ensures AllKept(SafeName(token), unicodeAlnum) && |SafeName(token)| == 30
  {
    var s := SafeName(token);
    forall k | 0 <= k < |s| ensures Kept(s[k], unicodeAlnum)
    {
      if 10 <= k < 26 {
        assert s[k] == token[k - 10];
      }
    }
  }

  /** A literal whose `k`-th character is not a letter only matches that very character. */
  lemma LitAtChar(s: string, i: nat, l: string, k: nat)
    requires LitAt(s, i, l) && k < |l| && !IsAsciiUpper(l[k]) && !IsAsciiLower(l[k])
    requires l[k] != 'i' && l[k] != 'I' && l[k] != 's' && l[k] != 'S' && l[k] != 'k' && l[k] != 'K'
    ensures s[i + k] == l[k]
  {
  }

  /** Each dangerous pattern holds a character that the replacement step never keeps
      (`/`, `\`, `<` or `:`), so none can match a replaced name. */
  lemma {:induction false} KeptNotDangerous(s: string, unicodeAlnum: char -> bool)
    requires AllKept(s, unicodeAlnum)
    ensures !Dangerous(s)
  {
    forall j | 0 <= j < |DangerousPatterns| ensures !Search(s, DangerousPatterns[j])
    {
      var l := DangerousPatterns[j][0].text;
      var k: nat := if j == 0 then 2 else if j == 1 || j == 2 then 0 else if j == 3 then 10 else if j == 4 then 8 else 4;
      assert DangerousPatterns[j] == [Lit(l)] + [] && k < |l| && !Kept(l[k], unicodeAlnum);
      SearchAt(s, DangerousPatterns[j]);
      if Search(s, DangerousPatterns[j]) {
        var i :| 0 <= i <= |s| && MatchesAt(s, i, DangerousPatterns[j]);
        MatchNeedsLit(s, i, l, []);
        LitAtChar(s, i, l, k);
      }
    }
  }

  lemma ReplaceKept(s: string, unicodeAlnum: char -> bool)
    requires AllKept(s, unicodeAlnum)
    ensures ReplaceUnsafe(s, unicodeAlnum) == s
  {
  }

  lemma BasenameNoSlash(s: string)
    requires '/' !in s
    ensures Basename(s) == s
  {
    assert AfterLast(s, |s|, '/') == 0;
  }

  /** Both caps keep only characters of their argument. */
  lemma CapsKeep(s: string, unicodeAlnum: char -> bool)
    requires AllKept(s, unicodeAlnum)
    ensures AllKept(CapAsWritten(s), unicodeAlnum) && AllKept(Cap(s), unicodeAlnum)
  {
    if |s| > MaxNameLength {
      var (name, ext) := SplitExt(s);
      assert forall k | 0 <= k < |name| :: name[k] == s[k];
      assert forall k | 0 <= k < |ext| :: ext[k] == s[|name| + k];
    }
  }

  /** The fallback keeps a clean name and replaces the three unusable ones by a clean one. */
  lemma FallbackKept(s: string, token: string, unicodeAlnum: char -> bool)
    requires HexToken(token) && AllKept(s, unicodeAlnum)
    ensures var n := Fallback(s, token);
      AllKept(n, unicodeAlnum) && '/' !in n && n != [] && n != "." && n != ".."
  {
    SafeNameKept(token, unicodeAlnum);
    var n := Fallback(s, token);
    if '/' in n {
      var k :| 0 <= k < |n| && n[k] == '/';
      assert !Kept(n[k], unicodeAlnum);
    }
  }

  /** An accepted name, with a token as `secrets.token_hex(8)` makes it, is built only
      from `\w`, `-` and `.`, and so holds no `/`, when the cap keeps the characters of the
      replaced name. */
  lemma {:induction false} SanitizeWithKept(filename: string, token: string, unicodeAlnum: char -> bool, cap: string -> string)
    requires HexToken(token) && SanitizeWith(filename, token, unicodeAlnum, cap).Success?
    requires AllKept(cap(ReplaceUnsafe(Basename(filename), unicodeAlnum)), unicodeAlnum)
    ensures var n := SanitizeWith(filename, token, unicodeAlnum, cap).value;
      AllKept(n, unicodeAlnum) && '/' !in n && n != [] && n != "." && n != ".."
  {
    FallbackKept(cap(ReplaceUnsafe(Basename(filename), unicodeAlnum)), token, unicodeAlnum);
  }

  /** The output of either version has no `/` and only `\w`, `-` and `.` characters. */
  lemma SanitizedKept(filename: string, token: string, unicodeAlnum: char -> bool)
    requires HexToken(token)
    ensures SanitizedAsWritten(filename, token, unicodeAlnum).Success? ==>
      var n := SanitizedAsWritten(filename, token, unicodeAlnum).value; AllKept(n, unicodeAlnum) && '/' !in n
    ensures Sanitized(filename, token, unicodeAlnum).Success? ==>
      var n := Sanitized(filename, token, unicodeAlnum).value; AllKept(n, unicodeAlnum) && '/' !in n
  {
    CapsKeep(ReplaceUnsafe(Basename(filename), unicodeAlnum), unicodeAlnum);
    if SanitizedAsWritten(filename, token, unicodeAlnum).Success? {
      SanitizeWithKept(filename, token, unicodeAlnum, CapAsWritten);
    }
    if Sanitized(filename, token, unicodeAlnum).Success? {
      SanitizeWithKept(filename, token, unicodeAlnum, Cap);
    }
  }

  /** The dangerous-pattern check runs after `basename`: a traversal prefix is dropped and
      the remaining name is accepted unchanged. */
  lemma TraversalDropped(token: string, unicodeAlnum: char -> bool)
    ensures SanitizedAsWritten("../../etc/passwd.txt", token, unicodeAlnum) == Success("passwd.txt")
    ensures Sanitized("../../etc/passwd.txt", token, unicodeAlnum) == Success("passwd.txt")
  {
    var p := "../../etc/passwd.txt";
    assert p[9] == '/' && forall k | 10 <= k < |p| :: p[k] != '/';
    assert AfterLast(p, |p|, '/') == 10;
    var n := "passwd.txt";
    assert Basename(p) == n;
    assert AllKept(n, unicodeAlnum);
    KeptNotDangerous(n, unicodeAlnum);
    ReplaceKept(n, unicodeAlnum);
  }

  /** Re-sanitising an accepted name returns it unchanged when the cap leaves it alone. */
  lemma Resanitize(n: string, token: string, unicodeAlnum: char -> bool, cap: string -> string)
    requires AllKept(n, unicodeAlnum) && '/' !in n && n != [] && n != "." && n != ".." && cap(n) == n
    ensures SanitizeWith(n, token, unicodeAlnum, cap) == Success(n)
  {
    CleanName(n, unicodeAlnum);
  }

  /** The corrected `sanitize_filename` yields at most 255 characters and is idempotent:
      re-sanitising its result returns the same name and never raises. */
  lemma {:induction false} SanitizedIdempotent(filename: string, token: string, unicodeAlnum: char -> bool)
    requires HexToken(token) && Sanitized(filename, token, unicodeAlnum).Success?
    ensures var n := Sanitized(filename, token, unicodeAlnum).value;
      |n| <= MaxNameLength && Sanitized(n, token, unicodeAlnum) == Success(n)
  {
    var replaced := ReplaceUnsafe(Basename(filename), unicodeAlnum);
    CapsKeep(replaced, unicodeAlnum);
    SanitizeWithKept(filename, token, unicodeAlnum, Cap);
    SafeNameKept(token, unicodeAlnum);
    var n := Fallback(Cap(replaced), token);
    assert Sanitized(filename, token, unicodeAlnum) == Success(n);
    assert |n| <= MaxNameLength;
    assert Cap(n) == n;
    Resanitize(n, token, unicodeAlnum, Cap);
  }

  /** As written, `sanitize_filename` is idempotent on results of at most 255 characters. */
  lemma {:induction false} SanitizedAsWrittenShortIdempotent(filename: string, token: string, unicodeAlnum: char -> bool)
    requires HexToken(token) && SanitizedAsWritten(filename, token, unicodeAlnum).Success?
    requires |SanitizedAsWritten(filename, token, unicodeAlnum).value| <= MaxNameLength
    ensures var n := SanitizedAsWritten(filename, token, unicodeAlnum).value;
      SanitizedAsWritten(n, token, unicodeAlnum) == Success(n)
  {
    CapsKeep(ReplaceUnsafe(Basename(filename), unicodeAlnum), unicodeAlnum);
    SanitizeWithKept(filename, token, unicodeAlnum, CapAsWritten);
    var n := SanitizedAsWritten(filename, token, unicodeAlnum).value;
    Resanitize(n, token, unicodeAlnum, CapAsWritten);
  }

  lemma AfterLastFound(s: string, j: nat, c: char, i: nat)
    requires 0 < i <= j <= |s| && s[i - 1] == c && forall k | i <= k < j :: s[k] != c
    ensures AfterLast(s, j, c) == i
    decreases j
  {
    if j > i {
      AfterLastFound(s, j - 1, c, i);
    }
  }

  /** The length of the extension in the example below. */
  const ExtRun: nat := 10

  /** The name whose sanitised form shows that the cap as written neither bounds the length
      nor is idempotent: 250 dots, `a`, then the extension `.bbbbbbbbbb`. */
  function LongDotted(): (f: string)
    ensures |f| == StemLength + 2 + ExtRun
    ensures forall k | 0 <= k < StemLength :: f[k] == '.'
    ensures f[StemLength] == 'a' && f[StemLength + 1] == '.'
    ensures forall k | StemLength + 2 <= k < |f| :: f[k] == 'b'
  {
    Repeat('.', StemLength) + "a." + Repeat('b', ExtRun)
  }

  /** Its first sanitisation: 251 dots and ten `b`s, 261 characters. */
  function LongDottedOnce(): (y: string)
    ensures |y| == StemLength + 1 + ExtRun
    ensures forall k | 0 <= k <= StemLength :: y[k] == '.'
    ensures forall k | StemLength + 1 <= k < |y| :: y[k] == 'b'
  {
    Repeat('.', StemLength + 1) + Repeat('b', ExtRun)
  }

  /** A clean name (non-empty, no `/`, only kept characters) is sanitised to what the cap
      makes of it, when that has more than two characters. */
  lemma CleanName(n: string, unicodeAlnum: char -> bool)
    requires '/' !in n && AllKept(n, unicodeAlnum)
    ensures Basename(n) == n && !Dangerous(n) && ReplaceUnsafe(n, unicodeAlnum) == n
  {
    BasenameNoSlash(n);
    KeptNotDangerous(n, unicodeAlnum);
    ReplaceKept(n, unicodeAlnum);
  }

  lemma FallbackKeeps(s: string, token: string)
    requires |s| > 2
    ensures Fallback(s, token) == s
  {
  }

  lemma SanitizeClean(n: string, token: string, unicodeAlnum: char -> bool, cap: string -> string)
    requires |n| > 0 && Basename(n) == n && !Dangerous(n) && ReplaceUnsafe(n, unicodeAlnum) == n
    requires |cap(n)| > 2
    ensures SanitizeWith(n, token, unicodeAlnum, cap) == Success(cap(n))
  {
    FallbackKeeps(cap(n), token);
  }

  lemma LongDottedClean(unicodeAlnum: char -> bool)
    ensures '/' !in LongDotted() && AllKept(LongDotted(), unicodeAlnum)
    ensures '/' !in LongDottedOnce() && AllKept(LongDottedOnce(), unicodeAlnum)
  {
  }

  lemma LongDottedSplit()
    ensures SplitExt(LongDotted()) == (LongDotted()[..StemLength + 1], LongDotted()[StemLength + 1..])
  {
    var f := LongDotted();
    AfterLastFound(f, |f|, '.', StemLength + 2);
    assert '/' !in f;
    assert AfterLast(f, |f|, '/') == 0;
    assert f[StemLength] != '.';
  }

  lemma LongDottedFirstCap()
    ensures CapAsWritten(LongDotted()) == LongDottedOnce()
  {
    LongDottedSplit();
    var f := LongDotted();
    assert Prefix(f[..StemLength + 1], StemLength) + f[StemLength + 1..] == LongDottedOnce();
  }

  /** `splitext` finds no extension when every character before the last dot is a dot. */
  lemma SplitExtDotsOnly(p: string, dot: nat)
    requires AfterLast(p, |p|, '/') == 0 && AfterLast(p, |p|, '.') == dot
    requires forall k | 0 <= k < dot - 1 :: p[k] == '.'
    ensures SplitExt(p) == (p, [])
  {
  }

  lemma LongDottedOnceSplit()
    ensures SplitExt(LongDottedOnce()) == (LongDottedOnce(), [])
  {
    var y := LongDottedOnce();
    AfterLastFound(y, |y|, '.', StemLength + 1);
    assert '/' !in y;
    assert AfterLast(y, |y|, '/') == 0;
    SplitExtDotsOnly(y, StemLength + 1);
  }

  lemma LongDottedSecondCap()
    ensures CapAsWritten(LongDottedOnce()) == LongDottedOnce()[..StemLength]
  {
    LongDottedOnceSplit();
  }

  /** As written, a sanitised name can be longer than 255 characters, and sanitising it
      again changes it (to its first 250 characters). */
  lemma SanitizedAsWrittenNotIdempotent(token: string, unicodeAlnum: char -> bool)
    ensures SanitizedAsWritten(LongDotted(), token, unicodeAlnum) == Success(LongDottedOnce())
    ensures |LongDottedOnce()| > MaxNameLength
    ensures SanitizedAsWritten(LongDottedOnce(), token, unicodeAlnum) == Success(LongDottedOnce()[..StemLength])
    ensures LongDottedOnce()[..StemLength] != LongDottedOnce()
  {
    LongDottedClean(unicodeAlnum);
    LongDottedFirstCap();
    LongDottedSecondCap();
    CleanName(LongDotted(), unicodeAlnum);
    CleanName(LongDottedOnce(), unicodeAlnum);
    SanitizeClean(LongDotted(), token, unicodeAlnum, CapAsWritten);
    SanitizeClean(LongDottedOnce(), token, unicodeAlnum, CapAsWritten);
  }

  // ---------------------------------------------------------------------------------------
  // validate_file_content

  /** The dictionary `validate_file_content` returns. */
  datatype ContentCheck = ContentCheck(isSafe: bool, issues: seq<string>, warnings: seq<string>)

  const ExecutableWarning := "Executable file detected"
  const ScriptWarning := "Potentially dangerous script content detected"
  const EntropyWarning := "High entropy content " + "detected (encrypted/compressed)"

  /** How much of the content the entropy estimate looks at. */
  const EntropySample: nat := 1024

  function TooLarge(size: nat): string
  {
    "File too large: " + Decimal(size) + " bytes > " + Decimal(MaxFileSize) + " bytes"
  }

  function MimeWarning(mime: string): string
  {
    "Uncommon MIME type: " + mime
  }

  function ExtensionWarning(ext: string): string
  {
    "Uncommon file extension: " + ext
  }

  /** The bytes of an ASCII literal. */
  function Latin1(s: string): seq<byte>
  {
    seq(|s|, k requires 0 <= k < |s| => s[k] as int % 256)
  }

  /** The byte strings looked for in the lower-cased content. */
  const ScriptPatterns: seq<seq<byte>> := [
    Latin1("<script"), Latin1("javascript:"), Latin1("vbscript:"), Latin1("<?php"), Latin1("<%"),
    Latin1("${"), Latin1("eval(")
  ]

  /** `b'MZ'` and `b'\x7fELF'`. */
  const MzMagic: seq<byte> := [0x4D, 0x5A]
  const ElfMagic: seq<byte> := [0x7F, 0x45, 0x4C, 0x46]

  /** `bytes.lower()`. */
  function LowerBytes(s: seq<byte>): (r: seq<byte>)
    ensures |r| == |s|
  {
    seq(|s|, k requires 0 <= k < |s| => LowerByte(s[k]))
  }

  predicate AnySub(s: seq<byte>, patterns: seq<seq<byte>>)
  {
    exists j | 0 <= j < |patterns| :: HasSub(s, patterns[j])
  }

  predicate Executable(content: seq<byte>)
  {
    StartsWith(content, MzMagic) || StartsWith(content, ElfMagic)
  }

  predicate ScriptContent(content: seq<byte>)
  {
    AnySub(LowerBytes(content), ScriptPatterns)
  }

  /** `os.path.splitext(filename)[1].lower()`. */
  function Extension(filename: string): string
  {
    Lower(SplitExt(filename).1)
  }

  /** The entropy check fires: `highEntropy(sample)` stands for
      `calculate_entropy(sample) > 7.5` on the first 1024 bytes. */
  predicate HighEntropy(content: seq<byte>, highEntropy: seq<byte> -> bool)
  {
    |content| > 0 && highEntropy(content[..if |content| < EntropySample then |content| else EntropySample])
  }

  predicate CommonMime(mime: string)
  {
    mime in AllowedMimeTypes
  }

  predicate CommonExtension(ext: string)
  {
    ext in AllowedFileExtensions
  }

  /** `warnings.append(x)` when the check fired. */
  function Add(w: seq<string>, fired: bool, x: string): seq<string>
  {
    if fired then w + [x] else w
  }

  /** The warnings for the outcome of each check, in the order the checks run: MIME type,
      extension, executable header, script content, entropy. */
  function WarningsOf(mimeOdd: bool, mime: string, extOdd: bool, ext: string, exe: bool, script: bool, entropy: bool): seq<string>
  {
    Add(Add(Add(Add(Add([], mimeOdd, MimeWarning(mime)), extOdd, ExtensionWarning(ext)), exe, ExecutableWarning),
      script, ScriptWarning), entropy, EntropyWarning)
  }

  /** The warnings of `validate_file_content`. */
  function Warnings(content: seq<byte>, filename: string, mime: string, highEntropy: seq<byte> -> bool): seq<string>
  {
    WarningsOf(!CommonMime(mime), mime, !CommonExtension(Extension(filename)), Extension(filename),
               Executable(content), ScriptContent(content), HighEntropy(content, highEntropy))
  }

  /** What `validate_file_content` returns: only the size decides `is_safe`. */
  function ContentReport(content: seq<byte>, filename: string, mime: string, highEntropy: seq<byte> -> bool): ContentCheck
  {
    var safe := |content| <= MaxFileSize;
    ContentCheck(safe, if safe then [] else [TooLarge(|content|)], Warnings(content, filename, mime, highEntropy))
  }

  /** The `for pattern in script_patterns: if pattern in ...: ...; break` loop. */
  method FindSub(s: seq<byte>, patterns: seq<seq<byte>>) returns (found: bool)
    ensures found <==> AnySub(s, patterns)
  {
    found := false;
    for j := 0 to |patterns|
      invariant !found && forall k | 0 <= k < j :: !HasSub(s, patterns[k])
    {
      if HasSub(s, patterns[j]) {
        found := true;
        break;
      }
    }
  }

  /** `validate_file_content`: the result record is filled check by check. */
  method ValidateFileContent(content: seq<byte>, filename: string, mimeType: string, highEntropy: seq<byte> -> bool)
    returns (r: ContentCheck)
    ensures r == ContentReport(content, filename, mimeType, highEntropy)
  {
    var issues: seq<string> := [];
    if |content| > MaxFileSize {
      issues := issues + [TooLarge(|content|)];
    }
    var warnings := TypeWarnings(filename, mimeType);
    warnings := ContentWarnings(content, highEntropy, warnings);
    r := ContentCheck(|issues| == 0, issues, warnings);
  }

  /** The MIME type and extension checks of `validate_file_content`. */
  method TypeWarnings(filename: string, mimeType: string) returns (warnings: seq<string>)
    ensures warnings == Add(Add([], !CommonMime(mimeType), MimeWarning(mimeType)),
                            !CommonExtension(Extension(filename)), ExtensionWarning(Extension(filename)))
  {
    warnings := [];
    var mimeOdd := !CommonMime(mimeType);
    if mimeOdd {
      warnings := warnings + [MimeWarning(mimeType)];
    }
    assert warnings == Add([], mimeOdd, MimeWarning(mimeType));
    var ext := Extension(filename);
    var extOdd := !CommonExtension(ext);
    ghost var w := warnings;
    if extOdd {
      warnings := warnings + [ExtensionWarning(ext)];
    }
    assert warnings == Add(w, extOdd, ExtensionWarning(ext));
  }

  /** The executable header, script content and entropy checks of `validate_file_content`,
      after the warnings `w0` of the earlier checks. */
  method ContentWarnings(content: seq<byte>, highEntropy: seq<byte> -> bool, w0: seq<string>) returns (warnings: seq<string>)
    ensures warnings == Add(Add(Add(w0, Executable(content), ExecutableWarning), ScriptContent(content), ScriptWarning),
                            HighEntropy(content, highEntropy), EntropyWarning)
  {
    warnings := w0;
    var exe := StartsWith(content, MzMagic) || StartsWith(content, ElfMagic);
    if exe {
      warnings := warnings + [ExecutableWarning];
    }
    assert warnings == Add(w0, exe, ExecutableWarning);
    var script := FindSub(LowerBytes(content), ScriptPatterns);
    ghost var w := warnings;
    if script {
      warnings := warnings + [ScriptWarning];
    }
    assert warnings == Add(w, script, ScriptWarning);
    var entropy := false;
    w := warnings;
    if |content| > 0 {
      var sample := content[..if |content| < EntropySample then |content| else EntropySample];
      entropy := highEntropy(sample);
      if entropy {
        warnings := warnings + [EntropyWarning];
      }
    }
    assert warnings == Add(w, entropy, EntropyWarning);
  }

  /** Only the size gate makes content unsafe, with exactly one issue; the name, the MIME type
      and the entropy never change `is_safe`. A file of exactly 50 MiB is safe. */
  lemma ContentSafety(content: seq<byte>, filename: string, mime: string, highEntropy: seq<byte> -> bool)
    ensures var r := ContentReport(content, filename, mime, highEntropy);
      (r.isSafe <==> |content| <= 52428800)
      && |r.issues| == (if r.isSafe then 0 else 1)
      && (!r.isSafe ==> r.issues[0] == TooLarge(|content|))
  {
  }

  lemma WarningsDiffer(mime: string, ext: string)
    ensures MimeWarning(mime) != ExtensionWarning(ext)
    ensures MimeWarning(mime) !in [ExecutableWarning, ScriptWarning, EntropyWarning]
    ensures ExtensionWarning(ext) !in [ExecutableWarning, ScriptWarning, EntropyWarning]
    ensures ExecutableWarning != ScriptWarning && ScriptWarning != EntropyWarning && ExecutableWarning != EntropyWarning
  {
    assert MimeWarning(mime)[9] == 'M' && ExtensionWarning(ext)[9] == 'f';
    assert MimeWarning(mime)[1] == 'n' && ExtensionWarning(ext)[1] == 'n';
    assert ExecutableWarning[1] == 'x' && ScriptWarning[1] == 'o' && EntropyWarning[1] == 'i';
    assert |ExecutableWarning| == 24 && |ScriptWarning| == 45 && |EntropyWarning| == 52;
  }

  lemma AddMembers(w: seq<string>, fired: bool, x: string, y: string)
    ensures y in Add(w, fired, x) <==> y in w || (fired && y == x)
  {
  }

  lemma AddKeepsDistinct(w: seq<string>, fired: bool, x: string)
    requires NoDuplicates(w) && x !in w
    ensures NoDuplicates(Add(w, fired, x)) && |Add(w, fired, x)| == |w| + if fired then 1 else 0
  {
  }

  /** Each warning appears exactly when its check fires, at most once, and there is one per
      check that fires. */
  lemma WarningsOfSpec(mimeOdd: bool, mime: string, extOdd: bool, ext: string, exe: bool, script: bool, entropy: bool)
    ensures var w := WarningsOf(mimeOdd, mime, extOdd, ext, exe, script, entropy);
      (MimeWarning(mime) in w <==> mimeOdd)
      && (ExtensionWarning(ext) in w <==> extOdd)
      && (ExecutableWarning in w <==> exe)
      && (ScriptWarning in w <==> script)
      && (EntropyWarning in w <==> entropy)
      && NoDuplicates(w)
      && |w| == (if mimeOdd then 1 else 0) + (if extOdd then 1 else 0) + (if exe then 1 else 0)
               + (if script then 1 else 0) + (if entropy then 1 else 0)
  {
    WarningsDiffer(mime, ext);
    var w1 := Add([], mimeOdd, MimeWarning(mime));
    var w2 := Add(w1, extOdd, ExtensionWarning(ext));
    var w3 := Add(w2, exe, ExecutableWarning);
    var w4 := Add(w3, script, ScriptWarning);
    var w5 := Add(w4, entropy, EntropyWarning);
    AddKeepsDistinct([], mimeOdd, MimeWarning(mime));
    AddMembers(w1, extOdd, ExtensionWarning(ext), ExtensionWarning(ext));
    AddKeepsDistinct(w1, extOdd, ExtensionWarning(ext));
    AddKeepsDistinct(w2, exe, ExecutableWarning);
    AddKeepsDistinct(w3, script, ScriptWarning);
    AddKeepsDistinct(w4, entropy, EntropyWarning);
  }

  /** The warnings of `validate_file_content`, check by check. */
  lemma WarningsSpec(content: seq<byte>, filename: string, mime: string, highEntropy: seq<byte> -> bool)
    ensures var w := Warnings(content, filename, mime, highEntropy);
      (MimeWarning(mime) in w <==> !CommonMime(mime))
      && (ExtensionWarning(Extension(filename)) in w <==> !CommonExtension(Extension(filename)))
      && (ExecutableWarning in w <==> Executable(content))
      && (ScriptWarning in w <==> ScriptContent(content))
      && (EntropyWarning in w <==> HighEntropy(content, highEntropy))
      && NoDuplicates(w) && |w| <= 5
  {
    WarningsOfSpec(!CommonMime(mime), mime, !CommonExtension(Extension(filename)), Extension(filename),
                   Executable(content), ScriptContent(content), HighEntropy(content, highEntropy));
  }

  /** A Windows executable is flagged whatever its name and type. */
  lemma ExecutableFlagged(content: seq<byte>, filename: string, mime: string, highEntropy: seq<byte> -> bool)
    requires |content| >= 2 && content[0] == 0x4D && content[1] == 0x5A
    ensures ExecutableWarning in ContentReport(content, filename, mime, highEntropy).warnings
  {
    assert content[..2] == MzMagic;
    WarningsSpec(content, filename, mime, highEntropy);
  }

  // ---------------------------------------------------------------------------------------
  // validate_script_command

  /** `dangerous_command_patterns`, in the fragment: `\s+` is `Plus(Space)`, `\s*` is
      `Star(Space)` and `.*` is `Star(NotNewline)`. */
  const CommandDenyList: seq<seq<Piece>> := [
    [Lit("rm"), Plus(Space), Lit("-rf")],
    [Lit(">"), Star(Space), Lit("/dev")],
    [Lit("curl"), Star(NotNewline), Lit("|")],
    [Lit("wget"), Star(NotNewline), Lit("|")],
    [Lit("nc"), Plus(Space), Star(NotNewline), Plus(Space), Star(NotNewline)],
    [Lit("bash"), Plus(Space), Lit("-c")],
    [Lit("sh"), Plus(Space), Lit("-c")],
    [Lit("$(")],
    [Lit("`"), Star(NotNewline), Lit("`")],
    [Lit("&&")],
    [Lit("||")],
    [Lit(";"), Star(Space), Lit("rm")],
    [Lit(";"), Star(Space), Lit("cat"), Plus(Space), Lit("/etc")]
  ]

  /** `validate_script_command(command)`. */
  function ValidateScriptCommand(command: string): (ok: bool)
  {
    if |command| == 0 then false
    else
      var parts := Split(command);
      if |parts| == 0 then false
      else if parts[0] !in AllowedScriptCommands then false
      else !AnyMatch(command, CommandDenyList)
  }

  /** A command that one of the deny patterns matches anywhere is refused, whatever its
      program. */
  lemma DeniedRefused(command: string, j: nat, i: nat)
    requires j < |CommandDenyList| && i <= |command| && MatchesAt(command, i, CommandDenyList[j])
    ensures !ValidateScriptCommand(command)
  {
    Found(command, i, CommandDenyList[j]);
  }

  /** `rm`, white space and `-rf`, in any letter case, are refused wherever they occur. */
  lemma ForceRemoveRefused(command: string, i: nat, n: nat)
    requires FoldAt(command, i, "rm") && 0 < n
    requires FoldAt(command, i + 2 + n, "-rf")
    requires forall t | i + 2 <= t < i + 2 + n :: IsSpace(command[t])
    ensures !ValidateScriptCommand(command)
  {
    LitStep(command, i + 2 + n, "-rf", []);
    PlusRun(command, i + 2, n, Space, [Lit("-rf")]);
    LitStep(command, i, "rm", [Plus(Space), Lit("-rf")]);
    assert CommandDenyList[0] == [Lit("rm")] + [Plus(Space), Lit("-rf")];
    DeniedRefused(command, 0, i);
  }

  /** A redirection into `/dev`, with or without white space after `>`, is refused. */
  lemma DevRedirectRefused(command: string, i: nat, n: nat)
    requires i < |command| && command[i] == '>'
    requires FoldAt(command, i + 1 + n, "/dev")
    requires forall t | i + 1 <= t < i + 1 + n :: IsSpace(command[t])
    ensures !ValidateScriptCommand(command)
  {
    LitStep(command, i + 1 + n, "/dev", []);
    StarRun(command, i + 1, n, Space, [Lit("/dev")]);
    assert LitAt(command, i, ">");
    assert [Star(Space)] + [Lit("/dev")] == [Star(Space), Lit("/dev")];
    LitStep(command, i, ">", [Star(Space), Lit("/dev")]);
    assert CommandDenyList[1] == [Lit(">")] + [Star(Space), Lit("/dev")];
    DeniedRefused(command, 1, i);
  }

  /** `curl` or `wget` followed, on the same line, by a pipe is refused. */
  lemma PipedDownloadRefused(command: string, tool: string, i: nat, j: nat)
    requires tool == "curl" || tool == "wget"
    requires FoldAt(command, i, tool) && i + |tool| <= j < |command| && command[j] == '|'
    requires forall t | i + |tool| <= t < j :: command[t] != '\n'
    ensures !ValidateScriptCommand(command)
  {
    assert LitAt(command, j, "|");
    LitStep(command, j, "|", []);
    StarRun(command, i + |tool|, j - (i + |tool|), NotNewline, [Lit("|")]);
    assert [Star(NotNewline)] + [Lit("|")] == [Star(NotNewline), Lit("|")];
    LitStep(command, i, tool, [Star(NotNewline), Lit("|")]);
    var d := if tool == "curl" then 2 else 3;
    assert CommandDenyList[d] == [Lit(tool)] + [Star(NotNewline), Lit("|")];
    DeniedRefused(command, d, i);
  }

  /** `nc`, white space, and later on the same line more white space is refused. */
  lemma NetcatRefused(command: string, i: nat, j: nat)
    requires FoldAt(command, i, "nc") && i + 2 < j < |command|
    requires IsSpace(command[i + 2]) && IsSpace(command[j])
    requires forall t | i + 3 <= t < j :: command[t] != '\n'
    ensures !ValidateScriptCommand(command)
  {
    StarStop(command, j + 1, NotNewline, []);
    PlusRun(command, j, 1, Space, [Star(NotNewline)]);
    StarRun(command, i + 3, j - (i + 3), NotNewline, [Plus(Space), Star(NotNewline)]);
    assert [Star(NotNewline)] + [Plus(Space), Star(NotNewline)] == [Star(NotNewline), Plus(Space), Star(NotNewline)];
    PlusRun(command, i + 2, 1, Space, [Star(NotNewline), Plus(Space), Star(NotNewline)]);
    LitStep(command, i, "nc", [Plus(Space), Star(NotNewline), Plus(Space), Star(NotNewline)]);
    assert CommandDenyList[4] == [Lit("nc")] + [Plus(Space), Star(NotNewline), Plus(Space), Star(NotNewline)];
    DeniedRefused(command, 4, i);
  }

  /** `nc\s+.*\s+.*` also fires at the end of a word: `python3 func a b` is refused. */
  lemma NcInsideWordRefused()
    ensures !ValidateScriptCommand("python3 func a b")
  {
    var c := "python3 func a b";
    assert FoldAt(c, 10, "nc") by {
      assert c[10] == 'n' && c[11] == 'c';
    }
    NetcatRefused(c, 10, 14);
  }

  /** `bash -c` and `sh -c`, with any white space between and in any letter case, are
      refused; `sh` also fires at the end of `bash` or of any other word. */
  lemma ShellStringRefused(command: string, shell: string, i: nat, n: nat)
    requires shell == "bash" || shell == "sh"
    requires FoldAt(command, i, shell) && 0 < n
    requires FoldAt(command, i + |shell| + n, "-c")
    requires forall t | i + |shell| <= t < i + |shell| + n :: IsSpace(command[t])
    ensures !ValidateScriptCommand(command)
  {
    LitStep(command, i + |shell| + n, "-c", []);
    PlusRun(command, i + |shell|, n, Space, [Lit("-c")]);
    LitStep(command, i, shell, [Plus(Space), Lit("-c")]);
    var d := if shell == "bash" then 5 else 6;
    assert CommandDenyList[d] == [Lit(shell)] + [Plus(Space), Lit("-c")];
    DeniedRefused(command, d, i);
  }

  /** `$(`, `&&` and `||` are refused wherever they occur. */
  lemma OperatorRefused(command: string, op: string, i: nat)
    requires op == "$(" || op == "&&" || op == "||"
    requires i + 2 <= |command| && command[i..i + 2] == op
    ensures !ValidateScriptCommand(command)
  {
    assert command[i] == op[0] && command[i + 1] == op[1];
    assert LitAt(command, i, op);
    LitStep(command, i, op, []);
    var d := if op == "$(" then 7 else if op == "&&" then 9 else 10;
    assert CommandDenyList[d] == [Lit(op)] + [];
    DeniedRefused(command, d, i);
  }

  /** Two backticks on one line are refused. */
  lemma BacktickPairRefused(command: string, i: nat, j: nat)
    requires i < j < |command| && command[i] == '`' && command[j] == '`'
    requires forall t | i + 1 <= t < j :: command[t] != '\n'
    ensures !ValidateScriptCommand(command)
  {
    assert LitAt(command, j, "`") && LitAt(command, i, "`");
    LitStep(command, j, "`", []);
    StarRun(command, i + 1, j - (i + 1), NotNewline, [Lit("`")]);
    assert [Star(NotNewline)] + [Lit("`")] == [Star(NotNewline), Lit("`")];
    LitStep(command, i, "`", [Star(NotNewline), Lit("`")]);
    assert CommandDenyList[8] == [Lit("`")] + [Star(NotNewline), Lit("`")];
    DeniedRefused(command, 8, i);
  }

  /** `;`, optional white space and `rm` are refused, whatever follows `rm`. */
  lemma SemicolonRemoveRefused(command: string, i: nat, n: nat)
    requires i < |command| && command[i] == ';'
    requires FoldAt(command, i + 1 + n, "rm")
    requires forall t | i + 1 <= t < i + 1 + n :: IsSpace(command[t])
    ensures !ValidateScriptCommand(command)
  {
    LitStep(command, i + 1 + n, "rm", []);
    StarRun(command, i + 1, n, Space, [Lit("rm")]);
    assert LitAt(command, i, ";");
    assert [Star(Space)] + [Lit("rm")] == [Star(Space), Lit("rm")];
    LitStep(command, i, ";", [Star(Space), Lit("rm")]);
    assert CommandDenyList[11] == [Lit(";")] + [Star(Space), Lit("rm")];
    DeniedRefused(command, 11, i);
  }

  /** `;`, optional white space, `cat`, white space and `/etc` are refused. */
  lemma SemicolonCatEtcRefused(command: string, i: nat, n: nat, m: nat)
    requires i < |command| && command[i] == ';' && 0 < m
    requires FoldAt(command, i + 1 + n, "cat")
    requires FoldAt(command, i + 4 + n + m, "/etc")
    requires forall t | i + 1 <= t < i + 1 + n :: IsSpace(command[t])
    requires forall t | i + 4 + n <= t < i + 4 + n + m :: IsSpace(command[t])
    ensures !ValidateScriptCommand(command)
  {
    var tail: seq<Piece> := [Lit("cat"), Plus(Space), Lit("/etc")];
    CatEtcMatch(command, i + 1 + n, m);
    StarRun(command, i + 1, n, Space, tail);
    var rest := [Star(Space)] + tail;
    assert LitAt(command, i, ";");
    LitStep(command, i, ";", rest);
    assert CommandDenyList[12] == [Lit(";")] + rest;
    DeniedRefused(command, 12, i);
  }

  /** `cat`, at least one white-space character and `/etc` match from `p`. */
  lemma CatEtcMatch(command: string, p: nat, m: nat)
    requires 0 < m && FoldAt(command, p, "cat") && FoldAt(command, p + 3 + m, "/etc")
    requires forall t | p + 3 <= t < p + 3 + m :: IsSpace(command[t])
    ensures MatchesAt(command, p, [Lit("cat"), Plus(Space), Lit("/etc")])
  {
    LitStep(command, p + 3 + m, "/etc", []);
    PlusRun(command, p + 3, m, Space, [Lit("/etc")]);
    LitStep(command, p, "cat", [Plus(Space), Lit("/etc")]);
  }

  /** The program must be one of the nineteen names exactly: the letter case of the first
      field matters even though the deny patterns ignore it. */
  lemma UpperCaseProgramRefused()
    ensures !ValidateScriptCommand("PYTHON3 script.py")
  {
    var c := "PYTHON3 script.py";
    assert forall k | 0 <= k < 7 :: !IsSpace(c[k]);
    assert c[..7] == "PYTHON3";
    ProgramRefused(c, 7);
  }

  /** A command whose first field, ending before the white space at `n`, is not an allowed
      program is refused. */
  lemma ProgramRefused(command: string, n: nat)
    requires 0 < n < |command| && IsSpace(command[n]) && forall k | 0 <= k < n :: !IsSpace(command[k])
    requires command[..n] !in AllowedScriptCommands
    ensures !ValidateScriptCommand(command)
  {
    FirstField(command, n);
  }

  /** An empty or all-white-space command is refused. */
  lemma BlankCommandRefused(command: string)
    requires forall k | 0 <= k < |command| :: IsSpace(command[k])
    ensures !ValidateScriptCommand(command)
  {
  }

  /** A chained `rm -rf` is refused even behind an allowed program. */
  lemma ChainedRemoveRefused()
    ensures !ValidateScriptCommand("python3 script.py; rm -rf /")
  {
    var c := "python3 script.py; rm -rf /";
    var tail: seq<Piece> := [Lit("-rf")];
    assert LitAt(c, 22, "-rf");
    LitStep(c, 22, "-rf", []);
    StarStop(c, 22, Space, tail);
    assert IsSpace(c[21]);
    PlusStep(c, 21, Space, tail);
    assert LitAt(c, 19, "rm");
    LitStep(c, 19, "rm", [Plus(Space)] + tail);
    assert CommandDenyList[0] == [Lit("rm")] + ([Plus(Space)] + tail);
    Found(c, 19, CommandDenyList[0]);
  }

  /** The first field of a command that starts with `n` non-space characters followed by
      a space. */
  lemma FirstField(command: string, n: nat)
    requires 0 < n < |command| && IsSpace(command[n]) && forall k | 0 <= k < n :: !IsSpace(command[k])
    ensures |Split(command)| > 0 && Split(command)[0] == command[..n]
  {
    assert SpaceRunEnd(command, 0) == 0;
    assert WordRunEnd(command, 0) == n by {
      WordRunEndAt(command, 0, n);
    }
    SplitFirst(command);
  }

  lemma WordRunEndAt(s: string, i: nat, n: nat)
    requires i <= n < |s| && IsSpace(s[n]) && forall k | i <= k < n :: !IsSpace(s[k])
    ensures WordRunEnd(s, i) == n
    decreases n - i
  {
    if i < n {
      WordRunEndAt(s, i + 1, n);
    }
  }

  /** The characters that every deny pattern but the `nc` one needs. */
  predicate ShellMeta(c: char)
  {
    c == '-' || c == '>' || c == '|' || c == '$' || c == '`' || c == '&' || c == ';'
  }

  predicate MetaFree(s: string)
  {
    forall i | 0 <= i < |s| :: !ShellMeta(s[i])
  }

  lemma NoFoldPair(s: string)
    requires !FoldSearch(s, "nc")
    ensures forall i | 0 <= i < |s| - 1 :: !(FoldMatch(s[i], 'n') && FoldMatch(s[i + 1], 'c'))
  {
    forall i | 0 <= i < |s| - 1
      ensures !(FoldMatch(s[i], 'n') && FoldMatch(s[i + 1], 'c'))
    {
      assert !FoldAt(s, i, "nc");
    }
  }

  /** A pattern with a metacharacter in one of its literals cannot match a command
      without one. */
  lemma MetaBlocks(s: string, ps: seq<Piece>, m: nat, k: nat)
    requires m < |ps| && ps[m].Lit? && k < |ps[m].text| && ShellMeta(ps[m].text[k])
    requires MetaFree(s)
    ensures !Search(s, ps)
  {
    NoMatchWithout(s, ps, m, k);
  }

  /** No deny pattern matches a command that has none of the characters `-`, `>`, `|`, `$`,
      backtick, `&`, `;` and no `nc` in any letter case. */
  lemma MetaFreeNotDenied(command: string)
    requires MetaFree(command)
    requires !FoldSearch(command, "nc")
    ensures !AnyMatch(command, CommandDenyList)
  {
    var d := CommandDenyList;
    NoFoldPair(command);
    MetaBlocks(command, d[0], 2, 0);
    MetaBlocks(command, d[1], 0, 0);
    MetaBlocks(command, d[2], 2, 0);
    MetaBlocks(command, d[3], 2, 0);
    NoMatchWithoutPair(command, d[4], 0, 0);
    MetaBlocks(command, d[5], 2, 0);
    MetaBlocks(command, d[6], 2, 0);
    MetaBlocks(command, d[7], 0, 0);
    MetaBlocks(command, d[8], 0, 0);
    MetaBlocks(command, d[9], 0, 0);
    MetaBlocks(command, d[10], 0, 0);
    MetaBlocks(command, d[11], 0, 0);
    MetaBlocks(command, d[12], 0, 0);
  }

  /** Such a command passes exactly when its first field is one of the allowed programs. */
  lemma MetaFreeAccepted(command: string)
    requires MetaFree(command) && !FoldSearch(command, "nc")
    ensures ValidateScriptCommand(command) <==> |Split(command)| > 0 && Split(command)[0] in AllowedScriptCommands
  {
    MetaFreeNotDenied(command);
  }

  /** The only metacharacter the command may hold is `;`. */
  predicate OnlySemicolonMeta(s: string)
  {
    forall i | 0 <= i < |s| :: ShellMeta(s[i]) ==> s[i] == ';'
  }

  /** What follows the `;` at `i`, past its white space, is neither `rm` nor `cat` with white
      space and `/etc` after it, in any letter case. */
  predicate HarmlessAfter(s: string, i: nat)
    requires i < |s|
  {
    var p := SpaceRunEnd(s, i + 1);
    !FoldAt(s, p, "rm")
    && !(FoldAt(s, p, "cat") && SpaceRunEnd(s, p + 3) > p + 3 && FoldAt(s, SpaceRunEnd(s, p + 3), "/etc"))
  }

  lemma SemicolonBlocks(s: string, ps: seq<Piece>, m: nat, k: nat)
    requires m < |ps| && ps[m].Lit? && k < |ps[m].text| && ShellMeta(ps[m].text[k]) && ps[m].text[k] != ';'
    requires OnlySemicolonMeta(s)
    ensures !Search(s, ps)
  {
    NoMatchWithout(s, ps, m, k);
  }

  /** A match of `;\s*rm` starts at a `;` followed, past its white space, by `rm`. */
  lemma SemicolonRemoveAt(s: string, j: nat)
    requires j <= |s| && MatchesAt(s, j, CommandDenyList[11])
    ensures j < |s| && s[j] == ';' && !HarmlessAfter(s, j)
  {
    var rest: seq<Piece> := [Star(Space), Lit("rm")] + [];
    assert CommandDenyList[11] == [Lit(";")] + rest;
    MatchLit(s, j, ";", rest);
    assert FoldMatch(s[j + 0], ";"[0]);
    StarSpaceThenLit(s, j + 1, "rm", []);
  }

  /** A match of `;\s*cat\s+/etc` starts at a `;` followed, past its white space, by `cat`,
      white space and `/etc`. */
  lemma SemicolonCatAt(s: string, j: nat)
    requires j <= |s| && MatchesAt(s, j, CommandDenyList[12])
    ensures j < |s| && s[j] == ';' && !HarmlessAfter(s, j)
  {
    var tail: seq<Piece> := [Plus(Space), Lit("/etc")];
    var rest: seq<Piece> := [Star(Space), Lit("cat")] + tail;
    assert CommandDenyList[12] == [Lit(";")] + rest;
    MatchLit(s, j, ";", rest);
    assert FoldMatch(s[j + 0], ";"[0]);
    StarSpaceThenLit(s, j + 1, "cat", tail);
    CatEtcAfter(s, SpaceRunEnd(s, j + 1));
  }

  lemma CatEtcAfter(s: string, p: nat)
    requires p + 3 <= |s| && MatchesAt(s, p + 3, [Plus(Space), Lit("/etc")])
    ensures SpaceRunEnd(s, p + 3) > p + 3 && FoldAt(s, SpaceRunEnd(s, p + 3), "/etc")
  {
    assert [Plus(Space), Lit("/etc")] == [Plus(Space), Lit("/etc")] + [];
    PlusSpaceThenLit(s, p + 3, "/etc", []);
  }

  /** The two `;` patterns miss a command whose every `;` is harmless. */
  lemma SemicolonPatternsMiss(s: string)
    requires forall i | 0 <= i < |s| && s[i] == ';' :: HarmlessAfter(s, i)
    ensures !Search(s, CommandDenyList[11]) && !Search(s, CommandDenyList[12])
  {
    SearchAt(s, CommandDenyList[11]);
    SearchAt(s, CommandDenyList[12]);
    if Search(s, CommandDenyList[11]) {
      var j :| 0 <= j <= |s| && MatchesAt(s, j, CommandDenyList[11]);
      SemicolonRemoveAt(s, j);
      assert false;
    }
    if Search(s, CommandDenyList[12]) {
      var j :| 0 <= j <= |s| && MatchesAt(s, j, CommandDenyList[12]);
      SemicolonCatAt(s, j);
      assert false;
    }
  }

  /** No deny pattern matches a command whose only metacharacters are `;`, none of them
      followed by `rm` or by `cat /etc`, and that has no `nc` in any letter case. */
  lemma SemicolonNotDenied(command: string)
    requires OnlySemicolonMeta(command) && !FoldSearch(command, "nc")
    requires forall i | 0 <= i < |command| && command[i] == ';' :: HarmlessAfter(command, i)
    ensures !AnyMatch(command, CommandDenyList)
  {
    var d := CommandDenyList;
    NoFoldPair(command);
    SemicolonBlocks(command, d[0], 2, 0);
    SemicolonBlocks(command, d[1], 0, 0);
    SemicolonBlocks(command, d[2], 2, 0);
    SemicolonBlocks(command, d[3], 2, 0);
    NoMatchWithoutPair(command, d[4], 0, 0);
    SemicolonBlocks(command, d[5], 2, 0);
    SemicolonBlocks(command, d[6], 2, 0);
    SemicolonBlocks(command, d[7], 0, 0);
    SemicolonBlocks(command, d[8], 0, 0);
    SemicolonBlocks(command, d[9], 0, 0);
    SemicolonBlocks(command, d[10], 0, 0);
    SemicolonPatternsMiss(command);
  }

  /** Such a command passes exactly when its first field is one of the allowed programs:
      a bare `;` chaining two harmless commands is accepted. */
  lemma SemicolonAccepted(command: string)
    requires OnlySemicolonMeta(command) && !FoldSearch(command, "nc")
    requires forall i | 0 <= i < |command| && command[i] == ';' :: HarmlessAfter(command, i)
    ensures ValidateScriptCommand(command) <==> |Split(command)| > 0 && Split(command)[0] in AllowedScriptCommands
  {
    SemicolonNotDenied(command);
  }

  lemma CatLsFacts(c: string)
    requires c == "cat a; ls"
    ensures OnlySemicolonMeta(c) && !FoldSearch(c, "nc")
    ensures forall i | 0 <= i < |c| && c[i] == ';' :: HarmlessAfter(c, i)
  {
    forall i | 0 <= i <= |c|
      ensures !FoldAt(c, i, "nc")
    {
      if i < |c| {
        assert !FoldMatch(c[i + 0], "nc"[0]);
      }
    }
    assert SpaceRunEnd(c, 8) == 8;
    assert SpaceRunEnd(c, 7) == 7;
    assert SpaceRunEnd(c, 6) == 7;
    assert !FoldMatch(c[7 + 0], "rm"[0]) && !FoldMatch(c[7 + 0], "cat"[0]);
    assert HarmlessAfter(c, 5);
  }

  /** `cat a; ls` is accepted: a `;` is refused only before `rm` or `cat /etc`. */
  lemma CatSemicolonAccepted()
    ensures ValidateScriptCommand("cat a; ls")
  {
    var c := "cat a; ls";
    assert forall k | 0 <= k < 3 :: !IsSpace(c[k]);
    FirstField(c, 3);
    assert c[..3] == "cat";
    CatLsFacts(c);
    SemicolonAccepted(c);
  }

  lemma PlainNoNc(c: string)
    requires c == "python3 script.py"
    ensures !FoldSearch(c, "nc")
  {
    assert forall i | 0 <= i < |c| :: FoldMatch(c[i], 'n') ==> i == 5;
    forall i | 0 <= i <= |c|
      ensures !FoldAt(c, i, "nc")
    {
      if i == 5 {
        assert !FoldMatch(c[i + 1], "nc"[1]);
      } else if i < |c| {
        assert !FoldMatch(c[i + 0], "nc"[0]);
      }
    }
  }

  /** A plain script run is accepted. */
  lemma PlainScriptAccepted()
    ensures ValidateScriptCommand("python3 script.py")
  {
    var c := "python3 script.py";
    PlainFirstField(c);
    PlainMetaFree(c);
    PlainNoNc(c);
    MetaFreeAccepted(c);
  }

  lemma PlainFirstField(c: string)
    requires c == "python3 script.py"
    ensures |Split(c)| > 0 && Split(c)[0] == "python3"
  {
    assert forall k | 0 <= k < 7 :: !IsSpace(c[k]);
    FirstField(c, 7);
    assert c[..7] == "python3";
  }

  lemma PlainMetaFree(c: string)
    requires c == "python3 script.py"
    ensures MetaFree(c)
  {
  }

  /** A single backtick is not refused: the pattern needs a pair on one line. */
  lemma {:induction false} OneBacktickNotDenied(command: string)
    requires forall a, b | 0 <= a < b < |command| :: !(command[a] == '`' && command[b] == '`')
    ensures !Search(command, CommandDenyList[8])
  {
    var d := CommandDenyList[8];
    SearchAt(command, d);
    if Search(command, d) {
      var i :| 0 <= i <= |command| && MatchesAt(command, i, d);
      assert d == [Lit("`")] + d[1..];
      MatchNeedsLit(command, i, "`", d[1..]);
      assert FoldMatch(command[i], "`"[0]);
      assert MatchesAt(command, i + 1, d[1..]);
      MatchHasLit(command, i + 1, d[1..], 1);
      assert false;
    }
  }

  // ---------------------------------------------------------------------------------------
  // get_client_ip

  /** `get_client_ip`: the request's `X-Forwarded-For` and `X-Real-IP` headers and the
      transport peer are parameters. A present but empty header counts as missing. */
  function ClientIp(forwardedFor: Option<string>, realIp: Option<string>, client: Option<string>): string
  {
    if forwardedFor.Some? && |forwardedFor.value| > 0 then Strip(SplitOn(forwardedFor.value, ',')[0])
    else if realIp.Some? && |realIp.value| > 0 then Strip(realIp.value)
    else if client.Some? then client.value
    else "unknown"
  }

  lemma StripKeeps(s: string, c: char)
    requires c !in s
    ensures c !in Strip(s)
  {
    var i: nat, j: nat :| StripSlice(s, Strip(s), i, j);
  }

  /** A non-empty `X-Forwarded-For` wins over everything else and yields its first entry,
      stripped: no comma and no surrounding white space. */
  lemma ClientIpForwarded(ff: string, realIp: Option<string>, client: Option<string>)
    requires |ff| > 0
    ensures var ip := ClientIp(Some(ff), realIp, client);
      ip == ClientIp(Some(ff), None, None) && ',' !in ip
      && (|ip| > 0 ==> !IsSpace(ip[0]) && !IsSpace(ip[|ip| - 1]))
  {
    StripKeeps(SplitOn(ff, ',')[0], ',');
  }

  /** Without a usable forwarding header, `X-Real-IP` wins over the peer address, and
      `"unknown"` is the last resort. */
  lemma ClientIpFallbacks(ff: Option<string>, realIp: Option<string>, client: Option<string>)
    requires ff.None? || ff.value == []
    ensures realIp.Some? && |realIp.value| > 0 ==> ClientIp(ff, realIp, client) == Strip(realIp.value)
    ensures (realIp.None? || realIp.value == []) ==>
      ClientIp(ff, realIp, client) == if client.Some? then client.value else "unknown"
  {
  }

  // ---------------------------------------------------------------------------------------
  // create_secure_error_response

  /** The JSON response: its status and the body's `error`, `timestamp` and `request_id`. */
  datatype ErrorResponse = ErrorResponse(status: int, error: string, timestamp: string, requestId: string)

  const DefaultError := "An error occurred"

  const GenericMessages: map<int, string> := map[
    400 := "Bad request", 401 := "Unauthorized", 403 := "Forbidden", 404 := "Not found",
    429 := "Rate limit exceeded", 500 := "Internal server error"
  ]

  /** `create_secure_error_response(message, status_code)`; `datetime.utcnow().isoformat()`
      and `secrets.token_hex(8)` are the parameters `timestamp` and `requestId`. */
  function SecureErrorResponse(message: string, status: int, timestamp: string, requestId: string): (r: ErrorResponse)
    ensures r.status == status && r.timestamp == timestamp && r.requestId == requestId
  {
    ErrorResponse(status, if status in GenericMessages then GenericMessages[status] else DefaultError, timestamp, requestId)
  }

  /** The response never carries the caller's message: it is one of seven fixed texts chosen
      by the status code alone. */
  lemma ErrorResponseGeneric(m1: string, m2: string, status: int, timestamp: string, requestId: string)
    ensures SecureErrorResponse(m1, status, timestamp, requestId) == SecureErrorResponse(m2, status, timestamp, requestId)
    ensures SecureErrorResponse(m1, status, timestamp, requestId).error in GenericMessages.Values + {DefaultError}
    ensures status !in GenericMessages ==> SecureErrorResponse(m1, status, timestamp, requestId).error == DefaultError
  {
  }
}
