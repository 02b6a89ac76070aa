/** The record-building checks of `frontend/src/utils/security.js`: `validateFilename`,
    `validateFile` and `validateFormData`. Each pushes its messages onto arrays in the order the
    checks run; the methods below do the same and are proved equal to a report function. */
module FrontChecks {
  import opened Js
  import opened Text
  import opened Wrappers
  import FrontSecurity

  // ---------------------------------------------------------------------------------------
  // validateFilename

  datatype FilenameCheck = FilenameCheck(isValid: bool, sanitized: JsString, errors: seq<JsString>)

  const FilenameRequired: JsString := Str("Filename is required")
  const FilenameTooLong: JsString := Str("Filename too long (max 255 characters)")
  const FilenameInvalid: JsString := Str("Filename contains invalid ") + Str("characters or patterns")
  const SafeFallback: JsString := Str("safe_file.bin")

  /** The four local patterns: `/\.\./`, `/[<>:"|?*]/`, the Windows device names, `/^\./`. */
  datatype NameRule = Traversal | BadChar | Reserved | Hidden

  const NameRules: seq<NameRule> := [Traversal, BadChar, Reserved, Hidden]

  predicate IsDot(c: CodeUnit) { c == '.' as int }

  predicate HasDotDot(s: JsString)
  {
    exists i | 0 <= i < |s| - 1 :: IsDot(s[i]) && IsDot(s[i + 1])
  }

  predicate Forbidden(c: CodeUnit)
  {
    c == '<' as int || c == '>' as int || c == ':' as int || c == '"' as int
    || c == '|' as int || c == '?' as int || c == '*' as int
  }

  predicate HasForbidden(s: JsString)
  {
    exists i | 0 <= i < |s| :: Forbidden(s[i])
  }

  /** `s` spells the upper-case ASCII word `w` in either case (the `i` flag). */
  predicate Spells(s: JsString, w: JsString)
  {
    |s| == |w| && forall k | 0 <= k < |s| :: Fold(s[k]) == w[k]
  }

  const Con: JsString := Str("CON")
  const Prn: JsString := Str("PRN")
  const Aux: JsString := Str("AUX")
  const Nul: JsString := Str("NUL")
  const Com: JsString := Str("COM")
  const Lpt: JsString := Str("LPT")

  /** `/^(CON|PRN|AUX|NUL|COM[1-9]|LPT[1-9])$/i`: the whole name is a device name. */
  predicate ReservedName(s: JsString)
  {
    Spells(s, Con) || Spells(s, Prn) || Spells(s, Aux) || Spells(s, Nul)
    || (|s| == 4 && (Spells(s[..3], Com) || Spells(s[..3], Lpt)) && '1' as int <= s[3] <= '9' as int)
  }

  predicate Fires(rule: NameRule, s: JsString)
  {
    match rule
    case Traversal => HasDotDot(s)
    case BadChar => HasForbidden(s)
    case Reserved => ReservedName(s)
    case Hidden => |s| > 0 && IsDot(s[0])
  }

  /** One message for each rule of `rules` that fires, in order. */
  function RuleErrors(s: JsString, rules: seq<NameRule>): (r: seq<JsString>)
    ensures |r| <= |rules|
    ensures forall k | 0 <= k < |r| :: r[k] == FilenameInvalid
    ensures |r| == 0 <==> forall j | 0 <= j < |rules| :: !Fires(rules[j], s)
  {
    if |rules| == 0 then []
    else
      var front := rules[..|rules| - 1];
      assert forall j | 0 <= j < |front| :: front[j] == rules[j];
      RuleErrors(s, front) + (if Fires(rules[|rules| - 1], s) then [FilenameInvalid] else [])
  }

  /** Every code unit outside `[a-zA-Z0-9.\-_]` becomes `_`. */
  predicate SafeChar(c: CodeUnit)
  {
    IsAlnum(c) || c == '.' as int || c == '-' as int || c == '_' as int
  }

  function ReplaceUnsafe(s: JsString): (r: JsString)
    ensures |r| == |s|
    ensures forall k | 0 <= k < |r| :: SafeChar(r[k])
  {
    seq(|s|, k requires 0 <= k < |s| => if SafeChar(s[k]) then s[k] else '_' as int)
  }

  /** `.replace(/\.+/g, '.')` from index `i` on. */
  function CollapseFrom(s: JsString, i: nat): (r: JsString)
    requires i <= |s|
    decreases |s| - i
  {
    if i == |s| then []
    else if IsDot(s[i]) then ['.' as int] + CollapseFrom(s, RunEnd(s, i + 1, IsDot))
    else [s[i]] + CollapseFrom(s, i + 1)
  }

  /** The collapsed text keeps only code units of the input, has no two dots in a row, and
      starts with the code unit it started from. */
  lemma {:induction false} CollapseFromShape(s: JsString, i: nat)
    requires i <= |s|
    ensures var r := CollapseFrom(s, i);
      (forall k | 0 <= k < |r| :: r[k] in s[i..])
      && !HasDotDot(r)
      && (i < |s| <==> |r| > 0)
      && (i < |s| ==> r[0] == s[i])
    decreases |s| - i
  {
    var r := CollapseFrom(s, i);
    if i < |s| {
      var j := if IsDot(s[i]) then RunEnd(s, i + 1, IsDot) else i + 1;
      var t := CollapseFrom(s, j);
      CollapseFromShape(s, j);
      assert r == [r[0]] + t;
      forall k | 0 <= k < |r| ensures r[k] in s[i..] {
        if k == 0 {
          assert s[i..][0] == s[i];
        } else {
          assert t[k - 1] in s[j..];
          var m :| 0 <= m < |s[j..]| && s[j..][m] == t[k - 1];
          assert s[i..][j - i + m] == s[j..][m];
        }
      }
      forall p | 0 <= p < |r| - 1 ensures !(IsDot(r[p]) && IsDot(r[p + 1])) {
        if p == 0 {
          assert r[1] == t[0] == s[j];
        } else {
          assert r[p] == t[p - 1] && r[p + 1] == t[p];
        }
      }
    }
  }

  /** `.replace(/^\.+|\.+$/g, '')`: the leading and the trailing run of dots go. */
  function TrailEnd(t: JsString, j: nat): (e: nat)
    requires j <= |t|
    ensures e <= j
    ensures forall k | e <= k < j :: IsDot(t[k])
    ensures e > 0 ==> !IsDot(t[e - 1])
  {
    if j == 0 || !IsDot(t[j - 1]) then j else TrailEnd(t, j - 1)
  }

  function StripDots(t: JsString): (r: JsString)
  {
    var a := RunEnd(t, 0, IsDot);
    var e := TrailEnd(t, |t|);
    if a < e then t[a..e] else []
  }

  lemma {:induction false} StripDotsShape(t: JsString)
    ensures var r := StripDots(t);
      (forall k | 0 <= k < |r| :: r[k] in t)
      && (|r| > 0 ==> !IsDot(r[0]) && !IsDot(r[|r| - 1]))
      && (!HasDotDot(t) ==> !HasDotDot(StripDots(t)))
  {
    var a := RunEnd(t, 0, IsDot);
    var e := TrailEnd(t, |t|);
    if a < e {
      SliceShape(t, a, e);
    }
  }

  /** A slice keeps the code units at its ends and has no `..` when the whole has none. */
  lemma SliceShape(t: JsString, a: nat, e: nat)
    requires a < e <= |t|
    ensures var r := t[a..e];
      (forall k | 0 <= k < |r| :: r[k] in t) && r[0] == t[a] && r[|r| - 1] == t[e - 1]
      && (!HasDotDot(t) ==> !HasDotDot(r))
  {
    var r := t[a..e];
    assert forall k | 0 <= k < |r| :: r[k] == t[a + k];
    if !HasDotDot(t) {
      forall p | 0 <= p < |r| - 1 ensures !(IsDot(r[p]) && IsDot(r[p + 1])) {
        assert r[p] == t[a + p] && r[p + 1] == t[a + p + 1];
      }
    }
  }

  /** The `sanitized` field of a non-empty name. */
  function SanitizeName(s: JsString): JsString
  {
    var kept := StripDots(CollapseFrom(ReplaceUnsafe(s), 0));
    var cut := FrontSecurity.SliceTo(kept, MaxNameLength);
    if |cut| == 0 then SafeFallback else cut
  }

  const MaxNameLength: int := FrontSecurity.MaxFilenameLength as int

  /** What `validateFilename(filename)` returns; `None` is `null` or `undefined`. */
  function FilenameReport(filename: Option<JsString>): FilenameCheck
  {
    if filename.None? || |filename.value| == 0 then FilenameCheck(false, [], [FilenameRequired])
    else
      var s := filename.value;
      var errors := (if |s| > FrontSecurity.MaxFilenameLength then [FilenameTooLong] else []) + RuleErrors(s, NameRules);
      FilenameCheck(|errors| == 0, SanitizeName(s), errors)
  }

  /** `validateFilename`: the length check, then each pattern in turn. */
  method ValidateFilename(filename: Option<JsString>) returns (r: FilenameCheck)
    ensures r == FilenameReport(filename)
  {
    if filename.None? || |filename.value| == 0 {
      return FilenameCheck(false, [], [FilenameRequired]);
    }
    var s := filename.value;
    var errors: seq<JsString> := [];
    if |s| > FrontSecurity.MaxFilenameLength {
      errors := errors + [FilenameTooLong];
    }
    var fired := CheckRules(s, NameRules);
    errors := errors + fired;
    r := FilenameCheck(|errors| == 0, SanitizeName(s), errors);
  }

  /** The `forEach` over the patterns: one message for each that fires. */
  method CheckRules(s: JsString, rules: seq<NameRule>) returns (errors: seq<JsString>)
    ensures errors == RuleErrors(s, rules)
  {
    errors := [];
    for j := 0 to |rules|
      invariant errors == RuleErrors(s, rules[..j])
    {
      assert rules[..j + 1][..j] == rules[..j];
      if Fires(rules[j], s) {
        errors := errors + [FilenameInvalid];
      }
    }
    assert rules[..|rules|] == rules;
  }

  /** A missing or empty name has the single error `Filename is required` and no sanitized
      form. */
  lemma FilenameRequiredOnly(filename: Option<JsString>)
    requires filename.None? || filename.value == []
    ensures var r := FilenameReport(filename);
      !r.isValid && r.errors == [FilenameRequired] && r.sanitized == []
  {
  }

  /** A non-empty name is valid exactly when it is at most 255 code units long and no pattern
      fires; the length error comes first, then one message per pattern that fires. */
  lemma FilenameValidIff(s: JsString)
    requires |s| > 0
    ensures var r := FilenameReport(Some(s));
      (r.isValid <==> |s| <= 255 && !HasDotDot(s) && !HasForbidden(s) && !ReservedName(s) && !IsDot(s[0]))
      && (FilenameTooLong in r.errors <==> |s| > 255)
      && (forall k | 0 <= k < |r.errors| :: r.errors[k] == FilenameTooLong || r.errors[k] == FilenameInvalid)
  {
    var rules := RuleErrors(s, NameRules);
    assert |FilenameTooLong| != |FilenameInvalid|;
    assert NameRules[0] == Traversal && NameRules[1] == BadChar && NameRules[2] == Reserved && NameRules[3] == Hidden;
    assert FilenameTooLong !in rules;
  }

  /** The sanitized name is never empty, uses only `[A-Za-z0-9._-]`, is at most 255 code units
      long, has no `..` and does not start with a dot. */
  lemma SanitizedNameSafe(s: JsString)
    ensures var r := SanitizeName(s);
      0 < |r| <= 255 && (forall k | 0 <= k < |r| :: SafeChar(r[k])) && !HasDotDot(r) && !IsDot(r[0])
  {
    var kept := StripDots(CollapseFrom(ReplaceUnsafe(s), 0));
    KeptSafe(s);
    var cut := FrontSecurity.SliceTo(kept, MaxNameLength);
    if |cut| == 0 {
      FallbackSafe();
    } else {
      PrefixSafe(kept, |cut|);
    }
  }

  /** Before the cut, the name has only safe code units, no `..`, and no dot at either end. */
  lemma KeptSafe(s: JsString)
    ensures var kept := StripDots(CollapseFrom(ReplaceUnsafe(s), 0));
      (forall k | 0 <= k < |kept| :: SafeChar(kept[k])) && !HasDotDot(kept) && (|kept| > 0 ==> !IsDot(kept[0]))
  {
    var u := ReplaceUnsafe(s);
    var c := CollapseFrom(u, 0);
    CollapseFromShape(u, 0);
    var kept := StripDots(c);
    StripDotsShape(c);
    forall k | 0 <= k < |c| ensures SafeChar(c[k]) {
      assert c[k] in u[0..];
    }
    forall k | 0 <= k < |kept| ensures SafeChar(kept[k]) {
      assert kept[k] in c;
    }
  }

  /** A non-empty prefix of such a name is such a name too. */
  lemma PrefixSafe(kept: JsString, n: nat)
    requires 0 < n <= |kept|
    requires (forall k | 0 <= k < |kept| :: SafeChar(kept[k])) && !HasDotDot(kept) && !IsDot(kept[0])
    ensures var cut := kept[..n];
      (forall k | 0 <= k < |cut| :: SafeChar(cut[k])) && !HasDotDot(cut) && !IsDot(cut[0])
  {
    var cut := kept[..n];
    forall p | 0 <= p < |cut| - 1 ensures !(IsDot(cut[p]) && IsDot(cut[p + 1])) {
      assert cut[p] == kept[p] && cut[p + 1] == kept[p + 1];
    }
  }

  lemma FallbackSafe()
    ensures 0 < |SafeFallback| <= 255 && (forall k | 0 <= k < |SafeFallback| :: SafeChar(SafeFallback[k]))
    ensures !HasDotDot(SafeFallback) && !IsDot(SafeFallback[0])
  {
    assert SafeFallback == [115, 97, 102, 101, 95, 102, 105, 108, 101, 46, 98, 105, 110];
  }

  /** A name of safe code units without `..` or a leading dot fires only the device-name rule. */
  lemma SafeNameRules(r: JsString)
    requires 0 < |r| && (forall k | 0 <= k < |r| :: SafeChar(r[k])) && !HasDotDot(r) && !IsDot(r[0])
    ensures !HasForbidden(r)
  {
  }

  /** Validating the sanitized name again fails only for a device name such as `CON`. */
  lemma SanitizedRevalidates(s: JsString)
    ensures FilenameReport(Some(SanitizeName(s))).isValid <==> !ReservedName(SanitizeName(s))
  {
    var r := SanitizeName(s);
    SanitizedNameSafe(s);
    SafeNameRules(r);
    FilenameValidIff(r);
  }

  // ---------------------------------------------------------------------------------------
  // validateFile

  /** The fields of a browser `File` that the check reads. */
  datatype FileInfo = FileInfo(name: JsString, size: int, mimeType: JsString)

  datatype FileCheck = FileCheck(isValid: bool, errors: seq<JsString>, warnings: seq<JsString>)

  const NoFile: JsString := Str("No file selected")
  const FileTooLarge: JsString := Str("File too large (max 50MB)")
  const TypePrefix: JsString := Str("Uncommon file type: ")
  const ExecutableNote: JsString := Str("Executable file detected") + Str(" - proceed with caution")
  const ArchiveNote: JsString := Str("Archive file detected") + Str(" - contents will not be scanned")

  function TypeWarning(mimeType: JsString): JsString
  {
    TypePrefix + mimeType
  }

  /** `SECURITY_CONFIG.ALLOWED_FILE_TYPES`. */
  const AllowedTypes: seq<JsString> := [
    Str("text/plain"),
    Str("text/csv"),
    Str("text/html"),
    Str("text/xml"),
    Str("application/json"),
    Str("application/xml"),
    Str("application/zip"),
    Str("application/x-tar"),
    Str("application/x-gzip"),
    Str("application/x-7z-compressed"),
    Str("application/x-rar-compressed"),
    Str("application/x-executable"),
    Str("application/x-dosexec"),
    Str("application/x-mach-binary"),
    Str("application/x-elf"),
    Str("image/jpeg"),
    Str("image/png"),
    Str("image/gif"),
    Str("image/bmp"),
    Str("image/webp"),
    Str("image/tiff"),
    Str("application/pdf"),
    Str("application/msword"),
    Str("application/vnd.openxmlformats-officedocument.wordprocessingml.document"),
    Str("application/vnd.ms-excel"),
    Str("application/vnd.openxmlformats-officedocument.spreadsheetml.sheet"),
    Str("application/x-python-code"),
    Str("application/javascript"),
    Str("text/x-python"),
    Str("text/x-c"),
    Str("text/x-java-source"),
    Str("application/octet-stream")
  ]

  predicate AllowedType(t: JsString)
  {
    Listed(t, AllowedTypes)
  }

  /** `list.includes(t)`. */
  predicate Listed(t: JsString, list: seq<JsString>)
  {
    |list| > 0 && (list[0] == t || Listed(t, list[1..]))
  }

  const ExecutableExtensions: seq<JsString> := [
    Str("exe"), Str("bat"), Str("cmd"), Str("com"), Str("pif"), Str("scr"), Str("vbs"),
    Str("js"), Str("jar"), Str("app"), Str("deb"), Str("pkg"), Str("dmg")
  ]

  const ArchiveExtensions: seq<JsString> := [Str("zip"), Str("rar"), Str("7z"), Str("tar"), Str("gz"), Str("bz2")]

  /** `name` ends with a dot and then `ext` in either case (`/\.(...)$/i`; the extensions are
      lower-case ASCII). */
  predicate EndsWithExt(name: JsString, ext: JsString)
  {
    |name| > |ext| && IsDot(name[|name| - |ext| - 1])
    && forall k | 0 <= k < |ext| :: Fold(name[|name| - |ext| + k]) == Fold(ext[k])
  }

  predicate AnyExtension(name: JsString, exts: seq<JsString>)
  {
    |exts| > 0 && (EndsWithExt(name, exts[0]) || AnyExtension(name, exts[1..]))
  }

  predicate Executable(name: JsString) { AnyExtension(name, ExecutableExtensions) }

  predicate Archive(name: JsString) { AnyExtension(name, ArchiveExtensions) }

  /** The warnings in the order they are pushed, each present exactly when its flag is set. */
  function FileWarnings(uncommon: bool, mimeType: JsString, executable: bool, archive: bool): (w: seq<JsString>)
  {
    (if uncommon then [TypeWarning(mimeType)] else [])
    + (if executable then [ExecutableNote] else [])
    + (if archive then [ArchiveNote] else [])
  }

  /** What `validateFile(file)` returns; `None` is a missing file. */
  function FileReport(file: Option<FileInfo>): FileCheck
  {
    if file.None? then FileCheck(false, [NoFile], [])
    else
      var f := file.value;
      FileOutcome(f, FilenameReport(Some(f.name)), !AllowedType(f.mimeType), Executable(f.name), Archive(f.name))
  }

  /** The record for a present file, given the name check and the three warning conditions. */
  function FileOutcome(f: FileInfo, name: FilenameCheck, uncommon: bool, executable: bool, archive: bool): FileCheck
  {
    var errors := (if f.size > FrontSecurity.MaxFileSize then [FileTooLarge] else [])
      + (if name.isValid then [] else name.errors);
    FileCheck(f.size <= FrontSecurity.MaxFileSize && name.isValid, errors,
      FileWarnings(uncommon, f.mimeType, executable, archive))
  }

  /** `validateFile`. */
  method ValidateFile(file: Option<FileInfo>) returns (r: FileCheck)
    ensures r == FileReport(file)
  {
    if file.None? {
      return FileCheck(false, [NoFile], []);
    }
    var f := file.value;
    var name := ValidateFilename(Some(f.name));
    r := CheckFile(f, name);
  }

  /** The checks of `validateFile` on a present file, in order, given what
      `validateFilename(file.name)` returned. */
  method CheckFile(f: FileInfo, name: FilenameCheck) returns (r: FileCheck)
    ensures r == FileOutcome(f, name, !AllowedType(f.mimeType), Executable(f.name), Archive(f.name))
  {
    var isValid, errors := SizeError(f.size);
    var warnings := TypeNote(f.mimeType);
    isValid, errors := NameErrors(name, isValid, errors);
    warnings := ExtensionNotes(f.name, warnings);
    r := FileCheck(isValid, errors, warnings);
    OutcomeParts(f, name, !AllowedType(f.mimeType), Executable(f.name), Archive(f.name), r);
  }

  /** The size check, the first error. */
  method SizeError(size: int) returns (isValid: bool, errors: seq<JsString>)
    ensures isValid == (size <= FrontSecurity.MaxFileSize)
    ensures errors == if size > FrontSecurity.MaxFileSize then [FileTooLarge] else []
  {
    isValid := true;
    errors := [];
    if size > FrontSecurity.MaxFileSize {
      isValid := false;
      errors := errors + [FileTooLarge];
    }
  }

  /** The type check, the first warning. */
  method TypeNote(mimeType: JsString) returns (warnings: seq<JsString>)
    ensures warnings == if !AllowedType(mimeType) then [TypeWarning(mimeType)] else []
  {
    warnings := [];
    var uncommon := !AllowedType(mimeType);
    if uncommon {
      warnings := warnings + [TypeWarning(mimeType)];
    }
  }

  /** A check with the outcome's validity, errors and warnings is the outcome. */
  lemma OutcomeParts(f: FileInfo, name: FilenameCheck, uncommon: bool, executable: bool, archive: bool, r: FileCheck)
    requires r.isValid == (f.size <= FrontSecurity.MaxFileSize && name.isValid)
    requires r.errors == (if f.size > FrontSecurity.MaxFileSize then [FileTooLarge] else []) + (if name.isValid then [] else name.errors)
    requires r.warnings == (if uncommon then [TypeWarning(f.mimeType)] else []) + (if executable then [ExecutableNote] else [])
      + (if archive then [ArchiveNote] else [])
    ensures r == FileOutcome(f, name, uncommon, executable, archive)
  {
  }

  /** The name's errors, appended when its check failed. */
  method NameErrors(name: FilenameCheck, isValid: bool, errors: seq<JsString>) returns (isValid': bool, errors': seq<JsString>)
    ensures isValid' == (isValid && name.isValid)
    ensures errors' == errors + (if name.isValid then [] else name.errors)
  {
    isValid', errors' := isValid, errors;
    if !name.isValid {
      errors' := errors + name.errors;
      isValid' := false;
    }
  }

  /** The notes on an executable and on an archive extension, appended in that order. */
  method ExtensionNotes(fileName: JsString, warnings: seq<JsString>) returns (warnings': seq<JsString>)
    ensures warnings' == warnings + (if Executable(fileName) then [ExecutableNote] else [])
      + (if Archive(fileName) then [ArchiveNote] else [])
  {
    warnings' := warnings;
    var executable := Executable(fileName);
    if executable {
      warnings' := warnings' + [ExecutableNote];
    }
    var archive := Archive(fileName);
    if archive {
      warnings' := warnings' + [ArchiveNote];
    }
  }

  /** The three warnings differ, so each can be told apart in the list. */
  lemma NotesDiffer(mimeType: JsString)
    ensures TypeWarning(mimeType) != ExecutableNote && TypeWarning(mimeType) != ArchiveNote
    ensures ExecutableNote != ArchiveNote
  {
    assert TypeWarning(mimeType)[0] == 'U' as int;
    assert ExecutableNote[0] == 'E' as int;
    assert ArchiveNote[0] == 'A' as int;
  }

  /** A warning is present exactly when its condition holds. */
  lemma FileWarningsIff(uncommon: bool, mimeType: JsString, executable: bool, archive: bool)
    ensures var w := FileWarnings(uncommon, mimeType, executable, archive);
      (TypeWarning(mimeType) in w <==> uncommon) && (ExecutableNote in w <==> executable)
      && (ArchiveNote in w <==> archive) && NoDuplicates(w)
  {
    NotesDiffer(mimeType);
  }

  /** A file is valid exactly when it exists, is at most 50 MiB and has a valid name; then it
      has no errors, whatever its warnings. */
  lemma FileValidIff(file: Option<FileInfo>)
    ensures var r := FileReport(file);
      (r.isValid <==> (file.Some? && file.value.size <= FrontSecurity.MaxFileSize
        && FilenameReport(Some(file.value.name)).isValid))
      && (r.isValid <==> |r.errors| == 0)
  {
    if file.Some? {
      var n := FilenameReport(Some(file.value.name));
      if !n.isValid {
        assert |n.errors| > 0;
      }
    }
  }

  /** The MIME type only ever adds a warning: the verdict and the errors do not depend on it. */
  lemma FileTypeOnlyWarns(name: JsString, size: int, t1: JsString, t2: JsString)
    ensures FileReport(Some(FileInfo(name, size, t1))).isValid == FileReport(Some(FileInfo(name, size, t2))).isValid
    ensures FileReport(Some(FileInfo(name, size, t1))).errors == FileReport(Some(FileInfo(name, size, t2))).errors
  {
  }

  /** An executable or archive extension is flagged without making the file invalid: those
      names are also valid names, and `payload.exe` of one byte passes with a warning. */
  lemma {:induction false} ExecutablePasses()
    ensures var r := FileReport(Some(FileInfo(Str("payload.exe"), 1, Str("text/plain"))));
      r.isValid && ExecutableNote in r.warnings
  {
    var f := FileInfo(Str("payload.exe"), 1, Str("text/plain"));
    PayloadName();
    assert AllowedType(Str("text/plain")) by { assert AllowedTypes[0] == Str("text/plain"); }
    assert FileReport(Some(f))
      == FileOutcome(f, FilenameReport(Some(f.name)), false, true, Archive(f.name));
  }

  /** `payload.exe` is a valid name with an executable extension. */
  lemma {:induction false} PayloadName()
    ensures FilenameReport(Some(Str("payload.exe"))).isValid && Executable(Str("payload.exe"))
  {
    var n := Str("payload.exe");
    PayloadLiteral();
    assert EndsWithExt(n, ExecutableExtensions[0]);
    PayloadClean();
    FilenameValidIff(n);
  }

  lemma PayloadLiteral()
    ensures Str("payload.exe") == [112, 97, 121, 108, 111, 97, 100, 46, 101, 120, 101]
  {
  }

  lemma {:induction false} PayloadClean()
    ensures var n := Str("payload.exe"); !HasDotDot(n) && !HasForbidden(n) && !ReservedName(n)
  {
    var n := Str("payload.exe");
    PayloadLiteral();
    assert !HasDotDot(n) by {
      forall i | 0 <= i < |n| - 1 ensures !(IsDot(n[i]) && IsDot(n[i + 1])) {
      }
    }
    assert !HasForbidden(n);
    assert !ReservedName(n);
  }

  // ---------------------------------------------------------------------------------------
  // validateFormData

  /** A form field's value: a string, or any other value, which is passed through. */
  datatype Value = Text(text: JsString) | Other(id: int)

  datatype FormCheck = FormCheck(isValid: bool, sanitized: seq<(JsString, Value)>, errors: seq<JsString>)

  const InvalidForm: JsString := Str("Invalid form data")

  function FieldWarning(key: JsString): JsString
  {
    Str("Field '") + key + Str("' contains potentially dangerous content")
  }

  /** The sanitized value is shorter than 80% of a non-empty original. */
  predicate Shrunk(original: JsString, sanitized: JsString)
  {
    |original| > 0 && 5 * |sanitized| < 4 * |original|
  }

  function SanitizeValue(v: Value): Value
  {
    match v
    case Text(t) => Text(FrontSecurity.SanitizedText(Some(t), FrontSecurity.MaxTextLength))
    case Other(_) => v
  }

  predicate Suspicious(v: Value)
  {
    v.Text? && Shrunk(v.text, FrontSecurity.SanitizedText(Some(v.text), FrontSecurity.MaxTextLength))
  }

  /** The fields, each with its value sanitized, in the order of `Object.keys`. */
  function SanitizedFields(fields: seq<(JsString, Value)>): (r: seq<(JsString, Value)>)
    ensures |r| == |fields|
    ensures forall i | 0 <= i < |fields| :: r[i] == (fields[i].0, SanitizeValue(fields[i].1))
  {
    if |fields| == 0 then []
    else SanitizedFields(fields[..|fields| - 1]) + [(fields[|fields| - 1].0, SanitizeValue(fields[|fields| - 1].1))]
  }

  /** One message for each suspicious field, in order. */
  function FieldErrors(fields: seq<(JsString, Value)>): (r: seq<JsString>)
    ensures |r| == 0 <==> forall i | 0 <= i < |fields| :: !Suspicious(fields[i].1)
  {
    if |fields| == 0 then []
    else
      var front := fields[..|fields| - 1];
      var last := fields[|fields| - 1];
      AllAreSnoc(fields, NotSuspiciousField);
      assert forall i | 0 <= i < |fields| :: NotSuspiciousField(fields[i]) == !Suspicious(fields[i].1);
      FieldErrors(front) + (if Suspicious(last.1) then [FieldWarning(last.0)] else [])
  }

  predicate NotSuspiciousField(field: (JsString, Value))
  {
    !Suspicious(field.1)
  }

  /** What `validateFormData(data)` returns; `None` is a value that is not an object. */
  function FormReport(data: Option<seq<(JsString, Value)>>): FormCheck
  {
    if data.None? then FormCheck(false, [], [InvalidForm])
    else
      var errors := FieldErrors(data.value);
      FormCheck(|errors| == 0, SanitizedFields(data.value), errors)
  }

  /** `validateFormData`: each field in turn. */
  method ValidateFormData(data: Option<seq<(JsString, Value)>>) returns (r: FormCheck)
    ensures r == FormReport(data)
  {
    if data.None? {
      return FormCheck(false, [], [InvalidForm]);
    }
    var fields := data.value;
    var isValid := true;
    var sanitized: seq<(JsString, Value)> := [];
    var errors: seq<JsString> := [];
    for i := 0 to |fields|
      invariant sanitized == SanitizedFields(fields[..i])
      invariant errors == FieldErrors(fields[..i])
      invariant isValid <==> |errors| == 0
    {
      isValid, sanitized, errors := FieldStep(fields, i, isValid, sanitized, errors);
    }
    assert fields[..|fields|] == fields;
    r := FormCheck(isValid, sanitized, errors);
  }

  /** One pass of the `forEach` of `validateFormData`, at the field `fields[i]`. */
  method FieldStep(fields: seq<(JsString, Value)>, i: nat, isValid: bool, sanitized: seq<(JsString, Value)>, errors: seq<JsString>)
    returns (isValid': bool, sanitized': seq<(JsString, Value)>, errors': seq<JsString>)
    requires i < |fields|
    requires sanitized == SanitizedFields(fields[..i]) && errors == FieldErrors(fields[..i])
    requires isValid <==> |errors| == 0
    ensures sanitized' == SanitizedFields(fields[..i + 1]) && errors' == FieldErrors(fields[..i + 1])
    ensures isValid' <==> |errors'| == 0
  {
    assert fields[..i + 1][..i] == fields[..i];
    var (key, value) := fields[i];
    var clean, error := CheckField(key, value);
    isValid', sanitized', errors' := isValid, sanitized + [(key, clean)], errors;
    if |error| > 0 {
      errors' := errors + error;
      isValid' := false;
    }
  }

  /** The body of the `forEach`: a string is sanitized and flagged when it shrank. */
  method CheckField(key: JsString, value: Value) returns (clean: Value, error: seq<JsString>)
    ensures clean == SanitizeValue(value)
    ensures error == if Suspicious(value) then [FieldWarning(key)] else []
  {
    error := [];
    if value.Text? {
      var text := FrontSecurity.SanitizeTextInput(Some(value.text), FrontSecurity.MaxTextLength);
      clean := Text(text);
      if |value.text| > 0 && 5 * |text| < 4 * |value.text| {
        error := [FieldWarning(key)];
      }
    } else {
      clean := value;
    }
  }

  /** The form is valid exactly when it is an object none of whose string fields lost a fifth
      of its length; the keys and the non-string values come back unchanged and every string
      comes back sanitized. */
  lemma FormValidIff(data: Option<seq<(JsString, Value)>>)
    ensures var r := FormReport(data);
      (r.isValid <==> data.Some? && forall i | 0 <= i < |data.value| :: !Suspicious(data.value[i].1))
      && (data.Some? ==> (|r.sanitized| == |data.value|
        && (forall i | 0 <= i < |data.value| :: (r.sanitized[i].0 == data.value[i].0
          && (data.value[i].1.Other? ==> r.sanitized[i].1 == data.value[i].1)
          && (data.value[i].1.Text? ==>
                r.sanitized[i].1 == Text(FrontSecurity.SanitizedText(Some(data.value[i].1.text), FrontSecurity.MaxTextLength)))))))
  {
  }

  /** Every sanitized string field is free of markup characters and trimmed. */
  lemma {:induction false} FormFieldsSafe(fields: seq<(JsString, Value)>, i: nat)
    requires i < |fields| && fields[i].1.Text?
    ensures var v := FormReport(Some(fields)).sanitized[i].1;
      v.Text? && (forall k | 0 <= k < |v.text| :: !FrontSecurity.Markup(v.text[k]))
      && (|v.text| > 0 ==> !IsSpace(v.text[0]) && !IsSpace(v.text[|v.text| - 1]))
  {
    var t := fields[i].1.text;
    assert FormReport(Some(fields)).sanitized == SanitizedFields(fields);
    assert SanitizedFields(fields)[i].1 == SanitizeValue(fields[i].1);
    FrontSecurity.SanitizedTextSafe(Some(t), FrontSecurity.MaxTextLength);
  }
}
