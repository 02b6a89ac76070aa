/** The checksum, hash and text helpers of the tools page: `crc32`, `identifyHash`,
    `findTextDifferences` and the text-processing cases of `executeTool`. */
module ToolsText {
  import opened Text
  import opened Wrappers
  import opened Js

  // crc32

  /** One step of a checksum loop: the new 32-bit register after one code unit. JavaScript's
      `>>>`, `^` and `&` act on the 32 bits of their operands, which `bv32` models exactly. */
  type Step = (bv32, CodeUnit) -> bv32

  /** A code unit as the 32 bits `charCodeAt` contributes to a bitwise operator. */
  function Unit(c: CodeUnit): bv32 { c as bv32 }

  /** XOR of two registers. */
  function Xor(a: bv32, b: bv32): bv32 { a ^ b }

  /** The loop body of `crc32` as written: the low byte of register and character is XORed
      in directly, without the CRC table. */
  function AsWrittenStep(crc: bv32, x: bv32): bv32
  {
    Xor(crc >> 8, (crc ^ x) & 0xFF)
  }

  function StepAsWritten(crc: bv32, c: CodeUnit): bv32 { AsWrittenStep(crc, Unit(c)) }

  /** One shift of the reflected CRC-32 register with the polynomial 0xEDB88320. */
  function Round(v: bv32): bv32
  {
    if v & 1 == 1 then 0xEDB8_8320 ^ (v >> 1) else v >> 1
  }

  /** `f` applied `k` times. */
  function Iterate(f: bv32 -> bv32, v: bv32, k: nat): bv32
    decreases k
  {
    if k == 0 then v else Iterate(f, f(v), k - 1)
  }

  /** One shift per bit of a byte. */
  const ByteRounds: nat := 8

  /** The entry of the CRC-32 table for the byte `n`. */
  function Table(n: bv32): bv32 { Iterate(Round, n, ByteRounds) }

  /** The table-driven CRC-32 step (`(crc >>> 8) ^ table[(crc ^ c) & 0xFF]`). */
  function TableStep(crc: bv32, x: bv32): bv32
  {
    Xor(crc >> 8, Table((crc ^ x) & 0xFF))
  }

  function StepTable(crc: bv32, c: CodeUnit): bv32 { TableStep(crc, Unit(c)) }

  /** The bit-at-a-time CRC-32 step: XOR the byte into the register, then eight shifts. */
  function BitwiseStep(crc: bv32, x: bv32): bv32
  {
    Iterate(Round, Xor(crc, x & 0xFF), ByteRounds)
  }

  function StepBitwise(crc: bv32, c: CodeUnit): bv32 { BitwiseStep(crc, Unit(c)) }

  /** The register after the loop has consumed `s`, starting from `0 ^ (-1)`. */
  function Register(s: JsString, step: Step): bv32
  {
    if |s| == 0 then 0xFFFF_FFFF else step(Register(s[..|s| - 1], step), s[|s| - 1])
  }

  /** `(crc ^ (-1)) >>> 0`: the complemented register as an unsigned number. */
  function Finish(r: bv32): (n: nat)
    ensures n < 0x1_0000_0000
  {
    (r ^ 0xFFFF_FFFF) as int
  }

  /** `crc32` as written. */
  function Crc32AsWritten(s: JsString): (n: nat)
    ensures n < 0x1_0000_0000
  {
    Finish(Register(s, StepAsWritten))
  }

  /** The CRC-32 checksum the tool is labelled with, computed with the table. */
  function Crc32(s: JsString): (n: nat)
    ensures n < 0x1_0000_0000
  {
    Finish(Register(s, StepTable))
  }

  /** The loop of `crc32`, for a given loop body. */
  method Crc32Loop(str: JsString, step: Step) returns (n: nat)
    ensures n == Finish(Register(str, step))
  {
    var crc: bv32 := 0xFFFF_FFFF;
    var i := 0;
    while i < |str|
      invariant 0 <= i <= |str|
      invariant crc == Register(str[..i], step)
    {
      assert str[..i + 1][..i] == str[..i];
      crc := step(crc, str[i]);
      i := i + 1;
    }
    assert str[..i] == str;
    n := Finish(crc);
  }

  /** The checksum the tools page shows: `crc32` as written, whose loop never uses the table. */
  method Crc32ChecksumAsWritten(str: JsString) returns (n: nat)
    ensures n == Crc32AsWritten(str)
  {
    n := Crc32Loop(str, StepAsWritten);
  }

  /** The checksum with the CRC table in the loop, as evidently intended. */
  method Crc32Checksum(str: JsString) returns (n: nat)
    ensures n == Crc32(str)
  {
    n := Crc32Loop(str, StepTable);
  }

  lemma RegisterSnoc(s: JsString, k: nat, step: Step)
    requires k < |s|
    ensures Register(s[..k + 1], step) == step(Register(s[..k], step), s[k])
  {
    assert s[..k + 1][..k] == s[..k];
  }

  /** Both loops give 0 for the empty string. */
  lemma Crc32Empty()
    ensures Crc32([]) == 0 && Crc32AsWritten([]) == 0
  {
  }

  // The table-driven step is the bitwise one: a shift is linear over GF(2), and eight shifts
  // of a register whose low byte is zero only move it down by a byte.

  ghost predicate Linear(f: bv32 -> bv32)
  {
    forall a: bv32, b: bv32 {:trigger f(Xor(a, b))} :: f(Xor(a, b)) == Xor(f(a), f(b))
  }

  ghost predicate HalvesEven(f: bv32 -> bv32)
  {
    forall g: bv32 :: g & 1 != 1 ==> f(g) == g >> 1
  }

  lemma {:induction false} IterateXor(f: bv32 -> bv32, a: bv32, b: bv32, k: nat)
    requires Linear(f)
    ensures Iterate(f, Xor(a, b), k) == Xor(Iterate(f, a, k), Iterate(f, b, k))
    decreases k
  {
    if k > 0 {
      assert f(Xor(a, b)) == Xor(f(a), f(b));
      IterateXor(f, f(a), f(b), k - 1);
    }
  }

  lemma ShiftsOfHigh(h: bv32)
    requires h & 0xFF == 0
    ensures h & 1 != 1 && (h >> 1) & 1 != 1 && (h >> 2) & 1 != 1 && (h >> 3) & 1 != 1
    ensures (h >> 4) & 1 != 1 && (h >> 5) & 1 != 1 && (h >> 6) & 1 != 1 && (h >> 7) & 1 != 1
    ensures (h >> 1) >> 1 == h >> 2 && (h >> 2) >> 1 == h >> 3 && (h >> 3) >> 1 == h >> 4
    ensures (h >> 4) >> 1 == h >> 5 && (h >> 5) >> 1 == h >> 6 && (h >> 6) >> 1 == h >> 7
    ensures (h >> 7) >> 1 == h >> 8
  {
  }

  lemma IterateHigh(f: bv32 -> bv32, h: bv32)
    requires HalvesEven(f) && h & 0xFF == 0
    ensures Iterate(f, h, ByteRounds) == h >> 8
  {
    assert ByteRounds == 8;
    ShiftsOfHigh(h);
    assert f(h) == h >> 1;
    assert f(h >> 1) == h >> 2;
    assert f(h >> 2) == h >> 3;
    assert f(h >> 3) == h >> 4;
    assert f(h >> 4) == h >> 5;
    assert f(h >> 5) == h >> 6;
    assert f(h >> 6) == h >> 7;
    assert f(h >> 7) == h >> 8;
  }

  lemma XorCommutes(a: bv32, b: bv32)
    ensures Xor(a, b) == Xor(b, a)
  {
  }

  lemma IterateSplit(f: bv32 -> bv32, lo: bv32, hi: bv32)
    requires Linear(f) && HalvesEven(f) && hi & 0xFF == 0
    ensures Iterate(f, Xor(lo, hi), ByteRounds) == Xor(hi >> 8, Iterate(f, lo, ByteRounds))
  {
    IterateXor(f, lo, hi, ByteRounds);
    IterateHigh(f, hi);
    XorCommutes(hi >> 8, Iterate(f, lo, ByteRounds));
  }

  /** The register splits into the byte the table looks up and the bytes shifted down. */
  lemma SplitRegister(crc: bv32, x: bv32)
    ensures Xor(crc, x & 0xFF) == Xor((crc ^ x) & 0xFF, crc & 0xFFFF_FF00)
    ensures (crc & 0xFFFF_FF00) & 0xFF == 0
    ensures (crc & 0xFFFF_FF00) >> 8 == crc >> 8
  {
  }

  lemma RoundOdd(v: bv32)
    requires v & 1 == 1
    ensures Round(v) == 0xEDB8_8320 ^ (v >> 1)
  {
  }

  lemma RoundEven(v: bv32)
    requires v & 1 != 1
    ensures Round(v) == v >> 1
  {
  }

  /** The bit facts behind the linearity of a shift, one lemma per pair of low bits. */
  lemma ShiftOddOdd(a: bv32, b: bv32)
    requires a & 1 == 1 && b & 1 == 1
    ensures (a ^ b) & 1 != 1 && (0xEDB8_8320 ^ (a >> 1)) ^ (0xEDB8_8320 ^ (b >> 1)) == (a ^ b) >> 1
  {
  }

  lemma ShiftOddEven(a: bv32, b: bv32)
    requires a & 1 == 1 && b & 1 != 1
    ensures (a ^ b) & 1 == 1 && (0xEDB8_8320 ^ (a >> 1)) ^ (b >> 1) == 0xEDB8_8320 ^ ((a ^ b) >> 1)
  {
  }

  lemma ShiftEvenEven(a: bv32, b: bv32)
    requires a & 1 != 1 && b & 1 != 1
    ensures (a ^ b) & 1 != 1 && (a >> 1) ^ (b >> 1) == (a ^ b) >> 1
  {
  }

  lemma RoundXorOddOdd(a: bv32, b: bv32)
    requires a & 1 == 1 && b & 1 == 1
    ensures Round(a ^ b) == Round(a) ^ Round(b)
  {
    ShiftOddOdd(a, b);
    RoundOdd(a);
    RoundOdd(b);
    RoundEven(a ^ b);
  }

  lemma RoundXorOddEven(a: bv32, b: bv32)
    requires a & 1 == 1 && b & 1 != 1
    ensures Round(a ^ b) == Round(a) ^ Round(b)
  {
    ShiftOddEven(a, b);
    RoundOdd(a);
    RoundEven(b);
    RoundOdd(a ^ b);
  }

  lemma RoundXorEvenEven(a: bv32, b: bv32)
    requires a & 1 != 1 && b & 1 != 1
    ensures Round(a ^ b) == Round(a) ^ Round(b)
  {
    ShiftEvenEven(a, b);
    RoundEven(a);
    RoundEven(b);
    RoundEven(a ^ b);
  }

  lemma BvXorCommutes(a: bv32, b: bv32)
    ensures a ^ b == b ^ a
  {
  }

  lemma RoundXor(a: bv32, b: bv32)
    ensures Round(a ^ b) == Round(a) ^ Round(b)
  {
    if a & 1 == 1 {
      if b & 1 == 1 { RoundXorOddOdd(a, b); } else { RoundXorOddEven(a, b); }
    } else if b & 1 == 1 {
      RoundXorOddEven(b, a);
      BvXorCommutes(a, b);
      BvXorCommutes(Round(a), Round(b));
    } else {
      RoundXorEvenEven(a, b);
    }
  }

  /** A shift of the CRC-32 register is linear, and halves an even register. */
  lemma RoundLinear()
    ensures Linear(Round) && HalvesEven(Round)
  {
    forall a: bv32, b: bv32 ensures Round(Xor(a, b)) == Xor(Round(a), Round(b)) {
      RoundXor(a, b);
    }
    forall g: bv32 | g & 1 != 1 ensures Round(g) == g >> 1 {
      RoundEven(g);
    }
  }

  lemma IterateStep(f: bv32 -> bv32, crc: bv32, x: bv32)
    requires Linear(f) && HalvesEven(f)
    ensures Xor(crc >> 8, Iterate(f, (crc ^ x) & 0xFF, ByteRounds)) == Iterate(f, Xor(crc, x & 0xFF), ByteRounds)
  {
    SplitRegister(crc, x);
    IterateSplit(f, (crc ^ x) & 0xFF, crc & 0xFFFF_FF00);
  }

  lemma TableStepBitwise(crc: bv32, x: bv32)
    requires Linear(Round) && HalvesEven(Round)
    ensures TableStep(crc, x) == BitwiseStep(crc, x)
  {
    IterateStep(Round, crc, x);
  }

  /** The table-driven step is the bit-at-a-time CRC-32 step. */
  lemma StepTableBitwise(crc: bv32, c: CodeUnit)
    ensures StepTable(crc, c) == StepBitwise(crc, c)
  {
    RoundLinear();
    TableStepBitwise(crc, Unit(c));
  }

  /** The table-driven checksum is the bit-at-a-time CRC-32 of the low bytes of the code
      units (CRC-32 with the reflected polynomial 0xEDB88320, initial value and final XOR
      0xFFFFFFFF). */
  lemma {:induction false} Crc32Bitwise(s: JsString)
    ensures Register(s, StepTable) == Register(s, StepBitwise)
    decreases |s|
  {
    if |s| > 0 {
      Crc32Bitwise(s[..|s| - 1]);
      StepTableBitwise(Register(s[..|s| - 1], StepTable), s[|s| - 1]);
    }
  }

  // crc32 as written

  lemma TopByteClear(crc: bv32, x: bv32)
    ensures AsWrittenStep(crc, x) >> 24 == 0
  {
  }

  lemma TopTwoBytesClear(crc: bv32, x: bv32)
    requires crc >> 24 == 0
    ensures AsWrittenStep(crc, x) >> 16 == 0
  {
  }

  lemma TopThreeBytesClear(crc: bv32, x: bv32)
    requires crc >> 16 == 0 || crc >> 8 == 0
    ensures AsWrittenStep(crc, x) >> 8 == 0
  {
  }

  /** After a step as written the top byte of the register is zero, after two steps the top
      two bytes, after three the top three, and they stay zero: from then on only the low
      byte varies. */
  lemma {:induction false} AsWrittenLowByte(s: JsString)
    requires |s| >= 3
    ensures Register(s, StepAsWritten) >> 8 == 0
    decreases |s|
  {
    var n := |s|;
    var p := s[..n - 1];
    assert s[..n] == s;
    if n > 3 {
      AsWrittenLowByte(p);
    } else {
      RegisterSnoc(s, 0, StepAsWritten);
      RegisterSnoc(s, 1, StepAsWritten);
      TopByteClear(Register(s[..0], StepAsWritten), Unit(s[0]));
      TopTwoBytesClear(Register(s[..1], StepAsWritten), Unit(s[1]));
      assert p == s[..2];
    }
    TopThreeBytesClear(Register(p, StepAsWritten), Unit(s[n - 1]));
  }

  lemma LowByteBound(r: bv32)
    requires r >> 8 == 0
    ensures Finish(r) >= 0xFFFF_FF00
  {
  }

  /** So `crc32` as written maps every string of three or more code units to one of only
      256 values, all at least 0xFFFFFF00. */
  lemma AsWrittenRange(s: JsString)
    requires |s| >= 3
    ensures 0xFFFF_FF00 <= Crc32AsWritten(s)
  {
    AsWrittenLowByte(s);
    LowByteBound(Register(s, StepAsWritten));
  }

  // The CRC-32 check value

  /** The CRC-32 check input "123456789". */
  const Check: seq<CodeUnit> := [49, 50, 51, 52, 53, 54, 55, 56, 57]

  lemma CheckIsDigits()
    ensures Check == Str("123456789")
  {
  }

  /** A table entry, by evaluating its eight shifts. */
  lemma TableAt(n: bv32, t: bv32)
    requires Iterate(Round, n, 8) == t
    ensures Table(n) == t
  {
    assert ByteRounds == 8;
  }

  lemma CheckUnits()
    ensures Unit(Check[0]) == 49 && Unit(Check[1]) == 50 && Unit(Check[2]) == 51
  {
  }

  lemma CheckUnitsMiddle()
    ensures Unit(Check[3]) == 52 && Unit(Check[4]) == 53 && Unit(Check[5]) == 54
  {
  }

  lemma CheckUnitsLast()
    ensures Unit(Check[6]) == 55 && Unit(Check[7]) == 56 && Unit(Check[8]) == 57
  {
  }

  lemma StepTableAt(s: JsString, k: nat, u: bv32, before: bv32, idx: bv32, t: bv32, after: bv32)
    requires k < |s| && Unit(s[k]) == u && Register(s[..k], StepTable) == before
    requires (before ^ u) & 0xFF == idx && Table(idx) == t && Xor(before >> 8, t) == after
    ensures Register(s[..k + 1], StepTable) == after
  {
    RegisterSnoc(s, k, StepTable);
  }

  lemma StepAsWrittenAt(s: JsString, k: nat, u: bv32, before: bv32, after: bv32)
    requires k < |s| && Unit(s[k]) == u && Register(s[..k], StepAsWritten) == before
    requires AsWrittenStep(before, u) == after
    ensures Register(s[..k + 1], StepAsWritten) == after
  {
    RegisterSnoc(s, k, StepAsWritten);
  }

  lemma CheckPrefix3()
    ensures Register(Check[..3], StepTable) == 0x77B7_9C2D
  {
    CheckUnits();
    TableAt(0xCE, 0x7CDC_EFB7);
    TableAt(0x7A, 0xB0D0_9822);
    TableAt(0x01, 0x7707_3096);
    StepTableAt(Check, 0, 49, 0xFFFF_FFFF, 0xCE, 0x7CDC_EFB7, 0x7C23_1048);
    StepTableAt(Check, 1, 50, 0x7C23_1048, 0x7A, 0xB0D0_9822, 0xB0AC_BB32);
    StepTableAt(Check, 2, 51, 0xB0AC_BB32, 0x01, 0x7707_3096, 0x77B7_9C2D);
  }

  lemma CheckPrefix6()
    ensures Register(Check[..6], StepTable) == 0xF68D_2C9E
  {
    CheckPrefix3();
    CheckUnitsMiddle();
    TableAt(0x19, 0x646B_A8C0);
    TableAt(0x69, 0x346E_D9FC);
    TableAt(0xD5, 0xF6B9_265B);
    StepTableAt(Check, 3, 52, 0x77B7_9C2D, 0x19, 0x646B_A8C0, 0x641C_1F5C);
    StepTableAt(Check, 4, 53, 0x641C_1F5C, 0x69, 0x346E_D9FC, 0x340A_C5E3);
    StepTableAt(Check, 5, 54, 0x340A_C5E3, 0xD5, 0xF6B9_265B, 0xF68D_2C9E);
  }

  lemma CheckPrefix9()
    ensures Register(Check[..9], StepTable) == 0x340B_C6D9
  {
    CheckPrefix6();
    CheckUnitsLast();
    TableAt(0xA9, 0xAF0A_1B4C);
    TableAt(0x58, 0x65B0_D9C6);
    TableAt(0x69, 0x346E_D9FC);
    StepTableAt(Check, 6, 55, 0xF68D_2C9E, 0xA9, 0xAF0A_1B4C, 0xAFFC_9660);
    StepTableAt(Check, 7, 56, 0xAFFC_9660, 0x58, 0x65B0_D9C6, 0x651F_2550);
    StepTableAt(Check, 8, 57, 0x651F_2550, 0x69, 0x346E_D9FC, 0x340B_C6D9);
  }

  /** The table-driven checksum of "123456789" is 0xCBF43926, the published check value of
      CRC-32. */
  lemma Crc32CheckValue()
    ensures Crc32(Check) == 0xCBF4_3926
  {
    CheckPrefix9();
    assert Check[..9] == Check;
  }

  lemma AsWrittenPrefix5()
    ensures Register(Check[..5], StepAsWritten) == 0x31
  {
    CheckUnits();
    CheckUnitsMiddle();
    StepAsWrittenAt(Check, 0, 49, 0xFFFF_FFFF, 0x00FF_FF31);
    StepAsWrittenAt(Check, 1, 50, 0x00FF_FF31, 0x0000_FFFC);
    StepAsWrittenAt(Check, 2, 51, 0x0000_FFFC, 0x30);
    StepAsWrittenAt(Check, 3, 52, 0x30, 0x04);
    StepAsWrittenAt(Check, 4, 53, 0x04, 0x31);
  }

  /** `crc32` as written gives 0xFFFFFFCE for "123456789" instead of 0xCBF43926. */
  lemma AsWrittenCheckValue()
    ensures Crc32AsWritten(Check) == 0xFFFF_FFCE
    ensures Crc32AsWritten(Check) != Crc32(Check)
  {
    AsWrittenPrefix5();
    CheckUnitsMiddle();
    CheckUnitsLast();
    StepAsWrittenAt(Check, 5, 54, 0x31, 0x07);
    StepAsWrittenAt(Check, 6, 55, 0x07, 0x30);
    StepAsWrittenAt(Check, 7, 56, 0x30, 0x08);
    StepAsWrittenAt(Check, 8, 57, 0x08, 0x31);
    assert Check[..9] == Check;
    Crc32CheckValue();
  }

  // identifyHash

  /** One line of `identifyHash`: reported when the input has a given length, or starts with
      a given prefix. */
  datatype HashRule = LengthIs(n: nat, line: JsString) | PrefixIs(prefix: JsString, line: JsString)

  predicate Matches(rule: HashRule, hash: JsString)
  {
    match rule
    case LengthIs(n, _) => |hash| == n
    case PrefixIs(p, _) => StartsWith(hash, p)
  }

  const HashHeader: JsString := Str("Possible hash types:\n")
  const UnknownHash: JsString := Str("Unknown hash format")
  const Md5Lines: JsString := Str("- MD5 (32 hex chars)\n- MD4 (32 hex chars)\n- NTLM (32 hex chars)\n")
  const Sha1Line: JsString := Str("- SHA1 (40 hex chars)\n")
  const Sha224Line: JsString := Str("- SHA224 (56 hex chars)\n")
  const Sha256Line: JsString := Str("- SHA256 (64 hex chars)\n")
  const Sha384Line: JsString := Str("- SHA384 (96 hex chars)\n")
  const Sha512Line: JsString := Str("- SHA512 (128 hex chars)\n")
  const Crc32Line: JsString := Str("- CRC32 (8 hex chars)\n")
  const BcryptPrefix: JsString := Str("$2")
  const BcryptLine: JsString := Str("- BCrypt\n")
  const ShaBase64Prefix: JsString := Str("{SHA}")
  const ShaBase64Line: JsString := Str("- SHA1 (Base64)\n")
  const Md5Base64Prefix: JsString := Str("{MD5}")
  const Md5Base64Line: JsString := Str("- MD5 (Base64)\n")

  /** The checks of `identifyHash`, in the order it makes them. */
  const HashRules: seq<HashRule> := [
    LengthIs(32, Md5Lines), LengthIs(40, Sha1Line), LengthIs(56, Sha224Line),
    LengthIs(64, Sha256Line), LengthIs(96, Sha384Line), LengthIs(128, Sha512Line),
    LengthIs(8, Crc32Line), PrefixIs(BcryptPrefix, BcryptLine),
    PrefixIs(ShaBase64Prefix, ShaBase64Line), PrefixIs(Md5Base64Prefix, Md5Base64Line)]

  /** The header followed by the lines of those of the first `k` rules that match, in rule
      order. */
  function Report(rules: seq<HashRule>, k: nat, hash: JsString): (r: JsString)
    requires k <= |rules|
  {
    if k == 0 then HashHeader
    else if Matches(rules[k - 1], hash) then Report(rules, k - 1, hash) + rules[k - 1].line
    else Report(rules, k - 1, hash)
  }

  /** `identifyHash`: the header and the lines of every matching rule; the fallback to
      "Unknown hash format" applies only to an empty result. */
  function IdentifyHash(hash: JsString): JsString
  {
    var result := Report(HashRules, |HashRules|, hash);
    if |result| == 0 then UnknownHash else result
  }

  /** The body of `identifyHash`, one check after the other. */
  method IdentifyHashChecks(hash: JsString) returns (result: JsString)
    ensures result == IdentifyHash(hash)
  {
    result := LengthChecks(hash);
    result := PrefixChecks(hash, result);
    if |result| == 0 {
      result := UnknownHash;
    }
  }

  /** The header and the checks on the length, the first seven rules. */
  method LengthChecks(hash: JsString) returns (result: JsString)
    ensures result == Report(HashRules, 7, hash)
  {
    var length := |hash|;
    result := HashHeader;
    if length == 32 { result := result + Md5Lines; }
    assert result == Report(HashRules, 1, hash);
    if length == 40 { result := result + Sha1Line; }
    assert result == Report(HashRules, 2, hash);
    if length == 56 { result := result + Sha224Line; }
    assert result == Report(HashRules, 3, hash);
    if length == 64 { result := result + Sha256Line; }
    assert result == Report(HashRules, 4, hash);
    if length == 96 { result := result + Sha384Line; }
    assert result == Report(HashRules, 5, hash);
    if length == 128 { result := result + Sha512Line; }
    assert result == Report(HashRules, 6, hash);
    if length == 8 { result := result + Crc32Line; }
  }

  /** The checks on the prefix, the last three rules. */
  method PrefixChecks(hash: JsString, r0: JsString) returns (result: JsString)
    requires r0 == Report(HashRules, 7, hash)
    ensures result == Report(HashRules, 10, hash)
  {
    result := r0;
    if StartsWith(hash, BcryptPrefix) { result := result + BcryptLine; }
    assert result == Report(HashRules, 8, hash);
    if StartsWith(hash, ShaBase64Prefix) { result := result + ShaBase64Line; }
    assert result == Report(HashRules, 9, hash);
    if StartsWith(hash, Md5Base64Prefix) { result := result + Md5Base64Line; }
  }

  /** Every report starts with the header. */
  lemma {:induction false} ReportStartsWithHeader(rules: seq<HashRule>, k: nat, hash: JsString)
    requires k <= |rules|
    ensures StartsWith(Report(rules, k, hash), HashHeader)
  {
    if k > 0 {
      ReportStartsWithHeader(rules, k - 1, hash);
      var front := Report(rules, k - 1, hash);
      if Matches(rules[k - 1], hash) {
        assert (front + rules[k - 1].line)[..|HashHeader|] == front[..|HashHeader|];
      }
    }
  }

  /** When only rule `j` among the first `k` matches, its line is all the header is followed by. */
  lemma {:induction false} ReportOnly(rules: seq<HashRule>, k: nat, hash: JsString, j: nat)
    requires j < k <= |rules|
    requires forall i | 0 <= i < k && i != j :: !Matches(rules[i], hash)
    ensures Report(rules, k, hash) == if Matches(rules[j], hash) then HashHeader + rules[j].line else HashHeader
  {
    if j < k - 1 {
      ReportOnly(rules, k - 1, hash, j);
    } else {
      ReportNone(rules, k - 1, hash);
    }
  }

  /** When none of the first `k` rules matches, the report is the header alone. */
  lemma {:induction false} ReportNone(rules: seq<HashRule>, k: nat, hash: JsString)
    requires k <= |rules|
    requires forall i | 0 <= i < k :: !Matches(rules[i], hash)
    ensures Report(rules, k, hash) == HashHeader
  {
    if k > 0 {
      ReportNone(rules, k - 1, hash);
    }
  }

  /** The result always starts with the header, so "Unknown hash format" is never returned. */
  lemma IdentifyHashNeverUnknown(hash: JsString)
    ensures IdentifyHash(hash) != UnknownHash
    ensures StartsWith(IdentifyHash(hash), HashHeader)
  {
    ReportStartsWithHeader(HashRules, |HashRules|, hash);
    assert UnknownHash[0] == 'U' as int;
  }

  /** Without a `$` or `{` in front, none of the prefix rules match. */
  lemma NoPrefixRule(hash: JsString)
    requires |hash| == 0 || (hash[0] != '$' as int && hash[0] != '{' as int)
    ensures forall k | 7 <= k < |HashRules| :: !Matches(HashRules[k], hash)
  {
    assert BcryptPrefix[0] == '$' as int && ShaBase64Prefix[0] == '{' as int && Md5Base64Prefix[0] == '{' as int;
  }

  /** A 64-character input that starts with none of the prefixes is reported as SHA-256 only:
      the length checks are exclusive. */
  lemma IdentifySha256(hash: JsString)
    requires |hash| == 64 && hash[0] != '$' as int && hash[0] != '{' as int
    ensures IdentifyHash(hash) == HashHeader + Sha256Line
  {
    NoPrefixRule(hash);
    ReportOnly(HashRules, |HashRules|, hash, 3);
  }

  /** A 32-character input is reported as MD5, MD4 and NTLM. */
  lemma IdentifyMd5(hash: JsString)
    requires |hash| == 32 && hash[0] != '$' as int && hash[0] != '{' as int
    ensures IdentifyHash(hash) == HashHeader + Md5Lines
  {
    NoPrefixRule(hash);
    ReportOnly(HashRules, |HashRules|, hash, 0);
  }

  /** A bcrypt hash (60 characters, starting with `$2`) is reported as BCrypt only. */
  lemma IdentifyBcrypt(hash: JsString)
    requires |hash| == 60 && StartsWith(hash, BcryptPrefix)
    ensures IdentifyHash(hash) == HashHeader + BcryptLine
  {
    assert hash[0] == '$' as int;
    assert !StartsWith(hash, ShaBase64Prefix) && !StartsWith(hash, Md5Base64Prefix);
    ReportOnly(HashRules, |HashRules|, hash, 7);
  }

  /** An input of none of the lengths and with none of the prefixes gets the header only. */
  lemma IdentifyNone(hash: JsString)
    requires |hash| !in {8, 32, 40, 56, 64, 96, 128}
    requires |hash| == 0 || (hash[0] != '$' as int && hash[0] != '{' as int)
    ensures IdentifyHash(hash) == HashHeader
  {
    NoPrefixRule(hash);
    ReportNone(HashRules, |HashRules|, hash);
  }

  // findTextDifferences

  const DiffHeader: JsString := Str("Text Differences:\n\n")
  const LinePrefix: JsString := Str("Line ")
  const Text1Prefix: JsString := Str(":\n- Text 1: ")
  const Text2Prefix: JsString := Str("\n+ Text 2: ")
  const EntryEnd: JsString := Str("\n\n")

  /** `lines[i] || ''`: the line, or the empty string past the end. */
  function LineAt(lines: seq<JsString>, i: nat): JsString
  {
    if i < |lines| then lines[i] else []
  }

  /** The report of one differing line (numbered from 1). */
  function DiffEntry(i: nat, line1: JsString, line2: JsString): (r: JsString)
    ensures |r| > 0
  {
    LinePrefix + Decimal(i + 1) + Text1Prefix + line1 + Text2Prefix + line2 + EntryEnd
  }

  /** The header followed by the entries of the differing lines among the first `n`. */
  function DiffReport(lines1: seq<JsString>, lines2: seq<JsString>, n: nat): JsString
  {
    if n == 0 then DiffHeader
    else
      var line1, line2 := LineAt(lines1, n - 1), LineAt(lines2, n - 1);
      if line1 != line2 then DiffReport(lines1, lines2, n - 1) + DiffEntry(n - 1, line1, line2)
      else DiffReport(lines1, lines2, n - 1)
  }

  function MaxLines(lines1: seq<JsString>, lines2: seq<JsString>): nat
  {
    if |lines1| >= |lines2| then |lines1| else |lines2|
  }

  /** `findTextDifferences` as a function of the two texts. */
  function TextDifferences(text1: JsString, text2: JsString): JsString
  {
    var lines1 := SplitOn(text1, 10);
    var lines2 := SplitOn(text2, 10);
    DiffReport(lines1, lines2, MaxLines(lines1, lines2))
  }

  /** The loop of `findTextDifferences`. */
  method FindTextDifferences(text1: JsString, text2: JsString) returns (result: JsString)
    ensures result == TextDifferences(text1, text2)
  {
    var lines1 := SplitOn(text1, 10);
    var lines2 := SplitOn(text2, 10);
    result := DiffHeader;
    var maxLines := MaxLines(lines1, lines2);
    var i := 0;
    while i < maxLines
      invariant 0 <= i <= maxLines
      invariant result == DiffReport(lines1, lines2, i)
    {
      var line1 := LineAt(lines1, i);
      var line2 := LineAt(lines2, i);
      if line1 != line2 {
        result := result + DiffEntry(i, line1, line2);
      }
      i := i + 1;
    }
  }

  /** The report never shrinks below the header, and it is the header alone exactly when the
      lines agree up to `n`. */
  lemma {:induction false} DiffReportNone(lines1: seq<JsString>, lines2: seq<JsString>, n: nat)
    ensures |DiffReport(lines1, lines2, n)| >= |DiffHeader|
    ensures DiffReport(lines1, lines2, n) == DiffHeader <==> forall i | 0 <= i < n :: LineAt(lines1, i) == LineAt(lines2, i)
    decreases n
  {
    if n > 0 {
      DiffReportNone(lines1, lines2, n - 1);
      var line1, line2 := LineAt(lines1, n - 1), LineAt(lines2, n - 1);
      if line1 != line2 {
        assert |DiffReport(lines1, lines2, n)| > |DiffHeader|;
      }
    }
  }

  /** The report is the bare header exactly when every line agrees, a missing line counting as
      an empty one. */
  lemma {:induction false} TextDifferencesNone(text1: JsString, text2: JsString)
    ensures TextDifferences(text1, text2) == DiffHeader <==>
      var lines1, lines2 := SplitOn(text1, 10), SplitOn(text2, 10);
      forall i | 0 <= i < MaxLines(lines1, lines2) :: LineAt(lines1, i) == LineAt(lines2, i)
  {
    var lines1, lines2 := SplitOn(text1, 10), SplitOn(text2, 10);
    assert TextDifferences(text1, text2) == DiffReport(lines1, lines2, MaxLines(lines1, lines2));
    DiffReportNone(lines1, lines2, MaxLines(lines1, lines2));
  }

  /** Identical texts have no differences. */
  lemma {:induction false} TextDifferencesSame(text: JsString)
    ensures TextDifferences(text, text) == DiffHeader
  {
    TextDifferencesNone(text, text);
  }

  /** A trailing line break makes no difference: the extra line is empty, and a missing line
      compares as the empty string. */
  lemma {:induction false} TextDifferencesTrailingBreak(text: JsString)
    ensures TextDifferences(text + [10], text) == DiffHeader
  {
    var lines := SplitOn(text, 10);
    SplitTrailingBreak(text);
    var longer := SplitOn(text + [10], 10);
    forall i | 0 <= i < MaxLines(longer, lines) ensures LineAt(longer, i) == LineAt(lines, i) {
      if i < |lines| {
        assert longer[i] == lines[i];
      }
    }
    TextDifferencesNone(text + [10], text);
  }

  /** A trailing line break adds one empty line. */
  lemma {:induction false} SplitTrailingBreak(text: JsString)
    ensures SplitOn(text + [10], 10) == SplitOn(text, 10) + [[]]
  {
    var lines := SplitOn(text, 10);
    JoinSplitOn(text, 10);
    JoinAppend(lines, [], [10]);
    assert Join(lines + [[]], [10]) == text + [10];
    SplitOnJoin(lines + [[]], 10);
  }
}
