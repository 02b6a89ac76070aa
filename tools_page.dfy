/** `executeTool` of the tools page: one switch from the tool's id to a transformation of the
    input, whose result (or `Error: ` and the message of what it threw) becomes the output. */
module ToolsPage {
  import opened Text
  import opened Wrappers
  import opened Js
  import CaesarTool
  import Rot13Tool
  import HexTool
  import BinaryTool
  import AsciiTool
  import Morse
  import ToolsCiphers
  import ToolsText
  import TextCases
  import WordFrequency
  import GrepLines

  /** The ids the switch knows, by the section of the switch they appear in, and `Unlisted`
      for every other id. */
  datatype Tool = Coding(coding: CodingTool) | Crypto(crypto: CryptoTool) | Hash(hash: HashTool)
                | Processing(processing: TextTool) | Unlisted

  /** The "Encoding/Decoding" section. */
  datatype CodingTool =
    | Base64Encode | Base64Decode | UrlEncode | UrlDecode | HtmlEncode | HtmlDecode
    | HexEncode | HexDecode | BinaryEncode | BinaryDecode | AsciiEncode | AsciiDecode

  /** The "Cryptographic" section. */
  datatype CryptoTool =
    | CaesarCipher | Rot13 | Rot47 | VigenereEncrypt | VigenereDecrypt | AtbashCipher
    | MorseEncode | MorseDecode | ReverseText | XorCipher | BaconCipher

  /** The "Hash functions" section. */
  datatype HashTool =
    | Md5Hash | Md4Hash | Sha1Hash | Sha256Hash | Sha512Hash | Crc32Hash | NtlmHash | BcryptHash
    | HashIdentifier

  /** The "Text processing" section. */
  datatype TextTool =
    | CaseConverter | TextLength | RemoveWhitespace | SortLines | UniqueLines | GrepTool | TextDiff
    | WordFrequencyTool

  /** What the cases call and this model does not define. A `Failure` carries the message of
      the error the call throws.
      - `base64Encode`: `btoa(unescape(encodeURIComponent(input)))`;
      - `base64Decode`: `decodeURIComponent(escape(atob(input)))`;
      - `urlEncode`, `urlDecode`: `encodeURIComponent`, `decodeURIComponent`;
      - `md5`, `sha1`, `sha256`, `sha512`: the CryptoJS digests, as lower-case hex;
      - `md4`: `CryptoJS.MD4` when the library has it;
      - `md4Utf16`: `CryptoJS.MD4(CryptoJS.enc.Utf16LE.parse(input)).toString()`;
      - `missingMd4`: the message of calling `CryptoJS.MD4` when it is undefined;
      - `grepRegex`: `new RegExp(pattern, 'gi')`, as the search it compiles to, or the message
        of the `SyntaxError` it throws. */
  datatype Library = Library(
    base64Encode: JsString -> Result<JsString, JsString>,
    base64Decode: JsString -> Result<JsString, JsString>,
    urlEncode: JsString -> Result<JsString, JsString>,
    urlDecode: JsString -> Result<JsString, JsString>,
    md5: JsString -> JsString,
    md4: Option<JsString -> JsString>,
    md4Utf16: JsString -> JsString,
    missingMd4: JsString,
    sha1: JsString -> JsString,
    sha256: JsString -> JsString,
    sha512: JsString -> JsString,
    grepRegex: JsString -> Result<GrepLines.Search, JsString>)

  const NotImplemented: JsString := Str("Tool not implemented yet")
  const Md4Unavailable: JsString := Str("MD4 not available")
  const NtlmPrefix: JsString := Str("NTLM: ")
  const BcryptNotice: JsString := Str("BCrypt hash generation requires backend processing")
  const ErrorPrefix: JsString := Str("Error: ")

  // The inline hex and binary cases, which differ from the hex and binary tools

  /** `hex-encode`: the two-digit (or longer) lower-case hex groups, joined without a
      separator. */
  function HexEncodeInline(input: JsString): JsString
  {
    Join(HexTool.Groups(input), [])
  }

  /** `hex-decode`: `/.{1,2}/g` chunks of the raw input, each read with `parseInt(hex, 16)`;
      no match gives `''`. */
  function HexDecodeInline(input: JsString): (r: JsString)
    ensures |r| == |DotChunks(input, 2)|
  {
    var chunks := DotChunks(input, 2);
    seq(|chunks|, k requires 0 <= k < |chunks| => HexTool.ChunkValue(chunks[k]))
  }

  /** `binary-decode`: the white-space separated tokens, each read with `parseInt(bin, 2)`. */
  function BinaryDecodeInline(input: JsString): (r: JsString)
    ensures |r| == |SplitWs(input)|
  {
    var tokens := SplitWs(input);
    seq(|tokens|, k requires 0 <= k < |tokens| => BinaryTool.ChunkValue(tokens[k]))
  }

  /** The `hex-decode` case reads back what `hex-encode` prints for any string of codes below
      256, the empty one included. */
  lemma HexInlineRoundTrip(x: JsString)
    requires forall k | 0 <= k < |x| :: x[k] < 256
    ensures HexDecodeInline(HexEncodeInline(x)) == x
  {
    var gs := HexTool.Groups(x);
    HexGroupsOfLatin1(x);
    HexPairs(gs);
  }

  lemma HexGroupsOfLatin1(x: JsString)
    requires forall k | 0 <= k < |x| :: x[k] < 256
    ensures var gs := HexTool.Groups(x);
      |gs| == |x| && forall k | 0 <= k < |gs| ::
        |gs[k]| == 2 && NoLineTerminator(gs[k]) && HexTool.ChunkValue(gs[k]) == x[k]
  {
    Latin1NoSurrogatePair(x);
    var gs := HexTool.Groups(x);
    forall k | 0 <= k < |gs| ensures |gs[k]| == 2 && NoLineTerminator(gs[k]) && HexTool.ChunkValue(gs[k]) == x[k] {
      assert gs[k] == HexTool.HexGroup(x[k]);
      HexTool.ByteGroup(x[k]);
    }
  }

  lemma HexPairs(gs: seq<JsString>)
    requires forall k | 0 <= k < |gs| :: |gs[k]| == 2 && NoLineTerminator(gs[k])
    ensures var r := HexDecodeInline(Join(gs, []));
      |r| == |gs| && forall k | 0 <= k < |gs| :: r[k] == HexTool.ChunkValue(gs[k])
  {
    DotChunksOfPieces(gs, 2);
  }

  /** The `binary-decode` case reads back what `binary-encode` prints for a non-empty string
      of codes below 256. */
  lemma BinaryInlineRoundTrip(x: JsString)
    requires |x| > 0 && forall k | 0 <= k < |x| :: x[k] < 256
    ensures BinaryDecodeInline(BinaryTool.Encode(x)) == x
  {
    var gs := BinaryTool.Groups(x);
    BinaryGroupsOfLatin1(x);
    BinaryTool.EncodeShape(x);
    SplitWsJoin(gs);
  }

  lemma BinaryGroupsOfLatin1(x: JsString)
    requires forall k | 0 <= k < |x| :: x[k] < 256
    ensures var gs := BinaryTool.Groups(x);
      |gs| == |x| && forall k | 0 <= k < |gs| ::
        |gs[k]| > 0 && NoSpace(gs[k]) && BinaryTool.ChunkValue(gs[k]) == x[k]
  {
    Latin1NoSurrogatePair(x);
    var gs := BinaryTool.Groups(x);
    forall k | 0 <= k < |gs| ensures |gs[k]| > 0 && NoSpace(gs[k]) && BinaryTool.ChunkValue(gs[k]) == x[k] {
      assert gs[k] == BinaryTool.BinaryGroup(x[k]);
      BinaryGroupOfByte(x[k]);
    }
  }

  lemma {:induction false} BinaryGroupOfByte(c: CodeUnit)
    ensures var g := BinaryTool.BinaryGroup(c);
      |g| > 0 && NoSpace(g) && BinaryTool.ChunkValue(g) == c
  {
    var g := BinaryTool.BinaryGroup(c);
    BitsNoSpace(g);
    assert BinaryTool.ChunkValue(g) == FromCharCode(Some(c));
  }

  lemma BitsNoSpace(g: JsString)
    requires forall j | 0 <= j < |g| :: BinaryTool.IsBit(g[j])
    ensures NoSpace(g)
  {
  }

  // The switch

  /** The result of the `try` block: the value assigned to `result`, or the message of what
      the case threw. */
  function Run(tool: Tool, input: JsString, key: JsString, shift: int, input2: JsString,
               pattern: JsString, lib: Library): Result<JsString, JsString>
  {
    match tool
    case Coding(c) => RunCoding(c, input, lib)
    case Crypto(c) => Success(RunCrypto(c, input, key, shift))
    case Hash(h) => RunHash(h, input, lib)
    case Processing(t) => RunText(t, input, input2, pattern, lib)
    case Unlisted => Success(NotImplemented)
  }

  function RunCoding(tool: CodingTool, input: JsString, lib: Library): Result<JsString, JsString>
  {
    match tool
    case Base64Encode => lib.base64Encode(input)
    case Base64Decode => lib.base64Decode(input)
    case UrlEncode => lib.urlEncode(input)
    case UrlDecode => lib.urlDecode(input)
    case HtmlEncode => Success(ToolsCiphers.HtmlEncode(input))
    case HtmlDecode => Success(ToolsCiphers.HtmlDecode(input))
    case HexEncode => Success(HexEncodeInline(input))
    case HexDecode => Success(HexDecodeInline(input))
    case BinaryEncode => Success(BinaryTool.Encode(input))
    case BinaryDecode => Success(BinaryDecodeInline(input))
    case AsciiEncode => Success(AsciiTool.Encode(input))
    case AsciiDecode => Success(AsciiTool.Decode(input))
  }

  /** None of the cipher cases throws. */
  function RunCrypto(tool: CryptoTool, input: JsString, key: JsString, shift: int): JsString
  {
    match tool
    case CaesarCipher => CaesarTool.ExecuteCaesarTool(input, shift)
    case Rot13 => Rot13Tool.ExecuteRot13Tool(input)
    case Rot47 => ToolsCiphers.Rot47(input)
    case VigenereEncrypt => ToolsCiphers.Vigenere(input, key, true)
    case VigenereDecrypt => ToolsCiphers.Vigenere(input, key, false)
    case AtbashCipher => ToolsCiphers.Atbash(input)
    case MorseEncode => Morse.TextToMorse(input)
    case MorseDecode => Morse.MorseToText(input)
    case ReverseText => Reverse(input)
    case XorCipher => ToolsCiphers.Xor(input, key)
    case BaconCipher => ToolsCiphers.Bacon(input)
  }

  function RunHash(tool: HashTool, input: JsString, lib: Library): Result<JsString, JsString>
  {
    match tool
    case Md5Hash => Success(lib.md5(input))
    case Md4Hash => Success(if lib.md4.Some? then lib.md4.value(input) else Md4Unavailable)
    case Sha1Hash => Success(lib.sha1(input))
    case Sha256Hash => Success(lib.sha256(input))
    case Sha512Hash => Success(lib.sha512(input))
    case Crc32Hash => Success(ToStringRadix(ToolsText.Crc32AsWritten(input), 16))
    case NtlmHash =>
      if lib.md4.Some? then Success(NtlmPrefix + ToUpper(lib.md4Utf16(input))) else Failure(lib.missingMd4)
    case BcryptHash => Success(BcryptNotice)
    case HashIdentifier => Success(ToolsText.IdentifyHash(input))
  }

  function RunText(tool: TextTool, input: JsString, input2: JsString, pattern: JsString,
                   lib: Library): Result<JsString, JsString>
  {
    match tool
    case CaseConverter => Success(TextCases.CaseConverter(input))
    case TextLength => Success(TextCases.TextLength(input))
    case RemoveWhitespace => Success(TextCases.RemoveWhitespace(input))
    case SortLines => Success(TextCases.SortLines(input))
    case UniqueLines => Success(TextCases.UniqueLines(input))
    case GrepTool => GrepLines.Output(lib.grepRegex, pattern, input)
    case TextDiff => Success(ToolsText.TextDifferences(input, input2))
    case WordFrequencyTool => Success(WordFrequency.WordFrequencyReport(input))
  }

  /** What `setToolOutput` receives: the result, or `Error: ${error.message}`. */
  function ToolOutput(tool: Tool, input: JsString, key: JsString, shift: int, input2: JsString,
                      pattern: JsString, lib: Library): (out: JsString)
    ensures Run(tool, input, key, shift, input2, pattern, lib).Failure? ==>
      out == ErrorPrefix + Run(tool, input, key, shift, input2, pattern, lib).error
  {
    match Run(tool, input, key, shift, input2, pattern, lib)
    case Success(result) => result
    case Failure(message) => ErrorPrefix + message
  }

  /** Only the cases that call into a library can throw; every case this model defines
      completes with its result. */
  predicate Foreign(tool: Tool)
  {
    tool in {Coding(Base64Encode), Coding(Base64Decode), Coding(UrlEncode), Coding(UrlDecode), Hash(NtlmHash),
              Processing(GrepTool)}
  }

  lemma LocalCasesComplete(tool: Tool, input: JsString, key: JsString, shift: int, input2: JsString,
                           pattern: JsString, lib: Library)
    requires !Foreign(tool)
    ensures Run(tool, input, key, shift, input2, pattern, lib).Success?
  {
  }

  /** An unknown id prints the fallback text. */
  lemma UnlistedTool(input: JsString, key: JsString, shift: int, input2: JsString, pattern: JsString, lib: Library)
    ensures ToolOutput(Unlisted, input, key, shift, input2, pattern, lib) == NotImplemented
  {
  }

  /** `html-decode` undoes `html-encode`. */
  lemma HtmlCasesInverse(x: JsString, key: JsString, shift: int, input2: JsString, pattern: JsString, lib: Library)
    ensures var encoded := ToolOutput(Coding(HtmlEncode), x, key, shift, input2, pattern, lib);
      ToolOutput(Coding(HtmlDecode), encoded, key, shift, input2, pattern, lib) == x
  {
    ToolsCiphers.HtmlRoundTrip(x);
  }

  /** `hex-decode` undoes `hex-encode` on codes below 256. */
  lemma HexCasesInverse(x: JsString, key: JsString, shift: int, input2: JsString, pattern: JsString, lib: Library)
    requires forall k | 0 <= k < |x| :: x[k] < 256
    ensures var encoded := ToolOutput(Coding(HexEncode), x, key, shift, input2, pattern, lib);
      ToolOutput(Coding(HexDecode), encoded, key, shift, input2, pattern, lib) == x
  {
    HexInlineRoundTrip(x);
  }

  /** `binary-decode` undoes `binary-encode` on non-empty text of codes below 256. */
  lemma BinaryCasesInverse(x: JsString, key: JsString, shift: int, input2: JsString, pattern: JsString, lib: Library)
    requires |x| > 0 && forall k | 0 <= k < |x| :: x[k] < 256
    ensures var encoded := ToolOutput(Coding(BinaryEncode), x, key, shift, input2, pattern, lib);
      ToolOutput(Coding(BinaryDecode), encoded, key, shift, input2, pattern, lib) == x
  {
    BinaryEncodeOutput(x, key, shift, input2, pattern, lib);
    var encoded := BinaryTool.Encode(x);
    BinaryDecodeOutput(encoded, key, shift, input2, pattern, lib);
    BinaryInlineRoundTrip(x);
  }

  lemma BinaryEncodeOutput(x: JsString, key: JsString, shift: int, input2: JsString, pattern: JsString, lib: Library)
    ensures ToolOutput(Coding(BinaryEncode), x, key, shift, input2, pattern, lib) == BinaryTool.Encode(x)
  {
  }

  lemma BinaryDecodeOutput(s: JsString, key: JsString, shift: int, input2: JsString, pattern: JsString, lib: Library)
    ensures ToolOutput(Coding(BinaryDecode), s, key, shift, input2, pattern, lib) == BinaryDecodeInline(s)
  {
  }

  /** `ascii-decode` undoes `ascii-encode` on non-empty text without surrogate pairs. */
  lemma AsciiCasesInverse(x: JsString, key: JsString, shift: int, input2: JsString, pattern: JsString, lib: Library)
    requires |x| > 0 && NoSurrogatePair(x)
    ensures var encoded := ToolOutput(Coding(AsciiEncode), x, key, shift, input2, pattern, lib);
      ToolOutput(Coding(AsciiDecode), encoded, key, shift, input2, pattern, lib) == x
  {
    var encoded := ToolOutput(Coding(AsciiEncode), x, key, shift, input2, pattern, lib);
    assert encoded == AsciiTool.Encode(x);
    assert ToolOutput(Coding(AsciiDecode), encoded, key, shift, input2, pattern, lib) == AsciiTool.Decode(encoded);
    AsciiTool.RoundTrip(x);
  }

  /** `rot13`, `rot47`, `atbash-cipher` and `reverse-text` are involutions, and so is
      `xor-cipher` with a non-empty key. */
  lemma InvolutionCases(x: JsString, key: JsString, shift: int, input2: JsString, pattern: JsString, lib: Library, tool: Tool)
    requires tool in {Crypto(Rot13), Crypto(Rot47), Crypto(AtbashCipher), Crypto(ReverseText)}
      || (tool == Crypto(XorCipher) && |key| > 0)
    ensures var once := ToolOutput(tool, x, key, shift, input2, pattern, lib);
      ToolOutput(tool, once, key, shift, input2, pattern, lib) == x
  {
    var once := ToolOutput(tool, x, key, shift, input2, pattern, lib);
    CryptoOutput(tool.crypto, x, key, shift, input2, pattern, lib);
    CryptoOutput(tool.crypto, once, key, shift, input2, pattern, lib);
    CryptoTwice(tool.crypto, x, key, shift);
  }

  /** A cipher case's output is its result. */
  lemma CryptoOutput(c: CryptoTool, y: JsString, key: JsString, shift: int, input2: JsString, pattern: JsString, lib: Library)
    ensures ToolOutput(Crypto(c), y, key, shift, input2, pattern, lib) == RunCrypto(c, y, key, shift)
  {
  }

  lemma CryptoTwice(c: CryptoTool, x: JsString, key: JsString, shift: int)
    requires c in {Rot13, Rot47, AtbashCipher, ReverseText} || (c == XorCipher && |key| > 0)
    ensures RunCrypto(c, RunCrypto(c, x, key, shift), key, shift) == x
  {
    match c
    case Rot13 => Rot13Tool.Rot13Involution(x);
    case Rot47 => ToolsCiphers.Rot47Involution(x);
    case AtbashCipher => ToolsCiphers.AtbashInvolution(x);
    case ReverseText => ReverseTwice(x);
    case XorCipher => ToolsCiphers.XorInvolution(x, key);
  }

  lemma ReverseTwice(x: JsString)
    ensures Reverse(Reverse(x)) == x
  {
  }
}
