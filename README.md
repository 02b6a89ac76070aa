# SectoolBox in Dafny

SectoolBox is a toolbox for capture-the-flag work and file analysis. A React front end offers text tools: codecs, classical ciphers, checksums and an encoding detective. It also analyses uploaded files in the browser. A FastAPI back end analyses files, guards its trust boundary, and runs small analysis scripts.

This project models the deterministic core of both halves and proves what that core promises:

- **Server trust boundary** (`BackendSecurity`): `sanitize_filename`, `validate_file_content`, `validate_script_command`, `get_client_ip` and `create_secure_error_response`.
- **Client-side checks** (`FrontSecurity`, `FrontChecks`, `RateLimit`):
  - `sanitizeTextInput`;
  - `validateFilename`, `validateFile` and `validateFormData`;
  - the fixed-window rate limiter over `localStorage`, as a class whose fields are the store and the clock.
- **Codecs and ciphers** (`Base32Tool`, `HexTool`, `BinaryTool`, `AsciiTool`, `CaesarTool`, `Rot13Tool`, `ToolsPage`, `ToolsCiphers`, `Morse`, `ToolsText`, `TextCases`, `WordFrequency`, `GrepLines`, `EncodingDetective`):
  - base32 per section 6 of RFC 4648, with the multi-layer decoder;
  - hex, binary and ASCII codecs, Caesar and ROT13;
  - the transform cases of the tools page: ROT47, Atbash, Vigenère, XOR, International Morse, Bacon and HTML entities;
  - its checksum, hash identification, line diff, case and line tools, word frequency, and the grep tool (`GrepLines`) with the `lastIndex` that its one global regular expression carries from line to line;
  - the encoding detective's pattern tests, scoring, ranking and bounded layered decoding.
- **Byte and text analysis**:
  - the three printable-string extractors (`FileAnalysis`, `ServerStrings`, `StringExtractor`), which share one generic scan in `StringScan`;
  - the hex dump of the file analysis page;
  - the file inspector's byte statistics and header rendering (`FileInspector`);
  - the metadata analyser's magic-byte classification, header hex and permissions (`Exiftool`);
  - the text analyser's counts, frequency tables and grade (`TextAnalyzer`, `Counter`).

The JavaScript and Python library behaviour that the core relies on is written out in `Js`, `Py`, `JsRegex`, `PyRegex`, `Text` and `Bits`. This covers `trim`, `split`, `parseInt`, `toString(radix)`, `padStart`, the regular-expression fragments the core uses, `os.path`, `str.split` and positional digits.

JavaScript strings are sequences of UTF-16 code units, Python strings are `string`, and bytes are `seq<byte>`. Each source operation keeps its form:

- code that updates state step by step is a method with loop invariants, proved equal to a specification function;
- code made of expressions is a function.

The lemmas then state the promised properties about those functions: round trips, involutions, soundness, order and completeness of scans, bounds and error cases.

## Model

| member | source | states |
|---|---|---|
| CaesarTool.ShiftChar | frontend/src/Toolscripts/caesar-cipher/CaesarTool.js:2-4 | a code unit that is not an ASCII letter is kept; for a shift of zero or more, an upper-case letter stays upper-case and a lower-case letter stays lower-case |
| CaesarTool.ExecuteCaesarTool | frontend/src/Toolscripts/caesar-cipher/CaesarTool.js:1-6 | the output has the input's length, keeps every non-letter in place, and for a shift of zero or more keeps each letter's case |
| CaesarTool.ShiftCharInverse | frontend/src/Toolscripts/caesar-cipher/CaesarTool.js:2-4 | for a shift s from 0 to 26, shifting one code unit by s and then by 26 - s gives it back |
| CaesarTool.CaesarInverse | frontend/src/Toolscripts/caesar-cipher/CaesarTool.js:1-6 | for a shift s from 0 to 26, the tool with shift 26 - s undoes the tool with shift s on every input |
| Rot13Tool.Rot13Char | frontend/src/Toolscripts/rot13/ROT13Tool.js:2-4 | non-letters are kept; a code unit is upper-case (lower-case) after ROT13 exactly when it was before |
| Rot13Tool.ExecuteRot13Tool | frontend/src/Toolscripts/rot13/ROT13Tool.js:1-6 | the output has the input's length, keeps every non-letter, and each position is upper-case (lower-case) exactly when the input's is |
| Rot13Tool.Rot13Involution | frontend/src/Toolscripts/rot13/ROT13Tool.js:1-6 | ROT13 applied twice gives back every input |
| Rot13Tool.Rot13IsCaesar13 | frontend/src/Toolscripts/rot13/ROT13Tool.js:1-6 | ROT13 agrees with the Caesar tool at shift 13 on every input |
| AsciiTool.Encode | frontend/src/Toolscripts/ascii/ASCIITool.js:2-5 | the `encode` branch: the decimal codes of the code points joined by single spaces; EncodeShape and RoundTrip state its properties |
| AsciiTool.Codes | frontend/src/Toolscripts/ascii/ASCIITool.js:3-4 | there is one decimal numeral per code point of the input (as `Array.from` iterates), and it is the numeral of that code point's first code unit |
| AsciiTool.EncodeShape | frontend/src/Toolscripts/ascii/ASCIITool.js:2-5 | the encoding is the numerals joined by single spaces; each one is non-empty, all digits, and `parseInt` reads it back as the code of its character |
| AsciiTool.TokenValue | frontend/src/Toolscripts/ascii/ASCIITool.js:10 | `String.fromCharCode(parseInt(code))` of one token, U+0000 when the token is not a numeral |
| AsciiTool.Decode | frontend/src/Toolscripts/ascii/ASCIITool.js:7-11 | the result has one code unit per token of the whitespace split (at least one), and each is `String.fromCharCode` of that token's `parseInt` value |
| AsciiTool.DecodeEmpty | frontend/src/Toolscripts/ascii/ASCIITool.js:8-11 | the empty input decodes to a single U+0000, since `parseInt('')` is NaN and `fromCharCode(NaN)` is 0 |
| AsciiTool.ExecuteAsciiTool | frontend/src/Toolscripts/ascii/ASCIITool.js:1-16 | `executeASCIITool`: `encode` gives the encoding and every other action the decoding |
| AsciiTool.RoundTrip | frontend/src/Toolscripts/ascii/ASCIITool.js:1-16 | decoding the encoding of any non-empty string without surrogate pairs gives it back |
| HexTool.HexGroup | frontend/src/Toolscripts/hex/HexTool.js:4 | a code's group is at least two lower-case hexadecimal digits that `parseInt(_, 16)` reads back as the code, and exactly two when the code is below 256 |
| HexTool.Groups | frontend/src/Toolscripts/hex/HexTool.js:3-4 | there is one group per code point of the input, the group of that code point's first code unit |
| HexTool.Encode | frontend/src/Toolscripts/hex/HexTool.js:2-5 | the `encode` branch: the two-digit (or longer) hexadecimal groups of the code points joined by single spaces |
| HexTool.EncodeShape | frontend/src/Toolscripts/hex/HexTool.js:2-5 | the encoding is the groups joined by single spaces; each group has at least two lower-case hexadecimal digits and reads back as its character's code |
| HexTool.ByteGroup | frontend/src/Toolscripts/hex/HexTool.js:4 | the group of a code below 256 has exactly two digits, no line terminator, and reads back as the code |
| HexTool.ChunkValue | frontend/src/Toolscripts/hex/HexTool.js:11 | `String.fromCharCode(parseInt(hex, 16))` of one chunk of at most two digits |
| HexTool.Decode | frontend/src/Toolscripts/hex/HexTool.js:7-15 | an input with no hexadecimal digit gives 'Invalid hex input' |
| HexTool.DecodeShape | frontend/src/Toolscripts/hex/HexTool.js:8-12 | when the input has a hexadecimal digit, its digits are cut into chunks that rejoin to the cleaned text, every chunk but the last has two digits, and the result is the code unit of each chunk in order |
| HexTool.ExecuteHexTool | frontend/src/Toolscripts/hex/HexTool.js:1-17 | `executeHexTool`: `encode` gives the encoding and every other action the decoding |
| HexTool.RoundTrip | frontend/src/Toolscripts/hex/HexTool.js:1-17 | decoding the encoding of any non-empty string of codes below 256 gives it back |
| HexTool.ByteGroups | frontend/src/Toolscripts/hex/HexTool.js:3-5 | for codes below 256 there is one group per code unit, each two lower-case digits reading back as that code unit |
| HexTool.PairsRead | frontend/src/Toolscripts/hex/HexTool.js:9-10 | removing the spaces between two-digit groups and cutting what is left into pairs gives the groups back |
| BinaryTool.BinaryGroup | frontend/src/Toolscripts/binary/BinaryTool.js:4 | a code's group is at least eight binary digits that `parseInt(_, 2)` reads back as the code, and exactly eight when the code is below 256 |
| BinaryTool.Groups | frontend/src/Toolscripts/binary/BinaryTool.js:3-4 | there is one group per code point of the input, the group of that code point's first code unit |
| BinaryTool.Encode | frontend/src/Toolscripts/binary/BinaryTool.js:2-5 | the `encode` branch: the eight-digit (or longer) binary groups of the code points joined by single spaces |
| BinaryTool.EncodeShape | frontend/src/Toolscripts/binary/BinaryTool.js:2-5 | the encoding is the groups joined by single spaces; each group has at least eight binary digits and reads back as its character's code |
| BinaryTool.ChunkValue | frontend/src/Toolscripts/binary/BinaryTool.js:11 | `String.fromCharCode(parseInt(bin, 2))` of one chunk of at most eight digits |
| BinaryTool.Decode | frontend/src/Toolscripts/binary/BinaryTool.js:7-15 | an input with no binary digit gives 'Invalid binary input' |
| BinaryTool.DecodeShape | frontend/src/Toolscripts/binary/BinaryTool.js:8-12 | when the input has a binary digit, its digits are cut into chunks that rejoin to the cleaned text, every chunk but the last has eight digits, and the result is the code unit of each chunk in order |
| BinaryTool.ExecuteBinaryTool | frontend/src/Toolscripts/binary/BinaryTool.js:1-17 | `executeBinaryTool`: `encode` gives the encoding and every other action the decoding |
| BinaryTool.RoundTrip | frontend/src/Toolscripts/binary/BinaryTool.js:1-17 | decoding the encoding of any non-empty string of codes below 256 gives it back |
| Base32Tool.AlphabetChar | frontend/src/Toolscripts/base32/Base32Tool.js:4-7 | the character for a 5-bit value is an upper-case letter or a digit from 2 to 7 |
| Base32Tool.AlphabetIsRfc4648 | frontend/src/Toolscripts/base32/Base32Tool.js:3-4 | the table agrees position by position with the RFC 4648 alphabet string the tool declares |
| Base32Tool.DecodeValue | frontend/src/Toolscripts/base32/Base32Tool.js:8-11 | the decoding table gives a value below 32 exactly for the alphabet's characters, and that value maps back to the character; every other character has no entry |
| Base32Tool.Groups | frontend/src/Toolscripts/base32/Base32Tool.js:24-34 | cutting a bit string into 5-bit groups gives ceil(n/5) groups, each below 32 |
| Base32Tool.GroupsAppend | frontend/src/Toolscripts/base32/Base32Tool.js:24-34 | grouping distributes over concatenation when the first part is whole groups |
| Base32Tool.Chars | frontend/src/Toolscripts/base32/Base32Tool.js:26-33 | there is one alphabet character per 5-bit value, and decoding it gives the value back |
| Base32Tool.Padding | frontend/src/Toolscripts/base32/Base32Tool.js:36-39 | the padding is fewer than eight '=' and brings the length to a multiple of 8 |
| Base32Tool.PushByte | frontend/src/Toolscripts/base32/Base32Tool.js:21-22 | `(buffer << 8) \| byte` in 32 bits appends the byte's eight bits to the pending bits |
| Base32Tool.EmitGroup | frontend/src/Toolscripts/base32/Base32Tool.js:25 | `(buffer >> (bitsLeft - 5)) & 31` is the value of the top five pending bits, and the rest stay pending |
| Base32Tool.FlushValue | frontend/src/Toolscripts/base32/Base32Tool.js:31-33 | `(buffer << (5 - bitsLeft)) & 31` is the value of the pending bits filled up with zeros |
| Base32Tool.FlushGroup | frontend/src/Toolscripts/base32/Base32Tool.js:31-34 | the last character, when fewer than five bits are pending, is the last group of the whole bit string |
| Base32Tool.Base32Encode | frontend/src/Toolscripts/base32/Base32Tool.js:14-42 | the loop writes the alphabet characters of the 5-bit groups of the bytes (the last filled with zeros), then the padding |
| Base32Tool.EncodeByte | frontend/src/Toolscripts/base32/Base32Tool.js:20-29 | after each byte the characters written are the groups of the complete 5-bit groups read so far, and fewer than five bits stay pending in `buffer` |
| Base32Tool.EmitGroups | frontend/src/Toolscripts/base32/Base32Tool.js:24-28 | the inner loop writes one character per five pending bits until fewer than five remain, keeping written plus pending bits unchanged |
| Base32Tool.FlushAndPad | frontend/src/Toolscripts/base32/Base32Tool.js:31-41 | the result is the characters of all the bits' groups followed by the padding to a multiple of 8 |
| Base32Tool.PadToBlock | frontend/src/Toolscripts/base32/Base32Tool.js:37-39 | the padding loop appends exactly the padding to the next multiple of 8 |
| Base32Tool.EncodeSpec | frontend/src/Toolscripts/base32/Base32Tool.js:14-42 | what `base32Encode` returns: the alphabet characters of the 5-bit groups of the bytes, the last group filled with zeros, then the `=` padding; Base32Encode computes it and RoundTrip inverts it |
| Base32Tool.EncodeShape | frontend/src/Toolscripts/base32/Base32Tool.js:14-42 | for n bytes the output is ceil(8n/5) alphabet characters and then only '=', its length a multiple of 8 and less than 8 beyond the characters |
| Base32Tool.FirstInvalid | frontend/src/Toolscripts/base32/Base32Tool.js:50-54 | the first index at or after i outside the decoding table; none exactly when all from i are in the table |
| Base32Tool.CodePointAt | frontend/src/Toolscripts/base32/Base32Tool.js:50-52 | `for...of` yields a whole surrogate pair as one character, and a single code unit otherwise |
| Base32Tool.ValueBits | frontend/src/Toolscripts/base32/Base32Tool.js:60-64 | each character contributes five bits |
| Base32Tool.ValueBitsAppend | frontend/src/Toolscripts/base32/Base32Tool.js:60-64 | the bits of a concatenation are the bits of its parts |
| Base32Tool.InvalidCharacter | frontend/src/Toolscripts/base32/Base32Tool.js:52 | the message thrown for a character outside the alphabet: `Invalid Base32 character: ` followed by it |
| Base32Tool.CharValue | frontend/src/Toolscripts/base32/Base32Tool.js:61 | `decodeTable[cleaned[i]]` for a character the validation loop let through: a value below 32 |
| Base32Tool.DecodeSpec | frontend/src/Toolscripts/base32/Base32Tool.js:45-70 | what `base32Decode` yields before UTF-8 decoding: the error for the first character outside the alphabet, or else the whole bytes of the characters' 5-bit values; Base32Decode computes it |
| Base32Tool.DecodeSpecShape | frontend/src/Toolscripts/base32/Base32Tool.js:45-72 | the decoder throws exactly when a cleaned character is outside the alphabet, naming the first one (a whole code point); otherwise it yields floor(5n/8) bytes for n cleaned characters |
| Base32Tool.PushValue | frontend/src/Toolscripts/base32/Base32Tool.js:62-63 | `(buffer << 5) \| value` in 32 bits appends the character's five bits to the pending bits |
| Base32Tool.EmitByte | frontend/src/Toolscripts/base32/Base32Tool.js:65-68 | `(buffer >> (bitsLeft - 8)) & 255` is the value of the top eight pending bits, which become the next byte |
| Base32Tool.FindInvalid | frontend/src/Toolscripts/base32/Base32Tool.js:50-54 | the validation loop finds the first character that is not in the decoding table, or none |
| Base32Tool.DecodeBits | frontend/src/Toolscripts/base32/Base32Tool.js:56-69 | for alphabet text the accumulator loop yields the bytes of its 5-bit values' bits, whole bytes only |
| Base32Tool.DecodeChar | frontend/src/Toolscripts/base32/Base32Tool.js:60-69 | after each character the bytes pushed are the complete bytes of the bits read so far, and fewer than eight bits stay pending |
| Base32Tool.Base32Decode | frontend/src/Toolscripts/base32/Base32Tool.js:45-70 | the decoder's result (its bytes or its error) is the decoding specification for every input |
| Base32Tool.Clean | frontend/src/Toolscripts/base32/Base32Tool.js:47 | `input.replace(/[=\s]/g, '').toUpperCase()`: the code units other than `=` and white space, upper-cased |
| Base32Tool.CleanCons | frontend/src/Toolscripts/base32/Base32Tool.js:47 | cleaning drops '=' and white space and upper-cases every other code unit, one at a time |
| Base32Tool.LooksBase32 | frontend/src/Toolscripts/base32/Base32Tool.js:83-84 | `/^[A-Z2-7=\s]+$/i.test(current)`: non-empty text of letters, digits 2 to 7, `=` and white space |
| Base32Tool.LooksBase32Decodes | frontend/src/Toolscripts/base32/Base32Tool.js:83-89 | text that passes the multi-layer decoder's regular expression always decodes, so the `catch` there never fires on it |
| Base32Tool.DecodeIgnoresJunk | frontend/src/Toolscripts/base32/Base32Tool.js:47 | '=' and white space anywhere in the input do not change the decoding |
| Base32Tool.DecodeCaseInsensitive | frontend/src/Toolscripts/base32/Base32Tool.js:47 | two ASCII inputs that agree up to case decode alike |
| Base32Tool.GroupBitsGroups | frontend/src/Toolscripts/base32/Base32Tool.js:24-34 | the bits of the groups are the original bits followed by the zero fill of the last group |
| Base32Tool.RoundTrip | frontend/src/Toolscripts/base32/Base32Tool.js:14-72 | decoding the encoding of any byte string gives back exactly those bytes |
| Base32Tool.CleanEncode | frontend/src/Toolscripts/base32/Base32Tool.js:47 | cleaning an encoding drops its padding and keeps its alphabet characters |
| Base32Tool.DecodeSpecAcceptsBase32 | frontend/src/Toolscripts/base32/Base32Tool.js:83-89 | the tool's decoder succeeds on all text that matches `/^[A-Z2-7=\s]+$/i` |
| Base32Tool.ChainSnoc | frontend/src/Toolscripts/base32/Base32Tool.js:90-101 | appending a layer decoded from the previous layer's output keeps the chain of layers intact |
| Base32Tool.Unwind | frontend/src/Toolscripts/base32/Base32Tool.js:81-106 | the `while (attempts < maxAttempts)` loop from a given state: passes until 50 attempts are used or a pass stops; UnwindShape and DecodeLayers state its properties |
| Base32Tool.UnwindShape | frontend/src/Toolscripts/base32/Base32Tool.js:81-106 | the loop stops within 50 attempts with at most 50 layers chained from the trimmed input; either the last layer ended the run (its output equals its input or is not Base32) or the loop stands at text that is not Base32 or has used up its attempts |
| Base32Tool.PassOf | frontend/src/Toolscripts/base32/Base32Tool.js:83-105 | one pass of the loop: stop on text that is not Base32 or that the decoder rejects; record the layer and stop when the output equals the input or is not Base32; otherwise go on with the output |
| Base32Tool.TryLayer | frontend/src/Toolscripts/base32/Base32Tool.js:83-105 | one pass of the loop: stop on text that is not Base32, record a layer and stop or continue as the decoded text says |
| Base32Tool.DecodeLayers | frontend/src/Toolscripts/base32/Base32Tool.js:76-106 | the loop computes the unwinding from the trimmed input with no attempts and no layers |
| Base32Tool.MultiLayerAsWritten | frontend/src/Toolscripts/base32/Base32Tool.js:75-121 | `multiLayerBase32Decode(input)` as written, with the tool's own decoder; SingleLayerDropped shows the input it gets wrong |
| Base32Tool.MultiLayerBase32DecodeAsWritten | frontend/src/Toolscripts/base32/Base32Tool.js:75-121 | the method returns the decoder's result as written, with the report keyed on `attempts` |
| Base32Tool.MultiLayer | frontend/src/Toolscripts/base32/Base32Tool.js:75-121 | the corrected multi-layer decoder with the tool's own decoder; MultiLayerShape and SingleLayerEncoding state its properties |
| Base32Tool.MultiLayerBase32Decode | frontend/src/Toolscripts/base32/Base32Tool.js:75-121 | the method returns the corrected result, with the report keyed on the recorded layers |
| Base32Tool.MultiLayerShape | frontend/src/Toolscripts/base32/Base32Tool.js:75-121 | for a decoder that accepts Base32-looking text: at most 50 layers chained from the trimmed input and counted by `totalLayers`; "Not a valid Base32 string" exactly when the trimmed input does not look like Base32; otherwise the last layer's output when it is not empty |
| Base32Tool.FinalText | frontend/src/Toolscripts/base32/Base32Tool.js:117 | the lookup `layers[layers.length - 1]?.output` with fallback `current`: the last layer's output unless it is empty, else the text the loop stopped at |
| Base32Tool.ReportAsWritten | frontend/src/Toolscripts/base32/Base32Tool.js:108-120 | the result as written: "Not a valid Base32 string" with no layers whenever `attempts` is still 0, else the final text, the layers and their number |
| Base32Tool.Report | frontend/src/Toolscripts/base32/Base32Tool.js:108-120 | the corrected result: "not valid" only when no layer was recorded |
| Base32Tool.ReportFacts | frontend/src/Toolscripts/base32/Base32Tool.js:108-120 | the report keeps and counts the layers, says "not valid" when there are none, and otherwise gives the last non-empty output |
| Base32Tool.UnwindHalts | frontend/src/Toolscripts/base32/Base32Tool.js:83-86 | text that does not look like Base32 stops the loop where it is |
| Base32Tool.SingleLayerDropped | frontend/src/Toolscripts/base32/Base32Tool.js:96-114 | as written, Base32 text whose decoding ends the run on the first pass is reported as not valid with no layers, although one layer was decoded |
| Base32Tool.SingleLayerEncoding | frontend/src/Toolscripts/base32/Base32Tool.js:96-114 | the encoding of bytes whose text does not look like Base32 (`GE======` for `1`) is reported as not valid as written, and as one layer by the corrected decoder |
| Base32Tool.OneIsNotBase32 | frontend/src/Toolscripts/base32/Base32Tool.js:83 | the text `1` does not match the Base32 regular expression |
| Base32Tool.ExecuteBase32Tool | frontend/src/Toolscripts/base32/Base32Tool.js:123-129 | `encode` gives the encoding of the input's UTF-8 bytes; every other action gives the multi-layer decoder's result as written |
| Base32Tool.ExecuteBase32ToolCorrected | frontend/src/Toolscripts/base32/Base32Tool.js:123-129 | the same dispatch with the corrected multi-layer decoder |
| Morse.LetterCode | frontend/src/pages/ToolsPage.js:573-577 | the code `textToMorse`'s table gives each capital letter |
| Morse.DigitCode | frontend/src/pages/ToolsPage.js:577-579 | the code the table gives each decimal digit |
| Morse.CodeOf | frontend/src/pages/ToolsPage.js:573-579 | the table entry of a letter or digit; LetterOfCode proves that decoding it gives the character back |
| Morse.LetterOf | frontend/src/pages/ToolsPage.js:585-593 | the reverse table `morseToChar` without its `/` entry: the letter or digit a code stands for, or nothing |
| Morse.LetterOfCode | frontend/src/pages/ToolsPage.js:572-593 | every letter and digit has a non-empty code of dots and dashes, and the decoding table maps it back to that character, so no two characters share a code |
| Morse.Symbol | frontend/src/pages/ToolsPage.js:581 | the lookup `morseCode[char]` with fallback `char`: the code of a letter or digit, `/` for a space, any other code unit unchanged |
| Morse.TextToMorse | frontend/src/pages/ToolsPage.js:571-582 | `textToMorse`: one symbol per code unit of the upper-cased text, joined by single spaces; MorseRoundTrip inverts it |
| Morse.UpperMorseText | frontend/src/pages/ToolsPage.js:581 | upper-case letters, digits and spaces are unchanged by `toUpperCase` |
| Morse.Piece | frontend/src/pages/ToolsPage.js:594 | the lookup `morseToChar[code]` with fallback `code`: the letter of a code, a space for `/`, any other piece unchanged |
| Morse.MorseToText | frontend/src/pages/ToolsPage.js:584-595 | `morseToText`: the pieces between single spaces translated and concatenated; MorseRoundTrip shows it undoes TextToMorse on Morse-safe text |
| Morse.PieceOfSymbol | frontend/src/pages/ToolsPage.js:581-594 | a character's symbol (its code, or `/` for a space) holds no space and decodes back to the character |
| Morse.MorseRoundTrip | frontend/src/pages/ToolsPage.js:571-595 | `morseToText(textToMorse(x)) == x` for every text of upper-case letters, digits and spaces |
| ToolsPage.HexEncodeInline | frontend/src/pages/ToolsPage.js:412-414 | the `hex-encode` case: the hex groups of every code unit joined with no separator; HexInlineRoundTrip inverts it |
| ToolsPage.HexDecodeInline | frontend/src/pages/ToolsPage.js:415-417 | the `hex-decode` case yields one code unit per `/.{1,2}/g` chunk of the raw input |
| ToolsPage.BinaryDecodeInline | frontend/src/pages/ToolsPage.js:421-423 | the `binary-decode` case yields one code unit per white-space separated token |
| ToolsPage.HexInlineRoundTrip | frontend/src/pages/ToolsPage.js:412-417 | the `hex-decode` case reads back what `hex-encode` prints for any string of codes below 256, the empty one included |
| ToolsPage.HexPairs | frontend/src/pages/ToolsPage.js:416 | two-character groups with no line terminator, joined with nothing, are read back one per group |
| ToolsPage.BinaryInlineRoundTrip | frontend/src/pages/ToolsPage.js:418-423 | the `binary-decode` case reads back what `binary-encode` prints for any non-empty string of codes below 256 |
| ToolsPage.ToolOutput | frontend/src/pages/ToolsPage.js:539-542 | when the selected case throws, the output is `Error: ` followed by the error's message |
| ToolsPage.Run | frontend/src/pages/ToolsPage.js:388-537 | the `try` block of `executeTool`: the result of the selected case or the message it threw; LocalCasesComplete shows every case this model defines succeeds |
| ToolsPage.RunCoding | frontend/src/pages/ToolsPage.js:389-429 | the encoding cases of the switch; HtmlCasesInverse, HexCasesInverse, BinaryCasesInverse and AsciiCasesInverse pair them up |
| ToolsPage.RunCrypto | frontend/src/pages/ToolsPage.js:431-475 | the cipher cases, none of which throws; InvolutionCases and CryptoTwice state their self-inverse ones |
| ToolsPage.RunHash | frontend/src/pages/ToolsPage.js:477-504 | the hash cases: library digests, the `crc32` hex string, the NTLM prefix with upper-cased MD4, the bcrypt notice and `identifyHash` |
| ToolsPage.RunText | frontend/src/pages/ToolsPage.js:506-533 | the text-processing cases, each the matching function of TextCases, ToolsText, WordFrequency or GrepLines |
| GrepLines.Output | frontend/src/pages/ToolsPage.js:524-527 | the `grep-tool` case fails exactly when `new RegExp(pattern, 'gi')` throws, with its message; otherwise it joins the filtered lines with line feeds, and OutputLines splits the output back into them |
| GrepLines.OutputLines | frontend/src/pages/ToolsPage.js:526 | when some line is kept, splitting the output at line feeds gives back exactly the kept lines |
| GrepLines.FilterKeepsMatching | frontend/src/pages/ToolsPage.js:526 | whatever `lastIndex` the filter starts from, it keeps only lines of the input, none more often than it occurs, and each kept line has a match |
| GrepLines.UnmatchedLineDropped | frontend/src/pages/ToolsPage.js:526 | a line with no match anywhere in it is never kept |
| GrepLines.DroppedLineResets | frontend/src/pages/ToolsPage.js:525-526 | after a line the shared regular expression's `test` rejects, `lastIndex` is 0 again, so the next line is searched from its start |
| GrepLines.SecondMatchDropped | frontend/src/pages/ToolsPage.js:525-526 | with pattern `a`, the input `xa`, line feed, `a` gives only `xa`: the first test leaves `lastIndex` at 2, past the end of `a`; the intended filter gives back the whole input |
| GrepLines.FilterIntendedSpec | frontend/src/pages/ToolsPage.js:526 | the intended filter keeps, in order, exactly the lines with a match searched from their start |
| GrepLines.FilterWithinIntended | frontend/src/pages/ToolsPage.js:525-526 | for a search that finds from an earlier index whatever it finds from a later one, as a regular expression's does, the filter as written keeps a subsequence of the intended filter's lines: carrying `lastIndex` only drops lines |
| GrepLines.ScanMonotone | frontend/src/pages/ToolsPage.js:525 | the `g`-flag search of a regular expression, which tries each index from `lastIndex` on, finds from an earlier index whatever it finds from a later one |
| ToolsPage.LocalCasesComplete | frontend/src/pages/ToolsPage.js:388-537 | every case that does not call into a library or a browser function returns without throwing |
| ToolsPage.UnlistedTool | frontend/src/pages/ToolsPage.js:535-536 | an unknown tool id prints 'Tool not implemented yet' |
| ToolsPage.HtmlCasesInverse | frontend/src/pages/ToolsPage.js:402-411 | the `html-decode` case undoes the `html-encode` case on every input |
| ToolsPage.HexCasesInverse | frontend/src/pages/ToolsPage.js:412-417 | the `hex-decode` output undoes the `hex-encode` output on codes below 256 |
| ToolsPage.BinaryCasesInverse | frontend/src/pages/ToolsPage.js:418-423 | the `binary-decode` output undoes the `binary-encode` output on non-empty text of codes below 256 |
| ToolsPage.BinaryEncodeOutput | frontend/src/pages/ToolsPage.js:418-420 | the `binary-encode` case prints exactly what the binary tool's encoder prints |
| ToolsPage.AsciiCasesInverse | frontend/src/pages/ToolsPage.js:424-429 | the `ascii-decode` output undoes the `ascii-encode` output on non-empty text without surrogate pairs |
| ToolsPage.InvolutionCases | frontend/src/pages/ToolsPage.js:438-472 | `rot13`, `rot47`, `atbash-cipher` and `reverse-text` undo themselves, and so does `xor-cipher` with a non-empty key |
| ToolsPage.CryptoOutput | frontend/src/pages/ToolsPage.js:431-475 | a cipher case never throws, and its output is the cipher's result |
| ToolsPage.CryptoTwice | frontend/src/pages/ToolsPage.js:438-472 | each of those ciphers applied twice, with the same key, gives back its input |
| ToolsPage.ReverseTwice | frontend/src/pages/ToolsPage.js:467-469 | reversing the code units twice gives back the text |
| ToolsCiphers.Rot47Char | frontend/src/pages/ToolsPage.js:445-446 | a code unit is in the printable range `[\x21-\x7E]` after ROT47 exactly when it was before, and any other code unit is kept |
| ToolsCiphers.Rot47 | frontend/src/pages/ToolsPage.js:444-448 | the output has the input's length, printable ASCII stays printable, and every other code unit stays in place |
| ToolsCiphers.Rot47CharInvolution | frontend/src/pages/ToolsPage.js:446 | ROT47 applied twice gives back every code unit |
| ToolsCiphers.Rot47Involution | frontend/src/pages/ToolsPage.js:444-448 | ROT47 applied twice gives back every input |
| ToolsCiphers.AtbashChar | frontend/src/pages/ToolsPage.js:456-459 | a letter stays a letter of its own case, and any other code unit is kept |
| ToolsCiphers.Atbash | frontend/src/pages/ToolsPage.js:455-460 | the output has the input's length, each position keeps its case, and non-letters are kept |
| ToolsCiphers.AtbashInvolution | frontend/src/pages/ToolsPage.js:455-460 | Atbash applied twice gives back every input |
| ToolsCiphers.VigenereAt | frontend/src/pages/ToolsPage.js:557-567 | the output character at one position: a letter shifted by the key letter at its letter count modulo the key length, anything else copied |
| ToolsCiphers.VigenereShift | frontend/src/pages/ToolsPage.js:558-562 | with an upper-case key character, a letter stays a letter of its own case |
| ToolsCiphers.LetterCount | frontend/src/pages/ToolsPage.js:557-563 | the key position after a prefix, which counts only its letters, is at most the prefix's length |
| ToolsCiphers.Vigenere | frontend/src/pages/ToolsPage.js:551-569 | an empty key gives 'Key required for Vigenère cipher'; otherwise the output has the text's length and keeps every non-letter |
| ToolsCiphers.VigenereProcess | frontend/src/pages/ToolsPage.js:551-569 | the loop computes the cipher's result for every text, key and direction |
| ToolsCiphers.LetterCountAppend | frontend/src/pages/ToolsPage.js:557-563 | the letters of a concatenation are the letters of its parts |
| ToolsCiphers.VigenereShiftInverse | frontend/src/pages/ToolsPage.js:559-562 | a backward shift by an upper-case key character undoes the forward shift by it |
| ToolsCiphers.UpperLetterKey | frontend/src/pages/ToolsPage.js:553 | an ASCII letter key upper-cases to the letters A to Z, keeping its length |
| ToolsCiphers.VigenereRoundTrip | frontend/src/pages/ToolsPage.js:551-569 | with a key of ASCII letters, `vigenere-decrypt` undoes `vigenere-encrypt` on every text |
| ToolsCiphers.VigenereSkipsNonLetters | frontend/src/pages/ToolsPage.js:557-567 | non-letters use no key position: letter-free text in front leaves the rest's encryption as it was |
| ToolsCiphers.ShiftedAt | frontend/src/pages/ToolsPage.js:557-567 | after letter-free text, each code unit of the rest is treated with the same key position as on its own |
| ToolsCiphers.LettersBehind | frontend/src/pages/ToolsPage.js:557-563 | after letter-free text, a prefix of the rest counts only its own letters |
| ToolsCiphers.SameAt | frontend/src/pages/ToolsPage.js:557-567 | the output at a position depends only on its code unit and on how many letters come before it |
| ToolsCiphers.Xor | frontend/src/pages/ToolsPage.js:597-604 | an empty key gives 'Key required for XOR cipher'; otherwise the output has the text's length |
| ToolsCiphers.XorCipher | frontend/src/pages/ToolsPage.js:597-604 | the loop computes the xor of each code unit with the key's code unit at that position modulo the key length |
| ToolsCiphers.XorCode | frontend/src/pages/ToolsPage.js:601 | `charCodeAt(i) ^ key.charCodeAt(...)` on two 16-bit code units; XorCodeTwice proves it is its own inverse |
| ToolsCiphers.XorCodeTwice | frontend/src/pages/ToolsPage.js:601 | xor-ing a code unit twice with the same key code unit gives it back |
| ToolsCiphers.XorInvolution | frontend/src/pages/ToolsPage.js:597-604 | the XOR cipher with the same non-empty key, applied twice, gives back every text |
| ToolsCiphers.BaconOf | frontend/src/pages/ToolsPage.js:614 | `baconMap[char] \|\| char` keeps every code unit that is not an upper-case letter |
| ToolsCiphers.BaconCode | frontend/src/pages/ToolsPage.js:607-613 | the five-letter group of `baconMap` for a capital letter |
| ToolsCiphers.BaconBinary | frontend/src/pages/ToolsPage.js:607-613 | the table gives each letter the five-letter A/B numeral, read as binary, of its distance from A |
| ToolsCiphers.Bacon | frontend/src/pages/ToolsPage.js:606-615 | `baconCipher`: the group of every code unit of the upper-cased text, joined by single spaces; BaconRoundTrip recovers the letters |
| ToolsCiphers.BaconRoundTrip | frontend/src/pages/ToolsPage.js:606-615 | each letter of upper-case ASCII text becomes a five-letter A/B group, and reading the groups back gives the text |
| ToolsCiphers.EntityOf | frontend/src/pages/ToolsPage.js:403-405 | a code unit's replacement starts with `&` exactly for the five markup characters, and otherwise with the code unit itself; no other markup character is in it |
| ToolsCiphers.HtmlEncode | frontend/src/pages/ToolsPage.js:402-406 | the encoded text has no `<`, `>`, `"` or `'` |
| ToolsCiphers.EntityPrefix | frontend/src/pages/ToolsPage.js:408-410 | a match of `/&(?:amp\|lt\|gt\|quot\|#39);/` at the start has a positive length within the text, and none starts at anything but `&` |
| ToolsCiphers.HtmlDecode | frontend/src/pages/ToolsPage.js:407-411 | decoding never lengthens the text, and text without `&` is unchanged |
| ToolsCiphers.EntityPrefixOf | frontend/src/pages/ToolsPage.js:403-410 | the encoding of a character, followed by anything, starts with that character's entity and no other |
| ToolsCiphers.HtmlRoundTrip | frontend/src/pages/ToolsPage.js:402-411 | `html-decode` undoes `html-encode` on every input |
| ToolsText.AsWrittenStep | frontend/src/pages/ToolsPage.js:620 | the loop body as written, with the table lookup missing: the low byte of register XOR code unit is XORed into the shifted register |
| ToolsText.Table | frontend/src/pages/ToolsPage.js:617-623 | the CRC-32 table entry of a byte, eight reflected rounds with the polynomial 0xEDB88320, the lookup the loop body evidently meant |
| ToolsText.TableStep | frontend/src/pages/ToolsPage.js:620 | the intended table-driven step `(crc >>> 8) ^ table[(crc ^ c) & 0xFF]`; StepTableBitwise proves it equal to eight bitwise rounds |
| ToolsText.Finish | frontend/src/pages/ToolsPage.js:622 | `(crc ^ (-1)) >>> 0` is an unsigned 32-bit number |
| ToolsText.Crc32AsWritten | frontend/src/pages/ToolsPage.js:617-623 | the checksum as written is an unsigned 32-bit number |
| ToolsText.Crc32 | frontend/src/pages/ToolsPage.js:617-623 | the table-driven checksum is an unsigned 32-bit number |
| ToolsText.Crc32Loop | frontend/src/pages/ToolsPage.js:618-622 | the loop folds the step over the code units from the register 0xFFFFFFFF and complements the result |
| ToolsText.Crc32ChecksumAsWritten | frontend/src/pages/ToolsPage.js:617-623 | the page's checksum is `crc32` as written, whose loop body never uses a CRC table |
| ToolsText.Crc32Checksum | frontend/src/pages/ToolsPage.js:617-623 | the corrected checksum is the table-driven CRC-32 |
| ToolsText.Crc32Empty | frontend/src/pages/ToolsPage.js:617-623 | both checksums of the empty string are 0 |
| ToolsText.StepTableBitwise | frontend/src/pages/ToolsPage.js:620 | one table-driven step is eight bit-at-a-time shifts with the reflected polynomial 0xEDB88320 |
| ToolsText.Crc32Bitwise | frontend/src/pages/ToolsPage.js:617-623 | the table-driven checksum is the bit-at-a-time CRC-32 of the code units' low bytes (reflected polynomial 0xEDB88320, initial value and final XOR 0xFFFFFFFF) |
| ToolsText.AsWrittenLowByte | frontend/src/pages/ToolsPage.js:620 | as written, after three or more code units the register's top three bytes are zero |
| ToolsText.AsWrittenRange | frontend/src/pages/ToolsPage.js:617-623 | as written, every string of three or more code units has one of only 256 checksums, all at least 0xFFFFFF00 |
| ToolsText.Crc32CheckValue | frontend/src/pages/ToolsPage.js:617-623 | the table-driven checksum of "123456789" is 0xCBF43926, the published CRC-32 check value |
| ToolsText.AsWrittenCheckValue | frontend/src/pages/ToolsPage.js:617-623 | as written, the checksum of "123456789" is 0xFFFFFFCE rather than 0xCBF43926 |
| ToolsText.Report | frontend/src/pages/ToolsPage.js:627-638 | the header followed by the lines of the matching rules in rule order; ReportOnly and ReportNone state which lines appear |
| ToolsText.IdentifyHash | frontend/src/pages/ToolsPage.js:625-641 | `identifyHash`: the header plus every matching length and prefix line; IdentifyHashNeverUnknown shows the fallback is never reached |
| ToolsText.IdentifyHashChecks | frontend/src/pages/ToolsPage.js:625-641 | the method builds the report of `identifyHash` rule by rule, for every input |
| ToolsText.LengthChecks | frontend/src/pages/ToolsPage.js:626-635 | the header followed by the lines of the length rules that match, in order |
| ToolsText.PrefixChecks | frontend/src/pages/ToolsPage.js:636-638 | the prefix rules' lines are added, in order, after those of the length rules |
| ToolsText.ReportStartsWithHeader | frontend/src/pages/ToolsPage.js:627 | every partial report starts with 'Possible hash types:' and a line break |
| ToolsText.ReportOnly | frontend/src/pages/ToolsPage.js:629-638 | when only one rule matches, the report is the header and that rule's line |
| ToolsText.ReportNone | frontend/src/pages/ToolsPage.js:627-638 | when no rule matches, the report is the header alone |
| ToolsText.IdentifyHashNeverUnknown | frontend/src/pages/ToolsPage.js:640 | the report is never 'Unknown hash format', since it always starts with the header |
| ToolsText.NoPrefixRule | frontend/src/pages/ToolsPage.js:636-638 | text that starts with neither `$` nor `{` matches no prefix rule |
| ToolsText.IdentifySha256 | frontend/src/pages/ToolsPage.js:632 | a 64-character input without a prefix is reported as SHA256 only |
| ToolsText.IdentifyMd5 | frontend/src/pages/ToolsPage.js:629 | a 32-character input without a prefix is reported as MD5, MD4 and NTLM |
| ToolsText.IdentifyBcrypt | frontend/src/pages/ToolsPage.js:636 | a 60-character input starting with `$2` is reported as BCrypt only |
| ToolsText.IdentifyNone | frontend/src/pages/ToolsPage.js:626-640 | an input of none of the listed lengths and with none of the prefixes gets the header alone |
| ToolsText.LineAt | frontend/src/pages/ToolsPage.js:649-650 | the lookup `lines[i]` with fallback `''`: the line, or the empty string past the end |
| ToolsText.DiffReport | frontend/src/pages/ToolsPage.js:646-655 | the header followed by an entry for every differing line among the first n; DiffReportNone states when nothing is listed |
| ToolsText.TextDifferences | frontend/src/pages/ToolsPage.js:643-658 | `findTextDifferences` of two texts; TextDifferencesSame and TextDifferencesNone state its empty cases |
| ToolsText.DiffEntry | frontend/src/pages/ToolsPage.js:653 | the entry for a differing line is never empty |
| ToolsText.FindTextDifferences | frontend/src/pages/ToolsPage.js:643-658 | the loop computes the report of every line position up to the longer text's count |
| ToolsText.DiffReportNone | frontend/src/pages/ToolsPage.js:648-655 | the report is never shorter than its header, and is the header alone exactly when the lines agree up to n |
| ToolsText.TextDifferencesNone | frontend/src/pages/ToolsPage.js:643-658 | the report is the bare header exactly when every line agrees, a missing line counting as empty |
| ToolsText.TextDifferencesSame | frontend/src/pages/ToolsPage.js:643-658 | identical texts have no differences |
| ToolsText.TextDifferencesTrailingBreak | frontend/src/pages/ToolsPage.js:650-651 | a trailing line break makes no difference, since the missing line compares as the empty string |
| ToolsText.SplitTrailingBreak | frontend/src/pages/ToolsPage.js:644 | a trailing line break adds one empty line to the split |
| TextCases.TitleWord | frontend/src/pages/ToolsPage.js:508 | the replacement of one `\w\S*` match with what precedes it: first word character upper-cased, the rest lower-cased |
| TextCases.TitleCase | frontend/src/pages/ToolsPage.js:508 | the global replace of `\w\S*` in title case; TitleCaseSplit and TitleCaseJoin relate it to the space-separated words |
| TextCases.TitleCaseNoSpace | frontend/src/pages/ToolsPage.js:508 | text without white space is title-cased as one word |
| TextCases.TitleCaseSplit | frontend/src/pages/ToolsPage.js:508 | a white-space character ends a word: what comes before it is title-cased on its own, and the character is kept |
| TextCases.TitleCaseJoin | frontend/src/pages/ToolsPage.js:508 | on words joined by a white-space character, title case is the join of the title-cased words |
| TextCases.TitleWordAscii | frontend/src/pages/ToolsPage.js:508 | an ASCII word that starts with a word character gets that character upper-cased and every later one lower-cased |
| TextCases.CaseConverter | frontend/src/pages/ToolsPage.js:507-509 | the case-converter output: upper, lower and title case under their labels; CaseConverterLines states its three lines |
| TextCases.CaseConverterLines | frontend/src/pages/ToolsPage.js:507-509 | a one-line text gives exactly three lines: 'Upper: ' with its upper case, 'Lower: ' with its lower case and 'Title: ' with its title case |
| TextCases.ToLowerAscii | frontend/src/pages/ToolsPage.js:508 | on ASCII text `toLowerCase` keeps the length and lowers exactly the upper-case letters |
| TextCases.SplitThree | frontend/src/pages/ToolsPage.js:508-513 | three pieces without a line break, joined by line feeds, split back into those pieces |
| TextCases.TextLength | frontend/src/pages/ToolsPage.js:510-514 | the length counter: characters, words and lines; TextLengthLines, LineCount and WordCount state the counts |
| TextCases.TextLengthLines | frontend/src/pages/ToolsPage.js:510-514 | the output is three lines: the code-unit count, the word count and the line count |
| TextCases.LineCount | frontend/src/pages/ToolsPage.js:511 | the line count is one more than the number of line feeds |
| TextCases.WordCount | frontend/src/pages/ToolsPage.js:512 | words joined by single spaces are counted one by one |
| TextCases.TrimEnds | frontend/src/pages/ToolsPage.js:512-516 | text that neither starts nor ends with white space is its own `trim` |
| TextCases.Collapse | frontend/src/pages/ToolsPage.js:516 | `replace(/\s+/g, ' ')` never lengthens the text |
| TextCases.CollapseShape | frontend/src/pages/ToolsPage.js:516 | after collapsing, white space comes only as single spaces, and text that did not start with white space still does not |
| TextCases.CollapseKeeps | frontend/src/pages/ToolsPage.js:516 | collapsing keeps every other character, in order |
| TextCases.RemoveWhitespace | frontend/src/pages/ToolsPage.js:515-517 | white-space runs collapsed to single spaces and the ends trimmed; RemoveWhitespaceShape and RemoveWhitespaceIdempotent state its properties |
| TextCases.RemoveWhitespaceShape | frontend/src/pages/ToolsPage.js:515-517 | the result has no white space at either end, only single spaces inside, and keeps every other character of the input in order |
| TextCases.TrimKeeps | frontend/src/pages/ToolsPage.js:516 | `trim` keeps every character that is not white space |
| TextCases.CollapseCollapsed | frontend/src/pages/ToolsPage.js:516 | collapsed text is left as it is |
| TextCases.RemoveWhitespaceIdempotent | frontend/src/pages/ToolsPage.js:515-517 | removing white space twice changes nothing more |
| TextCases.LexTotal | frontend/src/pages/ToolsPage.js:519 | the code-unit order of the default `sort` relates any two strings |
| TextCases.LexAntisymmetric | frontend/src/pages/ToolsPage.js:519 | two strings that each come no later than the other are equal |
| TextCases.LexTransitive | frontend/src/pages/ToolsPage.js:519 | the code-unit order is transitive |
| TextCases.Insert | frontend/src/pages/ToolsPage.js:519 | inserting a line adds exactly that line to the lines |
| TextCases.InsertSorted | frontend/src/pages/ToolsPage.js:519 | inserting into sorted lines keeps them sorted |
| TextCases.Sort | frontend/src/pages/ToolsPage.js:519 | the reference sort is a rearrangement of the lines |
| TextCases.SortSorted | frontend/src/pages/ToolsPage.js:519 | the reference sort's output is sorted |
| TextCases.SortedUnique | frontend/src/pages/ToolsPage.js:519 | two sorted rearrangements of the same lines are the same sequence, so the output does not depend on the sorting algorithm |
| TextCases.HeadsEqual | frontend/src/pages/ToolsPage.js:519 | two sorted rearrangements of the same lines start with the same line |
| TextCases.SortLines | frontend/src/pages/ToolsPage.js:518-520 | the lines sorted by code units and joined by line feeds; SortLinesSpec and SortLinesIdempotent state sortedness, permutation and idempotence |
| TextCases.SortLinesSpec | frontend/src/pages/ToolsPage.js:518-520 | the output's lines are sorted and are a rearrangement of the input's lines |
| TextCases.SortedLinesSplit | frontend/src/pages/ToolsPage.js:519 | sorted lines joined by line feeds split back into the same lines |
| TextCases.SortLinesIdempotent | frontend/src/pages/ToolsPage.js:518-520 | sorting sorted lines changes nothing |
| TextCases.DistinctLinesSplit | frontend/src/pages/ToolsPage.js:522 | distinct lines joined by line feeds split back into the same lines |
| TextCases.UniqueLines | frontend/src/pages/ToolsPage.js:521-523 | each distinct line once in first-occurrence order; UniqueLinesSpec and UniqueLinesIdempotent state its properties |
| TextCases.UniqueLinesSpec | frontend/src/pages/ToolsPage.js:521-523 | the output's lines are pairwise different, are exactly the input's lines, and keep the order of each line's first occurrence |
| TextCases.DistinctOfDistinct | frontend/src/pages/ToolsPage.js:522 | de-duplicating lines that are already distinct changes nothing |
| TextCases.UniqueLinesIdempotent | frontend/src/pages/ToolsPage.js:521-523 | de-duplicating twice changes nothing more |
| WordFrequency.WordRuns | frontend/src/pages/ToolsPage.js:661 | the matches of `/\b\w+\b/g` in the lower-cased text: the maximal runs of word characters |
| WordFrequency.RunsFrom | frontend/src/pages/ToolsPage.js:661 | every match of `/\b\w+\b/g` is a non-empty run of word characters |
| WordFrequency.RunsKeepWordChars | frontend/src/pages/ToolsPage.js:661 | the matches, put together, are exactly the text's word characters in order |
| WordFrequency.RunsOfJoin | frontend/src/pages/ToolsPage.js:661 | words separated by single spaces are matched one by one |
| WordFrequency.RunsShiftAt | frontend/src/pages/ToolsPage.js:661 | the global scan from index d finds exactly the words of the text from d on |
| WordFrequency.Get | frontend/src/pages/ToolsPage.js:663 | the lookup `frequency[word]` with fallback `0`: the stored count, or 0 for a word not yet seen |
| WordFrequency.Put | frontend/src/pages/ToolsPage.js:663 | `frequency[word] = value`: a new key goes at the end of the creation order; PutValid shows the object stays well formed |
| WordFrequency.PutValid | frontend/src/pages/ToolsPage.js:663 | setting a property keeps the object well formed and updates just that key's value |
| WordFrequency.Tally | frontend/src/pages/ToolsPage.js:662-663 | the object after counting every word: OccurrencesCount and CountWords show each word's value is its number of occurrences |
| WordFrequency.TallyValid | frontend/src/pages/ToolsPage.js:663 | the tally lists every distinct word once, in first-occurrence order |
| WordFrequency.OccurrencesCount | frontend/src/pages/ToolsPage.js:663 | the counts hold exactly the words, each with its number of occurrences |
| WordFrequency.TallyStep | frontend/src/pages/ToolsPage.js:663 | counting one more word sets its property to its old count (0 if absent) plus one |
| WordFrequency.CountWords | frontend/src/pages/ToolsPage.js:662-663 | the `forEach` loop builds the tally of the words |
| WordFrequency.EnumerationOrder | frontend/src/pages/ToolsPage.js:665 | the order of `Object.entries`: array-index keys ascending, then the rest in creation order; EnumerationOrderSpec states it |
| WordFrequency.EnumerationOrderSpec | frontend/src/pages/ToolsPage.js:665 | `Object.entries` lists every key once: the array-index keys first, ascending, then the others in creation order |
| WordFrequency.Entries | frontend/src/pages/ToolsPage.js:665 | `Object.entries(frequency)` as word and count pairs; EntriesDescribe shows they describe the object |
| WordFrequency.EntriesOf | frontend/src/pages/ToolsPage.js:665 | there is one entry per key, holding the key and its count |
| WordFrequency.EntriesDescribe | frontend/src/pages/ToolsPage.js:665 | the entries list each distinct word once with its number of occurrences |
| WordFrequency.DescribesPerm | frontend/src/pages/ToolsPage.js:666 | a rearrangement of such a list still describes the words |
| WordFrequency.Top | frontend/src/pages/ToolsPage.js:667 | `.slice(0, 20)` is a prefix of at most twenty entries, and all when there are at most twenty |
| WordFrequency.TopSpec | frontend/src/pages/ToolsPage.js:666-667 | the first entries of the sorted list are distinct words with their true counts, by falling count |
| WordFrequency.TopCovers | frontend/src/pages/ToolsPage.js:666-667 | a word not among the first entries occurs no more often than any of them |
| WordFrequency.SortedDescribe | frontend/src/pages/ToolsPage.js:666 | sorting by `b - a` gives a description of the words by falling count |
| WordFrequency.Shown | frontend/src/pages/ToolsPage.js:665-667 | the entries after sorting by count and keeping the first 20; ShownSize, ShownSpec and ShownCovers state size, order and coverage |
| WordFrequency.ShownSize | frontend/src/pages/ToolsPage.js:660-668 | at most twenty entries are printed, and all when the text has at most twenty distinct words |
| WordFrequency.ShownSpec | frontend/src/pages/ToolsPage.js:660-668 | the printed entries are distinct words of the lower-cased text, each with its true count, by falling count |
| WordFrequency.ShownCovers | frontend/src/pages/ToolsPage.js:660-668 | every word left out occurs no more often than any word shown |
| WordFrequency.EntryLine | frontend/src/pages/ToolsPage.js:668 | the `word: count` line of one entry |
| WordFrequency.EntryLines | frontend/src/pages/ToolsPage.js:668 | there is one `word: count` line per entry |
| WordFrequency.WordFrequencyReport | frontend/src/pages/ToolsPage.js:660-670 | `getWordFrequency`: the shown entries' lines joined by line feeds; ReportLines states the lines |
| WordFrequency.GetWordFrequency | frontend/src/pages/ToolsPage.js:660-670 | the method's result is the word-frequency report of the text |
| WordFrequency.ReportLines | frontend/src/pages/ToolsPage.js:660-670 | the report has one `word: count` line per shown entry, and is empty exactly when the text has no word |
| EncodingDetective.EncodingsComplete | frontend/src/Toolscripts/encoding-detective/EncodingDetectiveTool.js:4-56 | the pattern table lists every encoding the detective knows |
| EncodingDetective.Squeeze | frontend/src/Toolscripts/encoding-detective/EncodingDetectiveTool.js:13-23 | `str.replace(/\s/g, '')` leaves no white space |
| EncodingDetective.PadRunStart | frontend/src/Toolscripts/encoding-detective/EncodingDetectiveTool.js:6-8 | the run of `=` that ends a prefix starts at the index found, and the character before it is not `=` |
| EncodingDetective.Base64ShapeIff | frontend/src/Toolscripts/encoding-detective/EncodingDetectiveTool.js:8 | the run-based test agrees with `/^[A-Za-z0-9+/]*={0,2}$/`: some split into base-64 characters and at most two `=` exists |
| EncodingDetective.Base32TestIff | frontend/src/Toolscripts/encoding-detective/EncodingDetectiveTool.js:13 | the Base32 test accepts exactly the text made of `[A-Z2-7=\s]` in either case; removing white space first changes nothing |
| EncodingDetective.HexTestIff | frontend/src/Toolscripts/encoding-detective/EncodingDetectiveTool.js:18 | the hexadecimal test holds exactly when every character is a hexadecimal digit or white space and the digits are even in number |
| EncodingDetective.BinaryTestIff | frontend/src/Toolscripts/encoding-detective/EncodingDetectiveTool.js:23 | the binary test holds exactly when every character is a binary digit or white space and the digits are a multiple of eight |
| EncodingDetective.MarkCount | frontend/src/Toolscripts/encoding-detective/EncodingDetectiveTool.js:222 | the number of matches of `/[.\-]/g` is at most the text's length |
| EncodingDetective.Test | frontend/src/Toolscripts/encoding-detective/EncodingDetectiveTool.js:4-56 | the `test` of each encoding's entry in `ENCODING_PATTERNS`; Base64ShapeIff, Base32TestIff, HexTestIff and BinaryTestIff characterise them |
| EncodingDetective.LengthPoints | frontend/src/Toolscripts/encoding-detective/EncodingDetectiveTool.js:191-192 | 20 points from the minimum length on and 10 more beyond twice that |
| EncodingDetective.PatternPoints | frontend/src/Toolscripts/encoding-detective/EncodingDetectiveTool.js:195-224 | the points of the `switch` for each encoding: suffixes, length multiples, hex digits, match counts and numeric tokens |
| EncodingDetective.Score | frontend/src/Toolscripts/encoding-detective/EncodingDetectiveTool.js:184-227 | `scoreEncoding`: 0 when the test fails, otherwise the points capped at 100; ScoreBounds and ScorePositiveIff state its range and when it is positive |
| EncodingDetective.ScoreBounds | frontend/src/Toolscripts/encoding-detective/EncodingDetectiveTool.js:184-227 | a score is at most 100, and 0 when the encoding's test fails |
| EncodingDetective.LongEnoughScores | frontend/src/Toolscripts/encoding-detective/EncodingDetectiveTool.js:186-192 | a text that passes the test and has the encoding's minimum length scores at least 20 |
| EncodingDetective.ScorePositiveIff | frontend/src/Toolscripts/encoding-detective/EncodingDetectiveTool.js:184-227 | for base 64, URL encoding, HTML entities, ASCII codes and ROT13, the score is positive exactly when the test passes |
| EncodingDetective.ZeroScoreHex | frontend/src/Toolscripts/encoding-detective/EncodingDetectiveTool.js:191-207 | a single space passes the hexadecimal test yet scores 0, so it is not detected |
| EncodingDetective.ZeroScoreBinary | frontend/src/Toolscripts/encoding-detective/EncodingDetectiveTool.js:191-210 | a single space passes the binary test yet scores 0 |
| EncodingDetective.ZeroScoreBase32 | frontend/src/Toolscripts/encoding-detective/EncodingDetectiveTool.js:191-203 | "ABC" passes the Base32 test yet scores 0 |
| EncodingDetective.ZeroScoreMorse | frontend/src/Toolscripts/encoding-detective/EncodingDetectiveTool.js:191-223 | "/" passes the Morse test yet scores 0 |
| EncodingDetective.ScoreEncoding | frontend/src/Toolscripts/encoding-detective/EncodingDetectiveTool.js:184-227 | the method computes the score: the test, the length points, the pattern points, capped at 100 |
| EncodingDetective.Rank | frontend/src/Toolscripts/encoding-detective/EncodingDetectiveTool.js:4-56 | each encoding's position in the pattern table, which `Object.entries` follows |
| EncodingDetective.SortByScore | frontend/src/Toolscripts/encoding-detective/EncodingDetectiveTool.js:240 | the stable sort keeps the number of candidates |
| EncodingDetective.ConfidenceOf | frontend/src/Toolscripts/encoding-detective/EncodingDetectiveTool.js:236 | the label of a score: High above 70, Medium above 40, Low otherwise |
| EncodingDetective.CandidatesOf | frontend/src/Toolscripts/encoding-detective/EncodingDetectiveTool.js:233-238 | the candidates of the loop, in pattern order, for the encodings with a positive score; CandidatesShape states it |
| EncodingDetective.Detect | frontend/src/Toolscripts/encoding-detective/EncodingDetectiveTool.js:230-241 | `detectEncoding`: the candidates sorted by score, highest first; DetectShape states its order and membership |
| EncodingDetective.DetectShape | frontend/src/Toolscripts/encoding-detective/EncodingDetectiveTool.js:230-241 | the detections are exactly the encodings that score above 0, each with its score and label, from the highest score down, ties in table order |
| EncodingDetective.DetectEncodings | frontend/src/Toolscripts/encoding-detective/EncodingDetectiveTool.js:230-241 | an encoding is among the detections exactly when it scores above 0, and at most once |
| EncodingDetective.CandidatesShape | frontend/src/Toolscripts/encoding-detective/EncodingDetectiveTool.js:233-238 | the candidates are exactly the detected encodings, in table order |
| EncodingDetective.SortShape | frontend/src/Toolscripts/encoding-detective/EncodingDetectiveTool.js:240 | sorting candidates listed in table order puts them in detection order and keeps exactly those candidates |
| EncodingDetective.InsertShape | frontend/src/Toolscripts/encoding-detective/EncodingDetectiveTool.js:240 | inserting a candidate that comes last in table order keeps detection order and adds exactly that candidate |
| EncodingDetective.DetectEncoding | frontend/src/Toolscripts/encoding-detective/EncodingDetectiveTool.js:230-241 | the method returns the detections for every input |
| EncodingDetective.Base32Text | frontend/src/Toolscripts/encoding-detective/EncodingDetectiveTool.js:68-97 | the Base32 decoder: padding and white space removed, upper-cased, 5-bit values gathered into bytes, `null` on an invalid character |
| EncodingDetective.Base32TextShape | frontend/src/Toolscripts/encoding-detective/EncodingDetectiveTool.js:68-97 | the Base32 decoder returns `null` exactly when a cleaned character is outside the alphabet, and reads back every Base32 encoding |
| EncodingDetective.HexText | frontend/src/Toolscripts/encoding-detective/EncodingDetectiveTool.js:99-108 | the hexadecimal decoder: white space removed, two-digit chunks read in radix 16; HexTextRoundTrip inverts the hex encoding |
| EncodingDetective.BinaryText | frontend/src/Toolscripts/encoding-detective/EncodingDetectiveTool.js:110-119 | the binary decoder: white space removed, eight-digit chunks read in radix 2; BinaryTextRoundTrip inverts the binary encoding |
| EncodingDetective.ChunkTextNone | frontend/src/Toolscripts/encoding-detective/EncodingDetectiveTool.js:99-119 | the hexadecimal and binary decoders return `null` exactly for text that is all white space |
| EncodingDetective.HexTextRoundTrip | frontend/src/Toolscripts/encoding-detective/EncodingDetectiveTool.js:99-108 | the hexadecimal decoder reads back the hex tool's encoding of any non-empty string of codes below 256 |
| EncodingDetective.HexTextOfGroups | frontend/src/Toolscripts/encoding-detective/EncodingDetectiveTool.js:99-108 | groups of hexadecimal digits joined by spaces decode here as the hex tool decodes them |
| EncodingDetective.BinaryTextRoundTrip | frontend/src/Toolscripts/encoding-detective/EncodingDetectiveTool.js:110-119 | the binary decoder reads back the binary tool's encoding of any non-empty string of codes below 256 |
| EncodingDetective.BinaryTextOfGroups | frontend/src/Toolscripts/encoding-detective/EncodingDetectiveTool.js:110-119 | groups of binary digits joined by spaces decode here as the binary tool decodes them |
| EncodingDetective.MorseText | frontend/src/Toolscripts/encoding-detective/EncodingDetectiveTool.js:161-180 | the Morse decoder: white-space separated codes translated and concatenated; MorseTextRoundTrip inverts the tools page's encoding |
| EncodingDetective.Decode | frontend/src/Toolscripts/encoding-detective/EncodingDetectiveTool.js:59-181 | the entry of `decodingFunctions` for an encoding, `null` as nothing |
| EncodingDetective.MorseTextRoundTrip | frontend/src/Toolscripts/encoding-detective/EncodingDetectiveTool.js:161-180 | the Morse decoder reads back the tools page's Morse code of any non-empty text of upper-case letters and digits |
| EncodingDetective.HtmlText | frontend/src/Toolscripts/encoding-detective/EncodingDetectiveTool.js:129-142 | the HTML decoder: the named entities in turn, then decimal and hexadecimal references; HtmlTextPlain shows plain text is unchanged |
| EncodingDetective.HtmlTextPlain | frontend/src/Toolscripts/encoding-detective/EncodingDetectiveTool.js:129-142 | text without `&` passes the HTML decoder unchanged |
| EncodingDetective.Accepted | frontend/src/Toolscripts/encoding-detective/EncodingDetectiveTool.js:269-274 | a decoding the loop takes: not `null`, not empty and different from its input |
| EncodingDetective.StepOf | frontend/src/Toolscripts/encoding-detective/EncodingDetectiveTool.js:260-297 | one pass of the loop: stop with no detections, else the best detection if accepted, else the second best if accepted, else stop; ChooseLayer states the choice |
| EncodingDetective.Alternatives | frontend/src/Toolscripts/encoding-detective/EncodingDetectiveTool.js:282-299 | `detections.slice(0, 3)` is the first three detections, or all of them when there are fewer |
| EncodingDetective.ChainSnoc | frontend/src/Toolscripts/encoding-detective/EncodingDetectiveTool.js:292-303 | appending a layer taken from the last output keeps the layers chained |
| EncodingDetective.Run | frontend/src/Toolscripts/encoding-detective/EncodingDetectiveTool.js:259-304 | the `while` loop: at most 20 layers, stopping on empty text; RunShape and RunLayers state what it leaves behind |
| EncodingDetective.Chosen | frontend/src/Toolscripts/encoding-detective/EncodingDetectiveTool.js:292-296 | the candidate one recorded layer names |
| EncodingDetective.RunShape | frontend/src/Toolscripts/encoding-detective/EncodingDetectiveTool.js:259-304 | the loop ends with at most 20 layers chained from the start, standing at the last output, because 20 layers are decoded, the text is empty, or a pass stops |
| EncodingDetective.RunningSnoc | frontend/src/Toolscripts/encoding-detective/EncodingDetectiveTool.js:292-303 | a pass that takes a candidate moves the loop to the next layer, recording that candidate, the input, the output and the first three detections |
| EncodingDetective.EncodingsOf | frontend/src/Toolscripts/encoding-detective/EncodingDetectiveTool.js:307 | `layers.map(l => l.encoding)` keeps one encoding per layer, in order |
| EncodingDetective.Detective | frontend/src/Toolscripts/encoding-detective/EncodingDetectiveTool.js:244-315 | `executeEncodingDetective`: the loop run from the trimmed input and summarised; DetectiveShape and DetectiveLayers state the report |
| EncodingDetective.DetectiveShape | frontend/src/Toolscripts/encoding-detective/EncodingDetectiveTool.js:244-315 | at most 20 layers, counted by `totalLayers`, chained from the trimmed input; the final result is the last output, or the trimmed input when nothing was decoded; the encodings detected are the layers' encodings, each once, in first-layer order |
| EncodingDetective.EncodingsDetected | frontend/src/Toolscripts/encoding-detective/EncodingDetectiveTool.js:307 | `[...new Set(...)]` lists each layer's encoding once, in the order of the first layer that has it |
| EncodingDetective.DetectiveStops | frontend/src/Toolscripts/encoding-detective/EncodingDetectiveTool.js:259-290 | the loop stops only after 20 layers, at empty text, or where no detection's decoding is taken |
| EncodingDetective.OverallOf | frontend/src/Toolscripts/encoding-detective/EncodingDetectiveTool.js:308-310 | the overall confidence: None with no layers, High when all layers are High, Medium when some are, Low otherwise |
| EncodingDetective.Summary | frontend/src/Toolscripts/encoding-detective/EncodingDetectiveTool.js:306-312 | the report from the loop's end state: layer count, distinct encodings, overall confidence and final text |
| EncodingDetective.OverallShape | frontend/src/Toolscripts/encoding-detective/EncodingDetectiveTool.js:308-310 | the overall confidence is none exactly without layers, High exactly when every layer is, Medium exactly when some but not every layer is, and Low when layers exist and none is |
| EncodingDetective.DetectiveLayers | frontend/src/Toolscripts/encoding-detective/EncodingDetectiveTool.js:260-300 | every layer's candidate is a detection of its input, with that encoding's score for the input (at most 100) and the label for that score |
| EncodingDetective.LayerDetected | frontend/src/Toolscripts/encoding-detective/EncodingDetectiveTool.js:266-300 | a layer of a run with the detective's own detections holds one of those detections |
| EncodingDetective.RunLayers | frontend/src/Toolscripts/encoding-detective/EncodingDetectiveTool.js:255-304 | the loop's final state is the run from the trimmed input with no layers |
| EncodingDetective.ChooseLayer | frontend/src/Toolscripts/encoding-detective/EncodingDetectiveTool.js:260-290 | one pass takes the best detection when its decoding is accepted, or else the second best when there is one and its decoding is accepted, and otherwise stops |
| EncodingDetective.ExecuteEncodingDetective | frontend/src/Toolscripts/encoding-detective/EncodingDetectiveTool.js:244-315 | the method returns the detective's report for every input |
| FrontSecurity.SliceTo | frontend/src/utils/security.js:72 | `s.slice(0, end)` is a prefix of the text, `end` long (or the whole text) for an end of zero or more, and counted from the back for a negative end |
| FrontSecurity.RemovePatterns | frontend/src/utils/security.js:75-77 | the `forEach` removes the eleven patterns in turn, each from what the earlier ones left |
| FrontSecurity.SanitizeTextInput | frontend/src/utils/security.js:66-89 | the method returns the sanitizer's result as written, for a missing input and for every length limit |
| FrontSecurity.EncodeEntities | frontend/src/utils/security.js:80-86 | the six global entity replacements, ampersand first; EncodedPlain and EncodeUnchanged state what it leaves alone |
| FrontSecurity.EncodedPlain | frontend/src/utils/security.js:80-86 | after the six replacements there is no `<`, `>`, `"`, `'` or `/` left |
| FrontSecurity.SanitizedText | frontend/src/utils/security.js:66-89 | `sanitizeTextInput`: empty for a non-string, otherwise cut to the maximum length, stripped, entity-encoded and trimmed; SanitizedTextSafe states its guarantees |
| FrontSecurity.SanitizedTextSafe | frontend/src/utils/security.js:66-89 | the sanitized text has no `<`, `>`, `"`, `'` or `/` and no white space at either end, and a missing or empty input gives '' |
| FrontSecurity.StripPatterns | frontend/src/utils/security.js:75-77 | the text after each dangerous pattern in turn has had its matches removed once; StripPatternsShortens and StripPatternsMonotone bound it |
| FrontSecurity.StripPatternsShortens | frontend/src/utils/security.js:75-77 | removing patterns only deletes code units from the sliced text, never adds any |
| FrontSecurity.LitHit | frontend/src/utils/security.js:51 | a pattern of one literal matches exactly where the literal occurs, and the match is the literal's length |
| FrontSecurity.BlockedBy | frontend/src/utils/security.js:45-57 | a single-alternative pattern leaves alone any text that lacks a character one of its literals needs |
| FrontSecurity.NestedSplice | frontend/src/utils/security.js:51 | removing `/@import/gi` from '@im@importport' joins the two halves into '@import' |
| FrontSecurity.PatternOrder | frontend/src/utils/security.js:45-57 | the eleven dangerous patterns, in their order |
| FrontSecurity.StripNestedRest | frontend/src/utils/security.js:75-77 | the whole pass turns '@im@importport' into '@import' |
| FrontSecurity.EncodeUnchanged | frontend/src/utils/security.js:80-86 | text without `&` and markup characters is not changed by the encoding |
| FrontSecurity.SanitizedTextLeavesPattern | frontend/src/utils/security.js:75-88 | `sanitizeTextInput('@im@importport')` is '@import', which the sixth pattern still matches |
| FrontSecurity.StripStable | frontend/src/utils/security.js:75-77 | the patterns removed over and over until a pass changes nothing: a text no pass changes, obtained by deleting code units only |
| FrontSecurity.StripPatternsMonotone | frontend/src/utils/security.js:75-77 | each step of a pass deletes code units from what it was given |
| FrontSecurity.StableEach | frontend/src/utils/security.js:75-77 | when a whole pass changes nothing, each single pattern changes nothing |
| FrontSecurity.StripStableClean | frontend/src/utils/security.js:45-77 | after the repeated removal no dangerous pattern matches anywhere in the text |
| FrontSecurity.SanitizedTextStable | frontend/src/utils/security.js:66-89 | the sanitizer with the removals repeated until nothing changes, the corrected form of the single pass; SanitizedTextStableClean proves that no dangerous pattern matches anywhere in what it returns |
| FrontSecurity.SanitizedTextStableSafe | frontend/src/utils/security.js:66-89 | the corrected sanitizer keeps every guarantee of the single pass: no markup character, no white space at either end, '' for a missing or empty input |
| FrontSecurity.SanitizedTextStableClean | frontend/src/utils/security.js:66-89 | for every input and length limit, no dangerous pattern matches at any position of the corrected sanitizer's output: the repeated removal leaves none, the entity encoding brings in none and `trim` keeps a slice |
| FrontSecurity.EncodeIsImages | frontend/src/utils/security.js:79-86 | the six `replace` passes, `&` first, replace each code unit by its own image: `&amp;`, `&lt;`, `&gt;`, `&quot;`, `&#x27;` and `&#x2F;` for the six marked characters and the unit itself otherwise, so nothing is encoded twice |
| FrontSecurity.ImagesClean | frontend/src/utils/security.js:45-86 | encoding a text in which no dangerous pattern matches creates no match of any: the tag patterns need a `<`, and the others either avoid `&` and cannot start inside an entity or, for the path traversal, copy back to a match in the text before encoding |
| FrontChecks.Fires | frontend/src/utils/security.js:116-128 | whether one of the four dangerous filename patterns matches the name |
| FrontChecks.ReservedName | frontend/src/utils/security.js:119 | the whole name is a device name, case-insensitively |
| FrontChecks.RuleErrors | frontend/src/utils/security.js:123-128 | one 'Filename contains invalid characters or patterns' per rule that fires, and none exactly when no rule fires |
| FrontChecks.ReplaceUnsafe | frontend/src/utils/security.js:132 | `replace(/[^a-zA-Z0-9.\-_]/g, '_')` keeps the length and leaves only `[A-Za-z0-9._-]` |
| FrontChecks.CollapseFrom | frontend/src/utils/security.js:133 | `.replace(/\.+/g, '.')`: every run of dots becomes one dot; CollapseFromShape states it |
| FrontChecks.CollapseFromShape | frontend/src/utils/security.js:133 | collapsing runs of dots keeps only code units of the input, leaves no `..`, and starts with the same code unit |
| FrontChecks.TrailEnd | frontend/src/utils/security.js:134 | the trailing run of dots starts at the index found, and the code unit before it is not a dot |
| FrontChecks.StripDots | frontend/src/utils/security.js:134 | leading and trailing dots removed; StripDotsShape states it |
| FrontChecks.StripDotsShape | frontend/src/utils/security.js:134 | after removing the leading and trailing dots, neither end is a dot and no `..` is introduced |
| FrontChecks.FilenameReport | frontend/src/utils/security.js:96-142 | `validateFilename`: the required error, the length error and one error per firing pattern; FilenameRequiredOnly and FilenameValidIff characterise it |
| FrontChecks.ValidateFilename | frontend/src/utils/security.js:96-142 | the method returns the filename report for a missing name and for every name |
| FrontChecks.CheckRules | frontend/src/utils/security.js:123-128 | the `forEach` collects one message per rule that fires, in order |
| FrontChecks.FilenameRequiredOnly | frontend/src/utils/security.js:103-107 | a missing or empty name is invalid with the single error 'Filename is required' and an empty sanitized form |
| FrontChecks.FilenameValidIff | frontend/src/utils/security.js:109-128 | a non-empty name is valid exactly when it is at most 255 code units long, has no `..`, none of `<>:"\|?*`, is not a device name and does not start with a dot; the length error appears exactly when it is too long |
| FrontChecks.SanitizeName | frontend/src/utils/security.js:130-139 | the `sanitized` name: unsafe characters replaced, dots collapsed and stripped, cut to 255, `safe_file.bin` when empty; SanitizedNameSafe and SanitizedRevalidates state its properties |
| FrontChecks.SanitizedNameSafe | frontend/src/utils/security.js:130-139 | the sanitized name is never empty, uses only `[A-Za-z0-9._-]`, is at most 255 code units long, has no `..` and does not start with a dot |
| FrontChecks.KeptSafe | frontend/src/utils/security.js:132-134 | before the cut, the name has only safe code units, no `..` and no leading dot |
| FrontChecks.PrefixSafe | frontend/src/utils/security.js:135 | cutting such a name to 255 code units keeps those properties |
| FrontChecks.SafeNameRules | frontend/src/utils/security.js:116-121 | a name of safe code units without `..` or a leading dot fires none of the forbidden-character rules |
| FrontChecks.SanitizedRevalidates | frontend/src/utils/security.js:96-142 | validating the sanitized name again fails exactly for a device name such as `CON` |
| FrontChecks.ValidateFile | frontend/src/utils/security.js:149-191 | the method returns the file report for a missing file and for every file |
| FrontChecks.CheckFile | frontend/src/utils/security.js:162-190 | the checks on a present file give the size error, the type warning, the name's errors and the extension warnings, in that order |
| FrontChecks.SizeError | frontend/src/utils/security.js:162-166 | a file over 50 MiB is invalid with the 'File too large (max 50MB)' error; otherwise there is no error |
| FrontChecks.TypeWarning | frontend/src/utils/security.js:170 | the `Uncommon file type` warning naming the type |
| FrontChecks.TypeNote | frontend/src/utils/security.js:168-171 | a MIME type outside the allowed list gives the 'Uncommon file type' warning naming it; otherwise no warning |
| FrontChecks.NameErrors | frontend/src/utils/security.js:173-178 | an invalid name makes the file invalid and appends the name's errors |
| FrontChecks.ExtensionNotes | frontend/src/utils/security.js:180-188 | the executable and archive warnings are appended, in that order, exactly when the name ends with one of those extensions |
| FrontChecks.NotesDiffer | frontend/src/utils/security.js:170-187 | the three warnings are different texts |
| FrontChecks.FileWarnings | frontend/src/utils/security.js:168-188 | the warnings in push order; FileWarningsIff shows each is present exactly when its condition holds |
| FrontChecks.FileWarningsIff | frontend/src/utils/security.js:168-188 | each warning is present exactly when its condition holds, and none is repeated |
| FrontChecks.FileReport | frontend/src/utils/security.js:149-191 | `validateFile`: the missing-file error, else size, name errors and warnings; FileValidIff states when the file is valid |
| FrontChecks.FileValidIff | frontend/src/utils/security.js:149-191 | a file is valid exactly when it exists, is at most 50 MiB and has a valid name; it is valid exactly when it has no errors |
| FrontChecks.FileTypeOnlyWarns | frontend/src/utils/security.js:168-171 | the MIME type never changes the verdict or the errors |
| FrontChecks.ExecutablePasses | frontend/src/utils/security.js:180-183 | a one-byte `payload.exe` of type `text/plain` is valid, with only the executable warning to flag it |
| FrontChecks.PayloadName | frontend/src/utils/security.js:96-142 | `payload.exe` is a valid name with an executable extension |
| FrontChecks.SanitizedFields | frontend/src/utils/security.js:269-283 | one field per input field, in `Object.keys` order, each with its key and its sanitized value |
| FrontChecks.SanitizeValue | frontend/src/utils/security.js:272-281 | a string field is sanitized and any other value copied |
| FrontChecks.Suspicious | frontend/src/utils/security.js:276 | a non-empty string whose sanitized form is shorter than 80 per cent of it |
| FrontChecks.FieldErrors | frontend/src/utils/security.js:275-279 | there is no error exactly when no string field lost more than a fifth of its length |
| FrontChecks.ValidateFormData | frontend/src/utils/security.js:255-286 | the method returns the form report for missing data and for every object |
| FrontChecks.FieldStep | frontend/src/utils/security.js:269-283 | after each field, the sanitized fields and the errors are those of the fields so far, and the form is valid exactly when there is no error |
| FrontChecks.CheckField | frontend/src/utils/security.js:270-282 | a string value comes back sanitized and flagged when it shrank below four fifths of its length; any other value comes back unchanged |
| FrontChecks.FormReport | frontend/src/utils/security.js:255-286 | `validateFormData`: the invalid-data error for a non-object, else every field sanitized and an error per suspicious field; FormValidIff states it |
| FrontChecks.FormValidIff | frontend/src/utils/security.js:255-286 | the form is valid exactly when it is an object none of whose string fields lost more than a fifth of its length; keys and non-string values come back unchanged, and every string field comes back as its sanitized text |
| FrontChecks.FormFieldsSafe | frontend/src/utils/security.js:273 | every sanitized string field has no markup character and no white space at either end |
| RateLimit.StorageKey | frontend/src/utils/security.js:297 | the storage key `rateLimit_` followed by the caller's key |
| RateLimit.Step | frontend/src/utils/security.js:295-323 | one `checkRateLimit` call: reset an expired window, refuse at the limit, count otherwise, and allow unchanged when storage throws; the RateLimiter lemmas state it |
| RateLimit.Current | frontend/src/utils/security.js:300-307 | the window compared against is the stored one, or a fresh one when none is stored; once `now` has reached its reset time it is a fresh window counting 0 |
| RateLimit.RateLimiter.constructor | frontend/src/utils/security.js:295-300 | the limiter starts with the given storage and with reading and writing working or throwing as given |
| RateLimit.RateLimiter.CheckRateLimit | frontend/src/utils/security.js:295-323 | the verdict and the new storage are those of one step of the fixed-window counter, and whether storage works does not change |
| RateLimit.StepOtherKeys | frontend/src/utils/security.js:297-316 | only the entry under `rateLimit_${key}` can change |
| RateLimit.StepReset | frontend/src/utils/security.js:303-307 | a window whose reset time has come acts as if nothing were stored: the same verdict, and a new window counting one is written |
| RateLimit.StepCounts | frontend/src/utils/security.js:309-318 | with storage working, a call is refused exactly when the window's count has reached the limit; a refusal writes nothing, an accepted call writes the count plus one |
| RateLimit.StepFailsOpen | frontend/src/utils/security.js:319-322 | when reading throws or the entry does not parse, the call is allowed and nothing is written; when writing throws, nothing is written |
| RateLimit.Run | frontend/src/utils/security.js:295-323 | over a sequence of calls, no more calls are allowed than were made |
| RateLimit.RunWithin | frontend/src/utils/security.js:304-318 | inside a window that already counts c, the calls before its reset time get what is left of the limit |
| RateLimit.RunNoBudget | frontend/src/utils/security.js:301-312 | from a fresh key with a limit of zero or less, every call is refused, whatever the window length |
| RateLimit.WindowBudget | frontend/src/utils/security.js:295-323 | from a fresh key, of the calls made within `windowMs` of the first, exactly min(calls, limit) are allowed |
| BackendSecurity.Dangerous | backend/security.py:87-95 | some pattern of `DANGEROUS_PATTERNS` occurs in the name, in any letter case; KeptNotDangerous shows replaced names never are |
| BackendSecurity.ReplaceUnsafe | backend/security.py:133 | every character outside `\w`, `-` and `.` is replaced by `_`: the length is unchanged and only those characters remain |
| BackendSecurity.Prefix | backend/security.py:138 | the slice `s[:n]` is the first `min(n, len(s))` characters of `s` |
| BackendSecurity.CapAsWritten | backend/security.py:135-138 | the length cap as written: over 255 characters keeps 250 of the root and the whole extension; SanitizedAsWrittenNotIdempotent shows the result can exceed 255 |
| BackendSecurity.Fallback | backend/security.py:140-142 | the `safe_file_<token>.bin` name when the result is empty, `.` or `..`; FallbackKept shows it keeps only safe characters |
| BackendSecurity.Cap | backend/security.py:135-138 | the corrected cap never yields more than 255 characters |
| BackendSecurity.FindAny | backend/security.py:128-130 | the early-exit loop over the dangerous patterns reports a match exactly when some pattern matches somewhere in the name |
| BackendSecurity.SanitizedAsWritten | backend/security.py:119-144 | `sanitize_filename` as written: errors for an empty or dangerous name, else basename, replace, cap and fall back; SanitizedAsWrittenShortIdempotent and SanitizedAsWrittenNotIdempotent relate it to itself |
| BackendSecurity.Sanitized | backend/security.py:119-144 | `sanitize_filename` with the corrected cap; SanitizedKept and SanitizedIdempotent state that it keeps only safe characters and is idempotent |
| BackendSecurity.SanitizeWith | backend/security.py:119-144 | every rejection of `sanitize_filename` is an HTTP 400 |
| BackendSecurity.SanitizeFilename | backend/security.py:119-144 | the stage-by-stage method yields exactly the as-written sanitised name or rejection |
| BackendSecurity.SafeNameKept | backend/security.py:141-142 | the fallback name `safe_file_<16 hex>.bin` has 30 characters, all of them kept by the replacement |
| BackendSecurity.KeptNotDangerous | backend/security.py:87-133 | no dangerous pattern can match a name built only from `\w`, `-` and `.` |
| BackendSecurity.CapsKeep | backend/security.py:135-138 | both the as-written and the corrected cap keep only characters of the name they cut |
| BackendSecurity.FallbackKept | backend/security.py:140-142 | after the fallback the name is non-empty, not `.` or `..`, has no `/` and only kept characters |
| BackendSecurity.SanitizeWithKept | backend/security.py:119-144 | an accepted name is non-empty, not `.` or `..`, has no `/` and only `\w`, `-` and `.` characters |
| BackendSecurity.SanitizedKept | backend/security.py:119-144 | the as-written and the corrected sanitiser both yield names with no `/` and only `\w`, `-` and `.` |
| BackendSecurity.TraversalDropped | backend/security.py:125-130 | `../../etc/passwd.txt` is accepted as `passwd.txt`: `basename` runs before the traversal check |
| BackendSecurity.Resanitize | backend/security.py:119-144 | an accepted name that the cap leaves alone is returned unchanged when sanitised again |
| BackendSecurity.SanitizedIdempotent | backend/security.py:119-144 | the corrected sanitiser yields at most 255 characters and sanitising its result again returns it unchanged |
| BackendSecurity.SanitizedAsWrittenShortIdempotent | backend/security.py:119-144 | as written, sanitising again is the identity on results of at most 255 characters |
| BackendSecurity.LongDotted | backend/security.py:135-138 | the witness name: 250 dots, `a`, `.`, ten `b`s |
| BackendSecurity.LongDottedOnce | backend/security.py:135-138 | its first sanitisation: 251 dots followed by ten `b`s |
| BackendSecurity.LongDottedFirstCap | backend/security.py:135-138 | the as-written cap turns the witness into 261 characters, because `splitext` takes `.bbbbbbbbbb` as the extension |
| BackendSecurity.LongDottedSecondCap | backend/security.py:135-138 | on the 261-character result `splitext` finds no extension, so the cap cuts it to 250 characters |
| BackendSecurity.SanitizedAsWrittenNotIdempotent | backend/security.py:135-138 | as written, a sanitised name can exceed 255 characters and sanitising it again changes it |
| BackendSecurity.LowerBytes | backend/security.py:179 | `bytes.lower()` keeps the length |
| BackendSecurity.FindSub | backend/security.py:174-181 | the early-exit loop over the script patterns reports a hit exactly when one of them occurs in the lower-cased content |
| BackendSecurity.Executable | backend/security.py:170 | the content starts with `MZ` or with `\x7fELF` |
| BackendSecurity.ScriptContent | backend/security.py:174-181 | one of the seven script markers occurs in the lower-cased content |
| BackendSecurity.Extension | backend/security.py:165 | `os.path.splitext(filename)[1].lower()`: the lower-cased extension, dot included |
| BackendSecurity.HighEntropy | backend/security.py:184-187 | the entropy check fires on non-empty content, with the entropy test of the first 1024 bytes a parameter |
| BackendSecurity.CommonMime | backend/security.py:161 | the MIME type is one of the allowed ones |
| BackendSecurity.CommonExtension | backend/security.py:166 | the extension is one of the allowed ones |
| BackendSecurity.WarningsOf | backend/security.py:160-187 | the warnings for the outcome of each check in the order they run; WarningsOfSpec shows each is present exactly when its check fires |
| BackendSecurity.Warnings | backend/security.py:160-187 | the warnings of `validate_file_content`; WarningsSpec and ExecutableFlagged state them |
| BackendSecurity.ContentReport | backend/security.py:147-189 | what `validate_file_content` returns: only the size makes it unsafe; ContentSafety states it |
| BackendSecurity.ValidateFileContent | backend/security.py:147-189 | the record filled check by check is the content report of the specification function |
| BackendSecurity.TypeWarnings | backend/security.py:160-167 | the MIME warning comes first, then the extension warning, each only when its check fires |
| BackendSecurity.ContentWarnings | backend/security.py:169-187 | the executable, script and entropy warnings are appended in that order, each only when its check fires |
| BackendSecurity.ContentSafety | backend/security.py:155-158 | content is unsafe exactly when it exceeds 50 MiB, and then there is exactly one issue naming its size |
| BackendSecurity.WarningsOfSpec | backend/security.py:160-187 | each warning appears exactly when its check fires, no warning twice, one per check that fires |
| BackendSecurity.WarningsSpec | backend/security.py:160-187 | the warnings of `validate_file_content`: MIME, extension, executable header, script content and entropy, each present exactly when its check fires, at most five, all distinct |
| BackendSecurity.ExecutableFlagged | backend/security.py:169-171 | content starting with `MZ` is flagged as an executable whatever its name and MIME type |
| BackendSecurity.ValidateScriptCommand | backend/security.py:249-286 | `validate_script_command`: false for an empty or blank command or a program not exactly in the allow list, false when a deny pattern matches case-insensitively, true otherwise; the lemmas below state each family of patterns |
| BackendSecurity.ForceRemoveRefused | backend/security.py:267 | `rm`, at least one white-space character and `-rf`, in any letter case and anywhere, make the command refused |
| BackendSecurity.DevRedirectRefused | backend/security.py:268 | `>`, any white space and `/dev` make the command refused |
| BackendSecurity.PipedDownloadRefused | backend/security.py:269-270 | `curl` or `wget` followed later on the same line by a pipe character make the command refused |
| BackendSecurity.NetcatRefused | backend/security.py:271 | `nc`, white space, and later on the same line more white space make the command refused |
| BackendSecurity.NcInsideWordRefused | backend/security.py:271 | the netcat pattern also fires inside a word: `python3 func a b` is refused |
| BackendSecurity.ShellStringRefused | backend/security.py:272-273 | `bash` or `sh`, white space and `-c` make the command refused, in any letter case |
| BackendSecurity.OperatorRefused | backend/security.py:274-277 | command substitution `$(`, `&&` and the double pipe make the command refused wherever they occur |
| BackendSecurity.BacktickPairRefused | backend/security.py:275 | two backticks on one line make the command refused |
| BackendSecurity.SemicolonRemoveRefused | backend/security.py:278 | `;`, any white space and `rm` make the command refused, whatever follows |
| BackendSecurity.SemicolonCatEtcRefused | backend/security.py:279 | `;`, any white space, `cat`, at least one white-space character and `/etc` make the command refused |
| BackendSecurity.ProgramRefused | backend/security.py:259-263 | a command whose first field is not exactly one of the allowed programs is refused, whatever follows it |
| BackendSecurity.UpperCaseProgramRefused | backend/security.py:262-263 | the allow list is matched exactly: `PYTHON3 script.py` is refused though the deny patterns ignore letter case |
| BackendSecurity.BlankCommandRefused | backend/security.py:251-257 | an empty or all-white-space command is refused |
| BackendSecurity.ChainedRemoveRefused | backend/security.py:266-284 | `python3 script.py; rm -rf /` is refused although its program is allowed |
| BackendSecurity.SemicolonNotDenied | backend/security.py:266-284 | a command whose only metacharacters are semicolons, none followed by `rm` or `cat /etc`, and with no `nc`, matches no deny pattern |
| BackendSecurity.SemicolonAccepted | backend/security.py:249-286 | such a command is accepted exactly when its first field is an allowed program |
| BackendSecurity.CatSemicolonAccepted | backend/security.py:278-279 | `cat a; ls` is accepted: a semicolon is refused only before `rm` or `cat /etc` |
| BackendSecurity.MetaFreeNotDenied | backend/security.py:266-284 | no deny pattern matches a command without `-`, `>`, `\|`, `$`, backtick, `&`, `;` and without `nc` in any letter case |
| BackendSecurity.MetaFreeAccepted | backend/security.py:249-286 | such a command is accepted exactly when its first field is an allowed program |
| BackendSecurity.PlainScriptAccepted | backend/security.py:249-286 | `python3 script.py` is accepted |
| BackendSecurity.OneBacktickNotDenied | backend/security.py:275 | a command with at most one backtick is not matched by the backtick pattern |
| BackendSecurity.ClientIp | backend/security.py:300-313 | `get_client_ip`: the first entry of `X-Forwarded-For` stripped, else `X-Real-IP` stripped, else the peer or `unknown`; ClientIpForwarded and ClientIpFallbacks state the cases |
| BackendSecurity.ClientIpForwarded | backend/security.py:303-306 | a non-empty `X-Forwarded-For` wins and yields its first entry, with no comma and no surrounding white space |
| BackendSecurity.ClientIpFallbacks | backend/security.py:308-313 | otherwise a non-empty `X-Real-IP` stripped wins, then the peer address, then `unknown` |
| BackendSecurity.SecureErrorResponse | backend/security.py:365-386 | the response carries the given status code, timestamp and request id |
| BackendSecurity.ErrorResponseGeneric | backend/security.py:365-377 | the caller's message never reaches the response: the error text is one of the generic messages chosen by status alone, `An error occurred` for unknown codes |
| Exiftool.FileType | backend/custom-scripts/exiftool-analyzer/exiftool_analyzer.py:43-59 | the type named by the first magic-byte prefix the header starts with, `Unknown` otherwise; FileTypeIsFirstMatch and FileTypeSpec state it |
| Exiftool.FirstMatchSpec | backend/custom-scripts/exiftool-analyzer/exiftool_analyzer.py:43-59 | a signature table lookup names the first signature the header starts with, and gives `Unknown` exactly when none fits |
| Exiftool.FileTypeIsFirstMatch | backend/custom-scripts/exiftool-analyzer/exiftool_analyzer.py:43-59 | the `if`/`elif` chain is the lookup in the table of seven signatures, in the source's order |
| Exiftool.FileTypeSpec | backend/custom-scripts/exiftool-analyzer/exiftool_analyzer.py:43-59 | the file type is that of the first signature the header starts with, and `Unknown` exactly when none fits |
| Exiftool.SignaturesExclusive | backend/custom-scripts/exiftool-analyzer/exiftool_analyzer.py:44-57 | no header starts with two of the signatures, so the order of the chain does not matter |
| Exiftool.FileTypeOfHeader | backend/custom-scripts/exiftool-analyzer/exiftool_analyzer.py:39-59 | reading sixteen bytes loses nothing: the type of the header is the type of the whole content |
| Exiftool.Header | backend/custom-scripts/exiftool-analyzer/exiftool_analyzer.py:40 | `f.read(16)` is a prefix of the content of length `min(16, n)` |
| Exiftool.HeaderHexSpec | backend/custom-scripts/exiftool-analyzer/exiftool_analyzer.py:41 | `File Header` has two upper-case hexadecimal digits per header byte, denoting that byte |
| Exiftool.OctalDigit | backend/custom-scripts/exiftool-analyzer/exiftool_analyzer.py:36 | an octal digit is one of `0`..`7` |
| Exiftool.Oct | backend/custom-scripts/exiftool-analyzer/exiftool_analyzer.py:36 | `oct(m)` starts with `0o` and has at least one digit |
| Exiftool.Permissions | backend/custom-scripts/exiftool-analyzer/exiftool_analyzer.py:36 | `oct(st_mode)[-3:]` has three characters |
| Exiftool.PermissionsSpec | backend/custom-scripts/exiftool-analyzer/exiftool_analyzer.py:36 | for a mode of at least `0o100` the entry is the owner, group and others digits |
| Exiftool.LastThreeDigits | backend/custom-scripts/exiftool-analyzer/exiftool_analyzer.py:36 | the last three octal digits of a number of at least 64 are its three lowest base-8 digits |
| Exiftool.PermissionsSmallMode | backend/custom-scripts/exiftool-analyzer/exiftool_analyzer.py:36 | a mode below `0o100` would keep the `o` of the prefix in the entry |
| Exiftool.Sample | backend/custom-scripts/exiftool-analyzer/exiftool_analyzer.py:75 | `strings[:5]`: the first five lines, or all of them when fewer |
| Exiftool.StringLines | backend/custom-scripts/exiftool-analyzer/exiftool_analyzer.py:73 | `stdout.strip().split('\n')` always has at least one line |
| Exiftool.AnalyzeFileMetadata | backend/custom-scripts/exiftool-analyzer/exiftool_analyzer.py:26-82 | when `stat` or a read raises, the metadata is the single `Error` entry; otherwise it is the entries of the file, filled in order |
| Exiftool.StatEntries | backend/custom-scripts/exiftool-analyzer/exiftool_analyzer.py:32-36 | the name, size, modification time and permission entries taken from `stat` |
| Exiftool.StatStep | backend/custom-scripts/exiftool-analyzer/exiftool_analyzer.py:32-36 | the four `stat` entries: name, size in bytes, modification time, permissions |
| Exiftool.ContentEntries | backend/custom-scripts/exiftool-analyzer/exiftool_analyzer.py:39-66 | the header, file type and three digest entries taken from the content |
| Exiftool.ContentStep | backend/custom-scripts/exiftool-analyzer/exiftool_analyzer.py:39-66 | the header, type and three digest entries are appended after the earlier ones |
| Exiftool.StringsEntries | backend/custom-scripts/exiftool-analyzer/exiftool_analyzer.py:69-77 | the entries of the `strings` step: count and sample on success, nothing on a failing exit code, the N/A notice when the command cannot run; StringsKeys and StringsSpec state them |
| Exiftool.StringsStep | backend/custom-scripts/exiftool-analyzer/exiftool_analyzer.py:69-77 | the entries of the `strings` step are appended after the earlier ones |
| Exiftool.StringsKeys | backend/custom-scripts/exiftool-analyzer/exiftool_analyzer.py:69-77 | a successful run adds the count and the sample, a failing run adds nothing, and a command that could not run adds the count alone |
| Exiftool.KeysDistinct | backend/custom-scripts/exiftool-analyzer/exiftool_analyzer.py:33-77 | no two keys of the metadata are equal |
| Exiftool.FileEntries | backend/custom-scripts/exiftool-analyzer/exiftool_analyzer.py:28-79 | the entries of a readable file in insertion order; FileKeys and KeysDistinct state its keys |
| Exiftool.ErrorEntry | backend/custom-scripts/exiftool-analyzer/exiftool_analyzer.py:81-82 | the single `Error` entry returned when an exception is raised |
| Exiftool.FileKeys | backend/custom-scripts/exiftool-analyzer/exiftool_analyzer.py:26-79 | a readable file gets the nine basic keys in the source's order, then those of the `strings` step, none repeated |
| Exiftool.StringsSpec | backend/custom-scripts/exiftool-analyzer/exiftool_analyzer.py:73-75 | the count is that of the lines with at least four characters, the sample the first five lines (or all of fewer), and empty output gives one empty line |
| FileInspector.FirstMax | backend/custom-scripts/file-inspector/file_inspector.py:65-66 | the first candidate with the greatest count: no candidate counts more, and every earlier one counts less |
| FileInspector.EveryEighth | backend/custom-scripts/file-inspector/file_inspector.py:84 | `data[::8]` holds the bytes at positions `0, 8, 16, …`, `ceil(n / 8)` of them |
| FileInspector.HeaderAscii | backend/custom-scripts/file-inspector/file_inspector.py:92 | one character per header byte |
| FileInspector.InspectionOf | backend/custom-scripts/file-inspector/file_inspector.py:46-94 | the analysis dictionary of a non-empty file; AnalyzeFileStructure states its fields |
| FileInspector.AnalyzeFileStructure | backend/custom-scripts/file-inspector/file_inspector.py:40-97 | a failing read gives the error entry; an empty file gives the `IndexError` raised by `most_common(1)[0]`; any other file gives its full analysis |
| FileInspector.DetectPatterns | backend/custom-scripts/file-inspector/file_inspector.py:78-87 | the messages appended test by test are the pattern list of the specification function |
| FileInspector.NoDuplicatesBound | backend/custom-scripts/file-inspector/file_inspector.py:64 | a list of distinct bytes below `m` has at most `m` elements |
| FileInspector.UniqueBytes | backend/custom-scripts/file-inspector/file_inspector.py:63-64 | `unique_bytes` of a non-empty file is between 1 and 256 and counts every byte of the file |
| FileInspector.MostCommon | backend/custom-scripts/file-inspector/file_inspector.py:65 | `most_common(1)[0][0]`: a byte of greatest count, the earliest among equals; MostCommonSpec and FirstMax state it |
| FileInspector.MostCommonSpec | backend/custom-scripts/file-inspector/file_inspector.py:63-66 | `most_common_byte` occurs in the file and no byte occurs more often; every byte first seen before it occurs less often |
| FileInspector.ByteLiteral | backend/custom-scripts/file-inspector/file_inspector.py:65 | `0x` followed by the byte in two lower-case hex digits |
| FileInspector.ByteLiteralDigits | backend/custom-scripts/file-inspector/file_inspector.py:65 | `0x{b:02x}` is `0x` and two lower-case hexadecimal digits denoting the byte |
| FileInspector.AsciiCount | backend/custom-scripts/file-inspector/file_inspector.py:74 | the number of bytes from 32 to 126 |
| FileInspector.NullAndAscii | backend/custom-scripts/file-inspector/file_inspector.py:69-76 | null bytes and ASCII characters together are at most the file size |
| FileInspector.NullPadded | backend/custom-scripts/file-inspector/file_inspector.py:80 | more than one per cent of the length are non-overlapping zero pairs, compared exactly |
| FileInspector.HighPadded | backend/custom-scripts/file-inspector/file_inspector.py:82 | more than one per cent of the length are non-overlapping 0xFF pairs, compared exactly |
| FileInspector.Structured | backend/custom-scripts/file-inspector/file_inspector.py:84 | every eighth byte takes fewer than ten distinct values |
| FileInspector.Detected | backend/custom-scripts/file-inspector/file_inspector.py:79-85 | the detections in the order they are tested |
| FileInspector.Patterns | backend/custom-scripts/file-inspector/file_inspector.py:78-87 | the detections, or the single `No obvious patterns detected` line; PatternsSpec states each |
| FileInspector.PatternsSpec | backend/custom-scripts/file-inspector/file_inspector.py:78-87 | `patterns` is never empty; each message is present exactly when its test fires, the default exactly when none fires, and none is repeated |
| FileInspector.ShortFilesStructured | backend/custom-scripts/file-inspector/file_inspector.py:84-85 | a file of at most 72 bytes is always reported as structured |
| FileInspector.Header | backend/custom-scripts/file-inspector/file_inspector.py:90 | `data[:32]`: the first 32 bytes, or the whole file when shorter |
| FileInspector.HeaderSpec | backend/custom-scripts/file-inspector/file_inspector.py:89-92 | the header is the first `min(32, n)` bytes; `header_hex` has their upper-case hexadecimal, `header_ascii` each printable byte as itself and any other as `.` |
| FileAnalysis.Chars | frontend/src/pages/FileAnalysisPage.js:152 | `String.fromCharCode` of each byte gives one code unit per byte, equal to it |
| FileAnalysis.Entries | frontend/src/pages/FileAnalysisPage.js:159-163 | one entry per kept run |
| FileAnalysis.ExtractStringsFromBinary | frontend/src/pages/FileAnalysisPage.js:146-178 | the entries built by the loop are the entries of the runs the scan keeps |
| FileAnalysis.EntryOf | frontend/src/pages/FileAnalysisPage.js:159-163 | the record of one printable run: its text, its offset and its length |
| FileAnalysis.FlushRun | frontend/src/pages/FileAnalysisPage.js:169-175 | after the last byte the open run is kept, with its entry at `data.length - length`, when it is long enough |
| FileAnalysis.ScanByte | frontend/src/pages/FileAnalysisPage.js:150-167 | one pass of the loop advances the scan by one byte and keeps the entries and the open text in step with it |
| FileAnalysis.VisibleStep | frontend/src/pages/FileAnalysisPage.js:155-156 | a byte between 32 and 126 extends the open run and its text by that byte |
| FileAnalysis.BreakStep | frontend/src/pages/FileAnalysisPage.js:157-165 | any other byte closes the open run, which is kept with offset `i - length` when it has at least `minLength` bytes |
| FileAnalysis.EntriesSound | frontend/src/pages/FileAnalysisPage.js:146-176 | every entry's value is `data[offset..offset + length]`, at least `minLength` bytes between 32 and 126, and the bytes just before and after are not printable |
| FileAnalysis.EntriesInOrder | frontend/src/pages/FileAnalysisPage.js:150-175 | entries come in increasing offset order and do not overlap or touch |
| FileAnalysis.EntriesComplete | frontend/src/pages/FileAnalysisPage.js:146-176 | every maximal run of at least `minLength` printable bytes is listed |
| FileAnalysis.HalfLine | frontend/src/pages/FileAnalysisPage.js:198 | a half line has eight hex cells |
| FileAnalysis.Column | frontend/src/pages/FileAnalysisPage.js:187-196 | the ASCII column has sixteen characters, padded with spaces past the end |
| FileAnalysis.LineCount | frontend/src/pages/FileAnalysisPage.js:182 | the number of lines is `ceil(n / 16)` |
| FileAnalysis.Lines | frontend/src/pages/FileAnalysisPage.js:182-199 | the first `k` lines of the dump, one per chunk |
| FileAnalysis.DumpLine | frontend/src/pages/FileAnalysisPage.js:183-198 | one pass of the outer loop builds the line for offset `i` |
| FileAnalysis.DumpWith | frontend/src/pages/FileAnalysisPage.js:180-202 | the loop concatenates the lines for offsets `0, 16, 32, …`, `ceil(n / 16)` of them |
| FileAnalysis.HexDump | frontend/src/pages/FileAnalysisPage.js:180-202 | `generateHexDump` with 16 bytes per line; HexDumpLines and GenerateHexDump state it is one line per 16 bytes |
| FileAnalysis.GenerateHexDump | frontend/src/pages/FileAnalysisPage.js:180-202 | `generateHexDump(data)` is the dump of the specification function |
| FileAnalysis.HexField | frontend/src/pages/FileAnalysisPage.js:183 | `toString(16).padStart(width, '0').toUpperCase()`; HexFieldDigits and UpperPadded state its digits and width |
| FileAnalysis.HexFieldDigits | frontend/src/pages/FileAnalysisPage.js:183 | an address below `16^8` is written in exactly eight upper-case hexadecimal digits that read back as the offset |
| FileAnalysis.UpperPadded | frontend/src/pages/FileAnalysisPage.js:183-190 | zero-padding and upper-casing a hexadecimal numeral keeps its value and gives `width` upper-case digits |
| FileAnalysis.UpperDigits | frontend/src/pages/FileAnalysisPage.js:183-190 | upper-casing lower-case hexadecimal digits keeps their values |
| FileAnalysis.FoldHexDigit | frontend/src/pages/FileAnalysisPage.js:183-190 | upper-casing one hexadecimal digit keeps its value |
| FileAnalysis.HexCell | frontend/src/pages/FileAnalysisPage.js:188-194 | the hex cell of a position: the byte in two upper-case digits, or two spaces past the end |
| FileAnalysis.AsciiCell | frontend/src/pages/FileAnalysisPage.js:188-195 | the ASCII cell: the byte when it is visible, `.` for other bytes, a space past the end |
| FileAnalysis.HexCellOf | frontend/src/pages/FileAnalysisPage.js:188-194 | a byte's cell is two upper-case hexadecimal digits reading back as the byte; a missing byte's cell is two spaces |
| FileAnalysis.HexFieldNoBreak | frontend/src/pages/FileAnalysisPage.js:183-190 | hexadecimal fields hold no line break |
| FileAnalysis.Frame | frontend/src/pages/FileAnalysisPage.js:198 | the pieces of a line body sit at fixed positions: address at 0, halves at 10 and 35, the column between `\|` at 60 and 77 |
| FileAnalysis.Body | frontend/src/pages/FileAnalysisPage.js:183-198 | one dump line without its break: address, two half lines of hex cells and the framed ASCII column; BodyLayout states its positions |
| FileAnalysis.BodyLayout | frontend/src/pages/FileAnalysisPage.js:183-198 | every line body is 78 characters: address first, cell `j` at its fixed column, the ASCII column between two `\|` |
| FileAnalysis.BodyNoBreak | frontend/src/pages/FileAnalysisPage.js:183-198 | a line body holds no line break |
| FileAnalysis.Bodies | frontend/src/pages/FileAnalysisPage.js:182-199 | one body per line |
| FileAnalysis.HexDumpLines | frontend/src/pages/FileAnalysisPage.js:180-202 | split at line breaks the dump gives the `ceil(n / 16)` line bodies and a final empty string; it has 79 characters per line, so empty data gives `''` |
| FileAnalysis.DumpJoin | frontend/src/pages/FileAnalysisPage.js:198 | the dump is the line bodies each followed by a line break |
| FileAnalysis.Line | frontend/src/pages/FileAnalysisPage.js:198 | a dump line with its line break |
| FileAnalysis.LineShape | frontend/src/pages/FileAnalysisPage.js:198 | every line is its 78-character body without a line break, then a line break |
| ServerStrings.ExtractStrings | backend/server.py:119-136 | the strings built by the loop are the texts of the runs of kept bytes the scan keeps |
| ServerStrings.ScanByte | backend/server.py:124-131 | one pass of the loop advances the scan by one byte and keeps the strings and the open string in step |
| ServerStrings.FlushRun | backend/server.py:133-134 | after the last byte the open string is kept when it is long enough |
| ServerStrings.Kept | backend/server.py:125-126 | the bytes `extract_strings` adds to the current string; KeptIsPrintable states they are the printable ones |
| ServerStrings.KeptIsPrintable | backend/server.py:125-126 | the exclusion of line feed, carriage return and tab is redundant: a byte is kept exactly when `chr(b).isprintable()` |
| ServerStrings.StringsSound | backend/server.py:119-136 | every string has at least `min_length` characters, each `chr` of a printable byte, and comes from a run that cannot be extended either way |
| ServerStrings.StringsInOrder | backend/server.py:124-134 | the strings come in the order of their runs, none overlapping the next |
| ServerStrings.StringsComplete | backend/server.py:119-136 | every maximal run of at least `min_length` kept bytes is listed, the trailing one included |
| ServerStrings.StringsEmpty | backend/server.py:119-136 | empty data gives `[]` for a positive `min_length`, and `[""]` when `min_length <= 0` |
| StringScan.ScanState | backend/server.py:121-131 | after `i` bytes, the open run is at most `i` long and every kept run ends before it starts |
| StringScan.ScanStep | backend/server.py:124-131 | a printable byte extends the open run; any other byte closes it, keeping it when it has at least `minLength` bytes |
| StringScan.Extract | backend/server.py:119-136 | every kept run lies inside the data |
| StringScan.RunChars | backend/server.py:125 | a run's text is `chr` of each of its bytes |
| StringScan.Texts | backend/server.py:130 | one text per kept run |
| StringScan.StartUnique | backend/server.py:124-131 | two runs that cannot be extended to the left and end at the same place are the same run |
| StringScan.ExtractSound | backend/server.py:119-136 | every kept run has at least `minLength` bytes and is a maximal run of printable bytes |
| StringScan.ExtractInOrder | backend/server.py:124-134 | the kept runs come in order, each ending before the next begins |
| StringScan.ExtractComplete | backend/server.py:119-136 | every maximal run of at least `minLength` printable bytes is kept |
| StringScan.ExtractEmpty | backend/server.py:119-136 | empty data yields no runs for a positive `minLength` |
| StringExtractor.ExtractStrings | backend/custom-scripts/string-extractor/string_extractor.py:22-67 | a failing read gives the `error` entry; otherwise the ASCII strings are the texts of the kept runs of bytes 32..126, next to the Unicode and wide lists |
| StringExtractor.ScanByte | backend/custom-scripts/string-extractor/string_extractor.py:32-38 | one pass of the loop advances the scan by one byte and keeps the strings and the open string in step |
| StringExtractor.FlushRun | backend/custom-scripts/string-extractor/string_extractor.py:40-42 | after the last byte the open string is kept when it is long enough |
| StringExtractor.Ascii | backend/custom-scripts/string-extractor/string_extractor.py:33 | the bytes of an ASCII string, 32 to 126 |
| StringExtractor.AsciiSound | backend/custom-scripts/string-extractor/string_extractor.py:29-42 | every ASCII string has at least `min_length` characters between 32 and 126 and comes from a maximal run; the runs are in order and do not overlap |
| StringExtractor.AsciiComplete | backend/custom-scripts/string-extractor/string_extractor.py:29-42 | every maximal run of at least `min_length` ASCII bytes is listed, the trailing one included |
| StringExtractor.Groups | backend/custom-scripts/string-extractor/string_extractor.py:72-74 | the error dictionary contributes no lists, any other dictionary its three |
| StringExtractor.Deduped | backend/custom-scripts/string-extractor/string_extractor.py:99 | deduplication keeps each pattern name and its position |
| StringExtractor.MinLength | backend/custom-scripts/string-extractor/string_extractor.py:107 | the least length is a lower bound of all lengths and is the length of some string |
| StringExtractor.MaxLength | backend/custom-scripts/string-extractor/string_extractor.py:108 | the greatest length is an upper bound of all lengths and is the length of some string |
| StringExtractor.AnalyzeStrings | backend/custom-scripts/string-extractor/string_extractor.py:69-112 | the analysis is the total, by-type counts, empty interesting patterns, found patterns and length summary of the specification functions |
| StringExtractor.AllStrings | backend/custom-scripts/string-extractor/string_extractor.py:71-74 | `all_strings`: the lists one after the other; ConcatGroups states it |
| StringExtractor.ConcatGroups | backend/custom-scripts/string-extractor/string_extractor.py:71-74 | the loop concatenates the three lists in order |
| StringExtractor.Matches | backend/custom-scripts/string-extractor/string_extractor.py:95-97 | the matches of one pattern in every string, string after string; PatternMatches states it |
| StringExtractor.PatternMatches | backend/custom-scripts/string-extractor/string_extractor.py:95-97 | the inner loop collects the matches of one pattern over all strings, in order |
| StringExtractor.ByType | backend/custom-scripts/string-extractor/string_extractor.py:76-78 | `by_type`: the length of each list by its key; TotalIsSum relates it to the total |
| StringExtractor.TotalIsSum | backend/custom-scripts/string-extractor/string_extractor.py:71-78 | `by_type` has one key per list and none for the error dictionary, and `total_strings` is the sum of its counts |
| StringExtractor.Found | backend/custom-scripts/string-extractor/string_extractor.py:93-99 | the patterns among the first n with a match, each with its de-duplicated matches |
| StringExtractor.FoundKey | backend/custom-scripts/string-extractor/string_extractor.py:93-99 | after the first `n` patterns, a pattern has an entry exactly when it is among them and matches somewhere |
| StringExtractor.FoundValue | backend/custom-scripts/string-extractor/string_extractor.py:94-99 | a pattern's entry holds its matches |
| StringExtractor.DedupedFoundWith | backend/custom-scripts/string-extractor/string_extractor.py:93-99 | after deduplication a pattern has an entry exactly when it matches, and the entry lists each of its matches exactly once |
| StringExtractor.FoundPatterns | backend/custom-scripts/string-extractor/string_extractor.py:83-101 | `found_patterns`: FoundKey, FoundValue and FoundPatternsKeys state which keys appear and what they hold |
| StringExtractor.FoundPatternsKeys | backend/custom-scripts/string-extractor/string_extractor.py:83-101 | in `found_patterns` each of the seven patterns has an entry exactly when it matches, listing each match exactly once |
| StringExtractor.LengthsOf | backend/custom-scripts/string-extractor/string_extractor.py:103-110 | the minimum, maximum and average length, kept as total and count, absent for no strings; LengthsSummary states them |
| StringExtractor.LengthsSummary | backend/custom-scripts/string-extractor/string_extractor.py:103-110 | `string_lengths` exists exactly when some string does; then min <= max, every length lies between them, both occur, and the count is the number of strings |
| StringExtractor.SumBetween | backend/custom-scripts/string-extractor/string_extractor.py:109 | the sum of the lengths lies between `min * count` and `max * count`, so the average lies between min and max |
| TextAnalyzer.LineCount | backend/custom-scripts/text-analyzer/script.py:20 | the line count is at least one |
| TextAnalyzer.CountSplitOn | backend/custom-scripts/text-analyzer/script.py:20 | there is one more piece than separators when splitting on a separator |
| TextAnalyzer.LineCountLines | backend/custom-scripts/text-analyzer/script.py:20 | `text.count('\n') + 1` is the number of pieces of `text.split('\n')`, at least one |
| TextAnalyzer.Words | backend/custom-scripts/text-analyzer/script.py:27 | `re.findall(r'\b\w+\b', text.lower())`: the maximal word runs of the lower-cased text; WordsSpec and WordsLower state them |
| TextAnalyzer.WordsFrom | backend/custom-scripts/text-analyzer/script.py:27 | every match of `\b\w+\b` is a non-empty run of word characters |
| TextAnalyzer.WordsJoin | backend/custom-scripts/text-analyzer/script.py:27 | the words hold exactly the word characters of the text, in order |
| TextAnalyzer.RunNoStarts | backend/custom-scripts/text-analyzer/script.py:27 | inside a run of word characters no word starts |
| TextAnalyzer.WordsCount | backend/custom-scripts/text-analyzer/script.py:27 | there is one word per maximal run of word characters |
| TextAnalyzer.WordsInherit | backend/custom-scripts/text-analyzer/script.py:27 | any property of every character of the text holds for every character of its words |
| TextAnalyzer.SumLengthsJoin | backend/custom-scripts/text-analyzer/script.py:33 | the lengths of the words add up to the length of their concatenation |
| TextAnalyzer.Readability | backend/custom-scripts/text-analyzer/script.py:37-42 | for a positive line count: `N/A` iff no words, Complex iff words > 15 per line, Medium iff above 8 and at most 15, Simple otherwise |
| TextAnalyzer.AnalyzeText | backend/custom-scripts/text-analyzer/script.py:13-43 | the results filled key by key are the length, the white-space word count, the line count, the two frequency tables, the average and the grade of the specification functions |
| TextAnalyzer.CharFrequencySpec | backend/custom-scripts/text-analyzer/script.py:23-24 | `char_frequency` has `min(10, distinct)` distinct characters of the text, each with its count, by falling count, and no character left out occurs more often than one listed |
| TextAnalyzer.WordsLower | backend/custom-scripts/text-analyzer/script.py:27 | every word of the lower-cased text has no ASCII capital |
| TextAnalyzer.WordFrequencySpec | backend/custom-scripts/text-analyzer/script.py:26-29 | `word_frequency` has at most ten distinct words, each with its count, by falling count, none with an ASCII capital |
| TextAnalyzer.WordsSpec | backend/custom-scripts/text-analyzer/script.py:27 | the words are the maximal runs of word characters of the lower-cased text |
| TextAnalyzer.AverageOf | backend/custom-scripts/text-analyzer/script.py:31-35 | the integer 0 with no split words, else the total length of the regex words over the split word count, kept as numerator and denominator; AverageSpec states it |
| TextAnalyzer.AverageSpec | backend/custom-scripts/text-analyzer/script.py:31-35 | `avg_word_length` is 0 exactly for a blank text; otherwise it is the number of word characters over the white-space word count |
| TextAnalyzer.ReadabilitySpec | backend/custom-scripts/text-analyzer/script.py:37-42 | the grade is `N/A` exactly for a blank text, otherwise Complex above 15 words per line, Medium above 8, Simple up to 8 |
| Counter.Tally | backend/custom-scripts/text-analyzer/script.py:23 | `Counter(s)` has one entry per distinct element |
| Counter.TallyDescribes | backend/custom-scripts/text-analyzer/script.py:23 | the counter lists each distinct element once, with its count, in first-occurrence order |
| Counter.DescribesPerm | backend/custom-scripts/text-analyzer/script.py:24 | a rearranged counter still lists each distinct element once with its count |
| Counter.SortedDescribes | backend/custom-scripts/text-analyzer/script.py:24 | the counter sorted by falling count still lists each distinct element once with its count |
| Counter.MostCommon | backend/custom-scripts/text-analyzer/script.py:24 | `Counter(s).most_common(n)`: the distinct elements with their counts, highest count first and ties in order of first appearance, at most n of them; MostCommonSpec, MostCommonCovers and MostCommonTies state it |
| Counter.MostCommonSize | backend/custom-scripts/text-analyzer/script.py:24 | `most_common(n)` has `min(n, distinct)` entries |
| Counter.MostCommonSpec | backend/custom-scripts/text-analyzer/script.py:24-29 | `most_common(n)` lists distinct elements of the input with their counts, by falling count |
| Counter.MostCommonCovers | backend/custom-scripts/text-analyzer/script.py:24-29 | an element left out of `most_common(n)` occurs no more often than any listed |
| Counter.MostCommonTies | backend/custom-scripts/text-analyzer/script.py:24-29 | elements with equal counts are listed in first-occurrence order |
| Js.TrimStart | frontend/src/Toolscripts/encoding-detective/EncodingDetectiveTool.js:39 | the result is a suffix of the input with only white space cut in front, and does not start with white space |
| Js.Trim | frontend/src/Toolscripts/base32/Base32Tool.js:76 | `trim` is a slice of the input with only white space cut at either end, and neither starts nor ends with white space |
| Js.SplitWs | frontend/src/Toolscripts/ascii/ASCIITool.js:9 | `split(/\s+/)` gives at least one piece, none holding white space |
| Js.SplitWsJoin | frontend/src/Toolscripts/ascii/ASCIITool.js:2-9 | splitting at white space undoes joining non-empty space-free tokens with one space |
| Js.Words | frontend/src/Toolscripts/encoding-detective/EncodingDetectiveTool.js:39 | the white-space-separated words are non-empty and hold no white space |
| Js.ParseInt | frontend/src/Toolscripts/ascii/ASCIITool.js:10 | `parseInt`: leading white space and one sign skipped, an optional `0x` prefix for radix 16, the value of the longest digit prefix, `NaN` when there is none; ParseIntDigits, ParsePadded and ParseDecimal state it |
| Js.ParseIntDigits | frontend/src/Toolscripts/ascii/ASCIITool.js:10 | `parseInt` of a string of digits is the value of those digits |
| Js.ParsePadded | frontend/src/Toolscripts/hex/HexTool.js:4-11 | `parseInt(_, radix)` reads back what `toString(radix).padStart(width, '0')` printed |
| Js.ParseDecimal | frontend/src/Toolscripts/ascii/ASCIITool.js:4-10 | `parseInt` reads back a decimal numeral |
| Js.FromCharCode | frontend/src/Toolscripts/ascii/ASCIITool.js:10 | `String.fromCharCode` reduces its argument modulo 2^16, and `NaN` gives U+0000 |
| Js.ToStringRadix | frontend/src/Toolscripts/hex/HexTool.js:4 | `n.toString(radix)` is the positional digits of `n`, lower case |
| Js.PadStart | frontend/src/Toolscripts/binary/BinaryTool.js:4 | `padStart(width, fill)` puts `width - len` fill characters in front, none when the text is already wide enough |
| Js.CodePointHeads | frontend/src/Toolscripts/hex/HexTool.js:3 | `Array.from(s).map(ch => ch.charCodeAt(0))` has at most one element per code unit, and is the code units themselves when there is no surrogate pair |
| Js.Latin1NoSurrogatePair | frontend/src/Toolscripts/hex/HexTool.js:3 | text of code units below 256 holds no surrogate pair |
| Js.ToUpper | frontend/src/pages/ToolsPage.js:553 | `toUpperCase()`: every code unit mapped to its upper case, the length kept on ASCII text; UpperOf and ToUpperAscii state it |
| Js.UpperOf | frontend/src/pages/ToolsPage.js:553 | `toUpperCase` of an ASCII code unit maps lower-case letters 32 down and keeps everything else |
| Js.ToLower | frontend/src/pages/ToolsPage.js:508 | `toLowerCase()`: every code unit mapped to its lower case, the length kept on ASCII text; LowerOf states it |
| Js.LowerOf | frontend/src/pages/ToolsPage.js:508 | `toLowerCase` of an ASCII code unit maps capitals 32 up and keeps everything else |
| Js.ToUpperAscii | frontend/src/pages/ToolsPage.js:553 | on ASCII text `toUpperCase` keeps the length and folds each character |
| Js.JsRem | frontend/src/Toolscripts/caesar-cipher/CaesarTool.js:4 | JavaScript's `%` truncates: for a negative dividend the remainder is zero or negative |
| Js.Decimal | frontend/src/Toolscripts/ascii/ASCIITool.js:4 | a decimal numeral is non-empty and made of digits |
| Js.DotChunks | frontend/src/Toolscripts/binary/BinaryTool.js:10 | every match of `/.{1,n}/g` has between 1 and `n` characters |
| Js.DotChunksOfPieces | frontend/src/Toolscripts/binary/BinaryTool.js:10 | without line terminators, the matches of `/.{1,n}/g` on pieces of `n` characters give those pieces back |
| Js.DotChunksShape | frontend/src/Toolscripts/hex/HexTool.js:10 | without line terminators, the matches cover the text in order, all but the last of exactly `n` characters, and there are none exactly for the empty text |
| Py.Split | backend/security.py:255 | `s.split()` gives non-empty fields without white space, and none exactly when `s` is all white space |
| Py.SplitFirst | backend/security.py:255-259 | the first field begins at the first non-white-space character and ends before the next white space |
| Py.Strip | backend/security.py:306 | `strip` is a slice of the input that neither starts nor ends with white space |
| Py.AfterLast | backend/security.py:125 | one past the last occurrence of a character, or 0 when it does not occur |
| Py.Basename | backend/security.py:125 | `basename` is a suffix of the path without `/`, preceded by `/` when the path is longer |
| Py.SplitExt | backend/security.py:137 | `splitext` splits the path into root and extension that concatenate back, the extension empty or one `.` followed by no `.` or `/` |
| Py.Lower | backend/custom-scripts/text-analyzer/script.py:27 | `str.lower()`, the length kept on ASCII text; LowerChar and LowerNoUpper state it |
| Py.LowerChar | backend/custom-scripts/text-analyzer/script.py:27 | `lower` of an ASCII character maps capitals 32 up and keeps everything else |
| Py.LowerNoUpper | backend/custom-scripts/text-analyzer/script.py:27 | no ASCII capital survives `lower` |
| Py.LowerByte | backend/security.py:179 | `bytes.lower()` changes exactly the bytes of `A`..`Z`, 32 up |
| Py.HexByteUpper | backend/custom-scripts/file-inspector/file_inspector.py:91 | one byte's `hex().upper()` is two upper-case hexadecimal digits |
| Py.HexUpper | backend/custom-scripts/file-inspector/file_inspector.py:91 | `data.hex().upper()` is two characters per byte, those of the byte |
| Py.Decimal | backend/security.py:158 | `str(n)` is non-empty and made of digits |
| Text.SplitOn | frontend/src/pages/ToolsPage.js:519 | splitting on one separator gives at least one piece, none holding the separator |
| Text.JoinSplitOn | frontend/src/pages/ToolsPage.js:519 | joining the pieces with the separator gives the text back |
| Text.CountSub | backend/custom-scripts/file-inspector/file_inspector.py:80 | `bytes.count` counts non-overlapping occurrences, at most `len(s) / len(pat)` of them |
| Text.Distinct | frontend/src/pages/ToolsPage.js:522 | `[...new Set(s)]` has no duplicates and holds exactly the elements of `s` |
| Text.DistinctFirstOrder | frontend/src/pages/ToolsPage.js:522 | `[...new Set(s)]` lists the elements in the order of their first occurrence |
| Text.Reverse | frontend/src/pages/ToolsPage.js:468 | reversal puts element `i` at `n - 1 - i` |
| Text.ReverseInvolution | frontend/src/pages/ToolsPage.js:468 | reversing twice is the identity |
| Text.Digits | frontend/src/Toolscripts/hex/HexTool.js:4 | the positional digits of `n` are below the base, spell `n`, and have no leading zero |
| Text.DigitsWidth | frontend/src/Toolscripts/binary/BinaryTool.js:4 | a number below `base^width` has at most `width` digits |
| Text.Filter | frontend/src/Toolscripts/hex/HexTool.js:9 | filtering keeps only elements that pass, in order |
| Text.SortByAscending | backend/custom-scripts/text-analyzer/script.py:24 | the sort orders by key |
| Text.SortByStable | backend/custom-scripts/text-analyzer/script.py:24 | the sort is stable: elements with one key keep their order |
| Bits.ValueBitsOf | frontend/src/Toolscripts/base32/Base32Tool.js:20-34 | the low `w` bits written out spell `v` modulo `2^w` |
| Bits.BitsOfValue | frontend/src/Toolscripts/base32/Base32Tool.js:60-69 | writing out the bits of the value of a bit string gives it back |
| Bits.BitsOfIff | frontend/src/Toolscripts/base32/Base32Tool.js:20-34 | the low bits of `v` are `s` exactly when `v` equals the value of `s` modulo 2 to the length of `s` |
| Bits.XorBitsTwice | frontend/src/pages/ToolsPage.js:597-604 | exclusive or with the same value twice gives back the low bits |

## Left out

- Input and output: FastAPI routes, MongoDB persistence, the announcement, analysis-history and tool-usage endpoints, `SecurityLogger`, and `analyze_file` in backend/server.py. These are plumbing around the modelled functions.
- The script side: `get_uploaded_file` and the `main` printers of the custom scripts. Also the React rendering and toasts of the pages. These are file-system scanning and display only.
- Shannon entropy everywhere, because it is floating-point `log2`:
  - `calculate_entropy` in backend/security.py, backend/custom-scripts/file-inspector/file_inspector.py and frontend/src/pages/FileAnalysisPage.js;
  - the text analyser's `entropy`;
  - `validate_file_content` receives the high-entropy verdict on the first 1024 bytes as the parameter `highEntropy`.
- `calculate_entropy` in backend/server.py calls `.bit_length()` on a float, which raises for every non-empty input. It is not modelled.
- Rounded floating-point values are not modelled: the file inspector's `entropy`, `entropy_assessment`, `null_percentage` and `ascii_percentage`. `avg_word_length` is modelled as its numerator and denominator, not as a float.
- Foreign libraries become function parameters, for example the `Library` record of the tools page:
  - `hashlib` digests;
  - CryptoJS hashes, `btoa`/`atob` and `encodeURIComponent`/`decodeURIComponent`;
  - the grep tool's `new RegExp(pattern, 'gi')`, the parameter `grepRegex`: the search it compiles a user's pattern to, or the message of the `SyntaxError` it throws. How `test` starts at and updates `lastIndex` is modelled (GrepLines.Test); the search itself is not, beyond the sanitizer's fragment in GrepLines.Scan;
  - `TextEncoder`/`TextDecoder` around base32;
  - `libmagic` and PIL EXIF are not modelled at all.
- Operations left out entirely:
  - `sanitize_text_input` in backend/security.py, because `bleach` is foreign;
  - `validate_url`, because `validators.url` is foreign;
  - `validateUrl`, `escapeHtml`, `secureApiRequest`, `generateSecureToken` and `logSecurityEvent` in frontend/src/utils/security.js, because they rest on `URL`, the DOM, `fetch`, `crypto` and the console.
- The text analyser's `urls`, `emails` and `hashtags` lists are not modelled: they are `re.findall` calls whose full regular-expression semantics is not part of this model.
- The string extractor's Unicode and UTF-16 lists and its seven pattern regexes are parameters (`Finder`, `FindAll`). They rest on codecs with `errors='ignore'` and on `re.findall`.
- The metadata analyser:
  - `stat`, the modification time's `isoformat` and the digests are parameters;
  - the outcome of the `strings` subprocess is the parameter `StringsRun`.
- Randomness and time are parameters: `secrets.token_hex(8)`, `datetime.utcnow()` and `Date.now()`. `localStorage` is a field of `RateLimit.RateLimiter`.
- The part of Python's Unicode `\w` outside ASCII is the parameter `unicodeAlnum`.
- Base32Tool.CharValue: defined on every character, with 0 outside the alphabet. The decoder reads it only after rejecting every other character.
- Js.UpperOf: `toUpperCase` is exact only for ASCII and for the characters whose upper case is ASCII letters (dotless i, long s, sharp s, the ligatures U+FB00 to U+FB06). Every other character is kept as it is rather than given its full Unicode upper case. One visible effect: frontend/src/Toolscripts/base32/Base32Tool.js:44-55 names an invalid character from the upper-cased text, so for 'é' the source's message names 'É'.
- Js.ToUpper: it applies that partial mapping to every code unit, so non-ASCII text such as 'é' is kept where the source gives 'É'.
- Base32Tool.InvalidCharacter: the character it names comes from the partially upper-cased text, so for 'é' the model names 'é' where the source names 'É'.
- Base32Tool.DecodeSpec: its error message inherits that difference.
- Js.LowerOf: `toLowerCase` is exact only for ASCII, capital I with dot above and the Kelvin sign. Every other character is kept as it is.
- Js.ToLower: it applies that partial mapping to every code unit, so non-ASCII capitals such as 'É' are kept where the source gives 'é'.
- Py.LowerChar: `str.lower()` is exact only for ASCII, capital I with dot above and the Kelvin sign. Every other character is kept as it is.
- Py.Lower: it applies that partial mapping to every character, so non-ASCII capitals such as 'É' are kept where Python gives 'é'.
- TextCases.CaseConverter: the upper, lower and title forms inherit that partial case mapping, so they differ from the source on non-ASCII letters.
- TextCases.TitleCase: it inherits the same partial case mapping.
- TextCases.TitleWord: it upper-cases the first character and lower-cases the rest with the same partial mapping, so the word 'aÉ' becomes 'AÉ' where the source gives 'Aé'.
- ToolsCiphers.VigenereProcess: the key is upper-cased with the partial mapping. A non-ASCII key letter such as "é" therefore shifts differently: on text "a" the source gives 'g' and the model gives 'm'.
- ToolsCiphers.Bacon: the text is upper-cased with the partial mapping before the table lookup.
- Morse.TextToMorse: the text is upper-cased with the partial mapping before the table lookup.
- TextAnalyzer.Words: the text is lower-cased with the partial mapping before the words are found.
- TextAnalyzer.WordFrequencySpec: it states only that the keys hold no ASCII capitals, not that they are fully lower-cased, because of the partial mapping.
- Morse.Piece: the source looks codes up in a plain object, so a code such as "constructor" or "toString" finds an inherited function. The model treats the table as a clean map.
- Morse.MorseToText: it shares that difference on inherited keys.
- WordFrequency.Get: the source's `frequency` object inherits prototype keys, so the word "constructor" reads an inherited function. The model starts from an empty map.
- WordFrequency.Put: assigning `__proto__` does not create an entry in the source, but it does in the model.
- WordFrequency.WordFrequencyReport: it inherits both differences. The source reports "constructor: function Object() { [native code] }1" for that word and never lists `__proto__`.
- RateLimit.Stored: a stored value is either a window or unreadable. JSON that parses to `null` or to a value without the window fields, and a falsy empty-string entry, are not represented.
- Js.ParseInt: the value is an exact integer. JavaScript rounds past 2^53 to a double and gives `Infinity` for huge numerals.
- BackendSecurity.SecureErrorResponse: the default arguments (`"An error occurred"`, status 500) are not modelled; both arguments are always given.
- CaesarTool.ExecuteCaesarTool: the shift is an integer. A `NaN` or fractional shift, which the source would carry through `%`, is not modelled.
- StringExtractor.Deduped: `list(set(matches))` has the order of Python's set hashing. The model keeps the order of first occurrence, so it states the same members but not their order.

## Findings

| source | as written | input that shows it | evidently intended | confidence | as-written member | corrected member |
|---|---|---|---|---|---|---|
| frontend/src/pages/ToolsPage.js:617-623 | `crc32` xors the index `(crc ^ code) & 0xFF` itself into the register shifted right by eight, where CRC-32 xors the table entry at that index | `"123456789"` gives 0xFFFFFFCE | the CRC-32 check value 0xCBF43926 of the reflected 0xEDB88320 polynomial | not executed | ToolsText.AsWrittenCheckValue, ToolsText.Crc32AsWritten | ToolsText.Crc32, ToolsText.Crc32CheckValue, ToolsText.Crc32Bitwise |
| frontend/src/Toolscripts/base32/Base32Tool.js:96-114 | the loop stops before `attempts++` when the first decoded layer is not base32 itself, and the result is judged by `attempts == 0` | `"GE======"` (text "1") is reported as "Not a valid Base32 string" | one valid layer is reported with its decoded text | not executed | Base32Tool.SingleLayerDropped, Base32Tool.MultiLayerBase32DecodeAsWritten | Base32Tool.MultiLayerBase32Decode, Base32Tool.SingleLayerEncoding, Base32Tool.MultiLayerShape |
| backend/security.py:135-138 | a name longer than 255 keeps `name[:250] + ext` with the whole `splitext` extension | 250 dots, `a`, `.bbbbbbbbbb` gives 261 characters, and a second pass gives its first 250 | at most 255 characters, and re-sanitising a result returns it unchanged | not executed | BackendSecurity.SanitizedAsWrittenNotIdempotent | BackendSecurity.Cap, BackendSecurity.SanitizedIdempotent |
| frontend/src/utils/security.js:75-88 | each dangerous pattern is removed in a single pass, so removing one occurrence can join a new one | `"@im@importport"` gives `"@import"` | no dangerous pattern is left in the sanitised text | not executed | FrontSecurity.SanitizedTextLeavesPattern | FrontSecurity.StripStable, FrontSecurity.StripStableClean, FrontSecurity.SanitizedTextStableSafe, FrontSecurity.SanitizedTextStableClean |
| frontend/src/pages/ToolsPage.js:525-526 | one `RegExp` with the `g` flag tests every line, and each `test` starts where the previous match ended | pattern `a` on the lines `xa` and `a` gives only `xa` | every line with a match is kept | not executed | GrepLines.Filter, GrepLines.SecondMatchDropped | GrepLines.FilterIntended, GrepLines.FilterIntendedSpec, GrepLines.FilterWithinIntended |
