# WAKit binary decoder and text lexer, in Dafny

This project models two front-end components of WAKit, a WebAssembly interpreter
written in Swift. The behaviour of both is fixed by their test vectors.

- **`WASMParser`, the binary decoder.** It is a family of small decoders that read
  from a byte cursor (`ByteStream`) and report the offset of every failure.
  - Byte matchers: `byte`, `byte(in:)` over a range or a set, and `bytes`.
  - LEB128 integers: `uint`, `sint` and `int`, as in section 5.2.2 of the
    WebAssembly Core Specification 1.0.
  - Length-prefixed UTF-8 names: section 5.2.4, with RFC 3629 section 3.
  - The `vector(of:)` combinator.
  - The type grammar of sections 5.3.1-5.3.7.

  The failures are `unexpectedEnd`, `unexpected(byte, location)` and
  `vectorInvalidLength(length, location)`.
- **`WASTLexer`, the text-format lexer.** It turns a sequence of Unicode scalars into
  tokens: whitespace and comments, keywords, and decimal and hexadecimal `unsigned`
  literals with `_` separators. Anything it does not recognise becomes a terminal
  `unknown` token. It comes together with the test loop that collects tokens until
  the end of input or the first `unknown` token.

Layout:

| file | contents |
|---|---|
| `results.dfy` | bytes, `Option`, the error taxonomy, and decode results carrying the next offset |
| `leb128.dfy` | the LEB128 group scanner, sign extension, and reference encoders with round-trip lemmas |
| `utf8.dfy` | the RFC 3629 decoder and encoder, proved inverse in both directions |
| `wasm_types.dfy` | the type grammar as datatypes, and their encodings |
| `wasm_parser.dfy` | every decoder as a pure function over `(bytes, offset)` |
| `wasm_parser_properties.dfy` | round trips `decode(encode(x)) == x`, and what `vector(of:)` returns for any element decoder |
| `wasm_parser_vectors.dfy` | every test vector of the decoder, as a lemma |
| `byte_stream.dfy` | the `ByteStream` cursor as a class; its loop-based methods are proved equal to the decoder functions |
| `wast_grammar.dfy` | the token grammar as pure functions over `(scalars, position)`, with the unknown token coming last |
| `wast_lexer.dfy` | the `WASTLexer` class with a cursor field, its `Next` method, and the collecting loop `Run` |
| `wast_lexer_properties.dfy` | maximal munch, the extent and value of number tokens, comment skipping, literal round trips |
| `wast_lexer_vectors.dfy` | every test vector of the lexer, as a lemma |

Offsets are unbounded naturals. A decoder reading at or past the end of the input
fails with `UnexpectedEnd`, so no decoder except `bytes` has a precondition.
`WasmParser.Bytes` asks for a starting offset within the input (`pos <= |s|`).

Where the code departs from the WebAssembly standard, the model follows the code:
- `vector(of:)` rejects a count of zero.
- `uint(N)` bounds the value only when N is at most 7.
- `int(N)` and `sint(N)` differ.
- The value types 0x7D and 0x7C are named `uint32` and `uint64`.
- Floats are read most significant byte first. The binary format stores them least
  significant byte first (section 5.2.3), but the vectors at
  `Tests/SwasmTests/WASMParserTests.swift:134-138` and `:146-154` are 1.0 and π only
  when read most significant byte first.

## Model

| member | source | states |
|---|---|---|
| WasmParser.Satisfy | Tests/SwasmTests/WASMParserTests.swift:19-53 | reading one byte succeeds exactly when a byte is there and accepted; success returns that byte and advances by one; failure is `unexpected(byte, offset)` when a byte is there and `unexpectedEnd` otherwise |
| WasmParser.Byte | Tests/SwasmTests/WASMParserTests.swift:19-28 | `byte(b)` succeeds exactly on `b` and returns it, offset + 1; on empty input it fails `unexpectedEnd`; on another byte it fails `unexpected(actual, offset)` |
| WasmParser.ByteInRange | Tests/SwasmTests/WASMParserTests.swift:30-42 | `byte(in: lo..<hi)` succeeds exactly when the byte is in the half-open range; it fails `unexpectedEnd` on empty input and `unexpected` with the byte and its offset otherwise |
| WasmParser.ByteInSet | Tests/SwasmTests/WASMParserTests.swift:44-53 | `byte(in: set)` succeeds exactly when the byte is in the set; the failures are as for the range |
| WasmParser.Bytes | Tests/SwasmTests/WASMParserTests.swift:55-64 | `bytes(e)` succeeds exactly when the input continues with `e`, returning `e` and the offset past it; an `unexpected` failure names the first byte where the input leaves `e`, at its absolute offset, after a matching prefix; `unexpectedEnd` means the input is a proper prefix of `e` |
| WasmParser.Uint | Tests/SwasmTests/WASMParserTests.swift:68-86 | success consumes at least one byte; for N ≤ 7 it consumes exactly one byte, and the value is below 2^N; the only `unexpected` failure is for N ≤ 7, at the starting offset; otherwise failure is `unexpectedEnd` |
| WasmParser.Sint | Tests/SwasmTests/WASMParserTests.swift:88-106 | as `Uint`, with the value for N ≤ 7 in the N-bit two's-complement range |
| WasmParser.Int | Tests/SwasmTests/WASMParserTests.swift:108-126 | failures are located; a result never lies in [2^(N-1), 2^N), the range that `int` reinterprets as negative |
| WasmParser.Float32 | Tests/SwasmTests/WASMParserTests.swift:130-139 | succeeds exactly when four bytes remain, giving a 32-bit pattern and offset + 4; otherwise it fails `unexpectedEnd` |
| WasmParser.Float64 | Tests/SwasmTests/WASMParserTests.swift:141-155 | succeeds exactly when eight bytes remain, giving a 64-bit pattern and offset + 8; otherwise it fails `unexpectedEnd` |
| WasmParser.Name | Tests/SwasmTests/WASMParserTests.swift:159-188 | a declared length beyond the input fails `unexpectedEnd`, whatever the bytes are; success ends exactly the declared length after the length prefix; failures are located |
| WasmParser.Repeat | Tests/SwasmTests/WASMParserTests.swift:15-16 | running an element decoder `count` times yields exactly `count` elements (their values, order, end offset and the first failure are stated by `RepeatOfElements` and `RepeatStopsAtFailure`) |
| WasmParser.Vector | Tests/SwasmTests/WASMParserTests.swift:8-17 | a failing count fails with the count's error; a count of zero fails `vectorInvalidLength(0, offset of the count)`; success holds exactly as many elements as the count, and at least one (the elements themselves are stated by `VectorOfElements` and `VectorStopsAtFailure`) |
| WasmParser.ValueType | Tests/SwasmTests/WASMParserTests.swift:192-210 | succeeds exactly on the four value-type bytes; the decoded type's code is the byte read; failure is `unexpected(byte, offset)` or `unexpectedEnd` |
| WasmParser.ResultType | Tests/SwasmTests/WASMParserTests.swift:212-233 | success reads one byte: 0x40 or a value type, whose encoding it is; the failures are those of `ValueType` |
| WasmParser.FunctionType | Tests/SwasmTests/WASMParserTests.swift:235-238 | failures are located; success starts at 0x60 and has non-empty parameter and result lists, because `vector` rejects zero |
| WasmParser.Limits | Tests/SwasmTests/WASMParserTests.swift:240-246 | success starts with flag 0x00 or 0x01, and the maximum is present exactly for 0x01; any other flag fails `unexpected` at its offset |
| WasmParser.MemoryType | Tests/SwasmTests/WASMParserTests.swift:248-254 | the same flag rule as limits: the maximum is present exactly for 0x01, and any other flag fails at its offset |
| WasmParser.TableType | Tests/SwasmTests/WASMParserTests.swift:256-262 | success needs 0x70 at the offset and consumes it; a first byte other than 0x70 fails `unexpected` at its offset; failures are located |
| WasmParser.GlobalType | Tests/SwasmTests/WASMParserTests.swift:264-270 | success reads two bytes, and they are the encoding of the decoded global type |
| WasmParser.Index | Tests/SwasmTests/WASMParserTests.swift:272-275 | an index consumes at least one byte and never fails other than by `unexpectedEnd` |
| Leb128.Scan | Tests/SwasmTests/WASMParserTests.swift:68-86 | the only scan failure is `unexpectedEnd`; a scan reads k ≥ 1 groups, ends k bytes on, and its value is below 128^k |
| Leb128.SignExtend | Tests/SwasmTests/WASMParserTests.swift:88-106 | sign extension either keeps the k-group value or subtracts 128^k; for a value of k groups the result lies in [-64·128^(k-1), 64·128^(k-1)), and is negative exactly when bit 6 of the final group is set |
| Leb128.ScanStopsAtFinalGroup | Tests/SwasmTests/WASMParserTests.swift:72-76 | a scan fails exactly when every remaining byte has its continuation bit set; on success the last byte read is the first one without it |
| Leb128.ScanEncodeUnsigned | Tests/SwasmTests/WASMParserTests.swift:81-85 | scanning the unsigned LEB128 encoding of any n, between any prefix and suffix, gives n and consumes exactly the encoding |
| Leb128.EncodeSignedFits | Tests/SwasmTests/WASMParserTests.swift:101-105 | the signed encoding of i in k groups holds i in the range -64·128^(k-1) ≤ i < 64·128^(k-1) |
| Leb128.ScanEncodeSignedValue | Tests/SwasmTests/WASMParserTests.swift:101-105 | scanning the signed encoding of i gives i, or i + 128^k when i is negative, in exactly k groups |
| Leb128.ScanEncodeSigned | Tests/SwasmTests/WASMParserTests.swift:88-106 | sign-extending the scan of the signed encoding of any i gives back i |
| Utf8.Scalar | Tests/SwasmTests/WASMParserTests.swift:166-182 | one scalar is decoded within the span, consuming at least one byte; an `unexpected` failure names a byte inside the span at its own offset; a decode never fails with a vector error |
| Utf8.Decode | Tests/SwasmTests/WASMParserTests.swift:159-188 | a successful decode ends exactly at the end of the span; an `unexpected` failure names a byte inside the span at its own offset |
| Utf8.ScalarOfEncoding | Tests/SwasmTests/WASMParserTests.swift:166-179 | the RFC 3629 encoding of every scalar (1 to 4 bytes) decodes back to that scalar |
| Utf8.DecodeOfEncoding | Tests/SwasmTests/WASMParserTests.swift:159-188 | the encoding of any string decodes back to it, anywhere in a byte input |
| Utf8.ScalarIsEncoding | Tests/SwasmTests/WASMParserTests.swift:166-179 | the bytes of every successfully decoded scalar are that scalar's encoding, so the decoder accepts only shortest forms and no surrogates |
| Utf8.DecodeIsEncoding | Tests/SwasmTests/WASMParserTests.swift:159-188 | every successfully decoded span is exactly the encoding of the decoded string |
| WasmParserProperties.UintOfEncoding | Tests/SwasmTests/WASMParserTests.swift:68-86 | `uint(N)` reads back every n from its encoding, for N > 7 with no upper bound and for N ≤ 7 when n < 2^N |
| WasmParserProperties.SintOfEncoding | Tests/SwasmTests/WASMParserTests.swift:88-106 | `sint(N)` reads back every i from its signed encoding (for N ≤ 7 when i fits N bits) |
| WasmParserProperties.IntOfEncoding | Tests/SwasmTests/WASMParserTests.swift:108-126 | for every i when N > 7 (and every i in the N-bit two's-complement range when N ≤ 7), `int(N)` reads the signed encoding of i as i, except that i in [2^(N-1), 2^N) reads as i - 2^N; below -2^(N-1) it reads i unchanged, as for -1040190 |
| WasmParserProperties.BigEndianOfBytes | Tests/SwasmTests/WASMParserTests.swift:134-154 | reading k bytes most significant first inverts writing any n < 256^k that way |
| WasmParserProperties.Float32OfBits | Tests/SwasmTests/WASMParserTests.swift:130-139 | `float32` reads back every 32-bit pattern written most significant byte first |
| WasmParserProperties.Float64OfBits | Tests/SwasmTests/WASMParserTests.swift:141-155 | `float64` reads back every 64-bit pattern written most significant byte first |
| WasmParserProperties.NameOfEncoding | Tests/SwasmTests/WASMParserTests.swift:159-188 | `name` reads back every string from its length prefix and UTF-8 encoding |
| WasmParserProperties.NameIsEncoding | Tests/SwasmTests/WASMParserTests.swift:159-188 | the bytes that `name` consumes after the length prefix are exactly the UTF-8 encoding of the decoded name |
| WasmParserProperties.RepeatOfElements | Tests/SwasmTests/WASMParserTests.swift:15-16 | for any element decoder: when element i succeeds at the offset where element i-1 ended, running it n times returns exactly those n values in order and ends where the last one ends |
| WasmParserProperties.RepeatStopsAtFailure | Tests/SwasmTests/WASMParserTests.swift:9-10 | for any element decoder: when the elements before it succeed, the first failing element's error is the result, so no partial list is returned |
| WasmParserProperties.VectorOfElements | Tests/SwasmTests/WASMParserTests.swift:15-16 | for any element decoder: a count of n ≥ 1 followed by n elements read one after another gives exactly those elements, in order, ending after the last |
| WasmParserProperties.VectorStopsAtFailure | Tests/SwasmTests/WASMParserTests.swift:9-10 | for any element decoder: a vector whose element fails before the count is reached fails with that element's error |
| WasmParserProperties.VectorOfValueTypes | Tests/SwasmTests/WASMParserTests.swift:192-210 | `vector(of: valueType)` reads back every non-empty list of value types from its encoding |
| WasmParserProperties.VectorOfNothing | Tests/SwasmTests/WASMParserTests.swift:12-13 | a count byte 0x00 fails `vectorInvalidLength(0, offset of the count)` for every element decoder, wherever it occurs |
| WasmParserProperties.ResultTypeOfEncoding | Tests/SwasmTests/WASMParserTests.swift:212-233 | every result type of arity 0 or 1 is read back from its one byte |
| WasmParserProperties.FunctionTypeOfEncoding | Tests/SwasmTests/WASMParserTests.swift:235-238 | every function type with non-empty parameter and result lists is read back from `0x60 vec vec` |
| WasmParserProperties.FunctionTypeWithoutParameters | Tests/SwasmTests/WASMParserTests.swift:12-13 | a function type with no parameters is refused with `vectorInvalidLength(0, offset of its count)` |
| WasmParserProperties.FunctionTypeWithoutResults | Tests/SwasmTests/WASMParserTests.swift:12-13 | a function type with no results is refused with `vectorInvalidLength(0, offset of the result count)` |
| WasmParserProperties.LimitsOfEncoding | Tests/SwasmTests/WASMParserTests.swift:240-246 | every limits value, with or without a maximum, is read back from its encoding |
| WasmParserProperties.MemoryTypeOfEncoding | Tests/SwasmTests/WASMParserTests.swift:248-254 | every memory type is read back from the encoding of its limits |
| WasmParserProperties.IndexOfEncoding | Tests/SwasmTests/WASMParserTests.swift:272-275 | every index is read back from its unsigned LEB128 encoding |
| WasmParserProperties.TableTypeOfEncoding | Tests/SwasmTests/WASMParserTests.swift:256-262 | every table type is read back from 0x70 followed by its limits |
| WasmParserProperties.GlobalTypeOfEncoding | Tests/SwasmTests/WASMParserTests.swift:264-270 | every global type is read back from its value type byte and mutability byte |
| WasmParserVectors.VectorExamples | Tests/SwasmTests/WASMParserTests.swift:8-17 | the three `vector(of: byte(0x01))` vectors |
| WasmParserVectors.ByteExamples | Tests/SwasmTests/WASMParserTests.swift:19-28 | the three `byte(0x01)` vectors |
| WasmParserVectors.ByteInRangeExamples | Tests/SwasmTests/WASMParserTests.swift:30-42 | the `byte(in: 0x01..<0x03)` vectors |
| WasmParserVectors.ByteInSetExamples | Tests/SwasmTests/WASMParserTests.swift:44-53 | the `byte(in: [1, 2, 3])` vectors |
| WasmParserVectors.BytesExamples | Tests/SwasmTests/WASMParserTests.swift:55-64 | the `bytes([1, 2, 3])` vectors, including `unexpected(0x09, location: 1)` |
| WasmParserVectors.UintExamples | Tests/SwasmTests/WASMParserTests.swift:68-86 | the six `uint` vectors: 127, two kinds of truncation, `uint(1)` refusing 0x80 at 0, 130 and 16643 |
| WasmParserVectors.SintExamples | Tests/SwasmTests/WASMParserTests.swift:88-106 | the six `sint` vectors: -63, truncations, the width-1 refusal, +128 and -1040190 |
| WasmParserVectors.IntExamples | Tests/SwasmTests/WASMParserTests.swift:108-126 | the six `int` vectors, including -128 for `[0x80, 0x01]` |
| WasmParserVectors.Float32Examples | Tests/SwasmTests/WASMParserTests.swift:130-139 | truncation, and the bit patterns of 1.0 and π |
| WasmParserVectors.Float64Examples | Tests/SwasmTests/WASMParserTests.swift:141-155 | truncation, and the bit patterns of 1.0 and π |
| WasmParserVectors.NameExamples | Tests/SwasmTests/WASMParserTests.swift:159-188 | the eight `name` vectors: 1- to 4-byte scalars, and each truncated form failing `unexpectedEnd` |
| WasmParserVectors.ValueTypeExamples | Tests/SwasmTests/WASMParserTests.swift:192-210 | the four value types, 0x7B refused at 0, and empty input |
| WasmParserVectors.ResultTypeExamples | Tests/SwasmTests/WASMParserTests.swift:212-233 | 0x40 as the empty result, the four singletons, and both failures |
| WasmParserVectors.FunctionTypeExamples | Tests/SwasmTests/WASMParserTests.swift:235-238 | `[0x60, 0x01, 0x7E, 0x01, 0x7D]` is `([int64], [uint32])` |
| WasmParserVectors.LimitsExamples | Tests/SwasmTests/WASMParserTests.swift:240-246 | both limits vectors |
| WasmParserVectors.MemoryTypeExamples | Tests/SwasmTests/WASMParserTests.swift:248-254 | both memory type vectors |
| WasmParserVectors.TableTypeExamples | Tests/SwasmTests/WASMParserTests.swift:256-262 | both table type vectors |
| WasmParserVectors.GlobalTypeExamples | Tests/SwasmTests/WASMParserTests.swift:264-270 | constant and variable `int32` globals |
| WasmParserVectors.IndexExamples | Tests/SwasmTests/WASMParserTests.swift:272-275 | index 0x7F |
| ByteStreams.ByteStream.constructor | Tests/SwasmTests/WASMParserTests.swift:9 | a stream over the given bytes starts at offset 0 |
| ByteStreams.ByteStream.Consume | Tests/SwasmTests/WASMParserTests.swift:19-28 | returns what `Byte` returns at the cursor, and leaves the cursor where that result stops |
| ByteStreams.ByteStream.Leb | Tests/SwasmTests/WASMParserTests.swift:81-85 | the byte-by-byte accumulation loop returns exactly the LEB128 scan at the cursor and stops where it does |
| ByteStreams.ByteStream.Uint | Tests/SwasmTests/WASMParserTests.swift:68-86 | returns what `Uint` returns at the cursor, with the cursor where that result stops |
| ByteStreams.ByteStream.Sint | Tests/SwasmTests/WASMParserTests.swift:88-106 | returns what `Sint` returns at the cursor, with the cursor where that result stops |
| ByteStreams.ByteStream.Int | Tests/SwasmTests/WASMParserTests.swift:108-126 | returns what `Int` returns at the cursor, with the cursor where that result stops |
| ByteStreams.ByteStream.Vector | Tests/SwasmTests/WASMParserTests.swift:8-17 | the count-then-elements loop returns exactly what `Vector` returns, with no partial vector, and the cursor where that result stops |
| WastGrammar.ReadToken | Tests/SwasmTests/WAST/LexerTests.swift:50-70 | a token always consumes at least one scalar; it is a number exactly when it starts with a digit; a keyword starts with an `idchar` and its text is exactly the scalars consumed; it is `unknown` exactly when the first scalar is not an `idchar`, and then it is that one scalar |
| WastGrammar.Tokenize | Tests/SwasmTests/WAST/LexerTests.swift:24-29 | the collected list has at most one token per scalar, and an `unknown` token can only be the last |
| WastGrammar.NextToken | Tests/SwasmTests/WAST/LexerTests.swift:25 | one step yields no token only at the end of input, and otherwise advances |
| WastLexer.Lexer.constructor | Tests/SwasmTests/WAST/LexerTests.swift:22-23 | a lexer over the input starts at position 0 |
| WastLexer.Lexer.SkipTrivia | Tests/SwasmTests/WAST/LexerTests.swift:39-47 | the loop stops where the whitespace and comments starting at the cursor end |
| WastLexer.Lexer.ScanDigits | Tests/SwasmTests/WAST/LexerTests.swift:53-66 | the loop stops at the end of the `_`-separated digit run and returns the run's value |
| WastLexer.Lexer.ScanIdChars | Tests/SwasmTests/WAST/LexerTests.swift:50 | the loop stops at the end of the maximal `idchar` run |
| WastLexer.Lexer.Next | Tests/SwasmTests/WAST/LexerTests.swift:25 | `next()` returns the grammar's next token and moves the cursor to where that token ends |
| WastLexer.Run | Tests/SwasmTests/WAST/LexerTests.swift:21-32 | the collecting loop returns exactly the grammar's token list of the input, with no `unknown` token before the last one |
| WastLexerProperties.LineEndIsFirstNewline | Tests/SwasmTests/WAST/LexerTests.swift:42-43 | a line comment ends at the first newline after it, or at the end of input |
| WastLexerProperties.CommentEndIsFirstClose | Tests/SwasmTests/WAST/LexerTests.swift:46-47 | a block comment ends just after the first `;)` (no nesting), or runs to the end of input |
| WastLexerProperties.TriviaEndIsNotTrivia | Tests/SwasmTests/WAST/LexerTests.swift:39-47 | after skipping trivia, no whitespace or comment starts at the position reached |
| WastLexerProperties.IdEndIsMaximal | Tests/SwasmTests/WAST/LexerTests.swift:50 | a keyword run holds only `idchar`s and is not followed by one |
| WastLexerProperties.DigitRunHoldsDigits | Tests/SwasmTests/WAST/LexerTests.swift:53-66 | a digit run holds only digits, each `_` in it standing before a digit |
| WastLexerProperties.DigitRunEndIsMaximal | Tests/SwasmTests/WAST/LexerTests.swift:53-66 | a digit run cannot be extended by a digit or by `_` followed by a digit |
| WastLexerProperties.NumberToken | Tests/SwasmTests/WAST/LexerTests.swift:53-66 | a number token from any position spans the maximal digit run: decimal from the leading digit, or hexadecimal from the digit after `0x`; its value is the positional value of that run's digits with every `_` removed, so leading zeros and `_` separators are covered |
| WastLexerProperties.NextTokenShape | Tests/SwasmTests/WAST/LexerTests.swift:24-29 | a step reports end of input exactly when only trivia remains; a keyword is exactly the maximal `idchar` run and does not start with a digit; a number starts with a digit, ends where the decimal run from it (or the hexadecimal run after `0x`) ends, and has the value of that run's digits without separators; an unknown token is the single scalar there, which is neither `idchar` nor whitespace |
| WastLexerProperties.WhitespaceOnly | Tests/SwasmTests/WAST/LexerTests.swift:39 | any whitespace-only input yields no tokens |
| WastLexerProperties.LineCommentSkipped | Tests/SwasmTests/WAST/LexerTests.swift:42-43 | a line comment contributes no tokens; scanning resumes at its end |
| WastLexerProperties.BlockCommentSkipped | Tests/SwasmTests/WAST/LexerTests.swift:46-47 | a block comment contributes no tokens; scanning resumes after it |
| WastLexerProperties.KeywordOnly | Tests/SwasmTests/WAST/LexerTests.swift:50 | any `idchar` word not starting with a digit is lexed as one keyword with exactly that text |
| WastLexerProperties.ValueIgnoresSeparators | Tests/SwasmTests/WAST/LexerTests.swift:56 | a literal's value is the positional value of its digits with every `_` removed |
| WastLexerProperties.DigitsSpellValue | Tests/SwasmTests/WAST/LexerTests.swift:53-66 | the digits of n in base 10 or 16 are digits with value n, and have no leading zero |
| WastLexerProperties.DecimalRoundTrip | Tests/SwasmTests/WAST/LexerTests.swift:53-55 | the decimal digits of any n lex as the single token `unsigned(n)` |
| WastLexerProperties.HexRoundTrip | Tests/SwasmTests/WAST/LexerTests.swift:61-65 | `0x` followed by the hex digits of any n lexes as the single token `unsigned(n)` |
| WastLexerProperties.HexPrefixSplits | Tests/SwasmTests/WAST/LexerTests.swift:58-59 | `0x` not followed by a hex digit lexes as `unsigned(0)`, and scanning resumes at the `x` |
| WastLexerProperties.UnknownStops | Tests/SwasmTests/WAST/LexerTests.swift:69-70 | a non-`idchar` scalar after trivia is the last token: exactly `unknown` of that scalar, whatever follows |
| WastLexerVectors.WhitespaceExample | Tests/SwasmTests/WAST/LexerTests.swift:39 | `" \t\n\r"` yields no tokens |
| WastLexerVectors.LineCommentExamples | Tests/SwasmTests/WAST/LexerTests.swift:42-43 | `";; a"` yields nothing; `";; a \n b"` yields `keyword("b")` |
| WastLexerVectors.BlockCommentExamples | Tests/SwasmTests/WAST/LexerTests.swift:46-47 | `"(; a ;)"` yields nothing; the multi-line comment before `b` yields `keyword("b")` |
| WastLexerVectors.KeywordExample | Tests/SwasmTests/WAST/LexerTests.swift:50 | `"a!b#c$d"` is one keyword |
| WastLexerVectors.ZeroExample | Tests/SwasmTests/WAST/LexerTests.swift:53 | `"0"` is `unsigned(0)` |
| WastLexerVectors.LeadingZeroExample | Tests/SwasmTests/WAST/LexerTests.swift:54 | `"0123456789"` is `unsigned(123456789)` |
| WastLexerVectors.DecimalExample | Tests/SwasmTests/WAST/LexerTests.swift:55 | `"1234567890"` is `unsigned(1234567890)` |
| WastLexerVectors.SeparatedDecimalExample | Tests/SwasmTests/WAST/LexerTests.swift:56 | `"1_234_567_890"` is `unsigned(1234567890)` |
| WastLexerVectors.HexSplitExamples | Tests/SwasmTests/WAST/LexerTests.swift:58-59 | `"0x"` and `"0xg"` split into `unsigned(0)` and a keyword |
| WastLexerVectors.HexZeroExample | Tests/SwasmTests/WAST/LexerTests.swift:61 | `"0x0"` is `unsigned(0)` |
| WastLexerVectors.HexLeadingZeroExample | Tests/SwasmTests/WAST/LexerTests.swift:62 | `"0x0123456789"` is `unsigned(0x123456789)` |
| WastLexerVectors.HexExample | Tests/SwasmTests/WAST/LexerTests.swift:63 | `"0x1234567890"` is `unsigned(0x1234567890)` |
| WastLexerVectors.SeparatedHexExample | Tests/SwasmTests/WAST/LexerTests.swift:64 | `"0x1_234_567_890"` is `unsigned(0x1234567890)` |
| WastLexerVectors.UpperHexExample | Tests/SwasmTests/WAST/LexerTests.swift:65 | `"0xABCDEF"` is `unsigned(0xABCDEF)` |
| WastLexerVectors.SeparatedUpperHexExample | Tests/SwasmTests/WAST/LexerTests.swift:66 | `"0xABC_DEF"` is `unsigned(0xABCDEF)` |
| WastLexerVectors.UnknownExamples | Tests/SwasmTests/WAST/LexerTests.swift:69-70 | U+3042 alone is `unknown`; of the ZWJ sequence only U+1F646 is returned, and collection stops |

## Left out

- The implementation files of `WASMParser`, `ByteStream`, `WASTLexer` and
  `UnicodeStream` are not part of this model. Every rule here is the one the test
  vectors fix. Where the vectors leave a choice, the choice is written in the
  member's doc comment.
- `Sources/WAKit/Execution/Types/Trap.swift` is left out: it belongs to the execution
  engine, not to the decoder.
- Floating point: `float32()` and `float64()` are modelled up to the raw bit pattern.
  Its reinterpretation as an IEEE-754 value (1.0, π) is left out.
- WasmParser.Uint: for widths above 7 there is no range check against 2^N, and
  integers are unbounded. Nothing in the vectors bounds them: `uint(8)` accepts
  16643 (`WASMParserTests.swift:84-85`).
- WasmParser.Int: the rule that turns [2^(N-1), 2^N) negative is inferred from the
  single distinguishing vector (`WASMParserTests.swift:121-122`).
- ByteStreams.ByteStream: the cursor position after a failure is not observable in
  the tests. The model puts it at the offending byte, or at the end of input
  (`ByteStreams.Stop`).
- Unicode beyond scalars: Swift `String` and grapheme clusters are left out. The
  lexer's input is a sequence of Unicode scalars (`seq<char>`).
- Lexer rules that no vector exercises are left out: parentheses, strings, signed
  and float literals. Identifiers starting with `$` are not told apart from
  keywords. A `(` or `;` that does not start a comment is an `unknown` token.
- Block comments do not nest. A block comment that is never closed runs to the end
  of input.
- The XCTest scaffolding (`expect`, and the `#file`/`#line` capture of
  `LexerTests.swift:11-19`) is left out.
