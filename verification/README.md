# PNG chunk codec — a Dafny model

PNGme hides text messages inside PNG files by appending chunks to them. This
project models the part of it that deals with single chunks:

- the four-byte **chunk type** (`ChunkType`, src/chunk_type.rs). It can be
  built from bytes or from a string, and its letter case carries the
  properties named in section 5.4 of the PNG specification (W3C / ISO/IEC
  15948);
- the **chunk** (`Chunk`, src/chunk.rs), laid out as in section 5.3 of the
  PNG specification: a big-endian `u32` length, the type, the data, and a
  big-endian `u32` CRC. The model covers its constructor, its serialiser,
  its parser and its UTF-8 view of the data;
- the **CRC-32** the chunk code gets from `crc32fast::hash`. It is written
  out as defined in section 5.5 of the PNG specification: reflected
  polynomial 0xEDB88320, register preset to all ones, result complemented;
- **UTF-8** as in section 4 of RFC 3629. It stands in for `str::as_bytes`,
  `str::from_utf8` and `String::from_utf8`.

Files, one module each:

| file | module | models |
|---|---|---|
| results.dfy | `Results` | Rust's `Option` and `Result` |
| bytes.dfy | `Bytes` | `u8`, `u32`, the `as u32` cast, `to_be_bytes` / `from_be_bytes` |
| crc32.dfy | `Crc32` | `crc32fast::hash` |
| utf8.dfy | `Utf8` | UTF-8 encoding and validation |
| chunk_type.dfy | `ChunkTypes` | src/chunk_type.rs |
| chunk.dfy | `Chunks` | src/chunk.rs |
| chunk_examples.dfy | `ChunkExamples` | the unit tests of both files, as lemmas |

Rust integers are modelled as bounded `int` subset types. The one narrowing
cast in the core, `data.len() as u32`, is written out as reduction modulo
2^32. A Rust `String` is a Dafny `string`. A Rust `char` is a Unicode scalar
value, and so is a Dafny `char`. Byte lengths of strings are always taken
from the UTF-8 encoding, never from the character count.

The parser's two gaps are reproduced as written, not fixed:

- it never compares the declared length with the data it finds;
- it never checks that the type bytes are letters.

So "length matches data" and "type bytes are letters" hold for chunks made
by `New`, but not for parsed chunks. `ParseIgnoresDeclaredLength`,
`ParseAcceptsAnyTypeBytes` and `LengthByteChange` state these gaps exactly.

The test message "This is where your secret message will be!" is 42 bytes
long. The code's tests assert a length of 42.

## Model

| member | source | states |
|---|---|---|
| Bytes.TruncateU32 | src/chunk.rs:30 | `as u32` keeps a length below 2^32 unchanged; otherwise the result is congruent to it modulo 2^32 and no larger |
| Bytes.ToBigEndian | src/chunk.rs:65-68 | `to_be_bytes` gives four bytes, most significant first, that `from_be_bytes` reads back as the same number |
| Bytes.FromBigEndian | src/chunk.rs:93-103 | `from_be_bytes` puts the first byte in the most significant place (it picks the block of 2^24 values the result lies in) and the last in the least |
| Bytes.ToFromBigEndian | src/chunk.rs:93-103 | any four bytes read as a big-endian `u32` and written again are the same bytes |
| Bytes.FromBigEndianInjective | src/chunk.rs:93 | two different four-byte fields never read as the same `u32` |
| Crc32.Hash | src/chunk.rs:27 | `crc32fast::hash` as the CRC-32 of section 5.5 of the PNG specification; the empty input has CRC 0; the rows below fix its value and its error detection |
| Crc32.UpdateAppend | src/chunk.rs:26-27 | the CRC register after `a ++ b` is the register after `a`, then fed `b` |
| Crc32.UpdateKeepsDifference | src/chunk.rs:27 | two different registers stay different after any further input |
| Crc32.DetectsSingleByteError | src/chunk.rs:91-95 | two inputs that differ in exactly one byte always have different CRCs |
| Crc32.DetectsByteUpdate | src/chunk.rs:91-95 | replacing any one byte of an input with a different value changes its CRC |
| Crc32.CheckValue | src/chunk.rs:27 | the CRC of "123456789" is 0xCBF43926, the published check value of CRC-32 |
| Utf8.Encode | src/chunk_type.rs:75 | `as_bytes` of a string: at least one byte per character, and exactly one per character when the string is ASCII |
| Utf8.Decode | src/chunk.rs:56 | `String::from_utf8`: a decoded text re-encodes to exactly the input bytes |
| Utf8.DecodeFirstEncode | src/chunk.rs:54-61 | the decoder reads the first encoded character back, with its byte width |
| Utf8.DecodeEncode | src/chunk.rs:54-61 | decoding the UTF-8 encoding of any string gives that string |
| Utf8.DecodeFirstSound | src/chunk.rs:54-61 | whatever the decoder reads for one character re-encodes to exactly the bytes it consumed |
| Utf8.ValidUpTo | src/chunk.rs:56 | `valid_up_to` of the error: the length of a prefix that decodes |
| Utf8.ValidUpToLongest | src/chunk.rs:56 | no prefix longer than `valid_up_to` decodes |
| Utf8.ValidUpToOnError | src/chunk.rs:56-59 | for input that does not decode, `valid_up_to` is shorter than the input, the prefix it marks is well-formed, and no longer prefix is |
| Utf8.DecodeSucceedsIffWellFormed | src/chunk.rs:54-61 | decoding succeeds exactly on byte strings that are the encoding of some string |
| Utf8.EncodeInjective | src/chunk.rs:54-61 | two strings with the same encoding are equal |
| Utf8.EncodeAppend | src/chunk_type.rs:75 | the bytes of `s ++ t` are the bytes of `s` followed by those of `t` |
| Utf8.EncodeAscii | src/chunk_type.rs:70-79 | an ASCII string has one byte per character, equal to its code; any other string has a byte of 0x80 or more |
| ChunkTypes.IsValidByte | src/chunk_type.rs:21-23 | a byte is valid exactly when, read as a character, it lies in 'A'-'Z' or 'a'-'z' |
| ChunkTypes.ValidByteIsLetter | src/chunk_type.rs:21-23 | for a valid byte, upper case means bit 5 is clear and lower case means it is set |
| ChunkTypes.FirstInvalid | src/chunk_type.rs:58-62 | the scan finds nothing exactly when every byte is a letter; otherwise it gives the first non-letter, with only letters before it |
| ChunkTypes.TryFromBytes | src/chunk_type.rs:57-64 | accepts exactly the arrays whose four bytes are all letters and keeps them unchanged; every rejection is `ByteConversionError` |
| ChunkTypes.FromStr | src/chunk_type.rs:70-86 | `StringConversionError` exactly when the UTF-8 byte length is not 4; with 4 bytes, the same outcome as `TryFromBytes` on those bytes |
| ChunkTypes.FromStrLetters | src/chunk_type.rs:70-86 | accepts exactly strings of four ASCII letters, with the type bytes being the letters' codes; four bytes that are not all letters give `ByteConversionError` |
| ChunkTypes.IsCritical | src/chunk_type.rs:33-35 | for a letter in byte 0, critical means its bit 5 (the ancillary bit) is clear |
| ChunkTypes.IsPublic | src/chunk_type.rs:37-39 | for a letter in byte 1, public means its bit 5 (the private bit) is clear |
| ChunkTypes.IsReservedBitValid | src/chunk_type.rs:41-43 | for a letter in byte 2, the reserved bit is valid when its bit 5 is clear |
| ChunkTypes.IsSafeToCopy | src/chunk_type.rs:45-47 | for a letter in byte 3, safe-to-copy means its bit 5 is set |
| ChunkTypes.IsValid | src/chunk_type.rs:29-31 | for a letter in byte 2, `is_valid` means its bit 5 is clear: the reserved-bit test alone |
| ChunkTypes.PropertiesAreLocal | src/chunk_type.rs:33-47 | each property depends on its own byte only: changing another byte leaves it unchanged |
| ChunkTypes.AsString | src/chunk_type.rs:49-51 | the text of a type whose bytes are UTF-8 encodes back to exactly those bytes |
| ChunkTypes.AsStringFromStr | src/chunk_type.rs:49-51 | the text of a type built from a string is that string |
| ChunkTypes.AsStringOfLetters | src/chunk_type.rs:89-93 | a type made of letters always has text: four characters whose codes are its bytes |
| ChunkTypes.Less | src/chunk_type.rs:15-18 | one type is below another exactly when, at the first of the four bytes where they differ, its byte is smaller |
| ChunkTypes.LexLessFirstDifference | src/chunk_type.rs:15-18 | one type is below another exactly when, at the first byte where they differ, its byte is smaller |
| ChunkTypes.LessStrictTotal | src/chunk_type.rs:15-18 | the derived order on types is irreflexive, asymmetric, transitive and total on distinct types |
| Chunks.Covered | src/chunk.rs:24-26 | the CRC input is the four type bytes followed by the data |
| Chunks.New | src/chunk.rs:23-35 | keeps type and data; the length equals the data size below 2^32; the stored CRC matches type and data |
| Chunks.AsBytes | src/chunk.rs:63-75 | 12 + data-size bytes: big-endian length, type, data, big-endian CRC, in that order |
| Chunks.TryFrom | src/chunk.rs:81-105 | rejects input under 12 bytes or with a CRC field that does not match the CRC of bytes 4 to n-4, always with `ChunkError`; an accepted chunk has a matching CRC and its fields are the input's slices |
| Chunks.DataAsString | src/chunk.rs:54-61 | succeeds exactly when the data is well-formed UTF-8, with text that re-encodes to the data; a failure hands the data back with `valid_up_to`, the length of the longest well-formed prefix, shorter than the data |
| Chunks.ParseThenSerialize | src/chunk.rs:63-105 | any accepted input is reproduced byte for byte by serialising the parsed chunk |
| Chunks.SerializeThenParse | src/chunk.rs:63-105 | a serialised chunk parses back exactly when its CRC matches its type and data, and then to the very same chunk, length field included |
| Chunks.NewRoundTrip | src/chunk.rs:23-105 | a chunk from `new` survives serialising and parsing unchanged |
| Chunks.ParseIgnoresDeclaredLength | src/chunk.rs:86-98 | replacing the length field with any four bytes changes neither acceptance nor any parsed field except the length |
| Chunks.ParseAcceptsAnyTypeBytes | src/chunk.rs:97-104 | any four type bytes, letters or not, with any length field are accepted once the CRC covers them |
| Chunks.CoveredByteChange | src/chunk.rs:91-95 | changing one type or data byte of a serialised chunk changes the computed CRC and leaves the CRC field as it was |
| Chunks.LengthByteChange | src/chunk.rs:86-98 | changing one length-field byte of a consistent serialised chunk is accepted, with a parsed length different from the original |
| Chunks.CoveredByteRejected | src/chunk.rs:91-95 | changing one type or data byte of a consistent serialised chunk is rejected with `ChunkError` |
| Chunks.CrcByteRejected | src/chunk.rs:89-95 | changing one CRC-field byte of a consistent serialised chunk is rejected with `ChunkError` |
| Chunks.DetectsSingleByteCorruption | src/chunk.rs:86-105 | a one-byte change to a consistent serialised chunk is accepted exactly when it falls in the length field |
| Chunks.DataAsStringOfText | src/chunk.rs:54-61 | a chunk made from the bytes of a string gives that string back as its data text |
| ChunkExamples.TypeFromBytesTest | src/chunk_type.rs:100-106 | [82, 117, 83, 116] is accepted and its bytes come back unchanged |
| ChunkExamples.TypeFromStrTest | src/chunk_type.rs:108-113 | "RuSt" gives the same type as the bytes [82, 117, 83, 116] |
| ChunkExamples.CaseTests | src/chunk_type.rs:115-161 | "RuSt" is critical and "ruSt" is not; "RUSt" is public and "RuSt" is not; "RuSt" has a valid reserved bit and "Rust" does not; "RuSt" is safe to copy and "RuST" is not |
| ChunkExamples.ValidityTests | src/chunk_type.rs:163-182 | "RuSt" is valid, "Rust" is not, and "Ru1t" is rejected with `ByteConversionError` |
| ChunkExamples.ByteLengthExample | src/chunk_type.rs:70-79 | "Rué" has three characters but four bytes, so it fails the letter check rather than the length check; "RuS" fails the length check |
| ChunkExamples.TypeStringTest | src/chunk_type.rs:169-173 | the text of "RuSt" is "RuSt" |
| ChunkExamples.UncheckedTypeExample | src/chunk_type.rs:29-31 | type bytes "R1St", which contain a digit, still count as valid |
| ChunkExamples.FromStrR1St | src/chunk_type.rs:76-79 | "R1St" is rejected with `ByteConversionError` |
| ChunkExamples.MessageEncoding | src/chunk.rs:147-149 | the test message is 42 bytes, and those bytes are its UTF-8 encoding |
| ChunkExamples.TestCrc | src/chunk.rs:130 | the CRC of "RuSt" followed by the message is 2882656334 |
| ChunkExamples.NewChunkTest | src/chunk.rs:144-153 | `new` with "RuSt" and the message gives length 42 and CRC 2882656334 |
| ChunkExamples.TestChunkParses | src/chunk.rs:126-142 | the assembled 54 test bytes parse to length 42, type "RuSt", the message and CRC 2882656334 |
| ChunkExamples.TestChunkText | src/chunk.rs:167-173 | the test chunk's data reads as the message |
| ChunkExamples.ValidChunkFromBytesTest | src/chunk.rs:181-206 | the parsed test chunk has length 42, text "RuSt", the message as data text, and CRC 2882656334 |
| ChunkExamples.InvalidChunkFromBytesTest | src/chunk.rs:208-227 | the same bytes with CRC field 2882656333 are rejected with `ChunkError` |

## Left out

- src/png.rs (declared at src/main.rs:5) is not available, so the container it defines is not modelled: the signature check, the chunk list, `append_chunk`, `chunk_by_type` and `as_bytes`.
- src/commands.rs, src/main.rs and src/args.rs: command-line parsing, file reading and writing, and printing. They are input/output around the container.
- The `Display` output of `Chunk` (src/chunk.rs:108-118): it is human-readable formatting only. The text `Display` writes for a `ChunkType` is `AsString`.
- The accessors `length`, `chunk_type`, `data`, `crc` and `bytes` are not separate functions. They are the datatype's fields.
- `crc32fast` internals such as tables and SIMD paths. The model computes the same function bit by bit.
- ChunkTypes.AsString: requires the type bytes to be well-formed UTF-8. It does not model the panic of `unwrap` on other bytes, which only chunks from the parser can reach.
- Chunks.DataAsString: the error keeps the rejected bytes and `valid_up_to`, but not `error_len`, the length of the invalid sequence that stopped decoding (or none at a truncated end). Its one caller, src/commands.rs:41-44, discards the error.
- `ChunkError::UTF8ConversionError` is declared but never constructed by the code modelled. It appears in the datatype only.
- Memory: `Vec` allocation and `clone` are modelled as plain values.
