# rass in Dafny

This project models the core of **rass**, a small Rust library that packs
asset files into a single archive. The repository holds two generations of
the archive, and both are modelled.

**The binary container.** This is a versioned format built on a
little-endian byte codec.
- The codec decodes and encodes u8, u32 and u64, length-prefixed strings and
  byte arrays, raw fixed-length strings, plus `skip` and `exact`. It lives in
  `src/binary/read.rs` and `src/binary/write.rs`, modules `Read` and `Write`.
- The schema on top of the codec is in `src/format/`:
  - a `Header` holds a magic tag, a zero byte, a link string and a u8
    version triple (`HeaderFormat`);
  - a `File` is one table-of-contents entry: offset, size and path
    (`FileFormat`);
  - a `Format` is the container: the header, a u32 entry count, then the
    entries (`ArchiveFormat`, class `Format`).

**The text archive.** The exported `Loader` and `Compiler` still use this one.
- `compile` writes, in order:
  - the banner `RASS v<version> (github.com/LeviLovie/rass)\n`;
  - one `<name:offset:len>` record per source, with the name in base64;
  - a `&`;
  - the base64 contents of the sources, one after another.
- `load` checks the banner, then parses the records into an index from name
  to `(offset, len)`.
- `read` finds the `&`, skips `offset` characters and decodes `len`
  characters.
- Modules: `TextCompiler` and `TextLoader` (class `Loader`).
- `TextArchive` proves what the two promise each other: load and read give
  back what compile wrote.

Shared pieces:
- `Wrappers`: `Option` and `Result` (the `?` operator is Dafny's `:-`).
- `Bytes`:
  - bytes, u32 and u64, and the u32 cast `as u32`;
  - little-endian values;
  - UTF-8 well-formedness, following the table of section 4 of RFC 3629.
- `Binary`: the error enums.
- `Text` models Rust's string helpers:
  - `split` and `trim_*_matches`;
  - `{}` formatting of integers;
  - `str::parse::<u8>` and `str::parse::<u32>`.
- `Base64`: the base64 engine, passed in as a parameter.

How the model is built:
- **Decoders** are pure functions from the remaining input. Each returns the
  value and the input left after it, or the error. A value that fails to
  decode is never a partial read.
- **Encoders** return the bytes they append, so "the bytes already written
  are unchanged" holds by construction. Every encoder has a round-trip lemma
  with its decoder.
- **Terminations** of `skip` and the text scanners are proved by their loops'
  `decreases` clauses.
- **Stateful code** becomes imperative Dafny. This covers `skip`, the
  stream scanners of the loader, `Format::add_file`, `add_files` and
  `serialize`, `Loader::load`, `read`, `Compiler::compile` and `write_bin`.
  - Each such method is proved against a specification
    function: `Read.Skip`, `TextLoader.LoadAsWritten` (`load` as written),
    `TextLoader.LoadSpec` (`load` with the version width corrected),
    `TextLoader.ReadEntry`, `TextCompiler.CompileSpec`, `ArchiveFormat.Encode`.
  - The lemmas about those functions state what the source promises.

Parameters and abstractions:
- `env!("CARGO_PKG_VERSION")` becomes the parameter `pkg` (binary container)
  or `version` (text archive).
- The base64 crate becomes the `Engine` parameter. The predicate
  `Base64.Sound` states what the archive relies on: encodings use only the
  alphabet of section 4 of RFC 4648, and decoding an encoding gives the bytes
  back.
- A source file is its path and its bytes. `read_to_string` succeeds exactly
  when the bytes are UTF-8.
- The existence of the binary file is `archive: Option<string>`.
- Rust's `as u32` on lengths compiles to wrap-around in a release build. The
  model writes it out as `Bytes.AsU32` (mod 2^32). The round-trip theorems
  assume the totals fit.

## Model

| member | source | states |
|---|---|---|
| Bytes.AsU32 | src/compiler.rs:98-100 | `as u32` leaves every value below 2^32 unchanged (and keeps the low 32 bits otherwise) |
| Bytes.LeValueOfBytes | src/binary/write.rs:7-13 | decoding the little-endian bytes of a value that fits gives the value back |
| Bytes.LeBytesOfValue | src/binary/read.rs:31-41 | encoding the value of any byte string gives the same bytes back: the little-endian encoding is a bijection |
| Bytes.AsciiIsUtf8 | src/format/header.rs:5-6 | ASCII bytes are well-formed UTF-8 |
| Read.ReadSome | src/binary/read.rs:9-12 | one `read` call delivers at most the buffer size and what is left, and 0 bytes only at end of input |
| Read.Skip | src/binary/read.rs:3-17 | `skip(n)` always returns Ok and drops exactly min(n, remaining) bytes, however the reads are split; the loop's `to_skip` never exceeds n and strictly decreases |
| Read.Exact | src/binary/read.rs:19-23 | succeeds exactly when `len` bytes remain, then returns exactly those bytes; otherwise UnexpectedEof, never a partial read |
| Read.U8 | src/binary/read.rs:25-29 | consumes one byte, fails with UnexpectedEof on empty input |
| Read.U32 | src/binary/read.rs:31-35 | consumes four bytes and returns their little-endian value; fails with UnexpectedEof when fewer remain |
| Read.U64 | src/binary/read.rs:37-41 | consumes eight bytes and returns their little-endian value; fails with UnexpectedEof when fewer remain |
| Read.StringRaw | src/binary/read.rs:48-53 | succeeds exactly when `len` bytes remain and are UTF-8; UnexpectedEof when too short, InvalidData when not UTF-8 |
| Read.String | src/binary/read.rs:43-46 | succeeds exactly when a u32 length and that many UTF-8 bytes follow; consumes 4 + len bytes |
| Read.Array | src/binary/read.rs:55-60 | a u32 length and that many bytes, returned unchanged without UTF-8 validation; UnexpectedEof otherwise |
| Write.U8 | src/binary/write.rs:3-5 | appends one byte holding the value |
| Write.U32 | src/binary/write.rs:7-9 | appends four bytes whose little-endian value is the value |
| Write.U64 | src/binary/write.rs:11-13 | appends eight bytes whose little-endian value is the value |
| Write.String | src/binary/write.rs:15-19 | appends the byte length as u32 (wrapping) followed by the bytes, 4 + len in total |
| Write.StringLayout | src/binary/write.rs:15-19 | for a length below 2^32 the prefix is exactly the 4-byte little-endian length |
| Write.StringRaw | src/binary/write.rs:21-24 | appends the bytes verbatim, no prefix |
| Write.Array | src/binary/write.rs:26-29 | appends a u32 length prefix and then the bytes |
| Write.ArrayRaw | src/binary/write.rs:31-33 | appends the bytes verbatim, no prefix |
| Write.U8RoundTrip | src/binary/write.rs:3-5 | `read::u8` of what `write::u8` appended returns the value and the following input |
| Write.U32RoundTrip | src/binary/write.rs:7-9 | `read::u32` recovers the value and consumes exactly the 4 bytes written |
| Write.U64RoundTrip | src/binary/write.rs:11-13 | `read::u64` recovers the value and consumes exactly the 8 bytes written |
| Write.StringRawRoundTrip | src/binary/write.rs:21-24 | `read::string_raw` with the byte length recovers the string |
| Write.StringRoundTrip | src/binary/write.rs:15-19 | `read::string` recovers a string shorter than 2^32 bytes and consumes exactly what was written |
| Write.ArrayRoundTrip | src/binary/write.rs:26-29 | `read::array` recovers a byte array shorter than 2^32 and consumes exactly what was written |
| Write.ArrayRawRoundTrip | src/binary/write.rs:31-33 | reading back as many bytes as were written recovers them |
| Text.Split | src/format/header.rs:19-21 | `split` yields at least one piece and no piece contains the separator |
| Text.JoinSplit | src/format/header.rs:19-21 | joining the pieces of a split with the separator gives back the string |
| Text.SplitJoin | src/loader.rs:99-100 | splitting pieces that hold no separator, once joined, gives back the pieces |
| Text.SplitAfterSep | src/loader.rs:100 | a piece without the separator, then the separator, splits off as the first piece |
| Text.Decimal | src/compiler.rs:107 | `{}` of an integer is a non-empty digit string without leading zeros |
| Text.DigitsValueOfDecimal | src/compiler.rs:107 | the digits of n have the value n |
| Text.TrimStart | src/loader.rs:99 | `trim_start_matches(c)` drops exactly the leading run of c and leaves a text that does not start with c |
| Text.TrimEnd | src/loader.rs:99 | `trim_end_matches(c)` drops exactly the trailing run of c and leaves a text that does not end with c |
| Text.ParseUnsigned | src/loader.rs:127-138 | `parse::<u32>` (or `u8`) returns only values below the type's bound |
| Text.ParseDecimal | src/loader.rs:127-138 | the decimal text of a value in range parses to the value |
| Text.ParseDecimalTooLarge | src/format/header.rs:21 | the decimal text of a value out of range does not parse |
| Text.ParseU8Examples | src/format/header.rs:21 | `parse::<u8>` rejects the empty text, a lone '+', a '-' and non-digits and 256; accepts a '+' sign, leading zeros and 255 |
| HeaderFormat.ConstantsAreUtf8 | src/format/header.rs:5-6 | `MAGIC` and `GITHUB` are UTF-8 of 4 and 25 bytes, so a header is 33 bytes |
| HeaderFormat.PackageVersionOfTriple | src/format/header.rs:18-31 | a version "a.b.c" with u8 components yields the triple (a, b, c) |
| HeaderFormat.PackageVersionOfParts | src/format/header.rs:19-29 | the triple comes from the first three dot-separated components |
| HeaderFormat.PackageVersionMissingPatch | src/format/header.rs:27-29 | a missing component becomes 0 |
| HeaderFormat.PackageVersionMalformedMinor | src/format/header.rs:21 | a non-numeric component becomes 0 |
| HeaderFormat.PackageVersionOversizedMajor | src/format/header.rs:21 | a component over 255 becomes 0 |
| HeaderFormat.New | src/format/header.rs:18-31 | `new` holds the two constants and the parsed package version |
| HeaderFormat.CheckVersion | src/format/header.rs:33-54 | Ok exactly when all three bytes equal the package version; otherwise IncorrectVersion naming expected and found versions |
| HeaderFormat.Serialize | src/format/header.rs:58-66 | a header serializes to magic-length + 1 + link-length + 3 bytes; its layout is `SerializeLayout`, its inverse `Deserialize` (`SerializeDeserialize`) |
| HeaderFormat.SerializeLayout | src/format/header.rs:58-66 | `serialize` writes the magic raw, byte 0, the link raw, then major, minor, patch |
| HeaderFormat.Deserialize | src/format/header.rs:68-92 | a header read succeeds only on at least 33 bytes, returns strings of the constants' lengths and leaves exactly the input after byte 33; `DeserializeOkIff` gives when it succeeds, the `Deserialize*` lemmas below the error of each field |
| HeaderFormat.DeserializeFields | src/format/header.rs:72-92 | after the separator: keeps the magic given, reads a link of the constant's length and three version bytes, and leaves exactly the input after them |
| HeaderFormat.DeserializeHeaderBytes | src/format/header.rs:68-92 | on input holding a header, `deserialize` returns its fields and consumes exactly 33 bytes |
| HeaderFormat.DeserializeBadMagic | src/format/header.rs:69-70 | a magic field cut short or not UTF-8 gives SyntaxError "Failed to read magic" |
| HeaderFormat.DeserializeNoSeparator | src/format/header.rs:71 | input ending after the magic fails with the I/O error UnexpectedEof |
| HeaderFormat.DeserializeBadLink | src/format/header.rs:72-74 | a link field cut short or not UTF-8 gives SyntaxError "Failed to read GitHub link" |
| HeaderFormat.DeserializeShortVersion | src/format/header.rs:75-83 | input ending inside the triple names the first missing version byte |
| HeaderFormat.DeserializeOkIff | src/format/header.rs:68-92 | `deserialize` succeeds exactly on input that holds a header |
| HeaderFormat.SeparatorIgnored | src/format/header.rs:71 | the byte after the magic is read but its value does not matter |
| HeaderFormat.SeparatorStep | src/format/header.rs:69-71 | `deserialize` reads the magic, skips one byte whatever it holds, and continues with the link |
| HeaderFormat.Check | src/format/header.rs:94-108 | Ok exactly when magic, link and version all match; a wrong magic is reported first, then a wrong link, then the version |
| HeaderFormat.SerializeDeserialize | src/format/header.rs:58-92 | a header with strings of the constants' lengths reads back as itself and leaves the rest of the input |
| HeaderFormat.NewPassesCheck | src/format/header.rs:94-108 | a header from `new` passes `check` |
| HeaderFormat.NewRoundTripPassesCheck | src/format/header.rs:18-108 | a header from `new` survives serialization and still passes `check` |
| FileFormat.New | src/format/file.rs:13-15 | `new` stores path, offset and size as given |
| FileFormat.Serialize | src/format/file.rs:19-24 | an entry serializes to 20 + path-length bytes |
| FileFormat.SerializeLayout | src/format/file.rs:19-24 | offset as u64, then size as u64, then the path with its u32 length |
| FileFormat.Deserialize | src/format/file.rs:26-31 | no contract of its own: `DeserializeOkIff` states when it succeeds and which I/O error it gives, `DeserializeConsumesEntry` that it consumes exactly one serialized entry, `SerializeDeserialize` that it inverts `Serialize` |
| FileFormat.DeserializeOkIff | src/format/file.rs:26-31 | `deserialize` succeeds exactly on a complete entry with a UTF-8 path; UnexpectedEof when input ends inside a field, InvalidData when the path is not UTF-8 |
| FileFormat.DeserializeConsumesEntry | src/format/file.rs:26-31 | the bytes consumed are exactly the serialization of the entry returned |
| FileFormat.SerializeDeserialize | src/format/file.rs:19-31 | an entry whose path is shorter than 2^32 bytes reads back as itself |
| ArchiveFormat.DecodeFiles | src/format/mod.rs:49-52 | no contract of its own: `DecodeFilesConsumes` states that a success holds exactly `count` entries and consumes their serializations, `DecodeFilesOk` and `DecodeFilesStep` that the first failing entry ends the read |
| ArchiveFormat.Decode | src/format/mod.rs:45-54 | a success has read at least the 33 header bytes and the 4 count bytes; `SerializeDecode` states that it inverts `Encode` |
| ArchiveFormat.DecodeFilesConsumes | src/format/mod.rs:49-52 | reading `count` entries yields exactly `count` entries and consumes exactly their serializations |
| ArchiveFormat.DecodeFilesOk | src/format/mod.rs:50-52 | reading entries succeeds only if the first entry and then the others read; the first failure aborts |
| ArchiveFormat.DecodeFilesStep | src/format/mod.rs:50-52 | reading entries is reading the first one and then the rest after it |
| ArchiveFormat.Encode | src/format/mod.rs:35-43 | the container is as long as the header, 4 count bytes and the entries |
| ArchiveFormat.EncodeLayout | src/format/mod.rs:35-43 | the header, then the entry count as u32, then each entry in list order |
| ArchiveFormat.SerializeFilesSnoc | src/format/mod.rs:39-41 | writing one more entry appends exactly its serialization |
| ArchiveFormat.Format.constructor | src/format/mod.rs:18-23 | `new` has a fresh header and no entries |
| ArchiveFormat.Format.Of | src/format/mod.rs:53 | the struct literal holds the header and entries given |
| ArchiveFormat.Format.AddFile | src/format/mod.rs:25-27 | exactly one entry is appended at the end; the earlier entries and the header are unchanged |
| ArchiveFormat.Format.AddFiles | src/format/mod.rs:29-31 | the given entries are appended in order after the existing ones; the header is unchanged |
| ArchiveFormat.Format.Serialize | src/format/mod.rs:35-43 | the loop writes exactly the layout of `Encode` |
| ArchiveFormat.Format.Deserialize | src/format/mod.rs:45-54 | succeeds exactly when header, count and all entries read, giving a new object holding them; otherwise the first error |
| ArchiveFormat.Format.Check | src/format/mod.rs:56-59 | `check` is the header's check; the entries are not examined |
| ArchiveFormat.SerializeFilesDecode | src/format/mod.rs:39-52 | entries with paths that fit read back as themselves, in order |
| ArchiveFormat.SerializeDecode | src/format/mod.rs:35-54 | a container whose header strings have the constants' lengths and whose count and paths fit reads back with the same header and entry order |
| ArchiveFormat.NewAddSerialize | src/format/mod.rs:18-54 | a new container filled by `add_files` serializes to bytes that read back to the package header and those entries and pass `check` |
| Base64.NoDelimiters | src/compiler.rs:91-96 | base64 text holds none of '<', '>', ':' and '&' |
| TextLoader.UntilLen | src/loader.rs:258-288 | the length `read_until` takes reaches the first delimiter inclusive, or all the text when there is none |
| TextLoader.ReadNextChars | src/loader.rs:193-221 | returns the next min(count, remaining) characters and leaves the rest |
| TextLoader.PeekNextChars | src/loader.rs:224-244 | returns the next min(count, remaining) characters without consuming them |
| TextLoader.ExpectNextChars | src/loader.rs:247-255 | Ok exactly when the text starts with the expected characters; otherwise the message naming both; as many characters as expected are consumed either way |
| TextLoader.ReadUntil | src/loader.rs:258-288 | returns the text through the first delimiter inclusive, or the whole remainder at end of input, and leaves what follows |
| TextLoader.SkipAfter | src/loader.rs:323-352 | Ok exactly when the delimiter occurs, then consumes through it; otherwise UnexpectedEof with everything consumed |
| TextLoader.ReadFile | src/loader.rs:291-320 | Ok exactly when start + len characters remain, then returns characters start .. start + len; otherwise UnexpectedEof |
| TextLoader.Record | src/loader.rs:99-139 | no contract of its own: `RecordAccepts` states exactly when a record is accepted and every error message, `RecordOnlyAdds` that an accepted record adds one new name, `RecordNeedsText` that it needs a non-empty record |
| TextLoader.RecordLoop | src/loader.rs:79-142 | no contract of its own: `RecordLoopKeepsEntries` states that earlier entries survive, `TextArchive.LoadRecords` that the written records are all inserted and the loop stops at the '&' |
| TextLoader.LoadWithWidth | src/loader.rs:36-145 | no contract of its own: `LoadNeedsBanner` states that, whatever number of version characters is read, an archive without the banner is a SyntaxError leaving the index as it was, and a success implies the banner |
| TextLoader.LoadAsWritten | src/loader.rs:36-145 | `load` as written, reading 5 version characters; `TextArchive.AsWrittenRejectsOtherVersions` and `TextArchive.AsWrittenExample` state what follows |
| TextLoader.LoadSpec | src/loader.rs:36-145 | `load` reading as many version characters as the version has; `LoadSkipsBanner` states that it is the record loop after the banner, `TextArchive.CompileThenLoad` that it loads every compiled archive |
| TextLoader.RecordAccepts | src/loader.rs:99-139 | a record is accepted exactly when it splits into three fields, the name decodes to UTF-8 not yet in the index, and both numbers parse as u32; any other count of fields is "Invalid source header format" |
| TextLoader.RecordNeedsText | src/loader.rs:99-106 | an empty record is never accepted, so the record loop makes progress |
| TextLoader.RecordOnlyAdds | src/loader.rs:121-139 | an accepted record adds exactly one name not there before and changes no existing entry |
| TextLoader.RecordLoopKeepsEntries | src/loader.rs:79-142 | entries in the index before `load` survive the record loop unchanged, whether it ends at '&' or at an error |
| TextLoader.LoadNeedsBanner | src/loader.rs:44-77 | an archive that does not start with the banner is a SyntaxError that leaves the index as it was; a successful load implies the banner |
| TextLoader.LoadSkipsBanner | src/loader.rs:44-83 | after the banner, reading as many version characters as the version has, `load` is the record loop over what follows |
| TextLoader.ReadEntry | src/loader.rs:147-190 | a name not in the index is FileNotFound; a missing binary is BinaryDoesNotExist; success implies a '&' and a stored range inside the payload |
| TextLoader.Stored | src/loader.rs:163-189 | decoding succeeds only for a range that lies inside the text after the '&' |
| TextLoader.Loader.constructor | src/loader.rs:25-30 | a new loader holds the path and an empty index |
| TextLoader.Loader.Files | src/loader.rs:32-34 | the current index; `Load` and `Read` are stated over it |
| TextLoader.Loader.Load | src/loader.rs:36-145 | `load` as written: the result and the new index are those of `LoadAsWritten` on the old index |
| TextLoader.Loader.LoadCorrected | src/loader.rs:36-145 | `load` with the version width corrected: the result and the new index are those of `LoadSpec` on the old index |
| TextLoader.Loader.LoadReading | src/loader.rs:36-145 | the steps of `load` with the version read as `width` characters: the result and the new index are those of `LoadWithWidth` on the old index |
| TextLoader.Loader.Read | src/loader.rs:147-190 | the result is `ReadEntry` of the current index |
| TextCompiler.Builder | src/compiler.rs:18-25 | the default builder has neither path |
| TextCompiler.FromSources | src/compiler.rs:28-31 | sets the sources path and nothing else |
| TextCompiler.SaveTo | src/compiler.rs:33-36 | sets the binary path and nothing else |
| TextCompiler.Build | src/compiler.rs:38-43 | Ok with both paths exactly when both are set; NoSourcesPath exactly when sources is missing (checked first), else NoBinaryPath |
| TextCompiler.BuildAfterSetters | src/compiler.rs:28-43 | both setters in either order build; one missing gives its error; an empty builder reports NoSourcesPath |
| TextCompiler.UnreadableFirst | src/compiler.rs:89-93 | no source is reported exactly when every source reads; otherwise the one reported is the first that does not |
| TextCompiler.WriteBin | src/compiler.rs:119-129 | appends the content and increases the index by its length modulo 2^32, so the index keeps counting the characters written |
| TextCompiler.ReadSources | src/compiler.rs:85-101 | reports the first unreadable source, or returns every source's base64 content and its record with the running offset |
| TextCompiler.WriteRecords | src/compiler.rs:103-109 | appends one `<name:offset:len>` record per entry in order and keeps the index counting |
| TextCompiler.WriteContents | src/compiler.rs:112-114 | appends the contents in order and keeps the index counting |
| TextCompiler.CompileSpec | src/compiler.rs:72-117 | no contract of its own: `TextArchive.CompileWrites` states that it succeeds exactly when every source reads and then writes the whole archive, `TightPacking` how the records place the contents |
| TextCompiler.Compile | src/compiler.rs:72-117 | the result and the file written are those of `CompileSpec`: the full archive, or the banner alone and FailedToReadSource naming the first unreadable source |
| TextCompiler.TightPacking | src/compiler.rs:88-100 | without wrap-around the first record starts at 0, each next one where the previous ends, each as long as its source's base64 content |
| TextCompiler.ConcatPrefix | src/compiler.rs:112-114 | the contents of the first k sources are the start of all the contents |
| TextArchive.InsertLookup | src/loader.rs:139 | inserting records with distinct names maps each name to its own offset and length, and adds no other name |
| TextArchive.InsertKeepsKey | src/loader.rs:139 | a name none of the records uses keeps its entry |
| TextArchive.RecordTextParses | src/loader.rs:99-139 | each record `compile` writes is one `load` accepts: the name is added with its offset and length, or it is a duplicate |
| TextArchive.RecordTextUntil | src/loader.rs:91 | `read_until('>')` takes exactly one written record |
| TextArchive.RecordsTextNoTerminator | src/compiler.rs:103-110 | the records hold no '&', so the loop stops at the one `compile` writes |
| TextArchive.LoadRecords | src/loader.rs:79-142 | the record loop over the written records inserts them all and stops at the '&' without error |
| TextArchive.CompileWrites | src/compiler.rs:72-117 | compiling succeeds exactly when every source reads, and then writes the whole archive |
| TextArchive.CompiledLoads | src/loader.rs:36-145 | loading a compiled archive into an empty index succeeds with the index of its records |
| TextArchive.IndexOfContents | src/loader.rs:139 | that index maps each source path, and nothing else, to its record's offset and length |
| TextArchive.CompileThenLoad | src/compiler.rs:72-117 | compile, then load into an empty loader: Ok, each source path maps to its record and no other name appears |
| TextArchive.ArchivePayload | src/loader.rs:156 | with no '&' in the version, the text after the first '&' is exactly the contents |
| TextArchive.EntryPlacesContent | src/loader.rs:163 | without wrap-around, record i locates source i's base64 content in the payload |
| TextArchive.CompileThenRead | src/loader.rs:147-190 | compile, load and read any source: `read` returns that source's bytes |
| TextArchive.DuplicateRecordStops | src/loader.rs:121-126 | a record whose name is already in the index stops the loop with "Duplicate source file found" and the index unchanged |
| TextArchive.LoadTwiceRejects | src/loader.rs:121-126 | loading the same archive a second time reports the first source as a duplicate and keeps the index |
| TextArchive.AsWrittenRejectsOtherVersions | src/loader.rs:51-62 | as written, `load` rejects every compiled archive whose version is not 5 characters long |
| TextArchive.AsWrittenExample | src/loader.rs:51-62 | as written, version "0.10.0" fails with "Unsupported version: 0.10., expected: 0.10.0" |
| TextArchive.AsWrittenAgreesOnFiveCharacters | src/loader.rs:51-62 | for a five-character version the code as written and the corrected loader agree |

## Left out

- File-system plumbing is not modelled: `check_files_exist`, `list_sources` and `list_files` (src/compiler.rs:131-178), `exists` and `File::open` in the loader, and `OpenOptions` in the compiler. The sources are given as a sequence of (path, bytes), and the binary file as an optional string.
- The compiler opens the binary in append mode (src/compiler.rs:74-78). The model's `file` is what one `compile` writes, not what was in the file before it.
- The base64 crate is not modelled. It is the `Engine` parameter, constrained only by `Base64.Sound`.
- `BufReader` and `fill_buf` chunking are not modelled, along with `from_utf8(...).unwrap_or_default()` on partial buffers and the `total_bytes` of `read_next_chars`, which is not reset. The stream is one character sequence in which one character is one byte. The archive is ASCII apart from the version, so this matters only when a chunk boundary splits a character.
- The branches "Failed to read version", "Failed to read end of header", "Failed to read source header" and "Invalid UTF-8 data" come from stream I/O errors or from non-UTF-8 text. In a character sequence they cannot happen, so the model has no such paths.
- The second, detail field of `SyntaxError`, the text of `io::Error`, and `Display` messages are left out. Every error keeps its variant and its context string.
- The `println!` in `read` is left out.
- Write errors are left out: `FailedToWrite`, `FailedToOpenBinary` and the directory errors of `CompilerError`. So is an I/O failure of `write_all` in the codec. Writes always succeed in the model.
- The debug-build overflow panic of `*index += …` and `sources_index += …` is not modelled. The release-build wrap-around is modelled instead (`Bytes.AsU32`).
- TextArchive.CompileThenRead, TextArchive.EntryPlacesContent, TextCompiler.TightPacking: these assume the contents total less than 2^32 characters. Past that the offsets wrap, and the model states only the wrapped values.
- TextArchive.CompileThenRead: this assumes the version holds no '&'. `read` skips to the first '&' in the whole file, so a version with a '&' would misplace every read.
- ArchiveFormat.SerializeDecode, FileFormat.SerializeDeserialize, Write.StringRoundTrip, Write.ArrayRoundTrip: these require lengths below 2^32, where `as u32` keeps its value.
- The template crate (a build script and a demo front-end) and the re-exports of src/lib.rs are not part of this model.
- Three behaviours of the code are worth noting:
  - The exported `Loader` reads the text format, not the binary container.
  - A `load` that fails keeps the records it already inserted.
  - A second `load` does not clear the index, so it reports duplicates (TextArchive.LoadTwiceRejects).

## Findings

| source | as written | input that shows it | evidently intended | confidence | as-written member | corrected member |
|---|---|---|---|---|---|---|
| src/loader.rs:51 | `load` reads exactly 5 characters of version and compares them with the package version, while `compile` writes the whole version (src/compiler.rs:82) | package version "0.10.0": the loader reads "0.10." and fails with "Unsupported version: 0.10., expected: 0.10.0" on an archive the same build wrote; any version that is not 5 characters long fails the same way | read as many characters as the package version has | not executed | TextLoader.LoadAsWritten, TextLoader.Loader.Load, TextArchive.AsWrittenRejectsOtherVersions, TextArchive.AsWrittenExample | TextLoader.LoadSpec, TextLoader.Loader.LoadCorrected, TextArchive.CompileThenLoad |
