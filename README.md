# EPW loader, packers and extractor

This project models the EaglercraftX web bootstrap and its EPW asset files, and proves properties of the model.

- **The loader.** `eagler/bootstrap.js` defines `window.main`. It reads the
  page's `eaglercraftXOpts` and resolves `assetsURI`. It downloads the EPW
  file with `fetch`, falling back to a hand-written base64 decoder for
  `data:` URLs. It then checks the file's magic "EAG$WASM", its declared
  length and four component slots (splash image, mime type, loader.js,
  loader.wasm). Finally it hands the loader a copy of the options without
  `container` and `assetsURI`.
- **The directory packer.** `eagler/tools/epwPack.js` writes an "EPW\0"
  image: a header, an offset table, length-prefixed paths, the file data,
  and one CRC-32 per file.
- **The manifest packer.** `eagler/epwPack.js` writes an "EPWK" image: a
  16-byte header, 12-byte rows (offset, size, path length), the paths, then
  the data.
- **The extractor.** `eagler/EPWexstract.js` reads the four slots the loader
  uses and slices the components out of a file, with no validation.

Modules, one per concern:

- `Wrappers`: `Option` and `Result`.
- `ByteCursor`: bytes, little-endian 32-bit fields, the region predicate
  `SitsAt`, and concatenation of byte strings.
- `Base64` (the decoder) and `Base64RoundTrip` (a reference RFC 4648
  encoder and the round trip).
- `Bootstrap`: `window.main` and `fetchEPWSmart`.
- `Crc`: the bitwise CRC-32 and its equivalence with the table-driven CRC
  of RFC 1952, section 8.
- `DirPack`, `EpwkPack` and `EpwExtract`: the three tools.

## How the model works

- **Loops are methods proved against functions.** The loops of the source
  that update variables or buffers are methods with a `while` or `for`
  loop and invariants: the decoder, the table set-up, the option copy, the
  CRC, the offset and row tables, the CRC list and the entry collection.
  Each method's `ensures` ties its result to a specification function, and
  the lemmas are stated about those functions. The `files.map` calls of
  `eagler/tools/epwPack.js` that build the path records and the data list
  (lines 59-64 and 67) compute values and are sequence comprehensions
  (`PathRecords`, `Datas`).
- **Node Buffers.** A buffer of several fields that the source allocates
  and then writes field by field (the offset table, the 16-byte header,
  the row table) is an `array<uint8>` written in place. A single 4-byte
  field written once (`fileCount`, a path record's length, a CRC field) is
  the sequence `U32LE(v)`. Buffers that are only concatenated are
  sequences.
- **JavaScript values are a datatype.** A JavaScript value (`JsValue`) is
  undefined, null, a boolean, an integer number, a string, an array or an
  object. Objects are maps from keys to values.
- **Resolving `assetsURI`.** In the source, `typeof x === 'object'` holds
  for null. Reading a property of null throws, and that throw is modelled
  as the `PropertyOfNull` error.
- **Bit operations on the decoder's 24-bit groups.** The decoder combines
  each group with shifts and ORs on disjoint bit fields. The model computes
  the same values with multiplication and addition, which is exact here. A
  table entry that does not exist reads as 0, as `undefined << n` does in
  JavaScript.
- **The CRC register.** The register is the unsigned reading of the
  JavaScript int32 bit pattern, held as a natural number. XOR is a
  digit-wise recursive function.
- **Unproved check value.** The check value `0xCBF43926` of CRC-32 is not
  proved.
- **Packer offsets as written.** Both packers' offset fields are modelled
  exactly as the code computes them.
  - `eagler/tools/epwPack.js` starts its offsets at `12 + 4n`. The data
    really starts after the path records too.
  - `eagler/epwPack.js` starts them at 16. It does not count the rows or
    the paths.
  - `PayloadAt` in each packer states where each payload really lies,
    relative to the offset the packer wrote.

## Model

| member | source | states |
|---|---|---|
| ByteCursor.U32LE | eagler/tools/epwPack.js:46-47 | the four bytes `writeUInt32LE` produces read back as the same value |
| ByteCursor.ReadU32LE | eagler/EPWexstract.js:13-15 | definition of `readUInt32LE` / `getUint32(off, true)`, the little-endian value of bytes off..off+3; characterised by `U32LE`, `ReadU32LEBytes` and `ReadU32LEInjective` |
| ByteCursor.ReadU32LEBytes | eagler/EPWexstract.js:13-15 | a little-endian read determines the four bytes it came from |
| ByteCursor.WriteU32LE | eagler/epwPack.js:53-54 | writing a field replaces exactly bytes off..off+3 of the buffer with the value's little-endian bytes and leaves every other byte |
| Base64.CreateDecodeTable | eagler/bootstrap.js:13-18 | the table maps exactly the 64 standard characters and `-`, `_` to their RFC 4648 values (sections 4 and 5) and nothing else |
| Base64.IndexOf | eagler/bootstrap.js:22 | the result is -1 or a position at or after `from` holding the character, and no earlier such position exists |
| Base64.PayloadEnd | eagler/bootstrap.js:22-23 | definition: the first `=` at or after the offset, or the end; lies between the offset and the end; characterised by `DecodeIgnoresAfterPadding` and `EncodePaddingCount` |
| Base64.PaddingCount | eagler/bootstrap.js:24 | definition of `paddingCount`; characterised by `DecodeLayout` and `EncodePaddingCount` |
| Base64.QuadBytes | eagler/bootstrap.js:32-38 | definition of one group's three bytes; always three bytes, characterised by `QuadBytesValue`, `GroupFromTable` and `QuadRoundTrip` |
| Base64.Sextet | eagler/bootstrap.js:32-35 | definition of a character's value under the shifts: its RFC 4648 value, or 0 for a character with no table entry; always below 64, characterised by `GroupFromTable` and `DecodeForeignAsA` |
| Base64.Lookup | eagler/bootstrap.js:32-35 | definition of `table[c]` as the shifts read it, 0 for a missing entry; equals `Sextet` on the decode table, by `GroupFromTable` |
| Base64.Quantum | eagler/bootstrap.js:32-35 | definition of a group's 24-bit value; below 2^24, characterised by `QuadBytesValue` |
| Base64.DecodePayload | eagler/bootstrap.js:29-50 | definition of the group loop followed by the tail; characterised by `DecodePayloadLength` and `PayloadRoundTrip` |
| Base64.Decode | eagler/bootstrap.js:19-53 | decoding fails exactly when the length after the offset is not a multiple of 4 |
| Base64.DecodeGroups | eagler/bootstrap.js:31-39 | whole groups yield three bytes for every four characters |
| Base64.DecodeTail | eagler/bootstrap.js:40-50 | a tail of two or three characters yields one or two bytes, and a shorter one none |
| Base64.DecodeTailValue | eagler/bootstrap.js:40-50 | the tail bytes are the high bits of the tail's sextets |
| Base64.QuadBytesValue | eagler/bootstrap.js:32-38 | the three bytes of a group are the big-endian digits of its 24-bit value |
| Base64.DecodePayloadLength | eagler/bootstrap.js:24-26 | the output length is three per group plus the tail's bytes |
| Base64.DecodeLayout | eagler/bootstrap.js:24-29 | the source's padding count, output length and loop bound agree with the payload's group/tail split; payload length plus padding is a multiple of 4, so the division for the output length is exact |
| Base64RoundTrip.DecodeIgnoresAfterPadding | eagler/bootstrap.js:22-29 | two strings of the same length that agree up to and including the first `=` after the offset decode alike: nothing after that `=` is read |
| Base64.TableDecode | eagler/bootstrap.js:19-53 | the decoder built from the table returns exactly `Decode` of the string after the offset, including the length error |
| Base64.WriteGroups | eagler/bootstrap.js:29-39 | the group loop stops after the last whole group and writes that group's bytes |
| Base64.WriteGroup | eagler/bootstrap.js:32-38 | one loop iteration appends exactly the group's three bytes |
| Base64.WriteTail | eagler/bootstrap.js:40-50 | the padding branches write exactly the tail's bytes after the groups |
| Base64RoundTrip.EncodeChar | eagler/bootstrap.js:15 | reference helper, not in the source: the RFC 4648 section 4 character of a value, which the decoder maps back to that value; serves `DecodeEncode` |
| Base64RoundTrip.QuadRoundTrip | eagler/bootstrap.js:32-38 | a group of three encoded bytes decodes to those bytes |
| Base64RoundTrip.GroupsRoundTrip | eagler/bootstrap.js:31-39 | whole encoded groups decode to the original bytes |
| Base64RoundTrip.TailRoundTrip | eagler/bootstrap.js:40-50 | an encoded one- or two-byte tail decodes to the original bytes |
| Base64RoundTrip.EncodeLength | eagler/bootstrap.js:20-21 | a padded encoding has length 4*ceil(n/3), so it passes the length check |
| Base64RoundTrip.EncodePaddingCount | eagler/bootstrap.js:22-24 | the number of `=` the decoder finds equals the padding the encoder wrote |
| Base64RoundTrip.PayloadRoundTrip | eagler/bootstrap.js:29-50 | an unpadded encoding decodes to the original bytes |
| Base64RoundTrip.DecodeEncode | eagler/bootstrap.js:19-53 | decoding the RFC 4648 encoding of any byte string gives back that byte string |
| Base64RoundTrip.DecodeSuffix | eagler/bootstrap.js:19-22 | decoding from an offset equals decoding the suffix from 0 |
| Base64RoundTrip.DecodeAfterPrefix | eagler/bootstrap.js:88 | decoding after any prefix, as the data-URL fallback does, equals decoding the rest alone |
| Base64RoundTrip.DecodeSameToDecoder | eagler/bootstrap.js:32-47 | two strings with the same `=` positions and the same table values decode alike |
| Base64RoundTrip.ToUrlSafe | eagler/bootstrap.js:17-18 | reference helper, not in the source: the RFC 4648 section 5 rewriting of `+` to `-` and `/` to `_`; serves `DecodeUrlSafe` |
| Base64RoundTrip.DecodeUrlSafe | eagler/bootstrap.js:17-18 | the URL-safe alphabet of RFC 4648 section 5 decodes the same as the standard one |
| Base64RoundTrip.ReplaceForeign | eagler/bootstrap.js:32-35 | reference helper, not in the source: every character outside the alphabet and `=` becomes `A`; serves `DecodeForeignAsA` |
| Base64RoundTrip.DecodeForeignAsA | eagler/bootstrap.js:32-35 | an unknown character decodes as the value 0, the same as `A` |
| Base64RoundTrip.ForeignExample | eagler/bootstrap.js:32-42 | "QQ =" is accepted, and its space is read as 0 |
| Bootstrap.Member | eagler/bootstrap.js:141 | reading a property of an object-typed value throws exactly for null |
| Bootstrap.Prop | eagler/bootstrap.js:132-139 | definition of a property read on the options, undefined for a missing key; characterised by `ResolveAssetsURIShape` and `BootAccepts` |
| Bootstrap.IsObjectType | eagler/bootstrap.js:141 | definition of `typeof v === 'object'`, true for null, arrays and objects; characterised by `Member` and `ResolveAssetsURIShape` |
| Bootstrap.ResolveAssetsURI | eagler/bootstrap.js:139-148 | a string is used as is; a value that is neither a string nor an object is rejected |
| Bootstrap.ResolveAssetsURIShape | eagler/bootstrap.js:139-148 | assetsURI resolves exactly for a string or for a value whose entry 0 has a string `url`, to that string; it throws exactly when the value or its entry 0 is null |
| Bootstrap.StartsWith | eagler/bootstrap.js:82 | definition of `String.prototype.startsWith`: the string is at least as long as the prefix and begins with it |
| Bootstrap.FetchResult | eagler/bootstrap.js:80-96 | definition of fetchEPWSmart's outcome; characterised by `DataUrlFallback` and `DataUrlFallbackDecodes`, computed by `FetchEpwSmart` |
| Bootstrap.FetchEpwSmart | eagler/bootstrap.js:80-96 | the result is what `fetch` returned, except that a base64 data URL that `fetch` could not read is decoded after its prefix, giving nothing when the decoder throws |
| Bootstrap.DataUrlFallback | eagler/bootstrap.js:82-88 | the fallback recovers any byte string from its base64 data URL |
| Bootstrap.DataUrlFallbackDecodes | eagler/bootstrap.js:86-92 | the fallback's result is the base64 decoding of the text after the prefix, or nothing on a decoder error |
| Bootstrap.SlotBytes | eagler/bootstrap.js:229-230 | definition of the view `new Uint8Array(buf, off, len)`: the declared length, the bytes from the declared offset on; characterised by `CheckEpwAccepts` and `SlotSliceFits` |
| Bootstrap.SlotFits | eagler/bootstrap.js:217-218 | definition of the slot bound test `offset + length <= byteLength`, in exact arithmetic |
| Bootstrap.CheckEpw | eagler/bootstrap.js:181-281 | definition of the file checks in the source's order; characterised by `CheckEpwAccepts` and the rejection lemmas below, computed by `ValidateEpw` |
| Bootstrap.WellFormedEpw | eagler/bootstrap.js:181-273 | definition of an acceptable file in terms of its bytes; `CheckEpwAccepts` proves it equivalent to `CheckEpw` succeeding |
| Bootstrap.MagicIsEagWasm | eagler/bootstrap.js:195-197 | the two magic words match exactly when the first eight bytes are "EAG$WASM" |
| Bootstrap.DeclaredLengthBytes | eagler/bootstrap.js:201-202 | the length check holds exactly when the file is under 4 GiB and bytes 8..11 hold its length, little-endian |
| Bootstrap.CheckEpwAccepts | eagler/bootstrap.js:181-281 | the file is accepted exactly when it is well formed (at least 384 bytes, magic, own length, four slots inside the file), and then the four components are the slot bytes |
| Bootstrap.ShortFileRejected | eagler/bootstrap.js:181-192 | a missing file or one under 384 bytes is a download failure |
| Bootstrap.HeaderFaultsTogether | eagler/bootstrap.js:194-211 | a bad magic and a bad length are both reported by one failure |
| Bootstrap.TruncatedRejected | eagler/bootstrap.js:181-205 | any truncation of a valid file is rejected as too short or as the wrong length |
| Bootstrap.ExtendedRejected | eagler/bootstrap.js:201-205 | a valid file with bytes appended is rejected for its length only |
| Bootstrap.CorruptMagicRejected | eagler/bootstrap.js:195-200 | changing any magic byte of a valid file is rejected for the magic only |
| Bootstrap.SplashCheckedFirst | eagler/bootstrap.js:213-227 | a bad splash or mime slot is reported as the splash component, whatever the loader slots hold |
| Bootstrap.LoaderSlotRejected | eagler/bootstrap.js:259-273 | with the header and the splash and mime slots good, a bad loader.js or loader.wasm slot is reported as the loader component |
| Bootstrap.ValidateEpw | eagler/bootstrap.js:181-281 | the imperative checks return exactly `CheckEpw` |
| Bootstrap.FilterOptions | eagler/bootstrap.js:283-287 | definition of the options copy; characterised by `FilterIgnoresExcluded` and `FilterIdempotent`, computed by `CopyOptions` |
| Bootstrap.Copied | eagler/bootstrap.js:285 | definition of the key test: every key except `container` and `assetsURI`; characterised by `FilterOptions` and `FilterIgnoresExcluded` |
| Bootstrap.CopyOptions | eagler/bootstrap.js:283-287 | the loop builds exactly `FilterOptions` |
| Bootstrap.FilterIgnoresExcluded | eagler/bootstrap.js:285 | setting or deleting `container` or `assetsURI` does not change the copy |
| Bootstrap.FilterIdempotent | eagler/bootstrap.js:283-287 | filtering twice is filtering once |
| Bootstrap.OptionsAfterMain | eagler/bootstrap.js:150-152 | definition of the options after main's `delete` of a `data:` assetsURI; `BootAccepts` proves the loader's copy is unaffected by it |
| Bootstrap.Boot | eagler/bootstrap.js:125-295 | definition of main's outcome; characterised by `BootAccepts`, computed by `RunMain` |
| Bootstrap.BootAccepts | eagler/bootstrap.js:125-295 | main reaches the loader exactly when the container is a string, assetsURI resolves, the element exists and the file is well formed; the context then holds the container string, the fetched file itself, the filtered options (unaffected by the `assetsURI` deletion) and the four slot components of that file |
| Bootstrap.RunMain | eagler/bootstrap.js:125-295 | the imperative main returns `Boot`'s outcome and leaves the options with `assetsURI` deleted exactly for a data URL |
| Crc.Crc32 | eagler/tools/epwPack.js:8-17 | the CRC of no bytes is 0 |
| Crc.PolyMask | eagler/tools/epwPack.js:13 | `0xEDB88320 & -(crc & 1)`: the polynomial or 0 |
| Crc.Xor | eagler/tools/epwPack.js:11-13 | definition of `^` on unsigned values; characterised by `XorDigits`, `XorComm`, `XorAssoc`, `XorBelow`, `XorDisjoint` and `XorOnes` |
| Crc.Shift8 | eagler/tools/epwPack.js:12-14 | definition of the inner loop, eight steps; characterised by `ByteLinear` and `ByteUpdate` |
| Crc.Step | eagler/tools/epwPack.js:13 | definition of one shift-register step; characterised by `StepIsRfcStep` and `StepBelow` |
| Crc.Steps | eagler/tools/epwPack.js:12-14 | definition of k steps; characterised by `StepsAreRfcSteps`, `StepsBelow` and `StepsMix` |
| Crc.Register | eagler/tools/epwPack.js:10-15 | definition of the register over the input; characterised by `RegisterIsRfcUpdate` and `RegisterBelow` |
| Crc.ComputeCrc32 | eagler/tools/epwPack.js:8-17 | the nested loop computes `Crc32` |
| Crc.XorDisjoint | eagler/tools/epwPack.js:11 | XOR of values with disjoint bits is their sum |
| Crc.XorOnes | eagler/tools/epwPack.js:16 | XOR with all ones is the complement `~` |
| Crc.StepsBelow | eagler/tools/epwPack.js:12-14 | the shift register stays a 32-bit value |
| Crc.RegisterBelow | eagler/tools/epwPack.js:10-15 | the register stays a 32-bit value over the whole input |
| Crc.StepIsRfcStep | eagler/tools/epwPack.js:13 | the masked-polynomial step equals the conditional step of RFC 1952 |
| Crc.ByteLinear | eagler/tools/epwPack.js:12-14 | eight steps act on the low byte alone and shift the rest |
| Crc.ByteUpdate | eagler/tools/epwPack.js:11-14 | one input byte updates the register as a table lookup does |
| Crc.RegisterIsRfcUpdate | eagler/tools/epwPack.js:10-15 | the bitwise loop equals the table-driven update of RFC 1952 section 8 |
| Crc.Crc32IsRfc1952 | eagler/tools/epwPack.js:8-17 | the packer's CRC equals the CRC-32 of RFC 1952 section 8 |
| DirPack.Datas | eagler/tools/epwPack.js:67 | definition of `files.map(f => f.data)`; characterised by `DataRegion` and `PayloadAt` |
| DirPack.OffsetEntry | eagler/tools/epwPack.js:51-55 | definition of `currentOffset` before file i; characterised by `OffsetsAccumulate` and `OffsetEntryAt` |
| DirPack.Packable | eagler/tools/epwPack.js:47-73 | definition of the inputs on which every `writeUInt32LE` stays in range (count, offsets, path lengths below 2^32) |
| DirPack.Header | eagler/tools/epwPack.js:44-47 | definition of magic, version and count; 12 bytes, characterised by `HeaderLayout` |
| DirPack.OffsetTable | eagler/tools/epwPack.js:50-56 | definition of the offset table; characterised by `TableRegion` and `OffsetEntryAt`, computed by `FillOffsetTable` |
| DirPack.PathBlob | eagler/tools/epwPack.js:59-64 | definition of `pathsBuf`; characterised by `PathsRegion` and `PathRecordAt` |
| DirPack.DataBlob | eagler/tools/epwPack.js:67 | definition of `dataBuf`; characterised by `DataRegion` and `PayloadAt` |
| DirPack.CrcTable | eagler/tools/epwPack.js:70-75 | definition of `crcBuf`; characterised by `CrcRegion` and `CrcEntryAt` |
| DirPack.EpwImage | eagler/tools/epwPack.js:78 | definition of the image; characterised by `HeaderLayout`, `ImageLength`, the region lemmas, `OffsetEntryAt`, `PathRecordAt`, `PayloadAt` and `CrcEntryAt`, computed by `BuildEpwFromDir` |
| DirPack.OffsetFields | eagler/tools/epwPack.js:50-56 | definition of the offset table's fields, one `U32LE(OffsetEntry(files, i))` per file; characterised by `OffsetEntryAt`, computed by `FillOffsetTable` |
| DirPack.PathRecords | eagler/tools/epwPack.js:59-64 | definition of the path records (length, then path); characterised by `PathRecordAt` |
| DirPack.CrcFields | eagler/tools/epwPack.js:70-75 | definition of the CRC fields; characterised by `CrcEntryAt`, computed by `MapCrc32` |
| DirPack.FillOffsetTable | eagler/tools/epwPack.js:50-56 | the loop fills a fresh buffer with exactly the offset table |
| DirPack.MapCrc32 | eagler/tools/epwPack.js:70-75 | the CRC fields come out in file order |
| DirPack.BuildEpwFromDir | eagler/tools/epwPack.js:40-78 | the image is the header, offset table, path records, data and CRC table, in that order |
| DirPack.HeaderLayout | eagler/tools/epwPack.js:44-47 | the image starts with "EPW\0", version 1.0.0.0 and the file count |
| DirPack.ImageLength | eagler/tools/epwPack.js:78 | each region has its size, and the image ends after the CRC table |
| DirPack.OffsetEntryAt | eagler/tools/epwPack.js:53-55 | offset-table entry i in the image reads as file i's computed offset |
| DirPack.OffsetsAccumulate | eagler/tools/epwPack.js:51-55 | each offset is the previous one plus that file's length, so the offsets never decrease |
| DirPack.PathRecordAt | eagler/tools/epwPack.js:59-64 | record i reads as the path's length followed by the path, before the data region |
| DirPack.PayloadAt | eagler/tools/epwPack.js:51-67 | file i's data lies at its recorded offset plus the whole path region, which is at least 4n bytes |
| DirPack.CrcEntryAt | eagler/tools/epwPack.js:70-75 | CRC entry i reads as the CRC-32 of file i's data, which is the RFC 1952 CRC |
| EpwkPack.Rows | eagler/epwPack.js:43-47 | definition of `fileHeaders` after the forEach; characterised by `RowAt` and `RowsRoundTrip`, computed by `CollectEntries` |
| EpwkPack.RowOffset | eagler/epwPack.js:31-48 | definition of `offset` when entry i is pushed; characterised by `OffsetsAccumulate`, `RowAt` and `FirstOffsetMisses` |
| EpwkPack.RowBytes | eagler/epwPack.js:59-61 | one row's 12 bytes; characterised by `RowFieldsAt` |
| EpwkPack.Packable | eagler/epwPack.js:53-61 | definition of the inputs on which every `writeUInt32LE` stays in range (count and each row's three fields below 2^32) |
| EpwkPack.HeaderBytes | eagler/epwPack.js:51-55 | definition of `headerBuffer`; 16 bytes, characterised by `HeaderLayout`, computed by `FillHeader` |
| EpwkPack.RowTable | eagler/epwPack.js:57-62 | definition of `fileHeaderBuffer`; characterised by `RowsRegion`, `RowAt` and `RowsRoundTrip`, computed by `FillRowTable` |
| EpwkPack.EpwkImage | eagler/epwPack.js:65 | definition of the output; characterised by `HeaderLayout`, `ImageLength`, `RowAt`, `PayloadAt` and `UnpackRoundTrip`, computed by `WriteEpw` |
| EpwkPack.Paths | eagler/epwPack.js:41-42 | definition of `pathData` after the forEach; characterised by `PathsRegion` and `UnpackRoundTrip`, computed by `CollectEntries` |
| EpwkPack.RowFields | eagler/epwPack.js:57-62 | definition of the row table's 12-byte rows; characterised by `RowAt`, computed by `FillRowTable` |
| EpwkPack.CollectEntries | eagler/epwPack.js:38-49 | the loop collects exactly the rows, the paths and the data |
| EpwkPack.FillHeader | eagler/epwPack.js:51-55 | the 16-byte header is "EPWK", version 1, the count and four zero bytes |
| EpwkPack.FillRowTable | eagler/epwPack.js:57-62 | the loop fills a fresh buffer with exactly the row table |
| EpwkPack.WriteRow | eagler/epwPack.js:59-61 | one row's three writes replace exactly its 12 zero bytes |
| EpwkPack.WriteEpw | eagler/epwPack.js:29-65 | the output is the header, rows, paths and data, in that order |
| EpwkPack.HeaderLayout | eagler/epwPack.js:51-55 | the image starts with "EPWK", version 1, the count and a zero reserved word |
| EpwkPack.ImagePrefixes | eagler/epwPack.js:65 | the header, the rows and the paths are prefixes of the image, in that order |
| EpwkPack.ImageLength | eagler/epwPack.js:65 | the image is 16 + 12n bytes plus all path and data lengths |
| EpwkPack.RowAt | eagler/epwPack.js:57-62 | row i in the image reads as file i's offset, size and path length |
| EpwkPack.OffsetsAccumulate | eagler/epwPack.js:44-48 | each offset is the previous one plus that file's size, so the offsets never decrease |
| EpwkPack.PayloadAt | eagler/epwPack.js:30-48 | file i's data lies at its recorded offset plus the rows and the paths |
| EpwkPack.FirstOffsetMisses | eagler/epwPack.js:30-31 | in the image, the first row's offset field reads 16, byte 16 is where that row itself lies, and the first payload lies later, at the end of the paths |
| EpwkPack.SliceRunConcat | eagler/epwPack.js:64-65 | consecutive parts are read back by their lengths |
| EpwkPack.RowsRoundTrip | eagler/epwPack.js:57-62 | reading the rows back gives the collected rows |
| EpwkPack.UnpackRoundTrip | eagler/epwPack.js:29-65 | the image determines the file list: reading it back gives every path and its data |
| EpwExtract.NodeSlice | eagler/EPWexstract.js:29 | `Buffer.slice` never exceeds the buffer or the requested span, and sits at the clamped start |
| EpwExtract.Clamp | eagler/EPWexstract.js:29 | a slice bound clamped to the buffer: at most the length and the bound, and one of the two |
| EpwExtract.SlotSlice | eagler/EPWexstract.js:29-41 | definition of one component's slice; characterised by `SlotSliceFits` and `SlotSliceLocal` |
| EpwExtract.NodeSliceSaturates | eagler/EPWexstract.js:29 | a slice that reaches past the end stops at the end |
| EpwExtract.Extract | eagler/EPWexstract.js:13-41 | the extractor produces output exactly when every field (up to byte 188) can be read |
| EpwExtract.SlotSliceFits | eagler/EPWexstract.js:29-41 | a slot inside the file gives the same bytes as the loader's view |
| EpwExtract.ExtractAgreesWithLoader | eagler/EPWexstract.js:18-41 | on every file the loader accepts, the extractor writes the loader's components |
| EpwExtract.ExtractsWhatLoaderRejects | eagler/EPWexstract.js:18-41 | a zero-filled file that the loader rejects is still extracted, into empty components |
| EpwExtract.SlotSliceLocal | eagler/EPWexstract.js:29-41 | a component depends only on its own slot fields and the bytes it covers |
| EpwExtract.MimeFieldsUnused | eagler/EPWexstract.js:20-31 | the mime slot affects none of the three written files |

## Left out

- DOM and UI: the splash element, the error page, `alert`, console logging, timers and image preloading (`preloadImage`, the splash override) are not modelled. They decide nothing about the file or the options handed on.
- The network: `fetch` is a parameter, and so is the outcome of `document.getElementById`.
- Blob URLs and script injection (bootstrap.js 232, 276-281 and 296 on) are not modelled; the loader context holds the component bytes instead of their URLs.
- Base64.Decode / Base64.TableDecode / Bootstrap.FetchEpwSmart: strings are sequences of Unicode scalar values, while JavaScript's `length`, `indexOf` and `charCodeAt` count UTF-16 code units. Lengths, positions and decoded values agree with the source only for strings with no character above U+FFFF; a character above U+FFFF counts once here and twice in the source, and lone surrogates cannot be represented. The same holds for the `startsWith` tests on `assetsURI`.
- `TextDecoder` / UTF-8: paths and the mime type stay opaque byte strings. `Buffer.from(path, 'utf8')` is taken as given.
- The load-time options set-up (bootstrap.js 117-122) and the `typeof window.eaglercraftXOpts === 'undefined'` test (126-130) are not modelled; the set-up makes the test unreachable.
- Numbers are integers (`JsNumber(n: int)`): non-integer JavaScript numbers and NaN cannot be represented. Nothing depends on it, because option values other than `container` and `assetsURI` are only copied, and those two are tested only for being strings or objects.
- Object key order is not modelled: a map stands for the options object, so the copy's insertion order is lost.
- Directory walking (`readDirRecursive`, `getAllFiles`) and file writes: the packers take the file list, and the extractor takes the file's bytes.
- The lazy decoder cache (`_base64Decoder ||=`, line 87): a fresh table is built per call, which gives the same table.
- DirPack.BuildEpwFromDir: requires that every value written fits in 32 bits (`Packable`), where Node's `writeUInt32LE` would throw a RangeError instead.
- EpwkPack.WriteEpw: same `Packable` requirement, for the same reason.
- The extractor's `readUInt32LE` RangeError is modelled as `None`.
- `Buffer.slice` with negative bounds is not modelled, since unsigned reads never produce them.
- The slots' `offset < 0` tests are not modelled, because `getUint32` never yields a negative number.
- Crc.Crc32: the standard check value `0xCBF43926` for "123456789" is not proved.
- Base64.TableDecode: requires `offset <= |s|`. The only caller passes the prefix length of a string that starts with the prefix.
- The `crypto` import and the usage lines at the bottom of the packers are not modelled. Other files of the repository are not part of this model.
