/**
 * The directory packer's archive layout (eagler/tools/epwPack.js,
 * buildEPWFromDir). The entry list arrives as input in directory-walk
 * order; each entry holds the UTF-8 bytes of its relative path and the
 * file's contents. The archive is
 *
 *   "EPW\0" | 01 00 00 00 | count | offset table | path blob | data blob | CRC table
 *
 * with every number a little-endian u32. The offsets accumulate payload
 * sizes from 12 + 4 * count and leave the path blob out, so they point
 * |path blob| bytes before the payloads; the model keeps that layout.
 */
module DirPack {
  import opened ByteCursor
  import opened Crc

  datatype FileEntry = FileEntry(filePath: seq<uint8>, data: seq<uint8>)

  /** 'EPW\x00'. */
  const Magic: seq<uint8> := [0x45, 0x50, 0x57, 0x00]

  /** Version 1.0.0.0. */
  const Version: seq<uint8> := [1, 0, 0, 0]

  /** The payloads in file order. */
  function Datas(files: seq<FileEntry>): (r: seq<seq<uint8>>)
    ensures |r| == |files|
    ensures forall i :: 0 <= i < |files| ==> r[i] == files[i].data
  {
    seq(|files|, i requires 0 <= i < |files| => files[i].data)
  }

  /** The value currentOffset has when entry i is written: header, table,
    * and the payloads of the entries before i. */
  function OffsetEntry(files: seq<FileEntry>, i: nat): nat
    requires i <= |files|
  {
    12 + 4 * |files| + TotalLength(Datas(files)[..i])
  }

  /** What writeUInt32LE accepts for every field the packer writes: the
    * file count, each offset and each path length fit in 32 bits. */
  predicate Packable(files: seq<FileEntry>)
  {
    && |files| < 0x1_0000_0000
    && (forall i :: 0 <= i < |files| ==> OffsetEntry(files, i) < 0x1_0000_0000)
    && (forall i :: 0 <= i < |files| ==> |files[i].filePath| < 0x1_0000_0000)
  }

  /** The 12-byte header. */
  function Header(files: seq<FileEntry>): (r: seq<uint8>)
    requires Packable(files)
    ensures |r| == 12
  {
    Magic + Version + U32LE(|files|)
  }

  /** The offset table's fields, one per file. */
  function OffsetFields(files: seq<FileEntry>): (r: seq<seq<uint8>>)
    requires Packable(files)
    ensures |r| == |files|
    ensures forall i :: 0 <= i < |files| ==> r[i] == U32LE(OffsetEntry(files, i))
  {
    seq(|files|, i requires 0 <= i < |files| => U32LE(OffsetEntry(files, i)))
  }

  function OffsetTable(files: seq<FileEntry>): seq<uint8>
    requires Packable(files)
  {
    Concat(OffsetFields(files))
  }

  /** Each path as its byte length followed by its bytes. */
  function PathRecords(files: seq<FileEntry>): (r: seq<seq<uint8>>)
    requires Packable(files)
    ensures |r| == |files|
    ensures forall i :: 0 <= i < |files| ==> r[i] == U32LE(|files[i].filePath|) + files[i].filePath
  {
    seq(|files|, i requires 0 <= i < |files| => U32LE(|files[i].filePath|) + files[i].filePath)
  }

  function PathBlob(files: seq<FileEntry>): seq<uint8>
    requires Packable(files)
  {
    Concat(PathRecords(files))
  }

  function DataBlob(files: seq<FileEntry>): seq<uint8>
  {
    Concat(Datas(files))
  }

  /** Each payload's CRC-32 as a 4-byte field. */
  function CrcFields(files: seq<FileEntry>): (r: seq<seq<uint8>>)
    ensures |r| == |files|
    ensures forall i :: 0 <= i < |files| ==> r[i] == U32LE(Crc32(files[i].data))
  {
    seq(|files|, i requires 0 <= i < |files| => U32LE(Crc32(files[i].data)))
  }

  function CrcTable(files: seq<FileEntry>): seq<uint8>
  {
    Concat(CrcFields(files))
  }

  /** The bytes written to the output file. */
  function EpwImage(files: seq<FileEntry>): seq<uint8>
    requires Packable(files)
  {
    Header(files) + OffsetTable(files) + PathBlob(files) + DataBlob(files) + CrcTable(files)
  }

  /** Buffer.alloc(n): n zero bytes. */
  function Zeros(n: nat): (r: seq<uint8>)
    ensures |r| == n && forall i :: 0 <= i < n ==> r[i] == 0
  {
    seq(n, _ => 0)
  }

  // ---------------------------------------------------------------------
  // The imperative parts
  // ---------------------------------------------------------------------

  /** The forEach that writes currentOffset into the zero-filled table at
    * 4 * i and then advances it by the payload size. */
  method FillOffsetTable(files: seq<FileEntry>) returns (offsetTable: array<uint8>)
    requires Packable(files)
    ensures fresh(offsetTable)
    ensures offsetTable[..] == OffsetTable(files)
  {
    var n := |files|;
    offsetTable := new uint8[4 * n](_ => 0);
    var currentOffset := 12 + offsetTable.Length;
    var i := 0;
    while i < n
      invariant 0 <= i <= n
      invariant currentOffset == OffsetEntry(files, i)
      invariant offsetTable[..] == Concat(OffsetFields(files)[..i]) + Zeros(4 * (n - i))
    {
      FieldsPrefixLength(files, i);
      WriteU32LE(offsetTable, i * 4, currentOffset);
      ConcatSnoc(OffsetFields(files), i);
      assert Zeros(4 * (n - i))[4..] == Zeros(4 * (n - i - 1));
      ConcatSnoc(Datas(files), i);
      currentOffset := currentOffset + |files[i].data|;
      i := i + 1;
    }
    assert OffsetFields(files)[..n] == OffsetFields(files);
  }

  lemma FieldsPrefixLength(files: seq<FileEntry>, i: nat)
    requires Packable(files) && i <= |files|
    ensures |Concat(OffsetFields(files)[..i])| == 4 * i
  {
    ConcatLength(OffsetFields(files)[..i]);
    FieldsLength(OffsetFields(files)[..i]);
  }

  /** buildEPWFromDir without the file system: the CRC table is computed
    * with the packer's own crc32 loop. */
  method BuildEpwFromDir(files: seq<FileEntry>) returns (epwBuffer: seq<uint8>)
    requires Packable(files)
    ensures epwBuffer == EpwImage(files)
  {
    var fileCount := U32LE(|files|);
    var offsetTable := FillOffsetTable(files);
    var offsetBuf := offsetTable[..];
    var pathsBuf := Concat(PathRecords(files));
    var dataBuf := Concat(Datas(files));
    var crcParts := MapCrc32(files);
    var header := Magic + Version + fileCount;
    var crcBuf := Concat(crcParts);
    epwBuffer := header + offsetBuf + pathsBuf + dataBuf + crcBuf;
  }

  /** files.map computing each payload's CRC-32 field. */
  method MapCrc32(files: seq<FileEntry>) returns (crcParts: seq<seq<uint8>>)
    ensures crcParts == CrcFields(files)
  {
    crcParts := [];
    var i := 0;
    while i < |files|
      invariant 0 <= i <= |files|
      invariant crcParts == CrcFields(files)[..i]
    {
      var crcVal := ComputeCrc32(files[i].data);
      assert CrcFields(files)[..i + 1] == CrcFields(files)[..i] + [U32LE(crcVal)];
      crcParts := crcParts + [U32LE(crcVal)];
      i := i + 1;
    }
    assert CrcFields(files)[..i] == CrcFields(files);
  }

  // ---------------------------------------------------------------------
  // Layout properties
  // ---------------------------------------------------------------------

  /** Bytes 0-11: "EPW\0", version 1, and the file count. */
  lemma HeaderLayout(files: seq<FileEntry>)
    requires Packable(files)
    ensures SitsAt(EpwImage(files), 0, [0x45, 0x50, 0x57, 0x00])
    ensures SitsAt(EpwImage(files), 4, [1, 0, 0, 0])
    ensures 12 <= |EpwImage(files)| && ReadU32LE(EpwImage(files), 8) == |files|
  {
    var img, h, t := EpwImage(files), Header(files), OffsetTable(files);
    var count := U32LE(|files|);
    assert SitsAt(img, 0, h) by {
      ImagePrefixes(files);
      SitsAtPrefix(h, t);
      SitsAtTrans(img, 0, h + t, 0, h);
    }
    assert SitsAt(h, 0, Magic) by {
      MiddleSlice([], Magic, Version + count);
      assert [] + Magic + (Version + count) == h;
    }
    assert SitsAt(h, 4, Version) by {
      MiddleSlice(Magic, Version, count);
    }
    assert SitsAt(h, 8, count) by {
      SitsAtSuffix(Magic + Version, count);
    }
    SitsAtTrans(img, 0, h, 0, Magic);
    SitsAtTrans(img, 0, h, 4, Version);
    SitsAtTrans(img, 0, h, 8, count);
    ReadU32LEAt(img, 8, count);
  }

  /** Where each region begins. */
  function TableStart(): nat { 12 }

  function PathsStart(files: seq<FileEntry>): nat
  {
    12 + 4 * |files|
  }

  function DataStart(files: seq<FileEntry>): nat
    requires Packable(files)
  {
    PathsStart(files) + TotalLength(PathRecords(files))
  }

  function CrcStart(files: seq<FileEntry>): nat
    requires Packable(files)
  {
    DataStart(files) + TotalLength(Datas(files))
  }

  /** The region lengths add up to
    * 12 + 4n + sum(4 + |path_i|) + sum(|data_i|) + 4n. */
  lemma ImageLength(files: seq<FileEntry>)
    requires Packable(files)
    ensures |OffsetTable(files)| == 4 * |files|
    ensures |PathBlob(files)| == TotalLength(PathRecords(files))
    ensures |DataBlob(files)| == TotalLength(Datas(files))
    ensures |CrcTable(files)| == 4 * |files|
    ensures |EpwImage(files)| == CrcStart(files) + 4 * |files|
  {
    ConcatLength(OffsetFields(files));
    FieldsLength(OffsetFields(files));
    ConcatLength(PathRecords(files));
    ConcatLength(Datas(files));
    ConcatLength(CrcFields(files));
    FieldsLength(CrcFields(files));
  }

  /** The image is built left to right: each partial concatenation is a
    * prefix of it. */
  lemma ImagePrefixes(files: seq<FileEntry>)
    requires Packable(files)
    ensures var h, t, p, d := Header(files), OffsetTable(files), PathBlob(files), DataBlob(files);
      && SitsAt(EpwImage(files), 0, h + t)
      && SitsAt(EpwImage(files), 0, h + t + p)
      && SitsAt(EpwImage(files), 0, h + t + p + d)
  {
    var h, t, p, d, c := Header(files), OffsetTable(files), PathBlob(files), DataBlob(files), CrcTable(files);
    var img := EpwImage(files);
    SitsAtPrefix(h + t + p + d, c);
    SitsAtPrefix(h + t + p, d);
    SitsAtTrans(img, 0, h + t + p + d, 0, h + t + p);
    SitsAtPrefix(h + t, p);
    SitsAtTrans(img, 0, h + t + p, 0, h + t);
  }

  /** The offset table follows the 12-byte header. */
  lemma TableRegion(files: seq<FileEntry>)
    requires Packable(files)
    ensures SitsAt(EpwImage(files), TableStart(), OffsetTable(files))
  {
    var h, t := Header(files), OffsetTable(files);
    ImagePrefixes(files);
    SitsAtSuffix(h, t);
    SitsAtTrans(EpwImage(files), 0, h + t, |h|, t);
  }

  /** The path blob follows the offset table. */
  lemma PathsRegion(files: seq<FileEntry>)
    requires Packable(files)
    ensures SitsAt(EpwImage(files), PathsStart(files), PathBlob(files))
  {
    var h, t, p := Header(files), OffsetTable(files), PathBlob(files);
    ImageLength(files);
    ImagePrefixes(files);
    SitsAtSuffix(h + t, p);
    SitsAtTrans(EpwImage(files), 0, h + t + p, |h + t|, p);
  }

  /** The data blob follows the path blob. */
  lemma DataRegion(files: seq<FileEntry>)
    requires Packable(files)
    ensures SitsAt(EpwImage(files), DataStart(files), DataBlob(files))
  {
    var h, t, p, d := Header(files), OffsetTable(files), PathBlob(files), DataBlob(files);
    ImageLength(files);
    ImagePrefixes(files);
    SitsAtSuffix(h + t + p, d);
    SitsAtTrans(EpwImage(files), 0, h + t + p + d, |h + t + p|, d);
  }

  /** The CRC table closes the image. */
  lemma CrcRegion(files: seq<FileEntry>)
    requires Packable(files)
    ensures SitsAt(EpwImage(files), CrcStart(files), CrcTable(files))
  {
    var h, t, p, d, c := Header(files), OffsetTable(files), PathBlob(files), DataBlob(files), CrcTable(files);
    ImageLength(files);
    SitsAtSuffix(h + t + p + d, c);
  }

  /** A 4-byte part of a region reads as that field. */
  lemma FieldInRegion(img: seq<uint8>, start: nat, parts: seq<seq<uint8>>, i: nat, at: nat)
    requires SitsAt(img, start, Concat(parts)) && i < |parts| && |parts[i]| == 4
    requires at == start + TotalLength(parts[..i])
    ensures at + 4 <= |img| && ReadU32LE(img, at) == ReadU32LE(parts[i], 0)
  {
    PartInRegion(img, start, parts, i, at);
    ReadU32LEAt(img, at, parts[i]);
  }

  /** Offset-table entry i, at byte 12 + 4i, holds OffsetEntry(files, i):
    * 12 + 4n plus the sizes of the payloads before payload i. */
  lemma OffsetEntryAt(files: seq<FileEntry>, i: nat, at: nat)
    requires Packable(files) && i < |files| && at == TableStart() + 4 * i
    ensures at + 4 <= |EpwImage(files)|
    ensures ReadU32LE(EpwImage(files), at) == OffsetEntry(files, i)
  {
    var parts := OffsetFields(files);
    assert SitsAt(EpwImage(files), TableStart(), Concat(parts)) by { TableRegion(files); }
    assert at == TableStart() + TotalLength(parts[..i]) by { FieldsLength(parts[..i]); }
    FieldInRegion(EpwImage(files), TableStart(), parts, i, at);
  }

  /** Consecutive entries differ by the payload size, so entries never decrease. */
  lemma OffsetsAccumulate(files: seq<FileEntry>, i: nat, j: nat)
    requires i <= j <= |files|
    ensures j == i + 1 ==> OffsetEntry(files, j) == OffsetEntry(files, i) + |files[i].data|
    ensures OffsetEntry(files, i) <= OffsetEntry(files, j)
  {
    var ds := Datas(files);
    assert ds[..j] == ds[..i] + ds[i..j];
    TotalLengthAppend(ds[..i], ds[i..j]);
    if j == i + 1 {
      ConcatSnoc(ds, i);
    }
  }

  /** A length-prefixed record reads back as its length and its bytes. */
  lemma RecordAt(img: seq<uint8>, at: nat, path: seq<uint8>)
    requires |path| < 0x1_0000_0000 && SitsAt(img, at, U32LE(|path|) + path)
    ensures at + 4 <= |img| && ReadU32LE(img, at) == |path|
    ensures SitsAt(img, at + 4, path)
  {
    var rec := U32LE(|path|) + path;
    assert SitsAt(rec, 0, U32LE(|path|)) by {
      MiddleSlice([], U32LE(|path|), path);
      assert [] + U32LE(|path|) + path == rec;
    }
    assert SitsAt(rec, 4, path) by {
      MiddleSlice(U32LE(|path|), path, []);
      assert U32LE(|path|) + path + [] == rec;
    }
    SitsAtTrans(img, at, rec, 0, U32LE(|path|));
    ReadU32LEAt(img, at, U32LE(|path|));
    SitsAtTrans(img, at, rec, 4, path);
  }

  /** Path record i: its length as u32 and then its bytes, before the data blob. */
  lemma PathRecordAt(files: seq<FileEntry>, i: nat, at: nat)
    requires Packable(files) && i < |files|
    requires at == PathsStart(files) + TotalLength(PathRecords(files)[..i])
    ensures DataStart(files) <= |EpwImage(files)|
    ensures at + 4 + |files[i].filePath| <= DataStart(files)
    ensures ReadU32LE(EpwImage(files), at) == |files[i].filePath|
    ensures SitsAt(EpwImage(files), at + 4, files[i].filePath)
  {
    var img, parts := EpwImage(files), PathRecords(files);
    assert DataStart(files) <= |img| by { ImageLength(files); }
    assert SitsAt(img, PathsStart(files), Concat(parts)) by { PathsRegion(files); }
    assert |Concat(parts)| == TotalLength(parts) by { ConcatLength(parts); }
    PartInRegion(img, PathsStart(files), parts, i, at);
    RecordAt(img, at, files[i].filePath);
  }

  /** As written, payload i sits |path blob| bytes after its offset-table
    * entry: the offsets do not point at the payloads as soon as there is
    * at least one file. */
  lemma PayloadAt(files: seq<FileEntry>, i: nat, at: nat)
    requires Packable(files) && i < |files|
    requires at == OffsetEntry(files, i) + |PathBlob(files)|
    ensures at + |files[i].data| <= CrcStart(files) <= |EpwImage(files)|
    ensures SitsAt(EpwImage(files), at, files[i].data)
    ensures |PathBlob(files)| >= 4 * |files|
  {
    var img, parts := EpwImage(files), Datas(files);
    assert CrcStart(files) <= |img| && |PathBlob(files)| == TotalLength(PathRecords(files)) by { ImageLength(files); }
    assert SitsAt(img, DataStart(files), Concat(parts)) by { DataRegion(files); }
    assert |Concat(parts)| == TotalLength(parts) by { ConcatLength(parts); }
    PartInRegion(img, DataStart(files), parts, i, at);
    PathRecordsLength(PathRecords(files));
  }

  lemma {:induction false} PathRecordsLength(parts: seq<seq<uint8>>)
    requires forall i :: 0 <= i < |parts| ==> |parts[i]| >= 4
    ensures TotalLength(parts) >= 4 * |parts|
    decreases |parts|
  {
    if parts != [] {
      PathRecordsLength(parts[1..]);
    }
  }

  /** The CRC-table field of entry i reads back as the stored field. */
  lemma CrcFieldAt(files: seq<FileEntry>, i: nat, at: nat)
    requires Packable(files) && i < |files| && at == CrcStart(files) + 4 * i
    ensures at + 4 <= |EpwImage(files)|
    ensures ReadU32LE(EpwImage(files), at) == ReadU32LE(CrcFields(files)[i], 0)
  {
    var parts := CrcFields(files);
    assert SitsAt(EpwImage(files), CrcStart(files), Concat(parts)) by { CrcRegion(files); }
    assert at == CrcStart(files) + TotalLength(parts[..i]) by { FieldsLength(parts[..i]); }
    FieldInRegion(EpwImage(files), CrcStart(files), parts, i, at);
  }

  /** CRC-table entry i is the CRC-32 of payload i, which is the standard
    * CRC-32 of RFC 1952. */
  lemma CrcEntryAt(files: seq<FileEntry>, i: nat, at: nat)
    requires Packable(files) && i < |files| && at == CrcStart(files) + 4 * i
    ensures at + 4 <= |EpwImage(files)|
    ensures ReadU32LE(EpwImage(files), at) == Crc32(files[i].data)
    ensures Crc32(files[i].data) == RfcCrc(files[i].data)
  {
    CrcFieldAt(files, i, at);
    var crc := Crc32(files[i].data);
    assert CrcFields(files)[i] == U32LE(crc);
    Crc32IsRfc1952(files[i].data);
  }
}
