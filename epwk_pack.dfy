/**
 * The EPWK writer (eagler/epwPack.js, writeEPW). The entry list arrives as
 * input in directory-walk order; each entry holds the UTF-8 bytes of its
 * relative path and the file's contents. The archive is
 *
 *   "EPWK" | 01 00 00 00 | count | 00 00 00 00 | rows | paths | data
 *
 * where row i is (offset, size, pathLength), three little-endian u32, the
 * paths follow each other with no length prefix and no separator, and the
 * payloads follow the paths. The offsets start at the header size 16 and
 * accumulate payload sizes only: they leave out both the rows and the
 * paths, so they do not point at the payloads. The model keeps that layout
 * and proves where the payloads really are. Unpack reads the archive back
 * the way its fields describe it: the paths from byte 16 + 12n by their
 * pathLength fields, then the payloads by their size fields.
 */
module EpwkPack {
  import opened Wrappers
  import opened ByteCursor
  import DirPack

  type FileEntry = DirPack.FileEntry

  /** 'EPWK'. */
  const Magic: seq<uint8> := [0x45, 0x50, 0x57, 0x4B]

  /** One element of fileHeaders. */
  datatype FileHeader = FileHeader(offset: nat, size: nat, pathLength: nat)

  /** The value `offset` has when entry i is pushed: the header size plus the
    * sizes of the payloads before i. */
  function RowOffset(files: seq<FileEntry>, i: nat): nat
    requires i <= |files|
  {
    16 + TotalLength(DirPack.Datas(files)[..i])
  }

  /** fileHeaders after the first forEach. */
  function Rows(files: seq<FileEntry>): (r: seq<FileHeader>)
    ensures |r| == |files|
    ensures forall i :: 0 <= i < |files| ==>
      r[i] == FileHeader(RowOffset(files, i), |files[i].data|, |files[i].filePath|)
  {
    seq(|files|, i requires 0 <= i < |files| => FileHeader(RowOffset(files, i), |files[i].data|, |files[i].filePath|))
  }

  /** pathData after the first forEach. */
  function Paths(files: seq<FileEntry>): (r: seq<seq<uint8>>)
    ensures |r| == |files|
    ensures forall i :: 0 <= i < |files| ==> r[i] == files[i].filePath
  {
    seq(|files|, i requires 0 <= i < |files| => files[i].filePath)
  }

  /** What writeUInt32LE accepts for the three fields of a row. */
  predicate Fits(h: FileHeader)
  {
    h.offset < 0x1_0000_0000 && h.size < 0x1_0000_0000 && h.pathLength < 0x1_0000_0000
  }

  /** Every number writeEPW writes fits in 32 bits. */
  predicate Packable(files: seq<FileEntry>)
  {
    |files| < 0x1_0000_0000 && forall i :: 0 <= i < |files| ==> Fits(Rows(files)[i])
  }

  /** The 12 bytes of one row. */
  function RowBytes(h: FileHeader): (r: seq<uint8>)
    requires Fits(h)
    ensures |r| == 12
  {
    U32LE(h.offset) + U32LE(h.size) + U32LE(h.pathLength)
  }

  function RowFields(rows: seq<FileHeader>): (r: seq<seq<uint8>>)
    requires forall i :: 0 <= i < |rows| ==> Fits(rows[i])
    ensures |r| == |rows|
    ensures forall i :: 0 <= i < |rows| ==> r[i] == RowBytes(rows[i])
  {
    seq(|rows|, i requires 0 <= i < |rows| => RowBytes(rows[i]))
  }

  /** fileHeaderBuffer once every row is written. */
  function RowTable(rows: seq<FileHeader>): seq<uint8>
    requires forall i :: 0 <= i < |rows| ==> Fits(rows[i])
  {
    Concat(RowFields(rows))
  }

  /** headerBuffer: magic, version 1, the count, four reserved zero bytes. */
  function HeaderBytes(count: uint32): (r: seq<uint8>)
    ensures |r| == 16
  {
    Magic + U32LE(1) + U32LE(count) + [0, 0, 0, 0]
  }

  /** The bytes written to the output file:
    * Buffer.concat([headerBuffer, fileHeaderBuffer, pathBuffer, ...fileData]). */
  function EpwkImage(files: seq<FileEntry>): seq<uint8>
    requires Packable(files)
  {
    HeaderBytes(|files|) + RowTable(Rows(files)) + Concat(Paths(files)) + Concat(DirPack.Datas(files))
  }

  // ---------------------------------------------------------------------
  // The imperative parts
  // ---------------------------------------------------------------------

  /** The first forEach: push each payload, each path and each row, and
    * advance offset by the payload size. */
  method CollectEntries(files: seq<FileEntry>)
    returns (fileHeaders: seq<FileHeader>, pathData: seq<seq<uint8>>, fileData: seq<seq<uint8>>)
    ensures fileHeaders == Rows(files)
    ensures pathData == Paths(files)
    ensures fileData == DirPack.Datas(files)
  {
    var offset := 16;
    fileHeaders, pathData, fileData := [], [], [];
    var i := 0;
    while i < |files|
      invariant 0 <= i <= |files|
      invariant offset == RowOffset(files, i)
      invariant fileHeaders == Rows(files)[..i]
      invariant pathData == Paths(files)[..i]
      invariant fileData == DirPack.Datas(files)[..i]
    {
      var file := files[i];
      fileData := fileData + [file.data];
      pathData := pathData + [file.filePath];
      fileHeaders := fileHeaders + [FileHeader(offset, |file.data|, |file.filePath|)];
      ConcatSnoc(DirPack.Datas(files), i);
      offset := offset + |file.data|;
      assert Rows(files)[..i + 1] == Rows(files)[..i] + [Rows(files)[i]];
      assert Paths(files)[..i + 1] == Paths(files)[..i] + [Paths(files)[i]];
      assert DirPack.Datas(files)[..i + 1] == DirPack.Datas(files)[..i] + [DirPack.Datas(files)[i]];
      i := i + 1;
    }
    assert Rows(files)[..i] == Rows(files);
    assert Paths(files)[..i] == Paths(files);
    assert DirPack.Datas(files)[..i] == DirPack.Datas(files);
  }

  /** Buffer.alloc(16), then "EPWK" at 0, 1 at 4 and the count at 8. */
  method FillHeader(count: uint32) returns (headerBuffer: array<uint8>)
    ensures fresh(headerBuffer)
    ensures headerBuffer[..] == HeaderBytes(count)
  {
    headerBuffer := new uint8[16](_ => 0);
    headerBuffer[0], headerBuffer[1], headerBuffer[2], headerBuffer[3] := 0x45, 0x50, 0x57, 0x4B;
    assert headerBuffer[..] == Magic + DirPack.Zeros(12);
    WriteU32LE(headerBuffer, 4, 1);
    FillStep(Magic, 1, 12);
    WriteU32LE(headerBuffer, 8, count);
    FillStep(Magic + U32LE(1), count, 8);
    assert DirPack.Zeros(4) == [0, 0, 0, 0];
  }

  /** Writing a field over the zeros right after a prefix extends the prefix. */
  lemma FillStep(c: seq<uint8>, v: uint32, m: nat)
    requires m >= 4
    ensures (c + DirPack.Zeros(m))[..|c|] + U32LE(v) + (c + DirPack.Zeros(m))[|c| + 4..]
      == c + U32LE(v) + DirPack.Zeros(m - 4)
  {
    assert (c + DirPack.Zeros(m))[..|c|] == c;
    assert (c + DirPack.Zeros(m))[|c| + 4..] == DirPack.Zeros(m - 4);
  }

  /** A list of 12-byte rows is 12 bytes per row long. */
  lemma {:induction false} RowsLength(parts: seq<seq<uint8>>)
    requires forall i :: 0 <= i < |parts| ==> |parts[i]| == 12
    ensures TotalLength(parts) == 12 * |parts|
    ensures |Concat(parts)| == 12 * |parts|
    decreases |parts|
  {
    ConcatLength(parts);
    if parts != [] {
      RowsLength(parts[1..]);
    }
  }

  /** The second forEach: Buffer.alloc(12n), then row i's three fields at
    * 12i, 12i + 4 and 12i + 8. */
  method FillRowTable(fileHeaders: seq<FileHeader>) returns (fileHeaderBuffer: array<uint8>)
    requires forall i :: 0 <= i < |fileHeaders| ==> Fits(fileHeaders[i])
    ensures fresh(fileHeaderBuffer)
    ensures fileHeaderBuffer[..] == RowTable(fileHeaders)
  {
    var n := |fileHeaders|;
    fileHeaderBuffer := new uint8[n * 12](_ => 0);
    assert fileHeaderBuffer[..] == [] + DirPack.Zeros(12 * n);
    var i := 0;
    while i < n
      invariant 0 <= i <= n
      invariant fileHeaderBuffer[..] == Concat(RowFields(fileHeaders)[..i]) + DirPack.Zeros(12 * (n - i))
    {
      RowsLength(RowFields(fileHeaders)[..i]);
      WriteRow(fileHeaderBuffer, i * 12, fileHeaders[i], Concat(RowFields(fileHeaders)[..i]), 12 * (n - i));
      ConcatSnoc(RowFields(fileHeaders), i);
      i := i + 1;
    }
    assert RowFields(fileHeaders)[..n] == RowFields(fileHeaders);
  }

  /** One step of the second forEach: the row's offset, size and path length
    * at at, at + 4 and at + 8, over the zeros that follow the rows already
    * written. */
  method WriteRow(buf: array<uint8>, at: nat, fh: FileHeader, ghost done: seq<uint8>, ghost m: nat)
    requires Fits(fh) && |done| == at && m >= 12
    requires buf[..] == done + DirPack.Zeros(m)
    modifies buf
    ensures buf[..] == done + RowBytes(fh) + DirPack.Zeros(m - 12)
  {
    WriteU32LE(buf, at, fh.offset);
    FillStep(done, fh.offset, m);
    WriteU32LE(buf, at + 4, fh.size);
    FillStep(done + U32LE(fh.offset), fh.size, m - 4);
    WriteU32LE(buf, at + 8, fh.pathLength);
    FillStep(done + U32LE(fh.offset) + U32LE(fh.size), fh.pathLength, m - 8);
    assert done + U32LE(fh.offset) + U32LE(fh.size) + U32LE(fh.pathLength) == done + RowBytes(fh);
  }

  /** writeEPW without the file system: the output buffer. */
  method WriteEpw(files: seq<FileEntry>) returns (finalBuffer: seq<uint8>)
    requires Packable(files)
    ensures finalBuffer == EpwkImage(files)
  {
    var fileHeaders, pathData, fileData := CollectEntries(files);
    var headerBuffer := FillHeader(|files|);
    var headerBytes := headerBuffer[..];
    var fileHeaderBuffer := FillRowTable(fileHeaders);
    var pathBuffer := Concat(pathData);
    finalBuffer := headerBytes + fileHeaderBuffer[..] + pathBuffer + Concat(fileData);
  }

  // ---------------------------------------------------------------------
  // Layout properties
  // ---------------------------------------------------------------------

  /** Where the paths and the payloads begin. */
  function PathsStart(files: seq<FileEntry>): nat
  {
    16 + 12 * |files|
  }

  function DataStart(files: seq<FileEntry>): nat
  {
    PathsStart(files) + TotalLength(Paths(files))
  }

  /** The image is built left to right: each partial concatenation is a
    * prefix of it. */
  lemma ImagePrefixes(files: seq<FileEntry>)
    requires Packable(files)
    ensures var h, t, p := HeaderBytes(|files|), RowTable(Rows(files)), Concat(Paths(files));
      && SitsAt(EpwkImage(files), 0, h)
      && SitsAt(EpwkImage(files), 0, h + t)
      && SitsAt(EpwkImage(files), 0, h + t + p)
  {
    var h, t, p, d := HeaderBytes(|files|), RowTable(Rows(files)), Concat(Paths(files)), Concat(DirPack.Datas(files));
    var img := EpwkImage(files);
    SitsAtPrefix(h + t + p, d);
    SitsAtPrefix(h + t, p);
    SitsAtTrans(img, 0, h + t + p, 0, h + t);
    SitsAtPrefix(h, t);
    SitsAtTrans(img, 0, h + t, 0, h);
  }

  /** The row table is 12n bytes. */
  lemma RowTableLength(files: seq<FileEntry>)
    requires Packable(files)
    ensures |RowTable(Rows(files))| == 12 * |files|
  {
    RowsLength(RowFields(Rows(files)));
  }

  /** Bytes 0-15: "EPWK", version 1, the file count, and four zero bytes. */
  lemma HeaderLayout(files: seq<FileEntry>)
    requires Packable(files)
    ensures SitsAt(EpwkImage(files), 0, [0x45, 0x50, 0x57, 0x4B])
    ensures 16 <= |EpwkImage(files)|
    ensures ReadU32LE(EpwkImage(files), 4) == 1
    ensures ReadU32LE(EpwkImage(files), 8) == |files|
    ensures SitsAt(EpwkImage(files), 12, [0, 0, 0, 0])
  {
    var img, h := EpwkImage(files), HeaderBytes(|files|);
    var one, count, zeros := U32LE(1), U32LE(|files|), [0, 0, 0, 0];
    assert SitsAt(img, 0, h) by { ImagePrefixes(files); }
    assert SitsAt(img, 0, Magic) by {
      MiddleSlice([], Magic, one + count + zeros);
      assert [] + Magic + (one + count + zeros) == h;
      SitsAtTrans(img, 0, h, 0, Magic);
    }
    assert ReadU32LE(img, 4) == 1 by {
      MiddleSlice(Magic, one, count + zeros);
      assert Magic + one + (count + zeros) == h;
      SitsAtTrans(img, 0, h, 4, one);
      ReadU32LEAt(img, 4, one);
    }
    assert ReadU32LE(img, 8) == |files| by {
      MiddleSlice(Magic + one, count, zeros);
      SitsAtTrans(img, 0, h, 8, count);
      ReadU32LEAt(img, 8, count);
    }
    assert SitsAt(img, 12, zeros) by {
      SitsAtSuffix(Magic + one + count, zeros);
      SitsAtTrans(img, 0, h, 12, zeros);
    }
  }

  /** The rows follow the header. */
  lemma RowsRegion(files: seq<FileEntry>)
    requires Packable(files)
    ensures SitsAt(EpwkImage(files), 16, RowTable(Rows(files)))
  {
    var h, t := HeaderBytes(|files|), RowTable(Rows(files));
    ImagePrefixes(files);
    SitsAtSuffix(h, t);
    SitsAtTrans(EpwkImage(files), 0, h + t, |h|, t);
  }

  /** The paths follow the rows, at byte 16 + 12n. */
  lemma PathsRegion(files: seq<FileEntry>)
    requires Packable(files)
    ensures SitsAt(EpwkImage(files), PathsStart(files), Concat(Paths(files)))
  {
    var h, t, p := HeaderBytes(|files|), RowTable(Rows(files)), Concat(Paths(files));
    RowTableLength(files);
    ImagePrefixes(files);
    SitsAtSuffix(h + t, p);
    SitsAtTrans(EpwkImage(files), 0, h + t + p, |h + t|, p);
  }

  /** The payloads follow the paths. */
  lemma DataRegion(files: seq<FileEntry>)
    requires Packable(files)
    ensures SitsAt(EpwkImage(files), DataStart(files), Concat(DirPack.Datas(files)))
  {
    var h, t, p, d := HeaderBytes(|files|), RowTable(Rows(files)), Concat(Paths(files)), Concat(DirPack.Datas(files));
    RowTableLength(files);
    ConcatLength(Paths(files));
    SitsAtSuffix(h + t + p, d);
  }

  /** The output is 16 + 12n + sum |path_i| + sum |data_i| bytes long. */
  lemma ImageLength(files: seq<FileEntry>)
    requires Packable(files)
    ensures |EpwkImage(files)| == 16 + 12 * |files| + TotalLength(Paths(files)) + TotalLength(DirPack.Datas(files))
  {
    RowTableLength(files);
    ConcatLength(Paths(files));
    ConcatLength(DirPack.Datas(files));
  }

  /** Row i, at byte 16 + 12i, holds the payload's offset as accumulated by
    * the packer, its size, and its path length. */
  lemma RowAt(files: seq<FileEntry>, i: nat, at: nat)
    requires Packable(files) && i < |files| && at == 16 + 12 * i
    ensures at + 12 <= |EpwkImage(files)|
    ensures ReadU32LE(EpwkImage(files), at) == RowOffset(files, i)
    ensures ReadU32LE(EpwkImage(files), at + 4) == |files[i].data|
    ensures ReadU32LE(EpwkImage(files), at + 8) == |files[i].filePath|
  {
    var img, parts := EpwkImage(files), RowFields(Rows(files));
    var row := Rows(files)[i];
    assert SitsAt(img, 16, Concat(parts)) by { RowsRegion(files); }
    assert at == 16 + TotalLength(parts[..i]) by { RowsLength(parts[..i]); }
    PartInRegion(img, 16, parts, i, at);
    RowFieldsAt(img, at, row, parts[i]);
  }

  /** The three fields of a row sitting in a buffer. */
  lemma RowFieldsAt(img: seq<uint8>, at: nat, row: FileHeader, bytes: seq<uint8>)
    requires Fits(row) && bytes == RowBytes(row) && SitsAt(img, at, bytes)
    ensures at + 12 <= |img|
    ensures ReadU32LE(img, at) == row.offset
    ensures ReadU32LE(img, at + 4) == row.size
    ensures ReadU32LE(img, at + 8) == row.pathLength
  {
    var a, b, c := U32LE(row.offset), U32LE(row.size), U32LE(row.pathLength);
    assert SitsAt(bytes, 0, a) by {
      MiddleSlice([], a, b + c);
      assert [] + a + (b + c) == bytes;
    }
    assert SitsAt(bytes, 4, b) by {
      MiddleSlice(a, b, c);
    }
    assert SitsAt(bytes, 8, c) by {
      SitsAtSuffix(a + b, c);
    }
    SitsAtTrans(img, at, bytes, 0, a);
    SitsAtTrans(img, at, bytes, 4, b);
    SitsAtTrans(img, at, bytes, 8, c);
    ReadU32LEAt(img, at, a);
    ReadU32LEAt(img, at + 4, b);
    ReadU32LEAt(img, at + 8, c);
  }

  /** Consecutive offsets differ by the payload size, so offsets never decrease. */
  lemma OffsetsAccumulate(files: seq<FileEntry>, i: nat, j: nat)
    requires i <= j <= |files|
    ensures j == i + 1 ==> RowOffset(files, j) == RowOffset(files, i) + |files[i].data|
    ensures RowOffset(files, i) <= RowOffset(files, j)
  {
    var ds := DirPack.Datas(files);
    assert ds[..j] == ds[..i] + ds[i..j];
    TotalLengthAppend(ds[..i], ds[i..j]);
    if j == i + 1 {
      ConcatSnoc(ds, i);
    }
  }

  /** As written, payload i sits 12n + |paths| bytes after the offset in its
    * row: the offsets leave out the rows and the paths. */
  lemma PayloadAt(files: seq<FileEntry>, i: nat, at: nat)
    requires Packable(files) && i < |files|
    requires at == RowOffset(files, i) + 12 * |files| + TotalLength(Paths(files))
    ensures SitsAt(EpwkImage(files), at, files[i].data)
  {
    var img, parts := EpwkImage(files), DirPack.Datas(files);
    var start := DataStart(files);
    assert SitsAt(img, start, Concat(parts)) by { DataRegion(files); }
    PartInRegion(img, start, parts, i, at);
  }

  /** With at least one file, the offset recorded in the first row is 16:
    * in the image that is where the first row itself lies, while the first
    * payload starts later, at the end of the paths. */
  lemma FirstOffsetMisses(files: seq<FileEntry>, at: nat)
    requires Packable(files) && |files| > 0 && at == DataStart(files)
    ensures 28 <= |EpwkImage(files)| && ReadU32LE(EpwkImage(files), 16) == 16
    ensures SitsAt(EpwkImage(files), 16, RowBytes(Rows(files)[0]))
    ensures 16 < at && SitsAt(EpwkImage(files), at, files[0].data)
  {
    var img, parts := EpwkImage(files), RowFields(Rows(files));
    assert DirPack.Datas(files)[..0] == [];
    assert RowOffset(files, 0) == 16;
    RowAt(files, 0, 16);
    assert SitsAt(img, 16, Concat(parts)) by { RowsRegion(files); }
    assert parts[..0] == [];
    PartInRegion(img, 16, parts, 0, 16);
    PayloadAt(files, 0, at);
  }

  // ---------------------------------------------------------------------
  // Reading the archive back
  // ---------------------------------------------------------------------

  /** The lengths of a list of buffers. */
  function Lengths(parts: seq<seq<uint8>>): (r: seq<nat>)
    ensures |r| == |parts|
    ensures forall i :: 0 <= i < |parts| ==> r[i] == |parts[i]|
  {
    seq(|parts|, i requires 0 <= i < |parts| => |parts[i]|)
  }

  /** Cuts consecutive pieces of the given lengths out of buf from at on;
    * None when a piece runs past the end. */
  function SliceRun(buf: seq<uint8>, at: nat, lens: seq<nat>): (r: Option<seq<seq<uint8>>>)
    ensures r.Some? ==> |r.value| == |lens|
    decreases |lens|
  {
    if lens == [] then Some([])
    else if at + lens[0] > |buf| then None
    else match SliceRun(buf, at + lens[0], lens[1..])
      case None => None
      case Some(rest) => Some([buf[at..at + lens[0]]] + rest)
  }

  /** Cutting a concatenation by its part lengths gives back the parts. */
  lemma {:induction false} SliceRunConcat(buf: seq<uint8>, at: nat, parts: seq<seq<uint8>>)
    requires SitsAt(buf, at, Concat(parts))
    ensures SliceRun(buf, at, Lengths(parts)) == Some(parts)
    decreases |parts|
  {
    if parts != [] {
      var whole, rest := Concat(parts), Concat(parts[1..]);
      assert whole == parts[0] + rest;
      SitsAtPrefix(parts[0], rest);
      SitsAtTrans(buf, at, whole, 0, parts[0]);
      SitsAtSuffix(parts[0], rest);
      SitsAtTrans(buf, at, whole, |parts[0]|, rest);
      assert Lengths(parts)[1..] == Lengths(parts[1..]);
      SliceRunConcat(buf, at + |parts[0]|, parts[1..]);
      assert [parts[0]] + parts[1..] == parts;
    }
  }

  /** The row at byte at. */
  function ReadRow(buf: seq<uint8>, at: nat): FileHeader
    requires at + 12 <= |buf|
  {
    FileHeader(ReadU32LE(buf, at), ReadU32LE(buf, at + 4), ReadU32LE(buf, at + 8))
  }

  function ReadRows(buf: seq<uint8>, n: nat): (r: seq<FileHeader>)
    requires 16 + 12 * n <= |buf|
    ensures |r| == n
  {
    seq(n, i requires 0 <= i < n => ReadRow(buf, 16 + 12 * i))
  }

  function PathLengths(rows: seq<FileHeader>): (r: seq<nat>)
    ensures |r| == |rows|
  {
    seq(|rows|, i requires 0 <= i < |rows| => rows[i].pathLength)
  }

  function Sizes(rows: seq<FileHeader>): (r: seq<nat>)
    ensures |r| == |rows|
  {
    seq(|rows|, i requires 0 <= i < |rows| => rows[i].size)
  }

  /** The paths, cut from byte 16 + 12n by the pathLength fields, and then
    * the payloads, cut by the size fields. */
  function UnpackBody(buf: seq<uint8>, rows: seq<FileHeader>): Option<seq<FileEntry>>
    requires 16 + 12 * |rows| <= |buf|
  {
    var start := 16 + 12 * |rows|;
    match SliceRun(buf, start, PathLengths(rows))
    case None => None
    case Some(paths) =>
      match SliceRun(buf, start + TotalLength(paths), Sizes(rows))
      case None => None
      case Some(datas) => Some(Zip(paths, datas))
  }

  /** Pairs path i with payload i. */
  function Zip(paths: seq<seq<uint8>>, datas: seq<seq<uint8>>): (r: seq<FileEntry>)
    requires |paths| == |datas|
    ensures |r| == |paths|
    ensures forall i :: 0 <= i < |r| ==> r[i].filePath == paths[i] && r[i].data == datas[i]
  {
    seq(|paths|, i requires 0 <= i < |paths| => DirPack.FileEntry(paths[i], datas[i]))
  }

  /** Reads an EPWK archive by its header and rows. */
  function Unpack(buf: seq<uint8>): Option<seq<FileEntry>>
  {
    if |buf| < 16 || !SitsAt(buf, 0, Magic) then None
    else
      var n := ReadU32LE(buf, 8);
      if 16 + 12 * n > |buf| then None
      else UnpackBody(buf, ReadRows(buf, n))
  }

  /** The rows read back are the rows written. */
  lemma RowsRoundTrip(files: seq<FileEntry>)
    requires Packable(files)
    ensures 16 + 12 * |files| <= |EpwkImage(files)|
    ensures ReadRows(EpwkImage(files), |files|) == Rows(files)
  {
    var img := EpwkImage(files);
    assert 16 + 12 * |files| <= |img| by { ImageLength(files); }
    forall i | 0 <= i < |files|
      ensures ReadRows(img, |files|)[i] == Rows(files)[i]
    {
      var at := 16 + 12 * i;
      assert ReadRow(img, at) == Rows(files)[i] by { RowAt(files, i, at); }
    }
  }

  /** The pathLength fields are the path lengths. */
  lemma PathLengthsOfRows(files: seq<FileEntry>)
    ensures PathLengths(Rows(files)) == Lengths(Paths(files))
  {
  }

  /** The size fields are the payload lengths. */
  lemma SizesOfRows(files: seq<FileEntry>)
    ensures Sizes(Rows(files)) == Lengths(DirPack.Datas(files))
  {
  }

  /** The paths cut by the pathLength fields are the paths written. */
  lemma PathsRoundTrip(files: seq<FileEntry>)
    requires Packable(files)
    ensures SliceRun(EpwkImage(files), PathsStart(files), PathLengths(Rows(files))) == Some(Paths(files))
  {
    var img, start := EpwkImage(files), PathsStart(files);
    assert SliceRun(img, start, Lengths(Paths(files))) == Some(Paths(files)) by {
      PathsRegion(files);
      SliceRunConcat(img, start, Paths(files));
    }
    PathLengthsOfRows(files);
  }

  /** The payloads cut by the size fields, after the paths, are the payloads written. */
  lemma DatasRoundTrip(files: seq<FileEntry>)
    requires Packable(files)
    ensures SliceRun(EpwkImage(files), DataStart(files), Sizes(Rows(files)))
      == Some(DirPack.Datas(files))
  {
    var img, start := EpwkImage(files), DataStart(files);
    assert SliceRun(img, start, Lengths(DirPack.Datas(files))) == Some(DirPack.Datas(files)) by {
      DataRegion(files);
      SliceRunConcat(img, start, DirPack.Datas(files));
    }
    SizesOfRows(files);
  }

  lemma ZipRoundTrip(files: seq<FileEntry>)
    ensures Zip(Paths(files), DirPack.Datas(files)) == files
  {
  }

  /** Unpacking what writeEPW wrote gives back every path and payload. */
  lemma UnpackBodyRoundTrip(files: seq<FileEntry>)
    requires Packable(files)
    requires 16 + 12 * |files| <= |EpwkImage(files)|
    ensures UnpackBody(EpwkImage(files), Rows(files)) == Some(files)
  {
    var img, rows, paths := EpwkImage(files), Rows(files), Paths(files);
    var start := 16 + 12 * |rows|;
    assert SliceRun(img, start, PathLengths(rows)) == Some(paths) by {
      assert start == PathsStart(files);
      PathsRoundTrip(files);
    }
    assert SliceRun(img, start + TotalLength(paths), Sizes(rows)) == Some(DirPack.Datas(files)) by {
      assert start + TotalLength(paths) == DataStart(files);
      DatasRoundTrip(files);
    }
    ZipRoundTrip(files);
  }

  /** Round trip: Unpack(writeEPW(files)) == files. */
  lemma UnpackRoundTrip(files: seq<FileEntry>)
    requires Packable(files)
    ensures Unpack(EpwkImage(files)) == Some(files)
  {
    var img := EpwkImage(files);
    HeaderLayout(files);
    RowsRoundTrip(files);
    UnpackBodyRoundTrip(files);
  }
}
