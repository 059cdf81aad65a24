/**
 * The stand-alone extractor (eagler/EPWexstract.js): it reads the same
 * component slots as the loader and slices the splash image, the loader.js
 * source and the loader.wasm binary out of an EPW file, with no check on
 * the magic, the declared length or the slot bounds. The file's bytes are
 * the input; the files it writes are the output record.
 *
 * Buffer.slice clamps both ends to the buffer, so a slot that points past
 * the end yields a shorter (possibly empty) component rather than an error.
 * readUInt32LE throws on a read past the end; every field is read before
 * anything is written, so a file shorter than the last field (184 + 4
 * bytes) yields no output at all.
 */
module EpwExtract {
  import opened Wrappers
  import opened ByteCursor
  import Bootstrap

  /** One past the last header byte the extractor reads (the wasm length at 184). */
  const FieldsEnd: nat := 188

  /** The three files written, and the mime bytes it decodes but does not use. */
  datatype Extracted = Extracted(splash: seq<uint8>, mime: seq<uint8>, loaderJs: seq<uint8>, loaderWasm: seq<uint8>)

  /** A non-negative slice bound clamped to the buffer. */
  function Clamp(x: nat, len: nat): (r: nat)
    ensures r <= len && r <= x
    ensures r == x || r == len
  {
    if x < len then x else len
  }

  /** buffer.slice(start, end) for non-negative bounds: both ends clamped to
    * the length, and nothing when the end does not exceed the start. */
  function NodeSlice(buf: seq<uint8>, start: nat, end: nat): (r: seq<uint8>)
    ensures |r| <= |buf|
    ensures start <= end ==> |r| <= end - start
    ensures SitsAt(buf, Clamp(start, |buf|), r)
  {
    var s, e := Clamp(start, |buf|), Clamp(end, |buf|);
    if e <= s then [] else buf[s..e]
  }

  /** Within the buffer, Buffer.slice is the plain slice. */
  lemma NodeSliceInside(buf: seq<uint8>, start: nat, end: nat)
    requires start <= end <= |buf|
    ensures NodeSlice(buf, start, end) == buf[start..end]
  {
  }

  /** A slice reaching past the end stops at the end. */
  lemma NodeSliceSaturates(buf: seq<uint8>, start: nat, end: nat)
    requires start <= |buf| < end
    ensures NodeSlice(buf, start, end) == buf[start..]
  {
  }

  /** The component a slot describes: buffer.slice(off, off + len). */
  function SlotSlice(buffer: seq<uint8>, slot: Bootstrap.Slot): seq<uint8>
    requires Bootstrap.SlotReadable(buffer, slot)
  {
    var off := ReadU32LE(buffer, slot.offsetAt);
    NodeSlice(buffer, off, off + ReadU32LE(buffer, slot.lengthAt))
  }

  /** The extractor on the file's bytes; None when a field read throws. */
  function Extract(buffer: seq<uint8>): (r: Option<Extracted>)
    ensures r.Some? <==> |buffer| >= FieldsEnd
  {
    if |buffer| < FieldsEnd then None
    else Some(Extracted(
      SlotSlice(buffer, Bootstrap.SplashSlot),
      SlotSlice(buffer, Bootstrap.MimeSlot),
      SlotSlice(buffer, Bootstrap.LoaderJsSlot),
      SlotSlice(buffer, Bootstrap.LoaderWasmSlot)))
  }

  /** A slice of a component that lies inside the file is exactly the
    * declared bytes, the same as the loader's Uint8Array view. */
  lemma SlotSliceFits(buffer: seq<uint8>, slot: Bootstrap.Slot)
    requires Bootstrap.SlotReadable(buffer, slot) && Bootstrap.SlotFits(buffer, slot)
    ensures SlotSlice(buffer, slot) == Bootstrap.SlotBytes(buffer, slot)
  {
    var off := ReadU32LE(buffer, slot.offsetAt);
    NodeSliceInside(buffer, off, off + ReadU32LE(buffer, slot.lengthAt));
  }

  /** On every file the loader accepts, the extractor writes the components
    * the loader uses. */
  lemma ExtractAgreesWithLoader(buffer: seq<uint8>)
    requires Bootstrap.WellFormedEpw(buffer)
    ensures Bootstrap.CheckEpw(Some(buffer)).Success?
    ensures var parts := Bootstrap.CheckEpw(Some(buffer)).value;
      Extract(buffer) == Some(Extracted(parts.splash, parts.mime, parts.loaderJs, parts.loaderWasm))
  {
    Bootstrap.CheckEpwAccepts(buffer);
    SlotSliceFits(buffer, Bootstrap.SplashSlot);
    SlotSliceFits(buffer, Bootstrap.MimeSlot);
    SlotSliceFits(buffer, Bootstrap.LoaderJsSlot);
    SlotSliceFits(buffer, Bootstrap.LoaderWasmSlot);
  }

  /** No validation: a 384-byte file of zeros, which the loader rejects for
    * its magic and its length field, is extracted into empty components. */
  lemma ExtractsWhatLoaderRejects()
    ensures var zeros := seq(384, _ => 0 as uint8);
      && Bootstrap.CheckEpw(Some(zeros)) == Failure(Bootstrap.InvalidEpw(true, true))
      && Extract(zeros) == Some(Extracted([], [], [], []))
  {
    var zeros := seq(384, _ => 0 as uint8);
    assert ReadU32LE(zeros, 0) == 0 && ReadU32LE(zeros, 8) == 0;
    assert ReadU32LE(zeros, 100) == 0 && ReadU32LE(zeros, 104) == 0;
    assert ReadU32LE(zeros, 108) == 0 && ReadU32LE(zeros, 112) == 0;
    assert ReadU32LE(zeros, 164) == 0 && ReadU32LE(zeros, 168) == 0;
    assert ReadU32LE(zeros, 180) == 0 && ReadU32LE(zeros, 184) == 0;
  }

  /** Byte k is one the slot's component depends on: one of its two fields,
    * or inside the clamped range it slices. */
  predicate Covers(buffer: seq<uint8>, slot: Bootstrap.Slot, k: nat)
    requires Bootstrap.SlotReadable(buffer, slot)
  {
    var off := ReadU32LE(buffer, slot.offsetAt);
    var end := off + ReadU32LE(buffer, slot.lengthAt);
    || slot.offsetAt <= k < slot.offsetAt + 4
    || slot.lengthAt <= k < slot.lengthAt + 4
    || Clamp(off, |buffer|) <= k < Clamp(end, |buffer|)
  }

  /** A field read is unaffected by a byte outside it. */
  lemma ReadOutside(buffer: seq<uint8>, at: nat, k: nat, v: uint8)
    requires at + 4 <= |buffer| && k < |buffer| && !(at <= k < at + 4)
    ensures ReadU32LE(buffer[k := v], at) == ReadU32LE(buffer, at)
  {
    var b := buffer[k := v];
    assert b[at] == buffer[at] && b[at + 1] == buffer[at + 1];
    assert b[at + 2] == buffer[at + 2] && b[at + 3] == buffer[at + 3];
  }

  /** Each component depends only on its own slot: overwriting any byte the
    * slot does not cover leaves the component unchanged. */
  lemma SlotSliceLocal(buffer: seq<uint8>, slot: Bootstrap.Slot, k: nat, v: uint8)
    requires Bootstrap.SlotReadable(buffer, slot) && k < |buffer| && !Covers(buffer, slot, k)
    ensures SlotSlice(buffer[k := v], slot) == SlotSlice(buffer, slot)
  {
    var b := buffer[k := v];
    ReadOutside(buffer, slot.offsetAt, k, v);
    ReadOutside(buffer, slot.lengthAt, k, v);
    var off := ReadU32LE(buffer, slot.offsetAt);
    var end := off + ReadU32LE(buffer, slot.lengthAt);
    var s, e := Clamp(off, |buffer|), Clamp(end, |buffer|);
    if s < e {
      assert b[s..e] == buffer[s..e];
    }
  }

  /** In particular, the mime slot plays no part in the three written files:
    * a byte of its fields that lies outside the other components' slots
    * changes none of them. */
  lemma MimeFieldsUnused(buffer: seq<uint8>, k: nat, v: uint8)
    requires |buffer| >= FieldsEnd && 108 <= k < 116
    requires !Covers(buffer, Bootstrap.SplashSlot, k)
    requires !Covers(buffer, Bootstrap.LoaderJsSlot, k)
    requires !Covers(buffer, Bootstrap.LoaderWasmSlot, k)
    ensures Extract(buffer[k := v]).Some? && Extract(buffer).Some?
    ensures Extract(buffer[k := v]).value.splash == Extract(buffer).value.splash
    ensures Extract(buffer[k := v]).value.loaderJs == Extract(buffer).value.loaderJs
    ensures Extract(buffer[k := v]).value.loaderWasm == Extract(buffer).value.loaderWasm
  {
    SlotSliceLocal(buffer, Bootstrap.SplashSlot, k, v);
    SlotSliceLocal(buffer, Bootstrap.LoaderJsSlot, k, v);
    SlotSliceLocal(buffer, Bootstrap.LoaderWasmSlot, k, v);
  }
}
