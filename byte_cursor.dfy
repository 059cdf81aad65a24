/**
 * Little-endian 32-bit reads and writes over byte sequences, as done by
 * DataView.getUint32(o, true), Buffer.readUInt32LE and Buffer.writeUInt32LE,
 * together with the concatenation that Buffer.concat performs.
 */
module ByteCursor {

  /** One octet of an ArrayBuffer / Buffer. */
  type uint8 = x: int | 0 <= x < 0x100

  /** A value that a 32-bit unsigned field can hold. */
  type uint32 = x: int | 0 <= x < 0x1_0000_0000

  /** The four bytes writeUInt32LE stores for `x`, least significant first. */
  function U32LE(x: uint32): (r: seq<uint8>)
    ensures |r| == 4
    ensures ReadU32LE(r, 0) == x
  {
    var q1 := x / 0x100;
    var q2 := q1 / 0x100;
    var q3 := q2 / 0x100;
    [x % 0x100, q1 % 0x100, q2 % 0x100, q3]
  }

  /** The unsigned little-endian value of bytes off .. off+3; a read past the end is a RangeError in Node. */
  function ReadU32LE(buf: seq<uint8>, off: nat): (v: uint32)
    requires off + 4 <= |buf|
  {
    buf[off] as int + 0x100 * buf[off + 1] as int + 0x1_0000 * buf[off + 2] as int + 0x100_0000 * buf[off + 3] as int
  }

  /** Reading a field back gives the very bytes that were there: the encoding is one-to-one. */
  lemma ReadU32LEBytes(buf: seq<uint8>, off: nat)
    requires off + 4 <= |buf|
    ensures U32LE(ReadU32LE(buf, off)) == buf[off..off + 4]
  {
    var v := ReadU32LE(buf, off);
    var q1 := v / 0x100;
    var q2 := q1 / 0x100;
    assert v % 0x100 == buf[off] && q1 == buf[off + 1] as int + 0x100 * buf[off + 2] as int + 0x1_0000 * buf[off + 3] as int;
    assert q1 % 0x100 == buf[off + 1] && q2 == buf[off + 2] as int + 0x100 * buf[off + 3] as int;
  }

  /** Two fields are equal exactly when their bytes are. */
  lemma ReadU32LEInjective(a: seq<uint8>, i: nat, b: seq<uint8>, j: nat)
    requires i + 4 <= |a| && j + 4 <= |b|
    ensures ReadU32LE(a, i) == ReadU32LE(b, j) <==> a[i..i + 4] == b[j..j + 4]
  {
    ReadU32LEBytes(a, i);
    ReadU32LEBytes(b, j);
    if a[i..i + 4] == b[j..j + 4] {
      assert a[i] == b[j] && a[i + 1] == b[j + 1] && a[i + 2] == b[j + 2] && a[i + 3] == b[j + 3];
    }
  }

  /** A field read inside one part of a concatenation only sees that part. */
  lemma ReadU32LEConcat(a: seq<uint8>, b: seq<uint8>, off: nat)
    requires off + 4 <= |a| + |b|
    ensures off + 4 <= |a| ==> ReadU32LE(a + b, off) == ReadU32LE(a, off)
    ensures |a| <= off ==> ReadU32LE(a + b, off) == ReadU32LE(b, off - |a|)
  {
  }

  /** buf.writeUInt32LE(v, off): overwrite four bytes in place, nothing else changes. */
  method WriteU32LE(buf: array<uint8>, off: nat, v: uint32)
    requires off + 4 <= buf.Length
    modifies buf
    ensures buf[..] == old(buf[..])[..off] + U32LE(v) + old(buf[..])[off + 4..]
  {
    var bytes := U32LE(v);
    buf[off] := bytes[0];
    buf[off + 1] := bytes[1];
    buf[off + 2] := bytes[2];
    buf[off + 3] := bytes[3];
    assert buf[..] == old(buf[..])[..off] + U32LE(v) + old(buf[..])[off + 4..];
  }

  /** part occurs in buf starting at offset at. */
  predicate SitsAt(buf: seq<uint8>, at: nat, part: seq<uint8>)
  {
    at + |part| <= |buf| && buf[at..at + |part|] == part
  }

  /** The middle part of a three-part concatenation. */
  lemma MiddleSlice(a: seq<uint8>, b: seq<uint8>, c: seq<uint8>)
    ensures SitsAt(a + b + c, |a|, b)
  {
    assert forall k :: 0 <= k < |b| ==> (a + b + c)[|a| + k] == b[k];
  }

  lemma SitsAtPrefix(a: seq<uint8>, b: seq<uint8>)
    ensures SitsAt(a + b, 0, a)
  {
    assert (a + b)[0..|a|] == a;
  }

  lemma SitsAtSuffix(a: seq<uint8>, b: seq<uint8>)
    ensures SitsAt(a + b, |a|, b)
  {
    assert (a + b)[|a|..|a| + |b|] == b;
  }

  /** A part of a part is a part of the whole. */
  lemma SitsAtTrans(buf: seq<uint8>, start: nat, region: seq<uint8>, off: nat, part: seq<uint8>)
    requires SitsAt(buf, start, region) && SitsAt(region, off, part)
    ensures SitsAt(buf, start + off, part)
  {
    forall k | 0 <= k < |part|
      ensures buf[start + off + k] == part[k]
    {
      assert part[k] == region[off..off + |part|][k] == region[off + k];
      assert region[off + k] == buf[start..start + |region|][off + k];
    }
    assert buf[start + off..start + off + |part|] == part;
  }

  /** Every slice sits where it was cut. */
  lemma SliceSitsAt(buf: seq<uint8>, off: nat, len: nat)
    requires off + len <= |buf|
    ensures SitsAt(buf, off, buf[off..off + len])
  {
  }

  /** A field inside a buffer reads as the field on its own. */
  lemma ReadU32LEAt(buf: seq<uint8>, at: nat, field: seq<uint8>)
    requires SitsAt(buf, at, field) && |field| == 4
    ensures at + 4 <= |buf|
    ensures ReadU32LE(buf, at) == ReadU32LE(field, 0)
  {
    assert field[0..4] == field;
    ReadU32LEInjective(buf, at, field, 0);
  }

  /** Buffer.concat of a list of buffers. */
  function Concat(parts: seq<seq<uint8>>): (r: seq<uint8>)
    decreases |parts|
  {
    if parts == [] then [] else parts[0] + Concat(parts[1..])
  }

  /** Sum of the part lengths. */
  function TotalLength(parts: seq<seq<uint8>>): nat
    decreases |parts|
  {
    if parts == [] then 0 else |parts[0]| + TotalLength(parts[1..])
  }

  lemma {:induction false} ConcatLength(parts: seq<seq<uint8>>)
    ensures |Concat(parts)| == TotalLength(parts)
    decreases |parts|
  {
    if parts != [] {
      ConcatLength(parts[1..]);
    }
  }

  /** Concatenating two lists of buffers concatenates their concatenations. */
  lemma {:induction false} ConcatAppend(a: seq<seq<uint8>>, b: seq<seq<uint8>>)
    ensures Concat(a + b) == Concat(a) + Concat(b)
    decreases |a|
  {
    if a != [] {
      assert (a + b)[0] == a[0] && (a + b)[1..] == a[1..] + b;
      ConcatAppend(a[1..], b);
      assert Concat(a + b) == a[0] + Concat(a[1..] + b);
    } else {
      assert a + b == b;
    }
  }

  lemma TotalLengthAppend(a: seq<seq<uint8>>, b: seq<seq<uint8>>)
    ensures TotalLength(a + b) == TotalLength(a) + TotalLength(b)
  {
    ConcatAppend(a, b);
    ConcatLength(a + b);
    ConcatLength(a);
    ConcatLength(b);
  }

  /** Part i sits in the concatenation right after the parts before it. */
  lemma ConcatSplit(parts: seq<seq<uint8>>, i: nat)
    requires i < |parts|
    ensures Concat(parts) == Concat(parts[..i]) + parts[i] + Concat(parts[i + 1..])
    ensures |Concat(parts[..i])| == TotalLength(parts[..i])
  {
    assert parts == parts[..i] + parts[i..];
    ConcatAppend(parts[..i], parts[i..]);
    assert parts[i..][1..] == parts[i + 1..];
    ConcatLength(parts[..i]);
  }

  /** One more part at the end. */
  lemma ConcatSnoc(parts: seq<seq<uint8>>, i: nat)
    requires i < |parts|
    ensures Concat(parts[..i + 1]) == Concat(parts[..i]) + parts[i]
    ensures TotalLength(parts[..i + 1]) == TotalLength(parts[..i]) + |parts[i]|
  {
    assert parts[..i + 1] == parts[..i] + [parts[i]];
    ConcatAppend(parts[..i], [parts[i]]);
    TotalLengthAppend(parts[..i], [parts[i]]);
  }

  /** Part i of a region lies at the region's start plus the lengths of the
    * parts before it. */
  lemma PartInRegion(img: seq<uint8>, start: nat, parts: seq<seq<uint8>>, i: nat, at: nat)
    requires SitsAt(img, start, Concat(parts)) && i < |parts|
    requires at == start + TotalLength(parts[..i])
    ensures SitsAt(img, at, parts[i])
    ensures at + |parts[i]| <= start + |Concat(parts)|
  {
    ConcatSplit(parts, i);
    var before, after := Concat(parts[..i]), Concat(parts[i + 1..]);
    assert SitsAt(Concat(parts), |before|, parts[i]) by {
      MiddleSlice(before, parts[i], after);
    }
    SitsAtTrans(img, start, Concat(parts), |before|, parts[i]);
  }

  /** A list of 4-byte fields is 4 bytes per field long. */
  lemma {:induction false} FieldsLength(parts: seq<seq<uint8>>)
    requires forall i :: 0 <= i < |parts| ==> |parts[i]| == 4
    ensures TotalLength(parts) == 4 * |parts|
    decreases |parts|
  {
    if parts != [] {
      FieldsLength(parts[1..]);
    }
  }
}
