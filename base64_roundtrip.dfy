/**
 * Properties of the loader's base64 decoder, stated against a reference
 * encoder written from RFC 4648 section 4 (the loader itself never encodes;
 * the encoder exists only to say what the decoder inverts).
 *
 * - Decode(Encode(d), 0) == Success(d), and the decoder's paddingCount is
 *   the number of `=` the encoder appended.
 * - Decode looks at nothing before `offset`.
 * - Decode sees each character only through its sextet and through whether
 *   it is `=`. So the RFC 4648 section 5 characters decode like their RFC 4648 section 4
 *   counterparts, and a character outside both alphabets decodes like `A`.
 */
module Base64RoundTrip {
  import opened Wrappers
  import opened ByteCursor
  import opened Base64

  // ---------------------------------------------------------------- encoder

  /** The RFC 4648 section 4 character of value v (table 1 of RFC 4648, range by range). */
  function EncodeChar(v: nat): (c: char)
    requires v < 64
    ensures IsBase64Char(c) && c != '-' && c != '_' && Sextet(c) == v
  {
    if v < 26 then ('A' as int + v) as char
    else if v < 52 then ('a' as int + (v - 26)) as char
    else if v < 62 then ('0' as int + (v - 52)) as char
    else if v == 62 then '+'
    else '/'
  }

  /** The reference alphabet is the decoder's `chars` string. */
  lemma EncodeCharIsAlphabet(v: nat)
    requires v < 64
    ensures EncodeChar(v) == Alphabet[v]
  {
    AlphabetAt(v);
    AlphabetCovers(EncodeChar(v));
  }

  /** Three bytes as four characters: the 24-bit group split into four sextets, most significant first. */
  function EncodeQuad(b0: uint8, b1: uint8, b2: uint8): (r: string)
    ensures |r| == 4
  {
    var n := b0 as int * 0x1_0000 + b1 as int * 0x100 + b2 as int;
    [EncodeChar(n / 0x40000), EncodeChar(n / 0x1000 % 0x40), EncodeChar(n / 0x40 % 0x40), EncodeChar(n % 0x40)]
  }

  /** A run of whole 3-byte groups, each as four characters, in order. */
  function EncodeGroups(d: seq<uint8>): (r: string)
    requires |d| % 3 == 0
    ensures 3 * |r| == 4 * |d| && |r| % 4 == 0
    decreases |d|
  {
    if |d| == 0 then []
    else
      var k := |d| - 3;
      var rest := EncodeGroups(d[..k]);
      var quad := EncodeQuad(d[k], d[k + 1], d[k + 2]);
      AddGroupLength(|rest|);
      assert |rest + quad| == |rest| + 4;
      rest + quad
  }

  lemma AddGroupLength(n: nat)
    requires n % 4 == 0
    ensures (n + 4) % 4 == 0
  {
  }

  /** The last one or two bytes: two or three characters, the low bits filled with zeros. */
  function EncodeTail(t: seq<uint8>): (r: string)
    requires |t| < 3
    ensures |r| == if |t| == 0 then 0 else |t| + 1
  {
    if |t| == 1 then
      [EncodeChar(t[0] as int / 4), EncodeChar(t[0] as int % 4 * 0x10)]
    else if |t| == 2 then
      [EncodeChar(t[0] as int / 4), EncodeChar(t[0] as int % 4 * 0x10 + t[1] as int / 0x10), EncodeChar(t[1] as int % 0x10 * 4)]
    else
      []
  }

  /** The characters of an encoding before its padding. */
  function EncodePayload(d: seq<uint8>): string {
    var m := 3 * (|d| / 3);
    EncodeGroups(d[..m]) + EncodeTail(d[m..])
  }

  /** The `=` characters that complete the last group. */
  function Padding(d: seq<uint8>): string {
    if |d| % 3 == 1 then "==" else if |d| % 3 == 2 then "=" else ""
  }

  /** RFC 4648 section 4 encoding with padding. */
  function Encode(d: seq<uint8>): string {
    EncodePayload(d) + Padding(d)
  }

  // ----------------------------------------------------------- arithmetic

  /** A 24-bit number is its four sextets. */
  lemma SextetSplit(n: nat)
    requires n < 0x100_0000
    ensures n == n / 0x40000 * 0x40000 + n / 0x1000 % 0x40 * 0x1000 + n / 0x40 % 0x40 * 0x40 + n % 0x40
  {
    var q1 := n / 0x40;
    var q2 := q1 / 0x40;
    assert n == q1 * 0x40 + n % 0x40;
    assert q1 == q2 * 0x40 + q1 % 0x40;
    assert q2 == q2 / 0x40 * 0x40 + q2 % 0x40;
    assert n / 0x1000 == q2;
    assert n / 0x40000 == q2 / 0x40;
  }

  /** The three bytes of a 24-bit group come back out of it. */
  lemma ByteSplit(b0: uint8, b1: uint8, b2: uint8)
    ensures var n := b0 as int * 0x1_0000 + b1 as int * 0x100 + b2 as int;
      n / 0x1_0000 % 0x100 == b0 as int && n / 0x100 % 0x100 == b1 as int && n % 0x100 == b2 as int
  {
    var n := b0 as int * 0x1_0000 + b1 as int * 0x100 + b2 as int;
    assert n / 0x100 == b0 as int * 0x100 + b1 as int;
    assert n / 0x1_0000 == b0 as int;
  }

  // ------------------------------------------------------------ groups

  /** Decoding an encoded group gives back its three bytes. */
  lemma QuadRoundTrip(b0: uint8, b1: uint8, b2: uint8)
    ensures var e := EncodeQuad(b0, b1, b2); QuadBytes(e[0], e[1], e[2], e[3]) == [b0, b1, b2]
  {
    var e := EncodeQuad(b0, b1, b2);
    var n := b0 as int * 0x1_0000 + b1 as int * 0x100 + b2 as int;
    SextetSplit(n);
    assert Quantum(e[0], e[1], e[2], e[3]) == n;
    ByteSplit(b0, b1, b2);
  }

  lemma SplitLastThree(d: seq<uint8>)
    requires |d| >= 3
    ensures d == d[..|d| - 3] + [d[|d| - 3], d[|d| - 2], d[|d| - 1]]
  {
  }

  lemma DropGroup(n: nat)
    requires n % 3 == 0 && n > 0
    ensures n >= 3 && (n - 3) % 3 == 0
  {
  }

  /** Decoding encoded whole groups gives back the bytes. */
  lemma {:induction false} GroupsRoundTrip(d: seq<uint8>)
    requires |d| % 3 == 0
    ensures DecodeGroups(EncodeGroups(d)) == d
    decreases |d|
  {
    if |d| > 0 {
      DropGroup(|d|);
      var k := |d| - 3;
      assert |d[..k]| == k;
      var e := EncodeGroups(d);
      var q := EncodeQuad(d[k], d[k + 1], d[k + 2]);
      assert e == EncodeGroups(d[..k]) + q;
      assert e[..|e| - 4] == EncodeGroups(d[..k]);
      assert e[|e| - 4..] == q;
      GroupsRoundTrip(d[..k]);
      QuadRoundTrip(d[k], d[k + 1], d[k + 2]);
      SplitLastThree(d);
    }
  }

  lemma OneByteBits(b: nat)
    requires b < 0x100
    ensures (b / 4 * 4 + b % 4 * 0x10 / 0x10) % 0x100 == b
  {
  }

  lemma TwoByteBits(b0: nat, b1: nat)
    requires b0 < 0x100 && b1 < 0x100
    ensures var v := b0 / 4 * 0x400 + (b0 % 4 * 0x10 + b1 / 0x10) * 0x10 + b1 % 0x10 * 4 / 4;
      v / 0x100 % 0x100 == b0 && v % 0x100 == b1
  {
    var v := b0 / 4 * 0x400 + (b0 % 4 * 0x10 + b1 / 0x10) * 0x10 + b1 % 0x10 * 4 / 4;
    assert v == b0 * 0x100 + b1;
  }

  /** Decoding an encoded tail gives back its bytes. */
  lemma TailRoundTrip(t: seq<uint8>)
    requires |t| < 3
    ensures DecodeTail(EncodeTail(t)) == t
  {
    var e := EncodeTail(t);
    if |t| == 1 {
      var b := t[0] as int;
      assert Sextet(e[0]) == b / 4 && Sextet(e[1]) == b % 4 * 0x10;
      OneByteBits(b);
      assert DecodeTail(e) == [(Sextet(e[0]) * 4 + Sextet(e[1]) / 0x10) % 0x100];
      assert t == [t[0]];
    } else if |t| == 2 {
      var b0, b1 := t[0] as int, t[1] as int;
      assert Sextet(e[0]) == b0 / 4 && Sextet(e[1]) == b0 % 4 * 0x10 + b1 / 0x10 && Sextet(e[2]) == b1 % 0x10 * 4;
      TwoByteBits(b0, b1);
      var v := Sextet(e[0]) * 0x400 + Sextet(e[1]) * 0x10 + Sextet(e[2]) / 4;
      assert DecodeTail(e) == [v / 0x100 % 0x100, v % 0x100];
      assert t == [t[0], t[1]];
    }
  }

  // ----------------------------------------------------- payload and padding

  /** Every character of a string is in one of the two alphabets (none is `=`). */
  predicate AlphabetOnly(s: string) {
    forall j :: 0 <= j < |s| ==> IsBase64Char(s[j])
  }

  lemma {:induction false} EncodeGroupsAlphabetOnly(d: seq<uint8>)
    requires |d| % 3 == 0
    ensures AlphabetOnly(EncodeGroups(d))
    decreases |d|
  {
    if |d| > 0 {
      DropGroup(|d|);
      var k := |d| - 3;
      assert |d[..k]| == k;
      EncodeGroupsAlphabetOnly(d[..k]);
      var rest := EncodeGroups(d[..k]);
      var quad := EncodeQuad(d[k], d[k + 1], d[k + 2]);
      assert EncodeGroups(d) == rest + quad;
      assert forall j :: 0 <= j < |quad| ==> IsBase64Char(quad[j]);
    }
  }

  lemma QuotientOfGroups(q: nat, r: nat)
    requires r < 4
    ensures (4 * q + r) / 4 == q && (4 * q + r) % 4 == r
  {
  }

  /** A run of whole groups followed by a short tail is decoded group by group, then the tail. */
  lemma DecodePayloadOf(g: string, t: string)
    requires |g| % 4 == 0 && |t| < 4
    ensures DecodePayload(g + t) == DecodeGroups(g) + DecodeTail(t)
  {
    var p := g + t;
    var q := |g| / 4;
    assert |p| == 4 * q + |t|;
    QuotientOfGroups(q, |t|);
    assert 4 * (|p| / 4) == |g|;
    assert p[..|g|] == g && p[|g|..] == t;
  }

  /** The encoder writes alphabet characters only: no `=` before its padding. */
  lemma EncodePayloadAlphabetOnly(d: seq<uint8>)
    ensures AlphabetOnly(EncodePayload(d))
  {
    EncodeGroupsAlphabetOnly(d[..3 * (|d| / 3)]);
  }

  /** Four characters per whole group, and one more than the leftover bytes after them. */
  lemma EncodePayloadLength(d: seq<uint8>)
    ensures |EncodePayload(d)| == 4 * (|d| / 3) + (if |d| % 3 == 0 then 0 else |d| % 3 + 1)
  {
    WholeThirds(|d|);
  }

  /** The whole groups of n bytes: a multiple of three, at most n, at most two bytes short of it. */
  lemma WholeThirds(n: nat)
    ensures var m := 3 * (n / 3); m <= n && m % 3 == 0 && n - m == n % 3
  {
  }

  lemma CeilThird(n: nat)
    ensures (n + 2) / 3 == n / 3 + (if n % 3 == 0 then 0 else 1)
  {
  }

  /** Every encoding has four characters per started group of three bytes, so a multiple of four. */
  lemma EncodeLength(d: seq<uint8>)
    ensures |Encode(d)| == 4 * ((|d| + 2) / 3) && |Encode(d)| % 4 == 0
  {
    EncodePayloadLength(d);
    var q := |d| / 3;
    var c := if |d| % 3 == 0 then 0 else 1;
    assert |Encode(d)| == 4 * (q + c);
    CeilThird(|d|);
    QuotientOfGroups(q + c, 0);
  }

  /** The payload ends at the first `=` after `offset`, or at the end of the string when there is none. */
  lemma PayloadEndAt(s: string, offset: nat, e: nat)
    requires offset <= e <= |s|
    requires forall j :: offset <= j < e ==> s[j] != '='
    requires e == |s| || s[e] == '='
    ensures PayloadEnd(s, offset) == e
  {
  }

  /** The decoder's payload in an encoding is the encoder's payload. */
  lemma EncodePayloadEnd(d: seq<uint8>)
    ensures PayloadEnd(Encode(d), 0) == |EncodePayload(d)|
  {
    var s := Encode(d);
    var p := EncodePayload(d);
    EncodePayloadAlphabetOnly(d);
    assert s[..|p|] == p;
    PayloadEndAt(s, 0, |p|);
  }

  /** The decoder's payload function inverts the encoder's. */
  lemma PayloadRoundTrip(d: seq<uint8>)
    ensures DecodePayload(EncodePayload(d)) == d
  {
    var m := 3 * (|d| / 3);
    WholeThirds(|d|);
    DecodePayloadOf(EncodeGroups(d[..m]), EncodeTail(d[m..]));
    GroupsRoundTrip(d[..m]);
    TailRoundTrip(d[m..]);
    assert d == d[..m] + d[m..];
  }

  /** decode inverts the RFC 4648 encoding: no length error, and the same bytes. */
  lemma DecodeEncode(d: seq<uint8>)
    ensures Decode(Encode(d), 0) == Success(d)
  {
    var s := Encode(d);
    var p := EncodePayload(d);
    EncodeLength(d);
    EncodePayloadEnd(d);
    assert s[0..|p|] == p;
    PayloadRoundTrip(d);
  }

  /** The decoder's paddingCount on an encoding is the number of `=` the encoder appended. */
  lemma EncodePaddingCount(d: seq<uint8>)
    ensures PaddingCount(Encode(d), 0) == |Padding(d)|
  {
    EncodePayloadEnd(d);
    EncodePayloadLength(d);
    var r := |d| % 3;
    if r != 0 {
      QuotientOfGroups(|d| / 3, r + 1);
    }
  }

  // ------------------------------------------------------ what decode looks at

  /** indexOf on a suffix finds the same position, shifted. */
  lemma {:induction false} IndexOfSuffix(s: string, c: char, offset: nat, from: nat)
    requires offset <= from <= |s|
    ensures var r := IndexOf(s[offset..], c, from - offset);
      IndexOf(s, c, from) == if r == -1 then -1 else r + offset
    decreases |s| - from
  {
    if from < |s| && s[from] != c {
      IndexOfSuffix(s, c, offset, from + 1);
    }
  }

  /** decode(s, offset) is decode of the suffix from offset: nothing before offset is read. */
  lemma DecodeSuffix(s: string, offset: nat)
    requires offset <= |s|
    ensures Decode(s, offset) == Decode(s[offset..], 0)
  {
    IndexOfSuffix(s, '=', offset, offset);
    var t := s[offset..];
    if (|s| - offset) % 4 == 0 {
      var e := PayloadEnd(s, offset);
      assert PayloadEnd(t, 0) == e - offset;
      assert s[offset..e] == t[0..e - offset];
    }
  }

  /**
   * Nothing after the first `=` is read: two strings of the same length
   * that agree up to and including that `=` decode alike.
   */
  lemma DecodeIgnoresAfterPadding(s: string, t: string, offset: nat)
    requires offset <= |s| == |t|
    requires PayloadEnd(s, offset) < |s|
    requires s[..PayloadEnd(s, offset) + 1] == t[..PayloadEnd(s, offset) + 1]
    ensures Decode(s, offset) == Decode(t, offset)
  {
    var e := PayloadEnd(s, offset);
    assert forall j :: offset <= j <= e ==> t[j] == s[..e + 1][j];
    PayloadEndAt(t, offset, e);
    assert s[offset..e] == t[offset..e];
  }

  /** Whatever precedes the encoded text is ignored when offset points past it. */
  lemma DecodeAfterPrefix(prefix: string, s: string)
    ensures Decode(prefix + s, |prefix|) == Decode(s, 0)
  {
    DecodeSuffix(prefix + s, |prefix|);
    assert (prefix + s)[|prefix|..] == s;
  }

  /** Two strings the decoder cannot tell apart: `=` at the same places, equal sextets everywhere. */
  predicate SameToDecoder(s: string, t: string) {
    |s| == |t| && forall j :: 0 <= j < |s| ==> (s[j] == '=') == (t[j] == '=') && Sextet(s[j]) == Sextet(t[j])
  }

  lemma {:induction false} IndexOfSameToDecoder(s: string, t: string, from: nat)
    requires SameToDecoder(s, t)
    ensures IndexOf(s, '=', from) == IndexOf(t, '=', from)
    decreases |s| - from
  {
    if from < |s| {
      IndexOfSameToDecoder(s, t, from + 1);
    }
  }

  lemma {:induction false} GroupsSameToDecoder(s: string, t: string)
    requires SameToDecoder(s, t) && |s| % 4 == 0
    ensures DecodeGroups(s) == DecodeGroups(t)
    decreases |s|
  {
    if |s| > 0 {
      var k := |s| - 4;
      assert SameToDecoder(s[..k], t[..k]);
      GroupsSameToDecoder(s[..k], t[..k]);
    }
  }

  lemma TailSameToDecoder(a: string, b: string)
    requires SameToDecoder(a, b) && |a| < 4
    ensures DecodeTail(a) == DecodeTail(b)
  {
    if |a| >= 2 {
      assert Sextet(a[0]) == Sextet(b[0]) && Sextet(a[1]) == Sextet(b[1]);
    }
    if |a| == 3 {
      assert Sextet(a[2]) == Sextet(b[2]);
    }
  }

  lemma PayloadSameToDecoder(p: string, q: string)
    requires SameToDecoder(p, q)
    ensures DecodePayload(p) == DecodePayload(q)
  {
    var full := 4 * (|p| / 4);
    assert SameToDecoder(p[..full], q[..full]);
    GroupsSameToDecoder(p[..full], q[..full]);
    assert SameToDecoder(p[full..], q[full..]);
    TailSameToDecoder(p[full..], q[full..]);
  }

  /** Strings that are the same to the decoder decode the same, bytes and errors alike. */
  lemma DecodeSameToDecoder(s: string, t: string, offset: nat)
    requires SameToDecoder(s, t) && offset <= |s|
    ensures Decode(s, offset) == Decode(t, offset)
  {
    IndexOfSameToDecoder(s, t, offset);
    var e := PayloadEnd(s, offset);
    assert e == PayloadEnd(t, offset);
    if (|s| - offset) % 4 == 0 {
      assert SameToDecoder(s[offset..e], t[offset..e]);
      PayloadSameToDecoder(s[offset..e], t[offset..e]);
    }
  }

  /** The RFC 4648 section 5 spelling: `-` for `+` and `_` for `/`. */
  function ToUrlSafe(s: string): (r: string)
    ensures |r| == |s|
    ensures forall j :: 0 <= j < |s| ==> r[j] == (if s[j] == '+' then '-' else if s[j] == '/' then '_' else s[j])
  {
    seq(|s|, j requires 0 <= j < |s| => if s[j] == '+' then '-' else if s[j] == '/' then '_' else s[j])
  }

  /** The table's `-` and `_` entries: URL-safe text decodes exactly like the standard text. */
  lemma DecodeUrlSafe(s: string, offset: nat)
    requires offset <= |s|
    ensures Decode(ToUrlSafe(s), offset) == Decode(s, offset)
  {
    DecodeSameToDecoder(ToUrlSafe(s), s, offset);
  }

  /** Replace the characters outside both alphabets, other than `=`, by `A`. */
  function ReplaceForeign(s: string): (r: string)
    ensures |r| == |s|
    ensures forall j :: 0 <= j < |s| ==> r[j] == (if IsBase64Char(s[j]) || s[j] == '=' then s[j] else 'A')
  {
    seq(|s|, j requires 0 <= j < |s| => if IsBase64Char(s[j]) || s[j] == '=' then s[j] else 'A')
  }

  /**
   * A character with no table entry is not rejected: its lookup is
   * `undefined`, which the shifts read as 0, so it decodes like `A`.
   */
  lemma DecodeForeignAsA(s: string, offset: nat)
    requires offset <= |s|
    ensures Decode(s, offset) == Decode(ReplaceForeign(s), offset)
  {
    DecodeSameToDecoder(s, ReplaceForeign(s), offset);
  }

  /** For example, a space in a group is read as `A`: "QQ =" decodes to the bytes 0x41 0x00, as "QQA=" does. */
  lemma ForeignExample()
    ensures Decode("QQ =", 0) == Success([0x41, 0x00])
  {
    var s := "QQ =";
    assert IndexOf(s, '=', 3) == 3;
    assert IndexOf(s, '=', 0) == 3;
    assert s[0..3] == "QQ ";
    var p := "QQ ";
    assert p[..0] == [] && p[0..] == p;
    assert Sextet(p[0]) == 16 && Sextet(p[1]) == 16 && Sextet(p[2]) == 0;
    assert DecodeTail(p) == [0x41, 0x00];
    assert DecodePayload(p) == [0x41, 0x00];
  }
}
