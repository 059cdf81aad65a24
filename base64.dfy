/**
 * The manual base64 decoder of the loader bootstrap (createBase64Decoder and
 * the `decode(base64Str, offset)` closure it returns).
 *
 * The decoder looks every character up in a table holding the RFC 4648
 * RFC 4648 section 4 alphabet plus the RFC 4648 section 5 characters `-` and `_`. The payload is
 * everything from `offset` up to the first `=`. Every full group of four
 * characters gives three bytes, and a trailing group of two or three characters
 * gives one or two bytes.
 *
 * The source combines sextets with `<<`, `>>` and `|`. The fields it ORs
 * together never overlap, so each `x << k` is written here as `x * 2^k`, each
 * `x >> k` as `x / 2^k` and each `|` as `+`. These are the same numbers.
 */
module Base64 {
  import opened Wrappers
  import opened ByteCursor

  /**
   * The `chars` string the decode table is filled from: the RFC 4648 section 4
   * alphabet in value order. It is written in three pieces only so that the
   * verifier can index it cheaply; the string is the same.
   */
  const Alphabet: string := "ABCDEFGHIJKLMNOPQRSTUVWXYZ" + "abcdefghijklmnopqrstuvwxyz" + "0123456789+/"

  /** A character of the RFC 4648 section 4 alphabet or of the RFC 4648 section 5 (URL and filename safe) alphabet. */
  predicate IsBase64Char(c: char) {
    ('A' <= c <= 'Z') || ('a' <= c <= 'z') || ('0' <= c <= '9') || c == '+' || c == '/' || c == '-' || c == '_'
  }

  /** The value of a character: table 1 of RFC 4648 section 4, with table 2 of RFC 4648 section 5 for `-` and `_`. */
  function RfcValue(c: char): (v: nat)
    requires IsBase64Char(c)
    ensures v < 64
  {
    if 'A' <= c <= 'Z' then c as int - 'A' as int
    else if 'a' <= c <= 'z' then c as int - 'a' as int + 26
    else if '0' <= c <= '9' then c as int - '0' as int + 52
    else if c == '+' || c == '-' then 62
    else 63
  }

  /**
   * What one character contributes to a group: its value, or 0 when the table
   * has no entry for it. A missing entry is `undefined`, which JavaScript
   * converts to 0 under the shift and OR operators.
   */
  function Sextet(c: char): (v: nat)
    ensures v < 64
  {
    if IsBase64Char(c) then RfcValue(c) else 0
  }

  // The alphabet, range by range: position i holds the character whose value is i.

  lemma UpperValues(i: nat)
    requires i < 26
    ensures IsBase64Char(Alphabet[i]) && Alphabet[i] != '-' && Alphabet[i] != '_' && RfcValue(Alphabet[i]) == i
  {
  }

  lemma LowerValues(i: nat)
    requires 26 <= i < 52
    ensures IsBase64Char(Alphabet[i]) && Alphabet[i] != '-' && Alphabet[i] != '_' && RfcValue(Alphabet[i]) == i
  {
  }

  lemma DigitValues(i: nat)
    requires 52 <= i < 64
    ensures IsBase64Char(Alphabet[i]) && Alphabet[i] != '-' && Alphabet[i] != '_' && RfcValue(Alphabet[i]) == i
  {
  }

  /** `chars` holds at position i the RFC 4648 section 4 character whose value is i. */
  lemma AlphabetAt(i: nat)
    requires i < 64
    ensures |Alphabet| == 64
    ensures IsBase64Char(Alphabet[i]) && Alphabet[i] != '-' && Alphabet[i] != '_' && RfcValue(Alphabet[i]) == i
  {
    if i < 26 { UpperValues(i); } else if i < 52 { LowerValues(i); } else { DigitValues(i); }
  }

  /** Every RFC 4648 section 4 character occurs in `chars`, at the position of its value. */
  lemma AlphabetCovers(c: char)
    requires IsBase64Char(c) && c != '-' && c != '_'
    ensures Alphabet[RfcValue(c)] == c
  {
    AlphabetAt(RfcValue(c));
  }

  /**
   * createBase64Decoder's table: `chars[i]` maps to i for i in 0..63, then
   * `-` maps to 62 and `_` to 63. Afterwards the table holds exactly the
   * characters of the two alphabets, each with its RFC 4648 value.
   */
  method CreateDecodeTable() returns (table: map<char, nat>)
    ensures IsDecodeTable(table)
  {
    table := map[];
    for i := 0 to 64
      invariant forall c :: c in table ==> IsBase64Char(c) && c != '-' && c != '_' && table[c] == RfcValue(c)
      invariant forall c :: IsBase64Char(c) && c != '-' && c != '_' && RfcValue(c) < i ==> c in table
    {
      AlphabetAt(i);
      forall c | IsBase64Char(c) && c != '-' && c != '_' && RfcValue(c) == i ensures c == Alphabet[i] {
        AlphabetCovers(c);
      }
      table := table[Alphabet[i] := i];
    }
    table := table['-' := 62];
    table := table['_' := 63];
  }

  /** The table holds exactly the characters of the two alphabets, each with its RFC 4648 value. */
  predicate IsDecodeTable(table: map<char, nat>) {
    (forall c :: c in table <==> IsBase64Char(c)) && (forall c :: c in table ==> table[c] == RfcValue(c))
  }

  /** `table[c]` as the shifts see it: the entry, or 0 when there is none. */
  function Lookup(table: map<char, nat>, c: char): nat {
    if c in table then table[c] else 0
  }

  /** The error `decode` throws. */
  datatype DecodeError = InvalidLength

  /** String.prototype.indexOf(c, from): the first position at or after `from` holding `c`, or -1. */
  function IndexOf(s: string, c: char, from: nat): (r: int)
    ensures r == -1 || (from <= r < |s| && s[r] == c)
    ensures forall j :: from <= j < |s| && (r == -1 || j < r) ==> s[j] != c
    decreases |s| - from
  {
    if from >= |s| then -1 else if s[from] == c then from else IndexOf(s, c, from + 1)
  }

  /** Where the payload ends: at the first `=` at or after `offset`, or at the end of the string. */
  function PayloadEnd(s: string, offset: nat): (e: nat)
    requires offset <= |s|
    ensures offset <= e <= |s|
  {
    var q := IndexOf(s, '=', offset);
    if q == -1 then |s| else q
  }

  /** `paddingCount` as the source computes it. */
  function PaddingCount(s: string, offset: nat): nat
    requires offset <= |s|
  {
    var payloadLen := PayloadEnd(s, offset) - offset;
    if payloadLen == |s| - offset then 0 else (4 - payloadLen % 4) % 4
  }

  /** The 24-bit number that four sextets spell, most significant first. */
  function Quantum(a: char, b: char, c: char, d: char): (v: nat)
    ensures v < 0x100_0000
  {
    Sextet(a) * 0x40000 + Sextet(b) * 0x1000 + Sextet(c) * 0x40 + Sextet(d)
  }

  /** Shifting right by 16 is shifting right by 8 twice. */
  lemma ShiftTwice(v: nat)
    ensures v / 0x1_0000 == v / 0x100 / 0x100
  {
    var q := v / 0x100;
    assert v == 0x1_0000 * (q / 0x100) + 0x100 * (q % 0x100) + v % 0x100;
  }

  /** The three bytes of a full group: `(val >> 16) & 0xFF`, `(val >> 8) & 0xFF`, `val & 0xFF`. */
  function QuadBytes(a: char, b: char, c: char, d: char): (r: seq<uint8>)
    ensures |r| == 3
  {
    var v := Quantum(a, b, c, d);
    ShiftTwice(v);
    [v / 0x1_0000 % 0x100, v / 0x100 % 0x100, v % 0x100]
  }

  /** A full group's three bytes, read big-endian, are the group's 24-bit number. */
  lemma QuadBytesValue(a: char, b: char, c: char, d: char)
    ensures var r := QuadBytes(a, b, c, d);
      r[0] as int * 0x1_0000 + r[1] as int * 0x100 + r[2] as int == Quantum(a, b, c, d)
  {
    var v := Quantum(a, b, c, d);
    ShiftTwice(v);
    assert v == 0x1_0000 * (v / 0x1_0000) + 0x100 * (v / 0x100 % 0x100) + v % 0x100;
  }

  /** The bytes of a run of full groups, in order. */
  function DecodeGroups(p: string): (r: seq<uint8>)
    ensures |p| % 4 == 0 ==> 4 * |r| == 3 * |p|
    decreases |p|
  {
    if |p| < 4 then []
    else
      var k := |p| - 4;
      DecodeGroups(p[..k]) + QuadBytes(p[k], p[k + 1], p[k + 2], p[k + 3])
  }

  /**
   * The bytes of a final partial group. Two characters give the top 8 of
   * their 12 bits; three give the top 16 of their 18 bits. One character
   * gives nothing.
   */
  function DecodeTail(t: string): (r: seq<uint8>)
    requires |t| < 4
    ensures |r| == if |t| < 2 then 0 else |t| - 1
  {
    if |t| == 2 then
      [(Sextet(t[0]) * 4 + Sextet(t[1]) / 0x10) % 0x100]
    else if |t| == 3 then
      var v := Sextet(t[0]) * 0x400 + Sextet(t[1]) * 0x10 + Sextet(t[2]) / 4;
      [v / 0x100 % 0x100, v % 0x100]
    else
      []
  }

  /**
   * What the tail bytes mean: two characters give the top 8 of their 12
   * bits, and three give the top 16 of their 18 bits, read big-endian.
   */
  lemma DecodeTailValue(t: string)
    requires |t| < 4
    ensures |t| == 2 ==> DecodeTail(t)[0] == (Sextet(t[0]) * 0x40 + Sextet(t[1])) / 0x10
    ensures |t| == 3 ==>
      DecodeTail(t)[0] as int * 0x100 + DecodeTail(t)[1] as int == (Sextet(t[0]) * 0x1000 + Sextet(t[1]) * 0x40 + Sextet(t[2])) / 4
  {
    if |t| == 2 {
      PairBits(Sextet(t[0]), Sextet(t[1]));
    } else if |t| == 3 {
      TripleBits(Sextet(t[0]), Sextet(t[1]), Sextet(t[2]));
    }
  }

  lemma PairBits(a: nat, b: nat)
    requires a < 64 && b < 64
    ensures (a * 4 + b / 0x10) % 0x100 == (a * 0x40 + b) / 0x10
  {
    assert a * 0x40 + b == 0x10 * (a * 4 + b / 0x10) + b % 0x10;
  }

  lemma TripleBits(a: nat, b: nat, c: nat)
    requires a < 64 && b < 64 && c < 64
    ensures var v := a * 0x400 + b * 0x10 + c / 4;
      v / 0x100 % 0x100 * 0x100 + v % 0x100 == (a * 0x1000 + b * 0x40 + c) / 4
  {
    var v := a * 0x400 + b * 0x10 + c / 4;
    assert a * 0x1000 + b * 0x40 + c == 4 * v + c % 4;
    assert v < 0x1_0000;
    assert v == 0x100 * (v / 0x100) + v % 0x100;
  }

  /** How long a decoded payload is: three bytes per full group, then one byte fewer than the tail's characters. */
  lemma DecodePayloadLength(p: string)
    ensures |DecodePayload(p)| == 3 * (|p| / 4) + (if |p| % 4 < 2 then 0 else |p| % 4 - 1)
  {
  }

  /** The bytes of a payload (the characters before the first `=`): full groups, then the tail. */
  function DecodePayload(p: string): seq<uint8> {
    var full := 4 * (|p| / 4);
    DecodeGroups(p[..full]) + DecodeTail(p[full..])
  }

  /**
   * decode(s, offset): an error when the length after `offset` is not a
   * multiple of 4; otherwise the bytes of the payload. Characters before
   * `offset` are never looked at.
   */
  function Decode(s: string, offset: nat): (r: Result<seq<uint8>, DecodeError>)
    requires offset <= |s|
    ensures r.Failure? <==> (|s| - offset) % 4 != 0
  {
    if (|s| - offset) % 4 != 0 then Failure(InvalidLength)
    else Success(DecodePayload(s[offset..PayloadEnd(s, offset)]))
  }

  /** On a length that is a multiple of four, Decode is the payload decoding up to the first '='. */
  lemma DecodeUnfold(s: string, offset: nat, e: nat)
    requires offset <= e <= |s| && (|s| - offset) % 4 == 0
    requires PayloadEnd(s, offset) == e
    ensures Decode(s, offset) == Success(DecodePayload(s[offset..e]))
  {
  }

  /** One more full group at the end of a run adds its three bytes at the end. */
  lemma GroupsExtend(s: string, lo: nat, hi: nat)
    requires lo <= hi && hi + 4 <= |s| && (hi - lo) % 4 == 0
    ensures DecodeGroups(s[lo..hi + 4]) == DecodeGroups(s[lo..hi]) + QuadBytes(s[hi], s[hi + 1], s[hi + 2], s[hi + 3])
  {
    var p := s[lo..hi + 4];
    assert p[..|p| - 4] == s[lo..hi];
  }

  /** A payload inside a larger string: its full groups, then its tail. */
  lemma PayloadSplit(s: string, lo: nat, groups: nat, mid: nat, k: nat, hi: nat)
    requires k < 4 && mid == lo + 4 * groups && hi == mid + k && hi <= |s|
    ensures DecodePayload(s[lo..hi]) == DecodeGroups(s[lo..mid]) + DecodeTail(s[mid..hi])
  {
    var p := s[lo..hi];
    assert |p| == 4 * groups + k;
    assert |p| / 4 == groups;
    assert p[..4 * groups] == s[lo..mid];
    assert p[4 * groups..] == s[mid..hi];
  }

  /** The groups written by the main loop followed by the tail make up Decode's result. */
  lemma AssembleDecode(s: string, offset: nat, groups: nat, k: nat, i: nat, groupBytes: seq<uint8>)
    requires k < 4 && i == offset + 4 * groups && i + k <= |s| && (|s| - offset) % 4 == 0
    requires PayloadEnd(s, offset) == i + k
    requires groupBytes == DecodeGroups(s[offset..i])
    ensures Decode(s, offset) == Success(groupBytes + DecodeTail(s[i..i + k]))
  {
    PayloadSplit(s, offset, groups, i, k, i + k);
    DecodeUnfold(s, offset, i + k);
  }

  /**
   * The arithmetic of decode's set-up. With payloadLen = 4 * groups + k:
   * paddingCount is (4 - k) % 4, which makes payloadLen + paddingCount a
   * multiple of four, so the floating-point division in outLen is exact;
   * outLen is three bytes per group plus k - 1 tail bytes; and the loop
   * bound stopAt lets the loop run exactly `groups` times.
   */
  lemma DecodeLayout(len: nat, payloadLen: nat, paddingCount: nat)
    requires payloadLen <= len && len % 4 == 0
    requires paddingCount == if payloadLen == len then 0 else (4 - payloadLen % 4) % 4
    ensures paddingCount == (4 - payloadLen % 4) % 4
    ensures (payloadLen + paddingCount) % 4 == 0
    ensures payloadLen == 4 * (payloadLen / 4) + payloadLen % 4
    ensures 3 * (payloadLen + paddingCount) / 4 - paddingCount ==
      3 * (payloadLen / 4) + (if payloadLen % 4 < 2 then 0 else payloadLen % 4 - 1)
    ensures var stop := if paddingCount > 0 then payloadLen - 4 else payloadLen;
      stop <= 4 * (payloadLen / 4) && (payloadLen / 4 == 0 || 4 * (payloadLen / 4) - 4 < stop)
  {
  }

  /** What the main loop writes for one group, from the table's entries, is the group's three bytes. */
  lemma GroupFromTable(table: map<char, nat>, a: char, b: char, c: char, d: char, val: int)
    requires IsDecodeTable(table)
    requires val == Lookup(table, a) * 0x40000 + Lookup(table, b) * 0x1000 + Lookup(table, c) * 0x40 + Lookup(table, d)
    ensures 0 <= val < 0x100_0000
    ensures [val / 0x1_0000 % 0x100, val / 0x100 % 0x100, val % 0x100] == QuadBytes(a, b, c, d)
  {
    assert val == Quantum(a, b, c, d);
  }

  /** One pass of the main loop: the group at `i` as three bytes at `outIndex`, earlier bytes untouched. */
  method WriteGroup(table: map<char, nat>, s: string, i: nat, out: array<uint8>, outIndex: nat)
    requires IsDecodeTable(table)
    requires i + 4 <= |s| && outIndex + 3 <= out.Length
    modifies out
    ensures out[..outIndex + 3] == old(out[..outIndex]) + QuadBytes(s[i], s[i + 1], s[i + 2], s[i + 3])
  {
    var val := Lookup(table, s[i]) * 0x40000 +
               Lookup(table, s[i + 1]) * 0x1000 +
               Lookup(table, s[i + 2]) * 0x40 +
               Lookup(table, s[i + 3]);
    GroupFromTable(table, s[i], s[i + 1], s[i + 2], s[i + 3], val);
    out[outIndex] := val / 0x1_0000 % 0x100;
    out[outIndex + 1] := val / 0x100 % 0x100;
    out[outIndex + 2] := val % 0x100;
  }

  /**
   * The main loop of decode: from `offset`, four characters at a time while
   * `i < stopAt`, three bytes per group into `out`. `groups` is how many
   * times the loop runs; it returns where it stopped in the string and
   * in `out`.
   */
  method WriteGroups(table: map<char, nat>, s: string, offset: nat, stopAt: int, ghost groups: nat, out: array<uint8>)
    returns (i: nat, outIndex: nat)
    requires IsDecodeTable(table)
    requires offset + 4 * groups <= |s| && 3 * groups <= out.Length
    requires stopAt <= offset + 4 * groups && (groups == 0 || offset + 4 * groups - 4 < stopAt)
    modifies out
    ensures i == offset + 4 * groups && outIndex == 3 * groups
    ensures out[..outIndex] == DecodeGroups(s[offset..i])
  {
    outIndex := 0;
    i := offset;
    ghost var g := 0;
    while i < stopAt
      invariant 0 <= g <= groups
      invariant i == offset + 4 * g && outIndex == 3 * g
      invariant out[..outIndex] == DecodeGroups(s[offset..i])
      decreases stopAt - i
    {
      WriteGroup(table, s, i, out, outIndex);
      outIndex := outIndex + 3;
      GroupsExtend(s, offset, i);
      i := i + 4;
      g := g + 1;
    }
  }

  /**
   * The end of decode: with paddingCount 2 it writes one byte from two
   * characters, with 1 it writes two bytes from three characters, and
   * otherwise nothing (a lone character before `=` yields no byte).
   */
  method WriteTail(table: map<char, nat>, s: string, i: nat, k: nat, paddingCount: nat, out: array<uint8>, outIndex: nat)
    requires IsDecodeTable(table)
    requires k < 4 && paddingCount == (4 - k) % 4 && i + k <= |s|
    requires outIndex + (if k < 2 then 0 else k - 1) == out.Length
    modifies out
    ensures out[..] == old(out[..outIndex]) + DecodeTail(s[i..i + k])
  {
    ghost var tail := s[i..i + k];
    var outIndex := outIndex;
    if paddingCount == 2 {
      var val := Lookup(table, s[i]) * 4 + Lookup(table, s[i + 1]) / 0x10;
      out[outIndex] := val % 0x100;
      outIndex := outIndex + 1;
    } else if paddingCount == 1 {
      var val := Lookup(table, s[i]) * 0x400 +
                 Lookup(table, s[i + 1]) * 0x10 +
                 Lookup(table, s[i + 2]) / 4;
      out[outIndex] := val / 0x100 % 0x100;
      outIndex := outIndex + 1;
      out[outIndex] := val % 0x100;
      outIndex := outIndex + 1;
    }
  }

  /**
   * The `decode` closure createBase64Decoder returns, with the table it
   * captured. It rejects a length after `offset` that is not a multiple of 4,
   * reads the first `=`, computes paddingCount and outLen, and allocates
   * `out`. It then fills three bytes per group while `i < stopAt`, and
   * finishes with the one or two tail bytes that paddingCount selects.
   */
  method TableDecode(table: map<char, nat>, base64Str: string, offset: nat) returns (r: Result<seq<uint8>, DecodeError>)
    requires IsDecodeTable(table) && offset <= |base64Str|
    ensures r == Decode(base64Str, offset)
  {
    var len := |base64Str| - offset;
    if len % 4 != 0 {
      return Failure(InvalidLength);
    }
    assert (|base64Str| - offset) % 4 == 0;
    var firstEq := IndexOf(base64Str, '=', offset);
    var payloadLen := if firstEq == -1 then len else firstEq - offset;
    var paddingCount := if payloadLen == len then 0 else (4 - payloadLen % 4) % 4;
    var fullGroups := payloadLen;
    ghost var groups := payloadLen / 4;
    DecodeLayout(len, payloadLen, paddingCount);
    var outLen := 3 * (fullGroups + paddingCount) / 4 - paddingCount;
    var out := new uint8[outLen];
    var stopAt := (if paddingCount > 0 then fullGroups - 4 else fullGroups) + offset;
    var i, outIndex := WriteGroups(table, base64Str, offset, stopAt, groups, out);
    ghost var groupBytes := out[..outIndex];
    var k := payloadLen % 4;
    assert PayloadEnd(base64Str, offset) == i + k;
    AssembleDecode(base64Str, offset, groups, k, i, groupBytes);
    WriteTail(table, base64Str, i, k, paddingCount, out, outIndex);
    assert out[..] == groupBytes + DecodeTail(base64Str[i..i + k]);
    r := Success(out[..]);
  }
}
