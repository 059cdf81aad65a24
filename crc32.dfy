// CRC-32 as computed by the directory packer (eagler/tools/epwPack.js, crc32).
//
// The packer keeps the register in a JavaScript number and updates it with
// the 32-bit bitwise operators. Every such operator acts on the 32-bit two's
// complement pattern of its operands, so the register is modelled here by
// that pattern read as an unsigned integer in [0, 2^32). Bitwise
// exclusive-or is defined digit by digit on non-negative integers; shifts
// and masks by powers of two become division and remainder.
module Crc {
  import opened ByteCursor

  /** The reflected CRC-32 polynomial, 0xEDB88320. */
  const Poly: nat := 0xEDB8_8320

  /** The 32-bit pattern with every bit set: ~0 as the register's start value. */
  const AllOnes: nat := 0xFFFF_FFFF

  function Pow2(k: nat): (r: nat)
    ensures r > 0
  {
    if k == 0 then 1 else 2 * Pow2(k - 1)
  }

  // ---------------------------------------------------------------------
  // Bitwise exclusive-or on non-negative integers
  // ---------------------------------------------------------------------

  /** a ^ b, one binary digit at a time, lowest digit first. */
  function Xor(a: nat, b: nat): nat
    decreases a + b
  {
    if a == 0 then b
    else if b == 0 then a
    else (if a % 2 == b % 2 then 0 else 1) + 2 * Xor(a / 2, b / 2)
  }

  /** The lowest digit of a ^ b is the sum of the lowest digits mod 2; the
    * remaining digits are the exclusive-or of the remaining digits. */
  lemma XorDigits(a: nat, b: nat)
    ensures Xor(a, b) % 2 == (a % 2 + b % 2) % 2
    ensures Xor(a, b) / 2 == Xor(a / 2, b / 2)
  {
  }

  lemma {:induction false} XorComm(a: nat, b: nat)
    ensures Xor(a, b) == Xor(b, a)
    decreases a + b
  {
    if a != 0 && b != 0 {
      XorComm(a / 2, b / 2);
    }
  }

  lemma {:induction false} XorAssoc(a: nat, b: nat, c: nat)
    ensures Xor(Xor(a, b), c) == Xor(a, Xor(b, c))
    decreases a + b + c
  {
    if a + b + c != 0 {
      var x, y := Xor(Xor(a, b), c), Xor(a, Xor(b, c));
      XorDigits(a, b);
      XorDigits(Xor(a, b), c);
      XorDigits(b, c);
      XorDigits(a, Xor(b, c));
      XorAssoc(a / 2, b / 2, c / 2);
      assert x % 2 == y % 2;
      assert x / 2 == y / 2;
    }
  }

  /** Exclusive-or keeps values below 2^k. */
  lemma {:induction false} XorBelow(a: nat, b: nat, k: nat)
    requires a < Pow2(k) && b < Pow2(k)
    ensures Xor(a, b) < Pow2(k)
  {
    if a != 0 && b != 0 {
      XorBelow(a / 2, b / 2, k - 1);
    }
  }

  /** A value below 2^k and a multiple of 2^k share no set digit, so their
    * exclusive-or is their sum. */
  lemma {:induction false} XorDisjoint(lo: nat, q: nat, k: nat)
    requires lo < Pow2(k)
    ensures Xor(lo, Pow2(k) * q) == lo + Pow2(k) * q
  {
    if k > 0 && lo != 0 && q != 0 {
      var h := Pow2(k - 1) * q;
      Pow2Half(k, q);
      XorDisjoint(lo / 2, q, k - 1);
      XorEven(lo, h);
    }
  }

  /** Exclusive-or with an even number keeps the lowest digit. */
  lemma XorEven(a: nat, h: nat)
    ensures Xor(a, 2 * h) == a % 2 + 2 * Xor(a / 2, h)
  {
  }

  /** Exclusive-or with 2^k - 1 complements a value below 2^k. */
  lemma {:induction false} XorOnes(c: nat, k: nat)
    requires c < Pow2(k)
    ensures Xor(c, Pow2(k) - 1) == Pow2(k) - 1 - c
  {
    if k > 0 && c != 0 {
      XorOnes(c / 2, k - 1);
    }
  }

  lemma {:induction false} Pow2Add(a: nat, b: nat)
    ensures Pow2(a + b) == Pow2(a) * Pow2(b)
  {
    if a > 0 {
      Pow2Add(a - 1, b);
      assert Pow2(a + b) == 2 * (Pow2(a - 1) * Pow2(b));
    }
  }

  lemma Pow2Constants()
    ensures Pow2(8) == 0x100 && Pow2(32) == 0x1_0000_0000
  {
    assert Pow2(8) == 0x100;
    Pow2Add(8, 8);
    Pow2Add(16, 16);
  }

  /** A multiple of 2^k is twice a multiple of 2^(k-1). */
  lemma Pow2Half(k: nat, q: nat)
    requires k > 0
    ensures Pow2(k) * q == 2 * (Pow2(k - 1) * q)
  {
  }

  // ---------------------------------------------------------------------
  // The packer's register (eagler/tools/epwPack.js, lines 8-17)
  // ---------------------------------------------------------------------

  /** 0xEDB88320 & -(crc & 1): the polynomial when the lowest bit is set,
    * zero otherwise (-(1) is the all-ones pattern, -(0) is zero). */
  function PolyMask(c: nat): (r: nat)
    ensures r == 0 || r == Poly
  {
    if c % 2 == 1 then Poly else 0
  }

  /** One inner iteration: crc = (crc >>> 1) ^ (0xEDB88320 & -(crc & 1)). */
  function Step(c: nat): nat
  {
    Xor(c / 2, PolyMask(c))
  }

  /** k inner iterations, the first applied first. */
  function Steps(c: nat, k: nat): nat
    decreases k
  {
    if k == 0 then c else Steps(Step(c), k - 1)
  }

  /** One more step after k steps. */
  lemma {:induction false} StepsSnoc(c: nat, k: nat)
    ensures Steps(c, k + 1) == Step(Steps(c, k))
    decreases k
  {
    if k > 0 {
      StepsSnoc(Step(c), k - 1);
    }
  }

  /** The inner loop's bound: eight steps per input byte. */
  const BitsPerByte: nat := 8

  /** The eight inner iterations run per input byte. */
  function Shift8(c: nat): nat
  {
    Steps(c, BitsPerByte)
  }

  /** The register after the outer loop has consumed data, starting from
    * init: each byte is xored in and followed by eight steps. */
  function Register(init: nat, data: seq<uint8>): nat
    decreases |data|
  {
    if |data| == 0 then init
    else Shift8(Xor(Register(init, data[..|data| - 1]), data[|data| - 1]))
  }

  lemma {:induction false} StepBelow(c: nat)
    requires c < 0x1_0000_0000
    ensures Step(c) < 0x1_0000_0000
  {
    Pow2Constants();
    XorBelow(c / 2, PolyMask(c), 32);
  }

  lemma {:induction false} StepsBelow(c: nat, k: nat)
    requires c < 0x1_0000_0000
    ensures Steps(c, k) < 0x1_0000_0000
    decreases k
  {
    if k > 0 {
      StepBelow(c);
      StepsBelow(Step(c), k - 1);
    }
  }

  lemma {:induction false} RegisterBelow(init: nat, data: seq<uint8>)
    requires init < 0x1_0000_0000
    ensures Register(init, data) < 0x1_0000_0000
    decreases |data|
  {
    if |data| > 0 {
      var p := Register(init, data[..|data| - 1]);
      RegisterBelow(init, data[..|data| - 1]);
      Pow2Constants();
      XorBelow(p, data[|data| - 1], 32);
      StepsBelow(Xor(p, data[|data| - 1]), BitsPerByte);
    }
  }

  /** crc32(buf): ~crc >>> 0 is the complement of the 32-bit register. The
    * result is an unsigned 32-bit value, and the empty buffer gives 0. */
  function Crc32(data: seq<uint8>): (r: uint32)
    ensures |data| == 0 ==> r == 0
  {
    RegisterBelow(AllOnes, data);
    AllOnes - Register(AllOnes, data)
  }

  /** The packer's nested loops. */
  method ComputeCrc32(buf: seq<uint8>) returns (r: uint32)
    ensures r == Crc32(buf)
  {
    var crc: nat := AllOnes;
    var i := 0;
    while i < |buf|
      invariant 0 <= i <= |buf|
      invariant crc == Register(AllOnes, buf[..i])
    {
      crc := Xor(crc, buf[i]);
      ghost var afterXor := crc;
      var j := 0;
      while j < 8
        invariant 0 <= j <= 8
        invariant crc == Steps(afterXor, j)
      {
        StepsSnoc(afterXor, j);
        crc := Xor(crc / 2, PolyMask(crc));
        j := j + 1;
      }
      assert buf[..i + 1][..i] == buf[..i];
      i := i + 1;
    }
    assert buf[..i] == buf;
    RegisterBelow(AllOnes, buf);
    r := AllOnes - crc;
  }

  // ---------------------------------------------------------------------
  // Reference: the table-driven CRC of RFC 1952, section 8
  // ---------------------------------------------------------------------

  /** One step of make_crc_table: if (c & 1) c = 0xedb88320 ^ (c >> 1);
    * else c = c >> 1. */
  function RfcStep(c: nat): nat
  {
    if c % 2 == 1 then Xor(Poly, c / 2) else c / 2
  }

  function RfcSteps(c: nat, k: nat): nat
    decreases k
  {
    if k == 0 then c else RfcSteps(RfcStep(c), k - 1)
  }

  /** crc_table[n] for n in [0, 256). */
  function RfcTable(n: uint8): nat
  {
    RfcSteps(n, BitsPerByte)
  }

  /** The loop of update_crc: c = crc_table[(c ^ buf[n]) & 0xff] ^ (c >> 8). */
  function RfcUpdate(c: nat, buf: seq<uint8>): nat
    decreases |buf|
  {
    if |buf| == 0 then c
    else
      var p := RfcUpdate(c, buf[..|buf| - 1]);
      Xor(RfcTable(Xor(p, buf[|buf| - 1]) % 0x100), p / 0x100)
  }

  /** crc(buf, len) = update_crc(0, buf, len), which complements the start
    * value and the result by exclusive-or with 0xffffffff. */
  function RfcCrc(buf: seq<uint8>): nat
  {
    Xor(RfcUpdate(Xor(0, AllOnes), buf), AllOnes)
  }

  // ---------------------------------------------------------------------
  // The packer's bitwise loop computes the RFC 1952 CRC
  // ---------------------------------------------------------------------

  /** The mask form and the if/else form of one step agree. */
  lemma StepIsRfcStep(c: nat)
    ensures Step(c) == RfcStep(c)
  {
    XorComm(c / 2, Poly);
  }

  lemma {:induction false} StepsAreRfcSteps(c: nat, k: nat)
    ensures Steps(c, k) == RfcSteps(c, k)
    decreases k
  {
    if k > 0 {
      StepIsRfcStep(c);
      StepsAreRfcSteps(Step(c), k - 1);
    }
  }

  /** A step distributes over an exclusive-or with an even value, which is
    * shifted along. */
  lemma StepMix(u: nat, h: nat)
    requires h % 2 == 0
    ensures Step(Xor(u, h)) == Xor(Step(u), h / 2)
  {
    var m := PolyMask(u);
    XorDigits(u, h);
    assert PolyMask(Xor(u, h)) == m;
    XorAssoc(u / 2, h / 2, m);
    XorComm(h / 2, m);
    XorAssoc(u / 2, m, h / 2);
  }

  /** k steps distribute over an exclusive-or with a multiple of 2^k. */
  lemma {:induction false} StepsMix(u: nat, q: nat, k: nat)
    ensures Steps(Xor(u, Pow2(k) * q), k) == Xor(Steps(u, k), q)
    decreases k
  {
    if k > 0 {
      var half := Pow2(k - 1) * q;
      Pow2Half(k, q);
      StepMix(u, 2 * half);
      StepsMix(Step(u), q, k - 1);
    }
  }

  /** Eight steps of a register are eight steps of its low byte, xored with
    * the register shifted right by 8: the identity behind crc_table. */
  lemma ByteLinear(x: nat)
    ensures Shift8(x) == Xor(Shift8(x % 0x100), x / 0x100)
  {
    var lo, q := x % 0x100, x / 0x100;
    Pow2Constants();
    var h := Pow2(8) * q;
    assert h == 0x100 * q;
    XorDisjoint(lo, q, 8);
    assert Xor(lo, h) == x;
    StepsMix(lo, q, BitsPerByte);
  }

  /** Xoring in a byte leaves the bits above the lowest eight unchanged. */
  lemma XorByteHigh(p: nat, b: uint8)
    ensures Xor(p, b) / 0x100 == p / 0x100
  {
    var lo, q := p % 0x100, p / 0x100;
    var h := 0x100 * q;
    Pow2Constants();
    assert Xor(lo, h) == p by {
      XorDisjoint(lo, q, 8);
    }
    var x := Xor(lo, b);
    assert Xor(p, b) == Xor(x, h) by {
      XorAssoc(lo, h, b);
      XorComm(h, b);
      XorAssoc(lo, b, h);
    }
    assert x < 0x100 && Xor(x, h) == x + h by {
      XorBelow(lo, b, 8);
      XorDisjoint(x, q, 8);
    }
  }

  /** One byte of the packer's loop is one iteration of update_crc. */
  lemma ByteUpdate(p: nat, b: uint8)
    ensures Shift8(Xor(p, b)) == Xor(RfcTable(Xor(p, b) % 0x100), p / 0x100)
  {
    ByteLinear(Xor(p, b));
    StepsAreRfcSteps(Xor(p, b) % 0x100, BitsPerByte);
    XorByteHigh(p, b);
  }

  lemma {:induction false} RegisterIsRfcUpdate(init: nat, data: seq<uint8>)
    ensures Register(init, data) == RfcUpdate(init, data)
    decreases |data|
  {
    if |data| > 0 {
      RegisterIsRfcUpdate(init, data[..|data| - 1]);
      ByteUpdate(Register(init, data[..|data| - 1]), data[|data| - 1]);
    }
  }

  /** The packer's crc32 is the standard CRC-32 of RFC 1952, section 8. */
  lemma Crc32IsRfc1952(data: seq<uint8>)
    ensures Crc32(data) == RfcCrc(data)
  {
    RegisterIsRfcUpdate(AllOnes, data);
    RegisterBelow(AllOnes, data);
    Pow2Constants();
    XorOnes(Register(AllOnes, data), 32);
  }
}
