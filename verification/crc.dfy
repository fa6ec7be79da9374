/**
  `crc16` of `common.js`: the frame check sequence. It is the CRC-16 with
  generator polynomial 0x1021 (x^16 + x^12 + x^5 + 1), register preset to
  0xFFFF, bytes fed most significant bit first and no final XOR, the
  variant catalogued as CRC-16/CCITT-FALSE.

  The register stays below 2^16 (every pass ends with `crc &= 0xFFFF`), so
  the bitwise operators act on it as on naturals (see `Bits`).
 */
module Crc {
  import opened Bits
  import opened Bytes

  const Preset: nat := 0xFFFF

  /** One pass of the inner loop: shift left, XOR in the polynomial when bit 15 was set, mask. */
  function Shift(c: nat): (r: nat)
    ensures r <= 0xFFFF
  {
    if TestBit(c, 15) then Xor(c * 2, 0x1021) % 0x1_0000 else (c * 2) % 0x1_0000
  }

  /** `n` passes of the inner loop. */
  function ShiftN(c: nat, n: nat): nat
    decreases n
  {
    if n == 0 then c else ShiftN(Shift(c), n - 1)
  }

  /** The outer loop's body for byte `b`: `crc ^= b << 8`, then eight passes. */
  function Update(c: nat, b: byte): nat
  {
    ShiftN(Xor(c, (b as nat) * 256), 8)
  }

  /** The register after feeding `bytes` in order into a register holding `c`. */
  function CrcFrom(c: nat, bytes: seq<byte>): nat
    decreases |bytes|
  {
    if |bytes| == 0 then c else CrcFrom(Update(c, bytes[0]), bytes[1..])
  }

  /** `crc16(bytes)`: the register after all of `bytes`, from the preset; 0xFFFF for no bytes. */
  function Crc16(bytes: seq<byte>): (r: nat)
    ensures r <= 0xFFFF
    ensures |bytes| == 0 ==> r == Preset
  {
    CrcFromBound(Preset, bytes);
    CrcFrom(Preset, bytes)
  }

  /** The loops of `crc16` as written. */
  method ComputeCrc16(bytes: seq<byte>) returns (crc: nat)
    ensures crc <= 0xFFFF
    ensures crc == Crc16(bytes)
  {
    crc := 0xFFFF;
    var k := 0;
    assert bytes[0..] == bytes;
    while k < |bytes|
      invariant k <= |bytes|
      invariant crc <= 0xFFFF
      invariant CrcFrom(crc, bytes[k..]) == Crc16(bytes)
    {
      ghost var before := crc;
      crc := Xor(crc, (bytes[k] as nat) * 256);
      ghost var mixed := crc;
      var i := 0;
      while i < 8
        invariant i <= 8
        invariant crc == ShiftN(mixed, i)
      {
        ShiftNStep(mixed, i);
        if TestBit(crc, 15) {
          crc := Xor(crc * 2, 0x1021);
        } else {
          crc := crc * 2;
        }
        crc := crc % 0x1_0000;
        i := i + 1;
      }
      assert crc == Update(before, bytes[k]);
      assert bytes[k..][1..] == bytes[k + 1..];
      k := k + 1;
    }
  }

  // ---------------------------------------------------------------------------
  // Properties

  /** One more pass after `n` passes is `n + 1` passes. */
  lemma {:induction false} ShiftNStep(c: nat, n: nat)
    ensures ShiftN(c, n + 1) == Shift(ShiftN(c, n))
    decreases n
  {
    if n > 0 {
      ShiftNStep(Shift(c), n - 1);
    }
  }

  /** A 16-bit register stays one through any number of passes. */
  lemma {:induction false} ShiftNBound(c: nat, n: nat)
    requires c <= 0xFFFF
    ensures ShiftN(c, n) <= 0xFFFF
    decreases n
  {
    if n > 0 {
      ShiftNBound(Shift(c), n - 1);
    }
  }

  /** The checksum is a 16-bit value. */
  lemma {:induction false} CrcFromBound(c: nat, bytes: seq<byte>)
    requires c <= 0xFFFF
    ensures CrcFrom(c, bytes) <= 0xFFFF
    decreases |bytes|
  {
    if |bytes| > 0 {
      UpdateBound(c, bytes[0]);
      CrcFromBound(Update(c, bytes[0]), bytes[1..]);
    }
  }

  lemma Pow2Values()
    ensures Pow2(15) == 0x8000 && Pow2(16) == 0x1_0000
  {
    assert Pow2(4) == 16;
    assert Pow2(8) == 256;
    assert Pow2(12) == 0x1000;
  }

  /** Bit 15 of the register before a pass is bit 0 after it (the polynomial's constant term). */
  lemma ShiftLowBit(c: nat)
    ensures Shift(c) % 2 == (if TestBit(c, 15) then 1 else 0)
  {
    var d := c * 2;
    assert d % 2 == 0;
    if TestBit(c, 15) {
      var x := Xor(d, 0x1021);
      assert x % 2 == 1 by {
        XorSplit(d, 0x1021);
      }
      ModOfMultiple(x, 0x1_0000, 2, 0x8000);
      assert Shift(c) == x % 0x1_0000;
    } else {
      ModOfMultiple(d, 0x1_0000, 2, 0x8000);
      assert Shift(c) == d % 0x1_0000;
    }
  }

  /** On a 16-bit register, bit 15 is set exactly from 0x8000 up. */
  lemma TopBit(c: nat)
    requires c <= 0xFFFF
    ensures TestBit(c, 15) <==> c >= 0x8000
  {
    Pow2Values();
    if c >= 0x8000 {
      DivModUnique(c, 0x8000, 1, c - 0x8000);
    } else {
      DivModUnique(c, 0x8000, 0, c);
    }
  }

  /** Doubling a 16-bit register and masking drops bit 15. */
  lemma DoubledLow(c: nat)
    requires c <= 0xFFFF
    ensures (c * 2) % 0x1_0000 == if c >= 0x8000 then c * 2 - 0x1_0000 else c * 2
  {
    if c >= 0x8000 {
      DivModUnique(c * 2, 0x1_0000, 1, c * 2 - 0x1_0000);
    } else {
      DivModUnique(c * 2, 0x1_0000, 0, c * 2);
    }
  }

  /** One pass loses no information: distinct 16-bit registers stay distinct. */
  lemma ShiftInjective(a: nat, b: nat)
    requires a <= 0xFFFF && b <= 0xFFFF
    requires Shift(a) == Shift(b)
    ensures a == b
  {
    ShiftLowBit(a);
    ShiftLowBit(b);
    TopBit(a);
    TopBit(b);
    DoubledLow(a);
    DoubledLow(b);
    if TestBit(a, 15) {
      Pow2Values();
      XorLowBits(a * 2, 0x1021, 16);
      XorLowBits(b * 2, 0x1021, 16);
      ModOfSmall(0x1021, 0x1_0000);
      XorCancel((a * 2) % 0x1_0000, (b * 2) % 0x1_0000, 0x1021);
    }
  }

  lemma {:induction false} ShiftNInjective(a: nat, b: nat, n: nat)
    requires a <= 0xFFFF && b <= 0xFFFF
    requires ShiftN(a, n) == ShiftN(b, n)
    ensures a == b
    decreases n
  {
    if n > 0 {
      ShiftNInjective(Shift(a), Shift(b), n - 1);
      ShiftInjective(a, b);
    }
  }

  /** `crc ^ (b << 8)` stays a 16-bit register. */
  lemma MixBound(c: nat, b: byte)
    requires c <= 0xFFFF
    ensures Xor(c, (b as nat) * 256) <= 0xFFFF
  {
    Pow2Values();
    XorBound(c, (b as nat) * 256, 16);
  }

  /** Feeding a byte keeps a 16-bit register one. */
  lemma UpdateBound(c: nat, b: byte)
    requires c <= 0xFFFF
    ensures Update(c, b) <= 0xFFFF
  {
    MixBound(c, b);
    ShiftNBound(Xor(c, (b as nat) * 256), 8);
  }

  /** Feeding the same byte into different registers leaves different registers. */
  lemma UpdateInjectiveInRegister(a: nat, b: nat, x: byte)
    requires a <= 0xFFFF && b <= 0xFFFF
    requires Update(a, x) == Update(b, x)
    ensures a == b
  {
    MixBound(a, x);
    MixBound(b, x);
    ShiftNInjective(Xor(a, (x as nat) * 256), Xor(b, (x as nat) * 256), 8);
    XorCancel(a, b, (x as nat) * 256);
  }

  /** Feeding different bytes into the same register leaves different registers. */
  lemma UpdateInjectiveInByte(c: nat, x: byte, y: byte)
    requires c <= 0xFFFF
    requires Update(c, x) == Update(c, y)
    ensures x == y
  {
    MixBound(c, x);
    MixBound(c, y);
    ShiftNInjective(Xor(c, (x as nat) * 256), Xor(c, (y as nat) * 256), 8);
    XorComm(c, (x as nat) * 256);
    XorComm(c, (y as nat) * 256);
    XorCancel((x as nat) * 256, (y as nat) * 256, c);
  }

  /** Different registers fed the same bytes end different: no suffix can mask a difference. */
  lemma {:induction false} CrcFromInjective(a: nat, b: nat, bytes: seq<byte>)
    requires a <= 0xFFFF && b <= 0xFFFF
    requires CrcFrom(a, bytes) == CrcFrom(b, bytes)
    ensures a == b
    decreases |bytes|
  {
    if |bytes| > 0 {
      var x := bytes[0];
      UpdateBound(a, x);
      UpdateBound(b, x);
      CrcFromInjective(Update(a, x), Update(b, x), bytes[1..]);
      UpdateInjectiveInRegister(a, b, x);
    }
  }

  /** The register after `a + b` is the register after `a`, then fed `b`. */
  lemma {:induction false} CrcFromAppend(c: nat, a: seq<byte>, b: seq<byte>)
    ensures CrcFrom(c, a + b) == CrcFrom(CrcFrom(c, a), b)
    decreases |a|
  {
    if |a| > 0 {
      assert (a + b)[1..] == a[1..] + b;
      CrcFromAppend(Update(c, a[0]), a[1..], b);
    } else {
      assert a + b == b;
    }
  }

  /**
    The frame check sequence detects every change of a single byte: two
    inputs of the same length that differ in exactly one byte have different
    CRCs.
   */
  lemma CrcDetectsByteChange(a: seq<byte>, b: seq<byte>, p: nat)
    requires |a| == |b| && p < |a| && a[p] != b[p]
    requires forall i :: 0 <= i < |a| && i != p ==> a[i] == b[i]
    ensures Crc16(a) != Crc16(b)
  {
    var tail := a[p + 1..];
    assert a[..p] == b[..p];
    assert tail == b[p + 1..];
    assert a == a[..p] + ([a[p]] + tail);
    assert b == b[..p] + ([b[p]] + tail);
    var c := CrcFrom(Preset, a[..p]);
    CrcFromBound(Preset, a[..p]);
    CrcFromAppend(Preset, a[..p], [a[p]] + tail);
    CrcFromAppend(Preset, b[..p], [b[p]] + tail);
    assert ([a[p]] + tail)[1..] == tail;
    assert ([b[p]] + tail)[1..] == tail;
    var ua := Update(c, a[p]);
    var ub := Update(c, b[p]);
    if CrcFrom(ua, tail) == CrcFrom(ub, tail) {
      UpdateBound(c, a[p]);
      UpdateBound(c, b[p]);
      CrcFromInjective(ua, ub, tail);
      UpdateInjectiveInByte(c, a[p], b[p]);
    }
  }
}
