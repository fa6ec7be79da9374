/**
  Byte-level primitives of `common.js`: big-endian integers of a fixed width
  (`numToBytes`) and concatenation of byte sequences (`concatBytes`).

  JavaScript numbers are modelled as unbounded integers; the 32-bit signed
  arithmetic that the bitwise operators `&` and `>>=` impose is written out
  explicitly (`ToInt32`).
 */
module Bytes {
  import opened Bits

  /** One element of a `Uint8Array`. */
  type byte = x: int | 0 <= x < 256

  const TwoTo31: int := 0x8000_0000
  const TwoTo32: int := 0x1_0000_0000

  function Pow256(k: nat): (r: nat)
    ensures r > 0
  {
    if k == 0 then 1 else 256 * Pow256(k - 1)
  }

  /** The unsigned value of `s` read most significant byte first. */
  function BEValue(s: seq<byte>): (r: nat)
    ensures r < Pow256(|s|)
  {
    if |s| == 0 then 0 else BEValue(s[..|s| - 1]) * 256 + s[|s| - 1]
  }

  /** ECMAScript ToInt32 on an integral number: the operand of every bitwise operator. */
  function ToInt32(n: int): (r: int)
    ensures -TwoTo31 <= r < TwoTo31
    ensures r % TwoTo32 == n % TwoTo32
  {
    var m := n % TwoTo32;
    if m < TwoTo31 then m else m - TwoTo32
  }

  /** The signed 32-bit value of four big-endian bytes, as `(b0<<24)+(b1<<16)+(b2<<8)+b3` gives it. */
  function SignedBE32(s: seq<byte>): (r: int)
    requires |s| == 4
    ensures -TwoTo31 <= r < TwoTo31
    ensures r % TwoTo32 == BEValue(s)
  {
    ToInt32(BEValue(s))
  }

  /**
    The loop of `numToBytes`: the last of `k` bytes is `v & 0xff`, then `v >>= 8`.
    On a 32-bit signed value `v & 0xff` is the Euclidean `v % 256` and `v >> 8`
    is the floor division `v / 256`.
   */
  function ShiftOut(v: int, k: nat): (r: seq<byte>)
    ensures |r| == k
    decreases k
  {
    if k == 0 then [] else ShiftOut(v / 256, k - 1) + [v % 256]
  }

  /** `numToBytes(num, size)`: exactly `size` bytes, most significant first. */
  function NumToBytes(num: int, size: nat): (r: seq<byte>)
    ensures |r| == size
  {
    ShiftOut(ToInt32(num), size)
  }

  /** Storing an integer into a `Uint8Array` element: it wraps modulo 256. */
  function Uint8(x: int): byte
  {
    x % 256
  }

  /** `(v >> 8k) & 0xff`: byte `k` of the 32-bit value of `v`, counted from the least significant. */
  function ByteOf(v: int, k: nat): byte
  {
    (ToInt32(v) / Pow256(k)) % 256
  }

  /** `concatBytes(...arrs)`: the parts, in order, in one fresh sequence. */
  function Concat(parts: seq<seq<byte>>): (r: seq<byte>)
    ensures |r| == TotalLength(parts)
  {
    if |parts| == 0 then [] else parts[0] + Concat(parts[1..])
  }

  /** The length `concatBytes` allocates: `arrs.reduce((s, a) => s + a.length, 0)`. */
  function TotalLength(parts: seq<seq<byte>>): nat
  {
    if |parts| == 0 then 0 else |parts[0]| + TotalLength(parts[1..])
  }

  // ---------------------------------------------------------------------------
  // Arithmetic helpers

  lemma Pow256Values()
    ensures Pow256(1) == 256 && Pow256(2) == 0x1_0000
    ensures Pow256(3) == 0x100_0000 && Pow256(4) == TwoTo32
  {
    assert Pow256(0) == 1;
  }

  /** `(v / 256 % p) * 256 + v % 256 == v % (256 * p)`: one step of `ShiftOut`. */
  lemma ModOfProduct(v: int, p: int)
    requires p > 0
    ensures (v / 256 % p) * 256 + v % 256 == v % (256 * p)
  {
    var q := v / 256;
    var a := q / p;
    var b := q % p;
    assert v == 256 * q + v % 256;
    assert q == p * a + b;
    assert v == (256 * p) * a + (b * 256 + v % 256) by {
      assert 256 * q == 256 * (p * a) + 256 * b;
      assert 256 * (p * a) == (256 * p) * a;
    }
    assert 0 <= b * 256 + v % 256 < 256 * p by {
      assert b <= p - 1;
      assert b * 256 <= (p - 1) * 256;
    }
    DivModUnique(v, 256 * p, a, b * 256 + v % 256);
  }

  /** Two numbers congruent modulo 2^32 are congruent modulo every 256^size with size <= 4. */
  lemma ModOfDivisorOf32(x: int, y: int, size: nat)
    requires size <= 4
    requires x % TwoTo32 == y % TwoTo32
    ensures x % Pow256(size) == y % Pow256(size)
  {
    var p := Pow256(size);
    var c := TwoTo32 / p;
    assert p * c == TwoTo32 by {
      Pow256Values();
      if size == 0 {} else if size == 1 {} else if size == 2 {} else if size == 3 {} else {}
    }
    var m := x % TwoTo32;
    ModOfMultiple(x, TwoTo32, p, c);
    ModOfMultiple(y, TwoTo32, p, c);
  }

  /** Reducing modulo `m = p * c` first does not change the remainder modulo `p`. */
  lemma ModOfMultiple(x: int, m: int, p: int, c: int)
    requires p > 0 && c > 0 && m == p * c
    ensures (x % m) % p == x % p
  {
    var k := x / m;
    var r := x % m;
    assert x == m * k + r;
    var a := r / p;
    var b := r % p;
    assert r == p * a + b;
    assert x == p * (c * k + a) + b by {
      assert m * k == p * (c * k);
    }
    DivModUnique(x, p, c * k + a, b);
  }

  // ---------------------------------------------------------------------------
  // Properties

  /** Big-endian values determine equal-length byte sequences. */
  lemma {:induction false} BEValueInjective(a: seq<byte>, b: seq<byte>)
    requires |a| == |b|
    requires BEValue(a) == BEValue(b)
    ensures a == b
  {
    if |a| > 0 {
      var n := |a| - 1;
      DivModUnique(BEValue(a), 256, BEValue(a[..n]), a[n]);
      DivModUnique(BEValue(b), 256, BEValue(b[..n]), b[n]);
      BEValueInjective(a[..n], b[..n]);
      assert a == a[..n] + [a[n]];
      assert b == b[..n] + [b[n]];
    }
  }

  /** Writing back a value read from up to four bytes reproduces those bytes. */
  lemma NumToBytesOfBEValue(s: seq<byte>)
    requires |s| <= 4
    ensures NumToBytes(BEValue(s), |s|) == s
  {
    var r := NumToBytes(BEValue(s), |s|);
    BEValueOfNumToBytes(BEValue(s), |s|);
    ModOfSmall(BEValue(s), Pow256(|s|));
    BEValueInjective(r, s);
  }

  /** The same holds of the signed reading of four bytes (`seq`, `ack` and `len` in the decoder). */
  lemma NumToBytesOfSignedBE32(s: seq<byte>)
    requires |s| == 4
    ensures NumToBytes(SignedBE32(s), 4) == s
  {
    var x := SignedBE32(s);
    var r := NumToBytes(x, 4);
    Pow256Values();
    BEValueOfNumToBytes(x, 4);
    assert x % TwoTo32 == BEValue(s);
    BEValueInjective(r, s);
  }

  /** The bytes `ShiftOut` emits are the big-endian digits of `v` modulo 256^k. */
  lemma {:induction false} ShiftOutValue(v: int, k: nat)
    ensures BEValue(ShiftOut(v, k)) == v % Pow256(k)
    decreases k
  {
    if k > 0 {
      var front := ShiftOut(v / 256, k - 1);
      var r := ShiftOut(v, k);
      assert r[..|r| - 1] == front;
      ShiftOutValue(v / 256, k - 1);
      ModOfProduct(v, Pow256(k - 1));
    }
  }

  /**
    `NumToBytes(num, size)` holds the big-endian digits of `num` modulo
    256^size: silent truncation for every width up to four bytes, and for every
    width when `num` is a non-negative 32-bit signed value.
   */
  lemma BEValueOfNumToBytes(num: int, size: nat)
    requires size <= 4 || 0 <= num < TwoTo31
    ensures BEValue(NumToBytes(num, size)) == num % Pow256(size)
  {
    var v := ToInt32(num);
    ShiftOutValue(v, size);
    if size <= 4 {
      ModOfDivisorOf32(v, num, size);
    } else {
      ModOfSmall(num, TwoTo32);
      assert v == num;
    }
  }

  /** A signed 32-bit reading of `NumToBytes(n, 4)` gives back every `n` in the signed range. */
  lemma SignedBE32OfNumToBytes(num: int)
    requires -TwoTo31 <= num < TwoTo31
    ensures SignedBE32(NumToBytes(num, 4)) == num
  {
    Pow256Values();
    var r := NumToBytes(num, 4);
    BEValueOfNumToBytes(num, 4);
    if num >= 0 {
      ModOfSmall(num, TwoTo32);
    } else {
      DivModUnique(num, TwoTo32, -1, num + TwoTo32);
    }
  }

  /** A signed 32-bit reading of `NumToBytes(n, 4)` is `n` wrapped into the signed range. */
  lemma SignedBE32OfAnyNumToBytes(num: int)
    ensures SignedBE32(NumToBytes(num, 4)) == ToInt32(num)
  {
    Pow256Values();
    BEValueOfNumToBytes(num, 4);
    var m := num % TwoTo32;
    ModOfSmall(m, TwoTo32);
  }

  /** The two bytes of `NumToBytes(v, 2)` are the ones `(v >> 8) & 0xff` and `v & 0xff` give. */
  lemma NumToBytes2Digits(v: int)
    ensures NumToBytes(v, 2) == [ByteOf(v, 1), ByteOf(v, 0)]
  {
    Pow256Values();
    var x := ToInt32(v);
    assert ShiftOut(x, 2) == ShiftOut(x / 256, 1) + [x % 256];
    assert ShiftOut(x / 256, 1) == ShiftOut(x / 256 / 256, 0) + [(x / 256) % 256];
  }

  /** The four bytes of `NumToBytes(v, 4)` are `(v >> 24) & 0xff`, …, `v & 0xff`. */
  lemma NumToBytes4Digits(v: int)
    ensures NumToBytes(v, 4) == [ByteOf(v, 3), ByteOf(v, 2), ByteOf(v, 1), ByteOf(v, 0)]
  {
    Pow256Values();
    var x := ToInt32(v);
    DivDiv(x, 256, 256);
    DivDiv(x, 0x1_0000, 256);
    var x1 := x / 256;
    var x2 := x1 / 256;
    var x3 := x2 / 256;
    assert x2 == x / 0x1_0000;
    assert x3 == x / 0x100_0000;
    assert ShiftOut(x, 4) == ShiftOut(x1, 3) + [x % 256];
    assert ShiftOut(x1, 3) == ShiftOut(x2, 2) + [x1 % 256];
    assert ShiftOut(x2, 2) == ShiftOut(x3, 1) + [x2 % 256];
    assert ShiftOut(x3, 1) == ShiftOut(x3 / 256, 0) + [x3 % 256];
  }

  /**
    The contents of `Concat(parts)`: byte `j` of part `k` sits at offset
    `TotalLength(parts[..k]) + j`.
   */
  lemma {:induction false} ConcatIndex(parts: seq<seq<byte>>, k: nat, j: nat)
    requires k < |parts| && j < |parts[k]|
    ensures TotalLength(parts[..k]) + j < |Concat(parts)|
    ensures Concat(parts)[TotalLength(parts[..k]) + j] == parts[k][j]
  {
    if k > 0 {
      var tail := parts[1..];
      ConcatIndex(tail, k - 1, j);
      assert parts[..k][1..] == tail[..k - 1];
    }
  }

  lemma Concat2(a: seq<byte>, b: seq<byte>)
    ensures Concat([a, b]) == a + b
  {
    assert [a, b][1..] == [b];
    assert [b][1..] == [];
  }

  lemma Concat3(a: seq<byte>, b: seq<byte>, c: seq<byte>)
    ensures Concat([a, b, c]) == a + (b + c)
  {
    assert [a, b, c][1..] == [b, c];
    Concat2(b, c);
  }

  lemma Concat4(a: seq<byte>, b: seq<byte>, c: seq<byte>, d: seq<byte>)
    ensures Concat([a, b, c, d]) == a + (b + (c + d))
  {
    assert [a, b, c, d][1..] == [b, c, d];
    Concat3(b, c, d);
  }

  lemma Concat5(a: seq<byte>, b: seq<byte>, c: seq<byte>, d: seq<byte>, e: seq<byte>)
    ensures Concat([a, b, c, d, e]) == a + (b + (c + (d + e)))
  {
    assert [a, b, c, d, e][1..] == [b, c, d, e];
    Concat4(b, c, d, e);
  }

  lemma Concat6(a: seq<byte>, b: seq<byte>, c: seq<byte>, d: seq<byte>, e: seq<byte>, f: seq<byte>)
    ensures Concat([a, b, c, d, e, f]) == a + (b + (c + (d + (e + f))))
  {
    assert [a, b, c, d, e, f][1..] == [b, c, d, e, f];
    Concat5(b, c, d, e, f);
  }
}
