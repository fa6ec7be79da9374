/**
  Bitwise operators of JavaScript on non-negative numbers below 2^31, where
  they agree with the same operators on unbounded naturals: `^` is `Xor`,
  `x << k` is `x * 2^k`, `x & (2^k - 1)` is `x % 2^k`, and `x & 2^k != 0`
  tests bit `k`.
 */
module Bits {

  function Pow2(k: nat): (r: nat)
    ensures r > 0
  {
    if k == 0 then 1 else 2 * Pow2(k - 1)
  }

  /** `a ^ b`: bit `i` of the result is set when exactly one of the operands has it. */
  function Xor(a: nat, b: nat): nat
    decreases a + b
  {
    if a == 0 then b
    else if b == 0 then a
    else 2 * Xor(a / 2, b / 2) + (if a % 2 == b % 2 then 0 else 1)
  }

  /** Bit `k` of `x`: `x & 2^k != 0`. */
  predicate TestBit(x: nat, k: nat)
  {
    (x / Pow2(k)) % 2 == 1
  }

  // ---------------------------------------------------------------------------
  // Properties

  /** The lowest bit of `a ^ b` and the bits above it. */
  lemma XorSplit(a: nat, b: nat)
    ensures Xor(a, b) % 2 == (if a % 2 == b % 2 then 0 else 1)
    ensures Xor(a, b) / 2 == Xor(a / 2, b / 2)
  {
    if a == 0 {
      assert Xor(a / 2, b / 2) == b / 2;
    } else if b == 0 {
      assert Xor(a / 2, b / 2) == a / 2;
    } else {
      DivModUnique(Xor(a, b), 2, Xor(a / 2, b / 2), if a % 2 == b % 2 then 0 else 1);
    }
  }

  lemma {:induction false} XorComm(a: nat, b: nat)
    ensures Xor(a, b) == Xor(b, a)
    decreases a + b
  {
    if a != 0 && b != 0 {
      XorComm(a / 2, b / 2);
    }
  }

  /** XOR-ing the same value twice restores the original. */
  lemma {:induction false} XorTwice(a: nat, k: nat)
    ensures Xor(Xor(a, k), k) == a
    decreases a + k
  {
    var x := Xor(a, k);
    XorSplit(a, k);
    XorSplit(x, k);
    if a != 0 || k != 0 {
      if a / 2 + k / 2 < a + k {
        XorTwice(a / 2, k / 2);
      }
      assert Xor(x, k) == 2 * (Xor(x, k) / 2) + Xor(x, k) % 2;
    }
  }

  /** XOR with a fixed value is injective. */
  lemma XorCancel(a: nat, b: nat, k: nat)
    requires Xor(a, k) == Xor(b, k)
    ensures a == b
  {
    XorTwice(a, k);
    XorTwice(b, k);
  }

  /** Operands below 2^n have an XOR below 2^n. */
  lemma {:induction false} XorBound(a: nat, b: nat, n: nat)
    requires a < Pow2(n) && b < Pow2(n)
    ensures Xor(a, b) < Pow2(n)
  {
    if n > 0 && a != 0 && b != 0 {
      XorBound(a / 2, b / 2, n - 1);
    }
  }

  /** The low `n` bits of `a ^ b` are the XOR of the low `n` bits of each operand. */
  lemma {:induction false} XorLowBits(a: nat, b: nat, n: nat)
    ensures Xor(a, b) % Pow2(n) == Xor(a % Pow2(n), b % Pow2(n))
  {
    if n > 0 {
      var p := Pow2(n - 1);
      XorSplit(a, b);
      XorLowBits(a / 2, b / 2, n - 1);
      var x := Xor(a, b);
      HalfMod(x, p);
      HalfMod(a, p);
      HalfMod(b, p);
      XorSplit(a % (2 * p), b % (2 * p));
      var am := a % (2 * p);
      var bm := b % (2 * p);
      assert Xor(am, bm) == 2 * (Xor(am, bm) / 2) + Xor(am, bm) % 2;
    } else {
      assert Xor(0, 0) == 0;
    }
  }

  /** `x % (2p)` is twice `(x / 2) % p` plus the lowest bit of `x`. */
  lemma HalfMod(x: nat, p: nat)
    requires p > 0
    ensures x % (2 * p) == 2 * ((x / 2) % p) + x % 2
    ensures (x % (2 * p)) / 2 == (x / 2) % p && (x % (2 * p)) % 2 == x % 2
  {
    var q := (x / 2) / p;
    var r := (x / 2) % p;
    assert x == 2 * (x / 2) + x % 2;
    assert x / 2 == p * q + r;
    assert x == (2 * p) * q + (2 * r + x % 2);
    DivModUnique(x, 2 * p, q, 2 * r + x % 2);
    DivModUnique(2 * r + x % 2, 2, r, x % 2);
  }

  /** Dividing by `a`, then by `b`, is dividing by `a * b`. */
  lemma DivDiv(x: int, a: int, b: int)
    requires a > 0 && b > 0
    ensures x / a / b == x / (a * b)
  {
    var q1 := x / a;
    var r1 := x % a;
    var q2 := q1 / b;
    var r2 := q1 % b;
    assert x == a * q1 + r1;
    assert q1 == b * q2 + r2;
    assert x == (a * b) * q2 + (a * r2 + r1) by {
      assert a * q1 == a * (b * q2) + a * r2;
    }
    assert a * r2 <= a * (b - 1) by {
      MulMonotone(a, r2, b - 1);
    }
    DivModUnique(x, a * b, q2, a * r2 + r1);
  }

  lemma MulMonotone(a: int, x: int, y: int)
    requires a >= 0 && x <= y
    ensures a * x <= a * y
  {
    assert a * y - a * x == a * (y - x);
  }

  lemma ModOfSmall(x: int, m: int)
    requires 0 <= x < m
    ensures x % m == x
  {
    DivModUnique(x, m, 0, x);
  }

  lemma DivModUnique(v: int, d: int, q: int, r: int)
    requires 0 < d && 0 <= r < d && v == d * q + r
    ensures v / d == q && v % d == r
  {
    var q' := v / d;
    var r' := v % d;
    var k := q - q';
    assert d * k == r' - r by {
      assert d * k == d * q - d * q';
    }
    if k >= 1 {
      MulAtLeast(d, k);
    } else if k <= -1 {
      MulAtLeast(d, -k);
    }
  }

  lemma {:induction false} MulAtLeast(d: int, k: int)
    requires d > 0 && k >= 1
    ensures d * k >= d
  {
    if k > 1 {
      MulAtLeast(d, k - 1);
      assert d * k == d * (k - 1) + d;
    }
  }
}
