/**
  `checksum16` of `common.js`: the Internet checksum of RFC 1071, section 1.
  The input is summed as big-endian 16-bit words (an odd trailing byte is the
  high byte of a last word whose low byte is zero), every carry out of bit 15
  is added back in at once (end-around carry), and the result is the ones'
  complement of the sum.
 */
module Checksum {
  import opened Bits
  import opened Bytes

  const Modulus: nat := 0xFFFF

  /** The 16-bit word starting at byte `i`: `(bytes[i] << 8) + (bytes[i + 1] || 0)`. */
  function Word(bytes: seq<byte>, i: nat): (w: nat)
    requires i < |bytes|
    ensures w <= 0xFFFF
  {
    (bytes[i] as int) * 256 + (if i + 1 < |bytes| then bytes[i + 1] as int else 0)
  }

  /** The bytes after the word at the front. */
  function AfterWord(bytes: seq<byte>): (r: seq<byte>)
    requires |bytes| > 0
    ensures |r| < |bytes|
  {
    if |bytes| >= 2 then bytes[2..] else []
  }

  /** One step of the loop: `sum += w; sum = (sum & 0xFFFF) + (sum >>> 16)`. */
  function Fold(sum: nat, w: nat): (r: nat)
    requires sum <= 0xFFFF && w <= 0xFFFF
    ensures r <= 0xFFFF
  {
    var s := sum + w;
    s % 0x1_0000 + s / 0x1_0000
  }

  /** The running sum after folding in every word of `bytes`, starting from `sum`. */
  function SumFrom(sum: nat, bytes: seq<byte>): (r: nat)
    requires sum <= 0xFFFF
    ensures r <= 0xFFFF
    decreases |bytes|
  {
    if |bytes| == 0 then sum else SumFrom(Fold(sum, Word(bytes, 0)), AfterWord(bytes))
  }

  /** `checksum16(bytes)`: `(~sum) & 0xFFFF` of the folded sum. */
  function Checksum16(bytes: seq<byte>): (r: nat)
    ensures r <= 0xFFFF
  {
    0xFFFF - SumFrom(0, bytes)
  }

  /**
    The loop of `checksum16` as written: after every fold the running sum
    fits in 16 bits, and the complement is the 32-bit `~` under a 16-bit mask.
   */
  method ComputeChecksum16(bytes: seq<byte>) returns (r: nat)
    ensures r <= 0xFFFF
    ensures r == 0xFFFF - EndAround(WordSum(bytes))
  {
    var sum: nat := 0;
    var i: nat := 0;
    assert Rest(bytes, 0) == bytes;
    while i < |bytes|
      invariant sum <= 0xFFFF
      invariant SumFrom(sum, Rest(bytes, i)) == SumFrom(0, bytes)
    {
      var w := (bytes[i] as int) * 256 + (if i + 1 < |bytes| then bytes[i + 1] as int else 0);
      var s := sum + w;
      var next := s % 0x1_0000 + s / 0x1_0000;
      LoopStep(bytes, i, sum, w, next);
      sum := next;
      i := i + 2;
    }
    assert Rest(bytes, i) == [];
    ComplementMask(sum);
    r := (-(sum as int) - 1) % 0x1_0000;
    SumFromClosedForm(0, bytes);
  }

  /**
    `(~sum) & 0xFFFF`: on a 32-bit signed value `~x` is `-x - 1`, and masking
    with `0xFFFF` keeps the Euclidean remainder modulo 2^16; for a sum that
    fits in 16 bits that is `0xFFFF - sum`.
   */
  lemma ComplementMask(sum: nat)
    requires sum <= 0xFFFF
    ensures (-(sum as int) - 1) % 0x1_0000 == 0xFFFF - sum
  {
    DivModUnique(-(sum as int) - 1, 0x1_0000, -1, 0xFFFF - sum);
  }

  /** One iteration of the loop folds in the front word of what is left. */
  lemma LoopStep(bytes: seq<byte>, i: nat, sum: nat, w: int, next: int)
    requires i < |bytes| && sum <= 0xFFFF
    requires w == (bytes[i] as int) * 256 + (if i + 1 < |bytes| then bytes[i + 1] as int else 0)
    requires next == (sum + w) % 0x1_0000 + (sum + w) / 0x1_0000
    ensures 0 <= next <= 0xFFFF
    ensures SumFrom(sum, Rest(bytes, i)) == SumFrom(next, Rest(bytes, i + 2))
  {
    var rest := Rest(bytes, i);
    assert w == Word(rest, 0);
    assert next == Fold(sum, w);
    assert Rest(bytes, i + 2) == AfterWord(rest);
  }

  /** `bytes[i..]`, empty once `i` has stepped past the end. */
  function Rest(bytes: seq<byte>, i: nat): seq<byte>
  {
    if i <= |bytes| then bytes[i..] else []
  }

  // ---------------------------------------------------------------------------
  // Reference definition: the plain sum of the words and its end-around reduction

  /** The sum of all 16-bit words of `bytes`, without any folding. */
  function WordSum(bytes: seq<byte>): nat
    decreases |bytes|
  {
    if |bytes| == 0 then 0 else Word(bytes, 0) + WordSum(AfterWord(bytes))
  }

  /**
    The ones'-complement value of `x`: 0 only for 0, otherwise the number in
    1..0xFFFF congruent to `x` modulo 0xFFFF.
   */
  function EndAround(x: nat): (r: nat)
    ensures r <= 0xFFFF
    ensures r == 0 <==> x == 0
  {
    if x == 0 then 0 else (x - 1) % Modulus + 1
  }

  // ---------------------------------------------------------------------------
  // Properties

  lemma EndAroundSmall(x: nat)
    requires 0 < x <= 0xFFFF
    ensures EndAround(x) == x
  {
    ModOfSmall(x - 1, Modulus);
  }

  lemma EndAroundCongruent(x: nat)
    ensures EndAround(x) % Modulus == x % Modulus
  {
    if x > 0 {
      var q := (x - 1) / Modulus;
      var r := (x - 1) % Modulus;
      assert x == Modulus * q + (r + 1);
      if r + 1 < Modulus {
        DivModUnique(x, Modulus, q, r + 1);
        ModOfSmall(r + 1, Modulus);
      } else {
        DivModUnique(x, Modulus, q + 1, 0);
        DivModUnique(r + 1, Modulus, 1, 0);
      }
    }
  }

  /** For positive numbers `EndAround` depends only on the residue modulo 0xFFFF. */
  lemma EndAroundByResidue(x: nat, y: nat)
    requires x > 0 && y > 0 && x % Modulus == y % Modulus
    ensures EndAround(x) == EndAround(y)
  {
    var qx := x / Modulus;
    var qy := y / Modulus;
    var m := x % Modulus;
    if m == 0 {
      DivModUnique(x - 1, Modulus, qx - 1, Modulus - 1);
      DivModUnique(y - 1, Modulus, qy - 1, Modulus - 1);
    } else {
      DivModUnique(x - 1, Modulus, qx, m - 1);
      DivModUnique(y - 1, Modulus, qy, m - 1);
    }
  }

  lemma FoldIsEndAround(sum: nat, w: nat)
    requires sum <= 0xFFFF && w <= 0xFFFF
    ensures Fold(sum, w) == EndAround(sum + w)
  {
    var s := sum + w;
    if s == 0 {
    } else if s < 0x1_0000 {
      EndAroundSmall(s);
    } else {
      DivModUnique(s, 0x1_0000, 1, s - 0x1_0000);
      DivModUnique(s - 1, Modulus, 1, s - 1 - Modulus);
    }
  }

  lemma AddCongruent(a: nat, b: nat, w: nat)
    requires a % Modulus == b % Modulus
    ensures (a + w) % Modulus == (b + w) % Modulus
  {
    var qa := a / Modulus;
    var qb := b / Modulus;
    var r := a % Modulus;
    var s := (r + w) % Modulus;
    var t := (r + w) / Modulus;
    assert a + w == Modulus * (qa + t) + s;
    assert b + w == Modulus * (qb + t) + s;
    DivModUnique(a + w, Modulus, qa + t, s);
    DivModUnique(b + w, Modulus, qb + t, s);
  }

  /**
    RFC 1071's closed form of the folded sum: starting from `sum`, the loop
    ends on the ones'-complement value of `sum` plus all the words.
   */
  lemma {:induction false} SumFromClosedForm(sum: nat, bytes: seq<byte>)
    requires sum <= 0xFFFF
    ensures SumFrom(sum, bytes) == EndAround(sum + WordSum(bytes))
    decreases |bytes|
  {
    if |bytes| == 0 {
      if sum > 0 {
        EndAroundSmall(sum);
      }
    } else {
      var w := Word(bytes, 0);
      var rest := AfterWord(bytes);
      var f := Fold(sum, w);
      assert SumFrom(sum, bytes) == SumFrom(f, rest);
      assert WordSum(bytes) == w + WordSum(rest);
      FoldIsEndAround(sum, w);
      SumFromClosedForm(f, rest);
      EndAroundAssoc(sum + w, WordSum(rest));
    }
  }

  /** Adding a sum of words to an end-around value: `EndAround(EndAround(x) + y) == EndAround(x + y)`. */
  lemma EndAroundAssoc(x: nat, y: nat)
    ensures EndAround(EndAround(x) + y) == EndAround(x + y)
  {
    if x > 0 {
      var e := EndAround(x);
      EndAroundCongruent(x);
      AddCongruent(e, x, y);
      EndAroundByResidue(e + y, x + y);
    }
  }

  /** `checksum16` is the ones' complement of the ones'-complement sum of the words. */
  lemma ChecksumClosedForm(bytes: seq<byte>)
    ensures Checksum16(bytes) == 0xFFFF - EndAround(WordSum(bytes))
  {
    SumFromClosedForm(0, bytes);
  }

  lemma {:induction false} WordSumPadded(bytes: seq<byte>)
    requires |bytes| % 2 == 1
    ensures WordSum(bytes + [0]) == WordSum(bytes)
    decreases |bytes|
  {
    var padded := bytes + [0];
    if |bytes| == 1 {
      assert AfterWord(padded) == [];
    } else {
      assert AfterWord(padded) == AfterWord(bytes) + [0];
      assert Word(padded, 0) == Word(bytes, 0);
      WordSumPadded(AfterWord(bytes));
    }
  }

  /** An odd-length input checksums like the same input with a zero byte appended. */
  lemma ChecksumOddPadding(bytes: seq<byte>)
    requires |bytes| % 2 == 1
    ensures Checksum16(bytes + [0]) == Checksum16(bytes)
  {
    WordSumPadded(bytes);
    ChecksumClosedForm(bytes);
    ChecksumClosedForm(bytes + [0]);
  }

  /** The weight of byte `p` in its word: high byte at even offsets, low byte at odd ones. */
  function Weight(p: nat): nat
  {
    if p % 2 == 0 then 256 else 1
  }

  /** Changing the byte at `p` from `a[p]` to `v` moves the plain word sum by `(v - a[p]) * Weight(p)`. */
  lemma {:induction false} WordSumUpdate(a: seq<byte>, p: nat, v: byte)
    requires p < |a|
    ensures WordSum(a[p := v]) == WordSum(a) + (v - a[p]) * Weight(p)
    decreases |a|
  {
    var b := a[p := v];
    if p < 2 {
      assert AfterWord(b) == AfterWord(a);
    } else {
      assert AfterWord(b) == AfterWord(a)[p - 2 := v];
      assert Word(b, 0) == Word(a, 0);
      WordSumUpdate(AfterWord(a), p - 2, v);
      assert Weight(p - 2) == Weight(p);
    }
  }

  lemma EndAroundDistinct(x: nat, y: nat)
    requires x < y < x + Modulus
    ensures EndAround(x) != EndAround(y)
  {
    if x > 0 {
      var q := (x - 1) / Modulus;
      var r := (x - 1) % Modulus;
      var d := y - x;
      if r + d < Modulus {
        DivModUnique(y - 1, Modulus, q, r + d);
      } else {
        DivModUnique(y - 1, Modulus, q + 1, r + d - Modulus);
      }
    }
  }

  /**
    The checksum detects every change of a single byte: two inputs of the same
    length that differ in exactly one byte have different checksums.
   */
  lemma ChecksumDetectsByteChange(a: seq<byte>, b: seq<byte>, p: nat)
    requires |a| == |b| && p < |a| && a[p] != b[p]
    requires forall i :: 0 <= i < |a| && i != p ==> a[i] == b[i]
    ensures Checksum16(a) != Checksum16(b)
  {
    assert b == a[p := b[p]];
    WordSumUpdate(a, p, b[p]);
    ChecksumClosedForm(a);
    ChecksumClosedForm(b);
    var d := (b[p] - a[p]) * Weight(p);
    assert -0xFF00 <= d <= 0xFF00 && d != 0;
    if d > 0 {
      EndAroundDistinct(WordSum(a), WordSum(b));
    } else {
      EndAroundDistinct(WordSum(b), WordSum(a));
    }
  }
}
