/**
  The canonical text form of a frame (`toHex` / `hexToBytes` in `common.js`):
  one pair of lower-case hex digits per byte, pairs separated by single
  spaces. It is the form in which frames are stored and broadcast.
 */
module Hex {
  import opened Bytes
  import opened Text
  import opened Optional

  /** `bytes.map(b => b.toString(16).padStart(2, '0'))`. */
  function HexPairs(bytes: seq<byte>): (r: seq<string>)
    ensures |r| == |bytes|
    ensures forall i :: 0 <= i < |r| ==> r[i] == Hex2(bytes[i])
  {
    seq(|bytes|, i requires 0 <= i < |bytes| => Hex2(bytes[i]))
  }

  /** `toHex(bytes)`: the pairs joined by single spaces. */
  function ToHex(bytes: seq<byte>): string
  {
    Join(HexPairs(bytes), ' ')
  }

  /**
    `hexStr.replace(/\s+/g, '')`: every white-space character is removed and
    the others are kept in order (`StripSpacesAppend` gives the order).
   */
  function StripSpaces(s: string): (r: string)
    ensures |r| <= |s|
    ensures forall i :: 0 <= i < |r| ==> !IsJsSpace(r[i])
    ensures (forall i :: 0 <= i < |s| ==> !IsJsSpace(s[i])) ==> r == s
    ensures |s| == 1 ==> r == (if IsJsSpace(s[0]) then "" else s)
  {
    if |s| == 0 then ""
    else if IsJsSpace(s[0]) then StripSpaces(s[1..])
    else [s[0]] + StripSpaces(s[1..])
  }

  /**
    `hexToBytes(hexStr)`: white space is removed, then every pair of characters
    becomes one byte through `parseInt(pair, 16)` and the `Uint8Array` store; a
    trailing odd character is dropped (the array length `c.length / 2` is
    truncated) and a pair that does not parse stores 0.
   */
  function HexToBytes(hexStr: string): (r: seq<byte>)
    ensures |r| == |StripSpaces(hexStr)| / 2
  {
    var c := StripSpaces(hexStr);
    seq(|c| / 2, i requires 0 <= i < |c| / 2 => ToUint8(ParseInt(c[2 * i..2 * i + 2], 16)))
  }

  /** The digits of `ToHex(bytes)` without the separators. */
  function HexDigits(bytes: seq<byte>): (r: string)
    ensures |r| == 2 * |bytes|
  {
    if |bytes| == 0 then "" else Hex2(bytes[0]) + HexDigits(bytes[1..])
  }

  // ---------------------------------------------------------------------------
  // Properties

  lemma {:induction false} HexDigitsPair(bytes: seq<byte>, i: nat)
    requires i < |bytes|
    ensures HexDigits(bytes)[2 * i..2 * i + 2] == Hex2(bytes[i])
  {
    var h := Hex2(bytes[0]);
    var rest := HexDigits(bytes[1..]);
    assert HexDigits(bytes) == h + rest;
    if i > 0 {
      HexDigitsPair(bytes[1..], i - 1);
      assert bytes[1..][i - 1] == bytes[i];
      SliceAfter(h, rest, 2 * (i - 1), 2 * i);
    } else {
      assert (h + rest)[..2] == h;
    }
  }

  lemma SliceAfter<T>(x: seq<T>, y: seq<T>, a: nat, b: nat)
    requires a <= b <= |y|
    ensures (x + y)[|x| + a..|x| + b] == y[a..b]
  {
  }

  /** Stripping distributes over concatenation, so the kept characters stay in order. */
  lemma {:induction false} StripSpacesAppend(a: string, b: string)
    ensures StripSpaces(a + b) == StripSpaces(a) + StripSpaces(b)
  {
    if |a| > 0 {
      assert (a + b)[1..] == a[1..] + b;
      StripSpacesAppend(a[1..], b);
    } else {
      assert a + b == b;
    }
  }

  lemma StripHex2(b: byte)
    ensures StripSpaces(Hex2(b)) == Hex2(b)
  {
    var h := Hex2(b);
    assert !IsJsSpace(h[0]) && !IsJsSpace(h[1]);
    assert h[1..][1..] == [];
  }

  lemma {:induction false} StripToHex(bytes: seq<byte>)
    ensures StripSpaces(ToHex(bytes)) == HexDigits(bytes)
  {
    if |bytes| == 1 {
      StripHex2(bytes[0]);
      assert HexDigits(bytes[1..]) == "";
    } else if |bytes| > 1 {
      var pairs := HexPairs(bytes);
      assert pairs[1..] == HexPairs(bytes[1..]);
      assert ToHex(bytes) == Hex2(bytes[0]) + " " + ToHex(bytes[1..]);
      StripSpacesAppend(Hex2(bytes[0]) + " ", ToHex(bytes[1..]));
      StripSpacesAppend(Hex2(bytes[0]), " ");
      StripHex2(bytes[0]);
      assert StripSpaces(" ") == "";
      StripToHex(bytes[1..]);
    }
  }

  /** `hexToBytes(toHex(b))` is `b` for every byte sequence. */
  lemma {:induction false} HexRoundTrip(bytes: seq<byte>)
    ensures HexToBytes(ToHex(bytes)) == bytes
  {
    var s := ToHex(bytes);
    StripToHex(bytes);
    var r := HexToBytes(s);
    forall i | 0 <= i < |bytes|
      ensures r[i] == bytes[i]
    {
      PairByte(bytes, i);
    }
  }

  /** The byte `hexToBytes` reads from the `i`-th pair of digits. */
  lemma PairByte(bytes: seq<byte>, i: nat)
    requires i < |bytes|
    ensures ToUint8(ParseInt(HexDigits(bytes)[2 * i..2 * i + 2], 16)) == bytes[i]
  {
    HexDigitsPair(bytes, i);
    ParseHex2(bytes[i]);
  }

  /**
    The shape of `toHex(b)`: `3 * |b| - 1` characters, byte `i` as two
    lower-case hex digits at offset `3 * i`, a single space after every pair
    but the last.
   */
  lemma {:induction false} ToHexLayout(bytes: seq<byte>)
    ensures |ToHex(bytes)| == if |bytes| == 0 then 0 else 3 * |bytes| - 1
    ensures forall i :: 0 <= i < |bytes| ==> ToHex(bytes)[3 * i..3 * i + 2] == Hex2(bytes[i])
    ensures forall i :: 0 <= i < |bytes| - 1 ==> ToHex(bytes)[3 * i + 2] == ' '
  {
    if |bytes| > 1 {
      var pairs := HexPairs(bytes);
      assert pairs[1..] == HexPairs(bytes[1..]);
      var rest := ToHex(bytes[1..]);
      var h := ToHex(bytes);
      assert h == Hex2(bytes[0]) + " " + rest;
      ToHexLayout(bytes[1..]);
      forall i | 0 < i < |bytes|
        ensures h[3 * i..3 * i + 2] == Hex2(bytes[i])
      {
        assert h[3 * i..3 * i + 2] == rest[3 * (i - 1)..3 * (i - 1) + 2];
      }
      forall i | 0 < i < |bytes| - 1
        ensures h[3 * i + 2] == ' '
      {
        assert h[3 * i + 2] == rest[3 * (i - 1) + 2];
      }
    }
  }
}
