/**
  The pieces of JavaScript string handling the codec's text forms rely on:
  `String.prototype.split` and `Array.prototype.join` on one separator
  character, `parseInt(s, radix)`, `Number.prototype.toString` in base 10
  and 16 with `padStart(2, '0')`, the `\s` character class and the
  `Uint8Array` element conversion.
 */
module Text {
  import opened Optional
  import opened Bytes

  /**
    The ECMAScript WhiteSpace and LineTerminator code points: the characters
    the regular expression class `\s` matches and `parseInt` skips.
   */
  predicate IsJsSpace(c: char)
  {
    var n := c as int;
    n == 0x09 || n == 0x0A || n == 0x0B || n == 0x0C || n == 0x0D || n == 0x20
    || n == 0xA0 || n == 0x1680 || (0x2000 <= n <= 0x200A)
    || n == 0x2028 || n == 0x2029 || n == 0x202F || n == 0x205F
    || n == 0x3000 || n == 0xFEFF
  }

  /** The value of `c` as a digit in the largest radix, 36 when `c` is no digit at all. */
  function DigitValue(c: char): (d: nat)
    ensures d <= 36
    ensures d < 10 <==> '0' <= c <= '9'
  {
    if '0' <= c <= '9' then c as int - '0' as int
    else if 'a' <= c <= 'z' then c as int - 'a' as int + 10
    else if 'A' <= c <= 'Z' then c as int - 'A' as int + 10
    else 36
  }

  predicate IsDigit(c: char, radix: nat)
  {
    DigitValue(c) < radix
  }

  /** `s` without its leading white space. */
  function TrimStart(s: string): (r: string)
    ensures |r| > 0 ==> !IsJsSpace(r[0])
  {
    if |s| > 0 && IsJsSpace(s[0]) then TrimStart(s[1..]) else s
  }

  /** `s` without its trailing white space. */
  function TrimEnd(s: string): (r: string)
    ensures |r| <= |s| && r == s[..|r|]
    ensures |r| > 0 ==> !IsJsSpace(r[|r| - 1])
  {
    if |s| > 0 && IsJsSpace(s[|s| - 1]) then TrimEnd(s[..|s| - 1]) else s
  }

  /** `s.trim()`: `s` without white space at either end. */
  function Trim(s: string): (r: string)
    ensures |r| > 0 ==> !IsJsSpace(r[0]) && !IsJsSpace(r[|r| - 1])
  {
    TrimEnd(TrimStart(s))
  }

  /** The longest prefix of `s` made of digits in `radix`. */
  function DigitRun(s: string, radix: nat): string
  {
    if |s| > 0 && IsDigit(s[0], radix) then [s[0]] + DigitRun(s[1..], radix) else []
  }

  /** The value of a digit string in `radix`, most significant digit first. */
  function DigitsValue(ds: string, radix: nat): nat
  {
    if |ds| == 0 then 0 else DigitsValue(ds[..|ds| - 1], radix) * radix + DigitValue(ds[|ds| - 1])
  }

  /**
    `parseInt(s, radix)` for a radix the caller names (2 to 36): leading white
    space is skipped, one sign is read, in radix 16 a `0x`/`0X` prefix is
    dropped, and the longest run of digits is read; no digit at all is `NaN`,
    modelled as `None`.
   */
  function ParseInt(s: string, radix: nat): Option<int>
    requires 2 <= radix <= 36
  {
    var t := TrimStart(s);
    var sign := if |t| > 0 && t[0] == '-' then -1 else 1;
    var digits := DigitRun(Unprefixed(Unsigned(t), radix), radix);
    if |digits| == 0 then None else Some(sign * DigitsValue(digits, radix))
  }

  /** `t` without one leading sign character. */
  function Unsigned(t: string): string
  {
    if |t| > 0 && (t[0] == '-' || t[0] == '+') then t[1..] else t
  }

  /** In radix 16, `u` without a leading `0x` or `0X`. */
  function Unprefixed(u: string, radix: nat): string
  {
    if radix == 16 && |u| >= 2 && u[0] == '0' && (u[1] == 'x' || u[1] == 'X') then u[2..] else u
  }

  /** Storing a number into a `Uint8Array` element: `NaN` becomes 0, integers wrap modulo 256. */
  function ToUint8(v: Option<int>): byte
  {
    match v
    case None => 0
    case Some(x) => Uint8(x)
  }

  // ---------------------------------------------------------------------------
  // Rendering numbers

  function LowerHexDigit(d: nat): (c: char)
    requires d < 16
    ensures DigitValue(c) == d && IsLowerHex(c)
  {
    "0123456789abcdef"[d]
  }

  function UpperHexDigit(d: nat): (c: char)
    requires d < 16
    ensures DigitValue(c) == d && IsUpperHex(c)
  {
    "0123456789ABCDEF"[d]
  }

  /** A hex digit as `toString(16)` writes it. */
  predicate IsLowerHex(c: char)
  {
    '0' <= c <= '9' || 'a' <= c <= 'f'
  }

  /** A hex digit after `toUpperCase()`. */
  predicate IsUpperHex(c: char)
  {
    '0' <= c <= '9' || 'A' <= c <= 'F'
  }

  /** `b.toString(16).padStart(2, '0')`: two lower-case hex digits. */
  function Hex2(b: byte): (r: string)
    ensures |r| == 2 && IsLowerHex(r[0]) && IsLowerHex(r[1])
    ensures DigitValue(r[0]) * 16 + DigitValue(r[1]) == b
  {
    [LowerHexDigit(b / 16), LowerHexDigit(b % 16)]
  }

  /** The same two digits after `toUpperCase()`. */
  function UpperHex2(b: byte): (r: string)
    ensures |r| == 2 && IsUpperHex(r[0]) && IsUpperHex(r[1])
    ensures DigitValue(r[0]) * 16 + DigitValue(r[1]) == b
  {
    [UpperHexDigit(b / 16), UpperHexDigit(b % 16)]
  }

  /**
    `n.toString()` (base 10) for a non-negative integer below 10^21, where
    JavaScript writes every digit; from 10^21 on it switches to exponent
    notation, which this does not model. The codec renders only bytes.
   */
  function Decimal(n: nat): (r: string)
    ensures |r| >= 1
    ensures forall i :: 0 <= i < |r| ==> '0' <= r[i] <= '9'
  {
    if n < 10 then [LowerHexDigit(n)] else Decimal(n / 10) + [LowerHexDigit(n % 10)]
  }

  /** `toUpperCase()` on the ASCII letters the codec's addresses contain. */
  function ToUpper(s: string): (r: string)
    ensures |r| == |s|
    ensures forall i :: 0 <= i < |s| ==> DigitValue(r[i]) == DigitValue(s[i])
  {
    if |s| == 0 then []
    else
      var c := s[0];
      var u := if 'a' <= c <= 'z' then (c as int - 'a' as int + 'A' as int) as char else c;
      [u] + ToUpper(s[1..])
  }

  // ---------------------------------------------------------------------------
  // split and join on one character

  /** `s.split(sep)`: the pieces between separators; an empty string gives one empty piece. */
  function Split(s: string, sep: char): (r: seq<string>)
    ensures |r| >= 1
    ensures forall i :: 0 <= i < |r| ==> sep !in r[i]
  {
    if |s| == 0 then [""]
    else
      var rest := Split(s[1..], sep);
      if s[0] == sep then [""] + rest else [[s[0]] + rest[0]] + rest[1..]
  }

  /** `parts.join(sep)`. */
  function Join(parts: seq<string>, sep: char): string
  {
    if |parts| == 0 then ""
    else if |parts| == 1 then parts[0]
    else parts[0] + [sep] + Join(parts[1..], sep)
  }

  // ---------------------------------------------------------------------------
  // Properties

  /** Joining the pieces of a split gives back the original string. */
  lemma {:induction false} JoinSplit(s: string, sep: char)
    ensures Join(Split(s, sep), sep) == s
  {
    if |s| > 0 {
      var rest := Split(s[1..], sep);
      JoinSplit(s[1..], sep);
      if s[0] == sep {
        assert Split(s, sep) == [""] + rest;
        assert ([""] + rest)[1..] == rest;
        assert s == [sep] + s[1..];
      } else {
        var r := Split(s, sep);
        assert r == [[s[0]] + rest[0]] + rest[1..];
        if |rest| == 1 {
          assert s == [s[0]] + s[1..];
        } else {
          assert r[1..] == rest[1..];
          assert Join(rest, sep) == rest[0] + [sep] + Join(rest[1..], sep);
          assert s == [s[0]] + s[1..];
        }
      }
    }
  }

  lemma {:induction false} SplitPiece(a: string, sep: char)
    requires sep !in a
    ensures Split(a, sep) == [a]
  {
    if |a| > 0 {
      SplitPiece(a[1..], sep);
      assert [a[0]] + a[1..] == a;
    }
  }

  lemma {:induction false} SplitPieceThen(a: string, sep: char, t: string)
    requires sep !in a
    ensures Split(a + [sep] + t, sep) == [a] + Split(t, sep)
  {
    var s := a + [sep] + t;
    if |a| == 0 {
      assert s == [sep] + t;
      assert s[1..] == t;
    } else {
      assert s[1..] == a[1..] + [sep] + t;
      SplitPieceThen(a[1..], sep, t);
      assert [a[0]] + a[1..] == a;
    }
  }

  /** Splitting a join of separator-free pieces gives back the pieces. */
  lemma {:induction false} SplitJoin(parts: seq<string>, sep: char)
    requires |parts| >= 1
    requires forall i :: 0 <= i < |parts| ==> sep !in parts[i]
    ensures Split(Join(parts, sep), sep) == parts
  {
    if |parts| == 1 {
      SplitPiece(parts[0], sep);
    } else {
      SplitJoin(parts[1..], sep);
      SplitPieceThen(parts[0], sep, Join(parts[1..], sep));
      assert parts == [parts[0]] + parts[1..];
    }
  }

  lemma {:induction false} DigitsValueAppend(ds: string, c: char, radix: nat)
    ensures DigitsValue(ds + [c], radix) == DigitsValue(ds, radix) * radix + DigitValue(c)
  {
    assert (ds + [c])[..|ds|] == ds;
  }

  /**
    `parseInt` of a string that is nothing but digits of `radix` (and not a
    `0x` prefix) is the value of those digits.
   */
  lemma ParseDigits(s: string, radix: nat)
    requires 2 <= radix <= 36
    requires |s| >= 1 && forall i :: 0 <= i < |s| ==> IsDigit(s[i], radix)
    requires radix == 16 && |s| >= 2 ==> s[1] != 'x' && s[1] != 'X'
    ensures ParseInt(s, radix) == Some(DigitsValue(s, radix))
  {
    assert !IsJsSpace(s[0]) by {
      assert DigitValue(s[0]) < 36;
    }
    assert TrimStart(s) == s;
    assert s[0] != '-' && s[0] != '+';
    assert Unsigned(s) == s;
    assert Unprefixed(s, radix) == s;
    DigitRunAll(s, radix);
  }

  /** `parseInt(n.toString(), 10)` gives `n` back. */
  lemma ParseDecimal(n: nat)
    ensures ParseInt(Decimal(n), 10) == Some(n)
  {
    ParseDigits(Decimal(n), 10);
    DecimalValue(n);
  }

  lemma {:induction false} DecimalValue(n: nat)
    ensures DigitsValue(Decimal(n), 10) == n
  {
    if n >= 10 {
      DecimalValue(n / 10);
      DigitsValueAppend(Decimal(n / 10), LowerHexDigit(n % 10), 10);
    }
  }

  /** A string made only of digits is its own digit run. */
  lemma {:induction false} DigitRunAll(s: string, radix: nat)
    requires forall i :: 0 <= i < |s| ==> IsDigit(s[i], radix)
    ensures DigitRun(s, radix) == s
  {
    if |s| > 0 {
      DigitRunAll(s[1..], radix);
      assert [s[0]] + s[1..] == s;
    }
  }

  lemma HexPairValue(h: string)
    requires |h| == 2
    ensures DigitsValue(h, 16) == DigitValue(h[0]) * 16 + DigitValue(h[1])
  {
    assert h[..1] == [h[0]];
    assert h[..1][..0] == [];
    assert DigitsValue(h[..1], 16) == DigitValue(h[0]);
  }

  lemma HexDigitIsNotX(c: char)
    requires IsDigit(c, 16)
    ensures c != 'x' && c != 'X'
  {
    assert DigitValue('x') == 33 && DigitValue('X') == 33;
  }

  lemma ParseHexDigits(h: string)
    requires |h| == 2 && IsDigit(h[0], 16) && IsDigit(h[1], 16)
    requires h[1] != 'x' && h[1] != 'X'
    ensures ParseInt(h, 16) == Some(DigitsValue(h, 16))
  {
    ParseDigits(h, 16);
  }

  /** `parseInt(h, 16)` of two hex digits gives their value: both renderings of a byte parse back. */
  lemma {:induction false} ParseHexPair(h: string)
    requires |h| == 2 && IsDigit(h[0], 16) && IsDigit(h[1], 16)
    ensures ParseInt(h, 16).Some? && ParseInt(h, 16).value == DigitValue(h[0]) * 16 + DigitValue(h[1])
  {
    HexDigitIsNotX(h[1]);
    ParseHexDigits(h);
    HexPairValue(h);
  }

  lemma ParseHex2(b: byte)
    ensures ParseInt(Hex2(b), 16).Some? && ParseInt(Hex2(b), 16).value == b
    ensures ToUint8(ParseInt(Hex2(b), 16)) == b
  {
    var h := Hex2(b);
    assert IsDigit(h[0], 16) && IsDigit(h[1], 16);
    ParseHexPair(h);
    StoreByte(b, ParseInt(h, 16));
  }

  lemma ParseUpperHex2(b: byte)
    ensures ParseInt(UpperHex2(b), 16).Some? && ParseInt(UpperHex2(b), 16).value == b
    ensures ToUint8(ParseInt(UpperHex2(b), 16)) == b
  {
    var h := UpperHex2(b);
    assert IsDigit(h[0], 16) && IsDigit(h[1], 16);
    ParseHexPair(h);
    StoreByte(b, ParseInt(h, 16));
  }

  /** Storing a parsed number that is already a byte leaves it unchanged. */
  lemma StoreByte(b: byte, v: Option<int>)
    requires v.Some? && v.value == b
    ensures ToUint8(v) == b
  {
  }

  /** `toUpperCase` distributes over concatenation. */
  lemma {:induction false} ToUpperAppend(a: string, b: string)
    ensures ToUpper(a + b) == ToUpper(a) + ToUpper(b)
  {
    if |a| > 0 {
      assert (a + b)[1..] == a[1..] + b;
      ToUpperAppend(a[1..], b);
    } else {
      assert a + b == b;
    }
  }

  /** `toUpperCase` leaves a string without lower-case letters as it is. */
  lemma {:induction false} ToUpperNoLetters(s: string)
    requires forall i :: 0 <= i < |s| ==> !('a' <= s[i] <= 'z')
    ensures ToUpper(s) == s
  {
    if |s| > 0 {
      ToUpperNoLetters(s[1..]);
    }
  }

  /** Upper-casing the two lower-case hex digits of a byte gives its upper-case digits. */
  lemma ToUpperHex2(b: byte)
    ensures ToUpper(Hex2(b)) == UpperHex2(b)
  {
    UpperDigit(b / 16);
    UpperDigit(b % 16);
    ToUpperAppend([LowerHexDigit(b / 16)], [LowerHexDigit(b % 16)]);
  }

  lemma UpperDigit(d: nat)
    requires d < 16
    ensures ToUpper([LowerHexDigit(d)]) == [UpperHexDigit(d)]
  {
    assert [LowerHexDigit(d)][1..] == [];
  }

  /** `parts.join(sep)` for four parts. */
  lemma Join4(p: seq<string>, sep: char)
    requires |p| == 4
    ensures Join(p, sep) == p[0] + [sep] + p[1] + [sep] + p[2] + [sep] + p[3]
  {
    assert p[1..][1..] == p[2..];
    assert p[2..][1..] == p[3..];
    assert Join(p[3..], sep) == p[3];
    assert Join(p[2..], sep) == p[2] + [sep] + p[3];
  }

  /** `parts.join(sep)` for six parts. */
  lemma Join6(p: seq<string>, sep: char)
    requires |p| == 6
    ensures Join(p, sep) == p[0] + [sep] + p[1] + [sep] + p[2] + [sep] + p[3] + [sep] + p[4] + [sep] + p[5]
  {
    assert p[1..][1..] == p[2..];
    assert p[2..][1..] == p[3..];
    assert p[3..][1..] == p[4..];
    assert p[4..][1..] == p[5..];
    assert Join(p[5..], sep) == p[5];
    assert Join(p[4..], sep) == p[4] + [sep] + p[5];
    assert Join(p[3..], sep) == p[3] + [sep] + p[4] + [sep] + p[5];
    assert Join(p[2..], sep) == p[2] + [sep] + p[3] + [sep] + p[4] + [sep] + p[5];
  }
}
