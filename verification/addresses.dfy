/**
  Address text forms: `ipToBytes` (dotted quad) and `macToBytes` (colon
  separated hex pairs) of `common.js`, and the renderings the codec's
  callers use to show them: `Array.from(ip).join('.')` in the decoder and
  upper-case colon-hex MAC strings in the sender.
 */
module Addresses {
  import opened Bytes
  import opened Text

  /** Every text component stored into a `Uint8Array` through `parseInt(x, radix)`. */
  function ParsedComponents(parts: seq<string>, radix: nat): (r: seq<byte>)
    requires 2 <= radix <= 36
    ensures |r| == |parts|
  {
    seq(|parts|, i requires 0 <= i < |parts| => ToUint8(ParseInt(parts[i], radix)))
  }

  /**
    `ipToBytes(ip)`: one byte per dot-separated component, read in base 10.
    A component that does not parse stores 0 and a value past 255 wraps; an
    address with other than four components gives other than four bytes.
   */
  function IpToBytes(ip: string): (r: seq<byte>)
    ensures |r| == |Split(ip, '.')|
  {
    ParsedComponents(Split(ip, '.'), 10)
  }

  /** `macToBytes(mac)`: one byte per colon-separated component, read in base 16. */
  function MacToBytes(mac: string): (r: seq<byte>)
    ensures |r| == |Split(mac, ':')|
  {
    ParsedComponents(Split(mac, ':'), 16)
  }

  /** `Array.from(ip).join('.')`: the decimal values joined by dots. */
  function FormatIp(ip: seq<byte>): string
  {
    Join(seq(|ip|, i requires 0 <= i < |ip| => Decimal(ip[i])), '.')
  }

  /** The colon-separated, upper-case two-digit form of a hardware address. */
  function FormatMac(mac: seq<byte>): string
  {
    Join(seq(|mac|, i requires 0 <= i < |mac| => UpperHex2(mac[i])), ':')
  }

  // ---------------------------------------------------------------------------
  // Properties

  /** A rendered IPv4 address parses back to its bytes. */
  lemma IpRoundTrip(ip: seq<byte>)
    requires |ip| >= 1
    ensures IpToBytes(FormatIp(ip)) == ip
  {
    var parts := seq(|ip|, i requires 0 <= i < |ip| => Decimal(ip[i]));
    forall i | 0 <= i < |parts|
      ensures '.' !in parts[i]
    {
      var d := Decimal(ip[i]);
      assert forall k :: 0 <= k < |d| ==> '0' <= d[k] <= '9';
    }
    SplitJoin(parts, '.');
    var r := IpToBytes(FormatIp(ip));
    forall i | 0 <= i < |ip|
      ensures r[i] == ip[i]
    {
      ParseDecimal(ip[i]);
      StoreByte(ip[i], ParseInt(parts[i], 10));
    }
  }

  /** A rendered hardware address parses back to its bytes. */
  lemma MacRoundTrip(mac: seq<byte>)
    requires |mac| >= 1
    ensures MacToBytes(FormatMac(mac)) == mac
  {
    var parts := seq(|mac|, i requires 0 <= i < |mac| => UpperHex2(mac[i]));
    forall i | 0 <= i < |parts|
      ensures ':' !in parts[i]
    {
      var h := UpperHex2(mac[i]);
      assert h == [h[0], h[1]];
    }
    SplitJoin(parts, ':');
    var r := MacToBytes(FormatMac(mac));
    forall i | 0 <= i < |mac|
      ensures r[i] == mac[i]
    {
      ParseUpperHex2(mac[i]);
    }
  }

  /** The text of a four-byte address: four decimal numbers between dots. */
  lemma FormatIp4(a: byte, b: byte, c: byte, d: byte)
    ensures FormatIp([a, b, c, d]) == Decimal(a) + "." + Decimal(b) + "." + Decimal(c) + "." + Decimal(d)
  {
    var ip: seq<byte> := [a, b, c, d];
    var parts := seq(|ip|, i requires 0 <= i < |ip| => Decimal(ip[i]));
    assert parts == [Decimal(a), Decimal(b), Decimal(c), Decimal(d)];
    Join4(parts, '.');
  }

  /** The text of a six-byte address: six pairs of upper-case hex digits between colons. */
  lemma FormatMac6(a: byte, b: byte, c: byte, d: byte, e: byte, f: byte)
    ensures FormatMac([a, b, c, d, e, f])
      == UpperHex2(a) + ":" + UpperHex2(b) + ":" + UpperHex2(c) + ":"
         + UpperHex2(d) + ":" + UpperHex2(e) + ":" + UpperHex2(f)
  {
    var mac: seq<byte> := [a, b, c, d, e, f];
    var parts := seq(|mac|, i requires 0 <= i < |mac| => UpperHex2(mac[i]));
    assert parts == [UpperHex2(a), UpperHex2(b), UpperHex2(c), UpperHex2(d), UpperHex2(e), UpperHex2(f)];
    Join6(parts, ':');
  }
}
