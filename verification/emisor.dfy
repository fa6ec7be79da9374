/**
  The pure steps of the sender page, `emisor.js`: the automatic destination
  of broadcast and multicast transmissions, the assembly of the four
  headers with the transport checksum over the pseudo-header, and the
  one-bit error the page can inject into a built frame.

  The form's fields, the payload (the chosen file or the encoded text), the
  random sequence number and the random draw of the error position are
  parameters.
 */
module Emisor {
  import opened Optional
  import opened Bits
  import opened Bytes
  import opened Text
  import opened Addresses
  import opened Checksum
  import opened Frame

  datatype Destination = Destination(ip: string, mac: string)

  const BroadcastIp: string := "255.255.255.255"
  const BroadcastMac: string := "FF:FF:FF:FF:FF:FF"

  /** The multicast group the page sends to. */
  const MulticastGroup: string := "239.1.1.1"

  /** `ip.split('.').map(n => parseInt(n, 10))`. */
  function GroupParts(ip: string): (r: seq<Option<int>>)
    ensures |r| == |Split(ip, '.')|
  {
    var parts := Split(ip, '.');
    seq(|parts|, i requires 0 <= i < |parts| => ParseInt(parts[i], 10))
  }

  /**
    The MAC address of a multicast group: `01:00:5E`, then the second
    octet masked with `0x7F` and the last two octets, each as two hex
    digits, the whole upper-cased.
   */
  function GroupMac(o1: byte, o2: byte, o3: byte): string
  {
    ToUpper("01:00:5E:" + Hex2(o1 % 128) + ":" + Hex2(o2) + ":" + Hex2(o3))
  }

  /**
    `autoDst`: broadcast and multicast transmissions get their destination
    addresses from the transmission type, every other type keeps the
    addresses of the form (`null`, modelled as `None`).
   */
  function AutoDst(txType: string): (r: Option<Destination>)
    ensures r.Some? <==> txType == "broadcast" || txType == "multicast"
  {
    if txType == "broadcast" then Some(Destination(BroadcastIp, BroadcastMac))
    else if txType == "multicast" then
      var parts := GroupParts(MulticastGroup);
      GroupOctets();
      Some(Destination(MulticastGroup, GroupMac(parts[1].value, parts[2].value, parts[3].value)))
    else None
  }

  // ---------------------------------------------------------------------------
  // Destinations

  /** The group address splits into four decimal numbers, all bytes. */
  lemma GroupOctets()
    ensures GroupParts(MulticastGroup) == [Some(239), Some(1), Some(1), Some(1)]
  {
    GroupSplit();
    ParsedOctets(Split(MulticastGroup, '.'));
  }

  lemma GroupSplit()
    ensures Split(MulticastGroup, '.') == ["239", "1", "1", "1"]
  {
    assert Join(["239", "1", "1", "1"], '.') == MulticastGroup;
    SplitJoin(["239", "1", "1", "1"], '.');
  }

  lemma ParsedOctets(parts: seq<string>)
    requires parts == ["239", "1", "1", "1"]
    ensures seq(|parts|, i requires 0 <= i < |parts| => ParseInt(parts[i], 10))
      == [Some(239), Some(1), Some(1), Some(1)]
  {
    Parse239();
    Parse1();
  }

  lemma Parse239()
    ensures ParseInt("239", 10) == Some(239)
  {
    Decimal239();
    ParseDecimal(239);
  }

  lemma Parse1()
    ensures ParseInt("1", 10) == Some(1)
  {
    assert Decimal(1) == "1";
    ParseDecimal(1);
  }

  lemma Decimal239()
    ensures Decimal(239) == "239"
  {
  }

  lemma Decimal255()
    ensures Decimal(255) == "255"
  {
  }

  /** The broadcast destination is the all-ones IPv4 address and the all-ones MAC address. */
  lemma BroadcastDestination()
    ensures AutoDst("broadcast").Some?
    ensures var d := AutoDst("broadcast").value;
      IpToBytes(d.ip) == [255, 255, 255, 255] && d.ip == FormatIp([255, 255, 255, 255])
      && MacToBytes(d.mac) == [255, 255, 255, 255, 255, 255]
      && d.mac == FormatMac([255, 255, 255, 255, 255, 255])
  {
    BroadcastIpText();
    BroadcastMacText();
    IpRoundTrip([255, 255, 255, 255]);
    MacRoundTrip([255, 255, 255, 255, 255, 255]);
  }

  lemma BroadcastIpText()
    ensures FormatIp([255, 255, 255, 255]) == BroadcastIp
  {
    AllOnesIpText(255);
  }

  lemma AllOnesIpText(b: byte)
    requires b == 255
    ensures FormatIp([b, b, b, b]) == BroadcastIp
  {
    FormatIp4(b, b, b, b);
    Decimal255();
  }

  lemma BroadcastMacText()
    ensures FormatMac([255, 255, 255, 255, 255, 255]) == BroadcastMac
  {
    FormatMac6(255, 255, 255, 255, 255, 255);
    assert UpperHex2(255) == "FF";
  }

  /**
    The low 23 bits of a group address, as three bytes: the part of the
    group that section 6.4 of RFC 1112 places into the MAC address.
   */
  function Low23(group: seq<byte>): (r: seq<byte>)
    requires |group| == 4
    ensures |r| == 3 && BEValue(r) == BEValue(group) % 0x80_0000
  {
    var v := BEValue(group) % 0x80_0000;
    Pow256Values();
    BEValueOfNumToBytes(v, 3);
    ModOfSmall(v, Pow256(3));
    NumToBytes(v, 3)
  }

  /** The low 23 bits of a group address are its second byte without the top bit and its last two bytes. */
  lemma Low23Bytes(group: seq<byte>)
    requires |group| == 4
    ensures Low23(group) == [group[1] % 128, group[2], group[3]]
  {
    var s: seq<byte> := [group[1] % 128, group[2], group[3]];
    var a, b := group[0] as int, group[1] as int;
    var v := BEValue(group);
    BEValue4(group);
    BEValue3(s);
    assert v == 0x80_0000 * (a * 2 + b / 128) + BEValue(s);
    DivModUnique(v, 0x80_0000, a * 2 + b / 128, BEValue(s));
    NumToBytesOfBEValue(s);
  }

  lemma BEValue3(s: seq<byte>)
    requires |s| == 3
    ensures BEValue(s) == (s[0] as int) * 0x1_0000 + (s[1] as int) * 256 + s[2] as int
  {
    var s2 := s[..2];
    var s1 := s2[..1];
    assert s[..|s| - 1] == s2 && s2[..|s2| - 1] == s1 && s1[..0] == [];
    assert BEValue(s1) == s[0] as int;
    assert BEValue(s2) == (s[0] as int) * 256 + s[1] as int;
  }

  lemma BEValue4(s: seq<byte>)
    requires |s| == 4
    ensures BEValue(s) == (s[0] as int) * 0x100_0000 + (s[1] as int) * 0x1_0000 + (s[2] as int) * 256 + s[3] as int
  {
    BEValue3(s[..3]);
  }

  /** The RFC 1112 multicast MAC of a group: `01:00:5E` and the group's low 23 bits. */
  function MulticastMac(group: seq<byte>): (r: seq<byte>)
    requires |group| == 4
    ensures |r| == 6 && r[..3] == [0x01, 0x00, 0x5E] && BEValue(r[3..]) == BEValue(group) % 0x80_0000
  {
    var r := [0x01, 0x00, 0x5E] + Low23(group);
    assert r[3..] == Low23(group);
    r
  }

  /** The text `autoDst` builds for a group is the colon-hex form of the RFC 1112 MAC. */
  lemma GroupMacFormat(o0: byte, o1: byte, o2: byte, o3: byte)
    ensures GroupMac(o1, o2, o3) == FormatMac(MulticastMac([o0, o1, o2, o3]))
  {
    Low23Bytes([o0, o1, o2, o3]);
    assert MulticastMac([o0, o1, o2, o3]) == [0x01, 0x00, 0x5E, o1 % 128, o2, o3];
    GroupMacUpper(o1 % 128, o2, o3);
    MulticastMacText(o1 % 128, o2, o3);
  }

  lemma GroupMacUpper(x: byte, y: byte, z: byte)
    ensures ToUpper("01:00:5E:" + Hex2(x) + ":" + Hex2(y) + ":" + Hex2(z))
      == "01:00:5E:" + UpperHex2(x) + ":" + UpperHex2(y) + ":" + UpperHex2(z)
  {
    PrefixUpper();
    UpperParts("01:00:5E:", ":", x, y, z);
  }

  lemma PrefixUpper()
    ensures ToUpper("01:00:5E:") == "01:00:5E:" && ToUpper(":") == ":"
  {
    ToUpperNoLetters("01:00:5E:");
    ToUpperNoLetters(":");
  }

  lemma UpperParts(prefix: string, colon: string, x: byte, y: byte, z: byte)
    requires ToUpper(prefix) == prefix && ToUpper(colon) == colon
    ensures ToUpper(prefix + Hex2(x) + colon + Hex2(y) + colon + Hex2(z))
      == prefix + UpperHex2(x) + colon + UpperHex2(y) + colon + UpperHex2(z)
  {
    var h1, h2, h3 := Hex2(x), Hex2(y), Hex2(z);
    ToUpperHex2(x);
    ToUpperHex2(y);
    ToUpperHex2(z);
    ToUpperAppend(prefix + h1 + colon + h2 + colon, h3);
    ToUpperAppend(prefix + h1 + colon + h2, colon);
    ToUpperAppend(prefix + h1 + colon, h2);
    ToUpperAppend(prefix + h1, colon);
    ToUpperAppend(prefix, h1);
  }

  lemma MulticastMacText(x: byte, y: byte, z: byte)
    ensures FormatMac([0x01, 0x00, 0x5E, x, y, z])
      == "01:00:5E:" + UpperHex2(x) + ":" + UpperHex2(y) + ":" + UpperHex2(z)
  {
    FormatMac6(0x01, 0x00, 0x5E, x, y, z);
    PrefixDigits();
  }

  lemma PrefixDigits()
    ensures UpperHex2(0x01) == "01" && UpperHex2(0x00) == "00" && UpperHex2(0x5E) == "5E"
  {
  }

  /** `autoDst('multicast')`: the group and the MAC of its octets. */
  lemma AutoDstMulticast()
    ensures AutoDst("multicast") == Some(Destination(MulticastGroup, GroupMac(1, 1, 1)))
  {
    GroupOctets();
  }

  /**
    The multicast destination is the group 239.1.1.1, an address of the
    multicast range 224.0.0.0/4, and its MAC address is the one section 6.4
    of RFC 1112 maps the group to: `01:00:5E:01:01:01`.
   */
  lemma MulticastDestination()
    ensures AutoDst("multicast").Some?
    ensures var d := AutoDst("multicast").value;
      var group := IpToBytes(d.ip);
      group == [239, 1, 1, 1] && 224 <= group[0] < 240
      && d.mac == FormatMac(MulticastMac(group))
      && MacToBytes(d.mac) == MulticastMac(group)
      && d.mac == "01:00:5E:01:01:01"
  {
    AutoDstMulticast();
    GroupAddress();
    GroupMacAddress();
  }

  lemma GroupAddress()
    ensures IpToBytes(MulticastGroup) == [239, 1, 1, 1]
  {
    GroupIpText();
    IpRoundTrip([239, 1, 1, 1]);
  }

  lemma GroupMacAddress()
    ensures GroupMac(1, 1, 1) == FormatMac(MulticastMac([239, 1, 1, 1]))
    ensures MulticastMac([239, 1, 1, 1]) == [0x01, 0x00, 0x5E, 1, 1, 1]
    ensures MacToBytes(GroupMac(1, 1, 1)) == MulticastMac([239, 1, 1, 1])
    ensures GroupMac(1, 1, 1) == "01:00:5E:01:01:01"
  {
    GroupMacBytes(239, 1);
    GroupMacText(239, 1);
    GroupMacParses(239, 1);
  }

  // The three lemmas below take the octets as variables, so that the solver
  // does not evaluate the functions on literals.

  lemma GroupMacBytes(a: byte, b: byte)
    requires a == 239 && b == 1
    ensures MulticastMac([a, b, b, b]) == [0x01, 0x00, 0x5E, b, b, b]
  {
    Low23Bytes([a, b, b, b]);
  }

  lemma GroupMacText(a: byte, b: byte)
    requires a == 239 && b == 1
    ensures GroupMac(b, b, b) == FormatMac(MulticastMac([a, b, b, b]))
    ensures GroupMac(b, b, b) == "01:00:5E:01:01:01"
  {
    GroupMacFormat(a, b, b, b);
    GroupMacBytes(a, b);
    GroupMacDigits(b);
  }

  lemma GroupMacDigits(b: byte)
    requires b == 1
    ensures FormatMac([0x01, 0x00, 0x5E, b, b, b]) == "01:00:5E:01:01:01"
  {
    MulticastMacText(b, b, b);
    assert UpperHex2(b) == "01";
  }

  lemma GroupMacParses(a: byte, b: byte)
    requires a == 239 && b == 1
    ensures MacToBytes(GroupMac(b, b, b)) == MulticastMac([a, b, b, b])
  {
    GroupMacFormat(a, b, b, b);
    MacRoundTrip(MulticastMac([a, b, b, b]));
  }

  lemma GroupIpText()
    ensures FormatIp([239, 1, 1, 1]) == MulticastGroup
  {
    FormatIp4(239, 1, 1, 1);
    Decimal239();
    assert Decimal(1) == "1";
  }

  // ---------------------------------------------------------------------------
  // Encapsulation

  /** The fields of the sender form `encapsulate` reads, as the text the page holds. */
  datatype Form = Form(
    contentType: seq<byte>, txType: string,
    srcIP: string, dstIP: string, srcMAC: string, dstMAC: string,
    srcPort: string, dstPort: string, ttl: string)

  /** `parseInt(s, 10) || d`: `NaN` and 0 are both falsy and give the default. */
  function NumberOr(s: string, d: int): (r: int)
    ensures r == 0 ==> d == 0
  {
    match ParseInt(s, 10)
    case Some(n) => if n == 0 then d else n
    case None => d
  }

  /** The destination addresses: the automatic ones, or else the form's, trimmed. */
  function ChosenDestination(f: Form): Destination
  {
    match AutoDst(f.txType)
    case Some(d) => d
    case None => Destination(Trim(f.dstIP), Trim(f.dstMAC))
  }

  /**
    The transport header: ports from the form (4000 and 5000 by default),
    the drawn sequence number, no acknowledgement, only SYN set, and the
    checksum of the pseudo-header followed by the payload. The ensures is
    the fact the lemmas below consume, not a specification of its own.
   */
  function Transport(f: Form, payload: seq<byte>, seqNo: int): (r: TransHeader)
    ensures r.checksum == Checksum16(PseudoHeader(r) + payload)
  {
    var t := TransHeader(NumberOr(f.srcPort, 4000), NumberOr(f.dstPort, 5000), seqNo, 0,
                         Flags(true, false, false), 0);
    t.(checksum := Checksum16(PseudoHeader(t) + payload))
  }

  /**
    The argument `encapsulate` passes to `buildFrame`: the declared length
    is the payload length, IPv4 (version 4) carrying UDP (protocol 17), a
    TTL of 64 by default, and an IPv4 EtherType (0x0800). Like `Transport`,
    its ensures only hands the lemmas below the facts they consume;
    `EncapsulateAccepted` and `EncapsulateRoundTrip` state what it means.
   */
  function Encapsulate(f: Form, payload: seq<byte>, seqNo: int): (r: FrameInput)
    ensures r.app.len == |r.payload| && r.payload == payload
    ensures r.trans.checksum == Checksum16(PseudoHeader(r.trans) + r.payload)
  {
    var dst := ChosenDestination(f);
    FrameInput(
      AppHeader(f.contentType, |payload|),
      Transport(f, payload, seqNo),
      NetHeader(4, NumberOr(f.ttl, 64), 17, Trim(f.srcIP), dst.ip),
      LinkHeader(Trim(f.srcMAC), dst.mac, 0x0800),
      payload)
  }

  /** Source addresses that parse to the right number of bytes, and a destination that does too. */
  predicate AddressesWellFormed(f: Form)
  {
    |IpToBytes(Trim(f.srcIP))| == 4 && |MacToBytes(Trim(f.srcMAC))| == 6
    && (AutoDst(f.txType).None? ==> |IpToBytes(Trim(f.dstIP))| == 4 && |MacToBytes(Trim(f.dstMAC))| == 6)
  }

  /** The automatic destinations parse to four and six bytes. */
  lemma ChosenDestinationParses(f: Form)
    requires AddressesWellFormed(f)
    ensures |IpToBytes(ChosenDestination(f).ip)| == 4 && |MacToBytes(ChosenDestination(f).mac)| == 6
  {
    if f.txType == "broadcast" {
      BroadcastDestination();
    } else if f.txType == "multicast" {
      MulticastDestination();
    }
  }

  /**
    What the sender builds the receiver accepts: with well-formed
    addresses, a content type without NUL and a payload below 2^31 bytes,
    the frame validates, and the content type, payload and ports come back
    as they went in, the addresses as the dotted form of their bytes.
   */
  lemma EncapsulateAccepted(f: Form, payload: seq<byte>, seqNo: int)
    requires AddressesWellFormed(f) && 0 !in f.contentType && |payload| < TwoTo31
    ensures var p := Encapsulate(f, payload, seqNo);
      Accepted(BuildFrame(p).frame)
      && ValidateFrame(BuildFrame(p).frame) == Success(Report(
           true, f.contentType, payload,
           FormatIp(IpToBytes(Trim(f.srcIP))), FormatIp(IpToBytes(ChosenDestination(f).ip)),
           NumberOr(f.srcPort, 4000) % 0x1_0000, NumberOr(f.dstPort, 5000) % 0x1_0000))
  {
    var p := Encapsulate(f, payload, seqNo);
    ChosenDestinationParses(f);
    assert WellFormed(p);
    ValidateBuildFrame(p);
    SignedBE32OfNumToBytes(|payload|);
    ModOfSmall(p.trans.checksum, 0x1_0000);
  }

  /**
    With addresses written in their canonical text (dotted decimal, as the
    receiver renders them) and ports in range, the receiver reports exactly
    the addresses, ports, content type and payload the sender used.
   */
  lemma EncapsulateRoundTrip(f: Form, payload: seq<byte>, seqNo: int, src: seq<byte>, dst: seq<byte>)
    requires |src| == 4 && |dst| == 4
    requires Trim(f.srcIP) == FormatIp(src) && ChosenDestination(f).ip == FormatIp(dst)
    requires |MacToBytes(Trim(f.srcMAC))| == 6 && |MacToBytes(ChosenDestination(f).mac)| == 6
    requires 0 <= NumberOr(f.srcPort, 4000) <= 0xFFFF && 0 <= NumberOr(f.dstPort, 5000) <= 0xFFFF
    requires 0 !in f.contentType && |payload| < TwoTo31
    ensures var p := Encapsulate(f, payload, seqNo);
      ValidateFrame(BuildFrame(p).frame) == Success(Report(
        true, f.contentType, payload, Trim(f.srcIP), ChosenDestination(f).ip,
        NumberOr(f.srcPort, 4000), NumberOr(f.dstPort, 5000)))
  {
    FrameRoundTrip(Encapsulate(f, payload, seqNo), src, dst);
  }

  // ---------------------------------------------------------------------------
  // Error injection

  /**
    The byte `introduceError` flips a bit of: `Math.max(20, draw)`, where
    `draw` stands for `Math.floor(Math.random() * bytes.length)`.
   */
  function ErrorPosition(draw: nat): (pos: nat)
    ensures pos >= 20 && (draw >= 20 ==> pos == draw)
    ensures draw < 20 ==> pos == 20
  {
    if draw < 20 then 20 else draw
  }

  /** `b ^ 0x01`: the lowest bit toggled, the others kept. */
  function FlipLowBit(b: byte): (r: byte)
    ensures r / 2 == b / 2 && r % 2 != b % 2
  {
    XorSplit(b, 1);
    Xor(b, 1)
  }

  /**
    `introduceError`: the lowest bit of byte `ErrorPosition(draw)` is
    toggled; a position past the end of the frame leaves it unchanged
    (a typed array ignores the store). The draw is below the frame length,
    or 0 for an empty frame.
   */
  function IntroduceError(frame: seq<byte>, draw: nat): (r: seq<byte>)
    requires draw < |frame| || draw == 0
    ensures |r| == |frame|
    ensures forall i :: 0 <= i < |frame| && i != ErrorPosition(draw) ==> r[i] == frame[i]
    ensures ErrorPosition(draw) < |frame| ==>
      r[ErrorPosition(draw)] / 2 == frame[ErrorPosition(draw)] / 2
      && r[ErrorPosition(draw)] % 2 != frame[ErrorPosition(draw)] % 2
  {
    var pos := ErrorPosition(draw);
    if pos < |frame| then frame[pos := FlipLowBit(frame[pos])] else frame
  }

  /** Flipping the same bit twice restores the frame. */
  lemma IntroduceErrorTwice(frame: seq<byte>, draw: nat)
    requires draw < |frame| || draw == 0
    ensures IntroduceError(IntroduceError(frame, draw), draw) == frame
  {
    var pos := ErrorPosition(draw);
    if pos < |frame| {
      XorTwice(frame[pos], 1);
    }
  }

  /**
    The injected error never touches the FCS (bytes 14 and 15), and the
    receiver always notices it: a frame that was accepted is rejected once
    a bit of it has been flipped.
   */
  lemma ErrorDetected(frame: seq<byte>, draw: nat)
    requires Accepted(frame) && draw < |frame|
    ensures ErrorPosition(draw) >= 16
    ensures !Accepted(IntroduceError(frame, draw))
  {
    AcceptedFcs(frame);
    var pos := ErrorPosition(draw);
    SingleByteChangeRejected(frame, IntroduceError(frame, draw), pos);
  }
}
