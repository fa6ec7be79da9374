/**
  `buildFrame` and `validateFrame` of `common.js`: the four headers and the
  payload serialised into one buffer, and the buffer read back and checked.

  Byte layout of a frame whose addresses are well formed (offsets in bytes):

      0  source MAC (6)        6  destination MAC (6)   12  type (2)
     14  FCS: CRC-16 of every other byte (2)
     16  version << 4 (1)     17  TTL (1)              18  protocol (1)
     19  source IP (4)        23  destination IP (4)
     27  source port (2)      29  destination port (2)
     31  sequence number (4)  35  acknowledgement (4)
     39  flags (1)            40  transport checksum (2)
     42  content type, NUL-terminated, then the payload length (4)
         and the payload.
 */
module Frame {
  import opened Optional
  import opened Bits
  import opened Bytes
  import opened Text
  import opened Addresses
  import opened Checksum
  import opened Crc

  /** The transport flags; `buildFrame` packs them as `SYN | ACK << 1 | FIN << 2`. */
  datatype Flags = Flags(syn: bool, ack: bool, fin: bool)

  datatype AppHeader = AppHeader(contentType: seq<byte>, len: int)

  datatype TransHeader = TransHeader(
    srcPort: int, dstPort: int, seqNo: int, ackNo: int, flags: Flags, checksum: int)

  datatype NetHeader = NetHeader(version: int, ttl: int, proto: int, srcIP: string, dstIP: string)

  /** The link header; its `fcs` field is ignored by `buildFrame`, which computes the FCS itself. */
  datatype LinkHeader = LinkHeader(srcMAC: string, dstMAC: string, etherType: int)

  /** The argument of `buildFrame`. */
  datatype FrameInput = FrameInput(
    app: AppHeader, trans: TransHeader, net: NetHeader, link: LinkHeader, payload: seq<byte>)

  /** The result of `buildFrame`: the frame and the FCS spliced into it. */
  datatype Built = Built(frame: seq<byte>, fcs: nat)

  /** The fields `validateFrame` reads, before it checks them. */
  datatype Fields = Fields(
    srcMAC: seq<byte>, dstMAC: seq<byte>, etherType: nat, fcs: nat,
    version: nat, ttl: byte, proto: byte, srcIP: seq<byte>, dstIP: seq<byte>,
    srcPort: nat, dstPort: nat, seqNo: int, ackNo: int, flags: byte, checksum: nat,
    contentType: seq<byte>, len: int, payload: seq<byte>)

  /**
    Why a buffer cannot be decoded. In the source each of these reads past
    the end of the buffer, which gives `undefined`. That makes the declared
    length `NaN`, so `ok === false`, while the fields already read are
    still returned.
   */
  datatype Malformation = TooShort | MissingTerminator | TruncatedLength

  /** A buffer the decoder can read field by field, or the reason it cannot. */
  datatype Decoded<T> = Success(value: T) | Failure(error: Malformation)

  /** The result of `validateFrame` for a buffer that decodes. */
  datatype Report = Report(
    ok: bool, contentType: seq<byte>, payload: seq<byte>,
    srcIP: string, dstIP: string, srcPort: nat, dstPort: nat)

  /** The fixed-width part of a frame: link, network and transport headers. */
  const HeaderLength: nat := 42

  // ---------------------------------------------------------------------------
  // Encoding

  /** The flags byte; the bits are disjoint, so `|` is a sum. */
  function FlagsByte(f: Flags): (r: byte)
    ensures r < 8
    ensures r % 2 == 1 <==> f.syn
    ensures (r / 2) % 2 == 1 <==> f.ack
    ensures r / 4 == 1 <==> f.fin
  {
    (if f.syn then 1 else 0) + (if f.ack then 2 else 0) + (if f.fin then 4 else 0)
  }

  /** The content type, its NUL terminator and the 4-byte declared length. */
  function AppBytes(a: AppHeader): seq<byte>
  {
    Concat([a.contentType + [0], NumToBytes(a.len, 4)])
  }

  function TransBytes(t: TransHeader): seq<byte>
  {
    Concat([NumToBytes(t.srcPort, 2), NumToBytes(t.dstPort, 2),
            NumToBytes(t.seqNo, 4), NumToBytes(t.ackNo, 4),
            [FlagsByte(t.flags)], NumToBytes(t.checksum, 2)])
  }

  /** `version << 4` wraps at 32 bits, which the store modulo 256 cannot see. */
  function NetBytes(n: NetHeader): seq<byte>
  {
    Concat([[Uint8(n.version * 16)], [Uint8(n.ttl)], [Uint8(n.proto)],
            IpToBytes(n.srcIP), IpToBytes(n.dstIP)])
  }

  /** The link header without its FCS. */
  function LinkBytes(l: LinkHeader): seq<byte>
  {
    Concat([MacToBytes(l.srcMAC), MacToBytes(l.dstMAC), NumToBytes(l.etherType, 2)])
  }

  /** Everything the FCS covers, in frame order. */
  function CoveredBytes(p: FrameInput): seq<byte>
  {
    Concat([LinkBytes(p.link), NetBytes(p.net), TransBytes(p.trans), AppBytes(p.app), p.payload])
  }

  /** `buildFrame`: the CRC of everything but the FCS is spliced in after the link header. */
  function BuildFrame(p: FrameInput): (r: Built)
    ensures r.fcs <= 0xFFFF
  {
    var fcs := Crc16(CoveredBytes(p));
    Built(Concat([LinkBytes(p.link), NumToBytes(fcs, 2), NetBytes(p.net),
                  TransBytes(p.trans), AppBytes(p.app), p.payload]), fcs)
  }

  /** Addresses that parse to six MAC bytes and four IPv4 bytes each. */
  predicate WellFormed(p: FrameInput)
  {
    |MacToBytes(p.link.srcMAC)| == 6 && |MacToBytes(p.link.dstMAC)| == 6
    && |IpToBytes(p.net.srcIP)| == 4 && |IpToBytes(p.net.dstIP)| == 4
  }

  /**
    The pseudo-header the transport checksum covers ahead of the payload:
    ports, sequence and acknowledgement numbers, flags and a zero byte.
   */
  function PseudoHeader(t: TransHeader): (r: seq<byte>)
    ensures |r| == 14 && r[12] == FlagsByte(t.flags) && r[13] == 0
  {
    Concat6(NumToBytes(t.srcPort, 2), NumToBytes(t.dstPort, 2),
            NumToBytes(t.seqNo, 4), NumToBytes(t.ackNo, 4),
            [FlagsByte(t.flags)], [0]);
    Concat([NumToBytes(t.srcPort, 2), NumToBytes(t.dstPort, 2),
            NumToBytes(t.seqNo, 4), NumToBytes(t.ackNo, 4),
            [FlagsByte(t.flags)], [0]])
  }

  // ---------------------------------------------------------------------------
  // Decoding

  /** The loop `while (i < bytes.length && bytes[i] !== 0) i++`: the first NUL at or after `i`. */
  function FindNul(bytes: seq<byte>, i: nat): (r: nat)
    requires i <= |bytes|
    ensures i <= r <= |bytes|
    ensures forall k :: i <= k < r ==> bytes[k] != 0
    ensures r < |bytes| ==> bytes[r] == 0
    decreases |bytes| - i
  {
    if i == |bytes| || bytes[i] == 0 then i else FindNul(bytes, i + 1)
  }

  /**
    The reads of `validateFrame`: fixed-width fields at fixed offsets, the
    content type up to the first NUL from offset 42, a signed 32-bit length
    and the rest as payload.
   */
  function DecodeFrame(bytes: seq<byte>): (r: Decoded<Fields>)
    ensures r.Success? ==>
      var d := r.value;
      var i := HeaderLength + |d.contentType|;
      i + 5 <= |bytes| && bytes[HeaderLength..i] == d.contentType && 0 !in d.contentType
      && bytes[i] == 0 && d.payload == bytes[i + 5..]
    ensures r.Failure? && r.error == TooShort <==> |bytes| < HeaderLength
    ensures r.Failure? && r.error == MissingTerminator <==>
      |bytes| >= HeaderLength && 0 !in bytes[HeaderLength..]
  {
    if |bytes| < HeaderLength then Failure(TooShort)
    else
      var i := FindNul(bytes, HeaderLength);
      if i == |bytes| then
        assert forall k :: 0 <= k < |bytes| - HeaderLength ==> bytes[HeaderLength..][k] == bytes[HeaderLength + k];
        Failure(MissingTerminator)
      else if i + 5 > |bytes| then
        assert bytes[HeaderLength..][i - HeaderLength] == 0;
        Failure(TruncatedLength)
      else
        assert bytes[HeaderLength..][i - HeaderLength] == 0;
        Success(Fields(
          bytes[0..6], bytes[6..12], BEValue(bytes[12..14]), BEValue(bytes[14..16]),
          bytes[16] / 16, bytes[17], bytes[18], bytes[19..23], bytes[23..27],
          BEValue(bytes[27..29]), BEValue(bytes[29..31]),
          SignedBE32(bytes[31..35]), SignedBE32(bytes[35..39]),
          bytes[39], BEValue(bytes[40..42]),
          bytes[HeaderLength..i], SignedBE32(bytes[i + 1..i + 5]), bytes[i + 5..]))
  }

  /** The pseudo-header as `validateFrame` rebuilds it from the decoded fields with `>>` and `& 0xff`. */
  function DecodedPseudoHeader(d: Fields): seq<byte>
  {
    [ByteOf(d.srcPort, 1), ByteOf(d.srcPort, 0), ByteOf(d.dstPort, 1), ByteOf(d.dstPort, 0),
     ByteOf(d.seqNo, 3), ByteOf(d.seqNo, 2), ByteOf(d.seqNo, 1), ByteOf(d.seqNo, 0),
     ByteOf(d.ackNo, 3), ByteOf(d.ackNo, 2), ByteOf(d.ackNo, 1), ByteOf(d.ackNo, 0),
     d.flags, 0]
  }

  /**
    `validateFrame`: the frame is accepted when the transport checksum, the
    FCS and the declared length all agree with what was received.
   */
  function ValidateFrame(bytes: seq<byte>): Decoded<Report>
  {
    match DecodeFrame(bytes)
    case Failure(e) => Failure(e)
    case Success(d) =>
      var chk2 := Checksum16(DecodedPseudoHeader(d) + d.payload);
      var linkNoFcs := d.srcMAC + d.dstMAC + [ByteOf(d.etherType, 1), ByteOf(d.etherType, 0)];
      var fcs2 := Crc16(linkNoFcs + bytes[16..]);
      Success(Report(
        d.checksum == chk2 && d.fcs == fcs2 && |d.payload| == d.len,
        d.contentType, d.payload, FormatIp(d.srcIP), FormatIp(d.dstIP), d.srcPort, d.dstPort))
  }

  /** `validateFrame(bytes).ok`. */
  predicate Accepted(bytes: seq<byte>)
  {
    var v := ValidateFrame(bytes);
    v.Success? && v.value.ok
  }

  // ---------------------------------------------------------------------------
  // Properties of the layout

  lemma LinkLayout(l: LinkHeader)
    ensures LinkBytes(l) == MacToBytes(l.srcMAC) + (MacToBytes(l.dstMAC) + NumToBytes(l.etherType, 2))
  {
    Concat3(MacToBytes(l.srcMAC), MacToBytes(l.dstMAC), NumToBytes(l.etherType, 2));
  }

  lemma NetLayout(n: NetHeader)
    ensures NetBytes(n) == [Uint8(n.version * 16)] + ([Uint8(n.ttl)] + ([Uint8(n.proto)]
                           + (IpToBytes(n.srcIP) + IpToBytes(n.dstIP))))
  {
    Concat5([Uint8(n.version * 16)], [Uint8(n.ttl)], [Uint8(n.proto)], IpToBytes(n.srcIP), IpToBytes(n.dstIP));
  }

  lemma TransLayout(t: TransHeader)
    ensures TransBytes(t) == NumToBytes(t.srcPort, 2) + (NumToBytes(t.dstPort, 2)
                             + (NumToBytes(t.seqNo, 4) + (NumToBytes(t.ackNo, 4)
                             + ([FlagsByte(t.flags)] + NumToBytes(t.checksum, 2)))))
  {
    Concat6(NumToBytes(t.srcPort, 2), NumToBytes(t.dstPort, 2), NumToBytes(t.seqNo, 4),
            NumToBytes(t.ackNo, 4), [FlagsByte(t.flags)], NumToBytes(t.checksum, 2));
  }

  lemma AppLayout(a: AppHeader)
    ensures AppBytes(a) == (a.contentType + [0]) + NumToBytes(a.len, 4)
  {
    Concat2(a.contentType + [0], NumToBytes(a.len, 4));
  }

  lemma FrameLayout(p: FrameInput)
    ensures BuildFrame(p).frame
      == LinkBytes(p.link) + (NumToBytes(BuildFrame(p).fcs, 2) + (NetBytes(p.net)
         + (TransBytes(p.trans) + (AppBytes(p.app) + p.payload))))
    ensures CoveredBytes(p)
      == LinkBytes(p.link) + (NetBytes(p.net) + (TransBytes(p.trans) + (AppBytes(p.app) + p.payload)))
  {
    var r := BuildFrame(p);
    Concat6(LinkBytes(p.link), NumToBytes(r.fcs, 2), NetBytes(p.net),
            TransBytes(p.trans), AppBytes(p.app), p.payload);
    Concat5(LinkBytes(p.link), NetBytes(p.net), TransBytes(p.trans), AppBytes(p.app), p.payload);
  }

  /**
    The FCS sits right after the link header, big-endian, and is the CRC-16
    of the frame with those two bytes taken out; taking them out leaves the
    covered bytes in frame order.
   */
  lemma BuildFrameSplice(p: FrameInput)
    ensures FcsSpliced(BuildFrame(p).frame, |LinkBytes(p.link)|, BuildFrame(p).fcs, CoveredBytes(p))
  {
    var r := BuildFrame(p);
    var link := LinkBytes(p.link);
    var rest := NetBytes(p.net) + (TransBytes(p.trans) + (AppBytes(p.app) + p.payload));
    var fcs := NumToBytes(r.fcs, 2);
    var covered := CoveredBytes(p);
    assert r.frame == link + (fcs + rest) && covered == link + rest && r.fcs == Crc16(covered) by {
      FrameLayout(p);
    }
    SpliceOut(r.frame, link, r.fcs, rest);
  }

  /**
    `frame` holds the big-endian `fcs` at offset `n`, and taking those two
    bytes out leaves `covered`, whose CRC-16 `fcs` is.
   */
  predicate FcsSpliced(frame: seq<byte>, n: nat, fcs: nat, covered: seq<byte>)
  {
    n + 2 <= |frame| && frame[n..n + 2] == NumToBytes(fcs, 2)
    && frame[..n] + frame[n + 2..] == covered && fcs == Crc16(covered)
  }

  lemma SpliceOut(s: seq<byte>, a: seq<byte>, fcs: nat, b: seq<byte>)
    requires s == a + (NumToBytes(fcs, 2) + b) && fcs == Crc16(a + b)
    ensures FcsSpliced(s, |a|, fcs, a + b)
  {
    var f := NumToBytes(fcs, 2);
    assert s[..|a|] == a;
    assert s[|a|..] == f + b;
    assert s[|a|..][..2] == f;
    assert s[|a| + 2..] == b;
  }

  /** With well-formed addresses the frame is 16 + 11 + 15 + (|content type| + 5) + |payload| bytes long. */
  lemma BuildFrameLength(p: FrameInput)
    requires WellFormed(p)
    ensures |LinkBytes(p.link)| == 14 && |NetBytes(p.net)| == 11 && |TransBytes(p.trans)| == 15
    ensures |BuildFrame(p).frame| == 16 + 11 + 15 + (|p.app.contentType| + 1 + 4) + |p.payload|
  {
    LinkLayout(p.link);
    NetLayout(p.net);
    TransLayout(p.trans);
    AppLayout(p.app);
    FrameLayout(p);
  }

  // ---------------------------------------------------------------------------
  // Properties of the decoder

  /** Among the positions from `i` on, the first NUL is the one before which there is none. */
  lemma FindNulAt(bytes: seq<byte>, i: nat, j: nat)
    requires i <= j < |bytes| && bytes[j] == 0
    requires forall k :: i <= k < j ==> bytes[k] != 0
    ensures FindNul(bytes, i) == j
  {
  }

  /**
    The decoder reads every field back from its place in the layout: a
    42-byte header, a NUL-free content type, its terminator, a 4-byte length
    and the payload.
   */
  lemma DecodeLayout(bytes: seq<byte>, head: seq<byte>, ct: seq<byte>, len: seq<byte>, payload: seq<byte>)
    requires |head| == HeaderLength && |len| == 4 && 0 !in ct
    requires bytes == head + ((ct + [0] + len) + payload)
    ensures DecodeFrame(bytes) == Success(Fields(
      head[0..6], head[6..12], BEValue(head[12..14]), BEValue(head[14..16]),
      head[16] / 16, head[17], head[18], head[19..23], head[23..27],
      BEValue(head[27..29]), BEValue(head[29..31]),
      SignedBE32(head[31..35]), SignedBE32(head[35..39]),
      head[39], BEValue(head[40..42]),
      ct, SignedBE32(len), payload))
  {
    var tail := (ct + [0] + len) + payload;
    assert bytes[HeaderLength..] == tail;
    var i := HeaderLength + |ct|;
    assert bytes[i] == 0 by {
      assert tail[|ct|] == 0;
    }
    forall k | HeaderLength <= k < i
      ensures bytes[k] != 0
    {
      assert bytes[k] == tail[k - HeaderLength] == ct[k - HeaderLength];
    }
    FindNulAt(bytes, HeaderLength, i);
    assert bytes[HeaderLength..i] == ct;
    assert bytes[i + 1..i + 5] == len;
    assert bytes[i + 5..] == payload;
    PrefixSlices(bytes, head, tail);
  }

  lemma PrefixSlices(bytes: seq<byte>, head: seq<byte>, tail: seq<byte>)
    requires |head| == HeaderLength && bytes == head + tail
    ensures bytes[0..6] == head[0..6] && bytes[6..12] == head[6..12]
    ensures bytes[12..14] == head[12..14] && bytes[14..16] == head[14..16]
    ensures bytes[16] == head[16] && bytes[17] == head[17] && bytes[18] == head[18]
    ensures bytes[19..23] == head[19..23] && bytes[23..27] == head[23..27]
    ensures bytes[27..29] == head[27..29] && bytes[29..31] == head[29..31]
    ensures bytes[31..35] == head[31..35] && bytes[35..39] == head[35..39]
    ensures bytes[39] == head[39] && bytes[40..42] == head[40..42]
  {
    assert bytes[..HeaderLength] == head;
  }

  /** Where the parts of a header sit in it. */
  lemma HeaderSlices(head: seq<byte>, link: seq<byte>, fcs: seq<byte>, net: seq<byte>, trans: seq<byte>)
    requires |link| == 14 && |fcs| == 2 && |net| == 11 && |trans| == 15
    requires head == link + (fcs + (net + trans))
    ensures head[0..6] == link[0..6] && head[6..12] == link[6..12] && head[12..14] == link[12..14]
    ensures head[14..16] == fcs
    ensures head[16] == net[0] && head[17] == net[1] && head[18] == net[2]
    ensures head[19..23] == net[3..7] && head[23..27] == net[7..11]
    ensures head[27..29] == trans[0..2] && head[29..31] == trans[2..4]
    ensures head[31..35] == trans[4..8] && head[35..39] == trans[8..12]
    ensures head[39] == trans[12] && head[40..42] == trans[13..15]
  {
    assert head[..14] == link;
    assert head[14..16] == fcs;
    assert head[16..27] == net;
    assert head[27..] == trans;
  }

  /** The fields the decoder reads from a frame built from `p` whose FCS is `fcs`. */
  function FieldsOf(p: FrameInput, fcs: nat): Fields
  {
    Fields(
      MacToBytes(p.link.srcMAC), MacToBytes(p.link.dstMAC), p.link.etherType % 0x1_0000, fcs,
      Uint8(p.net.version * 16) / 16, Uint8(p.net.ttl), Uint8(p.net.proto),
      IpToBytes(p.net.srcIP), IpToBytes(p.net.dstIP),
      p.trans.srcPort % 0x1_0000, p.trans.dstPort % 0x1_0000,
      ToInt32(p.trans.seqNo), ToInt32(p.trans.ackNo),
      FlagsByte(p.trans.flags), p.trans.checksum % 0x1_0000,
      p.app.contentType, ToInt32(p.app.len), p.payload)
  }

  lemma TwoByteValue(x: int)
    ensures BEValue(NumToBytes(x, 2)) == x % 0x1_0000
  {
    Pow256Values();
    BEValueOfNumToBytes(x, 2);
  }

  lemma LinkFields(l: LinkHeader)
    requires |MacToBytes(l.srcMAC)| == 6 && |MacToBytes(l.dstMAC)| == 6
    ensures var b := LinkBytes(l);
      |b| == 14 && b[0..6] == MacToBytes(l.srcMAC) && b[6..12] == MacToBytes(l.dstMAC)
      && BEValue(b[12..14]) == l.etherType % 0x1_0000
  {
    LinkLayout(l);
    var b := LinkBytes(l);
    assert b[12..14] == NumToBytes(l.etherType, 2);
    TwoByteValue(l.etherType);
  }

  lemma NetFields(n: NetHeader)
    requires |IpToBytes(n.srcIP)| == 4 && |IpToBytes(n.dstIP)| == 4
    ensures var b := NetBytes(n);
      |b| == 11 && b[0] == Uint8(n.version * 16) && b[1] == Uint8(n.ttl) && b[2] == Uint8(n.proto)
      && b[3..7] == IpToBytes(n.srcIP) && b[7..11] == IpToBytes(n.dstIP)
  {
    NetLayout(n);
  }

  lemma TransFields(t: TransHeader)
    ensures var b := TransBytes(t);
      |b| == 15
      && BEValue(b[0..2]) == t.srcPort % 0x1_0000 && BEValue(b[2..4]) == t.dstPort % 0x1_0000
      && SignedBE32(b[4..8]) == ToInt32(t.seqNo) && SignedBE32(b[8..12]) == ToInt32(t.ackNo)
      && b[12] == FlagsByte(t.flags) && BEValue(b[13..15]) == t.checksum % 0x1_0000
  {
    var sp, dp := NumToBytes(t.srcPort, 2), NumToBytes(t.dstPort, 2);
    var sq, ak := NumToBytes(t.seqNo, 4), NumToBytes(t.ackNo, 4);
    var ck := NumToBytes(t.checksum, 2);
    TransLayout(t);
    TransSlices(TransBytes(t), sp, dp, sq, ak, FlagsByte(t.flags), ck);
    TwoByteValue(t.srcPort);
    TwoByteValue(t.dstPort);
    TwoByteValue(t.checksum);
    SignedBE32OfAnyNumToBytes(t.seqNo);
    SignedBE32OfAnyNumToBytes(t.ackNo);
  }

  lemma TransSlices(b: seq<byte>, sp: seq<byte>, dp: seq<byte>, sq: seq<byte>, ak: seq<byte>,
                    fl: byte, ck: seq<byte>)
    requires |sp| == 2 && |dp| == 2 && |sq| == 4 && |ak| == 4 && |ck| == 2
    requires b == sp + (dp + (sq + (ak + ([fl] + ck))))
    ensures |b| == 15 && b[0..2] == sp && b[2..4] == dp && b[4..8] == sq && b[8..12] == ak
    ensures b[12] == fl && b[13..15] == ck
  {
    assert b[..2] == sp;
    assert b[2..] == dp + (sq + (ak + ([fl] + ck)));
    assert b[4..] == sq + (ak + ([fl] + ck));
    assert b[8..] == ak + ([fl] + ck);
    assert b[12..] == [fl] + ck;
  }

  /** `DecodeLayout` with the header given as its link, FCS, network and transport parts. */
  lemma DecodeParts(bytes: seq<byte>, link: seq<byte>, fcs: seq<byte>, net: seq<byte>,
                    trans: seq<byte>, ct: seq<byte>, len: seq<byte>, payload: seq<byte>)
    requires |link| == 14 && |fcs| == 2 && |net| == 11 && |trans| == 15 && |len| == 4
    requires 0 !in ct
    requires bytes == link + (fcs + (net + (trans + ((ct + [0] + len) + payload))))
    ensures DecodeFrame(bytes) == Success(Fields(
      link[0..6], link[6..12], BEValue(link[12..14]), BEValue(fcs),
      net[0] / 16, net[1], net[2], net[3..7], net[7..11],
      BEValue(trans[0..2]), BEValue(trans[2..4]),
      SignedBE32(trans[4..8]), SignedBE32(trans[8..12]),
      trans[12], BEValue(trans[13..15]),
      ct, SignedBE32(len), payload))
  {
    var head := link + (fcs + (net + trans));
    assert bytes == head + ((ct + [0] + len) + payload);
    DecodeLayout(bytes, head, ct, len, payload);
    HeaderSlices(head, link, fcs, net, trans);
  }

  /**
    Decoding a built frame: with well-formed addresses and a NUL-free
    content type every field comes back, reduced to the width it was
    written in.
   */
  lemma DecodeBuildFrame(p: FrameInput)
    requires WellFormed(p) && 0 !in p.app.contentType
    ensures DecodeFrame(BuildFrame(p).frame) == Success(FieldsOf(p, BuildFrame(p).fcs))
  {
    var r := BuildFrame(p);
    var fcs := NumToBytes(r.fcs, 2);
    var len := NumToBytes(p.app.len, 4);
    LinkFields(p.link);
    NetFields(p.net);
    TransFields(p.trans);
    assert r.frame == LinkBytes(p.link) + (fcs + (NetBytes(p.net) + (TransBytes(p.trans)
                      + ((p.app.contentType + [0] + len) + p.payload)))) by {
      FrameLayout(p);
      AppLayout(p.app);
    }
    DecodeParts(r.frame, LinkBytes(p.link), fcs, NetBytes(p.net), TransBytes(p.trans),
                p.app.contentType, len, p.payload);
    TwoByteValue(r.fcs);
    ModOfSmall(r.fcs, 0x1_0000);
    SignedBE32OfAnyNumToBytes(p.app.len);
  }

  /** Re-encoding a 16-bit field the way the decoder does gives back the bytes it was read from. */
  lemma TwoBytesAgain(x: int)
    ensures [ByteOf(x % 0x1_0000, 1), ByteOf(x % 0x1_0000, 0)] == NumToBytes(x, 2)
  {
    NumToBytes2Digits(x % 0x1_0000);
    TwoByteValue(x);
    NumToBytesOfBEValue(NumToBytes(x, 2));
  }

  /** The same for a 32-bit field. */
  lemma FourBytesAgain(x: int)
    ensures [ByteOf(ToInt32(x), 3), ByteOf(ToInt32(x), 2), ByteOf(ToInt32(x), 1), ByteOf(ToInt32(x), 0)]
            == NumToBytes(x, 4)
  {
    NumToBytes4Digits(ToInt32(x));
    SignedBE32OfAnyNumToBytes(x);
    NumToBytesOfSignedBE32(NumToBytes(x, 4));
  }

  /**
    The pseudo-header the decoder rebuilds from the fields it read is byte
    for byte the one the sender built from its transport header, so both
    sides checksum the same bytes.
   */
  lemma PseudoHeadersAgree(d: Fields, t: TransHeader)
    requires d.srcPort == t.srcPort % 0x1_0000 && d.dstPort == t.dstPort % 0x1_0000
    requires d.seqNo == ToInt32(t.seqNo) && d.ackNo == ToInt32(t.ackNo)
    requires d.flags == FlagsByte(t.flags)
    ensures DecodedPseudoHeader(d) == PseudoHeader(t)
  {
    var sp := [ByteOf(d.srcPort, 1), ByteOf(d.srcPort, 0)];
    var dp := [ByteOf(d.dstPort, 1), ByteOf(d.dstPort, 0)];
    var sq := [ByteOf(d.seqNo, 3), ByteOf(d.seqNo, 2), ByteOf(d.seqNo, 1), ByteOf(d.seqNo, 0)];
    var ak := [ByteOf(d.ackNo, 3), ByteOf(d.ackNo, 2), ByteOf(d.ackNo, 1), ByteOf(d.ackNo, 0)];
    assert DecodedPseudoHeader(d) == sp + (dp + (sq + (ak + ([d.flags] + [0]))));
    TwoBytesAgain(t.srcPort);
    TwoBytesAgain(t.dstPort);
    FourBytesAgain(t.seqNo);
    FourBytesAgain(t.ackNo);
    Concat6(NumToBytes(t.srcPort, 2), NumToBytes(t.dstPort, 2), NumToBytes(t.seqNo, 4),
            NumToBytes(t.ackNo, 4), [FlagsByte(t.flags)], [0]);
  }

  /** The bytes the decoder runs the CRC over for a built frame are the ones the sender covered. */
  lemma RecomputedCoverage(p: FrameInput)
    requires WellFormed(p)
    ensures var frame := BuildFrame(p).frame;
      |frame| >= 16
      && MacToBytes(p.link.srcMAC) + MacToBytes(p.link.dstMAC)
         + [ByteOf(p.link.etherType % 0x1_0000, 1), ByteOf(p.link.etherType % 0x1_0000, 0)]
         + frame[16..]
         == CoveredBytes(p)
  {
    var frame := BuildFrame(p).frame;
    LinkFields(p.link);
    LinkLayout(p.link);
    TwoBytesAgain(p.link.etherType);
    BuildFrameSplice(p);
    assert frame[..14] + frame[16..] == CoveredBytes(p);
    assert frame[..14] == LinkBytes(p.link);
  }

  /**
    Validating a built frame: it decodes, the reported fields are the
    sender's, and it is accepted exactly when the transport checksum the
    sender wrote is the one of its pseudo-header and payload and the
    declared length, read back as a signed 32-bit number, is the payload
    length. The FCS always matches.
   */
  lemma ValidateBuildFrame(p: FrameInput)
    requires WellFormed(p) && 0 !in p.app.contentType
    ensures ValidateFrame(BuildFrame(p).frame) == Success(Report(
      p.trans.checksum % 0x1_0000 == Checksum16(PseudoHeader(p.trans) + p.payload)
        && ToInt32(p.app.len) == |p.payload|,
      p.app.contentType, p.payload,
      FormatIp(IpToBytes(p.net.srcIP)), FormatIp(IpToBytes(p.net.dstIP)),
      p.trans.srcPort % 0x1_0000, p.trans.dstPort % 0x1_0000))
  {
    var r := BuildFrame(p);
    var d := FieldsOf(p, r.fcs);
    DecodeBuildFrame(p);
    PseudoHeadersAgree(d, p.trans);
    RecomputedCoverage(p);
  }

  /**
    A frame is rejected when its declared length disagrees with its payload:
    for any length the 4-byte field holds without wrapping, signed or
    unsigned, that differs from the payload length, `ok` is false. A length
    with bit 31 set is read back as a negative number and so never matches.
   */
  lemma LengthMismatchRejected(p: FrameInput)
    requires WellFormed(p) && 0 !in p.app.contentType
    requires -TwoTo31 <= p.app.len < TwoTo32 && p.app.len != |p.payload|
    ensures !Accepted(BuildFrame(p).frame)
  {
    ValidateBuildFrame(p);
    if p.app.len < TwoTo31 {
      SignedBE32OfNumToBytes(p.app.len);
      SignedBE32OfAnyNumToBytes(p.app.len);
    } else {
      // A length with bit 31 set is read back as a negative number.
      DivModUnique(p.app.len, TwoTo32, 0, p.app.len);
      assert ToInt32(p.app.len) < 0;
    }
  }

  /**
    The round trip of the codec: a frame built with well-formed addresses,
    a NUL-free content type, the declared length set to the payload length
    and the transport checksum computed over the pseudo-header and payload
    is accepted, and the addresses, ports, content type and payload come
    back as they went in.
   */
  lemma FrameRoundTrip(p: FrameInput, srcIP: seq<byte>, dstIP: seq<byte>)
    requires |srcIP| == 4 && |dstIP| == 4
    requires p.net.srcIP == FormatIp(srcIP) && p.net.dstIP == FormatIp(dstIP)
    requires |MacToBytes(p.link.srcMAC)| == 6 && |MacToBytes(p.link.dstMAC)| == 6
    requires 0 !in p.app.contentType
    requires p.app.len == |p.payload| < TwoTo31
    requires p.trans.checksum == Checksum16(PseudoHeader(p.trans) + p.payload)
    requires 0 <= p.trans.srcPort <= 0xFFFF && 0 <= p.trans.dstPort <= 0xFFFF
    ensures Accepted(BuildFrame(p).frame)
    ensures ValidateFrame(BuildFrame(p).frame) == Success(Report(
      true, p.app.contentType, p.payload, p.net.srcIP, p.net.dstIP, p.trans.srcPort, p.trans.dstPort))
  {
    IpRoundTrip(srcIP);
    IpRoundTrip(dstIP);
    ValidateBuildFrame(p);
    SignedBE32OfNumToBytes(p.app.len);
    SignedBE32OfAnyNumToBytes(p.app.len);
    ModOfSmall(p.trans.checksum, 0x1_0000);
    ModOfSmall(p.trans.srcPort, 0x1_0000);
    ModOfSmall(p.trans.dstPort, 0x1_0000);
  }

  /** The bytes the FCS covers: the frame without bytes 14 and 15. */
  function FcsCoverage(bytes: seq<byte>): seq<byte>
    requires |bytes| >= 16
  {
    bytes[..14] + bytes[16..]
  }

  /** An accepted frame carries, big-endian at offset 14, the CRC-16 of the rest of it. */
  lemma AcceptedFcs(bytes: seq<byte>)
    requires Accepted(bytes)
    ensures |bytes| >= HeaderLength && BEValue(bytes[14..16]) == Crc16(FcsCoverage(bytes))
  {
    var d := DecodeFrame(bytes).value;
    var link := d.srcMAC + d.dstMAC + [ByteOf(d.etherType, 1), ByteOf(d.etherType, 0)];
    assert d.fcs == Crc16(link + bytes[16..]);
    DecodedLink(bytes, d);
  }

  /** The decoder rebuilds the link header exactly as it was received. */
  lemma DecodedLink(bytes: seq<byte>, d: Fields)
    requires DecodeFrame(bytes) == Success(d)
    ensures |bytes| >= HeaderLength && d.fcs == BEValue(bytes[14..16])
    ensures d.srcMAC + d.dstMAC + [ByteOf(d.etherType, 1), ByteOf(d.etherType, 0)] == bytes[..14]
  {
    var ty := bytes[12..14];
    NumToBytes2Digits(BEValue(ty));
    NumToBytesOfBEValue(ty);
    assert [ByteOf(d.etherType, 1), ByteOf(d.etherType, 0)] == ty;
  }

  /**
    Every change of a single byte of an accepted frame, in any position, is
    detected: the changed frame is rejected.
   */
  lemma SingleByteChangeRejected(a: seq<byte>, b: seq<byte>, pos: nat)
    requires Accepted(a)
    requires |a| == |b| && pos < |a| && a[pos] != b[pos]
    requires forall i :: 0 <= i < |a| && i != pos ==> a[i] == b[i]
    ensures !Accepted(b)
  {
    AcceptedFcs(a);
    if Accepted(b) {
      AcceptedFcs(b);
      FcsDetects(a, b, pos);
    }
  }

  /**
    Changing one byte breaks the agreement between the FCS and the bytes it
    covers: a change inside the FCS leaves the covered bytes alone but
    changes the FCS read; a change anywhere else changes the CRC-16 of the
    covered bytes but not the FCS.
   */
  lemma FcsDetects(a: seq<byte>, b: seq<byte>, pos: nat)
    requires |a| == |b| >= 16 && pos < |a| && a[pos] != b[pos]
    requires forall i :: 0 <= i < |a| && i != pos ==> a[i] == b[i]
    requires BEValue(a[14..16]) == Crc16(FcsCoverage(a))
    ensures BEValue(b[14..16]) != Crc16(FcsCoverage(b))
  {
    var ca, cb := FcsCoverage(a), FcsCoverage(b);
    if 14 <= pos < 16 {
      assert ca == cb;
      assert a[14..16][pos - 14] != b[14..16][pos - 14];
      if BEValue(a[14..16]) == BEValue(b[14..16]) {
        BEValueInjective(a[14..16], b[14..16]);
      }
    } else {
      assert a[14..16] == b[14..16];
      var q := if pos < 14 then pos else pos - 2;
      assert ca[q] == a[pos] && cb[q] == b[pos];
      forall i | 0 <= i < |ca| && i != q
        ensures ca[i] == cb[i]
      {
        var k := if i < 14 then i else i + 2;
        assert ca[i] == a[k] && cb[i] == b[k];
      }
      CrcDetectsByteChange(ca, cb, q);
    }
  }
}
