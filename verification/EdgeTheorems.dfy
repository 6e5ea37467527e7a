/** Where the translator's promises stop, exactly: concrete packets that cross each line, and the condition for it. */
module EdgeTheorems {
  import opened Wrappers
  import opened Bytes
  import opened OnesComplement
  import opened Wire
  import opened Nat66
  import opened Siit46Spec
  import Siit64Spec
  import opened Clatxlat
  import opened OutboundTheorems
  import FragmentTheorems
  import opened InboundHeaders
  import opened InboundTheorems

  // Packets to try

  /** An IPv4 packet without options around a payload of n bytes and whatever trails it. */
  function Packet4(src: Address4, dst: Address4, protocol: byte, n: nat, rest: seq<byte>): seq<byte>
    requires n <= |rest| && n + 20 < 0x1_0000
  {
    V4(Siit64Spec.SealedHead4(0, n + 20, 0, 0, 64, protocol, src, dst), src, dst, rest).Bytes()
  }

  /** Such a packet parses, unless its protocol is not to be translated or its ICMP message does not translate. */
  lemma Packet4Parses(src: Address4, dst: Address4, protocol: byte, n: nat, rest: seq<byte>,
      forbidden: seq<byte> -> bool)
    requires n <= |rest| && n + 20 < 0x1_0000 && !ForbiddenForIPv4(protocol)
    requires protocol == ICMPV4 ==> IcmpTranslatable46(rest[..n])
    ensures var pkt := Packet4(src, dst, protocol, n, rest);
            && Parse46(pkt, forbidden) == Some(Meta(20, n + 20, n, protocol, false, 0))
            && pkt[20..] == rest && pkt[12..16] == src && pkt[16..20] == dst && Version(pkt) == 4
  {
    hide Checksum, IcmpTranslatable46, Siit64Spec.SealedHead4;
    var head := Siit64Spec.SealedHead4(0, n + 20, 0, 0, 64, protocol, src, dst);
    SealedHasHead(0, n + 20, 0, 0, 64, protocol, src, dst, rest);
    var pkt := Packet4(src, dst, protocol, n, rest);
    assert pkt == head + src + dst + rest;
    assert pkt[..20] == head + src + dst && pkt[20..] == rest;
    assert Word(pkt, 2) == Word(head, 2) && Word(pkt, 6) == Word(head, 6) && pkt[0] == head[0] && pkt[9] == head[9];
    assert pkt[20..n + 20] == rest[..n];
  }

  // A source that is not the CLAT address

  /** A TCP packet of four bytes leaves with the prefix-mapped placeholder as source, whatever the CLAT address is. */
  lemma OutboundSourceExists(t: Translator, forbidden: seq<byte> -> bool)
    ensures var p := t.OutboundV6(Packet4([192, 0, 0, 1], [8, 8, 8, 8], TCP, 4, [0, 80, 0, 80]), forbidden);
            p.Some? && p.value.src == PREFIX + [192, 0, 0, 1]
  {
    hide Parse46, Packet4, V6.Bytes, Enclose, Rewrite;
    var pkt := Packet4([192, 0, 0, 1], [8, 8, 8, 8], TCP, 4, [0, 80, 0, 80]);
    Packet4Parses([192, 0, 0, 1], [8, 8, 8, 8], TCP, 4, [0, 80, 0, 80], forbidden);
    assert RepairPayload46(Addresses46(pkt), Parse46(pkt, forbidden).value, pkt[20..]).Some?;
    OutboundSource(t, pkt, forbidden);
  }

  // A zero UDP checksum

  /** The checksum word SIIT46 starts from: the one that came, or the one it fills in. */
  function UdpField(pkt: seq<byte>, m: Meta): u16
    requires |pkt| >= 20 && m.headerLength + m.payloadLength <= |pkt| && m.payloadLength >= 8
  {
    var t := pkt[m.headerLength..][..m.payloadLength];
    if Word(t, 6) == 0 then UdpChecksum(Addresses46(pkt), t) else Word(t, 6)
  }

  /** No UDP datagram, whole or first fragment, leaves with the checksum 0xffff. It leaves with the checksum 0x0000,
      which section 8.1 of RFC 8200 forbids, exactly when the word SIIT46 starts from and the change of source sum
      to a multiple of 0xffff. */
  lemma OutboundUdpZero(t: Translator, pkt: seq<byte>, forbidden: seq<byte> -> bool) returns (p: V6)
    requires Parse46(pkt, forbidden).Some?
    requires var m := Parse46(pkt, forbidden).value;
             m.fragmentOffset == 0 && m.protocol == UDP && m.payloadLength >= 8
             && (m.IsFragmented() ==> Word(pkt[m.headerLength..], 6) != 0)
    ensures var m := Parse46(pkt, forbidden).value;
            var at := m.HeaderRoom() - 40 + 6;
            && t.OutboundV6(pkt, forbidden) == Some(p) && |p.rest| == m.HeaderRoom() - 40 + |pkt| - m.headerLength
            && Word(p.rest, at) != 0xffff
            && (Word(p.rest, at) == 0 <==> (UdpField(pkt, m) + WordSum(pkt[12..16]) - WordSum(t.clatV6)) % 0xffff == 0)
  {
    hide Parse46, Enclose, SetWord, Updated, V6.Bytes, UdpChecksum, Bumped46, Addresses46, WordSum;
    var m := Parse46(pkt, forbidden).value;
    var n, rest := m.payloadLength, pkt[m.headerLength..];
    var r := RepairPayload46(Addresses46(pkt), m, rest).value;
    StartingWord(pkt, m, r);
    EncloseAddresses(pkt, m, n, r);
    var e := Enclose(pkt, m, n, r);
    p := Rewrite(e, Source, t.clatV6);
    EnclosedCoverage(pkt, m, n, r);
    FragmentTheorems.EncloseSet(pkt, m, n, r, 6, 0);
    ViewOfBytes6(p);
    UpdatedSaturates(Word(r, 6), e.src, t.clatV6);
    UpdatedCongruent(Word(r, 6), e.src, t.clatV6);
    TranslatedSum(pkt[12..16]);
    ZeroWord(Word(p.rest, m.HeaderRoom() - 34), Word(r, 6), WordSum(e.src), WordSum(t.clatV6), UdpField(pkt, m),
        WordSum(pkt[12..16]));
    EnclosedLength(pkt, m, n, r);
  }

  /** SIIT46 leaves the word it starts from, but for 0xffff, which it turns into 0x0000. */
  lemma StartingWord(pkt: seq<byte>, m: Meta, r: seq<byte>)
    requires |pkt| >= 20 && m.headerLength + m.payloadLength <= |pkt| && m.payloadLength >= 8 && m.protocol == UDP
    requires m.fragmentOffset == 0 && (m.IsFragmented() ==> Word(pkt[m.headerLength..], 6) != 0)
    requires RepairPayload46(Addresses46(pkt), m, pkt[m.headerLength..]) == Some(r)
    ensures |r| == |pkt| - m.headerLength
    ensures Word(r, 6) == (if UdpField(pkt, m) == 0xffff then 0 else UdpField(pkt, m)) && Word(r, 6) != 0xffff
  {
    hide UdpChecksum, Addresses46;
    var rest := pkt[m.headerLength..];
    if Word(rest, 6) == 0 {
      FilledNotSaturated(Addresses46(pkt), rest[..m.payloadLength]);
    } else {
      Bumped46Is(Word(rest, 6));
    }
  }

  lemma ZeroWord(w: u16, r: u16, src6: nat, clat: nat, field: u16, src4: nat)
    requires Congruent(w, r + src6 - clat) && w != 0xffff && src6 == 0xffff + src4
    requires r == if field == 0xffff then 0 else field
    ensures w == 0 <==> (field + src4 - clat) % 0xffff == 0
  {
    var k := (w - (r + src6 - clat)) / 0xffff;
    assert field + src4 - clat == w - 0xffff * (k + 1) + (field - r);
  }

  lemma EnclosedLength(pkt: seq<byte>, m: Meta, n: u16, rest: seq<byte>)
    requires |pkt| >= 20 && m.fragmentOffset % 8 == 0 && m.fragmentOffset < 0x1_0000 && n + 8 < 0x1_0000
    ensures |Enclose(pkt, m, n, rest).rest| == m.HeaderRoom() - 40 + |rest|
  {
  }

  /** The sum a UDP datagram leaves with, its checksum word taken as zero. */
  function OutboundUdpSum(t: Translator, pkt: seq<byte>, m: Meta): nat
    requires |pkt| >= 20 && m.headerLength + m.payloadLength <= |pkt| && m.payloadLength >= 8
  {
    WordSum(t.clatV6) + WordSum(pkt[16..20]) + m.payloadLength + UDP
        + WordSum(SetWord(pkt[m.headerLength..][..m.payloadLength], 6, 0))
  }

  /** For a whole datagram that came with a valid checksum, or without one: exactly when its other words sum to a
      multiple of 0xffff as it leaves. */
  lemma OutboundUdpZeroWhole(t: Translator, pkt: seq<byte>, forbidden: seq<byte> -> bool) returns (p: V6)
    requires Parse46(pkt, forbidden).Some?
    requires var m := Parse46(pkt, forbidden).value;
             !m.IsFragmented() && m.protocol == UDP && m.payloadLength >= 8
             && (Word(pkt[m.headerLength..], 6) == 0
                   || TransportValid(pkt[12..20], UDP, pkt[m.headerLength..][..m.payloadLength]))
    ensures t.OutboundV6(pkt, forbidden) == Some(p) && |p.rest| == |pkt| - Parse46(pkt, forbidden).value.headerLength
    ensures Word(p.rest, 6) == 0 <==> OutboundUdpSum(t, pkt, Parse46(pkt, forbidden).value) % 0xffff == 0
  {
    hide Parse46, Translator.OutboundV6, TransportValid, SetWord, WordSum, Updated, UdpField;
    var m := Parse46(pkt, forbidden).value;
    var n, rest := m.payloadLength, pkt[m.headerLength..];
    OutboundTransport(t, pkt, forbidden);
    p := OutboundUdpZero(t, pkt, forbidden);
    var w := Word(p.rest, 6);
    SetWordPrefix(rest, 6, w, n);
    WordSumSet(rest[..n], 6, w);
    WordSumSet(rest[..n], 6, 0);
    WordSumConcat(p.src, p.dst);
    TranslatedSum(pkt[16..20]);
    TransportValidIff(p.src + p.dst, UDP, p.Payload());
    assert TransportSum(p.src + p.dst, UDP, p.Payload()) == OutboundUdpSum(t, pkt, m) + 0xffff + w;
    hide *;
    ZeroResidue(OutboundUdpSum(t, pkt, m), w);
  }

  lemma ZeroResidue(sum: nat, w: u16)
    requires (sum + 0xffff + w) % 0xffff == 0 && w != 0xffff
    ensures w == 0 <==> sum % 0xffff == 0
  {
  }

  /** A datagram without a checksum, from port 49631 to port 53 of 8.8.8.8 by way of 2001:db8::1, for which it
      happens. */
  lemma OutboundUdpZeroExists(forbidden: seq<byte> -> bool)
    ensures var t := Translator([192, 0, 0, 1], [0x20, 1, 0x0d, 0xb8] + Zeros(10) + [0, 1]);
            var pkt := Packet4([192, 0, 0, 1], [8, 8, 8, 8], UDP, 8, [193, 223, 0, 53, 0, 8, 0, 0]);
            && t.OutboundV6(pkt, forbidden).Some?
            && |t.OutboundV6(pkt, forbidden).value.rest| == 8 && Word(t.OutboundV6(pkt, forbidden).value.rest, 6) == 0
  {
    hide Parse46, Translator.OutboundV6, Packet4, TransportValid;
    var clat: Address6 := [0x20, 1, 0x0d, 0xb8] + Zeros(10) + [0, 1];
    var t := Translator([192, 0, 0, 1], clat);
    var udp: seq<byte> := [193, 223, 0, 53, 0, 8, 0, 0];
    var pkt := Packet4([192, 0, 0, 1], [8, 8, 8, 8], UDP, 8, udp);
    Packet4Parses([192, 0, 0, 1], [8, 8, 8, 8], UDP, 8, udp, forbidden);
    var p := OutboundUdpZeroWhole(t, pkt, forbidden);
    hide WordSum, SetWord;
    SumOfClat();
    SumOfFour(8, 8, 8, 8);
    SumOfDatagram();
    assert pkt[20..][..8] == udp;
    assert OutboundUdpSum(t, pkt, Parse46(pkt, forbidden).value) == 0xffff;
  }

  lemma SumOfDatagram()
    ensures var udp: seq<byte> := [193, 223, 0, 53, 0, 8, 0, 0];
            SetWord(udp, 6, 0) == udp && WordSum(udp) == 49631 + 53 + 8
  {
    SumOfFour(193, 223, 0, 53);
    SumOfFour(0, 8, 0, 0);
    WordSumConcat([193, 223, 0, 53], [0, 8, 0, 0]);
    assert [193, 223, 0, 53] + [0, 8, 0, 0] == [193, 223, 0, 53, 0, 8, 0, 0];
  }

  lemma SumOfFour(a: byte, b: byte, c: byte, d: byte)
    ensures WordSum([a, b, c, d]) == a as int * 256 + b + c as int * 256 + d
  {
    assert [c, d][2..] == [];
    assert WordSum([c, d]) == c as int * 256 + d;
    assert [a, b, c, d][2..] == [c, d];
  }

  lemma SumOfClat()
    ensures WordSum([0x20, 1, 0x0d, 0xb8] + Zeros(10) + [0, 1]) == 0x2001 + 0x0db8 + 1
  {
    SumOfFour(0x20, 1, 0x0d, 0xb8);
    WordSumZeros([0x20, 1, 0x0d, 0xb8], 10);
    WordSumConcat([0x20, 1, 0x0d, 0xb8] + Zeros(10), [0, 1]);
    assert [0, 1][2..] == [];
  }

  // A quote that runs past its packet

  /** An ICMP error of eight bytes followed by bytes that look like the packet it quotes: the translator indexes out of
      range. OverrunNeedsTrailingBytes says when exactly. */
  lemma OverrunExists(t: Translator, forbidden: seq<byte> -> bool)
    ensures var icmp := Siit64Spec.Sealed4([3, 0, 0, 0, 0, 0, 0, 0]);
            var quote := [0x45, 0, 0, 0, 0, 0, 0, 0, 0, TCP] + Zeros(18);
            t.Outbound(Packet4([192, 0, 0, 1], [8, 8, 8, 8], ICMPV4, 8, icmp + quote), forbidden) == Crashed
  {
    hide Parse46, Translator.Outbound, Packet4, Checksum, SetWord, Siit64Spec.Sealed4;
    var bare: seq<byte> := [3, 0, 0, 0, 0, 0, 0, 0];
    var icmp := Siit64Spec.Sealed4(bare);
    Sealed4Valid(bare);
    var quote: seq<byte> := [0x45, 0, 0, 0, 0, 0, 0, 0, 0, TCP] + Zeros(18);
    var rest := icmp + quote;
    assert rest[..8] == icmp && rest[8..] == quote;
    assert icmp[0] == 3 && icmp[1] == 0 && icmp[4..] == [0, 0, 0, 0];
    assert icmp[4..][..4] == [0, 0, 0, 0];
    Packet4Parses([192, 0, 0, 1], [8, 8, 8, 8], ICMPV4, 8, rest, forbidden);
    OverrunNeedsTrailingBytes(t, Packet4([192, 0, 0, 1], [8, 8, 8, 8], ICMPV4, 8, rest), forbidden);
  }

  // Lengths on the way in

  /** What reaches the client is shorter by what the headers shrank by, at least 20 bytes: nothing above 1400 bytes
      comes of a packet of at most 1420. */
  lemma InboundLength(t: Translator, v6: seq<byte>, freshId: u16)
    requires t.Inbound(v6, freshId).Some?
    ensures var out := t.Inbound(v6, freshId).value;
            var m := Siit64Spec.Parse64(Rewrite(View6(v6), Destination, t.PlaceholderV6()).Bytes());
            m.Some? && |out| == |v6| - m.value.walked.offset + 20 && 20 <= |out| <= |v6| - 20
  {
    hide Siit64Spec.Parse64, Rewrite, V6.Bytes, V4.Bytes, Siit64Spec.TranslateIcmp64, Siit64Spec.RepairPayload64,
      Siit64Spec.SealedHead4;
  }

  /** The IPv4 length field holds the packet's length exactly up to a payload of 65515 bytes, and wraps above,
      whatever the protocol. */
  lemma InboundTotalLength(t: Translator, p: V6, freshId: u16) returns (m: Siit64Spec.Meta, q: V4)
    requires t.InboundV4(p, freshId).Some?
    ensures Parses(p, m) && t.InboundV4(p, freshId) == Some(q)
    ensures q.TotalLength() == 20 + m.payloadLength <==> m.payloadLength <= 65515
    ensures m.payloadLength > 65515 ==> q.TotalLength() == m.payloadLength - 65516
  {
    hide Translator.InboundV4, Parses, Checksum;
    m, q := InboundHeader(t, p, freshId);
  }

  // Packets to try on the way in

  /** 2001:db8::1. */
  const SOMEWHERE: Address6 := [0x20, 1, 0x0d, 0xb8] + Zeros(10) + [0, 1]

  /** An IPv6 packet of traffic class 0. */
  function Packet6(src: Address6, dst: Address6, next: byte, rest: seq<byte>): V6
    requires |rest| < 0x1_0000
  {
    V6(Head6Of(0, |rest|, next, 64), src, dst, rest)
  }

  lemma Packet6Fields(src: Address6, dst: Address6, next: byte, rest: seq<byte>)
    requires |rest| < 0x1_0000
    ensures var p := Packet6(src, dst, next, rest);
            && p.head[0] / 16 == 6 && p.NextHeader() == next && p.PayloadLength() == |rest|
            && p.src == src && p.dst == dst && p.rest == rest
  {
    hide Head6Of;
    HeadNext(0, |rest|, next, 64);
  }

  /** A UDP datagram of eight bytes with a valid checksum. */
  function ValidUdp(addrs: seq<byte>): (t: seq<byte>)
    ensures |t| == 8
  {
    var bare: seq<byte> := [0, 53, 0, 53, 0, 8, 0, 0];
    SetWord(bare, 6, Complement(Fold(TransportSum(addrs, UDP, bare))))
  }

  lemma ValidUdpIs(addrs: seq<byte>)
    ensures TransportValid(addrs, UDP, ValidUdp(addrs))
  {
    hide TransportValid, TransportSum, SetWord;
    var bare: seq<byte> := [0, 53, 0, 53, 0, 8, 0, 0];
    SealedValid(addrs, UDP, bare, 6);
  }

  /** A valid datagram from 2001:db8::1 does not arrive valid. */
  lemma InboundInvalidExists(t: Translator, freshId: u16) returns (q: V4)
    ensures var p := Packet6(SOMEWHERE, t.clatV6, UDP, ValidUdp(SOMEWHERE + t.clatV6));
            p.TransportOk() && t.InboundV4(p, freshId) == Some(q) && |q.rest| == 8 && !q.TransportOk(8)
  {
    hide TransportValid, Translator.InboundV4, Parses, Head6Of, ValidUdp, Seen;
    var udp := ValidUdp(SOMEWHERE + t.clatV6);
    var p := Packet6(SOMEWHERE, t.clatV6, UDP, udp);
    Packet6Fields(SOMEWHERE, t.clatV6, UDP, udp);
    ValidUdpIs(SOMEWHERE + t.clatV6);
    assert udp[..8] == udp;
    PlainParses(p);
    q := InboundKeepsValidity(t, p, PlainMeta(p), freshId);
    SumOfFour(0x20, 1, 0x0d, 0xb8);
    WordSumZeros([0x20, 1, 0x0d, 0xb8], 8);
    assert SOMEWHERE[..12] == [0x20, 1, 0x0d, 0xb8] + Zeros(8);
    InboundLengths(t, p, freshId);
  }

  /** The parts of a packet that arrives without extension headers. */
  lemma InboundLengths(t: Translator, p: V6, freshId: u16)
    requires t.InboundV4(p, freshId).Some? && Plain(p)
    ensures |t.InboundV4(p, freshId).value.rest| == |p.rest|
  {
    hide Translator.InboundV4, Siit64Spec.Headers64, HasHead;
    PlainParses(p);
    var m, q := InboundHeader(t, p, freshId);
  }

  /** Behind a hop-by-hop header a valid datagram from 8.8.8.8 does not arrive valid either, at 192.0.0.1 by way of
      2001:db8::1. */
  lemma InboundHiddenExists(freshId: u16) returns (q: V4)
    ensures var t := Translator([192, 0, 0, 1], SOMEWHERE);
            var addrs := PREFIX + [8, 8, 8, 8] + SOMEWHERE;
            var p := Packet6(PREFIX + [8, 8, 8, 8], SOMEWHERE, HOP_BY_HOP,
                [UDP, 0, 0, 0, 0, 0, 0, 0] + ValidUdp(addrs));
            && TransportValid(addrs, UDP, ValidUdp(addrs))
            && t.InboundV4(p, freshId) == Some(q) && |q.rest| >= 8 && !q.TransportOk(8)
  {
    hide TransportValid, Translator.InboundV4, Parses, Head6Of, ValidUdp, WordSum;
    var t := Translator([192, 0, 0, 1], SOMEWHERE);
    var src: Address6 := PREFIX + [8, 8, 8, 8];
    var udp := ValidUdp(src + SOMEWHERE);
    var rest := [UDP, 0, 0, 0, 0, 0, 0, 0] + udp;
    var p := Packet6(src, SOMEWHERE, HOP_BY_HOP, rest);
    Packet6Fields(src, SOMEWHERE, HOP_BY_HOP, rest);
    ValidUdpIs(src + SOMEWHERE);
    var m := HopByHopParses(p, UDP);
    assert Tail(p, m)[..8] == udp;
    q := InboundKeepsValidity(t, p, m, freshId);
    PrefixSum();
    assert src[..12] == PREFIX;
    SumOfClat();
    SumOfFour(192, 0, 0, 1);
  }

  lemma HopByHopParses(p: V6, next: byte) returns (m: Siit64Spec.Meta)
    requires p.head[0] / 16 == 6 && p.NextHeader() == HOP_BY_HOP && 8 <= p.PayloadLength() <= |p.rest|
    requires p.rest[0] == next && p.rest[1] == 0 && !IsExtensionHeader(next) && !ForbiddenForIPv6(next)
    ensures m == Siit64Spec.Meta(Siit64Spec.Walked(None, next, 48), p.PayloadLength() - 8) && Parses(p, m)
            && !Seen(p, m)
  {
    hide V6.Bytes;
    var s := p.Bytes();
    BytesOf(p);
    var chain := s[..40 + Word(s, 4)];
    assert chain[40] == s[40..][0] && chain[41] == s[40..][1];
    assert Siit64Spec.Walk(chain, HOP_BY_HOP, 40, None) == Siit64Spec.Walk(chain, next, 48, None);
    m := Siit64Spec.Meta(Siit64Spec.Walked(None, next, 48), p.PayloadLength() - 8);
  }

  /** A TCP packet of four bytes reaches the client with the end of the CLAT address as destination. */
  lemma InboundDestinationExists(t: Translator, freshId: u16)
    ensures var q := t.InboundV4(Packet6(PREFIX + [8, 8, 8, 8], t.clatV6, TCP, [0, 80, 0, 80]), freshId);
            q.Some? && q.value.dst == t.clatV6[12..]
  {
    hide Translator.InboundV4, Parses, Head6Of;
    var p := Packet6(PREFIX + [8, 8, 8, 8], t.clatV6, TCP, [0, 80, 0, 80]);
    Packet6Fields(PREFIX + [8, 8, 8, 8], t.clatV6, TCP, [0, 80, 0, 80]);
    PlainParses(p);
    InboundPacket(t, p, PlainMeta(p), freshId);
  }

  /** A TCP packet with a payload of 65535 bytes arrives with 19 in the length field. */
  lemma InboundTotalLengthExists(t: Translator, freshId: u16)
    ensures var q := t.InboundV4(Packet6(PREFIX + [8, 8, 8, 8], t.clatV6, TCP, Zeros(65535)), freshId);
            q.Some? && q.value.TotalLength() == 19
  {
    hide Translator.InboundV4, Siit64Spec.Headers64, Head6Of, HasHead;
    var p := Packet6(PREFIX + [8, 8, 8, 8], t.clatV6, TCP, Zeros(65535));
    Packet6Fields(PREFIX + [8, 8, 8, 8], t.clatV6, TCP, Zeros(65535));
    PlainParses(p);
    InboundPacket(t, p, PlainMeta(p), freshId);
    var m, q := InboundTotalLength(t, p, freshId);
  }
}
