/** What translating an IPv4 packet to IPv6 means: the packet that internal/clat/siit46.go leaves in the buffer,
    as a function of the packet it found there (sections 4.1 to 4.4 of RFC 7915). */
module Siit46Spec {
  import opened Wrappers
  import opened Bytes
  import opened OnesComplement
  import opened Wire

  const IPV6_OUTBOUND_MTU := 1420
  const IPV4_OUTBOUND_MTU := 1400
  const IPV4_MINIMUM_MTU := 68
  const IPV6_MINIMUM_MTU := 1280
  const PLATEAUS: seq<u16> := [65535, 32000, 17914, 8166, 4352, 2002, 1492, 1006, 508, 296, 68, 0]

  // Parsing

  datatype Meta = Meta(headerLength: nat, totalLength: u16, payloadLength: u16, protocol: byte,
                       moreFragments: bool, fragmentOffset: nat)
  {
    predicate IsFragmented() { moreFragments || fragmentOffset != 0 }

    /** The IPv6 headers this packet needs. */
    function HeaderRoom(): nat { if IsFragmented() then 48 else 40 }
  }

  /** The header fields of a translatable packet. Whether IPv4 options forbid translation (a source route, or
      options that do not parse) is decided by forbidden. */
  function Parse46(pkt: seq<byte>, forbidden: seq<byte> -> bool): (r: Option<Meta>)
    ensures r.Some? ==>
              var m := r.value;
              && Version(pkt) == 4 && 20 <= m.headerLength <= 60 && m.headerLength % 4 == 0
              && m.headerLength <= m.totalLength <= |pkt|
              && m.payloadLength == m.totalLength - m.headerLength
              && m.protocol == pkt[9] && !ForbiddenForIPv4(m.protocol)
              && m.moreFragments == MoreFragments4(pkt) && m.fragmentOffset == FragmentOffset4(pkt)
              && (m.protocol == ICMPV4 ==> !m.IsFragmented() && m.payloadLength >= 8)
  {
    if Version(pkt) != 4 || |pkt| < 20 then None
    else
      var hl := HeaderLength4(pkt);
      var total := Word(pkt, 2);
      if hl < 20 || hl > |pkt| || hl > total || total > |pkt| then None
      else if ForbiddenForIPv4(pkt[9]) || Flags4(pkt) >= 4 then None
      else
        var m := Meta(hl, total, total - hl, pkt[9], MoreFragments4(pkt), FragmentOffset4(pkt));
        if m.moreFragments && m.payloadLength % 8 != 0 then None
        else if Checksum(pkt[..hl]) != 0xffff then None
        else if hl != 20 && forbidden(pkt[20..hl]) then None
        else if m.protocol == ICMPV4 && (m.IsFragmented() || !IcmpTranslatable46(pkt[hl..total])) then None
        else Some(m)
  }

  predicate IcmpTranslatable46(t: seq<byte>) {
    |t| >= 8 && Checksum(t) == 0xffff && IcmpHeaderTranslatable46(t[0], t[1], t[4..])
  }

  predicate IcmpHeaderTranslatable46(typ: byte, code: byte, rest: seq<byte>)
    requires |rest| >= 4
  {
    if typ == 8 || typ == 0 then code == 0
    else if typ == 3 then
      || (code == 4 && rest[0] == 0 && rest[1] == 0)
      || (code in {0, 1, 2, 3, 5, 6, 7, 8, 9, 10, 11, 12, 13, 15} && rest[..4] == [0, 0, 0, 0])
    else if typ == 11 then (code == 0 || code == 1) && rest[..4] == [0, 0, 0, 0]
    else if typ == 12 then
      && (code == 0 || code == 2) && rest[1..4] == [0, 0, 0]
      && (rest[0] <= 3 || 8 <= rest[0] <= 9 || 12 <= rest[0] <= 19)
    else false
  }

  // Headers

  function Head6Of(tos: byte, payloadLength: u16, next: byte, hopLimit: byte): Head6
  {
    [0x60 + tos / 16, tos % 16 * 16, 0, 0] + Be16(payloadLength) + [next, hopLimit]
  }

  function Translated4(a: Address4): Address6
  {
    PREFIX + a
  }

  /** The IPv6 source and destination of a translated packet. */
  function Addresses46(pkt: seq<byte>): (a: seq<byte>)
    requires |pkt| >= 20
    ensures |a| == 32
  {
    Translated4(pkt[12..16]) + Translated4(pkt[16..20])
  }

  function NextHeaderOf(protocol: byte): byte
  {
    if protocol == ICMPV4 then ICMPV6 else protocol
  }

  /** A fragment extension header; the offset field counts 8-byte units, so its low bits are free for the flag. */
  function FragmentHeader(next: byte, fragmentOffset: u16, moreFragments: bool, id: u16): (f: seq<byte>)
    requires fragmentOffset % 8 == 0
    ensures |f| == 8
  {
    [next, 0, fragmentOffset / 256, fragmentOffset % 256 + if moreFragments then 1 else 0, 0, 0, id / 256, id % 256]
  }

  /** The IPv6 packet with the headers made from the IPv4 header at the front of pkt, around a payload. */
  function Enclose(pkt: seq<byte>, m: Meta, payloadLength: nat, rest: seq<byte>): V6
    requires |pkt| >= 20 && m.fragmentOffset % 8 == 0 && m.fragmentOffset < 0x1_0000
    requires payloadLength + (if m.IsFragmented() then 8 else 0) < 0x1_0000
  {
    var src, dst := Translated4(pkt[12..16]), Translated4(pkt[16..20]);
    if m.IsFragmented() then
      V6(Head6Of(pkt[1], payloadLength + 8, FRAGMENT, pkt[8]), src, dst,
          FragmentHeader(NextHeaderOf(m.protocol), m.fragmentOffset, m.moreFragments, Word(pkt, 4)) + rest)
    else
      V6(Head6Of(pkt[1], payloadLength, NextHeaderOf(m.protocol), pkt[8]), src, dst, rest)
  }

  // Transports with a pseudo-header

  function Delta46(): u16
  {
    Combine(Checksum(PREFIX), Checksum(PREFIX))
  }

  function Bumped46(field: u16): u16
  {
    Complement(Combine(Complement(field), Delta46()))
  }

  /** The checksum of a UDP datagram that came without one. */
  function UdpChecksum(addrs: seq<byte>, t: seq<byte>): u16
  {
    Complement(Fold(TransportSum(addrs, UDP, t)))
  }

  /** The payload (and what trails it) with its checksum repaired; None when a first fragment lacks the checksum. */
  function RepairPayload46(addrs: seq<byte>, m: Meta, rest: seq<byte>): (r: Option<seq<byte>>)
    requires m.payloadLength <= |rest|
    ensures r.Some? ==> |r.value| == |rest|
  {
    if m.fragmentOffset != 0 || !HasPseudoHeader(m.protocol) || m.payloadLength < TransportMinimum(m.protocol) then
      Some(rest)
    else if m.protocol == UDP && Word(rest, 6) == 0 then
      if m.IsFragmented() then None
      else Some(SetWord(rest, 6, UdpChecksum(addrs, rest[..m.payloadLength])))
    else
      Some(SetWord(rest, TransportField(m.protocol), Bumped46(Word(rest, TransportField(m.protocol)))))
  }

  // ICMP

  /** The largest plateau MTU that is at least the IPv4 minimum and below length, from plateau i on; 0 if there is
      none. */
  function PlateauFrom(i: nat, length: u16): u16
    decreases |PLATEAUS| - i
  {
    if i >= |PLATEAUS| || PLATEAUS[i] < IPV4_MINIMUM_MTU then 0
    else if PLATEAUS[i] < length then PLATEAUS[i]
    else PlateauFrom(i + 1, length)
  }

  function Max(a: int, b: int): int { if a < b then b else a }
  function Min(a: int, b: int): int { if a < b then a else b }

  /** The MTU an ICMPv4 Fragmentation Needed message stands for; a router that reports none leaves the plateau
      below the length of the quoted packet. */
  function ReportedMtu46(t: seq<byte>): (mtu: u16)
    requires |t| >= 8
  {
    var mtu := Word(t, 6);
    if mtu >= IPV4_MINIMUM_MTU then mtu
    else if |t| < 8 + 20 then IPV4_MINIMUM_MTU
    else Max(IPV4_MINIMUM_MTU, PlateauFrom(0, Word(t, 10)))
  }

  function Mtu46(mtu4: u16): (mtu6: u32)
  {
    Max(IPV6_MINIMUM_MTU, Min(mtu4 + 20, Min(IPV6_OUTBOUND_MTU, IPV4_OUTBOUND_MTU + 20)))
  }

  function Pointer46(pointer: byte, otherwise: byte): byte
  {
    if pointer == 0 then 0
    else if pointer == 1 then 1
    else if pointer == 2 || pointer == 3 then 4
    else if pointer == 8 then 7
    else if pointer == 9 then 6
    else if 12 <= pointer <= 15 then 8
    else if 16 <= pointer <= 19 then 24
    else otherwise
  }

  predicate IsError46(typ: byte) {
    typ == 3 || typ == 11 || typ == 12
  }

  /** The first 8 bytes of the ICMPv6 message for the ICMPv4 message t (its checksum still the old one). */
  function IcmpHead46(t: seq<byte>): (h: seq<byte>)
    requires |t| >= 8
    ensures |h| == 8
  {
    var sum := t[2..4];
    if t[0] == 8 then [128] + t[1..8]
    else if t[0] == 0 then [129] + t[1..8]
    else if t[0] == 3 then
      if t[1] in {0, 1, 5, 6, 7, 8, 11, 12} then [1, 0] + t[2..8]
      else if t[1] in {9, 10, 13, 15} then [1, 1] + t[2..8]
      else if t[1] == 2 then [4, 1] + sum + Be32(6)
      else if t[1] == 3 then [1, 4] + t[2..8]
      else if t[1] == 4 then [2, 0] + sum + Be32(Mtu46(ReportedMtu46(t)))
      else t[..8]
    else if t[0] == 11 then [3] + t[1..8]
    else if t[0] == 12 then [4, 0] + sum + [0] + t[5..7] + [Pointer46(t[4], t[7])]
    else t[..8]
  }

  /** A quoted packet the translator knows how to expand. */
  predicate QuoteTranslatable46(q: seq<byte>) {
    && |q| >= 20 && Version(q) == 4 && HeaderLength4(q) == 20
    && !MoreFragments4(q) && FragmentOffset4(q) == 0
    && (|| ((q[9] == TCP || q[9] == UDP) && |q| >= 28)
        || (q[9] == ICMPV4 && |q| >= 28 && (q[20] == 8 || q[20] == 0)))
  }

  /** Subtraction of 16-bit lengths, which wraps. */
  function Sub16(a: u16, b: u16): u16
  {
    (a - b) % 0x1_0000
  }

  function QuoteHead46(q: seq<byte>): (h: seq<byte>)
    requires |q| >= 20
    ensures |h| == 40
  {
    Head6Of(q[1], Sub16(Word(q, 2), 20), NextHeaderOf(q[9]), q[8]) + Addresses46(q)
  }

  /** The checksum of an ICMPv6 message that covers these addresses. */
  function Sealed6(addrs: seq<byte>, t: seq<byte>): (r: seq<byte>)
    requires |t| >= 4
    ensures |r| == |t|
  {
    SetWord(t, 2, Complement(Fold(TransportSum(addrs, ICMPV6, SetWord(t, 2, 0)))))
  }

  /** The quoted transport bytes: TCP and UDP as captured, ICMP echo with its type and checksum for IPv6. */
  function QuotePayload46(q: seq<byte>, t: seq<byte>): (r: seq<byte>)
    requires |q| >= 20 && (q[9] == ICMPV4 ==> |t| >= 4)
    ensures |r| == |t|
  {
    if q[9] == ICMPV4 then Sealed6(Addresses46(q), t[0 := if t[0] == 8 then 128 else 129]) else t
  }

  datatype Icmp46 =
    | Overrun                               // the quote runs past the packet: the translator would index out of range
    | Message(rest: seq<byte>, length: u16) // the ICMPv6 message and what trails it, and the length of the message

  /** Whether the quote is expanded but its bytes, or those of a quoted ICMP header, end before the packet does. */
  predicate QuoteOverruns46(t: seq<byte>, n: nat)
    requires 8 <= n <= |t|
  {
    QuoteTranslatable46(t[8..]) && n - 8 < (if t[17] == ICMPV4 then 24 else 20)
  }

  /** The ICMPv6 message for an ICMPv4 message of n bytes at the front of t, with or without its quote expanded. */
  function MessageOf(t: seq<byte>, n: u16, expand: bool): (r: Icmp46)
    requires 8 <= n <= |t| && n + 20 < 0x1_0000
    requires expand ==> QuoteTranslatable46(t[8..]) && !QuoteOverruns46(t, n)
    ensures r.Message? && 8 <= r.length <= |r.rest| && |r.rest| - r.length == |t| - n
    ensures r.length == if expand then n + 20 else n
  {
    var head, q := IcmpHead46(t), t[8..];
    if expand then Message(head + QuoteHead46(q) + QuotePayload46(q, t[28..n]) + t[n..], n + 20)
    else Message(head + q, n)
  }

  /** An error's quote is expanded when it is translatable and there is headroom for the expansion. */
  function TranslateIcmp46(t: seq<byte>, n: u16, headroom: nat): (r: Icmp46)
    requires 8 <= n <= |t| && n + 20 < 0x1_0000
    ensures r.Message? ==> 8 <= r.length <= |r.rest|
  {
    var expand := IsError46(t[0]) && QuoteTranslatable46(t[8..]) && headroom >= HEADER_GROWTH;
    if expand && QuoteOverruns46(t, n) then Overrun else MessageOf(t, n, expand)
  }

  // Packets

  datatype Outcome46 = Untranslated | Dropped | Panicked | Translated(packet: V6)

  /** There is headroom for the new headers, and the old one can be saved without the 8-bit offset wrapping. */
  predicate HasRoom46(reserved: int, m: Meta) {
    m.HeaderRoom() <= reserved && reserved - m.HeaderRoom() + m.headerLength <= 255
  }

  function SealPacket(p: V6): V6
    requires 4 <= p.PayloadLength() <= |p.rest|
  {
    p.(rest := Sealed6(p.src + p.dst, p.Payload()) + p.rest[p.PayloadLength()..])
  }

  /** The outcome for a packet that has room for its headers, which leave the given headroom. */
  function Finish46(pkt: seq<byte>, m: Meta, reserved: nat): Outcome46
    requires |pkt| >= 20 && m.headerLength + m.payloadLength <= |pkt| && m.payloadLength + 20 < 0x1_0000
    requires m.fragmentOffset % 8 == 0 && m.fragmentOffset < 0x1_0000
    requires m.protocol == ICMPV4 ==> !m.IsFragmented() && m.payloadLength >= 8
  {
    var rest := pkt[m.headerLength..];
    if m.protocol == ICMPV4 then
      match TranslateIcmp46(rest, m.payloadLength, reserved)
      case Overrun => Panicked
      case Message(icmp, length) => Translated(SealPacket(Enclose(pkt, m, length, icmp)))
    else
      match RepairPayload46(Addresses46(pkt), m, rest)
      case None => Dropped
      case Some(repaired) => Translated(Enclose(pkt, m, m.payloadLength, repaired))
  }

  /** What becomes of a packet, with the given headroom before it. */
  function Translate46(pkt: seq<byte>, reserved: int, forbidden: seq<byte> -> bool): Outcome46
  {
    match Parse46(pkt, forbidden)
    case None => Untranslated
    case Some(m) =>
      if !HasRoom46(reserved, m) then Dropped else Finish46(pkt, m, reserved - m.HeaderRoom() + m.headerLength)
  }
}
