/** What translating an IPv6 packet to IPv4 means: the packet that internal/clat/siit64.go leaves in the buffer,
    as a function of the packet it found there (sections 5.1 to 5.4 of RFC 7915). */
module Siit64Spec {
  import opened Wrappers
  import opened Bytes
  import opened OnesComplement
  import opened Wire
  import Siit46Spec

  // Parsing

  /** Where the extension headers end: the fragment header's offset, if there is one, the transport protocol and its
      offset. */
  datatype Walked = Walked(fragment: Option<nat>, next: byte, offset: nat)

  /** A fragment header whose reserved fields are not zero does not translate. */
  predicate FragmentTranslatable(p: seq<byte>, off: nat)
    requires off + 8 <= |p|
  {
    p[off + 1] == 0 && p[off + 3] / 2 % 4 == 0
  }

  /** The chain of extension headers of p from offset off on, whose first header has type next. */
  function Walk(p: seq<byte>, next: byte, off: nat, fragment: Option<nat>): (r: Option<Walked>)
    requires off <= |p|
    ensures r.Some? ==>
              && off <= r.value.offset <= |p| && r.value.offset % 8 == off % 8
              && !ForbiddenForIPv6(r.value.next)
              && (r.value.fragment.Some? && fragment.None? ==>
                    off <= r.value.fragment.value && r.value.fragment.value + 8 == r.value.offset
                    && FragmentTranslatable(p, r.value.fragment.value))
              && (fragment.Some? ==> r.value == Walked(fragment, next, off))
    decreases |p| - off
  {
    if fragment.Some? || !IsExtensionHeader(next) then
      if ForbiddenForIPv6(next) then None else Some(Walked(fragment, next, off))
    else if |p| - off < 8 then None
    else if next == ROUTING && p[off + 3] != 0 then None
    else if next == FRAGMENT && !FragmentTranslatable(p, off) then None
    else
      var size := 8 + p[off + 1] as int * 8;
      if |p| - off < size then None
      else Walk(p, p[off], off + size, if next == FRAGMENT then Some(off) else None)
  }

  datatype Meta = Meta(walked: Walked, payloadLength: u16) {
    /** The packet is one of several fragments (a lone fragment header does not make it one). */
    predicate IsFragment(pkt: seq<byte>)
      requires walked.fragment.Some? ==> walked.fragment.value + 8 <= |pkt|
    {
      walked.fragment.Some?
          && (MoreFragments6(pkt, walked.fragment.value) || FragmentOffset6(pkt, walked.fragment.value) != 0)
    }
  }

  /** The headers of a packet: where its payload begins, and how long it is. */
  function Headers64(pkt: seq<byte>): (r: Option<Meta>)
    ensures r.Some? ==>
              var w, n := r.value.walked, r.value.payloadLength;
              && |pkt| >= 40 && 40 <= w.offset && w.offset % 8 == 0 && w.offset + n == 40 + Word(pkt, 4) <= |pkt|
              && !ForbiddenForIPv6(w.next)
              && (w.fragment.Some? ==> 40 <= w.fragment.value && w.fragment.value + 8 == w.offset)
  {
    if Version(pkt) != 6 || |pkt| < 40 || |pkt| < 40 + Word(pkt, 4) then None
    else
      match Walk(pkt[..40 + Word(pkt, 4)], pkt[6], 40, None)
      case None => None
      case Some(w) =>
        var m := Meta(w, 40 + Word(pkt, 4) - w.offset);
        if w.fragment.Some? && MoreFragments6(pkt, w.fragment.value) && m.payloadLength % 8 != 0 then None else Some(m)
  }

  function Parse64(pkt: seq<byte>): (r: Option<Meta>)
    ensures r.Some? ==>
              var w, n := r.value.walked, r.value.payloadLength;
              && |pkt| >= 40 && 40 <= w.offset && w.offset % 8 == 0 && w.offset + n == 40 + Word(pkt, 4) <= |pkt|
              && !ForbiddenForIPv6(w.next)
              && (w.fragment.Some? ==> 40 <= w.fragment.value && w.fragment.value + 8 == w.offset)
              && (w.next == ICMPV6 ==> !r.value.IsFragment(pkt) && n >= 8)
  {
    match Headers64(pkt)
    case None => None
    case Some(m) =>
      if m.walked.next != ICMPV6 then Some(m)
      else if m.IsFragment(pkt) then None
      else if !IcmpTranslatable64(pkt[8..40], pkt[m.walked.offset..m.walked.offset + m.payloadLength]) then None
      else Some(m)
  }

  predicate IcmpTranslatable64(addrs: seq<byte>, t: seq<byte>) {
    |t| >= 8 && TransportValid(addrs, ICMPV6, t) && IcmpHeaderTranslatable64(t[0], t[1], t[4..])
  }

  predicate IcmpHeaderTranslatable64(typ: byte, code: byte, rest: seq<byte>)
    requires |rest| >= 4
  {
    if typ == 128 || typ == 129 then code == 0
    else if typ == 1 then code <= 4
    else if typ == 2 then code == 0 && rest[0] == 0 && rest[1] == 0
    else if typ == 3 then code == 0 || code == 1
    else if typ == 4 then
      || (code == 0 && rest[..3] == [0, 0, 0] && (rest[3] <= 1 || 4 <= rest[3] <= 39))
      || (code == 1 && rest[..4] == [0, 0, 0, 0])
    else false
  }

  // Headers

  function ProtocolOf(next: byte): byte
  {
    if next == ICMPV6 then ICMPV4 else next
  }

  /** The first 12 bytes of an IPv4 header, with a checksum word. */
  function Head4Of(tos: byte, total: u16, id: u16, fragment: u16, ttl: byte, protocol: byte, checksum: u16): Head4
  {
    [0x45, tos] + Be16(total) + Be16(id) + Be16(fragment) + [ttl, protocol] + Be16(checksum)
  }

  /** The checksum of an IPv4 header whose checksum word is zero. */
  function HeaderChecksum(head: Head4, src: Address4, dst: Address4): u16
  {
    Complement(Checksum(head + src + dst))
  }

  /** An IPv4 header with its checksum. */
  function SealedHead4(tos: byte, total: u16, id: u16, fragment: u16, ttl: byte, protocol: byte, src: Address4,
      dst: Address4): Head4
  {
    Head4Of(tos, total, id, fragment, ttl, protocol,
            HeaderChecksum(Head4Of(tos, total, id, fragment, ttl, protocol, 0), src, dst))
  }

  /** 16-bit addition of lengths, which wraps. */
  function Add16(a: nat, b: nat): u16
  {
    (a + b) % 0x1_0000
  }

  /** The flags and offset word: DF is never set, MF and the offset are those of the fragment header. */
  function FragmentWord(pkt: seq<byte>, m: Meta): u16
    requires m.walked.fragment.Some? ==> m.walked.fragment.value + 8 <= |pkt|
  {
    if m.IsFragment(pkt) then
      var f := m.walked.fragment.value;
      (if MoreFragments6(pkt, f) then 0x2000 else 0) + FragmentOffset6(pkt, f) / 8
    else 0
  }

  /** The identification: that of the fragment header, or a fresh one. */
  function Identification(pkt: seq<byte>, m: Meta, freshId: u16): u16
    requires m.walked.fragment.Some? ==> m.walked.fragment.value + 8 <= |pkt|
  {
    if m.IsFragment(pkt) then Word(pkt, m.walked.fragment.value + 6) else freshId
  }

  /** The offset of the transport bytes in the datagram. */
  function DatagramOffset(pkt: seq<byte>, m: Meta): nat
    requires m.walked.fragment.Some? ==> m.walked.fragment.value + 8 <= |pkt|
  {
    if m.IsFragment(pkt) then FragmentOffset6(pkt, m.walked.fragment.value) else 0
  }

  /** The IPv4 packet with the header made from the IPv6 headers of pkt, around a payload. */
  function Enclose(pkt: seq<byte>, m: Meta, freshId: u16, rest: seq<byte>): V4
    requires |pkt| >= 40 && (m.walked.fragment.Some? ==> m.walked.fragment.value + 8 <= |pkt|)
  {
    var src, dst := pkt[20..24], pkt[36..40];
    V4(SealedHead4(pkt[0] % 16 * 16 + pkt[1] / 16, Add16(20, m.payloadLength), Identification(pkt, m, freshId),
                   FragmentWord(pkt, m), pkt[7], ProtocolOf(m.walked.next), src, dst),
       src, dst, rest)
  }

  // Transports with a pseudo-header

  function Delta64(prefix: seq<byte>): u16
  {
    Combine(Complement(Checksum(PREFIX)), Complement(Checksum(prefix)))
  }

  function Bumped64(field: u16, prefix: seq<byte>): u16
  {
    Complement(Combine(Complement(field), Delta64(prefix)))
  }

  /** The transport bytes (and what trails them) with their checksum repaired for a destination prefix. */
  function RepairPayload64(prefix: seq<byte>, offset: nat, proto: byte, n: nat, rest: seq<byte>): (r: seq<byte>)
    requires n <= |rest|
    ensures |r| == |rest|
  {
    if offset != 0 || !HasPseudoHeader(proto) || n < TransportMinimum(proto) then rest
    else SetWord(rest, TransportField(proto), Bumped64(Word(rest, TransportField(proto)), prefix))
  }

  // ICMP

  function Mtu64(mtu6: u16): (mtu4: u16)
  {
    var max, min := Siit46Spec.Max, Siit46Spec.Min;
    max(Siit46Spec.IPV4_MINIMUM_MTU,
        min(max(20, mtu6) - 20, min(Siit46Spec.IPV4_OUTBOUND_MTU, Siit46Spec.IPV6_OUTBOUND_MTU - 20)))
  }

  function Pointer64(pointer: byte, otherwise: byte): byte
  {
    if pointer <= 1 then pointer
    else if pointer == 4 || pointer == 5 then 2
    else if pointer == 6 then 9
    else if pointer == 7 then 8
    else if 8 <= pointer <= 23 then 12
    else if 24 <= pointer <= 39 then 16
    else otherwise
  }

  function UnreachableCode64(code: byte): byte
  {
    if code == 0 || code == 2 || code == 3 then 1
    else if code == 1 then 10
    else if code == 4 then 3
    else code
  }

  predicate IsError64(typ: byte) {
    1 <= typ <= 4
  }

  /** The first 8 bytes of the ICMPv4 message for the ICMPv6 message t (its checksum still the old one). */
  function IcmpHead64(t: seq<byte>): (h: seq<byte>)
    requires |t| >= 8
    ensures |h| == 8
  {
    if t[0] == 128 then [8] + t[1..8]
    else if t[0] == 129 then [0] + t[1..8]
    else if t[0] == 1 then [3, UnreachableCode64(t[1])] + t[2..8]
    else if t[0] == 2 then [3, 4] + t[2..6] + Be16(Mtu64(Word(t, 6)))
    else if t[0] == 3 then [11] + t[1..8]
    else if t[0] == 4 && t[1] == 0 then [12, 0] + t[2..4] + [Pointer64(t[7], t[4])] + t[5..7] + [0]
    else if t[0] == 4 && t[1] == 1 then [3, 2] + t[2..4] + [0, 0, 0, 0]
    else t[..8]
  }

  predicate QuoteTranslatable64(q: seq<byte>) {
    && |q| >= 40 && Version(q) == 6 && !IsExtensionHeader(q[6])
    && (q[6] == ICMPV6 ==> |q| >= 48 && (q[40] == 128 || q[40] == 129))
  }

  function QuoteHead64(q: seq<byte>): (h: seq<byte>)
    requires |q| >= 40
    ensures |h| == 20
  {
    var src, dst := q[20..24], q[36..40];
    SealedHead4(q[0] % 16 * 16 + q[1] / 16, Add16(20, Word(q, 4)), 0, 0, q[7], ProtocolOf(q[6]), src, dst) + src + dst
  }

  /** The checksum of an ICMPv4 message. */
  function Sealed4(t: seq<byte>): (r: seq<byte>)
    requires |t| >= 4
    ensures |r| == |t|
  {
    SetWord(t, 2, Complement(Checksum(SetWord(t, 2, 0))))
  }

  /** The quoted transport bytes, moved up and followed by as many zero bytes as the header shrank by; the type and the
      checksum of a quoted ICMP echo are those for IPv4. */
  function QuotePayload64(q: seq<byte>): (r: seq<byte>)
    requires |q| >= 40 && (q[6] == ICMPV6 ==> |q| >= 44)
    ensures |r| == |q| - 20
  {
    var moved := q[40..] + Zeros(20);
    if q[6] == ICMPV6 then Sealed4(moved[0 := if moved[0] == 128 then 8 else 0]) else moved
  }

  /** The ICMPv4 message for an ICMPv6 message, of the same length. */
  function TranslateIcmp64(t: seq<byte>): (r: seq<byte>)
    requires |t| >= 8
    ensures |r| == |t|
  {
    var head, q := IcmpHead64(t), t[8..];
    Sealed4(head + if IsError64(t[0]) && QuoteTranslatable64(q) then QuoteHead64(q) + QuotePayload64(q) else q)
  }

  // Packets

  predicate HasRoom64(reserved: nat) {
    reserved >= 20
  }

  /** The translated packet, or None when the translator declines. */
  function Translate64(pkt: seq<byte>, reserved: nat, freshId: u16): Option<V4>
  {
    match Parse64(pkt)
    case None => None
    case Some(m) =>
      if !HasRoom64(reserved) then None
      else
        var rest, n := pkt[m.walked.offset..], m.payloadLength;
        if m.walked.next == ICMPV6 then
          Some(Enclose(pkt, m, freshId, TranslateIcmp64(rest[..n]) + rest[n..]))
        else
          Some(Enclose(pkt, m, freshId, RepairPayload64(pkt[24..36], DatagramOffset(pkt, m), m.walked.next, n, rest)))
  }
}
