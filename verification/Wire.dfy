/** The IPv4 and IPv6 wire formats the translator works on: constants and field accessors. */
module Wire {
  import opened Bytes
  import opened OnesComplement

  const MESSAGE_TRANSPORT_HEADER_SIZE := 16
  const IPV4_MINIMUM_SIZE := 20
  const IPV6_FIXED_SIZE := 40
  const FRAGMENT_HEADER_SIZE := 8
  const HEADER_GROWTH := IPV6_FIXED_SIZE - IPV4_MINIMUM_SIZE
  const ICMP_MINIMUM_SIZE := 8
  const ICMP_CHECKSUM_OFFSET := 2
  const SOURCE_OFFSET := 8
  const DESTINATION_OFFSET := 24

  const TCP: byte := 6
  const UDP: byte := 17
  const DCCP: byte := 33
  const ICMPV4: byte := 1
  const ICMPV6: byte := 58
  const IGMP: byte := 2
  const HOP_BY_HOP: byte := 0
  const ROUTING: byte := 43
  const FRAGMENT: byte := 44
  const AUTHENTICATION: byte := 51
  const DESTINATION_OPTIONS: byte := 60
  const MOBILITY: byte := 135
  const HIP: byte := 139
  const SHIM6: byte := 140

  /** The well-known prefix 64:ff9b::/96. */
  const PREFIX: seq<byte> := [0x00, 0x64, 0xff, 0x9b, 0, 0, 0, 0, 0, 0, 0, 0]

  type Address4 = s: seq<byte> | |s| == 4 witness [0, 0, 0, 0]
  type Address6 = s: seq<byte> | |s| == 16 witness [0, 0, 0, 0, 0, 0, 0, 0, 0, 0, 0, 0, 0, 0, 0, 0]

  // Transports whose checksum covers the pseudo-header

  predicate HasPseudoHeader(proto: byte) {
    proto == TCP || proto == DCCP || proto == UDP
  }

  /** The smallest header of such a transport. */
  function TransportMinimum(proto: byte): nat
  {
    if proto == TCP then 20 else if proto == DCCP then 12 else 8
  }

  /** Where its checksum field stands. */
  function TransportField(proto: byte): (c: nat)
    ensures c % 2 == 0 && c + 2 <= TransportMinimum(proto)
  {
    if proto == TCP then 16 else 6
  }

  predicate ForbiddenForIPv4(proto: byte) {
    proto in {HOP_BY_HOP, IGMP, ROUTING, FRAGMENT, AUTHENTICATION, ICMPV6, DESTINATION_OPTIONS, MOBILITY, HIP, SHIM6}
  }

  predicate ForbiddenForIPv6(proto: byte) {
    proto in {HOP_BY_HOP, ICMPV4, IGMP, ROUTING, FRAGMENT, AUTHENTICATION, DESTINATION_OPTIONS, MOBILITY, HIP, SHIM6}
  }

  predicate IsExtensionHeader(proto: byte) {
    proto in {HOP_BY_HOP, ROUTING, FRAGMENT, DESTINATION_OPTIONS}
  }

  function Version(s: seq<byte>): int
  {
    if |s| == 0 then -1 else s[0] / 16
  }

  // IPv4 header fields

  function HeaderLength4(h: seq<byte>): nat
    requires |h| >= 1
  {
    h[0] % 16 * 4
  }

  function Flags4(h: seq<byte>): nat
    requires |h| >= 8
  {
    Word(h, 6) / 8192
  }

  predicate MoreFragments4(h: seq<byte>)
    requires |h| >= 8
  {
    Flags4(h) % 2 == 1
  }

  /** The fragment offset in bytes. */
  function FragmentOffset4(h: seq<byte>): (o: nat)
    requires |h| >= 8
    ensures o % 8 == 0 && o < 0x1_0000
  {
    Word(h, 6) % 8192 * 8
  }

  // IPv6 packets

  type Head6 = s: seq<byte> | |s| == 8 witness [0, 0, 0, 0, 0, 0, 0, 0]

  /** An IPv6 packet in parts: the first 8 bytes of its header, the two addresses, and all the bytes that follow
      (extension headers, payload, and whatever trails the declared length). */
  datatype V6 = V6(head: Head6, src: Address6, dst: Address6, rest: seq<byte>) {
    function Bytes(): (s: seq<byte>)
      ensures |s| == 40 + |rest|
    {
      head + src + dst + rest
    }

    function PayloadLength(): u16 { Word(head, 4) }

    function NextHeader(): byte { head[6] }

    function HopLimit(): byte { head[7] }

    function Tos(): byte { head[0] % 16 * 16 + head[1] / 16 }

    /** The bytes the payload length field declares. */
    function Payload(): seq<byte>
      requires PayloadLength() <= |rest|
    {
      rest[..PayloadLength()]
    }

    /** Without extension headers: the transport checksum is valid. */
    predicate TransportOk()
      requires PayloadLength() <= |rest|
    {
      TransportValid(src + dst, NextHeader(), Payload())
    }
  }

  function View6(s: seq<byte>): (p: V6)
    requires |s| >= 40
    ensures p.Bytes() == s
  {
    V6(s[..8], s[8..24], s[24..40], s[40..])
  }

  lemma ViewOfBytes6(p: V6)
    ensures View6(p.Bytes()) == p
  {
  }

  // IPv4 packets

  type Head4 = s: seq<byte> | |s| == 12 witness [0, 0, 0, 0, 0, 0, 0, 0, 0, 0, 0, 0]

  /** An IPv4 packet without options in parts: the first 12 bytes of its header, the two addresses, and all the bytes
      that follow. */
  datatype V4 = V4(head: Head4, src: Address4, dst: Address4, rest: seq<byte>) {
    function Bytes(): (s: seq<byte>)
      ensures |s| == 20 + |rest|
    {
      head + src + dst + rest
    }

    function TotalLength(): u16 { Word(head, 2) }

    function Protocol(): byte { head[9] }

    predicate HeaderOk() { Checksum(head + src + dst) == 0xffff }

    /** The transport checksum of a payload of n bytes is valid. */
    predicate TransportOk(n: nat)
      requires n <= |rest|
    {
      TransportValid(src + dst, Protocol(), rest[..n])
    }
  }

  function View4(s: seq<byte>): (p: V4)
    requires |s| >= 20
    ensures p.Bytes() == s
  {
    V4(s[..12], s[12..16], s[16..20], s[20..])
  }

  lemma ViewOfBytes4(p: V4)
    ensures View4(p.Bytes()) == p
  {
  }

  // Fragment header fields, in the 8 bytes of f at offset i

  /** The fragment offset in bytes; the field itself counts 8-byte units. */
  function FragmentOffset6(f: seq<byte>, i: nat): (o: nat)
    requires i + 8 <= |f|
    ensures o % 8 == 0 && o < 0x1_0000
  {
    Word(f, i + 2) / 8 * 8
  }

  predicate MoreFragments6(f: seq<byte>, i: nat)
    requires i + 8 <= |f|
  {
    f[i + 3] % 2 == 1
  }

  // The prefix

  /** The well-known prefix is checksum-neutral. */
  lemma PrefixSum()
    ensures WordSum(PREFIX) == 0xffff && Checksum(PREFIX) == 0xffff
  {
    assert PREFIX[2..][2..] == Zeros(8);
    WordSumZero(Zeros(8));
    assert WordSum(PREFIX[2..]) == 0xff9b;
    ChecksumIsFold(PREFIX);
  }
}
