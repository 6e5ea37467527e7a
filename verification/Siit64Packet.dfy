/** The in-place IPv6 to IPv4 translation of whole packets (internal/clat/siit64.go:49-85). */
module Siit64Packet {
  import opened Wrappers
  import opened Bytes
  import opened OnesComplement
  import opened Wire
  import opened Siit64Spec
  import opened Siit64
  import opened Siit64Icmp

  /** What a packet with a new header and its payload in place looks like in the buffer. */
  ghost predicate Holds(buffer: seq<byte>, start: nat, p: V4) {
    start <= |buffer| && buffer[start..] == p.Bytes()
  }

  /** Repairs the checksum of the n transport bytes at offset at, for the destination prefix saved at offset
      prefixAt. */
  method UpdateTransportChecksum(buffer: array<byte>, prefixAt: nat, at: nat, n: nat, offset: nat, proto: byte)
    requires prefixAt + 12 <= at && at + n <= buffer.Length
    modifies buffer
    ensures buffer[..][..at] == old(buffer[..])[..at]
    ensures buffer[..][at..] ==
            RepairPayload64(old(buffer[..])[prefixAt..prefixAt + 12], offset, proto, n, old(buffer[..])[at..])
  {
    hide SetWord, Splice, Checksum, Combine;
    ghost var was := buffer[..];
    if offset != 0 || !HasPseudoHeader(proto) || n < TransportMinimum(proto) {
      return;
    }
    var c := TransportField(proto);
    var field: u16 := buffer[at + c] as int * 256 + buffer[at + c + 1];
    var prefix := buffer[prefixAt..prefixAt + 12];
    var bumped := Complement(Combine(Complement(field),
        Combine(Complement(Checksum(PREFIX)), Complement(Checksum(prefix)))));
    assert field == Word(was[at..], c);
    Write(buffer, at + c, Be16(bumped));
    SetWordIsSplice(was, at + c, bumped);
    SetWordWindow(was, at, c, bumped);
  }

  lemma HeaderWindow(s: seq<byte>, start: nat, ten: seq<byte>, addrs: seq<byte>)
    requires start + 20 <= |s| && |ten| == 10 && |addrs| == 8
    ensures var r := Splice(Splice(s, start, ten), start + 12, addrs);
            && r[start..start + 20] == ten + s[start + 10..start + 12] + addrs
            && r[start + 20..] == s[start + 20..]
            && r[..start] == s[..start]
  {
    var m := Splice(s, start, ten);
    assert m[start..start + 12] == ten + s[start + 10..start + 12];
    assert m[..start] == s[..start] && m[start + 20..] == s[start + 20..];
    var r := Splice(m, start + 12, addrs);
    SpliceOutside(m, start + 12, addrs, start, start + 12);
    SpliceSees(m, start + 12, addrs);
    assert r[start..start + 20] == r[start..start + 12] + r[start + 12..start + 20];
    SpliceOutside(m, start + 12, addrs, 0, start);
    SpliceOutside(m, start + 12, addrs, start + 20, |s|);
  }

  /** Translates the n transport bytes behind the new header at start. */
  method TranslateTransport(buffer: array<byte>, start: nat, header: nat, m: Meta, offset: nat)
    requires header + 40 <= start && start + 20 + m.payloadLength <= buffer.Length
    requires m.walked.next == ICMPV6 ==> m.payloadLength >= 8
    modifies buffer
    ensures buffer[..][..start + 20] == old(buffer[..])[..start + 20]
    ensures var rest := old(buffer[..])[start + 20..];
            buffer[..][start + 20..] ==
              if m.walked.next == ICMPV6 then TranslateIcmp64(rest[..m.payloadLength]) + rest[m.payloadLength..]
              else RepairPayload64(old(buffer[..])[header + 24..header + 36], offset, m.walked.next, m.payloadLength,
                  rest)
  {
    hide Splice, TranslateIcmp64, RepairPayload64;
    ghost var was := buffer[..];
    var at := start + IPV4_MINIMUM_SIZE;
    if m.walked.next == ICMPV6 {
      ghost var t := was[at..at + m.payloadLength];
      SliceOfSlice(was, at, 0, m.payloadLength);
      SliceOfSlice(was, at, m.payloadLength, |was| - at);
      TranslateIcmpTransport(buffer, at, m.payloadLength);
      SpliceTail(was, at, TranslateIcmp64(t));
    } else {
      UpdateTransportChecksum(buffer, header + DESTINATION_OFFSET, at, m.payloadLength, offset, m.walked.next);
    }
  }

  /** The first 20 bytes of the new header before its checksum is filled in; the word in its place is stale. */
  ghost function UnsealedHeader(pkt: seq<byte>, m: Meta, freshId: u16, stale: seq<byte>): (h: seq<byte>)
    requires |pkt| >= 40 && (m.walked.fragment.Some? ==> m.walked.fragment.value + 8 <= |pkt|) && |stale| == 2
    ensures |h| == 20
  {
    FirstTen(pkt[0] % 16 * 16 + pkt[1] / 16, Add16(20, m.payloadLength), Identification(pkt, m, freshId),
             FragmentWord(pkt, m), pkt[7], ProtocolOf(m.walked.next))
    + stale + (pkt[20..24] + pkt[36..40])
  }

  /** The payload of the new packet. */
  ghost function NewPayload(pkt: seq<byte>, m: Meta): seq<byte>
    requires |pkt| >= 40 && 40 <= m.walked.offset && m.walked.offset + m.payloadLength <= |pkt|
    requires m.walked.fragment.Some? ==> m.walked.fragment.value + 8 <= |pkt|
    requires m.walked.next == ICMPV6 ==> m.payloadLength >= 8
  {
    var rest, n := pkt[m.walked.offset..], m.payloadLength;
    if m.walked.next == ICMPV6 then TranslateIcmp64(rest[..n]) + rest[n..]
    else RepairPayload64(pkt[24..36], DatagramOffset(pkt, m), m.walked.next, n, rest)
  }

  /** Writes the header, all but its checksum, and translates the payload, which stands where it stood. */
  method TranslateUnsealed(buffer: array<byte>, header: nat, start: nat, m: Meta, freshId: u16, ghost pkt: seq<byte>)
    requires 40 <= m.walked.offset && m.walked.offset + m.payloadLength <= |pkt| && header + m.walked.offset == start
    requires start + 20 <= buffer.Length && buffer.Length - start == 20 + |pkt| - m.walked.offset
    requires buffer[..][header..start] == pkt[..m.walked.offset]
    requires buffer[..][start + 20..] == pkt[m.walked.offset..]
    requires m.walked.fragment.Some? ==>
               && 40 <= m.walked.fragment.value && m.walked.fragment.value + 8 == m.walked.offset
               && buffer[..][start + 12..start + 20] == pkt[m.walked.fragment.value..m.walked.offset]
               && FragmentTranslatable(pkt, m.walked.fragment.value)
    requires m.walked.next == ICMPV6 ==> m.payloadLength >= 8
    modifies buffer
    ensures buffer[..][start..start + 20] ==
            UnsealedHeader(pkt, m, freshId, old(buffer[..])[start + 10..start + 12])
    ensures buffer[..][start + 20..] == NewPayload(pkt, m)
  {
    hide Splice, TranslateIcmp64, RepairPayload64, FirstTen, Identification, FragmentWord;
    ghost var moved := buffer[..];
    ghost var ten := FirstTen(pkt[0] % 16 * 16 + pkt[1] / 16, Add16(20, m.payloadLength),
                              Identification(pkt, m, freshId), FragmentWord(pkt, m), pkt[7], ProtocolOf(m.walked.next));
    var offset := ReadOffset(buffer, start + 12, m, pkt);
    TranslateHeader(buffer, header, start, m, freshId, pkt);
    HeaderWindow(moved, start, ten, pkt[20..24] + pkt[36..40]);
    ghost var b1 := buffer[..];
    PrefixSlice(moved, b1, header, start, pkt[..m.walked.offset]);
    assert pkt[..m.walked.offset][24..36] == pkt[24..36];
    TranslateTransport(buffer, start, header, m, offset);
    SliceInside(buffer[..], 0, start + 20, start, start + 20);
    SliceInside(b1, 0, start + 20, start, start + 20);
  }

  /** Writes the header and translates the payload, which stands where it stood. */
  method TranslateInPlace(buffer: array<byte>, header: nat, start: nat, m: Meta, freshId: u16, ghost pkt: seq<byte>)
    requires 40 <= m.walked.offset && m.walked.offset + m.payloadLength <= |pkt| && header + m.walked.offset == start
    requires start + 20 <= buffer.Length && buffer.Length - start == 20 + |pkt| - m.walked.offset
    requires buffer[..][header..start] == pkt[..m.walked.offset]
    requires buffer[..][start + 20..] == pkt[m.walked.offset..]
    requires m.walked.fragment.Some? ==>
               && 40 <= m.walked.fragment.value && m.walked.fragment.value + 8 == m.walked.offset
               && buffer[..][start + 12..start + 20] == pkt[m.walked.fragment.value..m.walked.offset]
               && FragmentTranslatable(pkt, m.walked.fragment.value)
    requires m.walked.next == ICMPV6 ==> m.payloadLength >= 8
    modifies buffer
    ensures Holds(buffer[..], start, Enclose(pkt, m, freshId, NewPayload(pkt, m)))
  {
    hide Splice, NewPayload, UnsealedHeader, SealedHeader, Enclose;
    ghost var stale := buffer[..][start + 10..start + 12];
    TranslateUnsealed(buffer, header, start, m, freshId, pkt);
    ghost var unsealed := buffer[..];
    SealHeader(buffer, start);
    SpliceTail(unsealed, start, SealedHeader(unsealed[start..start + 20]));
    SealedPacket(pkt, m, freshId, stale, NewPayload(pkt, m));
  }

  /** The sealed header and the payload are the packet. */
  lemma SealedPacket(pkt: seq<byte>, m: Meta, freshId: u16, stale: seq<byte>, rest: seq<byte>)
    requires |pkt| >= 40 && (m.walked.fragment.Some? ==> m.walked.fragment.value + 8 <= |pkt|) && |stale| == 2
    ensures SealedHeader(UnsealedHeader(pkt, m, freshId, stale)) + rest == Enclose(pkt, m, freshId, rest).Bytes()
  {
    hide FirstTen, SealedHeader, SealedHead4, Identification, FragmentWord;
    var tos, total := pkt[0] % 16 * 16 + pkt[1] / 16, Add16(20, m.payloadLength);
    var ttl, protocol := pkt[7], ProtocolOf(m.walked.next);
    var id, word, src, dst := Identification(pkt, m, freshId), FragmentWord(pkt, m), pkt[20..24], pkt[36..40];
    assert UnsealedHeader(pkt, m, freshId, stale) == FirstTen(tos, total, id, word, ttl, protocol) + stale + src + dst;
    SealedHeaderIs(tos, total, id, word, ttl, protocol, stale, src, dst);
  }

  /** The saved headers survive the writing of the new one. */
  lemma PrefixSlice(s: seq<byte>, s': seq<byte>, header: nat, start: nat, h: seq<byte>)
    requires header + 40 <= start <= |s| == |s'| && s'[..start] == s[..start] && s[header..start] == h
    ensures s'[header + 24..header + 36] == h[24..36]
  {
    assert s'[header..start] == s'[..start][header..] == s[..start][header..] == s[header..start];
    SliceInside(s', header, start, 24, 36);
  }

  /** The offset of a fragment in its datagram, read from the fragment header at offset at. */
  method ReadOffset(buffer: array<byte>, at: nat, m: Meta, ghost pkt: seq<byte>) returns (offset: nat)
    requires at + 8 <= buffer.Length
    requires m.walked.fragment.Some? ==>
               && m.walked.fragment.value + 8 <= |pkt| && FragmentTranslatable(pkt, m.walked.fragment.value)
               && buffer[..][at..at + 8] == pkt[m.walked.fragment.value..m.walked.fragment.value + 8]
    ensures offset == DatagramOffset(pkt, m)
  {
    offset := 0;
    if m.walked.fragment.Some? {
      FragmentBytes(buffer[..], at, pkt, m.walked.fragment.value);
      offset := (buffer[at + 2] as int * 256 + buffer[at + 3]) / 8 * 8;
    }
  }

  /** Translates, in place, the IPv6 packet at reserved + 16 of the buffer; the IPv4 packet ends where the buffer
      does. */
  method SIIT64InPlaceTranslate(buffer: array<byte>, reserved: nat, freshId: u16)
      returns (translated: bool, reserved': nat)
    modifies buffer
    ensures reserved + 16 > buffer.Length ==> !translated
    ensures reserved + 16 <= buffer.Length ==>
              match Translate64(old(buffer[..])[reserved + 16..], reserved, freshId)
              case None => !translated
              case Some(p) => translated && Holds(buffer[..], reserved' + 16, p)
    ensures !translated ==> buffer[..] == old(buffer[..]) && reserved' == reserved
  {
    hide Walk, Enclose, TranslateIcmp64, RepairPayload64, IcmpTranslatable64;
    translated, reserved' := false, reserved;
    var packetStart := reserved + MESSAGE_TRANSPORT_HEADER_SIZE;
    if reserved > buffer.Length || packetStart > buffer.Length {
      return;
    }
    ghost var was := buffer[..];
    ghost var pkt := was[packetStart..];
    var parsed := ParsePacket(buffer[packetStart..]);
    if parsed == None {
      return;
    }
    var m := parsed.value;
    ParsedFragment(pkt);
    translated, reserved' := MakeRoomForIPv4Header(buffer, reserved, m.walked.offset);
    if !translated {
      return;
    }
    var start := reserved' + MESSAGE_TRANSPORT_HEADER_SIZE;
    MovedWindow(was, buffer[..], packetStart, start, m.walked.offset);
    TranslateInPlace(buffer, start - m.walked.offset, start, m, freshId, pkt);
  }

  lemma ParsedFragment(pkt: seq<byte>)
    requires Parse64(pkt).Some?
    ensures var w := Parse64(pkt).value.walked;
            w.fragment.Some? ==> w.fragment.value + 8 <= |pkt| && FragmentTranslatable(pkt, w.fragment.value)
  {
    var p := pkt[..40 + Word(pkt, 4)];
    var w := Walk(p, pkt[6], 40, None).value;
    if w.fragment.Some? {
      var f := w.fragment.value;
      assert p[f + 1] == pkt[f + 1] && p[f + 3] == pkt[f + 3];
    }
  }

  /** After the move, the packet's headers are saved before the new start, and its last header bytes and its payload
      are still where they were. */
  lemma MovedWindow(was: seq<byte>, moved: seq<byte>, packetStart: nat, start: nat, offset: nat)
    requires |was| == |moved| && 40 <= offset && packetStart + offset == start + 20 <= |was| && offset <= start
    requires moved[start - offset..start] == was[packetStart..packetStart + offset] && moved[start..] == was[start..]
    ensures var pkt := was[packetStart..];
            && moved[start - offset..start] == pkt[..offset] && moved[start + 20..] == pkt[offset..]
            && moved[start + 12..start + 20] == pkt[offset - 8..offset]
  {
    SliceOfSlice(was, packetStart, 0, offset);
    SliceOfSlice(was, packetStart, offset - 8, offset);
    SliceOfSlice(was, start, 12, 20);
    SliceOfSlice(moved, start, 12, 20);
    assert moved[start + 20..] == moved[start..][20..] == was[start..][20..] == was[packetStart + offset..];
    assert was[packetStart..][offset..] == was[packetStart + offset..];
  }
}
