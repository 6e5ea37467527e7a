/** The in-place IPv6 to IPv4 translator (internal/clat/siit64.go): parsing, headers and transports. */
module Siit64 {
  import opened Wrappers
  import opened Bytes
  import opened OnesComplement
  import opened Wire
  import opened Siit64Spec

  /** Walks the extension headers of a packet: the loop is the recursive definition of the chain. */
  method WalkExtensionHeaders(packet: seq<byte>) returns (r: Option<Walked>)
    requires |packet| >= 40
    ensures r == Walk(packet, packet[6], 40, None)
  {
    var nextHeader := packet[6];
    var payloadOffset := IPV6_FIXED_SIZE;
    var fragment: Option<nat> := None;
    while fragment == None && IsExtensionHeader(nextHeader)
      invariant 40 <= payloadOffset <= |packet|
      invariant Walk(packet, packet[6], 40, None) == Walk(packet, nextHeader, payloadOffset, fragment)
      decreases |packet| - payloadOffset
    {
      if |packet| - payloadOffset < 8 {
        return None;
      }
      if nextHeader == ROUTING {
        if packet[payloadOffset + 3] != 0 {
          return None;
        }
      } else if nextHeader == FRAGMENT {
        fragment := Some(payloadOffset);
        if !FragmentTranslatable(packet, payloadOffset) {
          return None;
        }
      }
      var extensionHeaderSize := 8 + packet[payloadOffset + 1] as int * 8;
      if |packet| - payloadOffset < extensionHeaderSize {
        return None;
      }
      nextHeader := packet[payloadOffset];
      payloadOffset := payloadOffset + extensionHeaderSize;
    }
    if ForbiddenForIPv6(nextHeader) {
      return None;
    }
    r := Some(Walked(fragment, nextHeader, payloadOffset));
  }

  /** Without extension headers the walk is the test for forbidden protocols: the fast path. */
  lemma FastPath(packet: seq<byte>)
    requires |packet| >= 40 && !IsExtensionHeader(packet[6])
    ensures Walk(packet, packet[6], 40, None) == if ForbiddenForIPv6(packet[6]) then None
            else Some(Walked(None, packet[6], 40))
  {
  }

  method ParseIcmp(packet: seq<byte>, icmp: seq<byte>) returns (ok: bool)
    requires |packet| >= 40 && |icmp| < 0x1_0000
    ensures ok <==> IcmpTranslatable64(packet[8..40], icmp)
  {
    if |icmp| < ICMP_MINIMUM_SIZE {
      return false;
    }
    var sum := Combine(Combine(Combine(Checksum(packet[8..40]), |icmp|), ICMPV6), Checksum(icmp));
    PseudoCombine(packet[8..40], ICMPV6, icmp);
    ok := sum == 0xffff && IcmpHeaderTranslatable64(icmp[0], icmp[1], icmp[4..]);
  }

  /** Decides whether a packet translates, taking the fast path when there are no extension headers. */
  method ParsePacket(packet: seq<byte>) returns (r: Option<Meta>)
    ensures r == Parse64(packet)
  {
    hide Walk, IcmpTranslatable64;
    if Version(packet) != 6 || |packet| < IPV6_FIXED_SIZE {
      return None;
    }
    var packetLength := IPV6_FIXED_SIZE + Word(packet, 4);
    if |packet| < packetLength {
      return None;
    }
    var walked: Option<Walked>;
    if !IsExtensionHeader(packet[6]) {
      FastPath(packet[..packetLength]);
      if ForbiddenForIPv6(packet[6]) {
        return None;
      }
      walked := Some(Walked(None, packet[6], IPV6_FIXED_SIZE));
    } else {
      walked := WalkExtensionHeaders(packet[..packetLength]);
      if walked == None {
        return None;
      }
    }
    var w := walked.value;
    var m := Meta(w, packetLength - w.offset);
    if w.fragment.Some? && MoreFragments6(packet, w.fragment.value) && m.payloadLength % 8 != 0 {
      return None;
    }
    if w.next != ICMPV6 {
      return Some(m);
    }
    if w.fragment.Some?
        && (MoreFragments6(packet, w.fragment.value) || FragmentOffset6(packet, w.fragment.value) != 0) {
      return None;
    }
    var ok := ParseIcmp(packet, packet[w.offset..w.offset + m.payloadLength]);
    r := if ok then Some(m) else None;
  }

  /** Makes room for the IPv4 header in front of the payload and saves the old headers immediately before it. It fails,
      changing nothing, exactly when the headroom is below 20 bytes or the buffer too short; otherwise the payload has
      not moved. The guard after the move that would restore the offset is never taken. */
  method MakeRoomForIPv4Header(buffer: array<byte>, reserved: nat, payloadOffset: nat)
      returns (ok: bool, reserved': nat)
    modifies buffer
    ensures ok <==> HasRoom64(reserved) && reserved + 16 + payloadOffset <= buffer.Length
    ensures !ok ==> reserved' == reserved && buffer[..] == old(buffer[..])
    ensures ok ==> reserved' == reserved - 20 + payloadOffset && reserved' + 16 + 20 <= buffer.Length
    ensures ok ==> reserved' + 16 >= payloadOffset
    ensures ok ==> buffer[..][reserved' + 16 - payloadOffset..reserved' + 16]
                   == old(buffer[..])[reserved + 16..reserved + 16 + payloadOffset]
    ensures ok ==> buffer[..][reserved' + 16..] == old(buffer[..])[reserved' + 16..]
  {
    hide Splice;
    ghost var was := buffer[..];
    if || reserved > buffer.Length || payloadOffset > buffer.Length || reserved < IPV4_MINIMUM_SIZE
       || buffer.Length - reserved < MESSAGE_TRANSPORT_HEADER_SIZE + payloadOffset
    {
      return false, reserved;
    }
    var destination := reserved - IPV4_MINIMUM_SIZE;
    var size := MESSAGE_TRANSPORT_HEADER_SIZE + payloadOffset;
    if destination + size > buffer.Length {
      return false, reserved;
    }
    reserved' := destination + payloadOffset;
    assert reserved' + MESSAGE_TRANSPORT_HEADER_SIZE <= buffer.Length;
    Write(buffer, destination, buffer[reserved..reserved + size]);
    SpliceSlicesOf(was, destination, was[reserved..reserved + size], 16, size);
    SliceInside(was, reserved, reserved + size, 16, size);
    SpliceOutside(was, destination, was[reserved..reserved + size], destination + size, |was|);
    ok := true;
  }

  lemma SpliceSlicesOf(s: seq<byte>, off: nat, t: seq<byte>, i: nat, j: nat)
    requires off + |t| <= |s| && i <= j <= |t|
    ensures Splice(s, off, t)[off + i..off + j] == t[i..j]
  {
  }

  /** The header without its checksum word, which is still to be computed. */
  function FirstTen(tos: byte, total: u16, id: u16, fragment: u16, ttl: byte, protocol: byte): (s: seq<byte>)
    ensures |s| == 10
  {
    [0x45, tos] + Be16(total) + Be16(id) + Be16(fragment) + [ttl, protocol]
  }

  /** Writes the IPv4 header, all but its checksum, from the IPv6 headers saved at offset header. The fragment header is
      read where the packet had it, which is where the IPv4 addresses go: they are written after it is read. */
  method TranslateHeader(buffer: array<byte>, header: nat, start: nat, m: Meta, freshId: u16, ghost pkt: seq<byte>)
    requires 40 <= m.walked.offset <= |pkt| && header + m.walked.offset == start && start + 20 <= buffer.Length
    requires buffer[..][header..start] == pkt[..m.walked.offset]
    requires m.walked.fragment.Some? ==> m.walked.fragment.value + 8 == m.walked.offset
    requires m.walked.fragment.Some? ==>
             buffer[..][start + 12..start + 20] == pkt[m.walked.fragment.value..m.walked.offset]
    requires m.walked.fragment.Some? ==> FragmentTranslatable(pkt, m.walked.fragment.value)
    modifies buffer
    ensures var head :=
            FirstTen(pkt[0] % 16 * 16 + pkt[1] / 16, Add16(20, m.payloadLength), Identification(pkt, m, freshId),
                                 FragmentWord(pkt, m), pkt[7], ProtocolOf(m.walked.next));
            buffer[..] == Splice(Splice(old(buffer[..]), start, head), start + 12, pkt[20..24] + pkt[36..40])
  {
    hide Splice, Be16, FirstTen, Identification, FragmentWord;
    ghost var was := buffer[..];
    HeaderBytes(was, header, start, pkt[..m.walked.offset]);
    assert pkt[..m.walked.offset][20..24] == pkt[20..24] && pkt[..m.walked.offset][36..40] == pkt[36..40];
    var tos: byte := buffer[header] % 16 * 16 + buffer[header + 1] / 16;
    var total := Add16(IPV4_MINIMUM_SIZE, m.payloadLength);
    var ttl, protocol := buffer[header + 7], ProtocolOf(m.walked.next);
    WriteFirstFour(buffer, start, tos, total);
    ghost var four := [0x45, tos] + Be16(total);
    SpliceOutside(was, start, four, start + 12, start + 20);
    var id, word := ReadFragment(buffer, start + 12, m, freshId, pkt);
    WriteNextSix(buffer, start, id, word, ttl, protocol);
    SpliceAdjacent(was, start, four, Be16(id) + Be16(word) + [ttl, protocol]);
    ghost var head := FirstTen(tos, total, id, word, ttl, protocol);
    HeadInTwo(tos, total, id, word, ttl, protocol);
    SpliceOutside(was, start, head, header + 20, header + 24);
    SpliceOutside(was, start, head, header + 36, header + 40);
    CopyAddresses(buffer, start + 12, header);
  }

  lemma HeadInTwo(tos: byte, total: u16, id: u16, word: u16, ttl: byte, protocol: byte)
    ensures [0x45, tos] + Be16(total) + (Be16(id) + Be16(word) + [ttl, protocol]) ==
            FirstTen(tos, total, id, word, ttl, protocol)
  {
    hide Be16;
  }

  method WriteFirstFour(buffer: array<byte>, start: nat, tos: byte, total: u16)
    requires start + 20 <= buffer.Length
    modifies buffer
    ensures buffer[..] == Splice(old(buffer[..]), start, [0x45, tos] + Be16(total))
  {
    hide Splice, Be16;
    ghost var was := buffer[..];
    Write(buffer, start, [0x45]);
    Write(buffer, start + 1, [tos]);
    SpliceAdjacent(was, start, [0x45], [tos]);
    assert [0x45] + [tos] == [0x45, tos];
    Write(buffer, start + 2, Be16(total));
    SpliceAdjacent(was, start, [0x45, tos], Be16(total));
  }

  method WriteNextSix(buffer: array<byte>, start: nat, id: u16, word: u16, ttl: byte, protocol: byte)
    requires start + 20 <= buffer.Length
    modifies buffer
    ensures buffer[..] == Splice(old(buffer[..]), start + 4, Be16(id) + Be16(word) + [ttl, protocol])
  {
    hide Splice, Be16;
    ghost var was := buffer[..];
    Write(buffer, start + 4, Be16(id));
    Write(buffer, start + 6, Be16(word));
    SpliceAdjacent(was, start + 4, Be16(id), Be16(word));
    Write(buffer, start + 8, [ttl]);
    SpliceAdjacent(was, start + 4, Be16(id) + Be16(word), [ttl]);
    Write(buffer, start + 9, [protocol]);
    SpliceAdjacent(was, start + 4, Be16(id) + Be16(word) + [ttl], [protocol]);
    assert Be16(id) + Be16(word) + [ttl] + [protocol] == Be16(id) + Be16(word) + [ttl, protocol];
  }

  /** Copies the last 4 bytes of each saved IPv6 address to at. */
  method CopyAddresses(buffer: array<byte>, at: nat, header: nat)
    requires header + 40 <= at && at + 8 <= buffer.Length
    modifies buffer
    ensures buffer[..] == Splice(old(buffer[..]), at,
            old(buffer[..])[header + 20..header + 24] + old(buffer[..])[header + 36..header + 40])
  {
    hide Splice;
    ghost var was := buffer[..];
    Write(buffer, at, buffer[header + 20..header + 24]);
    SpliceOutside(was, at, was[header + 20..header + 24], header + 36, header + 40);
    Write(buffer, at + 4, buffer[header + 36..header + 40]);
    SpliceAdjacent(was, at, was[header + 20..header + 24], was[header + 36..header + 40]);
  }

  /** Reads the identification, the flags and the offset from the fragment header at offset at. */
  method ReadFragment(buffer: array<byte>, at: nat, m: Meta, freshId: u16, ghost pkt: seq<byte>)
      returns (id: u16, word: u16)
    requires at + 8 <= buffer.Length
    requires m.walked.fragment.Some? ==>
               && m.walked.fragment.value + 8 <= |pkt| && FragmentTranslatable(pkt, m.walked.fragment.value)
               && buffer[..][at..at + 8] == pkt[m.walked.fragment.value..m.walked.fragment.value + 8]
    ensures id == Identification(pkt, m, freshId) && word == FragmentWord(pkt, m)
  {
    id, word := freshId, 0;
    if m.walked.fragment.Some? {
      FragmentBytes(buffer[..], at, pkt, m.walked.fragment.value);
      var offset := (buffer[at + 2] as int * 256 + buffer[at + 3]) / 8;
      if buffer[at + 3] % 2 == 1 || offset != 0 {
        id := buffer[at + 6] as int * 256 + buffer[at + 7];
        word := buffer[at + 3] % 8 * 8192 + offset;
      }
    }
  }

  /** The saved headers, seen at their place in the buffer. */
  lemma HeaderBytes(s: seq<byte>, header: nat, start: nat, h: seq<byte>)
    requires header + 40 <= start <= |s| && s[header..start] == h
    ensures h[0] == s[header] && h[1] == s[header + 1] && h[7] == s[header + 7]
    ensures h[20..24] == s[header + 20..header + 24] && h[36..40] == s[header + 36..header + 40]
  {
    SliceInside(s, header, start, 20, 24);
    SliceInside(s, header, start, 36, 40);
  }

  /** The fragment header, seen at its place in the buffer; its flag bits are the reserved zeros and MF. */
  lemma FragmentBytes(s: seq<byte>, at: nat, pkt: seq<byte>, f: nat)
    requires at + 8 <= |s| && f + 8 <= |pkt| && s[at..at + 8] == pkt[f..f + 8] && FragmentTranslatable(pkt, f)
    ensures s[at + 3] == pkt[f + 3] && Word(s, at + 2) == Word(pkt, f + 2) && Word(s, at + 6) == Word(pkt, f + 6)
    ensures s[at + 3] % 8 == if MoreFragments6(pkt, f) then 1 else 0
    ensures FragmentOffset6(pkt, f) / 8 == Word(s, at + 2) / 8 < 8192
  {
    assert s[at + 2] == s[at..at + 8][2] && s[at + 3] == s[at..at + 8][3] && s[at + 6] == s[at..at + 8][6]
        && s[at + 7] == s[at..at + 8][7];
  }

  /** Computes the header checksum. */
  method SealHeader(buffer: array<byte>, start: nat)
    requires start + 20 <= buffer.Length
    modifies buffer
    ensures buffer[..] == Splice(old(buffer[..]), start, SealedHeader(old(buffer[..])[start..start + 20]))
  {
    hide Splice, Checksum, Be16;
    ghost var was := buffer[..];
    ghost var h := was[start..start + 20];
    Write(buffer, start + 10, Be16(0));
    SpliceSlice(was, start, start + 20, 10, Be16(0));
    SpliceSees(was, start, Splice(h, 10, Be16(0)));
    var sum := Checksum(buffer[start..start + 20]);
    Write(buffer, start + 10, Be16(Complement(sum)));
    SpliceWithin(was, start, Splice(h, 10, Be16(0)), 10, Be16(Complement(sum)));
    SetWordIsSplice(h, 10, 0);
    SetWordIsSplice(SetWord(h, 10, 0), 10, Complement(sum));
  }

  /** A 20-byte header with its checksum word recomputed. */
  function SealedHeader(h: seq<byte>): (r: seq<byte>)
    requires |h| == 20
    ensures |r| == 20
  {
    SetWord(SetWord(h, 10, 0), 10, Complement(Checksum(SetWord(h, 10, 0))))
  }
}
