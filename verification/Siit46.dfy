/** The in-place IPv4 to IPv6 translator (internal/clat/siit46.go): headers move inside one shared buffer. */
module Siit46 {
  import opened Bytes
  import opened OnesComplement
  import opened Wire
  import opened Siit46Spec

  datatype Result46 = Untranslated | Dropped | Panicked | Translated

  /** Makes room for the IPv6 headers in front of the payload and saves the old header immediately before them.
      It fails, changing nothing, exactly when the buffer is too short or the headroom does not fit; otherwise the
      payload has not moved, and the offset of the old header fits the 8-bit counter. The guard after the move that
      would restore the counter is never taken. */
  method MakeRoomForIPv6Header(buffer: array<byte>, reserved: byte, m: Meta) returns (ok: bool, reserved': byte)
    modifies buffer
    ensures ok <==> reserved + 16 + m.headerLength <= buffer.Length && HasRoom46(reserved, m)
    ensures !ok ==> reserved' == reserved && buffer[..] == old(buffer[..])
    ensures ok ==> reserved' + m.HeaderRoom() == reserved + m.headerLength
    ensures ok ==> m.headerLength <= reserved'
    ensures ok ==> reserved' + 16 + m.HeaderRoom() <= buffer.Length
    ensures ok ==> buffer[..][reserved' + 16 - m.headerLength..reserved' + 16]
                   == old(buffer[..])[reserved + 16..reserved + 16 + m.headerLength]
    ensures ok ==> buffer[..][reserved' + 16..] == old(buffer[..])[reserved' + 16..]
  {
    ghost var was := buffer[..];
    if reserved > buffer.Length || buffer.Length - reserved < MESSAGE_TRANSPORT_HEADER_SIZE + m.headerLength {
      return false, reserved;
    }
    var headerRoom := if m.IsFragmented() then IPV6_FIXED_SIZE + FRAGMENT_HEADER_SIZE else IPV6_FIXED_SIZE;
    if || reserved < headerRoom
       || reserved - headerRoom + MESSAGE_TRANSPORT_HEADER_SIZE + m.headerLength > buffer.Length
       || reserved - headerRoom + m.headerLength > 0xff
    {
      return false, reserved;
    }
    var destination := reserved - headerRoom;
    var size := MESSAGE_TRANSPORT_HEADER_SIZE + m.headerLength;
    reserved' := destination + m.headerLength;
    assert reserved' + MESSAGE_TRANSPORT_HEADER_SIZE <= buffer.Length;
    Write(buffer, destination, buffer[reserved..reserved + size]);
    ok := true;
  }

  method WriteHead(buffer: array<byte>, start: nat, tos: byte, payloadLength: u16, next: byte, hopLimit: byte)
    requires start + 8 <= buffer.Length
    modifies buffer
    ensures buffer[..] == Splice(old(buffer[..]), start, Head6Of(tos, payloadLength, next, hopLimit))
  {
    Write(buffer, start, [0x60 + tos / 16, tos % 16 * 16, 0, 0]);
    buffer[start + 7] := hopLimit;
    buffer[start + 6] := next;
    Write(buffer, start + 4, Be16(payloadLength));
  }

  /** Writes the two prefix-mapped addresses at offset at, from the IPv4 addresses at offset from. */
  method WriteAddresses(buffer: array<byte>, at: nat, from: nat)
    requires from + 8 <= at && at + 32 <= buffer.Length
    modifies buffer
    ensures buffer[..] == Splice(old(buffer[..]), at, Translated4(old(buffer[..])[from..from + 4])
                                                    + Translated4(old(buffer[..])[from + 4..from + 8]))
  {
    hide Splice;
    ghost var was := buffer[..];
    ghost var a, b := was[from..from + 4], was[from + 4..from + 8];
    Write(buffer, at, PREFIX);
    SpliceOutside(was, at, PREFIX, from, from + 4);
    Write(buffer, at + 12, buffer[from..from + 4]);
    SpliceAdjacent(was, at, PREFIX, a);
    Write(buffer, at + 16, PREFIX);
    SpliceAdjacent(was, at, PREFIX + a, PREFIX);
    SpliceOutside(was, at, PREFIX + a + PREFIX, from + 4, from + 8);
    Write(buffer, at + 28, buffer[from + 4..from + 8]);
    SpliceAdjacent(was, at, PREFIX + a + PREFIX, b);
    assert PREFIX + a + PREFIX + b == Translated4(a) + Translated4(b);
  }

  /** Writes the fragment extension header at offset at, from the identification at offset id. The header is
      cleared first, so that no stale byte survives in its reserved fields. */
  method WriteFragmentHeader(buffer: array<byte>, at: nat, next: byte, fragmentOffset: u16, moreFragments: bool,
      id: nat)
    requires id + 2 <= at && at + 8 <= buffer.Length && fragmentOffset % 8 == 0
    modifies buffer
    ensures buffer[..] == Splice(old(buffer[..]), at,
                                 FragmentHeader(next, fragmentOffset, moreFragments, Word(old(buffer[..]), id)))
  {
    hide Splice, FragmentHeader, Be16, Be32;
    ghost var was := buffer[..];
    var identification: u16 := buffer[id] as int * 256 + buffer[id + 1];
    assert identification == Word(was, id);
    Write(buffer, at, Zeros(FRAGMENT_HEADER_SIZE));
    Write(buffer, at + 4, Be32(identification));
    Write(buffer, at + 2, Be16(fragmentOffset));
    Write(buffer, at, [next]);
    FragmentWrites(was, at, next, fragmentOffset, identification);
    if moreFragments {
      FragmentFlag(was, at, next, fragmentOffset, identification);
      Write(buffer, at + 3, [buffer[at + 3] + 1]);
      assert buffer[..] == Splice(was, at, FragmentHeader(next, fragmentOffset, true, identification));
    } else {
      assert buffer[..] == Splice(was, at, FragmentHeader(next, fragmentOffset, false, identification));
    }
  }

  lemma FragmentWrites(s: seq<byte>, at: nat, next: byte, offset: u16, id: u16)
    requires at + 8 <= |s| && offset % 8 == 0
    ensures Splice(Splice(Splice(Splice(s, at, Zeros(8)), at + 4, Be32(id)), at + 2, Be16(offset)), at, [next])
         == Splice(s, at, FragmentHeader(next, offset, false, id))
  {
    hide Splice, Be32, Be16, FragmentHeader;
    var z := Zeros(8);
    SpliceWithin(s, at, z, 4, Be32(id));
    SpliceWithin(s, at, Splice(z, 4, Be32(id)), 2, Be16(offset));
    SpliceWithin(s, at, Splice(Splice(z, 4, Be32(id)), 2, Be16(offset)), 0, [next]);
    FragmentBlock(next, offset, id);
  }

  lemma FragmentBlock(next: byte, offset: u16, id: u16)
    requires offset % 8 == 0
    ensures Splice(Splice(Splice(Zeros(8), 4, Be32(id)), 2, Be16(offset)), 0, [next])
         == FragmentHeader(next, offset, false, id)
  {
    var z := Zeros(8);
    assert Splice(z, 4, Be32(id)) == [0, 0, 0, 0, 0, 0, id / 256, id % 256];
    assert Splice(Splice(z, 4, Be32(id)), 2, Be16(offset)) ==
        [0, 0, offset / 256, offset % 256, 0, 0, id / 256, id % 256];
  }

  /** Setting the more-fragments bit beside an offset that is a multiple of 8 carries into nothing. */
  lemma FragmentFlag(s: seq<byte>, at: nat, next: byte, offset: u16, id: u16)
    requires at + 8 <= |s| && offset % 8 == 0
    ensures var r := Splice(s, at, FragmentHeader(next, offset, false, id));
            && r[at + 3] == offset % 256 < 255
            && Splice(r, at + 3, [r[at + 3] + 1]) == Splice(s, at, FragmentHeader(next, offset, true, id))
  {
    var f := FragmentHeader(next, offset, false, id);
    assert f[3] == offset % 256 < 255;
    SpliceWithin(s, at, f, 3, [f[3] + 1]);
    assert Splice(f, 3, [f[3] + 1]) == FragmentHeader(next, offset, true, id);
  }

  /** Writes the IPv6 headers at start from the IPv4 header saved immediately before it. */
  method TranslateHeader(buffer: array<byte>, start: nat, m: Meta)
    requires 20 <= m.headerLength <= start && start + m.HeaderRoom() <= buffer.Length
    requires m.fragmentOffset % 8 == 0 && m.fragmentOffset < 0x1_0000
    requires m.payloadLength + 8 < 0x1_0000
    modifies buffer
    ensures buffer[..][..start] == old(buffer[..])[..start]
    ensures buffer[..][start..] == Enclose(old(buffer[..])[start - m.headerLength..start], m, m.payloadLength,
                                           old(buffer[..])[start + m.HeaderRoom()..]).Bytes()
  {
    hide Splice, Head6Of, Translated4, Word;
    if m.IsFragmented() {
      TranslateFragmentHeaders(buffer, start, m);
    } else {
      var header := start - m.headerLength;
      HeaderFields(buffer[..], header, m.headerLength);
      WriteFixedHeader(buffer, start, buffer[header + 1], m.payloadLength, NextHeaderOf(m.protocol), buffer[header + 8],
                       header + 12);
    }
  }

  method TranslateFragmentHeaders(buffer: array<byte>, start: nat, m: Meta)
    requires 20 <= m.headerLength <= start && start + 48 <= buffer.Length && m.IsFragmented()
    requires m.fragmentOffset % 8 == 0 && m.fragmentOffset < 0x1_0000
    requires m.payloadLength + 8 < 0x1_0000
    modifies buffer
    ensures buffer[..][..start] == old(buffer[..])[..start]
    ensures buffer[..][start..] == Enclose(old(buffer[..])[start - m.headerLength..start], m, m.payloadLength,
                                           old(buffer[..])[start + 48..]).Bytes()
  {
    hide Splice, Head6Of, FragmentHeader, Translated4, Word;
    ghost var was := buffer[..];
    var header := start - m.headerLength;
    var fragment := start + IPV6_FIXED_SIZE;
    var tos := buffer[header + 1];
    var ttl := buffer[header + 8];
    HeaderFields(was, header, m.headerLength);
    WriteFragmentHeader(buffer, fragment, NextHeaderOf(m.protocol), m.fragmentOffset, m.moreFragments, header + 4);
    ghost var id := Word(was[header..start], 4);
    ghost var f := FragmentHeader(NextHeaderOf(m.protocol), m.fragmentOffset, m.moreFragments, id);
    SpliceOutside(was, fragment, f, header + 12, header + 16);
    SpliceOutside(was, fragment, f, header + 16, header + 20);
    WriteFixedHeader(buffer, start, tos, m.payloadLength + FRAGMENT_HEADER_SIZE, FRAGMENT, ttl, header + 12);
    SpliceOutside(was, fragment, f, 0, start);
    SpliceTail(was, fragment, f);
  }

  /** The header fields of a packet, seen at its place in the buffer. */
  lemma HeaderFields(s: seq<byte>, header: nat, length: nat)
    requires length >= 20 && header + length <= |s|
    ensures var h := s[header..header + length];
            && h[1] == s[header + 1] && h[8] == s[header + 8] && Word(h, 4) == Word(s, header + 4)
            && h[12..16] == s[header + 12..header + 16] && h[16..20] == s[header + 16..header + 20]
  {
    SliceInside(s, header, header + length, 12, 16);
    SliceInside(s, header, header + length, 16, 20);
  }

  /** Writes the 40 bytes of the fixed header at start, from the IPv4 addresses at offset from. */
  method WriteFixedHeader(buffer: array<byte>, start: nat, tos: byte, payloadLength: u16, next: byte, hopLimit: byte,
      from: nat)
    requires from + 8 <= start && start + 40 <= buffer.Length
    modifies buffer
    ensures buffer[..][..start] == old(buffer[..])[..start]
    ensures buffer[..][start..] == V6(Head6Of(tos, payloadLength, next, hopLimit),
                                      Translated4(old(buffer[..])[from..from + 4]),
                                      Translated4(old(buffer[..])[from + 4..from + 8]),
                                      old(buffer[..])[start + 40..]).Bytes()
  {
    hide Splice, Head6Of, Translated4;
    ghost var was := buffer[..];
    ghost var head := Head6Of(tos, payloadLength, next, hopLimit);
    ghost var addrs := Translated4(was[from..from + 4]) + Translated4(was[from + 4..from + 8]);
    WriteHead(buffer, start, tos, payloadLength, next, hopLimit);
    SpliceOutside(was, start, head, from, from + 4);
    SpliceOutside(was, start, head, from + 4, from + 8);
    WriteAddresses(buffer, start + SOURCE_OFFSET, from);
    SpliceAdjacent(was, start, head, addrs);
    SpliceTail(was, start, head + addrs);
  }

  /** Computes the checksum of the ICMPv6 message of n bytes at offset at, over the 32 bytes of addresses at offset
      addrsAt. */
  method SealIcmp6(buffer: array<byte>, addrsAt: nat, at: nat, n: u16)
    requires addrsAt + 32 <= at && at + n <= buffer.Length && n >= 4
    modifies buffer
    ensures buffer[..] ==
            Splice(old(buffer[..]), at, Sealed6(old(buffer[..])[addrsAt..addrsAt + 32], old(buffer[..])[at..at + n]))
  {
    hide Splice, SetWord, Be16, Checksum, Fold, TransportSum, Combine;
    ghost var was := buffer[..];
    ghost var t := was[at..at + n];
    Write(buffer, at + ICMP_CHECKSUM_OFFSET, Be16(0));
    SpliceSlice(was, at, at + n, 2, Be16(0));
    SetWordIsSplice(t, 2, 0);
    SpliceSees(was, at, SetWord(t, 2, 0));
    SpliceOutside(was, at, SetWord(t, 2, 0), addrsAt, addrsAt + 32);
    var sum := Combine(Combine(Combine(Checksum(buffer[addrsAt..addrsAt + 32]), n), ICMPV6),
        Checksum(buffer[at..at + n]));
    PseudoCombine(was[addrsAt..addrsAt + 32], ICMPV6, SetWord(t, 2, 0));
    Write(buffer, at + ICMP_CHECKSUM_OFFSET, Be16(Complement(sum)));
    SpliceWithin(was, at, SetWord(t, 2, 0), 2, Be16(Complement(sum)));
    SetWordIsSplice(SetWord(t, 2, 0), 2, Complement(sum));
    SetWordTwice(t, 2, 0, Complement(sum));
  }

  method PartialUpdate(buffer: array<byte>, at: nat)
    requires at + 2 <= buffer.Length
    modifies buffer
    ensures buffer[..] == SetWord(old(buffer[..]), at, Bumped46(Word(old(buffer[..]), at)))
  {
    var field: u16 := buffer[at] as int * 256 + buffer[at + 1];
    SetWordIsSplice(buffer[..], at, Bumped46(field));
    Write(buffer, at, Be16(Complement(Combine(Complement(field), Delta46()))));
  }

  /** Repairs the checksum of a transport with a pseudo-header, at offset at, for the addresses at offset addrsAt.
      It declines a first fragment of a UDP datagram that has no checksum, whose bytes are not all here. */
  method UpdateTransportChecksum(buffer: array<byte>, addrsAt: nat, at: nat, m: Meta) returns (ok: bool)
    requires addrsAt + 32 <= at && at + m.payloadLength <= buffer.Length && m.protocol != ICMPV4
    modifies buffer
    ensures var r := RepairPayload46(old(buffer[..])[addrsAt..addrsAt + 32], m, old(buffer[..])[at..]);
            && (ok <==> r.Some?)
            && (ok ==> buffer[..][..at] == old(buffer[..])[..at] && buffer[..][at..] == r.value)
  {
    hide Splice, SetWord, Bumped46, Checksum, Fold, TransportSum, Combine;
    ghost var was := buffer[..];
    if m.fragmentOffset != 0 || !HasPseudoHeader(m.protocol) || m.payloadLength < TransportMinimum(m.protocol) {
      return true;
    }
    var c := TransportField(m.protocol);
    if m.protocol != UDP || buffer[at + 6] != 0 || buffer[at + 7] != 0 {
      PartialUpdate(buffer, at + c);
      SetWordWindow(was, at, c, Bumped46(Word(was, at + c)));
      return true;
    }
    if m.IsFragmented() {
      return false;
    }
    var sum := Combine(Combine(Combine(Checksum(buffer[addrsAt..addrsAt + 32]), m.payloadLength), UDP),
                       Checksum(buffer[at..at + m.payloadLength]));
    PseudoCombine(was[addrsAt..addrsAt + 32], UDP, was[at..at + m.payloadLength]);
    SliceOfSlice(was, at, 0, m.payloadLength);
    Write(buffer, at + 6, Be16(Complement(sum)));
    SetWordIsSplice(was, at + 6, Complement(sum));
    SetWordWindow(was, at, 6, Complement(sum));
    ok := true;
  }
}
