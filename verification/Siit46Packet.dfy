/** The in-place IPv4 to IPv6 translation of whole packets (internal/clat/siit46.go:35-66). */
module Siit46Packet {
  import opened Wrappers
  import opened Bytes
  import opened Wire
  import opened Siit46Spec
  import opened Siit46
  import opened Siit46Quote
  import opened Siit46Icmp

  /** Only the IPv4 header is read to make the IPv6 headers. */
  lemma EncloseHeader(pkt: seq<byte>, m: Meta, payloadLength: nat, rest: seq<byte>)
    requires 20 <= m.headerLength <= |pkt| && m.fragmentOffset % 8 == 0 && m.fragmentOffset < 0x1_0000
    requires payloadLength + (if m.IsFragmented() then 8 else 0) < 0x1_0000
    ensures Enclose(pkt[..m.headerLength], m, payloadLength, rest) == Enclose(pkt, m, payloadLength, rest)
  {
    SliceInside(pkt, 0, m.headerLength, 12, 16);
    SliceInside(pkt, 0, m.headerLength, 16, 20);
  }

  /** The headers of an enclosed packet do not depend on what it encloses. */
  lemma EncloseAround(pkt: seq<byte>, m: Meta, payloadLength: nat, rest: seq<byte>, rest': seq<byte>)
    requires |pkt| >= 20 && m.fragmentOffset % 8 == 0 && m.fragmentOffset < 0x1_0000
    requires payloadLength + (if m.IsFragmented() then 8 else 0) < 0x1_0000
    ensures var s := Enclose(pkt, m, payloadLength, rest).Bytes();
            && |s| == m.HeaderRoom() + |rest|
            && s[m.HeaderRoom()..] == rest && s[8..40] == Addresses46(pkt)
            && s[..m.HeaderRoom()] + rest' == Enclose(pkt, m, payloadLength, rest').Bytes()
  {
    hide Head6Of, FragmentHeader, Translated4;
    var p, p' := Enclose(pkt, m, payloadLength, rest), Enclose(pkt, m, payloadLength, rest');
    assert p.head == p'.head && p.src == p'.src && p.dst == p'.dst;
    if m.IsFragmented() {
      var f := FragmentHeader(NextHeaderOf(m.protocol), m.fragmentOffset, m.moreFragments, Word(pkt, 4));
      assert p.rest == f + rest && p'.rest == f + rest';
      assert p.head + p.src + p.dst + (f + rest) == (p.head + p.src + p.dst + f) + rest;
      assert p.head + p.src + p.dst + (f + rest') == (p.head + p.src + p.dst + f) + rest';
    }
  }

  lemma EncloseLength(pkt: seq<byte>, m: Meta, payloadLength: u16, rest: seq<byte>)
    requires |pkt| >= 20 && !m.IsFragmented() && m.fragmentOffset == 0
    ensures var p := Enclose(pkt, m, payloadLength, rest);
            p.PayloadLength() == payloadLength && p.rest == rest && |p.Bytes()| == 40 + |rest|
  {
    assert Word(Head6Of(pkt[1], payloadLength, NextHeaderOf(m.protocol), pkt[8]), 4) == payloadLength;
  }

  /** What a packet with new headers and its payload in place looks like in the buffer. */
  ghost predicate Holds(buffer: seq<byte>, start: nat, p: V6) {
    start <= |buffer| && buffer[start..] == p.Bytes()
  }

  /** Computing the checksum of the message in the buffer seals the packet it belongs to. */
  lemma SealWindow(s: seq<byte>, start: nat, p: V6)
    requires Holds(s, start, p) && 4 <= p.PayloadLength() <= |p.rest|
    ensures start + 40 + p.PayloadLength() <= |s|
    ensures Holds(Splice(s, start + 40,
            Sealed6(s[start + 8..start + 40], s[start + 40..start + 40 + p.PayloadLength()])),
                  start, SealPacket(p))
  {
    hide Splice, Sealed6, V6.Bytes, SealPacket;
    var n: nat, w := p.PayloadLength(), p.Bytes();
    SliceOfSlice(s, start, 8, 40);
    SliceOfSlice(s, start, 40, 40 + n);
    PacketSlices(p, n);
    var sealed := Sealed6(p.src + p.dst, p.Payload());
    SpliceWindow(s, start, 40, sealed);
    SpliceParts(w, 40, sealed);
    SealedBytes(p);
  }

  lemma SealedBytes(p: V6)
    requires 4 <= p.PayloadLength() <= |p.rest|
    ensures var n, w := p.PayloadLength(), p.Bytes();
            SealPacket(p).Bytes() == w[..40] + Sealed6(p.src + p.dst, p.Payload()) + w[40 + n..]
  {
    hide Sealed6;
    PacketSlices(p, p.PayloadLength());
  }

  lemma PacketSlices(p: V6, n: nat)
    requires n <= |p.rest|
    ensures var w := p.Bytes();
            && w[..40] == p.head + p.src + p.dst && w[8..40] == p.src + p.dst
            && w[40..40 + n] == p.rest[..n] && w[40 + n..] == p.rest[n..]
  {
  }

  lemma HeadLength(tos: byte, length: u16, length': u16, next: byte, hopLimit: byte, more: seq<byte>)
    ensures Splice(Head6Of(tos, length, next, hopLimit) + more, 4, Be16(length')) ==
            Head6Of(tos, length', next, hopLimit) + more
  {
    assert Splice(Head6Of(tos, length, next, hopLimit), 4, Be16(length')) == Head6Of(tos, length', next, hopLimit);
  }

  /** Replacing the first 8 bytes leaves the others where they were. */
  lemma HeadReplaced(rest: seq<byte>, head: seq<byte>, n: nat)
    requires |head| == 8 && 28 <= n <= |rest|
    ensures var t := head + rest[8..];
            && |t| == |rest| && t[8..] == rest[8..] && t[17] == rest[17] && t[28..n] == rest[28..n]
            && t[n..] == rest[n..]
  {
  }

  /** Expanding the quote of an enclosed ICMP error encloses the expanded message. */
  lemma ExpandedPacket(pkt: seq<byte>, m: Meta, n: u16, rest: seq<byte>, head: seq<byte>)
    requires |pkt| >= 20 && !m.IsFragmented() && m.fragmentOffset == 0 && |head| == 8
    requires 28 <= n <= |rest| && n + 20 < 0x1_0000 && (rest[17] == ICMPV4 ==> n >= 32)
    ensures var t, q := head + rest[8..], rest[8..];
            var w := Enclose(pkt, m, n, t).Bytes();
            && t[17] == rest[17]
            && Expanded(w[..48], n, t) + t[n..]
               == Enclose(pkt, m, n + 20, head + QuoteHead46(q) + QuotePayload46(q, rest[28..n]) + rest[n..]).Bytes()
  {
    hide Splice, Head6Of, QuoteHead46, QuotePayload46, Translated4, Be16, Expanded;
    var t, q := head + rest[8..], rest[8..];
    var p, p' := Enclose(pkt, m, n, t), Enclose(pkt, m, n + 20, t);
    HeadReplaced(rest, head, n);
    var addrs := p.src + p.dst + head;
    assert p.Bytes()[..48] == p.head + addrs;
    HeadLength(pkt[1], n, n + 20, NextHeaderOf(m.protocol), pkt[8], addrs);
    ExpandedParts(p.Bytes()[..48], n, t);
    var qh, qp := QuoteHead46(q), QuotePayload46(q, rest[28..n]);
    assert p'.head + addrs + qh + qp + rest[n..] == p'.head + p'.src + p'.dst + (head + qh + qp + rest[n..]);
  }

  lemma QuoteReplaced(rest: seq<byte>, head: seq<byte>, n: nat)
    requires |head| == 8 && 8 <= n <= |rest|
    ensures var t := head + rest[8..];
            && |t| == |rest| && t[8..] == rest[8..]
            && (QuoteTranslatable46(rest[8..]) ==> (QuoteOverruns46(t, n) <==> QuoteOverruns46(rest, n)))
  {
    assert (head + rest[8..])[8..] == rest[8..];
  }

  /** Expands the quote of an ICMP error whose head is translated, in the packet at reserved + 16. */
  method TranslateQuote(buffer: array<byte>, reserved: byte, m: Meta, ghost pkt: seq<byte>, ghost rest: seq<byte>)
    returns (overran: bool, reserved': byte, length: u16)
    requires |pkt| >= 20 && !m.IsFragmented() && m.fragmentOffset == 0
    requires 8 <= m.payloadLength <= |rest| && m.payloadLength + 20 < 0x1_0000
    requires Holds(buffer[..], reserved + 16, Enclose(pkt, m, m.payloadLength, IcmpHead46(rest) + rest[8..]))
    modifies buffer
    ensures var go := QuoteTranslatable46(rest[8..]) && reserved >= HEADER_GROWTH;
            && (overran <==> go && QuoteOverruns46(rest, m.payloadLength))
            && (!overran ==> var r := MessageOf(rest, m.payloadLength, go);
                             length == r.length && Holds(buffer[..], reserved' + 16, Enclose(pkt, m, r.length, r.rest)))
  {
    hide Splice, IcmpHead46, Head6Of, QuoteTranslatable46, QuoteHead46, QuotePayload46, Expanded;
    var at := reserved + 16;
    ghost var n, head := m.payloadLength, IcmpHead46(rest);
    ghost var t := head + rest[8..];
    ghost var p := Enclose(pkt, m, n, t);
    ghost var mid := buffer[..];
    SliceOfSlice(mid, at, 40, 40 + |t|);
    SliceOfSlice(mid, at, 0, 48);
    PacketSlices(p, n);
    QuoteReplaced(rest, head, n);
    assert mid[at + 40..] == t;
    var quote;
    quote, reserved' := TranslateIcmpErrorQuote(buffer, reserved, m.payloadLength);
    overran, length := quote == Overran, m.payloadLength;
    if quote == Grown {
      QuoteSize(rest[8..]);
      assert rest[8..][9] == rest[17];
      ExpandedPacket(pkt, m, n, rest, head);
      assert mid[at..at + 48] == p.Bytes()[..48];
      length := length + HEADER_GROWTH;
    }
  }

  /** Translates the head of an ICMP message in the packet at offset at. */
  method TranslateHead(buffer: array<byte>, at: nat, m: Meta, ghost pkt: seq<byte>, ghost rest: seq<byte>)
    returns (translateQuote: bool)
    requires |pkt| >= 20 && !m.IsFragmented() && m.fragmentOffset == 0 && 8 <= m.payloadLength <= |rest|
    requires Holds(buffer[..], at, Enclose(pkt, m, m.payloadLength, rest))
    modifies buffer
    ensures Holds(buffer[..], at, Enclose(pkt, m, m.payloadLength, IcmpHead46(rest) + rest[8..]))
    ensures translateQuote <==> IsError46(rest[0])
  {
    hide Splice, IcmpHead46, Enclose;
    ghost var was, n, head := buffer[..], m.payloadLength, IcmpHead46(rest);
    EncloseAround(pkt, m, n, rest, head + rest[8..]);
    EncloseLength(pkt, m, n, rest);
    SliceOfSlice(was, at, 40, 40 + |rest|);
    translateQuote := TranslateIcmpHead(buffer, at + IPV6_FIXED_SIZE);
    SpliceWindow(was, at, 40, head);
    SpliceParts(was[at..], 40, head);
  }

  /** Computes the checksum of the ICMPv6 message in the packet at offset at. */
  method SealMessage(buffer: array<byte>, at: nat, length: u16, ghost p: V6)
    requires 8 <= length == p.PayloadLength() <= |p.rest| && Holds(buffer[..], at, p)
    modifies buffer
    ensures Holds(buffer[..], at, SealPacket(p))
  {
    hide Splice, Sealed6, SealPacket, V6.Bytes;
    SealWindow(buffer[..], at, p);
    SealIcmp6(buffer, at + SOURCE_OFFSET, at + IPV6_FIXED_SIZE, length);
  }

  /** Translates an ICMP message, quote and checksum included, in the packet at reserved + 16. */
  method TranslateIcmpTransport(buffer: array<byte>, reserved: byte, m: Meta, ghost pkt: seq<byte>,
      ghost rest: seq<byte>)
    returns (overran: bool, reserved': byte)
    requires |pkt| >= 20 && !m.IsFragmented() && m.fragmentOffset == 0
    requires 8 <= m.payloadLength <= |rest| && m.payloadLength + 20 < 0x1_0000
    requires Holds(buffer[..], reserved + 16, Enclose(pkt, m, m.payloadLength, rest))
    modifies buffer
    ensures var r := TranslateIcmp46(rest, m.payloadLength, reserved);
            && (overran <==> r.Overrun?)
            && (!overran ==> Holds(buffer[..], reserved' + 16, SealPacket(Enclose(pkt, m, r.length, r.rest))))
  {
    hide QuoteTranslatable46, QuoteOverruns46, SealPacket, Enclose, QuoteHead46, QuotePayload46, IcmpHead46;
    var translateQuote := TranslateHead(buffer, reserved + 16, m, pkt, rest);
    var length := m.payloadLength;
    reserved', overran := reserved, false;
    if translateQuote {
      overran, reserved', length := TranslateQuote(buffer, reserved, m, pkt, rest);
      if overran {
        return;
      }
    }
    ghost var r := TranslateIcmp46(rest, m.payloadLength, reserved);
    EncloseLength(pkt, m, length, r.rest);
    SealMessage(buffer, reserved' + 16, length, Enclose(pkt, m, r.length, r.rest));
  }

  /** Makes room for the IPv6 headers and writes them around the payload, where it stands. */
  method EncloseInPlace(buffer: array<byte>, reserved: byte, m: Meta, ghost pkt: seq<byte>)
      returns (ok: bool, reserved': byte)
    requires reserved + 16 + m.headerLength <= buffer.Length && pkt == buffer[..][reserved + 16..]
    requires 20 <= m.headerLength && m.fragmentOffset % 8 == 0 && m.fragmentOffset < 0x1_0000
             && m.payloadLength + 8 < 0x1_0000
    modifies buffer
    ensures ok <==> HasRoom46(reserved, m)
    ensures !ok ==> reserved' == reserved && buffer[..] == old(buffer[..])
    ensures ok ==> reserved' == reserved - m.HeaderRoom() + m.headerLength
    ensures ok ==> Holds(buffer[..], reserved' + 16, Enclose(pkt, m, m.payloadLength, pkt[m.headerLength..]))
  {
    hide Enclose;
    ghost var was, packetStart := buffer[..], reserved + 16;
    ok, reserved' := MakeRoomForIPv6Header(buffer, reserved, m);
    if !ok {
      return;
    }
    ghost var moved := buffer[..];
    var start := reserved' + MESSAGE_TRANSPORT_HEADER_SIZE;
    SliceOfSlice(was, packetStart, 0, m.headerLength);
    SliceOfSlice(was, packetStart, m.headerLength, |pkt|);
    SliceOfSlice(was, start, m.HeaderRoom(), |was| - start);
    SliceOfSlice(moved, start, m.HeaderRoom(), |was| - start);
    assert moved[start + m.HeaderRoom()..] == pkt[m.headerLength..];
    TranslateHeader(buffer, start, m);
    EncloseHeader(pkt, m, m.payloadLength, pkt[m.headerLength..]);
  }

  /** What the caller is told, and what is in the buffer then. */
  ghost predicate Reports(o: Outcome46, result: Result46, buffer: seq<byte>, reserved: nat) {
    match o
    case Untranslated => result == Result46.Untranslated
    case Dropped => result == Result46.Dropped
    case Panicked => result == Result46.Panicked
    case Translated(p) => result == Result46.Translated && Holds(buffer, reserved + 16, p)
  }

  /** Translates the payload of an enclosed packet. */
  method TranslatePayload(buffer: array<byte>, reserved: byte, m: Meta, ghost pkt: seq<byte>)
    returns (result: Result46, reserved': byte)
    requires |pkt| >= 20 && m.headerLength + m.payloadLength <= |pkt| && m.payloadLength + 20 < 0x1_0000
    requires m.fragmentOffset % 8 == 0 && m.fragmentOffset < 0x1_0000
    requires m.protocol == ICMPV4 ==> !m.IsFragmented() && m.payloadLength >= 8
    requires Holds(buffer[..], reserved + 16, Enclose(pkt, m, m.payloadLength, pkt[m.headerLength..]))
    modifies buffer
    ensures Reports(Finish46(pkt, m, reserved), result, buffer[..], reserved') && result != Result46.Untranslated
  {
    hide Enclose, SealPacket, TranslateIcmp46, RepairPayload46, Addresses46, Holds;
    ghost var rest := pkt[m.headerLength..];
    if m.protocol == ICMPV4 {
      var overran;
      overran, reserved' := TranslateIcmpTransport(buffer, reserved, m, pkt, rest);
      result := if overran then Result46.Panicked else Result46.Translated;
    } else {
      reserved' := reserved;
      var repaired := RepairPayload(buffer, reserved + MESSAGE_TRANSPORT_HEADER_SIZE, m, pkt, rest);
      result := if repaired then Result46.Translated else Result46.Dropped;
    }
  }

  /** Translates, in place, the IPv4 packet at reserved + 16 of the buffer; the IPv6 packet ends where the buffer
      does. */
  method SIIT46InPlaceTranslate(buffer: array<byte>, reserved: byte, forbidden: seq<byte> -> bool)
    returns (result: Result46, reserved': byte)
    modifies buffer
    ensures reserved + 16 > buffer.Length ==> result == Result46.Dropped
    ensures reserved + 16 <= buffer.Length ==>
              Reports(Translate46(old(buffer[..])[reserved + 16..], reserved, forbidden), result, buffer[..], reserved')
    ensures result == Result46.Untranslated ==> buffer[..] == old(buffer[..]) && reserved' == reserved
  {
    hide Enclose, SealPacket, TranslateIcmp46, RepairPayload46, Splice;
    reserved' := reserved;
    var packetStart := reserved + MESSAGE_TRANSPORT_HEADER_SIZE;
    if reserved > buffer.Length || packetStart > buffer.Length {
      return Result46.Dropped, reserved;
    }
    ghost var pkt := buffer[..][packetStart..];
    var parsed := Parse46(buffer[packetStart..], forbidden);
    if parsed == None {
      return Result46.Untranslated, reserved;
    }
    var m := parsed.value;
    var room;
    room, reserved' := EncloseInPlace(buffer, reserved, m, pkt);
    if !room {
      return Result46.Dropped, reserved';
    }
    hide Parse46, HasRoom46, Holds;
    result, reserved' := TranslatePayload(buffer, reserved', m, pkt);
  }

  /** Repairs the checksum of the transport enclosed at start. */
  method RepairPayload(buffer: array<byte>, start: nat, m: Meta, ghost pkt: seq<byte>, ghost rest: seq<byte>)
      returns (ok: bool)
    requires |pkt| >= 20 && m.fragmentOffset % 8 == 0 && m.fragmentOffset < 0x1_0000
    requires m.payloadLength <= |rest| && m.payloadLength + 8 < 0x1_0000 && m.protocol != ICMPV4
    requires Holds(buffer[..], start, Enclose(pkt, m, m.payloadLength, rest))
    modifies buffer
    ensures var r := RepairPayload46(Addresses46(pkt), m, rest);
            && (ok <==> r.Some?)
            && (ok ==> Holds(buffer[..], start, Enclose(pkt, m, m.payloadLength, r.value)))
  {
    hide Enclose, RepairPayload46, Addresses46;
    ghost var was := buffer[..];
    EncloseAround(pkt, m, m.payloadLength, rest, rest);
    SliceOfSlice(was, start, 8, 40);
    SliceOfSlice(was, start, m.HeaderRoom(), |was| - start);
    ok := UpdateTransportChecksum(buffer, start + SOURCE_OFFSET, start + m.HeaderRoom(), m);
    if ok {
      ghost var r := RepairPayload46(Addresses46(pkt), m, rest);
      EncloseAround(pkt, m, m.payloadLength, rest, r.value);
      HeadAndTail(was, buffer[..], start, m.HeaderRoom());
    }
  }

  /** A window is its first bytes and the others. */
  lemma HeadAndTail(s: seq<byte>, s': seq<byte>, start: nat, n: nat)
    requires |s| == |s'| && start + n <= |s| && s'[..start + n] == s[..start + n]
    ensures s'[start..] == s[start..][..n] + s'[start + n..]
  {
    assert s'[start..][..n] == s'[..start + n][start..];
    assert s[start..][..n] == s[..start + n][start..];
    assert s'[start..][n..] == s'[start + n..];
  }
}
