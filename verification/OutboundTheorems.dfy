/** What a packet on its way from the client to the TUN device means: addresses, transport bytes, checksums. */
module OutboundTheorems {
  import opened Wrappers
  import opened Bytes
  import opened OnesComplement
  import opened Wire
  import opened Nat66
  import opened Nat66Theorems
  import opened Siit46Spec
  import opened Clatxlat

  // The two updates

  /** With the checksum-neutral prefix, SIIT46's update changes nothing but a stored 0xffff, which becomes 0x0000. */
  lemma Bumped46Is(field: u16)
    ensures Bumped46(field) == if field == 0xffff then 0 else field
  {
    PrefixSum();
  }

  lemma TranslatedSum(a: Address4)
    ensures WordSum(Translated4(a)) == 0xffff + WordSum(a)
  {
    hide WordSum;
    PrefixSum();
    WordSumConcat(PREFIX, a);
  }

  /** The sum over the translated addresses is the sum over the IPv4 addresses, up to two multiples of 0xffff. */
  lemma AddressSums(pkt: seq<byte>)
    requires |pkt| >= 20
    ensures WordSum(Addresses46(pkt)) == 0x1_fffe + WordSum(pkt[12..20])
  {
    var src, dst := pkt[12..16], pkt[16..20];
    assert pkt[12..20] == src + dst;
    TranslatedSum(src);
    TranslatedSum(dst);
    WordSumConcat(Translated4(src), Translated4(dst));
    WordSumConcat(src, dst);
  }

  lemma ComplementBalances(sum: nat)
    ensures (sum + Complement(Fold(sum))) % 0xffff == 0
  {
    FoldCongruent(sum);
    var q := (Fold(sum) - sum) / 0xffff;
    assert sum + Complement(Fold(sum)) == 0xffff * (1 - q);
  }

  /** A checksum computed over the other bytes makes the whole valid. */
  lemma SealedValid(addrs: seq<byte>, proto: byte, t: seq<byte>, c: nat)
    requires proto != 0 && c % 2 == 0 && c + 2 <= |t| && Word(t, c) == 0
    ensures TransportValid(addrs, proto, SetWord(t, c, Complement(Fold(TransportSum(addrs, proto, t)))))
  {
    var sum := TransportSum(addrs, proto, t);
    WordSumSet(t, c, Complement(Fold(sum)));
    ComplementBalances(sum);
    TransportValidIff(addrs, proto, SetWord(t, c, Complement(Fold(sum))));
  }

  /** SIIT46's repair keeps a valid checksum valid and an invalid one invalid, and computes a missing UDP checksum. */
  lemma Repaired46(pkt: seq<byte>, m: Meta, rest: seq<byte>)
    requires |pkt| >= 20 && m.payloadLength <= |rest| && !m.IsFragmented()
    requires HasPseudoHeader(m.protocol) && m.payloadLength >= TransportMinimum(m.protocol)
    ensures var r := RepairPayload46(Addresses46(pkt), m, rest);
            var c := TransportField(m.protocol);
            && r.Some? && r.value == SetWord(rest, c, Word(r.value, c))
            && (TransportValid(Addresses46(pkt), m.protocol, r.value[..m.payloadLength])
                <==> || TransportValid(pkt[12..20], m.protocol, rest[..m.payloadLength])
                     || (m.protocol == UDP && Word(rest, 6) == 0))
  {
    hide WordSum, Fold, SetWord, UdpChecksum, Bumped46, Addresses46;
    var n, c, t := m.payloadLength, TransportField(m.protocol), rest[..m.payloadLength];
    var addrs := Addresses46(pkt);
    var r := RepairPayload46(addrs, m, rest).value;
    var w := Word(r, c);
    assert r == SetWord(rest, c, w);
    SetWordPrefix(rest, c, w, n);
    if m.protocol == UDP && Word(rest, 6) == 0 {
      assert w == UdpChecksum(addrs, t);
      MissingChecksum(addrs, t);
    } else {
      Bumped46Is(Word(rest, c));
      WordSumSet(t, c, w);
      AddressSums(pkt);
      TransportValidIff(pkt[12..20], m.protocol, t);
      TransportValidIff(addrs, m.protocol, r[..n]);
    }
  }

  /** A checksum the translator fills in is never 0xffff. */
  lemma FilledNotSaturated(addrs: seq<byte>, t: seq<byte>)
    ensures UdpChecksum(addrs, t) != 0xffff
  {
    FoldCongruent(TransportSum(addrs, UDP, t));
  }

  lemma MissingChecksum(addrs: seq<byte>, t: seq<byte>)
    requires |t| >= 8 && Word(t, 6) == 0
    ensures TransportValid(addrs, UDP, SetWord(t, 6, UdpChecksum(addrs, t)))
  {
    hide TransportValid, SetWord, TransportSum;
    SealedValid(addrs, UDP, t, 6);
  }

  // The packet

  /** The fields of a translated packet. */
  lemma EncloseFields(pkt: seq<byte>, m: Meta, n: u16, rest: seq<byte>)
    requires |pkt| >= 20 && !m.IsFragmented() && m.fragmentOffset == 0
    ensures var p := Enclose(pkt, m, n, rest);
            && p.src == Translated4(pkt[12..16]) && p.dst == Translated4(pkt[16..20]) && p.rest == rest
            && p.PayloadLength() == n && p.NextHeader() == NextHeaderOf(m.protocol)
            && p.HopLimit() == pkt[8] && p.Tos() == pkt[1] && p.head[0] / 16 == 6
  {
    assert Word(Head6Of(pkt[1], n, NextHeaderOf(m.protocol), pkt[8]), 4) == n;
  }

  /** An unfragmented TCP, DCCP or UDP packet with a full transport header leaves with the CLAT address as source,
      the prefix-mapped destination, and every transport byte but the checksum unchanged. Through the two successive
      updates its checksum is valid exactly when it was valid when the packet came, or was missing from a UDP
      datagram. */
  lemma OutboundTransport(t: Translator, pkt: seq<byte>, forbidden: seq<byte> -> bool)
    requires Parse46(pkt, forbidden).Some?
    requires var m := Parse46(pkt, forbidden).value;
             !m.IsFragmented() && HasPseudoHeader(m.protocol) && m.payloadLength >= TransportMinimum(m.protocol)
    ensures var m := Parse46(pkt, forbidden).value;
            var rest, c := pkt[m.headerLength..], TransportField(m.protocol);
            && t.OutboundV6(pkt, forbidden).Some?
            && var p := t.OutboundV6(pkt, forbidden).value;
              && p.src == t.clatV6 && p.dst == PREFIX + pkt[16..20]
              && p.PayloadLength() == m.payloadLength && p.NextHeader() == m.protocol
              && p.HopLimit() == pkt[8] && p.Tos() == pkt[1] && p.head[0] / 16 == 6
              && |p.rest| == |rest| && p.rest == SetWord(rest, c, Word(p.rest, c))
              && (p.TransportOk() <==> || TransportValid(pkt[12..20], m.protocol, rest[..m.payloadLength])
                                       || (m.protocol == UDP && Word(rest, 6) == 0))
  {
    hide Parse46, Enclose, RepairPayload46, Rewrite, SetWord, TransportValid, V6.Bytes;
    var m := Parse46(pkt, forbidden).value;
    var n, rest, c := m.payloadLength, pkt[m.headerLength..], TransportField(m.protocol);
    Repaired46(pkt, m, rest);
    var r := RepairPayload46(Addresses46(pkt), m, rest).value;
    var q := Enclose(pkt, m, n, r);
    EncloseFields(pkt, m, n, r);
    RewriteKeepsValidity(q, Source, t.clatV6);
    var p := Rewrite(q, Source, t.clatV6);
    ViewOfBytes6(p);
    assert t.OutboundV6(pkt, forbidden) == Some(p);
    SetWordTwice(rest, c, Word(r, c), Word(p.rest, c));
  }

  // ICMP

  lemma Sealed6Valid(addrs: seq<byte>, t: seq<byte>)
    requires |t| >= 4
    ensures TransportValid(addrs, ICMPV6, Sealed6(addrs, t))
    ensures Sealed6(addrs, t) == SetWord(t, 2, Word(Sealed6(addrs, t), 2))
  {
    hide TransportValid, TransportSum, Fold;
    SealedValid(addrs, ICMPV6, SetWord(t, 2, 0), 2);
    SetWordTwice(t, 2, 0, Complement(Fold(TransportSum(addrs, ICMPV6, SetWord(t, 2, 0)))));
  }

  lemma SealPacketValid(p: V6)
    requires 4 <= p.PayloadLength() <= |p.rest| && p.NextHeader() == ICMPV6
    ensures var q := SealPacket(p);
            && q.TransportOk() && |q.rest| == |p.rest| && q == p.(rest := SetWord(p.rest, 2, Word(q.rest, 2)))
  {
    hide TransportValid, Sealed6, SetWord;
    var n := p.PayloadLength();
    var sealed, q := Sealed6(p.src + p.dst, p.Payload()), SealPacket(p);
    Sealed6Valid(p.src + p.dst, p.Payload());
    assert q.Payload() == sealed;
    assert Word(q.rest, 2) == Word(sealed, 2);
    SetWordPrefix(p.rest, 2, Word(sealed, 2), n);
    assert SetWord(p.rest, 2, Word(sealed, 2)) == SetWord(p.rest, 2, Word(sealed, 2))[..n]
        + SetWord(p.rest, 2, Word(sealed, 2))[n..];
  }

  /** An ICMP message leaves as the ICMPv6 message it stands for, 20 bytes longer if its quote was expanded, with the
      CLAT address as source and a valid checksum. */
  lemma OutboundIcmp(t: Translator, pkt: seq<byte>, forbidden: seq<byte> -> bool)
    requires Parse46(pkt, forbidden).Some? && Parse46(pkt, forbidden).value.protocol == ICMPV4
    ensures var m := Parse46(pkt, forbidden).value;
            match TranslateIcmp46(pkt[m.headerLength..], m.payloadLength, 8 + m.headerLength)
            case Overrun => t.Outbound(pkt, forbidden) == Crashed
            case Message(icmp, length) =>
              && length in {m.payloadLength, m.payloadLength + 20}
              && t.OutboundV6(pkt, forbidden).Some?
              && var p := t.OutboundV6(pkt, forbidden).value;
                   && p.src == t.clatV6 && p.dst == PREFIX + pkt[16..20]
                   && p.PayloadLength() == length <= |p.rest| && p.NextHeader() == ICMPV6
                   && p.HopLimit() == pkt[8] && p.Tos() == pkt[1] && p.head[0] / 16 == 6
                   && |p.rest| == |icmp| && p.rest == SetWord(icmp, 2, Word(p.rest, 2))
                   && p.TransportOk()
  {
    hide Parse46, Enclose, SealPacket, Rewrite, SetWord, TransportValid, V6.Bytes, MessageOf, QuoteTranslatable46,
      QuoteOverruns46;
    var m := Parse46(pkt, forbidden).value;
    match TranslateIcmp46(pkt[m.headerLength..], m.payloadLength, 8 + m.headerLength) {
      case Overrun =>
      case Message(icmp, length) =>
        var e := Enclose(pkt, m, length, icmp);
        EncloseFields(pkt, m, length, icmp);
        SealPacketValid(e);
        var q := SealPacket(e);
        RewriteKeepsValidity(q, Source, t.clatV6);
        var p := Rewrite(q, Source, t.clatV6);
        ViewOfBytes6(p);
        assert t.OutboundV6(pkt, forbidden) == Some(p);
        SetWordTwice(icmp, 2, Word(q.rest, 2), Word(p.rest, 2));
    }
  }

  /** Where the original would index out of range: an ICMP error whose quote passes the tests only with bytes that
      trail the packet. A buffer that ends where the packet does never gets there. */
  lemma OverrunNeedsTrailingBytes(t: Translator, pkt: seq<byte>, forbidden: seq<byte> -> bool)
    requires Version(pkt) == 4
    ensures t.Outbound(pkt, forbidden) == Crashed <==>
              && Parse46(pkt, forbidden).Some? && Parse46(pkt, forbidden).value.protocol == ICMPV4
              && var m := Parse46(pkt, forbidden).value;
                 var rest := pkt[m.headerLength..];
                 IsError46(rest[0]) && QuoteTranslatable46(rest[8..]) && QuoteOverruns46(rest, m.payloadLength)
    ensures t.Outbound(pkt, forbidden) == Crashed ==> Word(pkt, 2) < |pkt|
  {
    hide Rewrite, Enclose, SealPacket, RepairPayload46, V6.Bytes;
    if t.Outbound(pkt, forbidden) == Crashed {
      var m := Parse46(pkt, forbidden).value;
      var rest := pkt[m.headerLength..];
      assert |rest[8..]| >= 28;
    }
  }

  // Addresses

  /** Whether the bytes after the IPv4 header hold the whole header of a transport with a pseudo-header, or need not. */
  predicate TransportWhole(pkt: seq<byte>, m: Meta)
    requires m.headerLength <= |pkt|
  {
    m.fragmentOffset != 0 || !HasPseudoHeader(m.protocol) || |pkt| - m.headerLength >= TransportMinimum(m.protocol)
  }

  /** Which checksum of an enclosed packet NAT66 maintains. */
  lemma EnclosedCoverage(pkt: seq<byte>, m: Meta, n: u16, rest: seq<byte>)
    requires |pkt| >= 20 && m.fragmentOffset % 8 == 0 && m.fragmentOffset < 0x1_0000 && n + 8 < 0x1_0000
    requires !ForbiddenForIPv4(m.protocol) && m.protocol != ICMPV4
    ensures AddressCoverage(Enclose(pkt, m, n, rest)) ==
              if m.fragmentOffset != 0 || !HasPseudoHeader(m.protocol) then Uncovered
              else if |rest| < TransportMinimum(m.protocol) then TooShort
              else Field(m.HeaderRoom() - 40 + TransportField(m.protocol))
  {
    hide Head6Of, Translated4;
    HeadNext(pkt[1], n + 8, FRAGMENT, pkt[8]);
    HeadNext(pkt[1], n, m.protocol, pkt[8]);
    var p := Enclose(pkt, m, n, rest);
    if m.IsFragmented() {
      FragmentHeaderFields(m.protocol, m.fragmentOffset, m.moreFragments, Word(pkt, 4), rest);
    }
  }

  lemma HeadNext(tos: byte, n: u16, next: byte, hopLimit: byte)
    ensures var h := Head6Of(tos, n, next, hopLimit);
            h[6] == next && h[7] == hopLimit && Word(h, 4) == n && h[0] % 16 * 16 + h[1] / 16 == tos && h[0] / 16 == 6
  {
    hide Be16;
    var h := Head6Of(tos, n, next, hopLimit);
    assert h[0] == 0x60 + tos / 16 && h[1] == tos % 16 * 16 && h[4..6] == Be16(n);
    WordBytes(h, 4, n);
    hide Head6Of;
    Nibbles(h[0], h[1], tos);
  }

  /** A traffic class spread over the low half of one byte and the high half of the next. */
  lemma Nibbles(a: byte, b: byte, tos: byte)
    requires a == 0x60 + tos / 16 && b == tos % 16 * 16
    ensures a % 16 * 16 + b / 16 == tos && a / 16 == 6
  {
  }

  /** What a fragment header says. */
  lemma FragmentHeaderFields(next: byte, offset: u16, more: bool, id: u16, rest: seq<byte>)
    requires offset % 8 == 0
    ensures var f := FragmentHeader(next, offset, more, id) + rest;
            && f[0] == next && f[1] == 0 && f[3] / 2 % 4 == 0
            && FragmentOffset6(f, 0) == offset && MoreFragments6(f, 0) == more
            && Word(f, 4) == 0 && Word(f, 6) == id
  {
  }

  /** The source of an outbound packet becomes the CLAT address exactly when its transport header is not cut off; a
      TCP, DCCP or UDP packet with a short transport header leaves with the prefix-mapped source instead. */
  lemma OutboundSource(t: Translator, pkt: seq<byte>, forbidden: seq<byte> -> bool)
    requires Version(pkt) == 4 && t.OutboundV6(pkt, forbidden).Some? && Parse46(pkt, forbidden).Some?
    ensures var p := t.OutboundV6(pkt, forbidden).value;
            && p.dst == PREFIX + pkt[16..20]
            && p.src == if TransportWhole(pkt, Parse46(pkt, forbidden).value) then t.clatV6 else PREFIX + pkt[12..16]
  {
    hide Parse46, TranslateIcmp46, RepairPayload46, V6.Bytes, Updated, Enclose, SealPacket, AddressCoverage, SetWord,
      View6;
    var m := Parse46(pkt, forbidden).value;
    if m.protocol == ICMPV4 {
      OutboundIcmp(t, pkt, forbidden);
    } else {
      var r := RepairPayload46(Addresses46(pkt), m, pkt[m.headerLength..]).value;
      EnclosedCoverage(pkt, m, m.payloadLength, r);
      EncloseAddresses(pkt, m, m.payloadLength, r);
      ViewOfBytes6(Rewrite(Enclose(pkt, m, m.payloadLength, r), Source, t.clatV6));
    }
  }

  lemma EncloseAddresses(pkt: seq<byte>, m: Meta, n: u16, rest: seq<byte>)
    requires |pkt| >= 20 && m.fragmentOffset % 8 == 0 && m.fragmentOffset < 0x1_0000 && n + 8 < 0x1_0000
    ensures var p := Enclose(pkt, m, n, rest);
            p.src == PREFIX + pkt[12..16] && p.dst == PREFIX + pkt[16..20]
  {
  }
}
