/** A reply that turns a client's packet around: out through the CLAT, addresses swapped, and back in. */
module ReflectionTheorems {
  import opened Wrappers
  import opened Bytes
  import opened OnesComplement
  import opened Wire
  import opened Nat66
  import opened Nat66Theorems
  import opened Siit46Spec
  import Siit64Spec
  import opened Clatxlat
  import opened OutboundTheorems
  import FragmentTheorems
  import opened InboundHeaders
  import opened InboundTheorems

  function Swap(p: V6): V6
  {
    p.(src := p.dst, dst := p.src)
  }

  // The addresses

  /** NAT66 on one side of a packet is NAT66 on the other side of the packet turned around. */
  lemma RewriteSwapped(p: V6, to: Address6)
    ensures Rewrite(Swap(p), Destination, to) == Swap(Rewrite(p, Source, to))
  {
    hide Updated, SetWord;
    assert AddressCoverage(Swap(p)) == AddressCoverage(p);
  }

  /** Rewriting the source, turning the packet around and rewriting the destination back. */
  lemma RewriteReflected(p: V6, to: Address6)
    ensures Rewrite(Swap(Rewrite(p, Source, to)), Destination, p.src) == Swap(ZeroCanonical(p))
  {
    hide Rewrite, ZeroCanonical;
    RewriteSwapped(Rewrite(p, Source, to), p.src);
    RewriteRoundTrip(p, Source, to);
  }

  // The payload

  /** The bytes that come back for the payload bytes (and what trails them) that went out. */
  function Returned(pkt: seq<byte>, m: Meta): seq<byte>
    requires 20 <= m.headerLength && m.headerLength + m.payloadLength <= |pkt|
  {
    var rest, n, c := pkt[m.headerLength..], m.payloadLength, TransportField(m.protocol);
    if m.fragmentOffset != 0 || !HasPseudoHeader(m.protocol) || |rest| < TransportMinimum(m.protocol) then rest
    else if n >= 8 && m.protocol == UDP && Word(rest, 6) == 0 then
        SetWord(rest, 6, UdpChecksum(Addresses46(pkt), rest[..n]))
    else if Word(rest, c) == 0xffff then SetWord(rest, c, 0)
    else rest
  }

  /** The payload of an enclosed packet with the checksum NAT66 maintains in its canonical form. */
  function Canonical(m: Meta, rest: seq<byte>): (r: seq<byte>)
    ensures |r| == |rest|
  {
    var c := TransportField(m.protocol);
    if m.fragmentOffset == 0 && HasPseudoHeader(m.protocol) && |rest| >= TransportMinimum(m.protocol)
        && Word(rest, c) == 0xffff
    then SetWord(rest, c, 0) else rest
  }

  lemma RepairThenCanonical(pkt: seq<byte>, m: Meta)
    requires |pkt| >= 20 && 20 <= m.headerLength && m.headerLength + m.payloadLength <= |pkt|
    requires RepairPayload46(Addresses46(pkt), m, pkt[m.headerLength..]).Some?
    ensures Canonical(m, RepairPayload46(Addresses46(pkt), m, pkt[m.headerLength..]).value) == Returned(pkt, m)
  {
    hide UdpChecksum, Bumped46, SetWord, Addresses46;
    var rest, n, c := pkt[m.headerLength..], m.payloadLength, TransportField(m.protocol);
    if m.fragmentOffset == 0 && HasPseudoHeader(m.protocol) && n >= TransportMinimum(m.protocol) {
      if m.protocol == UDP && Word(rest, 6) == 0 {
        FilledNotSaturated(Addresses46(pkt), rest[..n]);
      } else {
        var field := Word(rest, c);
        Bumped46Is(field);
        SetWordSame(rest, c);
      }
    }
  }

  lemma SetWordSame(s: seq<byte>, i: nat)
    requires i + 2 <= |s|
    ensures SetWord(s, i, Word(s, i)) == s
  {
  }

  lemma CanonicalEnclosed(pkt: seq<byte>, m: Meta, rest: seq<byte>)
    requires |pkt| >= 20 && m.fragmentOffset % 8 == 0 && m.fragmentOffset < 0x1_0000 && m.payloadLength + 8 < 0x1_0000
    requires !ForbiddenForIPv4(m.protocol) && m.protocol != ICMPV4
    ensures ZeroCanonical(Enclose(pkt, m, m.payloadLength, rest)) ==
            Enclose(pkt, m, m.payloadLength, Canonical(m, rest))
  {
    hide Enclose, SetWord;
    var n, c := m.payloadLength, TransportField(m.protocol);
    EnclosedCoverage(pkt, m, n, rest);
    if m.fragmentOffset == 0 && HasPseudoHeader(m.protocol) && |rest| >= TransportMinimum(m.protocol) {
      FragmentTheorems.EncloseSet(pkt, m, n, rest, c, 0);
    }
  }

  // The way back

  /** The IPv4 packet that comes back: the addresses swapped, the options gone, a fresh identification if it was
      whole. */
  function ReturnedV4(pkt: seq<byte>, m: Meta, freshId: u16, rest: seq<byte>): V4
    requires |pkt| >= 20 && m.payloadLength + 20 < 0x1_0000
  {
    var id := if m.IsFragmented() then Word(pkt, 4) else freshId;
    V4(Siit64Spec.SealedHead4(pkt[1], m.payloadLength + 20, id, FragmentWordOf(m), pkt[8], m.protocol, pkt[16..20],
        pkt[12..16]),
       pkt[16..20], pkt[12..16], rest)
  }

  /** The flags and offset word of the packet that came, without its DF bit. */
  function FragmentWordOf(m: Meta): u16
  {
    (if m.moreFragments then 0x2000 else 0) + m.fragmentOffset / 8 % 8192
  }

  lemma TranslateSwapped(pkt: seq<byte>, m: Meta, freshId: u16, rest: seq<byte>)
    requires |pkt| >= 20 && m.fragmentOffset % 8 == 0 && m.fragmentOffset < 0x1_0000 && m.payloadLength + 20 < 0x1_0000
    requires !ForbiddenForIPv4(m.protocol) && m.protocol != ICMPV4
    requires m.payloadLength <= |rest| && (m.moreFragments ==> m.payloadLength % 8 == 0)
    ensures Siit64Spec.Translate64(Swap(Enclose(pkt, m, m.payloadLength, rest)).Bytes(), RESERVED_DEFAULT, freshId)
            == Some(ReturnedV4(pkt, m, freshId, rest))
  {
    hide V6.Bytes, Siit64Spec.SealedHead4, Siit64Spec.RepairPayload64, Siit64Spec.Translate64, Enclose;
    var s := Swap(Enclose(pkt, m, m.payloadLength, rest));
    EncloseAddresses(pkt, m, m.payloadLength, rest);
    assert s.src[12..] == pkt[16..20] && s.dst[12..] == pkt[12..16] && s.dst[..12] == PREFIX;
    RepairedInbound(m.fragmentOffset, m.protocol, m.payloadLength, rest);
    if m.IsFragmented() {
      SwappedFragment(pkt, m, freshId, rest, s);
    } else {
      SwappedWhole(pkt, m, freshId, rest, s);
    }
  }

  lemma SwappedFragment(pkt: seq<byte>, m: Meta, freshId: u16, rest: seq<byte>, s: V6)
    requires |pkt| >= 20 && m.fragmentOffset % 8 == 0 && m.fragmentOffset < 0x1_0000 && m.payloadLength + 20 < 0x1_0000
    requires !ForbiddenForIPv4(m.protocol) && m.protocol != ICMPV4 && m.IsFragmented()
    requires m.payloadLength <= |rest| && (m.moreFragments ==> m.payloadLength % 8 == 0)
    requires s == Swap(Enclose(pkt, m, m.payloadLength, rest)) && s.src[12..] == pkt[16..20]
             && s.dst[12..] == pkt[12..16]
    requires Siit64Spec.RepairPayload64(s.dst[..12], m.fragmentOffset, m.protocol, m.payloadLength, rest) == rest
    ensures Siit64Spec.Translate64(s.Bytes(), RESERVED_DEFAULT, freshId) == Some(ReturnedV4(pkt, m, freshId, rest))
  {
    hide V6.Bytes, Siit64Spec.SealedHead4, Siit64Spec.RepairPayload64, Siit64Spec.Translate64;
    FragmentFields(pkt, m, rest);
    hide Enclose, FragmentOffset6, MoreFragments6, Fragmented, ForbiddenForIPv4;
    TranslateFragmented(s, freshId);
  }

  /** The fields of an enclosed fragment. */
  lemma FragmentFields(pkt: seq<byte>, m: Meta, rest: seq<byte>)
    requires |pkt| >= 20 && m.fragmentOffset % 8 == 0 && m.fragmentOffset < 0x1_0000 && m.payloadLength + 20 < 0x1_0000
    requires !ForbiddenForIPv4(m.protocol) && m.protocol != ICMPV4 && m.IsFragmented()
    requires m.payloadLength <= |rest| && (m.moreFragments ==> m.payloadLength % 8 == 0)
    ensures var s := Enclose(pkt, m, m.payloadLength, rest);
            && Fragmented(s) && s.PayloadLength() == m.payloadLength + 8 && s.Tos() == pkt[1] && s.HopLimit() == pkt[8]
            && s.rest[0] == m.protocol && s.rest[8..] == rest && Word(s.rest, 6) == Word(pkt, 4)
            && FragmentOffset6(s.rest, 0) == m.fragmentOffset && MoreFragments6(s.rest, 0) == m.moreFragments
  {
    hide FragmentHeader, Head6Of, Translated4, FragmentOffset6, MoreFragments6;
    HeadNext(pkt[1], m.payloadLength + 8, FRAGMENT, pkt[8]);
    FragmentHeaderFields(m.protocol, m.fragmentOffset, m.moreFragments, Word(pkt, 4), rest);
    assert Enclose(pkt, m, m.payloadLength, rest).rest[8..] == rest;
  }

  lemma SwappedWhole(pkt: seq<byte>, m: Meta, freshId: u16, rest: seq<byte>, s: V6)
    requires |pkt| >= 20 && m.payloadLength + 20 < 0x1_0000
    requires !ForbiddenForIPv4(m.protocol) && m.protocol != ICMPV4 && !m.IsFragmented()
    requires m.payloadLength <= |rest|
    requires s == Swap(Enclose(pkt, m, m.payloadLength, rest)) && s.src[12..] == pkt[16..20]
             && s.dst[12..] == pkt[12..16]
    requires Siit64Spec.RepairPayload64(s.dst[..12], 0, m.protocol, m.payloadLength, rest) == rest
    ensures Siit64Spec.Translate64(s.Bytes(), RESERVED_DEFAULT, freshId) == Some(ReturnedV4(pkt, m, freshId, rest))
  {
    hide V6.Bytes, Siit64Spec.SealedHead4, Siit64Spec.RepairPayload64, Siit64Spec.Translate64;
    EncloseFields(pkt, m, m.payloadLength, rest);
    PlainParses(s);
    hide Parses, Enclose;
    TranslateParsed(s, PlainMeta(s), freshId);
  }

  /** A packet from the placeholder that is not ICMP goes out, and its packet with the addresses swapped comes back
      as the same packet with the addresses swapped: same TOS, TTL, protocol, fragment offset and flag, same
      payload, for every length of transport header and whatever trails the packet. Only these differ: options are
      dropped, DF is cleared, an unfragmented packet gets a fresh identification, a missing UDP checksum comes back
      filled in and a checksum 0xffff as 0x0000. */
  lemma Reflection(t: Translator, pkt: seq<byte>, forbidden: seq<byte> -> bool, freshId: u16) returns (q: V4)
    requires Parse46(pkt, forbidden).Some? && Parse46(pkt, forbidden).value.protocol != ICMPV4
    requires pkt[12..16] == t.placeholder && t.OutboundV6(pkt, forbidden).Some?
    ensures t.InboundV4(Swap(t.OutboundV6(pkt, forbidden).value), freshId) == Some(q)
    ensures var m := Parse46(pkt, forbidden).value;
            && q.src == pkt[16..20] && q.dst == pkt[12..16] && q.rest == Returned(pkt, m)
            && HasHead(q, pkt[1], m.payloadLength + 20, if m.IsFragmented() then Word(pkt, 4) else freshId,
                       FragmentWordOf(m), pkt[8], m.protocol)
            && FragmentWordOf(m) % 8192 == Word(pkt, 6) % 8192
            && (FragmentWordOf(m) / 8192 == 1 <==> MoreFragments4(pkt))
  {
    hide Parse46, Enclose, RepairPayload46, Rewrite, V6.Bytes, V4.Bytes, ZeroCanonical, Canonical, Returned,
      View6, View4,
      Siit64Spec.Translate64, Siit64Spec.SealedHead4, HasHead;
    var m := Parse46(pkt, forbidden).value;
    var rest, n := pkt[m.headerLength..], m.payloadLength;
    var r := RepairPayload46(Addresses46(pkt), m, rest).value;
    var e := Enclose(pkt, m, n, r);
    var p := Rewrite(e, Source, t.clatV6);
    ViewOfBytes6(p);
    assert t.OutboundV6(pkt, forbidden) == Some(p);
    EncloseAddresses(pkt, m, n, r);
    RewriteReflected(e, t.clatV6);
    CanonicalEnclosed(pkt, m, r);
    RepairThenCanonical(pkt, m);
    ReturnedLength(pkt, m, r);
    ParsedFragmentation(pkt, forbidden);
    TranslateSwapped(pkt, m, freshId, Returned(pkt, m));
    ViewOfBytes6(Swap(p));
    q := ReturnedV4(pkt, m, freshId, Returned(pkt, m));
    ViewOfBytes4(q);
    var id := if m.IsFragmented() then Word(pkt, 4) else freshId;
    SealedHasHead(pkt[1], n + 20, id, FragmentWordOf(m), pkt[8], m.protocol, pkt[16..20], pkt[12..16], q.rest);
  }

  lemma ReturnedLength(pkt: seq<byte>, m: Meta, r: seq<byte>)
    requires 20 <= m.headerLength && m.headerLength + m.payloadLength <= |pkt|
    requires |r| == |pkt| - m.headerLength && Canonical(m, r) == Returned(pkt, m)
    ensures |Returned(pkt, m)| == |pkt| - m.headerLength >= m.payloadLength
  {
  }

  lemma ParsedFragmentation(pkt: seq<byte>, forbidden: seq<byte> -> bool)
    requires Parse46(pkt, forbidden).Some?
    ensures var m := Parse46(pkt, forbidden).value;
            && (m.moreFragments ==> m.payloadLength % 8 == 0)
            && FragmentWordOf(m) % 8192 == Word(pkt, 6) % 8192
            && (FragmentWordOf(m) / 8192 == 1 <==> MoreFragments4(pkt))
  {
  }

  // ICMP echo

  /** An ICMP echo request or reply from the placeholder comes back as the same message, with its checksum
      recomputed. */
  lemma ReflectionEcho(t: Translator, pkt: seq<byte>, forbidden: seq<byte> -> bool, freshId: u16) returns (q: V4)
    requires Parse46(pkt, forbidden).Some? && Parse46(pkt, forbidden).value.protocol == ICMPV4
    requires pkt[12..16] == t.placeholder && pkt[Parse46(pkt, forbidden).value.headerLength] in {0, 8}
    ensures t.OutboundV6(pkt, forbidden).Some?
    ensures t.InboundV4(Swap(t.OutboundV6(pkt, forbidden).value), freshId) == Some(q)
    ensures var m := Parse46(pkt, forbidden).value;
            var rest := pkt[m.headerLength..];
            && q.src == pkt[16..20] && q.dst == pkt[12..16]
            && q.rest == Siit64Spec.Sealed4(rest[..m.payloadLength]) + rest[m.payloadLength..]
            && HasHead(q, pkt[1], m.payloadLength + 20, freshId, 0, pkt[8], ICMPV4)
  {
    hide Parse46, Enclose, SealPacket, Rewrite, V6.Bytes, V4.Bytes, View6, View4, TransportValid, SetWord,
      Siit64Spec.Translate64, Siit64Spec.SealedHead4, Siit64Spec.TranslateIcmp64, Siit64Spec.Sealed4, HasHead,
      Translator.InboundV4, Translator.OutboundV6, TranslateIcmp46, Siit64Spec.IcmpHeaderTranslatable64;
    var m := Parse46(pkt, forbidden).value;
    var rest, n := pkt[m.headerLength..], m.payloadLength;
    EchoOutbound(pkt, forbidden);
    OutboundIcmp(t, pkt, forbidden);
    var p := t.OutboundV6(pkt, forbidden).value;
    var icmp := [if rest[0] == 8 then 128 else 129] + rest[1..];
    assert p.src + p.dst == t.clatV6 + p.dst;
    SwapValid(p);
    EchoTranslated(rest, n, Word(p.rest, 2));
    var v := InboundIcmpPlain(t, Swap(p), freshId);
    q := v.value;
    SetWordPrefix(icmp, 2, Word(p.rest, 2), n);
    assert icmp[n..] == rest[n..];
  }

  lemma SwapValid(p: V6)
    requires p.PayloadLength() <= |p.rest| && p.TransportOk()
    ensures Swap(p).TransportOk()
  {
    hide WordSum, Fold;
    WordSumSwap(p.src, p.dst);
  }

  /** An echo message goes out with its type for IPv6. */
  lemma EchoOutbound(pkt: seq<byte>, forbidden: seq<byte> -> bool)
    requires Parse46(pkt, forbidden).Some? && Parse46(pkt, forbidden).value.protocol == ICMPV4
    requires pkt[Parse46(pkt, forbidden).value.headerLength] in {0, 8}
    ensures var m := Parse46(pkt, forbidden).value;
            var rest := pkt[m.headerLength..];
            && rest[0] in {0, 8} && rest[1] == 0 && m.payloadLength + 20 < 0x1_0000
            && TranslateIcmp46(rest, m.payloadLength, 8 + m.headerLength)
               == Message([if rest[0] == 8 then 128 else 129] + rest[1..], m.payloadLength)
  {
    hide QuoteTranslatable46, QuoteOverruns46, Checksum;
    var m := Parse46(pkt, forbidden).value;
    var rest := pkt[m.headerLength..];
    assert pkt[m.headerLength..m.totalLength][0] == rest[0] && pkt[m.headerLength..m.totalLength][1] == rest[1];
    assert IcmpHead46(rest) + rest[8..] == [if rest[0] == 8 then 128 else 129] + rest[1..];
  }

  /** SIIT64 translates the echo message with whatever checksum back to the IPv4 one. */
  lemma EchoTranslated(rest: seq<byte>, n: nat, w: u16)
    requires 8 <= n <= |rest| && rest[0] in {0, 8} && rest[1] == 0
    ensures var icmp := SetWord([if rest[0] == 8 then 128 else 129] + rest[1..], 2, w);
            && Siit64Spec.IcmpHeaderTranslatable64(icmp[0], icmp[1], icmp[4..])
            && Siit64Spec.TranslateIcmp64(icmp[..n]) == Siit64Spec.Sealed4(rest[..n])
  {
    hide Siit64Spec.Sealed4;
    var sent := [if rest[0] == 8 then 128 else 129] + rest[1..];
    SetWordPrefix(sent, 2, w, n);
    TranslateIcmpIgnoresChecksum(sent[..n], w);
    var u := sent[..n];
    assert u[1..8] == rest[1..8] && u[8..] == rest[8..n] && Siit64Spec.IcmpHead64(u) == [rest[0]] + rest[1..8];
    assert rest[..n] == [rest[0]] + rest[1..8] + rest[8..n];
  }
}
