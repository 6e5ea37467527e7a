/** What a packet on its way from the TUN device to the client means: headers, transport bytes, checksums. */
module InboundTheorems {
  import opened Wrappers
  import opened Bytes
  import opened OnesComplement
  import opened Wire
  import opened Nat66
  import opened Nat66Theorems
  import opened Siit64Spec
  import opened InboundHeaders
  import opened Clatxlat
  import opened OutboundTheorems

  // Checksums of the new headers

  lemma Sealed4Valid(t: seq<byte>)
    requires |t| >= 4
    ensures Checksum(Sealed4(t)) == 0xffff
    ensures Sealed4(t) == SetWord(t, 2, Word(Sealed4(t), 2))
  {
    hide WordSum, Checksum, SetWord;
    var zeroed := SetWord(t, 2, 0);
    SealsWord(zeroed, 2);
    SetWordTwice(t, 2, 0, Complement(Checksum(zeroed)));
  }

  /** The complement of a checksum, written where there was a zero, makes the checksum 0xffff. */
  lemma SealsWord(s: seq<byte>, c: nat)
    requires c % 2 == 0 && c + 2 <= |s| && Word(s, c) == 0
    ensures Checksum(SetWord(s, c, Complement(Checksum(s)))) == 0xffff
  {
    hide Checksum, SetWord;
    ChecksumIsFold(s);
    var r := SetWord(s, c, Complement(Checksum(s)));
    WordSumSet(s, c, Complement(Checksum(s)));
    ComplementBalances(WordSum(s));
    ChecksumIsFold(r);
    FoldCongruent(WordSum(s));
    FoldCongruent(WordSum(r));
  }

  /** Every header the translator makes has a valid checksum, whatever its fields. */
  lemma SealedHeadValid(tos: byte, total: u16, id: u16, fragment: u16, ttl: byte, protocol: byte, src: Address4,
      dst: Address4)
    ensures Checksum(SealedHead4(tos, total, id, fragment, ttl, protocol, src, dst) + src + dst) == 0xffff
  {
    hide Checksum, Head4Of;
    var zeroed := Head4Of(tos, total, id, fragment, ttl, protocol, 0);
    var sum := Complement(Checksum(zeroed + src + dst));
    HeadFields(tos, total, id, fragment, ttl, protocol, 0, src + dst);
    HeadFields(tos, total, id, fragment, ttl, protocol, sum, src + dst);
    assert zeroed + src + dst == zeroed + (src + dst);
    SealsWord(zeroed + src + dst, 10);
    assert Head4Of(tos, total, id, fragment, ttl, protocol, sum) + src + dst == SetWord(zeroed + src + dst, 10, sum);
  }

  lemma HeadFields(tos: byte, total: u16, id: u16, fragment: u16, ttl: byte, protocol: byte, checksum: u16,
      rest: seq<byte>)
    ensures var h := Head4Of(tos, total, id, fragment, ttl, protocol, checksum);
            && h[0] == 0x45 && h[1] == tos && Word(h, 2) == total && Word(h, 4) == id && Word(h, 6) == fragment
            && h[8] == ttl && h[9] == protocol && Word(h, 10) == checksum
            && h + rest == SetWord(Head4Of(tos, total, id, fragment, ttl, protocol, 0) + rest, 10, checksum)
  {
    var h, z := Head4Of(tos, total, id, fragment, ttl, protocol, checksum),
        Head4Of(tos, total, id, fragment, ttl, protocol, 0);
    assert h[10..] == Be16(checksum) && h[..10] == z[..10];
    assert SetWord(z + rest, 10, checksum) == z[..10] + Be16(checksum) + rest;
  }

  /** The fields of an IPv4 packet the translator makes. */
  predicate HasHead(q: V4, tos: byte, total: u16, id: u16, fragment: u16, ttl: byte, protocol: byte) {
    && q.head[0] == 0x45 && q.head[1] == tos && q.TotalLength() == total && Word(q.head, 4) == id
    && Word(q.head, 6) == fragment && q.head[8] == ttl && q.Protocol() == protocol && q.HeaderOk()
  }

  lemma SealedHasHead(tos: byte, total: u16, id: u16, fragment: u16, ttl: byte, protocol: byte,
                      src: Address4, dst: Address4, rest: seq<byte>)
    ensures HasHead(V4(SealedHead4(tos, total, id, fragment, ttl, protocol, src, dst), src, dst, rest),
                    tos, total, id, fragment, ttl, protocol)
  {
    hide Head4Of, HeaderChecksum, Checksum;
    SealedHeadValid(tos, total, id, fragment, ttl, protocol, src, dst);
    HeadFields(tos, total, id, fragment, ttl, protocol,
               HeaderChecksum(Head4Of(tos, total, id, fragment, ttl, protocol, 0), src, dst), []);
  }

  // The packet

  /** The fragment fields are those of the fragment header, wherever the packet goes. */
  lemma FragmentFieldsAlike(p: V6, r: V6, m: Meta, freshId: u16)
    requires Parses(p, m) && Parses(r, m) && |p.rest| == |r.rest| && SameFragment(p, r, m)
    ensures var s, s' := p.Bytes(), r.Bytes();
            && m.IsFragment(s') == m.IsFragment(s) && FragmentWord(s', m) == FragmentWord(s, m)
            && Identification(s', m, freshId) == Identification(s, m, freshId)
            && DatagramOffset(s', m) == DatagramOffset(s, m)
  {
    hide Headers64, V6.Bytes;
    if m.walked.fragment.Some? {
      var f := m.walked.fragment.value;
      var s, s' := p.Bytes(), r.Bytes();
      assert forall i :: f <= i < f + 8 ==> s[i] == s[f..f + 8][i - f] && s'[i] == s'[f..f + 8][i - f];
      assert Word(s, f + 2) == Word(s', f + 2) && Word(s, f + 6) == Word(s', f + 6);
    }
  }

  /** The IPv4 packet with the header made from the headers of p, around a payload. */
  function Delivered(p: V6, m: Meta, freshId: u16, dst: Address4, rest: seq<byte>): V4
    requires Parses(p, m)
  {
    var s, src := p.Bytes(), p.src[12..];
    V4(SealedHead4(p.Tos(), Add16(20, m.payloadLength), Identification(s, m, freshId), FragmentWord(s, m), p.HopLimit(),
                   ProtocolOf(m.walked.next), src, dst),
       src, dst, rest)
  }

  /** How SIIT64 translates a packet with any headers. */
  lemma TranslateParsed(p: V6, m: Meta, freshId: u16)
    requires Parses(p, m)
    ensures var tail, n := Tail(p, m), m.payloadLength;
            Translate64(p.Bytes(), RESERVED_DEFAULT, freshId) ==
              if m.walked.next != ICMPV6 then
                var rest := RepairPayload64(p.dst[..12], DatagramOffset(p.Bytes(), m), m.walked.next, n, tail);
                Some(Delivered(p, m, freshId, p.dst[12..], rest))
              else if !m.IsFragment(p.Bytes()) && IcmpTranslatable64(p.src + p.dst, tail[..n]) then
                Some(Delivered(p, m, freshId, p.dst[12..], TranslateIcmp64(tail[..n]) + tail[n..]))
              else None
  {
    hide Headers64, V6.Bytes, SealedHead4, RepairPayload64, TranslateIcmp64, IcmpTranslatable64, Meta.IsFragment,
      FragmentWord, Identification, DatagramOffset;
    var s, o := p.Bytes(), m.walked.offset;
    BytesOf(p);
    assert s[o..] == s[40..][o - 40..] == Tail(p, m);
    assert s[o..o + m.payloadLength] == s[o..][..m.payloadLength];
  }

  /** How it translates a packet with one fragment header. */
  lemma TranslateFragmented(p: V6, freshId: u16)
    requires Fragmented(p) && p.rest[0] != ICMPV6
    requires MoreFragments6(p.rest, 0) || FragmentOffset6(p.rest, 0) != 0
    ensures var offset, n, src, dst := FragmentOffset6(p.rest, 0), p.PayloadLength() - 8, p.src[12..], p.dst[12..];
            var word := (if MoreFragments6(p.rest, 0) then 0x2000 else 0) + offset / 8;
            Translate64(p.Bytes(), RESERVED_DEFAULT, freshId) ==
              Some(V4(SealedHead4(p.Tos(), Add16(20, n), Word(p.rest, 6), word, p.HopLimit(), p.rest[0], src, dst),
                  src, dst,
                      RepairPayload64(p.dst[..12], offset, p.rest[0], n, p.rest[8..])))
  {
    hide V6.Bytes, SealedHead4, RepairPayload64, Translate64, FragmentTranslatable, FragmentOffset6, MoreFragments6;
    FragmentParses(p);
    hide Parses;
    TranslateParsed(p, FragmentMeta(p), freshId);
  }

  /** NAT66 finds the checksum cut off. */
  predicate CutOff(p: V6, m: Meta)
    requires 40 <= m.walked.offset <= 40 + |p.rest|
  {
    Seen(p, m) && Checked(m.walked.next) && |Tail(p, m)| < CoveredMinimum(m.walked.next)
  }

  predicate Checked(next: byte) {
    HasPseudoHeader(next) || next == ICMPV6
  }

  /** The payload as NAT66 leaves it. */
  function Repaired66(p: V6, m: Meta, to: Address6): seq<byte>
    requires 40 <= m.walked.offset <= 40 + |p.rest|
  {
    var tail, c := Tail(p, m), CoveredField(m.walked.next);
    if Seen(p, m) && Checked(m.walked.next) && !CutOff(p, m) then
      SetWord(tail, c, Updated(Word(tail, c), p.dst, to))
    else tail
  }

  /** NAT66 on a packet with any headers. */
  lemma RewriteParsed(p: V6, m: Meta, to: Address6) returns (r: V6)
    requires Parses(p, m)
    ensures r == Rewrite(p, Destination, to) && r.head == p.head && r.src == p.src && |r.rest| == |p.rest|
    ensures Parses(r, m) && SameFragment(p, r, m)
    ensures r.dst == (if CutOff(p, m) then p.dst else to) && Tail(r, m) == Repaired66(p, m, to)
  {
    hide Headers64, V6.Bytes, SetWord, Updated, SameFragment;
    r := Rewrite(p, Destination, to);
    RewrittenAlike(p, to);
    HeadersAlike(p, r);
    CoverageOf(p, m);
    hide AddressCoverage, Alike;
    var o, c := m.walked.offset - 40, CoveredField(m.walked.next);
    if Seen(p, m) && Checked(m.walked.next) && !CutOff(p, m) {
      SetWordWindow(p.rest, o, c, Updated(Word(p.rest, o + c), p.dst, to));
    }
  }

  /** Once the destination is the placeholder's prefix form, SIIT64's own update changes nothing. */
  lemma Bumped64Is(field: u16)
    ensures Bumped64(field, PREFIX) == field
  {
    PrefixSum();
  }

  /** SIIT64's update for any destination prefix: what the prefix contributed is taken out of the sum, and 0xffff comes
      out only where it was and the prefix contributes nothing. */
  lemma Bumped64Exact(field: u16, prefix: seq<byte>)
    ensures (Bumped64(field, prefix) - (field + WordSum(prefix))) % 65535 == 0
    ensures Bumped64(field, prefix) == 65535 <==> field == 65535 && WordSum(prefix) != 0 && WordSum(prefix) % 65535 == 0
  {
    hide WordSum, Checksum;
    PrefixSum();
    ChecksumIsFold(prefix);
    FoldCongruent(WordSum(prefix));
    var k := (Fold(WordSum(prefix)) - WordSum(prefix)) / 0xffff;
    assert Fold(WordSum(prefix)) == WordSum(prefix) + 0xffff * k;
    var w := Bumped64(field, prefix);
    assert w == field + Fold(WordSum(prefix)) || w == field + Fold(WordSum(prefix)) - 0xffff;
  }

  /** SIIT64's own repair, for any addresses: the sum over the IPv4 addresses is the one over the IPv6 addresses without
      the upper twelve bytes of the source. */
  lemma Repaired64(src: Address6, dst: Address6, next: byte, n: nat, rest: seq<byte>)
    requires HasPseudoHeader(next) && TransportMinimum(next) <= n <= |rest|
    ensures var r := RepairPayload64(dst[..12], 0, next, n, rest);
            Congruent(TransportSum(src[12..] + dst[12..], next, r[..n]),
              TransportSum(src + dst, next, rest[..n]) - WordSum(src[..12]))
  {
    hide WordSum, SetWord, Bumped64;
    var c := TransportField(next);
    var field' := Bumped64(Word(rest, c), dst[..12]);
    Bumped64Exact(Word(rest, c), dst[..12]);
    SetWordPrefix(rest, c, field', n);
    WordSumSet(rest[..n], c, field');
    WordSumConcat(src, dst);
    WordSumConcat(src[12..], dst[12..]);
    assert src == src[..12] + src[12..] && dst == dst[..12] + dst[12..];
    WordSumConcat(src[..12], src[12..]);
    WordSumConcat(dst[..12], dst[12..]);
  }

  lemma PlaceholderParts(t: Translator)
    ensures t.PlaceholderV6()[..12] == PREFIX && t.PlaceholderV6()[12..] == t.placeholder
  {
  }

  /** SIIT64's own update changes nothing for a packet that NAT66 has addressed to the placeholder. */
  lemma RepairedInbound(offset: nat, proto: byte, n: nat, rest: seq<byte>)
    requires n <= |rest|
    ensures RepairPayload64(PREFIX, offset, proto, n, rest) == rest
  {
    if HasPseudoHeader(proto) && n >= TransportMinimum(proto) {
      Bumped64Is(Word(rest, TransportField(proto)));
    }
  }

  /** Nor for one whose transport header it finds too short. */
  lemma RepairedOrShort(p: V6, m: Meta, r: V6)
    requires Parses(p, m) && m.walked.next != ICMPV6 && |r.rest| == |p.rest|
    requires CutOff(p, m) || r.dst[..12] == PREFIX
    ensures RepairPayload64(r.dst[..12], DatagramOffset(p.Bytes(), m), m.walked.next, m.payloadLength, Tail(r, m)) ==
            Tail(r, m)
  {
    hide Headers64;
    if !CutOff(p, m) {
      RepairedInbound(DatagramOffset(p.Bytes(), m), m.walked.next, m.payloadLength, Tail(r, m));
    }
  }

  /** A packet that is not ICMP reaches the client whenever its headers parse, from the last four bytes of its
      source, and with the payload that NAT66 leaves. It reaches the placeholder unless NAT66 finds its checksum cut
      off: then its destination is the last four bytes of the CLAT address. */
  lemma InboundPacket(t: Translator, p: V6, m: Meta, freshId: u16)
    requires Parses(p, m) && m.walked.next != ICMPV6
    ensures t.InboundV4(p, freshId) ==
              var dst := if CutOff(p, m) then p.dst[12..] else t.placeholder;
              Some(Delivered(p, m, freshId, dst, Repaired66(p, m, t.PlaceholderV6())))
  {
    hide Headers64, V6.Bytes, V4.Bytes, Rewrite, SealedHead4, Translate64, RepairPayload64, Repaired66, SameFragment,
      FragmentWord, Identification, DatagramOffset, Seen;
    ViewOfBytes6(p);
    var r := RewriteParsed(p, m, t.PlaceholderV6());
    TranslateParsed(r, m, freshId);
    FragmentFieldsAlike(p, r, m, freshId);
    PlaceholderParts(t);
    RepairedOrShort(p, m, r);
    ViewOfBytes4(Delivered(r, m, freshId, r.dst[12..], Tail(r, m)));
  }

  /** What reaches the client comes from the last four bytes of its source, and goes to the placeholder exactly if
      NAT66 did not find the checksum cut off. */
  lemma InboundDestination(t: Translator, p: V6, freshId: u16)
    requires t.InboundV4(p, freshId).Some?
    ensures var q := t.InboundV4(p, freshId).value;
            && q.src == p.src[12..]
            && q.dst == if AddressCoverage(p).TooShort? then p.dst[12..] else t.placeholder
  {
    hide V6.Bytes, V4.Bytes, SealedHead4, TranslateIcmp64, RepairPayload64, IcmpTranslatable64, Updated, SetWord, Walk,
      Repaired66;
    InboundParses(t, p, freshId);
    var m := Headers64(p.Bytes()).value;
    hide Headers64;
    CoverageOf(p, m);
    if m.walked.next == ICMPV6 {
      var v := InboundIcmp(t, p, m, freshId);
    } else {
      InboundPacket(t, p, m, freshId);
    }
  }

  // Checksums

  /** The sum that counts once NAT66 has put the placeholder there: where it does not see the transport header, the
      destination is exchanged in the sum but not in the checksum. */
  function SumInbound(t: Translator, p: V6, m: Meta): int
    requires Parses(p, m)
  {
    TransportSum(p.src + p.dst, m.walked.next, Tail(p, m)[..m.payloadLength])
    + if Seen(p, m) then 0 else WordSum(t.placeholder) - WordSum(p.dst)
  }

  /** Where NAT66 sees the transport header, what counts is whether it came valid. */
  lemma SeenValid(t: Translator, p: V6, m: Meta)
    requires Parses(p, m) && Seen(p, m) && m.walked.next != 0
    ensures SumInbound(t, p, m) % 0xffff == 0 <==>
            TransportValid(p.src + p.dst, m.walked.next, Tail(p, m)[..m.payloadLength])
  {
    hide Headers64;
    TransportValidIff(p.src + p.dst, m.walked.next, Tail(p, m)[..m.payloadLength]);
  }

  lemma RewrittenSum(t: Translator, p: V6, m: Meta)
    requires Parses(p, m) && Checked(m.walked.next) && m.payloadLength >= CoveredMinimum(m.walked.next)
    ensures var sum := TransportSum(p.src + t.PlaceholderV6(), m.walked.next,
            Repaired66(p, m, t.PlaceholderV6())[..m.payloadLength]);
            Congruent(sum, SumInbound(t, p, m))
  {
    hide Headers64, Seen, SetWord, Updated, WordSum;
    var n, c, to, tail := m.payloadLength, CoveredField(m.walked.next), t.PlaceholderV6(), Tail(p, m);
    TranslatedSum(t.placeholder);
    WordSumConcat(p.src, p.dst);
    WordSumConcat(p.src, to);
    if Seen(p, m) {
      var field' := Updated(Word(tail, c), p.dst, to);
      SetWordPrefix(tail, c, field', n);
      WordSumSet(tail[..n], c, field');
      UpdatedCongruent(Word(tail, c), p.dst, to);
    }
  }

  /** A TCP, DCCP or UDP packet that is not a fragment, with any headers and a full transport header, reaches the
      client as an IPv4 packet with a valid header checksum, between the last four bytes of its source and the
      placeholder, with every transport byte but the checksum unchanged. Its checksum is valid exactly when the one
      it came with was, once the upper twelve bytes of the source, which no longer count, are taken out, and, if
      NAT66 does not look past its extension headers, the old destination as well, with the placeholder put in. */
  lemma InboundTransport(t: Translator, p: V6, m: Meta, freshId: u16) returns (q: V4)
    requires Parses(p, m) && HasPseudoHeader(m.walked.next) && !m.IsFragment(p.Bytes())
    requires m.payloadLength >= TransportMinimum(m.walked.next)
    ensures t.InboundV4(p, freshId) == Some(q)
    ensures HasHead(q, p.Tos(), Add16(20, m.payloadLength), freshId, 0, p.HopLimit(), m.walked.next)
    ensures q.src == p.src[12..] && q.dst == t.placeholder
    ensures var c := TransportField(m.walked.next);
            && |q.rest| == |Tail(p, m)|
            && q.rest == if Seen(p, m) then SetWord(Tail(p, m), c, Word(q.rest, c)) else Tail(p, m)
    ensures q.TransportOk(m.payloadLength) <==> (SumInbound(t, p, m) - WordSum(p.src[..12])) % 0xffff == 0
  {
    hide Headers64, V6.Bytes, SealedHead4, SetWord, TransportValid, TransportSum, WordSum, Updated, Seen;
    InboundPacket(t, p, m, freshId);
    q := t.InboundV4(p, freshId).value;
    SealedHasHead(p.Tos(), Add16(20, m.payloadLength), freshId, 0, p.HopLimit(), m.walked.next, p.src[12..],
        t.placeholder, q.rest);
    RewrittenSum(t, p, m);
    SumsInbound(t, p, m, q);
  }

  /** The sum over the IPv4 addresses is the one over the IPv6 addresses without the upper bytes of the source. */
  lemma SumsInbound(t: Translator, p: V6, m: Meta, q: V4)
    requires Parses(p, m) && HasPseudoHeader(m.walked.next) && m.payloadLength <= |q.rest|
    requires q.src == p.src[12..] && q.dst == t.placeholder && q.Protocol() == m.walked.next
    requires Congruent(TransportSum(p.src + t.PlaceholderV6(), m.walked.next, q.rest[..m.payloadLength]),
             SumInbound(t, p, m))
    ensures q.TransportOk(m.payloadLength) <==> (SumInbound(t, p, m) - WordSum(p.src[..12])) % 0xffff == 0
  {
    hide Headers64, Seen, WordSum, Fold, SumInbound;
    var to, t', next := t.PlaceholderV6(), q.rest[..m.payloadLength], m.walked.next;
    WordSumConcat(p.src, to);
    assert p.src == p.src[..12] + p.src[12..];
    WordSumConcat(p.src[..12], p.src[12..]);
    TranslatedSum(t.placeholder);
    WordSumConcat(q.src, q.dst);
    TransportValidIff(q.src + q.dst, next, t');
    var sum6, sum4 := TransportSum(p.src + to, next, t'), TransportSum(q.src + q.dst, next, t');
    assert sum4 == sum6 - WordSum(p.src[..12]) - 0xffff;
    SameResidue(sum4, SumInbound(t, p, m) - WordSum(p.src[..12]), (sum6 - SumInbound(t, p, m)) / 0xffff - 1);
  }

  lemma SameResidue(x: int, y: int, k: int)
    requires x == y + 0xffff * k
    ensures x % 0xffff == 0 <==> y % 0xffff == 0
  {
  }

  /** Validity, as a client sees it. What comes from 64:ff9b::/96 behind no header that hides it arrives valid
      exactly when it was sent valid; and what was sent valid arrives valid exactly when the upper bytes of the
      source, with the exchange of the destination where NAT66 misses it, sum to a multiple of 65535. */
  lemma InboundKeepsValidity(t: Translator, p: V6, m: Meta, freshId: u16) returns (q: V4)
    requires Parses(p, m) && HasPseudoHeader(m.walked.next) && !m.IsFragment(p.Bytes())
    requires m.payloadLength >= TransportMinimum(m.walked.next)
    ensures t.InboundV4(p, freshId) == Some(q) && m.payloadLength <= |q.rest|
    ensures var sent := TransportValid(p.src + p.dst, m.walked.next, Tail(p, m)[..m.payloadLength]);
            var moved := WordSum(p.src[..12]) + if Seen(p, m) then 0 else WordSum(p.dst) - WordSum(t.placeholder);
            && (Seen(p, m) && p.src[..12] == PREFIX ==> (q.TransportOk(m.payloadLength) <==> sent))
            && (sent ==> (q.TransportOk(m.payloadLength) <==> moved % 0xffff == 0))
  {
    hide Headers64, Translator.InboundV4, WordSum, TransportSum, TransportValid, SetWord, HasHead, Checksum, Seen;
    q := InboundTransport(t, p, m, freshId);
    PrefixSum();
    var tail := Tail(p, m)[..m.payloadLength];
    TransportValidIff(p.src + p.dst, m.walked.next, tail);
    var moved := WordSum(p.src[..12]) + if Seen(p, m) then 0 else WordSum(p.dst) - WordSum(t.placeholder);
    TakenOut(TransportSum(p.src + p.dst, m.walked.next, tail), moved);
  }

  lemma TakenOut(sum: int, part: int)
    ensures part % 0xffff == 0 ==> ((sum - part) % 0xffff == 0 <==> sum % 0xffff == 0)
    ensures sum % 0xffff == 0 ==> ((sum - part) % 0xffff == 0 <==> part % 0xffff == 0)
  {
  }

  // ICMP

  /** The checksum word of an ICMPv6 message plays no part in its translation. */
  lemma TranslateIcmpIgnoresChecksum(t: seq<byte>, w: u16)
    requires |t| >= 8
    ensures TranslateIcmp64(SetWord(t, 2, w)) == TranslateIcmp64(t)
  {
    hide QuoteHead64, QuotePayload64, Sealed4;
    var u := SetWord(t, 2, w);
    var quote := if IsError64(t[0]) && QuoteTranslatable64(t[8..]) then QuoteHead64(t[8..]) + QuotePayload64(t[8..])
                 else t[8..];
    assert u[8..] == t[8..];
    HeadIgnoresChecksum(t, w);
    assert IcmpHead64(u) + quote == SetWord(IcmpHead64(t) + quote, 2, w);
    SealIgnoresChecksum(IcmpHead64(t) + quote, w);
  }

  lemma HeadIgnoresChecksum(t: seq<byte>, w: u16)
    requires |t| >= 8
    ensures IcmpHead64(SetWord(t, 2, w)) == SetWord(IcmpHead64(t), 2, w)
  {
    hide Mtu64, Pointer64, UnreachableCode64, Be16;
    var u := SetWord(t, 2, w);
    assert u[..2] == t[..2] && u[4..] == t[4..];
    assert IcmpHead64(u)[..2] == IcmpHead64(t)[..2];
    assert IcmpHead64(u)[4..] == IcmpHead64(t)[4..];
  }

  lemma SealIgnoresChecksum(t: seq<byte>, w: u16)
    requires |t| >= 4
    ensures Sealed4(SetWord(t, 2, w)) == Sealed4(t)
  {
    hide Checksum;
    SetWordTwice(t, 2, w, 0);
    SetWordTwice(t, 2, w, Complement(Checksum(SetWord(t, 2, 0))));
    SetWordTwice(SetWord(t, 2, w), 2, 0, Complement(Checksum(SetWord(t, 2, 0))));
    SetWordTwice(t, 2, 0, Complement(Checksum(SetWord(t, 2, 0))));
  }

  /** An ICMPv6 message with any headers is translated exactly when it is not fragmented, has eight bytes, has a
      type and code that translate, and its checksum, with the destination exchanged where NAT66 misses it, is
      valid: where NAT66 sees the message, exactly when it came valid. The client gets the translation of the
      message, of the same length and with a valid checksum. */
  lemma InboundIcmp(t: Translator, p: V6, m: Meta, freshId: u16) returns (q: Option<V4>)
    requires Parses(p, m) && m.walked.next == ICMPV6
    ensures t.InboundV4(p, freshId) == q
    ensures var tail, n := Tail(p, m), m.payloadLength;
            q.Some? <==>
              && !m.IsFragment(p.Bytes()) && n >= 8 && IcmpHeaderTranslatable64(tail[0], tail[1], tail[4..])
              && SumInbound(t, p, m) % 0xffff == 0
    ensures q.Some? ==>
              var v, tail, n := q.value, Tail(p, m), m.payloadLength;
              && HasHead(v, p.Tos(), Add16(20, n), freshId, 0, p.HopLimit(), ICMPV4)
              && v.src == p.src[12..] && v.dst == t.placeholder
              && v.rest == TranslateIcmp64(tail[..n]) + tail[n..] && Checksum(v.rest[..n]) == 0xffff
  {
    hide Headers64, V6.Bytes, V4.Bytes, Rewrite, SealedHead4, SetWord, TransportValid, Translate64, TranslateIcmp64,
      IcmpHeaderTranslatable64, Checksum, HasHead, SameFragment, Seen, SumInbound, Meta.IsFragment, FragmentWord,
      Identification, DatagramOffset, TransportSum, Updated;
    var n, tail, to := m.payloadLength, Tail(p, m), t.PlaceholderV6();
    ViewOfBytes6(p);
    var r := RewriteParsed(p, m, to);
    TranslateParsed(r, m, freshId);
    FragmentFieldsAlike(p, r, m, freshId);
    PlaceholderParts(t);
    q := t.InboundV4(p, freshId);
    if n >= 8 {
      var w := Word(Tail(r, m), 2);
      RewrittenSum(t, p, m);
      TransportValidIff(r.src + r.dst, ICMPV6, Tail(r, m)[..n]);
      SetWordPrefix(tail, 2, w, n);
      SetWordSame(tail, 2);
      HeaderUnmoved(tail, n, w);
      if q.Some? {
        TranslateIcmpIgnoresChecksum(tail[..n], w);
        TranslatedSealed(tail[..n]);
        var rest := TranslateIcmp64(tail[..n]) + tail[n..];
        assert rest[..n] == TranslateIcmp64(tail[..n]);
        DeliveredWhole(r, m, freshId, t.placeholder, rest);
      }
    }
  }

  /** Without extension headers: a message that came valid and has a type and code that translate is translated, and
      no other. */
  lemma InboundIcmpPlain(t: Translator, p: V6, freshId: u16) returns (q: Option<V4>)
    requires Plain(p) && p.NextHeader() == ICMPV6 && p.PayloadLength() >= 8
    ensures t.InboundV4(p, freshId) == q
    ensures q.Some? <==> p.TransportOk() && IcmpHeaderTranslatable64(p.rest[0], p.rest[1], p.rest[4..])
    ensures q.Some? ==>
              var v, n := q.value, p.PayloadLength();
              && HasHead(v, p.Tos(), Add16(20, n), freshId, 0, p.HopLimit(), ICMPV4)
              && v.src == p.src[12..] && v.dst == t.placeholder
              && v.rest == TranslateIcmp64(p.Payload()) + p.rest[n..]
  {
    hide Translator.InboundV4, Parses, Seen, TransportValid, IcmpHeaderTranslatable64, HasHead, TranslateIcmp64,
      SumInbound;
    PlainParses(p);
    SeenValid(t, p, PlainMeta(p));
    q := InboundIcmp(t, p, PlainMeta(p), freshId);
  }

  /** The IPv4 packet around the payload of a packet that is not a fragment. */
  lemma DeliveredWhole(p: V6, m: Meta, freshId: u16, dst: Address4, rest: seq<byte>)
    requires Parses(p, m) && !m.IsFragment(p.Bytes())
    ensures var q := Delivered(p, m, freshId, dst, rest);
            && View4(q.Bytes()) == q && q.src == p.src[12..] && q.dst == dst && q.rest == rest
            && HasHead(q, p.Tos(), Add16(20, m.payloadLength), freshId, 0, p.HopLimit(), ProtocolOf(m.walked.next))
  {
    hide Headers64, SealedHead4, HasHead, V4.Bytes;
    ViewOfBytes4(Delivered(p, m, freshId, dst, rest));
    SealedHasHead(p.Tos(), Add16(20, m.payloadLength), freshId, 0, p.HopLimit(), ProtocolOf(m.walked.next),
        p.src[12..], dst, rest);
  }

  lemma SetWordSame(s: seq<byte>, i: nat)
    requires i + 2 <= |s|
    ensures SetWord(s, i, Word(s, i)) == s
  {
  }

  /** Whether a message translates does not depend on its checksum word, nor on where the packet ends. */
  lemma HeaderUnmoved(rest: seq<byte>, n: nat, w: u16)
    requires 8 <= n <= |rest|
    ensures var s := SetWord(rest, 2, w)[..n];
            IcmpHeaderTranslatable64(s[0], s[1], s[4..]) == IcmpHeaderTranslatable64(rest[0], rest[1], rest[4..])
  {
    var s := SetWord(rest, 2, w)[..n];
    assert s[4..][..4] == rest[4..][..4] && s[4..][..3] == rest[4..][..3];
  }

  lemma TranslatedSealed(t: seq<byte>)
    requires |t| >= 8
    ensures Checksum(TranslateIcmp64(t)) == 0xffff
  {
    hide QuoteHead64, QuotePayload64, Sealed4, Checksum, IcmpHead64;
    Sealed4Valid(IcmpHead64(t) + if IsError64(t[0]) && QuoteTranslatable64(t[8..]) then
        QuoteHead64(t[8..]) + QuotePayload64(t[8..]) else t[8..]);
  }

  /** The header of whatever reaches the client: valid, with the fields carried over, and fragmented as the packet
      that came. */
  lemma InboundHeader(t: Translator, p: V6, freshId: u16) returns (m: Meta, q: V4)
    requires t.InboundV4(p, freshId).Some?
    ensures Parses(p, m) && t.InboundV4(p, freshId) == Some(q) && |q.rest| == |Tail(p, m)|
    ensures HasHead(q, p.Tos(), Add16(20, m.payloadLength), Identification(p.Bytes(), m, freshId),
            FragmentWord(p.Bytes(), m),
                    p.HopLimit(), ProtocolOf(m.walked.next))
  {
    hide V6.Bytes, HasHead, SealedHead4, TranslateIcmp64, Repaired66;
    InboundParses(t, p, freshId);
    hide Headers64, Translator.InboundV4, Checksum;
    m := Headers64(p.Bytes()).value;
    q := t.InboundV4(p, freshId).value;
    if m.walked.next == ICMPV6 {
      var v := InboundIcmp(t, p, m, freshId);
    } else {
      InboundPacket(t, p, m, freshId);
      RepairedLength(p, m, t.PlaceholderV6());
      SealedHasHead(p.Tos(), Add16(20, m.payloadLength), Identification(p.Bytes(), m, freshId),
          FragmentWord(p.Bytes(), m),
                    p.HopLimit(), m.walked.next, q.src, q.dst, q.rest);
    }
  }

  lemma RepairedLength(p: V6, m: Meta, to: Address6)
    requires 40 <= m.walked.offset <= 40 + |p.rest|
    ensures |Repaired66(p, m, to)| == |Tail(p, m)|
  {
  }

  /** Only packets whose headers parse reach the client. */
  lemma InboundParses(t: Translator, p: V6, freshId: u16)
    requires t.InboundV4(p, freshId).Some?
    ensures Headers64(p.Bytes()).Some?
  {
    hide V6.Bytes, SealedHead4, TranslateIcmp64, RepairPayload64, IcmpTranslatable64, Rewrite, Walk, AddressCoverage;
    ViewOfBytes6(p);
    var r := Rewrite(p, Destination, t.PlaceholderV6());
    RewrittenAlike(p, t.PlaceholderV6());
    HeadersAlike(p, r);
  }
}
