/** Packets on their way out, byte by byte: which of them leave, and as what. Everything here is said of the bytes
    alone, with the numbers of the protocols written out. */
module OutboundWire {
  import opened Wrappers
  import opened Bytes
  import opened OnesComplement
  import opened Wire
  import opened Nat66
  import opened Nat66Theorems
  import opened Siit46Spec
  import opened Clatxlat
  import opened OutboundTheorems
  import opened QuoteTheorems

  // What is in the bytes

  function Ihl(pkt: seq<byte>): nat
    requires |pkt| >= 20
  {
    pkt[0] % 16 * 4
  }

  function Total(pkt: seq<byte>): nat
    requires |pkt| >= 20
  {
    pkt[2] as int * 256 + pkt[3]
  }

  /** The more-fragments flag. */
  predicate More(pkt: seq<byte>)
    requires |pkt| >= 20
  {
    pkt[6] / 32 % 2 == 1
  }

  function Offset(pkt: seq<byte>): nat
    requires |pkt| >= 20
  {
    (pkt[6] as int % 32 * 256 + pkt[7]) * 8
  }

  // Which packets leave

  /** The types and codes that have a counterpart, with the fields that have to be zero. */
  predicate CodeLeaves(t: seq<byte>)
    requires |t| >= 8
  {
    || (t[0] in {0, 8} && t[1] == 0)
    || (t[0] == 3 && t[1] == 4 && t[4] == t[5] == 0)
    || (t[0] == 3 && t[1] in {0, 1, 2, 3, 5, 6, 7, 8, 9, 10, 11, 12, 13, 15} && t[4] == t[5] == t[6] == t[7] == 0)
    || (t[0] == 11 && t[1] in {0, 1} && t[4] == t[5] == t[6] == t[7] == 0)
    || (t[0] == 12 && t[1] in {0, 2} && t[5] == t[6] == t[7] == 0 && (t[4] <= 3 || 8 <= t[4] <= 9 || 12 <= t[4] <= 19))
  }

  /** The bytes from q on look like the front of a packet that an error's quote is expanded for: an IPv4 header without
      options, not fragmented, and eight bytes of TCP, UDP or an ICMP echo. */
  predicate QuoteGrows(q: seq<byte>) {
    && |q| >= 28 && q[0] == 0x45 && q[6] % 64 == 0 && q[7] == 0
    && (q[9] in {6, 17} || (q[9] == 1 && q[20] in {0, 8}))
  }

  predicate ErrorGrows(t: seq<byte>)
    requires |t| >= 8
  {
    t[0] in {3, 11, 12} && QuoteGrows(t[8..])
  }

  /** A message of n bytes at the front of t leaves; one whose quote looks whole only thanks to what trails the
      packet is where the original indexes out of range. */
  predicate MessageLeaves(t: seq<byte>, n: nat)
    requires n <= |t|
  {
    && n >= 8 && WordSum(t[..n]) != 0 && WordSum(t[..n]) % 65535 == 0 && CodeLeaves(t)
    && (ErrorGrows(t) ==> n >= if t[17] == 1 then 32 else 28)
  }

  predicate Leaves(pkt: seq<byte>, forbidden: seq<byte> -> bool) {
    && |pkt| >= 20 && pkt[0] / 16 == 4 && 20 <= Ihl(pkt) <= Total(pkt) <= |pkt|
    && pkt[6] < 128
    && pkt[9] !in {0, 2, 43, 44, 51, 58, 60, 135, 139, 140}
    && WordSum(pkt[..Ihl(pkt)]) % 65535 == 0
    && (Ihl(pkt) > 20 ==> !forbidden(pkt[20..Ihl(pkt)]))
    && var n := Total(pkt) - Ihl(pkt);
       && (More(pkt) ==> n % 8 == 0)
       && (pkt[9] == 1 ==> !More(pkt) && Offset(pkt) == 0 && MessageLeaves(pkt[Ihl(pkt)..], n))
       && (pkt[9] == 17 && Offset(pkt) == 0 && More(pkt) && n >= 8 ==>
             pkt[Ihl(pkt) + 6] != 0 || pkt[Ihl(pkt) + 7] != 0)
  }

  /** The header fields by the bytes they are made of. */
  lemma FlagBytes(h: seq<byte>)
    requires |h| >= 8
    ensures Flags4(h) >= 4 <==> h[6] >= 128
    ensures MoreFragments4(h) <==> h[6] / 32 % 2 == 1
    ensures FragmentOffset4(h) == (h[6] as int % 32 * 256 + h[7]) * 8
    ensures HeaderLength4(h) == h[0] % 16 * 4
    ensures !MoreFragments4(h) && FragmentOffset4(h) == 0 <==> h[6] % 64 == 0 && h[7] == 0
  {
  }

  lemma QuoteBytes(q: seq<byte>)
    ensures QuoteTranslatable46(q) <==> QuoteGrows(q)
  {
    if |q| >= 20 {
      FlagBytes(q);
      hide FragmentOffset4, MoreFragments4;
      assert Version(q) == 4 && HeaderLength4(q) == 20 <==> q[0] == 0x45;
    }
  }

  /** What is parsed: exactly the packets that leave, refused fragments and overruns aside. */
  predicate Parses(pkt: seq<byte>, forbidden: seq<byte> -> bool) {
    && |pkt| >= 20 && pkt[0] / 16 == 4 && 20 <= Ihl(pkt) <= Total(pkt) <= |pkt|
    && pkt[6] < 128
    && pkt[9] !in {0, 2, 43, 44, 51, 58, 60, 135, 139, 140}
    && WordSum(pkt[..Ihl(pkt)]) % 65535 == 0
    && (Ihl(pkt) > 20 ==> !forbidden(pkt[20..Ihl(pkt)]))
    && var t, n := pkt[Ihl(pkt)..], Total(pkt) - Ihl(pkt);
       && (More(pkt) ==> n % 8 == 0)
       && (pkt[9] == 1 ==>
             && !More(pkt) && Offset(pkt) == 0 && n >= 8
             && WordSum(t[..n]) != 0 && WordSum(t[..n]) % 65535 == 0 && CodeLeaves(t))
  }

  lemma CodeBytes(t: seq<byte>)
    requires |t| >= 8
    ensures IcmpHeaderTranslatable46(t[0], t[1], t[4..]) <==> CodeLeaves(t)
  {
    var r := t[4..];
    assert r[0] == t[4] && r[1] == t[5] && r[2] == t[6] && r[3] == t[7];
    assert r[..4] == [t[4], t[5], t[6], t[7]] && r[1..4] == [t[5], t[6], t[7]];
  }

  lemma MessageBytes(t: seq<byte>)
    ensures IcmpTranslatable46(t) <==> |t| >= 8 && WordSum(t) != 0 && WordSum(t) % 65535 == 0 && CodeLeaves(t)
  {
    hide Checksum, WordSum, IcmpHeaderTranslatable46, CodeLeaves;
    ChecksumCanonical(t);
    if |t| >= 8 {
      CodeBytes(t);
    }
  }

  lemma HeaderSumNotZero(pkt: seq<byte>, hl: nat)
    requires 20 <= hl <= |pkt| && pkt[0] != 0
    ensures Checksum(pkt[..hl]) == 0xffff <==> WordSum(pkt[..hl]) % 65535 == 0
  {
    hide Checksum, WordSum;
    ChecksumCanonical(pkt[..hl]);
    WordSumZero(pkt[..hl]);
    assert pkt[..hl][0] == pkt[0];
  }

  lemma ParseBytes(pkt: seq<byte>, forbidden: seq<byte> -> bool)
    ensures Parse46(pkt, forbidden).Some? <==> Parses(pkt, forbidden)
    ensures Parse46(pkt, forbidden).Some? ==>
              var m := Parse46(pkt, forbidden).value;
              && |pkt| >= 20 && m.headerLength == Ihl(pkt) && m.totalLength == Total(pkt) && m.protocol == pkt[9]
              && m.payloadLength == Total(pkt) - Ihl(pkt) && m.moreFragments == More(pkt)
              && m.fragmentOffset == Offset(pkt)
  {
    hide Checksum, WordSum, IcmpTranslatable46, FragmentOffset4, MoreFragments4, Flags4;
    if |pkt| >= 20 {
      FlagBytes(pkt);
      var hl, total := Ihl(pkt), Total(pkt);
      if pkt[0] / 16 == 4 && 20 <= hl <= total <= |pkt| {
        HeaderSumNotZero(pkt, hl);
        var t := pkt[hl..][..total - hl];
        assert pkt[hl..total] == t;
        MessageBytes(t);
        if |t| >= 8 {
          assert t[0] == pkt[hl..][0] && t[1] == pkt[hl..][1] && t[4] == pkt[hl..][4] && t[5] == pkt[hl..][5]
              && t[6] == pkt[hl..][6] && t[7] == pkt[hl..][7];
        }
      }
    }
  }

  // What leaves

  /** The well-known prefix in front of an IPv4 address. */
  function Mapped(a: seq<byte>): seq<byte>
  {
    [0, 0x64, 0xff, 0x9b, 0, 0, 0, 0, 0, 0, 0, 0] + a
  }

  /** The packet comes as one of several. */
  predicate Fragmented(pkt: seq<byte>)
    requires |pkt| >= 20
  {
    More(pkt) || Offset(pkt) != 0
  }

  /** A first fragment or whole packet that ends inside the transport header in which a checksum is due. */
  predicate EndsEarly(pkt: seq<byte>)
    requires |pkt| >= 20
  {
    Offset(pkt) == 0 && |pkt| - Ihl(pkt) < if pkt[9] == 6 then 20 else if pkt[9] == 17 then 8
        else if pkt[9] == 33 then 12 else 0
  }

  /** The i-th payload byte belongs to the checksum of a transport of this protocol. */
  predicate ChecksumByte(protocol: byte, i: int) {
    (protocol == 6 && i in {16, 17}) || (protocol in {17, 33} && i in {6, 7})
  }

  /** The fixed header of what leaves: version, traffic class, payload length, next header and hop limit. */
  function HeadBytes(pkt: seq<byte>, length: nat, next: byte): seq<int>
    requires |pkt| >= 20
  {
    [0x60 + pkt[1] / 16, pkt[1] % 16 * 16, 0, 0, length / 256, length % 256, next, pkt[8]]
  }

  /** The fragment header of what leaves. */
  function FragmentBytes(pkt: seq<byte>): seq<int>
    requires |pkt| >= 20
  {
    [pkt[9], 0, Offset(pkt) / 256, Offset(pkt) % 256 + if More(pkt) then 1 else 0, 0, 0, pkt[4], pkt[5]]
  }

  /** The next header of what leaves, for the protocol of what came. */
  function Next(protocol: byte): byte
  {
    if protocol == 1 then 58 else protocol
  }

  /** What is put in front of a payload. */
  lemma EnclosedBytes(pkt: seq<byte>, m: Meta, n: u16, rest: seq<byte>)
    requires |pkt| >= 20 && m.protocol == pkt[9] && m.moreFragments == More(pkt) && m.fragmentOffset == Offset(pkt)
    requires n + 8 < 0x1_0000 && (Fragmented(pkt) ==> pkt[9] != 1)
    ensures var e := Enclose(pkt, m, n, rest);
            && e.src == Mapped(pkt[12..16]) && e.dst == Mapped(pkt[16..20])
            && (Fragmented(pkt) ==> e.head == HeadBytes(pkt, n + 8, 44) && e.rest == FragmentBytes(pkt) + rest)
            && (!Fragmented(pkt) ==> e.head == HeadBytes(pkt, n, Next(pkt[9])) && e.rest == rest)
  {
    assert Word(pkt, 4) / 256 == pkt[4] && Word(pkt, 4) % 256 == pkt[5];
    assert FragmentHeader(Next(pkt[9]), Offset(pkt), More(pkt), Word(pkt, 4))
        == [Next(pkt[9]), 0, Offset(pkt) / 256, Offset(pkt) % 256 + if More(pkt) then 1 else 0, 0, 0, pkt[4], pkt[5]];
  }

  /** SIIT46 changes at most the checksum. */
  lemma RepairedBytes(pkt: seq<byte>, m: Meta, rest: seq<byte>)
    requires |pkt| >= 20 && m.payloadLength <= |rest| && RepairPayload46(Addresses46(pkt), m, rest).Some?
    ensures var r := RepairPayload46(Addresses46(pkt), m, rest).value;
            && |r| == |rest|
            && forall i :: 0 <= i < |rest| && !(m.fragmentOffset == 0 && ChecksumByte(m.protocol, i)) ==>
                  r[i] == rest[i]
  {
    hide UdpChecksum, Bumped46, Addresses46;
  }

  /** How a packet that is not ICMP leaves: repaired, enclosed, and with its source rewritten. */
  lemma LeavesBy(t: Translator, pkt: seq<byte>, forbidden: seq<byte> -> bool) returns (m: Meta, r: seq<byte>, e: V6)
    requires Leaves(pkt, forbidden) && pkt[9] != 1
    ensures Parse46(pkt, forbidden) == Some(m) && m.payloadLength == Total(pkt) - Ihl(pkt) && m.protocol == pkt[9]
    ensures m.moreFragments == More(pkt) && m.fragmentOffset == Offset(pkt)
    ensures RepairPayload46(Addresses46(pkt), m, pkt[Ihl(pkt)..]) == Some(r)
    ensures t.OutboundV6(pkt, forbidden) == Some(Rewrite(e, Source, t.clatV6))
    ensures e.src == Mapped(pkt[12..16]) && e.dst == Mapped(pkt[16..20])
    ensures var n, at := Total(pkt) - Ihl(pkt), if Fragmented(pkt) then 8 else 0;
            && e.head == HeadBytes(pkt, n + at, if Fragmented(pkt) then 44 else pkt[9])
            && e.rest == (if Fragmented(pkt) then FragmentBytes(pkt) else []) + r
  {
    hide Checksum, WordSum, V6.Bytes, Enclose, RepairPayload46, Rewrite, CodeLeaves, QuoteGrows;
    ParseBytes(pkt, forbidden);
    hide Parse46;
    m := Parse46(pkt, forbidden).value;
    FirstFragmentSummed(pkt, m);
    r := RepairPayload46(Addresses46(pkt), m, pkt[Ihl(pkt)..]).value;
    EnclosedBytes(pkt, m, m.payloadLength, r);
    e := Enclose(pkt, m, m.payloadLength, r);
    ViewOfBytes6(Rewrite(e, Source, t.clatV6));
  }

  /** The transport header of what leaves stands behind its headers. */
  lemma LeavesStands(pkt: seq<byte>, e: V6, r: seq<byte>)
    requires |pkt| >= 20 && e.head[6] == if Fragmented(pkt) then 44 else pkt[9]
    requires e.rest == (if Fragmented(pkt) then FragmentBytes(pkt) else []) + r && pkt[9] != 44
    ensures Offset(pkt) == 0 ==> Stands(e, pkt[9], if Fragmented(pkt) then 8 else 0)
    ensures Offset(pkt) != 0 ==> e.head[6] == 44 && |e.rest| >= 8 && (e.rest[2] != 0 || e.rest[3] >= 8)
  {
  }

  /** What a packet that is not ICMP leaves as: between its mapped destination and the CLAT address, or its mapped
      source if it ends early; with its traffic class, hop limit, protocol, fragment fields and identification; and
      with every payload byte but those of a checksum that is due. */
  lemma LeavesAs(t: Translator, pkt: seq<byte>, forbidden: seq<byte> -> bool) returns (p: V6)
    requires Leaves(pkt, forbidden) && pkt[9] != 1
    ensures t.OutboundV6(pkt, forbidden) == Some(p)
    ensures p.dst == Mapped(pkt[16..20]) && p.src == if EndsEarly(pkt) then Mapped(pkt[12..16]) else t.clatV6
    ensures var n, at := Total(pkt) - Ihl(pkt), if Fragmented(pkt) then 8 else 0;
            && p.head == HeadBytes(pkt, n + at, if Fragmented(pkt) then 44 else pkt[9])
            && |p.rest| == at + |pkt| - Ihl(pkt) && (Fragmented(pkt) ==> p.rest[..8] == FragmentBytes(pkt))
            && forall i :: 0 <= i < |pkt| - Ihl(pkt) && !(Offset(pkt) == 0 && ChecksumByte(pkt[9], i)) ==>
                 p.rest[at + i] == pkt[Ihl(pkt) + i]
  {
    hide Checksum, WordSum, RepairPayload46, Rewrite, CodeLeaves, QuoteGrows, Parse46, Translator.OutboundV6;
    var m, r, e := LeavesBy(t, pkt, forbidden);
    RepairedBytes(pkt, m, pkt[Ihl(pkt)..]);
    LeavesStands(pkt, e, r);
    hide Stands;
    p := Rewrite(e, Source, t.clatV6);
    if Offset(pkt) != 0 {
      RewriteOther(e, Source, t.clatV6);
    } else {
      RewriteBytes(e, Source, t.clatV6, pkt[9], if Fragmented(pkt) then 8 else 0);
    }
  }

  lemma FirstFragmentSummed(pkt: seq<byte>, m: Meta)
    requires |pkt| >= 20 && 20 <= m.headerLength && m.headerLength + m.payloadLength <= |pkt|
    requires m.protocol == UDP && m.fragmentOffset == 0 && m.IsFragmented() && m.payloadLength >= 8 ==>
               pkt[m.headerLength + 6] != 0 || pkt[m.headerLength + 7] != 0
    ensures RepairPayload46(Addresses46(pkt), m, pkt[m.headerLength..]).Some?
  {
  }

  // Which packets leave, exactly

  /** IPv6 passes as it is; of everything else exactly those packets leave. */
  lemma ExactlyLeaves(t: Translator, pkt: seq<byte>, forbidden: seq<byte> -> bool)
    ensures t.Outbound(pkt, forbidden).Sent? <==> |pkt| > 0 && (pkt[0] / 16 == 6 || Leaves(pkt, forbidden))
    ensures |pkt| > 0 && pkt[0] / 16 == 6 ==> t.Outbound(pkt, forbidden) == Sent(pkt)
  {
    hide WordSum, V6.Bytes, Enclose, SealPacket, RepairPayload46, Rewrite, CodeLeaves, QuoteTranslatable46, QuoteGrows,
      MessageOf;
    ParseBytes(pkt, forbidden);
    hide Parse46;
    if Parses(pkt, forbidden) {
      var m := Parse46(pkt, forbidden).value;
      var rest, n := pkt[m.headerLength..], m.payloadLength;
      if pkt[9] == 1 {
        QuoteBytes(rest[8..]);
        if |rest| >= 18 {
          assert rest[17] == rest[8..][9];
        }
      } else {
        MissingRefused(pkt, m);
      }
    }
  }

  /** How much room the translator needs in front of a packet: for the headers that get longer, but not so much that the
      offset of the old one, saved behind them, does not fit into a byte. */
  lemma RoomExact(pkt: seq<byte>, reserved: nat, forbidden: seq<byte> -> bool)
    requires Leaves(pkt, forbidden)
    ensures Translate46(pkt, 48, forbidden).Translated?
    ensures var room := if Fragmented(pkt) then 48 else 40;
            Translate46(pkt, reserved, forbidden) ==
              if reserved < room || reserved - room + Ihl(pkt) > 255 then Dropped
              else Translate46(pkt, 48, forbidden)
  {
    hide WordSum, Enclose, SealPacket, RepairPayload46, CodeLeaves, QuoteTranslatable46, QuoteGrows, MessageOf;
    ParseBytes(pkt, forbidden);
    hide Parse46;
    var m := Parse46(pkt, forbidden).value;
    if pkt[9] == 1 {
      QuoteBytes(pkt[m.headerLength..][8..]);
      if |pkt[m.headerLength..]| >= 18 {
        assert pkt[m.headerLength..][17] == pkt[m.headerLength..][8..][9];
      }
    } else {
      MissingRefused(pkt, m);
    }
  }

  /** Among what parses, only a first fragment of a datagram without a checksum is refused. */
  lemma MissingRefused(pkt: seq<byte>, m: Meta)
    requires |pkt| >= 20 && 20 <= m.headerLength && m.headerLength + m.payloadLength <= |pkt|
    ensures RepairPayload46(Addresses46(pkt), m, pkt[m.headerLength..]).None? <==>
              && m.protocol == 17 && m.fragmentOffset == 0 && m.IsFragmented() && m.payloadLength >= 8
              && pkt[m.headerLength + 6] == 0 && pkt[m.headerLength + 7] == 0
  {
  }

  // Checksums

  /** What a transport checksum covers, by its parts. */
  lemma SumParts(addrs: seq<byte>, proto: byte, t: seq<byte>)
    ensures TransportSum(addrs, proto, t) == WordSum(addrs) + |t| + proto + WordSum(t)
  {
  }

  /** The checksum word of a whole or first packet that does not end early: never 0xffff, and the one that came but
      for the change of source; or, in a datagram that came without one, valid. */
  lemma LeavesSummed(t: Translator, pkt: seq<byte>, forbidden: seq<byte> -> bool) returns (p: V6)
    requires Leaves(pkt, forbidden) && pkt[9] in {6, 17, 33} && Offset(pkt) == 0 && !EndsEarly(pkt)
    ensures t.OutboundV6(pkt, forbidden) == Some(p)
    ensures var n, c := Total(pkt) - Ihl(pkt), if pkt[9] == 6 then 16 else 6;
            var at := c + if More(pkt) then 8 else 0;
            && at + 2 <= |p.rest| && Word(p.rest, at) != 65535
            && if pkt[9] == 17 && n >= 8 && Word(pkt, Ihl(pkt) + 6) == 0 then
                 n <= |p.rest| && (WordSum(p.src + p.dst) + n + 17 + WordSum(p.rest[..n])) % 65535 == 0
               else
                 (Word(p.rest, at) - (Word(pkt, Ihl(pkt) + c) + WordSum(pkt[12..16]) - WordSum(t.clatV6))) % 65535 == 0
  {
    hide Checksum, WordSum, RepairPayload46, Rewrite, CodeLeaves, QuoteGrows, Parse46, Translator.OutboundV6,
      TransportValid, TransportSum, SetWord;
    var m, r, e := LeavesBy(t, pkt, forbidden);
    var rest, n, c := pkt[Ihl(pkt)..], m.payloadLength, if pkt[9] == 6 then 16 else 6;
    var at := c + if More(pkt) then 8 else 0;
    LeavesStands(pkt, e, r);
    hide Stands;
    p := Rewrite(e, Source, t.clatV6);
    RewriteBytes(e, Source, t.clatV6, pkt[9], at - c);
    TranslatedSum(pkt[12..16]);
    WordSumBound(pkt[12..16]);
    RepairedBytes(pkt, m, rest);
    if pkt[9] == 17 && n >= 8 && Word(rest, 6) == 0 {
      LeavesFilled(t, pkt, forbidden, p);
    } else {
      RepairedWord(pkt, m, rest);
      assert Word(e.rest, at) == Word(r, c);
      MovedWord(Word(p.rest, at), Word(r, c), Word(rest, c), WordSum(e.src), WordSum(pkt[12..16]), WordSum(t.clatV6));
    }
  }

  /** A datagram that came without a checksum leaves with a valid one. */
  lemma LeavesFilled(t: Translator, pkt: seq<byte>, forbidden: seq<byte> -> bool, p: V6)
    requires Leaves(pkt, forbidden) && pkt[9] == 17 && Offset(pkt) == 0 && t.OutboundV6(pkt, forbidden) == Some(p)
    requires Total(pkt) - Ihl(pkt) >= 8 && Word(pkt, Ihl(pkt) + 6) == 0
    ensures var n := Total(pkt) - Ihl(pkt);
            n <= |p.rest| && (WordSum(p.src + p.dst) + n + 17 + WordSum(p.rest[..n])) % 65535 == 0
  {
    hide Checksum, WordSum, CodeLeaves, QuoteGrows, Translator.OutboundV6, TransportValid, TransportSum, SetWord;
    ParseBytes(pkt, forbidden);
    hide Parse46;
    assert Word(pkt[Ihl(pkt)..], 6) == 0;
    OutboundTransport(t, pkt, forbidden);
    TransportValidIff(p.src + p.dst, 17, p.Payload());
    SumParts(p.src + p.dst, 17, p.Payload());
  }

  /** The word SIIT46 leaves there. */
  lemma RepairedWord(pkt: seq<byte>, m: Meta, rest: seq<byte>)
    requires |pkt| >= 20 && m.payloadLength <= |rest| && RepairPayload46(Addresses46(pkt), m, rest).Some?
    requires m.protocol in {6, 17, 33} && m.fragmentOffset == 0
    requires |rest| >= if m.protocol == 6 then 20 else if m.protocol == 17 then 8 else 12
    requires !(m.protocol == 17 && m.payloadLength >= 8 && Word(rest, 6) == 0)
    ensures var r, c := RepairPayload46(Addresses46(pkt), m, rest).value, if m.protocol == 6 then 16 else 6;
            Word(r, c) == Word(rest, c) || (Word(r, c) == 0 && Word(rest, c) == 65535)
  {
    hide UdpChecksum, Bumped46, Addresses46, SetWord;
    Bumped46Is(Word(rest, 6));
    if |rest| >= 18 {
      Bumped46Is(Word(rest, 16));
    }
  }

  lemma MovedWord(w: u16, r: u16, field: u16, src6: nat, src4: nat, clat: nat)
    requires (w - (r + src6 - clat)) % 65535 == 0 && src6 == 65535 + src4 && (r == field || (r == 0 && field == 65535))
    ensures (w - (field + src4 - clat)) % 65535 == 0
  {
    var k := (w - (r + src6 - clat)) / 65535;
    assert w - (field + src4 - clat) == 65535 * (k + 1) + (r - field);
  }

  // ICMP

  /** The type and code an ICMPv4 message leaves with. */
  function TypeOut(t: seq<byte>): (int, int)
    requires |t| >= 8
  {
    if t[0] == 8 then (128, 0)
    else if t[0] == 0 then (129, 0)
    else if t[0] == 3 && t[1] in {0, 1, 5, 6, 7, 8, 11, 12} then (1, 0) // no route
    else if t[0] == 3 && t[1] in {9, 10, 13, 15} then (1, 1)            // administratively prohibited
    else if t[0] == 3 && t[1] == 3 then (1, 4)                         // port unreachable
    else if t[0] == 3 && t[1] == 2 then (4, 1)                         // protocol unreachable: unrecognized next header
    else if t[0] == 3 then (2, 0)                                      // packet too big
    else if t[0] == 11 then (3, t[1])
    else (4, 0)
  }

  /** The IPv6 header field for the IPv4 header field a Parameter Problem points to. */
  function PointerOut(pointer: byte): int
    requires pointer <= 3 || 8 <= pointer <= 9 || 12 <= pointer <= 19
  {
    if pointer <= 1 then pointer
    else if pointer <= 3 then 4
    else if pointer == 8 then 7
    else if pointer == 9 then 6
    else if pointer <= 15 then 8
    else 24
  }

  /** The MTU a router means that reports none: the next plateau below the length of the packet it quotes. */
  function PlateauBelow(length: nat): int
  {
    if length > 32000 then 32000
    else if length > 17914 then 17914
    else if length > 8166 then 8166
    else if length > 4352 then 4352
    else if length > 2002 then 2002
    else if length > 1492 then 1492
    else if length > 1006 then 1006
    else if length > 508 then 508
    else if length > 296 then 296
    else 68
  }

  /** The MTU a Fragmentation Needed reports. */
  function MtuIn(t: seq<byte>): int
    requires |t| >= 8
  {
    if Word(t, 6) >= 68 then Word(t, 6) else if |t| < 28 then 68 else PlateauBelow(Word(t, 10))
  }

  /** The MTU it leaves with: 20 bytes more, but from 1280 to 1420. */
  function MtuOut(mtu: int): int
  {
    if mtu < 1260 then 1280 else if mtu > 1400 then 1420 else mtu + 20
  }

  lemma PlateauBytes(length: u16)
    ensures Max(68, PlateauFrom(0, length)) == PlateauBelow(length)
  {
    assert PlateauFrom(11, length) == 0;
    assert PlateauFrom(10, length) == if length > 68 then 68 else 0;
    assert PlateauFrom(9, length) == if length > 296 then 296 else PlateauFrom(10, length);
    assert PlateauFrom(8, length) == if length > 508 then 508 else PlateauFrom(9, length);
    assert PlateauFrom(7, length) == if length > 1006 then 1006 else PlateauFrom(8, length);
    assert PlateauFrom(6, length) == if length > 1492 then 1492 else PlateauFrom(7, length);
    assert PlateauFrom(5, length) == if length > 2002 then 2002 else PlateauFrom(6, length);
    assert PlateauFrom(4, length) == if length > 4352 then 4352 else PlateauFrom(5, length);
    assert PlateauFrom(3, length) == if length > 8166 then 8166 else PlateauFrom(4, length);
    assert PlateauFrom(2, length) == if length > 17914 then 17914 else PlateauFrom(3, length);
    assert PlateauFrom(1, length) == if length > 32000 then 32000 else PlateauFrom(2, length);
  }

  lemma MtuBytes(t: seq<byte>)
    requires |t| >= 8
    ensures Mtu46(ReportedMtu46(t)) == MtuOut(MtuIn(t))
  {
    hide PlateauFrom, PlateauBelow;
    if |t| >= 28 {
      PlateauBytes(Word(t, 10));
    }
  }

  /** The last four bytes of the ICMPv6 header. */
  function WordOut(t: seq<byte>): seq<int>
    requires |t| >= 8 && CodeLeaves(t)
  {
    if t[0] in {0, 8} then [t[4], t[5], t[6], t[7]]
    else if t[0] == 3 && t[1] == 2 then [0, 0, 0, 6]
    else if t[0] == 3 && t[1] == 4 then [0, 0, MtuOut(MtuIn(t)) / 256, MtuOut(MtuIn(t)) % 256]
    else if t[0] == 12 then [0, 0, 0, PointerOut(t[4])]
    else [0, 0, 0, 0]
  }

  lemma HeadOut(t: seq<byte>)
    requires |t| >= 8 && CodeLeaves(t)
    ensures var h := IcmpHead46(t); (h[0], h[1]) == TypeOut(t) && h[4..8] == WordOut(t)
  {
    hide Mtu46, ReportedMtu46, MtuOut, MtuIn;
    MtuBytes(t);
    var h := IcmpHead46(t);
    if t[0] == 3 && t[1] == 4 {
      var mtu := Mtu46(ReportedMtu46(t));
      MtuRange(t);
      assert h == [2, 0] + t[2..4] + Be32(mtu);
      assert h[4..8] == Be32(mtu);
    } else if t[0] == 3 && t[1] == 2 {
      assert h == [4, 1] + t[2..4] + Be32(6);
      assert h[4..8] == Be32(6);
    } else if t[0] == 12 {
      assert h == [4, 0] + t[2..4] + [0] + t[5..7] + [Pointer46(t[4], t[7])];
      assert h[4..8] == [h[4], h[5], h[6], h[7]];
    } else {
      assert h[4..8] == [t[4], t[5], t[6], t[7]];
    }
  }

  lemma MtuRange(t: seq<byte>)
    requires |t| >= 8
    ensures 0 <= MtuOut(MtuIn(t)) < 0x1_0000
  {
  }

  /** What the quoted packet q of n bytes becomes, together with the bytes that trail it: the packet it leaves as,
      as far as it is quoted. */
  predicate Grown(r: seq<byte>, q: seq<byte>, n: nat)
    requires 20 <= n <= |q|
  {
    var length := (q[2] as int * 256 + q[3] - 20) % 0x1_0000;
    && |r| == |q| + 20
    && r[..8] == [0x60 + q[1] / 16, q[1] % 16 * 16, 0, 0, length / 256, length % 256, Next(q[9]), q[8]]
    && r[8..24] == Mapped(q[12..16]) && r[24..40] == Mapped(q[16..20])
    && (q[9] != 1 ==> r[40..] == q[20..])
    && (q[9] == 1 ==> && n >= 24 && r[40] == (if q[20] == 8 then 128 else 129) && r[41] == q[21] && r[44..] == q[24..]
                      && (WordSum(r[8..40]) + (n - 20) + 58 + WordSum(r[40..n + 20])) % 65535 == 0)
  }

  lemma GrownHead(q: seq<byte>)
    requires |q| >= 20
    ensures var h, length := QuoteHead46(q), (q[2] as int * 256 + q[3] - 20) % 0x1_0000;
            && h[..8] == [0x60 + q[1] / 16, q[1] % 16 * 16, 0, 0, length / 256, length % 256, Next(q[9]), q[8]]
            && h[8..24] == Mapped(q[12..16]) && h[24..40] == Mapped(q[16..20])
  {
    QuoteAddresses(q);
    var a := Mapped(q[12..16]) + Mapped(q[16..20]);
    var h := QuoteHead46(q);
    assert h[8..] == a;
    assert h[8..24] == a[..16] && h[24..40] == a[16..];
  }

  lemma GrownQuote(q: seq<byte>, n: nat)
    requires QuoteGrows(q) && 20 <= n <= |q| && (q[9] == 1 ==> n >= 24)
    ensures Grown(QuoteHead46(q) + (QuotePayload46(q, q[20..n]) + q[n..]), q, n)
  {
    hide WordSum, TransportValid, Sealed6, SetWord, Addresses46, QuoteHead46, View6, PREFIX;
    QuoteBytes(q);
    var captured := q[20..n];
    var payload := QuotePayload46(q, captured);
    var r := QuoteHead46(q) + (payload + q[n..]);
    GrownHead(q);
    ExpandedPayload(q, captured, q[n..]);
    assert r[40..] == payload + q[n..];
    assert r[..8] == QuoteHead46(q)[..8] && r[8..24] == QuoteHead46(q)[8..24] && r[24..40] == QuoteHead46(q)[24..40];
    if q[9] == 1 {
      var v := View6(r);
      GrownView(r);
      assert r[44..] == v.rest[4..];
      assert r[40..n + 20] == v.rest[..n - 20];
      TransportValidIff(v.src + v.dst, 58, v.rest[..n - 20]);
    }
  }

  lemma GrownView(r: seq<byte>)
    requires |r| >= 40
    ensures var v := View6(r); v.src + v.dst == r[8..40] && v.rest == r[40..]
  {
  }

  /** What an ICMP message leaves as: its type, code and last header word as the tables say, the CLAT address as
      source, a valid checksum; and behind its header the same bytes, unless it is an error whose quote grows. */
  lemma LeavesAsMessage(t: Translator, pkt: seq<byte>, forbidden: seq<byte> -> bool) returns (p: V6)
    requires Leaves(pkt, forbidden) && pkt[9] == 1
    ensures t.OutboundV6(pkt, forbidden) == Some(p)
    ensures p.src == t.clatV6 && p.dst == Mapped(pkt[16..20])
    ensures var m, n := pkt[Ihl(pkt)..], Total(pkt) - Ihl(pkt);
            var length := n + if ErrorGrows(m) then 20 else 0;
            && p.head == HeadBytes(pkt, length, 58) && 8 <= length <= |p.rest| == |m| + length - n
            && (p.rest[0] as int, p.rest[1] as int) == TypeOut(m) && p.rest[4..8] == WordOut(m)
            && (WordSum(p.src + p.dst) + length + 58 + WordSum(p.rest[..length])) % 65535 == 0
            && if ErrorGrows(m) then n >= 28 && Grown(p.rest[8..], m[8..], n - 8) else p.rest[8..] == m[8..]
  {
    hide Checksum, WordSum, CodeLeaves, QuoteGrows, TranslateIcmp46, TypeOut, WordOut, Grown, TransportValid,
      TransportSum,
      SetWord, Translator.OutboundV6, Translator.Outbound;
    ParseBytes(pkt, forbidden);
    hide Parse46;
    var m, n := pkt[Ihl(pkt)..], Total(pkt) - Ihl(pkt);
    var icmp := MessageOut(m, n, 8 + Ihl(pkt));
    OutboundIcmp(t, pkt, forbidden);
    p := t.OutboundV6(pkt, forbidden).value;
    TransportValidIff(p.src + p.dst, 58, p.Payload());
    SumParts(p.src + p.dst, 58, p.Payload());
    assert p.rest[4..8] == icmp[4..8] && p.rest[8..] == icmp[8..];
    HeadOf(t, pkt, forbidden);
  }

  /** The message SIIT46 makes, without its checksum. */
  lemma MessageOut(m: seq<byte>, n: nat, headroom: nat) returns (icmp: seq<byte>)
    requires n <= |m| && n + 20 < 0x1_0000 && MessageLeaves(m, n) && headroom >= 20
    ensures var length := n + if ErrorGrows(m) then 20 else 0;
            && TranslateIcmp46(m, n, headroom) == Message(icmp, length) && 8 <= length <= |icmp| == |m| + length - n
            && (icmp[0] as int, icmp[1] as int) == TypeOut(m) && icmp[4..8] == WordOut(m)
            && if ErrorGrows(m) then n >= 28 && Grown(icmp[8..], m[8..], n - 8) else icmp[8..] == m[8..]
  {
    hide WordSum, QuoteTranslatable46, IcmpHead46, QuoteHead46, QuotePayload46, TypeOut, WordOut, CodeLeaves, Grown;
    QuoteBytes(m[8..]);
    HeadOut(m);
    if |m| >= 18 {
      assert m[17] == m[8..][9];
    }
    icmp := TranslateIcmp46(m, n, headroom).rest;
    assert icmp[..8] == IcmpHead46(m);
    assert icmp[4..8] == icmp[..8][4..8];
    if ErrorGrows(m) {
      GrownQuote(m[8..], n - 8);
      assert m[8..][20..n - 8] == m[28..n] && m[8..][n - 8..] == m[n..];
      assert icmp[8..] == QuoteHead46(m[8..]) + (QuotePayload46(m[8..], m[28..n]) + m[n..]);
    } else {
      assert icmp[8..] == m[8..];
    }
  }

  /** The fixed header of what an ICMP message leaves as. */
  lemma HeadOf(t: Translator, pkt: seq<byte>, forbidden: seq<byte> -> bool)
    requires Leaves(pkt, forbidden) && pkt[9] == 1 && t.OutboundV6(pkt, forbidden).Some?
    ensures var p := t.OutboundV6(pkt, forbidden).value;
            p.head == HeadBytes(pkt, p.PayloadLength(), 58)
  {
    hide Checksum, WordSum, CodeLeaves, QuoteTranslatable46, QuoteGrows, V6.Bytes, Rewrite, SealPacket, Enclose,
      MessageOf;
    ParseBytes(pkt, forbidden);
    hide Parse46;
    var m := Parse46(pkt, forbidden).value;
    var r := TranslateIcmp46(pkt[m.headerLength..], m.payloadLength, 8 + m.headerLength);
    if r.Message? {
      EnclosedBytesIcmp(pkt, m, r.length, r.rest);
      SealedParts(Enclose(pkt, m, r.length, r.rest));
      ViewOfBytes6(Rewrite(SealPacket(Enclose(pkt, m, r.length, r.rest)), Source, t.clatV6));
    }
  }

  lemma SealedParts(p: V6)
    requires 4 <= p.PayloadLength() <= |p.rest|
    ensures SealPacket(p).head == p.head
  {
  }

  lemma EnclosedBytesIcmp(pkt: seq<byte>, m: Meta, n: u16, rest: seq<byte>)
    requires |pkt| >= 20 && m.protocol == pkt[9] == 1 && !m.IsFragmented() && m.fragmentOffset == 0
    ensures Enclose(pkt, m, n, rest).head == HeadBytes(pkt, n, 58) && Enclose(pkt, m, n, rest).PayloadLength() == n
    ensures Enclose(pkt, m, n, rest).rest == rest
  {
  }
}
