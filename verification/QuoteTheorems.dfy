/** What becomes of the packets quoted in ICMP errors, and of the MTUs they report. */
module QuoteTheorems {
  import opened Wrappers
  import opened Bytes
  import opened OnesComplement
  import opened Wire
  import opened Siit46Spec
  import Siit64Spec
  import opened Clatxlat
  import opened OutboundTheorems
  import opened InboundTheorems

  // IPv4 to IPv6

  /** A quote that was expanded: the IPv6 packet q stands for, followed by the captured transport bytes. */
  predicate ExpandedQuote(v: V6, q: seq<byte>, captured: nat)
    requires |q| >= 20 && captured <= |v.rest|
  {
    && v.src == PREFIX + q[12..16] && v.dst == PREFIX + q[16..20]
    && v.head[0] / 16 == 6 && v.Tos() == q[1] && v.HopLimit() == q[8] && v.NextHeader() == NextHeaderOf(q[9])
    && v.PayloadLength() == Sub16(Word(q, 2), 20)
    && |v.rest| == |q| - 20
    && (q[9] != ICMPV4 ==> v.rest == q[20..])
    && (q[9] == ICMPV4 ==>
          && |v.rest| >= 8 && v.rest[0] == (if q[20] == 8 then 128 else 129) && v.rest[1] == q[21]
          && v.rest[4..] == q[24..]
          && TransportValid(v.src + v.dst, ICMPV6, v.rest[..captured]))
  }

  lemma QuoteHeadFields(q: seq<byte>, rest: seq<byte>)
    requires |q| >= 20
    ensures var v := View6(QuoteHead46(q) + rest);
            && v.src == PREFIX + q[12..16] && v.dst == PREFIX + q[16..20] && v.rest == rest
            && v.head[0] / 16 == 6 && v.Tos() == q[1] && v.HopLimit() == q[8] && v.NextHeader() == NextHeaderOf(q[9])
            && v.PayloadLength() == Sub16(Word(q, 2), 20)
  {
    hide Head6Of, Translated4, View6;
    HeadNext(q[1], Sub16(Word(q, 2), 20), NextHeaderOf(q[9]), q[8]);
    var head := Head6Of(q[1], Sub16(Word(q, 2), 20), NextHeaderOf(q[9]), q[8]);
    var p := V6(head, Translated4(q[12..16]), Translated4(q[16..20]), rest);
    assert QuoteHead46(q) + rest == p.Bytes();
    ViewOfBytes6(p);
    PrefixedIs(q[12..16]);
    PrefixedIs(q[16..20]);
  }

  lemma PrefixedIs(a: Address4)
    ensures Translated4(a) == PREFIX + a
  {
  }

  /** The expanded quote of the n message bytes at the front of t. */
  lemma ExpandedPayload(q: seq<byte>, captured: seq<byte>, trailing: seq<byte>)
    requires QuoteTranslatable46(q) && q[20..] == captured + trailing && (q[9] == ICMPV4 ==> |captured| >= 4)
    ensures ExpandedQuote(View6(QuoteHead46(q) + (QuotePayload46(q, captured) + trailing)), q, |captured|)
  {
    hide QuoteHead46, View6, TransportValid, Sealed6, SetWord, Addresses46;
    var payload := QuotePayload46(q, captured);
    QuoteHeadFields(q, payload + trailing);
    var v := View6(QuoteHead46(q) + (payload + trailing));
    assert v.rest[..|captured|] == payload;
    if q[9] == ICMPV4 {
      var typed := captured[0 := if captured[0] == 8 then 128 else 129];
      assert q[20] == q[20..][0] == captured[0] && q[21] == q[20..][1];
      QuoteAddresses(q);
      Sealed6Valid(Addresses46(q), typed);
      assert payload[4..] == typed[4..] == captured[4..];
      assert v.rest[4..] == payload[4..] + trailing == q[20..][4..] == q[24..];
    }
  }

  lemma QuoteAddresses(q: seq<byte>)
    requires |q| >= 20
    ensures Addresses46(q) == (PREFIX + q[12..16]) + (PREFIX + q[16..20])
  {
  }

  /** Whether an outbound ICMP error has its quote expanded. */
  predicate Expands(rest: seq<byte>)
    requires |rest| >= 8
  {
    IsError46(rest[0]) && QuoteTranslatable46(rest[8..])
  }

  /** The two fates of the packet an ICMP error quotes on its way out: it grows by exactly the 20 bytes between the
      two headers and becomes the IPv6 packet it stands for, or neither it nor the length changes; nothing in
      between, and no length wraps. Either way the message is valid (OutboundIcmp). */
  lemma OutboundQuote(t: Translator, pkt: seq<byte>, forbidden: seq<byte> -> bool) returns (p: V6)
    requires Parse46(pkt, forbidden).Some? && Parse46(pkt, forbidden).value.protocol == ICMPV4
    requires t.Outbound(pkt, forbidden) != Crashed
    ensures t.OutboundV6(pkt, forbidden) == Some(p)
    ensures var m := Parse46(pkt, forbidden).value;
            var rest, n := pkt[m.headerLength..], m.payloadLength;
            if Expands(rest) then
              && p.PayloadLength() == n + 20 && |p.rest| == |rest| + 20 && n >= 28
              && ExpandedQuote(View6(p.rest[8..]), rest[8..], n - 28)
            else
              p.PayloadLength() == n && |p.rest| == |rest| && p.rest[8..] == rest[8..]
  {
    hide Parse46, Translator.Outbound, Translator.OutboundV6, QuoteHead46, QuotePayload46, TransportValid, SetWord,
      IcmpHead46,
      ExpandedQuote, View6;
    var m := Parse46(pkt, forbidden).value;
    var rest, n := pkt[m.headerLength..], m.payloadLength;
    var q := rest[8..];
    OutboundIcmp(t, pkt, forbidden);
    p := t.OutboundV6(pkt, forbidden).value;
    var icmp := TranslateIcmp46(rest, n, 8 + m.headerLength).rest;
    assert p.rest[8..] == icmp[8..];
    if Expands(rest) {
      assert !QuoteOverruns46(rest, n);
      assert q[9] == rest[17];
      var captured, trailing := rest[28..n], rest[n..];
      assert q[20..] == captured + trailing;
      assert icmp[8..] == QuoteHead46(q) + (QuotePayload46(q, captured) + trailing);
      ExpandedPayload(q, captured, trailing);
    } else {
      assert icmp[8..] == q;
    }
  }

  // IPv6 to IPv4

  /** The message an inbound ICMP error becomes never changes its length. A quote that translates becomes the IPv4
      packet it stands for, with a valid header, followed by the captured transport bytes and the zeros that make up
      for the shorter header (a quoted echo with its IPv4 type and a valid checksum); any other quote stays as it
      was. */
  lemma InboundQuote(t: seq<byte>) returns (r: seq<byte>)
    requires |t| >= 8 && Siit64Spec.IsError64(t[0])
    ensures r == Siit64Spec.TranslateIcmp64(t) && |r| == |t| && Checksum(r) == 0xffff
    ensures var q := t[8..];
            if !Siit64Spec.QuoteTranslatable64(q) then r[8..] == q
            else
              var v := View4(r[8..]);
              && HasHead(v, q[0] % 16 * 16 + q[1] / 16, Siit64Spec.Add16(20, Word(q, 4)), 0, 0, q[7],
                    Siit64Spec.ProtocolOf(q[6]))
              && v.src == q[20..24] && v.dst == q[36..40]
              && (q[6] != ICMPV6 ==> v.rest == q[40..] + Zeros(20))
              && (q[6] == ICMPV6 ==> && v.rest[0] == (if q[40] == 128 then 8 else 0) && v.rest[1] == q[41]
                                     && v.rest[4..] == q[44..] + Zeros(20) && Checksum(v.rest) == 0xffff)
  {
    hide Checksum, Siit64Spec.SealedHead4, Siit64Spec.IcmpHead64, Siit64Spec.Sealed4, HasHead, View4, V4.Bytes;
    r := Siit64Spec.TranslateIcmp64(t);
    TranslatedSealed(t);
    var q := t[8..];
    if Siit64Spec.QuoteTranslatable64(q) {
      var payload := Siit64Spec.QuotePayload64(q);
      var message := Siit64Spec.IcmpHead64(t) + (Siit64Spec.QuoteHead64(q) + payload);
      Sealed4Valid(message);
      assert r[8..] == message[8..] == Siit64Spec.QuoteHead64(q) + payload;
      InboundQuoteHead(q, payload);
      InboundQuotePayload(q);
    } else {
      Sealed4Valid(Siit64Spec.IcmpHead64(t) + q);
      assert r[8..] == (Siit64Spec.IcmpHead64(t) + q)[8..];
    }
  }

  lemma InboundQuoteHead(q: seq<byte>, payload: seq<byte>)
    requires |q| >= 40
    ensures var v := View4(Siit64Spec.QuoteHead64(q) + payload);
            && HasHead(v, q[0] % 16 * 16 + q[1] / 16, Siit64Spec.Add16(20, Word(q, 4)), 0, 0, q[7],
                  Siit64Spec.ProtocolOf(q[6]))
            && v.src == q[20..24] && v.dst == q[36..40] && v.rest == payload
  {
    hide Siit64Spec.SealedHead4, HasHead, View4;
    var src: Address4, dst: Address4 := q[20..24], q[36..40];
    var tos, total, proto := q[0] % 16 * 16 + q[1] / 16, Siit64Spec.Add16(20, Word(q, 4)), Siit64Spec.ProtocolOf(q[6]);
    var p := V4(Siit64Spec.SealedHead4(tos, total, 0, 0, q[7], proto, src, dst), src, dst, payload);
    SealedHasHead(tos, total, 0, 0, q[7], proto, src, dst, payload);
    assert Siit64Spec.QuoteHead64(q) + payload == p.Bytes();
    ViewOfBytes4(p);
  }

  lemma InboundQuotePayload(q: seq<byte>)
    requires Siit64Spec.QuoteTranslatable64(q)
    ensures var payload := Siit64Spec.QuotePayload64(q);
            && (q[6] != ICMPV6 ==> payload == q[40..] + Zeros(20))
            && (q[6] == ICMPV6 ==> && payload[0] == (if q[40] == 128 then 8 else 0) && payload[1] == q[41]
                                   && payload[4..] == q[44..] + Zeros(20) && Checksum(payload) == 0xffff)
  {
    hide Checksum, Siit64Spec.Sealed4, SetWord;
    if q[6] == ICMPV6 {
      var moved := q[40..] + Zeros(20);
      var typed := moved[0 := if moved[0] == 128 then 8 else 0];
      Sealed4Valid(typed);
      assert Siit64Spec.Sealed4(typed)[4..] == typed[4..] == q[44..] + Zeros(20);
    }
  }

  // MTUs

  /** The two translations of a reported MTU undo each other exactly on the ranges the outbound defaults leave. */
  lemma MtusInverse(mtu4: u16, mtu6: u16)
    ensures Siit64Spec.Mtu64(Mtu46(mtu4)) == mtu4 <==> 1260 <= mtu4 <= 1400
    ensures Mtu46(Siit64Spec.Mtu64(mtu6)) == mtu6 <==> 1280 <= mtu6 <= 1420
    ensures 1280 <= Mtu46(mtu4) <= 1420 && 68 <= Siit64Spec.Mtu64(mtu6) <= 1400
  {
  }

  /** A Fragmentation Needed message leaves as Packet Too Big, and that, translated back, reports the MTU the first one
      stood for, moved into 1260..1400. */
  lemma MtuThereAndBack(t: seq<byte>)
    requires |t| >= 8 && t[0] == 3 && t[1] == 4
    ensures var there := IcmpHead46(t);
            && there[0] == 2 && there[1] == 0 && Word(there, 4) == 0 && Word(there, 6) == Mtu46(ReportedMtu46(t))
            && var back := Siit64Spec.IcmpHead64(there);
               && back[0] == 3 && back[1] == 4
               && Word(back, 6) == Max(1260, Min(ReportedMtu46(t), 1400))
  {
    hide ReportedMtu46;
    var mtu := ReportedMtu46(t);
    var there := IcmpHead46(t);
    assert there == [2, 0] + t[2..4] + Be32(Mtu46(mtu));
    assert there[4..6] == Be16(0) && there[6..8] == Be16(Mtu46(mtu));
    var back := Siit64Spec.IcmpHead64(there);
    assert back[6..8] == Be16(Siit64Spec.Mtu64(Mtu46(mtu)));
  }

  // There and back

  /** The first byte of the IPv4 header field a pointer points into; a field is what the translators tell apart. */
  function FieldStart4(pointer: byte): byte
  {
    if pointer == 3 then 2 else if 12 <= pointer <= 15 then 12 else if 16 <= pointer <= 19 then 16 else pointer
  }

  function FieldStart6(pointer: byte): byte
  {
    if pointer == 5 then 4 else if 8 <= pointer <= 23 then 8 else if 24 <= pointer <= 39 then 24 else pointer
  }

  /** A pointer that was translated comes back as a pointer to the start of the field it pointed into. */
  lemma PointersComeBack(pointer: byte, otherwise: byte)
    ensures pointer <= 3 || 8 <= pointer <= 9 || 12 <= pointer <= 19 ==>
              Siit64Spec.Pointer64(Pointer46(pointer, otherwise), otherwise) == FieldStart4(pointer)
    ensures pointer <= 1 || 4 <= pointer <= 39 ==>
              Pointer46(Siit64Spec.Pointer64(pointer, otherwise), otherwise) == FieldStart6(pointer)
  {
  }

  /** An ICMPv4 message that translates leaves as one that would translate back, except a Protocol Unreachable, whose
      Parameter Problem carries a pointer that the way back does not accept. */
  lemma OutboundComesBack(t: seq<byte>)
    requires |t| >= 8 && IcmpHeaderTranslatable46(t[0], t[1], t[4..])
    ensures var h := IcmpHead46(t);
            Siit64Spec.IcmpHeaderTranslatable64(h[0], h[1], h[4..]) <==> !(t[0] == 3 && t[1] == 2)
  {
    hide ReportedMtu46, Mtu46, Pointer46;
    var h, r := IcmpHead46(t), t[4..];
    MtusInverse(ReportedMtu46(t), 1280);
    PointersInRange(t[4], t[7]);
    assert r[0] == t[4] && r[1] == t[5] && r[2] == t[6] && r[3] == t[7];
    assert r[1..4] == t[5..8] && h[4..][..3] == h[4..7] && h[4..][..4] == h[4..8];
    if t[0] == 3 && t[1] == 4 {
      assert h == [2, 0] + t[2..4] + Be32(Mtu46(ReportedMtu46(t)));
      assert h[4] == 0 && h[5] == 0;
    } else if t[0] == 3 && t[1] == 2 {
      assert h == [4, 1] + t[2..4] + Be32(6);
      assert h[7] == 6 && h[4..8][3] == 6;
    } else if t[0] == 12 {
      assert h == [4, 0] + t[2..4] + [0] + t[5..7] + [Pointer46(t[4], t[7])];
      assert r[1..4][0] == 0 && r[1..4][1] == 0;
      assert h[4..7] == [0, 0, 0];
    }
  }

  lemma PointersInRange(pointer: byte, otherwise: byte)
    ensures pointer <= 3 || 8 <= pointer <= 9 || 12 <= pointer <= 19 ==>
              Pointer46(pointer, otherwise) <= 1 || 4 <= Pointer46(pointer, otherwise) <= 39
    ensures pointer <= 1 || 4 <= pointer <= 39 ==>
              var p := Siit64Spec.Pointer64(pointer, otherwise); p <= 3 || 8 <= p <= 9 || 12 <= p <= 19
  {
  }

  /** An ICMPv6 message that translates arrives as one that would translate back, provided that a Destination
      Unreachable or Time Exceeded left its unused word zero, which only the way out insists on. */
  lemma InboundComesBack(t: seq<byte>)
    requires |t| >= 8 && Siit64Spec.IcmpHeaderTranslatable64(t[0], t[1], t[4..])
    ensures var h := Siit64Spec.IcmpHead64(t);
            IcmpHeaderTranslatable46(h[0], h[1], h[4..]) <==> (t[0] == 1 || t[0] == 3 ==> t[4..8] == [0, 0, 0, 0])
  {
    hide Siit64Spec.Mtu64, Siit64Spec.Pointer64;
    var h, r := Siit64Spec.IcmpHead64(t), t[4..];
    PointersInRange(t[7], t[4]);
    assert r[0] == t[4] && r[1] == t[5] && r[2] == t[6] && r[3] == t[7];
    assert h[4..][..4] == h[4..8] && h[4..][1..4] == h[5..8] && r[..4] == t[4..8] && r[..3] == t[4..7];
    if t[0] == 1 || t[0] == 3 {
      assert h[4..8] == t[4..8];
    } else if t[0] == 2 {
      assert h[4] == t[4] && h[5] == t[5];
    } else if t[0] == 4 && t[1] == 0 {
      assert t[4..7][1] == 0 && t[4..7][2] == 0;
      assert h[5..8] == t[5..7] + [0] == [0, 0, 0];
    } else if t[0] == 4 {
      assert h == [3, 2] + t[2..4] + [0, 0, 0, 0];
      assert h[4..8] == [0, 0, 0, 0];
    }
  }

  /** The message that does not come back on the way out, and one that does not on the way in. */
  lemma ComesBackNot()
    ensures IcmpHeaderTranslatable46(3, 2, [0, 0, 0, 0])
    ensures var h := IcmpHead46([3, 2, 0, 0, 0, 0, 0, 0]); !Siit64Spec.IcmpHeaderTranslatable64(h[0], h[1], h[4..])
    ensures Siit64Spec.IcmpHeaderTranslatable64(1, 0, [0, 0, 0, 1])
    ensures var h := Siit64Spec.IcmpHead64([1, 0, 0, 0, 0, 0, 0, 1]); !IcmpHeaderTranslatable46(h[0], h[1], h[4..])
  {
    var out: seq<byte> := [3, 2, 0, 0, 0, 0, 0, 0];
    assert out[4..] == [0, 0, 0, 0] && [0, 0, 0, 0][..4] == [0, 0, 0, 0];
    OutboundComesBack(out);
    var back: seq<byte> := [1, 0, 0, 0, 0, 0, 0, 1];
    assert back[4..] == back[4..8] == [0, 0, 0, 1];
    InboundComesBack(back);
  }
}
