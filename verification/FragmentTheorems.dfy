/** Translating fragments one by one and reassembling is translating the whole datagram. */
module FragmentTheorems {
  import opened Wrappers
  import opened Bytes
  import opened OnesComplement
  import opened Wire
  import opened Nat66
  import opened Siit46Spec
  import opened Clatxlat
  import opened OutboundTheorems
  import opened Reassembly

  /** The checksum word an outbound packet carries for the one it came with. */
  function OutboundField(t: Translator, src: Address4, field: u16): u16
  {
    Updated(Bumped46(field), PREFIX + src, t.clatV6)
  }

  /** A transport with a pseudo-header whose header is here, or that starts in another fragment; its checksum is not
      missing. */
  predicate Carries(pkt: seq<byte>, m: Meta)
    requires 20 <= m.headerLength <= m.headerLength + m.payloadLength <= |pkt|
  {
    && HasPseudoHeader(m.protocol)
    && (m.fragmentOffset == 0 ==>
          && m.payloadLength >= TransportMinimum(m.protocol)
          && (m.protocol == UDP ==> Word(pkt[m.headerLength..], 6) != 0))
  }

  /** The payload bytes of an outbound packet: those that came, with the checksum repaired where they hold it. */
  function OutboundRest(t: Translator, pkt: seq<byte>, m: Meta): seq<byte>
    requires 20 <= m.headerLength <= m.headerLength + m.payloadLength <= |pkt| && Carries(pkt, m)
  {
    var rest, c := pkt[m.headerLength..], TransportField(m.protocol);
    if m.fragmentOffset == 0 then SetWord(rest, c, OutboundField(t, pkt[12..16], Word(rest, c))) else rest
  }

  /** The outbound packet of a whole datagram or of one fragment. */
  lemma OutboundPacket(t: Translator, pkt: seq<byte>, forbidden: seq<byte> -> bool)
    requires Parse46(pkt, forbidden).Some? && Carries(pkt, Parse46(pkt, forbidden).value)
    ensures var m := Parse46(pkt, forbidden).value;
            t.OutboundV6(pkt, forbidden) ==
                Some(Enclose(pkt, m, m.payloadLength, OutboundRest(t, pkt, m)).(src := t.clatV6))
  {
    hide Parse46, V6.Bytes, Enclose, SetWord, Updated, Bumped46, AddressCoverage;
    var m := Parse46(pkt, forbidden).value;
    var n, rest, c := m.payloadLength, pkt[m.headerLength..], TransportField(m.protocol);
    var r := RepairPayload46(Addresses46(pkt), m, rest).value;
    var q := Enclose(pkt, m, n, r);
    EnclosedCoverage(pkt, m, n, r);
    EncloseAddresses(pkt, m, n, r);
    if m.fragmentOffset == 0 {
      var field := OutboundField(t, pkt[12..16], Word(rest, c));
      EncloseSet(pkt, m, n, r, c, field);
      SetWordTwice(rest, c, Bumped46(Word(rest, c)), field);
    }
    ViewOfBytes6(Rewrite(q, Source, t.clatV6));
    assert Rewrite(q, Source, t.clatV6) == Enclose(pkt, m, n, OutboundRest(t, pkt, m)).(src := t.clatV6);
  }

  /** Setting a word of the payload, seen from behind the fragment header, if there is one. */
  lemma EncloseSet(pkt: seq<byte>, m: Meta, n: u16, rest: seq<byte>, c: nat, w: u16)
    requires |pkt| >= 20 && m.fragmentOffset % 8 == 0 && m.fragmentOffset < 0x1_0000 && n + 8 < 0x1_0000
    requires c + 2 <= |rest|
    ensures var q, at := Enclose(pkt, m, n, rest), m.HeaderRoom() - 40 + c;
            && at + 2 <= |q.rest| && Word(q.rest, at) == Word(rest, c)
            && q.(rest := SetWord(q.rest, at, w)) == Enclose(pkt, m, n, SetWord(rest, c, w))
  {
    hide FragmentHeader, Head6Of, Translated4;
  }

  // Fragments of a datagram

  function Data(pkt: seq<byte>, m: Meta): seq<byte>
    requires m.headerLength + m.payloadLength <= |pkt|
  {
    pkt[m.headerLength..m.headerLength + m.payloadLength]
  }

  function PieceOf4(pkt: seq<byte>, m: Meta): Piece
    requires m.headerLength + m.payloadLength <= |pkt|
  {
    Piece(m.fragmentOffset, m.moreFragments, Data(pkt, m))
  }

  /** A fragmented IPv6 packet as a piece. */
  function PieceOf6(p: V6): Piece
    requires 8 <= p.PayloadLength() <= |p.rest|
  {
    Piece(FragmentOffset6(p.rest, 0), MoreFragments6(p.rest, 0), p.rest[8..p.PayloadLength()])
  }

  /** An unfragmented datagram the theorem is about. */
  predicate IsWhole(w: seq<byte>, forbidden: seq<byte> -> bool) {
    && Parse46(w, forbidden).Some?
    && !Parse46(w, forbidden).value.IsFragmented() && Carries(w, Parse46(w, forbidden).value)
  }

  /** f is a fragment of w; the first fragment holds the full transport header, and no other one starts inside it. */
  predicate IsFragmentOf(f: seq<byte>, w: seq<byte>, forbidden: seq<byte> -> bool)
    requires IsWhole(w, forbidden)
  {
    && Parse46(f, forbidden).Some?
    && var mf, mw := Parse46(f, forbidden).value, Parse46(w, forbidden).value;
       && mf.IsFragmented() && mf.protocol == mw.protocol && f[12..20] == w[12..20]
       && Fits(PieceOf4(f, mf), Data(w, mw))
       && (if mf.fragmentOffset == 0 then mf.payloadLength >= TransportMinimum(mf.protocol)
           else mf.fragmentOffset >= TransportMinimum(mf.protocol))
  }

  /** A fragment of the whole carries what it must to be repaired, between the same addresses. */
  lemma FragmentCarries(w: seq<byte>, f: seq<byte>, forbidden: seq<byte> -> bool)
    requires IsWhole(w, forbidden) && IsFragmentOf(f, w, forbidden)
    ensures var mf, mw := Parse46(f, forbidden).value, Parse46(w, forbidden).value;
            && Carries(f, mf) && f[12..16] == w[12..16] && f[16..20] == w[16..20]
            && mf.fragmentOffset + mf.payloadLength <= mw.payloadLength
  {
    hide Parse46;
    var mf, mw := Parse46(f, forbidden).value, Parse46(w, forbidden).value;
    if mf.fragmentOffset == 0 {
      FirstWords(f, mf, w, mw);
    }
    AddressHalves(f, w);
  }

  /** What one fragment leaves as: the same addresses as the whole, the offset, the flag and the identification carried
      over, and the bytes the whole leaves with at that offset. */
  lemma FragmentCommutes(t: Translator, w: seq<byte>, f: seq<byte>, forbidden: seq<byte> -> bool)
    requires IsWhole(w, forbidden) && IsFragmentOf(f, w, forbidden)
    ensures t.OutboundV6(w, forbidden).Some? && t.OutboundV6(f, forbidden).Some?
    ensures var mf := Parse46(f, forbidden).value;
            var pw, pf := t.OutboundV6(w, forbidden).value, t.OutboundV6(f, forbidden).value;
            && pw.PayloadLength() <= |pw.rest| && 8 <= pf.PayloadLength() <= |pf.rest|
            && pf.src == pw.src && pf.dst == pw.dst
            && pf.NextHeader() == FRAGMENT && pf.rest[0] == pw.NextHeader()
            && Word(pf.rest, 4) == 0 && Word(pf.rest, 6) == Word(f, 4)
            && PieceOf6(pf).offset == mf.fragmentOffset && PieceOf6(pf).more == mf.moreFragments
            && |PieceOf6(pf).data| == mf.payloadLength
            && Fits(PieceOf6(pf), pw.Payload())
  {
    hide Parse46, V6.Bytes, SetWord, Enclose, OutboundRest, Fits, Carries, Translator.OutboundV6, Translated4;
    var mf, mw := Parse46(f, forbidden).value, Parse46(w, forbidden).value;
    FragmentCarries(w, f, forbidden);
    OutboundPacket(t, w, forbidden);
    OutboundPacket(t, f, forbidden);
    var rw, rf := OutboundRest(t, w, mw), OutboundRest(t, f, mf);
    OutboundRestLength(t, w, mw);
    OutboundRestLength(t, f, mf);
    var pw := Enclose(w, mw, mw.payloadLength, rw).(src := t.clatV6);
    var pf := Enclose(f, mf, mf.payloadLength, rf).(src := t.clatV6);
    EncloseFields(w, mw, mw.payloadLength, rw);
    EncloseFragment(f, mf, mf.payloadLength, rf);
    RestOfPieces(t, f, mf, w, mw);
    PieceFits(PieceOf4(f, mf), Data(w, mw), PieceOf6(pf), pw.Payload());
  }

  lemma OutboundRestLength(t: Translator, pkt: seq<byte>, m: Meta)
    requires 20 <= m.headerLength <= m.headerLength + m.payloadLength <= |pkt| && Carries(pkt, m)
    ensures |OutboundRest(t, pkt, m)| == |pkt| - m.headerLength
  {
  }

  /** The fields of a translated fragment. */
  lemma EncloseFragment(pkt: seq<byte>, m: Meta, n: u16, rest: seq<byte>)
    requires |pkt| >= 20 && m.IsFragmented() && m.fragmentOffset % 8 == 0 && m.fragmentOffset < 0x1_0000
    requires n + 8 < 0x1_0000 && n <= |rest|
    ensures var p := Enclose(pkt, m, n, rest);
            && p.src == Translated4(pkt[12..16]) && p.dst == Translated4(pkt[16..20])
            && p.PayloadLength() == n + 8 <= |p.rest| && p.NextHeader() == FRAGMENT
            && p.rest[0] == NextHeaderOf(m.protocol) && Word(p.rest, 4) == 0 && Word(p.rest, 6) == Word(pkt, 4)
            && PieceOf6(p) == Piece(m.fragmentOffset, m.moreFragments, rest[..n])
  {
    hide FragmentHeader, Head6Of, Translated4;
    HeadNext(pkt[1], n + 8, FRAGMENT, pkt[8]);
    FragmentHeaderFields(NextHeaderOf(m.protocol), m.fragmentOffset, m.moreFragments, Word(pkt, 4), rest);
    var p := Enclose(pkt, m, n, rest);
    assert p.rest[8..8 + n] == rest[..n];
  }

  lemma AddressHalves(f: seq<byte>, w: seq<byte>)
    requires |f| >= 20 && |w| >= 20 && f[12..20] == w[12..20]
    ensures f[12..16] == w[12..16] && f[16..20] == w[16..20]
  {
    SliceInside(f, 12, 20, 0, 4);
    SliceInside(w, 12, 20, 0, 4);
    SliceInside(f, 12, 20, 4, 8);
    SliceInside(w, 12, 20, 4, 8);
  }

  /** The checksum words of a first fragment and of the whole are the same. */
  lemma FirstWords(f: seq<byte>, mf: Meta, w: seq<byte>, mw: Meta)
    requires mf.headerLength + mf.payloadLength <= |f| && mw.headerLength + mw.payloadLength <= |w|
    requires Fits(PieceOf4(f, mf), Data(w, mw)) && mf.fragmentOffset == 0
    ensures forall c: nat :: c + 2 <= mf.payloadLength ==>
            Word(f[mf.headerLength..], c) == Word(w[mw.headerLength..], c)
  {
    var d, n := Data(w, mw), mf.payloadLength;
    forall c: nat | c + 2 <= n
      ensures Word(f[mf.headerLength..], c) == Word(w[mw.headerLength..], c)
    {
      assert f[mf.headerLength + c] == Data(f, mf)[c] == d[..n][c] == w[mw.headerLength + c];
      assert f[mf.headerLength + c + 1] == Data(f, mf)[c + 1] == d[..n][c + 1] == w[mw.headerLength + c + 1];
    }
  }

  lemma RestOfPieces(t: Translator, f: seq<byte>, mf: Meta, w: seq<byte>, mw: Meta)
    requires 20 <= mf.headerLength <= mf.headerLength + mf.payloadLength <= |f| && Carries(f, mf)
    requires 20 <= mw.headerLength <= mw.headerLength + mw.payloadLength <= |w| && Carries(w, mw)
             && mw.fragmentOffset == 0
    requires mf.protocol == mw.protocol && f[12..16] == w[12..16] && Fits(PieceOf4(f, mf), Data(w, mw))
    requires if mf.fragmentOffset == 0 then mf.payloadLength >= TransportMinimum(mf.protocol)
             else mf.fragmentOffset >= TransportMinimum(mf.protocol)
    ensures OutboundRest(t, f, mf)[..mf.payloadLength]
         == OutboundRest(t, w, mw)[..mw.payloadLength][mf.fragmentOffset..mf.fragmentOffset + mf.payloadLength]
  {
    hide SetWord, OutboundField;
    var o, n, c, minimum := mf.fragmentOffset, mf.payloadLength, TransportField(mw.protocol),
        TransportMinimum(mw.protocol);
    var restW, restF := w[mw.headerLength..], f[mf.headerLength..];
    var dw, df := Data(w, mw), Data(f, mf);
    SliceOfSlice(w, mw.headerLength, 0, mw.payloadLength);
    SliceOfSlice(f, mf.headerLength, 0, n);
    var x := OutboundField(t, w[12..16], Word(restW, c));
    SetWordPrefix(restW, c, x, mw.payloadLength);
    SetInPiece(dw, c, x, o, n, minimum);
    if o == 0 {
      assert Word(df, c) == Word(dw, c);
      SetWordPrefix(restF, c, x, n);
    }
  }

  /** The length of the whole is kept. */
  lemma OutboundWhole(t: Translator, w: seq<byte>, forbidden: seq<byte> -> bool)
    requires IsWhole(w, forbidden)
    ensures t.OutboundV6(w, forbidden).Some?
    ensures var pw := t.OutboundV6(w, forbidden).value;
            pw.PayloadLength() == Parse46(w, forbidden).value.payloadLength <= |pw.rest|
  {
    hide Parse46, V6.Bytes, SetWord, Enclose, OutboundRest, Carries, Translator.OutboundV6;
    var m := Parse46(w, forbidden).value;
    OutboundPacket(t, w, forbidden);
    OutboundRestLength(t, w, m);
    EncloseFields(w, m, m.payloadLength, OutboundRest(t, w, m));
  }

  function Pieces4(w: seq<byte>, fs: seq<seq<byte>>, forbidden: seq<byte> -> bool): (ps: seq<Piece>)
    requires IsWhole(w, forbidden) && forall i :: 0 <= i < |fs| ==> IsFragmentOf(fs[i], w, forbidden)
    ensures |ps| == |fs|
  {
    seq(|fs|, i requires 0 <= i < |fs| =>
      assert IsFragmentOf(fs[i], w, forbidden);
      PieceOf4(fs[i], Parse46(fs[i], forbidden).value))
  }

  /** A fragment leaves as a fragmented IPv6 packet. */
  predicate LeavesFragmented(t: Translator, f: seq<byte>, forbidden: seq<byte> -> bool) {
    && t.OutboundV6(f, forbidden).Some?
    && var p := t.OutboundV6(f, forbidden).value;
       p.NextHeader() == FRAGMENT && 8 <= p.PayloadLength() <= |p.rest|
  }

  function Pieces6(t: Translator, fs: seq<seq<byte>>, forbidden: seq<byte> -> bool): (ps: seq<Piece>)
    requires forall i :: 0 <= i < |fs| ==> LeavesFragmented(t, fs[i], forbidden)
    ensures |ps| == |fs|
  {
    seq(|fs|, i requires 0 <= i < |fs| =>
      assert LeavesFragmented(t, fs[i], forbidden);
      PieceOf6(t.OutboundV6(fs[i], forbidden).value))
  }

  /** Whatever fragments a datagram arrives in, in whatever order, translating each of them and reassembling gives
      exactly the transport bytes of the translated datagram. */
  lemma ReassemblyCommutes(t: Translator, w: seq<byte>, fs: seq<seq<byte>>, forbidden: seq<byte> -> bool)
    requires IsWhole(w, forbidden) && forall i :: 0 <= i < |fs| ==> IsFragmentOf(fs[i], w, forbidden)
    requires Reassembles(Pieces4(w, fs, forbidden), Data(w, Parse46(w, forbidden).value))
    ensures t.OutboundV6(w, forbidden).Some?
    ensures t.OutboundV6(w, forbidden).value.PayloadLength() <= |t.OutboundV6(w, forbidden).value.rest|
    ensures forall i :: 0 <= i < |fs| ==> LeavesFragmented(t, fs[i], forbidden)
    ensures Reassembles(Pieces6(t, fs, forbidden), t.OutboundV6(w, forbidden).value.Payload())
  {
    hide Parse46, Fits, Carries, Translator.OutboundV6;
    OutboundWhole(t, w, forbidden);
    var d, d' := Data(w, Parse46(w, forbidden).value), t.OutboundV6(w, forbidden).value.Payload();
    var ps := Pieces4(w, fs, forbidden);
    forall i | 0 <= i < |fs|
      ensures LeavesFragmented(t, fs[i], forbidden)
      ensures var p' := PieceOf6(t.OutboundV6(fs[i], forbidden).value);
              Fits(p', d') && p'.offset == ps[i].offset && |p'.data| == |ps[i].data|
    {
      FragmentCommutes(t, w, fs[i], forbidden);
      assert LeavesFragmented(t, fs[i], forbidden);
    }
    SameCover(ps, d, Pieces6(t, fs, forbidden), d');
  }

  /** Fragments of one datagram leave from the same source exactly if the first one has the whole transport header,
      or the CLAT address is the mapped source anyway: what is cut up more finely does not meet again. */
  lemma FragmentsMeet(t: Translator, first: seq<byte>, other: seq<byte>, forbidden: seq<byte> -> bool)
    requires Parse46(first, forbidden).Some? && t.OutboundV6(first, forbidden).Some?
    requires Parse46(other, forbidden).Some? && t.OutboundV6(other, forbidden).Some?
    requires first[12..16] == other[12..16] && Parse46(other, forbidden).value.fragmentOffset != 0
    ensures t.OutboundV6(first, forbidden).value.src == t.OutboundV6(other, forbidden).value.src <==>
            TransportWhole(first, Parse46(first, forbidden).value) || t.clatV6 == PREFIX + first[12..16]
  {
    hide Parse46, Translator.OutboundV6;
    OutboundSource(t, first, forbidden);
    OutboundSource(t, other, forbidden);
  }
}
