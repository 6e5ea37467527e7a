/** Translating IPv6 fragments one by one and reassembling is translating the whole packet. */
module InboundFragments {
  import opened Wrappers
  import opened Bytes
  import opened OnesComplement
  import opened Wire
  import opened Siit64Spec
  import opened InboundHeaders
  import opened InboundTheorems
  import opened Clatxlat
  import opened Reassembly

  function Data(p: V6, m: Meta): (d: seq<byte>)
    requires Parses(p, m)
    ensures |d| == m.payloadLength
  {
    Tail(p, m)[..m.payloadLength]
  }

  predicate More(p: V6, m: Meta)
    requires Parses(p, m)
  {
    m.IsFragment(p.Bytes()) && MoreFragments6(p.Bytes(), m.walked.fragment.value)
  }

  function PieceOf6(p: V6, m: Meta): Piece
    requires Parses(p, m)
  {
    Piece(DatagramOffset(p.Bytes(), m), More(p, m), Data(p, m))
  }

  /** An IPv4 packet with a payload of n bytes as a piece. */
  function PieceOf4(q: V4, n: nat): Piece
    requires n <= |q.rest|
  {
    Piece(FragmentOffset4(q.head), MoreFragments4(q.head), q.rest[..n])
  }

  /** A packet the theorem is about: not ICMP, and with the whole transport header if NAT66 is to see it. */
  predicate IsWhole(w: V6, m: Meta) {
    && Parses(w, m) && !m.IsFragment(w.Bytes()) && m.walked.next != ICMPV6
    && (HasPseudoHeader(m.walked.next) && Seen(w, m) ==> m.payloadLength >= TransportMinimum(m.walked.next))
  }

  /** f is a fragment of w: between the same addresses, of the same protocol, and with bytes of w where it lies.
      Where NAT66 sees the transport header, the fragment header comes first, the first fragment holds the full
      transport header, and no other one starts inside it; where it does not, other headers come first in both. */
  predicate IsFragmentOf(f: V6, mf: Meta, w: V6, m: Meta)
    requires IsWhole(w, m)
  {
    && Parses(f, mf) && mf.IsFragment(f.Bytes()) && mf.walked.next == m.walked.next && f.src == w.src && f.dst == w.dst
    && Fits(PieceOf6(f, mf), Data(w, m))
    && (HasPseudoHeader(m.walked.next) ==>
          if Seen(w, m) then
            && f.NextHeader() == FRAGMENT
            && (if DatagramOffset(f.Bytes(), mf) == 0 then mf.payloadLength >= TransportMinimum(m.walked.next)
                else DatagramOffset(f.Bytes(), mf) >= TransportMinimum(m.walked.next))
          else f.NextHeader() != FRAGMENT)
  }

  /** NAT66 sees the transport header of a fragment whose fragment header comes first exactly if it is the first
      fragment. */
  lemma SeenInFragment(f: V6, mf: Meta)
    requires Parses(f, mf) && mf.IsFragment(f.Bytes())
    ensures Seen(f, mf) <==> f.NextHeader() == FRAGMENT && DatagramOffset(f.Bytes(), mf) == 0
  {
    hide V6.Bytes;
    var s := f.Bytes();
    BytesOf(f);
    WalkedFirst(s[..40 + Word(s, 4)], s[6]);
    if f.NextHeader() == FRAGMENT {
      assert s[42] == s[40..][2] && s[43] == s[40..][3];
    }
  }

  /** What a whole packet and a fragment of it have as payload when NAT66 is done with them. */
  lemma RepairedPieces(w: V6, m: Meta, f: V6, mf: Meta, to: Address6)
    requires IsWhole(w, m) && IsFragmentOf(f, mf, w, m)
    ensures !CutOff(w, m) && !CutOff(f, mf)
    ensures |Repaired66(w, m, to)| == |Tail(w, m)| && |Repaired66(f, mf, to)| == |Tail(f, mf)|
    ensures var o, n := DatagramOffset(f.Bytes(), mf), mf.payloadLength;
            Repaired66(f, mf, to)[..n] == Repaired66(w, m, to)[..m.payloadLength][o..o + n]
  {
    hide V6.Bytes, SetWord, Updated, Headers64, Seen, DatagramOffset, Meta.IsFragment, More;
    SeenInFragment(f, mf);
    if HasPseudoHeader(m.walked.next) && Seen(w, m) {
      var o, n, c := DatagramOffset(f.Bytes(), mf), mf.payloadLength, TransportField(m.walked.next);
      var u := Updated(Word(Tail(w, m), c), w.dst, to);
      SetWordPrefix(Tail(w, m), c, u, m.payloadLength);
      SetInPiece(Data(w, m), c, u, o, n, TransportMinimum(m.walked.next));
      if o == 0 {
        assert Word(Data(f, mf), c) == Word(Data(w, m), c);
        SetWordPrefix(Tail(f, mf), c, u, n);
      }
    }
  }

  /** The parts of a packet that arrives with its checksum repaired where it is due. */
  lemma Arrival(t: Translator, p: V6, m: Meta, freshId: u16) returns (q: V4)
    requires Parses(p, m) && m.walked.next != ICMPV6 && !CutOff(p, m)
    ensures t.InboundV4(p, freshId) == Some(q) && q.src == p.src[12..] && q.dst == t.placeholder
    ensures q.HeaderOk() && q.Protocol() == m.walked.next && q.rest == Repaired66(p, m, t.PlaceholderV6())
    ensures Word(q.head, 6) == FragmentWord(p.Bytes(), m) && Word(q.head, 4) == Identification(p.Bytes(), m, freshId)
  {
    hide Headers64, Checksum, SealedHead4, V6.Bytes, CutOff, Repaired66, FragmentWord, Identification, Word;
    InboundPacket(t, p, m, freshId);
    hide Translator.InboundV4;
    q := t.InboundV4(p, freshId).value;
    SealedHasHead(p.Tos(), Add16(20, m.payloadLength), Identification(p.Bytes(), m, freshId),
                  FragmentWord(p.Bytes(), m), p.HopLimit(), ProtocolOf(m.walked.next), q.src, q.dst, q.rest);
  }

  /** What one fragment arrives as: between the same addresses as the whole, with the offset, the flag and the low
      half of the identification carried over, and the bytes the whole arrives with at that offset. */
  lemma FragmentArrives(t: Translator, w: V6, m: Meta, f: V6, mf: Meta, freshId: u16) returns (qw: V4, qf: V4)
    requires IsWhole(w, m) && IsFragmentOf(f, mf, w, m)
    ensures t.InboundV4(w, freshId) == Some(qw) && t.InboundV4(f, freshId) == Some(qf)
    ensures qw.src == qf.src == w.src[12..] && qw.dst == qf.dst == t.placeholder
            && qw.Protocol() == qf.Protocol() == m.walked.next
    ensures qw.HeaderOk() && qf.HeaderOk() && Word(qf.head, 4) == Word(f.Bytes(), mf.walked.fragment.value + 6)
    ensures m.payloadLength <= |qw.rest| && mf.payloadLength <= |qf.rest|
    ensures var p, p' := PieceOf6(f, mf), PieceOf4(qf, mf.payloadLength);
            p'.offset == p.offset && p'.more == p.more && |p'.data| == |p.data| && Fits(p', qw.rest[..m.payloadLength])
  {
    hide V6.Bytes, Headers64, Seen, CutOff, Repaired66, Fits, Checksum, HasPseudoHeader, FragmentOffset4,
      MoreFragments4, Word, FragmentOffset6, MoreFragments6, More, Meta.IsFragment, DatagramOffset, FragmentWord,
      Identification, Translator.InboundV4;
    RepairedPieces(w, m, f, mf, t.PlaceholderV6());
    qw := Arrival(t, w, m, freshId);
    qf := Arrival(t, f, mf, freshId);
    FragmentWordMeans(f, mf, qf, freshId);
    PieceFits(PieceOf6(f, mf), Data(w, m), PieceOf4(qf, mf.payloadLength), qw.rest[..m.payloadLength]);
  }

  /** The flags and offset word says where the fragment lies. */
  lemma FragmentWordMeans(f: V6, mf: Meta, q: V4, freshId: u16)
    requires Parses(f, mf) && mf.IsFragment(f.Bytes()) && Word(q.head, 6) == FragmentWord(f.Bytes(), mf)
    ensures Identification(f.Bytes(), mf, freshId) == Word(f.Bytes(), mf.walked.fragment.value + 6)
    ensures FragmentOffset4(q.head) == DatagramOffset(f.Bytes(), mf) && MoreFragments4(q.head) == More(f, mf)
  {
    hide Headers64, V6.Bytes, FragmentOffset6, MoreFragments6, Word;
    var at := mf.walked.fragment.value;
    FlagsAndOffset(FragmentOffset6(f.Bytes(), at), MoreFragments6(f.Bytes(), at), Word(q.head, 6));
  }

  lemma FlagsAndOffset(offset: nat, more: bool, word: u16)
    requires offset % 8 == 0 && offset < 0x1_0000 && word == (if more then 0x2000 else 0) + offset / 8
    ensures word % 8192 * 8 == offset && (word / 8192 % 2 == 1 <==> more)
  {
  }

  function MetaOf(p: V6): Meta
    requires Headers64(p.Bytes()).Some?
  {
    Headers64(p.Bytes()).value
  }

  predicate IsFragmentIn(f: V6, w: V6, m: Meta)
    requires IsWhole(w, m)
  {
    Headers64(f.Bytes()).Some? && IsFragmentOf(f, MetaOf(f), w, m)
  }

  function Pieces6(fs: seq<V6>, w: V6, m: Meta): (ps: seq<Piece>)
    requires IsWhole(w, m) && forall i :: 0 <= i < |fs| ==> IsFragmentIn(fs[i], w, m)
    ensures |ps| == |fs|
  {
    seq(|fs|, i requires 0 <= i < |fs| =>
      assert IsFragmentIn(fs[i], w, m);
      PieceOf6(fs[i], MetaOf(fs[i])))
  }

  /** The fragment arrives with its payload. */
  predicate Arrives(t: Translator, f: V6, freshId: u16) {
    && Headers64(f.Bytes()).Some? && t.InboundV4(f, freshId).Some?
    && MetaOf(f).payloadLength <= |t.InboundV4(f, freshId).value.rest|
  }

  function Pieces4(t: Translator, fs: seq<V6>, freshId: u16): (ps: seq<Piece>)
    requires forall i :: 0 <= i < |fs| ==> Arrives(t, fs[i], freshId)
    ensures |ps| == |fs|
  {
    seq(|fs|, i requires 0 <= i < |fs| =>
      assert Arrives(t, fs[i], freshId);
      PieceOf4(t.InboundV4(fs[i], freshId).value, MetaOf(fs[i]).payloadLength))
  }

  /** Whatever fragments a packet arrives in, in whatever order and however they overlap, translating each of them
      and reassembling gives exactly the transport bytes of the translated packet. */
  lemma ReassemblyArrives(t: Translator, w: V6, m: Meta, fs: seq<V6>, freshId: u16) returns (q: V4)
    requires IsWhole(w, m) && forall i :: 0 <= i < |fs| ==> IsFragmentIn(fs[i], w, m)
    requires Reassembles(Pieces6(fs, w, m), Data(w, m))
    ensures t.InboundV4(w, freshId) == Some(q) && m.payloadLength <= |q.rest|
    ensures forall i :: 0 <= i < |fs| ==> Arrives(t, fs[i], freshId)
    ensures Reassembles(Pieces4(t, fs, freshId), q.rest[..m.payloadLength])
  {
    hide Headers64, IsFragmentOf, Fits, Translator.InboundV4, Reassembles, HasPseudoHeader, Seen, V6.Bytes, Repaired66;
    InboundPacket(t, w, m, freshId);
    RepairedLength(w, m, t.PlaceholderV6());
    q := t.InboundV4(w, freshId).value;
    var ps := Pieces6(fs, w, m);
    forall i | 0 <= i < |fs|
      ensures Arrives(t, fs[i], freshId)
      ensures var p' := PieceOf4(t.InboundV4(fs[i], freshId).value, MetaOf(fs[i]).payloadLength);
              Fits(p', q.rest[..m.payloadLength]) && p'.offset == ps[i].offset && |p'.data| == |ps[i].data|
    {
      assert IsFragmentIn(fs[i], w, m);
      var qw, qf := FragmentArrives(t, w, m, fs[i], MetaOf(fs[i]), freshId);
    }
    SameCover(ps, Data(w, m), Pieces4(t, fs, freshId), q.rest[..m.payloadLength]);
  }

  /** Fragments of one packet arrive at the same destination exactly if NAT66 finds the checksum in the first one,
      or the last four bytes of the CLAT address are the placeholder anyway. */
  lemma FragmentsMeet(t: Translator, first: V6, mf: Meta, other: V6, mo: Meta, freshId: u16)
    requires Parses(first, mf) && Parses(other, mo) && mf.walked.next != ICMPV6 && mo.walked.next != ICMPV6
    requires first.dst == other.dst && mo.IsFragment(other.Bytes()) && DatagramOffset(other.Bytes(), mo) != 0
    ensures t.InboundV4(first, freshId).Some? && t.InboundV4(other, freshId).Some?
    ensures t.InboundV4(first, freshId).value.dst == t.InboundV4(other, freshId).value.dst <==>
            !CutOff(first, mf) || first.dst[12..] == t.placeholder
  {
    hide V6.Bytes, Headers64, Repaired66, DatagramOffset, Meta.IsFragment, Checked;
    SeenInFragment(other, mo);
    hide Seen;
    InboundPacket(t, first, mf, freshId);
    InboundPacket(t, other, mo, freshId);
  }
}
