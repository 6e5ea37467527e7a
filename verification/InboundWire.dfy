/** Packets on their way in, byte by byte: which of them reach the client, and as what. Everything here is said of the
    bytes and of the chain of extension headers they spell, with the numbers of the protocols written out. */
module InboundWire {
  import opened Wrappers
  import opened Bytes
  import opened OnesComplement
  import opened Wire
  import opened Nat66
  import opened Nat66Theorems
  import opened Siit64Spec
  import opened WalkTheorems
  import opened InboundHeaders
  import opened InboundTheorems
  import opened Clatxlat
  import opened OutboundTheorems
  import opened QuoteTheorems
  import OutboundWire

  // What is in the bytes

  /** The length the fixed header declares for everything behind it. */
  function Length(p: V6): nat
  {
    p.head[4] as int * 256 + p.head[5]
  }

  /** The chain ends in a fragment header. */
  predicate HasFragment(hs: seq<Extension>) {
    hs != [] && hs[|hs| - 1].kind == 44 && |hs[|hs| - 1].body| == 6
  }

  /** Its more-fragments flag. */
  predicate More(hs: seq<Extension>) {
    HasFragment(hs) && hs[|hs| - 1].body[1] % 2 == 1
  }

  /** Its offset in bytes. */
  function Offset(hs: seq<Extension>): nat
  {
    if HasFragment(hs) then hs[|hs| - 1].body[0] as int * 256 + hs[|hs| - 1].body[1] / 8 * 8 else 0
  }

  /** The packet comes as one of several. */
  predicate IsPart(hs: seq<Extension>) {
    More(hs) || Offset(hs) != 0
  }

  /** The packet consists of the fixed header, the extension headers hs, and a payload of protocol next; a fragment
      that is not the last is made of whole 8-byte units. */
  predicate Spelled(p: V6, hs: seq<Extension>, next: byte) {
    && p.head[0] / 16 == 6 && Chain(hs) && !Refused(next) && First(hs, next) == p.head[6]
    && |ChainBytes(hs, next)| <= Length(p) <= |p.rest| && p.rest[..|ChainBytes(hs, next)|] == ChainBytes(hs, next)
    && (More(hs) ==> (Length(p) - |ChainBytes(hs, next)|) % 8 == 0)
  }

  /** Where the fragment header of a chain stands: at its end. */
  lemma {:induction false} FragmentLast(hs: seq<Extension>, next: byte, off: nat)
    requires Chain(hs)
    ensures FragmentAt(hs, off).Some? <==> HasFragment(hs)
    ensures FragmentAt(hs, off).Some? ==>
              var c := ChainBytes(hs, next);
              && |c| >= 8 && FragmentAt(hs, off) == Some(off + |c| - 8) && c[|c| - 8..] == [next, 0] + hs[|hs| - 1].body
  {
    if hs != [] {
      var tail, n := hs[1..], 2 + |hs[0].body|;
      var c := ChainBytes(hs, next);
      if hs[0].kind == 44 {
        assert tail == [] && ChainBytes(tail, next) == [];
        assert c == hs[0].Bytes(next);
      } else {
        FragmentLast(tail, next, off + n);
        assert tail != [] ==> tail[|tail| - 1] == hs[|hs| - 1];
        if FragmentAt(tail, off + n).Some? {
          var r := ChainBytes(tail, next);
          assert c[|c| - 8..] == r[|r| - 8..];
        }
      }
    }
  }

  // Which headers parse

  /** What the bytes of the packet say where SIIT64 reads them. */
  lemma ChainSlice(p: V6, k: nat)
    requires k <= Length(p) <= |p.rest|
    ensures Word(p.Bytes(), 4) == Length(p) && |p.Bytes()| == 40 + |p.rest| && p.Bytes()[6] == p.head[6]
    ensures Version(p.Bytes()) == p.head[0] / 16
    ensures p.Bytes()[..40 + Length(p)][40..40 + k] == p.rest[..k]
  {
    hide V6.Bytes;
    BytesOf(p);
    var s := p.Bytes();
    SliceInside(s, 0, 40 + Length(p), 40, 40 + k);
    SliceOfSlice(s, 40, 0, k);
  }

  /** The fields of the fragment header at the end of a chain. */
  lemma FragmentFields(p: V6, hs: seq<Extension>, next: byte)
    requires Chain(hs) && |ChainBytes(hs, next)| <= |p.rest| && p.rest[..|ChainBytes(hs, next)|] == ChainBytes(hs, next)
    requires HasFragment(hs) && |ChainBytes(hs, next)| >= 8
    requires var c := ChainBytes(hs, next); c[|c| - 8..] == [next, 0] + hs[|hs| - 1].body
    ensures var f, s, body := 32 + |ChainBytes(hs, next)|, p.Bytes(), hs[|hs| - 1].body;
            && |s| >= f + 8 && (MoreFragments6(s, f) <==> body[1] % 2 == 1)
            && FragmentOffset6(s, f) == body[0] as int * 256 + body[1] / 8 * 8 && Word(s, f + 6) == Word(body, 4)
  {
    hide V6.Bytes, Chain, ChainBytes, MoreFragments6, FragmentOffset6;
    BytesOf(p);
    var c := ChainBytes(hs, next);
    LastHeader(p.Bytes(), p.rest, c, next, hs[|hs| - 1].body);
  }

  lemma LastHeader(s: seq<byte>, rest: seq<byte>, c: seq<byte>, next: byte, body: seq<byte>)
    requires 8 <= |c| <= |rest| && rest[..|c|] == c && |s| == 40 + |rest| && s[40..] == rest
    requires |body| == 6 && c[|c| - 8..] == [next, 0] + body
    ensures var f := 32 + |c|;
            && (MoreFragments6(s, f) <==> body[1] % 2 == 1)
            && FragmentOffset6(s, f) == body[0] as int * 256 + body[1] / 8 * 8 && Word(s, f + 6) == Word(body, 4)
  {
    var f := 32 + |c|;
    forall i | 0 <= i < 6
      ensures s[f + 2 + i] == body[i]
    {
      assert s[f + 2 + i] == rest[|c| - 6 + i] == rest[..|c|][|c| - 6 + i];
      assert c[|c| - 6 + i] == c[|c| - 8..][2 + i];
    }
    assert s[f + 2 + 0] == body[0] && s[f + 2 + 1] == body[1] && s[f + 2 + 4] == body[4] && s[f + 2 + 5] == body[5];
  }

  /** What m says about a packet that consists of the headers hs and a payload. */
  predicate Means(p: V6, hs: seq<Extension>, next: byte, m: Meta)
    requires Chain(hs)
    requires m.walked.fragment.Some? ==> m.walked.fragment.value + 8 <= |p.Bytes()|
  {
    && m.walked.next == next && m.walked.offset == 40 + |ChainBytes(hs, next)|
    && m.payloadLength == Length(p) - |ChainBytes(hs, next)|
    && (m.IsFragment(p.Bytes()) <==> IsPart(hs)) && DatagramOffset(p.Bytes(), m) == Offset(hs)
    && FragmentWord(p.Bytes(), m) == (if More(hs) then 0x2000 else 0) + Offset(hs) / 8
    && (IsPart(hs) ==>
          m.walked.fragment.Some? && Word(p.Bytes(), m.walked.fragment.value + 6) == Word(hs[|hs| - 1].body, 4))
  }

  /** Whatever is made of well-formed headers parses. */
  lemma SpelledParses(p: V6, hs: seq<Extension>, next: byte) returns (m: Meta)
    requires Spelled(p, hs, next)
    ensures Parses(p, m) && Means(p, hs, next, m)
  {
    hide V6.Bytes, Walk, Chain, ChainBytes, FragmentAt, First, Extension.WellFormed, Refused;
    var k := |ChainBytes(hs, next)|;
    ChainSlice(p, k);
    var s := p.Bytes();
    var c := s[..40 + Length(p)];
    WalkComplete(c, 40, hs, next);
    FragmentLast(hs, next, 40);
    m := Meta(Walked(FragmentAt(hs, 40), next, 40 + k), Length(p) - k);
    if FragmentAt(hs, 40).Some? {
      FragmentFields(p, hs, next);
    }
  }

  /** Whatever parses is made of well-formed headers. */
  lemma ParsesSpelled(p: V6, m: Meta) returns (hs: seq<Extension>)
    requires Parses(p, m)
    ensures Spelled(p, hs, m.walked.next)
  {
    hide V6.Bytes, Walk, Chain, ChainBytes, FragmentAt, First, Extension.WellFormed, Refused;
    var s, next := p.Bytes(), m.walked.next;
    BytesOf(p);
    hs := WalkSound(s[..40 + Word(s, 4)], s[6], 40);
    var k := |ChainBytes(hs, next)|;
    ChainSlice(p, k);
    FragmentLast(hs, next, 40);
    if FragmentAt(hs, 40).Some? {
      FragmentFields(p, hs, next);
    }
  }

  // What arrives

  /** The transport header is one NAT66 sees: it directly follows the fixed header, or is behind nothing but the
      fragment header of a first fragment. */
  predicate Visible(hs: seq<Extension>) {
    hs == [] || (|hs| == 1 && HasFragment(hs) && Offset(hs) == 0)
  }

  /** NAT66 sees a transport header that ends early although a checksum is due in it. */
  predicate EndsEarly(p: V6, hs: seq<Extension>, next: byte)
    requires Spelled(p, hs, next)
  {
    && Visible(hs) && Summed(next) && |p.rest| - |ChainBytes(hs, next)| < HeaderSize(next)
  }

  /** The i-th payload byte belongs to the checksum of a transport of this protocol. */
  predicate ChecksumByte(next: byte, i: int) {
    (next == 6 && i in {16, 17}) || (next in {17, 33} && i in {6, 7})
  }

  /** The identification of a fragment, or else a fresh one. */
  function IdBytes(hs: seq<Extension>, freshId: u16): seq<int>
  {
    if IsPart(hs) then hs[|hs| - 1].body[4..] else [freshId / 256, freshId % 256]
  }

  /** The header of what arrives, up to its checksum: no options, the traffic class, a total length that wraps at 16
      bits, the identification, the fragment flag and offset, the hop limit, the protocol. */
  function HeadBytes(p: V6, hs: seq<Extension>, n: nat, protocol: byte, freshId: u16): seq<int>
  {
    [0x45, p.head[0] % 16 * 16 + p.head[1] / 16, (20 + n) % 0x1_0000 / 256, (20 + n) % 256]
    + IdBytes(hs, freshId)
    + [(if More(hs) then 32 else 0) + Offset(hs) / 2048, Offset(hs) / 8 % 256, p.head[7], protocol]
  }

  lemma HeadOf(q: V4, p: V6, hs: seq<Extension>, next: byte, m: Meta, protocol: byte, freshId: u16)
    requires Chain(hs) && (m.walked.fragment.Some? ==> m.walked.fragment.value + 8 <= |p.Bytes()|)
    requires Means(p, hs, next, m)
    requires HasHead(q, p.Tos(), Add16(20, m.payloadLength), Identification(p.Bytes(), m, freshId),
               FragmentWord(p.Bytes(), m), p.HopLimit(), protocol)
    ensures q.head[..10] == HeadBytes(p, hs, m.payloadLength, protocol, freshId)
    ensures WordSum(q.head + q.src + q.dst) % 65535 == 0
  {
    hide V6.Bytes, Chain, ChainBytes, Checksum, WordSum, FragmentWord, Identification, More, Offset, Meta.IsFragment,
      DatagramOffset;
    ChecksumCanonical(q.head + q.src + q.dst);
    var id := Identification(p.Bytes(), m, freshId);
    FieldBytes(q.head, id);
    LowByte(20 + m.payloadLength);
    IdentificationIs(p, hs, next, m, freshId);
    FragmentWordIs(p, hs, next, m);
  }

  lemma LowByte(n: nat)
    ensures n % 0x1_0000 % 256 == n % 256
  {
  }

  lemma IdentificationIs(p: V6, hs: seq<Extension>, next: byte, m: Meta, freshId: u16)
    requires Chain(hs) && (m.walked.fragment.Some? ==> m.walked.fragment.value + 8 <= |p.Bytes()|)
    requires Means(p, hs, next, m)
    ensures var id := Identification(p.Bytes(), m, freshId); IdBytes(hs, freshId) == [id / 256, id % 256]
  {
    hide V6.Bytes, Chain, ChainBytes, MoreFragments6, FragmentOffset6;
    if IsPart(hs) {
      assert HasFragment(hs);
      var b := hs[|hs| - 1].body;
      assert b[4..] == [b[4], b[5]];
    }
  }

  lemma FragmentWordIs(p: V6, hs: seq<Extension>, next: byte, m: Meta)
    requires Chain(hs) && (m.walked.fragment.Some? ==> m.walked.fragment.value + 8 <= |p.Bytes()|)
    requires Means(p, hs, next, m)
    ensures var w := FragmentWord(p.Bytes(), m);
            w / 256 == (if More(hs) then 32 else 0) + Offset(hs) / 2048 && w % 256 == Offset(hs) / 8 % 256
  {
    hide V6.Bytes, Chain, ChainBytes, FragmentWord, Meta.IsFragment, DatagramOffset, Identification;
  }

  /** The first ten bytes of a header, by its fields. */
  lemma FieldBytes(h: Head4, id: u16)
    requires Word(h, 4) == id
    ensures h[..10] == [h[0], h[1], Word(h, 2) / 256, Word(h, 2) % 256] + [id / 256, id % 256]
                       + [Word(h, 6) / 256, Word(h, 6) % 256, h[8], h[9]]
  {
  }

  /** What NAT66 sees of it. */
  lemma SeenIs(p: V6, hs: seq<Extension>, next: byte, m: Meta)
    requires Spelled(p, hs, next) && Parses(p, m) && Means(p, hs, next, m)
    ensures Seen(p, m) <==> Visible(hs)
    ensures Tail(p, m) == p.rest[|ChainBytes(hs, next)|..]
  {
    if hs != [] {
      var tail := hs[1..];
      assert ChainBytes(hs, next) == hs[0].Bytes(First(tail, next)) + ChainBytes(tail, next);
      if hs[0].kind == 44 {
        assert |hs| == 1;
        FirstHeaderBytes(p.rest, hs[0], next);
      }
    }
  }

  lemma FirstHeaderBytes(rest: seq<byte>, h: Extension, next: byte)
    requires h.WellFormed() && h.kind == 44 && |rest| >= 8 && rest[..8] == h.Bytes(next)
    ensures FragmentOffset6(rest, 0) == h.body[0] as int * 256 + h.body[1] / 8 * 8
  {
    assert rest[2] == rest[..8][2] && rest[3] == rest[..8][3];
  }

  /** What the packet that parses as m, with headers hs, reaches the client as. */
  lemma ArrivesBy(t: Translator, p: V6, hs: seq<Extension>, next: byte, freshId: u16) returns (m: Meta, q: V4)
    requires Spelled(p, hs, next) && next != 58
    ensures Parses(p, m) && Means(p, hs, next, m) && t.InboundV4(p, freshId) == Some(q)
    ensures q.head[..10] == HeadBytes(p, hs, m.payloadLength, next, freshId)
    ensures WordSum(q.head + q.src + q.dst) % 65535 == 0
    ensures q.src == p.src[12..] && q.dst == if CutOff(p, m) then p.dst[12..] else t.placeholder
    ensures q.rest == Repaired66(p, m, t.PlaceholderV6())
  {
    hide V6.Bytes, Chain, ChainBytes, HeadBytes, HasHead, SealedHead4, Repaired66, WordSum, CutOff,
      Translator.InboundV4,
      FragmentWord, Identification, DatagramOffset, Meta.IsFragment;
    m := SpelledParses(p, hs, next);
    InboundPacket(t, p, m, freshId);
    q := t.InboundV4(p, freshId).value;
    SealedHasHead(p.Tos(), Add16(20, m.payloadLength), Identification(p.Bytes(), m, freshId),
        FragmentWord(p.Bytes(), m), p.HopLimit(), next, q.src, q.dst, q.rest);
    HeadOf(q, p, hs, next, m, next, freshId);
  }

  /** What a packet that is not ICMPv6 reaches the client as: behind an IPv4 header with a valid checksum; from the
      last four bytes of its source; to the placeholder, or the last four bytes of its destination if it ends early;
      and with every payload byte but those of a checksum that NAT66 sees. */
  lemma ArrivesAs(t: Translator, p: V6, hs: seq<Extension>, next: byte, freshId: u16) returns (q: V4)
    requires Spelled(p, hs, next) && next != 58
    ensures t.InboundV4(p, freshId) == Some(q)
    ensures q.head[..10] == HeadBytes(p, hs, Length(p) - |ChainBytes(hs, next)|, next, freshId)
    ensures WordSum(q.head + q.src + q.dst) % 65535 == 0
    ensures q.src == p.src[12..] && q.dst == if EndsEarly(p, hs, next) then p.dst[12..] else t.placeholder
    ensures var k := |ChainBytes(hs, next)|;
            && |q.rest| == |p.rest| - k
            && forall i :: 0 <= i < |p.rest| - k && !(Visible(hs) && ChecksumByte(next, i)) ==>
                  q.rest[i] == p.rest[k + i]
    ensures Visible(hs) && next in {6, 17, 33} && !EndsEarly(p, hs, next) ==>
              var c := if next == 6 then 16 else 6;
              && c + 2 <= |q.rest| && Word(q.rest, c) != 65535
              && (Word(q.rest, c) - (Word(p.rest, |ChainBytes(hs, next)| + c) + WordSum(p.dst)
                  - WordSum(t.placeholder))) % 65535 == 0
  {
    hide V6.Bytes, Chain, ChainBytes, HeadBytes, WordSum, Translator.InboundV4, Parses, Seen, SetWord, Updated, Visible;
    var m;
    m, q := ArrivesBy(t, p, hs, next, freshId);
    SeenIs(p, hs, next, m);
    var tail, to := Tail(p, m), t.PlaceholderV6();
    if Visible(hs) && Summed(next) && !EndsEarly(p, hs, next) {
      var c := ChecksumAt(next);
      UpdatedCongruent(Word(tail, c), p.dst, to);
      UpdatedSaturates(Word(tail, c), p.dst, to);
      TranslatedSum(t.placeholder);
      PlaceholderMoves(Word(q.rest, c), Word(tail, c), WordSum(p.dst), WordSum(to), WordSum(t.placeholder));
    }
  }

  lemma PlaceholderMoves(w: int, field: int, dst: int, to: int, placeholder: int)
    requires (w - (field + dst - to)) % 65535 == 0 && to == 65535 + placeholder
    ensures (w - (field + dst - placeholder)) % 65535 == 0
  {
    assert w - (field + dst - placeholder) == w - (field + dst - to) - 65535;
  }

  // ICMPv6

  /** The types and codes that have a counterpart, with the fields that have to be zero. */
  predicate CodeArrives(t: seq<byte>)
    requires |t| >= 8
  {
    || (t[0] in {128, 129} && t[1] == 0)
    || (t[0] == 1 && t[1] <= 4)
    || (t[0] == 2 && t[1] == 0 && t[4] == t[5] == 0)
    || (t[0] == 3 && t[1] <= 1)
    || (t[0] == 4 && t[1] == 0 && t[4] == t[5] == t[6] == 0 && (t[7] <= 1 || 4 <= t[7] <= 39))
    || (t[0] == 4 && t[1] == 1 && t[4] == t[5] == t[6] == t[7] == 0)
  }

  /** The type and code an ICMPv6 message arrives with. */
  function TypeIn(t: seq<byte>): (int, int)
    requires |t| >= 8
  {
    if t[0] == 128 then (8, 0)
    else if t[0] == 129 then (0, 0)
    else if t[0] == 1 && t[1] == 1 then (3, 10) // administratively prohibited
    else if t[0] == 1 && t[1] == 4 then (3, 3)  // port unreachable
    else if t[0] == 1 then (3, 1)               // host unreachable
    else if t[0] == 2 then (3, 4)               // fragmentation needed
    else if t[0] == 3 then (11, t[1])
    else if t[1] == 0 then (12, 0)
    else (3, 2)                                 // unrecognized next header: protocol unreachable
  }

  /** The IPv4 header field for the IPv6 header field a Parameter Problem points to. */
  function PointerIn(pointer: byte): int
    requires pointer <= 1 || 4 <= pointer <= 39
  {
    if pointer <= 1 then pointer
    else if pointer <= 5 then 2
    else if pointer == 6 then 9
    else if pointer == 7 then 8
    else if pointer <= 23 then 12
    else 16
  }

  /** The MTU a Packet Too Big arrives with: 20 bytes less, but from 68 to 1400. */
  function MtuIn(mtu: int): int
  {
    if mtu < 88 then 68 else if mtu > 1420 then 1400 else mtu - 20
  }

  /** The last four bytes of the ICMPv4 header. */
  function WordIn(t: seq<byte>): seq<int>
    requires |t| >= 8 && CodeArrives(t)
  {
    if t[0] == 2 then [0, 0, MtuIn(t[6] as int * 256 + t[7]) / 256, MtuIn(t[6] as int * 256 + t[7]) % 256]
    else if t[0] == 4 && t[1] == 0 then [PointerIn(t[7]), 0, 0, 0]
    else [t[4], t[5], t[6], t[7]]
  }

  lemma CodeBytes(t: seq<byte>)
    requires |t| >= 8
    ensures IcmpHeaderTranslatable64(t[0], t[1], t[4..]) <==> CodeArrives(t)
  {
    var r := t[4..];
    assert r[0] == t[4] && r[1] == t[5] && r[2] == t[6] && r[3] == t[7];
    assert r[..4] == [t[4], t[5], t[6], t[7]] && r[..3] == [t[4], t[5], t[6]];
  }

  lemma HeadIn(t: seq<byte>)
    requires |t| >= 8 && CodeArrives(t)
    ensures var h := IcmpHead64(t); (h[0], h[1]) == TypeIn(t) && h[4..8] == WordIn(t)
  {
    var h := IcmpHead64(t);
    assert h[4..8] == [h[4], h[5], h[6], h[7]];
    if t[0] == 2 {
      hide Mtu64, MtuIn;
      MtuIs(Word(t, 6));
      assert h[6..8] == Be16(Mtu64(Word(t, 6)));
      assert h[4] == t[4] && h[5] == t[5] && h[6] == h[6..8][0] && h[7] == h[6..8][1];
    } else if t[0] == 4 && t[1] == 0 {
      assert h == [12, 0] + t[2..4] + [Pointer64(t[7], t[4])] + t[5..7] + [0];
    } else if t[0] == 4 {
      assert h == [3, 2] + t[2..4] + [0, 0, 0, 0];
    }
  }

  lemma MtuIs(mtu: u16)
    ensures Mtu64(mtu) == MtuIn(mtu)
  {
  }

  /** The bytes from q on look like the front of a packet that an error's quote shrinks for: an IPv6 header that no
      extension header follows, and, for ICMPv6, the header of an echo. */
  predicate QuoteShrinks(q: seq<byte>) {
    && |q| >= 40 && q[0] / 16 == 6 && q[6] !in {0, 43, 44, 60}
    && (q[6] == 58 ==> |q| >= 48 && q[40] in {128, 129})
  }

  predicate ErrorShrinks(t: seq<byte>)
    requires |t| >= 8
  {
    1 <= t[0] <= 4 && QuoteShrinks(t[8..])
  }

  /** What the quoted packet q becomes: the packet it arrives as, as far as it is quoted, and zeros that make up for the
      shorter header. */
  predicate Shrunk(r: seq<byte>, q: seq<byte>)
    requires QuoteShrinks(q)
  {
    var length := 20 + q[4] as int * 256 + q[5];
    && |r| == |q|
    && r[..10] == [0x45, q[0] % 16 * 16 + q[1] / 16, length % 0x1_0000 / 256, length % 256, 0, 0, 0, 0, q[7],
                   if q[6] == 58 then 1 else q[6]]
    && r[12..16] == q[20..24] && r[16..20] == q[36..40] && WordSum(r[..20]) % 65535 == 0
    && (q[6] != 58 ==> r[20..|q| - 20] == q[40..])
    && (q[6] == 58 ==> && r[20] == (if q[40] == 128 then 8 else 0) && r[21] == q[41] && r[24..|q| - 20] == q[44..]
                       && WordSum(r[20..]) % 65535 == 0)
    && forall i :: |q| - 20 <= i < |q| ==> r[i] == 0
  }

  /** What counts of a message of n bytes, once the placeholder is in its pseudo-header: where NAT66 does not see
      the message, only the destination is exchanged and not the checksum. */
  function MessageSum(t: Translator, p: V6, hs: seq<Extension>, m: seq<byte>): int
  {
    WordSum(p.src + p.dst) + |m| + 58 + WordSum(m)
    + if Visible(hs) then 0 else WordSum(t.placeholder) - WordSum(p.dst)
  }

  /** A message reaches the client. */
  predicate MessageArrives(t: Translator, p: V6, hs: seq<Extension>)
    requires Spelled(p, hs, 58)
  {
    var m := p.rest[|ChainBytes(hs, 58)|..Length(p)];
    !IsPart(hs) && |m| >= 8 && CodeArrives(m) && MessageSum(t, p, hs, m) % 65535 == 0
  }

  /** What an ICMPv6 message reaches the client as, if it does: its type, code and last header word as the tables
      say, a valid checksum; and behind its header the same bytes, unless it is an error whose quote shrinks. */
  lemma ArrivesAsMessage(t: Translator, p: V6, hs: seq<Extension>, freshId: u16) returns (q: Option<V4>)
    requires Spelled(p, hs, 58)
    ensures t.InboundV4(p, freshId) == q && (q.Some? <==> MessageArrives(t, p, hs))
    ensures q.Some? ==>
              var k := |ChainBytes(hs, 58)|;
              var m, v := p.rest[k..Length(p)], q.value;
              && v.head[..10] == HeadBytes(p, hs, |m|, 1, freshId) && WordSum(v.head + v.src + v.dst) % 65535 == 0
              && v.src == p.src[12..] && v.dst == t.placeholder
              && |v.rest| == |p.rest| - k && v.rest[|m|..] == p.rest[Length(p)..]
              && (v.rest[0] as int, v.rest[1] as int) == TypeIn(m) && v.rest[4..8] == WordIn(m)
              && WordSum(v.rest[..|m|]) % 65535 == 0
              && if ErrorShrinks(m) then Shrunk(v.rest[8..|m|], m[8..]) else v.rest[8..|m|] == m[8..]
  {
    hide V6.Bytes, Chain, ChainBytes, HeadBytes, HasHead, SealedHead4, WordSum, Translator.InboundV4, Checksum,
      FragmentWord, Identification, DatagramOffset, Meta.IsFragment, Seen, Visible, CodeArrives, TypeIn, WordIn,
          QuoteShrinks,
      IcmpHeaderTranslatable64, TranslateIcmp64;
    var md := SpelledParses(p, hs, 58);
    SeenIs(p, hs, 58, md);
    var k := |ChainBytes(hs, 58)|;
    var m, tail := p.rest[k..Length(p)], p.rest[k..];
    assert tail[..|m|] == m;
    q := InboundIcmp(t, p, md, freshId);
    if |m| >= 8 {
      MessageCode(tail, m);
    }
    if q.Some? {
      var v := q.value;
      WholeFields(p.Bytes(), md, freshId);
      HeadOf(v, p, hs, 58, md, 1, freshId);
      MessageIn(m);
      assert v.rest[..|m|] == TranslateIcmp64(m);
      assert v.rest[|m|..] == tail[|m|..];
      ChecksumCanonical(v.rest[..|m|]);
      assert v.rest[4..8] == TranslateIcmp64(m)[4..8] && v.rest[8..|m|] == TranslateIcmp64(m)[8..];
    }
  }

  lemma WholeFields(s: seq<byte>, m: Meta, freshId: u16)
    requires m.walked.fragment.Some? ==> m.walked.fragment.value + 8 <= |s|
    requires !m.IsFragment(s)
    ensures Identification(s, m, freshId) == freshId && FragmentWord(s, m) == 0
  {
  }

  lemma MessageCode(tail: seq<byte>, m: seq<byte>)
    requires 8 <= |m| <= |tail| && tail[..|m|] == m
    ensures IcmpHeaderTranslatable64(tail[0], tail[1], tail[4..]) <==> CodeArrives(m)
  {
    hide IcmpHeaderTranslatable64;
    CodeBytes(tail);
    assert forall i :: 0 <= i < 8 ==> tail[i] == m[i];
  }

  lemma QuoteBytes(q: seq<byte>)
    ensures QuoteTranslatable64(q) <==> QuoteShrinks(q)
  {
  }

  /** The message SIIT64 makes, without its checksum. */
  lemma MessageIn(m: seq<byte>)
    requires |m| >= 8 && CodeArrives(m)
    ensures var r := TranslateIcmp64(m);
            && (r[0] as int, r[1] as int) == TypeIn(m) && r[4..8] == WordIn(m)
            && if ErrorShrinks(m) then Shrunk(r[8..], m[8..]) else r[8..] == m[8..]
  {
    hide IcmpHead64, QuoteHead64, QuotePayload64, Sealed4, QuoteTranslatable64, Checksum;
    HeadIn(m);
    QuoteBytes(m[8..]);
    var quote := if ErrorShrinks(m) then QuoteHead64(m[8..]) + QuotePayload64(m[8..]) else m[8..];
    Sealed4Valid(IcmpHead64(m) + quote);
    var r := TranslateIcmp64(m);
    assert r == Sealed4(IcmpHead64(m) + quote);
    assert r[4..8] == IcmpHead64(m)[4..8];
    assert r[8..] == quote;
    if ErrorShrinks(m) {
      ShrunkQuote(m[8..]);
    }
  }

  lemma ShrunkQuote(q: seq<byte>)
    requires QuoteShrinks(q)
    ensures |QuoteHead64(q) + QuotePayload64(q)| == |q| && Shrunk(QuoteHead64(q) + QuotePayload64(q), q)
  {
    hide Checksum, WordSum, HasHead, QuoteHead64, QuotePayload64, Sealed4;
    QuoteBytes(q);
    var payload := QuotePayload64(q);
    var r := QuoteHead64(q) + payload;
    InboundQuoteHead(q, payload);
    InboundQuotePayload(q);
    ShrunkHead(View4(r), r, q);
    assert r[20..] == payload;
    if q[6] == 58 {
      ChecksumCanonical(r[20..]);
      assert r[24..] == payload[4..];
    }
  }

  lemma ShrunkHead(v: V4, r: seq<byte>, q: seq<byte>)
    requires |q| >= 40 && |r| >= 20 && v == View4(r)
    requires HasHead(v, q[0] % 16 * 16 + q[1] / 16, Add16(20, Word(q, 4)), 0, 0, q[7], ProtocolOf(q[6]))
    requires v.src == q[20..24] && v.dst == q[36..40]
    ensures var length := 20 + q[4] as int * 256 + q[5];
            r[..10] == [0x45, q[0] % 16 * 16 + q[1] / 16, length % 0x1_0000 / 256, length % 256, 0, 0, 0, 0, q[7],
                       if q[6] == 58 then 1 else q[6]]
    ensures r[12..16] == q[20..24] && r[16..20] == q[36..40] && WordSum(r[..20]) % 65535 == 0
  {
    hide Checksum, WordSum, View4;
    ChecksumCanonical(v.head + v.src + v.dst);
    FieldBytes(v.head, 0);
    LowByte(20 + q[4] as int * 256 + q[5]);
    ViewSlices(r);
  }

  lemma ViewSlices(r: seq<byte>)
    requires |r| >= 20
    ensures var v := View4(r);
            && r[..20] == v.head + v.src + v.dst && r[..10] == v.head[..10] && r[12..16] == v.src && r[16..20] == v.dst
  {
  }

  // Which packets arrive, exactly

  /** The packet is made of well-formed headers and a payload that translates. */
  ghost predicate Arrives(t: Translator, p: V6) {
    exists hs, next :: Spelled(p, hs, next) && (next == 58 ==> MessageArrives(t, p, hs))
  }

  /** Exactly these packets reach the client. */
  lemma ExactlyArrives(t: Translator, v6: seq<byte>, freshId: u16)
    ensures t.Inbound(v6, freshId).Some? <==> |v6| >= 40 && Arrives(t, View6(v6))
  {
    hide V6.Bytes, V4.Bytes, Translate64, Rewrite, Spelled, MessageArrives, View6;
    if |v6| >= 40 {
      var p := View6(v6);
      if Arrives(t, p) {
        var hs, next :| Spelled(p, hs, next) && (next == 58 ==> MessageArrives(t, p, hs));
        if next == 58 {
          var q := ArrivesAsMessage(t, p, hs, freshId);
        } else {
          var q := ArrivesAs(t, p, hs, next, freshId);
        }
      }
      if t.Inbound(v6, freshId).Some? {
        InboundParses(t, p, freshId);
        hide Headers64;
        var m := Headers64(p.Bytes()).value;
        var hs := ParsesSpelled(p, m);
        if m.walked.next == 58 {
          var q := ArrivesAsMessage(t, p, hs, freshId);
        }
      }
    }
  }

  /** The translator needs room for 20 bytes in front of a packet; more makes no difference. */
  lemma RoomExact(pkt: seq<byte>, reserved: nat, freshId: u16)
    ensures Translate64(pkt, reserved, freshId) == if reserved < 20 then None else Translate64(pkt, 48, freshId)
  {
    hide Parse64;
  }

  // There and back

  /** The head of an ICMPv4 message that left, on its way back: everything but a Protocol Unreachable would arrive,
      with the type and code of its class (the unreachables that are no route, those that are prohibited, and each
      other message by itself). */
  lemma CodesOutAndBack(t: seq<byte>, u: seq<byte>)
    requires |t| >= 8 && OutboundWire.CodeLeaves(t) && |u| >= 8
    requires (u[0] as int, u[1] as int) == OutboundWire.TypeOut(t) && u[4..8] == OutboundWire.WordOut(t)
    ensures CodeArrives(u) <==> !(t[0] == 3 && t[1] == 2)
    ensures CodeArrives(u) ==>
              TypeIn(u) == if t[0] == 3 && t[1] in {0, 1, 5, 6, 7, 8, 11, 12} then (3, 1)
                           else if t[0] == 3 && t[1] in {9, 10, 13, 15} then (3, 10)
                           else if t[0] == 12 then (12, 0)
                           else (t[0] as int, t[1] as int)
  {
    assert u[4] == u[4..8][0] && u[5] == u[4..8][1] && u[6] == u[4..8][2] && u[7] == u[4..8][3];
  }

  /** The head of an ICMPv6 message that arrived, on its way back: it would leave unless it is an unreachable or a
      Time Exceeded whose unused word is not zero, with the type and code it came with, but for the unreachables
      that are no route. */
  lemma CodesInAndBack(t: seq<byte>, u: seq<byte>)
    requires |t| >= 8 && CodeArrives(t) && |u| >= 8
    requires (u[0] as int, u[1] as int) == TypeIn(t) && u[4..8] == WordIn(t)
    ensures OutboundWire.CodeLeaves(u) <==> (t[0] in {1, 3} ==> t[4] == t[5] == t[6] == t[7] == 0)
    ensures OutboundWire.CodeLeaves(u) ==>
              OutboundWire.TypeOut(u) == if t[0] == 1 && t[1] in {2, 3} then (1, 0) else (t[0] as int, t[1] as int)
  {
    assert u[4] == u[4..8][0] && u[5] == u[4..8][1] && u[6] == u[4..8][2] && u[7] == u[4..8][3];
  }
}
