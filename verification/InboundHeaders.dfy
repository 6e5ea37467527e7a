/** The headers of a packet on its way to the client: which of them NAT66 sees, and that it leaves those SIIT64
    walks alone. */
module InboundHeaders {
  import opened Wrappers
  import opened Bytes
  import opened OnesComplement
  import opened Wire
  import opened Nat66
  import opened Siit64Spec

  lemma BytesOf(p: V6)
    ensures var s := p.Bytes();
            && |s| == 40 + |p.rest| && s[..8] == p.head && s[8..40] == p.src + p.dst && s[40..] == p.rest
            && s[20..24] == p.src[12..] && s[36..40] == p.dst[12..] && s[24..36] == p.dst[..12]
            && s[0] == p.head[0] && s[1] == p.head[1] && s[6] == p.head[6] && s[7] == p.head[7]
            && Word(s, 4) == Word(p.head, 4)
  {
  }

  /** The payload, and whatever trails it. */
  function Tail(p: V6, m: Meta): seq<byte>
    requires 40 <= m.walked.offset <= 40 + |p.rest|
  {
    p.rest[m.walked.offset - 40..]
  }

  /** The headers of the packet are m. */
  predicate Parses(p: V6, m: Meta) {
    Headers64(p.Bytes()) == Some(m)
  }

  /** The transport header is where NAT66 looks for it: behind the fixed header, or behind one fragment header of a
      first fragment. */
  predicate Seen(p: V6, m: Meta) {
    || m.walked.offset == 40
    || (p.NextHeader() == FRAGMENT && |p.rest| >= 8 && FragmentOffset6(p.rest, 0) == 0)
  }

  /** What NAT66 makes of a transport header it sees, of which length bytes are there. */
  function CoverageAt(next: byte, at: nat, length: nat): Coverage
  {
    if HasPseudoHeader(next) then if length < TransportMinimum(next) then TooShort else Field(at + TransportField(next))
    else if next == ICMPV6 then if length < ICMP_MINIMUM_SIZE then TooShort else Field(at + ICMP_CHECKSUM_OFFSET)
    else Uncovered
  }

  lemma CoverageOf(p: V6, m: Meta)
    requires Parses(p, m)
    ensures 40 <= m.walked.offset <= 40 + |p.rest|
    ensures AddressCoverage(p) ==
              if Seen(p, m) then CoverageAt(m.walked.next, m.walked.offset - 40, |Tail(p, m)|) else Uncovered
  {
    FirstHeader(p, m);
    hide Parses, ForbiddenForIPv6;
  }

  /** What the first header of a packet says about the others. */
  lemma FirstHeader(p: V6, m: Meta)
    requires Parses(p, m)
    ensures 40 <= m.walked.offset <= 40 + |p.rest|
    ensures IsExtensionHeader(p.NextHeader()) <==> m.walked.offset > 40
    ensures !IsExtensionHeader(p.NextHeader()) ==> m.walked.next == p.NextHeader()
    ensures p.NextHeader() == FRAGMENT ==> |p.rest| >= 8 && m.walked.next == p.rest[0] && m.walked.offset == 48
  {
    hide V6.Bytes;
    var s := p.Bytes();
    BytesOf(p);
    var chain := s[..40 + Word(s, 4)];
    WalkedFirst(chain, s[6]);
    hide Walk;
    if s[6] == FRAGMENT {
      assert chain[40] == s[40] == s[40..][0];
    }
  }

  /** What the walk finds behind its first header. */
  lemma WalkedFirst(chain: seq<byte>, next: byte)
    requires |chain| >= 40 && Walk(chain, next, 40, None).Some?
    ensures var w := Walk(chain, next, 40, None).value;
            && (IsExtensionHeader(next) <==> w.offset > 40)
            && (!IsExtensionHeader(next) ==> w == Walked(None, next, 40))
            && (next == FRAGMENT ==> |chain| >= 48 && w == Walked(Some(40), chain[40], 48))
  {
  }

  /** The walk reads nothing but what it walks over. */
  lemma {:induction false} WalkAgrees(p: seq<byte>, q: seq<byte>, next: byte, off: nat, fragment: Option<nat>)
    requires off <= |p| == |q| && forall i :: off <= i < |p| ==> p[i] == q[i]
    ensures Walk(p, next, off, fragment) == Walk(q, next, off, fragment)
    decreases |p| - off
  {
    if fragment.None? && IsExtensionHeader(next) && |p| - off >= 8 {
      var size := 8 + p[off + 1] as int * 8;
      if |p| - off >= size {
        WalkAgrees(p, q, p[off], off + size, if next == FRAGMENT then Some(off) else None);
      }
    }
  }

  /** A packet and the same packet with another destination and perhaps another word in its transport header. */
  predicate Alike(p: V6, r: V6) {
    && r.head == p.head && r.src == p.src && |r.rest| == |p.rest|
    && forall i :: 0 <= i < |p.rest| ==>
         (AddressCoverage(p).Field? && AddressCoverage(p).at <= i < AddressCoverage(p).at + 2) || r.rest[i] == p.rest[i]
  }

  lemma RewrittenAlike(p: V6, to: Address6)
    ensures Alike(p, Rewrite(p, Destination, to))
  {
    hide Updated, AddressCoverage;
  }

  /** The fragment headers of both say the same. */
  predicate SameFragment(p: V6, r: V6, m: Meta)
    requires m.walked.fragment.Some? ==> 40 <= m.walked.fragment.value && m.walked.fragment.value + 8 <= 40 + |p.rest|
    requires |p.rest| == |r.rest|
  {
    m.walked.fragment.Some? ==>
      var f := m.walked.fragment.value;
      r.Bytes()[f..f + 8] == p.Bytes()[f..f + 8]
  }

  /** The word that may differ stands behind what is walked. */
  lemma FieldPlace(p: V6)
    requires AddressCoverage(p).Field?
    ensures !IsExtensionHeader(p.NextHeader()) || (p.NextHeader() == FRAGMENT && AddressCoverage(p).at >= 8)
  {
  }

  lemma WalkFragment(chain: seq<byte>)
    requires |chain| >= 40
    ensures Walk(chain, FRAGMENT, 40, None) ==
              if |chain| < 48 || !FragmentTranslatable(chain, 40) || ForbiddenForIPv6(chain[40]) then None
              else Some(Walked(Some(40), chain[40], 48))
  {
    if |chain| >= 48 && FragmentTranslatable(chain, 40) {
      assert Walk(chain, FRAGMENT, 40, None) == Walk(chain, chain[40], 48, Some(40));
    }
  }

  lemma WalksAlike(p: V6, c: seq<byte>, c': seq<byte>)
    requires |c| == |c'| && 40 <= |c| <= 40 + |p.rest|
    requires forall i :: 40 <= i < |c| ==>
               (AddressCoverage(p).Field? && 40 + AddressCoverage(p).at <= i < 42 + AddressCoverage(p).at)
                   || c[i] == c'[i]
    ensures Walk(c, p.NextHeader(), 40, None) == Walk(c', p.NextHeader(), 40, None)
    ensures match Walk(c, p.NextHeader(), 40, None)
            case Some(Walked(Some(f), _, _)) => forall i :: f <= i < f + 8 ==> c[i] == c'[i]
            case _ => true
  {
    if !AddressCoverage(p).Field? {
      WalkAgrees(c, c', p.NextHeader(), 40, None);
    } else {
      FieldPlace(p);
      hide AddressCoverage;
      if p.NextHeader() == FRAGMENT {
        hide Walk;
        WalkFragment(c);
        WalkFragment(c');
      }
    }
  }

  /** The bytes behind the fixed headers of both. */
  lemma ChainsAlike(p: V6, r: V6, n: nat)
    requires Alike(p, r) && 40 <= n <= 40 + |p.rest|
    ensures forall i :: 40 <= i < n ==>
              (AddressCoverage(p).Field? && 40 + AddressCoverage(p).at <= i < 42 + AddressCoverage(p).at)
              || p.Bytes()[..n][i] == r.Bytes()[..n][i]
  {
    hide V6.Bytes, AddressCoverage;
    BytesOf(p);
    BytesOf(r);
    forall i | 40 <= i < n
      ensures p.Bytes()[..n][i] == p.rest[i - 40] && r.Bytes()[..n][i] == r.rest[i - 40]
    {
      assert p.Bytes()[i] == p.Bytes()[40..][i - 40] && r.Bytes()[i] == r.Bytes()[40..][i - 40];
    }
  }

  /** NAT66 leaves the headers of a packet alone. */
  lemma HeadersAlike(p: V6, r: V6)
    requires Alike(p, r)
    ensures Headers64(r.Bytes()) == Headers64(p.Bytes())
    ensures Headers64(p.Bytes()).Some? ==> SameFragment(p, r, Headers64(p.Bytes()).value)
  {
    hide V6.Bytes, AddressCoverage, Walk;
    var s, s' := p.Bytes(), r.Bytes();
    BytesOf(p);
    BytesOf(r);
    if |p.rest| >= p.PayloadLength() {
      var n := 40 + Word(s, 4);
      ChainsAlike(p, r, n);
      WalksAlike(p, s[..n], s'[..n]);
      hide Alike;
      match Walk(s[..n], s[6], 40, None) {
        case Some(Walked(Some(f), _, _)) =>
          assert forall i :: f <= i < f + 8 ==> s[i] == s[..n][i] && s'[i] == s'[..n][i];
          assert s[f + 3] == s'[f + 3];
          assert s[f..f + 8] == s'[f..f + 8];
        case _ =>
      }
    }
  }

  // The two shortest chains

  /** A packet whose transport header directly follows the fixed one, and that is all there. */
  predicate Plain(p: V6) {
    p.head[0] / 16 == 6 && !IsExtensionHeader(p.NextHeader()) && !ForbiddenForIPv6(p.NextHeader())
        && p.PayloadLength() <= |p.rest|
  }

  function PlainMeta(p: V6): Meta
  {
    Meta(Walked(None, p.NextHeader(), 40), p.PayloadLength())
  }

  lemma PlainParses(p: V6)
    requires Plain(p)
    ensures Parses(p, PlainMeta(p)) && Tail(p, PlainMeta(p)) == p.rest && Seen(p, PlainMeta(p))
  {
    hide V6.Bytes;
    var s := p.Bytes();
    BytesOf(p);
    assert Walk(s[..40 + Word(s, 4)], s[6], 40, None) == Some(Walked(None, s[6], 40));
  }

  /** A packet with one fragment header, and that is all there. */
  predicate Fragmented(p: V6) {
    && p.head[0] / 16 == 6 && p.NextHeader() == FRAGMENT && 8 <= p.PayloadLength() <= |p.rest|
    && !ForbiddenForIPv6(p.rest[0]) && FragmentTranslatable(p.rest, 0)
    && (MoreFragments6(p.rest, 0) ==> p.PayloadLength() % 8 == 0)
  }

  function FragmentMeta(p: V6): Meta
    requires Fragmented(p)
  {
    Meta(Walked(Some(40), p.rest[0], 48), p.PayloadLength() - 8)
  }

  lemma FragmentParses(p: V6)
    requires Fragmented(p)
    ensures var m, s := FragmentMeta(p), p.Bytes();
            && Parses(p, m) && Tail(p, m) == p.rest[8..]
            && FragmentOffset6(s, 40) == FragmentOffset6(p.rest, 0)
            && MoreFragments6(s, 40) == MoreFragments6(p.rest, 0)
            && Word(s, 46) == Word(p.rest, 6)
  {
    hide V6.Bytes;
    var s := p.Bytes();
    BytesOf(p);
    var chain := s[..40 + Word(s, 4)];
    forall i | 0 <= i < 8
      ensures s[40 + i] == chain[40 + i] == p.rest[i]
    {
      assert s[40 + i] == s[40..][i];
    }
    FragmentBytes(s, chain, p.rest);
    WalkFragment(chain);
    hide Walk;
  }

  lemma FragmentBytes(s: seq<byte>, chain: seq<byte>, f: seq<byte>)
    requires |s| >= 48 && |chain| >= 48 && |f| >= 8 && forall i :: 0 <= i < 8 ==> s[40 + i] == chain[40 + i] == f[i]
    ensures s[40] == f[0] && s[41] == f[1] && s[43] == f[3] && chain[40] == f[0] && chain[41] == f[1]
            && chain[43] == f[3]
    ensures Word(s, 42) == Word(f, 2) && Word(s, 46) == Word(f, 6)
  {
    assert s[40 + 0] == f[0] && s[40 + 1] == f[1] && s[40 + 2] == f[2] && s[40 + 3] == f[3];
    assert s[40 + 6] == f[6] && s[40 + 7] == f[7];
  }
}
