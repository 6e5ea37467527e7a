/** What NAT66 promises: the address changes, the checksum keeps meaning what it meant, and nothing else moves. */
module Nat66Theorems {
  import opened Bytes
  import opened OnesComplement
  import opened Wire
  import opened Nat66

  function CoveredMinimum(proto: byte): nat
  {
    if proto == ICMPV6 then ICMP_MINIMUM_SIZE else TransportMinimum(proto)
  }

  function CoveredField(proto: byte): (c: nat)
    ensures c % 2 == 0
  {
    if proto == ICMPV6 then ICMP_CHECKSUM_OFFSET else TransportField(proto)
  }

  /** A payload with a checksum over the addresses, long enough to hold it. */
  predicate Covered(p: V6) {
    && p.PayloadLength() <= |p.rest|
    && (HasPseudoHeader(p.NextHeader()) || p.NextHeader() == ICMPV6)
    && p.PayloadLength() >= CoveredMinimum(p.NextHeader())
  }

  /** A sum moved by a difference and by the update for that difference keeps its residue. */
  lemma ResidueKept(sum: nat, sum': nat, field: u16, field': u16, a: nat, b: nat)
    requires sum' == sum - a + b - field + field'
    requires Congruent(field', field + a - b)
    ensures sum % 0xffff == 0 <==> sum' % 0xffff == 0
  {
    var q := (field' - (field + a - b)) / 0xffff;
    assert sum' - sum == 0xffff * q;
  }

  /** Rewriting an address keeps a valid transport checksum valid, and an invalid one invalid. */
  lemma RewriteKeepsValidity(p: V6, side: Side, to: Address6)
    requires Covered(p)
    ensures var r := Rewrite(p, side, to);
            var c := CoveredField(p.NextHeader());
            && Covered(r) && side.Of(r) == to
            && r == side.Put(p.(rest := SetWord(p.rest, c, Word(r.rest, c))), to)
            && (r.TransportOk() <==> p.TransportOk())
  {
    var n, c := p.PayloadLength(), CoveredField(p.NextHeader());
    var r := Rewrite(p, side, to);
    assert AddressCoverage(p) == Field(c);
    var from, t := side.Of(p), p.Payload();
    var field := Updated(Word(p.rest, c), from, to);
    assert r.Payload() == SetWord(t, c, field);
    hide Updated, SetWord, WordSum, TransportValid;
    WordSumSet(t, c, field);
    WordSumConcat(p.src, p.dst);
    WordSumConcat(r.src, r.dst);
    UpdatedCongruent(Word(t, c), from, to);
    ResidueKept(TransportSum(p.src + p.dst, p.NextHeader(), t),
        TransportSum(r.src + r.dst, p.NextHeader(), r.Payload()),
                Word(t, c), field, WordSum(from), WordSum(to));
    TransportValidIff(p.src + p.dst, p.NextHeader(), t);
    TransportValidIff(r.src + r.dst, p.NextHeader(), r.Payload());
  }

  /** Rewriting an address and then rewriting it back restores every byte, except that a stored
      checksum 0xffff that was touched on the way comes back as 0x0000. */
  lemma RewriteRoundTrip(p: V6, side: Side, to: Address6)
    ensures Rewrite(Rewrite(p, side, to), side, side.Of(p)) == ZeroCanonical(p)
  {
    hide Updated;
    var r := Rewrite(p, side, to);
    match AddressCoverage(p)
    case TooShort =>
    case Uncovered =>
    case Field(at) =>
      assert AddressCoverage(r) == Field(at);
      UpdateRoundTrip(Word(p.rest, at), side.Of(p), to);
      var back := Rewrite(r, side, side.Of(p));
      assert back.rest == ZeroCanonical(p).rest;
  }

  /** The packet with the checksum NAT66 maintains written as 0x0000 where it held 0xffff. */
  function ZeroCanonical(p: V6): V6
  {
    var c := AddressCoverage(p);
    if c.Field? && Word(p.rest, c.at) == 0xffff then p.(rest := SetWord(p.rest, c.at, 0)) else p
  }

  /** The address of a packet is rewritten exactly when its checksum, if one is due, is not cut off. */
  lemma RewriteTakesEffect(p: V6, side: Side, to: Address6)
    requires side.Of(p) != to
    ensures side.Of(Rewrite(p, side, to)) == to <==> !AddressCoverage(p).TooShort?
  {
  }

  // Byte by byte, with the numbers of the protocols written out

  /** TCP, UDP, DCCP and ICMPv6 have a checksum over the addresses. */
  predicate Summed(protocol: byte) {
    protocol in {6, 17, 33, 58}
  }

  /** Where it stands in their headers. */
  function ChecksumAt(protocol: byte): nat
  {
    if protocol == 6 then 16 else if protocol == 58 then 2 else 6
  }

  /** How long these headers are at least. */
  function HeaderSize(protocol: byte): nat
  {
    if protocol == 6 then 20 else if protocol == 33 then 12 else 8
  }

  /** A transport header of this protocol stands at offset at behind the fixed header: directly, or behind the
      fragment header of a first fragment. */
  predicate Stands(p: V6, protocol: byte, at: nat) {
    || (p.head[6] != 44 && protocol == p.head[6] && at == 0)
    || (p.head[6] == 44 && |p.rest| >= 8 && p.rest[2] == 0 && p.rest[3] < 8 && protocol == p.rest[0] && at == 8)
  }

  /** The two packets differ in nothing but one address and the two bytes from offset c on. */
  predicate DiffersAt(p: V6, r: V6, side: Side, c: nat) {
    && r.head == p.head && (if side == Source then r.dst == p.dst else r.src == p.src)
    && |r.rest| == |p.rest| && forall i :: 0 <= i < |p.rest| && i != c && i != c + 1 ==> r.rest[i] == p.rest[i]
  }

  /** What rewriting an address changes: nothing if a checksum is due and its header is cut off; else the address,
      and of the payload at most the two bytes of that checksum, which make up for the change. */
  lemma RewriteBytes(p: V6, side: Side, to: Address6, protocol: byte, at: nat)
    requires Stands(p, protocol, at)
    ensures var r, c := Rewrite(p, side, to), at + ChecksumAt(protocol);
            if !Summed(protocol) then r == side.Put(p, to)
            else if |p.rest| < at + HeaderSize(protocol) then r == p
            else
              && DiffersAt(p, r, side, c) && side.Of(r) == to
              && (Word(r.rest, c) - (Word(p.rest, c) + WordSum(side.Of(p)) - WordSum(to))) % 65535 == 0
              && (Word(r.rest, c) == 65535 <==>
                    Word(p.rest, c) == 65535 && WordSum(to) == 0 && WordSum(side.Of(p)) == 65535 * 8)
  {
    hide WordSum, Updated, SetWord;
    assert p.head[6] == 44 ==> FragmentOffset6(p.rest, 0) == 0;
    if Summed(protocol) && |p.rest| >= at + HeaderSize(protocol) {
      assert AddressCoverage(p) == Field(at + ChecksumAt(protocol));
      UpdatedCongruent(Word(p.rest, at + ChecksumAt(protocol)), side.Of(p), to);
      UpdatedSaturates(Word(p.rest, at + ChecksumAt(protocol)), side.Of(p), to);
    }
  }

  /** Without a transport header only the address changes, unless not even the fragment header is whole. */
  lemma RewriteOther(p: V6, side: Side, to: Address6)
    requires p.head[6] == 44 && (|p.rest| < 8 || p.rest[2] != 0 || p.rest[3] >= 8)
    ensures Rewrite(p, side, to) == if |p.rest| < 8 then p else side.Put(p, to)
  {
    assert |p.rest| >= 8 ==> FragmentOffset6(p.rest, 0) != 0;
  }
}
