/** Rewriting one IPv6 address of a packet and repairing the transport checksum for it (internal/clat/nat.go). */
module Nat66 {
  import opened Bytes
  import opened OnesComplement
  import opened Wire

  /** Whether a packet carries a checksum over its addresses, and where. */
  datatype Coverage =
    | TooShort       // a checksum is due, but its header is cut off
    | Uncovered      // no checksum here depends on the addresses
    | Field(at: nat) // the checksum's offset in the packet

  function TransportCoverage(proto: byte, transport: nat, length: nat): (c: Coverage)
    ensures c.Field? ==> c.at % 2 == transport % 2 && transport <= c.at && c.at + 2 <= length
  {
    if HasPseudoHeader(proto) then
      if length < transport + TransportMinimum(proto) then TooShort else Field(transport + TransportField(proto))
    else if proto == ICMPV6 then
      if length < transport + ICMP_MINIMUM_SIZE then TooShort else Field(transport + ICMP_CHECKSUM_OFFSET)
    else
      Uncovered
  }

  /** Offsets count from the end of the fixed header. */
  function AddressCoverage(p: V6): (c: Coverage)
    ensures c.Field? ==> c.at % 2 == 0 && c.at + 2 <= |p.rest|
  {
    if p.NextHeader() == FRAGMENT then
      if |p.rest| < 8 then TooShort
      else if FragmentOffset6(p.rest, 0) != 0 then Uncovered
      else TransportCoverage(p.rest[0], 8, |p.rest|)
    else TransportCoverage(p.NextHeader(), 0, |p.rest|)
  }

  datatype Side = Source | Destination {
    function Offset(): nat { if Source? then SOURCE_OFFSET else DESTINATION_OFFSET }

    function Of(p: V6): Address6 { if Source? then p.src else p.dst }

    function Put(p: V6, to: Address6): V6 { if Source? then p.(src := to) else p.(dst := to) }
  }

  /** The packet with one address replaced; a packet whose checksum is cut off is left alone. */
  function Rewrite(p: V6, side: Side, to: Address6): (r: V6)
    ensures |r.rest| == |p.rest| && r.head == p.head
  {
    match AddressCoverage(p)
    case TooShort => p
    case Uncovered => side.Put(p, to)
    case Field(at) => side.Put(p.(rest := SetWord(p.rest, at, Updated(Word(p.rest, at), side.Of(p), to))), to)
  }

  lemma WordSumSnoc(s: seq<byte>, i: nat)
    requires i % 2 == 0 && i + 2 <= |s|
    ensures WordSum(s[..i + 2]) == WordSum(s[..i]) + Word(s, i)
  {
    assert s[..i + 2] == s[..i] + s[i..i + 2];
    WordSumConcat(s[..i], s[i..i + 2]);
    assert s[i..i + 2][2..] == [];
  }

  /** The running sum of the update rule after the first i bytes of the addresses. */
  function Running(field: u16, oldAddress: seq<byte>, newAddress: seq<byte>, i: nat): u16
    requires i % 2 == 0 && i <= |oldAddress| == |newAddress|
  {
    WordSumBound(oldAddress[..i]);
    Fold(Complement(field) + WordSum(newAddress[..i]) + (0xffff * (i / 2) - WordSum(oldAddress[..i])))
  }

  lemma RunningStep(field: u16, oldAddress: seq<byte>, newAddress: seq<byte>, i: nat)
    requires i % 2 == 0 && i + 2 <= |oldAddress| == |newAddress|
    ensures Combine(Running(field, oldAddress, newAddress, i),
            Combine(Word(newAddress, i), Complement(Word(oldAddress, i))))
         == Running(field, oldAddress, newAddress, i + 2)
  {
    WordSumBound(oldAddress[..i]);
    WordSumSnoc(newAddress, i);
    WordSumSnoc(oldAddress, i);
    var change := Word(newAddress, i) + Complement(Word(oldAddress, i));
    FoldAdd(Word(newAddress, i), Complement(Word(oldAddress, i)));
    FoldAdd(Complement(field) + WordSum(newAddress[..i]) + (0xffff * (i / 2) - WordSum(oldAddress[..i])), change);
  }

  lemma RunningEnds(field: u16, oldAddress: seq<byte>, newAddress: seq<byte>)
    requires |oldAddress| == |newAddress| && |oldAddress| % 2 == 0
    ensures Running(field, oldAddress, newAddress, 0) == Complement(field)
    ensures Complement(Running(field, oldAddress, newAddress, |newAddress|)) == Updated(field, oldAddress, newAddress)
  {
    assert newAddress[..|newAddress|] == newAddress && oldAddress[..|oldAddress|] == oldAddress;
  }

  /** The checksum at checksumAt, repaired for the address at addressAt becoming newAddress. */
  method NatPartialUpdateChecksum(packet: array<byte>, checksumAt: nat, addressAt: nat, newAddress: seq<byte>)
    requires checksumAt + 2 <= packet.Length && addressAt + |newAddress| <= packet.Length
    requires |newAddress| % 2 == 0
    modifies packet
    ensures packet[..] == SetWord(old(packet[..]), checksumAt,
                                  Updated(Word(old(packet[..]), checksumAt),
                                          old(packet[..])[addressAt..addressAt + |newAddress|], newAddress))
  {
    ghost var was := packet[..];
    ghost var oldAddress := was[addressAt..addressAt + |newAddress|];
    ghost var field := Word(was, checksumAt);
    RunningEnds(field, oldAddress, newAddress);
    var updated: u16 := Complement(packet[checksumAt + 1] + packet[checksumAt] as int * 256);
    var i := 0;
    while i < |newAddress|
      invariant 0 <= i <= |newAddress| && i % 2 == 0
      invariant packet[..] == was
      invariant updated == Running(field, oldAddress, newAddress, i)
    {
      var newWord: u16 := newAddress[i + 1] + newAddress[i] as int * 256;
      var oldWord: u16 := packet[addressAt + i + 1] + packet[addressAt + i] as int * 256;
      assert packet[addressAt + i] == oldAddress[i] && packet[addressAt + i + 1] == oldAddress[i + 1];
      RunningStep(field, oldAddress, newAddress, i);
      updated := Combine(updated, Combine(newWord, Complement(oldWord)));
      i := i + 2;
    }
    updated := Complement(updated);
    packet[checksumAt + 1] := updated % 256;
    packet[checksumAt] := updated / 256;
  }

  /** was with the checksum c points at, if any, repaired for the address at offset off becoming to. */
  function Repair(was: seq<byte>, transport: nat, c: Coverage, off: nat, to: Address6): (r: seq<byte>)
    requires off + 16 <= |was| && (c.Field? ==> transport + c.at + 2 <= |was|)
    ensures |r| == |was|
  {
    if c.Field? then
      SetWord(was, transport + c.at, Updated(Word(was, transport + c.at), was[off..off + 16], to))
    else
      was
  }

  lemma PutBytes(p: V6, side: Side, to: Address6)
    ensures Splice(p.Bytes(), side.Offset(), to) == side.Put(p, to).Bytes()
  {
  }

  lemma SetRestBytes(p: V6, at: nat, w: u16)
    requires at + 2 <= |p.rest|
    ensures SetWord(p.Bytes(), 40 + at, w) == p.(rest := SetWord(p.rest, at, w)).Bytes()
    ensures Word(p.Bytes(), 40 + at) == Word(p.rest, at)
  {
  }

  /** A word set and an address put, in the buffer and in the packet that starts at start. */
  lemma PutWindow(was: seq<byte>, start: nat, p: V6, at: nat, u: u16, side: Side, to: Address6)
    requires start + 40 <= |was| && was[start..] == p.Bytes() && at + 2 <= |p.rest|
    ensures var mid := SetWord(was, start + 40 + at, u);
            var r := Splice(mid, start + side.Offset(), to);
            && r[..start] == was[..start]
            && r[start..] == side.Put(p.(rest := SetWord(p.rest, at, u)), to).Bytes()
  {
    hide SetWord, Splice, V6.Bytes;
    var mid := SetWord(was, start + 40 + at, u);
    SetRestBytes(p, at, u);
    SetWordWindow(was, start, 40 + at, u);
    SpliceWindow(mid, start, side.Offset(), to);
    PutBytes(p.(rest := SetWord(p.rest, at, u)), side, to);
  }

  lemma AddressWindow(was: seq<byte>, start: nat, side: Side)
    requires start + 40 <= |was|
    ensures was[start + side.Offset()..start + side.Offset() + 16] == side.Of(View6(was[start..]))
  {
    SliceOfSlice(was, start, 8, 24);
    SliceOfSlice(was, start, 24, 40);
  }

  /** Repairing and overwriting in the buffer is rewriting the packet that starts at start. */
  lemma RepairWindow(was: seq<byte>, start: nat, side: Side, to: Address6)
    requires start + 40 <= |was|
    requires !AddressCoverage(View6(was[start..])).TooShort?
    ensures var mid := Repair(was, start + 40, AddressCoverage(View6(was[start..])), start + side.Offset(), to);
            && Splice(mid, start + side.Offset(), to)[..start] == was[..start]
            && Splice(mid, start + side.Offset(), to)[start..] == Rewrite(View6(was[start..]), side, to).Bytes()
  {
    hide Splice, SetWord, Updated, AddressCoverage, TransportCoverage;
    var p := View6(was[start..]);
    match AddressCoverage(p)
    case Uncovered =>
      SpliceWindow(was, start, side.Offset(), to);
      PutBytes(p, side, to);
    case Field(at) =>
      AddressWindow(was, start, side);
      assert Word(was, start + 40 + at) == Word(p.rest, at);
      var u := Updated(Word(p.rest, at), side.Of(p), to);
      assert Rewrite(p, side, to) == side.Put(p.(rest := SetWord(p.rest, at, u)), to);
      assert Repair(was, start + 40, Field(at), start + side.Offset(), to) == SetWord(was, start + 40 + at, u);
      PutWindow(was, start, p, at, u, side, to);
  }

  /** Repairs the checksum of the transport header that stands length bytes before the end of the buffer,
      unless it is cut off. */
  method RepairTransport(buffer: array<byte>, fixedEnd: nat, proto: byte, transport: nat, addressAt: nat, to: Address6)
    returns (whole: bool)
    requires addressAt + 16 <= fixedEnd && fixedEnd + transport <= buffer.Length
    modifies buffer
    ensures whole <==> !TransportCoverage(proto, transport, buffer.Length - fixedEnd).TooShort?
    ensures buffer[..] == Repair(old(buffer[..]), fixedEnd,
            TransportCoverage(proto, transport, buffer.Length - fixedEnd), addressAt, to)
  {
    var length := buffer.Length - fixedEnd;
    if HasPseudoHeader(proto) {
      if length < transport + TransportMinimum(proto) {
        return false;
      }
      NatPartialUpdateChecksum(buffer, fixedEnd + transport + TransportField(proto), addressAt, to);
    } else if proto == ICMPV6 {
      if length < transport + ICMP_MINIMUM_SIZE {
        return false;
      }
      NatPartialUpdateChecksum(buffer, fixedEnd + transport + ICMP_CHECKSUM_OFFSET, addressAt, to);
    }
    whole := true;
  }

  /** Repairs whatever checksum covers the addresses of the packet, looking past one leading fragment header. */
  method RepairPacket(buffer: array<byte>, start: nat, side: Side, to: Address6) returns (whole: bool)
    requires start + 40 <= buffer.Length
    modifies buffer
    ensures whole <==> !AddressCoverage(View6(old(buffer[..])[start..])).TooShort?
    ensures buffer[..] == Repair(old(buffer[..]), start + 40, AddressCoverage(View6(old(buffer[..])[start..])),
            start + side.Offset(), to)
  {
    ghost var p := View6(buffer[..][start..]);
    var fixedEnd := start + IPV6_FIXED_SIZE;
    assert buffer[start + 6] == p.NextHeader();
    if buffer[start + 6] == FRAGMENT {
      if buffer.Length - fixedEnd < FRAGMENT_HEADER_SIZE {
        return false;
      }
      assert buffer[fixedEnd] == p.rest[0] && buffer[fixedEnd + 2] == p.rest[2] && buffer[fixedEnd + 3] == p.rest[3];
      if (buffer[fixedEnd + 2] as int * 256 + buffer[fixedEnd + 3]) / 8 != 0 {
        whole := true;
      } else {
        whole := RepairTransport(buffer, fixedEnd, buffer[fixedEnd], FRAGMENT_HEADER_SIZE, start + side.Offset(), to);
      }
    } else {
      whole := RepairTransport(buffer, fixedEnd, buffer[start + 6], 0, start + side.Offset(), to);
    }
  }

  /** Rewrites, in place, one address of the packet that runs from start to the end of the buffer. */
  method NAT66InPlaceTranslateAddress(buffer: array<byte>, start: nat, to: Address6, side: Side)
    requires start <= buffer.Length
    modifies buffer
    ensures buffer[..][..start] == old(buffer[..])[..start]
    ensures buffer.Length - start < 40 ==> buffer[..] == old(buffer[..])
    ensures buffer.Length - start >= 40 ==>
              buffer[..][start..] == Rewrite(View6(old(buffer[..])[start..]), side, to).Bytes()
  {
    if buffer.Length - start < IPV6_FIXED_SIZE {
      return;
    }
    ghost var was := buffer[..];
    var whole := RepairPacket(buffer, start, side, to);
    if whole {
      RepairWindow(was, start, side, to);
      Write(buffer, start + side.Offset(), to);
    }
  }
}
