/** Building ICMPv6 Packet Too Big messages (internal/icmp6/icmp6.go). */
module PacketTooBig {
  import opened Wrappers
  import opened Bytes
  import opened OnesComplement
  import opened Wire
  import opened OutboundTheorems
  import Siit46Spec

  const QUOTE_CAP := Siit46Spec.IPV6_MINIMUM_MTU - IPV6_FIXED_SIZE - ICMP_MINIMUM_SIZE

  /** Section 3.2 of RFC 4443: a valid Packet Too Big from src to dst, quoting as much of orig as fits in 1280 bytes. */
  predicate IsPacketTooBig(p: V6, src: Address6, dst: Address6, mtu: u32, orig: seq<byte>) {
    var quote := Siit46Spec.Min(|orig|, QUOTE_CAP);
    && p.src == src && p.dst == dst && p.head[0] / 16 == 6 && p.HopLimit() == 64 && p.NextHeader() == ICMPV6
    && p.PayloadLength() == |p.rest| == 8 + quote
    && p.rest[0] == 2 && p.rest[1] == 0 && Word(p.rest, 4) * 0x1_0000 + Word(p.rest, 6) == mtu
    && p.rest[8..] == orig[..quote] && p.TransportOk()
    && |p.Bytes()| <= Siit46Spec.IPV6_MINIMUM_MTU
  }

  /** The same, with the numbers written out. */
  lemma NoticeBytes(p: V6, src: Address6, dst: Address6, mtu: u32, orig: seq<byte>)
    ensures IsPacketTooBig(p, src, dst, mtu, orig) <==>
              var n := if |orig| < 1232 then |orig| else 1232;
              && p.src == src && p.dst == dst && p.head[0] / 16 == 6
              && p.head[4] as int * 256 + p.head[5] == 8 + n == |p.rest| && p.head[6] == 58 && p.head[7] == 64
              && p.rest[0] == 2 && p.rest[1] == 0
              && (p.rest[4] as int * 256 + p.rest[5]) * 65536 + p.rest[6] as int * 256 + p.rest[7] == mtu
              && p.rest[8..] == orig[..n]
              && (WordSum(src + dst) + 8 + n + 58 + WordSum(p.rest)) % 65535 == 0
  {
    hide TransportSum, TransportValid, WordSum, V6.Bytes;
    var n := if |orig| < 1232 then |orig| else 1232;
    if p.PayloadLength() == |p.rest| && p.NextHeader() == 58 {
      assert p.Payload() == p.rest;
      TransportValidIff(p.src + p.dst, 58, p.rest);
      SumIs(p.src + p.dst, p.rest);
    }
  }

  lemma SumIs(addrs: seq<byte>, t: seq<byte>)
    ensures TransportSum(addrs, 58, t) == WordSum(addrs) + |t| + 58 + WordSum(t)
  {
  }

  /** The ICMPv6 checksum as it is summed up: the pseudo-header, the quote, and the header around its checksum word. */
  function MessageChecksum(src: Address6, dst: Address6, header: seq<byte>, quote: seq<byte>): u16
    requires |header| == 8 && |quote| + 8 < 0x1_0000
  {
    var pseudo := Combine(Combine(Checksum(src + dst), 8 + |quote|), ICMPV6);
    Complement(Combine(Combine(Combine(pseudo, Checksum(quote)), Checksum(header[..2])), Checksum(header[4..])))
  }

  /** It is the checksum that makes the message valid. */
  lemma MessageChecksumSeals(src: Address6, dst: Address6, header: seq<byte>, quote: seq<byte>)
    requires |header| == 8 && |quote| + 8 < 0x1_0000 && Word(header, 2) == 0
    ensures TransportValid(src + dst, ICMPV6, SetWord(header + quote, 2, MessageChecksum(src, dst, header, quote)))
  {
    hide Combine, Checksum, WordSum, SetWord, TransportValid;
    var addrs, n := src + dst, 8 + |quote|;
    ChecksumIsFold(addrs);
    ChecksumIsFold(quote);
    ChecksumIsFold(header[..2]);
    ChecksumIsFold(header[4..]);
    FoldAdd(WordSum(addrs), n);
    FoldAdd(WordSum(addrs) + n, ICMPV6);
    FoldAdd(WordSum(addrs) + n + ICMPV6, WordSum(quote));
    FoldAdd(WordSum(addrs) + n + ICMPV6 + WordSum(quote), WordSum(header[..2]));
    FoldAdd(WordSum(addrs) + n + ICMPV6 + WordSum(quote) + WordSum(header[..2]), WordSum(header[4..]));
    HeaderSum(header);
    WordSumConcat(header, quote);
    assert MessageChecksum(src, dst, header, quote) == Complement(Fold(TransportSum(addrs, ICMPV6, header + quote)));
    SealedValid(addrs, ICMPV6, header + quote, 2);
  }

  lemma HeaderSum(header: seq<byte>)
    requires |header| == 8 && Word(header, 2) == 0
    ensures WordSum(header) == WordSum(header[..2]) + WordSum(header[4..])
  {
    assert header == header[..2] + header[2..];
    WordSumConcat(header[..2], header[2..]);
    assert header[2..][2..] == header[4..];
  }

  function MessageHeader(mtu: u32): (h: seq<byte>)
    ensures |h| == 8 && Word(h, 2) == 0
  {
    [2, 0, 0, 0] + Be32(mtu)
  }

  /** Writes the message, its checksum still zero, behind the room for the IPv6 header. */
  method WriteMessage(out: array<byte>, mtu: u32, quote: seq<byte>)
    requires out.Length == 48 + |quote| && out[..] == Zeros(out.Length)
    modifies out
    ensures out[..][40..] == MessageHeader(mtu) + quote
  {
    hide Be32;
    out[IPV6_FIXED_SIZE] := 2;
    Write(out, IPV6_FIXED_SIZE + 4, Be32(mtu));
    ghost var headed := out[..];
    assert headed[40..48] == MessageHeader(mtu);
    Write(out, IPV6_FIXED_SIZE + ICMP_MINIMUM_SIZE, quote);
    assert out[..][40..48] == headed[40..48] && out[..][48..] == quote;
    assert out[..][40..] == out[..][40..48] + out[..][48..];
  }

  /** Writes the IPv6 header in front of an ICMPv6 message. */
  method WriteHeader(out: array<byte>, length: u16, src: Address6, dst: Address6)
    requires out.Length >= 40
    modifies out
    ensures out[..] == V6([0x60, 0, 0, 0] + Be16(length) + [ICMPV6, 64], src, dst, old(out[..])[40..]).Bytes()
  {
    hide Be16, Splice;
    ghost var was := out[..];
    Write(out, 0, [0x60, 0, 0, 0]);
    Write(out, 4, Be16(length));
    Write(out, 6, [ICMPV6, 64]);
    Write(out, SOURCE_OFFSET, src);
    Write(out, DESTINATION_OFFSET, dst);
    ghost var head := [0x60, 0, 0, 0] + Be16(length) + [ICMPV6, 64];
    SpliceAdjacent(was, 0, [0x60, 0, 0, 0], Be16(length));
    SpliceAdjacent(was, 0, [0x60, 0, 0, 0] + Be16(length), [ICMPV6, 64]);
    SpliceAdjacent(was, 0, head, src);
    SpliceAdjacent(was, 0, head + src, dst);
    SpliceParts(was, 0, head + src + dst);
  }

  /** Fills in the checksum. */
  method SealMessage(out: array<byte>, src: Address6, dst: Address6, ghost mtu: u32, ghost quote: seq<byte>)
    requires out.Length >= 48 && |quote| + 8 < 0x1_0000 && out[..][40..] == MessageHeader(mtu) + quote
    modifies out
    ensures out[..][..40] == old(out[..])[..40]
    ensures out[..][40..] ==
            SetWord(MessageHeader(mtu) + quote, 2, MessageChecksum(src, dst, MessageHeader(mtu), quote))
  {
    hide Checksum, Combine, SetWord, Splice, MessageHeader;
    ghost var was := out[..];
    SliceOfSlice(was, 40, 0, 8);
    SliceOfSlice(was, 40, 8, |was| - 40);
    ghost var message := MessageHeader(mtu) + quote;
    assert message[..8] == MessageHeader(mtu) && message[8..] == quote;
    var sum := MessageChecksum(src, dst, out[40..48], out[48..]);
    Write(out, IPV6_FIXED_SIZE + ICMP_CHECKSUM_OFFSET, Be16(sum));
    SetWordIsSplice(was, 42, sum);
    SetWordWindow(was, 40, 2, sum);
  }

  /** The fields of the datagram. */
  lemma IsMessage(p: V6, src: Address6, dst: Address6, mtu: u32, orig: seq<byte>, quote: seq<byte>)
    requires |quote| <= QUOTE_CAP && |quote| == Siit46Spec.Min(|orig|, QUOTE_CAP) && quote == orig[..|quote|]
    requires p.head == [0x60, 0, 0, 0] + Be16(8 + |quote|) + [ICMPV6, 64] && p.src == src && p.dst == dst
    requires p.rest == SetWord(MessageHeader(mtu) + quote, 2, MessageChecksum(src, dst, MessageHeader(mtu), quote))
    ensures IsPacketTooBig(p, src, dst, mtu, orig)
  {
    hide MessageChecksum, TransportValid, SetWord, V6.Bytes;
    var header := MessageHeader(mtu);
    MessageChecksumSeals(src, dst, header, quote);
    assert Word(p.head, 4) == Word(Be16(8 + |quote|), 0);
    assert header[4..] == Be32(mtu);
    assert p.rest[4..8] == (header + quote)[4..8] == Be32(mtu);
    assert Word(p.rest, 4) == Word(p.rest[4..8], 0) && Word(p.rest, 6) == Word(p.rest[4..8], 2);
    assert p.rest[8..] == quote && p.Payload() == p.rest;
  }

  /** The datagram, written part by part into a fresh buffer; the checksum last. */
  method BuildPacketTooBig(src: Address6, dst: Address6, mtu: u32, orig: seq<byte>) returns (out: array<byte>)
    ensures fresh(out) && 40 <= out.Length
    ensures IsPacketTooBig(View6(out[..]), src, dst, mtu, orig)
  {
    hide Checksum, Combine, SetWord, MessageHeader, MessageChecksum, V6.Bytes, IsPacketTooBig, Be16;
    var quoteLen := |orig|;
    if quoteLen > QUOTE_CAP {
      quoteLen := QUOTE_CAP;
    }
    var icmpLen := ICMP_MINIMUM_SIZE + quoteLen;
    out := new byte[IPV6_FIXED_SIZE + icmpLen](i => 0);
    WriteMessage(out, mtu, orig[..quoteLen]);
    WriteHeader(out, icmpLen, src, dst);
    ghost var p := V6([0x60, 0, 0, 0] + Be16(icmpLen) + [ICMPV6, 64], src, dst, MessageHeader(mtu) + orig[..quoteLen]);
    BytesParts(p);
    SealMessage(out, src, dst, mtu, orig[..quoteLen]);
    ghost var q := p.(rest := out[..][40..]);
    BytesParts(q);
    assert out[..] == out[..][..40] + out[..][40..] == q.Bytes();
    ViewOfBytes6(q);
    IsMessage(q, src, dst, mtu, orig, orig[..quoteLen]);
  }

  lemma BytesParts(p: V6)
    ensures p.Bytes()[40..] == p.rest && p.Bytes()[..40] == p.head + p.src + p.dst
    ensures p.Bytes() == p.head + p.src + p.dst + p.rest
  {
  }

  // Whom to tell

  /** The sources worth telling: not unspecified, loopback, multicast, link-local or an IPv4 address in disguise. */
  predicate Notifiable(a: Address6) {
    && a != Zeros(16) && a != Zeros(15) + [1]
    && a[0] != 0xff
    && !(a[0] == 0xfe && a[1] / 64 == 2)
    && a[..12] != Zeros(10) + [0xff, 0xff]
  }

  /** The same, byte by byte. */
  lemma NotifiableBytes(a: Address6)
    ensures Notifiable(a) <==>
              && ((exists i :: 0 <= i < 15 && a[i] != 0) || a[15] > 1)
              && a[0] != 255 && !(a[0] == 254 && 128 <= a[1] <= 191)
              && !((forall i :: 0 <= i < 10 ==> a[i] == 0) && a[10] == a[11] == 255)
  {
    assert a == Zeros(16) <==> forall i :: 0 <= i < 16 ==> a[i] == 0;
    assert a == Zeros(15) + [1] <==> (forall i :: 0 <= i < 15 ==> a[i] == 0) && a[15] == 1;
    var mapped := Zeros(10) + [0xff, 0xff];
    assert a[..12] == mapped <==> (forall i :: 0 <= i < 10 ==> a[i] == 0) && a[10] == 0xff && a[11] == 0xff by {
      assert forall i :: 0 <= i < 12 ==> a[..12][i] == a[i];
      assert mapped[10] == 0xff && mapped[11] == 0xff;
    }
  }

  /** The message for an oversize packet addressed to dstKey goes to the packet's source, unless that is not to be told
      or is dstKey itself. */
  method PacketTooBigFor(dstKey: Address6, mtu: u32, orig: seq<byte>) returns (pkt: Option<seq<byte>>)
    ensures pkt.Some? <==> |orig| >= 40 && Notifiable(orig[8..24]) && orig[8..24] != dstKey
    ensures pkt.Some? ==> |pkt.value| >= 40 && IsPacketTooBig(View6(pkt.value), dstKey, orig[8..24], mtu, orig)
  {
    if |orig| < IPV6_FIXED_SIZE {
      return None;
    }
    var src: Address6 := orig[8..24];
    if !Notifiable(src) || src == dstKey {
      return None;
    }
    var out := BuildPacketTooBig(dstKey, src, mtu, orig);
    pkt := Some(out[..]);
  }
}
