/** Translating, in place, an ICMPv6 message to ICMPv4 (internal/clat/siit64.go:115-317). */
module Siit64Icmp {
  import opened Bytes
  import opened OnesComplement
  import opened Wire
  import opened Siit64Spec
  import opened Siit64
  import Siit46Icmp
  import Siit46Quote

  method TranslateParameterProblem(buffer: array<byte>, at: nat)
    requires at + 8 <= buffer.Length && buffer[at] == 4 && buffer[at + 1] == 0
    modifies buffer
    ensures buffer[..] == Splice(old(buffer[..]), at, IcmpHead64(old(buffer[..])[at..]))
  {
    hide Splice;
    ghost var was := buffer[..];
    ghost var t := was[at..];
    var pointer := Pointer64(buffer[at + 7], buffer[at + 4]);
    Siit46Icmp.SetTypeAndCode(buffer, at, 12, 0);
    Write(buffer, at + 4, [pointer]);
    Write(buffer, at + 7, [0]);
    ghost var head := [12, 0] + t[2..8];
    SpliceWithin(was, at, head, 4, [pointer]);
    SpliceWithin(was, at, Splice(head, 4, [pointer]), 7, [0]);
    PointerMoves(t, pointer);
  }

  lemma PointerMoves(t: seq<byte>, pointer: byte)
    requires |t| >= 8
    ensures Splice(Splice([12, 0] + t[2..8], 4, [pointer]), 7, [0]) == [12, 0] + t[2..4] + [pointer] + t[5..7] + [0]
  {
    assert Splice([12, 0] + t[2..8], 4, [pointer]) == [12, 0] + t[2..4] + [pointer] + t[5..8];
  }

  method TranslatePacketTooBig(buffer: array<byte>, at: nat)
    requires at + 8 <= buffer.Length && buffer[at] == 2
    modifies buffer
    ensures buffer[..] == Splice(old(buffer[..]), at, IcmpHead64(old(buffer[..])[at..]))
  {
    hide Splice, Be16;
    ghost var was := buffer[..];
    ghost var t := was[at..];
    var mtu := Mtu64(buffer[at + 6] as int * 256 + buffer[at + 7]);
    assert mtu == Mtu64(Word(t, 6));
    Siit46Icmp.SetTypeAndCode(buffer, at, 3, 4);
    Write(buffer, at + 6, Be16(mtu));
    ghost var head := [3, 4] + t[2..8];
    SpliceWithin(was, at, head, 6, Be16(mtu));
    SpliceParts(head, 6, Be16(mtu));
    assert Splice(head, 6, Be16(mtu)) == [3, 4] + t[2..6] + Be16(mtu);
  }

  /** Translates the first 8 bytes of the ICMPv6 message at offset at, all but its checksum. */
  method TranslateIcmpHead(buffer: array<byte>, at: nat) returns (translateQuote: bool)
    requires at + 8 <= buffer.Length
    modifies buffer
    ensures buffer[..] == Splice(old(buffer[..]), at, IcmpHead64(old(buffer[..])[at..]))
    ensures translateQuote <==> IsError64(old(buffer[..])[at])
  {
    hide Splice, Be16;
    ghost var was := buffer[..];
    translateQuote := false;
    if buffer[at] == 128 {
      Write(buffer, at, [8]);
      Siit46Icmp.HeadSplice(was, at, [8]);
    } else if buffer[at] == 129 {
      Write(buffer, at, [0]);
      Siit46Icmp.HeadSplice(was, at, [0]);
    } else if buffer[at] == 1 {
      translateQuote := true;
      Siit46Icmp.SetTypeAndCode(buffer, at, 3, UnreachableCode64(buffer[at + 1]));
    } else if buffer[at] == 2 {
      translateQuote := true;
      TranslatePacketTooBig(buffer, at);
    } else if buffer[at] == 3 {
      translateQuote := true;
      Write(buffer, at, [11]);
      Siit46Icmp.HeadSplice(was, at, [11]);
    } else if buffer[at] == 4 {
      translateQuote := true;
      if buffer[at + 1] == 0 {
        TranslateParameterProblem(buffer, at);
      } else if buffer[at + 1] == 1 {
        Siit46Icmp.SetTypeCodeAndRest(buffer, at, 3, 2, [0, 0, 0, 0]);
      } else {
        SpliceSame(was, at, 8);
      }
    } else {
      SpliceSame(was, at, 8);
    }
  }

  /** Computes the checksum of the ICMPv4 message of n bytes at offset at. */
  method SealIcmp4(buffer: array<byte>, at: nat, n: nat)
    requires at + n <= buffer.Length && n >= 4
    modifies buffer
    ensures buffer[..] == Splice(old(buffer[..]), at, Sealed4(old(buffer[..])[at..at + n]))
  {
    hide Splice, SetWord, Be16, Checksum;
    ghost var was := buffer[..];
    ghost var t := was[at..at + n];
    Write(buffer, at + ICMP_CHECKSUM_OFFSET, Be16(0));
    SpliceSlice(was, at, at + n, 2, Be16(0));
    SetWordIsSplice(t, 2, 0);
    SpliceSees(was, at, SetWord(t, 2, 0));
    var sum := Checksum(buffer[at..at + n]);
    Write(buffer, at + ICMP_CHECKSUM_OFFSET, Be16(Complement(sum)));
    SpliceWithin(was, at, SetWord(t, 2, 0), 2, Be16(Complement(sum)));
    SetWordIsSplice(SetWord(t, 2, 0), 2, Complement(sum));
    SetWordTwice(t, 2, 0, Complement(sum));
  }

  /** Whether a quote is translated; the same tests as the original. */
  method QuoteIsTranslatable(quote: seq<byte>) returns (ok: bool)
    ensures ok <==> QuoteTranslatable64(quote)
  {
    if |quote| < IPV6_FIXED_SIZE || Version(quote) != 6 || IsExtensionHeader(quote[6]) {
      return false;
    }
    if quote[6] == ICMPV6 {
      return |quote| >= IPV6_FIXED_SIZE + ICMP_MINIMUM_SIZE && (quote[40] == 128 || quote[40] == 129);
    }
    ok := true;
  }

  lemma QuoteSize(q: seq<byte>)
    requires QuoteTranslatable64(q)
    ensures |q| >= 40 && (q[6] == ICMPV6 ==> |q| >= 48 && (q[40] == 128 || q[40] == 129))
  {
  }

  /** The quote's payload moved up over its longer header, and zeros in the bytes it left. */
  lemma Compacted(s: seq<byte>, at: nat, q: seq<byte>, head: seq<byte>)
    requires |q| >= 40 && at + |q| <= |s| && s[at..at + |q|] == q && |head| == 20
    ensures Splice(Splice(Splice(s, at + 20, q[40..]), at + |q| - 20, Zeros(20)), at, head)
         == Splice(s, at, head + (q[40..] + Zeros(20)))
  {
    hide Splice;
    SpliceAdjacent(s, at + 20, q[40..], Zeros(20));
    BeforeAfter(s, at, head, q[40..] + Zeros(20));
  }

  lemma BeforeAfter(s: seq<byte>, at: nat, a: seq<byte>, b: seq<byte>)
    requires at + |a| + |b| <= |s|
    ensures Splice(Splice(s, at + |a|, b), at, a) == Splice(s, at, a + b)
  {
  }

  /** Writes the IPv4 header of a quoted packet, checksum included. */
  method WriteQuoteHead(buffer: array<byte>, at: nat, tos: byte, total: u16, ttl: byte, protocol: byte, src: Address4,
      dst: Address4)
    requires at + 20 <= buffer.Length
    modifies buffer
    ensures buffer[..] ==
            Splice(old(buffer[..]), at, SealedHead4(tos, total, 0, 0, ttl, protocol, src, dst) + src + dst)
  {
    hide Splice, Be16, FirstTen, SealedHeader, SealedHead4;
    ghost var was := buffer[..];
    WriteFirstFour(buffer, at, tos, total);
    WriteNextSix(buffer, at, 0, 0, ttl, protocol);
    SpliceAdjacent(was, at, [0x45, tos] + Be16(total), Be16(0) + Be16(0) + [ttl, protocol]);
    HeadInTwo(tos, total, 0, 0, ttl, protocol);
    ghost var ten := FirstTen(tos, total, 0, 0, ttl, protocol);
    Write(buffer, at + 10, Be16(0));
    SpliceAdjacent(was, at, ten, Be16(0));
    Write(buffer, at + 12, src);
    SpliceAdjacent(was, at, ten + Be16(0), src);
    Write(buffer, at + 16, dst);
    SpliceAdjacent(was, at, ten + Be16(0) + src, dst);
    ghost var h := ten + Be16(0) + src + dst;
    SpliceSees(was, at, h);
    SealHeader(buffer, at);
    SpliceWithin(was, at, h, 0, SealedHeader(h));
    Siit46Quote.SpliceAll(h, SealedHeader(h));
    SealedHeaderIs(tos, total, 0, 0, ttl, protocol, Be16(0), src, dst);
  }

  /** Recomputing the checksum of a header gives the sealed header, whatever its checksum word was. */
  lemma SealedHeaderIs(tos: byte, total: u16, id: u16, word: u16, ttl: byte, protocol: byte, stale: seq<byte>,
      src: Address4, dst: Address4)
    requires |stale| == 2
    ensures SealedHeader(FirstTen(tos, total, id, word, ttl, protocol) + stale + src + dst)
         == SealedHead4(tos, total, id, word, ttl, protocol, src, dst) + src + dst
  {
    hide Checksum;
    var ten := FirstTen(tos, total, id, word, ttl, protocol);
    var h := ten + stale + src + dst;
    assert SetWord(h, 10, 0) == Head4Of(tos, total, id, word, ttl, protocol, 0) + src + dst;
    var sum := Complement(Checksum(SetWord(h, 10, 0)));
    assert SetWord(SetWord(h, 10, 0), 10, sum) == Head4Of(tos, total, id, word, ttl, protocol, sum) + src + dst;
  }

  /** Translates the type and the checksum of the quoted echo message of n bytes at offset at. */
  method TranslateQuotedEcho(buffer: array<byte>, at: nat, n: nat)
    requires at + n <= buffer.Length && n >= 4
    modifies buffer
    ensures var t := old(buffer[..])[at..at + n];
            buffer[..] == Splice(old(buffer[..]), at, Sealed4(t[0 := if t[0] == 128 then 8 else 0]))
  {
    hide Splice, Sealed4;
    ghost var was := buffer[..];
    ghost var t := was[at..at + n];
    var typ: byte := if buffer[at] == 128 then 8 else 0;
    Write(buffer, at, [typ]);
    SpliceSlice(was, at, at + n, 0, [typ]);
    SpliceParts(t, 0, [typ]);
    assert Splice(t, 0, [typ]) == t[0 := typ];
    SpliceSees(was, at, t[0 := typ]);
    SealIcmp4(buffer, at, n);
    SpliceWithin(was, at, t[0 := typ], 0, Sealed4(t[0 := typ]));
    Siit46Quote.SpliceAll(t[0 := typ], Sealed4(t[0 := typ]));
  }

  /** Compacts the IPv6 packet quoted in the length bytes at offset at into an IPv4 packet, in the same space; a quote
      it does not know how to translate stays as it is. */
  method TranslateQuote(buffer: array<byte>, at: nat, length: nat)
    requires at + length <= buffer.Length
    modifies buffer
    ensures var q := old(buffer[..])[at..at + length];
            buffer[..] == if QuoteTranslatable64(q) then Splice(old(buffer[..]), at, QuoteHead64(q) + QuotePayload64(q))
                          else old(buffer[..])
  {
    var quote := buffer[at..at + length];
    var ok := QuoteIsTranslatable(quote);
    if ok {
      CompactQuote(buffer, at, quote);
    }
  }

  method CompactQuote(buffer: array<byte>, at: nat, quote: seq<byte>)
    requires at + |quote| <= buffer.Length && quote == buffer[..][at..at + |quote|] && QuoteTranslatable64(quote)
    modifies buffer
    ensures |quote| >= 40 && (quote[6] == ICMPV6 ==> |quote| >= 44)
    ensures buffer[..] == Splice(old(buffer[..]), at, QuoteHead64(quote) + QuotePayload64(quote))
  {
    hide Splice, QuoteTranslatable64, SealedHead4, Sealed4, Zeros;
    ghost var was := buffer[..];
    QuoteSize(quote);
    SliceInside(was, at, at + |quote|, 40, |quote|);
    Write(buffer, at + IPV4_MINIMUM_SIZE, buffer[at + IPV6_FIXED_SIZE..at + |quote|]);
    Write(buffer, at + |quote| - HEADER_GROWTH, Zeros(HEADER_GROWTH));
    var tos: byte := quote[0] % 16 * 16 + quote[1] / 16;
    WriteQuoteHead(buffer, at, tos, Add16(IPV4_MINIMUM_SIZE, Word(quote, 4)), quote[7], ProtocolOf(quote[6]),
        quote[20..24], quote[36..40]);
    ghost var head, moved := QuoteHead64(quote), quote[40..] + Zeros(20);
    Compacted(was, at, quote, head);
    if quote[6] == ICMPV6 {
      FinishQuotedEcho(buffer, was, at, head, moved, |quote| - IPV4_MINIMUM_SIZE);
    }
  }

  /** Translates the quoted echo header behind the new quote header. */
  method FinishQuotedEcho(buffer: array<byte>, ghost was: seq<byte>, at: nat, ghost head: seq<byte>,
      ghost moved: seq<byte>, n: nat)
    requires |head| == 20 && |moved| == n >= 4 && at + 20 + |moved| <= |was|
             && buffer[..] == Splice(was, at, head + moved)
    modifies buffer
    ensures buffer[..] == Splice(was, at, head + Sealed4(moved[0 := if moved[0] == 128 then 8 else 0]))
  {
    hide Splice, Sealed4;
    ghost var echoed := Sealed4(moved[0 := if moved[0] == 128 then 8 else 0]);
    assert |buffer[..]| == |was|;
    SpliceSlicesOf(was, at, head + moved, 20, 20 + |moved|);
    assert (head + moved)[20..20 + |moved|] == moved;
    TranslateQuotedEcho(buffer, at + IPV4_MINIMUM_SIZE, n);
    SpliceWithin(was, at, head + moved, 20, echoed);
    SpliceParts(head + moved, 20, echoed);
    assert Splice(head + moved, 20, echoed) == head + echoed;
  }

  lemma HeadOfPrefix(s: seq<byte>, at: nat, n: nat)
    requires at + n <= |s| && n >= 8
    ensures IcmpHead64(s[at..]) == IcmpHead64(s[at..at + n])
  {
    var l, r := s[at..], s[at..at + n];
    SliceInside(s, at, at + n, 0, 8);
    SliceOfSlice(s, at, 0, 8);
    assert l[..8] == r[..8];
    assert l[1..8] == r[1..8] && l[2..8] == r[2..8] && l[2..6] == r[2..6] && l[2..4] == r[2..4] && l[5..7] == r[5..7];
  }

  /** Translates the ICMPv6 message of n bytes at offset at: head, quote and checksum. */
  method TranslateIcmpTransport(buffer: array<byte>, at: nat, n: nat)
    requires n >= 8 && at + n <= buffer.Length
    modifies buffer
    ensures buffer[..] == Splice(old(buffer[..]), at, TranslateIcmp64(old(buffer[..])[at..at + n]))
  {
    hide Splice, IcmpHead64, QuoteTranslatable64, QuoteHead64, QuotePayload64, Sealed4;
    ghost var was := buffer[..];
    ghost var t := was[at..at + n];
    ghost var head, q := IcmpHead64(t), t[8..];
    HeadOfPrefix(was, at, n);
    var translateQuote := TranslateIcmpHead(buffer, at);
    ghost var rest := q;
    HeadThenRest(was, at, head, t);
    if translateQuote {
      ghost var mid := buffer[..];
      SpliceOutside(was, at, head, at + 8, at + n);
      SliceInside(was, at, at + n, 8, n);
      TranslateQuote(buffer, at + ICMP_MINIMUM_SIZE, n - ICMP_MINIMUM_SIZE);
      if QuoteTranslatable64(q) {
        QuoteSize(q);
        rest := QuoteHead64(q) + QuotePayload64(q);
        SpliceAdjacent(was, at, head, rest);
      }
    }
    assert buffer[..] == Splice(was, at, head + rest);
    SpliceSees(was, at, head + rest);
    SealIcmp4(buffer, at, n);
    SpliceWithin(was, at, head + rest, 0, Sealed4(head + rest));
    Siit46Quote.SpliceAll(head + rest, Sealed4(head + rest));
  }

  lemma HeadThenRest(s: seq<byte>, at: nat, head: seq<byte>, t: seq<byte>)
    requires at + |t| <= |s| && t == s[at..at + |t|] && |head| == 8 <= |t|
    ensures Splice(s, at, head) == Splice(s, at, head + t[8..])
  {
    SliceInside(s, at, at + |t|, 8, |t|);
    assert s[at + 8..] == s[at + 8..at + |t|] + s[at + |t|..];
  }
}
