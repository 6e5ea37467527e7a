/** Expanding, in place, the IPv4 packet quoted inside an ICMP error (internal/clat/siit46.go:197-299). The outer
    packet moves 20 bytes down into the headroom, which opens 20 bytes between its ICMP header and the quoted
    transport bytes. */
module Siit46Quote {
  import opened Bytes
  import opened Wire
  import opened Siit46Spec
  import opened Siit46

  datatype QuoteResult = Kept | Grown | Overran

  /** The packet moved down, the quoted transport bytes moved back up, and the new header between them. */
  lemma MoveAndGrow(s: seq<byte>, at: nat, length: nat, head: seq<byte>, payload: seq<byte>)
    requires at >= 20 && at + length <= |s| && length >= 68 && |head| == 40 && |payload| == length - 68
    ensures Splice(Splice(Splice(s, at - 20, s[at..at + length]), at + 68, payload), at + 28, head)
         == Splice(s, at - 20, s[at..at + 48] + head + payload)
  {
    hide Splice;
    var o, a := at - 20, s[at..at + length];
    var x1 := Splice(s, o, a);
    var x2 := Splice(x1, at + 68, payload);
    SpliceTake(s, o, a, 48);
    SliceInside(s, at, at + length, 0, 48);
    SpliceOutside(s, o, a, at + length, |s|);
    SpliceOutside(x1, at + 68, payload, 0, at + 28);
    SpliceTail(x1, at + 68, payload);
    SpliceParts(x2, at + 28, head);
    SpliceParts(s, o, s[at..at + 48] + head + payload);
    assert x2[at + 68..] == payload + s[at + length..];
    assert s[..o] + s[at..at + 48] + head + (payload + s[at + length..])
        == s[..o] + (s[at..at + 48] + head + payload) + s[at + length..];
  }

  /** After the packet moved down, the quoted transport bytes stand 40 bytes before their place. */
  lemma MovedQuote(s: seq<byte>, at: nat, length: nat)
    requires at >= 20 && at + length <= |s| && length >= 68
    ensures Splice(s, at - 20, s[at..at + length])[at + 48..at + length - 20] == s[at + 68..at + length]
  {
    SpliceSlices(s, at - 20, s[at..at + length], 68, length);
    SliceInside(s, at, at + length, 68, length);
  }

  lemma SpliceSlices(s: seq<byte>, off: nat, t: seq<byte>, i: nat, j: nat)
    requires off + |t| <= |s| && i <= j <= |t|
    ensures Splice(s, off, t)[off + i..off + j] == t[i..j]
  {
  }

  /** Clearing before writing leaves nothing of what was there. */
  lemma ClearedHead(s: seq<byte>, at: nat, head: seq<byte>)
    requires at + |head| <= |s|
    ensures Splice(Splice(s, at, Zeros(|head|)), at, head) == Splice(s, at, head)
  {
  }

  /** Writes the IPv6 header of a quoted packet over 40 cleared bytes. */
  method WriteQuoteHead(buffer: array<byte>, at: nat, tos: byte, payloadLength: u16, next: byte, hopLimit: byte,
                        src: Address4, dst: Address4)
    requires at + 40 <= buffer.Length
    modifies buffer
    ensures buffer[..] == Splice(old(buffer[..]), at,
                                 Head6Of(tos, payloadLength, next, hopLimit) + (Translated4(src) + Translated4(dst)))
  {
    hide Splice, Head6Of;
    ghost var was := buffer[..];
    ghost var head := Head6Of(tos, payloadLength, next, hopLimit);
    ghost var all := head + (Translated4(src) + Translated4(dst));
    Write(buffer, at, Zeros(IPV6_FIXED_SIZE));
    ghost var cleared := buffer[..];
    WriteHead(buffer, at, tos, payloadLength, next, hopLimit);
    Write(buffer, at + SOURCE_OFFSET, PREFIX);
    SpliceAdjacent(cleared, at, head, PREFIX);
    Write(buffer, at + SOURCE_OFFSET + 12, src);
    SpliceAdjacent(cleared, at, head + PREFIX, src);
    Write(buffer, at + DESTINATION_OFFSET, PREFIX);
    SpliceAdjacent(cleared, at, head + PREFIX + src, PREFIX);
    Write(buffer, at + DESTINATION_OFFSET + 12, dst);
    SpliceAdjacent(cleared, at, head + PREFIX + src + PREFIX, dst);
    assert head + PREFIX + src + PREFIX + dst == all;
    ClearedHead(was, at, all);
  }

  /** The packet with its quote expanded: the outer length grows by 20, the quote gets an IPv6 header. */
  function Expanded(outer: seq<byte>, n: u16, t: seq<byte>): (r: seq<byte>)
    requires |outer| == 48 && 28 <= n <= |t| && n + 20 < 0x1_0000
    requires t[17] == ICMPV4 ==> n >= 32
    ensures |r| == 68 + n - 8
  {
    Splice(outer, 4, Be16(n + 20)) + QuoteHead46(t[8..]) + QuotePayload46(t[8..], t[28..n])
  }

  /** Whether the quote in the rest of the buffer is translated; the same tests, in the same order, as the original. */
  method QuoteIsTranslatable(quote: seq<byte>) returns (ok: bool)
    ensures ok <==> QuoteTranslatable46(quote)
  {
    if |quote| < IPV4_MINIMUM_SIZE || Version(quote) != 4 || HeaderLength4(quote) != IPV4_MINIMUM_SIZE {
      return false;
    }
    if MoreFragments4(quote) || FragmentOffset4(quote) != 0 {
      return false;
    }
    if quote[9] == TCP || quote[9] == UDP {
      return |quote| >= IPV4_MINIMUM_SIZE + 8;
    } else if quote[9] == ICMPV4 {
      return |quote| >= IPV4_MINIMUM_SIZE + ICMP_MINIMUM_SIZE && (quote[20] == 8 || quote[20] == 0);
    } else {
      return false;
    }
  }

  /** Translates the transport header of a quoted ICMP echo message of n bytes at offset at. */
  method TranslateQuotedEcho(buffer: array<byte>, addrsAt: nat, at: nat, n: u16)
    requires addrsAt + 32 <= at && at + n <= buffer.Length && n >= 4
    requires buffer[at] == 8 || buffer[at] == 0
    modifies buffer
    ensures var t := old(buffer[..])[at..at + n];
            buffer[..] == Splice(old(buffer[..]), at,
                                 Sealed6(old(buffer[..])[addrsAt..addrsAt + 32],
                                     t[0 := if t[0] == 8 then 128 else 129]))
  {
    hide Splice, Sealed6;
    ghost var was := buffer[..];
    ghost var t := was[at..at + n];
    var typ: byte := if buffer[at] == 8 then 128 else 129;
    Write(buffer, at, [typ]);
    SpliceSlice(was, at, at + n, 0, [typ]);
    SpliceParts(t, 0, [typ]);
    assert Splice(t, 0, [typ]) == t[0 := typ];
    SpliceSees(was, at, t[0 := typ]);
    SpliceOutside(was, at, t[0 := typ], addrsAt, addrsAt + 32);
    SealIcmp6(buffer, addrsAt, at, n);
    SpliceWithin(was, at, t[0 := typ], 0, Sealed6(was[addrsAt..addrsAt + 32], t[0 := typ]));
    SpliceAll(t[0 := typ], Sealed6(was[addrsAt..addrsAt + 32], t[0 := typ]));
  }

  lemma SpliceAll(s: seq<byte>, t: seq<byte>)
    requires |s| == |t|
    ensures Splice(s, 0, t) == t
  {
  }

  lemma QuoteSize(q: seq<byte>)
    requires QuoteTranslatable46(q)
    ensures |q| >= 28 && (q[9] == ICMPV4 ==> q[20] == 8 || q[20] == 0)
  {
  }

  /** The pieces of the moved packet, and what changing one of them does. */
  lemma BlockPieces(outer: seq<byte>, head: seq<byte>, payload: seq<byte>, payload': seq<byte>, length: seq<byte>)
    requires |outer| == 48 && |head| == 40 && |payload| == |payload'| && |length| == 2
    ensures var block := outer + head + payload;
            && block[56..88] == head[8..40] && block[88..88 + |payload|] == payload
            && Splice(block, 88, payload') == outer + head + payload'
            && Splice(outer + head + payload', 4, length) == Splice(outer, 4, length) + head + payload'
  {
  }

  /** The two moves: the packet of length bytes at at goes down by 20 bytes, the quoted transport bytes come back up,
      and an IPv6 header for the quote fills the gap. */
  method MoveQuote(buffer: array<byte>, at: nat, length: nat, quote: seq<byte>)
    requires at >= 20 && at + length <= buffer.Length && length >= 68 && |quote| >= 20
    modifies buffer
    ensures buffer[..] == Splice(old(buffer[..]), at - 20,
                                 old(buffer[..])[at..at + 48] + QuoteHead46(quote)
                                     + old(buffer[..])[at + 68..at + length])
  {
    hide Splice, Head6Of, Translated4;
    ghost var was := buffer[..];
    var quoteAt := at - HEADER_GROWTH + IPV6_FIXED_SIZE + ICMP_MINIMUM_SIZE;
    Write(buffer, at - HEADER_GROWTH, buffer[at..at + length]);
    MovedQuote(was, at, length);
    Write(buffer, quoteAt + IPV6_FIXED_SIZE, buffer[quoteAt + IPV4_MINIMUM_SIZE..quoteAt + length - 48]);
    WriteQuoteHead(buffer, quoteAt, quote[1], Sub16(Word(quote, 2), IPV4_MINIMUM_SIZE), NextHeaderOf(quote[9]),
        quote[8],
                   quote[12..16], quote[16..20]);
    MoveAndGrow(was, at, length, QuoteHead46(quote), was[at + 68..at + length]);
  }

  /** Translates the quoted echo header behind the new quote header. */
  method FinishQuotedEcho(buffer: array<byte>, ghost was: seq<byte>, at: nat, ghost outer: seq<byte>, quote: seq<byte>,
      ghost payload: seq<byte>, n: u16)
    requires at >= 20 && |outer| == 48 && |quote| >= 20 && |payload| == n >= 4 && quote[9] == ICMPV4
    requires payload[0] == 8 || payload[0] == 0
    requires at + 68 + n <= |was| && buffer[..] == Splice(was, at - 20, outer + QuoteHead46(quote) + payload)
    modifies buffer
    ensures buffer[..] == Splice(was, at - 20, outer + QuoteHead46(quote) + QuotePayload46(quote, payload))
  {
    hide Splice, Head6Of, Translated4, Sealed6;
    ghost var head := QuoteHead46(quote);
    ghost var block := outer + head + payload;
    ghost var payload' := QuotePayload46(quote, payload);
    assert |buffer[..]| == |was|;
    BlockPieces(outer, head, payload, payload', [0, 0]);
    SpliceSlices(was, at - 20, block, 56, 88);
    SpliceSlices(was, at - 20, block, 88, 88 + |payload|);
    assert buffer[..][at + 68..at + 68 + n] == payload;
    assert buffer[at + 68] == payload[0];
    TranslateQuotedEcho(buffer, at + 36, at + 68, n);
    assert head[8..40] == Addresses46(quote);
    SpliceWithin(was, at - 20, block, 88, payload');
  }

  lemma ExpandedParts(outer: seq<byte>, n: u16, t: seq<byte>)
    requires |outer| == 48 && 28 <= n <= |t| && n + 20 < 0x1_0000
    requires t[17] == ICMPV4 ==> n >= 32
    ensures Expanded(outer, n, t) == Splice(outer, 4, Be16(n + 20)) + QuoteHead46(t[8..])
            + QuotePayload46(t[8..], t[28..n])
  {
  }

  /** Expands the quote of the ICMP error of n bytes in the packet at offset at. */
  method ExpandQuote(buffer: array<byte>, at: nat, n: u16, quote: seq<byte>)
    requires at >= 20 && 28 <= n && n + 20 < 0x1_0000 && at + 40 + n <= buffer.Length
    requires quote == buffer[..][at + 48..] && |quote| >= 28
    requires quote[9] == ICMPV4 ==> n >= 32 && (quote[20] == 8 || quote[20] == 0)
    modifies buffer
    ensures buffer[..][at - 20..] == Expanded(old(buffer[..])[at..at + 48], n, old(buffer[..])[at + 40..])
                                     + old(buffer[..])[at + 40..][n..]
  {
    hide Splice, QuoteHead46, QuotePayload46, Be16, Expanded;
    ghost var was := buffer[..];
    ghost var t := was[at + 40..];
    SliceOfSlice(was, at + 40, 8, |t|);
    assert quote == t[8..];
    MoveQuote(buffer, at, IPV6_FIXED_SIZE + n, quote);
    ghost var outer, head, payload := was[at..at + 48], QuoteHead46(quote), t[28..n];
    SliceOfSlice(was, at + 40, 28, n);
    if quote[9] == ICMPV4 {
      FinishQuotedEcho(buffer, was, at, outer, quote, payload, n - 28);
    } else {
      QuotedAsCaptured(quote, payload);
    }
    ghost var payload' := QuotePayload46(quote, payload);
    BlockPieces(outer, head, payload, payload', Be16(n + HEADER_GROWTH));
    Write(buffer, at - HEADER_GROWTH + 4, Be16(n + HEADER_GROWTH));
    SpliceWithin(was, at - 20, outer + head + payload', 4, Be16(n + HEADER_GROWTH));
    ExpandedParts(outer, n, t);
    ExpandedTail(was, at, n, Expanded(outer, n, t));
  }

  /** Behind the expanded message stands what trailed the packet. */
  lemma ExpandedTail(was: seq<byte>, at: nat, n: nat, expanded: seq<byte>)
    requires at >= 20 && at + 40 + n <= |was| && |expanded| == 60 + n
    ensures Splice(was, at - 20, expanded)[at - 20..] == expanded + was[at + 40..][n..]
  {
    hide Splice;
    SpliceTail(was, at - 20, expanded);
    SliceOfSlice(was, at + 40, n, |was| - at - 40);
  }

  /** Expands the packet quoted in the ICMP error of n bytes inside the IPv6 packet at reserved + 16. The tests look at
      everything up to the end of the buffer, the moves at the n bytes of the message: where a short quote passes the
      tests only thanks to trailing bytes, a slice of the original runs out of range (Overran). */
  method TranslateIcmpErrorQuote(buffer: array<byte>, reserved: byte, n: u16) returns (r: QuoteResult, reserved': byte)
    requires 8 <= n && n + 20 < 0x1_0000 && reserved + 16 + 40 + n <= buffer.Length
    modifies buffer
    ensures var t := old(buffer[..])[reserved + 16 + 40..];
            var go := QuoteTranslatable46(t[8..]) && reserved >= HEADER_GROWTH;
            && (r.Kept? <==> !go)
            && (r.Overran? <==> go && QuoteOverruns46(t, n))
    ensures r.Kept? ==> buffer[..] == old(buffer[..]) && reserved' == reserved
    ensures r.Grown? ==> reserved' == reserved - 20
    ensures var at := reserved + 16;
            var t := old(buffer[..])[at + 40..];
            r.Grown? ==> buffer[..][at - 20..] == Expanded(old(buffer[..])[at..at + 48], n, t) + t[n..]
  {
    hide Expanded, QuoteTranslatable46;
    var at := reserved + 16;
    ghost var t := buffer[..][at + 40..];
    var quote := buffer[at + 48..];
    SliceOfSlice(buffer[..], at + 40, 8, |t|);
    assert quote == t[8..];
    var ok := QuoteIsTranslatable(quote);
    if !ok || reserved < HEADER_GROWTH {
      return Kept, reserved;
    }
    QuoteSize(quote);
    assert t[17] == quote[9];
    reserved' := reserved - HEADER_GROWTH;
    var oldQuoteLength := n - ICMP_MINIMUM_SIZE;
    if oldQuoteLength < IPV4_MINIMUM_SIZE || (quote[9] == ICMPV4 && oldQuoteLength < IPV4_MINIMUM_SIZE + 4) {
      return Overran, reserved';
    }
    ExpandQuote(buffer, at, n, quote);
    r := Grown;
  }

  lemma QuotedAsCaptured(q: seq<byte>, t: seq<byte>)
    requires |q| >= 20 && q[9] != ICMPV4
    ensures QuotePayload46(q, t) == t
  {
  }
}
