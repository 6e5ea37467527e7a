/** Translating, in place, an ICMPv4 message to ICMPv6 (internal/clat/siit46.go:99-195). */
module Siit46Icmp {
  import opened Bytes
  import opened Wire
  import opened Siit46Spec

  /** The largest plateau below length that an IPv4 link can have, or 0: the search the table is walked for. */
  lemma PlateauIsLargest(length: u16)
    ensures var p := PlateauFrom(0, length);
            && (p != 0 ==> p in PLATEAUS && IPV4_MINIMUM_MTU <= p < length)
            && forall q :: q in PLATEAUS && IPV4_MINIMUM_MTU <= q < length ==> q <= p
  {
    PlateauFromIsLargest(0, length);
    forall q | q in PLATEAUS && IPV4_MINIMUM_MTU <= q < length
      ensures q <= PlateauFrom(0, length)
    {
      var k :| 0 <= k < |PLATEAUS| && PLATEAUS[k] == q;
    }
  }

  lemma {:induction false} PlateauFromIsLargest(i: nat, length: u16)
    ensures var p := PlateauFrom(i, length);
            && (p != 0 ==> p in PLATEAUS && IPV4_MINIMUM_MTU <= p < length)
            && forall k :: i <= k < |PLATEAUS| && IPV4_MINIMUM_MTU <= PLATEAUS[k] < length ==> PLATEAUS[k] <= p
    decreases |PLATEAUS| - i
  {
    assert forall j, k :: 0 <= j < k < |PLATEAUS| ==> PLATEAUS[j] > PLATEAUS[k];
    if i < |PLATEAUS| && PLATEAUS[i] >= IPV4_MINIMUM_MTU && PLATEAUS[i] >= length {
      PlateauFromIsLargest(i + 1, length);
    }
  }

  method FindPlateau(length: u16) returns (mtu: u16)
    ensures mtu == PlateauFrom(0, length)
  {
    mtu := 0;
    var i := 0;
    while i < |PLATEAUS|
      invariant 0 <= i <= |PLATEAUS|
      invariant PlateauFrom(0, length) == PlateauFrom(i, length)
    {
      if PLATEAUS[i] < IPV4_MINIMUM_MTU {
        break;
      }
      if PLATEAUS[i] < length {
        mtu := PLATEAUS[i];
        break;
      }
      i := i + 1;
    }
  }

  /** Writing the first bytes of an ICMP header leaves the others. */
  lemma HeadSplice(s: seq<byte>, at: nat, a: seq<byte>)
    requires at + 8 <= |s| && |a| <= 8
    ensures Splice(s, at, a) == Splice(s, at, a + s[at..][|a|..8])
  {
    SpliceParts(s, at, a);
    SpliceParts(s, at, a + s[at..][|a|..8]);
    SliceOfSlice(s, at, |a|, 8);
    assert s[at + |a|..at + 8] + s[at + 8..] == s[at + |a|..];
  }

  method SetTypeAndCode(buffer: array<byte>, at: nat, typ: byte, code: byte)
    requires at + 8 <= buffer.Length
    modifies buffer
    ensures buffer[..] == Splice(old(buffer[..]), at, [typ, code] + old(buffer[..])[at..][2..8])
  {
    hide Splice;
    ghost var was := buffer[..];
    Write(buffer, at, [typ]);
    Write(buffer, at + 1, [code]);
    SpliceAdjacent(was, at, [typ], [code]);
    assert [typ] + [code] == [typ, code];
    HeadSplice(was, at, [typ, code]);
  }

  /** Sets the type, the code and the 4 bytes after the checksum. */
  method SetTypeCodeAndRest(buffer: array<byte>, at: nat, typ: byte, code: byte, rest: seq<byte>)
    requires at + 8 <= buffer.Length && |rest| == 4
    modifies buffer
    ensures buffer[..] == Splice(old(buffer[..]), at, [typ, code] + old(buffer[..])[at..][2..4] + rest)
  {
    hide Splice;
    ghost var was := buffer[..];
    ghost var t := was[at..];
    SetTypeAndCode(buffer, at, typ, code);
    Write(buffer, at + 4, rest);
    SpliceWithin(was, at, [typ, code] + t[2..8], 4, rest);
    SpliceParts([typ, code] + t[2..8], 4, rest);
    assert Splice([typ, code] + t[2..8], 4, rest) == [typ, code] + t[2..4] + rest;
  }

  method TranslateUnreachable(buffer: array<byte>, at: nat)
    requires at + 8 <= buffer.Length && buffer[at] == 3
    modifies buffer
    ensures buffer[..] == Splice(old(buffer[..]), at, IcmpHead46(old(buffer[..])[at..]))
  {
    hide Splice, Be32;
    ghost var was := buffer[..];
    ghost var t := was[at..];
    var code := buffer[at + 1];
    if code in {0, 1, 5, 6, 7, 8, 11, 12} {
      SetTypeAndCode(buffer, at, 1, 0);
    } else if code in {9, 10, 13, 15} {
      SetTypeAndCode(buffer, at, 1, 1);
    } else if code == 2 {
      SetTypeCodeAndRest(buffer, at, 4, 1, Be32(6));
    } else if code == 3 {
      SetTypeAndCode(buffer, at, 1, 4);
    } else if code == 4 {
      var mtu: u16 := buffer[at + 6] as int * 256 + buffer[at + 7];
      assert mtu == Word(t, 6);
      if mtu < IPV4_MINIMUM_MTU {
        var quote := buffer[at + 8..];
        if |quote| < IPV4_MINIMUM_SIZE {
          mtu := IPV4_MINIMUM_MTU;
        } else {
          var length := Word(quote, 2);
          assert length == Word(t, 10);
          var plateau := FindPlateau(length);
          if plateau != 0 {
            mtu := plateau;
          }
          if mtu < IPV4_MINIMUM_MTU {
            mtu := IPV4_MINIMUM_MTU;
          }
        }
      }
      SetTypeCodeAndRest(buffer, at, 2, 0, Be32(Mtu46(mtu)));
    } else {
      SpliceSame(was, at, 8);
    }
  }

  method TranslateParameterProblem(buffer: array<byte>, at: nat)
    requires at + 8 <= buffer.Length && buffer[at] == 12
    modifies buffer
    ensures buffer[..] == Splice(old(buffer[..]), at, IcmpHead46(old(buffer[..])[at..]))
  {
    hide Splice;
    ghost var was := buffer[..];
    ghost var t := was[at..];
    var pointer := Pointer46(buffer[at + 4], buffer[at + 7]);
    SetTypeAndCode(buffer, at, 4, 0);
    Write(buffer, at + 7, [pointer]);
    Write(buffer, at + 4, [0]);
    ghost var head := [4, 0] + t[2..8];
    SpliceWithin(was, at, head, 7, [pointer]);
    SpliceWithin(was, at, Splice(head, 7, [pointer]), 4, [0]);
    PointerMoves(t, pointer);
  }

  lemma PointerMoves(t: seq<byte>, pointer: byte)
    requires |t| >= 8
    ensures Splice(Splice([4, 0] + t[2..8], 7, [pointer]), 4, [0]) == [4, 0] + t[2..4] + [0] + t[5..7] + [pointer]
  {
    assert Splice([4, 0] + t[2..8], 7, [pointer]) == [4, 0] + t[2..7] + [pointer];
  }

  /** Translates the first 8 bytes of the ICMPv4 message at offset at, all but its checksum. */
  method TranslateIcmpHead(buffer: array<byte>, at: nat) returns (translateQuote: bool)
    requires at + 8 <= buffer.Length
    modifies buffer
    ensures buffer[..] == Splice(old(buffer[..]), at, IcmpHead46(old(buffer[..])[at..]))
    ensures translateQuote <==> IsError46(old(buffer[..])[at])
  {
    hide Splice, Be32;
    ghost var was := buffer[..];
    translateQuote := false;
    if buffer[at] == 8 {
      Write(buffer, at, [128]);
      HeadSplice(was, at, [128]);
    } else if buffer[at] == 0 {
      Write(buffer, at, [129]);
      HeadSplice(was, at, [129]);
    } else if buffer[at] == 3 {
      translateQuote := true;
      TranslateUnreachable(buffer, at);
    } else if buffer[at] == 11 {
      translateQuote := true;
      Write(buffer, at, [3]);
      HeadSplice(was, at, [3]);
    } else if buffer[at] == 12 {
      translateQuote := true;
      TranslateParameterProblem(buffer, at);
    } else {
      SpliceSame(was, at, 8);
    }
  }
}
