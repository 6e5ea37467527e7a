/** The codecs byte by byte: the PROXY v2 header, its records and the datagram envelope with the numbers of the
    protocols written out, and what is wrong with a block that is refused. */
module CodecWire {
  import opened Wrappers
  import opened Bytes
  import opened ProxyUdp
  import opened Tlv
  import opened HeaderV2
  import opened Datagram

  // Records

  /** The types the protocol sets aside. */
  predicate SetAside(typ: byte) {
    128 <= typ <= 223 || 240 <= typ
  }

  /** One record on the wire: its type, the length of its value, the value. */
  lemma RecordBytes(t: TLV)
    requires |t.value| <= 65535
    ensures Record(t) == [t.typ, |t.value| / 256, |t.value| % 256] + t.value
  {
  }

  /** What is wrong with the record at the front of the bytes s, behind the records ts: it is cut off, or its type
      has been there, or is set aside. */
  function Wrong(ts: seq<TLV>, s: seq<byte>): Option<TlvError>
    requires s != []
  {
    if |s| < 3 || |s| < 3 + s[1] as int * 256 + s[2] then Some(Truncated)
    else if exists t :: t in ts && t.typ == s[0] then Some(Duplicate)
    else if SetAside(s[0]) then Some(ReservedRange)
    else None
  }

  /** Behind records that may be there, decoding fails at the first record that is wrong, and says what is. */
  lemma FailsAt(ts: seq<TLV>, s: seq<byte>)
    requires Encodable(ts) && s != [] && Wrong(ts, s).Some?
    requires forall t :: t in ts ==> !SetAside(t.typ)
    requires forall i, j :: 0 <= i < j < |ts| ==> ts[i].typ != ts[j].typ
    ensures DecodeFrom(Tlv.Encode(ts) + s, 0, {}) == Failed(Wrong(ts, s).value, |Tlv.Encode(ts)|)
  {
    AdmissibleMeans(ts, {});
    var block := Tlv.Encode(ts) + s;
    assert block[0..] == block;
    FailsFrom(block, 0, ts, s, {}, []);
    assert [] + ts == ts;
  }

  lemma {:induction false} FailsFrom(block: seq<byte>, off: nat, ts: seq<TLV>, s: seq<byte>, seen: set<byte>,
      before: seq<TLV>)
    requires off <= |block| && Admissible(ts, seen) && Encodable(ts) && block[off..] == Tlv.Encode(ts) + s
    requires s != [] && Wrong(before + ts, s).Some? && forall b :: b in seen <==> exists t :: t in before && t.typ == b
    ensures DecodeFrom(block, off, seen) == Failed(Wrong(before + ts, s).value, off + |Tlv.Encode(ts)|)
    decreases |ts|
  {
    hide DecodeFrom, Record, Wrong;
    if ts == [] {
      assert before + ts == before && block[off..] == s;
      WrongFirst(block, off, s, seen, before);
    } else {
      var t := ts[0];
      assert Tlv.Encode(ts) + s == Record(t) + (Tlv.Encode(ts[1..]) + s);
      RecordAt(block, off, t, Tlv.Encode(ts[1..]) + s);
      DecodeOne(block, off, seen, t);
      assert before + ts == (before + [t]) + ts[1..];
      forall b
        ensures b in seen + {t.typ} <==> exists u :: u in before + [t] && u.typ == b
      {
        assert t in before + [t];
        assert b in seen ==> exists u :: u in before && u.typ == b && u in before + [t];
      }
      FailsFrom(block, off + 3 + |t.value|, ts[1..], s, seen + {t.typ}, before + [t]);
    }
  }

  lemma WrongFirst(block: seq<byte>, off: nat, s: seq<byte>, seen: set<byte>, before: seq<TLV>)
    requires off <= |block| && block[off..] == s && s != []
    requires Wrong(before, s).Some? && forall b :: b in seen <==> exists t :: t in before && t.typ == b
    ensures DecodeFrom(block, off, seen) == Failed(Wrong(before, s).value, off)
  {
    assert block[off] == s[0];
    if |s| >= 3 {
      assert block[off + 1] == s[1] && block[off + 2] == s[2];
    }
  }

  // Headers

  /** A header on the wire: the signature, version 2 with the PROXY command, a stream or datagram over IPv4 or IPv6,
      the length of everything behind it, the addresses, the ports, the records. */
  function Laid(h: Header2, length: u16, src: seq<byte>, dst: seq<byte>, records: seq<byte>): seq<byte>
  {
    [13, 10, 13, 10, 0, 13, 10, 81, 85, 73, 84, 10, 0x21, h.family, length / 256, length % 256] + src + dst
    + [h.src.port / 256, h.src.port % 256, h.dst.port / 256, h.dst.port % 256] + records
  }

  function HeaderBytes(h: Header2, records: seq<byte>): seq<byte>
  {
    Laid(h, (|h.src.addr| + |h.dst.addr| + 4 + |records|) % 65536, h.src.addr, h.dst.addr, records)
  }

  lemma LaidIs(h: Header2, n: nat, src: seq<byte>, dst: seq<byte>, records: seq<byte>)
    ensures Fixed(h.family, n) + (src + dst + (Be16(h.src.port) + Be16(h.dst.port))) + records
         == Laid(h, n % 65536, src, dst, records)
  {
    assert Be16(h.src.port) + Be16(h.dst.port)
        == [h.src.port / 256, h.src.port % 256, h.dst.port / 256, h.dst.port % 256];
  }

  /** What exists on the wire. */
  predicate OnTheWire(h: Header2) {
    && ((h.family in {0x11, 0x12} && |h.src.addr| == |h.dst.addr| == 4)
        || (h.family in {0x21, 0x22} && |h.src.addr| == |h.dst.addr| == 16))
    && (forall t :: t in h.tlvs ==> |t.value| <= 65535 && !SetAside(t.typ))
    && (forall i, j :: 0 <= i < j < |h.tlvs| ==> h.tlvs[i].typ != h.tlvs[j].typ)
    && Encodable(h.tlvs) && |h.src.addr| + |h.dst.addr| + 4 + |Tlv.Encode(h.tlvs)| <= 65535
  }

  lemma OnTheWireIs(h: Header2)
    ensures OnTheWire(h) <==> OnWire(h)
  {
    AdmissibleMeans(h.tlvs, {});
  }

  lemma EncodedBytes(h: Header2)
    requires OnTheWire(h)
    ensures Encode2(h).Bytes2? && Encode2(h).bytes == HeaderBytes(h, Tlv.Encode(h.tlvs))
  {
    hide Tlv.Encode, Admissible, Laid, Fixed;
    OnTheWireIs(h);
    ReadAddresses(h);
    LaidIs(h, AddrLen(h.family) + |Tlv.Encode(h.tlvs)|, h.src.addr, h.dst.addr, Tlv.Encode(h.tlvs));
    hide AddressBlock;
  }

  /** Which headers are read, and as what: exactly those whose bytes these are. */
  lemma HeaderRead(r: seq<byte>, h: Header2, rest: seq<byte>)
    ensures ReadHeader(r) == Parsed(h, rest) <==> OnTheWire(h) && r == HeaderBytes(h, Tlv.Encode(h.tlvs)) + rest
  {
    hide ReadHeader, Encode2, HeaderBytes, OnTheWire;
    OnTheWireIs(h);
    if ReadHeader(r) == Parsed(h, rest) {
      ReadEncode(r);
      EncodedBytes(h);
    } else if OnTheWire(h) {
      EncodeRead(h, rest);
      EncodedBytes(h);
    }
  }

  /** Why a header is refused that is not cut off: by the first thing in it that is not as it should be. */
  lemma HeaderErrors(r: seq<byte>)
    ensures |r| < 16 ==> ReadHeader(r) == Rejected(IncompleteHeader)
    ensures |r| >= 16 ==>
              var length := r[14] as int * 256 + r[15];
              if r[..12] != [13, 10, 13, 10, 0, 13, 10, 81, 85, 73, 84, 10] then
                  ReadHeader(r) == Rejected(SignatureInvalid)
              else if r[12] != 0x21 then ReadHeader(r) == Rejected(UnsupportedVersionCmd)
              else if r[13] !in {0x11, 0x12, 0x21, 0x22} then ReadHeader(r) == Rejected(UnsupportedFamily)
              else if |r| < 16 + length then ReadHeader(r) == Rejected(IncompleteHeader)
              else if length < (if r[13] in {0x11, 0x12} then 12 else 36) then
                  ReadHeader(r) == Rejected(AddressBlockShort)
              else ReadHeader(r).Parsed? || ReadHeader(r) == Rejected(TlvMalformed)
  {
    hide ReadBody;
  }

  /** An address in 16 bytes: an IPv4 one behind ten zero bytes and two of 255. */
  function Widened(a: seq<byte>): seq<byte>
  {
    if |a| == 4 then [0, 0, 0, 0, 0, 0, 0, 0, 0, 0, 255, 255] + a else a
  }

  /** What any header is written as, or why it is not: by its family first, then its records, then its addresses.
      What does not fit the length field wraps. */
  lemma WrittenAs(h: Header2)
    ensures Encode2(h) ==
              if h.family !in {0x11, 0x12, 0x21, 0x22} then BadFamily
              else if exists t :: t in h.tlvs && |t.value| > 65535 then ValueTooLong
              else if h.family in {0x11, 0x12} && (|Unmapped(h.src.addr)| != 4 || |Unmapped(h.dst.addr)| != 4) then
                  NotIPv4
              else
                var v4, records := h.family in {0x11, 0x12}, Tlv.Encode(h.tlvs);
                var s := if v4 then Unmapped(h.src.addr) else Widened(h.src.addr);
                var d := if v4 then Unmapped(h.dst.addr) else Widened(h.dst.addr);
                Bytes2(Laid(h, ((if v4 then 12 else 36) + |records|) % 65536, s, d, records))
  {
    hide Tlv.Encode, Laid, Fixed, Unmap, Unmapped;
    UnmapIs(h.src.addr);
    UnmapIs(h.dst.addr);
    if Encode2(h).Bytes2? {
      var v4, records := h.family in {0x11, 0x12}, Tlv.Encode(h.tlvs);
      LaidIs(h, AddrLen(h.family) + |records|, if v4 then Unmap(h.src.addr) else As16(h.src.addr),
             if v4 then Unmap(h.dst.addr) else As16(h.dst.addr), records);
    }
  }

  // Envelopes

  /** An envelope on the wire: version 1, the direction, the lengths of its block and of its payload, the block (a
      header and records), the payload. */
  function FrameWire(f: Frame, block: seq<byte>): seq<int>
  {
    [1, if f.direction == FacadeToBackend then 0
        else 1, |block| / 256, |block| % 256, |f.payload| / 256, |f.payload| % 256]
    + block + f.payload
  }

  /** The records of an envelope may stand behind its header. */
  predicate Recorded(ts: seq<TLV>) {
    && Encodable(ts) && (forall t :: t in ts ==> !SetAside(t.typ))
    && forall i, j :: 0 <= i < j < |ts| ==> ts[i].typ != ts[j].typ
  }

  /** Which datagrams decode, and as what: exactly those that begin with the bytes of an envelope, of at most 65536
      bytes. */
  lemma FrameExact(buf: seq<byte>, f: Frame)
    ensures DecodeDGramFrame(buf) == Decoded(f) <==>
              && f.version == 1 && OnTheWire(f.inner) && Recorded(f.era)
              && var block := HeaderBytes(f.inner, Tlv.Encode(f.inner.tlvs)) + Tlv.Encode(f.era);
                 && 6 + |block| + |f.payload| <= 65536 && 6 + |block| + |f.payload| <= |buf|
                 && buf[..6 + |block| + |f.payload|] == FrameWire(f, block)
  {
    hide HeaderBytes, OnTheWire, Encode2, Tlv.Encode, ReadHeader, DecodeFrom, Admissible, OnWire;
    OnTheWireIs(f.inner);
    AdmissibleMeans(f.era, {});
    if DecodeDGramFrame(buf) == Decoded(f) {
      DecodedBytes(buf);
      DecodedParts(buf);
      BlockOnWire(TlvBlock(buf), f);
      EncodedBytes(f.inner);
    } else if OnTheWire(f.inner) && Recorded(f.era) && f.version == 1 {
      EncodedBytes(f.inner);
      var block := Encode2(f.inner).bytes + Tlv.Encode(f.era);
      if 6 + |block| + |f.payload| <= 65536 && 6 + |block| + |f.payload| <= |buf|
         && buf[..6 + |block| + |f.payload|] == FrameWire(f, block) {
        FrameDecodes(buf, f, block);
      }
    }
  }

  lemma BlockOnWire(block: seq<byte>, f: Frame)
    requires DecodeBlock(f.version, f.direction, block, f.payload) == Decoded(f)
    ensures OnWire(f.inner) && Admissible(f.era, {})
  {
    hide OnWire, Encode2, DecodeFrom, Admissible;
    ReadEncode(block);
    hide ReadHeader;
    DecodeEncode(ReadHeader(block).rest, 0, {});
  }

  lemma FrameDecodes(buf: seq<byte>, f: Frame, block: seq<byte>)
    requires OnWire(f.inner) && Encodable(f.era) && Admissible(f.era, {}) && f.version == 1
    requires Encode2(f.inner).Bytes2? && block == Encode2(f.inner).bytes + Tlv.Encode(f.era)
    requires 6 + |block| + |f.payload| <= 65536 && 6 + |block| + |f.payload| <= |buf|
    requires buf[..6 + |block| + |f.payload|] == FrameWire(f, block)
    ensures DecodeDGramFrame(buf) == Decoded(f)
  {
    hide Encode2, Tlv.Encode, ReadHeader, DecodeFrom, Admissible, OnWire;
    EncodeRead(f.inner, Tlv.Encode(f.era));
    assert Tlv.Encode(f.era)[0..] == Tlv.Encode(f.era);
    EncodeDecode(Tlv.Encode(f.era), 0, f.era, {});
    FrameFront(buf, f, block);
    hide FrameWire;
  }

  /** The parts of an envelope. */
  lemma FrameFront(buf: seq<byte>, f: Frame, block: seq<byte>)
    requires 6 + |block| + |f.payload| <= 65536 && 6 + |block| + |f.payload| <= |buf|
    requires buf[..6 + |block| + |f.payload|] == FrameWire(f, block)
    ensures buf[0] == 1 && buf[1] == (if f.direction == FacadeToBackend then 0 else 1)
    ensures Word(buf, 2) == |block| && Word(buf, 4) == |f.payload|
    ensures buf[6..6 + |block|] == block && buf[6 + |block|..6 + |block| + |f.payload|] == f.payload
  {
    var w := FrameWire(f, block);
    assert forall i :: 0 <= i < 6 ==> buf[i] == w[i];
    assert w[6..6 + |block|] == block && w[6 + |block|..] == f.payload;
  }

  /** Why a datagram does not decode: by the first thing in it that is not as it should be. */
  lemma FrameErrors(buf: seq<byte>)
    ensures |buf| < 6 ==> DecodeDGramFrame(buf) == Undecodable(TooShort)
    ensures |buf| >= 6 ==>
              var n, d := buf[2] as int * 256 + buf[3], DecodeDGramFrame(buf);
              var total := 6 + n + buf[4] as int * 256 + buf[5];
              if buf[0] != 1 then d == Undecodable(BadVersion)
              else if buf[1] >= 2 then d == Undecodable(ReservedFlags)
              else if total > 65536 then d == Undecodable(Oversize)
              else if total > |buf| then d == Undecodable(FrameTruncated)
              else if ReadHeader(buf[6..6 + n]).Rejected? then d == Undecodable(InnerPP2)
              else d.Decoded? || d == Undecodable(EraMalformed)
  {
    hide ReadHeader, DecodeFrom;
  }

  /** The bytes a reply to f consists of, if they fit. */
  lemma ReplyBytes(f: Frame, payload: seq<byte>)
    requires f.version == 1 && OnTheWire(f.inner) && Encodable(f.era)
    ensures var block := HeaderBytes(f.inner, Tlv.Encode(f.inner.tlvs)) + Tlv.Encode(f.era);
            ReplyTo(f, payload) ==
              if 6 + |block| + |payload| > 65536 then ResponseOversize
              else Sent([1, 1, |block| / 256, |block| % 256, |payload| / 256, |payload| % 256] + block + payload)
  {
    hide HeaderBytes, OnTheWire, Encode2, Tlv.Encode;
    EncodedBytes(f.inner);
  }
}
