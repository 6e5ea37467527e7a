/** PROXY protocol v2 headers with TLVs (internal/proxyproto/reader.go). */
module HeaderV2 {
  import opened Wrappers
  import opened Bytes
  import opened ProxyUdp
  import opened Tlv

  const FAM_TCP4: byte := 0x11
  const FAM_TCP6: byte := 0x21

  /** A parsed header: the address family, source, destination and records. */
  datatype Header2 = Header2(family: byte, src: AddrPort, dst: AddrPort, tlvs: seq<TLV>)

  datatype HeaderError =
    | SignatureInvalid | IncompleteHeader | UnsupportedVersionCmd | UnsupportedFamily | AddressBlockShort | TlvMalformed

  /** The header at the front of a stream and what follows it. */
  datatype ReadResult = Parsed(header: Header2, rest: seq<byte>) | Rejected(error: HeaderError)

  predicate IsV4Family(family: byte) { family == FAM_TCP4 || family == FAM_UDP4 }
  predicate IsV6Family(family: byte) { family == FAM_TCP6 || family == FAM_UDP6 }

  function AddrLen(family: byte): nat
  {
    if IsV6Family(family) then ADDR_PAIR_V6 else ADDR_PAIR_V4
  }

  // Reading

  function ReadHeader(r: seq<byte>): (h: ReadResult)
  {
    if |r| < 16 then Rejected(IncompleteHeader)
    else if r[..12] != V2_SIGNATURE then Rejected(SignatureInvalid)
    else if r[12] != VERCMD_PROXY then Rejected(UnsupportedVersionCmd)
    else if !IsV4Family(r[13]) && !IsV6Family(r[13]) then Rejected(UnsupportedFamily)
    else
      var alen := Word(r, 14);
      if |r| < 16 + alen then Rejected(IncompleteHeader)
      else if alen < AddrLen(r[13]) then Rejected(AddressBlockShort)
      else
        match ReadBody(r[13], r[16..16 + alen])
        case None => Rejected(TlvMalformed)
        case Some(h) => Parsed(h, r[16 + alen..])
  }

  /** The address block and the records behind it. */
  function ReadBody(family: byte, body: seq<byte>): Option<Header2>
    requires |body| >= AddrLen(family)
  {
    var n := if IsV6Family(family) then 16 else 4;
    var src, dst := AddrPort(body[..n], Word(body, 2 * n)), AddrPort(body[n..2 * n], Word(body, 2 * n + 2));
    match DecodeFrom(body[AddrLen(family)..], 0, {})
    case Records(ts, _) => Some(Header2(family, src, dst, ts))
    case Failed(_, _) => None
  }

  // Writing

  datatype Encoded = Bytes2(bytes: seq<byte>) | BadFamily | ValueTooLong | NotIPv4

  /** The 16 bytes of an address; an IPv4 one in its mapped form. */
  function As16(addr: seq<byte>): seq<byte>
  {
    if |addr| == 4 then MAPPED_PREFIX + addr else addr
  }

  /** The addresses and ports as they are written; an IPv6 address has no IPv4 form. */
  function AddressBlock(h: Header2): Option<seq<byte>>
  {
    var ports := Be16(h.src.port) + Be16(h.dst.port);
    if IsV6Family(h.family) then Some(As16(h.src.addr) + As16(h.dst.addr) + ports)
    else
      var s, d := Unmap(h.src.addr), Unmap(h.dst.addr);
      if |s| == 4 && |d| == 4 then Some(s + d + ports) else None
  }

  function Fixed(family: byte, alen: nat): seq<byte>
  {
    V2_SIGNATURE + [VERCMD_PROXY, family] + Be16(alen % 0x1_0000)
  }

  function Encode2(h: Header2): Encoded
  {
    if !IsV4Family(h.family) && !IsV6Family(h.family) then BadFamily
    else if !Encodable(h.tlvs) then ValueTooLong
    else
      match AddressBlock(h)
      case None => NotIPv4
      case Some(addrs) => Bytes2(Fixed(h.family, AddrLen(h.family) + |Tlv.Encode(h.tlvs)|) + addrs + Tlv.Encode(h.tlvs))
  }

  /** The size of the records is summed up first, then everything is appended in order. */
  method Encode(h: Header2) returns (r: Encoded)
    ensures r == Encode2(h)
  {
    hide Be16, As16, Tlv.Encode;
    if !IsV4Family(h.family) && !IsV6Family(h.family) {
      return BadFamily;
    }
    var size := SizeOfTLVs(h.tlvs);
    if size == None {
      return ValueTooLong;
    }
    var tlvSize := size.value;
    var out: seq<byte> := [] + V2_SIGNATURE;
    out := out + [VERCMD_PROXY];
    out := out + [h.family];
    out := out + Be16((AddrLen(h.family) + tlvSize) % 0x1_0000);
    assert out == Fixed(h.family, AddrLen(h.family) + tlvSize);
    if IsV6Family(h.family) {
      out := out + As16(h.src.addr) + As16(h.dst.addr);
    } else {
      var s, d := Unmap(h.src.addr), Unmap(h.dst.addr);
      if |s| != 4 || |d| != 4 {
        return NotIPv4;
      }
      out := out + s + d;
    }
    out := out + Be16(h.src.port);
    out := out + Be16(h.dst.port);
    assert out == Fixed(h.family, AddrLen(h.family) + tlvSize) + AddressBlock(h).value;
    var records := AppendTLVs(out, h.tlvs);
    r := Bytes2(records);
  }

  /** The bytes the records take, unless a value is too long for its length field. */
  method SizeOfTLVs(ts: seq<TLV>) returns (r: Option<nat>)
    ensures r == if Encodable(ts) then Some(|Tlv.Encode(ts)|) else None
  {
    var size := 0;
    var i := 0;
    while i < |ts|
      invariant 0 <= i <= |ts| && Encodable(ts[..i]) && size == |Tlv.Encode(ts[..i])|
    {
      if |ts[i].value| > 0xffff {
        return None;
      }
      EncodeSnoc(ts[..i], ts[i]);
      assert ts[..i + 1] == ts[..i] + [ts[i]];
      size := size + 3 + |ts[i].value|;
      i := i + 1;
    }
    assert ts[..i] == ts;
    r := Some(size);
  }

  method AppendTLVs(out: seq<byte>, ts: seq<TLV>) returns (r: seq<byte>)
    requires Encodable(ts)
    ensures r == out + Tlv.Encode(ts)
  {
    r := out;
    var i := 0;
    while i < |ts|
      invariant 0 <= i <= |ts| && Encodable(ts[..i]) && r == out + Tlv.Encode(ts[..i])
    {
      EncodeSnoc(ts[..i], ts[i]);
      assert ts[..i + 1] == ts[..i] + [ts[i]];
      r := r + [ts[i].typ];
      r := r + Be16(|ts[i].value|);
      r := r + ts[i].value;
      i := i + 1;
    }
    assert ts[..i] == ts;
  }

  // The two are inverse

  /** Headers that exist on the wire: a supported family, addresses of that family, records a block may hold, and all of
      that within the 16 bits of the length field. */
  predicate OnWire(h: Header2) {
    && (IsV4Family(h.family) || IsV6Family(h.family))
    && |h.src.addr| == |h.dst.addr| == (if IsV6Family(h.family) then 16 else 4)
    && Admissible(h.tlvs, {}) && Encodable(h.tlvs)
    && AddrLen(h.family) + |Tlv.Encode(h.tlvs)| <= 0xffff
  }

  lemma FixedFields(family: byte, alen: u16, tail: seq<byte>)
    ensures var r := Fixed(family, alen) + tail;
            && |r| == 16 + |tail| && r[..12] == V2_SIGNATURE && r[12] == VERCMD_PROXY && r[13] == family
            && Word(r, 14) == alen && r[16..] == tail
  {
    hide Be16;
    var f, r := Fixed(family, alen), Fixed(family, alen) + tail;
    assert f[14..16] == Be16(alen) && r[14..16] == Be16(alen);
    WordOfSlice(r, 14, Be16(alen));
  }

  lemma BlockSlices(a: seq<byte>, b: seq<byte>, c: seq<byte>, d: seq<byte>, rest: seq<byte>)
    requires |a| == |b| && |c| == |d| == 2
    ensures var s, n := a + b + (c + d) + rest, |a|;
            && s[..n] == a && s[n..2 * n] == b && s[2 * n..2 * n + 2] == c && s[2 * n + 2..2 * n + 4] == d
            && s[2 * n + 4..] == rest
  {
  }

  /** The address block and the records are read back. */
  lemma BodyRead(h: Header2)
    requires OnWire(h)
    ensures AddressBlock(h).Some? && |AddressBlock(h).value| == AddrLen(h.family)
    ensures ReadBody(h.family, AddressBlock(h).value + Tlv.Encode(h.tlvs)) == Some(h)
  {
    hide Be16, Tlv.Encode, DecodeFrom;
    var n := |h.src.addr|;
    var addrs, records := AddressBlock(h).value, Tlv.Encode(h.tlvs);
    var body := addrs + records;
    assert addrs == h.src.addr + h.dst.addr + (Be16(h.src.port) + Be16(h.dst.port));
    BlockSlices(h.src.addr, h.dst.addr, Be16(h.src.port), Be16(h.dst.port), records);
    WordOfSlice(body, 2 * n, Be16(h.src.port));
    WordOfSlice(body, 2 * n + 2, Be16(h.dst.port));
    assert records[0..] == records;
    EncodeDecode(records, 0, h.tlvs, {});
  }

  /** What was written is read back, and nothing behind it is consumed. */
  lemma EncodeRead(h: Header2, rest: seq<byte>)
    requires OnWire(h)
    ensures Encode2(h).Bytes2? && ReadHeader(Encode2(h).bytes + rest) == Parsed(h, rest)
  {
    hide Fixed, AddressBlock, ReadBody, Admissible;
    BodyRead(h);
    var addrs, records := AddressBlock(h).value, Tlv.Encode(h.tlvs);
    var alen := |addrs| + |records|;
    var r := Encode2(h).bytes + rest;
    FixedFields(h.family, alen, addrs + records + rest);
    assert r == Fixed(h.family, alen) + (addrs + records + rest);
    var tail := r[16..];
    assert tail[..alen] == addrs + records && tail[alen..] == rest;
    assert r[16..16 + alen] == tail[..alen] && r[16 + alen..] == tail[alen..];
  }

  /** An address block and records that are read are those that would be written. */
  lemma BodyEncode(family: byte, body: seq<byte>)
    requires (IsV4Family(family) || IsV6Family(family)) && AddrLen(family) <= |body| <= 0xffff
             && ReadBody(family, body).Some?
    ensures var h := ReadBody(family, body).value;
            && OnWire(h) && h.family == family && AddressBlock(h).Some?
            && body == AddressBlock(h).value + Tlv.Encode(h.tlvs) && |AddressBlock(h).value| == AddrLen(family)
  {
    hide Be16, Tlv.Encode, DecodeFrom, Admissible, AddressBlock;
    var h := ReadBody(family, body).value;
    var n := |h.src.addr|;
    var block := body[AddrLen(family)..];
    assert block[0..] == block;
    DecodeEncode(block, 0, {});
    WordBytes(body, 2 * n, h.src.port);
    WordBytes(body, 2 * n + 2, h.dst.port);
    ReadAddresses(h);
    assert body == body[..n] + body[n..2 * n] + (body[2 * n..2 * n + 2] + body[2 * n + 2..2 * n + 4]) + block;
  }

  /** What is read exists on the wire, and writing it gives the consumed bytes back. */
  lemma ReadEncode(r: seq<byte>)
    requires ReadHeader(r).Parsed?
    ensures var h, rest := ReadHeader(r).header, ReadHeader(r).rest;
            && OnWire(h) && Encode2(h).Bytes2? && r == Encode2(h).bytes + rest
            && |Encode2(h).bytes| == 16 + Word(r, 14)
  {
    hide Tlv.Encode, ReadBody, AddressBlock, OnWire, Encodable, Fixed;
    var alen := Word(r, 14);
    var h := ReadHeader(r).header;
    var body := r[16..16 + alen];
    BodyEncode(r[13], body);
    OnWireParts(h);
    FixedIs(r);
    assert r[16..] == body + r[16 + alen..];
    assert Encode2(h).bytes == Fixed(h.family, alen) + AddressBlock(h).value + Tlv.Encode(h.tlvs) ==
        Fixed(h.family, alen) + body;
  }

  lemma FixedIs(r: seq<byte>)
    requires |r| >= 16 && r[..12] == V2_SIGNATURE && r[12] == VERCMD_PROXY
    ensures r == Fixed(r[13], Word(r, 14)) + r[16..] && |Fixed(r[13], Word(r, 14))| == 16
  {
    hide Be16;
    WordBytes(r, 14, Word(r, 14));
    FrontParts(r, r[..12]);
  }

  lemma FrontParts(r: seq<byte>, signature: seq<byte>)
    requires |r| >= 16 && r[..12] == signature
    ensures r == signature + [r[12], r[13]] + r[14..16] + r[16..]
  {
  }

  lemma OnWireParts(h: Header2)
    requires OnWire(h)
    ensures Encodable(h.tlvs)
  {
  }

  lemma ReadAddresses(h: Header2)
    requires IsV4Family(h.family) || IsV6Family(h.family)
    requires |h.src.addr| == |h.dst.addr| == (if IsV6Family(h.family) then 16 else 4)
    ensures AddressBlock(h) == Some(h.src.addr + h.dst.addr + (Be16(h.src.port) + Be16(h.dst.port)))
  {
  }

  /** A header survives being written and read exactly when it exists on the wire: longer records wrap the length field,
      and addresses of the other family come back changed or are not written at all. */
  lemma RoundTripExact(h: Header2, rest: seq<byte>)
    ensures Encode2(h).Bytes2? && ReadHeader(Encode2(h).bytes + rest) == Parsed(h, rest) <==> OnWire(h)
  {
    hide Encode2, ReadHeader, OnWire;
    if OnWire(h) {
      EncodeRead(h, rest);
    } else if Encode2(h).Bytes2? && ReadHeader(Encode2(h).bytes + rest) == Parsed(h, rest) {
      ReadEncode(Encode2(h).bytes + rest);
    }
  }
}
