/** The one-shot PROXY v2 header in front of a UDP flow (internal/proxyproto/udp_listener.go:382-498). */
module ProxyUdp {
  import opened Wrappers
  import opened Bytes

  /** A UDP address as the socket layer has it. */
  datatype UdpAddr = UdpAddr(ip: seq<byte>, port: int)

  /** An address as a key: comparable, with IPv4-in-IPv6 addresses unmapped. */
  datatype AddrPort = AddrPort(addr: seq<byte>, port: u16)

  const MAPPED_PREFIX: seq<byte> := [0, 0, 0, 0, 0, 0, 0, 0, 0, 0, 0xff, 0xff]

  function Unmap(ip: seq<byte>): seq<byte>
  {
    if |ip| == 16 && ip[..12] == MAPPED_PREFIX then ip[12..] else ip
  }

  /** The same, byte by byte: an IPv4-in-IPv6 address is the IPv4 address in its last four bytes. */
  function Unmapped(ip: seq<byte>): seq<byte>
  {
    if |ip| == 16 && (forall i :: 0 <= i < 10 ==> ip[i] == 0) && ip[10] == ip[11] == 255 then ip[12..] else ip
  }

  lemma UnmapIs(ip: seq<byte>)
    ensures Unmap(ip) == Unmapped(ip)
  {
    if |ip| == 16 {
      assert ip[..12] == MAPPED_PREFIX <==> forall i :: 0 <= i < 12 ==> ip[i] == MAPPED_PREFIX[i];
    }
  }

  function AddrKey(a: UdpAddr): Option<AddrPort>
  {
    if |a.ip| == 4 || |a.ip| == 16 then Some(AddrPort(Unmap(a.ip), a.port % 0x1_0000)) else None
  }

  const V2_SIGNATURE: seq<byte> := [0x0d, 0x0a, 0x0d, 0x0a, 0x00, 0x0d, 0x0a, 0x51, 0x55, 0x49, 0x54, 0x0a]
  const VERCMD_LOCAL: byte := 0x20
  const VERCMD_PROXY: byte := 0x21
  const FAM_UDP4: byte := 0x12
  const FAM_UDP6: byte := 0x22
  const UDP_HEADER_FIXED := 16
  const ADDR_PAIR_V4 := 12
  const ADDR_PAIR_V6 := 36

  datatype Header =
    | NotProxy                              // no signature: a direct client
    | Malformed                             // a signature, but not a header
    | Local(length: nat)                    // a header that announces nobody
    | Announced(src: UdpAddr, length: nat)  // a header that announces a source

  function ParseUdpHeader(buf: seq<byte>): (h: Header)
    ensures h.Local? || h.Announced? ==> |buf| >= 16 && h.length == 16 + Word(buf, 14) <= |buf|
  {
    if |buf| < UDP_HEADER_FIXED || buf[..12] != V2_SIGNATURE then NotProxy
    else
      var addrLen := Word(buf, 14);
      var total := UDP_HEADER_FIXED + addrLen;
      if |buf| < total then Malformed
      else if buf[12] == VERCMD_LOCAL then Local(total)
      else if buf[12] != VERCMD_PROXY then Malformed
      else if buf[13] == FAM_UDP4 then
        if addrLen < ADDR_PAIR_V4 then Malformed else Announced(UdpAddr(buf[16..20], Word(buf, 24)), total)
      else if buf[13] == FAM_UDP6 then
        if addrLen < ADDR_PAIR_V6 then Malformed else Announced(UdpAddr(buf[16..32], Word(buf, 48)), total)
      else Malformed
  }

  predicate IsIp(ip: seq<byte>) {
    |ip| == 4 || |ip| == 16
  }

  /** The header announcing src, as bytes; there is none across address families. */
  function HeaderUdp(src: UdpAddr, dst: UdpAddr): Option<seq<byte>>
  {
    if !IsIp(src.ip) || !IsIp(dst.ip) then None
    else
      var sip, dip := Unmap(src.ip), Unmap(dst.ip);
      if |sip| != |dip| then None
      else
        Some(V2_SIGNATURE + [VERCMD_PROXY, if |sip| == 4 then FAM_UDP4 else FAM_UDP6] + Be16(2 * |sip| + 4)
             + sip + dip + Be16(src.port % 0x1_0000) + Be16(dst.port % 0x1_0000))
  }

  method WriteHeaderV2UDP(src: UdpAddr, dst: UdpAddr) returns (r: Option<seq<byte>>)
    ensures r == HeaderUdp(src, dst)
  {
    if !IsIp(src.ip) || !IsIp(dst.ip) {
      return None;
    }
    var sip, dip := Unmap(src.ip), Unmap(dst.ip);
    if (|sip| == 4) != (|dip| == 4) {
      return None;
    }
    var buf: seq<byte> := [];
    buf := buf + V2_SIGNATURE;
    buf := buf + [VERCMD_PROXY];
    if |sip| == 4 {
      buf := buf + [FAM_UDP4];
      buf := buf + Be16(ADDR_PAIR_V4);
    } else {
      buf := buf + [FAM_UDP6];
      buf := buf + Be16(ADDR_PAIR_V6);
    }
    assert buf == V2_SIGNATURE + [VERCMD_PROXY, if |sip| == 4 then FAM_UDP4 else FAM_UDP6] + Be16(2 * |sip| + 4);
    buf := buf + sip + dip;
    buf := buf + Be16(src.port % 0x1_0000);
    buf := buf + Be16(dst.port % 0x1_0000);
    r := Some(buf);
  }

  /** A written header is parsed, whatever payload follows it, to the source it announces, unmapped; so both ends
      use the same key for it. */
  lemma HeaderRoundTrip(src: UdpAddr, dst: UdpAddr, payload: seq<byte>)
    requires HeaderUdp(src, dst).Some?
    ensures var h := HeaderUdp(src, dst).value;
            ParseUdpHeader(h + payload) == Announced(UdpAddr(Unmap(src.ip), src.port % 0x1_0000), |h|)
    ensures AddrKey(UdpAddr(Unmap(src.ip), src.port % 0x1_0000)) == AddrKey(src)
  {
    hide Be16;
    var sip, dip := Unmap(src.ip), Unmap(dst.ip);
    var fixed := V2_SIGNATURE + [VERCMD_PROXY, if |sip| == 4 then FAM_UDP4 else FAM_UDP6];
    var h, buf := HeaderUdp(src, dst).value, HeaderUdp(src, dst).value + payload;
    var front := fixed + Be16(2 * |sip| + 4);
    assert |front| == 16
        && buf == front + sip + (dip + Be16(src.port % 0x1_0000) + Be16(dst.port % 0x1_0000) + payload);
    assert buf[..12] == V2_SIGNATURE && buf[12] == VERCMD_PROXY && buf[13] == fixed[13];
    assert buf[14..16] == Be16(2 * |sip| + 4);
    assert buf[16..16 + |sip|] == sip;
    assert buf[16 + 2 * |sip|..18 + 2 * |sip|] == Be16(src.port % 0x1_0000);
    WordOfSlice(buf, 14, Be16(2 * |sip| + 4));
    WordOfSlice(buf, 16 + 2 * |sip|, Be16(src.port % 0x1_0000));
  }

  lemma WordOfSlice(s: seq<byte>, i: nat, w: seq<byte>)
    requires i + 2 <= |s| && |w| == 2 && s[i..i + 2] == w
    ensures Word(s, i) == Word(w, 0)
  {
    assert s[i] == s[i..i + 2][0] && s[i + 1] == s[i..i + 2][1];
  }

  /** The destination a header with a whole address pair names. */
  function DestinationOf(buf: seq<byte>): UdpAddr
    requires ParseUdpHeader(buf).Announced?
  {
    if buf[13] == FAM_UDP4 then UdpAddr(buf[20..24], Word(buf, 26)) else UdpAddr(buf[32..48], Word(buf, 50))
  }

  /** Every accepted announcement without trailing TLVs, whose addresses are not IPv4 in disguise, is one that would be
      written for its addresses. */
  lemma HeaderExact(buf: seq<byte>)
    requires ParseUdpHeader(buf).Announced?
    requires var h := ParseUdpHeader(buf);
             && h.length == 20 + 2 * |h.src.ip|
             && Unmap(h.src.ip) == h.src.ip && Unmap(DestinationOf(buf).ip) == DestinationOf(buf).ip
    ensures HeaderUdp(ParseUdpHeader(buf).src, DestinationOf(buf)) == Some(buf[..ParseUdpHeader(buf).length])
  {
    hide Be16;
    var h, d := ParseUdpHeader(buf), DestinationOf(buf);
    var n := |h.src.ip|;
    WordBytes(buf, 14, 2 * n + 4);
    WordBytes(buf, 16 + 2 * n, h.src.port);
    WordBytes(buf, 18 + 2 * n, d.port);
    var b := buf[..h.length];
    assert b == buf[..12] + [buf[12], buf[13]] + buf[14..16] + buf[16..16 + n] + buf[16 + n..16 + 2 * n]
             + buf[16 + 2 * n..18 + 2 * n] + buf[18 + 2 * n..20 + 2 * n];
  }
}
