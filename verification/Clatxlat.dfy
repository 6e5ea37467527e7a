/** The per-session CLAT driver around the translators (internal/clatxlat/clatxlat.go). */
module Clatxlat {
  import opened Wrappers
  import opened Bytes
  import opened Wire
  import Nat66
  import Siit46
  import Siit46Spec
  import Siit46Packet
  import Siit64Spec
  import Siit64Packet

  const RESERVED_DEFAULT := 48
  const PACKET_START := RESERVED_DEFAULT + MESSAGE_TRANSPORT_HEADER_SIZE

  datatype Ip = Ip4(bytes4: Address4) | Ip6(bytes6: Address6)

  /** What becomes of a client packet; Crashed is an index out of range in the original. */
  datatype Delivery = Declined | Crashed | Sent(packet: seq<byte>)

  /** The addresses of one session. */
  datatype Translator = Translator(placeholder: Address4, clatV6: Address6) {
    static function New(placeholder: Ip, clatV6: Ip): (r: Option<Translator>)
      ensures r.Some? <==> placeholder.Ip4? && clatV6.Ip6?
    {
      if placeholder.Ip4? && clatV6.Ip6? then Some(Translator(placeholder.bytes4, clatV6.bytes6)) else None
    }

    function PlaceholderV6(): Address6
    {
      PREFIX + placeholder
    }

    /** The packet that ClientToTun sends to the TUN device. */
    function Outbound(pkt: seq<byte>, forbidden: seq<byte> -> bool): Delivery
    {
      if Version(pkt) == 6 then Sent(pkt)
      else if Version(pkt) != 4 then Declined
      else
        match Siit46Spec.Translate46(pkt, RESERVED_DEFAULT, forbidden)
        case Translated(p) => Sent(Nat66.Rewrite(p, Nat66.Source, clatV6).Bytes())
        case Panicked => Crashed
        case _ => Declined
    }

    /** The IPv6 packet a client's IPv4 packet leaves as, in parts. */
    function OutboundV6(pkt: seq<byte>, forbidden: seq<byte> -> bool): Option<V6>
    {
      match Outbound(pkt, forbidden)
      case Sent(s) => if |s| >= 40 then Some(View6(s)) else None
      case _ => None
    }

    /** The packet that TunToClient sends to the client, if it does not decline. */
    function Inbound(v6: seq<byte>, freshId: u16): Option<seq<byte>>
    {
      if |v6| < 40 then None
      else
        match Siit64Spec.Translate64(Nat66.Rewrite(View6(v6), Nat66.Destination, PlaceholderV6()).Bytes(),
            RESERVED_DEFAULT, freshId)
        case None => None
        case Some(p) => Some(p.Bytes())
    }

    /** The IPv4 packet that a packet from the TUN device reaches the client as, in parts. */
    function InboundV4(p: V6, freshId: u16): Option<V4>
    {
      match Inbound(p.Bytes(), freshId)
      case None => None
      case Some(s) => if |s| >= 20 then Some(View4(s)) else None
    }

    method ClientToTun(pkt: seq<byte>, forbidden: seq<byte> -> bool) returns (d: Delivery)
      ensures d == Outbound(pkt, forbidden)
    {
      if |pkt| < 1 {
        return Declined;
      }
      if pkt[0] / 16 == 6 {
        return Sent(pkt);
      } else if pkt[0] / 16 == 4 {
        d := TranslateOutbound(pkt, forbidden);
      } else {
        d := Declined;
      }
    }

    method TranslateOutbound(pkt: seq<byte>, forbidden: seq<byte> -> bool) returns (d: Delivery)
      requires Version(pkt) == 4
      ensures d == Outbound(pkt, forbidden)
    {
      hide Siit46Spec.Translate46, Nat66.Rewrite;
      var buffer := new byte[PACKET_START + |pkt|];
      Write(buffer, PACKET_START, pkt);
      assert buffer[..][RESERVED_DEFAULT + 16..] == pkt;
      var result, reserved := Siit46Packet.SIIT46InPlaceTranslate(buffer, RESERVED_DEFAULT, forbidden);
      if result == Siit46.Result46.Translated {
        var start := reserved + MESSAGE_TRANSPORT_HEADER_SIZE;
        ghost var p := Siit46Spec.Translate46(pkt, RESERVED_DEFAULT, forbidden).packet;
        ViewOfBytes6(p);
        Nat66.NAT66InPlaceTranslateAddress(buffer, start, clatV6, Nat66.Source);
        d := Sent(buffer[start..]);
      } else if result == Siit46.Result46.Panicked {
        d := Crashed;
      } else {
        d := Declined;
      }
    }

    method TunToClient(v6: seq<byte>, freshId: u16) returns (r: Option<seq<byte>>)
      ensures r == Inbound(v6, freshId)
    {
      hide Siit64Spec.Translate64, Nat66.Rewrite;
      if |v6| < DESTINATION_OFFSET + 16 {
        return None;
      }
      var buffer := new byte[PACKET_START + |v6|];
      Write(buffer, PACKET_START, v6);
      assert buffer[..][PACKET_START..] == v6;
      Nat66.NAT66InPlaceTranslateAddress(buffer, PACKET_START, PlaceholderV6(), Nat66.Destination);
      var translated, reserved := Siit64Packet.SIIT64InPlaceTranslate(buffer, RESERVED_DEFAULT, freshId);
      r := if translated then Some(buffer[reserved + MESSAGE_TRANSPORT_HEADER_SIZE..]) else None;
    }
  }
}
