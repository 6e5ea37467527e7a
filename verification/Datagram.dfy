/** The datagram envelope of the handoff and its reply path (internal/udshandoff/datagram.go, datagram_listener.go). */
module Datagram {
  import opened Wrappers
  import opened Bytes
  import opened Tlv
  import opened HeaderV2

  const DGRAM_HEADER_LEN := 6
  const MAX_DATAGRAM_SIZE := 65536
  const SPEC_VERSION: byte := 1

  datatype Direction = FacadeToBackend | BackendToFacade

  datatype Frame = Frame(version: byte, direction: Direction, inner: Header2, era: seq<TLV>, payload: seq<byte>)

  datatype FrameError = TooShort | BadVersion | ReservedFlags | Oversize | FrameTruncated | InnerPP2 | EraMalformed

  datatype DecodeResult = Decoded(frame: Frame) | Undecodable(error: FrameError)

  // Decoding

  function TlvLength(buf: seq<byte>): nat
    requires |buf| >= 6
  {
    Word(buf, 2)
  }

  function TlvBlock(buf: seq<byte>): seq<byte>
    requires |buf| >= 6 && 6 + TlvLength(buf) <= |buf|
  {
    buf[6..6 + TlvLength(buf)]
  }

  function DecodeDGramFrame(buf: seq<byte>): DecodeResult
  {
    if |buf| < DGRAM_HEADER_LEN then Undecodable(TooShort)
    else if buf[0] != SPEC_VERSION then Undecodable(BadVersion)
    else if buf[1] / 2 != 0 then Undecodable(ReservedFlags)
    else
      var tlvLen, pldLen := TlvLength(buf), Word(buf, 4);
      var total := DGRAM_HEADER_LEN + tlvLen + pldLen;
      if total > MAX_DATAGRAM_SIZE then Undecodable(Oversize)
      else if total > |buf| then Undecodable(FrameTruncated)
      else
        var direction := if buf[1] == 0 then FacadeToBackend else BackendToFacade;
        DecodeBlock(buf[0], direction, TlvBlock(buf), buf[6 + tlvLen..total])
  }

  /** The inner header and the records behind it. */
  function DecodeBlock(version: byte, direction: Direction, block: seq<byte>, payload: seq<byte>): DecodeResult
  {
    match ReadHeader(block)
    case Rejected(_) => Undecodable(InnerPP2)
    case Parsed(inner, rem) =>
      match DecodeFrom(rem, 0, {})
      case Failed(_, _) => Undecodable(EraMalformed)
      case Records(era, _) => Decoded(Frame(version, direction, inner, era, payload))
  }

  // Replying

  datatype Reply = Sent(frame: seq<byte>) | EncodeFailed | ResponseOversize

  /** The frame of a reply: the inbound envelope again, the other direction, another payload. */
  method WriteReply(inbound: Frame, payload: seq<byte>) returns (r: Reply)
    ensures r == ReplyTo(inbound, payload)
  {
    var inner := HeaderV2.Encode(inbound.inner);
    if !inner.Bytes2? {
      return EncodeFailed;
    }
    var era := EncodeTLVs(inbound.era);
    if era == None {
      return EncodeFailed;
    }
    var tlvBlock := inner.bytes + era.value;
    if |tlvBlock| + |payload| + DGRAM_HEADER_LEN > MAX_DATAGRAM_SIZE {
      return ResponseOversize;
    }
    var frame := new byte[DGRAM_HEADER_LEN + |tlvBlock| + |payload|](i => 0);
    FillFrame(frame, inbound.version, tlvBlock, payload);
    r := Sent(frame[..]);
  }

  method FillFrame(frame: array<byte>, version: byte, tlvBlock: seq<byte>, payload: seq<byte>)
    requires |tlvBlock| + |payload| + 6 == frame.Length <= MAX_DATAGRAM_SIZE
    modifies frame
    ensures frame[..] == FrameBytes(version, BackendToFacade, tlvBlock, payload)
  {
    hide Be16, Splice;
    ghost var was := frame[..];
    Write(frame, 0, [version, 1]);
    Write(frame, 2, Be16(|tlvBlock|));
    Write(frame, 4, Be16(|payload|));
    Write(frame, DGRAM_HEADER_LEN, tlvBlock);
    Write(frame, DGRAM_HEADER_LEN + |tlvBlock|, payload);
    SpliceAdjacent(was, 0, [version, 1], Be16(|tlvBlock|));
    SpliceAdjacent(was, 0, [version, 1] + Be16(|tlvBlock|), Be16(|payload|));
    SpliceAdjacent(was, 0, [version, 1] + Be16(|tlvBlock|) + Be16(|payload|), tlvBlock);
    SpliceAdjacent(was, 0, [version, 1] + Be16(|tlvBlock|) + Be16(|payload|) + tlvBlock, payload);
    SpliceParts(was, 0, FrameBytes(version, BackendToFacade, tlvBlock, payload));
  }

  function FrameBytes(version: byte, direction: Direction, tlvBlock: seq<byte>, payload: seq<byte>): (f: seq<byte>)
    requires |tlvBlock| < 0x1_0000 && |payload| < 0x1_0000
    ensures |f| == 6 + |tlvBlock| + |payload|
  {
    [version, if direction == BackendToFacade then 1 else 0] + Be16(|tlvBlock|) + Be16(|payload|) + tlvBlock + payload
  }

  function ReplyTo(inbound: Frame, payload: seq<byte>): Reply
  {
    match Encode2(inbound.inner)
    case Bytes2(inner) =>
      if !Encodable(inbound.era) then EncodeFailed
      else
        var block := inner + Tlv.Encode(inbound.era);
        if |block| + |payload| + DGRAM_HEADER_LEN > MAX_DATAGRAM_SIZE then ResponseOversize
        else Sent(FrameBytes(inbound.version, BackendToFacade, block, payload))
    case _ => EncodeFailed
  }

  // What a reply carries

  /** The envelope of a decoded frame is exactly what is written for it: byte for byte, nothing is lost or wrapped. */
  lemma BlockEncode(version: byte, direction: Direction, block: seq<byte>, payload: seq<byte>)
    requires DecodeBlock(version, direction, block, payload).Decoded?
    ensures var f := DecodeBlock(version, direction, block, payload).frame;
            && Encode2(f.inner).Bytes2? && Encodable(f.era)
            && block == Encode2(f.inner).bytes + Tlv.Encode(f.era)
  {
    hide Encode2, DecodeFrom, Tlv.Encode, OnWire;
    ReadEncode(block);
    var rem := ReadHeader(block).rest;
    hide ReadHeader;
    assert rem[0..] == rem;
    DecodeEncode(rem, 0, {});
  }

  lemma FrameFields(version: byte, direction: Direction, block: seq<byte>, payload: seq<byte>)
    requires |block| + |payload| + 6 <= MAX_DATAGRAM_SIZE
    ensures var f := FrameBytes(version, direction, block, payload);
            && f[0] == version && f[1] == (if direction == BackendToFacade then 1 else 0)
            && TlvLength(f) == |block| && Word(f, 4) == |payload| && TlvBlock(f) == block && f[6 + |block|..] == payload
  {
    var f := FrameBytes(version, direction, block, payload);
    hide Be16;
    assert f[2..4] == Be16(|block|) && f[4..6] == Be16(|payload|);
    WordBytes(f, 2, |block|);
    WordBytes(f, 4, |payload|);
    assert f[6..6 + |block|] == block;
  }

  /** A datagram decodes to a frame only if its declared bytes are those that would be written for the frame. */
  lemma DecodedBytes(buf: seq<byte>)
    requires DecodeDGramFrame(buf).Decoded?
    ensures var f := DecodeDGramFrame(buf).frame;
            && Encode2(f.inner).Bytes2? && Encodable(f.era)
            && var block := Encode2(f.inner).bytes + Tlv.Encode(f.era);
               && 6 + |block| + |f.payload| <= |buf| && |block| + |f.payload| + 6 <= MAX_DATAGRAM_SIZE
               && buf[..6 + |block| + |f.payload|] == FrameBytes(f.version, f.direction, block, f.payload)
  {
    hide Encode2, DecodeBlock, Tlv.Encode, Be16;
    var f, block := DecodeDGramFrame(buf).frame, TlvBlock(buf);
    DecodedParts(buf);
    BlockEncode(buf[0], f.direction, block, f.payload);
    DecodedPayload(buf);
    WordBytes(buf, 2, |block|);
    WordBytes(buf, 4, |f.payload|);
    assert buf[..6 + |block| + |f.payload|] == [buf[0], buf[1]] + buf[2..4] + buf[4..6] + block + f.payload;
  }

  lemma DecodedPayload(buf: seq<byte>)
    requires DecodeDGramFrame(buf).Decoded?
    ensures var f, n := DecodeDGramFrame(buf).frame, TlvLength(buf);
            && 6 + n + Word(buf, 4) <= |buf| && 6 + n + Word(buf, 4) <= MAX_DATAGRAM_SIZE
            && f.payload == buf[6 + n..6 + n + Word(buf, 4)]
            && buf[1] == (if f.direction == BackendToFacade then 1 else 0)
  {
  }

  /** Every reply to a decoded datagram carries the inbound envelope byte for byte, with a length field that says
      exactly how long it is, and is itself decoded to the inbound inner header and records, the other direction and
      the reply's payload. A reply fails only by exceeding the datagram size. */
  lemma ReplyRoundTrip(buf: seq<byte>, payload: seq<byte>)
    requires DecodeDGramFrame(buf).Decoded?
    ensures var inbound := DecodeDGramFrame(buf).frame;
            match ReplyTo(inbound, payload)
            case EncodeFailed => false
            case ResponseOversize => 6 + TlvLength(buf) + |payload| > MAX_DATAGRAM_SIZE
            case Sent(frame) =>
              && |frame| == 6 + TlvLength(buf) + |payload| <= MAX_DATAGRAM_SIZE
              && TlvLength(frame) == TlvLength(buf) && Word(frame, 4) == |payload|
              && TlvBlock(frame) == TlvBlock(buf)
              && DecodeDGramFrame(frame) == Decoded(inbound.(direction := BackendToFacade, payload := payload))
  {
    hide Encode2, DecodeBlock, Tlv.Encode, FrameBytes;
    var inbound, block := DecodeDGramFrame(buf).frame, TlvBlock(buf);
    DecodedParts(buf);
    BlockEncode(buf[0], inbound.direction, block, inbound.payload);
    if 6 + |block| + |payload| <= MAX_DATAGRAM_SIZE {
      FrameFields(inbound.version, BackendToFacade, block, payload);
      BlockDirection(buf[0], inbound.direction, block, inbound.payload, BackendToFacade, payload);
      var frame := FrameBytes(inbound.version, BackendToFacade, block, payload);
      assert frame[6 + |block|..6 + |block| + |payload|] == payload;
    }
  }

  lemma DecodedParts(buf: seq<byte>)
    requires DecodeDGramFrame(buf).Decoded?
    ensures |buf| >= 6 && 6 + TlvLength(buf) <= |buf| && buf[0] == SPEC_VERSION
    ensures var f := DecodeDGramFrame(buf).frame;
            f.version == SPEC_VERSION && DecodeBlock(buf[0], f.direction, TlvBlock(buf), f.payload) == Decoded(f)
  {
  }

  /** Direction and payload do not matter to the envelope. */
  lemma BlockDirection(version: byte, direction: Direction, block: seq<byte>, payload: seq<byte>,
      direction': Direction, payload': seq<byte>)
    requires DecodeBlock(version, direction, block, payload).Decoded?
    ensures DecodeBlock(version, direction', block, payload')
         == Decoded(DecodeBlock(version, direction, block, payload).frame.(direction := direction',
             payload := payload'))
  {
    hide ReadHeader, DecodeFrom;
  }
}
