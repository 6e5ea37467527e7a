/** CSTP frames (internal/cstp/frame.go). */
module CstpFrame {
  import opened Bytes

  const PKT_DATA: byte := 0
  const PKT_DPD_OUT: byte := 3
  const PKT_DPD_RESP: byte := 4
  const PKT_DISCONNECT: byte := 5
  const PKT_COMPRESSED: byte := 8
  const PKT_TERM_SERVER: byte := 9

  const FRAME_HEADER_LEN := 8
  const MAX_FRAME_PAYLOAD := 0xffff
  const FRAME_MAGIC: seq<byte> := ['S' as int, 'T' as int, 'F' as int, 1]

  datatype Frame = Frame(typ: byte, payload: seq<byte>)

  /** What reading one frame off a stream gives. */
  datatype ReadResult =
    | Got(frame: Frame, rest: seq<byte>)
    | Eof            // nothing where something was due
    | UnexpectedEof  // cut off
    | BadMagic
    | ShortBuffer

  predicate Encodable(f: Frame) {
    |f.payload| <= MAX_FRAME_PAYLOAD
  }

  /** A frame on the wire; its eighth byte is zero when written, and ignored when read. */
  function Wire(f: Frame, last: byte): (s: seq<byte>)
    requires Encodable(f)
    ensures |s| == 8 + |f.payload|
  {
    FRAME_MAGIC + Be16(|f.payload|) + [f.typ, last] + f.payload
  }

  datatype EncodeResult = Encoded(n: nat) | FrameTooLarge | NoRoom

  /** Writes a frame to the front of dst, byte by byte, if it fits. */
  method EncodeFrame(dst: array<byte>, typ: byte, payload: seq<byte>) returns (r: EncodeResult)
    modifies dst
    ensures |payload| > MAX_FRAME_PAYLOAD ==> r == FrameTooLarge
    ensures |payload| <= MAX_FRAME_PAYLOAD && dst.Length < 8 + |payload| ==> r == NoRoom
    ensures !r.Encoded? ==> dst[..] == old(dst[..])
    ensures |payload| <= MAX_FRAME_PAYLOAD && dst.Length >= 8 + |payload| ==>
              && r == Encoded(8 + |payload|)
              && dst[..] == Wire(Frame(typ, payload), 0) + old(dst[..])[8 + |payload|..]
  {
    if |payload| > MAX_FRAME_PAYLOAD {
      return FrameTooLarge;
    }
    if dst.Length < FRAME_HEADER_LEN + |payload| {
      return NoRoom;
    }
    FillFrame(dst, typ, payload);
    r := Encoded(FRAME_HEADER_LEN + |payload|);
  }

  method FillFrame(dst: array<byte>, typ: byte, payload: seq<byte>)
    requires |payload| <= MAX_FRAME_PAYLOAD && dst.Length >= 8 + |payload|
    modifies dst
    ensures dst[..] == Wire(Frame(typ, payload), 0) + old(dst[..])[8 + |payload|..]
  {
    hide Be16, Splice;
    ghost var was := dst[..];
    ghost var magic: seq<byte> := FRAME_MAGIC;
    Write(dst, 0, FRAME_MAGIC);
    Write(dst, 4, Be16(|payload|));
    Write(dst, 6, [typ, 0]);
    Write(dst, FRAME_HEADER_LEN, payload);
    SpliceAdjacent(was, 0, magic, Be16(|payload|));
    SpliceAdjacent(was, 0, magic + Be16(|payload|), [typ, 0]);
    SpliceAdjacent(was, 0, magic + Be16(|payload|) + [typ, 0], payload);
    SpliceParts(was, 0, Wire(Frame(typ, payload), 0));
  }

  /** Reading exactly n bytes: all of them, or what is wrong. */
  predicate Cut(s: seq<byte>, n: nat) { |s| < n }

  function Short(s: seq<byte>): ReadResult
  {
    if s == [] then Eof else UnexpectedEof
  }

  /** One frame off the stream, into a buffer of a given size. */
  function Read(s: seq<byte>, room: nat): (r: ReadResult)
    ensures r.Got? ==> |r.rest| < |s| && Encodable(r.frame)
  {
    if Cut(s, FRAME_HEADER_LEN) then Short(s)
    else if s[..4] != FRAME_MAGIC then BadMagic
    else
      var plen := Word(s, 4);
      if plen == 0 then Got(Frame(s[6], []), s[8..])
      else if plen > room then ShortBuffer
      else if Cut(s[8..], plen) then Short(s[8..])
      else Got(Frame(s[6], s[8..8 + plen]), s[8 + plen..])
  }

  /** Reads a frame into the header and payload buffers: its type, the length of its payload, and the rest of the
      stream. */
  method ReadFrame(s: seq<byte>, hdr: array<byte>, buf: array<byte>) returns (r: ReadResult, n: nat)
    requires hdr != buf
    modifies hdr, buf
    ensures r == if hdr.Length < FRAME_HEADER_LEN then ShortBuffer else Read(s, buf.Length)
    ensures hdr.Length < FRAME_HEADER_LEN ==> hdr[..] == old(hdr[..]) && buf[..] == old(buf[..])
    ensures r.Got? ==> n == |r.frame.payload| <= buf.Length && buf[..n] == r.frame.payload
  {
    n := 0;
    if hdr.Length < FRAME_HEADER_LEN {
      return ShortBuffer, n;
    }
    if |s| < FRAME_HEADER_LEN {
      return Short(s), n;
    }
    Write(hdr, 0, s[..FRAME_HEADER_LEN]);
    assert hdr[..][..8] == s[..8];
    if hdr[..4] != FRAME_MAGIC {
      return BadMagic, n;
    }
    var plen := hdr[4] as int * 256 + hdr[5];
    var typ := hdr[6];
    var rest := s[FRAME_HEADER_LEN..];
    if plen == 0 {
      return Got(Frame(typ, []), rest), n;
    }
    if plen > buf.Length {
      return ShortBuffer, n;
    }
    if |rest| < plen {
      return Short(rest), n;
    }
    Write(buf, 0, rest[..plen]);
    n := plen;
    assert rest[..plen] == s[8..8 + plen] && rest[plen..] == s[8 + plen..];
    r := Got(Frame(typ, buf[..plen]), rest[plen..]);
  }

  // The two are inverse

  /** A written frame is read back, whatever its last header byte, and nothing behind it is consumed. */
  lemma ReadWire(f: Frame, last: byte, rest: seq<byte>, room: nat)
    requires Encodable(f) && |f.payload| <= room
    ensures Read(Wire(f, last) + rest, room) == Got(f, rest)
  {
    hide Be16;
    var s := Wire(f, last) + rest;
    assert s[..4] == FRAME_MAGIC && s[4..6] == Be16(|f.payload|) && s[6] == f.typ;
    WordBytes(s, 4, |f.payload|);
    assert s[8..] == f.payload + rest;
    assert s[8..8 + |f.payload|] == f.payload && s[8 + |f.payload|..] == rest;
  }

  /** What is read is a frame as it would be written, up to its last header byte. */
  lemma ReadIsWire(s: seq<byte>, room: nat)
    requires Read(s, room).Got?
    ensures |s| >= 8 && s == Wire(Read(s, room).frame, s[7]) + Read(s, room).rest
  {
    hide Be16;
    var f, n := Read(s, room).frame, Word(s, 4);
    WordBytes(s, 4, n);
    assert s == s[..4] + s[4..6] + [s[6], s[7]] + s[8..8 + n] + s[8 + n..];
  }

  /** A buffer as large as a payload can be is never too short. */
  lemma NeverShort(s: seq<byte>, room: nat)
    ensures room >= MAX_FRAME_PAYLOAD ==> Read(s, room) != ShortBuffer
    ensures room < MAX_FRAME_PAYLOAD ==>
            Read(FRAME_MAGIC + Be16(MAX_FRAME_PAYLOAD) + [PKT_DATA, 0], room) == ShortBuffer
  {
    var t := FRAME_MAGIC + Be16(MAX_FRAME_PAYLOAD) + [PKT_DATA, 0];
    assert t[..4] == FRAME_MAGIC && t[4..6] == Be16(MAX_FRAME_PAYLOAD);
    WordBytes(t, 4, MAX_FRAME_PAYLOAD);
  }

  /** A frame that is read is read the same when more follows. */
  lemma ReadPrefix(cut: seq<byte>, s: seq<byte>, room: nat)
    requires cut <= s && Read(cut, room).Got?
    ensures Read(s, room).Got? && Read(s, room).frame == Read(cut, room).frame
            && Read(cut, room).rest <= Read(s, room).rest
  {
    var n := Word(cut, 4);
    assert s[..4] == cut[..4] && Word(s, 4) == n && s[6] == cut[6];
    assert s[8..8 + n] == cut[8..8 + n];
    assert cut[8 + n..] <= s[8 + n..];
  }

  // Lists of frames

  predicate AllEncodable(fs: seq<Frame>) {
    fs != [] ==> Encodable(fs[0]) && AllEncodable(fs[1..])
  }

  function WireAll(fs: seq<Frame>): seq<byte>
    requires AllEncodable(fs)
  {
    if fs == [] then [] else Wire(fs[0], 0) + WireAll(fs[1..])
  }

  function ReadAll(s: seq<byte>): seq<Frame>
    decreases |s|
  {
    match Read(s, MAX_FRAME_PAYLOAD)
    case Got(f, rest) => [f] + ReadAll(rest)
    case _ => []
  }

  /** The peer reads off a stream exactly the frames written to it. */
  lemma {:induction false} ReadAllWire(fs: seq<Frame>)
    requires AllEncodable(fs)
    ensures ReadAll(WireAll(fs)) == fs
  {
    hide Wire, Read;
    if fs != [] {
      ReadWire(fs[0], 0, WireAll(fs[1..]), MAX_FRAME_PAYLOAD);
      ReadAllWire(fs[1..]);
      assert fs == [fs[0]] + fs[1..];
    }
  }
}
