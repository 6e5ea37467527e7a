/** The CSTP stream byte by byte: what each frame does to the tunnel, and why a stream ends it. */
module CstpWire {
  import opened Wrappers
  import opened Bytes
  import opened CstpFrame
  import opened CstpTunnel

  /** A frame on the wire: the magic STF and 1, the length of the payload, the type, a byte that does not count, the
      payload. */
  function FrameBytes(typ: byte, payload: seq<byte>, last: byte): seq<int>
  {
    [83, 84, 70, 1, |payload| / 256, |payload| % 256, typ, last] + payload
  }

  lemma WireBytes(typ: byte, payload: seq<byte>, last: byte)
    requires |payload| <= 65535
    ensures Wire(Frame(typ, payload), last) == FrameBytes(typ, payload, last)
  {
  }

  /** What a frame at the front of the stream does, for every type: data is queued; a liveness request is answered
      with its payload, if the connection still takes a write; a disconnect of either side and a compressed frame
      end the tunnel; and any other frame does nothing. */
  lemma FrameFate(typ: byte, payload: seq<byte>, last: byte, rest: seq<byte>, st: State)
    requires |payload| <= 65535
    ensures Demux(FrameBytes(typ, payload, last) + rest, st) ==
              if typ == 0 then Demux(rest, st.(queue := st.queue + [payload]))
              else if typ == 3 && st.budget == 0 then st.(cause := Some(WriteFailed))
              else if typ == 3 then
                Demux(rest, st.(written := st.written + FrameBytes(4, payload, 0), budget := st.budget - 1))
              else if typ in {5, 9} then st.(cause := Some(ClientDisconnect))
              else if typ == 8 then st.(cause := Some(Compressed))
              else Demux(rest, st)
  {
    hide Read, Wire, FrameBytes;
    var f := Frame(typ, payload);
    WireBytes(typ, payload, last);
    WireBytes(4, payload, 0);
    ReadWire(f, last, rest, BUFFER_SIZE);
  }

  /** The stream begins with a whole frame. */
  predicate Whole(s: seq<byte>) {
    |s| >= 8 && s[..4] == [83, 84, 70, 1] && |s| >= 8 + s[4] as int * 256 + s[5]
  }

  /** The parts of a stream that begins with a whole frame. */
  lemma WholeFrame(s: seq<byte>)
    requires Whole(s)
    ensures var n := s[4] as int * 256 + s[5]; s == FrameBytes(s[6], s[8..8 + n], s[7]) + s[8 + n..]
  {
    var n := s[4] as int * 256 + s[5];
    assert s == s[..4] + [s[4], s[5], s[6], s[7]] + s[8..8 + n] + s[8 + n..];
  }

  /** Why any other stream ends the tunnel: nothing is left where a header or a payload is due, or not all of it, or
      the header has not the magic. */
  lemma StreamFate(s: seq<byte>, st: State)
    requires !Whole(s)
    ensures Demux(s, st) ==
              st.(cause := Some(if |s| == 0 then StreamEnded
                                else if |s| < 8 then StreamCut
                                else if s[..4] != [83, 84, 70, 1] then Misaligned
                                else if |s| == 8 then StreamEnded
                                else StreamCut))
  {
    NeverShort(s, BUFFER_SIZE);
    if |s| >= 8 {
      assert FRAME_MAGIC == [83, 84, 70, 1];
      assert s[8..] == [] <==> |s| == 8;
    }
  }

  // After a close from elsewhere

  /** What a frame does that the loop still finds in its buffer: data is queued as long as the loop picks the queue;
      anything that is to be answered, or that ends the tunnel, ends the loop, and the cause stays; any other frame
      does nothing. */
  lemma ClosedFate(typ: byte, payload: seq<byte>, last: byte, rest: seq<byte>, st: State, picks: seq<bool>)
    requires |payload| <= 65535
    ensures DemuxClosed(FrameBytes(typ, payload, last) + rest, st, picks) ==
              if typ == 0 && (picks == [] || !picks[0]) then st
              else if typ == 0 then DemuxClosed(rest, st.(queue := st.queue + [payload]), picks[1..])
              else if typ in {3, 5, 8, 9} then st
              else DemuxClosed(rest, st, picks)
    ensures !Whole(rest) ==> DemuxClosed(rest, st, picks) == st
  {
    hide Wire, FrameBytes;
    var f := Frame(typ, payload);
    WireBytes(typ, payload, last);
    ReadWire(f, last, rest, BUFFER_SIZE);
    if !Whole(rest) {
      assert FRAME_MAGIC == [83, 84, 70, 1];
      NotRead(rest);
    }
  }

  lemma NotRead(s: seq<byte>)
    requires !Whole(s)
    ensures !Read(s, BUFFER_SIZE).Got?
  {
    assert FRAME_MAGIC == [83, 84, 70, 1];
  }

  /** Until the close comes the loop goes on as if it did not; when it comes, its cause is the tunnel's. */
  lemma ClosingFate(typ: byte, payload: seq<byte>, last: byte, rest: seq<byte>, st: State, i: Interruption)
    requires |payload| <= 65535
    ensures var s := FrameBytes(typ, payload, last) + rest;
            DemuxClosing(s, st, i) ==
              if i.after == 0 then DemuxClosed(s, st.(cause := i.cause), i.picks)
              else if typ in {5, 8, 9} || (typ == 3 && st.budget == 0) then Demux(s, st)
              else
                DemuxClosing(rest,
                  if typ == 0 then st.(queue := st.queue + [payload])
                  else if typ == 3 then st.(written := st.written + FrameBytes(4, payload, 0), budget := st.budget - 1)
                  else st,
                  i.(after := i.after - 1))
    ensures i.after > 0 && !Whole(rest) ==> DemuxClosing(rest, st, i) == Demux(rest, st)
  {
    hide Read, Wire, FrameBytes, DemuxClosed;
    var f := Frame(typ, payload);
    WireBytes(typ, payload, last);
    WireBytes(4, payload, 0);
    ReadWire(f, last, rest, BUFFER_SIZE);
    if !Whole(rest) {
      NotRead(rest);
    }
  }
}
