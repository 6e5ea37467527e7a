/** The read loop of a CSTP tunnel (internal/cstp/tunnel.go). */
module CstpTunnel {
  import opened Wrappers
  import opened Bytes
  import opened CstpFrame

  /** Why a tunnel was closed. */
  datatype Cause = StreamEnded | StreamCut | Misaligned | BufferShort | WriteFailed | ClientDisconnect | Compressed

  /** What the loop has done: the payloads queued for the reader, the bytes written back, how many writes the connection
      still takes, and why it ended. */
  datatype State = State(queue: seq<seq<byte>>, written: seq<byte>, budget: nat, cause: Option<Cause>)

  const BUFFER_SIZE := 65536

  predicate Ends(typ: byte) {
    typ == PKT_DISCONNECT || typ == PKT_TERM_SERVER || typ == PKT_COMPRESSED
  }

  function EndCause(typ: byte): Cause
    requires Ends(typ)
  {
    if typ == PKT_COMPRESSED then Compressed else ClientDisconnect
  }

  function ErrorCause(r: ReadResult): Cause
    requires !r.Got?
  {
    match r
    case Eof => StreamEnded
    case UnexpectedEof => StreamCut
    case BadMagic => Misaligned
    case ShortBuffer => BufferShort
  }

  /** One frame that does not end the loop, as long as a write does not fail. */
  function Handle(st: State, f: Frame): State
    requires Encodable(f) && (f.typ == PKT_DPD_OUT ==> st.budget > 0)
  {
    if f.typ == PKT_DATA then st.(queue := st.queue + [f.payload])
    else if f.typ == PKT_DPD_OUT then
        st.(written := st.written + Wire(Frame(PKT_DPD_RESP, f.payload), 0), budget := st.budget - 1)
    else st
  }

  /** The loop over a stream. */
  function Demux(s: seq<byte>, st: State): State
    decreases |s|
  {
    match Read(s, BUFFER_SIZE)
    case Got(f, rest) =>
      if Ends(f.typ) then st.(cause := Some(EndCause(f.typ)))
      else if f.typ == PKT_DPD_OUT && st.budget == 0 then st.(cause := Some(WriteFailed))
      else Demux(rest, Handle(st, f))
    case e => st.(cause := Some(ErrorCause(e)))
  }

  /** A close from elsewhere (a failed write, the heartbeat, the owner): after how many frames it comes, its cause
      if it has one, and whether the loop still picks the queue rather than the close, for each data frame it reads
      after that. */
  datatype Interruption = Interruption(after: nat, cause: Option<Cause>, picks: seq<bool>)

  /** The loop over a stream that is closed from elsewhere; the stream may end where the close cut it. */
  function DemuxClosing(s: seq<byte>, st: State, i: Interruption): State
    decreases |s|
  {
    if i.after == 0 then DemuxClosed(s, st.(cause := i.cause), i.picks)
    else
      match Read(s, BUFFER_SIZE)
      case Got(f, rest) =>
        if Ends(f.typ) then st.(cause := Some(EndCause(f.typ)))
        else if f.typ == PKT_DPD_OUT && st.budget == 0 then st.(cause := Some(WriteFailed))
        else DemuxClosing(rest, Handle(st, f), i.(after := i.after - 1))
      case e => st.(cause := Some(ErrorCause(e)))
  }

  /** What the loop does with frames it still finds in its buffer after the close. */
  function DemuxClosed(s: seq<byte>, st: State, picks: seq<bool>): State
    decreases |s|
  {
    match Read(s, BUFFER_SIZE)
    case Got(f, rest) =>
      if Ends(f.typ) || f.typ == PKT_DPD_OUT then st
      else if f.typ != PKT_DATA then DemuxClosed(rest, st, picks)
      else if picks == [] || !picks[0] then st
      else DemuxClosed(rest, Handle(st, f), picks[1..])
    case _ => st
  }

  /** With or without such a close. */
  function DemuxWith(s: seq<byte>, st: State, i: Option<Interruption>): State
  {
    if i.Some? then DemuxClosing(s, st, i.value) else Demux(s, st)
  }

  class Tunnel {
    var br: seq<byte>        // what is still to be read
    var bw: seq<byte>        // what has been written
    var budget: nat          // writes the connection still takes
    var dataCh: seq<seq<byte>>
    var dataClosed: bool
    var closed: bool
    var closeErr: Option<Cause>

    constructor (stream: seq<byte>, budget: nat)
      ensures br == stream && bw == [] && this.budget == budget && dataCh == [] && !dataClosed && !closed
              && closeErr == None
    {
      br, bw, this.budget, dataCh, dataClosed, closed, closeErr := stream, [], budget, [], false, false, None;
    }

    function View(): State
      reads this
    {
      State(dataCh, bw, budget, closeErr)
    }

    /** The first cause stays. */
    method CloseWithErr(cause: Option<Cause>)
      modifies this`closed, this`closeErr
      ensures closed && closeErr == if old(closed) || cause == None then old(closeErr) else cause
    {
      if !closed {
        if cause.Some? {
          closeErr := cause;
        }
        closed := true;
      }
    }

    method WriteFrame(typ: byte, payload: seq<byte>) returns (ok: bool)
      requires |payload| <= MAX_FRAME_PAYLOAD
      modifies this`bw, this`budget, this`closed, this`closeErr
      ensures ok <==> !old(closed) && old(budget) > 0
      ensures ok ==> bw == old(bw) + Wire(Frame(typ, payload), 0) && budget == old(budget) - 1
      ensures ok ==> !closed && closeErr == old(closeErr)
      ensures !ok ==> bw == old(bw) && budget == old(budget) && closed
      ensures !ok ==> closeErr == if old(closed) then old(closeErr) else Some(WriteFailed)
    {
      var buf := new byte[FRAME_HEADER_LEN + |payload|];
      var r := EncodeFrame(buf, typ, payload);
      if closed {
        return false;
      }
      if budget == 0 {
        CloseWithErr(Some(WriteFailed));
        return false;
      }
      assert buf[..8 + |payload|] == Wire(Frame(typ, payload), 0);
      bw := bw + buf[..r.n];
      budget := budget - 1;
      ok := true;
    }

    /** Reads frames until one ends the tunnel, a write fails, the stream ends, or the tunnel is closed from
        elsewhere. */
    method ReadLoop(i: Option<Interruption>)
      requires !closed && closeErr == None
      modifies this
      ensures View() == DemuxWith(old(br), old(View()), i) && closed && dataClosed
    {
      hide Read, Wire;
      var hdr := new byte[FRAME_HEADER_LEN];
      var buf := new byte[BUFFER_SIZE];
      var pending := i;
      var done := false;
      while !done
        invariant !closed ==> closeErr == None
        invariant done ==> closed && View() == DemuxWith(old(br), old(View()), i)
        invariant !done && !closed ==> DemuxWith(br, View(), pending) == DemuxWith(old(br), old(View()), i)
        invariant !done && closed ==>
                  pending.Some? && DemuxClosed(br, View(), pending.value.picks) == DemuxWith(old(br), old(View()), i)
        invariant fresh(hdr) && fresh(buf) && hdr.Length == FRAME_HEADER_LEN && buf.Length == BUFFER_SIZE && hdr != buf
        decreases |br|, if done then 0 else 1
      {
        if pending.Some? && pending.value.after == 0 {
          CloseWithErr(pending.value.cause);
        }
        var r, n := ReadFrame(br, hdr, buf);
        if !r.Got? {
          CloseWithErr(Some(ErrorCause(r)));
          done := true;
        } else {
          br := r.rest;
          done, pending := Dispatch(r.frame.typ, buf[..n], pending);
        }
      }
      dataClosed := true;
    }

    /** What one frame does. */
    method Dispatch(typ: byte, payload: seq<byte>, i: Option<Interruption>)
        returns (done: bool, rest: Option<Interruption>)
      requires |payload| <= MAX_FRAME_PAYLOAD && (!closed ==> closeErr == None && (i.Some? ==> i.value.after > 0))
      requires closed ==> i.Some?
      modifies this`dataCh, this`bw, this`budget, this`closed, this`closeErr
      ensures done ==> closed
      ensures done <==> || Ends(typ) || (typ == PKT_DPD_OUT && (old(closed) || old(budget) == 0))
                        || (typ == PKT_DATA && old(closed) && !Picked(i.value))
      ensures done && old(closed) ==> View() == old(View())
      ensures done && !old(closed) ==>
              View() == old(View()).(cause := Some(if Ends(typ) then EndCause(typ) else WriteFailed))
      ensures !done ==> closed == old(closed) && View() == Handle(old(View()), Frame(typ, payload))
      ensures !done ==> rest == Passed(i, typ, closed)
    {
      rest := i;
      done := false;
      if typ == PKT_DATA {
        if closed && !Picked(i.value) {
          return true, i;
        }
        dataCh := dataCh + [payload];
      } else if typ == PKT_DPD_OUT {
        var ok := WriteFrame(PKT_DPD_RESP, payload);
        if !ok {
          CloseWithErr(Some(WriteFailed));
          return true, i;
        }
      } else if typ == PKT_DISCONNECT || typ == PKT_TERM_SERVER {
        CloseWithErr(Some(ClientDisconnect));
        return true, i;
      } else if typ == PKT_COMPRESSED {
        CloseWithErr(Some(Compressed));
        return true, i;
      }
      rest := Passed(i, typ, closed);
    }
  }

  predicate Picked(i: Interruption) {
    i.picks != [] && i.picks[0]
  }

  /** What is left of an interruption after one frame. */
  function Passed(i: Option<Interruption>, typ: byte, closed: bool): Option<Interruption>
  {
    if i == None then None
    else if !closed then Some(i.value.(after := if i.value.after > 0 then i.value.after - 1 else 0))
    else if typ == PKT_DATA && i.value.picks != [] then Some(i.value.(picks := i.value.picks[1..]))
    else i
  }

  // A close from elsewhere

  /** A close only cuts short: what is queued and what is written are beginnings of what they would have been. */
  lemma {:induction false} ClosingCutsShort(cut: seq<byte>, s: seq<byte>, st: State, i: Interruption)
    requires cut <= s
    ensures DemuxClosing(cut, st, i).queue <= Demux(s, st).queue
    ensures DemuxClosing(cut, st, i).written <= Demux(s, st).written
    decreases |cut|
  {
    hide Read, Handle;
    DemuxGrows(s, st);
    if i.after == 0 {
      ClosedCutsShort(cut, s, st, i.cause, i.picks);
    } else if Read(cut, BUFFER_SIZE).Got? {
      ReadPrefix(cut, s, BUFFER_SIZE);
      var f, rest := Read(cut, BUFFER_SIZE).frame, Read(cut, BUFFER_SIZE).rest;
      if !Ends(f.typ) && !(f.typ == PKT_DPD_OUT && st.budget == 0) {
        ClosingCutsShort(rest, Read(s, BUFFER_SIZE).rest, Handle(st, f), i.(after := i.after - 1));
      }
    }
  }

  lemma {:induction false} ClosedCutsShort(cut: seq<byte>, s: seq<byte>, st: State, cause: Option<Cause>,
      picks: seq<bool>)
    requires cut <= s
    ensures var c := DemuxClosed(cut, st.(cause := cause), picks);
            c.queue <= Demux(s, st).queue && c.written <= Demux(s, st).written && c.cause == cause
    decreases |cut|
  {
    hide Read;
    DemuxGrows(s, st);
    if Read(cut, BUFFER_SIZE).Got? {
      ReadPrefix(cut, s, BUFFER_SIZE);
      var f, rest := Read(cut, BUFFER_SIZE).frame, Read(cut, BUFFER_SIZE).rest;
      if !Ends(f.typ) && f.typ != PKT_DPD_OUT && (f.typ == PKT_DATA ==> picks != [] && picks[0]) {
        ClosedCutsShort(rest, Read(s, BUFFER_SIZE).rest, Handle(st, f), cause,
                        if f.typ == PKT_DATA then picks[1..] else picks);
      }
    }
  }

  lemma {:induction false} DemuxGrows(s: seq<byte>, st: State)
    ensures st.queue <= Demux(s, st).queue && st.written <= Demux(s, st).written
    decreases |s|
  {
    match Read(s, BUFFER_SIZE)
    case Got(f, rest) =>
      if !Ends(f.typ) && !(f.typ == PKT_DPD_OUT && st.budget == 0) {
        hide Wire;
        DemuxGrows(rest, Handle(st, f));
      }
    case _ =>
  }

  // What the loop does with a list of frames

  /** The frames before the first one that ends the tunnel. */
  function Before(fs: seq<Frame>): (r: seq<Frame>)
    ensures |r| <= |fs| && (|r| < |fs| ==> Ends(fs[|r|].typ))
    ensures AllEncodable(fs) ==> AllEncodable(r)
  {
    if fs == [] || Ends(fs[0].typ) then [] else [fs[0]] + Before(fs[1..])
  }

  function Payloads(fs: seq<Frame>): seq<seq<byte>>
  {
    if fs == [] then [] else (if fs[0].typ == PKT_DATA then [fs[0].payload] else []) + Payloads(fs[1..])
  }

  /** A response for each request, with its payload. */
  function Responses(fs: seq<Frame>): (r: seq<Frame>)
    ensures AllEncodable(fs) ==> AllEncodable(r)
  {
    if fs == [] then []
    else if fs[0].typ == PKT_DPD_OUT then [Frame(PKT_DPD_RESP, fs[0].payload)] + Responses(fs[1..])
    else Responses(fs[1..])
  }

  /** For every list of frames, as many payloads and responses as there are data frames and requests before the
      first frame that ends the tunnel, in their order; then the tunnel ends for that frame, or goes on with the
      rest of the stream. */
  lemma {:induction false} DemuxFrames(fs: seq<Frame>, tail: seq<byte>, st: State)
    requires AllEncodable(fs) && |Responses(Before(fs))| <= st.budget
    ensures var responses := Responses(Before(fs));
            var then_ := st.(queue := st.queue + Payloads(Before(fs)), written := st.written + WireAll(responses),
                budget := st.budget - |responses|);
            && Demux(WireAll(fs) + tail, st) ==
                 if |Before(fs)| < |fs| then then_.(cause := Some(EndCause(fs[|Before(fs)|].typ)))
                 else Demux(tail, then_)
    decreases |fs|
  {
    hide Wire, Read;
    if fs == [] {
      assert WireAll(fs) + tail == tail;
      Unchanged(st);
    } else {
      var f, rest := fs[0], fs[1..];
      ReadWire(f, 0, WireAll(rest) + tail, BUFFER_SIZE);
      assert WireAll(fs) + tail == Wire(f, 0) + (WireAll(rest) + tail);
      if Ends(f.typ) {
        Unchanged(st);
      } else {
        DemuxFrames(rest, tail, Handle(st, f));
        StepJoins(st, f, rest);
      }
    }
  }

  lemma Unchanged(st: State)
    ensures st.(queue := st.queue + Payloads([]), written := st.written + WireAll(Responses([])),
            budget := st.budget - |Responses([])|) == st
  {
  }

  /** One frame handled and then the rest is all of them handled. */
  lemma StepJoins(st: State, f: Frame, rest: seq<Frame>)
    requires Encodable(f) && AllEncodable(rest) && !Ends(f.typ)
    requires f.typ == PKT_DPD_OUT ==> st.budget > 0
    ensures var all := [f] + Before(rest);
            && AllEncodable(all)
            && Handle(st, f).queue + Payloads(Before(rest)) == st.queue + Payloads(all)
            && Handle(st, f).written + WireAll(Responses(Before(rest))) == st.written + WireAll(Responses(all))
            && Handle(st, f).budget - |Responses(Before(rest))| == st.budget - |Responses(all)|
  {
    hide Wire;
    var all := [f] + Before(rest);
    assert all[1..] == Before(rest);
    if f.typ == PKT_DPD_OUT {
      var responses := Responses(all);
      assert responses[0] == Frame(PKT_DPD_RESP, f.payload) && responses[1..] == Responses(Before(rest));
      assert WireAll(responses) == Wire(responses[0], 0) + WireAll(responses[1..]);
    }
  }

  /** The whole run of the loop over what a client sends before it closes: the reader gets exactly the payloads, the
      client exactly the responses, as it reads them off the stream, up to the first frame that ends the tunnel. */
  lemma DemuxAll(fs: seq<Frame>, st: State)
    requires AllEncodable(fs) && |Responses(Before(fs))| <= st.budget
    ensures var responses := Responses(Before(fs));
            && Demux(WireAll(fs), st) ==
                 State(st.queue + Payloads(Before(fs)), st.written + WireAll(responses), st.budget - |responses|,
                       Some(if |Before(fs)| < |fs| then EndCause(fs[|Before(fs)|].typ) else StreamEnded))
            && ReadAll(WireAll(responses)) == responses
  {
    hide *;
    DemuxFrames(fs, [], st);
    AppendNothing(WireAll(fs));
    var responses := Responses(Before(fs));
    EndOfStream(st.(queue := st.queue + Payloads(Before(fs)), written := st.written + WireAll(responses),
        budget := st.budget - |responses|));
    ReadAllWire(responses);
  }

  lemma AppendNothing(s: seq<byte>)
    ensures s + [] == s
  {
  }

  lemma EndOfStream(st: State)
    ensures Demux([], st) == st.(cause := Some(StreamEnded))
  {
  }

  /** Whatever arrives, the buffer is large enough. */
  lemma {:induction false} NeverBufferShort(s: seq<byte>, st: State)
    ensures Demux(s, st).cause.Some? && Demux(s, st).cause != Some(BufferShort)
    decreases |s|
  {
    NeverShort(s, BUFFER_SIZE);
    match Read(s, BUFFER_SIZE)
    case Got(f, rest) =>
      if !Ends(f.typ) && !(f.typ == PKT_DPD_OUT && st.budget == 0) {
        NeverBufferShort(rest, Handle(st, f));
      }
    case _ =>
  }
}
