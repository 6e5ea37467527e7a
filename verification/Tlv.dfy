/** Type-length-value records (internal/proxyproto/tlv.go) and their encoder
    (internal/udshandoff/datagram_listener.go:327-341). */
module Tlv {
  import opened Wrappers
  import opened Bytes

  datatype TLV = TLV(typ: byte, value: seq<byte>)

  predicate IsReserved(typ: byte) {
    0x80 <= typ <= 0xdf || typ >= 0xf0
  }

  datatype TlvError = Truncated | Duplicate | ReservedRange | TrailingGarbage

  /** The records of a block and the bytes they take, or what is wrong and where. */
  datatype Decoded = Records(tlvs: seq<TLV>, consumed: nat) | Failed(error: TlvError, at: nat)

  // Encoding

  predicate Encodable(ts: seq<TLV>) {
    forall t :: t in ts ==> |t.value| <= 0xffff
  }

  function Record(t: TLV): (s: seq<byte>)
    requires |t.value| <= 0xffff
    ensures |s| == 3 + |t.value|
  {
    [t.typ] + Be16(|t.value|) + t.value
  }

  function Encode(ts: seq<TLV>): seq<byte>
    requires Encodable(ts)
  {
    if ts == [] then [] else Record(ts[0]) + Encode(ts[1..])
  }

  lemma {:induction false} EncodeSnoc(ts: seq<TLV>, t: TLV)
    requires Encodable(ts) && |t.value| <= 0xffff
    ensures Encodable(ts + [t]) && Encode(ts + [t]) == Encode(ts) + Record(t)
  {
    if ts == [] {
      assert ts + [t] == [t];
    } else {
      EncodeSnoc(ts[1..], t);
      assert (ts + [t])[1..] == ts[1..] + [t];
    }
  }

  /** Appends record after record; a value whose length does not fit its field is an error. */
  method EncodeTLVs(ts: seq<TLV>) returns (r: Option<seq<byte>>)
    ensures r == if Encodable(ts) then Some(Encode(ts)) else None
  {
    var buf: seq<byte> := [];
    var i := 0;
    while i < |ts|
      invariant 0 <= i <= |ts| && Encodable(ts[..i]) && buf == Encode(ts[..i])
    {
      var t := ts[i];
      if |t.value| > 0xffff {
        return None;
      }
      EncodeSnoc(ts[..i], t);
      assert ts[..i + 1] == ts[..i] + [t];
      buf := buf + [t.typ];
      buf := buf + Be16(|t.value|);
      buf := buf + t.value;
      i := i + 1;
    }
    assert ts[..i] == ts;
    r := Some(buf);
  }

  // Decoding

  /** The records from offset off on, none of which may have a type seen before. */
  function DecodeFrom(block: seq<byte>, off: nat, seen: set<byte>): Decoded
    requires off <= |block|
    decreases |block| - off
  {
    if off == |block| then Records([], off)
    else if |block| - off < 3 then Failed(Truncated, off)
    else
      var typ, length := block[off], Word(block, off + 1);
      if off + 3 + length > |block| then Failed(Truncated, off)
      else if typ in seen then Failed(Duplicate, off)
      else if IsReserved(typ) then Failed(ReservedRange, off)
      else
        match DecodeFrom(block, off + 3 + length, seen + {typ})
        case Records(rest, consumed) => Records([TLV(typ, block[off + 3..off + 3 + length])] + rest, consumed)
        case Failed(e, at) => Failed(e, at)
  }

  function Prepend(ts: seq<TLV>, d: Decoded): Decoded
  {
    match d
    case Records(rest, consumed) => Records(ts + rest, consumed)
    case Failed(_, _) => d
  }

  /** Walks the block once, collecting records and the types seen. The check for trailing bytes at the end never
      fires. */
  method DecodeTLVs(block: seq<byte>) returns (r: Decoded)
    ensures r == DecodeFrom(block, 0, {})
    ensures r.Records? ==> r.consumed == |block|
    ensures r.Failed? ==> r.error != TrailingGarbage
  {
    var out: seq<TLV> := [];
    var seen: set<byte> := {};
    var off := 0;
    while off < |block|
      invariant off <= |block|
      invariant Prepend(out, DecodeFrom(block, off, seen)) == DecodeFrom(block, 0, {})
      decreases |block| - off
    {
      if |block| - off < 3 {
        return Failed(Truncated, off);
      }
      var typ, length := block[off], Word(block, off + 1);
      if off + 3 + length > |block| {
        return Failed(Truncated, off);
      }
      if typ in seen {
        return Failed(Duplicate, off);
      }
      if IsReserved(typ) {
        return Failed(ReservedRange, off);
      }
      var value := block[off + 3..off + 3 + length];
      PrependMore(out, TLV(typ, value), DecodeFrom(block, off + 3 + length, seen + {typ}));
      seen := seen + {typ};
      out := out + [TLV(typ, value)];
      off := off + 3 + length;
    }
    if off != |block| {
      assert false; // TrailingGarbage
    }
    r := Records(out, off);
  }

  lemma PrependMore(ts: seq<TLV>, t: TLV, d: Decoded)
    ensures Prepend(ts + [t], d) == Prepend(ts, Prepend([t], d))
  {
    if d.Records? {
      assert (ts + [t]) + d.tlvs == ts + ([t] + d.tlvs);
    }
  }

  // The two are inverse

  /** Records a block may hold: no type twice, none reserved, none seen before. */
  predicate Admissible(ts: seq<TLV>, seen: set<byte>) {
    ts != [] ==>
      && |ts[0].value| <= 0xffff && ts[0].typ !in seen && !IsReserved(ts[0].typ)
      && Admissible(ts[1..], seen + {ts[0].typ})
  }

  /** The same, record by record. */
  lemma {:induction false} AdmissibleMeans(ts: seq<TLV>, seen: set<byte>)
    ensures Admissible(ts, seen) <==>
              && Encodable(ts)
              && (forall t :: t in ts ==> t.typ !in seen && !IsReserved(t.typ))
              && (forall i, j :: 0 <= i < j < |ts| ==> ts[i].typ != ts[j].typ)
  {
    if ts != [] {
      var rest, seen' := ts[1..], seen + {ts[0].typ};
      AdmissibleMeans(rest, seen');
      assert forall i :: 0 <= i < |rest| ==> rest[i] == ts[i + 1] && rest[i] in ts && rest[i] in rest;
      assert forall t :: t in ts <==> t == ts[0] || t in rest;
      if Admissible(rest, seen') {
        forall i, j | 0 <= i < j < |ts|
          ensures ts[i].typ != ts[j].typ
        {
          assert ts[j] == rest[j - 1];
          if i > 0 {
            assert ts[i] == rest[i - 1];
          }
        }
      }
    }
  }

  lemma {:induction false} AdmissibleEncodable(ts: seq<TLV>, seen: set<byte>)
    requires Admissible(ts, seen)
    ensures Encodable(ts)
  {
    AdmissibleMeans(ts, seen);
  }

  /** What is decoded is admissible, and encoding it gives the block back. */
  lemma {:induction false} DecodeEncode(block: seq<byte>, off: nat, seen: set<byte>)
    requires off <= |block| && DecodeFrom(block, off, seen).Records?
    ensures var d := DecodeFrom(block, off, seen);
            && Admissible(d.tlvs, seen) && Encodable(d.tlvs) && d.consumed == |block|
            && block[off..] == Encode(d.tlvs)
    decreases |block| - off
  {
    if off < |block| {
      var ts := DecodeFrom(block, off, seen).tlvs;
      var next := DecodedRecord(block, off, seen);
      hide Admissible, DecodeFrom, Record;
      DecodeEncode(block, next, seen + {ts[0].typ});
      AdmissibleMore(ts, seen);
      assert block[off..] == block[off..next] + block[next..];
    }
  }

  /** The first record of what is decoded. */
  lemma DecodedRecord(block: seq<byte>, off: nat, seen: set<byte>) returns (next: nat)
    requires off < |block| && DecodeFrom(block, off, seen).Records?
    ensures var d := DecodeFrom(block, off, seen);
            && off < next <= |block| && d.tlvs != [] && |d.tlvs[0].value| <= 0xffff
            && d.tlvs[0].typ !in seen && !IsReserved(d.tlvs[0].typ) && block[off..next] == Record(d.tlvs[0])
            && DecodeFrom(block, next, seen + {d.tlvs[0].typ}) == Records(d.tlvs[1..], d.consumed)
  {
    hide Be16;
    var length := Word(block, off + 1);
    next := off + 3 + length;
    WordBytes(block, off + 1, length);
    var rest := DecodeFrom(block, next, seen + {block[off]}).tlvs;
    var first := TLV(block[off], block[off + 3..next]);
    assert ([first] + rest)[1..] == rest;
    assert block[off..next] == Record(first);
  }

  lemma AdmissibleMore(ts: seq<TLV>, seen: set<byte>)
    requires ts != [] && |ts[0].value| <= 0xffff && ts[0].typ !in seen && !IsReserved(ts[0].typ)
    requires Admissible(ts[1..], seen + {ts[0].typ})
    ensures Admissible(ts, seen) && Encodable(ts)
  {
    AdmissibleEncodable(ts, seen);
  }

  /** What is admissible is decoded from its encoding. */
  lemma {:induction false} EncodeDecode(block: seq<byte>, off: nat, ts: seq<TLV>, seen: set<byte>)
    requires off <= |block| && Admissible(ts, seen) && Encodable(ts) && block[off..] == Encode(ts)
    ensures DecodeFrom(block, off, seen) == Records(ts, |block|)
    decreases |ts|
  {
    hide DecodeFrom, Record;
    if ts == [] {
      DecodeEnd(block, seen);
    } else {
      var t := ts[0];
      var next := off + 3 + |t.value|;
      RecordAt(block, off, t, Encode(ts[1..]));
      DecodeOne(block, off, seen, t);
      EncodeDecode(block, next, ts[1..], seen + {t.typ});
      assert [t] + ts[1..] == ts;
    }
  }

  lemma DecodeEnd(block: seq<byte>, seen: set<byte>)
    ensures DecodeFrom(block, |block|, seen) == Records([], |block|)
  {
  }

  /** Decoding starts with the record that stands there. */
  lemma DecodeOne(block: seq<byte>, off: nat, seen: set<byte>, t: TLV)
    requires off + 3 + |t.value| <= |block| && block[off] == t.typ && Word(block, off + 1) == |t.value|
    requires block[off + 3..off + 3 + |t.value|] == t.value && t.typ !in seen && !IsReserved(t.typ)
    ensures DecodeFrom(block, off, seen) == Prepend([t], DecodeFrom(block, off + 3 + |t.value|, seen + {t.typ}))
  {
  }

  lemma RecordAt(block: seq<byte>, off: nat, t: TLV, rest: seq<byte>)
    requires off <= |block| && |t.value| <= 0xffff && block[off..] == Record(t) + rest
    ensures off + 3 + |t.value| <= |block| && block[off] == t.typ && Word(block, off + 1) == |t.value|
    ensures block[off + 3..off + 3 + |t.value|] == t.value && block[off + 3 + |t.value|..] == rest
  {
    var s := block[off..];
    assert block[off] == s[0] && block[off + 1] == s[1] && block[off + 2] == s[2];
    assert s[1..3] == Be16(|t.value|);
    SliceOfSlice(block, off, 3, 3 + |t.value|);
    assert s[3 + |t.value|..] == rest;
  }

  /** A block is accepted with records ts exactly when it is the encoding of ts, no type occurs twice and none is
      reserved. */
  lemma DecodeExact(block: seq<byte>, ts: seq<TLV>)
    ensures DecodeFrom(block, 0, {}) == Records(ts, |block|) <==>
              && Encodable(ts) && block == Encode(ts)
              && (forall t :: t in ts ==> !IsReserved(t.typ))
              && (forall i, j :: 0 <= i < j < |ts| ==> ts[i].typ != ts[j].typ)
  {
    AdmissibleMeans(ts, {});
    assert block[0..] == block;
    if DecodeFrom(block, 0, {}) == Records(ts, |block|) {
      DecodeEncode(block, 0, {});
    } else if Admissible(ts, {}) && block == Encode(ts) {
      EncodeDecode(block, 0, ts, {});
    }
  }
}
