/** What the walk over extension headers accepts: exactly the chains of well-formed headers. */
module WalkTheorems {
  import opened Wrappers
  import opened Bytes
  import opened Wire
  import opened Siit64Spec

  /** An extension header (hop-by-hop options, routing, fragment, destination options) without its first two bytes
      (the next header and the length in 8-byte units beyond the first). */
  datatype Extension = Extension(kind: byte, body: seq<byte>) {
    predicate WellFormed() {
      && |body| >= 6 && (|body| - 6) % 8 == 0 && (|body| - 6) / 8 < 0x100
      && kind in {0, 43, 44, 60}
      && (kind == 43 ==> body[1] == 0)
      && (kind == 44 ==> |body| == 6 && body[1] / 2 % 4 == 0)
    }

    function Bytes(next: byte): (s: seq<byte>)
      requires WellFormed()
      ensures |s| == 2 + |body| && |s| % 8 == 0
    {
      [next, (|body| - 6) / 8] + body
    }
  }

  /** What the headers may not lead to. */
  predicate Refused(next: byte) {
    next in {0, 1, 2, 43, 44, 51, 60, 135, 139, 140}
  }

  /** Well-formed headers, none of which follows a fragment header. */
  predicate Chain(hs: seq<Extension>) {
    hs != [] ==> hs[0].WellFormed() && (hs[0].kind == 44 ==> |hs| == 1) && Chain(hs[1..])
  }

  function First(hs: seq<Extension>, next: byte): byte
  {
    if hs == [] then next else hs[0].kind
  }

  function ChainBytes(hs: seq<Extension>, next: byte): (s: seq<byte>)
    requires Chain(hs)
    ensures |s| % 8 == 0
  {
    if hs == [] then [] else hs[0].Bytes(First(hs[1..], next)) + ChainBytes(hs[1..], next)
  }

  /** Where in the chain its fragment header stands, counting from off. */
  function FragmentAt(hs: seq<Extension>, off: nat): Option<nat>
    requires Chain(hs)
  {
    if hs == [] then None
    else if hs[0].kind == 44 then Some(off)
    else FragmentAt(hs[1..], off + 2 + |hs[0].body|)
  }

  /** Soundness of the layout: what one header's bytes say. */
  lemma HeaderAt(p: seq<byte>, off: nat, h: Extension, next: byte)
    requires h.WellFormed() && off + 2 + |h.body| <= |p| && p[off..off + 2 + |h.body|] == h.Bytes(next)
    ensures p[off] == next && 8 + p[off + 1] as int * 8 == 2 + |h.body|
    ensures p[off + 2] == h.body[0] && p[off + 3] == h.body[1]
    ensures h.kind == FRAGMENT ==> FragmentTranslatable(p, off)
  {
    var s := p[off..off + 2 + |h.body|];
    assert s[0] == p[off] && s[1] == p[off + 1] && s[2] == p[off + 2] && s[3] == p[off + 3];
    assert h.body[0] == h.Bytes(next)[2] && h.body[1] == h.Bytes(next)[3];
  }

  lemma StepOver(p: seq<byte>, off: nat, h: Extension, next: byte)
    requires h.WellFormed() && off + 2 + |h.body| <= |p| && p[off..off + 2 + |h.body|] == h.Bytes(next)
    ensures Walk(p, h.kind, off, None) ==
            Walk(p, next, off + 2 + |h.body|, if h.kind == FRAGMENT then Some(off) else None)
  {
    HeaderAt(p, off, h, next);
    hide FragmentTranslatable;
  }

  lemma WalkEnds(p: seq<byte>, off: nat, fragment: Option<nat>, next: byte)
    requires off <= |p| && !Refused(next)
    ensures Walk(p, next, off, fragment) == Some(Walked(fragment, next, off))
  {
  }

  /** The first header of a chain, and the chain behind it. */
  lemma ChainSplit(p: seq<byte>, off: nat, hs: seq<Extension>, next: byte)
    requires Chain(hs) && hs != []
    requires off + |ChainBytes(hs, next)| <= |p| && p[off..off + |ChainBytes(hs, next)|] == ChainBytes(hs, next)
    ensures var h, tail, n := hs[0], hs[1..], 2 + |hs[0].body|;
            && h.WellFormed() && Chain(tail) && First(hs, next) == h.kind && (h.kind == FRAGMENT ==> tail == [])
            && |ChainBytes(hs, next)| == n + |ChainBytes(tail, next)| && p[off..off + n] == h.Bytes(First(tail, next))
            && p[off + n..off + n + |ChainBytes(tail, next)|] == ChainBytes(tail, next)
            && FragmentAt(hs, off) == if h.kind == FRAGMENT then Some(off) else FragmentAt(tail, off + n)
  {
    hide Extension.Bytes;
    var n, rest := 2 + |hs[0].body|, ChainBytes(hs[1..], next);
    SliceInside(p, off, off + n + |rest|, 0, n);
    SliceInside(p, off, off + n + |rest|, n, n + |rest|);
  }

  lemma NoChain(next: byte, off: nat)
    ensures Chain([]) && ChainBytes([], next) == [] && First([], next) == next && FragmentAt([], off) == None
  {
  }

  /** Every chain is walked to its end. */
  lemma {:induction false} WalkComplete(p: seq<byte>, off: nat, hs: seq<Extension>, next: byte)
    requires Chain(hs) && !Refused(next)
    requires off + |ChainBytes(hs, next)| <= |p| && p[off..off + |ChainBytes(hs, next)|] == ChainBytes(hs, next)
    ensures Walk(p, First(hs, next), off, None) ==
            Some(Walked(FragmentAt(hs, off), next, off + |ChainBytes(hs, next)|))
    decreases |hs|
  {
    hide Walk, Chain, ChainBytes, FragmentAt, First, Extension.WellFormed, Extension.Bytes, Refused;
    NoChain(next, off);
    if hs == [] {
      WalkEnds(p, off, None, next);
    } else {
      ChainSplit(p, off, hs, next);
      var h, tail, n := hs[0], hs[1..], 2 + |hs[0].body|;
      StepOver(p, off, h, First(tail, next));
      if h.kind == FRAGMENT {
        WalkEnds(p, off + n, Some(off), next);
      } else {
        WalkComplete(p, off + n, tail, next);
      }
    }
  }

  /** The bytes from off on are those of the headers hs, and w is where they lead. */
  predicate Spells(p: seq<byte>, kind: byte, off: nat, hs: seq<Extension>, w: Walked) {
    && Chain(hs) && !Refused(w.next) && First(hs, w.next) == kind
    && w.offset == off + |ChainBytes(hs, w.next)| <= |p| && p[off..w.offset] == ChainBytes(hs, w.next)
    && w.fragment == FragmentAt(hs, off)
  }

  /** Whatever is walked is a chain: the headers it consists of. */
  lemma {:induction false} WalkSound(p: seq<byte>, kind: byte, off: nat) returns (hs: seq<Extension>)
    requires off <= |p| && Walk(p, kind, off, None).Some?
    ensures Spells(p, kind, off, hs, Walk(p, kind, off, None).value)
    decreases |p| - off
  {
    hide Walk, Spells, Extension.Bytes;
    if !IsExtensionHeader(kind) {
      hs := [];
      SpellsNothing(p, kind, off);
    } else {
      var h := HeaderFrom(p, kind, off);
      if kind == FRAGMENT {
        hs := [h];
        SpellsFragment(p, off, h, Walk(p, kind, off, None).value);
      } else {
        var tail := WalkSound(p, p[off], off + 2 + |h.body|);
        hs := [h] + tail;
        SpellsMore(p, off, h, tail, Walk(p, kind, off, None).value);
      }
    }
  }

  lemma SpellsNothing(p: seq<byte>, kind: byte, off: nat)
    requires off <= |p| && Walk(p, kind, off, None).Some? && !IsExtensionHeader(kind)
    ensures Spells(p, kind, off, [], Walk(p, kind, off, None).value)
  {
  }

  lemma SpellsFragment(p: seq<byte>, off: nat, h: Extension, w: Walked)
    requires h.WellFormed() && h.kind == FRAGMENT && off + 2 + |h.body| <= |p|
    requires h.Bytes(p[off]) == p[off..off + 2 + |h.body|]
    requires w == Walked(Some(off), p[off], off + 2 + |h.body|) && !Refused(p[off])
    ensures Spells(p, FRAGMENT, off, [h], w)
  {
    assert [h][1..] == [];
    assert ChainBytes([h], w.next) == h.Bytes(w.next);
  }

  /** What the walk asks of an extension header before it goes on behind it. */
  lemma WalkOver(p: seq<byte>, kind: byte, off: nat)
    requires off <= |p| && Walk(p, kind, off, None).Some? && IsExtensionHeader(kind)
    ensures off + 8 <= |p|
    ensures var n := 8 + p[off + 1] as int * 8;
            && off + n <= |p| && (kind == ROUTING ==> p[off + 3] == 0)
            && (kind == FRAGMENT ==> p[off + 1] == 0 && p[off + 3] / 2 % 4 == 0)
            && Walk(p, kind, off, None) == Walk(p, p[off], off + n, if kind == FRAGMENT then Some(off) else None)
  {
  }

  /** The header the walk found at off. */
  lemma HeaderFrom(p: seq<byte>, kind: byte, off: nat) returns (h: Extension)
    requires off <= |p| && Walk(p, kind, off, None).Some? && IsExtensionHeader(kind)
    ensures h.WellFormed() && h.kind == kind && off + 2 + |h.body| <= |p|
    ensures h.Bytes(p[off]) == p[off..off + 2 + |h.body|]
    ensures Walk(p, kind, off, None) ==
            Walk(p, p[off], off + 2 + |h.body|, if kind == FRAGMENT then Some(off) else None)
  {
    WalkOver(p, kind, off);
    hide Walk;
    var n := 8 + p[off + 1] as int * 8;
    var body := p[off + 2..off + n];
    h := Extension(kind, body);
    assert body[1] == p[off + 2 + 1];
    assert [p[off], p[off + 1]] + body == p[off..off + n];
  }

  /** One more header in front of a chain. */
  lemma SpellsMore(p: seq<byte>, off: nat, h: Extension, tail: seq<Extension>, w: Walked)
    requires h.WellFormed() && h.kind != FRAGMENT && off + 2 + |h.body| <= |p|
    requires h.Bytes(p[off]) == p[off..off + 2 + |h.body|] && Spells(p, p[off], off + 2 + |h.body|, tail, w)
    ensures Spells(p, h.kind, off, [h] + tail, w)
  {
    hide Extension.Bytes;
    var hs := [h] + tail;
    assert hs[1..] == tail;
    assert ChainBytes(hs, w.next) == h.Bytes(p[off]) + ChainBytes(tail, w.next);
    assert p[off..w.offset] == p[off..off + 2 + |h.body|] + p[off + 2 + |h.body|..w.offset];
  }

  /** A packet whose headers parse is cut exactly: the payload begins on an 8-byte boundary inside the packet, and
      what the headers and the payload take adds up to the declared length. */
  lemma ParsedLengths(pkt: seq<byte>) returns (hs: seq<Extension>)
    requires Parse64(pkt).Some?
    ensures var m := Parse64(pkt).value;
            && Chain(hs) && !Refused(m.walked.next) && First(hs, m.walked.next) == pkt[6]
            && m.walked.offset == 40 + |ChainBytes(hs, m.walked.next)| && m.walked.offset % 8 == 0
            && pkt[40..m.walked.offset] == ChainBytes(hs, m.walked.next)
            && m.walked.fragment == FragmentAt(hs, 40)
            && m.walked.offset + m.payloadLength == 40 + Word(pkt, 4) <= |pkt|
  {
    hide IcmpTranslatable64;
    var p := pkt[..40 + Word(pkt, 4)];
    hs := WalkSound(p, pkt[6], 40);
    SliceInside(pkt, 0, |p|, 40, Parse64(pkt).value.walked.offset);
  }
}
