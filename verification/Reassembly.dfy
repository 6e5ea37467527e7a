/** Fragments as pieces of a datagram, and what reassembling them gives. */
module Reassembly {
  import opened Bytes

  /** A fragment as reassembly sees it. */
  datatype Piece = Piece(offset: nat, more: bool, data: seq<byte>)

  /** The pieces, in whatever order and however they overlap, are those of t: each agrees with t where it lies, ends
      before the end of t exactly when more are to come, and together they cover t. */
  ghost predicate Reassembles(pieces: seq<Piece>, t: seq<byte>) {
    && (forall p :: p in pieces ==> Fits(p, t))
    && (forall k :: 0 <= k < |t| ==> Covered(pieces, k))
  }

  ghost predicate Covered(pieces: seq<Piece>, k: int) {
    exists p :: p in pieces && Covers(p, k)
  }

  predicate Covers(p: Piece, k: int) {
    p.offset <= k < p.offset + |p.data|
  }

  predicate Fits(p: Piece, t: seq<byte>) {
    && p.offset + |p.data| <= |t| && t[p.offset..p.offset + |p.data|] == p.data
    && (p.more <==> p.offset + |p.data| < |t|)
  }

  /** Pieces reassemble to at most one datagram. */
  lemma ReassemblyUnique(pieces: seq<Piece>, t: seq<byte>, u: seq<byte>)
    requires Reassembles(pieces, t) && Reassembles(pieces, u) && t != []
    ensures t == u
  {
    assert Covered(pieces, |t| - 1);
    var last :| last in pieces && Covers(last, |t| - 1);
    assert Fits(last, t) && Fits(last, u);
    forall k | 0 <= k < |t|
      ensures t[k] == u[k]
    {
      assert Covered(pieces, k);
      var p :| p in pieces && Covers(p, k);
      assert Fits(p, t) && Fits(p, u);
      assert t[k] == t[p.offset..p.offset + |p.data|][k - p.offset] == u[p.offset..p.offset + |p.data|][k - p.offset];
    }
  }

  /** A piece of the same place and size fits what has the same bytes there. */
  lemma PieceFits(p: Piece, t: seq<byte>, p': Piece, t': seq<byte>)
    requires Fits(p, t) && |t| == |t'| && p'.offset == p.offset && p'.more == p.more && |p'.data| == |p.data|
    requires t'[p.offset..p.offset + |p.data|] == p'.data
    ensures Fits(p', t')
  {
  }

  /** The checksum word at the front of t, replaced, in a piece of t. */
  lemma SetInPiece(t: seq<byte>, c: nat, w: u16, o: nat, n: nat, minimum: nat)
    requires c + 2 <= minimum <= |t| && o + n <= |t|
    ensures o == 0 && n >= minimum ==>
            SetWord(t, c, w)[o..o + n] == SetWord(t[o..o + n], c, w) && Word(t[o..o + n], c) == Word(t, c)
    ensures o >= minimum ==> SetWord(t, c, w)[o..o + n] == t[o..o + n]
  {
  }

  /** Pieces of the same places and sizes that fit another datagram of that length reassemble to it. */
  lemma SameCover(ps: seq<Piece>, t: seq<byte>, ps': seq<Piece>, t': seq<byte>)
    requires Reassembles(ps, t) && |ps'| == |ps| && |t'| == |t|
    requires forall i :: 0 <= i < |ps| ==>
               Fits(ps'[i], t') && ps'[i].offset == ps[i].offset && |ps'[i].data| == |ps[i].data|
    ensures Reassembles(ps', t')
  {
    hide Fits;
    forall k | 0 <= k < |t'|
      ensures Covered(ps', k)
    {
      assert Covered(ps, k);
      var p :| p in ps && Covers(p, k);
      var i :| 0 <= i < |ps| && ps[i] == p;
      assert ps'[i] in ps' && Covers(ps'[i], k);
    }
  }
}
