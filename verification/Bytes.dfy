/** Bytes, big-endian words and the in-place writes that every codec and translator is made of. */
module Bytes {
  type byte = x: int | 0 <= x < 0x100
  type u16 = x: int | 0 <= x < 0x1_0000
  type u32 = x: int | 0 <= x < 0x1_0000_0000

  /** The big-endian word at offset i. */
  function Word(s: seq<byte>, i: nat): (w: u16)
    requires i + 2 <= |s|
  {
    s[i] as int * 256 + s[i + 1]
  }

  function Be16(w: u16): (s: seq<byte>)
    ensures |s| == 2 && Word(s, 0) == w
  {
    [w / 256, w % 256]
  }

  function Be32(w: u32): (s: seq<byte>)
    ensures |s| == 4
    ensures Word(s, 0) * 0x1_0000 + Word(s, 2) == w
  {
    Be16(w / 0x1_0000) + Be16(w % 0x1_0000)
  }

  /** s with the bytes from offset off replaced by t. */
  function Splice(s: seq<byte>, off: nat, t: seq<byte>): (r: seq<byte>)
    requires off + |t| <= |s|
    ensures |r| == |s|
  {
    s[..off] + t + s[off + |t|..]
  }

  function SetWord(s: seq<byte>, i: nat, w: u16): (r: seq<byte>)
    requires i + 2 <= |s|
    ensures |r| == |s| && Word(r, i) == w
    ensures forall k :: 0 <= k < |s| && k != i && k != i + 1 ==> r[k] == s[k]
  {
    s[i := w / 256][i + 1 := w % 256]
  }

  function Zeros(n: nat): (s: seq<byte>)
    ensures |s| == n && forall i :: 0 <= i < n ==> s[i] == 0
  {
    seq(n, i => 0)
  }

  /** Two words have the same bytes exactly when they are equal. */
  lemma WordBytes(s: seq<byte>, i: nat, w: u16)
    requires i + 2 <= |s|
    ensures Word(s, i) == w <==> s[i..i + 2] == Be16(w)
  {
    assert Word(s, i) / 256 == s[i] && Word(s, i) % 256 == s[i + 1];
  }

  lemma SetWordIsSplice(s: seq<byte>, i: nat, w: u16)
    requires i + 2 <= |s|
    ensures SetWord(s, i, w) == Splice(s, i, Be16(w))
  {
  }

  // Windows: a slice of the buffer sees the writes that fall inside it, and only those

  lemma SetWordPrefix(s: seq<byte>, i: nat, w: u16, n: nat)
    requires i + 2 <= n <= |s|
    ensures SetWord(s, i, w)[..n] == SetWord(s[..n], i, w)
    ensures SetWord(s, i, w)[n..] == s[n..]
    ensures Word(s[..n], i) == Word(s, i)
  {
  }

  lemma SpliceWindow(s: seq<byte>, start: nat, off: nat, t: seq<byte>)
    requires start + off + |t| <= |s|
    ensures Splice(s, start + off, t)[start..] == Splice(s[start..], off, t)
    ensures Splice(s, start + off, t)[..start] == s[..start]
  {
  }

  lemma SetWordWindow(s: seq<byte>, start: nat, i: nat, w: u16)
    requires start + i + 2 <= |s|
    ensures SetWord(s, start + i, w)[start..] == SetWord(s[start..], i, w)
    ensures SetWord(s, start + i, w)[..start] == s[..start]
  {
  }

  lemma SpliceAdjacent(s: seq<byte>, off: nat, a: seq<byte>, b: seq<byte>)
    requires off + |a| + |b| <= |s|
    ensures Splice(Splice(s, off, a), off + |a|, b) == Splice(s, off, a + b)
  {
  }

  lemma SpliceWithin(s: seq<byte>, off: nat, a: seq<byte>, i: nat, t: seq<byte>)
    requires off + |a| <= |s| && i + |t| <= |a|
    ensures Splice(Splice(s, off, a), off + i, t) == Splice(s, off, Splice(a, i, t))
  {
  }

  /** The definition of Splice, for proofs that hide it. */
  lemma SpliceParts(s: seq<byte>, off: nat, t: seq<byte>)
    requires off + |t| <= |s|
    ensures Splice(s, off, t) == s[..off] + t + s[off + |t|..]
  {
  }

  /** Overwriting bytes with themselves. */
  lemma SpliceSame(s: seq<byte>, off: nat, k: nat)
    requires off + k <= |s|
    ensures Splice(s, off, s[off..][..k]) == s
  {
  }

  lemma SpliceTake(s: seq<byte>, off: nat, t: seq<byte>, k: nat)
    requires off + |t| <= |s| && k <= |t|
    ensures Splice(s, off, t)[..off + k] == s[..off] + t[..k]
  {
  }

  lemma SpliceTail(s: seq<byte>, off: nat, t: seq<byte>)
    requires off + |t| <= |s|
    ensures Splice(s, off, t)[..off] == s[..off]
    ensures Splice(s, off, t)[off..] == t + s[off + |t|..]
  {
  }

  lemma SpliceSees(s: seq<byte>, off: nat, t: seq<byte>)
    requires off + |t| <= |s|
    ensures Splice(s, off, t)[off..off + |t|] == t
  {
  }

  lemma SetWordTwice(s: seq<byte>, i: nat, v: u16, w: u16)
    requires i + 2 <= |s|
    ensures SetWord(SetWord(s, i, v), i, w) == SetWord(s, i, w)
  {
  }

  lemma SpliceOutside(s: seq<byte>, off: nat, t: seq<byte>, i: nat, j: nat)
    requires off + |t| <= |s| && i <= j <= |s|
    requires j <= off || off + |t| <= i
    ensures Splice(s, off, t)[i..j] == s[i..j]
  {
  }

  /** Changing a slice of s is changing s. */
  lemma SpliceSlice(s: seq<byte>, a: nat, b: nat, i: nat, t: seq<byte>)
    requires a <= b <= |s| && a + i + |t| <= b
    ensures Splice(s, a + i, t) == Splice(s, a, Splice(s[a..b], i, t))
  {
    SliceInside(s, a, b, 0, i);
    SliceInside(s, a, b, i + |t|, b - a);
    assert Splice(s[a..b], i, t) == s[a..a + i] + t + s[a + i + |t|..b];
  }

  lemma SliceInside(s: seq<byte>, a: nat, b: nat, i: nat, j: nat)
    requires i <= j && a + j <= b <= |s|
    ensures s[a..b][i..j] == s[a + i..a + j]
  {
    var l, r := s[a..b][i..j], s[a + i..a + j];
    assert forall k :: 0 <= k < |r| ==> l[k] == s[a..b][i + k] == r[k];
  }

  lemma SliceOfSlice(s: seq<byte>, start: nat, i: nat, j: nat)
    requires i <= j && start + j <= |s|
    ensures s[start..][i..j] == s[start + i..start + j]
  {
  }

  /** Go's copy into a slice of the buffer: the source bytes are read before any of them is overwritten. */
  method Write(buffer: array<byte>, off: nat, bytes: seq<byte>)
    requires off + |bytes| <= buffer.Length
    modifies buffer
    ensures buffer[..] == Splice(old(buffer[..]), off, bytes)
  {
    forall i | 0 <= i < |bytes| {
      buffer[off + i] := bytes[i];
    }
  }
}
