/** One's-complement sums: the checksum arithmetic of RFC 1071 and the update rule of section 3 of RFC 1624. */
module OnesComplement {
  import opened Bytes

  /** End-around-carry addition of two words. */
  function Combine(a: u16, b: u16): (r: u16)
  {
    if a + b > 0xffff then a + b - 0xffff else a + b
  }

  function Complement(a: u16): (r: u16)
  {
    0xffff - a
  }

  /** The plain integer sum of the big-endian words of s; an odd last byte is padded with a zero byte. */
  function WordSum(s: seq<byte>): nat
  {
    if |s| == 0 then 0
    else if |s| == 1 then s[0] as int * 256
    else Word(s, 0) + WordSum(s[2..])
  }

  /** The checksum of a byte string: its words combined one by one. */
  function Checksum(s: seq<byte>): u16
  {
    if |s| == 0 then 0
    else if |s| == 1 then s[0] as int * 256
    else Combine(Word(s, 0), Checksum(s[2..]))
  }

  /** The canonical word congruent to n modulo 0xffff: 0 stands only for the sum 0. */
  function Fold(n: nat): (r: u16)
  {
    if n <= 0xffff then n else Fold(n - 0xffff)
  }

  predicate Congruent(a: int, b: int) {
    (a - b) % 0xffff == 0
  }

  // Folding

  lemma {:induction false} FoldCongruent(n: nat)
    ensures Congruent(Fold(n), n)
    ensures Fold(n) == 0 <==> n == 0
    ensures Fold(n) == 0xffff <==> n != 0 && n % 0xffff == 0
  {
    if n > 0xffff {
      FoldCongruent(n - 0xffff);
    }
  }

  /** Canonicity: two non-zero sums fold to the same word exactly when they are congruent. */
  lemma {:induction false} FoldCanonical(m: nat, n: nat)
    requires m != 0 && n != 0
    ensures Fold(m) == Fold(n) <==> Congruent(m, n)
  {
    FoldCongruent(m);
    FoldCongruent(n);
  }

  lemma {:induction false} FoldAdd(m: nat, n: nat)
    ensures Combine(Fold(m), Fold(n)) == Fold(m + n)
  {
    if m > 0xffff {
      FoldAdd(m - 0xffff, n);
    } else if n > 0xffff {
      FoldAdd(m, n - 0xffff);
    }
  }

  lemma {:induction false} ChecksumIsFold(s: seq<byte>)
    ensures Checksum(s) == Fold(WordSum(s))
  {
    if |s| >= 2 {
      ChecksumIsFold(s[2..]);
      FoldAdd(Word(s, 0), WordSum(s[2..]));
    }
  }

  // Word sums

  lemma {:induction false} WordSumZero(s: seq<byte>)
    ensures WordSum(s) == 0 <==> forall i :: 0 <= i < |s| ==> s[i] == 0
  {
    if |s| >= 2 {
      WordSumZero(s[2..]);
      assert forall i :: 2 <= i < |s| ==> s[i] == s[2..][i - 2];
      assert forall i :: 0 <= i < |s| - 2 ==> s[2..][i] == s[i + 2];
    }
  }

  /** Folding loses nothing but multiples of 0xffff: a checksum is 0 only for all-zero bytes. */
  lemma ChecksumCanonical(s: seq<byte>)
    ensures Checksum(s) == 0 <==> forall i :: 0 <= i < |s| ==> s[i] == 0
    ensures Checksum(s) == 0xffff <==> WordSum(s) != 0 && WordSum(s) % 0xffff == 0
  {
    ChecksumIsFold(s);
    FoldCongruent(WordSum(s));
    WordSumZero(s);
  }

  lemma {:induction false} WordSumConcat(a: seq<byte>, b: seq<byte>)
    requires |a| % 2 == 0
    ensures WordSum(a + b) == WordSum(a) + WordSum(b)
  {
    if a == [] {
      assert a + b == b;
    } else {
      WordSumConcat(a[2..], b);
      assert (a + b)[2..] == a[2..] + b;
    }
  }

  lemma {:induction false} WordSumSet(s: seq<byte>, i: nat, w: u16)
    requires i % 2 == 0 && i + 2 <= |s|
    ensures WordSum(SetWord(s, i, w)) == WordSum(s) - Word(s, i) + w
  {
    if i == 0 {
      assert SetWord(s, 0, w)[2..] == s[2..];
    } else {
      WordSumSet(s[2..], i - 2, w);
      assert SetWord(s, i, w)[2..] == SetWord(s[2..], i - 2, w);
    }
  }

  lemma {:induction false} WordSumZeros(s: seq<byte>, n: nat)
    ensures WordSum(s + Zeros(n)) == WordSum(s)
  {
    if |s| == 0 {
      WordSumZero(Zeros(n));
      assert s + Zeros(n) == Zeros(n);
    } else if |s| == 1 {
      if n > 0 {
        assert (s + Zeros(n))[2..] == Zeros(n - 1);
        WordSumZero(Zeros(n - 1));
      } else {
        assert s + Zeros(n) == s;
      }
    } else {
      WordSumZeros(s[2..], n);
      assert (s + Zeros(n))[2..] == s[2..] + Zeros(n);
    }
  }

  /** The sum of an even split into two halves, in either order. */
  lemma WordSumSwap(a: seq<byte>, b: seq<byte>)
    requires |a| % 2 == 0 && |b| % 2 == 0
    ensures WordSum(a + b) == WordSum(b + a)
  {
    WordSumConcat(a, b);
    WordSumConcat(b, a);
  }

  // Transport checksums

  /** What a transport checksum covers: addresses, length and protocol (section 8.1 of RFC 8200
      for 16-byte addresses, RFC 793 for 4-byte ones) and the transport bytes. */
  function TransportSum(addrs: seq<byte>, proto: byte, t: seq<byte>): nat
  {
    WordSum(addrs) + |t| + proto + WordSum(t)
  }

  predicate TransportValid(addrs: seq<byte>, proto: byte, t: seq<byte>) {
    Fold(TransportSum(addrs, proto, t)) == 0xffff
  }

  lemma TransportValidIff(addrs: seq<byte>, proto: byte, t: seq<byte>)
    requires proto != 0
    ensures TransportValid(addrs, proto, t) <==> TransportSum(addrs, proto, t) % 0xffff == 0
  {
    FoldCongruent(TransportSum(addrs, proto, t));
  }

  /** The sum as the translators compute it: a checksum of the addresses, the length, the protocol, and a
      checksum of the transport bytes, combined. */
  lemma PseudoCombine(addrs: seq<byte>, proto: byte, t: seq<byte>)
    requires |t| < 0x1_0000
    ensures Combine(Combine(Combine(Checksum(addrs), |t|), proto), Checksum(t)) == Fold(TransportSum(addrs, proto, t))
  {
    hide Combine, Checksum, WordSum;
    ChecksumIsFold(addrs);
    ChecksumIsFold(t);
    FoldAdd(WordSum(addrs), |t|);
    FoldAdd(WordSum(addrs) + |t|, proto);
    FoldAdd(WordSum(addrs) + |t| + proto, WordSum(t));
  }

  /** Equation 3 of RFC 1624 for a change of old words to new ones, in one fold. */
  function Updated(field: u16, old_: seq<byte>, new_: seq<byte>): (r: u16)
    requires |old_| == |new_| && |old_| % 2 == 0
  {
    WordSumBound(old_);
    Complement(Fold(Complement(field) + WordSum(new_) + (0xffff * (|old_| / 2) - WordSum(old_))))
  }

  lemma {:induction false} WordSumBound(s: seq<byte>)
    requires |s| % 2 == 0
    ensures WordSum(s) <= 0xffff * (|s| / 2)
    ensures WordSum(s) == 0xffff * (|s| / 2) <==> forall i :: 0 <= i < |s| ==> s[i] == 0xff
  {
    if |s| >= 2 {
      WordSumBound(s[2..]);
      assert forall i :: 2 <= i < |s| ==> s[i] == s[2..][i - 2];
      assert forall i :: 0 <= i < |s| - 2 ==> s[2..][i] == s[i + 2];
    }
  }

  lemma MultipleOf(x: int, h: int)
    requires x % 0xffff == 0
    ensures (-x - 0xffff * h) % 0xffff == 0
  {
    var q := x / 0xffff;
    assert -x - 0xffff * h == 0xffff * (-q - h);
  }

  lemma UpdatedCongruent(field: u16, old_: seq<byte>, new_: seq<byte>)
    requires |old_| == |new_| && |old_| % 2 == 0
    ensures Congruent(Updated(field, old_, new_), field + WordSum(old_) - WordSum(new_))
  {
    WordSumBound(old_);
    var n := Complement(field) + WordSum(new_) + (0xffff * (|old_| / 2) - WordSum(old_));
    FoldCongruent(n);
    MultipleOf(Fold(n) - n, |old_| / 2);
  }

  lemma UpdatedSaturates(field: u16, old_: seq<byte>, new_: seq<byte>)
    requires |old_| == |new_| && |old_| % 2 == 0
    ensures Updated(field, old_, new_) == 0xffff <==>
              field == 0xffff && WordSum(new_) == 0 && WordSum(old_) == 0xffff * (|old_| / 2)
  {
    WordSumBound(old_);
    FoldCongruent(Complement(field) + WordSum(new_) + (0xffff * (|old_| / 2) - WordSum(old_)));
  }

  /** Congruent words are equal, up to the two representations 0x0000 and 0xffff of zero. */
  lemma CongruentWords(a: u16, b: u16)
    requires Congruent(a, b)
    ensures a == b || (a == 0 && b == 0xffff) || (a == 0xffff && b == 0)
  {
  }

  /** Undoing an update restores the field, except that a stored 0xffff comes back as 0x0000. */
  lemma UpdateRoundTrip(field: u16, a: seq<byte>, b: seq<byte>)
    requires |a| == |b| && |a| % 2 == 0 && a != []
    ensures Updated(Updated(field, a, b), b, a) == if field == 0xffff then 0 else field
  {
    hide Fold, WordSum;
    var there := Updated(field, a, b);
    var back := Updated(there, b, a);
    UpdatedCongruent(field, a, b);
    UpdatedCongruent(there, b, a);
    CongruentTrans(back, there + WordSum(b) - WordSum(a), field, WordSum(b) - WordSum(a));
    UpdatedSaturates(field, a, b);
    UpdatedSaturates(there, b, a);
    CongruentWords(back, field);
  }

  lemma CongruentTrans(x: int, y: int, z: int, d: int)
    requires Congruent(x, y)
    requires Congruent(y - d, z - d)
    ensures Congruent(x, z)
  {
    var q, r := (x - y) / 0xffff, (y - z) / 0xffff;
    assert x - z == 0xffff * (q + r);
  }

  /** The update rule gives what recomputing over the new words and the rest would give; the two differ
      only where every old word is 0xffff, every new one 0, and the field held 0xffff. */
  lemma UpdatedIsRecomputed(field: u16, old_: seq<byte>, new_: seq<byte>, rest: nat)
    requires |old_| == |new_| && |old_| % 2 == 0
    requires rest != 0 && (field + WordSum(old_) + rest) % 0xffff == 0
    ensures var recomputed := Complement(Fold(WordSum(new_) + rest));
            var saturates := field == 0xffff && WordSum(new_) == 0 && WordSum(old_) == 0xffff * (|old_| / 2);
            Updated(field, old_, new_) == if saturates then 0xffff else recomputed
  {
    var u := Updated(field, old_, new_);
    var recomputed := Complement(Fold(WordSum(new_) + rest));
    UpdatedCongruent(field, old_, new_);
    UpdatedSaturates(field, old_, new_);
    FoldCongruent(WordSum(new_) + rest);
    NegatedCongruent(u, recomputed, field + WordSum(old_), WordSum(new_), rest);
    CongruentWords(u, recomputed);
  }

  lemma NegatedCongruent(u: int, v: int, a: int, b: int, rest: int)
    requires Congruent(u, a - b) && (a + rest) % 0xffff == 0
    requires Congruent(0xffff - v, b + rest)
    ensures Congruent(u, v)
  {
    var q, r, t := (u - (a - b)) / 0xffff, (a + rest) / 0xffff, (0xffff - v - (b + rest)) / 0xffff;
    assert u - v == 0xffff * (q + r + t - 1);
  }
}
