/** Bytes and words, and writing one run of bytes over another. */
module Bytes {

  type byte = x: nat | x < 0x100
  type word = x: nat | x < 0x1_0000_0000

  function Min(a: nat, b: nat): nat { if a < b then a else b }

  /** `s` with `piece` written over it at `p`. */
  function Splice(s: seq<byte>, p: nat, piece: seq<byte>): (r: seq<byte>)
    requires p + |piece| <= |s|
    ensures |r| == |s|
  {
    seq(|s|, i requires 0 <= i < |s| => if p <= i < p + |piece| then piece[i - p] else s[i])
  }

  lemma SpliceLaws(s: seq<byte>, p: nat, a: seq<byte>)
    requires p + |a| <= |s|
    ensures Splice(s, p, a)[p..p + |a|] == a
    ensures Splice(s, p, a)[..p + |a|] == s[..p] + a
    ensures Splice(s, p, a)[p + |a|..] == s[p + |a|..]
  {}

  lemma SpliceMore(s: seq<byte>, p: nat, a: seq<byte>, b: seq<byte>)
    requires p + |a| + |b| <= |s|
    ensures Splice(Splice(s, p, a), p + |a|, b) == Splice(s, p, a + b)
  {}

  lemma SpliceTwice(s: seq<byte>, p: nat, a: seq<byte>, b: seq<byte>)
    requires p + |a| <= |s| && |a| == |b|
    ensures Splice(Splice(s, p, a), p, b) == Splice(s, p, b)
  {}

  lemma SpliceAll(s: seq<byte>, a: seq<byte>, b: seq<byte>)
    requires |a| + |b| == |s|
    ensures Splice(Splice(s, 0, a), |a|, b) == a + b
    ensures Splice(s, |a|, b) == s[..|a|] + b
  {}

  lemma SliceOfSlice(r: seq<byte>, p: nat, n: nat, a: nat, b: nat)
    requires a <= b <= n && p + n <= |r|
    ensures r[p..p + n][a..b] == r[p + a..p + b]
  {
    var cut := r[p + a..p + b];
    assert forall i :: 0 <= i < b - a ==> cut[i] == r[p..p + n][a + i];
  }
}
