/** A concrete engine meeting the decoder contract for one flipped bit: the code word is the sum
    of the positions of the set bits, so a flip shows up as plus or minus its own position. */
module NandLocator {
  import opened Bytes
  import opened NandCodes
  import opened NandEngine

  const LIMIT: nat := 2048

  /** Sum of `w`, `w + 1`, ... over the set bits among the low `k` bits of `x`. */
  function BitWeight(x: nat, w: nat, k: nat): nat
    decreases k
  {
    if k == 0 then 0 else x % 2 * w + BitWeight(x / 2, w + 1, k - 1)
  }

  function Weight(d: seq<byte>): nat {
    if d == [] then 0
    else Weight(d[..|d| - 1]) + BitWeight(d[|d| - 1], 8 * |d| - 7, 8)
  }

  lemma {:induction false} BitWeightBound(x: nat, w: nat, k: nat)
    ensures BitWeight(x, w, k) <= k * (w + k)
    decreases k
  {
    if k > 0 {
      BitWeightBound(x / 2, w + 1, k - 1);
      assert (k - 1) * (w + 1 + (k - 1)) == k * (w + k) - (w + k);
      assert x % 2 * w <= w;
    }
  }

  lemma {:induction false} WeightBound(d: seq<byte>)
    requires |d| <= LIMIT
    ensures Weight(d) <= |d| * 0x2_0010
  {
    if d != [] {
      WeightBound(d[..|d| - 1]);
      BitWeightBound(d[|d| - 1], 8 * |d| - 7, 8);
    }
  }

  lemma XorZero(x: nat)
    ensures Xor(x, 0) == x
  {}

  lemma XorMask(x: nat, b: nat)
    requires b < 8
    ensures var y := Xor(x, BitMask(b));
      if b == 0 then y / 2 == x / 2 && y % 2 == 1 - x % 2
      else y / 2 == Xor(x / 2, BitMask(b - 1)) && y % 2 == x % 2
  {
    hide Xor;
    XorStep(x, BitMask(b));
    if b == 0 {
      XorZero(x / 2);
      assert BitMask(b) / 2 == 0;
    } else {
      assert BitMask(b) / 2 == BitMask(b - 1) && BitMask(b) % 2 == 0;
    }
  }

  /** Flipping bit `b` moves the weight by that bit's own weight. */
  lemma {:induction false} BitWeightFlip(x: nat, w: nat, k: nat, b: nat)
    requires b < k <= 8
    ensures var y := Xor(x, BitMask(b));
            BitWeight(y, w, k) == BitWeight(x, w, k) + w + b || BitWeight(x, w, k) == BitWeight(y, w, k) + w + b
    decreases k
  {
    hide Xor, BitMask;
    XorMask(x, b);
    var y := Xor(x, BitMask(b));
    if b > 0 {
      BitWeightFlip(x / 2, w + 1, k - 1, b - 1);
      assert y % 2 * w == x % 2 * w;
    }
  }

  lemma {:induction false} WeightFlip(d: seq<byte>, at: nat, b: nat)
    requires at < |d| && b < 8
    ensures var r := XorAt(d, Flip(at, BitMask(b)));
            Weight(r) == Weight(d) + 8 * at + b + 1 || Weight(d) == Weight(r) + 8 * at + b + 1
  {
    hide Xor, BitWeight, BitMask;
    var n := |d| - 1;
    var r := XorAt(d, Flip(at, BitMask(b)));
    if at == n {
      assert r[..n] == d[..n];
      BitWeightFlip(d[n], 8 * |d| - 7, 8, b);
    } else {
      assert r[..n] == XorAt(d[..n], Flip(at, BitMask(b)));
      WeightFlip(d[..n], at, b);
    }
  }

  /** The position, counted from 1, by which two weights differ. */
  function Gap(a: nat, b: nat): nat { if a < b then b - a else a - b }

  function LocatorParity(d: seq<byte>): (w: word) {
    if |d| <= LIMIT then WeightBound(d); Weight(d) else 0
  }

  function LocatorStatus1(d: seq<byte>, m0: word, m1: word): (st: word) {
    var gap := Gap(LocatorParity(d), Rejoin(m0, m1));
    if gap == 0 then 0
    else if gap <= 8 * |d| && |d| <= LIMIT then 1 + (gap - 1) % 8 * 16 + (gap - 1) / 8 * 128
    else 2
  }

  function StoredWord(code: seq<byte>): nat
    requires |code| >= 4
  {
    code[0] as nat + code[1] as nat * 0x100 + code[2] as nat * 0x1_0000 + code[3] as nat * 0x100_0000
  }

  function Report(n: nat, at: nat, b: nat): (fs: seq<Flip>)
    requires b < 8
    ensures |fs| == n
  {
    seq(n, i => if i == 0 then Flip(at, BitMask(b)) else Flip(0, 0))
  }

  /** In the MLC codes the weight is the third register of four and the second of two; the others hold 1, 2 and 3, and a
      stored code that says otherwise is beyond repair. */
  function Gap8(a: seq<byte>): nat
    requires |a| == 525
  {
    if a[512..520] == [1, 0, 0, 0, 2, 0, 0, 0] && a[524] == 3 then Gap(LocatorParity(a[..512]), StoredWord(a[520..]))
    else 8 * CHUNK + 1
  }

  function Gap4(a: seq<byte>): nat
    requires |a| == 520
  {
    if a[512..516] == [1, 0, 0, 0] then Gap(LocatorParity(a[..512]), StoredWord(a[516..])) else 8 * CHUNK + 1
  }

  function LocatorStatus8(a: seq<byte>): Regs8 {
    if |a| != 525 || Gap8(a) == 0 then Pack8(Report(8, 0, 0), 0, false)
    else if Gap8(a) <= 8 * CHUNK then Pack8(Report(8, (Gap8(a) - 1) / 8, (Gap8(a) - 1) % 8), 1, false)
    else Pack8(Report(8, 0, 0), 9, false)
  }

  function LocatorStatus4(a: seq<byte>): Regs4 {
    if |a| != 520 || Gap4(a) == 0 then Pack4(Report(4, 0, 0), 0, false)
    else if Gap4(a) <= 8 * CHUNK then Pack4(Report(4, (Gap4(a) - 1) / 8, (Gap4(a) - 1) % 8), 1, false)
    else Pack4(Report(4, 0, 0), 5, false)
  }

  function Locator(): Engine {
    Engine(LocatorParity, LocatorStatus1,
           (d: seq<byte>) => (1, LocatorParity(d)), LocatorStatus4,
           (d: seq<byte>) => (1, 2, LocatorParity(d), 3), LocatorStatus8)
  }

  /* ---------- it meets the contract ---------- */

  /** A flip list of at most one single-bit error, as a position. */
  lemma OneFlip(d: seq<byte>, fs: seq<Flip>) returns (at: nat, b: nat)
    requires |fs| == 1 && BitFlips(fs, |d|)
    ensures at < |d| && b < 8 && fs == [Flip(at, BitMask(b))] && Patch(d, fs) == XorAt(d, Flip(at, BitMask(b)))
    ensures Gap(Weight(Patch(d, fs)), Weight(d)) == 8 * at + b + 1
  {
    at := fs[0].at;
    b :| b < 8 && fs[0].mask == BitMask(b);
    assert fs == [fs[0]] + [];
    PatchStep(d, fs[0], []);
    PatchNone(d);
    WeightFlip(d, at, b);
  }

  lemma GapPosition(gap: nat, at: nat, b: nat)
    requires b < 8 && gap == 8 * at + b + 1
    ensures (gap - 1) % 8 == b && (gap - 1) / 8 == at
  {}

  lemma StatusOf(d: seq<byte>, m0: word, m1: word, at: nat, b: nat)
    requires at < |d| < LIMIT && b < 8 && Gap(LocatorParity(d), Rejoin(m0, m1)) == 8 * at + b + 1
    ensures var st := LocatorStatus1(d, m0, m1); Kind1(st) == 1 && Byte1(st) == at && Bit1(st) == b
  {
    GapPosition(Gap(LocatorParity(d), Rejoin(m0, m1)), at, b);
    StatusFields(1, b, at, 1 + b * 16 + at * 128);
  }

  lemma StatusClean(d: seq<byte>, m0: word, m1: word)
    requires LocatorParity(d) == Rejoin(m0, m1)
    ensures Kind1(LocatorStatus1(d, m0, m1)) == 0
  {}

  lemma HalvesOf(w: word)
    ensures Rejoin(w % 0x100 + w / 0x100 % 0x100 * 0x1_0000,
                   w / 0x1_0000 % 0x100 + w / 0x100_0000 % 0x100 * 0x1_0000) == w
  {
    hide Rejoin;
    HalvesRejoin(w);
  }

  lemma LocatorNames1(d: seq<byte>, fs: seq<Flip>)
    requires |d| < LIMIT && |fs| <= 1 && BitFlips(fs, |d|)
    ensures Names1(Locator(), d, fs)
  {
    hide Weight, Patch, LocatorStatus1, LocatorParity, Rejoin, Mask, BitMask, Gap;
    var w := LocatorParity(d);
    var m0: word := w % 0x100 + w / 0x100 % 0x100 * 0x1_0000;
    var m1: word := w / 0x1_0000 % 0x100 + w / 0x100_0000 % 0x100 * 0x1_0000;
    HalvesOf(w);
    if fs == [] {
      PatchNone(d);
      StatusClean(d, m0, m1);
    } else {
      var at, b := OneFlip(d, fs);
      WeightIsParity(d);
      WeightIsParity(Patch(d, fs));
      StatusOf(Patch(d, fs), m0, m1, at, b);
    }
  }

  lemma WeightIsParity(d: seq<byte>)
    requires |d| <= LIMIT
    ensures LocatorParity(d) == Weight(d)
  {
  }

  /** What the engine splits an absorbed chunk and its fed code into. */
  lemma CodeHolds(d: seq<byte>, p: seq<byte>)
    requires |d| == |p| == CHUNK
    ensures Gap8(p + CodeOf(Locator(), Mlc8, d)) == Gap(LocatorParity(p), LocatorParity(d))
    ensures Gap4(p + CodeOf(Locator(), Mlc4, d)) == Gap(LocatorParity(p), LocatorParity(d))
  {
    hide LocatorParity, Gap, CodeOf;
    var w := LocatorParity(d);
    var code8, code4 := CodeOf(Locator(), Mlc8, d), CodeOf(Locator(), Mlc4, d);
    CodeBytes(Locator(), d);
    WordSplit(w);
    assert (p + code8)[..512] == p && (p + code4)[..512] == p;
    assert (p + code8)[520..] == code8[8..] && (p + code4)[516..] == code4[4..];
    assert (p + code8)[512..520] == code8[..8] == [1, 0, 0, 0, 2, 0, 0, 0];
    assert (p + code4)[512..516] == code4[..4] == [1, 0, 0, 0];
  }

  /** The gap the engine sees, and the report that goes with it. */
  lemma GapOf(d: seq<byte>, fs: seq<Flip>) returns (gap: nat)
    requires |d| <= LIMIT && |fs| <= 1 && BitFlips(fs, |d|)
    ensures gap == Gap(LocatorParity(Patch(d, fs)), LocatorParity(d)) <= 8 * |d|
    ensures fs == [] <==> gap == 0
    ensures fs != [] ==> (gap - 1) / 8 < |d| && fs == [Flip((gap - 1) / 8, BitMask((gap - 1) % 8))]
  {
    gap := Gap(LocatorParity(Patch(d, fs)), LocatorParity(d));
    if fs == [] {
      PatchNone(d);
    } else {
      var at, b := OneFlip(d, fs);
      GapPosition(gap, at, b);
    }
  }

  lemma Describe8(a: seq<byte>, gap: nat)
    requires |a| == 525 && gap == Gap8(a)
    ensures var r := LocatorStatus8(a);
      && Pairs8(r) == (if 0 < gap <= 8 * CHUNK then Report(8, (gap - 1) / 8, (gap - 1) % 8) else Report(8, 0, 0))
      && Type8(r) == (if gap == 0 then 0 else if gap <= 8 * CHUNK then 1 else 9)
  {
    hide Gap8, Pack8, Pairs8, Type8;
    if 0 < gap <= 8 * CHUNK {
      Unpack8(Report(8, (gap - 1) / 8, (gap - 1) % 8), 1, false);
    } else {
      Unpack8(Report(8, 0, 0), if gap == 0 then 0 else 9, false);
    }
  }

  lemma Describe4(a: seq<byte>, gap: nat)
    requires |a| == 520 && gap == Gap4(a)
    ensures var r := LocatorStatus4(a);
      && Pairs4(r) == (if 0 < gap <= 8 * CHUNK then Report(4, (gap - 1) / 8, (gap - 1) % 8) else Report(4, 0, 0))
      && r.estat0 / 0x2000_0000 % 2 == 0
      && r.estat0 / 0x400_0000 % 8 == (if gap == 0 then 0 else if gap <= 8 * CHUNK then 1 else 5)
  {
    hide Gap4, Pack4, Pairs4;
    if 0 < gap <= 8 * CHUNK {
      Kind4(Report(4, (gap - 1) / 8, (gap - 1) % 8), 1);
    } else {
      Kind4(Report(4, 0, 0), if gap == 0 then 0 else 5);
    }
  }

  /** A report of no error or of one flip says what happened, whatever register word carries it. */
  lemma ReportDescribes(d: seq<byte>, fs: seq<Flip>, pairs: seq<Flip>)
    requires |d| == CHUNK && |fs| <= 1 && BitFlips(fs, |d|) && |fs| <= |pairs| && pairs[..|fs|] == fs
    ensures Describes(pairs, |fs|, fs)
  {
  }

  lemma LocatorNames8(d: seq<byte>, fs: seq<Flip>)
    requires |d| == CHUNK && |fs| <= 1 && BitFlips(fs, |d|)
    ensures Names8(Locator(), d, fs)
  {
    CodeHolds(d, Patch(d, fs));
    CodeBytes(Locator(), d);
    var gap := GapOf(d, fs);
    var a := Patch(d, fs) + CodeOf(Locator(), Mlc8, d);
    Describe8(a, gap);
    ReportDescribes(d, fs, Pairs8(LocatorStatus8(a)));
  }

  lemma LocatorNames4(d: seq<byte>, fs: seq<Flip>)
    requires |d| == CHUNK && |fs| <= 1 && BitFlips(fs, |d|)
    ensures Names4(Locator(), d, fs)
  {
    CodeHolds(d, Patch(d, fs));
    CodeBytes(Locator(), d);
    var gap := GapOf(d, fs);
    var a := Patch(d, fs) + CodeOf(Locator(), Mlc4, d);
    Describe4(a, gap);
    ReportDescribes(d, fs, Pairs4(LocatorStatus4(a)));
  }

  lemma Kind4(fs: seq<Flip>, kind: nat)
    requires |fs| == 4 && Inside(fs, 1024) && kind < 8
    ensures var r := Pack4(fs, kind, false);
            Pairs4(r) == fs && r.estat0 / 0x2000_0000 % 2 == 0 && r.estat0 / 0x400_0000 % 8 == kind
  {
    Unpack4(fs, kind, false, []);
    Fields4(Pack4(fs, kind, false).estat0, fs[0].at, fs[1].at, kind, 0);
  }

  lemma LocatorCorrects(t: NandType, n: nat)
    requires n < LIMIT && (t != Slc ==> n == CHUNK)
    ensures Corrects(Locator(), t, n, 1)
  {
    forall d: seq<byte>, fs: seq<Flip> | |d| == n && |fs| <= 1 && BitFlips(fs, n)
      ensures match t
              case Slc => Names1(Locator(), d, fs)
              case Mlc4 => Names4(Locator(), d, fs)
              case Mlc8 => Names8(Locator(), d, fs)
    {
      match t
      case Slc => LocatorNames1(d, fs);
      case Mlc4 => LocatorNames4(d, fs);
      case Mlc8 => LocatorNames8(d, fs);
    }
  }

  lemma LocatorInRange1(n: nat)
    requires n < LIMIT
    ensures InRange1(Locator(), n)
  {
    forall d: seq<byte>, m0: word, m1: word | |d| == n && Kind1(LocatorStatus1(d, m0, m1)) == 1
      ensures Byte1(LocatorStatus1(d, m0, m1)) < n
    {
      var gap := Gap(LocatorParity(d), Rejoin(m0, m1));
      if 1 <= gap <= 8 * n {
        StatusFields(1, (gap - 1) % 8, (gap - 1) / 8, LocatorStatus1(d, m0, m1));
      }
    }
  }

  lemma LocatorInRange(t: NandType)
    ensures InRange(Locator(), t)
  {
    match t
    case Slc => LocatorInRange1(CHUNK);
    case Mlc4 =>
      forall a: seq<byte>, i: nat | |a| == 520 && i < 4 && i < LocatorStatus4(a).estat0 / 0x400_0000 % 8 <= 4
        ensures Pairs4(LocatorStatus4(a))[i].at < CHUNK
      {
        Describe4(a, Gap4(a));
      }
    case Mlc8 =>
      forall a: seq<byte>, i: nat | |a| == 525 && i < 8 && i < LocatorStatus8(a).err0 / 0x200_0000 % 16 <= 8
        ensures Pairs8(LocatorStatus8(a))[i].at < CHUNK
      {
        Describe8(a, Gap8(a));
      }
  }

  /** The erased-page guess does lose data, and silently: an all-ones chunk with one bit read wrong is left wrong
      and not reported. */
  lemma ErasedGuessLosesData() returns (d: seq<byte>, r: seq<byte>)
    ensures |d| == CHUNK && Corrects(Locator(), Mlc4, CHUNK, 1) && Disturbed(d, r, 1)
    ensures DecodeChunk(Locator(), Mlc4, r, CodeOf(Locator(), Mlc4, d)).0 != d
    ensures DecodeChunk(Locator(), Mlc4, r, CodeOf(Locator(), Mlc4, d)).1 != -1
  {
    d := seq(CHUNK, _ => 0xff);
    var fs := [Flip(0, BitMask(0))];
    r := Patch(d, fs);
    var at, b := OneFlip(d, fs);
    LocatorCorrects(Mlc4, CHUNK);
    assert r[0] == 0xfe by {
      XorStep(0xff, 1);
      XorComm(0x7f, 0);
    }
    Restore4(Locator(), d, r, 1);
  }
}
