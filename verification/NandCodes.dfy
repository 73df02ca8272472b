/** What the S3C NAND driver corrects with: bit flips, the packed error registers of the
    ECC engine, and what the driver relies on the engine for. */
module NandCodes {
  import opened Bytes

  const CHUNK: nat := 512

  /* ---------- exclusive or ---------- */

  /** a ^ b, bit by bit. */
  function Xor(a: nat, b: nat): nat {
    if a == 0 then b else if b == 0 then a
    else 2 * Xor(a / 2, b / 2) + (a + b) % 2
  }

  lemma XorStep(a: nat, b: nat)
    ensures Xor(a, b) == 2 * Xor(a / 2, b / 2) + (a + b) % 2
    ensures Xor(a, b) / 2 == Xor(a / 2, b / 2) && Xor(a, b) % 2 == (a + b) % 2
  {
    var h, bit := Xor(a / 2, b / 2), (a + b) % 2;
    assert (2 * h + bit) / 2 == h;
  }

  lemma LastBits(a: nat, b: nat, c: nat)
    ensures forall x: nat, y: nat :: x % 2 == (a + b) % 2 && y % 2 == (b + c) % 2 ==> (x + c) % 2 == (a + y) % 2
  {}

  lemma {:induction false} XorByte(a: byte, b: byte)
    ensures Xor(a, b) < 0x100
  {
    XorBound(a, b, 0x80);
  }

  /** Neither operand reaching `2 * half`, a power of two, the result does not either. */
  lemma {:induction false} XorBound(a: nat, b: nat, half: nat)
    requires a < 2 * half && b < 2 * half && half in {1, 2, 4, 8, 16, 32, 64, 128}
    ensures Xor(a, b) < 2 * half
  {
    if half > 1 {
      XorStep(a, b);
      XorBound(a / 2, b / 2, half / 2);
    }
  }

  lemma {:induction false} XorSelf(a: nat)
    ensures Xor(a, a) == 0
  {
    if a > 0 { XorSelf(a / 2); }
  }

  lemma {:induction false} XorComm(a: nat, b: nat)
    ensures Xor(a, b) == Xor(b, a)
  {
    if a > 0 && b > 0 { XorComm(a / 2, b / 2); }
  }

  lemma {:induction false} XorAssoc(a: nat, b: nat, c: nat)
    ensures Xor(Xor(a, b), c) == Xor(a, Xor(b, c))
    decreases a + b + c
  {
    if a > 0 && b > 0 && c > 0 {
      XorAssoc(a / 2, b / 2, c / 2);
      var left, right := Xor(a, b), Xor(b, c);
      XorStep(a, b);
      XorStep(b, c);
      LastBits(a, b, c);
      HalvesAgree(left, c, a, right);
    }
  }

  lemma HalvesAgree(x: nat, y: nat, u: nat, v: nat)
    requires Xor(x / 2, y / 2) == Xor(u / 2, v / 2) && (x + y) % 2 == (u + v) % 2
    ensures Xor(x, y) == Xor(u, v)
  {
    XorStep(x, y);
    XorStep(u, v);
  }

  /** The byte-sized operation the driver performs. */
  function Flipped(a: byte, b: byte): byte {
    XorByte(a, b);
    Xor(a, b)
  }

  lemma FlippedTwice(a: byte, b: byte)
    ensures Flipped(Flipped(a, b), b) == a
  {
    XorAssoc(a, b, b);
    XorSelf(b);
  }

  /* ---------- flips ---------- */

  /** One (location, pattern) pair: the byte at `at` is XORed with `mask`. */
  datatype Flip = Flip(at: nat, mask: byte)

  ghost predicate Inside(fs: seq<Flip>, n: nat) {
    forall i :: 0 <= i < |fs| ==> fs[i].at < n
  }

  /** What a list of pairs does to the byte at index `i`, repeated locations included. */
  function Mask(fs: seq<Flip>, i: nat): byte {
    if fs == [] then 0
    else Flipped(if fs[0].at == i then fs[0].mask else 0, Mask(fs[1..], i))
  }

  function Patch(d: seq<byte>, fs: seq<Flip>): (r: seq<byte>)
    ensures |r| == |d|
  {
    seq(|d|, i requires 0 <= i < |d| => Flipped(d[i], Mask(fs, i)))
  }

  function XorAt(d: seq<byte>, f: Flip): seq<byte>
    requires f.at < |d|
  {
    d[f.at := Flipped(d[f.at], f.mask)]
  }

  lemma {:induction false} MaskConcat(fs: seq<Flip>, gs: seq<Flip>, i: nat)
    ensures Mask(fs + gs, i) == Flipped(Mask(fs, i), Mask(gs, i))
  {
    if fs == [] {
      assert fs + gs == gs;
    } else {
      MaskConcat(fs[1..], gs, i);
      assert (fs + gs)[1..] == fs[1..] + gs;
      XorAssoc(if fs[0].at == i then fs[0].mask else 0, Mask(fs[1..], i), Mask(gs, i));
    }
  }

  lemma PatchNone(d: seq<byte>)
    ensures Patch(d, []) == d
  {}

  /** Adding one pair in front changes exactly the byte it names, whatever came before it. */
  lemma PatchStep(d: seq<byte>, f: Flip, fs: seq<Flip>)
    requires f.at < |d|
    ensures Patch(d, [f] + fs) == XorAt(Patch(d, fs), f)
  {
    assert ([f] + fs)[1..] == fs;
    forall i | 0 <= i < |d| ensures Patch(d, [f] + fs)[i] == XorAt(Patch(d, fs), f)[i] {
      if i == f.at {
        XorComm(f.mask, Mask(fs, i));
        XorAssoc(d[i], Mask(fs, i), f.mask);
      }
    }
  }

  /** A second application undoes the first. */
  lemma PatchUndo(d: seq<byte>, fs: seq<Flip>)
    ensures Patch(Patch(d, fs), fs) == d
  {
    forall i | 0 <= i < |d| ensures Patch(Patch(d, fs), fs)[i] == d[i] {
      FlippedTwice(d[i], Mask(fs, i));
    }
  }

  function Without(fs: seq<Flip>, j: nat): (r: seq<Flip>)
    requires j < |fs|
    ensures |r| == |fs| - 1
  {
    fs[..j] + fs[j + 1..]
  }

  lemma WithoutOne(fs: seq<Flip>, j: nat)
    requires j < |fs|
    ensures multiset(Without(fs, j)) == multiset(fs) - multiset{fs[j]}
  {
    assert fs == fs[..j] + [fs[j]] + fs[j + 1..];
  }

  /** Any pair of the list may be taken out and applied last. */
  lemma MaskTakenOut(fs: seq<Flip>, j: nat, i: nat)
    requires j < |fs|
    ensures Mask(fs, i) == Flipped(Mask([fs[j]], i), Mask(Without(fs, j), i))
  {
    hide Mask;
    var before, f, after := fs[..j], [fs[j]], fs[j + 1..];
    assert fs == before + f + after;
    MaskConcat(before + f, after, i);
    MaskConcat(before, f, i);
    MaskConcat(before, after, i);
    XorComm(Mask(before, i), Mask(f, i));
    XorAssoc(Mask(f, i), Mask(before, i), Mask(after, i));
  }

  /** What a list of pairs does depends on the pairs alone, not on their order. */
  lemma {:induction false} MaskAnyOrder(fs: seq<Flip>, gs: seq<Flip>, i: nat)
    requires multiset(fs) == multiset(gs)
    ensures Mask(fs, i) == Mask(gs, i)
    decreases |fs|
  {
    if fs == [] {
      assert |multiset(gs)| == |gs| == 0;
    } else {
      hide Mask, Without;
      assert fs[0] in multiset(gs);
      var j :| 0 <= j < |gs| && gs[j] == fs[0];
      WithoutOne(fs, 0);
      WithoutOne(gs, j);
      MaskAnyOrder(Without(fs, 0), Without(gs, j), i);
      MaskTakenOut(fs, 0, i);
      MaskTakenOut(gs, j, i);
    }
  }

  /** The pairs may be applied in any order, so in the falling order of the switch. */
  lemma PatchAnyOrder(d: seq<byte>, fs: seq<Flip>, gs: seq<Flip>)
    requires multiset(fs) == multiset(gs)
    ensures Patch(d, fs) == Patch(d, gs)
  {
    forall i | 0 <= i < |d| ensures Patch(d, fs)[i] == Patch(d, gs)[i] {
      MaskAnyOrder(fs, gs, i);
    }
  }

  /** 1 << b in a byte. */
  function BitMask(b: nat): byte
    requires b < 8
  {
    if b == 0 then 1 else if b == 1 then 2 else if b == 2 then 4 else if b == 3 then 8
    else if b == 4 then 16 else if b == 5 then 32 else if b == 6 then 64 else 128
  }

  /** A medium error: one flipped bit. */
  ghost predicate BitFlips(fs: seq<Flip>, n: nat) {
    forall i :: 0 <= i < |fs| ==> fs[i].at < n && exists b: nat :: b < 8 && fs[i].mask == BitMask(b)
  }

  /** `d` read back as `r` with at most `t` flipped bits. */
  ghost predicate Disturbed(d: seq<byte>, r: seq<byte>, t: nat) {
    exists fs :: |fs| <= t && BitFlips(fs, |d|) && r == Patch(d, fs)
  }

  /* ---------- words and bytes ---------- */

  function WordBytes(w: word): (r: seq<byte>)
    ensures |r| == 4
  {
    [w % 256, w / 0x100 % 256, w / 0x1_0000 % 256, w / 0x100_0000 % 256]
  }

  /** (hi << 16) | lo, as the driver loads NFMECCDATA0 and NFMECCDATA1. */
  function Half(lo: byte, hi: byte): (r: word) {
    hi * 0x1_0000 + lo
  }

  /** The halves loaded from the four stored bytes determine the word they came from. */
  function Rejoin(m0: word, m1: word): nat {
    m0 % 256 + m0 / 0x1_0000 % 256 * 0x100 + m1 % 256 * 0x1_0000 + m1 / 0x1_0000 % 256 * 0x100_0000
  }

  lemma WordSplit(w: word)
    ensures w == w % 256 + w / 0x100 % 256 * 0x100 + w / 0x1_0000 % 256 * 0x1_0000 + w / 0x100_0000 % 256 * 0x100_0000
  {
    assert w == w / 0x100 * 0x100 + w % 256;
    assert w / 0x100 == w / 0x1_0000 * 0x100 + w / 0x100 % 256;
    assert w / 0x1_0000 == w / 0x100_0000 * 0x100 + w / 0x1_0000 % 256;
  }

  lemma HalfSplit(lo: byte, hi: byte)
    ensures Half(lo, hi) % 256 == lo && Half(lo, hi) / 0x1_0000 % 256 == hi
  {}

  lemma HalvesRejoin(w: word)
    ensures var c := WordBytes(w); Rejoin(Half(c[0], c[1]), Half(c[2], c[3])) == w
  {
    var c := WordBytes(w);
    WordSplit(w);
    HalfSplit(c[0], c[1]);
    HalfSplit(c[2], c[3]);
  }

  /* ---------- MLC error registers ---------- */

  /** NF8ECCERR0..2 and NFMLC8BITPT0..1. */
  datatype Regs8 = Regs8(err0: word, err1: word, err2: word, pt0: word, pt1: word)

  /** NFMECCERR0..1 and NFMLCBITPT. */
  datatype Regs4 = Regs4(estat0: word, estat1: word, bitpt: word)

  function Pairs8(r: Regs8): (fs: seq<Flip>)
    ensures |fs| == 8
  {
    [Flip(r.err0 % 1024, r.pt0 % 256),
     Flip(r.err0 / 0x8000 % 1024, r.pt0 / 0x100 % 256),
     Flip(r.err1 % 1024, r.pt0 / 0x1_0000 % 256),
     Flip(r.err1 / 0x800 % 1024, r.pt0 / 0x100_0000 % 256),
     Flip(r.err1 / 0x40_0000 % 1024, r.pt1 % 256),
     Flip(r.err2 % 1024, r.pt1 / 0x100 % 256),
     Flip(r.err2 / 0x800 % 1024, r.pt1 / 0x1_0000 % 256),
     Flip(r.err2 / 0x40_0000 % 1024, r.pt1 / 0x100_0000 % 256)]
  }

  function Pairs4(r: Regs4): (fs: seq<Flip>)
    ensures |fs| == 4
  {
    [Flip(r.estat0 % 1024, r.bitpt % 256),
     Flip(r.estat0 / 0x1_0000 % 1024, r.bitpt / 0x100 % 256),
     Flip(r.estat1 % 1024, r.bitpt / 0x1_0000 % 256),
     Flip(r.estat1 / 0x1_0000 % 1024, r.bitpt / 0x100_0000 % 256)]
  }

  /** Error type after the free-page bit has been taken into account. */
  function Type8(r: Regs8): nat {
    if r.err0 / 0x2000_0000 % 2 == 1 then 0 else r.err0 / 0x200_0000 % 16
  }

  function Count4(r: Regs4): nat {
    if r.estat0 / 0x2000_0000 % 2 == 1 then 0 else r.estat0 / 0x400_0000 % 8
  }

  function Type4(r: Regs4, dat: seq<byte>): nat {
    if LooksErased(dat) then 0 else Count4(r)
  }

  /** The 4-bit path's guess that a page is erased. It probes the chunk itself, although the
      comment in the driver speaks of the spare area. */
  predicate LooksErased(dat: seq<byte>) {
    |dat| > 54 && dat[17] == 0xff && dat[26] == 0xff && dat[35] == 0xff && dat[44] == 0xff && dat[54] == 0xff
  }

  /* ---------- how the engine packs a report (the register layout, written forwards) ---------- */

  function FourPatterns(a: byte, b: byte, c: byte, d: byte): (w: word) {
    a + b * 0x100 + c * 0x1_0000 + d * 0x100_0000
  }

  /** Eight pairs, an error type and a free-page bit, laid out as the 8-bit engine reports them. */
  function Pack8(fs: seq<Flip>, kind: nat, free: bool): Regs8
    requires |fs| == 8 && Inside(fs, 1024) && kind < 16
  {
    Regs8(
      fs[0].at + fs[1].at * 0x8000 + kind * 0x200_0000 + (if free then 0x2000_0000 else 0),
      fs[2].at + fs[3].at * 0x800 + fs[4].at * 0x40_0000,
      fs[5].at + fs[6].at * 0x800 + fs[7].at * 0x40_0000,
      FourPatterns(fs[0].mask, fs[1].mask, fs[2].mask, fs[3].mask),
      FourPatterns(fs[4].mask, fs[5].mask, fs[6].mask, fs[7].mask))
  }

  function Pack4(fs: seq<Flip>, kind: nat, free: bool): Regs4
    requires |fs| == 4 && Inside(fs, 1024) && kind < 8
  {
    Regs4(
      fs[0].at + fs[1].at * 0x1_0000 + kind * 0x400_0000 + (if free then 0x2000_0000 else 0),
      fs[2].at + fs[3].at * 0x1_0000,
      FourPatterns(fs[0].mask, fs[1].mask, fs[2].mask, fs[3].mask))
  }

  lemma PatternsBack(a: byte, b: byte, c: byte, d: byte)
    ensures WordBytes(FourPatterns(a, b, c, d)) == [a, b, c, d]
  {
    FourFields(FourPatterns(a, b, c, d), a, b, c, d);
  }

  lemma FourFields(w: nat, a: byte, b: byte, c: byte, d: byte)
    requires w == a + b * 0x100 + c * 0x1_0000 + d * 0x100_0000
    ensures w % 256 == a && w / 0x100 % 256 == b && w / 0x1_0000 % 256 == c && w / 0x100_0000 % 256 == d
  {
    DivMod(b + c * 0x100 + d * 0x1_0000, a, 0x100);
    DivMod(c + d * 0x100, b, 0x100);
    DivMod(d, c, 0x100);
    assert w / 0x1_0000 == w / 0x100 / 0x100 && w / 0x100_0000 == w / 0x1_0000 / 0x100;
  }

  lemma DivMod(q: nat, r: nat, m: nat)
    requires r < m
    ensures (q * m + r) / m == q && (q * m + r) % m == r
  {
    var x := q * m + r;
    var k: int := x / m - q;
    assert m * k == r - x % m;
    assert k >= 1 ==> m * k >= m;
    assert k <= -1 ==> m * k + m <= 0;
  }

  lemma Fields3(w: nat, a: nat, b: nat, c: nat)
    requires a < 1024 && b < 1024 && c < 1024 && w == a + b * 0x800 + c * 0x40_0000
    ensures w % 1024 == a && w / 0x800 % 1024 == b && w / 0x40_0000 % 1024 == c
  {
    DivMod(2 * b + 0x1000 * c, a, 0x400);
    DivMod(b + c * 0x800, a, 0x800);
    DivMod(2 * c, b, 0x400);
    DivMod(c, a + b * 0x800, 0x40_0000);
  }

  lemma Fields2(w: nat, a: nat, b: nat)
    requires a < 1024 && b < 1024 && w == a + b * 0x1_0000
    ensures w % 1024 == a && w / 0x1_0000 % 1024 == b
  {
    DivMod(0x40 * b, a, 0x400);
    DivMod(b, a, 0x1_0000);
  }

  lemma Fields8(w: nat, a: nat, b: nat, kind: nat, free: nat)
    requires a < 1024 && b < 1024 && kind < 16 && free < 2
    requires w == a + b * 0x8000 + kind * 0x200_0000 + free * 0x2000_0000
    ensures w % 1024 == a && w / 0x8000 % 1024 == b && w / 0x200_0000 % 16 == kind && w / 0x2000_0000 % 2 == free
  {
    DivMod(0x20 * b + 0x8000 * kind + 0x8_0000 * free, a, 0x400);
    DivMod(b + kind * 0x400 + free * 0x4000, a, 0x8000);
    DivMod(kind + free * 0x10, b, 0x400);
    assert w / 0x200_0000 == kind + free * 16;
    assert w / 0x2000_0000 == free;
  }

  lemma Fields4(w: nat, a: nat, b: nat, kind: nat, free: nat)
    requires a < 1024 && b < 1024 && kind < 8 && free < 2
    requires w == a + b * 0x1_0000 + kind * 0x400_0000 + free * 0x2000_0000
    ensures w % 1024 == a && w / 0x1_0000 % 1024 == b && w / 0x400_0000 % 8 == kind && w / 0x2000_0000 % 2 == free
  {
    DivMod(0x40 * b + 0x1_0000 * kind + 0x8_0000 * free, a, 0x400);
    DivMod(b + kind * 0x400 + free * 0x2000, a, 0x1_0000);
    DivMod(kind + free * 8, b, 0x400);
    assert w / 0x400_0000 == kind + free * 8;
    assert w / 0x2000_0000 == free;
  }

  lemma Gather8(r: Regs8, fs: seq<Flip>)
    requires |fs| == 8
    requires r.err0 % 1024 == fs[0].at && r.err0 / 0x8000 % 1024 == fs[1].at
    requires r.err1 % 1024 == fs[2].at && r.err1 / 0x800 % 1024 == fs[3].at && r.err1 / 0x40_0000 % 1024 == fs[4].at
    requires r.err2 % 1024 == fs[5].at && r.err2 / 0x800 % 1024 == fs[6].at && r.err2 / 0x40_0000 % 1024 == fs[7].at
    requires WordBytes(r.pt0) == [fs[0].mask, fs[1].mask, fs[2].mask, fs[3].mask]
    requires WordBytes(r.pt1) == [fs[4].mask, fs[5].mask, fs[6].mask, fs[7].mask]
    ensures Pairs8(r) == fs
  {
    assert forall i :: 0 <= i < 4 ==> WordBytes(r.pt0)[i] == fs[i].mask && WordBytes(r.pt1)[i] == fs[4 + i].mask;
  }

  lemma Unpack8(fs: seq<Flip>, kind: nat, free: bool)
    requires |fs| == 8 && Inside(fs, 1024) && kind < 16
    ensures Pairs8(Pack8(fs, kind, free)) == fs
    ensures Type8(Pack8(fs, kind, free)) == if free then 0 else kind
  {
    var r := Pack8(fs, kind, free);
    PatternsBack(fs[0].mask, fs[1].mask, fs[2].mask, fs[3].mask);
    PatternsBack(fs[4].mask, fs[5].mask, fs[6].mask, fs[7].mask);
    Fields8(r.err0, fs[0].at, fs[1].at, kind, if free then 1 else 0);
    Fields3(r.err1, fs[2].at, fs[3].at, fs[4].at);
    Fields3(r.err2, fs[5].at, fs[6].at, fs[7].at);
    Gather8(r, fs);
  }

  lemma Gather4(r: Regs4, fs: seq<Flip>)
    requires |fs| == 4
    requires r.estat0 % 1024 == fs[0].at && r.estat0 / 0x1_0000 % 1024 == fs[1].at
    requires r.estat1 % 1024 == fs[2].at && r.estat1 / 0x1_0000 % 1024 == fs[3].at
    requires WordBytes(r.bitpt) == [fs[0].mask, fs[1].mask, fs[2].mask, fs[3].mask]
    ensures Pairs4(r) == fs
  {
    assert forall i :: 0 <= i < 4 ==> WordBytes(r.bitpt)[i] == fs[i].mask;
  }

  lemma Unpack4(fs: seq<Flip>, kind: nat, free: bool, dat: seq<byte>)
    requires |fs| == 4 && Inside(fs, 1024) && kind < 8
    ensures Pairs4(Pack4(fs, kind, free)) == fs
    ensures Type4(Pack4(fs, kind, free), dat) == if free || LooksErased(dat) then 0 else kind
  {
    var r := Pack4(fs, kind, free);
    PatternsBack(fs[0].mask, fs[1].mask, fs[2].mask, fs[3].mask);
    Fields4(r.estat0, fs[0].at, fs[1].at, kind, if free then 1 else 0);
    Fields2(r.estat1, fs[2].at, fs[3].at);
    Gather4(r, fs);
  }

  /** The register layouts in hexadecimal: eight errors at bytes 0x3F1 to 0x3F8, then four at 0x3F1 to 0x3F4, with
      patterns 0x11, 0x22, ...; bit 29 says that the page is free. */
  lemma ReportWords()
    ensures Pairs8(Regs8(0x11F9_03F1, 0xFD5F_A3F3, 0xFE1F_BBF6, 0x4433_2211, 0x8877_6655)) ==
      [Flip(0x3F1, 0x11), Flip(0x3F2, 0x22), Flip(0x3F3, 0x33), Flip(0x3F4, 0x44),
       Flip(0x3F5, 0x55), Flip(0x3F6, 0x66), Flip(0x3F7, 0x77), Flip(0x3F8, 0x88)]
    ensures Type8(Regs8(0x11F9_03F1, 0, 0, 0, 0)) == 8 && Type8(Regs8(0x31F9_03F1, 0, 0, 0, 0)) == 0
    ensures Pairs4(Regs4(0x13F2_03F1, 0x3F4_03F3, 0x4433_2211)) ==
      [Flip(0x3F1, 0x11), Flip(0x3F2, 0x22), Flip(0x3F3, 0x33), Flip(0x3F4, 0x44)]
    ensures Count4(Regs4(0x13F2_03F1, 0, 0)) == 4 && Count4(Regs4(0x33F2_03F1, 0, 0)) == 0
  {
  }

  /** The bytes the erased-page guess looks at: an all-ones chunk with one other byte still looks erased unless that
      byte is one of five. */
  lemma ProbedBytes(i: nat, b: byte)
    requires i < CHUNK && b != 0xff
    ensures var ones: seq<byte> := seq(CHUNK, _ => 0xff);
      LooksErased(ones) && (LooksErased(ones[i := b]) <==> i !in {17, 26, 35, 44, 54})
  {
  }
}
