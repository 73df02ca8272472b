/** The ECC engine as the driver sees it, what the driver needs the engine to be able to do,
    and what correcting one chunk then achieves. */
module NandEngine {
  import opened Bytes
  import opened NandCodes

  datatype NandType = Slc | Mlc4 | Mlc8

  /** What the registers hold after the engine has absorbed a run of bytes. */
  datatype Engine = Engine(
    parity1: seq<byte> -> word,                       // NFMECC0
    status1: (seq<byte>, word, word) -> word,         // NFMECCERR0, given NFMECCDATA0 and NFMECCDATA1
    parity4: seq<byte> -> (word, word),               // NFMECC0, NFMECC1
    status4: seq<byte> -> Regs4,
    parity8: seq<byte> -> (word, word, word, word),   // NFM8ECC0..3
    status8: seq<byte> -> Regs8)

  /** ecc.bytes. */
  function CodeLen(t: NandType): nat {
    match t
    case Slc => 4
    case Mlc4 => 8
    case Mlc8 => 13
  }

  /** The code bytes the driver stores for a chunk. */
  function CodeOf(e: Engine, t: NandType, d: seq<byte>): (r: seq<byte>)
    ensures |r| == CodeLen(t)
  {
    match t
    case Slc => WordBytes(e.parity1(d))
    case Mlc4 => WordBytes(e.parity4(d).0) + WordBytes(e.parity4(d).1)
    case Mlc8 =>
      WordBytes(e.parity8(d).0) + WordBytes(e.parity8(d).1) + WordBytes(e.parity8(d).2) + [e.parity8(d).3 % 256]
  }

  /** Byte 4j + k of the code is bits 8k to 8k + 7 of parity register j: all four bytes, all eight, and thirteen of
      sixteen. */
  lemma CodeBytes(e: Engine, d: seq<byte>)
    ensures var c, w := CodeOf(e, Slc, d), e.parity1(d);
      c == [w % 0x100, w / 0x100 % 0x100, w / 0x1_0000 % 0x100, w / 0x100_0000 % 0x100]
    ensures var c, (w0, w1) := CodeOf(e, Mlc4, d), e.parity4(d);
      c == [w0 % 0x100, w0 / 0x100 % 0x100, w0 / 0x1_0000 % 0x100, w0 / 0x100_0000 % 0x100,
            w1 % 0x100, w1 / 0x100 % 0x100, w1 / 0x1_0000 % 0x100, w1 / 0x100_0000 % 0x100]
    ensures var c, (w0, w1, w2, w3) := CodeOf(e, Mlc8, d), e.parity8(d);
      c == [w0 % 0x100, w0 / 0x100 % 0x100, w0 / 0x1_0000 % 0x100, w0 / 0x100_0000 % 0x100,
            w1 % 0x100, w1 / 0x100 % 0x100, w1 / 0x1_0000 % 0x100, w1 / 0x100_0000 % 0x100,
            w2 % 0x100, w2 / 0x100 % 0x100, w2 / 0x1_0000 % 0x100, w2 / 0x100_0000 % 0x100, w3 % 0x100]
  {
  }

  /** SLC status word: error kind in bits 0-1, bit number in bits 4-6, byte number in bits 7-17. */
  function Kind1(st: word): nat { st % 4 }
  function Bit1(st: word): nat { st / 16 % 8 }
  function Byte1(st: word): nat { st / 128 % 2048 }

  function Status1(e: Engine, absorbed: seq<byte>, code: seq<byte>): word
    requires |code| == 4
  {
    e.status1(absorbed, Half(code[0], code[1]), Half(code[2], code[3]))
  }

  /** What s3c_nand_correct_data does to `dat` and returns, in the three modes. */
  function Correct1(st: word, dat: seq<byte>): (r: (seq<byte>, int))
    ensures |r.0| == |dat|
  {
    if Kind1(st) == 0 then (dat, 0)
    else if Kind1(st) == 1 && Byte1(st) < |dat| then (XorAt(dat, Flip(Byte1(st), BitMask(Bit1(st)))), 1)
    else (dat, -1)
  }

  function Correct4(r: Regs4, dat: seq<byte>): (res: (seq<byte>, int))
    ensures |res.0| == |dat|
  {
    var k := Type4(r, dat);
    if k <= 4 then (Patch(dat, Pairs4(r)[..k]), k) else (dat, -1)
  }

  function Correct8(r: Regs8, dat: seq<byte>): (res: (seq<byte>, int))
    ensures |res.0| == |dat|
  {
    var k := Type8(r);
    if k <= 8 then (Patch(dat, Pairs8(r)[..k]), k) else (dat, -1)
  }

  /** Reading one chunk back with a stored code. */
  function DecodeChunk(e: Engine, t: NandType, chunk: seq<byte>, code: seq<byte>): (r: (seq<byte>, int))
    requires |code| == CodeLen(t)
    ensures |r.0| == |chunk|
  {
    match t
    case Slc => Correct1(Status1(e, chunk, code), chunk)
    case Mlc4 => Correct4(e.status4(chunk + code), chunk)
    case Mlc8 => Correct8(e.status8(chunk + code), chunk)
  }

  /* ---------- the engine never names a byte outside the data it absorbed ---------- */

  ghost predicate InRange1(e: Engine, n: nat) {
    forall d: seq<byte>, m0: word, m1: word {:trigger e.status1(d, m0, m1)} ::
      |d| == n && Kind1(e.status1(d, m0, m1)) == 1 ==> Byte1(e.status1(d, m0, m1)) < n
  }

  ghost predicate InRange4(e: Engine) {
    forall a: seq<byte>, i: nat {:trigger Pairs4(e.status4(a))[i]} ::
      |a| == 520 && i < 4 && i < e.status4(a).estat0 / 0x400_0000 % 8 <= 4 ==> Pairs4(e.status4(a))[i].at < CHUNK
  }

  ghost predicate InRange8(e: Engine) {
    forall a: seq<byte>, i: nat {:trigger Pairs8(e.status8(a))[i]} ::
      |a| == 525 && i < 8 && i < e.status8(a).err0 / 0x200_0000 % 16 <= 8 ==> Pairs8(e.status8(a))[i].at < CHUNK
  }

  ghost predicate InRange(e: Engine, t: NandType) {
    match t
    case Slc => InRange1(e, CHUNK)
    case Mlc4 => InRange4(e)
    case Mlc8 => InRange8(e)
  }

  /* ---------- the decoder contract: `t` flipped bits are reported exactly ---------- */

  ghost predicate Names1(e: Engine, d: seq<byte>, fs: seq<Flip>) {
    var w := e.parity1(d);
    var st := e.status1(Patch(d, fs), w % 0x100 + w / 0x100 % 0x100 * 0x1_0000,
                        w / 0x1_0000 % 0x100 + w / 0x100_0000 % 0x100 * 0x1_0000);
    && (fs == [] ==> st % 4 == 0)
    && (|fs| == 1 ==> st % 4 == 1 && st / 128 % 2048 == fs[0].at && BitMask(st / 16 % 8) == fs[0].mask)
  }

  /** A report of `k` pairs describes the flips `fs`: it fits the registers, names bytes of the chunk, and every
      byte's patterns combine to the bits flipped in it, whatever their order and however often it is named. */
  ghost predicate Describes(pairs: seq<Flip>, k: nat, fs: seq<Flip>) {
    k <= |pairs| && Inside(pairs[..k], CHUNK) && forall i: nat :: Mask(pairs[..k], i) == Mask(fs, i)
  }

  ghost predicate Names4(e: Engine, d: seq<byte>, fs: seq<Flip>) {
    var (w0, w1) := e.parity4(d);
    var code := [w0 % 0x100, w0 / 0x100 % 0x100, w0 / 0x1_0000 % 0x100, w0 / 0x100_0000 % 0x100,
                 w1 % 0x100, w1 / 0x100 % 0x100, w1 / 0x1_0000 % 0x100, w1 / 0x100_0000 % 0x100];
    var r := e.status4(Patch(d, fs) + code);
    Describes(Pairs4(r), Count4(r), fs)
  }

  ghost predicate Names8(e: Engine, d: seq<byte>, fs: seq<Flip>) {
    var (w0, w1, w2, w3) := e.parity8(d);
    var code := [w0 % 0x100, w0 / 0x100 % 0x100, w0 / 0x1_0000 % 0x100, w0 / 0x100_0000 % 0x100,
                 w1 % 0x100, w1 / 0x100 % 0x100, w1 / 0x1_0000 % 0x100, w1 / 0x100_0000 % 0x100,
                 w2 % 0x100, w2 / 0x100 % 0x100, w2 / 0x1_0000 % 0x100, w2 / 0x100_0000 % 0x100, w3 % 0x100];
    var r := e.status8(Patch(d, fs) + code);
    Describes(Pairs8(r), Type8(r), fs)
  }

  /** On data of length `n`, the engine reports any `c` or fewer flipped bits. */
  ghost predicate Corrects(e: Engine, t: NandType, n: nat, c: nat) {
    forall d: seq<byte>, fs: seq<Flip> {:trigger Patch(d, fs)} :: |d| == n && |fs| <= c && BitFlips(fs, n) ==>
      match t
      case Slc => Names1(e, d, fs)
      case Mlc4 => Names4(e, d, fs)
      case Mlc8 => Names8(e, d, fs)
  }

  /** The SLC comparison: no error is reported exactly when the stored code is the data's own. */
  ghost predicate Compares(e: Engine, n: nat) {
    forall d: seq<byte>, m0: word, m1: word {:trigger e.status1(d, m0, m1)} ::
      |d| == n ==> (Kind1(e.status1(d, m0, m1)) == 0 <==> Rejoin(m0, m1) == e.parity1(d))
  }

  /* ---------- one chunk ---------- */

  lemma LoadedHalves(e: Engine, d: seq<byte>, r: seq<byte>)
    ensures var w := e.parity1(d);
      Status1(e, r, CodeOf(e, Slc, d)) == e.status1(r, w % 0x100 + w / 0x100 % 0x100 * 0x1_0000,
                                                    w / 0x1_0000 % 0x100 + w / 0x100_0000 % 0x100 * 0x1_0000)
  {
  }

  /** SLC: a data run read with at most one flip and its own code comes back as written. */
  lemma Restore1(e: Engine, d: seq<byte>, r: seq<byte>)
    requires Corrects(e, Slc, |d|, 1) && Disturbed(d, r, 1)
    ensures DecodeChunk(e, Slc, r, CodeOf(e, Slc, d)).0 == d
    ensures DecodeChunk(e, Slc, r, CodeOf(e, Slc, d)).1 != -1
  {
    var fs: seq<Flip> :| |fs| <= 1 && BitFlips(fs, |d|) && r == Patch(d, fs);
    assert Names1(e, d, fs);
    LoadedHalves(e, d, r);
    hide Names1, Corrects, Status1, CodeOf;
    if fs == [] {
      PatchNone(d);
    } else {
      assert fs == [fs[0]] + [];
      PatchStep(d, fs[0], []);
      PatchNone(d);
      FlippedTwice(d[fs[0].at], fs[0].mask);
    }
  }

  /** Correcting with a report that describes the damage undoes it. */
  lemma DescribedIsUndone(d: seq<byte>, fs: seq<Flip>, pairs: seq<Flip>, k: nat)
    requires Describes(pairs, k, fs)
    ensures Patch(Patch(d, fs), pairs[..k]) == d
  {
    PatchUndo(d, fs);
    assert Patch(Patch(d, fs), pairs[..k]) == Patch(Patch(d, fs), fs);
  }

  /** 8-bit MLC: a chunk read with flips the engine can report comes back as written. */
  lemma Restore8(e: Engine, d: seq<byte>, r: seq<byte>, c: nat)
    requires |d| == CHUNK && Corrects(e, Mlc8, CHUNK, c) && Disturbed(d, r, c)
    ensures DecodeChunk(e, Mlc8, r, CodeOf(e, Mlc8, d)).0 == d
    ensures DecodeChunk(e, Mlc8, r, CodeOf(e, Mlc8, d)).1 != -1
  {
    var fs: seq<Flip> :| |fs| <= c && BitFlips(fs, |d|) && r == Patch(d, fs);
    assert Names8(e, d, fs);
    CodeBytes(e, d);
    var report := e.status8(r + CodeOf(e, Mlc8, d));
    DescribedIsUndone(d, fs, Pairs8(report), Type8(report));
  }

  /** 4-bit MLC: the same, except that the erased-page guess must not fire on damaged data.
      That condition is exact. */
  lemma Restore4(e: Engine, d: seq<byte>, r: seq<byte>, c: nat)
    requires |d| == CHUNK && Corrects(e, Mlc4, CHUNK, c) && Disturbed(d, r, c)
    ensures DecodeChunk(e, Mlc4, r, CodeOf(e, Mlc4, d)).0 == d <==> (r == d || !LooksErased(r))
    ensures DecodeChunk(e, Mlc4, r, CodeOf(e, Mlc4, d)).1 != -1
  {
    var fs: seq<Flip> :| |fs| <= c && BitFlips(fs, |d|) && r == Patch(d, fs);
    assert Names4(e, d, fs);
    CodeBytes(e, d);
    var report := e.status4(r + CodeOf(e, Mlc4, d));
    DescribedIsUndone(d, fs, Pairs4(report), Count4(report));
    PatchNone(r);
  }

  /* ---------- the fall-through switch is an exact decoder ---------- */

  lemma StatusFields(kind: nat, bit: nat, at: nat, st: nat)
    requires kind < 4 && bit < 8 && at < 2048 && st == kind + bit * 16 + at * 128
    ensures st % 4 == kind && st / 16 % 8 == bit && st / 128 % 2048 == at
  {
    assert st / 16 == bit + at * 8;
    assert st / 128 == at;
  }

  /** For every SLC status: one named bit is flipped and nothing else and 1 returned, doing it again undoes it, no
      error is 0, and the other two kinds are refused. */
  lemma ExactDecoder1(kind: nat, bit: nat, at: nat, dat: seq<byte>)
    requires kind < 4 && bit < 8 && at < |dat| <= 2048
    ensures var st := kind + bit * 16 + at * 128; var c := Correct1(st, dat);
      && (kind == 0 ==> c == (dat, 0))
      && (kind == 1 ==>
            && c == (dat[at := Flipped(dat[at], [1, 2, 4, 8, 16, 32, 64, 128][bit])], 1)
            && Correct1(st, c.0).0 == dat)
      && (kind > 1 ==> c == (dat, -1))
  {
    hide Flipped;
    StatusFields(kind, bit, at, kind + bit * 16 + at * 128);
    FlippedTwice(dat[at], BitMask(bit));
  }

  /** For every packed report: the first `kind` pairs are XORed in and nothing else, the error
      count is returned, doing it again undoes it, and any other code is refused. */
  lemma ExactDecoder8(fs: seq<Flip>, kind: nat, free: bool, dat: seq<byte>)
    requires |fs| == 8 && Inside(fs, 1024) && kind < 16
    ensures var r := Pack8(fs, kind, free); var c := Correct8(r, dat);
      && (!free && kind <= 8 ==>
            && c == (Patch(dat, fs[..kind]), kind) && Correct8(r, c.0).0 == dat
            && forall i :: 0 <= i < |dat| && (forall j :: 0 <= j < kind ==> fs[j].at != i) ==> c.0[i] == dat[i])
      && (!free && kind > 8 ==> c == (dat, -1))
      && (free ==> c == (dat, 0))
  {
    Unpack8(fs, kind, free);
    PatchNone(dat);
    if !free && kind <= 8 {
      PatchUndo(dat, fs[..kind]);
      MaskElsewhere(dat, fs[..kind]);
    }
  }

  lemma ExactDecoder4(fs: seq<Flip>, kind: nat, free: bool, dat: seq<byte>)
    requires |fs| == 4 && Inside(fs, 1024) && kind < 8
    ensures var r := Pack4(fs, kind, free); var c := Correct4(r, dat);
      && (!free && !LooksErased(dat) && kind <= 4 ==>
            && c == (Patch(dat, fs[..kind]), kind) && (!LooksErased(c.0) ==> Correct4(r, c.0).0 == dat)
            && forall i :: 0 <= i < |dat| && (forall j :: 0 <= j < kind ==> fs[j].at != i) ==> c.0[i] == dat[i])
      && (!free && !LooksErased(dat) && kind > 4 ==> c == (dat, -1))
      && (free || LooksErased(dat) ==> c == (dat, 0))
  {
    var c := Correct4(Pack4(fs, kind, free), dat);
    Unpack4(fs, kind, free, dat);
    Unpack4(fs, kind, free, c.0);
    PatchNone(dat);
    if !free && !LooksErased(dat) && kind <= 4 {
      PatchUndo(dat, fs[..kind]);
      MaskElsewhere(dat, fs[..kind]);
    }
  }

  lemma {:induction false} MaskAbsent(fs: seq<Flip>, i: nat)
    requires forall j :: 0 <= j < |fs| ==> fs[j].at != i
    ensures Mask(fs, i) == 0
  {
    if fs != [] { MaskAbsent(fs[1..], i); }
  }

  lemma MaskElsewhere(dat: seq<byte>, fs: seq<Flip>)
    ensures forall i :: 0 <= i < |dat| && (forall j :: 0 <= j < |fs| ==> fs[j].at != i) ==> Patch(dat, fs)[i] == dat[i]
  {
    forall i | 0 <= i < |dat| && (forall j :: 0 <= j < |fs| ==> fs[j].at != i)
      ensures Patch(dat, fs)[i] == dat[i]
    {
      MaskAbsent(fs, i);
    }
  }
}
