/** The page and spare-area functions of the S3C NAND driver, over a chip and an ECC engine with state. */
module NandDriver {
  import opened Bytes
  import opened NandCodes
  import opened NandEngine

  datatype EccMode = Read | Write

  /* ---------- what the functions compute ---------- */

  lemma TakeMore(s: seq<byte>, p: nat, n: nat)
    requires p + n <= |s|
    ensures s[..p] + s[p..p + n] == s[..p + n]
  {}

  function Chunk(page: seq<byte>, s: nat): (r: seq<byte>)
    requires (s + 1) * 512 <= |page|
    ensures |r| == 512
  {
    page[s * 512..(s + 1) * 512]
  }

  /** s * ecc.bytes: where the code of chunk `s` starts among all codes. */
  function At(t: NandType, s: int): (r: int)
    ensures s >= 0 ==> r >= 0
  {
    match t
    case Slc => 4 * s
    case Mlc4 => 8 * s
    case Mlc8 => 13 * s
  }

  /** The codes of the first `n` chunks, one after the other. */
  function Codes(e: Engine, t: NandType, page: seq<byte>, n: nat): (r: seq<byte>)
    requires n * 512 <= |page|
    ensures |r| == At(t, n)
  {
    if n == 0 then [] else Codes(e, t, page, n - 1) + CodeOf(e, t, Chunk(page, n - 1))
  }

  ghost predicate Positions(eccpos: seq<nat>, oobsize: nat) {
    forall i :: 0 <= i < |eccpos| ==> eccpos[i] < oobsize
  }

  /** oob[eccpos[i]] = codes[i] for i below `n`. */
  function Scatter(oob: seq<byte>, eccpos: seq<nat>, codes: seq<byte>, n: nat): (r: seq<byte>)
    requires n <= |codes| && n <= |eccpos| && Positions(eccpos, |oob|)
    ensures |r| == |oob|
  {
    if n == 0 then oob else Scatter(oob, eccpos, codes, n - 1)[eccpos[n - 1] := codes[n - 1]]
  }

  /** A spare area whose last four bytes are the SLC code of the rest. */
  function SealSpare(e: Engine, oob: seq<byte>): (r: seq<byte>)
    requires |oob| >= 8
    ensures |r| == |oob|
  {
    oob[..|oob| - 4] + CodeOf(e, Slc, oob[..|oob| - 4])
  }

  predicate Jffs2Marker(spare: seq<byte>)
    requires |spare| >= 8
  {
    spare[2] == 0x85 && spare[3] == 0x19
  }

  /** The spare area after its own correction, which the JFFS2 marker switches off. */
  function OpenSpare(e: Engine, spare: seq<byte>): (r: seq<byte>)
    requires |spare| >= 8
    ensures |r| == |spare|
  {
    var n := |spare| - 4;
    if Jffs2Marker(spare) then spare
    else Correct1(Status1(e, spare[..n], spare[n..]), spare[..n]).0 + spare[n..]
  }

  /** The same, as a correction made inside the spare buffer. */
  lemma OpenSpareInPlace(e: Engine, spare: seq<byte>)
    requires |spare| >= 8
    ensures var n := |spare| - 4;
      OpenSpare(e, spare) == if Jffs2Marker(spare) then spare
        else Splice(spare, 0, Correct1(Status1(e, spare[0..n], spare[n..n + 4]), spare[0..n]).0)
    ensures spare[0..|spare| - 4] == spare[..|spare| - 4]
  {
    hide Correct1, Status1;
    var n := |spare| - 4;
    assert spare[0..n] == spare[..n] && spare[n..n + 4] == spare[n..];
  }

  /** The first `n` chunks corrected with the codes found from `base` on, and how many could not be. */
  function DecodeMain(e: Engine, t: NandType, main: seq<byte>, oob: seq<byte>, base: nat, n: nat): (r: (seq<byte>, nat))
    requires n * 512 <= |main| && base + At(t, n) <= |oob|
    ensures |r.0| == n * 512
  {
    if n == 0 then ([], 0)
    else
      var before := DecodeMain(e, t, main, oob, base, n - 1);
      var here := DecodeChunk(e, t, Chunk(main, n - 1), oob[base + At(t, n - 1)..base + At(t, n)]);
      (before.0 + here.0, before.1 + if here.1 == -1 then 1 else 0)
  }

  /* ---------- one more chunk ---------- */

  lemma ChunkOf(cells: seq<byte>, n: nat, s: nat)
    requires (s + 1) * 512 <= n <= |cells|
    ensures cells[s * 512..s * 512 + 512] == Chunk(cells[..n], s)
  {
  }

  lemma CellsStep(cells: seq<byte>, page: seq<byte>, s: nat)
    requires (s + 1) * 512 <= |page| <= |cells|
    ensures Splice(Splice(cells, 0, page[..s * 512]), s * 512, Chunk(page, s))
      == Splice(cells, 0, page[..(s + 1) * 512])
  {
    SpliceMore(cells, 0, page[..s * 512], Chunk(page, s));
    TakeMore(page, s * 512, 512);
  }

  lemma CodesStep(e: Engine, t: NandType, page: seq<byte>, s: nat, was: seq<byte>, now: seq<byte>)
    requires (s + 1) * 512 <= |page| && At(t, s) + CodeLen(t) <= |was| && was[..At(t, s)] == Codes(e, t, page, s)
    requires now == Splice(was, At(t, s), CodeOf(e, t, Chunk(page, s)))
    ensures now[..At(t, s) + CodeLen(t)] == Codes(e, t, page, s + 1)
  {
    SpliceLaws(was, At(t, s), CodeOf(e, t, Chunk(page, s)));
  }

  lemma DecodeStep(e: Engine, t: NandType, main: seq<byte>, oob: seq<byte>, base: nat, s: nat,
                   was: seq<byte>, now: seq<byte>, stat: int, bad: nat)
    requires (s + 1) * 512 <= |main| == |was| && base + At(t, s + 1) <= |oob| && At(t, s + 1) == At(t, s) + CodeLen(t)
    requires DecodeMain(e, t, main, oob, base, s) == (was[..s * 512], bad)
    requires var d := DecodeChunk(e, t, Chunk(main, s), oob[base + At(t, s)..base + At(t, s + 1)]);
             now == Splice(was, s * 512, d.0) && stat == d.1
    ensures DecodeMain(e, t, main, oob, base, s + 1) == (now[..(s + 1) * 512], bad + if stat == -1 then 1 else 0)
  {
    hide DecodeChunk;
    SpliceLaws(was, s * 512, DecodeChunk(e, t, Chunk(main, s), oob[base + At(t, s)..base + At(t, s + 1)]).0);
  }

  /* ---------- the driver ---------- */

  class Nand {
    const engine: Engine
    const nandType: NandType    // nand_type, settled by probing
    const writesize: nat        // mtd->writesize
    ghost const chunks: nat     // how many 512-byte chunks that is
    const oobsize: nat          // mtd->oobsize
    const eccpos: seq<nat>      // ecc.layout->eccpos
    const eccSteps: nat         // ecc.steps
    const oobPoi: array<byte>
    const eccCalc: array<byte>

    var curEccMode: EccMode
    var failed: nat             // ecc_stats.failed

    // engine state
    var locked: bool
    var encoding: bool
    var absorbed: seq<byte>

    // the selected page on the chip, main area then spare area
    var cells: seq<byte>
    var col: nat
    var programming: bool

    /** The geometry, which never changes. */
    ghost predicate Shape() {
      && oobPoi.Length == oobsize >= 8 && oobPoi != eccCalc
      && writesize == 512 * chunks && (!nandType.Mlc8? ==> eccSteps == chunks)
      && |eccpos| >= At(nandType, chunks) && Positions(eccpos, oobsize)
      && eccCalc.Length >= At(nandType, chunks) + 4
    }

    /** The engine never names a byte outside what it absorbed. */
    ghost predicate Sound() {
      (nandType.Slc? ==> oobsize >= 8 && InRange1(engine, oobsize - 4)) && InRange(engine, nandType)
    }

    ghost predicate Valid()
      reads this
    {
      Shape() && Sound() && |cells| == writesize + oobsize
    }

    constructor (engine: Engine, t: NandType, chunks: nat, oobsize: nat, eccpos: seq<nat>, eccSteps: nat,
                 page: seq<byte>)
      requires |page| == 512 * chunks + oobsize && (!t.Mlc8? ==> eccSteps == chunks) && oobsize >= 8
      requires |eccpos| >= At(t, chunks) && Positions(eccpos, oobsize)
      requires (t.Slc? ==> InRange1(engine, oobsize - 4)) && InRange(engine, t)
      ensures Valid() && fresh(oobPoi) && fresh(eccCalc)
      ensures this.engine == engine && this.chunks == chunks && this.oobsize == oobsize
      ensures this.eccpos == eccpos && this.eccSteps == eccSteps && nandType == t && cells == page && failed == 0
    {
      this.engine, this.chunks, this.oobsize, this.eccpos, this.eccSteps := engine, chunks, oobsize, eccpos, eccSteps;
      this.writesize := 512 * chunks;
      oobPoi := new byte[oobsize];
      eccCalc := new byte[At(t, chunks) + 4];
      nandType := t;
      curEccMode, failed := Read, 0;
      locked, encoding, absorbed := true, false, [];
      cells, col, programming := page, 0, false;
    }

    /* ----- engine and chip primitives ----- */

    method EnableHwecc(mode: EccMode)
      modifies `curEccMode, `locked, `encoding, `absorbed
      ensures curEccMode == mode && !locked && absorbed == []
      ensures encoding == if nandType.Slc? then old(encoding) else mode.Write?
    {
      curEccMode := mode;
      absorbed, locked := [], false;
      if nandType.Mlc4? || nandType.Mlc8? {
        if mode == Write {
          encoding := true;
        } else {
          encoding := false;
        }
      }
    }

    /** nand_write_buf: an unlocked engine listens; the chip takes the bytes only while it is being programmed. */
    method WriteBuf(src: array<byte>, p: nat, n: nat)
      requires p + n <= src.Length && (programming ==> col + n <= |cells|)
      modifies `absorbed, `cells, `col
      ensures absorbed == old(absorbed) + if locked then [] else src[p..p + n]
      ensures programming ==> cells == Splice(old(cells), old(col), src[p..p + n]) && col == old(col) + n
      ensures !programming ==> cells == old(cells) && col == old(col)
    {
      if !locked {
        absorbed := absorbed + src[p..p + n];
      }
      if programming {
        cells := Splice(cells, col, src[p..p + n]);
        col := col + n;
      }
    }

    method ReadBuf(dst: array<byte>, p: nat, n: nat)
      requires p + n <= dst.Length && col + n <= |cells|
      modifies dst, `absorbed, `col
      ensures dst[..] == Splice(old(dst[..]), p, cells[old(col)..old(col) + n])
      ensures absorbed == old(absorbed) + if locked then [] else cells[old(col)..old(col) + n]
      ensures col == old(col) + n
    {
      ghost var was := dst[..];
      var bytes := cells[col..col + n];
      forall i | 0 <= i < n {
        dst[p + i] := bytes[i];
      }
      assert dst[..] == Splice(was, p, bytes);
      if !locked {
        absorbed := absorbed + bytes;
      }
      col := col + n;
    }

    /** NAND_CMD_RNDOUT and the other commands that select a column for reading. */
    method SeekRead(c: nat)
      modifies `col, `programming
      ensures col == c && !programming
    {
      col, programming := c, false;
    }

    /** NAND_CMD_SEQIN: what is sent next is programmed into the page, from column `c` on. */
    method SeekProgram(c: nat)
      modifies `col, `programming
      ensures col == c && programming
    {
      col, programming := c, true;
    }

    /** Lock the engine; the code bytes are stored except when an MLC code is being checked. */
    method CalculateEcc(dst: array?<byte>, at: nat)
      requires nandType.Slc? || curEccMode.Write? ==> dst != null && at + CodeLen(nandType) <= dst.Length
      requires !nandType.Slc? ==> encoding == curEccMode.Write?
      modifies `locked, dst
      ensures locked
      ensures nandType.Slc? || curEccMode.Write? ==>
                dst[..] == Splice(old(dst[..]), at, CodeOf(engine, nandType, absorbed))
      ensures !nandType.Slc? && curEccMode.Read? && dst != null ==> dst[..] == old(dst[..])
    {
      hide CodeOf;
      locked := true;
      if nandType.Slc? || curEccMode == Write {
        ghost var was := dst[..];
        var code := CodeOf(engine, nandType, absorbed);
        forall i | 0 <= i < |code| {
          dst[at + i] := code[i];
        }
        assert dst[..] == Splice(was, at, code);
      }
    }

    /** One case label of the correction switch: label `j + 1` of an error count `k`. */
    method ApplyPair(dat: array<byte>, p: nat, at: nat, mask: byte,
                     ghost was: seq<byte>, ghost d: seq<byte>, ghost fs: seq<Flip>, ghost j: nat, ghost k: nat)
      requires j < k <= |fs| && fs[j] == Flip(at, mask) && at < |d| && p + |d| <= |was| == dat.Length
      requires dat[..] == Splice(was, p, Patch(d, fs[j + 1..k]))
      modifies dat
      ensures dat[..] == Splice(was, p, Patch(d, fs[j..k]))
    {
      PatchStep(d, fs[j], fs[j + 1..k]);
      assert fs[j..k] == [fs[j]] + fs[j + 1..k];
      dat[p + at] := Flipped(dat[p + at], mask);
      assert dat[..] == Splice(was, p, XorAt(Patch(d, fs[j + 1..k]), fs[j]));
    }

    method CorrectSlc(dat: array<byte>, p: nat, readEcc: array<byte>, q: nat, ghost n: nat) returns (ret: int)
      requires p + n <= dat.Length && q + 4 <= readEcc.Length && |absorbed| == n && InRange1(engine, n)
      modifies dat
      ensures var c := Correct1(old(Status1(engine, absorbed, readEcc[q..q + 4])), old(dat[p..p + n]));
              ret == c.1 && dat[..] == Splice(old(dat[..]), p, c.0)
    {
      var st := engine.status1(absorbed, Half(readEcc[q], readEcc[q + 1]), Half(readEcc[q + 2], readEcc[q + 3]));
      assert st == Status1(engine, absorbed, readEcc[q..q + 4]);
      ret := -1;
      if Kind1(st) == 0 {
        ret := 0;
      } else if Kind1(st) == 1 {
        dat[p + Byte1(st)] := Flipped(dat[p + Byte1(st)], BitMask(Bit1(st)));
        ret := 1;
      }
      assert dat[..] == Splice(old(dat[..]), p, Correct1(st, old(dat[p..p + n])).0);
    }

    /** Four case labels, base + 4 down to base + 1, entered by error counts up to `top`. */
    method FourLabels(dat: array<byte>, p: nat, k: nat, top: nat, base: nat, f0: Flip, f1: Flip, f2: Flip, f3: Flip,
                      ghost was: seq<byte>, ghost d: seq<byte>, ghost fs: seq<Flip>)
      requires p + |d| <= |was| == dat.Length && base + 4 <= top == |fs|
      requires fs[base] == f0 && fs[base + 1] == f1 && fs[base + 2] == f2 && fs[base + 3] == f3
      requires k <= top ==> forall i :: 0 <= i < k ==> fs[i].at < |d|
      requires dat[..] == Splice(was, p, if base + 4 <= k <= top then Patch(d, fs[base + 4..k]) else d)
      modifies dat
      ensures dat[..] == Splice(was, p, if base <= k <= top then Patch(d, fs[base..k]) else d)
    {
      PatchNone(d);
      if base + 4 <= k <= top { ApplyPair(dat, p, f3.at, f3.mask, was, d, fs, base + 3, k); }
      if base + 3 <= k <= top { ApplyPair(dat, p, f2.at, f2.mask, was, d, fs, base + 2, k); }
      if base + 2 <= k <= top { ApplyPair(dat, p, f1.at, f1.mask, was, d, fs, base + 1, k); }
      if base + 1 <= k <= top { ApplyPair(dat, p, f0.at, f0.mask, was, d, fs, base, k); }
    }

    method CorrectMlc4(dat: array<byte>, p: nat) returns (ret: int)
      requires p + 512 <= dat.Length && |absorbed| == 520 && !encoding && InRange4(engine)
      modifies dat
      ensures var c := Correct4(engine.status4(absorbed), old(dat[p..p + 512]));
              ret == c.1 && dat[..] == Splice(old(dat[..]), p, c.0)
    {
      var r := engine.status4(absorbed);
      var errType := r.estat0 / 0x400_0000 % 8;
      if r.estat0 / 0x2000_0000 % 2 == 1 {
        errType := 0;
      } else if dat[p + 17] == 0xff && dat[p + 26] == 0xff && dat[p + 35] == 0xff && dat[p + 44] == 0xff
                && dat[p + 54] == 0xff {
        errType := 0;
      }
      ret := -1;
      ghost var was, d := dat[..], dat[p..p + 512];
      PatchNone(d);
      assert dat[..] == Splice(was, p, d);
      if errType <= 4 {
        assert forall i: nat :: i < errType ==> Pairs4(engine.status4(absorbed))[i].at < 512;
      }
      FourLabels(dat, p, errType, 4, 0,
                 Flip(r.estat0 % 1024, r.bitpt % 256),
                 Flip(r.estat0 / 0x1_0000 % 1024, r.bitpt / 0x100 % 256),
                 Flip(r.estat1 % 1024, r.bitpt / 0x1_0000 % 256),
                 Flip(r.estat1 / 0x1_0000 % 1024, r.bitpt / 0x100_0000 % 256), was, d, Pairs4(r));
      if 1 <= errType <= 4 { ret := errType; }
      if errType == 0 { ret := 0; }
      assert errType <= 4 ==> Pairs4(r)[0..errType] == Pairs4(r)[..errType];
    }

    method CorrectMlc8(dat: array<byte>, p: nat) returns (ret: int)
      requires p + 512 <= dat.Length && |absorbed| == 525 && !encoding && InRange8(engine)
      modifies dat
      ensures var c := Correct8(engine.status8(absorbed), old(dat[p..p + 512]));
              ret == c.1 && dat[..] == Splice(old(dat[..]), p, c.0)
    {
      var r := engine.status8(absorbed);
      var errType := r.err0 / 0x200_0000 % 16;
      if r.err0 / 0x2000_0000 % 2 == 1 {
        errType := 0;
      }
      ret := -1;
      ghost var was, d := dat[..], dat[p..p + 512];
      PatchNone(d);
      assert dat[..] == Splice(was, p, d);
      assert errType <= 8 ==> forall i :: 0 <= i < errType ==> Pairs8(r)[i].at < 512;
      assert errType == 8 ==> Pairs8(r)[8..errType] == [];
      FourLabels(dat, p, errType, 8, 4,
                 Flip(r.err1 / 0x40_0000 % 1024, r.pt1 % 256),
                 Flip(r.err2 % 1024, r.pt1 / 0x100 % 256),
                 Flip(r.err2 / 0x800 % 1024, r.pt1 / 0x1_0000 % 256),
                 Flip(r.err2 / 0x40_0000 % 1024, r.pt1 / 0x100_0000 % 256), was, d, Pairs8(r));
      FourLabels(dat, p, errType, 8, 0,
                 Flip(r.err0 % 1024, r.pt0 % 256),
                 Flip(r.err0 / 0x8000 % 1024, r.pt0 / 0x100 % 256),
                 Flip(r.err1 % 1024, r.pt0 / 0x1_0000 % 256),
                 Flip(r.err1 / 0x800 % 1024, r.pt0 / 0x100_0000 % 256), was, d, Pairs8(r));
      if 1 <= errType <= 8 { ret := errType; }
      if errType == 0 { ret := 0; }
      assert errType <= 8 ==> Pairs8(r)[0..errType] == Pairs8(r)[..errType];
    }

    /** The loops' step count: ecc.steps, except that the 8-bit functions divide for themselves. */
    method StepCount() returns (n: nat)
      requires Shape()
      ensures n == chunks
    {
      n := if nandType.Mlc8? then writesize / 512 else eccSteps;
    }

    /* ----- writing ----- */

    /** Code and send one chunk. */
    method EncodeChunk(buf: array<byte>, p: nat, i: nat)
      requires programming && col + 512 <= |cells| && p + 512 <= buf.Length
      requires i + CodeLen(nandType) <= eccCalc.Length && buf != eccCalc
      modifies eccCalc, `curEccMode, `locked, `encoding, `absorbed, `cells, `col
      ensures cells == Splice(old(cells), old(col), old(buf[p..p + 512])) && col == old(col) + 512
      ensures eccCalc[..] == Splice(old(eccCalc[..]), i, CodeOf(engine, nandType, old(buf[p..p + 512])))
    {
      EnableHwecc(Write);
      WriteBuf(buf, p, 512);
      assert absorbed == buf[p..p + 512];
      CalculateEcc(eccCalc, i);
    }

    /** The main-area loop of the three page writers. */
    method EncodeMain(buf: array<byte>, steps: nat)
      requires Shape() && |cells| == writesize + oobsize && programming && col == 0 && steps == chunks
      requires buf.Length == writesize && buf != eccCalc
      modifies eccCalc, `curEccMode, `locked, `encoding, `absorbed, `cells, `col
      ensures cells == Splice(old(cells), 0, buf[..]) && col == writesize
      ensures eccCalc[..At(nandType, steps)] == Codes(engine, nandType, buf[..], steps)
    {
      hide CodeOf;
      var i, p, left := 0, 0, steps;
      ghost var before, page := cells, buf[..];
      ghost var s: nat, codes: seq<byte> := 0, [];
      while left > 0
        invariant s <= steps && left == steps - s && p == s * 512 && i == At(nandType, s) <= eccCalc.Length
        invariant col == p && cells == Splice(before, 0, page[..s * 512])
        invariant codes == Codes(engine, nandType, page, s) && eccCalc[..i] == codes
      {
        codes := EncodeStep(buf, p, i, before, page, s, steps, codes);
        left, i, p := left - 1, i + CodeLen(nandType), p + 512;
        s := s + 1;
      }
      assert page[..writesize] == page;
    }

    /** One turn of the loop above, in terms of the chunks coded so far. */
    method EncodeStep(buf: array<byte>, p: nat, i: nat, ghost before: seq<byte>, ghost page: seq<byte>,
                      ghost s: nat, ghost steps: nat, ghost codes: seq<byte>)
      returns (ghost codes': seq<byte>)
      requires Shape() && programming && col == p == s * 512 && s < steps == chunks && i == At(nandType, s)
      requires buf.Length == writesize && buf != eccCalc && page == buf[..]
      requires |before| == |cells| == writesize + oobsize && cells == Splice(before, 0, page[..s * 512])
      requires i <= eccCalc.Length && codes == Codes(engine, nandType, page, s) && eccCalc[..i] == codes
      modifies eccCalc, `curEccMode, `locked, `encoding, `absorbed, `cells, `col
      ensures col == p + 512 && i + CodeLen(nandType) == At(nandType, s + 1) <= eccCalc.Length
      ensures cells == Splice(before, 0, page[..(s + 1) * 512])
      ensures codes' == Codes(engine, nandType, page, s + 1) && eccCalc[..i + CodeLen(nandType)] == codes'
    {
      hide CodeOf;
      ghost var was := eccCalc[..];
      AtStep(nandType, s, steps);
      assert buf[p..p + 512] == Chunk(page, s);
      EncodeChunk(buf, p, i);
      CellsStep(before, page, s);
      CodesStep(engine, nandType, page, s, was, eccCalc[..]);
      codes' := Codes(engine, nandType, page, s + 1);
    }

    /** oob_poi[eccpos[i]] = ecc_calc[i]. */
    method ScatterCodes(total: nat)
      requires oobPoi != eccCalc && oobPoi.Length == oobsize
      requires total <= |eccpos| && total <= eccCalc.Length && Positions(eccpos, oobsize)
      modifies oobPoi
      ensures oobPoi[..] == Scatter(old(oobPoi[..]), eccpos, eccCalc[..total], total)
    {
      ghost var was, codes := oobPoi[..], eccCalc[..total];
      var i := 0;
      while i < total
        invariant 0 <= i <= total
        invariant oobPoi[..] == Scatter(was, eccpos, codes, i)
      {
        oobPoi[eccpos[i]] := eccCalc[i];
        i := i + 1;
      }
    }

    /** The spare-area half of the SLC writers: code the spare bytes, append the code, send both. */
    method WriteSpare1()
      requires Shape() && |cells| == writesize + oobsize && nandType.Slc? && programming && col == writesize
      modifies oobPoi, eccCalc, `curEccMode, `locked, `encoding, `absorbed, `cells, `col
      ensures oobPoi[..] == SealSpare(engine, old(oobPoi[..]))
      ensures cells == old(cells[..writesize]) + oobPoi[..]
    {
      ghost var spare := oobPoi[..oobsize - 4];
      CodeSpare1();
      WriteBuf(oobPoi, oobsize - 4, 4);
      assert oobPoi[..oobsize - 4] + oobPoi[oobsize - 4..oobsize - 4 + 4] == oobPoi[..];
    }

    method CodeSpare1()
      requires Shape() && |cells| == writesize + oobsize && nandType.Slc? && programming && col == writesize
      modifies oobPoi, eccCalc, `curEccMode, `locked, `encoding, `absorbed, `cells, `col
      ensures oobPoi[..] == SealSpare(engine, old(oobPoi[..])) && col == writesize + oobsize - 4
      ensures cells == Splice(old(cells), writesize, old(oobPoi[..oobsize - 4]))
    {
      var seccStart, total := oobsize - 4, At(nandType, eccSteps);
      ghost var spare, codes := oobPoi[..seccStart], eccCalc[..];
      EnableHwecc(Write);
      WriteBuf(oobPoi, 0, seccStart);
      assert oobPoi[0..seccStart] == spare == absorbed;
      CalculateEcc(eccCalc, total);
      SpliceLaws(codes, total, CodeOf(engine, Slc, spare));
      AppendCode(total, CodeOf(engine, Slc, spare));
    }

    /** oob_poi[secc_start + i] = ecc_calc[total + i]. */
    method AppendCode(total: nat, ghost code: seq<byte>)
      requires oobPoi.Length == oobsize >= 8 && oobPoi != eccCalc
      requires total + 4 <= eccCalc.Length && eccCalc[total..total + 4] == code
      modifies oobPoi
      ensures oobPoi[..] == old(oobPoi[..oobsize - 4]) + code
    {
      var seccStart := oobsize - 4;
      ghost var spare := oobPoi[..seccStart];
      var i := 0;
      while i < 4
        invariant 0 <= i <= 4
        invariant oobPoi[..seccStart + i] == spare + code[..i]
      {
        assert eccCalc[total + i] == eccCalc[total..total + 4][i];
        oobPoi[seccStart + i] := eccCalc[total + i];
        assert oobPoi[..seccStart + i + 1] == oobPoi[..seccStart + i] + [code[i]];
        i := i + 1;
      }
      assert oobPoi[..] == oobPoi[..seccStart + 4];
    }

    /** s3c_nand_write_page_1bit. */
    method WritePage1(buf: array<byte>)
      requires Valid() && nandType.Slc? && programming && col == 0
      requires buf.Length == writesize && buf != eccCalc && buf != oobPoi
      modifies oobPoi, eccCalc, `curEccMode, `locked, `encoding, `absorbed, `cells, `col
      ensures Valid() && cells == buf[..] + oobPoi[..]
      ensures oobPoi[..] == SealSpare(engine, Scatter(old(oobPoi[..]), eccpos,
                                                      Codes(engine, Slc, buf[..], eccSteps), At(Slc, eccSteps)))
    {
      EncodeMain(buf, eccSteps);
      ScatterCodes(At(Slc, eccSteps));
      WriteSpare1();
    }

    /** s3c_nand_write_oob_1bit; `fail` is the NAND_STATUS_FAIL bit of the program operation. */
    method WriteOob1(fail: bool) returns (status: int)
      requires Valid() && nandType.Slc?
      modifies oobPoi, eccCalc, `curEccMode, `locked, `encoding, `absorbed, `cells, `col, `programming
      ensures Valid() && oobPoi[..] == SealSpare(engine, old(oobPoi[..]))
      ensures cells == old(cells[..writesize]) + oobPoi[..]
      ensures status == if fail then -5 else 0
    {
      SeekProgram(writesize);
      WriteSpare1();
      programming := false;
      status := if fail then -5 else 0;
    }

    /** s3c_nand_write_page_4bit and s3c_nand_write_page_8bit, which count their steps differently. */
    method WritePageMlc(buf: array<byte>)
      requires Valid() && !nandType.Slc? && programming && col == 0
      requires buf.Length == writesize && buf != eccCalc && buf != oobPoi
      modifies oobPoi, eccCalc, `curEccMode, `locked, `encoding, `absorbed, `cells, `col
      ensures Valid() && cells == buf[..] + oobPoi[..]
      ensures var n := chunks;
        oobPoi[..] == Scatter(old(oobPoi[..]), eccpos, Codes(engine, nandType, buf[..], n), At(nandType, n))
    {
      var steps := StepCount();
      EncodeMain(buf, steps);
      ScatterCodes(At(nandType, steps));
      WriteBuf(oobPoi, 0, oobsize);
      assert oobPoi[0..oobsize] == oobPoi[..];
      SpliceAll(old(cells), buf[..], oobPoi[..]);
    }

    /* ----- reading ----- */

    /** The spare-area half of the SLC readers. */
    method ReadSpare1()
      requires Valid() && nandType.Slc? && !programming && col == writesize
      modifies oobPoi, eccCalc, `curEccMode, `locked, `encoding, `absorbed, `col
      ensures Valid() && oobPoi[..] == OpenSpare(engine, cells[writesize..])
    {
      LoadSpare1();
      hide Splice, Correct1, Status1, OpenSpare;
      ghost var spare, n := oobPoi[..], oobsize - 4;
      OpenSpareInPlace(engine, spare);
      if !(oobPoi[2] == 0x85 && oobPoi[3] == 0x19) {
        assert oobPoi[0..n] == spare[0..n] && oobPoi[n..n + 4] == spare[n..n + 4];
        var _ := CorrectSlc(oobPoi, 0, oobPoi, oobsize - 4, n);
      }
    }

    /** Fetch the spare area with the engine listening to all but its own code. */
    method LoadSpare1()
      requires Shape() && |cells| == writesize + oobsize && nandType.Slc? && !programming && col == writesize
      modifies oobPoi, eccCalc, `curEccMode, `locked, `encoding, `absorbed, `col
      ensures oobPoi[..] == cells[writesize..] && absorbed == oobPoi[..oobsize - 4]
    {
      var seccStart := oobsize - 4;
      ghost var spare := cells[writesize..];
      EnableHwecc(Read);
      ReadBuf(oobPoi, 0, seccStart);
      assert cells[writesize..writesize + seccStart] == spare[..seccStart];
      CalculateEcc(eccCalc, At(nandType, eccSteps));
      ReadBuf(oobPoi, seccStart, 4);
      assert oobPoi[..] == spare[..seccStart] + spare[seccStart..];
      assert spare[..seccStart] + spare[seccStart..] == spare;
      assert oobPoi[..seccStart] == spare[..seccStart];
    }

    /** s3c_nand_read_oob_1bit. */
    method ReadOob1(sndcmd: bool) returns (r: bool)
      requires Valid() && nandType.Slc? && (!sndcmd ==> !programming && col == writesize)
      modifies oobPoi, eccCalc, `curEccMode, `locked, `encoding, `absorbed, `col, `programming
      ensures Valid() && oobPoi[..] == OpenSpare(engine, cells[writesize..]) && !r
    {
      r := sndcmd;
      if sndcmd {
        SeekRead(writesize);
        r := false;
      }
      ReadSpare1();
    }

    /** Fetch one chunk, have it checked against the code at `q` of the spare buffer, correct it in place. */
    method DecodeOne1(buf: array<byte>, p: nat, c: nat, i: nat, q: nat) returns (stat: int)
      requires Valid() && nandType.Slc? && c + 512 <= |cells| && p + 512 <= buf.Length
      requires i + 4 <= eccCalc.Length && q + 4 <= oobsize && buf != oobPoi && buf != eccCalc
      modifies buf, eccCalc, `curEccMode, `locked, `encoding, `absorbed, `col, `programming
      ensures var d := DecodeChunk(engine, Slc, cells[c..c + 512], oobPoi[q..q + 4]);
        buf[..] == Splice(old(buf[..]), p, d.0) && stat == d.1
    {
      SeekRead(c);
      EnableHwecc(Read);
      ghost var was, piece := buf[..], cells[c..c + 512];
      ReadBuf(buf, p, 512);
      SpliceLaws(was, p, piece);
      CalculateEcc(eccCalc, i);
      assert buf[p..p + 512] == piece == absorbed;
      stat := CorrectSlc(buf, p, oobPoi, q, 512);
      SpliceTwice(was, p, piece, DecodeChunk(engine, Slc, piece, oobPoi[q..q + 4]).0);
    }

    /** The same for MLC, where the stored code is fed to the engine after the chunk. */
    method DecodeOneMlc(buf: array<byte>, p: nat, c: nat, q: nat) returns (stat: int)
      requires Valid() && !nandType.Slc? && c + 512 <= |cells| && p + 512 <= buf.Length
      requires q + CodeLen(nandType) <= oobsize && buf != oobPoi
      modifies buf, `curEccMode, `locked, `encoding, `absorbed, `cells, `col, `programming
      ensures cells == old(cells)
      ensures var d := DecodeChunk(engine, nandType, cells[c..c + 512], oobPoi[q..q + CodeLen(nandType)]);
        buf[..] == Splice(old(buf[..]), p, d.0) && stat == d.1
    {
      SeekRead(c);
      EnableHwecc(Read);
      ghost var was, piece, code := buf[..], cells[c..c + 512], oobPoi[q..q + CodeLen(nandType)];
      ReadBuf(buf, p, 512);
      SpliceLaws(was, p, piece);
      WriteBuf(oobPoi, q, CodeLen(nandType));
      assert absorbed == piece + code && buf[p..p + 512] == piece;
      CalculateEcc(null, 0);
      if nandType.Mlc4? {
        stat := CorrectMlc4(buf, p);
      } else {
        stat := CorrectMlc8(buf, p);
      }
      SpliceTwice(was, p, piece, DecodeChunk(engine, nandType, piece, code).0);
    }

    /** s3c_nand_read_page_1bit. */
    method ReadPage1(buf: array<byte>)
      requires Valid() && nandType.Slc? && writesize > 0
      requires buf.Length == writesize && buf != eccCalc && buf != oobPoi
      requires eccpos[0] + At(Slc, eccSteps) <= oobsize
      modifies buf, oobPoi, eccCalc, `curEccMode, `locked, `encoding, `absorbed, `col, `programming, `failed
      ensures Valid() && oobPoi[..] == OpenSpare(engine, cells[writesize..])
      ensures var d := DecodeMain(engine, Slc, cells[..writesize], oobPoi[..], eccpos[0], eccSteps);
        buf[..] == d.0 && failed == old(failed) + d.1
    {
      hide DecodeChunk;
      SeekRead(writesize);
      ReadSpare1();
      DecodeSlc(buf);
    }

    method DecodeSlc(buf: array<byte>)
      requires Valid() && nandType.Slc?
      requires buf.Length == writesize && buf != eccCalc && buf != oobPoi
      requires |eccpos| > 0 && eccpos[0] + At(Slc, eccSteps) <= oobsize
      modifies buf, eccCalc, `curEccMode, `locked, `encoding, `absorbed, `col, `programming, `failed
      ensures buf[..] == DecodeMain(engine, Slc, cells[..writesize], oobPoi[..], eccpos[0], eccSteps).0
      ensures failed == old(failed) + DecodeMain(engine, Slc, cells[..writesize], oobPoi[..], eccpos[0], eccSteps).1
    {
      hide DecodeChunk;
      ghost var main, oob, was := cells[..writesize], oobPoi[..], failed;
      var i, p, c, left := 0, 0, 0, eccSteps;
      ghost var s: nat, got: seq<byte>, bad: nat := 0, [], 0;
      while left > 0
        invariant s <= eccSteps && left == eccSteps - s && p == c == s * 512 && i == 4 * s
        invariant (got, bad) == DecodeMain(engine, Slc, main, oob, eccpos[0], s)
        invariant buf[..s * 512] == got && failed == was + bad
      {
        got, bad := DecodeStep1(buf, p, c, i, eccpos[0] + (eccSteps - left) * 4, s, main, oob, got, bad);
        c := 512 * (eccSteps + 1 - left);
        left, i, p := left - 1, i + 4, p + 512;
        s := s + 1;
      }
      assert buf[..writesize] == buf[..];
    }

    /** One turn of the SLC loop, in terms of the chunks decoded so far. */
    method DecodeStep1(buf: array<byte>, p: nat, c: nat, i: nat, q: nat, ghost s: nat,
                       ghost main: seq<byte>, ghost oob: seq<byte>, ghost got: seq<byte>, ghost bad: nat)
      returns (ghost got': seq<byte>, ghost bad': nat)
      requires Valid() && nandType.Slc? && s < chunks && p == c == s * 512 && i == 4 * s
      requires main == cells[..writesize] && oob == oobPoi[..]
      requires buf.Length == writesize && buf != eccCalc && buf != oobPoi
      requires |eccpos| > 0 && q == eccpos[0] + 4 * s && eccpos[0] + 4 * chunks <= oobsize
      requires (got, bad) == DecodeMain(engine, Slc, main, oob, eccpos[0], s) && buf[..s * 512] == got
      modifies buf, eccCalc, `curEccMode, `locked, `encoding, `absorbed, `col, `programming, `failed
      ensures (got', bad') == DecodeMain(engine, Slc, main, oob, eccpos[0], s + 1)
      ensures buf[..(s + 1) * 512] == got' && failed == old(failed) + bad' - bad
    {
      hide DecodeChunk;
      ghost var page := buf[..];
      ChunkOf(cells, writesize, s);
      assert oobPoi[q..q + 4] == oob[q..q + 4];
      var stat := DecodeOne1(buf, p, c, i, q);
      assert page[..s * 512] == got;
      DecodeStep(engine, Slc, main, oob, eccpos[0], s, page, buf[..], stat, bad);
      got', bad' := buf[..(s + 1) * 512], bad;
      if stat == -1 {
        failed := failed + 1;
        bad' := bad + 1;
      }
    }

    /** s3c_nand_read_page_4bit and s3c_nand_read_page_8bit. The stored code of each chunk is taken
        from an offset computed with ecc.steps, while the 8-bit loop runs chunks times. */
    method ReadPageMlc(buf: array<byte>)
      requires Valid() && !nandType.Slc? && writesize > 0
      requires buf.Length == writesize && buf != eccCalc && buf != oobPoi
      requires eccpos[0] + At(nandType, eccSteps) <= oobsize
      requires eccpos[0] + At(nandType, eccSteps) >= At(nandType, chunks)
      modifies buf, oobPoi, `curEccMode, `locked, `encoding, `absorbed, `cells, `col, `programming, `failed
      ensures Valid() && cells == old(cells) && oobPoi[..] == cells[writesize..]
      ensures var n := chunks; var base := eccpos[0] + At(nandType, eccSteps) - At(nandType, n);
        var d := DecodeMain(engine, nandType, cells[..writesize], cells[writesize..], base, n);
        buf[..] == d.0 && failed == old(failed) + d.1
    {
      hide DecodeChunk;
      LoadSpareMlc();
      var steps := StepCount();
      DecodeMlc(buf, steps);
      assert cells == old(cells) && oobPoi[..] == cells[writesize..];
    }

    method DecodeMlc(buf: array<byte>, steps: nat)
      requires Valid() && !nandType.Slc? && steps == chunks
      requires buf.Length == writesize && buf != eccCalc && buf != oobPoi && |eccpos| > 0
      requires eccpos[0] + At(nandType, eccSteps) <= oobsize
      requires eccpos[0] + At(nandType, eccSteps) >= At(nandType, steps)
      modifies buf, `curEccMode, `locked, `encoding, `absorbed, `cells, `col, `programming, `failed
      ensures cells == old(cells)
      ensures buf[..] == DecodeMain(engine, nandType, cells[..writesize], oobPoi[..],
                                    eccpos[0] + At(nandType, eccSteps) - At(nandType, steps), steps).0
      ensures failed == old(failed) + DecodeMain(engine, nandType, cells[..writesize], oobPoi[..],
                                                 eccpos[0] + At(nandType, eccSteps) - At(nandType, steps), steps).1
    {
      hide DecodeChunk;
      ghost var base: nat := eccpos[0] + At(nandType, eccSteps) - At(nandType, steps);
      ghost var main, oob, was := cells[..writesize], oobPoi[..], failed;
      var p, c, left := 0, 0, steps;
      ghost var s: nat, got: seq<byte>, bad: nat := 0, [], 0;
      while left > 0
        invariant s <= steps && left == steps - s && p == c == s * 512
        invariant cells == old(cells) && base + At(nandType, s) <= |oob|
        invariant (got, bad) == DecodeMain(engine, nandType, main, oob, base, s)
        invariant buf[..s * 512] == got && failed == was + bad
      {
        AtStep(nandType, s, steps);
        got, bad := DecodeStepMlc(buf, p, c, eccpos[0] + At(nandType, eccSteps - left), base, s, main, oob, got, bad);
        c := 512 * (steps + 1 - left);
        left, p := left - 1, p + 512;
        s := s + 1;
      }
      assert buf[..writesize] == buf[..];
    }

    /** One turn of the MLC loop, in terms of the chunks decoded so far. */
    method DecodeStepMlc(buf: array<byte>, p: nat, c: nat, q: nat, ghost base: nat, ghost s: nat,
                         ghost main: seq<byte>, ghost oob: seq<byte>, ghost got: seq<byte>, ghost bad: nat)
      returns (ghost got': seq<byte>, ghost bad': nat)
      requires Valid() && !nandType.Slc? && s < chunks && p == c == s * 512
      requires main == cells[..writesize] && oob == oobPoi[..]
      requires buf.Length == writesize && buf != oobPoi
      requires q == base + At(nandType, s) && At(nandType, s + 1) == At(nandType, s) + CodeLen(nandType)
      requires base + At(nandType, s + 1) <= oobsize
      requires (got, bad) == DecodeMain(engine, nandType, main, oob, base, s) && buf[..s * 512] == got
      modifies buf, `curEccMode, `locked, `encoding, `absorbed, `cells, `col, `programming, `failed
      ensures cells == old(cells)
      ensures (got', bad') == DecodeMain(engine, nandType, main, oob, base, s + 1)
      ensures buf[..(s + 1) * 512] == got' && failed == old(failed) + bad' - bad
    {
      hide DecodeChunk;
      ghost var page := buf[..];
      ChunkOf(cells, writesize, s);
      assert oobPoi[q..q + CodeLen(nandType)] == oob[q..q + CodeLen(nandType)];
      var stat := DecodeOneMlc(buf, p, c, q);
      assert page[..s * 512] == got;
      DecodeStep(engine, nandType, main, oob, base, s, page, buf[..], stat, bad);
      got', bad' := buf[..(s + 1) * 512], bad;
      if stat == -1 {
        failed := failed + 1;
        bad' := bad + 1;
      }
    }

    /** Step 1 of the MLC readers: the whole spare area. */
    method LoadSpareMlc()
      requires Shape() && |cells| == writesize + oobsize
      modifies oobPoi, `absorbed, `col, `programming
      ensures oobPoi[..] == cells[writesize..]
    {
      SeekRead(writesize);
      ReadBuf(oobPoi, 0, oobsize);
    }
  }

  lemma AtStep(t: NandType, s: nat, n: nat)
    requires s < n
    ensures At(t, s + 1) == At(t, s) + CodeLen(t) <= At(t, n)
  {}
}
