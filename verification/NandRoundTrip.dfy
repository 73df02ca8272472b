/** Reading back what was written, through a medium that flips bits. */
module NandRoundTrip {
  import opened Bytes
  import opened NandCodes
  import opened NandEngine
  import opened NandDriver

  /* ---------- codes in the spare area ---------- */

  lemma ConcatSlices(x: seq<byte>, y: seq<byte>)
    ensures (x + y)[|x|..|x| + |y|] == y
    ensures forall a, b {:trigger x[a..b]} :: 0 <= a <= b <= |x| ==> (x + y)[a..b] == x[a..b]
  {
    assert (x + y)[|x|..] == y;
  }

  lemma {:induction false} CodesAt(e: Engine, t: NandType, page: seq<byte>, n: nat, s: nat)
    requires s < n && n * 512 <= |page|
    ensures At(t, s + 1) == At(t, s) + CodeLen(t) <= At(t, n)
    ensures Codes(e, t, page, n)[At(t, s)..At(t, s + 1)] == CodeOf(e, t, Chunk(page, s))
  {
    hide CodeOf, Chunk;
    AtStep(t, s, n);
    var before := Codes(e, t, page, n - 1);
    ConcatSlices(before, CodeOf(e, t, Chunk(page, n - 1)));
    if s < n - 1 {
      CodesAt(e, t, page, n - 1, s);
      assert before[At(t, s)..At(t, s + 1)] == CodeOf(e, t, Chunk(page, s));
    }
  }

  /** Every position the layout names is filled from the code buffer. */
  lemma {:induction false} ScatterGet(oob: seq<byte>, eccpos: seq<nat>, codes: seq<byte>, n: nat, i: nat)
    requires i < n <= |codes| && n <= |eccpos| && Positions(eccpos, |oob|)
    requires forall k :: i < k < n ==> eccpos[i] != eccpos[k]
    ensures Scatter(oob, eccpos, codes, n)[eccpos[i]] == codes[i]
  {
    if i < n - 1 { ScatterGet(oob, eccpos, codes, n - 1, i); }
  }

  /** Every other byte is kept. */
  lemma {:induction false} ScatterKeeps(oob: seq<byte>, eccpos: seq<nat>, codes: seq<byte>, n: nat, k: nat)
    requires n <= |codes| && n <= |eccpos| && Positions(eccpos, |oob|)
    requires k < |oob| && k !in eccpos[..n]
    ensures Scatter(oob, eccpos, codes, n)[k] == oob[k]
  {
    if n > 0 {
      assert eccpos[n - 1] == eccpos[..n][n - 1];
      assert forall i :: 0 <= i < n - 1 ==> eccpos[..n - 1][i] == eccpos[..n][i];
      ScatterKeeps(oob, eccpos, codes, n - 1, k);
    }
  }

  /** The positions of the first `n` codes are consecutive and end at or before `limit`. */
  ghost predicate Layout(t: NandType, eccpos: seq<nat>, n: nat, limit: nat) {
    && 0 < At(t, n) <= |eccpos| && eccpos[0] + At(t, n) <= limit
    && forall i :: 0 <= i < At(t, n) ==> eccpos[i] == eccpos[0] + i
  }

  /** The spare buffer once a page writer has scattered its codes. */
  function Filled(e: Engine, t: NandType, page: seq<byte>, oob: seq<byte>, eccpos: seq<nat>, n: nat): (r: seq<byte>)
    requires n * 512 <= |page| && At(t, n) <= |eccpos| && Positions(eccpos, |oob|)
    ensures |r| == |oob|
  {
    Scatter(oob, eccpos, Codes(e, t, page, n), At(t, n))
  }

  /** The code found by offset for chunk `s` is the one computed for chunk `s`. */
  ghost predicate Holds(e: Engine, t: NandType, page: seq<byte>, spare: seq<byte>, base: nat, s: nat) {
    (s + 1) * 512 <= |page| && base + At(t, s) + CodeLen(t) <= |spare| &&
    spare[base + At(t, s)..base + At(t, s) + CodeLen(t)] == CodeOf(e, t, Chunk(page, s))
  }

  lemma FilledSlice(e: Engine, t: NandType, page: seq<byte>, oob: seq<byte>, eccpos: seq<nat>, n: nat)
    requires n * 512 <= |page| && Layout(t, eccpos, n, |oob|) && Positions(eccpos, |oob|)
    ensures Filled(e, t, page, oob, eccpos, n)[eccpos[0]..eccpos[0] + At(t, n)] == Codes(e, t, page, n)
  {
    hide Scatter, CodeOf;
    var codes, p := Codes(e, t, page, n), eccpos[0];
    var slice := Filled(e, t, page, oob, eccpos, n)[p..p + At(t, n)];
    forall i | 0 <= i < At(t, n) ensures slice[i] == codes[i] {
      ScatterGet(oob, eccpos, codes, At(t, n), i);
      assert eccpos[i] == p + i;
    }
  }

  /** A contiguous layout feeds every chunk its own code. */
  lemma CodeFedBack(e: Engine, t: NandType, page: seq<byte>, oob: seq<byte>, eccpos: seq<nat>, n: nat, s: nat)
    requires s < n && n * 512 <= |page| && Layout(t, eccpos, n, |oob|) && Positions(eccpos, |oob|)
    ensures Holds(e, t, page, Filled(e, t, page, oob, eccpos, n), eccpos[0], s)
  {
    hide CodeOf, Codes, Filled, Positions;
    CodesAt(e, t, page, n, s);
    FilledSlice(e, t, page, oob, eccpos, n);
    SliceOfSlice(Filled(e, t, page, oob, eccpos, n), eccpos[0], At(t, n), At(t, s), At(t, s) + CodeLen(t));
  }

  /** With distinct positions, byte `m` of the code of chunk `s` is written at position 4s + m, 8s + m or 13s + m of the
      layout, wherever that lies. */
  lemma CodePlaced(e: Engine, t: NandType, page: seq<byte>, oob: seq<byte>, eccpos: seq<nat>, n: nat, s: nat, m: nat)
    requires n * 512 <= |page| && At(t, n) <= |eccpos| && Positions(eccpos, |oob|)
    requires forall i, j :: 0 <= i < j < |eccpos| ==> eccpos[i] != eccpos[j]
    requires s < n && m < CodeLen(t)
    ensures var i := (if t.Slc? then 4 * s else if t.Mlc4? then 8 * s else 13 * s) + m;
      && 0 <= i < At(t, n)
      && Filled(e, t, page, oob, eccpos, n)[eccpos[i]] == CodeOf(e, t, page[512 * s..512 * s + 512])[m]
  {
    hide CodeOf, Codes, Scatter, Positions;
    CodesAt(e, t, page, n, s);
    var codes, i := Codes(e, t, page, n), At(t, s) + m;
    SliceAt(codes, At(t, s), At(t, s + 1), m);
    hide At;
    ScatterGet(oob, eccpos, codes, At(t, n), i);
  }

  lemma SliceAt(codes: seq<byte>, a: nat, b: nat, m: nat)
    requires a + m < b <= |codes|
    ensures codes[a..b][m] == codes[a + m]
  {
  }

  /** The spare area goes out as it is but for its last four bytes, the parity word of the others. */
  lemma SealedSpare(e: Engine, oob: seq<byte>)
    requires |oob| >= 8
    ensures var r, w := SealSpare(e, oob), e.parity1(oob[..|oob| - 4]);
      && r[..|oob| - 4] == oob[..|oob| - 4]
      && r[|oob| - 4..] == [w % 0x100, w / 0x100 % 0x100, w / 0x1_0000 % 0x100, w / 0x100_0000 % 0x100]
  {
    CodeBytes(e, oob[..|oob| - 4]);
  }

  /** Spare bytes outside the layout are left as the caller had them. */
  lemma SpareBytesKept(e: Engine, t: NandType, page: seq<byte>, oob: seq<byte>, eccpos: seq<nat>, n: nat, k: nat)
    requires n * 512 <= |page| && At(t, n) <= |eccpos| && Positions(eccpos, |oob|)
    requires k < |oob| && k !in eccpos[..At(t, n)]
    ensures Filled(e, t, page, oob, eccpos, n)[k] == oob[k]
  {
    hide Codes, Scatter;
    ScatterKeeps(oob, eccpos, Codes(e, t, page, n), At(t, n), k);
  }

  /* ---------- chunk by chunk ---------- */

  /** What reading chunk `s` gives. */
  function Decoded(e: Engine, t: NandType, main: seq<byte>, oob: seq<byte>, base: nat, s: nat): (seq<byte>, int) {
    if (s + 1) * 512 <= |main| && base + At(t, s) + CodeLen(t) <= |oob|
    then DecodeChunk(e, t, Chunk(main, s), oob[base + At(t, s)..base + At(t, s) + CodeLen(t)])
    else ([], 0)
  }

  lemma DecodeMainStep(e: Engine, t: NandType, main: seq<byte>, oob: seq<byte>, base: nat, n: nat)
    requires 0 < n && n * 512 <= |main| && base + At(t, n) <= |oob|
    ensures At(t, n - 1) <= At(t, n)
    ensures var before := DecodeMain(e, t, main, oob, base, n - 1); var here := Decoded(e, t, main, oob, base, n - 1);
      && |here.0| == 512
      && DecodeMain(e, t, main, oob, base, n) == (before.0 + here.0, before.1 + if here.1 == -1 then 1 else 0)
  {
    hide DecodeChunk;
    AtStep(t, n - 1, n);
  }

  /** Each chunk of the result is that chunk decoded, whatever happened to the others. */
  lemma {:induction false} DecodeMainAt(e: Engine, t: NandType, main: seq<byte>, oob: seq<byte>, base: nat,
                                        n: nat, s: nat)
    requires s < n && n * 512 <= |main| && base + At(t, n) <= |oob|
    ensures Chunk(DecodeMain(e, t, main, oob, base, n).0, s) == Decoded(e, t, main, oob, base, s).0
  {
    hide Decoded, DecodeMain;
    DecodeMainStep(e, t, main, oob, base, n);
    var before := DecodeMain(e, t, main, oob, base, n - 1).0;
    var here := Decoded(e, t, main, oob, base, n - 1).0;
    if s == n - 1 {
      assert (before + here)[|before|..] == here;
    } else {
      DecodeMainAt(e, t, main, oob, base, n - 1, s);
      assert (before + here)[s * 512..(s + 1) * 512] == before[s * 512..(s + 1) * 512];
    }
  }

  /** The chunks reported uncorrectable. */
  function Failures(e: Engine, t: NandType, main: seq<byte>, oob: seq<byte>, base: nat, n: nat): set<nat> {
    set s: nat | s < n && Decoded(e, t, main, oob, base, s).1 == -1
  }

  lemma FailuresStep(e: Engine, t: NandType, main: seq<byte>, oob: seq<byte>, base: nat, n: nat)
    requires 0 < n
    ensures Failures(e, t, main, oob, base, n) == Failures(e, t, main, oob, base, n - 1) +
              if Decoded(e, t, main, oob, base, n - 1).1 == -1 then {n - 1} else {}
    ensures n - 1 !in Failures(e, t, main, oob, base, n - 1)
  {
    hide Decoded;
  }

  /** ecc_stats.failed grows by the number of chunks reported uncorrectable. */
  lemma {:induction false} FailuresCounted(e: Engine, t: NandType, main: seq<byte>, oob: seq<byte>, base: nat, n: nat)
    requires n * 512 <= |main| && base + At(t, n) <= |oob|
    ensures DecodeMain(e, t, main, oob, base, n).1 == |Failures(e, t, main, oob, base, n)|
  {
    hide Decoded, DecodeMain, At;
    if n > 0 {
      hide Failures;
      DecodeMainStep(e, t, main, oob, base, n);
      FailuresCounted(e, t, main, oob, base, n - 1);
      FailuresStep(e, t, main, oob, base, n);
    } else {
      NoChunks(e, t, main, oob, base);
    }
  }

  lemma NoFailures(e: Engine, t: NandType, main: seq<byte>, oob: seq<byte>, base: nat, n: nat)
    requires n * 512 <= |main| && base + At(t, n) <= |oob|
    requires forall s: nat :: s < n ==> Decoded(e, t, main, oob, base, s).1 != -1
    ensures DecodeMain(e, t, main, oob, base, n).1 == 0
  {
    hide DecodeMain, Decoded;
    FailuresCounted(e, t, main, oob, base, n);
    assert Failures(e, t, main, oob, base, n) == {};
  }

  lemma NoChunks(e: Engine, t: NandType, main: seq<byte>, oob: seq<byte>, base: nat)
    requires base <= |oob|
    ensures At(t, 0) == 0 && DecodeMain(e, t, main, oob, base, 0) == ([], 0)
  {}

  /** Two pages whose chunks agree are the same page. */
  lemma SameChunks(a: seq<byte>, b: seq<byte>, n: nat)
    requires |a| == |b| == n * 512
    requires forall s: nat :: s < n ==> Chunk(a, s) == Chunk(b, s)
    ensures a == b
  {
    forall i | 0 <= i < |a| ensures a[i] == b[i] {
      var s := i / 512;
      assert Chunk(a, s)[i - s * 512] == Chunk(b, s)[i - s * 512];
    }
  }

  /** Chunk `s`, read as part of `main` and checked with its own code, is chunk `s` of the page again. */
  ghost predicate Restored(e: Engine, t: NandType, page: seq<byte>, main: seq<byte>, s: nat) {
    (s + 1) * 512 <= |page| && |page| == |main| &&
    DecodeChunk(e, t, Chunk(main, s), CodeOf(e, t, Chunk(page, s))).0 == Chunk(page, s) &&
    DecodeChunk(e, t, Chunk(main, s), CodeOf(e, t, Chunk(page, s))).1 != -1
  }

  lemma ChunkBack(e: Engine, t: NandType, page: seq<byte>, main: seq<byte>, oob: seq<byte>, base: nat, s: nat)
    requires Holds(e, t, page, oob, base, s) && Restored(e, t, page, main, s)
    ensures Decoded(e, t, main, oob, base, s).0 == Chunk(page, s) && Decoded(e, t, main, oob, base, s).1 != -1
  {
    hide DecodeChunk, CodeOf;
  }

  /** If every chunk comes back, the page does, and no failure is counted. */
  lemma MainRestored(e: Engine, t: NandType, page: seq<byte>, main: seq<byte>, oob: seq<byte>, base: nat, n: nat)
    requires |page| == |main| == n * 512 && base + At(t, n) <= |oob|
    requires forall s: nat :: s < n ==> Holds(e, t, page, oob, base, s) && Restored(e, t, page, main, s)
    ensures DecodeMain(e, t, main, oob, base, n) == (page, 0)
  {
    hide DecodeChunk, CodeOf, Holds, Restored, Decoded;
    var got := DecodeMain(e, t, main, oob, base, n);
    forall s: nat | s < n ensures Chunk(got.0, s) == Chunk(page, s) && Decoded(e, t, main, oob, base, s).1 != -1 {
      ChunkBack(e, t, page, main, oob, base, s);
      DecodeMainAt(e, t, main, oob, base, n, s);
    }
    SameChunks(got.0, page, n);
    NoFailures(e, t, main, oob, base, n);
  }

  /* ---------- SLC ---------- */

  /** The spare area as written, and its two-level repair when read. */
  lemma SpareRoundTrip(e: Engine, oob: seq<byte>, read: seq<byte>)
    requires |oob| == |read| >= 8
    requires Corrects(e, Slc, |oob| - 4, 1) && Disturbed(oob[..|oob| - 4], read[..|oob| - 4], 1)
    requires read[|oob| - 4..] == SealSpare(e, oob)[|oob| - 4..]
    ensures OpenSpare(e, read) == if Jffs2Marker(read) then read else SealSpare(e, oob)
  {
    var n := |oob| - 4;
    Restore1(e, oob[..n], read[..n]);
    assert SealSpare(e, oob)[n..] == CodeOf(e, Slc, oob[..n]);
  }

  /** What the medium may do to a written page and spare area: at most one flip per chunk and one
      in the protected spare bytes, none in the spare area's own code. */
  ghost predicate OneFlipEach(page: seq<byte>, spare: seq<byte>, main: seq<byte>, read: seq<byte>, n: nat)
    requires |page| == |main| == n * 512 && |spare| == |read| >= 8
  {
    && (forall s: nat :: s < n ==> Disturbed(Chunk(page, s), Chunk(main, s), 1))
    && Disturbed(spare[..|spare| - 4], read[..|spare| - 4], 1)
    && read[|spare| - 4..] == spare[|spare| - 4..]
  }

  /** s3c_nand_read_page_1bit undoes s3c_nand_write_page_1bit, provided the spare area was repaired
      first or the medium left the stored main codes alone. */
  lemma SlcRoundTrip(e: Engine, page: seq<byte>, oob: seq<byte>, eccpos: seq<nat>, n: nat,
                     main: seq<byte>, read: seq<byte>)
    requires |page| == |main| == n * 512 && |oob| == |read| >= 8
    requires Layout(Slc, eccpos, n, |oob| - 4) && Positions(eccpos, |oob|)
    requires Corrects(e, Slc, 512, 1) && Corrects(e, Slc, |oob| - 4, 1)
    requires OneFlipEach(page, SealSpare(e, Filled(e, Slc, page, oob, eccpos, n)), main, read, n)
    requires Jffs2Marker(read) ==> MainCodesIntact(eccpos[0], n, Filled(e, Slc, page, oob, eccpos, n), read)
    ensures DecodeMain(e, Slc, main, OpenSpare(e, read), eccpos[0], n) == (page, 0)
    ensures !Jffs2Marker(read) ==> OpenSpare(e, read) == SealSpare(e, Filled(e, Slc, page, oob, eccpos, n))
  {
    hide DecodeMain, Filled, SealSpare, OpenSpare, Disturbed, Jffs2Marker, Corrects, Positions;
    var filled := Filled(e, Slc, page, oob, eccpos, n);
    SpareBack(e, page, filled, main, read, n);
    SealedSlice(e, filled, eccpos[0], n);
    forall s: nat | s < n
      ensures Holds(e, Slc, page, OpenSpare(e, read), eccpos[0], s) && Restored(e, Slc, page, main, s)
    {
      CodeFedBack(e, Slc, page, oob, eccpos, n, s);
      SameCode(e, page, filled, OpenSpare(e, read), eccpos[0], n, s);
      ChunkRestored1(e, page, main, s);
    }
    MainRestored(e, Slc, page, main, OpenSpare(e, read), eccpos[0], n);
  }

  ghost predicate MainCodesIntact(p: nat, n: nat, spare: seq<byte>, read: seq<byte>) {
    p + 4 * n <= |spare| == |read| && read[p..p + 4 * n] == spare[p..p + 4 * n]
  }

  lemma SealedSlice(e: Engine, filled: seq<byte>, p: nat, n: nat)
    requires p + 4 * n + 4 <= |filled| && |filled| >= 8
    ensures MainCodesIntact(p, n, filled, SealSpare(e, filled))
  {
    hide CodeOf;
  }

  lemma SpareBack(e: Engine, page: seq<byte>, filled: seq<byte>, main: seq<byte>, read: seq<byte>, n: nat)
    requires |page| == |main| == n * 512 && |filled| == |read| >= 8 && Corrects(e, Slc, |filled| - 4, 1)
    requires OneFlipEach(page, SealSpare(e, filled), main, read, n)
    ensures OpenSpare(e, read) == if Jffs2Marker(read) then read else SealSpare(e, filled)
  {
    hide CodeOf, Corrects, Disturbed, OpenSpare;
    assert SealSpare(e, filled)[..|filled| - 4] == filled[..|filled| - 4];
    SpareRoundTrip(e, filled, read);
  }

  lemma ChunkRestored1(e: Engine, page: seq<byte>, main: seq<byte>, s: nat)
    requires |page| == |main| && (s + 1) * 512 <= |page|
    requires Corrects(e, Slc, 512, 1) && Disturbed(Chunk(page, s), Chunk(main, s), 1)
    ensures Restored(e, Slc, page, main, s)
  {
    hide DecodeChunk, CodeOf, Corrects;
    Restore1(e, Chunk(page, s), Chunk(main, s));
  }

  lemma SameCode(e: Engine, page: seq<byte>, a: seq<byte>, b: seq<byte>, p: nat, n: nat, s: nat)
    requires s < n && Holds(e, Slc, page, a, p, s) && MainCodesIntact(p, n, a, b)
    ensures Holds(e, Slc, page, b, p, s)
  {
    hide CodeOf;
    SliceOfSlice(a, p, 4 * n, 4 * s, 4 * s + 4);
    SliceOfSlice(b, p, 4 * n, 4 * s, 4 * s + 4);
  }

  /* ---------- MLC ---------- */

  /** 8-bit: chunk `s` comes back as written if the medium stayed within what the engine reports,
      whatever it did to the other chunks. */
  lemma Mlc8ChunkRestored(e: Engine, page: seq<byte>, oob: seq<byte>, eccpos: seq<nat>, n: nat, main: seq<byte>,
                          c: nat, s: nat)
    requires |page| == |main| == n * 512 && s < n && Corrects(e, Mlc8, 512, c)
    requires Layout(Mlc8, eccpos, n, |oob|) && Positions(eccpos, |oob|)
    requires Disturbed(Chunk(page, s), Chunk(main, s), c)
    ensures var spare := Filled(e, Mlc8, page, oob, eccpos, n);
      && Chunk(DecodeMain(e, Mlc8, main, spare, eccpos[0], n).0, s) == Chunk(page, s)
      && Decoded(e, Mlc8, main, spare, eccpos[0], s).1 != -1
  {
    hide DecodeMain, CodeOf, Filled, Decoded, Corrects, Positions;
    var spare := Filled(e, Mlc8, page, oob, eccpos, n);
    CodeFedBack(e, Mlc8, page, oob, eccpos, n, s);
    ChunkRestored8(e, page, main, c, s);
    ChunkBack(e, Mlc8, page, main, spare, eccpos[0], s);
    DecodeMainAt(e, Mlc8, main, spare, eccpos[0], n, s);
  }

  lemma ChunkRestored8(e: Engine, page: seq<byte>, main: seq<byte>, c: nat, s: nat)
    requires |page| == |main| && (s + 1) * 512 <= |page|
    requires Corrects(e, Mlc8, 512, c) && Disturbed(Chunk(page, s), Chunk(main, s), c)
    ensures Restored(e, Mlc8, page, main, s)
  {
    hide DecodeChunk, CodeOf, Corrects;
    Restore8(e, Chunk(page, s), Chunk(main, s), c);
  }

  /** s3c_nand_read_page_8bit undoes s3c_nand_write_page_8bit. */
  lemma Mlc8RoundTrip(e: Engine, page: seq<byte>, oob: seq<byte>, eccpos: seq<nat>, n: nat, main: seq<byte>, c: nat)
    requires |page| == |main| == n * 512 && Corrects(e, Mlc8, 512, c)
    requires Layout(Mlc8, eccpos, n, |oob|) && Positions(eccpos, |oob|)
    requires forall s: nat :: s < n ==> Disturbed(Chunk(page, s), Chunk(main, s), c)
    ensures DecodeMain(e, Mlc8, main, Filled(e, Mlc8, page, oob, eccpos, n), eccpos[0], n) == (page, 0)
  {
    hide DecodeMain, Filled, Corrects, Positions, Holds, Restored;
    var spare := Filled(e, Mlc8, page, oob, eccpos, n);
    forall s: nat | s < n ensures Holds(e, Mlc8, page, spare, eccpos[0], s) && Restored(e, Mlc8, page, main, s) {
      CodeFedBack(e, Mlc8, page, oob, eccpos, n, s);
      ChunkRestored8(e, page, main, c, s);
    }
    MainRestored(e, Mlc8, page, main, spare, eccpos[0], n);
  }

  /** s3c_nand_read_page_4bit undoes s3c_nand_write_page_4bit exactly when the erased-page guess
      fires on no damaged chunk; either way no failure is counted, so what is lost is lost silently. */
  lemma Mlc4RoundTrip(e: Engine, page: seq<byte>, oob: seq<byte>, eccpos: seq<nat>, n: nat, main: seq<byte>, c: nat)
    requires |page| == |main| == n * 512 && Corrects(e, Mlc4, 512, c)
    requires Layout(Mlc4, eccpos, n, |oob|) && Positions(eccpos, |oob|)
    requires forall s: nat :: s < n ==> Disturbed(Chunk(page, s), Chunk(main, s), c)
    ensures DecodeMain(e, Mlc4, main, Filled(e, Mlc4, page, oob, eccpos, n), eccpos[0], n).0 == page
      <==> forall s: nat :: s < n ==> Chunk(main, s) == Chunk(page, s) || !LooksErased(Chunk(main, s))
    ensures DecodeMain(e, Mlc4, main, Filled(e, Mlc4, page, oob, eccpos, n), eccpos[0], n).1 == 0
  {
    hide DecodeMain, Filled, Corrects, Positions, LooksErased;
    var spare := Filled(e, Mlc4, page, oob, eccpos, n);
    var got := DecodeMain(e, Mlc4, main, spare, eccpos[0], n).0;
    forall s: nat | s < n
      ensures Chunk(got, s) == Chunk(page, s) <==> (Chunk(main, s) == Chunk(page, s) || !LooksErased(Chunk(main, s)))
      ensures Decoded(e, Mlc4, main, spare, eccpos[0], s).1 != -1
    {
      CodeFedBack(e, Mlc4, page, oob, eccpos, n, s);
      DecodeMainAt(e, Mlc4, main, Filled(e, Mlc4, page, oob, eccpos, n), eccpos[0], n, s);
      ChunkFate4(e, page, main, Filled(e, Mlc4, page, oob, eccpos, n), eccpos[0], c, s);
    }
    if forall s: nat :: s < n ==> Chunk(main, s) == Chunk(page, s) || !LooksErased(Chunk(main, s)) {
      SameChunks(got, page, n);
    }
    NoFailures(e, Mlc4, main, spare, eccpos[0], n);
  }

  lemma ChunkFate4(e: Engine, page: seq<byte>, main: seq<byte>, oob: seq<byte>, base: nat, c: nat, s: nat)
    requires Holds(e, Mlc4, page, oob, base, s) && |main| == |page|
    requires Corrects(e, Mlc4, 512, c) && Disturbed(Chunk(page, s), Chunk(main, s), c)
    ensures Decoded(e, Mlc4, main, oob, base, s).0 == Chunk(page, s)
      <==> (Chunk(main, s) == Chunk(page, s) || !LooksErased(Chunk(main, s)))
    ensures Decoded(e, Mlc4, main, oob, base, s).1 != -1
  {
    hide DecodeChunk, CodeOf, Corrects;
    Restore4(e, Chunk(page, s), Chunk(main, s), c);
  }

  /* ---------- the driver, end to end ---------- */

  /** What the writer puts in the spare area of an SLC page. */
  function SpareOf(e: Engine, page: seq<byte>, oob: seq<byte>, eccpos: seq<nat>, n: nat): seq<byte>
    requires |oob| >= 8 && n * 512 <= |page| && At(Slc, n) <= |eccpos| && Positions(eccpos, |oob|)
  {
    SealSpare(e, Filled(e, Slc, page, oob, eccpos, n))
  }

  /** A page is written, the medium ages it to `main` and `spare`, and it is read into another buffer: the
      buffer receives the page, no failure is counted, and the spare area is back too. */
  method StoreAndLoad1(nand: Nand, buf: array<byte>, back: array<byte>, main: seq<byte>, spare: seq<byte>)
    requires nand.Valid() && nand.nandType.Slc?
    requires buf.Length == back.Length == nand.writesize == |main| && nand.oobsize == |spare|
    requires {buf, back} !! {nand.oobPoi, nand.eccCalc} && buf != back
    requires Layout(Slc, nand.eccpos, nand.chunks, nand.oobsize - 4)
    requires Corrects(nand.engine, Slc, 512, 1) && Corrects(nand.engine, Slc, nand.oobsize - 4, 1)
    requires OneFlipEach(buf[..], SpareOf(nand.engine, buf[..], nand.oobPoi[..], nand.eccpos, nand.chunks),
                         main, spare, nand.chunks)
    requires !Jffs2Marker(spare)
    modifies nand, nand.oobPoi, nand.eccCalc, back
    ensures back[..] == buf[..] == old(buf[..]) && nand.failed == old(nand.failed)
    ensures nand.oobPoi[..] == SpareOf(nand.engine, buf[..], old(nand.oobPoi[..]), nand.eccpos, nand.chunks)
  {
    hide DecodeMain, Codes, Scatter, SealSpare, OpenSpare, Corrects, OneFlipEach, Jffs2Marker, Positions;
    ghost var oob := nand.oobPoi[..];
    LayoutNonempty(Slc, nand.eccpos, nand.chunks, nand.oobsize - 4);
    nand.SeekProgram(0);
    nand.WritePage1(buf);
    nand.cells := main + spare;
    assert nand.cells[..nand.writesize] == main && nand.cells[nand.writesize..] == spare;
    SlcRoundTrip(nand.engine, buf[..], oob, nand.eccpos, nand.chunks, main, spare);
    nand.ReadPage1(back);
  }

  /** The same for the 8-bit pages, each chunk damaged in up to as many bits as the engine can report. */
  method StoreAndLoad8(nand: Nand, buf: array<byte>, back: array<byte>, main: seq<byte>, c: nat)
    requires nand.Valid() && nand.nandType.Mlc8?
    requires buf.Length == back.Length == nand.writesize == |main| && nand.eccSteps == nand.chunks
    requires {buf, back} !! {nand.oobPoi, nand.eccCalc} && buf != back
    requires Layout(Mlc8, nand.eccpos, nand.chunks, nand.oobsize) && Corrects(nand.engine, Mlc8, 512, c)
    requires forall s: nat :: s < nand.chunks ==> Disturbed(Chunk(buf[..], s), Chunk(main, s), c)
    modifies nand, nand.oobPoi, nand.eccCalc, back
    ensures back[..] == buf[..] == old(buf[..]) && nand.failed == old(nand.failed)
    ensures nand.oobPoi[..] == Filled(nand.engine, Mlc8, buf[..], old(nand.oobPoi[..]), nand.eccpos, nand.chunks)
  {
    hide DecodeMain, Codes, Scatter, Corrects, Disturbed, Positions;
    ghost var oob := nand.oobPoi[..];
    LayoutNonempty(Mlc8, nand.eccpos, nand.chunks, nand.oobsize);
    nand.SeekProgram(0);
    nand.WritePageMlc(buf);
    Mlc8RoundTrip(nand.engine, buf[..], oob, nand.eccpos, nand.chunks, main, c);
    ghost var spare := nand.oobPoi[..];
    nand.cells := main + nand.oobPoi[..];
    assert nand.cells[..nand.writesize] == main && nand.cells[nand.writesize..] == spare;
    nand.ReadPageMlc(back);
  }

  /** And for the 4-bit pages, exactly when the erased-page guess fires on no damaged chunk. */
  method StoreAndLoad4(nand: Nand, buf: array<byte>, back: array<byte>, main: seq<byte>, c: nat)
    requires nand.Valid() && nand.nandType.Mlc4?
    requires buf.Length == back.Length == nand.writesize == |main|
    requires {buf, back} !! {nand.oobPoi, nand.eccCalc} && buf != back
    requires Layout(Mlc4, nand.eccpos, nand.chunks, nand.oobsize) && Corrects(nand.engine, Mlc4, 512, c)
    requires forall s: nat :: s < nand.chunks ==> Disturbed(Chunk(buf[..], s), Chunk(main, s), c)
    modifies nand, nand.oobPoi, nand.eccCalc, back
    ensures buf[..] == old(buf[..]) && nand.failed == old(nand.failed)
    ensures back[..] == buf[..] <==>
            forall s: nat :: s < nand.chunks ==> Chunk(main, s) == Chunk(buf[..], s) || !LooksErased(Chunk(main, s))
  {
    hide DecodeMain, Codes, Scatter, Corrects, Disturbed, Positions, LooksErased;
    ghost var oob := nand.oobPoi[..];
    LayoutNonempty(Mlc4, nand.eccpos, nand.chunks, nand.oobsize);
    nand.SeekProgram(0);
    nand.WritePageMlc(buf);
    Mlc4RoundTrip(nand.engine, buf[..], oob, nand.eccpos, nand.chunks, main, c);
    ghost var spare := nand.oobPoi[..];
    nand.cells := main + nand.oobPoi[..];
    assert nand.cells[..nand.writesize] == main && nand.cells[nand.writesize..] == spare;
    nand.ReadPageMlc(back);
  }

  lemma LayoutNonempty(t: NandType, eccpos: seq<nat>, n: nat, limit: nat)
    requires Layout(t, eccpos, n, limit)
    ensures n > 0
  {
  }
}
