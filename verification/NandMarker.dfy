/** What the JFFS2 marker costs: with the spare area's own correction switched off, the stored main codes
    are as the medium left them. */
module NandMarker {
  import opened Bytes
  import opened NandCodes
  import opened NandEngine
  import opened NandDriver
  import opened NandRoundTrip
  import opened NandLocator

  /* ---------- a wrong code on undamaged data ---------- */

  lemma RejoinBytes(c: seq<byte>, w: word)
    requires |c| == 4 && Rejoin(Half(c[0], c[1]), Half(c[2], c[3])) == w
    ensures WordBytes(w) == c
  {
    HalfSplit(c[0], c[1]);
    HalfSplit(c[2], c[3]);
    FourFields(w, c[0], c[1], c[2], c[3]);
  }

  lemma FlipChanges(a: byte, b: nat)
    requires b < 8
    ensures Flipped(a, BitMask(b)) != a
  {
    XorAssoc(a, a, BitMask(b));
    XorSelf(a);
  }

  /** Undamaged data checked with any code but its own is changed or reported uncorrectable. */
  lemma WrongCodeShows(e: Engine, d: seq<byte>, code: seq<byte>)
    requires |code| == 4 && Compares(e, |d|)
    ensures var r := DecodeChunk(e, Slc, d, code);
      (r.0 == d && r.1 != -1) <==> code == CodeOf(e, Slc, d)
  {
    hide Rejoin, Half, WordBytes, Flipped, BitMask;
    var st := Status1(e, d, code);
    if code == CodeOf(e, Slc, d) {
      HalvesRejoin(e.parity1(d));
    } else {
      if Rejoin(Half(code[0], code[1]), Half(code[2], code[3])) == e.parity1(d) {
        RejoinBytes(code, e.parity1(d));
      }
      if Kind1(st) == 1 && Byte1(st) < |d| {
        FlipChanges(d[Byte1(st)], Bit1(st));
      }
    }
  }

  /* ---------- the exact condition ---------- */

  /** The stored code of chunk `s` is read as written. */
  ghost predicate CodeIntact(p: nat, s: nat, spare: seq<byte>, read: seq<byte>) {
    p + 4 * s + 4 <= |spare| == |read| && read[p + 4 * s..p + 4 * s + 4] == spare[p + 4 * s..p + 4 * s + 4]
  }

  lemma IntactCodeByCode(p: nat, n: nat, spare: seq<byte>, read: seq<byte>)
    requires p + 4 * n <= |spare| == |read|
    ensures MainCodesIntact(p, n, spare, read) <==> forall s: nat :: s < n ==> CodeIntact(p, s, spare, read)
  {
    if MainCodesIntact(p, n, spare, read) {
      forall s: nat | s < n ensures CodeIntact(p, s, spare, read) {
        SliceOfSlice(read, p, 4 * n, 4 * s, 4 * s + 4);
        SliceOfSlice(spare, p, 4 * n, 4 * s, 4 * s + 4);
      }
    }
    if forall s: nat :: s < n ==> CodeIntact(p, s, spare, read) {
      forall i | p <= i < p + 4 * n ensures read[i] == spare[i] {
        var s := (i - p) / 4;
        assert CodeIntact(p, s, spare, read);
        var at := p + 4 * s;
        assert read[at..at + 4][i - at] == spare[at..at + 4][i - at];
      }
    }
  }

  /** A chunk read undamaged with a damaged code shows in the page or in the failure count. */
  lemma DamagedCodeShows(e: Engine, page: seq<byte>, filled: seq<byte>, p: nat, n: nat, main: seq<byte>,
                         read: seq<byte>, s: nat)
    requires |page| == |main| == n * 512 && s < n && p + 4 * n <= |filled| == |read| && Compares(e, 512)
    requires Holds(e, Slc, page, filled, p, s) && Chunk(main, s) == Chunk(page, s) && !CodeIntact(p, s, filled, read)
    ensures DecodeMain(e, Slc, main, read, p, n) != (page, 0)
  {
    hide DecodeMain, DecodeChunk, CodeOf, Failures;
    var code := read[p + 4 * s..p + 4 * s + 4];
    WrongCodeShows(e, Chunk(page, s), code);
    DecodeMainAt(e, Slc, main, read, p, n, s);
    FailuresCounted(e, Slc, main, read, p, n);
    var d := Decoded(e, Slc, main, read, p, s);
    assert d == DecodeChunk(e, Slc, Chunk(page, s), code);
    if d.1 == -1 {
      FailureIn(e, main, read, p, n, s);
    }
  }

  lemma FailureIn(e: Engine, main: seq<byte>, oob: seq<byte>, base: nat, n: nat, s: nat)
    requires s < n && Decoded(e, Slc, main, oob, base, s).1 == -1
    ensures |Failures(e, Slc, main, oob, base, n)| > 0
  {
    hide Decoded;
    assert s in Failures(e, Slc, main, oob, base, n);
  }

  /** With the marker read, the SLC round trip holds if and only if the medium left the stored main codes alone, as long
      as it did not damage a chunk together with that chunk's code. */
  lemma MarkerExact(e: Engine, page: seq<byte>, oob: seq<byte>, eccpos: seq<nat>, n: nat,
                    main: seq<byte>, read: seq<byte>)
    requires |page| == |main| == n * 512 && |oob| == |read| >= 8
    requires Layout(Slc, eccpos, n, |oob| - 4) && Positions(eccpos, |oob|)
    requires Corrects(e, Slc, 512, 1) && Corrects(e, Slc, |oob| - 4, 1) && Compares(e, 512)
    requires OneFlipEach(page, SpareOf(e, page, oob, eccpos, n), main, read, n) && Jffs2Marker(read)
    requires forall s: nat :: s < n ==>
      CodeIntact(eccpos[0], s, Filled(e, Slc, page, oob, eccpos, n), read) || Chunk(main, s) == Chunk(page, s)
    ensures DecodeMain(e, Slc, main, OpenSpare(e, read), eccpos[0], n) == (page, 0)
      <==> MainCodesIntact(eccpos[0], n, Filled(e, Slc, page, oob, eccpos, n), read)
  {
    hide DecodeMain, Filled, SealSpare, Disturbed, Corrects, Compares, CodeIntact, MainCodesIntact, Positions;
    var filled, p := Filled(e, Slc, page, oob, eccpos, n), eccpos[0];
    assert OpenSpare(e, read) == read;
    IntactCodeByCode(p, n, filled, read);
    if MainCodesIntact(p, n, filled, read) {
      SlcRoundTrip(e, page, oob, eccpos, n, main, read);
    } else {
      var s: nat :| s < n && !CodeIntact(p, s, filled, read);
      CodeFedBack(e, Slc, page, oob, eccpos, n, s);
      DamagedCodeShows(e, page, filled, p, n, main, read, s);
    }
  }

  /** The engine, given a chunk and a code that may both be wrong, blames just what turns the chunk into `original`. */
  ghost predicate Blames(e: Engine, chunk: seq<byte>, code: seq<byte>, original: seq<byte>)
    requires |code| == 4
  {
    var st := Status1(e, chunk, code);
    Kind1(st) == 1 && Byte1(st) < |chunk| && XorAt(chunk, Flip(Byte1(st), BitMask(Bit1(st)))) == original
  }

  /** A chunk read with a wrong code comes back if and only if the engine blames just the damage. */
  lemma WrongCodeFate(e: Engine, original: seq<byte>, chunk: seq<byte>, code: seq<byte>)
    requires |chunk| == |original| && |code| == 4 && Compares(e, |original|) && code != CodeOf(e, Slc, original)
    ensures var r := DecodeChunk(e, Slc, chunk, code);
      (r.0 == original && r.1 != -1) <==> Blames(e, chunk, code, original)
  {
    hide Rejoin, Half, WordBytes, Flipped, BitMask;
    if Kind1(Status1(e, chunk, code)) == 0 && chunk == original {
      WrongCodeShows(e, original, code);
    }
  }

  function CodeRead(p: nat, s: nat, read: seq<byte>): (r: seq<byte>)
    requires p + 4 * s + 4 <= |read|
    ensures |r| == 4
  {
    read[p + 4 * s..p + 4 * s + 4]
  }

  /** The chunk's code is read as written, or the engine makes good for it. */
  ghost predicate Saved(e: Engine, page: seq<byte>, main: seq<byte>, p: nat, s: nat, spare: seq<byte>, read: seq<byte>)
    requires (s + 1) * 512 <= |page| == |main| && p + 4 * s + 4 <= |read|
  {
    CodeIntact(p, s, spare, read) || Blames(e, Chunk(main, s), CodeRead(p, s, read), Chunk(page, s))
  }

  lemma ChunkFate(e: Engine, page: seq<byte>, filled: seq<byte>, p: nat, n: nat, main: seq<byte>,
                  read: seq<byte>, s: nat)
    requires |page| == |main| == n * 512 && s < n && p + 4 * n <= |filled| == |read| && Compares(e, 512)
    requires Holds(e, Slc, page, filled, p, s) && Restored(e, Slc, page, main, s)
    ensures var d := Decoded(e, Slc, main, read, p, s);
      (d.0 == Chunk(page, s) && d.1 != -1) <==> Saved(e, page, main, p, s, filled, read)
  {
    hide DecodeChunk, CodeOf, Blames, Compares;
    var code := CodeRead(p, s, read);
    assert Decoded(e, Slc, main, read, p, s) == DecodeChunk(e, Slc, Chunk(main, s), code);
    if code != CodeOf(e, Slc, Chunk(page, s)) {
      WrongCodeFate(e, Chunk(page, s), Chunk(main, s), code);
    }
  }

  /** The page is back with no failure exactly when every chunk is. */
  lemma PageByChunks(e: Engine, page: seq<byte>, main: seq<byte>, oob: seq<byte>, p: nat, n: nat)
    requires |page| == |main| == n * 512 && p + 4 * n <= |oob|
    ensures DecodeMain(e, Slc, main, oob, p, n) == (page, 0) <==> forall s: nat :: s < n ==>
      Decoded(e, Slc, main, oob, p, s).0 == Chunk(page, s) && Decoded(e, Slc, main, oob, p, s).1 != -1
  {
    hide DecodeMain, Decoded, Failures;
    forall s: nat | s < n
      ensures Chunk(DecodeMain(e, Slc, main, oob, p, n).0, s) == Decoded(e, Slc, main, oob, p, s).0
    {
      DecodeMainAt(e, Slc, main, oob, p, n, s);
    }
    FailuresCounted(e, Slc, main, oob, p, n);
    if s: nat :| s < n && Decoded(e, Slc, main, oob, p, s).1 == -1 {
      FailureIn(e, main, oob, p, n, s);
    } else if forall s: nat :: s < n ==> Decoded(e, Slc, main, oob, p, s).0 == Chunk(page, s) {
      NoFailures(e, Slc, main, oob, p, n);
      SameChunks(DecodeMain(e, Slc, main, oob, p, n).0, page, n);
    }
  }

  /** With the marker read, and whatever else the medium did within its bounds: the SLC round trip holds if and only if
      every stored main code was read as written or the engine, given the wrong code, blames just the damage. */
  lemma MarkerFate(e: Engine, page: seq<byte>, oob: seq<byte>, eccpos: seq<nat>, n: nat,
                   main: seq<byte>, read: seq<byte>)
    requires |page| == |main| == n * 512 && |oob| == |read| >= 8
    requires Layout(Slc, eccpos, n, |oob| - 4) && Positions(eccpos, |oob|)
    requires Corrects(e, Slc, 512, 1) && Compares(e, 512)
    requires OneFlipEach(page, SpareOf(e, page, oob, eccpos, n), main, read, n) && Jffs2Marker(read)
    ensures DecodeMain(e, Slc, main, OpenSpare(e, read), eccpos[0], n) == (page, 0)
      <==> forall s: nat :: s < n ==> Saved(e, page, main, eccpos[0], s, Filled(e, Slc, page, oob, eccpos, n), read)
  {
    hide DecodeMain, Filled, SealSpare, Disturbed, Corrects, Compares, Saved, Positions, Decoded, Holds, Restored;
    var filled, p := Filled(e, Slc, page, oob, eccpos, n), eccpos[0];
    assert OpenSpare(e, read) == read;
    PageByChunks(e, page, main, read, p, n);
    forall s: nat | s < n
      ensures var d := Decoded(e, Slc, main, read, p, s);
        (d.0 == Chunk(page, s) && d.1 != -1) <==> Saved(e, page, main, p, s, filled, read)
    {
      CodeFedBack(e, Slc, page, oob, eccpos, n, s);
      ChunkRestored1(e, page, main, s);
      ChunkFate(e, page, filled, p, n, main, read, s);
    }
  }

  /* ---------- it happens ---------- */

  lemma OneBit(d: seq<byte>, i: nat, b: nat)
    requires i < |d| && b < 8
    ensures Disturbed(d, d[i := Flipped(d[i], BitMask(b))], 1)
  {
    var f := Flip(i, BitMask(b));
    PatchNone(d);
    PatchStep(d, f, []);
    assert [f] + [] == [f];
  }

  lemma Untouched(d: seq<byte>)
    ensures Disturbed(d, d, 1)
  {
    PatchNone(d);
  }

  /** A byte of the codes that is no part of the marker. */
  function Beside(p: nat): (j: nat)
    ensures p <= j < p + 4 && j != 2 && j != 3
  {
    if p == 2 then 4 else if p == 3 then 4 else p
  }

  /** The spare area with one bit read wrong outside the marker and its own code. */
  lemma OneBitOfSpare(spare: seq<byte>, j: nat) returns (read: seq<byte>)
    requires |spare| >= 8 && j + 4 < |spare| && j != 2 && j != 3
    ensures |read| == |spare| && read[j] != spare[j] && (Jffs2Marker(read) <==> Jffs2Marker(spare))
    ensures Disturbed(spare[..|spare| - 4], read[..|spare| - 4], 1) && read[|spare| - 4..] == spare[|spare| - 4..]
  {
    var n := |spare| - 4;
    read := spare[j := Flipped(spare[j], BitMask(0))];
    FlipChanges(spare[j], 0);
    OneBit(spare[..n], j, 0);
    assert read[..n] == spare[..n][j := Flipped(spare[j], BitMask(0))];
  }

  /** Whatever the page and wherever the codes lie: if the spare area is written with the marker in it, one bit read
      wrong there, and none in the page, makes the reader damage the page or give it up. */
  lemma MarkerLosesData(e: Engine, page: seq<byte>, oob: seq<byte>, eccpos: seq<nat>, n: nat) returns (read: seq<byte>)
    requires |page| == n * 512 && |oob| >= 8 && Layout(Slc, eccpos, n, |oob| - 4) && Positions(eccpos, |oob|)
    requires Corrects(e, Slc, 512, 1) && Corrects(e, Slc, |oob| - 4, 1) && Compares(e, 512)
    requires Jffs2Marker(SpareOf(e, page, oob, eccpos, n))
    ensures |read| == |oob| && OneFlipEach(page, SpareOf(e, page, oob, eccpos, n), page, read, n) && Jffs2Marker(read)
    ensures DecodeMain(e, Slc, page, OpenSpare(e, read), eccpos[0], n) != (page, 0)
  {
    hide DecodeMain, Filled, Disturbed, Corrects, Compares, Positions, CodeOf, CodeIntact, OpenSpare;
    var filled, p, spare := Filled(e, Slc, page, oob, eccpos, n), eccpos[0], SpareOf(e, page, oob, eccpos, n);
    LayoutNonempty(Slc, eccpos, n, |oob| - 4);
    var j := Beside(p);
    read := OneBitOfSpare(spare, j);
    assert spare[j] == filled[j] && read[p..p + 4 * n][j - p] == read[j] && filled[p..p + 4 * n][j - p] == filled[j];
    forall s: nat | s < n ensures Disturbed(Chunk(page, s), Chunk(page, s), 1) {
      Untouched(Chunk(page, s));
    }
    MarkerExact(e, page, oob, eccpos, n, page, read);
  }

  /* ---------- the layouts of the SLC chips ---------- */

  /** s3c_nand_oob_64, for 2048-byte pages: bytes 2 and 3 belong to the file system. */
  const OOB_64: seq<nat> := [40, 41, 42, 43, 44, 45, 46, 47, 48, 49, 50, 51, 52, 53, 54, 55]

  /** s3c_nand_oob_16, for 512-byte pages: bytes 2 and 3 are the middle bytes of the page's own code. */
  const OOB_16: seq<nat> := [1, 2, 3, 4]

  /** In the large-page layout the marker is written exactly when the file system puts it there. */
  lemma LargePageMarker(e: Engine, page: seq<byte>, oob: seq<byte>)
    requires |page| == 2048 && |oob| == 64
    ensures Layout(Slc, OOB_64, 4, 60) && Positions(OOB_64, 64)
    ensures Jffs2Marker(SpareOf(e, page, oob, OOB_64, 4)) <==> Jffs2Marker(oob)
  {
    hide Codes, CodeOf, Scatter;
    ScatterKeeps(oob, OOB_64, Codes(e, Slc, page, 4), 16, 2);
    ScatterKeeps(oob, OOB_64, Codes(e, Slc, page, 4), 16, 3);
  }

  /** In the small-page layout it is written exactly when two bytes of the page's code happen to be the marker,
      whatever the file system stores: ordinary page data can switch the repair off. */
  lemma SmallPageMarker(e: Engine, page: seq<byte>, oob: seq<byte>)
    requires |page| == 512 && |oob| == 16
    ensures Layout(Slc, OOB_16, 1, 12) && Positions(OOB_16, 16)
    ensures Jffs2Marker(SpareOf(e, page, oob, OOB_16, 1)) <==>
      CodeOf(e, Slc, page)[1] == 0x85 && CodeOf(e, Slc, page)[2] == 0x19
  {
    hide CodeOf, Scatter;
    var codes := Codes(e, Slc, page, 1);
    assert Chunk(page, 0) == page;
    assert codes == CodeOf(e, Slc, page);
    ScatterGet(oob, OOB_16, codes, 4, 1);
    ScatterGet(oob, OOB_16, codes, 4, 2);
  }

  /* ---------- a page of the concrete engine that does ---------- */

  lemma LocatorCompares(n: nat)
    requires n < LIMIT
    ensures Compares(Locator(), n)
  {
    forall d: seq<byte>, m0: word, m1: word | |d| == n
      ensures Kind1(LocatorStatus1(d, m0, m1)) == 0 <==> Rejoin(m0, m1) == LocatorParity(d)
    {
      var gap := Gap(LocatorParity(d), Rejoin(m0, m1));
      if 1 <= gap <= 8 * n {
        StatusFields(1, (gap - 1) % 8, (gap - 1) / 8, LocatorStatus1(d, m0, m1));
      }
    }
  }

  lemma {:induction false} NoBits(w: nat, k: nat)
    ensures BitWeight(0, w, k) == 0
    decreases k
  {
    if k > 0 {
      NoBits(w + 1, k - 1);
    }
  }

  function Ones(k: nat): nat { if k == 0 then 0 else 2 * Ones(k - 1) + 1 }

  function Below(k: nat): nat { if k == 0 then 0 else k - 1 + Below(k - 1) }

  lemma {:induction false} OnesWeight(w: nat, k: nat)
    ensures BitWeight(Ones(k), w, k) == k * w + Below(k)
    decreases k
  {
    if k > 0 {
      OnesWeight(w + 1, k - 1);
      assert (k - 1) * (w + 1) == k * w - w + k - 1;
    }
  }

  lemma AllBits(w: nat)
    ensures BitWeight(0xff, w, 8) == 8 * w + 28
  {
    hide BitWeight;
    assert Ones(4) == 15;
    assert Below(4) == 6;
    assert Ones(8) == 0xff;
    assert Below(8) == 28;
    OnesWeight(w, 8);
  }

  /** Zeroes, but for byte 397 and the bytes from 459 on. */
  function Blotted(n: nat): (r: seq<byte>)
    ensures |r| == n
  {
    seq(n, i => if i == 397 || i >= 459 then 0xff else 0)
  }

  lemma BlottedNext(n: nat)
    requires n > 0
    ensures var blot := n - 1 == 397 || n - 1 >= 459;
      Weight(Blotted(n)) == Weight(Blotted(n - 1)) + if blot then 64 * n - 28 else 0
  {
    hide BitWeight;
    assert Blotted(n)[..n - 1] == Blotted(n - 1);
    NoBits(8 * n - 7, 8);
    AllBits(8 * n - 7);
  }

  /** The sum of those weights: one byte, and then an arithmetic series. */
  function Blots(n: nat): int {
    if n <= 397 then 0 else if n <= 459 then 25444 else 25444 + 29348 * (n - 459) + 64 * Below(n - 458)
  }

  lemma BlotsNext(n: nat)
    requires n > 0
    ensures Blots(n) == Blots(n - 1) + if n - 1 == 397 || n - 1 >= 459 then 64 * n - 28 else 0
  {
    assert n == 460 ==> Below(n - 458) == 1;
  }

  lemma NoBlots()
    ensures Weight(Blotted(0)) == Blots(0)
  {
    assert Blotted(0) == [];
  }

  lemma {:induction false} BlottedWeight(n: nat)
    ensures Weight(Blotted(n)) == Blots(n)
  {
    hide Weight, BitWeight, Blotted, Blots, Below;
    if n == 0 {
      NoBlots();
    } else {
      BlottedNext(n);
      BlotsNext(n);
      BlottedWeight(n - 1);
    }
  }

  lemma {:induction false} BelowIs(n: nat)
    ensures 2 * Below(n) == n * n - n
  {
    if n > 0 {
      BelowIs(n - 1);
    }
  }

  /** A page whose own code shows the marker, so that every spare area written with it does. */
  lemma SmallPageShowsMarker(oob: seq<byte>) returns (page: seq<byte>)
    requires |oob| == 16
    ensures |page| == 512 && Jffs2Marker(SpareOf(Locator(), page, oob, OOB_16, 1))
  {
    hide Weight, WordBytes, Blotted, SpareOf, Jffs2Marker;
    page := Blotted(512);
    BlottedWeight(512);
    BelowIs(54);
    MarkerBytes();
    SmallPageMarker(Locator(), page, oob);
    assert CodeOf(Locator(), Slc, page) == WordBytes(LocatorParity(page)) && LocatorParity(page) == 0x198518;
  }

  lemma MarkerBytes()
    ensures WordBytes(0x198518)[1] == 0x85 && WordBytes(0x198518)[2] == 0x19
  {
  }

  /** All together, for the small pages: a page, and one bit read wrong in its spare area, that the reader loses. */
  lemma SmallPageLost(oob: seq<byte>) returns (page: seq<byte>, read: seq<byte>)
    requires |oob| == 16
    ensures |page| == 512 && |read| == 16
    ensures Positions(OOB_16, 16) && OneFlipEach(page, SpareOf(Locator(), page, oob, OOB_16, 1), page, read, 1)
    ensures DecodeMain(Locator(), Slc, page, OpenSpare(Locator(), read), 1, 1) != (page, 0)
  {
    hide DecodeMain, OneFlipEach, SpareOf, Locator, Corrects, Compares, Jffs2Marker;
    page := SmallPageShowsMarker(oob);
    SmallPageMarker(Locator(), page, oob);
    LocatorCorrects(Slc, 512);
    LocatorCorrects(Slc, 12);
    LocatorCompares(512);
    read := MarkerLosesData(Locator(), page, oob, OOB_16, 1);
  }
}
