/** The driver with the concrete engine and the large-page layout: a page goes through a medium that flips any
    one bit of it. */
module NandExample {
  import opened Bytes
  import opened NandCodes
  import opened NandEngine
  import opened NandDriver
  import opened NandRoundTrip
  import opened NandLocator
  import opened NandMarker

  lemma OneBitOfPage(page: seq<byte>, at: nat, b: nat, s: nat)
    requires |page| == 2048 && at < 2048 && b < 8 && s < 4
    ensures Disturbed(Chunk(page, s), Chunk(page[at := Flipped(page[at], BitMask(b))], s), 1)
  {
    hide Disturbed, Flipped, BitMask;
    var main := page[at := Flipped(page[at], BitMask(b))];
    if at / 512 == s {
      var k := at - s * 512;
      OneBit(Chunk(page, s), k, b);
      assert Chunk(main, s) == Chunk(page, s)[k := Flipped(Chunk(page, s)[k], BitMask(b))];
    } else {
      Untouched(Chunk(page, s));
      assert Chunk(main, s) == Chunk(page, s);
    }
  }

  /** Every hypothesis of the SLC round trip can be met at once. */
  method LargePage(buf: array<byte>, back: array<byte>, at: nat, b: nat)
    requires buf.Length == back.Length == 2048 && buf != back && at < 2048 && b < 8
    modifies back
    ensures back[..] == buf[..] == old(buf[..])
  {
    hide Filled, Locator, Disturbed, Corrects, InRange1, InRange, Flipped, BitMask, SealSpare;
    var e := Locator();
    LocatorCorrects(Slc, 512);
    LocatorCorrects(Slc, 60);
    LocatorInRange1(60);
    LocatorInRange(Slc);
    var page := buf[..];
    var oob: seq<byte> := seq(64, _ => 0xff);
    LargePageMarker(e, page, oob);
    var nand := new Nand(e, Slc, 4, 64, OOB_64, 4, seq(2112, _ => 0xff));
    forall i | 0 <= i < 64 {
      nand.oobPoi[i] := 0xff;
    }
    assert nand.oobPoi[..] == oob;
    var main := page[at := Flipped(page[at], BitMask(b))];
    var spare := SpareOf(e, page, oob, OOB_64, 4);
    forall s: nat | s < 4 ensures Disturbed(Chunk(page, s), Chunk(main, s), 1) {
      OneBitOfPage(page, at, b, s);
    }
    Untouched(spare[..60]);
    assert buf[..] == page && |spare| == 64;
    assert Disturbed(spare[..|spare| - 4], spare[..|spare| - 4], 1);
    assert OneFlipEach(page, spare, main, spare, 4);
    StoreAndLoad1(nand, buf, back, main, spare);
  }
}
