/** The partition tables the RAM disk starts with: boot sectors written into the disk's bytes, and the
    reader that takes them apart again (UEFI Specification, section 5.2.1, legacy MBR). */
module Partition {
  import opened Bytes
  import RamDisk

  const SECTOR: nat := RamDisk.SECTOR
  const CYLINDER: nat := 32 * 512                  // copy_br: 32 sectors to a cylinder
  const DISK_SIGNATURE: word := 0x36E5756D
  const SIGNATURE: nat := 0xAA55

  type six = x: nat | x < 64
  type two = x: nat | x < 4

  datatype PartEntry = PartEntry(
    bootType: byte, startHead: byte, startSec: six, startCylHi: two, startCyl: byte,
    partType: byte, endHead: byte, endSec: six, endCylHi: two, endCyl: byte,
    absStartSec: word, secInPart: word)

  type PartTable = t: seq<PartEntry> | |t| == 4 witness seq(4, _ => PartEntry(0, 0, 0, 0, 0, 0, 0, 0, 0, 0, 0, 0))

  /* ---------- the bytes of a sector ---------- */

  function Short(n: nat): (r: seq<byte>)
    requires n < 0x1_0000
    ensures |r| == 2
  {
    [n % 0x100, n / 0x100]
  }

  function Long(n: word): (r: seq<byte>)
    ensures |r| == 4
  {
    Short(n % 0x1_0000) + Short(n / 0x1_0000)
  }

  function ReadShort(s: seq<byte>, at: nat): nat
    requires at + 2 <= |s|
  {
    var low: nat, high: nat := s[at], s[at + 1];
    low + 0x100 * high
  }

  function ReadLong(s: seq<byte>, at: nat): word
    requires at + 4 <= |s|
  {
    ReadShort(s, at) + 0x1_0000 * ReadShort(s, at + 2)
  }

  /** The structure in memory: the sector in the low six bits of its byte, the high cylinder bits above it. */
  function Encode(e: PartEntry): (r: seq<byte>)
    ensures |r| == 16
  {
    [e.bootType, e.startHead, e.startSec + 64 * e.startCylHi, e.startCyl,
     e.partType, e.endHead, e.endSec + 64 * e.endCylHi, e.endCyl] + Long(e.absStartSec) + Long(e.secInPart)
  }

  function EncodeTable(t: PartTable): (r: seq<byte>)
    ensures |r| == 64
  {
    Encode(t[0]) + Encode(t[1]) + Encode(t[2]) + Encode(t[3])
  }

  function Decode(s: seq<byte>, at: nat): PartEntry
    requires at + 16 <= |s|
  {
    PartEntry(s[at], s[at + 1], s[at + 2] % 64, s[at + 2] / 64, s[at + 3],
              s[at + 4], s[at + 5], s[at + 6] % 64, s[at + 6] / 64, s[at + 7],
              ReadLong(s, at + 8), ReadLong(s, at + 12))
  }

  /** What partition_info takes from the first sector of a device. */
  datatype Mbr = Mbr(diskSignature: word, table: PartTable, signature: nat)

  function ReadMbr(sector: seq<byte>): Mbr
    requires |sector| == SECTOR
  {
    Mbr(ReadLong(sector, 440), seq(4, i requires 0 <= i < 4 => Decode(sector, 446 + 16 * i)), ReadShort(sector, 510))
  }

  lemma LongBack(n: word, s: seq<byte>, at: nat)
    requires at + 4 <= |s| && s[at..at + 4] == Long(n)
    ensures ReadLong(s, at) == n
  {
    var l := s[at..at + 4];
    assert s[at] == l[0] && s[at + 1] == l[1] && s[at + 2] == l[2] && s[at + 3] == l[3];
  }

  /** An entry is read back bit for bit, wherever it stands. */
  lemma EntryBack(e: PartEntry, s: seq<byte>, at: nat)
    requires at + 16 <= |s| && s[at..at + 16] == Encode(e)
    ensures Decode(s, at) == e
  {
    var b := s[at..at + 16];
    assert forall i :: 0 <= i < 16 ==> s[at + i] == b[i];
    assert s[at + 8..at + 12] == b[8..12] == Long(e.absStartSec);
    assert s[at + 12..at + 16] == b[12..16] == Long(e.secInPart);
    LongBack(e.absStartSec, s, at + 8);
    LongBack(e.secInPart, s, at + 12);
  }

  /** A sector the writer leaves: zeroes, a disk signature, the table and the boot signature. */
  function Sector(diskSignature: word, t: PartTable): (r: seq<byte>)
    ensures |r| == SECTOR
  {
    Zeroes(440) + Long(diskSignature) + Zeroes(2) + EncodeTable(t) + Short(SIGNATURE)
  }

  function Zeroes(n: nat): (r: seq<byte>)
    ensures |r| == n
  {
    seq(n, _ => 0)
  }

  lemma TableAt(t: PartTable, s: seq<byte>, at: nat, i: nat)
    requires at + 64 <= |s| && s[at..at + 64] == EncodeTable(t) && i < 4
    ensures s[at + 16 * i..at + 16 * i + 16] == Encode(t[i])
  {
    hide Encode;
    var b := Encode(t[0]) + Encode(t[1]) + Encode(t[2]) + Encode(t[3]);
    SliceOfSlice(s, at, 64, 16 * i, 16 * i + 16);
    assert i == 0 ==> b[0..16] == Encode(t[0]);
    assert i == 1 ==> b[16..32] == Encode(t[1]);
    assert i == 2 ==> b[32..48] == Encode(t[2]);
    assert i == 3 ==> b[48..64] == Encode(t[3]);
  }

  lemma TableBack(t: PartTable, s: seq<byte>, at: nat, i: nat)
    requires at + 64 <= |s| && s[at..at + 64] == EncodeTable(t) && i < 4
    ensures Decode(s, at + 16 * i) == t[i]
  {
    hide EncodeTable, Encode, Decode;
    TableAt(t, s, at, i);
    EntryBack(t[i], s, at + 16 * i);
  }

  /** The 16 bytes of an entry, each from its fields. */
  lemma EntryBytes(e: PartEntry)
    ensures Encode(e) ==
      [e.bootType, e.startHead, e.startSec + 64 * e.startCylHi, e.startCyl,
       e.partType, e.endHead, e.endSec + 64 * e.endCylHi, e.endCyl,
       e.absStartSec % 0x100, e.absStartSec / 0x100 % 0x100,
       e.absStartSec / 0x1_0000 % 0x100, e.absStartSec / 0x100_0000,
       e.secInPart % 0x100, e.secInPart / 0x100 % 0x100, e.secInPart / 0x1_0000 % 0x100, e.secInPart / 0x100_0000]
  {
    LongBytes(e.absStartSec);
    LongBytes(e.secInPart);
    hide Long;
  }

  lemma LongBytes(n: word)
    ensures Long(n) == [n % 0x100, n / 0x100 % 0x100, n / 0x1_0000 % 0x100, n / 0x100_0000]
  {
    LowHalf(n / 0x1_0000, n / 0x100 % 0x100, n % 0x100, n);
    HighHalf(n);
  }

  lemma LowHalf(q: nat, b: byte, a: byte, n: nat)
    requires b == n / 0x100 % 0x100 && a == n % 0x100 && q == n / 0x1_0000
    ensures n % 0x1_0000 % 0x100 == a && n % 0x1_0000 / 0x100 == b
  {
    var m := n / 0x100;
    assert n == 0x100 * m + a;
    assert m / 0x100 == q && m == 0x100 * q + b;
    assert n % 0x1_0000 == 0x100 * b + a;
  }

  lemma HighHalf(n: nat)
    ensures n / 0x1_0000 / 0x100 == n / 0x100_0000
  {
  }

  /** The 512 bytes of a boot sector: the disk signature at 440, the four entries from 446, 0x55 and 0xAA at the end and
      zeroes everywhere else. */
  lemma SectorBytes(diskSignature: word, t: PartTable)
    ensures var s := Sector(diskSignature, t);
      && |s| == 512 && s[510] == 0x55 && s[511] == 0xAA
      && (forall i :: 0 <= i < 440 || i == 444 || i == 445 ==> s[i] == 0)
      && s[440..444] == [diskSignature % 0x100, diskSignature / 0x100 % 0x100,
                         diskSignature / 0x1_0000 % 0x100, diskSignature / 0x100_0000]
      && (forall i :: 0 <= i < 4 ==> s[446 + 16 * i..462 + 16 * i] == Encode(t[i]))
  {
    LongBytes(diskSignature);
    hide Encode, EncodeTable, Long;
    var s := Sector(diskSignature, t);
    assert s[440..444] == Long(diskSignature) && s[446..510] == EncodeTable(t);
    forall i | 0 <= i < 4 ensures s[446 + 16 * i..462 + 16 * i] == Encode(t[i]) {
      TableAt(t, s, 446, i);
    }
  }

  /** Reading a written sector gives back the table, the disk signature and 0xAA55. */
  lemma SectorBack(diskSignature: word, t: PartTable)
    ensures ReadMbr(Sector(diskSignature, t)) == Mbr(diskSignature, t, 0xAA55)
  {
    hide EncodeTable, Decode, Long;
    var s := Sector(diskSignature, t);
    assert s[440..444] == Long(diskSignature) && s[446..510] == EncodeTable(t);
    LongBack(diskSignature, s, 440);
    forall i | 0 <= i < 4 ensures Decode(s, 446 + 16 * i) == t[i] {
      TableBack(t, s, 446, i);
    }
    assert s[510] == 0x55 && s[511] == 0xAA;
  }

  /* ---------- the whole disk ---------- */

  /** The extended boot record of cylinder `cyl` lies on a disk of this length. */
  predicate Fits(length: nat, cyl: int) { 0 <= cyl && cyl * CYLINDER + SECTOR <= length }

  predicate AllFit(length: nat, cyls: seq<int>) {
    SECTOR <= length && forall i :: 0 <= i < |cyls| ==> Fits(length, cyls[i])
  }

  /** The disk after the MBR and the first `n` boot records. */
  function Laid(disk: seq<byte>, mbr: PartTable, cyls: seq<int>, tables: seq<PartTable>, n: nat): (r: seq<byte>)
    requires AllFit(|disk|, cyls) && n <= |cyls| == |tables|
    ensures |r| == |disk|
  {
    if n == 0 then Splice(disk, 0, Sector(DISK_SIGNATURE, mbr))
    else Splice(Laid(disk, mbr, cyls, tables, n - 1), cyls[n - 1] * CYLINDER, Sector(0, tables[n - 1]))
  }

  /** What the reader finds in the first sector from byte `at`. */
  function ReadAt(disk: seq<byte>, at: nat): Mbr
    requires at + SECTOR <= |disk|
  {
    ReadMbr(disk[at..at + SECTOR])
  }

  lemma Apart(a: int, b: int)
    ensures a != b ==> a * CYLINDER + CYLINDER <= b * CYLINDER || b * CYLINDER + CYLINDER <= a * CYLINDER
  {
  }

  lemma ReadSplice(disk: seq<byte>, at: nat, diskSignature: word, t: PartTable, other: nat)
    requires at + SECTOR <= |disk| && other + SECTOR <= |disk|
    ensures var after := Splice(disk, at, Sector(diskSignature, t));
      && after[at..at + 512] == Sector(diskSignature, t) && ReadAt(after, at) == Mbr(diskSignature, t, 0xAA55)
      && (at + SECTOR <= other || other + SECTOR <= at ==>
            after[other..other + 512] == disk[other..other + 512] && ReadAt(after, other) == ReadAt(disk, other))
  {
    hide ReadMbr;
    hide Sector;
    SectorBack(diskSignature, t);
    SpliceLaws(disk, at, Sector(diskSignature, t));
    if at + SECTOR <= other || other + SECTOR <= at {
      assert Splice(disk, at, Sector(diskSignature, t))[other..other + SECTOR] == disk[other..other + SECTOR];
    }
  }

  /** The boot record written last for a cylinder is what its first 512 bytes hold, and is read back from them bit for
      bit; with distinct cylinders that is every one of them. */
  lemma {:induction false} RecordBack(disk: seq<byte>, mbr: PartTable, cyls: seq<int>, tables: seq<PartTable>,
                                      n: nat, i: nat)
    requires AllFit(|disk|, cyls) && i < n <= |cyls| == |tables|
    requires forall j :: i < j < n ==> cyls[j] != cyls[i]
    ensures var after, at := Laid(disk, mbr, cyls, tables, n), cyls[i] * 16384;
      && 0 <= at && at + 512 <= |after|
      && after[at..at + 512] == Sector(0, tables[i]) && ReadAt(after, at) == Mbr(0, tables[i], 0xAA55)
  {
    hide ReadAt, Sector, Splice;
    assert Fits(|disk|, cyls[i]) && Fits(|disk|, cyls[n - 1]);
    var before := Laid(disk, mbr, cyls, tables, n - 1);
    ReadSplice(before, cyls[n - 1] * CYLINDER, 0, tables[n - 1], cyls[i] * CYLINDER);
    if i < n - 1 {
      Apart(cyls[n - 1], cyls[i]);
      RecordBack(disk, mbr, cyls, tables, n - 1, i);
    }
  }

  /** The master boot record is read back, with the disk signature, when no boot record is put in cylinder 0. */
  lemma {:induction false} MbrBack(disk: seq<byte>, mbr: PartTable, cyls: seq<int>, tables: seq<PartTable>, n: nat)
    requires AllFit(|disk|, cyls) && n <= |cyls| == |tables|
    ensures var after, unused := Laid(disk, mbr, cyls, tables, n), forall i :: 0 <= i < n ==> cyls[i] != 0;
      && (unused <==> ReadAt(after, 0) == Mbr(0x36E5756D, mbr, 0xAA55))
      && (unused ==> after[0..512] == Sector(0x36E5756D, mbr))
  {
    hide ReadAt, Sector, Splice;
    if n == 0 {
      ReadSplice(disk, 0, DISK_SIGNATURE, mbr, 0);
    } else {
      assert Fits(|disk|, cyls[n - 1]);
      var before := Laid(disk, mbr, cyls, tables, n - 1);
      ReadSplice(before, cyls[n - 1] * CYLINDER, 0, tables[n - 1], 0);
      Apart(cyls[n - 1], 0);
      MbrBack(disk, mbr, cyls, tables, n - 1);
    }
  }

  /** Bytes outside the sectors written are unchanged. */
  lemma {:induction false} OutsideKept(disk: seq<byte>, mbr: PartTable, cyls: seq<int>, tables: seq<PartTable>,
                                       n: nat, k: nat)
    requires AllFit(|disk|, cyls) && n <= |cyls| == |tables| && SECTOR <= k < |disk|
    requires forall i :: 0 <= i < n ==> !(cyls[i] * CYLINDER <= k < cyls[i] * CYLINDER + SECTOR)
    ensures Laid(disk, mbr, cyls, tables, n)[k] == disk[k]
  {
    if n > 0 {
      OutsideKept(disk, mbr, cyls, tables, n - 1, k);
    }
  }

  /* ---------- the writer ---------- */

  method Memset(disk: array<byte>, at: nat, n: nat)
    requires at + n <= disk.Length
    modifies disk
    ensures disk[..] == Splice(old(disk[..]), at, Zeroes(n))
  {
    forall i | at <= i < at + n {
      disk[i] := 0;
    }
  }

  /** memcpy, and the stores through casted pointers. */
  method Store(disk: array<byte>, at: nat, bytes: seq<byte>)
    requires at + |bytes| <= disk.Length
    modifies disk
    ensures disk[..] == Splice(old(disk[..]), at, bytes)
  {
    forall i | 0 <= i < |bytes| {
      disk[at + i] := bytes[i];
    }
  }

  /** Clearing a sector and storing its three fields makes it the sector described. */
  lemma Stores(disk: seq<byte>, at: nat, diskSignature: word, t: PartTable)
    requires at + SECTOR <= |disk|
    ensures var zero := Splice(disk, at, Zeroes(SECTOR));
      && Splice(Splice(Splice(zero, at + 440, Long(diskSignature)), at + 446, EncodeTable(t)),
                at + 510, Short(SIGNATURE))
         == Splice(disk, at, Sector(diskSignature, t))
      && Splice(zero, at + 440, Long(0)) == zero
  {
    hide EncodeTable;
    assert Long(0) == [0, 0, 0, 0];
  }

  method CopyMbr(disk: array<byte>, table: PartTable)
    requires SECTOR <= disk.Length
    modifies disk
    ensures disk[..] == Splice(old(disk[..]), 0, Sector(DISK_SIGNATURE, table))
  {
    hide Sector, Splice, EncodeTable;
    Stores(disk[..], 0, DISK_SIGNATURE, table);
    Memset(disk, 0, SECTOR);
    Store(disk, 440, Long(DISK_SIGNATURE));
    Store(disk, 446, EncodeTable(table));
    Store(disk, 510, Short(SIGNATURE));
  }

  method CopyBr(disk: array<byte>, startCylinder: int, table: PartTable)
    requires Fits(disk.Length, startCylinder)
    modifies disk
    ensures disk[..] == Splice(old(disk[..]), startCylinder * CYLINDER, Sector(0, table))
  {
    hide Sector, Splice, EncodeTable;
    var base := startCylinder * CYLINDER;
    Stores(disk[..], base, 0, table);
    Memset(disk, base, SECTOR);
    Store(disk, base + 446, EncodeTable(table));
    Store(disk, base + 510, Short(SIGNATURE));
  }

  /** copy_mbr_n_br, for any tables. */
  method CopyMbrNBr(disk: array<byte>, mbr: PartTable, cyls: seq<int>, tables: seq<PartTable>)
    requires AllFit(disk.Length, cyls) && |cyls| == |tables|
    modifies disk
    ensures disk[..] == Laid(old(disk[..]), mbr, cyls, tables, |cyls|)
  {
    CopyMbr(disk, mbr);
    for i := 0 to |cyls|
      invariant disk[..] == Laid(old(disk[..]), mbr, cyls, tables, i)
    {
      CopyBr(disk, cyls[i], tables[i]);
    }
  }

  /** Through the block driver: reading one sector of the new disk, into whatever disjoint segments and after any
      requests that do not write that sector, yields the table put there. */
  lemma {:induction false} TableThroughDriver(w: RamDisk.World, junk: seq<byte>, mbr: PartTable, cyls: seq<int>,
                                              tables: seq<PartTable>, i: nat,
                                              before: seq<RamDisk.Request>, load: RamDisk.Request)
    requires AllFit(|junk|, cyls) && i < |cyls| == |tables| && w.disk == Laid(junk, mbr, cyls, tables, |cyls|)
    requires forall j :: i < j < |cyls| ==> cyls[j] != cyls[i]
    requires RamDisk.AllInRange(w, before) && RamDisk.InRange(RamDisk.Served(w, before), load)
    requires forall k :: 0 <= k < |before| ==> RamDisk.Spares(before[k], cyls[i] * CYLINDER, SECTOR)
    requires !load.write && load.pos == cyls[i] * 32
    requires RamDisk.Total(load.segs) == SECTOR && RamDisk.Disjoint(load.segs)
    ensures var end := RamDisk.Flat(RamDisk.Served(w, before), load);
      && RamDisk.Mapped(end.pages, load.segs)
      && ReadMbr(RamDisk.Gather(end.pages, load.segs)) == Mbr(0, tables[i], 0xAA55)
  {
    hide ReadMbr, Laid, RamDisk.Served, RamDisk.Spares, RamDisk.AllInRange, RamDisk.Scatter, RamDisk.Gather;
    hide RamDisk.Disjoint;
    assert Fits(|junk|, cyls[i]);
    var at: nat := cyls[i] * CYLINDER;
    RecordBack(junk, mbr, cyls, tables, |cyls|, i);
    RamDisk.UntouchedKept(w, before, at, SECTOR);
    var mid := RamDisk.Served(w, before);
    assert load.pos * RamDisk.SECTOR == at;
    RamDisk.GatherScatter(mid.pages, load.segs, mid.disk[at..at + SECTOR]);
  }

  /* ---------- print_computed ---------- */

  datatype Chs = Chs(head: nat, cyl: nat, sector: nat)

  function Computed(sector: nat): Chs {
    var tracks := sector / 63;
    Chs(tracks % 255, tracks / 255 + 1, sector % 63 + 1)
  }

  /** The printed triple names the sector, with 63 sectors to a track and 255 heads: the two forms determine each
      other. */
  lemma ChsBijection(sector: nat, c: Chs)
    ensures var d := Computed(sector);
      && d.head < 255 && d.cyl >= 1 && 1 <= d.sector <= 63
      && sector == ((d.cyl - 1) * 255 + d.head) * 63 + d.sector - 1
    ensures c.head < 255 && c.cyl >= 1 && 1 <= c.sector <= 63 ==>
              Computed(((c.cyl - 1) * 255 + c.head) * 63 + c.sector - 1) == c
  {
    if c.head < 255 && c.cyl >= 1 && 1 <= c.sector <= 63 {
      var tracks := (c.cyl - 1) * 255 + c.head;
      assert (tracks * 63 + (c.sector - 1)) / 63 == tracks && (tracks * 63 + (c.sector - 1)) % 63 == c.sector - 1;
      assert tracks / 255 == c.cyl - 1 && tracks % 255 == c.head;
    }
  }
}
