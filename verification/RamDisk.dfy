/** The RAM block driver: scatter-gather requests over a byte array, one sector run per segment. */
module RamDisk {
  import opened Bytes

  const SECTOR: nat := 512
  const EIO: int := 5

  /** A bio_vec: `len` bytes at `offset` of a page. */
  datatype Segment = Segment(page: nat, offset: nat, len: nat)

  datatype Request = Request(write: bool, pos: nat, count: nat, segs: seq<Segment>)

  datatype World = World(disk: seq<byte>, pages: map<nat, seq<byte>>)

  /** Bytes a segment really moves: a partial sector at its end is cut off. */
  function Moved(seg: Segment): nat { seg.len / SECTOR * SECTOR }

  function Total(segs: seq<Segment>): nat {
    if segs == [] then 0 else Moved(segs[0]) + Total(segs[1..])
  }

  predicate Lies(pages: map<nat, seq<byte>>, seg: Segment) {
    seg.page in pages && seg.offset + seg.len <= |pages[seg.page]|
  }

  predicate Mapped(pages: map<nat, seq<byte>>, segs: seq<Segment>) {
    forall i :: 0 <= i < |segs| ==> Lies(pages, segs[i])
  }

  /** The request stays on the disk, and its segments in memory. */
  predicate InRange(w: World, req: Request) {
    Mapped(w.pages, req.segs) && req.pos * SECTOR + Total(req.segs) <= |w.disk|
  }

  /* ---------- one segment at a time ---------- */

  function Fetch(pages: map<nat, seq<byte>>, seg: Segment): (r: seq<byte>)
    requires Lies(pages, seg)
    ensures |r| == Moved(seg)
  {
    pages[seg.page][seg.offset..seg.offset + Moved(seg)]
  }

  function Put(pages: map<nat, seq<byte>>, seg: Segment, bytes: seq<byte>): map<nat, seq<byte>>
    requires Lies(pages, seg) && |bytes| == Moved(seg)
  {
    pages[seg.page := Splice(pages[seg.page], seg.offset, bytes)]
  }

  function Move(w: World, write: bool, at: nat, seg: Segment): World
    requires Lies(w.pages, seg) && at + Moved(seg) <= |w.disk|
  {
    if write then World(Splice(w.disk, at, Fetch(w.pages, seg)), w.pages)
    else World(w.disk, Put(w.pages, seg, w.disk[at..at + Moved(seg)]))
  }

  lemma MoveKeeps(w: World, write: bool, at: nat, seg: Segment, segs: seq<Segment>)
    requires Lies(w.pages, seg) && at + Moved(seg) <= |w.disk| && Mapped(w.pages, segs)
    ensures var w' := Move(w, write, at, seg); |w'.disk| == |w.disk| && Mapped(w'.pages, segs)
  {
  }

  lemma Split(pages: map<nat, seq<byte>>, segs: seq<Segment>)
    requires segs != [] && Mapped(pages, segs)
    ensures Lies(pages, segs[0]) && Mapped(pages, segs[1..])
  {
  }

  /** What moving the segments one after the other does, starting `at` bytes into the disk. */
  function Transferred(w: World, write: bool, at: nat, segs: seq<Segment>): World
    requires Mapped(w.pages, segs) && at + Total(segs) <= |w.disk|
    decreases |segs|
  {
    if segs == [] then w
    else
      Split(w.pages, segs);
      MoveKeeps(w, write, at, segs[0], segs[1..]);
      Transferred(Move(w, write, at, segs[0]), write, at + Moved(segs[0]), segs[1..])
  }

  predicate WholeSectors(segs: seq<Segment>) {
    forall i :: 0 <= i < |segs| ==> segs[i].len % SECTOR == 0
  }

  function Bytelen(segs: seq<Segment>): nat {
    if segs == [] then 0 else segs[0].len + Bytelen(segs[1..])
  }

  /* ---------- the same, as one run of bytes ---------- */

  /** Everything the segments hold, as one sequence. */
  function Gather(pages: map<nat, seq<byte>>, segs: seq<Segment>): (r: seq<byte>)
    requires Mapped(pages, segs)
    ensures |r| == Total(segs)
    decreases |segs|
  {
    if segs == [] then []
    else
      Split(pages, segs);
      Fetch(pages, segs[0]) + Gather(pages, segs[1..])
  }

  /** One sequence laid out over the segments. */
  function Scatter(pages: map<nat, seq<byte>>, segs: seq<Segment>, bytes: seq<byte>): map<nat, seq<byte>>
    requires Mapped(pages, segs) && |bytes| == Total(segs)
    decreases |segs|
  {
    if segs == [] then pages
    else
      Split(pages, segs);
      var n := Moved(segs[0]);
      PutKeeps(pages, segs[0], bytes[..n], segs[1..]);
      Scatter(Put(pages, segs[0], bytes[..n]), segs[1..], bytes[n..])
  }

  lemma PutKeeps(pages: map<nat, seq<byte>>, seg: Segment, bytes: seq<byte>, segs: seq<Segment>)
    requires Lies(pages, seg) && |bytes| == Moved(seg) && Mapped(pages, segs)
    ensures Mapped(Put(pages, seg, bytes), segs)
  {
  }

  /** A request on a flat disk: one contiguous run written from, or read into, the segments. */
  function Flat(w: World, req: Request): World
    requires InRange(w, req)
  {
    var at, n := req.pos * SECTOR, Total(req.segs);
    if req.write then World(Splice(w.disk, at, Gather(w.pages, req.segs)), w.pages)
    else World(w.disk, Scatter(w.pages, req.segs, w.disk[at..at + n]))
  }

  lemma RunSplits(disk: seq<byte>, at: nat, n: nat, rest: nat)
    requires at + n + rest <= |disk|
    ensures disk[at..at + n + rest][..n] == disk[at..at + n]
    ensures disk[at..at + n + rest][n..] == disk[at + n..at + n + rest]
  {
  }

  /** Segment by segment is the same as all at once, however the segments lie in memory. */
  lemma {:induction false} TransferIsFlat(w: World, write: bool, at: nat, segs: seq<Segment>)
    requires Mapped(w.pages, segs) && at + Total(segs) <= |w.disk|
    ensures var w' := Transferred(w, write, at, segs);
      if write then w' == World(Splice(w.disk, at, Gather(w.pages, segs)), w.pages)
      else w' == World(w.disk, Scatter(w.pages, segs, w.disk[at..at + Total(segs)]))
    decreases |segs|
  {
    if segs == [] {
      assert write ==> Splice(w.disk, at, []) == w.disk;
    } else {
      Split(w.pages, segs);
      MoveKeeps(w, write, at, segs[0], segs[1..]);
      var n, rest := Moved(segs[0]), Total(segs[1..]);
      TransferIsFlat(Move(w, write, at, segs[0]), write, at + n, segs[1..]);
      if write {
        SpliceMore(w.disk, at, Fetch(w.pages, segs[0]), Gather(w.pages, segs[1..]));
      } else {
        RunSplits(w.disk, at, n, rest);
      }
    }
  }

  lemma RequestIsFlat(w: World, req: Request)
    requires InRange(w, req)
    ensures Transferred(w, req.write, req.pos * SECTOR, req.segs) == Flat(w, req)
  {
    TransferIsFlat(w, req.write, req.pos * SECTOR, req.segs);
  }

  /* ---------- what a caller sees ---------- */

  predicate Apart(a: Segment, b: Segment) {
    a.page != b.page || a.offset + Moved(a) <= b.offset || b.offset + Moved(b) <= a.offset
  }

  predicate Disjoint(segs: seq<Segment>) {
    forall i, j :: 0 <= i < j < |segs| ==> Apart(segs[i], segs[j])
  }

  /** A byte of memory that no segment covers. */
  predicate Outside(segs: seq<Segment>, page: nat, k: nat) {
    forall i :: 0 <= i < |segs| ==> !(segs[i].page == page && segs[i].offset <= k < segs[i].offset + Moved(segs[i]))
  }

  lemma {:induction false} ScatterKeeps(pages: map<nat, seq<byte>>, segs: seq<Segment>, bytes: seq<byte>)
    requires Mapped(pages, segs) && |bytes| == Total(segs)
    ensures var after := Scatter(pages, segs, bytes);
      after.Keys == pages.Keys && forall p :: p in pages ==> (
        |after[p]| == |pages[p]| &&
        forall k :: 0 <= k < |pages[p]| && Outside(segs, p, k) ==> after[p][k] == pages[p][k])
    decreases |segs|
  {
    if segs != [] {
      Split(pages, segs);
      var n := Moved(segs[0]);
      PutKeeps(pages, segs[0], bytes[..n], segs[1..]);
      var next := Put(pages, segs[0], bytes[..n]);
      ScatterKeeps(next, segs[1..], bytes[n..]);
      forall p, k | p in pages && 0 <= k < |pages[p]| && Outside(segs, p, k)
        ensures Outside(segs[1..], p, k) && next[p][k] == pages[p][k]
      {
        assert !(segs[0].page == p && segs[0].offset <= k < segs[0].offset + Moved(segs[0]));
      }
    }
  }

  /** What segments hold depends only on the bytes they cover. */
  lemma FetchSame(pages: map<nat, seq<byte>>, after: map<nat, seq<byte>>, seg: Segment, segs: seq<Segment>)
    requires Lies(pages, seg) && after.Keys == pages.Keys && |after[seg.page]| == |pages[seg.page]|
    requires forall i :: 0 <= i < |segs| ==> Apart(seg, segs[i])
    requires forall k :: 0 <= k < |pages[seg.page]| && Outside(segs, seg.page, k) ==>
      after[seg.page][k] == pages[seg.page][k]
    ensures Fetch(after, seg) == Fetch(pages, seg)
  {
    forall k | seg.offset <= k < seg.offset + Moved(seg)
      ensures Outside(segs, seg.page, k)
    {
    }
  }

  lemma PutFetch(pages: map<nat, seq<byte>>, seg: Segment, bytes: seq<byte>)
    requires Lies(pages, seg) && |bytes| == Moved(seg)
    ensures Lies(Put(pages, seg, bytes), seg) && Fetch(Put(pages, seg, bytes), seg) == bytes
    ensures Put(pages, seg, bytes).Keys == pages.Keys
  {
    SpliceLaws(pages[seg.page], seg.offset, bytes);
  }

  lemma Rest(segs: seq<Segment>)
    requires segs != [] && Disjoint(segs)
    ensures Disjoint(segs[1..]) && forall i :: 0 <= i < |segs[1..]| ==> Apart(segs[0], segs[1..][i])
  {
    hide Apart;
  }

  /** Segments that do not overlap hold, after a read, exactly the bytes read, in order. */
  lemma {:induction false} GatherScatter(pages: map<nat, seq<byte>>, segs: seq<Segment>, bytes: seq<byte>)
    requires Mapped(pages, segs) && |bytes| == Total(segs) && Disjoint(segs)
    ensures Mapped(Scatter(pages, segs, bytes), segs) && Gather(Scatter(pages, segs, bytes), segs) == bytes
    decreases |segs|
  {
    if segs != [] {
      Split(pages, segs);
      var n := Moved(segs[0]);
      PutKeeps(pages, segs[0], bytes[..n], segs[1..]);
      var next := Put(pages, segs[0], bytes[..n]);
      PutFetch(pages, segs[0], bytes[..n]);
      Rest(segs);
      hide Put, Fetch, Apart, Moved, Disjoint;
      GatherScatter(next, segs[1..], bytes[n..]);
      ScatterKeeps(next, segs[1..], bytes[n..]);
      var after := Scatter(next, segs[1..], bytes[n..]);
      FetchSame(next, after, segs[0], segs[1..]);
      assert bytes == bytes[..n] + bytes[n..];
    }
  }

  lemma {:induction false} TotalNext(segs: seq<Segment>, i: nat)
    requires i < |segs|
    ensures Total(segs[..i + 1]) == Total(segs[..i]) + segs[i].len / 512 * 512 && Total(segs[..i + 1]) <= Total(segs)
  {
    if i > 0 {
      TotalNext(segs[1..], i - 1);
      assert segs[..i][1..] == segs[1..][..i - 1] && segs[..i + 1][1..] == segs[1..][..i];
    } else {
      assert segs[..1][1..] == [];
    }
  }

  lemma FetchAt(pages: map<nat, seq<byte>>, seg: Segment, k: nat)
    requires Lies(pages, seg) && k < Moved(seg)
    ensures k < seg.len && Fetch(pages, seg)[k] == pages[seg.page][seg.offset + k]
  {
  }

  lemma GatherNext(pages: map<nat, seq<byte>>, segs: seq<Segment>)
    requires segs != [] && Mapped(pages, segs)
    ensures Lies(pages, segs[0]) && Mapped(pages, segs[1..])
    ensures Gather(pages, segs) == Fetch(pages, segs[0]) + Gather(pages, segs[1..])
  {
    Split(pages, segs);
  }

  /** Byte `k` of segment `i` stands behind the whole sectors of the segments before it. */
  lemma {:induction false} GatherAt(pages: map<nat, seq<byte>>, segs: seq<Segment>, i: nat, k: nat)
    requires Mapped(pages, segs) && i < |segs| && k < Moved(segs[i])
    ensures Total(segs[..i]) + k < Total(segs)
    ensures k < segs[i].len && Lies(pages, segs[i])
    ensures Gather(pages, segs)[Total(segs[..i]) + k] == pages[segs[i].page][segs[i].offset + k]
    decreases |segs|
  {
    GatherNext(pages, segs);
    hide Gather, Mapped, Fetch, Lies, Moved;
    if i == 0 {
      FetchAt(pages, segs[0], k);
    } else {
      GatherAt(pages, segs[1..], i - 1, k);
      assert segs[..i][1..] == segs[1..][..i - 1];
      assert Total(segs[..i]) == Moved(segs[0]) + Total(segs[1..][..i - 1]);
    }
  }

  lemma FlatRun(w: World, req: Request, j: nat)
    requires InRange(w, req) && j < Total(req.segs)
    ensures req.pos * 512 + j < |w.disk| == |Flat(w, req).disk| && Mapped(w.pages, req.segs)
    ensures req.write ==> Flat(w, req).disk[req.pos * 512 + j] == Gather(w.pages, req.segs)[j]
    ensures req.write ==> Flat(w, req).pages == w.pages
    ensures !req.write ==> Flat(w, req).disk == w.disk
    ensures !req.write && Disjoint(req.segs) ==>
      && Mapped(Flat(w, req).pages, req.segs)
      && Gather(Flat(w, req).pages, req.segs)[j] == w.disk[req.pos * 512 + j]
  {
    hide Gather, Scatter, Disjoint, Mapped, Total;
    if !req.write && Disjoint(req.segs) {
      GatherScatter(w.pages, req.segs, w.disk[req.pos * 512..req.pos * 512 + Total(req.segs)]);
    }
  }

  /** A write puts byte `k` of segment `i` on the disk at the request's sector, behind the whole sectors of the segments
      before it. */
  lemma BytesWritten(w: World, req: Request, i: nat, k: nat)
    requires InRange(w, req) && req.write && i < |req.segs| && k < req.segs[i].len / 512 * 512
    ensures var after, seg := Flat(w, req), req.segs[i]; var at := req.pos * 512 + Total(req.segs[..i]) + k;
      && at < |after.disk| == |w.disk| && Lies(w.pages, seg) && k < seg.len
      && after.disk[at] == w.pages[seg.page][seg.offset + k] && after.pages == w.pages
  {
    InRangeMapped(w, req);
    assert k < Moved(req.segs[i]);
    hide Gather, Mapped, Total, Flat, InRange, Moved, Lies;
    GatherAt(w.pages, req.segs, i, k);
    FlatRun(w, req, Total(req.segs[..i]) + k);
  }

  /** A read into segments that do not overlap fetches it from there. */
  lemma BytesRead(w: World, req: Request, i: nat, k: nat)
    requires InRange(w, req) && !req.write && Disjoint(req.segs)
    requires i < |req.segs| && k < req.segs[i].len / 512 * 512
    ensures var after, seg := Flat(w, req), req.segs[i]; var at := req.pos * 512 + Total(req.segs[..i]) + k;
      && at < |w.disk| && Lies(after.pages, seg) && k < seg.len
      && after.pages[seg.page][seg.offset + k] == w.disk[at] && after.disk == w.disk
  {
    InRangeMapped(w, req);
    assert k < Moved(req.segs[i]);
    hide Gather, Disjoint, Mapped, Total, Flat, InRange, Moved, Lies;
    GatherAt(w.pages, req.segs, i, k);
    FlatRun(w, req, Total(req.segs[..i]) + k);
    GatherAt(Flat(w, req).pages, req.segs, i, k);
  }

  lemma InRangeMapped(w: World, req: Request)
    requires InRange(w, req)
    ensures Mapped(w.pages, req.segs)
  {
  }

  /* ---------- a queue of requests ---------- */

  /** rb_transfer's status. */
  function Status(req: Request): int {
    if WholeSectors(req.segs) && Total(req.segs) == req.count * SECTOR then 0 else -EIO
  }

  function Outcomes(reqs: seq<Request>): seq<(Request, int)> {
    seq(|reqs|, i requires 0 <= i < |reqs| => (reqs[i], Status(reqs[i])))
  }

  lemma OutcomesMore(reqs: seq<Request>, n: nat)
    requires n < |reqs|
    ensures Outcomes(reqs[..n + 1]) == Outcomes(reqs[..n]) + [(reqs[n], Status(reqs[n]))]
  {
  }

  /** A request is reported done exactly when its segments are whole sectors and add up to its size. */
  lemma {:induction false} StatusMeans(req: Request)
    ensures Status(req) == 0 <==>
      (forall i :: 0 <= i < |req.segs| ==> req.segs[i].len % 512 == 0) && Bytelen(req.segs) == req.count * 512
    ensures Status(req) == 0 || Status(req) == -5
  {
    WholeTotal(req.segs);
  }

  lemma {:induction false} WholeTotal(segs: seq<Segment>)
    ensures WholeSectors(segs) ==> Total(segs) == Bytelen(segs)
  {
    if segs != [] {
      WholeTotal(segs[1..]);
      if WholeSectors(segs) {
        assert segs[0].len % SECTOR == 0;
        assert WholeSectors(segs[1..]);
      }
    }
  }

  /** Every request stays in range of a disk and memory of this shape; serving requests does not change the shape. */
  predicate AllInRange(w: World, reqs: seq<Request>) {
    forall i :: 0 <= i < |reqs| ==> InRange(w, reqs[i])
  }

  lemma FlatShape(w: World, req: Request, next: Request)
    requires InRange(w, req)
    ensures |Flat(w, req).disk| == |w.disk| && Flat(w, req).pages.Keys == w.pages.Keys
    ensures InRange(w, next) ==> InRange(Flat(w, req), next)
  {
    if !req.write {
      ScatterKeeps(w.pages, req.segs, w.disk[req.pos * SECTOR..req.pos * SECTOR + Total(req.segs)]);
    }
  }

  /** The requests applied in order to one flat disk. */
  function Served(w: World, reqs: seq<Request>): World
    requires AllInRange(w, reqs)
    decreases |reqs|
  {
    if reqs == [] then w
    else
      ServedNext(w, reqs);
      Served(Flat(w, reqs[0]), reqs[1..])
  }

  lemma ServedNext(w: World, reqs: seq<Request>)
    requires reqs != [] && AllInRange(w, reqs)
    ensures InRange(w, reqs[0]) && AllInRange(Flat(w, reqs[0]), reqs[1..])
    ensures |Flat(w, reqs[0]).disk| == |w.disk|
  {
    forall i | 0 <= i < |reqs[1..]| ensures InRange(Flat(w, reqs[0]), reqs[1..][i]) {
      assert reqs[1..][i] == reqs[i + 1];
      FlatShape(w, reqs[0], reqs[i + 1]);
    }
    FlatShape(w, reqs[0], reqs[0]);
  }

  lemma ServedFirst(w: World, reqs: seq<Request>)
    requires reqs != [] && AllInRange(w, reqs)
    ensures InRange(w, reqs[0]) && AllInRange(Flat(w, reqs[0]), reqs[1..])
    ensures Served(w, reqs) == Served(Flat(w, reqs[0]), reqs[1..])
  {
    ServedNext(w, reqs);
  }

  /** The request served last finds what the others left. */
  lemma {:induction false} ServedLast(w: World, reqs: seq<Request>, last: Request)
    requires AllInRange(w, reqs + [last])
    ensures AllInRange(w, reqs) && InRange(Served(w, reqs), last)
    ensures Served(w, reqs + [last]) == Flat(Served(w, reqs), last)
    decreases |reqs|
  {
    hide InRange, Flat;
    var all := reqs + [last];
    assert forall i :: 0 <= i < |reqs| ==> reqs[i] == all[i];
    assert all[|reqs|] == last;
    ServedFirst(w, all);
    if reqs == [] {
      assert all[1..] == [];
    } else {
      ServedFirst(w, reqs);
      assert all[1..] == reqs[1..] + [last];
      ServedLast(Flat(w, reqs[0]), reqs[1..], last);
    }
  }

  /** The request writes none of the `n` bytes from `at`. */
  predicate Spares(req: Request, at: nat, n: nat) {
    req.write ==> req.pos * SECTOR + Total(req.segs) <= at || at + n <= req.pos * SECTOR
  }

  lemma FlatSpares(w: World, req: Request, at: nat, n: nat)
    requires InRange(w, req) && Spares(req, at, n) && at + n <= |w.disk|
    ensures |Flat(w, req).disk| == |w.disk| && Flat(w, req).disk[at..at + n] == w.disk[at..at + n]
  {
    hide Gather, Scatter;
  }

  /** Bytes no request of the queue writes are the same after it. */
  lemma {:induction false} UntouchedKept(w: World, reqs: seq<Request>, at: nat, n: nat)
    requires AllInRange(w, reqs) && at + n <= |w.disk|
    requires forall i :: 0 <= i < |reqs| ==> Spares(reqs[i], at, n)
    ensures |Served(w, reqs).disk| == |w.disk| && Served(w, reqs).disk[at..at + n] == w.disk[at..at + n]
    decreases |reqs|
  {
    if reqs != [] {
      hide Flat, Spares, AllInRange;
      ServedFirst(w, reqs);
      assert Spares(reqs[0], at, n);
      FlatSpares(w, reqs[0], at, n);
      forall i | 0 <= i < |reqs[1..]| ensures Spares(reqs[1..][i], at, n) { assert reqs[1..][i] == reqs[i + 1]; }
      UntouchedKept(Flat(w, reqs[0]), reqs[1..], at, n);
    }
  }

  /** A read returns what the last write of the same run stored, however differently the two are cut into
      segments and whatever requests came between, as long as none of them writes that run. */
  lemma {:induction false} ReadsBackWrite(w: World, store: Request, between: seq<Request>, load: Request)
    requires InRange(w, store) && store.write && !load.write && Disjoint(load.segs)
    requires AllInRange(Flat(w, store), between) && InRange(Served(Flat(w, store), between), load)
    requires load.pos == store.pos && Total(load.segs) == Total(store.segs)
    requires forall i :: 0 <= i < |between| ==> Spares(between[i], store.pos * SECTOR, Total(store.segs))
    ensures var end := Flat(Served(Flat(w, store), between), load);
      Mapped(end.pages, load.segs) && Gather(end.pages, load.segs) == Gather(w.pages, store.segs)
  {
    var at, n := store.pos * SECTOR, Total(store.segs);
    SpliceLaws(w.disk, at, Gather(w.pages, store.segs));
    UntouchedKept(Flat(w, store), between, at, n);
    var mid := Served(Flat(w, store), between);
    GatherScatter(mid.pages, load.segs, mid.disk[at..at + n]);
  }

  /* ---------- the driver ---------- */

  class RamBlock {
    const data: array<byte>                 // dev_data
    var pages: map<nat, seq<byte>>
    var queue: seq<Request>
    var ended: seq<(Request, int)>          // requests completed, with their status

    constructor (data: array<byte>, pages: map<nat, seq<byte>>, queue: seq<Request>)
      ensures this.data == data && this.pages == pages && this.queue == queue && ended == []
    {
      this.data, this.pages, this.queue, ended := data, pages, queue, [];
    }

    ghost function Now(): World
      reads this, data
    {
      World(data[..], pages)
    }

    /** ramdevice_write. */
    method DeviceWrite(sectorOff: nat, buffer: seq<byte>, sectors: nat)
      requires sectorOff * SECTOR + sectors * SECTOR <= data.Length && |buffer| == sectors * SECTOR
      modifies data
      ensures data[..] == Splice(old(data[..]), sectorOff * SECTOR, buffer)
    {
      forall i | 0 <= i < |buffer| {
        data[sectorOff * SECTOR + i] := buffer[i];
      }
    }

    /** ramdevice_read; `seg` says where the bytes go. */
    method DeviceRead(sectorOff: nat, seg: Segment, sectors: nat)
      requires sectorOff * SECTOR + sectors * SECTOR <= data.Length
      requires Lies(pages, seg) && Moved(seg) == sectors * SECTOR
      modifies `pages
      ensures pages == Put(old(pages), seg, data[sectorOff * SECTOR..sectorOff * SECTOR + sectors * SECTOR])
    {
      var bytes := data[sectorOff * SECTOR..sectorOff * SECTOR + sectors * SECTOR];
      pages := pages[seg.page := Splice(pages[seg.page], seg.offset, bytes)];
    }

    /** rb_transfer. */
    method Transfer(req: Request) returns (ret: int)
      requires InRange(Now(), req)
      modifies `pages, data
      ensures Now() == Transferred(old(Now()), req.write, req.pos * SECTOR, req.segs) && ret == Status(req)
    {
      ghost var goal, rest := Transferred(Now(), req.write, req.pos * SECTOR, req.segs), req.segs;
      assert Pending(req, 0, rest, goal);
      hide *;
      var sectorOffset: nat, i := 0, 0;
      ret := 0;
      LoopStarts(req);
      while i < |req.segs|
        invariant 0 <= i <= |req.segs|
        invariant Pending(req, sectorOffset, rest, goal) && Reached(req, i, sectorOffset, rest, ret)
      {
        LoopGoesOn(req, i, sectorOffset, rest, ret);
        if req.segs[i].len % SECTOR != 0 {
          ret := -EIO;
        }
        var sectors := req.segs[i].len / SECTOR;
        MoveSegment(req, req.segs[i], sectors, sectorOffset, rest, goal);
        rest := rest[1..];
        sectorOffset := sectorOffset + sectors;
        i := i + 1;
      }
      LoopEnds(req, sectorOffset, rest, ret);
      NonePending(req, sectorOffset, goal);
      if sectorOffset != req.count {
        ret := -EIO;
      }
    }

    /** Moving the rest of the segments from here on gives `goal`. */
    ghost predicate Pending(req: Request, sectorOffset: nat, rest: seq<Segment>, goal: World)
      reads this, data
    {
      var at := (req.pos + sectorOffset) * SECTOR;
      Mapped(pages, rest) && at + Total(rest) <= data.Length && Transferred(Now(), req.write, at, rest) == goal
    }

    lemma NonePending(req: Request, sectorOffset: nat, goal: World)
      requires Pending(req, sectorOffset, [], goal)
      ensures Now() == goal && Total([]) == 0
    {
    }

    /** The body of the segment loop. */
    method MoveSegment(req: Request, seg: Segment, sectors: nat, sectorOffset: nat,
                       ghost rest: seq<Segment>, ghost goal: World)
      requires rest != [] && rest[0] == seg && sectors == seg.len / SECTOR && Pending(req, sectorOffset, rest, goal)
      modifies `pages, data
      ensures Pending(req, sectorOffset + sectors, rest[1..], goal)
    {
      ghost var was := Now();
      Split(pages, rest);
      MoveKeeps(was, req.write, (req.pos + sectorOffset) * SECTOR, seg, rest[1..]);
      if req.write {
        DeviceWrite(req.pos + sectorOffset, pages[seg.page][seg.offset..seg.offset + sectors * SECTOR], sectors);
      } else {
        DeviceRead(req.pos + sectorOffset, seg, sectors);
      }
      assert Now() == Move(was, req.write, (req.pos + sectorOffset) * SECTOR, seg);
    }

    /** rb_request: the queue is drained in order, each request completed once with its own status. */
    method ServeQueue()
      requires AllInRange(Now(), queue)
      modifies this, data
      ensures queue == [] && Now() == Served(old(Now()), old(queue))
      ensures ended == old(ended) + Outcomes(old(queue))
    {
      ghost var goal, all := Served(Now(), queue), queue;
      ghost var n: nat := 0;
      while queue != []
        invariant 0 <= n <= |all| && queue == all[n..]
        invariant AllInRange(Now(), queue) && Served(Now(), queue) == goal
        invariant ended == old(ended) + Outcomes(all[..n])
        decreases |queue|
      {
        var req := queue[0];
        ServedFirst(Now(), queue);
        RequestIsFlat(Now(), req);
        hide Flat, Transferred, Status, AllInRange, Served, Outcomes;
        OutcomesMore(all, n);
        queue := queue[1..];
        var ret := Transfer(req);
        ended := ended + [(req, ret)];
        n := n + 1;
      }
    }
  }

  /** `i` segments done: the sectors they moved, the segments left and the status so far. */
  ghost predicate Reached(req: Request, i: nat, sectors: nat, rest: seq<Segment>, ret: int) {
    && i <= |req.segs| && rest == req.segs[i..] && sectors * SECTOR + Total(rest) == Total(req.segs)
    && ret == if WholeSectors(req.segs[..i]) then 0 else -EIO
  }

  lemma LoopStarts(req: Request)
    ensures Reached(req, 0, 0, req.segs, 0)
  {
  }

  lemma LoopGoesOn(req: Request, i: nat, sectors: nat, rest: seq<Segment>, ret: int)
    requires Reached(req, i, sectors, rest, ret) && i < |req.segs|
    ensures rest != [] && rest[0] == req.segs[i]
    ensures var len := req.segs[i].len;
      Reached(req, i + 1, sectors + len / SECTOR, rest[1..], if len % SECTOR != 0 then -EIO else ret)
  {
    assert rest[1..] == req.segs[i + 1..];
    WholeNext(req.segs, i);
    hide WholeSectors;
  }

  lemma LoopEnds(req: Request, sectors: nat, rest: seq<Segment>, ret: int)
    requires Reached(req, |req.segs|, sectors, rest, ret)
    ensures rest == [] && Status(req) == if sectors != req.count then -EIO else ret
  {
    assert req.segs[..|req.segs|] == req.segs;
    hide WholeSectors;
  }

  lemma WholeNext(segs: seq<Segment>, i: nat)
    requires i < |segs|
    ensures WholeSectors(segs[..i + 1]) <==> WholeSectors(segs[..i]) && segs[i].len % SECTOR == 0
  {
    assert segs[..i + 1] == segs[..i] + [segs[i]];
    assert segs[..i + 1][i] == segs[i];
    assert forall j :: 0 <= j < i ==> segs[..i + 1][j] == segs[..i][j];
  }
}
