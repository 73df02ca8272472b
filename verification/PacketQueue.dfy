/** The packet queue device: a singly linked list of fixed-size buffers between the globals qhead and qtail. */
module PacketQueue {
  import opened Bytes

  const MAX_BUF: nat := 120
  const ENOMEM: int := 12
  const ENODATA: int := 61

  /** struct tdd_buf; the buffer is part of the node, MAX_BUF bytes. */
  class TddBuf {
    var bufSize: nat
    var buffer: seq<byte>
    var link: TddBuf?

    constructor (junk: seq<byte>)
      requires |junk| == MAX_BUF
      ensures buffer == junk
    {
      buffer := junk;
    }

    ghost predicate Holds(record: seq<byte>)
      reads `bufSize, `buffer
    {
      |buffer| == MAX_BUF && bufSize <= MAX_BUF && record == buffer[..bufSize]
    }
  }

  /** What the node at `i` links to. */
  function Next(nodes: seq<TddBuf>, i: nat): TddBuf? {
    if i + 1 < |nodes| then nodes[i + 1] else null
  }

  ghost predicate AllHold(nodes: seq<TddBuf>, records: seq<seq<byte>>)
    requires |nodes| == |records|
    reads nodes`bufSize, nodes`buffer
  {
    forall i :: 0 <= i < |nodes| ==> nodes[i].Holds(records[i])
  }

  ghost predicate Chain(nodes: seq<TddBuf>)
    reads nodes`link
  {
    && (forall i :: 0 <= i < |nodes| ==> nodes[i].link == Next(nodes, i))
    && (forall i, j :: 0 <= i < j < |nodes| ==> nodes[i] != nodes[j])
  }

  /** A node that holds a record extends what the list stands for. */
  lemma Longer(nodes: seq<TddBuf>, records: seq<seq<byte>>, ptr: TddBuf)
    requires |nodes| == |records| && AllHold(nodes, records)
    requires |ptr.buffer| == MAX_BUF && ptr.bufSize <= MAX_BUF
    ensures AllHold(nodes + [ptr], records + [ptr.buffer[..ptr.bufSize]])
  {
  }

  class Device {
    var qhead: TddBuf?
    var qtail: TddBuf?
    ghost var nodes: seq<TddBuf>          // the list from qhead
    ghost var records: seq<seq<byte>>     // what it stands for
    ghost var held: nat                   // buffers obtained from kmalloc and not given to kfree

    /** When the list is empty, qtail is a dangling pointer and says nothing. */
    ghost predicate Valid()
      reads this, nodes
    {
      && (qhead == null <==> nodes == [])
      && (nodes != [] ==> qhead == nodes[0] && qtail == nodes[|nodes| - 1])
      && Chain(nodes)
      && |nodes| == |records| && AllHold(nodes, records)
      && |nodes| <= held
    }

    /** tdd_init. */
    constructor ()
      ensures Valid() && records == [] && held == 0
    {
      qhead, qtail, nodes, records, held := null, null, [], [], 0;
    }

    /** tdd_write; `memory` and `copied` say whether kmalloc and copy_from_user succeed, `junk` is what
        a fresh buffer contains. A failed copy leaves the queue as it was and leaks the buffer. */
    method Write(user: seq<byte>, memory: bool, copied: bool, junk: seq<byte>) returns (ret: int)
      requires Valid() && |junk| == MAX_BUF
      modifies this, nodes
      ensures Valid() && fresh(set n | n in nodes && n !in old(nodes))
      ensures memory && copied ==>
        var kept := user[..Min(|user|, 120)]; ret == |kept| && records == old(records) + [kept]
      ensures !(memory && copied) ==> ret == -12 && records == old(records) && nodes == old(nodes)
      ensures held == old(held) + if memory then 1 else 0
    {
      hide AllHold, Chain;
      if !memory {
        return -ENOMEM;
      }
      var ptr := new TddBuf(junk);
      held := held + 1;
      var len := Min(|user|, MAX_BUF);
      if !copied {
        return -ENOMEM;
      }
      ptr.buffer := user[..len] + ptr.buffer[len..];
      Append(ptr, len);
      return len;
    }

    method Append(ptr: TddBuf, len: nat)
      requires Valid() && |nodes| < held && ptr !in nodes && len <= MAX_BUF && |ptr.buffer| == MAX_BUF
      modifies `qhead, `qtail, `nodes, `records, ptr`link, ptr`bufSize, nodes`link
      ensures Valid() && nodes == old(nodes) + [ptr] && records == old(records) + [ptr.buffer[..len]]
    {
      hide AllHold, Chain;
      Hang(ptr);
      qtail := ptr;
      ptr.bufSize := len;
      Longer(nodes, records, ptr);
      nodes, records := nodes + [ptr], records + [ptr.buffer[..len]];
    }

    method Hang(ptr: TddBuf)
      requires Valid() && ptr !in nodes
      modifies `qhead, ptr`link, nodes`link
      ensures Chain(nodes + [ptr]) && qhead == (nodes + [ptr])[0]
    {
      hide AllHold;
      ptr.link := null;
      if qhead == null {
        qhead := ptr;
      } else {
        qtail.link := ptr;
      }
    }

    /** tdd_read; `copied` says whether copy_to_user succeeds. The record leaves the list either way,
        and a failed copy leaks its buffer. */
    method Read(count: nat, copied: bool) returns (ret: int, user: seq<byte>)
      requires Valid()
      modifies this
      ensures Valid()
      ensures old(records) == [] ==> ret == -61 && user == [] && records == [] && nodes == [] && held == old(held)
      ensures old(records) != [] ==> (
        && records == old(records)[1..] && nodes == old(nodes)[1..]
        && (if copied then user == old(records)[0][..Min(count, |old(records)[0]|)] && ret == |user|
            else ret == -1 && user == [])
        && held == old(held) - if copied then 1 else 0)
    {
      user := [];
      if qhead == null {
        return -ENODATA, [];
      }
      var ptr := Unlink();
      var len := Min(count, ptr.bufSize);
      if !copied {
        return -1, [];
      }
      user := ptr.buffer[..len];
      held := held - 1;
      return len, user;
    }

    method Unlink() returns (ptr: TddBuf)
      requires Valid() && qhead != null
      modifies this
      ensures Valid() && records == old(records)[1..] && nodes == old(nodes)[1..]
      ensures ptr.Holds(old(records)[0]) && held == old(held) > |nodes| && qtail == old(qtail)
    {
      ptr := qhead;
      ghost var was := nodes;
      qhead := qhead.link;
      nodes, records := nodes[1..], records[1..];
      assert forall i :: 0 <= i < |nodes| ==> nodes[i] == was[i + 1];
    }
  }

  /* ---------- runs ---------- */

  datatype Op = Put(data: seq<byte>) | Get(count: nat)

  function Effect(q: seq<seq<byte>>, got: seq<seq<byte>>, op: Op): (seq<seq<byte>>, seq<seq<byte>>) {
    match op
    case Put(data) => (q + [data[..Min(|data|, MAX_BUF)]], got)
    case Get(count) => if q == [] then (q, got) else (q[1..], got + [q[0][..Min(count, |q[0]|)]])
  }

  /** The abstract queue: what a run of operations leaves in it, and what its reads returned. */
  function Fifo(q: seq<seq<byte>>, ops: seq<Op>): (seq<seq<byte>>, seq<seq<byte>>) {
    if ops == [] then (q, [])
    else var (q', got) := Fifo(q, ops[..|ops| - 1]); Effect(q', got, ops[|ops| - 1])
  }

  function Puts(ops: seq<Op>): seq<seq<byte>> {
    if ops == [] then []
    else
      var before := Puts(ops[..|ops| - 1]);
      match ops[|ops| - 1]
      case Put(data) => before + [data[..Min(|data|, 120)]]
      case Get(_) => before
  }

  /** First in, first out: the k-th successful read returns a prefix of the k-th record written, and
      what is left in the queue is exactly the records written after those. */
  lemma {:induction false} FifoOrder(ops: seq<Op>)
    ensures var (q, got) := Fifo([], ops);
      && |got| <= |Puts(ops)| && q == Puts(ops)[|got|..]
      && forall k :: 0 <= k < |got| ==> got[k] <= Puts(ops)[k]
  {
    if ops != [] {
      FifoOrder(ops[..|ops| - 1]);
    }
  }

  /** A device used only through successful operations behaves as the abstract queue, and every buffer
      it gives up is freed: what is held beyond the queue never changes. */
  method Drive(d: Device, ops: seq<Op>, junk: seq<byte>) returns (got: seq<seq<byte>>)
    requires d.Valid() && |junk| == MAX_BUF
    modifies d, d.nodes
    ensures d.Valid() && (d.records, got) == Fifo(old(d.records), ops)
    ensures d.held - |d.records| == old(d.held - |d.records|)
  {
    got := [];
    var i := 0;
    ghost var start := d.records;
    while i < |ops|
      invariant 0 <= i <= |ops| && d.Valid()
      invariant fresh(set n | n in d.nodes && n !in old(d.nodes))
      invariant (d.records, got) == Fifo(start, ops[..i])
      invariant d.held - |d.records| == old(d.held - |d.records|)
    {
      got := Step(d, ops[i], got, junk);
      assert ops[..i + 1][..i] == ops[..i];
      i := i + 1;
    }
    assert ops[..i] == ops;
  }

  method Step(d: Device, op: Op, got: seq<seq<byte>>, junk: seq<byte>) returns (more: seq<seq<byte>>)
    requires d.Valid() && |junk| == MAX_BUF
    modifies d, d.nodes
    ensures d.Valid() && fresh(set n | n in d.nodes && n !in old(d.nodes))
    ensures (d.records, more) == Effect(old(d.records), got, op)
    ensures d.held - |d.records| == old(d.held - |d.records|)
  {
    more := got;
    match op {
    case Put(data) =>
      var _ := d.Write(data, true, true, junk);
    case Get(count) =>
      var ret, user := d.Read(count, true);
      if ret >= 0 {
        more := got + [user];
      }
    }
  }
}
