/** The epoll server's table: connections are found by descriptor, among entries that stay behind when a
    connection is closed. */
module EpollTable {
  import opened Slots

  /** accept()'s descriptors, the batches epoll_wait returns, and handle_client's outcome for event `i`. */
  datatype World = World(accept: Policy, wait: (nat, set<int>) -> seq<int>, hangup: (nat, nat, int) -> bool)

  /** epoll_wait reports different registered descriptors, at most `maxevents` of them. */
  ghost predicate Batches(w: World, maxevents: nat) {
    forall t: nat, fds: set<int> {:trigger w.wait(t, fds)} ::
      && |w.wait(t, fds)| <= maxevents
      && (forall i :: 0 <= i < |w.wait(t, fds)| ==> w.wait(t, fds)[i] in fds)
      && forall i, j :: 0 <= i < j < |w.wait(t, fds)| ==> w.wait(t, fds)[i] != w.wait(t, fds)[j]
  }

  /* ---------- the table ---------- */

  datatype Table = Table(open: seq<bool>, cd: seq<int>, nopen: int, kernel: set<int>)

  /** No earlier entry of `cd`, open or stale, holds the descriptor of an open slot. */
  ghost predicate FirstMatch(t: Table) {
    |t.open| <= |t.cd| && forall a, b :: 0 <= a < b < |t.open| && t.open[b] ==> t.cd[a] != t.cd[b]
  }

  ghost predicate Inv(base: set<int>, sd: int, t: Table) {
    && |t.open| <= |t.cd| && sd in base && base !! OpenFds(t.open, t.cd)
    && t.kernel == base + OpenFds(t.open, t.cd)
    && t.nopen == Count(t.open) && FirstMatch(t)
  }

  function Accepted(t: Table, fd: int): Table
    requires FirstFree(t.open, |t.open|) < |t.open| <= |t.cd|
  {
    var ci := FirstFree(t.open, |t.open|);
    Table(t.open[ci := true], t.cd[ci := fd], t.nopen + 1, t.kernel + {fd})
  }

  /** Filling the first free slot puts the new descriptor behind open slots only, so whatever the
      kernel's numbering rule, it stays the first match for its descriptor. */
  lemma AcceptKeeps(base: set<int>, sd: int, t: Table, fd: int)
    requires Inv(base, sd, t) && t.nopen < |t.open| && fd !in t.kernel
    ensures FirstFree(t.open, |t.open|) < |t.open| && Inv(base, sd, Accepted(t, fd))
    ensures OpenFds(Accepted(t, fd).open, Accepted(t, fd).cd) == OpenFds(t.open, t.cd) + {fd}
  {
    RoomLeft(t.open);
    var ci := FirstFree(t.open, |t.open|);
    assert Distinct(t.open, t.cd);
    Fill(t.open, t.cd, ci, fd);
    var t' := Accepted(t, fd);
    forall a, b | 0 <= a < b < |t'.open| && t'.open[b] ensures t'.cd[a] != t'.cd[b] {
      if b == ci { assert t.cd[a] in OpenFds(t.open, t.cd) by { assert t.open[a]; } }
      if a == ci { assert t.cd[b] in OpenFds(t.open, t.cd) by { assert t.open[b]; } }
    }
  }

  /** The slot terminate_client finds by descriptor, ignoring isopen. */
  function Find(cd: seq<int>, fd: int, n: nat): (ci: nat)
    requires n <= |cd|
    ensures ci <= n && (ci < n ==> cd[ci] == fd) && forall j :: 0 <= j < ci ==> cd[j] != fd
  {
    if n == 0 then 0
    else
      var i := Find(cd, fd, n - 1);
      if i < n - 1 || cd[i] == fd then i else n
  }

  function Terminated(t: Table, ci: nat): Table
    requires ci < |t.open| <= |t.cd|
  {
    Table(t.open[ci := false], t.cd, t.nopen - 1, t.kernel - {t.cd[ci]})
  }

  /** terminate_client's first match is the open slot of the connection, never a stale one. */
  lemma TerminateFinds(base: set<int>, sd: int, t: Table, fd: int)
    requires Inv(base, sd, t) && fd in OpenFds(t.open, t.cd)
    ensures var ci := Find(t.cd, fd, |t.open|);
      && ci < |t.open| && t.open[ci] && t.cd[ci] == fd
      && Inv(base, sd, Terminated(t, ci))
      && OpenFds(Terminated(t, ci).open, t.cd) == OpenFds(t.open, t.cd) - {fd}
  {
    var b :| 0 <= b < |t.open| && t.open[b] && t.cd[b] == fd;
    var ci := Find(t.cd, fd, |t.open|);
    assert ci == b;
    assert Distinct(t.open, t.cd);
    Release(t.open, t.cd, ci);
  }

  /* ---------- lockstep under the lowest-free-descriptor rule ---------- */

  /** Every lower number outside `base` is held by an earlier slot. */
  ghost predicate NoneSkipped(base: set<int>, cd: seq<int>, i: nat) {
    i < |cd| && forall x: nat :: x < cd[i] && x !in base ==> x in cd[..i]
  }

  /** The first `m` slots, the only ones ever used, hold the `m` lowest descriptors outside `base`,
      in increasing order, whether open or stale. */
  ghost predicate Lockstep(base: set<int>, t: Table, m: nat) {
    && m <= |t.open| <= |t.cd|
    && (forall i :: m <= i < |t.open| ==> !t.open[i])
    && (forall i, j :: 0 <= i < j < m ==> t.cd[i] < t.cd[j])
    && (forall i :: 0 <= i < m ==> t.cd[i] >= 0 && t.cd[i] !in base)
    && (forall i :: 0 <= i < m ==> NoneSkipped(base, t.cd, i))
  }

  /** accept() then gives slot `ci` the very descriptor it had before, or the next one for a new slot. */
  lemma LockstepAccept(base: set<int>, sd: int, t: Table, m: nat, fd: int)
    requires Inv(base, sd, t) && Lockstep(base, t, m) && t.nopen < |t.open|
    requires fd >= 0 && fd !in t.kernel && forall x: nat :: x !in t.kernel ==> fd <= x
    ensures var ci := FirstFree(t.open, |t.open|);
      && ci <= m && ci < |t.open| && (ci < m ==> fd == t.cd[ci])
      && Lockstep(base, Accepted(t, fd), if ci == m then m + 1 else m)
  {
    RoomLeft(t.open);
    var ci := FirstFree(t.open, |t.open|);
    forall i | 0 <= i < ci ensures t.cd[i] in t.kernel {
      assert t.open[i] && t.cd[i] in OpenFds(t.open, t.cd);
    }
    assert m < |t.open| ==> !t.open[m];
    if ci < m {
      LockstepReuse(base, sd, t, m, ci, fd);
      assert t.cd[ci := fd] == t.cd;
    } else {
      LockstepExtend(base, sd, t, m, fd);
    }
  }

  lemma BelowInKernel(base: set<int>, t: Table, i: nat, fd: int)
    requires i < |t.cd| && NoneSkipped(base, t.cd, i) && base <= t.kernel
    requires fd >= 0 && fd !in t.kernel && forall j :: 0 <= j < i ==> t.cd[j] in t.kernel
    ensures t.cd[i] <= fd
  {
    var earlier := t.cd[..i];
    assert forall j :: 0 <= j < i ==> earlier[j] in t.kernel;
    assert fd < t.cd[i] ==> fd in earlier;
  }

  /** A closed slot's old descriptor is the lowest one free. */
  lemma LockstepReuse(base: set<int>, sd: int, t: Table, m: nat, ci: nat, fd: int)
    requires Inv(base, sd, t) && Lockstep(base, t, m) && ci < m && !t.open[ci]
    requires forall i :: 0 <= i < ci ==> t.cd[i] in t.kernel
    requires fd >= 0 && fd !in t.kernel && forall x: nat :: x !in t.kernel ==> fd <= x
    ensures fd == t.cd[ci]
  {
    assert forall b :: 0 <= b < |t.open| && t.open[b] ==> t.cd[b] != t.cd[ci];
    assert t.cd[ci] !in t.kernel;
    BelowInKernel(base, t, ci, fd);
  }

  /** With every used slot open, the lowest free descriptor lies above all of theirs and skips none. */
  lemma LockstepExtend(base: set<int>, sd: int, t: Table, m: nat, fd: int)
    requires Inv(base, sd, t) && Lockstep(base, t, m) && m < |t.open|
    requires forall i :: 0 <= i < m ==> t.cd[i] in t.kernel
    requires fd >= 0 && fd !in t.kernel && forall x: nat :: x !in t.kernel ==> fd <= x
    ensures Lockstep(base, Table(t.open[m := true], t.cd[m := fd], t.nopen + 1, t.kernel + {fd}), m + 1)
  {
    var cd := t.cd[m := fd];
    forall i | 0 <= i < m ensures t.cd[i] < fd && NoneSkipped(base, cd, i) {
      assert NoneSkipped(base, t.cd, i);
      assert cd[..i] == t.cd[..i];
      BelowInKernel(base, t, i, fd);
    }
    forall x: nat | x < fd && x !in base ensures x in cd[..m] {
      var k := HeldBySlot(base, sd, t, m, x);
      assert cd[..m][k] == x;
    }
    hide Inv, NoneSkipped;
  }

  lemma HeldBySlot(base: set<int>, sd: int, t: Table, m: nat, x: nat) returns (k: nat)
    requires Inv(base, sd, t) && Lockstep(base, t, m) && x in t.kernel && x !in base
    ensures k < m && t.cd[k] == x
  {
    assert x in OpenFds(t.open, t.cd);
    k :| 0 <= k < |t.open| && t.open[k] && t.cd[k] == x;
  }

  /** When the process's own descriptors are 0..b-1, slot `i` holds descriptor b + i. */
  lemma {:induction false} LockstepNumbers(b: nat, base: set<int>, t: Table, m: nat, i: nat)
    requires Lockstep(base, t, m) && i < m && forall x :: x in base <==> 0 <= x < b
    ensures t.cd[i] == b + i
    decreases i
  {
    if i > 0 {
      LockstepNumbers(b, base, t, m, i - 1);
    }
    if t.cd[i] > b + i {
      var x: nat := b + i;
      assert NoneSkipped(base, t.cd, i) && x in t.cd[..i];
      var k :| 0 <= k < i && t.cd[k] == x;
      LockstepNumbers(b, base, t, m, k);
    }
  }

  /** Closing a connection leaves the numbers where they are. */
  lemma LockstepTerminate(base: set<int>, t: Table, m: nat, ci: nat)
    requires Lockstep(base, t, m) && ci < |t.open|
    ensures Lockstep(base, Terminated(t, ci), m)
  {}
}
