/** The connection table shared by the concurrent servers, and what the servers need from the kernel. */
module Slots {

  /* ---------- the kernel side ---------- */

  /** Which descriptor accept() hands out, given a clock and the descriptors open in the process. */
  type Policy = (nat, set<int>) -> int

  /** What the outside decides: accept()'s descriptors, which descriptors select() or poll() finds ready,
      and on which of them handle_client reports a shutdown. */
  datatype Outside = Outside(accept: Policy, ready: (nat, set<int>) -> set<int>, hangup: (nat, int) -> bool)

  ghost predicate Fresh(p: Policy) {
    forall t: nat, s: set<int> {:trigger p(t, s)} :: p(t, s) >= 0 && p(t, s) !in s
  }

  /** Section 2.14 of the POSIX.1-2017 System Interfaces volume: the lowest number not in use. */
  ghost predicate LowestFree(p: Policy) {
    Fresh(p) && forall t: nat, s: set<int>, x: nat :: x !in s ==> p(t, s) <= x
  }

  /** The lowest number from `x` on that is not in `s`. */
  function Lowest(s: set<int>, x: nat): (r: nat)
    ensures r >= x && r !in s && forall y :: x <= y < r ==> y in s
    decreases s
  {
    if x in s then Lowest(s - {x}, x + 1) else x
  }

  const LOWEST: Policy := (t, s) => Lowest(s, 0)

  lemma LowestIsLowest()
    ensures LowestFree(LOWEST)
  {
  }

  /* ---------- the table ---------- */

  function Count(open: seq<bool>): nat {
    if open == [] then 0 else (if open[|open| - 1] then 1 else 0) + Count(open[..|open| - 1])
  }

  lemma {:induction false} CountUpdate(open: seq<bool>, i: nat, b: bool)
    requires i < |open|
    ensures Count(open[i := b]) == Count(open) + (if b then 1 else 0) - (if open[i] then 1 else 0)
  {
    var n := |open| - 1;
    if i == n {
      assert open[i := b][..n] == open[..n];
    } else {
      assert open[i := b][..n] == open[..n][i := b];
      CountUpdate(open[..n], i, b);
    }
  }

  lemma {:induction false} CountBounds(open: seq<bool>)
    ensures Count(open) <= |open|
    ensures Count(open) == |open| <==> forall i :: 0 <= i < |open| ==> open[i]
    ensures Count(open) == 0 <==> forall i :: 0 <= i < |open| ==> !open[i]
  {
    if open != [] {
      var front := open[..|open| - 1];
      CountBounds(front);
      assert forall i :: 0 <= i < |front| ==> front[i] == open[i];
    }
  }

  /** The first free slot below `n`, or `n`. */
  function FirstFree(open: seq<bool>, n: nat): (i: nat)
    requires n <= |open|
    ensures i <= n
    ensures i < n ==> !open[i]
    ensures forall j :: 0 <= j < i ==> open[j]
  {
    if n == 0 then 0
    else
      var i := FirstFree(open, n - 1);
      if i < n - 1 || !open[i] then i else n
  }

  lemma FirstFreeFront(open: seq<bool>, n: nat)
    requires n <= |open|
    ensures FirstFree(open, n) == FirstFree(open[..n], n)
  {
    assert forall k :: 0 <= k < n ==> open[..n][k] == open[k];
  }

  /** Fewer connections than slots leaves a free slot. */
  lemma RoomLeft(open: seq<bool>)
    requires Count(open) < |open|
    ensures FirstFree(open, |open|) < |open|
  {
    CountBounds(open);
  }

  function OpenFds(open: seq<bool>, cd: seq<int>): set<int>
    requires |open| <= |cd|
  {
    set i | 0 <= i < |open| && open[i] :: cd[i]
  }

  ghost predicate Distinct(open: seq<bool>, cd: seq<int>)
    requires |open| <= |cd|
  {
    forall i, j :: 0 <= i < j < |open| && open[i] && open[j] ==> cd[i] != cd[j]
  }

  /** Filling a free slot with a new descriptor. */
  lemma Fill(open: seq<bool>, cd: seq<int>, ci: nat, fd: int)
    requires |open| <= |cd| && ci < |open| && !open[ci] && Distinct(open, cd) && fd !in OpenFds(open, cd)
    ensures var open', cd' := open[ci := true], cd[ci := fd];
      Distinct(open', cd') && OpenFds(open', cd') == OpenFds(open, cd) + {fd} && Count(open') == Count(open) + 1
  {
    CountUpdate(open, ci, true);
    var open', cd' := open[ci := true], cd[ci := fd];
    forall x ensures x in OpenFds(open', cd') <==> x in OpenFds(open, cd) + {fd} {
      if x in OpenFds(open, cd) {
        var i :| 0 <= i < |open| && open[i] && cd[i] == x;
        assert open'[i] && cd'[i] == x;
      }
      if x == fd { assert open'[ci] && cd'[ci] == x; }
      if x in OpenFds(open', cd') {
        var i :| 0 <= i < |open'| && open'[i] && cd'[i] == x;
        assert i == ci || (open[i] && cd[i] == x);
      }
    }
    forall i, j | 0 <= i < j < |open'| && open'[i] && open'[j] ensures cd'[i] != cd'[j] {
      assert i != ci ==> cd[i] in OpenFds(open, cd);
      assert j != ci ==> cd[j] in OpenFds(open, cd);
    }
  }

  /** Releasing an open slot; its descriptor stays behind in `cd`. */
  lemma Release(open: seq<bool>, cd: seq<int>, ci: nat)
    requires |open| <= |cd| && ci < |open| && open[ci] && Distinct(open, cd)
    ensures var open' := open[ci := false];
      Distinct(open', cd) && OpenFds(open', cd) == OpenFds(open, cd) - {cd[ci]} && Count(open') == Count(open) - 1
  {
    CountUpdate(open, ci, false);
    var open' := open[ci := false];
    forall x ensures x in OpenFds(open', cd) <==> x in OpenFds(open, cd) - {cd[ci]} {
      if x in OpenFds(open, cd) && x != cd[ci] {
        var i :| 0 <= i < |open| && open[i] && cd[i] == x;
        assert open'[i];
      }
      if x in OpenFds(open', cd) {
        var i :| 0 <= i < |open'| && open'[i] && cd[i] == x;
        assert open[i] && i != ci;
      }
    }
  }

  /* ---------- one pass over the table ---------- */

  /** The slots below `ci` have lost the descriptors in `drop`, the others are as they were. */
  ghost predicate Kept(open: seq<bool>, fds: seq<int>, drop: set<int>, now: seq<bool>, ci: nat)
    requires |open| == |fds|
  {
    |now| == |open| && forall j :: 0 <= j < |open| ==> now[j] == (open[j] && !(j < ci && fds[j] in drop))
  }

  lemma KeptAll(open: seq<bool>, fds: seq<int>, drop: set<int>, now: seq<bool>)
    requires |open| == |fds| && Kept(open, fds, drop, now, |open|)
    ensures OpenFds(now, fds) == OpenFds(open, fds) - drop
  {
    forall x ensures x in OpenFds(now, fds) <==> x in OpenFds(open, fds) - drop {
      if x in OpenFds(open, fds) - drop {
        var j :| 0 <= j < |open| && open[j] && fds[j] == x;
        assert now[j];
      }
    }
  }

  /** `calls` lists, once each, the descriptors in `ready` of the open slots below `ci`. */
  ghost predicate Called(open: seq<bool>, fds: seq<int>, ready: set<int>, calls: seq<int>, ci: nat)
    requires ci <= |open| == |fds|
  {
    && (forall x :: x in calls <==> x in ready && x in OpenFds(open[..ci], fds))
    && forall i, j :: 0 <= i < j < |calls| ==> calls[i] != calls[j]
  }

  lemma NothingServed(open: seq<bool>, fds: seq<int>, ready: set<int>, drop: set<int>)
    requires |open| == |fds|
    ensures Kept(open, fds, drop, open, 0) && Called(open, fds, ready, [], 0)
  {
  }

  lemma KeptOpen(open: seq<bool>, fds: seq<int>, drop: set<int>, now: seq<bool>, ci: nat)
    requires |open| == |fds| && Kept(open, fds, drop, now, ci) && ci < |open|
    ensures now[ci] == open[ci]
  {
  }

  /** Once every slot has been looked at, each ready connection has been called exactly once. */
  lemma AllCalled(open: seq<bool>, fds: seq<int>, ready: set<int>, calls: seq<int>)
    requires |open| == |fds| && Called(open, fds, ready, calls, |open|)
    ensures forall x :: x in calls <==> x in OpenFds(open, fds) && x in ready
    ensures forall i, j :: 0 <= i < j < |calls| ==> calls[i] != calls[j]
  {
    assert open[..|open|] == open;
  }

  lemma OpenFdsStep(open: seq<bool>, fds: seq<int>, ci: nat)
    requires ci < |open| <= |fds|
    ensures OpenFds(open[..ci + 1], fds) == OpenFds(open[..ci], fds) + if open[ci] then {fds[ci]} else {}
  {
    var a, b := open[..ci], open[..ci + 1];
    forall x ensures x in OpenFds(b, fds) <==> x in OpenFds(a, fds) || (open[ci] && x == fds[ci]) {
      if x in OpenFds(a, fds) {
        var j :| 0 <= j < ci && a[j] && fds[j] == x;
        assert b[j];
      }
      if open[ci] { assert b[ci]; }
      if x in OpenFds(b, fds) {
        var j :| 0 <= j < ci + 1 && b[j] && fds[j] == x;
        assert j == ci || a[j];
      }
    }
  }

  lemma CalledStep(open: seq<bool>, fds: seq<int>, ready: set<int>, calls: seq<int>, ci: nat)
    requires ci < |open| == |fds| && Distinct(open, fds) && Called(open, fds, ready, calls, ci)
    requires open[ci] && fds[ci] in ready
    ensures Called(open, fds, ready, calls + [fds[ci]], ci + 1)
  {
    OpenFdsStep(open, fds, ci);
    assert fds[ci] !in OpenFds(open[..ci], fds);
  }

  lemma CalledSkip(open: seq<bool>, fds: seq<int>, ready: set<int>, calls: seq<int>, ci: nat)
    requires ci < |open| == |fds| && Called(open, fds, ready, calls, ci) && !(open[ci] && fds[ci] in ready)
    ensures Called(open, fds, ready, calls, ci + 1)
  {
    OpenFdsStep(open, fds, ci);
  }

  lemma NotListener(open: seq<bool>, fds: seq<int>, ci: nat)
    requires ci < |open| == |fds|
    ensures open[ci] ==> fds[ci] in OpenFds(open, fds)
  {}

  lemma Member<T>(s: set<T>) returns (x: T)
    requires s != {}
    ensures x in s
  {
    x :| x in s;
  }

  /* ---------- pigeonhole ---------- */

  /** Distinct non-negative numbers up to `m`: there are at most m + 1 of them. */
  lemma {:induction false} Pigeonhole(s: set<int>, m: int)
    requires m >= -1 && forall x :: x in s ==> 0 <= x <= m
    ensures |s| <= m + 1
  {
    if m >= 0 {
      Pigeonhole(s - {m}, m - 1);
    } else {
      assert forall x :: x !in s;
    }
  }

  /** A table whose descriptors are distinct holds as many descriptors as open slots. */
  lemma {:induction false} FdsCounted(open: seq<bool>, cd: seq<int>)
    requires |open| <= |cd| && Distinct(open, cd)
    ensures |OpenFds(open, cd)| == Count(open)
  {
    var fds := OpenFds(open, cd);
    if open == [] {
      assert fds == {};
    } else {
      var n := |open| - 1;
      var before := OpenFds(open[..n], cd);
      FdsCounted(open[..n], cd);
      OpenFdsStep(open, cd, n);
      assert open[..n + 1] == open;
      assert open[n] ==> cd[n] !in before;
      assert fds == if open[n] then before + {cd[n]} else before;
    }
  }

  /* ---------- lab_server.h ---------- */

  /** accept_one: the first free slot below `ncons` (else slot `ncons`) receives the new descriptor. */
  method AcceptOne(isopen: array<bool>, cd: array<int>, ncons: nat, fd: int) returns (ci: nat)
    requires ncons <= isopen.Length && FirstFree(isopen[..], ncons) < cd.Length
    modifies cd
    ensures ci == FirstFree(isopen[..], ncons) && cd[..] == old(cd[..])[ci := fd]
  {
    ci := 0;
    while ci < ncons
      invariant ci <= FirstFree(isopen[..], ncons)
    {
      if !isopen[ci] { break; }
      ci := ci + 1;
    }
    cd[ci] := fd;
  }

  /** The scan of accept_new_one: where it stops after starting at `start`, at most `n` steps left. */
  function NextFree(open: seq<bool>, start: nat, n: nat): (i: nat)
    requires start < |open|
    ensures i < |open|
    decreases n
  {
    if n == 0 || !open[start] then start
    else NextFree(open, if start + 1 == |open| then 0 else start + 1, n - 1)
  }

  /** accept_new_one: the scan resumes where the last one stopped and wraps round. */
  method AcceptNewOne(isopen: array<bool>, cd: array<int>, ciLast: nat, fd: int) returns (ci: nat)
    requires ciLast < isopen.Length <= cd.Length
    modifies cd
    ensures ci == NextFree(isopen[..], ciLast, isopen.Length) && cd[..] == old(cd[..])[ci := fd]
  {
    var loop := 0;
    ci := ciLast;
    while loop < isopen.Length
      invariant 0 <= loop <= isopen.Length && ci < isopen.Length
      invariant NextFree(isopen[..], ciLast, isopen.Length) == NextFree(isopen[..], ci, isopen.Length - loop)
    {
      if !isopen[ci] { break; }
      ci := ci + 1;
      if ci == isopen.Length { ci := 0; }
      loop := loop + 1;
    }
    cd[ci] := fd;
  }

  /** How many steps the scan takes from `start` to `i`. */
  function Steps(start: nat, i: nat, n: nat): int {
    if i >= start then i - start else i + n - start
  }

  lemma {:induction false} NextFreeFinds(open: seq<bool>, start: nat, n: nat, i: nat)
    requires start < |open| && i < |open| && !open[i] && Steps(start, i, |open|) < n
    ensures !open[NextFree(open, start, n)]
    decreases n
  {
    if open[start] {
      NextFreeFinds(open, if start + 1 == |open| then 0 else start + 1, n - 1, i);
    }
  }

  /** `d` slots on from `start`, going round. */
  function Ahead(start: nat, d: nat, n: nat): nat { if start + d < n then start + d else start + d - n }

  lemma {:induction false} NextFreeFirst(open: seq<bool>, start: nat, n: nat) returns (k: nat)
    requires start < |open| && n <= |open|
    ensures k <= n && NextFree(open, start, n) == Ahead(start, k, |open|)
    ensures forall d :: 0 <= d < k ==> open[Ahead(start, d, |open|)]
    ensures k < n ==> !open[NextFree(open, start, n)]
    decreases n
  {
    k := 0;
    if n > 0 && open[start] {
      var next := if start + 1 == |open| then 0 else start + 1;
      k := NextFreeFirst(open, next, n - 1);
      k := k + 1;
      assert forall d: nat :: 0 <= d < n ==> Ahead(next, d, |open|) == Ahead(start, d + 1, |open|);
      forall d | 0 <= d < k ensures open[Ahead(start, d, |open|)] {
        assert d > 0 ==> open[Ahead(next, d - 1, |open|)];
      }
    }
  }

  /** The round-robin scan stops on the first free slot going round from `start`, exactly when there is one; in a full
      table it comes back to `start`, and accept_new_one overwrites the descriptor of an open connection. */
  lemma RoundRobin(open: seq<bool>, start: nat)
    requires start < |open|
    ensures Count(open) < |open| <==> !open[NextFree(open, start, |open|)]
    ensures exists k: nat ::
      && NextFree(open, start, |open|) == Ahead(start, k, |open|)
      && (forall d :: 0 <= d < k ==> open[Ahead(start, d, |open|)])
      && if Count(open) < |open| then k < |open| else k == |open|
  {
    var k := NextFreeFirst(open, start, |open|);
    assert Ahead(start, 0, |open|) == start == Ahead(start, |open|, |open|);
    CountBounds(open);
    if Count(open) < |open| {
      var i :| 0 <= i < |open| && !open[i];
      NextFreeFinds(open, start, |open|, i);
    }
  }

  /** get_max_fd: starts from the bound it is given, so it never comes down. */
  method GetMaxFd(fdmax: int, isopen: array<bool>, cd: array<int>, ncons: nat) returns (m: int)
    requires ncons <= isopen.Length && ncons <= cd.Length
    ensures m == MaxFd(fdmax, isopen[..], cd[..], ncons)
  {
    m := fdmax;
    var j := 0;
    while j < ncons
      invariant 0 <= j <= ncons && m == MaxFd(fdmax, isopen[..], cd[..], j)
    {
      if isopen[j] && cd[j] > m { m := cd[j]; }
      j := j + 1;
    }
  }

  function MaxFd(fdmax: int, open: seq<bool>, cd: seq<int>, n: nat): int
    requires n <= |open| && n <= |cd|
  {
    if n == 0 then fdmax
    else
      var m := MaxFd(fdmax, open, cd, n - 1);
      if open[n - 1] && cd[n - 1] > m then cd[n - 1] else m
  }

  /** The least bound covering `fdmax` and every open slot below `n`. */
  lemma {:induction false} MaxFdLeast(fdmax: int, open: seq<bool>, cd: seq<int>, n: nat)
    requires n <= |open| && n <= |cd|
    ensures var m := MaxFd(fdmax, open, cd, n);
      && fdmax <= m && (forall j :: 0 <= j < n && open[j] ==> cd[j] <= m)
      && (m == fdmax || exists j :: 0 <= j < n && open[j] && cd[j] == m)
  {
    if n > 0 { MaxFdLeast(fdmax, open, cd, n - 1); }
  }
}
