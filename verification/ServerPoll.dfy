/** The poll() server: slot 0 is reserved, accept_one looks below `ncons` only, and the number of
    entries poll() looks at is a descriptor bound rather than a slot bound. */
module ServerPoll {
  import opened Slots

  /** isopen, cd, the fd and revents fields of ufds, and the scalars. */
  datatype Table = Table(open: seq<bool>, cd: seq<int>, fd: seq<int>, revents: seq<bool>,
                         fdmax: int, nopen: int, kernel: set<int>)

  /** The client slots 1..ncons. */
  function Clients(t: Table, n: nat): (seq<bool>, seq<int>)
    requires n + 1 <= |t.open| == |t.cd|
  {
    (t.open[1..n + 1], t.cd[1..n + 1])
  }

  function ClientFds(t: Table, n: nat): set<int>
    requires n + 1 <= |t.open| == |t.cd|
  {
    OpenFds(Clients(t, n).0, Clients(t, n).1)
  }

  /** The connections: open descriptors, counted, distinct. */
  ghost predicate Held(base: set<int>, sd: int, n: nat, t: Table) {
    && n + 1 <= |t.open| == |t.cd|
    && sd in base && sd >= 0 && base !! ClientFds(t, n)
    && t.kernel == base + ClientFds(t, n)
    && t.nopen == Count(Clients(t, n).0)
    && Distinct(Clients(t, n).0, Clients(t, n).1)
  }

  /** The arrays: every open slot, and its descriptor, lie within what poll() is told to look at. */
  ghost predicate Covered(sd: int, n: nat, t: Table) {
    && |t.open| == |t.cd| == |t.fd| == |t.revents| == n + 9
    && t.fd[0] == sd
    && (forall i :: n < i < n + 9 ==> !t.open[i])
    && (forall i :: 1 <= i < n + 9 ==> t.fd[i] == if t.open[i] then t.cd[i] else -1)
    && (forall i :: 1 <= i < n + 9 && t.open[i] ==> i <= t.fdmax && 0 <= t.cd[i] <= t.fdmax)
    && (forall i :: 0 <= i < n + 9 && t.revents[i] ==> i <= t.fdmax)
  }

  ghost predicate Inv(base: set<int>, sd: int, n: nat, t: Table) {
    Held(base, sd, n, t) && Covered(sd, n, t)
  }

  /** The index accept_one picks once slot 0 has been marked. */
  function Slot(t: Table, n: nat): (ci: nat)
    requires n + 1 <= |t.open|
    ensures ci <= n
  {
    FirstFree(t.open[0 := true][..n], n)
  }

  lemma SlotIsFirst(t: Table, n: nat)
    requires n + 1 <= |t.open|
    ensures Slot(t, n) == FirstFree(t.open[0 := true][..n], n) == FirstFree(t.open[0 := true], n)
  {
    FirstFreeFront(t.open[0 := true], n);
  }

  function Accepted(t: Table, n: nat, fd: int): Table
    requires n + 1 <= |t.open| == |t.cd| == |t.fd|
  {
    var ci := Slot(t, n);
    t.(open := t.open[0 := true][ci := true], cd := t.cd[ci := fd], fd := t.fd[ci := fd],
       fdmax := if fd > t.fdmax then fd else t.fdmax, nopen := t.nopen + 1, kernel := t.kernel + {fd})
  }

  /** Although accept_one never looks at slot `ncons`, with fewer than `ncons` connections it always
      ends on a free slot from 1 to `ncons`, and everything before it is taken. */
  lemma SlotFree(base: set<int>, sd: int, n: nat, t: Table)
    requires Inv(base, sd, n, t) && t.nopen < n
    ensures 1 <= Slot(t, n) <= n && !t.open[Slot(t, n)]
    ensures forall i :: 1 <= i < Slot(t, n) ==> t.open[i]
  {
    var marked := t.open[0 := true];
    var ci := Slot(t, n);
    assert marked[..n][0];
    forall i | 1 <= i < ci ensures t.open[i] {
      assert marked[..n][i];
    }
    if ci < n {
      assert !marked[..n][ci];
    } else {
      CountBounds(Clients(t, n).0);
      assert forall i :: 0 <= i < n - 1 ==> Clients(t, n).0[i] == t.open[i + 1];
    }
  }

  /** The first `k` client slots, all taken, hold `k` different descriptors, none of them the listener's. */
  lemma HeldByFront(base: set<int>, sd: int, n: nat, t: Table, k: nat) returns (held: set<int>)
    requires Inv(base, sd, n, t) && k <= n && forall i :: 1 <= i < k + 1 ==> t.open[i]
    ensures |held| == k && sd !in held && held <= ClientFds(t, n)
    ensures forall x :: x in held ==> 0 <= x <= t.fdmax
  {
    var (open, cds) := Clients(t, n);
    var front := open[..k];
    assert forall i :: 0 <= i < k ==> front[i] == t.open[i + 1];
    CountBounds(front);
    FdsCounted(front, cds);
    held := OpenFds(front, cds);
    forall x | x in held ensures x in ClientFds(t, n) && 0 <= x <= t.fdmax {
      var i :| 0 <= i < k && front[i] && cds[i] == x;
      assert open[i] && t.open[i + 1] && t.cd[i + 1] == x;
    }
  }

  /** Pigeonhole: the descriptors of slots 1..ci-1, the listener's and the new one are ci + 1
      different numbers up to the new bound, so the bound is at least `ci`. */
  lemma SlotWithinBound(base: set<int>, sd: int, n: nat, t: Table, fd: int)
    requires Inv(base, sd, n, t) && t.nopen < n && sd <= t.fdmax && fd >= 0 && fd !in t.kernel
    ensures Slot(t, n) <= if fd > t.fdmax then fd else t.fdmax
  {
    SlotFree(base, sd, n, t);
    var held := HeldByFront(base, sd, n, t, Slot(t, n) - 1);
    hide Slot, ClientFds, Clients;
    assert fd !in held && fd != sd;
    assert |held + {sd} + {fd}| == Slot(t, n) + 1;
    Pigeonhole(held + {sd} + {fd}, if fd > t.fdmax then fd else t.fdmax);
  }

  lemma AcceptHeld(base: set<int>, sd: int, n: nat, t: Table, fd: int)
    requires Held(base, sd, n, t) && |t.fd| == |t.open| && 1 <= Slot(t, n) && !t.open[Slot(t, n)] && fd !in t.kernel
    ensures Held(base, sd, n, Accepted(t, n, fd))
    ensures ClientFds(Accepted(t, n, fd), n) == ClientFds(t, n) + {fd}
  {
    hide Slot;
    var ci, t' := Slot(t, n), Accepted(t, n, fd);
    var (open, cds) := Clients(t, n);
    Fill(open, cds, ci - 1, fd);
    assert Clients(t', n).0 == open[ci - 1 := true] && Clients(t', n).1 == cds[ci - 1 := fd];
  }

  lemma AcceptCovered(sd: int, n: nat, t: Table, fd: int)
    requires Covered(sd, n, t) && fd >= 0 && 1 <= Slot(t, n) && !t.open[Slot(t, n)]
    requires Slot(t, n) <= if fd > t.fdmax then fd else t.fdmax
    ensures Covered(sd, n, Accepted(t, n, fd))
  {
    hide Slot;
  }

  lemma AcceptKeeps(base: set<int>, sd: int, n: nat, t: Table, fd: int)
    requires Inv(base, sd, n, t) && t.nopen < n && sd <= t.fdmax && fd >= 0 && fd !in t.kernel
    ensures Inv(base, sd, n, Accepted(t, n, fd))
    ensures ClientFds(Accepted(t, n, fd), n) == ClientFds(t, n) + {fd}
  {
    SlotFree(base, sd, n, t);
    SlotWithinBound(base, sd, n, t, fd);
    AcceptHeld(base, sd, n, t, fd);
    AcceptCovered(sd, n, t, fd);
    hide Held, Covered, Slot, Accepted, ClientFds;
  }

  function Terminated(t: Table, n: nat, ci: nat): Table
    requires n + 1 <= |t.open| == |t.cd| == |t.fd| && ci < |t.open|
  {
    var open := t.open[ci := false];
    t.(open := open, fd := t.fd[ci := -1],
       fdmax := if t.cd[ci] == t.fdmax then MaxFd(t.fdmax, open, t.cd, n) else t.fdmax,
       nopen := t.nopen - 1, kernel := t.kernel - {t.cd[ci]})
  }

  lemma TerminateHeld(base: set<int>, sd: int, n: nat, t: Table, ci: nat)
    requires Held(base, sd, n, t) && |t.fd| == |t.open| && 1 <= ci <= n && t.open[ci]
    ensures Held(base, sd, n, Terminated(t, n, ci))
    ensures ClientFds(Terminated(t, n, ci), n) == ClientFds(t, n) - {t.cd[ci]}
  {
    hide MaxFd;
    var t' := Terminated(t, n, ci);
    var (open, cds) := Clients(t, n);
    Release(open, cds, ci - 1);
    assert Clients(t', n).0 == open[ci - 1 := false] && Clients(t', n).1 == cds;
    assert t.cd[ci] in ClientFds(t, n) by { assert open[ci - 1] && cds[ci - 1] == t.cd[ci]; }
  }

  lemma TerminateKeeps(base: set<int>, sd: int, n: nat, t: Table, ci: nat)
    requires Inv(base, sd, n, t) && 1 <= ci <= n && t.open[ci]
    ensures Inv(base, sd, n, Terminated(t, n, ci)) && Terminated(t, n, ci).fdmax >= t.fdmax
    ensures ClientFds(Terminated(t, n, ci), n) == ClientFds(t, n) - {t.cd[ci]}
  {
    TerminateHeld(base, sd, n, t, ci);
    hide Held, MaxFd, ClientFds, Clients;
    MaxFdLeast(t.fdmax, t.open[ci := false], t.cd, n);
  }

  /** The bound moves on termination exactly when the descriptor at the bound is closed while slot 0
      is marked and cd[0], which nothing ever assigns, happens to hold a larger number. */
  lemma BoundMovesOnlyByJunk(base: set<int>, sd: int, n: nat, t: Table, ci: nat)
    requires Inv(base, sd, n, t) && 1 <= ci <= n && t.open[ci]
    ensures Terminated(t, n, ci).fdmax ==
      if t.cd[ci] == t.fdmax && t.open[0] && t.cd[0] > t.fdmax then t.cd[0] else t.fdmax
  {
    if t.cd[ci] == t.fdmax {
      JunkOnly(t.fdmax, t.open[ci := false], t.cd, n);
    }
  }

  lemma {:induction false} JunkOnly(fdmax: int, open: seq<bool>, cd: seq<int>, n: nat)
    requires n <= |open| == |cd| && forall i :: 1 <= i < |open| && open[i] ==> cd[i] <= fdmax
    ensures MaxFd(fdmax, open, cd, n) == if n > 0 && open[0] && cd[0] > fdmax then cd[0] else fdmax
  {
    if n > 0 { JunkOnly(fdmax, open, cd, n - 1); }
  }

  /* ---------- the bound and the table ---------- */

  /** A set that holds all the numbers below `m` holds at least `m` of them. */
  lemma {:induction false} AllBelow(s: set<int>, m: nat)
    requires forall x :: 0 <= x < m ==> x in s
    ensures m <= |s|
  {
    if m > 0 {
      AllBelow(s - {m - 1}, m - 1);
    }
  }

  /** The lowest free number is at most the number of descriptors open. */
  lemma LowestSmall(base: set<int>, sd: int, n: nat, t: Table, fd: int)
    requires Inv(base, sd, n, t) && t.nopen < n && |base| <= 9
    requires fd >= 0 && forall x: nat :: x !in t.kernel ==> fd <= x
    ensures fd <= n + 8
  {
    FdsCounted(Clients(t, n).0, Clients(t, n).1);
    AllBelow(t.kernel, fd);
    assert |t.kernel| <= |base| + |ClientFds(t, n)|;
  }

  /** poll() reads no entry past the table: the bound plus one is at most the table's length. */
  predicate Within(n: nat, t: Table) { t.fdmax + 1 <= n + 9 }

  lemma AcceptWithin(base: set<int>, sd: int, n: nat, t: Table, fd: int)
    requires Inv(base, sd, n, t) && t.nopen < n && |base| <= 9 && Within(n, t)
    requires fd >= 0 && forall x: nat :: x !in t.kernel ==> fd <= x
    ensures Within(n, Accepted(t, n, fd))
  {
    LowestSmall(base, sd, n, t, fd);
  }

  /** Closing a connection takes the bound out of the table exactly when the number nothing assigned does. */
  lemma TerminateWithin(base: set<int>, sd: int, n: nat, t: Table, ci: nat)
    requires Inv(base, sd, n, t) && 1 <= ci <= n && t.open[ci] && Within(n, t)
    ensures !Within(n, Terminated(t, n, ci)) <==> t.cd[ci] == t.fdmax && t.open[0] && t.cd[0] > n + 8
  {
    BoundMovesOnlyByJunk(base, sd, n, t, ci);
  }

  /** What one poll() over the first `k` entries does to revents. */
  function Polled(t: Table, k: int, ready: set<int>): Table
    requires |t.fd| == |t.revents|
  {
    t.(revents := seq(|t.revents|, i requires 0 <= i < |t.revents| =>
                        if i < k then t.fd[i] >= 0 && t.fd[i] in ready else t.revents[i]))
  }

  /** revents says of every open connection whether it is in `ready`. */
  ghost predicate Reported(t: Table, ready: set<int>) {
    && |t.open| == |t.cd| == |t.fd| == |t.revents|
    && forall i :: 1 <= i < |t.open| && t.open[i] ==> (t.revents[i] <==> t.cd[i] in ready)
  }

  ghost predicate Quiet(t: Table) {
    |t.open| == |t.revents| && forall i :: 1 <= i < |t.open| && t.revents[i] ==> t.open[i]
  }

  lemma PollKeeps(base: set<int>, sd: int, n: nat, t: Table, ready: set<int>)
    requires Inv(base, sd, n, t) && sd <= t.fdmax
    ensures var t' := Polled(t, t.fdmax + 1, ready);
      Inv(base, sd, n, t') && Reported(t', ready) && Quiet(t') && (t'.revents[0] <==> sd in ready)
  {}

  /** A connection accepted after poll() returned is not taken for a ready one: its slot was closed
      when poll() looked, so its revents is clear. */
  lemma AcceptUnreported(base: set<int>, sd: int, n: nat, t: Table, fd: int, ready: set<int>)
    requires Inv(base, sd, n, t) && t.nopen < n && Reported(t, ready) && Quiet(t) && fd !in t.kernel
    ensures Reported(Accepted(t, n, fd), ClientFds(t, n) * ready)
  {
    SlotFree(base, sd, n, t);
    ClientFdsAt(t, n);
  }

  /* ---------- runs, as steps on the table ---------- */

  /** poll() with what it finds ready, an accept under the lowest-free rule, and a hangup. */
  datatype Op = Look(ready: set<int>) | Accept | Close(ci: nat)

  predicate Shaped(n: nat, t: Table) { |t.open| == |t.cd| == |t.fd| == |t.revents| == n + 9 }

  function StepOp(n: nat, sd: int, t: Table, op: Op): (r: Table)
    requires Shaped(n, t)
    ensures Shaped(n, r)
  {
    match op
    case Look(ready) =>
      var raised := t.(fdmax := if sd > t.fdmax then sd else t.fdmax);
      Polled(raised, raised.fdmax + 1, ready)
    case Accept => Accepted(t, n, Lowest(t.kernel, 0))
    case Close(ci) => if ci < n + 9 then Terminated(t, n, ci) else t
  }

  predicate May(n: nat, sd: int, t: Table, op: Op)
    requires Shaped(n, t)
  {
    match op
    case Look(_) => true
    case Accept => t.nopen < n && sd <= t.fdmax
    case Close(ci) => 1 <= ci <= n && t.open[ci]
  }

  function RunOps(n: nat, sd: int, start: Table, ops: seq<Op>): (r: Table)
    requires Shaped(n, start)
    ensures Shaped(n, r)
  {
    if ops == [] then start else StepOp(n, sd, RunOps(n, sd, start, ops[..|ops| - 1]), ops[|ops| - 1])
  }

  ghost predicate LegalOps(n: nat, sd: int, start: Table, ops: seq<Op>)
    requires Shaped(n, start)
  {
    forall k :: 0 <= k < |ops| ==> May(n, sd, RunOps(n, sd, start, ops[..k]), ops[k])
  }

  /** Closing the connection at the bound while the number nothing assigned lies past the table. */
  predicate Pulls(n: nat, t: Table, op: Op)
    requires Shaped(n, t)
  {
    op.Close? && op.ci < n + 9 && t.cd[op.ci] == t.fdmax && t.open[0] && t.cd[0] > n + 8
  }

  ghost predicate WithinThroughout(n: nat, sd: int, start: Table, ops: seq<Op>)
    requires Shaped(n, start)
  {
    forall k :: 0 <= k <= |ops| ==> Within(n, RunOps(n, sd, start, ops[..k]))
  }

  ghost predicate NeverPulled(n: nat, sd: int, start: Table, ops: seq<Op>)
    requires Shaped(n, start)
  {
    forall k :: 0 <= k < |ops| ==> !Pulls(n, RunOps(n, sd, start, ops[..k]), ops[k])
  }

  lemma LastOp(n: nat, sd: int, start: Table, ops: seq<Op>)
    requires Shaped(n, start) && ops != []
    ensures var m := |ops| - 1; var before := ops[..m]; var t := RunOps(n, sd, start, before);
      && (LegalOps(n, sd, start, ops) <==> LegalOps(n, sd, start, before) && May(n, sd, t, ops[m]))
      && (NeverPulled(n, sd, start, ops) <==> NeverPulled(n, sd, start, before) && !Pulls(n, t, ops[m]))
      && (WithinThroughout(n, sd, start, ops) <==>
            WithinThroughout(n, sd, start, before) && Within(n, RunOps(n, sd, start, ops)))
  {
    hide RunOps, May, Pulls, Within;
    var m := |ops| - 1;
    assert forall k :: 0 <= k <= m ==> ops[..m][..k] == ops[..k];
    assert ops[..|ops|] == ops;
  }

  lemma StepOpKeeps(base: set<int>, sd: int, n: nat, t: Table, op: Op)
    requires Inv(base, sd, n, t) && May(n, sd, t, op)
    ensures Inv(base, sd, n, StepOp(n, sd, t, op))
    ensures |base| <= 9 && sd <= n + 8 && Within(n, t) ==>
      (Within(n, StepOp(n, sd, t, op)) <==> !Pulls(n, t, op))
  {
    match op
    case Look(ready) =>
      hide Held, Within;
      LookKeeps(base, sd, n, t, ready);
    case Accept =>
      hide Inv, Accepted, Within, ClientFds;
      AcceptKeeps(base, sd, n, t, Lowest(t.kernel, 0));
      if |base| <= 9 && Within(n, t) {
        AcceptWithin(base, sd, n, t, Lowest(t.kernel, 0));
      }
    case Close(ci) =>
      hide Inv, Terminated, Within, ClientFds;
      TerminateKeeps(base, sd, n, t, ci);
      if Within(n, t) {
        TerminateWithin(base, sd, n, t, ci);
      }
  }

  lemma LookKeeps(base: set<int>, sd: int, n: nat, t: Table, ready: set<int>)
    requires Inv(base, sd, n, t)
    ensures Inv(base, sd, n, StepOp(n, sd, t, Look(ready)))
    ensures sd <= n + 8 && Within(n, t) ==> Within(n, StepOp(n, sd, t, Look(ready)))
  {
    var raised := t.(fdmax := if sd > t.fdmax then sd else t.fdmax);
    assert Clients(raised, n) == Clients(t, n);
    PollKeeps(base, sd, n, raised, ready);
  }

  /** When descriptors are given out lowest first, at most nine are the process's own and the listener's is not large:
      poll() is kept inside the table throughout a run if and only if no connection is closed at the bound while the
      number that malloc left in cd[0] lies past it. */
  lemma {:induction false} WithinExact(base: set<int>, sd: int, n: nat, start: Table, ops: seq<Op>)
    requires Shaped(n, start) && Inv(base, sd, n, start) && Within(n, start) && |base| <= 9 && sd <= n + 8
    requires LegalOps(n, sd, start, ops)
    ensures WithinThroughout(n, sd, start, ops) <==> NeverPulled(n, sd, start, ops)
    ensures Inv(base, sd, n, RunOps(n, sd, start, ops))
  {
    hide Inv, Within, StepOp, May, Pulls, LegalOps;
    if ops == [] {
      assert ops[..0] == ops;
    } else {
      hide RunOps, WithinThroughout, NeverPulled;
      var m := |ops| - 1;
      LastOp(n, sd, start, ops);
      WithinExact(base, sd, n, start, ops[..m]);
      LastRun(n, sd, start, ops);
      StepOpKeeps(base, sd, n, RunOps(n, sd, start, ops[..m]), ops[m]);
      LastWithin(n, sd, start, ops[..m]);
    }
  }

  lemma LastRun(n: nat, sd: int, start: Table, ops: seq<Op>)
    requires Shaped(n, start) && ops != []
    ensures RunOps(n, sd, start, ops) == StepOp(n, sd, RunOps(n, sd, start, ops[..|ops| - 1]), ops[|ops| - 1])
  {
    hide StepOp;
  }

  lemma LastWithin(n: nat, sd: int, start: Table, ops: seq<Op>)
    requires Shaped(n, start)
    ensures WithinThroughout(n, sd, start, ops) ==> Within(n, RunOps(n, sd, start, ops))
  {
    hide RunOps, Within;
    assert ops[..|ops|] == ops;
  }

  /** The tables a server for one client starts from and goes through: the listener is descriptor 3, and malloc left
      100 in cd[0]. */
  function Start(): Table {
    Table(seq(10, _ => false), seq(10, i => if i == 0 then 100 else 0), seq(10, i => if i == 0 then 3 else -1),
          seq(10, _ => false), 0, 0, {0, 1, 2, 3})
  }

  const BASE: set<int> := {0, 1, 2, 3}

  lemma StartOk()
    ensures Shaped(1, Start()) && Inv(BASE, 3, 1, Start()) && Within(1, Start())
  {
    var (open, cds) := Clients(Start(), 1);
    assert open == [false] && !open[0];
    assert OpenFds(open, cds) == {};
    CountBounds(open);
  }

  /** One client connects, as descriptor 4, and leaves: the bound jumps to 100, in a table of ten entries. */
  lemma JunkPulls()
    ensures var ops := [Look({}), Accept, Close(1)];
      Shaped(1, Start()) && LegalOps(1, 3, Start(), ops) && RunOps(1, 3, Start(), ops).fdmax == 100
    ensures Inv(BASE, 3, 1, Start()) && Within(1, Start())
  {
    hide Inv, Within;
    StartOk();
    var ops := [Look({}), Accept, Close(1)];
    var s1 := StepOp(1, 3, Start(), Look({}));
    Watching();
    var s2 := StepOp(1, 3, s1, Accept);
    Connected(s1);
    var s3 := StepOp(1, 3, s2, Close(1));
    Disconnected(s2);
    assert ops[..0] == [] && ops[..1] == [Look({})] && ops[..2] == [Look({}), Accept];
    hide StepOp, Start;
    assert RunOps(1, 3, Start(), ops[..1]) == s1 by { assert ops[..1][..0] == []; }
    assert RunOps(1, 3, Start(), ops[..2]) == s2 by { assert ops[..2][..1] == ops[..1]; }
  }

  lemma Watching()
    ensures var s1 := StepOp(1, 3, Start(), Look({}));
      s1.fdmax == 3 && s1.nopen == 0 && s1.open == Start().open && s1.cd == Start().cd && s1.kernel == BASE
  {
  }

  lemma Connected(s: Table)
    requires Shaped(1, s) && s.fdmax == 3 && s.open == Start().open && s.cd == Start().cd && s.kernel == BASE
    ensures var s2 := StepOp(1, 3, s, Accept);
      s2.fdmax == 4 && s2.open[0] && s2.open[1] && s2.cd[0] == 100 && s2.cd[1] == 4
  {
    assert Lowest(BASE, 0) > 4 ==> 4 in BASE;
    assert s.open[0 := true][..1] == [true];
    assert FirstFree([true], 1) == 1;
  }

  lemma Disconnected(s: Table)
    requires Shaped(1, s) && s.fdmax == 4 && s.open[0] && s.open[1] && s.cd[0] == 100 && s.cd[1] == 4
    ensures StepOp(1, 3, s, Close(1)).fdmax == 100
  {
    var open := s.open[1 := false];
    assert MaxFd(4, open, s.cd, 0) == 4;
    assert MaxFd(4, open, s.cd, 1) == 100;
  }

  class PollServer {
    const world: Outside
    const ncons: nat
    const sd: int
    ghost const base: set<int>
    ghost const junk: int           // what malloc left in cd[0]
    const isopen: array<bool>
    const cd: array<int>
    const ufds: array<int>          // ufds[i].fd
    const revents: array<bool>      // ufds[i].revents != 0
    var fdmax: int
    var nopen: int
    var kernel: set<int>

    ghost function State(): Table
      reads this, isopen, cd, ufds, revents
    {
      Table(isopen[..], cd[..], ufds[..], revents[..], fdmax, nopen, kernel)
    }

    ghost predicate Shape() {
      isopen.Length == cd.Length == ufds.Length == revents.Length == ncons + 9 &&
      cd != ufds && isopen != revents && Fresh(world.accept)
    }

    ghost predicate Valid()
      reads this, isopen, cd, ufds, revents
    {
      Shape() && Inv(base, sd, ncons, State()) && cd[0] == junk && (Small() ==> Within(ncons, State()))
    }

    /** The lowest free descriptor is given out, at most nine belong to the process itself, the listener's is not
        large, and neither is the number that malloc left in cd[0]. */
    ghost predicate Small() {
      LowestFree(world.accept) && |base| <= 9 && sd <= ncons + 8 && junk <= ncons + 8
    }

    /** `cd` is left as malloc returned it. */
    constructor (world: Outside, ncons: nat, sd: int, kernel: set<int>)
      requires Fresh(world.accept) && sd in kernel && sd >= 0
      ensures Valid() && nopen == 0 && fresh(isopen) && fresh(cd) && fresh(ufds) && fresh(revents)
      ensures this.world == world && this.ncons == ncons && this.sd == sd && this.kernel == kernel
    {
      this.world, this.ncons, this.sd, this.kernel, this.base := world, ncons, sd, kernel, kernel;
      isopen := new bool[ncons + 9](_ => false);
      var descriptors := new int[ncons + 9];
      cd, junk := descriptors, descriptors[0];
      ufds := new int[ncons + 9](i => if i == 0 then sd else -1);
      revents := new bool[ncons + 9](_ => false);
      fdmax, nopen := 0, 0;
      new;
      CountBounds(isopen[1..ncons + 1]);
      assert ClientFds(State(), ncons) == {};
    }

    lemma TerminateStays(ci: nat)
      requires Valid() && 1 <= ci <= ncons && isopen[ci]
      ensures var after := Terminated(State(), ncons, ci);
        Inv(base, sd, ncons, after) && after.fdmax >= fdmax && (Small() ==> Within(ncons, after))
    {
      hide ClientFds, Clients, Terminated;
      TerminateKeeps(base, sd, ncons, State(), ci);
      if Small() {
        TerminateWithin(base, sd, ncons, State(), ci);
      }
    }

    method TerminateClient(ci: nat)
      requires Valid() && 1 <= ci <= ncons && isopen[ci]
      modifies this, isopen, ufds
      ensures Valid() && State() == Terminated(old(State()), ncons, ci) && fdmax >= old(fdmax)
    {
      hide Inv, ClientFds, Clients, Small, MaxFd;
      ghost var was := State();
      TerminateStays(ci);
      kernel := kernel - {cd[ci]};
      isopen[ci] := false;
      ufds[ci] := -1;
      nopen := nopen - 1;
      if cd[ci] == fdmax {
        fdmax := GetMaxFd(fdmax, isopen, cd, ncons);
      }
      assert State() == Terminated(was, ncons, ci);
    }

    lemma AcceptStays(t: nat)
      requires Valid() && nopen < ncons && sd <= fdmax
      ensures var fd, ci := world.accept(t, kernel), Slot(State(), ncons); var after := Accepted(State(), ncons, fd);
        && 1 <= ci <= ncons && !isopen[ci] && Inv(base, sd, ncons, after) && (Small() ==> Within(ncons, after))
    {
      hide ClientFds, Clients, Accepted;
      var was, fd := State(), world.accept(t, kernel);
      SlotFree(base, sd, ncons, was);
      AcceptKeeps(base, sd, ncons, was, fd);
      if Small() {
        AcceptWithin(base, sd, ncons, was, fd);
      }
    }

    method AcceptClient(t: nat) returns (ci: nat)
      requires Valid() && nopen < ncons && sd <= fdmax
      modifies this, isopen, cd, ufds
      ensures Valid() && State() == Accepted(old(State()), ncons, world.accept(t, old(kernel)))
      ensures ci == Slot(old(State()), ncons) && 1 <= ci <= ncons && !old(isopen[ci])
    {
      hide ClientFds, Clients, Inv, LowestFree, Fresh, Small, Slot;
      ghost var was := State();
      var fd := world.accept(t, kernel);
      AcceptStays(t);
      SlotIsFirst(was, ncons);
      isopen[0] := true;
      FirstFreeFront(isopen[..], ncons);
      ci := AcceptOne(isopen, cd, ncons, fd);
      kernel := kernel + {fd};
      isopen[ci] := true;
      ufds[ci] := cd[ci];
      nopen := nopen + 1;
      if cd[ci] > fdmax {
        fdmax := cd[ci];
      }
      assert State() == Accepted(was, ncons, fd);
    }

    /** poll(): with the descriptor bound as entry count, every open connection is looked at. */
    method Poll(t: nat)
      requires Valid()
      modifies this`fdmax, revents
      ensures Valid() && fdmax >= sd && fdmax >= old(fdmax)
      ensures ClientFds(State(), ncons) == old(ClientFds(State(), ncons))
      ensures Reported(State(), world.ready(t, {sd} + ClientFds(State(), ncons))) && Quiet(State())
      ensures revents[0] <==> sd in world.ready(t, {sd} + ClientFds(State(), ncons))
      ensures nopen == old(nopen) && kernel == old(kernel)
      ensures Small() ==> fdmax + 1 <= ufds.Length
    {
      hide Inv, ClientFds, Reported, Quiet;
      RaiseBound();
      var watched := Watched();
      var ready := world.ready(t, watched);
      PollKeeps(base, sd, ncons, State(), ready);
      Look(ready);
    }

    method RaiseBound()
      requires Valid()
      modifies this`fdmax
      ensures Valid() && fdmax == if sd > old(fdmax) then sd else old(fdmax)
      ensures ClientFds(State(), ncons) == old(ClientFds(State(), ncons))
    {
      if sd > fdmax {
        fdmax := sd;
      }
    }

    method Watched() returns (watched: set<int>)
      requires Valid()
      ensures watched == {sd} + ClientFds(State(), ncons)
    {
      watched := {sd} + set i | 1 <= i < ncons + 1 && isopen[i] :: cd[i];
      ClientFdsAt(State(), ncons);
    }

    /** The kernel's side of poll() over the first fdmax + 1 entries. */
    method Look(ready: set<int>)
      requires Shape()
      modifies revents
      ensures State() == Polled(old(State()), fdmax + 1, ready)
      ensures ClientFds(State(), ncons) == old(ClientFds(State(), ncons))
    {
      ghost var was := State();
      var k := fdmax + 1;
      forall i | 0 <= i < revents.Length && i < k {
        revents[i] := ufds[i] >= 0 && ufds[i] in ready;
      }
      assert revents[..] == Polled(was, k, ready).revents;
    }

    /** One turn of the main loop at time `t`. */
    method Round(t: nat) returns (ghost accepted: set<int>, ghost calls: seq<int>)
      requires Valid()
      modifies this, isopen, cd, ufds, revents
      ensures Valid() && fdmax >= sd && fdmax >= old(fdmax)
      ensures var before := old(ClientFds(State(), ncons)); var ready := world.ready(t, {sd} + before);
        && accepted == (if sd in ready && old(nopen) < ncons then {world.accept(t, old(kernel))} else {})
        && (forall x :: x in calls <==> x in before && x in ready)
        && ClientFds(State(), ncons) == before + accepted - set x | x in before && x in ready && world.hangup(t, x)
      ensures forall i, j :: 0 <= i < j < |calls| ==> calls[i] != calls[j]
      ensures accepted !! (set x | x in calls)
    {
      hide ClientFds, Inv, Reported;
      Poll(t);
      ghost var before := ClientFds(State(), ncons);
      ghost var ready := world.ready(t, {sd} + before);
      accepted := {};
      if revents[0] && nopen < ncons {
        accepted := AcceptReported(t, before, ready);
      } else {
        ReportedOnly(base, sd, ncons, State(), ready);
      }
      calls := Serve(t, before * ready);
    }

    method AcceptReported(t: nat, ghost before: set<int>, ghost ready: set<int>) returns (ghost accepted: set<int>)
      requires Valid() && nopen < ncons && sd <= fdmax && before == ClientFds(State(), ncons)
      requires Reported(State(), ready) && Quiet(State())
      modifies this, isopen, cd, ufds
      ensures Valid() && accepted == {world.accept(t, old(kernel))} && accepted !! before && fdmax >= old(fdmax)
      ensures ClientFds(State(), ncons) == before + accepted && Reported(State(), before * ready)
    {
      ghost var was := State();
      var ci := AcceptClient(t);
      accepted := {cd[ci]};
      AcceptKeeps(base, sd, ncons, was, cd[ci]);
      AcceptUnreported(base, sd, ncons, was, cd[ci], ready);
    }

    /** The servicing half of a round; `reported` are the connections poll() found ready. */
    method Serve(t: nat, ghost reported: set<int>) returns (ghost calls: seq<int>)
      requires Valid() && reported <= ClientFds(State(), ncons) && Reported(State(), reported)
      modifies this, isopen, ufds
      ensures Valid() && fdmax >= old(fdmax)
      ensures forall x :: x in calls <==> x in reported
      ensures forall i, j :: 0 <= i < j < |calls| ==> calls[i] != calls[j]
      ensures ClientFds(State(), ncons) == old(ClientFds(State(), ncons)) - set x | x in reported && world.hangup(t, x)
    {
      ghost var table := State();
      ghost var (open, cds) := Clients(table, ncons);
      ghost var drop := set x | x in reported && world.hangup(t, x);
      NothingServed(open, cds, reported, drop);
      Started(table);
      hide ClientFds, Inv, OpenFds, Called, Kept, Small, Distinct;
      calls := [];
      var ci := 1;
      while ci < ncons + 1
        invariant 1 <= ci <= ncons + 1 && Valid() && fdmax >= table.fdmax
        invariant cd[..] == table.cd && revents[..] == table.revents
        invariant Kept(open, cds, drop, isopen[1..ncons + 1], ci - 1)
        invariant Called(open, cds, reported, calls, ci - 1)
      {
        KeptOpen(open, cds, drop, isopen[1..ncons + 1], ci - 1);
        assert open[ci - 1] == table.open[ci] && isopen[1..ncons + 1][ci - 1] == isopen[ci];
        calls := ServeSlot(t, ci, open, cds, reported, drop, calls);
        ci := ci + 1;
      }
      KeptAll(open, cds, drop, isopen[1..ncons + 1]);
      AllCalled(open, cds, reported, calls);
      NowOpen();
    }

    lemma Started(table: Table)
      requires Valid() && table == State()
      ensures Distinct(Clients(table, ncons).0, Clients(table, ncons).1)
      ensures ClientFds(table, ncons) == OpenFds(Clients(table, ncons).0, Clients(table, ncons).1)
    {}

    lemma NowOpen()
      requires Valid()
      ensures ClientFds(State(), ncons) == OpenFds(isopen[1..ncons + 1], cd[1..ncons + 1])
    {}

    method ServeSlot(t: nat, ci: nat, ghost open: seq<bool>, ghost cds: seq<int>, ghost reported: set<int>,
                     ghost drop: set<int>, ghost calls: seq<int>)
      returns (ghost calls': seq<int>)
      requires Valid() && 1 <= ci <= ncons == |open| && cds == cd[1..ncons + 1] && Distinct(open, cds)
      requires isopen[ci] ==> (revents[ci] <==> cd[ci] in reported)
      requires drop == set x | x in reported && world.hangup(t, x)
      requires Kept(open, cds, drop, isopen[1..ncons + 1], ci - 1) && Called(open, cds, reported, calls, ci - 1)
      modifies this, isopen, ufds
      ensures Valid() && fdmax >= old(fdmax)
      ensures Kept(open, cds, drop, isopen[1..ncons + 1], ci) && Called(open, cds, reported, calls', ci)
    {
      hide Inv, OpenFds, Distinct;
      ghost var now := isopen[1..ncons + 1];
      assert now[ci - 1] == isopen[ci] == open[ci - 1] && cds[ci - 1] == cd[ci];
      calls' := calls;
      if isopen[ci] && revents[ci] {
        CalledStep(open, cds, reported, calls, ci - 1);
        calls' := calls + [cd[ci]];
        if world.hangup(t, cd[ci]) {
          TerminateClient(ci);
          assert isopen[1..ncons + 1] == now[ci - 1 := false];
        }
      } else {
        CalledSkip(open, cds, reported, calls, ci - 1);
      }
    }

    method Run(rounds: nat)
      requires Valid()
      modifies this, isopen, cd, ufds, revents
      ensures Valid() && nopen <= ncons
      ensures Small() ==> fdmax + 1 <= ufds.Length
    {
      var t := 0;
      while t < rounds
        invariant Valid()
      {
        var _, _ := Round(t);
        t := t + 1;
      }
      CountBounds(isopen[1..ncons + 1]);
    }
  }

  lemma ReportedOnly(base: set<int>, sd: int, n: nat, t: Table, ready: set<int>)
    requires Inv(base, sd, n, t) && Reported(t, ready)
    ensures Reported(t, ClientFds(t, n) * ready)
  {
    ClientFdsAt(t, n);
  }

  lemma ClientFdsAt(t: Table, n: nat)
    requires n + 1 <= |t.open| == |t.cd|
    ensures ClientFds(t, n) == set j | 1 <= j < n + 1 && t.open[j] :: t.cd[j]
  {
    var (open, cds) := Clients(t, n);
    var direct := set j | 1 <= j < n + 1 && t.open[j] :: t.cd[j];
    forall x | x in ClientFds(t, n) ensures x in direct {
      var i :| 0 <= i < |open| && open[i] && cds[i] == x;
      assert t.open[i + 1] && t.cd[i + 1] == x;
    }
    forall x | x in direct ensures x in ClientFds(t, n) {
      var j :| 1 <= j < n + 1 && t.open[j] && t.cd[j] == x;
      assert open[j - 1] && cds[j - 1] == x;
    }
  }
}
