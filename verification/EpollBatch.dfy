/** One batch of events of the epoll server, on values: an accept writes into the buffer being walked through. */
module EpollBatch {
  import opened Slots
  import opened EpollTable

  /** The table, and the descriptors named by the records in the event buffer. */
  datatype Turn = Turn(t: Table, ev: seq<int>)

  /** What the body of the event loop does for event `i`. */
  function HandleOne(w: World, sd: int, time: nat, b: Turn, i: nat): (r: Turn)
    requires i < |b.ev| && |b.t.open| <= |b.t.cd|
    ensures |r.ev| == |b.ev| && |r.t.open| == |b.t.open| && |r.t.cd| == |b.t.cd|
  {
    if b.ev[i] == sd then
      var ci := FirstFree(b.t.open, |b.t.open|);
      if b.t.nopen < |b.t.open| && ci < |b.t.open| then
        var fd := w.accept(time, b.t.kernel);
        Turn(Accepted(b.t, fd), if ci < |b.ev| then b.ev[ci := fd] else b.ev)
      else b
    else if w.hangup(time, i, b.ev[i]) then
      var ci := Find(b.t.cd, b.ev[i], |b.t.open|);
      if ci < |b.t.open| then b.(t := Terminated(b.t, ci)) else b
    else b
  }

  /** Events `i` to `j` - 1, one after the other. */
  function After(w: World, sd: int, time: nat, b: Turn, i: nat, j: nat): (r: Turn)
    requires i <= j <= |b.ev| && |b.t.open| <= |b.t.cd|
    ensures |r.ev| == |b.ev| && |r.t.open| == |b.t.open| && |r.t.cd| == |b.t.cd|
    decreases j
  {
    if i == j then b else HandleOne(w, sd, time, After(w, sd, time, b, i, j - 1), j - 1)
  }

  /** The descriptor each event of the batch is handled for. */
  function Handled(w: World, sd: int, time: nat, t: Table, batch: seq<int>): (r: seq<int>)
    requires |t.open| <= |t.cd|
    ensures |r| == |batch|
  {
    seq(|batch|, k requires 0 <= k < |batch| => After(w, sd, time, Turn(t, batch), 0, k).ev[k])
  }

  lemma NoneYet(w: World, sd: int, time: nat, t: Table, batch: seq<int>)
    requires |t.open| <= |t.cd|
    ensures After(w, sd, time, Turn(t, batch), 0, 0) == Turn(t, batch) && Handled(w, sd, time, t, batch)[..0] == []
    ensures Handled(w, sd, time, t, batch)[..|batch|] == Handled(w, sd, time, t, batch)
  {
  }

  lemma OneMore(w: World, sd: int, time: nat, t: Table, batch: seq<int>, i: nat)
    requires |t.open| <= |t.cd| && i < |batch|
    ensures var b := Turn(t, batch); var handled := Handled(w, sd, time, t, batch);
      && After(w, sd, time, b, 0, i + 1) == HandleOne(w, sd, time, After(w, sd, time, b, 0, i), i)
      && handled[..i + 1] == handled[..i] + [After(w, sd, time, b, 0, i).ev[i]]
  {
    hide HandleOne;
  }

  lemma {:induction false} AfterAfter(w: World, sd: int, time: nat, b: Turn, i: nat, m: nat, j: nat)
    requires i <= m <= j <= |b.ev| && |b.t.open| <= |b.t.cd|
    ensures After(w, sd, time, b, i, j) == After(w, sd, time, After(w, sd, time, b, i, m), m, j)
    decreases j
  {
    hide HandleOne;
    if m < j {
      AfterAfter(w, sd, time, b, i, m, j - 1);
    }
  }

  /** The connections among events `i` to `j` - 1 whose handling reports a shutdown. */
  function Gone(w: World, sd: int, time: nat, ev: seq<int>, i: nat, j: nat): set<int>
    requires j <= |ev|
  {
    set k | i <= k < j && ev[k] != sd && w.hangup(time, k, ev[k]) :: ev[k]
  }

  lemma GoneNext(w: World, sd: int, time: nat, ev: seq<int>, i: nat, j: nat)
    requires i <= j < |ev|
    ensures Gone(w, sd, time, ev, i, j + 1) ==
      Gone(w, sd, time, ev, i, j) + if ev[j] != sd && w.hangup(time, j, ev[j]) then {ev[j]} else {}
  {
    var now, next := Gone(w, sd, time, ev, i, j), Gone(w, sd, time, ev, i, j + 1);
    forall x ensures x in next <==> x in now || (x == ev[j] && ev[j] != sd && w.hangup(time, j, ev[j])) {
      if x in now {
        var k :| i <= k < j && ev[k] != sd && w.hangup(time, k, ev[k]) && x == ev[k];
      }
    }
  }

  /** The slots still open once the connections in `gone` have left. */
  function StillOpen(t: Table, gone: set<int>): (r: seq<bool>)
    requires |t.open| <= |t.cd|
    ensures |r| == |t.open|
  {
    seq(|t.open|, s requires 0 <= s < |t.open| => t.open[s] && t.cd[s] !in gone)
  }

  function Left(t: Table, gone: set<int>): Table
    requires |t.open| <= |t.cd|
  {
    Table(StillOpen(t, gone), t.cd, Count(StillOpen(t, gone)), t.kernel - gone)
  }

  /** Events i..j-1 name different open connections. */
  ghost predicate Waiting(sd: int, t: Table, ev: seq<int>, i: nat, j: nat) {
    && j <= |ev| && |t.open| <= |t.cd|
    && (forall k :: i <= k < j ==> ev[k] != sd && ev[k] in OpenFds(t.open, t.cd))
    && forall k, l :: i <= k < l < j ==> ev[k] != ev[l]
  }

  lemma LeftNext(base: set<int>, sd: int, t: Table, gone: set<int>, fd: int)
    requires Inv(base, sd, t) && Inv(base, sd, Left(t, gone)) && fd in OpenFds(StillOpen(t, gone), t.cd)
    ensures var ci := Find(t.cd, fd, |t.open|);
      && ci < |t.open| && Terminated(Left(t, gone), ci) == Left(t, gone + {fd})
      && Inv(base, sd, Left(t, gone + {fd}))
  {
    var s := Left(t, gone);
    TerminateFinds(base, sd, s, fd);
    var ci := Find(t.cd, fd, |t.open|);
    assert Terminated(s, ci).open == StillOpen(t, gone + {fd});
    assert Terminated(s, ci).nopen == Count(StillOpen(t, gone + {fd}));
  }

  lemma LeftFds(t: Table, gone: set<int>)
    requires |t.open| <= |t.cd|
    ensures OpenFds(StillOpen(t, gone), t.cd) == OpenFds(t.open, t.cd) - gone
  {
    var now, was := OpenFds(StillOpen(t, gone), t.cd), OpenFds(t.open, t.cd);
    forall x ensures x in now <==> x in was && x !in gone {
      if x in was && x !in gone {
        var i :| 0 <= i < |t.open| && t.open[i] && t.cd[i] == x;
        assert StillOpen(t, gone)[i];
      }
      if x in now {
        var i :| 0 <= i < |t.open| && StillOpen(t, gone)[i] && t.cd[i] == x;
        assert t.open[i];
      }
    }
  }

  /** Events that are all connections' leave the buffer alone and take away those that hang up. */
  lemma {:induction false} HangupsOnly(w: World, base: set<int>, sd: int, time: nat, b: Turn, i: nat, j: nat)
    requires i <= j && Inv(base, sd, b.t) && Waiting(sd, b.t, b.ev, i, j)
    ensures var gone := Gone(w, sd, time, b.ev, i, j);
      After(w, sd, time, b, i, j) == Turn(Left(b.t, gone), b.ev) && Inv(base, sd, Left(b.t, gone))
    decreases j
  {
    hide Inv, OpenFds, Left, StillOpen;
    if i == j {
      NobodyLeft(base, sd, b.t);
      assert Gone(w, sd, time, b.ev, i, j) == {};
    } else {
      HangupsOnly(w, base, sd, time, b, i, j - 1);
      var gone, x := Gone(w, sd, time, b.ev, i, j - 1), b.ev[j - 1];
      GoneNext(w, sd, time, b.ev, i, j - 1);
      LeftFds(b.t, gone);
      assert x !in gone;
      LeftSame(b.t, gone);
      if w.hangup(time, j - 1, x) {
        LeftNext(base, sd, b.t, gone, x);
      } else {
        assert Gone(w, sd, time, b.ev, i, j) == gone;
      }
    }
  }

  lemma NobodyLeft(base: set<int>, sd: int, t: Table)
    requires Inv(base, sd, t)
    ensures Left(t, {}) == t
  {
    assert StillOpen(t, {}) == t.open;
  }

  lemma LeftSame(t: Table, gone: set<int>)
    requires |t.open| <= |t.cd|
    ensures Left(t, gone).cd == t.cd && |Left(t, gone).open| == |t.open| && Left(t, gone).open == StillOpen(t, gone)
  {
  }

  /** What epoll_wait may report: different descriptors, the listener's or an open connection's. */
  ghost predicate Reported(sd: int, t: Table, batch: seq<int>) {
    && |t.open| <= |t.cd|
    && (forall k :: 0 <= k < |batch| ==> batch[k] in {sd} + OpenFds(t.open, t.cd))
    && forall k, l :: 0 <= k < l < |batch| ==> batch[k] != batch[l]
  }

  /** Event `a` is the listener's and finds room, once the connections handled before it have left. */
  predicate Accepts(w: World, sd: int, time: nat, t: Table, batch: seq<int>, a: nat)
    requires |t.open| <= |t.cd|
  {
    a < |batch| && batch[a] == sd && Count(StillOpen(t, Gone(w, sd, time, batch, 0, a))) < |t.open|
  }

  /** The slot and the descriptor of the connection accepted by event `a`. */
  function SlotOf(w: World, sd: int, time: nat, t: Table, batch: seq<int>, a: nat): nat
    requires |t.open| <= |t.cd| && a < |batch|
  {
    FirstFree(StillOpen(t, Gone(w, sd, time, batch, 0, a)), |t.open|)
  }

  function FdOf(w: World, sd: int, time: nat, t: Table, batch: seq<int>, a: nat): int
    requires a < |batch|
  {
    w.accept(time, t.kernel - Gone(w, sd, time, batch, 0, a))
  }

  /** The accept overwrites an event that is still to be handled. */
  predicate Overwrites(w: World, sd: int, time: nat, t: Table, batch: seq<int>, a: nat)
    requires |t.open| <= |t.cd|
  {
    Accepts(w, sd, time, t, batch, a) && a < SlotOf(w, sd, time, t, batch, a) < |batch|
  }

  /** The turn once the listener's event has been handled. */
  function Listened(w: World, sd: int, time: nat, t: Table, batch: seq<int>, a: nat): (r: Turn)
    requires |t.open| <= |t.cd| && a < |batch|
    ensures |r.ev| == |batch| && |r.t.open| <= |r.t.cd|
  {
    var left := Left(t, Gone(w, sd, time, batch, 0, a));
    if Accepts(w, sd, time, t, batch, a) && SlotOf(w, sd, time, t, batch, a) < |t.open| then
      var slot, fd := SlotOf(w, sd, time, t, batch, a), FdOf(w, sd, time, t, batch, a);
      Turn(Accepted(left, fd), if slot < |batch| then batch[slot := fd] else batch)
    else Turn(left, batch)
  }

  lemma UpToListener(w: World, base: set<int>, sd: int, time: nat, t: Table, batch: seq<int>, a: nat)
    requires Inv(base, sd, t) && Reported(sd, t, batch) && a <= |batch| && forall k :: 0 <= k < a ==> batch[k] != sd
    ensures var gone := Gone(w, sd, time, batch, 0, a);
      After(w, sd, time, Turn(t, batch), 0, a) == Turn(Left(t, gone), batch) && Inv(base, sd, Left(t, gone))
  {
    hide Inv, Left, After, Gone;
    HangupsOnly(w, base, sd, time, Turn(t, batch), 0, a);
  }

  /** What is still to be handled names different open connections, whether or not one was accepted. */
  lemma AtListener(w: World, base: set<int>, sd: int, time: nat, t: Table, batch: seq<int>, a: nat)
    requires Inv(base, sd, t) && Reported(sd, t, batch) && Fresh(w.accept) && a < |batch| && batch[a] == sd
    ensures After(w, sd, time, Turn(t, batch), 0, a + 1) == Listened(w, sd, time, t, batch, a)
    ensures Inv(base, sd, Listened(w, sd, time, t, batch, a).t)
    ensures var r := Listened(w, sd, time, t, batch, a); Waiting(sd, r.t, r.ev, a + 1, |batch|)
    ensures Accepts(w, sd, time, t, batch, a) ==>
      && SlotOf(w, sd, time, t, batch, a) < |t.open| && FdOf(w, sd, time, t, batch, a) != sd
      && forall k :: a < k < |batch| ==> batch[k] != FdOf(w, sd, time, t, batch, a)
  {
    hide Gone, Inv, OpenFds, StillOpen, Accepted, Fresh;
    var gone := Gone(w, sd, time, batch, 0, a);
    UpToListener(w, base, sd, time, t, batch, a);
    var left := Left(t, gone);
    LeftFds(t, gone);
    Unhandled(w, sd, time, t, batch, a);
    if Accepts(w, sd, time, t, batch, a) {
      Room(base, sd, left);
      var fd := FdOf(w, sd, time, t, batch, a);
      NewNumber(w, base, sd, time, left);
      AcceptKeeps(base, sd, left, fd);
    }
  }

  lemma Unhandled(w: World, sd: int, time: nat, t: Table, batch: seq<int>, a: nat)
    requires Reported(sd, t, batch) && a < |batch| && batch[a] == sd
    ensures forall k :: a < k < |batch| ==>
      batch[k] != sd && batch[k] in OpenFds(t.open, t.cd) && batch[k] !in Gone(w, sd, time, batch, 0, a)
  {
    hide OpenFds;
  }

  lemma Room(base: set<int>, sd: int, t: Table)
    requires Inv(base, sd, t)
    ensures t.nopen == Count(t.open) && |t.open| <= |t.cd|
    ensures t.nopen < |t.open| ==> FirstFree(t.open, |t.open|) < |t.open|
  {
    if Count(t.open) < |t.open| {
      RoomLeft(t.open);
    }
  }

  lemma NewNumber(w: World, base: set<int>, sd: int, time: nat, t: Table)
    requires Inv(base, sd, t) && Fresh(w.accept)
    ensures var fd := w.accept(time, t.kernel); fd !in t.kernel && fd != sd && fd !in OpenFds(t.open, t.cd)
  {
    hide OpenFds;
  }

  /** Which descriptor each event is handled for. */
  lemma HandledAt(w: World, base: set<int>, sd: int, time: nat, t: Table, batch: seq<int>, a: nat, k: nat)
    requires Inv(base, sd, t) && Reported(sd, t, batch) && Fresh(w.accept)
    requires a < |batch| && batch[a] == sd && k < |batch|
    ensures After(w, sd, time, Turn(t, batch), 0, k).ev[k] ==
      if Overwrites(w, sd, time, t, batch, a) && k == SlotOf(w, sd, time, t, batch, a)
      then FdOf(w, sd, time, t, batch, a)
      else batch[k]
  {
    hide Inv, Gone, After, Left, Accepts, SlotOf, FdOf;
    if k <= a {
      UpToListener(w, base, sd, time, t, batch, k);
    } else {
      AtListener(w, base, sd, time, t, batch, a);
      var b := Listened(w, sd, time, t, batch, a);
      AfterAfter(w, sd, time, Turn(t, batch), 0, a + 1, k);
      HangupsOnly(w, base, sd, time, b, a + 1, k);
    }
  }

  /** The events of a batch are handled for what epoll_wait reported if and only if no accept fills a slot whose index
      is that of an event still pending; otherwise that one event is handled for the new connection instead. */
  lemma HandledExact(w: World, base: set<int>, sd: int, time: nat, t: Table, batch: seq<int>)
    requires Inv(base, sd, t) && Reported(sd, t, batch) && Fresh(w.accept)
    ensures var handled := Handled(w, sd, time, t, batch);
      && (handled == batch <==> !exists a: nat :: Overwrites(w, sd, time, t, batch, a))
      && forall a: nat :: Overwrites(w, sd, time, t, batch, a) ==>
           var slot, fd := SlotOf(w, sd, time, t, batch, a), FdOf(w, sd, time, t, batch, a);
           handled == batch[slot := fd] && fd != batch[slot]
  {
    hide Inv, After, SlotOf, FdOf;
    var handled := Handled(w, sd, time, t, batch);
    forall a: nat | Overwrites(w, sd, time, t, batch, a)
      ensures var slot, fd := SlotOf(w, sd, time, t, batch, a), FdOf(w, sd, time, t, batch, a);
        handled == batch[slot := fd] && fd != batch[slot]
    {
      AtListener(w, base, sd, time, t, batch, a);
      forall k | 0 <= k < |batch| ensures handled[k] ==
        if k == SlotOf(w, sd, time, t, batch, a) then FdOf(w, sd, time, t, batch, a) else batch[k]
      {
        HandledAt(w, base, sd, time, t, batch, a, k);
      }
    }
    if !exists a: nat :: Overwrites(w, sd, time, t, batch, a) {
      forall k | 0 <= k < |batch| ensures handled[k] == batch[k] {
        if a: nat :| a < |batch| && batch[a] == sd {
          HandledAt(w, base, sd, time, t, batch, a, k);
        } else {
          UpToListener(w, base, sd, time, t, batch, k);
        }
      }
    }
  }

  /** The connections open after a batch: those that hung up have left, and one accepted on the way has come. */
  ghost predicate Leaves(w: World, sd: int, time: nat, t: Table, batch: seq<int>, handled: seq<int>, open: set<int>)
    requires |t.open| <= |t.cd| && |handled| == |batch|
  {
    && (forall a: nat :: Accepts(w, sd, time, t, batch, a) ==>
          open == OpenFds(t.open, t.cd) - Gone(w, sd, time, handled, 0, a)
                  + {FdOf(w, sd, time, t, batch, a)} - Gone(w, sd, time, handled, a, |handled|))
    && ((forall a: nat :: !Accepts(w, sd, time, t, batch, a)) ==>
          open == OpenFds(t.open, t.cd) - Gone(w, sd, time, handled, 0, |handled|))
  }

  lemma GoneSame(w: World, sd: int, time: nat, ev: seq<int>, ev': seq<int>, i: nat, i': nat, j: nat)
    requires i <= i' <= j <= |ev| && j <= |ev'|
    requires forall k :: i' <= k < j ==> ev[k] == ev'[k]
    requires forall k :: i <= k < i' ==> ev[k] == sd
    ensures Gone(w, sd, time, ev, i, j) == Gone(w, sd, time, ev', i', j)
  {
    var g, g' := Gone(w, sd, time, ev, i, j), Gone(w, sd, time, ev', i', j);
    forall x | x in g ensures x in g' {
      var k :| i <= k < j && ev[k] != sd && w.hangup(time, k, ev[k]) && x == ev[k];
      assert ev'[k] == ev[k] && k >= i';
    }
    forall x | x in g' ensures x in g {
      var k :| i' <= k < j && ev'[k] != sd && w.hangup(time, k, ev'[k]) && x == ev'[k];
      assert ev[k] == ev'[k];
    }
  }

  lemma BatchLeaves(w: World, base: set<int>, sd: int, time: nat, t: Table, batch: seq<int>)
    requires Inv(base, sd, t) && Reported(sd, t, batch) && Fresh(w.accept)
    ensures var end := After(w, sd, time, Turn(t, batch), 0, |batch|).t;
      Leaves(w, sd, time, t, batch, Handled(w, sd, time, t, batch), OpenFds(end.open, end.cd))
  {
    hide Inv, OpenFds, After, Gone, Handled, Accepts;
    if a: nat :| a < |batch| && batch[a] == sd {
      LeavesAfterListener(w, base, sd, time, t, batch, a);
      OnlyListener(w, sd, time, t, batch, a);
    } else {
      UpToListener(w, base, sd, time, t, batch, |batch|);
      HandledExact(w, base, sd, time, t, batch);
      NoAccept(w, sd, time, t, batch);
      LeftFds(t, Gone(w, sd, time, batch, 0, |batch|));
    }
  }

  lemma NoAccept(w: World, sd: int, time: nat, t: Table, batch: seq<int>)
    requires |t.open| <= |t.cd| && forall a: nat :: a < |batch| ==> batch[a] != sd
    ensures forall a: nat :: !Accepts(w, sd, time, t, batch, a) && !Overwrites(w, sd, time, t, batch, a)
  {
  }

  lemma OnlyListener(w: World, sd: int, time: nat, t: Table, batch: seq<int>, a: nat)
    requires Reported(sd, t, batch) && a < |batch| && batch[a] == sd
    ensures forall b: nat :: Accepts(w, sd, time, t, batch, b) ==> b == a
  {
    hide OpenFds;
  }

  lemma LeavesAfterListener(w: World, base: set<int>, sd: int, time: nat, t: Table, batch: seq<int>, a: nat)
    requires Inv(base, sd, t) && Reported(sd, t, batch) && Fresh(w.accept) && a < |batch| && batch[a] == sd
    ensures var end := After(w, sd, time, Turn(t, batch), 0, |batch|).t; var handled := Handled(w, sd, time, t, batch);
      OpenFds(end.open, end.cd) ==
        if Accepts(w, sd, time, t, batch, a) then
          OpenFds(t.open, t.cd) - Gone(w, sd, time, handled, 0, a) + {FdOf(w, sd, time, t, batch, a)}
            - Gone(w, sd, time, handled, a, |batch|)
        else OpenFds(t.open, t.cd) - Gone(w, sd, time, handled, 0, |batch|)
  {
    hide Inv, OpenFds, After, Gone, SlotOf, FdOf, Accepted, StillOpen;
    var n, handled, b := |batch|, Handled(w, sd, time, t, batch), Listened(w, sd, time, t, batch, a);
    AtListener(w, base, sd, time, t, batch, a);
    AfterAfter(w, sd, time, Turn(t, batch), 0, a + 1, n);
    HangupsOnly(w, base, sd, time, b, a + 1, n);
    LeftFds(b.t, Gone(w, sd, time, b.ev, a + 1, n));
    LeftFds(t, Gone(w, sd, time, batch, 0, a));
    forall k | 0 <= k < n ensures k <= a ==> handled[k] == batch[k]
                          ensures k > a ==> handled[k] == b.ev[k] {
      HandledAt(w, base, sd, time, t, batch, a, k);
    }
    GoneSame(w, sd, time, handled, batch, 0, 0, a);
    GoneSame(w, sd, time, handled, b.ev, a, a + 1, n);
    if Accepts(w, sd, time, t, batch, a) {
      AcceptedFds(w, base, sd, time, t, batch, a);
    } else {
      GoneApart(w, sd, time, handled, a);
    }
  }

  lemma GoneApart(w: World, sd: int, time: nat, ev: seq<int>, a: nat)
    requires a <= |ev|
    ensures Gone(w, sd, time, ev, 0, |ev|) == Gone(w, sd, time, ev, 0, a) + Gone(w, sd, time, ev, a, |ev|)
  {
    var all, first, last := Gone(w, sd, time, ev, 0, |ev|), Gone(w, sd, time, ev, 0, a), Gone(w, sd, time, ev, a, |ev|);
    forall x ensures x in all <==> x in first || x in last {
      if x in all {
        var k :| 0 <= k < |ev| && ev[k] != sd && w.hangup(time, k, ev[k]) && x == ev[k];
        assert k < a ==> x in first;
        assert k >= a ==> x in last;
      }
    }
  }

  lemma AcceptedFds(w: World, base: set<int>, sd: int, time: nat, t: Table, batch: seq<int>, a: nat)
    requires Inv(base, sd, t) && Reported(sd, t, batch) && Fresh(w.accept) && Accepts(w, sd, time, t, batch, a)
    ensures var r, gone := Listened(w, sd, time, t, batch, a).t, Gone(w, sd, time, batch, 0, a);
      OpenFds(r.open, r.cd) == OpenFds(t.open, t.cd) - gone + {FdOf(w, sd, time, t, batch, a)}
  {
    hide Gone, Inv, OpenFds, StillOpen, Fresh, Accepted;
    var gone := Gone(w, sd, time, batch, 0, a);
    UpToListener(w, base, sd, time, t, batch, a);
    LeftFds(t, gone);
    Room(base, sd, Left(t, gone));
    NewNumber(w, base, sd, time, Left(t, gone));
    AcceptKeeps(base, sd, Left(t, gone), FdOf(w, sd, time, t, batch, a));
  }
}
