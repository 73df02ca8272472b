/** The epoll server: one heap record per registered descriptor, handed round through the event buffer. */
module ServerEpoll {
  import opened Slots
  import opened EpollTable
  import opened EpollBatch

  /* ---------- the records ---------- */

  class MyData {
    const fd: int
    constructor (fd: int)
      ensures this.fd == fd
    {
      this.fd := fd;
    }
  }

  /** The live heap records are exactly those the kernel would hand back, one per registered descriptor. */
  ghost predicate Records(fds: set<int>, registered: map<int, MyData>, live: set<MyData>) {
    && registered.Keys == fds
    && (forall x :: x in registered ==> registered[x].fd == x)
    && live == set x | x in registered :: registered[x]
  }

  lemma {:induction false} RecordsCounted(fds: set<int>, registered: map<int, MyData>, live: set<MyData>)
    requires Records(fds, registered, live)
    ensures |live| == |fds|
    decreases |fds|
  {
    if fds == {} {
      assert live == {};
    } else {
      var x := Member(fds);
      var r := registered[x];
      RecordFreed(fds, registered, live, r);
      RecordsCounted(fds - {x}, registered - {x}, live - {r});
    }
  }

  lemma RecordAdded(fds: set<int>, registered: map<int, MyData>, live: set<MyData>, r: MyData)
    requires Records(fds, registered, live) && r.fd !in fds
    ensures Records(fds + {r.fd}, registered[r.fd := r], live + {r})
  {
    var after := registered[r.fd := r];
    forall y: MyData ensures y in live + {r} <==> y in set x | x in after :: after[x] {
      if y in live {
        var x :| x in registered && registered[x] == y;
        assert after[x] == y;
      }
      if y == r { assert after[r.fd] == y; }
    }
  }

  lemma RecordKeys(fds: set<int>, registered: map<int, MyData>, live: set<MyData>)
    requires Records(fds, registered, live)
    ensures registered.Keys == fds
  {
  }

  lemma RecordFreed(fds: set<int>, registered: map<int, MyData>, live: set<MyData>, r: MyData)
    requires Records(fds, registered, live) && r.fd in fds && registered[r.fd] == r
    ensures Records(fds - {r.fd}, registered - {r.fd}, live - {r})
  {
    var after := registered - {r.fd};
    forall y: MyData ensures y in live - {r} <==> y in set x | x in after :: after[x] {
      if y in live && y != r {
        var x :| x in registered && registered[x] == y;
        assert after[x] == y;
      }
    }
  }

  /** Entries i..n-1 of the event buffer: different live records, each the registered one. */
  ghost predicate Pending(ev: seq<MyData?>, i: nat, n: nat, registered: map<int, MyData>) {
    && i <= n <= |ev|
    && (forall k :: i <= k < n ==> ev[k] != null && ev[k].fd in registered && registered[ev[k].fd] == ev[k])
    && forall j, k :: i <= j < k < n ==> ev[j] != ev[k]
  }

  /** The descriptors the entries of the event buffer name. */
  function Named(ev: seq<MyData?>): (r: seq<int>)
    ensures |r| == |ev|
  {
    seq(|ev|, k requires 0 <= k < |ev| => if ev[k] == null then -1 else ev[k].fd)
  }

  lemma NamedIs(ev: seq<MyData?>, n: nat, batch: seq<int>)
    requires n == |batch| <= |ev| && forall k :: 0 <= k < n ==> ev[k] != null && ev[k].fd == batch[k]
    ensures Named(ev[..n]) == batch
  {
  }

  lemma NamedAt(ev: seq<MyData?>, i: nat, n: nat)
    requires i < n <= |ev| && ev[i] != null
    ensures Named(ev[..n])[i] == ev[i].fd
  {
  }

  lemma NamedUpdate(ev: seq<MyData?>, slot: nat, r: MyData, n: nat)
    requires slot < |ev| && n <= |ev|
    ensures Named(ev[slot := r][..n]) == if slot < n then Named(ev[..n])[slot := r.fd] else Named(ev[..n])
  {
  }

  class EpollServer {
    const world: World
    const ncons: nat
    const sd: int
    const maxevents: nat
    ghost const base: set<int>
    const isopen: array<bool>
    const cd: array<int>
    const epEvent: array<MyData?>     // the data.ptr fields of ep_event
    var nopen: int
    var kernel: set<int>              // open descriptors of the process
    var registered: map<int, MyData>  // the epoll interest list
    ghost var live: set<MyData>       // records allocated and not freed
    ghost var used: nat               // slots ever used

    ghost function State(): Table
      requires ncons <= isopen.Length && ncons <= cd.Length
      reads `nopen, `kernel, isopen, cd
    {
      Table(isopen[..ncons], cd[..], nopen, kernel)
    }

    ghost function Fds(): set<int>
      requires ncons <= isopen.Length && ncons <= cd.Length
      reads isopen, cd
    {
      {sd} + OpenFds(isopen[..ncons], cd[..])
    }

    ghost predicate Shape() {
      && isopen.Length == cd.Length == epEvent.Length == ncons + 8 && maxevents <= ncons + 8
      && Fresh(world.accept) && Batches(world, maxevents)
    }

    ghost predicate TableOk()
      reads `nopen, `kernel, `used, isopen, cd
    {
      Shape() && Inv(base, sd, State()) && (LowestFree(world.accept) ==> Lockstep(base, State(), used))
    }

    ghost predicate Valid()
      reads this, isopen, cd
    {
      TableOk() && Records(Fds(), registered, live)
    }

    /** `cd` is left as malloc returned it. */
    constructor (world: World, ncons: nat, sd: int, maxevents: nat, kernel: set<int>)
      requires Fresh(world.accept) && Batches(world, maxevents) && maxevents <= ncons + 8 && sd in kernel
      ensures Valid() && nopen == 0 && fresh(isopen) && fresh(cd) && fresh(epEvent) && fresh(live)
      ensures this.world == world && this.ncons == ncons && this.sd == sd && base == kernel == this.kernel
      ensures isopen[..ncons] == seq(ncons, _ => false)
    {
      this.world, this.ncons, this.sd, this.maxevents := world, ncons, sd, maxevents;
      this.kernel, this.base := kernel, kernel;
      isopen := new bool[ncons + 8](_ => false);
      cd := new int[ncons + 8];
      epEvent := new MyData?[ncons + 8](_ => null);
      nopen, used := 0, 0;
      var tptr := new MyData(sd);
      registered, live := map[sd := tptr], {tptr};
      new;
      CountBounds(isopen[..ncons]);
      assert OpenFds(isopen[..ncons], cd[..]) == {};
    }

    /** Live records are the open connections' and the listener's. */
    lemma RecordConservation()
      requires Valid()
      ensures |live| == nopen + 1
      ensures forall i :: 0 <= i < ncons && isopen[i] ==> (
        cd[i] in registered && registered[cd[i]].fd == cd[i] && registered[cd[i]] in live)
    {
      RecordsCounted(Fds(), registered, live);
      FdsCounted(isopen[..ncons], cd[..]);
      assert sd !in OpenFds(isopen[..ncons], cd[..]);
      forall i | 0 <= i < ncons && isopen[i] ensures cd[i] in Fds() {
        assert isopen[..ncons][i];
      }
    }

    /** free(): only a live record may be freed, and it is gone afterwards. */
    ghost method Free(r: MyData)
      requires r in live
      modifies this`live
      ensures live == old(live) - {r}
    {
      live := live - {r};
    }

    /** terminate_client: the slot is found by descriptor, the record through the event being handled. */
    method TerminateClient(sdes: int, i: nat)
      requires Valid() && i < epEvent.Length && epEvent[i] != null && epEvent[i].fd == sdes != sd
      requires sdes in registered && registered[sdes] == epEvent[i]
      modifies this`nopen, this`kernel, this`registered, this`live, isopen
      ensures Valid() && registered == old(registered) - {sdes} && live == old(live) - {epEvent[i]}
      ensures var ci := Find(cd[..], sdes, ncons);
        ci < ncons && old(isopen[ci]) && cd[ci] == sdes && State() == Terminated(old(State()), ci)
    {
      hide Lockstep;
      ghost var was := State();
      TerminateFinds(base, sd, was, sdes);
      if LowestFree(world.accept) {
        LockstepTerminate(base, was, used, Find(was.cd, sdes, ncons));
      }
      RecordFreed(Fds(), registered, live, epEvent[i]);
      var ci := 0;
      while ci < ncons
        invariant 0 <= ci <= Find(was.cd, sdes, ncons)
      {
        if sdes == cd[ci] { break; }
        ci := ci + 1;
      }
      kernel, registered := kernel - {sdes}, registered - {sdes};
      isopen[ci] := false;
      nopen := nopen - 1;
      Free(epEvent[i]);
      assert State() == Terminated(was, ci);
    }

    /** accept_it: the new record also overwrites the event buffer at the index of the slot. */
    method AcceptIt(t: nat) returns (ci: nat)
      requires Valid() && nopen < ncons
      modifies this`nopen, this`kernel, this`registered, this`live, this`used, isopen, cd, epEvent
      ensures Valid() && ci == FirstFree(old(State()).open, ncons) < ncons
      ensures State() == Accepted(old(State()), world.accept(t, old(kernel))) && cd[ci] == world.accept(t, old(kernel))
      ensures fresh(epEvent[ci]) && epEvent[..] == old(epEvent[..])[ci := epEvent[ci]]
      ensures epEvent[ci] != null && epEvent[ci].fd == cd[ci] && cd[ci] !in old(registered)
      ensures registered == old(registered)[cd[ci] := epEvent[ci]] && live == old(live) + {epEvent[ci]}
    {
      hide Inv, Lockstep, OpenFds, Batches, Accepted, LowestFree, Fresh, Records;
      ghost var fds := Fds();
      RecordKeys(fds, registered, live);
      ci := AcceptSlot(t);
      AddRecord(ci, fds);
    }

    method AddRecord(ci: nat, ghost fds: set<int>)
      requires ci < epEvent.Length && ci < cd.Length && Records(fds, registered, live) && cd[ci] !in fds
      modifies this`registered, this`live, epEvent
      ensures fresh(epEvent[ci]) && epEvent[..] == old(epEvent[..])[ci := epEvent[ci]]
      ensures epEvent[ci] != null && epEvent[ci].fd == cd[ci] && Records(fds + {cd[ci]}, registered, live)
      ensures registered == old(registered)[cd[ci] := epEvent[ci]] && live == old(live) + {epEvent[ci]}
    {
      var tptr := new MyData(cd[ci]);
      RecordAdded(fds, registered, live, tptr);
      epEvent[ci] := tptr;
      registered := registered[cd[ci] := tptr];
      live := live + {tptr};
    }

    method AcceptSlot(t: nat) returns (ci: nat)
      requires TableOk() && nopen < ncons
      modifies this`nopen, this`kernel, this`used, isopen, cd
      ensures TableOk() && ci == FirstFree(old(State()).open, ncons) < ncons
      ensures State() == Accepted(old(State()), world.accept(t, old(kernel))) && cd[ci] == world.accept(t, old(kernel))
      ensures Fds() == old(Fds()) + {cd[ci]} && cd[ci] !in old(Fds())
    {
      hide Inv, Lockstep, OpenFds, Batches, LowestFree;
      ghost var was := State();
      var fd := world.accept(t, kernel);
      FdsOpen();
      AcceptKeeps(base, sd, was, fd);
      FirstFreeFront(isopen[..], ncons);
      ci := AcceptOne(isopen, cd, ncons, fd);
      isopen[ci] := true;
      kernel := kernel + {fd};
      nopen := nopen + 1;
      if LowestFree(world.accept) {
        LowestGiven(t, was.kernel);
        LockstepAccept(base, sd, was, used, fd);
        used := if ci == used then used + 1 else used;
      }
      assert State() == Accepted(was, fd);
    }

    lemma LowestGiven(t: nat, open: set<int>)
      requires LowestFree(world.accept)
      ensures var fd := world.accept(t, open); fd >= 0 && fd !in open && forall x: nat :: x !in open ==> fd <= x
    {}

    lemma FdsOpen()
      requires TableOk()
      ensures Fds() <= kernel && nopen == Count(isopen[..ncons])
    {}

    /** epoll_wait: the buffer receives the records registered with the reported descriptors. */
    method Wait(t: nat) returns (n: nat, batch: seq<int>)
      requires Valid()
      modifies epEvent
      ensures batch == world.wait(t, registered.Keys) && n == |batch| <= epEvent.Length
      ensures Pending(epEvent[..], 0, n, registered)
      ensures Named(epEvent[..n]) == batch && Reported(sd, State(), batch)
    {
      batch := world.wait(t, registered.Keys);
      n := |batch|;
      BatchReported(t);
      hide Inv, Lockstep, OpenFds, LowestFree, Reported;
      forall i | 0 <= i < n {
        epEvent[i] := registered[batch[i]];
      }
      NamedIs(epEvent[..], n, batch);
      assert epEvent[..][..n] == epEvent[..n];
    }

    lemma BatchReported(t: nat)
      requires Valid()
      ensures Reported(sd, State(), world.wait(t, registered.Keys))
    {
      hide OpenFds, Lockstep;
    }

    /** What is left to handle is still sound: nothing pending has been freed. */
    lemma StillPending(was: seq<MyData?>, old': map<int, MyData>, i: nat, n: nat, ci: nat)
      requires i < n && Pending(was, i, n, old') && ci < |was| == epEvent.Length
      requires epEvent[ci] != null && epEvent[..] == was[ci := epEvent[ci]] && epEvent[ci] !in was
      requires epEvent[ci].fd !in old' && registered == old'[epEvent[ci].fd := epEvent[ci]]
      ensures Pending(epEvent[..], i + 1, n, registered)
    {
      var now := epEvent[..];
      assert forall k :: 0 <= k < n && k != ci ==> now[k] == was[k] && was[k] in was;
    }

    ghost function Now(n: nat): Turn
      requires n <= epEvent.Length && ncons <= isopen.Length && ncons <= cd.Length
      reads `nopen, `kernel, isopen, cd, epEvent
    {
      Turn(State(), Named(epEvent[..n]))
    }

    /** One turn of the event loop. */
    method HandleEvent(t: nat, i: nat, n: nat)
      requires Valid() && i < n && Pending(epEvent[..], i, n, registered)
      modifies this`nopen, this`kernel, this`registered, this`live, this`used, isopen, cd, epEvent
      ensures Valid() && Pending(epEvent[..], i + 1, n, registered)
      ensures Now(n) == HandleOne(world, sd, t, old(Now(n)), i)
    {
      hide Records, Inv, Lockstep, Accepted, Terminated, Named;
      ghost var turn, was, reg := Now(n), epEvent[..], registered;
      var tptr := epEvent[i];
      NamedAt(was, i, n);
      assert was[..n] == epEvent[..n];
      if tptr.fd == sd {
        HasRoom();
        if nopen < ncons {
          ListenerOpen();
          var slot := AcceptIt(t);
          assert epEvent[slot] !in was;
          StillPending(was, reg, i, n, slot);
          NamedUpdate(was, slot, epEvent[slot], n);
          assert epEvent[..n] == epEvent[..][..n];
        }
      } else {
        if world.hangup(t, i, tptr.fd) {
          TerminateClient(tptr.fd, i);
        }
      }
    }

    lemma HasRoom()
      requires Valid()
      ensures nopen < ncons ==> FirstFree(isopen[..ncons], ncons) < ncons
    {
      Room(base, sd, State());
    }

    lemma ListenerOpen()
      requires Valid()
      ensures sd in kernel && sd in registered
    {}

    /** One turn of the main loop. `handled[k]` is the descriptor that event `k` was handled for: what epoll_wait
        reported, if and only if no accept of the batch fills a slot whose index is that of an event still pending.
        Exactly those that hang up leave. */
    method Round(t: nat) returns (batch: seq<int>, handled: seq<int>)
      requires Valid()
      modifies this`nopen, this`kernel, this`registered, this`live, this`used, isopen, cd, epEvent
      ensures Valid() && batch == world.wait(t, old(registered).Keys) && |handled| == |batch|
      ensures handled == batch <==> !exists a: nat :: Overwrites(world, sd, t, old(State()), batch, a)
      ensures forall a: nat :: Overwrites(world, sd, t, old(State()), batch, a) ==>
        var slot, fd := SlotOf(world, sd, t, old(State()), batch, a), FdOf(world, sd, t, old(State()), batch, a);
        handled == batch[slot := fd] && fd != batch[slot]
      ensures Leaves(world, sd, t, old(State()), batch, handled, OpenFds(isopen[..ncons], cd[..]))
      ensures State() == After(world, sd, t, Turn(old(State()), batch), 0, |batch|).t
    {
      hide Records, Inv, Lockstep, Batches, Named, Reported;
      hide Overwrites, Leaves, SlotOf, FdOf, HandleOne, After, Handled;
      ghost var table := State();
      var n, reported := Wait(t);
      batch := reported;
      handled := [];
      Consistent();
      HandledExact(world, base, sd, t, table, batch);
      BatchLeaves(world, base, sd, t, table, batch);
      NoneYet(world, sd, t, table, batch);
      var i := 0;
      while i < n
        invariant 0 <= i <= n == |batch| && Valid() && Pending(epEvent[..], i, n, registered)
        invariant Now(n) == After(world, sd, t, Turn(table, batch), 0, i)
        invariant handled == Handled(world, sd, t, table, batch)[..i]
      {
        OneMore(world, sd, t, table, batch, i);
        EventNamed(i, n);
        handled := handled + [epEvent[i].fd];
        HandleEvent(t, i, n);
        i := i + 1;
      }
    }

    lemma EventNamed(i: nat, n: nat)
      requires i < n <= epEvent.Length && epEvent[i] != null && ncons <= isopen.Length && ncons <= cd.Length
      ensures Now(n).ev[i] == epEvent[i].fd
    {
      assert epEvent[..][..n] == epEvent[..n];
      NamedAt(epEvent[..], i, n);
    }

    lemma Watched()
      requires Valid()
      ensures registered.Keys == Fds()
    {}

    lemma Consistent()
      requires Valid()
      ensures Inv(base, sd, State()) && Fresh(world.accept)
    {}

    /** Any number of rounds, whatever the kernel and the clients do: no record leaks, none is freed twice. */
    method Run(rounds: nat)
      requires Valid()
      modifies this`nopen, this`kernel, this`registered, this`live, this`used, isopen, cd, epEvent
      ensures Valid() && 0 <= nopen <= ncons && |live| == nopen + 1
    {
      var t := 0;
      while t < rounds
        invariant Valid()
      {
        var _, _ := Round(t);
        t := t + 1;
      }
      RecordConservation();
      CountBounds(isopen[..ncons]);
    }
  }

  /* ---------- the overwrite happens ---------- */

  /** First a connection is waiting, then another one together with data on the first. */
  function TwoTurns(t: nat, fds: set<int>): (r: seq<int>)
    ensures |r| <= 2 && forall i :: 0 <= i < |r| ==> r[i] in fds
    ensures |r| == 2 ==> r[0] != r[1]
  {
    if t == 0 && 3 in fds then [3] else if t == 1 && 3 in fds && 5 in fds then [3, 5] else []
  }

  const SCENE: World := World(LOWEST, TwoTurns, (t, i, fd) => false)

  const START: set<int> := {0, 1, 2, 3, 4}

  lemma Numbers()
    ensures LOWEST(0, START) == 5 && LOWEST(1, START + {5}) == 6
  {
    assert Lowest(START, 0) > 5 ==> 5 in START;
    assert Lowest(START + {5}, 0) > 6 ==> 6 in START + {5};
  }

  lemma FirstTurn(cd: seq<int>)
    requires |cd| >= 2
    ensures After(SCENE, 3, 0, Turn(Table([false, false], cd, 0, START), [3]), 0, 1).t ==
            Table([true, false], cd[0 := 5], 1, START + {5})
  {
    Numbers();
    hide Lowest;
    var b := Turn(Table([false, false], cd, 0, START), [3]);
    assert After(SCENE, 3, 0, b, 0, 0) == b;
    assert FirstFree([false, false], 2) == 0 && [false, false][0 := true] == [true, false];
  }

  lemma SecondTurn(cd: seq<int>)
    requires |cd| >= 2
    ensures var t := Table([true, false], cd[0 := 5], 1, START + {5});
      && Overwrites(SCENE, 3, 1, t, [3, 5], 0) && SlotOf(SCENE, 3, 1, t, [3, 5], 0) == 1
      && FdOf(SCENE, 3, 1, t, [3, 5], 0) == 6
  {
    Numbers();
    hide Lowest;
    var t := Table([true, false], cd[0 := 5], 1, START + {5});
    assert Gone(SCENE, 3, 1, [3, 5], 0, 0) == {};
    assert StillOpen(t, {}) == [true, false];
    assert t.kernel - {} == t.kernel;
    FirstOfTwo();
  }

  lemma FirstOfTwo()
    ensures FirstFree([true, false], 2) == 1 && Count([true, false]) == 1
  {
    CountBounds([true, false]);
    assert [true, false][1 := true] == [true, true];
    CountUpdate([true, false], 1, true);
    CountBounds([true, true]);
  }

  /** With room for two connections: the accept of the second turn fills slot 1, the index of the event still pending,
      so handle_client is called on descriptor 6, which nobody reported, and not on 5, which was. */
  method OverwriteHappens() returns (batch: seq<int>, handled: seq<int>)
    ensures batch == [3, 5] && handled == [3, 6]
  {
    hide Overwrites, SlotOf, FdOf, After, Lowest, Leaves, Inv, Records, Lockstep, Fresh, Batches;
    SceneOk();
    var s := new EpollServer(SCENE, 2, 3, 2, START);
    ghost var cd := s.cd[..];
    s.Watched();
    Nobody(cd);
    FirstTurn(cd);
    SecondTurn(cd);
    assert s.State() == Table([false, false], cd, 0, START);
    var _, _ := s.Round(0);
    s.Watched();
    OneThere(cd);
    batch, handled := s.Round(1);
  }

  lemma SceneOk()
    ensures Fresh(SCENE.accept) && Batches(SCENE, 2)
  {
    LowestIsLowest();
  }

  lemma Nobody(cd: seq<int>)
    requires |cd| >= 2
    ensures OpenFds([false, false], cd) == {} && TwoTurns(0, {3} + {}) == [3]
  {
  }

  lemma OneThere(cd: seq<int>)
    requires |cd| >= 2
    ensures OpenFds([true, false], cd[0 := 5]) == {5} && TwoTurns(1, {3} + {5}) == [3, 5]
  {
    assert [true, false][0] && cd[0 := 5][0] == 5;
  }
}
