/** The select() server: the descriptor set, the table and the counter over whole runs. */
module ServerSelect {
  import opened Slots

  const FD_SETSIZE: nat := 1024

  /** The server's state as values. */
  datatype Table = Table(open: seq<bool>, cd: seq<int>, fdset: set<int>, fdmax: int, nopen: int, kernel: set<int>)

  /** `base` are the process's own descriptors, the listening socket `sd` among them. */
  ghost predicate Inv(base: set<int>, sd: int, t: Table) {
    && |t.open| == |t.cd| && sd in base && base !! OpenFds(t.open, t.cd)
    && t.fdset == {sd} + OpenFds(t.open, t.cd)
    && t.kernel == base + OpenFds(t.open, t.cd)
    && t.nopen == Count(t.open)
    && Distinct(t.open, t.cd)
    && forall i :: 0 <= i < |t.open| && t.open[i] ==> 0 <= t.cd[i] <= t.fdmax
  }

  function Accepted(t: Table, ci: nat, fd: int): Table
    requires ci < |t.open| == |t.cd|
  {
    Table(t.open[ci := true], t.cd[ci := fd], t.fdset + {fd}, if fd > t.fdmax then fd else t.fdmax,
          t.nopen + 1, t.kernel + {fd})
  }

  lemma AcceptKeeps(base: set<int>, sd: int, t: Table, ci: nat, fd: int)
    requires Inv(base, sd, t) && ci < |t.open| && !t.open[ci] && fd >= 0 && fd !in t.kernel
    ensures Inv(base, sd, Accepted(t, ci, fd))
  {
    Fill(t.open, t.cd, ci, fd);
  }

  function Terminated(t: Table, ci: nat): Table
    requires ci < |t.open| == |t.cd|
  {
    Table(t.open[ci := false], t.cd, t.fdset - {t.cd[ci]},
          if t.cd[ci] == t.fdmax then MaxFd(t.fdmax, t.open[ci := false], t.cd, |t.open|) else t.fdmax,
          t.nopen - 1, t.kernel - {t.cd[ci]})
  }

  lemma TerminateKeeps(base: set<int>, sd: int, t: Table, ci: nat)
    requires Inv(base, sd, t) && ci < |t.open| && t.open[ci]
    ensures Inv(base, sd, Terminated(t, ci))
    ensures Terminated(t, ci).fdmax == t.fdmax
  {
    Release(t.open, t.cd, ci);
    assert t.cd[ci] in OpenFds(t.open, t.cd);
    MaxFdLeast(t.fdmax, t.open[ci := false], t.cd, |t.open|);
  }

  class SelectServer {
    const world: Outside
    const ncons: nat
    const sd: int
    ghost const base: set<int>
    const isopen: array<bool>
    const cd: array<int>
    var fdset: set<int>
    var testset: set<int>
    var fdmax: int
    var nopen: int
    var kernel: set<int>        // open descriptors of the process

    ghost function State(): Table
      reads this, isopen, cd
    {
      Table(isopen[..], cd[..], fdset, fdmax, nopen, kernel)
    }

    ghost predicate Valid()
      reads this, isopen, cd
    {
      && isopen.Length == cd.Length == ncons && Fresh(world.accept)
      && Inv(base, sd, State())
    }

    constructor (world: Outside, ncons: nat, sd: int, kernel: set<int>)
      requires Fresh(world.accept) && sd in kernel && ncons <= FD_SETSIZE
      ensures Valid() && fresh(isopen) && fresh(cd) && nopen == 0 && fdset == {sd}
      ensures this.world == world && this.ncons == ncons && this.sd == sd && this.kernel == kernel
    {
      this.world, this.ncons, this.sd, this.kernel, this.base := world, ncons, sd, kernel, kernel;
      isopen := new bool[ncons](_ => false);
      cd := new int[ncons];
      fdset, testset, fdmax, nopen := {sd}, {}, 0, 0;
      new;
      CountBounds(isopen[..]);
      assert OpenFds(isopen[..], cd[..]) == {};
    }

    /** terminate_client. */
    method TerminateClient(ci: nat)
      requires Valid() && ci < ncons && isopen[ci]
      modifies this`fdset, this`fdmax, this`nopen, this`kernel, isopen
      ensures Valid() && State() == Terminated(old(State()), ci) && fdmax == old(fdmax)
    {
      ghost var was := State();
      TerminateKeeps(base, sd, was, ci);
      kernel := kernel - {cd[ci]};
      isopen[ci] := false;
      fdset := fdset - {cd[ci]};
      nopen := nopen - 1;
      if cd[ci] == fdmax {
        fdmax := GetMaxFd(fdmax, isopen, cd, ncons);
      }
      assert State() == Terminated(was, ci);
    }

    /** The accepting half of a round: a free slot takes the new descriptor. */
    method AcceptClient(t: nat) returns (ci: nat)
      requires Valid() && nopen < ncons
      modifies this`fdset, this`fdmax, this`nopen, this`kernel, isopen, cd
      ensures Valid() && ci < ncons && ci == FirstFree(old(isopen[..]), ncons)
      ensures State() == Accepted(old(State()), ci, world.accept(t, old(kernel)))
    {
      ghost var was := State();
      RoomLeft(isopen[..]);
      var fd := world.accept(t, kernel);
      ci := AcceptOne(isopen, cd, ncons, fd);
      AcceptKeeps(base, sd, was, ci, fd);
      kernel := kernel + {fd};
      isopen[ci] := true;
      fdset := fdset + {cd[ci]};
      nopen := nopen + 1;
      if cd[ci] > fdmax {
        fdmax := cd[ci];
      }
      assert State() == Accepted(was, ci, fd);
    }

    /** select(): every descriptor of the set lies below the bound it is given, so none is overlooked. */
    method Select(t: nat)
      requires Valid()
      modifies this`testset, this`fdmax
      ensures Valid() && fdmax >= sd && fdmax >= old(fdmax)
      ensures testset == fdset * world.ready(t, fdset)
    {
      testset := fdset;
      if sd > fdmax {
        fdmax := sd;
      }
      testset := set x | x in testset && x in world.ready(t, fdset) && x < fdmax + 1;
    }

    /** One turn of the main loop at time `t`; `calls` lists the descriptors handle_client was called on. */
    method Round(t: nat) returns (ghost accepted: set<int>, ghost calls: seq<int>)
      requires Valid()
      modifies this, isopen, cd
      ensures Valid() && fdmax >= sd
      ensures testset == old(fdset) * world.ready(t, old(fdset))
      ensures accepted == if sd in testset && old(nopen) < ncons then {world.accept(t, old(kernel))} else {}
      // each connection reported ready is served once, and only those, never the one just accepted
      ensures forall x :: x in calls <==> x in testset && x != sd
      ensures forall i, j :: 0 <= i < j < |calls| ==> calls[i] != calls[j]
      ensures accepted !! (set x | x in calls)
      // a connection is dropped exactly when serving it reports a shutdown
      ensures fdset == old(fdset) + accepted - Dropped(t)
    {
      Select(t);
      ghost var watched := fdset;
      accepted := {};
      if sd in testset && nopen < ncons {
        var ci := AcceptClient(t);
        accepted := {cd[ci]};
      }
      assert accepted !! watched;
      calls := Serve(t);
    }

    ghost function Dropped(t: nat): set<int>
      reads this
    {
      set x | x in testset && x != sd && world.hangup(t, x)
    }

    /** The servicing half of a round. */
    method Serve(t: nat) returns (ghost calls: seq<int>)
      requires Valid() && testset <= fdset
      modifies this`fdset, this`fdmax, this`nopen, this`kernel, isopen
      ensures Valid() && fdmax == old(fdmax)
      ensures forall x :: x in calls <==> x in testset && x != sd
      ensures forall i, j :: 0 <= i < j < |calls| ==> calls[i] != calls[j]
      ensures fdset == old(fdset) - Dropped(t)
    {
      ghost var open, fds, drop := isopen[..], cd[..], Dropped(t);
      calls := [];
      var ci := 0;
      while ci < ncons
        invariant 0 <= ci <= ncons && Valid() && fdmax == old(fdmax)
        invariant Kept(open, fds, drop, isopen[..], ci)
        invariant Called(open, fds, testset, calls, ci)
      {
        calls := ServeSlot(t, ci, open, fds, drop, calls);
        ci := ci + 1;
      }
      KeptAll(open, fds, drop, isopen[..]);
    }

    method ServeSlot(t: nat, ci: nat, ghost open: seq<bool>, ghost fds: seq<int>, ghost drop: set<int>,
                     ghost calls: seq<int>)
      returns (ghost calls': seq<int>)
      requires Valid() && ci < ncons && |open| == ncons && fds == cd[..]
      requires Distinct(open, fds) && sd !in OpenFds(open, fds)
      requires drop == Dropped(t) && Kept(open, fds, drop, isopen[..], ci) && Called(open, fds, testset, calls, ci)
      modifies this`fdset, this`fdmax, this`nopen, this`kernel, isopen
      ensures Valid() && fdmax == old(fdmax)
      ensures Kept(open, fds, drop, isopen[..], ci + 1) && Called(open, fds, testset, calls', ci + 1)
    {
      hide OpenFds, Inv;
      calls' := calls;
      assert open[ci] ==> fds[ci] in OpenFds(open, fds) by { NotListener(open, fds, ci); }
      if isopen[ci] && cd[ci] in testset {
        CalledStep(open, fds, testset, calls, ci);
        calls' := calls + [cd[ci]];
        if world.hangup(t, cd[ci]) {
          TerminateClient(ci);
        }
      } else {
        CalledSkip(open, fds, testset, calls, ci);
      }
    }

    /** Any number of rounds, whatever the kernel and the clients do. */
    method Run(rounds: nat)
      requires Valid()
      modifies this, isopen, cd
      ensures Valid() && nopen <= ncons
    {
      var t := 0;
      while t < rounds
        invariant Valid()
      {
        var _, _ := Round(t);
        t := t + 1;
      }
      CountBounds(isopen[..]);
    }
  }
}
