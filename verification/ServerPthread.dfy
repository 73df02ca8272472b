/** The pthread server as interleaved steps: one acceptor, any number of workers, a counter updated
    under a mutex and slots released outside it. */
module ServerPthread {
  import opened Slots

  /** Where the acceptor is in its loop; `Overrun` is an accept_one that ran off the table. */
  datatype APc = Spin | Scan(k: nat) | Claim(ci: nat) | Lock(ci: nat) | Load(ci: nat)
               | Store(ci: nat, tmp: int) | Unlock(ci: nat) | Spawn(ci: nat) | Overrun

  /** Where a worker is: serving, about to clear its slot, or in the locked section of terminate_client. */
  datatype WPc = Serve | Clear | WLock | WLoad | WStore(tmp: int) | WUnlock | Done

  datatype Worker = Worker(slot: nat, pc: WPc)
  datatype Holder = Free | Acceptor | Thread(i: nat)
  datatype State = State(open: seq<bool>, nopen: int, mutex: Holder, apc: APc, workers: seq<Worker>)

  function Init(ncons: nat): State {
    State(seq(ncons, _ => false), 0, Free, Spin, [])
  }

  /** One step of the acceptor; a blocked or spinning acceptor stays where it is. */
  function AcceptorStep(s: State): State {
    match s.apc
    case Spin => if s.nopen == |s.open| then s else s.(apc := Scan(0))
    case Scan(k) =>
      if k >= |s.open| then s.(apc := Overrun)
      else if s.open[k] then s.(apc := Scan(k + 1)) else s.(apc := Claim(k))
    case Claim(ci) => if ci < |s.open| then s.(open := s.open[ci := true], apc := Lock(ci)) else s.(apc := Overrun)
    case Lock(ci) => if s.mutex == Free then s.(mutex := Acceptor, apc := Load(ci)) else s
    case Load(ci) => s.(apc := Store(ci, s.nopen))
    case Store(ci, tmp) => s.(nopen := tmp + 1, apc := Unlock(ci))
    case Unlock(ci) => s.(mutex := Free, apc := Spawn(ci))
    case Spawn(ci) => s.(workers := s.workers + [Worker(ci, Serve)], apc := Spin)
    case Overrun => s
  }

  /** One step of worker `i`; `leave` says that handle_client reported a shutdown. */
  function WorkerStep(s: State, i: nat, leave: bool): State
    requires i < |s.workers|
  {
    var w := s.workers[i];
    match w.pc
    case Serve => if leave then Move(s, i, Clear) else s
    case Clear => if w.slot < |s.open| then Move(s, i, WLock).(open := s.open[w.slot := false]) else s
    case WLock => if s.mutex == Free then Move(s, i, WLoad).(mutex := Thread(i)) else s
    case WLoad => Move(s, i, WStore(s.nopen))
    case WStore(tmp) => Move(s, i, WUnlock).(nopen := tmp - 1)
    case WUnlock => Move(s, i, Done).(mutex := Free)
    case Done => s
  }

  function Move(s: State, i: nat, pc: WPc): State
    requires i < |s.workers|
  {
    s.(workers := s.workers[i := s.workers[i].(pc := pc)])
  }

  /** The scheduler's choices. */
  datatype Choice = A | W(i: nat, leave: bool)

  function Step(s: State, c: Choice): State {
    match c
    case A => AcceptorStep(s)
    case W(i, leave) => if i < |s.workers| then WorkerStep(s, i, leave) else s
  }

  function Run(s: State, cs: seq<Choice>): State {
    if cs == [] then s else Step(Run(s, cs[..|cs| - 1]), cs[|cs| - 1])
  }

  /* ---------- what is counted ---------- */

  /** The worker has not yet decremented `nopen`. */
  predicate BeforeDecrement(pc: WPc) { pc.Serve? || pc.Clear? || pc.WLock? || pc.WLoad? || pc.WStore? }

  /** The worker has not yet cleared its slot. */
  predicate BeforeClear(pc: WPc) { pc.Serve? || pc.Clear? }

  /** The acceptor has incremented `nopen` but not yet spawned. */
  predicate Incremented(a: APc) { a.Unlock? || a.Spawn? }

  /** The acceptor has marked its slot but not yet spawned. */
  predicate Marked(a: APc) { a.Lock? || a.Load? || a.Store? || a.Unlock? || a.Spawn? }

  function Undecremented(ws: seq<Worker>): seq<bool> {
    seq(|ws|, i requires 0 <= i < |ws| => BeforeDecrement(ws[i].pc))
  }

  function Uncleared(ws: seq<Worker>): seq<bool> { seq(|ws|, i requires 0 <= i < |ws| => BeforeClear(ws[i].pc)) }
  function One(b: bool): nat { if b then 1 else 0 }

  ghost predicate Counted(s: State) {
    && s.nopen == Count(Undecremented(s.workers)) + One(Incremented(s.apc))
    && Count(s.open) == Count(Uncleared(s.workers)) + One(Marked(s.apc))
    && s.nopen <= |s.open|
    && (s.apc.Scan? || s.apc.Claim? || s.apc.Lock? || s.apc.Load? || s.apc.Store? ==> s.nopen < |s.open|)
  }

  ghost predicate Locked(s: State) {
    && (s.mutex.Acceptor? <==> s.apc.Load? || s.apc.Store? || s.apc.Unlock?)
    && (s.apc.Store? ==> s.apc.tmp == s.nopen)
    && (s.mutex.Thread? ==> s.mutex.i < |s.workers|)
    && forall i :: 0 <= i < |s.workers| ==>
      var pc := s.workers[i].pc;
      && (s.mutex == Thread(i) <==> pc.WLoad? || pc.WStore? || pc.WUnlock?)
      && (pc.WStore? ==> pc.tmp == s.nopen)
  }

  /** The slot the acceptor has marked for a worker it has yet to spawn. */
  function MarkedSlot(a: APc): nat
    requires Marked(a)
  {
    match a
    case Lock(ci) => ci
    case Load(ci) => ci
    case Store(ci, _) => ci
    case Unlock(ci) => ci
    case Spawn(ci) => ci
  }

  ghost predicate Owned(s: State) {
    && (forall i :: 0 <= i < |s.workers| && BeforeClear(s.workers[i].pc) ==>
          s.workers[i].slot < |s.open| && s.open[s.workers[i].slot])
    && (forall i, j :: 0 <= i < j < |s.workers| && BeforeClear(s.workers[i].pc) && BeforeClear(s.workers[j].pc) ==>
          s.workers[i].slot != s.workers[j].slot)
    && (Marked(s.apc) ==> MarkedSlot(s.apc) < |s.open| && s.open[MarkedSlot(s.apc)])
    && (forall i :: 0 <= i < |s.workers| && BeforeClear(s.workers[i].pc) && Marked(s.apc) ==>
          s.workers[i].slot != MarkedSlot(s.apc))
    && (s.apc.Claim? ==> s.apc.ci < |s.open| && !s.open[s.apc.ci])
    && (s.apc.Scan? ==> exists f :: s.apc.k <= f < |s.open| && !s.open[f])
    && !s.apc.Overrun?
  }

  ghost predicate Inv(s: State) {
    Counted(s) && Locked(s) && Owned(s)
  }

  lemma {:induction false} CountMonotone(a: seq<bool>, b: seq<bool>)
    requires |a| == |b| && forall i :: 0 <= i < |a| && a[i] ==> b[i]
    ensures Count(a) <= Count(b)
  {
    if a != [] { CountMonotone(a[..|a| - 1], b[..|b| - 1]); }
  }

  /** Leaving the spin loop, the acceptor is sure of a free slot: the open slots are the workers that
      have not cleared theirs, the counted ones have not decremented, and clearing comes first. */
  lemma RoomToScan(s: State)
    requires Inv(s) && s.apc.Spin? && s.nopen != |s.open|
    ensures exists f :: 0 <= f < |s.open| && !s.open[f]
  {
    CountMonotone(Uncleared(s.workers), Undecremented(s.workers));
    CountBounds(s.open);
  }

  lemma AcceptorCounted(s: State)
    requires Inv(s)
    ensures Counted(AcceptorStep(s))
  {
    hide Locked, Count;
    var s' := AcceptorStep(s);
    match s.apc
    case Claim(ci) => CountUpdate(s.open, ci, true);
    case Spawn(ci) =>
      CountAppend(Undecremented(s.workers), true);
      CountAppend(Uncleared(s.workers), true);
      assert Undecremented(s'.workers) == Undecremented(s.workers) + [true];
      assert Uncleared(s'.workers) == Uncleared(s.workers) + [true];
    case Store(ci, tmp) => assert s.nopen == tmp by { StoredValue(s); }
    case _ =>
  }

  lemma StoredValue(s: State)
    requires Locked(s)
    ensures s.apc.Store? ==> s.apc.tmp == s.nopen
  {}

  lemma AcceptorLocked(s: State)
    requires Locked(s)
    ensures Locked(AcceptorStep(s))
  {}

  lemma AcceptorOwned(s: State)
    requires Inv(s)
    ensures Owned(AcceptorStep(s))
  {
    if s.apc.Spin? && s.nopen != |s.open| { RoomToScan(s); }
    hide Counted, Locked;
  }

  lemma CountAppend(a: seq<bool>, b: bool)
    ensures Count(a + [b]) == Count(a) + One(b)
  {
    assert (a + [b])[..|a|] == a;
  }

  /** How moving one worker changes the two counts. */
  lemma MoveCounts(s: State, i: nat, pc: WPc)
    requires i < |s.workers|
    ensures var ws, was := Move(s, i, pc).workers, s.workers[i].pc;
      && Count(Undecremented(ws))
         == Count(Undecremented(s.workers)) + One(BeforeDecrement(pc)) - One(BeforeDecrement(was))
      && Count(Uncleared(ws)) == Count(Uncleared(s.workers)) + One(BeforeClear(pc)) - One(BeforeClear(was))
  {
    var ws := Move(s, i, pc).workers;
    assert Undecremented(ws) == Undecremented(s.workers)[i := BeforeDecrement(pc)];
    assert Uncleared(ws) == Uncleared(s.workers)[i := BeforeClear(pc)];
    CountUpdate(Undecremented(s.workers), i, BeforeDecrement(pc));
    CountUpdate(Uncleared(s.workers), i, BeforeClear(pc));
  }

  lemma OwnValues(s: State, i: nat)
    requires Locked(s) && Owned(s) && i < |s.workers|
    ensures s.workers[i].pc.WStore? ==> s.workers[i].pc.tmp == s.nopen
    ensures s.workers[i].pc.Clear? ==> s.workers[i].slot < |s.open| && s.open[s.workers[i].slot]
  {
  }

  lemma WorkerCounted(s: State, i: nat, leave: bool)
    requires Inv(s) && i < |s.workers|
    ensures Counted(WorkerStep(s, i, leave))
  {
    hide Count, Locked, Owned, Undecremented, Uncleared;
    var w := s.workers[i];
    OwnValues(s, i);
    match w.pc
    case Serve => MoveCounts(s, i, Clear);
    case Clear =>
      MoveCounts(s, i, WLock);
      CountUpdate(s.open, w.slot, false);
    case WLock => MoveCounts(s, i, WLoad);
    case WLoad => MoveCounts(s, i, WStore(s.nopen));
    case WStore(tmp) => MoveCounts(s, i, WUnlock);
    case WUnlock => MoveCounts(s, i, Done);
    case Done =>
  }

  lemma WorkerLocked(s: State, i: nat, leave: bool)
    requires Locked(s) && i < |s.workers|
    ensures Locked(WorkerStep(s, i, leave))
  {}

  lemma SameOwners(s: State, s': State)
    requires Owned(s) && s'.open == s.open && s'.apc == s.apc && |s'.workers| == |s.workers|
    requires forall i :: 0 <= i < |s.workers| ==>
      s'.workers[i].slot == s.workers[i].slot && BeforeClear(s'.workers[i].pc) == BeforeClear(s.workers[i].pc)
    ensures Owned(s')
  {
    hide BeforeClear;
  }

  /** A slot is cleared by its only owner, so nobody else loses theirs, and a scan in progress keeps
      the free slot it is heading for. */
  lemma ClearOwned(s: State, i: nat)
    requires Owned(s) && i < |s.workers| && s.workers[i].pc.Clear?
    ensures Owned(WorkerStep(s, i, true))
  {
    var s', slot := WorkerStep(s, i, true), s.workers[i].slot;
    if s.apc.Scan? {
      var f :| s.apc.k <= f < |s.open| && !s.open[f];
      assert !s'.open[f];
    }
    assert s'.open == s.open[slot := false];
    forall j | 0 <= j < |s.workers| && BeforeClear(s'.workers[j].pc)
      ensures s.workers[j].slot != slot && s'.workers[j] == s.workers[j]
    {}
  }

  lemma WorkerOwned(s: State, i: nat, leave: bool)
    requires Owned(s) && i < |s.workers|
    ensures Owned(WorkerStep(s, i, leave))
  {
    hide Owned;
    if s.workers[i].pc.Clear? {
      ClearOwned(s, i);
    } else {
      SameOwners(s, WorkerStep(s, i, leave));
    }
  }

  lemma InitInv(n: nat)
    ensures Inv(Init(n))
  {
    CountBounds(Init(n).open);
  }

  /** Every state of every run of every interleaving. */
  lemma {:induction false} RunKeeps(n: nat, cs: seq<Choice>)
    ensures Inv(Run(Init(n), cs)) && |Run(Init(n), cs).open| == n
  {
    hide Inv, Step;
    if cs == [] {
      InitInv(n);
    } else {
      RunKeeps(n, cs[..|cs| - 1]);
      StepKeeps(Run(Init(n), cs[..|cs| - 1]), cs[|cs| - 1]);
    }
  }

  lemma StepKeeps(s: State, c: Choice)
    requires Inv(s)
    ensures Inv(Step(s, c)) && |Step(s, c).open| == |s.open|
  {
    TableKept(s, c);
    hide Counted, Locked, Owned, AcceptorStep, WorkerStep;
    match c
    case A =>
      AcceptorCounted(s);
      AcceptorLocked(s);
      AcceptorOwned(s);
    case W(i, leave) =>
      if i < |s.workers| {
        WorkerCounted(s, i, leave);
        WorkerLocked(s, i, leave);
        WorkerOwned(s, i, leave);
      }
  }

  lemma TableKept(s: State, c: Choice)
    ensures |Step(s, c).open| == |s.open|
  {}

  /** `nopen` is the number of workers that have not decremented it plus a connection counted but not
      yet spawned; it stays between 0 and `ncons`; accept_one always stops inside the table; no two
      serving workers share a slot; and at most one thread is inside the locked section. */
  lemma Conservation(n: nat, cs: seq<Choice>)
    ensures var s := Run(Init(n), cs);
      && s.nopen == Count(Undecremented(s.workers)) + One(Incremented(s.apc))
      && 0 <= s.nopen <= n && |s.open| == n
      && !s.apc.Overrun? && (s.apc.Claim? ==> s.apc.ci < n && !s.open[s.apc.ci])
      && (forall i, j :: 0 <= i < j < |s.workers| && s.workers[i].pc.Serve? && s.workers[j].pc.Serve? ==>
            s.workers[i].slot != s.workers[j].slot)
      && (forall i, j :: 0 <= i < j < |s.workers| ==>
            !(s.workers[i].pc.WStore? && s.workers[j].pc.WStore?) && !(s.workers[i].pc.WStore? && s.apc.Store?))
  {
    RunKeeps(n, cs);
  }

  /* ---------- progress ---------- */

  /** Who stays where it is: the acceptor while the table is full or the mutex held, a worker while its client stays,
      while the mutex is held, and when it is done. */
  lemma StaysPut(n: nat, cs: seq<Choice>)
    ensures var s := Run(Init(n), cs);
      && (Step(s, A) == s <==> (s.apc.Spin? && s.nopen == n) || (s.apc.Lock? && s.mutex != Free))
      && forall i, leave :: 0 <= i < |s.workers| ==>
        var pc := s.workers[i].pc;
        Step(s, W(i, leave)) == s <==> pc.Done? || (pc.WLock? && s.mutex != Free) || (pc.Serve? && !leave)
  {
    RunKeeps(n, cs);
    var s := Run(Init(n), cs);
    AcceptorStays(s);
    forall i, leave | 0 <= i < |s.workers|
      ensures var pc := s.workers[i].pc;
        Step(s, W(i, leave)) == s <==> pc.Done? || (pc.WLock? && s.mutex != Free) || (pc.Serve? && !leave)
    {
      WorkerStays(s, i, leave);
    }
  }

  lemma AcceptorStays(s: State)
    requires Inv(s)
    ensures AcceptorStep(s) == s <==> (s.apc.Spin? && s.nopen == |s.open|) || (s.apc.Lock? && s.mutex != Free)
  {
    hide Counted, Locked, Count;
  }

  lemma WorkerStays(s: State, i: nat, leave: bool)
    requires Inv(s) && i < |s.workers|
    ensures var pc := s.workers[i].pc;
      WorkerStep(s, i, leave) == s <==> pc.Done? || (pc.WLock? && s.mutex != Free) || (pc.Serve? && !leave)
  {
    hide Counted, Locked;
    var s', pc := WorkerStep(s, i, leave), s.workers[i].pc;
    assert pc.Clear? ==> s.workers[i].slot < |s.open|;
    assert s' != s ==> s'.workers[i].pc != pc;
  }

  lemma {:induction false} RunAppend(s: State, a: seq<Choice>, b: seq<Choice>)
    ensures Run(s, a + b) == Run(Run(s, a), b)
  {
    hide Step;
    if b == [] {
      assert a + b == a;
    } else {
      RunAppend(s, a, b[..|b| - 1]);
      assert (a + b)[..|a + b| - 1] == a + b[..|b| - 1];
    }
  }

  lemma RunFrom(s: State, c: Choice, more: seq<Choice>)
    ensures Run(s, [c] + more) == Run(Step(s, c), more)
  {
    hide Step;
    RunAppend(s, [c], more);
    assert [c][..0] == [];
  }

  /** One more worker serves, in a slot that no client held: free in `s`, or marked for this very worker. The other
      workers keep their slots, and those still holding one have not moved. */
  ghost predicate ServesOneMore(s: State, s': State) {
    var k := |s.workers|;
    && |s'.workers| == k + 1 && s'.workers[k].pc.Serve?
    && s'.workers[k].slot < |s.open| && s'.open == s.open[s'.workers[k].slot := true]
    && (if Marked(s.apc) then s'.workers[k].slot == MarkedSlot(s.apc) else !s.open[s'.workers[k].slot])
    && forall i :: 0 <= i < k ==>
      && s'.workers[i].slot == s.workers[i].slot
      && (s.workers[i].pc.Serve? || s.workers[i].pc.Clear? ==>
            s'.workers[i] == s.workers[i] && s.workers[i].slot != s'.workers[k].slot)
  }

  /** How far the acceptor is from spawning, counting the steps of a worker inside the locked section. */
  function Distance(s: State): nat
    requires Inv(s)
  {
    match s.apc
    case Spin => |s.open| + 20
    case Scan(k) => if k <= |s.open| then |s.open| - k + 18 else 0
    case Claim(_) => 16
    case Lock(_) => 12 + Inside(s)
    case Load(_) => 8
    case Store(_, _) => 7
    case Unlock(_) => 6
    case Spawn(_) => 5
    case Overrun => 0
  }

  function Inside(s: State): nat
    requires s.mutex.Thread? ==> s.mutex.i < |s.workers|
  {
    if !s.mutex.Thread? then 0
    else match s.workers[s.mutex.i].pc
      case WLoad => 3
      case WStore(_) => 2
      case _ => 1
  }

  /** The next move towards a new worker. */
  function Forward(s: State): Choice {
    if s.apc.Lock? && s.mutex.Thread? then W(s.mutex.i, false) else A
  }

  lemma ForwardNearer(s: State)
    requires Inv(s) && !s.apc.Spawn? && (s.apc.Spin? ==> s.nopen != |s.open|)
    ensures Inv(Step(s, Forward(s))) && !Step(s, Forward(s)).apc.Spin?
    ensures Distance(Step(s, Forward(s))) < Distance(s)
  {
    StepKeeps(s, Forward(s));
    hide Count, Counted;
    if s.apc.Lock? {
      hide Owned;
    } else {
      hide Locked;
      StopsInTime(s);
      hide Owned;
    }
  }

  lemma StopsInTime(s: State)
    requires Owned(s)
    ensures !s.apc.Overrun? && (s.apc.Scan? ==> s.apc.k < |s.open|) && (s.apc.Claim? ==> s.apc.ci < |s.open|)
  {
  }

  lemma ForwardServes(s: State, s': State)
    requires Inv(s) && !s.apc.Spawn? && (s.apc.Spin? ==> s.nopen != |s.open|)
    requires ServesOneMore(Step(s, Forward(s)), s')
    ensures ServesOneMore(s, s')
  {
    hide Count, Counted;
  }

  lemma SpawnServes(s: State)
    requires Inv(s) && s.apc.Spawn?
    ensures ServesOneMore(s, Step(s, A))
  {
    hide Count, Counted, Locked;
  }

  lemma {:induction false} Reaches(s: State) returns (more: seq<Choice>)
    requires Inv(s) && (s.apc.Spin? ==> s.nopen != |s.open|)
    ensures ServesOneMore(s, Run(s, more))
    decreases Distance(s)
  {
    hide Inv, Step, ServesOneMore, Forward, Run;
    if s.apc.Spawn? {
      SpawnServes(s);
      RunFrom(s, A, []);
      RunNothing(Step(s, A));
      more := [A] + [];
    } else {
      ForwardNearer(s);
      var rest := Reaches(Step(s, Forward(s)));
      RunFrom(s, Forward(s), rest);
      more := [Forward(s)] + rest;
      ForwardServes(s, Run(s, more));
    }
  }

  lemma RunNothing(s: State)
    ensures Run(s, []) == s
  {
  }

  /** From every reachable state with room, or with an accept under way, one more client can come to be served. */
  lemma AcceptsWhenRoom(n: nat, cs: seq<Choice>)
    ensures var s := Run(Init(n), cs);
      s.nopen < n || !s.apc.Spin? ==> exists more :: ServesOneMore(s, Run(Init(n), cs + more))
  {
    hide Inv, ServesOneMore, Run;
    RunKeeps(n, cs);
    var s := Run(Init(n), cs);
    if s.nopen < n || !s.apc.Spin? {
      var more := Reaches(s);
      RunAppend(Init(n), cs, more);
    }
  }

  /** What the thread inside the locked section has yet to add to `nopen`. */
  function Pending(s: State): int {
    if s.apc.Load? || s.apc.Store? then 1
    else if s.mutex.Thread? && s.mutex.i < |s.workers|
            && (s.workers[s.mutex.i].pc.WLoad? || s.workers[s.mutex.i].pc.WStore?) then -1
    else 0
  }

  /** Worker `i` is done, its slot is free, nopen is one lower once whoever held the mutex has finished, the mutex is
      free and nobody else has moved. */
  ghost predicate HasLeft(s: State, i: nat, s': State)
    requires i < |s.workers|
  {
    && |s'.workers| == |s.workers| && s'.workers[i] == Worker(s.workers[i].slot, Done)
    && s.workers[i].slot < |s.open| && s'.open == s.open[s.workers[i].slot := false]
    && s'.nopen == s.nopen - 1 + Pending(s) && s'.mutex == Free
    && forall j :: 0 <= j < |s.workers| && j != i ==>
      s'.workers[j].slot == s.workers[j].slot && (s.mutex != Thread(j) ==> s'.workers[j] == s.workers[j])
  }

  /** The mutex is free and nothing else has changed but for its holder and what that had yet to store. */
  ghost predicate Released(s: State, s': State) {
    && |s'.workers| == |s.workers| && s'.open == s.open && s'.nopen == s.nopen + Pending(s) && s'.mutex == Free
    && forall j :: 0 <= j < |s.workers| ==>
      s'.workers[j].slot == s.workers[j].slot && (s.mutex != Thread(j) ==> s'.workers[j] == s.workers[j])
  }

  function Holding(s: State): Choice { if s.mutex.Thread? then W(s.mutex.i, false) else A }

  function Held(s: State): nat
    requires Inv(s)
  {
    if s.mutex == Free then 0
    else if s.mutex.Thread? then Inside(s)
    else if s.apc.Load? then 3
    else if s.apc.Store? then 2
    else 1
  }

  lemma HoldingNearer(s: State)
    requires Inv(s) && s.mutex != Free
    ensures Inv(Step(s, Holding(s))) && Held(Step(s, Holding(s))) < Held(s)
  {
    StepKeeps(s, Holding(s));
    hide Count, Counted, Owned;
  }

  lemma HoldingReleases(s: State, s': State)
    requires Inv(s) && s.mutex != Free && Released(Step(s, Holding(s)), s')
    ensures Released(s, s')
  {
    hide Count, Counted, Owned;
  }

  lemma {:induction false} Releases(s: State) returns (more: seq<Choice>)
    requires Inv(s)
    ensures Inv(Run(s, more)) && Released(s, Run(s, more))
    decreases Held(s)
  {
    hide Inv, Step, Released, Holding, Run;
    if s.mutex == Free {
      RunNothing(s);
      more := [];
      NothingHeld(s);
    } else {
      HoldingNearer(s);
      var rest := Releases(Step(s, Holding(s)));
      RunFrom(s, Holding(s), rest);
      more := [Holding(s)] + rest;
      HoldingReleases(s, Run(s, more));
    }
  }

  lemma NothingHeld(s: State)
    requires Inv(s) && s.mutex == Free
    ensures Released(s, s)
  {
    hide Count, Counted, Owned;
  }

  /** Worker `i` has done what was left for it to do, and nobody else anything. */
  ghost predicate Finished(s: State, i: nat, s': State)
    requires i < |s.workers|
  {
    var w := s.workers[i];
    && s'.workers == s.workers[i := Worker(w.slot, Done)] && s'.mutex == Free
    && (if w.pc.Serve? || w.pc.Clear? then w.slot < |s.open| && s'.open == s.open[w.slot := false]
        else s'.open == s.open)
    && s'.nopen == s.nopen - (if w.pc.WUnlock? || w.pc.Done? then 0 else 1)
  }

  function Remaining(pc: WPc): nat {
    match pc
    case Serve => 6
    case Clear => 5
    case WLock => 4
    case WLoad => 3
    case WStore(_) => 2
    case WUnlock => 1
    case Done => 0
  }

  lemma FinishNearer(s: State, i: nat)
    requires Inv(s) && i < |s.workers| && !s.workers[i].pc.Done? && (s.mutex == Free || s.mutex == Thread(i))
    ensures var t := Step(s, W(i, true));
      && Inv(t) && |t.workers| == |s.workers| && Remaining(t.workers[i].pc) < Remaining(s.workers[i].pc)
      && (t.mutex == Free || t.mutex == Thread(i))
  {
    StepKeeps(s, W(i, true));
    OwnValues(s, i);
    hide Counted, Locked, Owned;
  }

  lemma FinishMore(s: State, i: nat, s': State)
    requires Inv(s) && i < |s.workers| && !s.workers[i].pc.Done? && (s.mutex == Free || s.mutex == Thread(i))
    requires |Step(s, W(i, true)).workers| == |s.workers| && Finished(Step(s, W(i, true)), i, s')
    ensures Finished(s, i, s')
  {
    OwnValues(s, i);
    hide Counted, Locked, Owned;
  }

  /** With the mutex free or its own, a worker whose client leaves runs to its end undisturbed. */
  lemma {:induction false} RunsToEnd(s: State, i: nat) returns (more: seq<Choice>)
    requires Inv(s) && i < |s.workers| && (s.mutex == Free || s.mutex == Thread(i))
    ensures Finished(s, i, Run(s, more))
    decreases Remaining(s.workers[i].pc)
  {
    hide Inv, Step, Finished, Run;
    if s.workers[i].pc.Done? {
      RunNothing(s);
      NothingLeft(s, i);
      more := [];
    } else {
      FinishNearer(s, i);
      var rest := RunsToEnd(Step(s, W(i, true)), i);
      RunFrom(s, W(i, true), rest);
      more := [W(i, true)] + rest;
      FinishMore(s, i, Run(s, more));
    }
  }

  lemma NothingLeft(s: State, i: nat)
    requires Inv(s) && i < |s.workers| && s.workers[i].pc.Done? && (s.mutex == Free || s.mutex == Thread(i))
    ensures Finished(s, i, s)
  {
    hide Count, Counted, Owned;
  }

  /** From every reachable state, every serving worker can leave. */
  lemma LeavesWhenDone(n: nat, cs: seq<Choice>, i: nat)
    requires i < |Run(Init(n), cs).workers| && Run(Init(n), cs).workers[i].pc.Serve?
    ensures exists more :: HasLeft(Run(Init(n), cs), i, Run(Init(n), cs + more))
  {
    hide Inv, Released, Finished, HasLeft, Run;
    RunKeeps(n, cs);
    var s := Run(Init(n), cs);
    var first := Releases(s);
    var t := Run(s, first);
    StillServing(s, t, i);
    var second := RunsToEnd(t, i);
    RunAppend(s, first, second);
    RunAppend(Init(n), cs, first + second);
    LeftAfter(s, t, i, Run(t, second));
  }

  lemma StillServing(s: State, t: State, i: nat)
    requires Inv(s) && Released(s, t) && i < |s.workers| && s.workers[i].pc.Serve?
    ensures t.mutex == Free && i < |t.workers| && t.workers[i] == s.workers[i]
  {
    hide Count, Counted, Owned;
  }

  lemma LeftAfter(s: State, t: State, i: nat, u: State)
    requires Inv(s) && Inv(t) && Released(s, t) && i < |s.workers| && s.workers[i].pc.Serve?
    requires i < |t.workers| && t.workers[i] == s.workers[i] && t.mutex == Free && Finished(t, i, u)
    ensures HasLeft(s, i, u)
  {
    hide Count, Counted, Owned;
  }
}
