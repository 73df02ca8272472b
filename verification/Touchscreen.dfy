/** The touchscreen's sampling state machine and its share of the ADC: pen interrupts, conversion
    interrupts and the timer, in the build with the ADC lock and without the Android transform. */
module Touchscreen {

  /** The mode register: waiting for pen down, converting, waiting for pen up. */
  datatype Mode = WaitDown | AutoPst | WaitUp

  datatype Owner = Free | Ts | Adc

  datatype Report = Touch(x: nat, y: nat) | Lift

  /** A conversion the hardware completed, and whether the driver added it to its sums. */
  datatype Sample = Sample(x: nat, y: nat, taken: bool)

  datatype Config = Config(shift: nat, resolBit: int)

  datatype State = State(
    mode: Mode, xp: nat, yp: nat, count: nat, downflag: int, pending: bool,
    sem: nat, id: Owner,
    taking: nat,             // client calls that have downed the semaphore and not yet stored their name
    held: nat,               // acquisitions of the other ADC client, complete and not yet being released
    leaving: nat,            // client calls that have cleared the name and not yet upped the semaphore
    made: seq<Sample>,       // conversions completed since sampling last restarted
    reports: seq<Report>)

  /** `updown` and `again` are the pen status read by stylus_updown and then by touch_timer_fire. The client's
      acquire and release are two steps each, and anything may happen between them. */
  datatype Event =
    | Pen(updown: bool, again: bool)
    | Converted(data0: nat, data1: nat)
    | Expire(updown: bool)
    | TryAcquire
    | StoreOwner
    | ClearOwner
    | UpSemaphore

  /** The client's calls, when nothing comes between their steps. */
  const ACQUIRE: seq<Event> := [TryAcquire, StoreOwner]
  const RELEASE: seq<Event> := [ClearOwner, UpSemaphore]

  function Pow2(n: nat): (p: nat)
    ensures p >= 1
  {
    if n == 0 then 1 else 2 * Pow2(n - 1)
  }

  function Range(c: Config): nat { if c.resolBit == 12 then 0x1000 else 0x400 }

  const INITIAL := State(WaitDown, 0, 0, 0, 0, false, 1, Free, 0, 0, 0, [], [])

  /* ---------- one step ---------- */

  function Unlock(s: State): State { s.(id := Free, sem := s.sem + 1) }

  function Fire(s: State, updown: bool): State {
    if s.id != Ts then s
    else if updown then
      var told :=
        if s.count == 0 then s
        else if s.downflag == 0 then s.(reports := s.reports + [Touch(s.xp, s.yp)])
        else s.(downflag := 0);
      told.(xp := 0, yp := 0, count := 0, mode := AutoPst, made := [])
    else
      Unlock(s.(count := 0, mode := WaitDown, reports := s.reports + [Lift]))
  }

  function Interrupt(s: State, updown: bool, again: bool): State {
    if s.id != Ts && s.sem == 0 then (if s.id != Free then Unlock(s) else s)
    else
      var owned := if s.id == Ts then s else s.(sem := s.sem - 1, id := Ts);
      if updown then Fire(owned, again) else owned
  }

  function Accumulate(c: Config, s: State, data0: nat, data1: nat): State {
    var x, y := data0 % Range(c), data1 % Range(c);
    if s.id != Ts then s.(made := s.made + [Sample(x, y, false)])
    else
      var sum := s.(xp := s.xp + x, yp := s.yp + y, count := s.count + 1, made := s.made + [Sample(x, y, true)]);
      if sum.count < Pow2(c.shift) then sum.(mode := AutoPst) else sum.(mode := WaitUp, pending := true)
  }

  function Less(n: nat): nat { if n == 0 then 0 else n - 1 }

  function Step(c: Config, s: State, e: Event): State {
    match e
    case Pen(updown, again) => Interrupt(s, updown, again)
    case Converted(data0, data1) => Accumulate(c, s, data0, data1)
    case Expire(updown) => Fire(s.(pending := false), updown)
    case TryAcquire => if s.sem == 0 then s else s.(sem := s.sem - 1, taking := s.taking + 1)
    case StoreOwner => s.(id := Adc, taking := Less(s.taking), held := s.held + 1)
    case ClearOwner => s.(id := Free, held := Less(s.held), leaving := s.leaving + 1)
    case UpSemaphore => s.(sem := s.sem + 1, leaving := Less(s.leaving))
  }

  /** What the hardware and the client may do next: a pen-down interrupt only in WAIT4INT(0), a conversion
      only in AUTOPST, the timer only when pending, a release only of something acquired, and the second half of
      a client's call only after the first. */
  predicate Allowed(s: State, e: Event) {
    match e
    case Pen(updown, _) => updown ==> s.mode == WaitDown
    case Converted(_, _) => s.mode == AutoPst
    case Expire(_) => s.pending
    case TryAcquire => true
    case StoreOwner => s.taking > 0
    case ClearOwner => s.held > 0
    case UpSemaphore => s.leaving > 0
  }

  function Run(c: Config, events: seq<Event>): State {
    if events == [] then INITIAL else Step(c, Run(c, events[..|events| - 1]), events[|events| - 1])
  }

  ghost predicate Legal(c: Config, events: seq<Event>) {
    forall k :: 0 <= k < |events| ==> Allowed(Run(c, events[..k]), events[k])
  }

  /* ---------- the driver ---------- */

  class Driver {
    const shift: nat
    const resolBit: int
    var mode: Mode
    var xp: nat
    var yp: nat
    var count: nat
    var downflag: int
    var timerPending: bool
    var adcLock: nat
    var adcLockId: Owner
    var inputs: seq<Report>
    ghost var taking: nat
    ghost var held: nat
    ghost var leaving: nat
    ghost var made: seq<Sample>

    ghost function Now(): State
      reads this
    {
      State(mode, xp, yp, count, downflag, timerPending, adcLock, adcLockId, taking, held, leaving, made, inputs)
    }

    ghost function Setup(): Config { Config(shift, resolBit) }

    constructor (shift: nat, resolBit: int)
      ensures Now() == INITIAL && Setup() == Config(shift, resolBit)
    {
      this.shift, this.resolBit := shift, resolBit;
      mode, xp, yp, count, downflag, timerPending := WaitDown, 0, 0, 0, 0, false;
      adcLock, adcLockId, inputs, made := 1, Free, [], [];
      taking, held, leaving := 0, 0, 0;
    }

    /** s3c_ts_adc_lock, over down_trylock. */
    method AdcLock(id: Owner) returns (ret: int)
      modifies `adcLock, `adcLockId
      ensures ret == 0 <==> old(adcLock) > 0
      ensures ret == 0 ==> adcLock == old(adcLock) - 1 && adcLockId == id
      ensures ret != 0 ==> adcLock == old(adcLock) && adcLockId == old(adcLockId)
    {
      ret := 1;
      if adcLock > 0 {
        adcLock, ret := adcLock - 1, 0;
      }
      if ret == 0 {
        adcLockId := id;
      }
    }

    method AdcUnlock()
      modifies `adcLock, `adcLockId
      ensures Now() == Unlock(old(Now()))
    {
      adcLockId := Free;
      adcLock := adcLock + 1;
    }

    /** The first half of s3c_ts_adc_lock as the client runs it: down_trylock. */
    method TryLock() returns (ret: int)
      modifies `adcLock, `taking
      ensures Now() == Step(Setup(), old(Now()), TryAcquire) && (ret == 0 <==> old(adcLock) > 0)
    {
      ret := 1;
      if adcLock > 0 {
        adcLock, ret := adcLock - 1, 0;
        taking := taking + 1;
      }
    }

    /** The second half: adc_lock_id is stored. */
    method StoreId()
      modifies `adcLockId, `taking, `held
      ensures Now() == Step(Setup(), old(Now()), StoreOwner)
    {
      adcLockId := Adc;
      taking, held := Less(taking), held + 1;
    }

    /** The first half of s3c_ts_adc_unlock as the client runs it. */
    method ClearId()
      modifies `adcLockId, `held, `leaving
      ensures Now() == Step(Setup(), old(Now()), ClearOwner)
    {
      adcLockId := Free;
      held, leaving := Less(held), leaving + 1;
    }

    /** The second half: up. */
    method UpLock()
      modifies `adcLock, `leaving
      ensures Now() == Step(Setup(), old(Now()), UpSemaphore)
    {
      adcLock := adcLock + 1;
      leaving := Less(leaving);
    }

    /** X6410_adc_acquire_io with nothing in between: the lock and the client's hold, or nothing. */
    method AcquireIo() returns (ret: int)
      modifies `adcLock, `adcLockId, `taking, `held
      ensures ret == 0 <==> old(adcLock) > 0
      ensures Now() == if ret == 0
        then old(Now()).(sem := old(adcLock) - 1, id := Adc, held := old(held) + 1) else old(Now())
    {
      ret := TryLock();
      if ret == 0 {
        StoreId();
      }
    }

    /** X6410_adc_release_io with nothing in between. */
    method ReleaseIo()
      modifies `adcLock, `adcLockId, `held, `leaving
      ensures Now() == Unlock(old(Now())).(held := Less(old(held)))
    {
      ClearId();
      UpLock();
    }

    method TouchTimerFire(updown: bool)
      modifies this
      ensures Now() == Fire(old(Now()), updown)
    {
      if adcLockId != Ts {
        return;
      }
      if updown {
        if count != 0 {
          if downflag == 0 {
            inputs := inputs + [Touch(xp, yp)];
          } else {
            downflag := 0;
          }
        }
        xp, yp, count, made := 0, 0, 0, [];
        mode := AutoPst;
      } else {
        count := 0;
        inputs := inputs + [Lift];
        mode := WaitDown;
        if adcLockId == Ts {
          AdcUnlock();
        }
      }
    }

    /** The kernel runs an expired timer once, no longer pending. */
    method TimerExpires(updown: bool)
      modifies this
      ensures Now() == Step(Setup(), old(Now()), Expire(updown))
    {
      timerPending := false;
      TouchTimerFire(updown);
    }

    method StylusUpdown(updown: bool, again: bool)
      modifies this
      ensures Now() == Step(Setup(), old(Now()), Pen(updown, again))
    {
      if adcLockId != Ts {
        var failed := AdcLock(Ts);
        if failed != 0 {
          if adcLockId != Free {
            AdcUnlock();
          }
          return;
        }
      }
      if updown {
        TouchTimerFire(again);
      }
    }

    method StylusAction(data0: nat, data1: nat)
      modifies this
      ensures Now() == Step(Setup(), old(Now()), Converted(data0, data1))
    {
      ghost var x, y := data0 % Range(Setup()), data1 % Range(Setup());
      made := made + [Sample(x, y, adcLockId == Ts)];
      if adcLockId != Ts {
        return;
      }
      if resolBit == 12 {
        xp := xp + data0 % 0x1000;
        yp := yp + data1 % 0x1000;
      } else {
        xp := xp + data0 % 0x400;
        yp := yp + data1 % 0x400;
      }
      count := count + 1;
      if count < Pow2(shift) {
        mode := AutoPst;
      } else {
        timerPending := true;
        mode := WaitUp;
      }
    }
  }

  /** Any legal sequence of interrupts, timer expiries and client calls drives the driver through the states of Run. */
  method Drive(d: Driver, c: Config, events: seq<Event>)
    requires d.Setup() == c && d.Now() == INITIAL
    modifies d
    ensures d.Now() == Run(c, events)
  {
    var i := 0;
    while i < |events|
      invariant 0 <= i <= |events| && d.Now() == Run(c, events[..i])
    {
      match events[i] {
        case Pen(updown, again) => d.StylusUpdown(updown, again);
        case Converted(data0, data1) => d.StylusAction(data0, data1);
        case Expire(updown) => d.TimerExpires(updown);
        case TryAcquire => var _ := d.TryLock();
        case StoreOwner => d.StoreId();
        case ClearOwner => d.ClearId();
        case UpSemaphore => d.UpLock();
      }
      assert events[..i + 1][..i] == events[..i];
      i := i + 1;
    }
    assert events[..i] == events;
  }

  /* ---------- what a report stands for ---------- */

  function Taken(made: seq<Sample>): nat {
    if made == [] then 0
    else Taken(made[..|made| - 1]) + if made[|made| - 1].taken then 1 else 0
  }

  function SumX(made: seq<Sample>): nat {
    if made == [] then 0
    else SumX(made[..|made| - 1]) + if made[|made| - 1].taken then made[|made| - 1].x else 0
  }

  function SumY(made: seq<Sample>): nat {
    if made == [] then 0
    else SumY(made[..|made| - 1]) + if made[|made| - 1].taken then made[|made| - 1].y else 0
  }

  ghost predicate InRange(c: Config, made: seq<Sample>) {
    forall i :: 0 <= i < |made| ==> made[i].x < Range(c) && made[i].y < Range(c)
  }

  lemma {:induction false} SumsBounded(c: Config, made: seq<Sample>)
    requires InRange(c, made)
    ensures SumX(made) <= Taken(made) * (Range(c) - 1) && SumY(made) <= Taken(made) * (Range(c) - 1)
  {
    if made != [] {
      SumsBounded(c, made[..|made| - 1]);
    }
  }

  ghost predicate Sampling(c: Config, s: State) {
    && s.downflag == 0
    && (s.pending ==> s.mode == WaitUp)
    && InRange(c, s.made)
    && s.xp <= Pow2(c.shift) * (Range(c) - 1) && s.yp <= Pow2(c.shift) * (Range(c) - 1)
    && (s.mode == WaitDown ==> s.count == 0)
    && (s.mode != WaitDown ==> s.count == Taken(s.made) && s.xp == SumX(s.made) && s.yp == SumY(s.made))
    && (s.mode == AutoPst ==> s.count < Pow2(c.shift))
    && (s.mode == WaitUp ==> s.count == Pow2(c.shift))
  }

  /** The report `r` was made by event `k`: the timer, in WAIT4INT(1), and it is the sum of exactly 2^shift
      of the conversions made since sampling last restarted. */
  ghost predicate Origin(c: Config, events: seq<Event>, r: Report, k: nat)
    requires k < |events|
  {
    var s := Run(c, events[..k]);
    && events[k].Expire? && s.mode == WaitUp && Taken(s.made) == Pow2(c.shift)
    && r == Touch(SumX(s.made), SumY(s.made))
  }

  lemma SumsGrow(made: seq<Sample>, e: Sample)
    ensures Taken(made + [e]) == Taken(made) + if e.taken then 1 else 0
    ensures SumX(made + [e]) == SumX(made) + if e.taken then e.x else 0
    ensures SumY(made + [e]) == SumY(made) + if e.taken then e.y else 0
  {
    assert (made + [e])[..|made|] == made;
  }

  lemma ConvertedStep(c: Config, s: State, data0: nat, data1: nat)
    requires Sampling(c, s) && s.mode == AutoPst
    ensures Sampling(c, Accumulate(c, s, data0, data1)) && Accumulate(c, s, data0, data1).reports == s.reports
  {
    hide Pow2, Taken, SumX, SumY;
    var e := Sample(data0 % Range(c), data1 % Range(c), s.id == Ts);
    SumsGrow(s.made, e);
    SumsBounded(c, s.made + [e]);
    Scale(Taken(s.made + [e]), Pow2(c.shift), Range(c) - 1);
  }

  lemma Scale(m: nat, n: nat, k: nat)
    ensures m <= n ==> m * k <= n * k
  {
  }

  lemma SamplingStep(c: Config, s: State, e: Event)
    requires Sampling(c, s) && Allowed(s, e)
    ensures var s' := Step(c, s, e);
      && Sampling(c, s')
      && (s'.reports == s.reports || s'.reports == s.reports + [Lift] || (
            && e.Expire? && s.mode == WaitUp && Taken(s.made) == Pow2(c.shift)
            && s'.reports == s.reports + [Touch(SumX(s.made), SumY(s.made))]))
  {
    hide Pow2;
    if e.Converted? {
      hide Accumulate, Taken, SumX, SumY;
      ConvertedStep(c, s, e.data0, e.data1);
    }
  }

  /** Whoever holds the ADC lock and however it is abused: every reported touch is the sum of exactly 2^shift
      conversions made since sampling last restarted, it and the running sums stay within 2^shift times the
      largest sample, and the timer is pending only in WAIT4INT(1) (TimerExact says when it is so exactly). */
  lemma {:induction false} TouchesComplete(c: Config, events: seq<Event>)
    requires Legal(c, events)
    ensures var s := Run(c, events);
      && Sampling(c, s)
      && (forall r :: r in s.reports && r.Touch? ==>
            && (exists k :: 0 <= k < |events| && Origin(c, events, r, k))
            && r.x <= Pow2(c.shift) * (Range(c) - 1) && r.y <= Pow2(c.shift) * (Range(c) - 1))
  {
    if events != [] {
      var n := |events| - 1;
      var before := events[..n];
      assert forall k :: 0 <= k < n ==> before[..k] == events[..k];
      TouchesComplete(c, before);
      var s, s' := Run(c, before), Run(c, events);
      SamplingStep(c, s, events[n]);
      SumsBounded(c, s.made);
      forall r | r in s'.reports && r.Touch?
        ensures exists k :: 0 <= k < |events| && Origin(c, events, r, k)
        ensures r.x <= Pow2(c.shift) * (Range(c) - 1) && r.y <= Pow2(c.shift) * (Range(c) - 1)
      {
        if r in s.reports {
          var k :| 0 <= k < |before| && Origin(c, before, r, k);
          assert Origin(c, events, r, k);
        } else {
          assert Origin(c, events, r, n);
        }
      }
    }
  }

  /* ---------- sharing the ADC ---------- */

  /** The client holds the ADC exactly when the lock says so, and the semaphore is 1 exactly when the lock is free,
      except that in the middle of a client's call, one at most, the lock is free already or still and the
      semaphore 0. */
  predicate Intact(s: State) {
    && s.held == (if s.id == Adc then 1 else 0)
    && s.taking + s.leaving <= (if s.id == Free then 1 else 0)
    && s.sem == (if s.id == Free && s.taking + s.leaving == 0 then 1 else 0)
  }

  ghost predicate AllTaken(made: seq<Sample>) {
    forall i :: 0 <= i < |made| ==> made[i].taken
  }

  /** While arbitration is intact, sampling is in progress only under the touchscreen's ownership: no
      conversion is lost, and the timer is pending exactly in WAIT4INT(1). */
  ghost predicate Arbitrated(s: State) {
    && Intact(s)
    && (s.pending <==> s.mode == WaitUp)
    && (s.mode != WaitDown ==> s.id == Ts && AllTaken(s.made))
  }

  /** In the middle of a client's call a pen interrupt finds the semaphore down and the lock free, and does nothing. */
  predicate Disturbs(s: State, e: Event) { e.Pen? && s.held > 0 }

  ghost predicate Undisturbed(c: Config, events: seq<Event>) {
    forall k :: 0 <= k < |events| ==> !Disturbs(Run(c, events[..k]), events[k])
  }

  lemma ArbitratedStep(c: Config, s: State, e: Event)
    requires Arbitrated(s) && Allowed(s, e)
    ensures Intact(Step(c, s, e)) <==> !Disturbs(s, e)
    ensures !Disturbs(s, e) ==> Arbitrated(Step(c, s, e))
    ensures e.Pen? && s.taking + s.leaving > 0 ==> Step(c, s, e) == s
  {
  }

  ghost predicate IntactThroughout(c: Config, events: seq<Event>) {
    forall k :: 0 <= k <= |events| ==> Intact(Run(c, events[..k]))
  }

  lemma LastEvent(c: Config, events: seq<Event>)
    requires events != []
    ensures var n := |events| - 1; var before := events[..n];
      && (Legal(c, events) <==> Legal(c, before) && Allowed(Run(c, before), events[n]))
      && (Undisturbed(c, events) <==> Undisturbed(c, before) && !Disturbs(Run(c, before), events[n]))
      && (IntactThroughout(c, events) <==> IntactThroughout(c, before) && Intact(Run(c, events)))
  {
    hide Run, Allowed, Disturbs, Intact;
    var n := |events| - 1;
    assert forall k :: 0 <= k <= n ==> events[..n][..k] == events[..k];
    assert events[..|events|] == events;
  }

  /** Arbitration holds at every point of a run if and only if no pen interrupt, up or down, arrives while the
      client holds the ADC, from the end of its acquire to the start of its release: such an interrupt unlocks what it
      does not own. */
  lemma {:induction false} IntactIffUndisturbed(c: Config, events: seq<Event>)
    requires Legal(c, events)
    ensures IntactThroughout(c, events) <==> Undisturbed(c, events)
    ensures Undisturbed(c, events) ==> Arbitrated(Run(c, events))
  {
    if events == [] {
      assert events[..0] == events;
    } else {
      var before := events[..|events| - 1];
      LastEvent(c, events);
      IntactIffUndisturbed(c, before);
      if Undisturbed(c, before) {
        ArbitratedStep(c, Run(c, before), events[|events| - 1]);
      }
      hide Undisturbed, IntactThroughout, Legal, Allowed, Disturbs, Intact, Step;
    }
  }

  /** In an undisturbed run the accumulators and the mode register change only while the touchscreen owns the ADC
      or in the interrupt that takes it, and what is reported is the sum of all the conversions since the restart. */
  lemma OwnedSteps(c: Config, events: seq<Event>, k: nat)
    requires Legal(c, events) && Undisturbed(c, events) && k < |events|
    ensures var s, s' := Run(c, events[..k]), Run(c, events[..k + 1]);
      && ((s.mode, s.xp, s.yp, s.count) != (s'.mode, s'.xp, s'.yp, s'.count) ==>
            s.held == 0 && (s.id == Ts || (s.id == Free && events[k].Pen?)))
      && (s.mode == WaitUp ==> |s.made| == Pow2(c.shift) && AllTaken(s.made))
  {
    hide Run, Step, Origin;
    var before := events[..k];
    Earlier(c, events, k);
    TouchesComplete(c, before);
    IntactIffUndisturbed(c, before);
    var s := Run(c, before);
    assert events[..k + 1][..k] == before;
    RunLast(c, events[..k + 1]);
    OwnedStep(c, s, events[k]);
    if s.mode == WaitUp {
      TakenAll(s.made);
    }
  }

  lemma Earlier(c: Config, events: seq<Event>, k: nat)
    requires Legal(c, events) && Undisturbed(c, events) && k < |events|
    ensures Legal(c, events[..k]) && Undisturbed(c, events[..k])
    ensures Allowed(Run(c, events[..k]), events[k]) && !Disturbs(Run(c, events[..k]), events[k])
  {
    hide Run, Allowed, Disturbs;
    assert forall j :: 0 <= j < k ==> events[..k][..j] == events[..j];
  }

  lemma OwnedStep(c: Config, s: State, e: Event)
    requires Arbitrated(s) && Allowed(s, e) && !Disturbs(s, e)
    ensures var s' := Step(c, s, e);
      (s.mode, s.xp, s.yp, s.count) != (s'.mode, s'.xp, s'.yp, s'.count) ==>
        s.held == 0 && (s.id == Ts || (s.id == Free && e.Pen?))
  {
  }

  lemma {:induction false} TakenAll(made: seq<Sample>)
    requires AllTaken(made)
    ensures Taken(made) == |made|
  {
    if made != [] {
      TakenAll(made[..|made| - 1]);
    }
  }

  lemma Extend(c: Config, events: seq<Event>, e: Event)
    requires Legal(c, events) && Allowed(Run(c, events), e)
    ensures Legal(c, events + [e]) && Run(c, events + [e]) == Step(c, Run(c, events), e)
  {
    assert (events + [e])[..|events|] == events;
    LastEvent(c, events + [e]);
  }

  /* ---------- sampling without the lock ---------- */

  /** A pen interrupt that takes the lock for the touchscreen. */
  predicate Retakes(s: State, e: Event) { e.Pen? && s.id != Ts && s.sem > 0 }

  predicate SameSampling(s: State, s': State) {
    (s.mode, s.xp, s.yp, s.count, s.reports) == (s'.mode, s'.xp, s'.yp, s'.count, s'.reports)
  }

  /** Without the lock and away from WAIT4INT(0), a step either retakes the lock or changes nothing of the sampling. */
  lemma UnownedStep(c: Config, s: State, e: Event)
    requires s.id != Ts && s.mode != WaitDown && Allowed(s, e)
    ensures Step(c, s, e).id == Ts <==> Retakes(s, e)
    ensures !Retakes(s, e) ==> SameSampling(s, Step(c, s, e))
  {
  }

  ghost predicate Unowned(c: Config, events: seq<Event>, m: nat)
    requires m <= |events|
  {
    forall k :: m <= k <= |events| ==> Run(c, events[..k]).id != Ts
  }

  ghost predicate NoRetake(c: Config, events: seq<Event>, m: nat) {
    forall k :: m <= k < |events| ==> !Retakes(Run(c, events[..k]), events[k])
  }

  /** Sampling that has lost the lock stalls: from point `m` of a run on, the touchscreen stays without the lock
      if and only if no pen interrupt retakes it, and as long as none does no conversion is added, no touch is
      reported and the mode register does not move, whatever converts, expires or is acquired and released. A
      retake does not revive sampling whose timer has expired meanwhile: see DeadForever. */
  lemma {:induction false} StalledUntilRetaken(c: Config, events: seq<Event>, m: nat)
    requires Legal(c, events) && m <= |events|
    requires Run(c, events[..m]).id != Ts && Run(c, events[..m]).mode != WaitDown
    ensures Unowned(c, events, m) <==> NoRetake(c, events, m)
    ensures NoRetake(c, events, m) ==> SameSampling(Run(c, events[..m]), Run(c, events))
    decreases |events|
  {
    hide Run, Step, Legal, Unowned, NoRetake, Allowed, Retakes;
    if m == |events| {
      assert events[..m] == events;
      NoLater(c, events);
    } else {
      var n := |events| - 1;
      var before := events[..n];
      LastEvent(c, events);
      LaterEvent(c, events, m);
      RunLast(c, events);
      assert before[..m] == events[..m];
      StalledUntilRetaken(c, before, m);
      if NoRetake(c, before, m) {
        hide SameSampling;
        Last(c, before, m);
        UnownedStep(c, Run(c, before), events[n]);
      }
    }
  }

  lemma NoLater(c: Config, events: seq<Event>)
    requires Run(c, events).id != Ts
    ensures Unowned(c, events, |events|) && NoRetake(c, events, |events|) && events[..|events|] == events
  {
    hide Run;
    assert events[..|events|] == events;
  }

  lemma RunLast(c: Config, events: seq<Event>)
    requires events != []
    ensures Run(c, events) == Step(c, Run(c, events[..|events| - 1]), events[|events| - 1])
  {
    hide Step;
  }

  lemma Last(c: Config, events: seq<Event>, m: nat)
    requires m <= |events| && Unowned(c, events, m)
    ensures Run(c, events).id != Ts
  {
    assert events[..|events|] == events;
  }

  lemma LaterEvent(c: Config, events: seq<Event>, m: nat)
    requires m < |events|
    ensures var n := |events| - 1; var before := events[..n];
      && (Unowned(c, events, m) <==> Unowned(c, before, m) && Run(c, events).id != Ts)
      && (NoRetake(c, events, m) <==> NoRetake(c, before, m) && !Retakes(Run(c, before), events[n]))
  {
    hide Run, Retakes;
    var n := |events| - 1;
    assert forall k :: 0 <= k <= n ==> events[..n][..k] == events[..k];
    assert events[..|events|] == events;
  }

  /* ---------- the timer without the lock ---------- */

  predicate TimerMatches(s: State) { s.pending <==> s.mode == WaitUp }

  /** Every expiry finds the touchscreen owning the ADC: the test touch_timer_fire starts with. */
  ghost predicate OwnedExpiries(c: Config, events: seq<Event>) {
    forall k :: 0 <= k < |events| && events[k].Expire? ==> Run(c, events[..k]).id == Ts
  }

  lemma TimerStep(c: Config, s: State, e: Event)
    requires Sampling(c, s) && Allowed(s, e)
    ensures TimerMatches(Step(c, s, e)) <==> TimerMatches(s) && (e.Expire? ==> s.id == Ts)
  {
    hide Pow2, Taken, SumX, SumY, InRange;
  }

  lemma LastExpiry(c: Config, events: seq<Event>)
    requires events != []
    ensures var n := |events| - 1; var before := events[..n];
      OwnedExpiries(c, events) <==> OwnedExpiries(c, before) && (events[n].Expire? ==> Run(c, before).id == Ts)
  {
    hide Run;
    var n := |events| - 1;
    assert forall k :: 0 <= k < n ==> events[..n][..k] == events[..k];
  }

  /** In every run the timer is pending exactly in WAIT4INT(1), if and only if no expiry of the run found the ADC owned
      by anybody but the touchscreen. */
  lemma {:induction false} TimerExact(c: Config, events: seq<Event>)
    requires Legal(c, events)
    ensures TimerMatches(Run(c, events)) <==> OwnedExpiries(c, events)
  {
    if events != [] {
      hide Run, Step, Legal, OwnedExpiries, Allowed, TimerMatches, Sampling, Origin;
      var n := |events| - 1;
      var before := events[..n];
      LastEvent(c, events);
      LastExpiry(c, events);
      RunLast(c, events);
      TimerExact(c, before);
      TouchesComplete(c, before);
      TimerStep(c, Run(c, before), events[n]);
    }
  }

  /** Waiting for pen up with no timer to notice it. */
  predicate Dead(s: State) { s.mode == WaitUp && !s.pending }

  lemma DeadStep(c: Config, s: State, e: Event)
    requires Dead(s) && Allowed(s, e)
    ensures Dead(Step(c, s, e)) && SameSampling(s, Step(c, s, e))
  {
  }

  lemma SameTwice(s: State, t: State, u: State)
    ensures SameSampling(s, s)
    ensures SameSampling(s, t) && SameSampling(t, u) ==> SameSampling(s, u)
  {
  }

  /** From there on nothing is ever sampled or reported again, whoever takes the lock. */
  lemma {:induction false} DeadForever(c: Config, events: seq<Event>, m: nat)
    requires Legal(c, events) && m <= |events| && Dead(Run(c, events[..m]))
    ensures Dead(Run(c, events)) && SameSampling(Run(c, events[..m]), Run(c, events))
    decreases |events|
  {
    hide Run, Step, Legal, Allowed, Dead, Frozen, SameSampling;
    if m == |events| {
      assert events[..m] == events;
      SameTwice(Run(c, events), Run(c, events), Run(c, events));
    } else {
      var n := |events| - 1;
      LastEvent(c, events);
      RunLast(c, events);
      assert events[..n][..m] == events[..m];
      DeadForever(c, events[..n], m);
      DeadStep(c, Run(c, events[..n]), events[n]);
      SameTwice(Run(c, events[..m]), Run(c, events[..n]), Run(c, events));
    }
  }

  /** Dead, with the lock taken once more by a pen-up interrupt and no client inside a call or holding the ADC. */
  predicate Frozen(s: State) {
    Dead(s) && s.id == Ts && s.sem == 0 && s.taking == s.held == s.leaving == 0
  }

  lemma FrozenStep(c: Config, s: State, e: Event)
    requires Frozen(s) && Allowed(s, e)
    ensures Step(c, s, e) == s
  {
  }

  /** Then nothing whatever changes again: no client ever gets the ADC. */
  lemma {:induction false} FrozenForever(c: Config, events: seq<Event>, m: nat)
    requires Legal(c, events) && m <= |events| && Frozen(Run(c, events[..m]))
    ensures Run(c, events) == Run(c, events[..m])
    decreases |events|
  {
    hide Run, Step, Legal, Allowed, Dead, Frozen, SameSampling;
    if m == |events| {
      assert events[..m] == events;
    } else {
      var n := |events| - 1;
      LastEvent(c, events);
      RunLast(c, events);
      assert events[..n][..m] == events[..m];
      FrozenForever(c, events[..n], m);
      FrozenStep(c, Run(c, events[..n]), events[n]);
    }
  }

  /* ---------- every report, and nothing but ---------- */

  /** What the data register shows of a conversion: the low 12 bits, or the low 10. */
  function Reading(c: Config, data: nat): nat { if c.resolBit == 12 then data % 4096 else data % 1024 }

  /** The pen-down interrupt is let in and finds the pen down again, or the timer finds it still down. */
  predicate Restarts(s: State, e: Event) {
    || (e.Pen? && e.updown && e.again && (s.id == Ts || s.sem > 0))
    || (e.Expire? && e.updown && s.id == Ts)
  }

  /** The conversions of the run that completed under the touchscreen's ownership since sampling last restarted. */
  function Since(c: Config, events: seq<Event>): seq<(nat, nat)> {
    if events == [] then []
    else
      var before, e := events[..|events| - 1], events[|events| - 1];
      var s := Run(c, before);
      if Restarts(s, e) then []
      else if e.Converted? && s.id == Ts then Since(c, before) + [(e.data0, e.data1)]
      else Since(c, before)
  }

  function TotalX(c: Config, data: seq<(nat, nat)>): nat {
    if data == [] then 0 else TotalX(c, data[..|data| - 1]) + Reading(c, data[|data| - 1].0)
  }

  function TotalY(c: Config, data: seq<(nat, nat)>): nat {
    if data == [] then 0 else TotalY(c, data[..|data| - 1]) + Reading(c, data[|data| - 1].1)
  }

  /** What event `e`, coming after `before`, tells the input layer. */
  function News(c: Config, before: seq<Event>, e: Event): seq<Report> {
    var s := Run(c, before);
    if e.Expire? && s.id == Ts then
      if e.updown then [Touch(TotalX(c, Since(c, before)), TotalY(c, Since(c, before)))] else [Lift]
    else if e.Pen? && e.updown && !e.again && (s.id == Ts || s.sem > 0) then [Lift]
    else []
  }

  /** While sampling, the accumulators hold the totals of the run's own conversions. */
  ghost predicate Accumulated(c: Config, s: State, data: seq<(nat, nat)>) {
    s.mode != WaitDown ==> s.count == |data| && s.xp == TotalX(c, data) && s.yp == TotalY(c, data)
  }

  lemma TotalsGrow(c: Config, data: seq<(nat, nat)>, d: (nat, nat))
    ensures TotalX(c, data + [d]) == TotalX(c, data) + Reading(c, d.0)
    ensures TotalY(c, data + [d]) == TotalY(c, data) + Reading(c, d.1)
  {
    assert (data + [d])[..|data|] == data;
  }

  lemma NewsStep(c: Config, before: seq<Event>, e: Event)
    requires Sampling(c, Run(c, before)) && Allowed(Run(c, before), e)
    requires Accumulated(c, Run(c, before), Since(c, before))
    ensures var s, s' := Run(c, before), Step(c, Run(c, before), e);
      && s'.reports == s.reports + News(c, before, e)
      && Accumulated(c, s', if Restarts(s, e) then [] else if e.Converted? && s.id == Ts
                            then Since(c, before) + [(e.data0, e.data1)] else Since(c, before))
  {
    hide Run, Since, Taken, SumX, SumY, InRange;
    var s, data := Run(c, before), Since(c, before);
    if e.Converted? {
      TotalsGrow(c, data, (e.data0, e.data1));
      hide TotalX, TotalY;
    }
    assert Pow2(c.shift) >= 1;
    hide Pow2;
  }

  /** At every point of every legal run. */
  lemma {:induction false} AccumulatedAlways(c: Config, events: seq<Event>)
    requires Legal(c, events)
    ensures Sampling(c, Run(c, events)) && Accumulated(c, Run(c, events), Since(c, events))
  {
    hide Step, Run, Legal, Allowed, News, Since, Sampling, Origin, Restarts, Accumulated;
    TouchesComplete(c, events);
    if events == [] {
      NothingYet(c);
    } else {
      var n := |events| - 1;
      LastEvent(c, events);
      AccumulatedAlways(c, events[..n]);
      NewsStep(c, events[..n], events[n]);
      RunLast(c, events);
      SinceLast(c, events);
    }
  }

  /** Over every legal run, event by event: an expiry that finds the touchscreen owning the ADC reports once, the
      totals of the run's own 2^shift conversions since the restart if the pen is down, a lift if it is up; a pen
      interrupt whose second look finds the pen up reports a lift; nothing else is ever reported. */
  lemma ReportsExact(c: Config, events: seq<Event>, e: Event)
    requires Legal(c, events + [e])
    ensures Run(c, events + [e]).reports == Run(c, events).reports + News(c, events, e)
    ensures e.Expire? ==> Run(c, events).mode == WaitUp && |Since(c, events)| == Pow2(c.shift)
  {
    hide Step, Run, Legal, Allowed, News, Since, Sampling, Origin, Restarts, Accumulated, Pow2;
    assert (events + [e])[..|events|] == events;
    LastEvent(c, events + [e]);
    RunLast(c, events + [e]);
    AccumulatedAlways(c, events);
    NewsStep(c, events, e);
    CountedAt(c, events);
    ExpiryWaits(c, Run(c, events), e);
  }

  lemma ExpiryWaits(c: Config, s: State, e: Event)
    requires Sampling(c, s) && Allowed(s, e)
    ensures e.Expire? ==> s.mode == WaitUp
  {
    hide Pow2, Taken, SumX, SumY, InRange;
  }

  lemma NothingYet(c: Config)
    ensures Accumulated(c, Run(c, []), Since(c, []))
  {
  }

  lemma CountedAt(c: Config, events: seq<Event>)
    requires Sampling(c, Run(c, events)) && Accumulated(c, Run(c, events), Since(c, events))
    ensures Run(c, events).mode == WaitUp ==> |Since(c, events)| == Pow2(c.shift)
  {
    hide Run, Since;
  }

  lemma SinceLast(c: Config, events: seq<Event>)
    requires events != []
    ensures var before, e := events[..|events| - 1], events[|events| - 1];
      Since(c, events) == if Restarts(Run(c, before), e) then []
                          else if e.Converted? && Run(c, before).id == Ts then Since(c, before) + [(e.data0, e.data1)]
                          else Since(c, before)
  {
    hide Run;
  }

  /** 1 << m + n is (1 << m) * (1 << n): with 1 << 0 and 1 << 1 that says which function it is. */
  lemma {:induction false} Pow2Adds(m: nat, n: nat)
    ensures Pow2(m + n) == Pow2(m) * Pow2(n) && Pow2(0) == 1 && Pow2(1) == 2
  {
    if m > 0 {
      Pow2Adds(m - 1, n);
    }
  }

  /* ---------- runs ---------- */

  const DOWN: Event := Pen(true, true)
  const LIFTED: Event := Pen(false, false)

  lemma Then(c: Config, events: seq<Event>, s: State, e: Event, s': State)
    requires Legal(c, events) && Run(c, events) == s && Allowed(s, e) && Step(c, s, e) == s'
    ensures Legal(c, events + [e]) && Run(c, events + [e]) == s'
  {
    hide Step, Run, Legal, Allowed;
    Extend(c, events, e);
  }

  /** The client acquires the ADC. */
  lemma Held(c: Config)
    ensures Legal(c, ACQUIRE) && Run(c, ACQUIRE) == INITIAL.(sem := 0, id := Adc, held := 1)
  {
    Begin(c);
    hide Run, Legal;
    Then(c, [], INITIAL, TryAcquire, INITIAL.(sem := 0, taking := 1));
    Then(c, [] + [TryAcquire], INITIAL.(sem := 0, taking := 1), StoreOwner, INITIAL.(sem := 0, id := Adc, held := 1));
    assert [] + [TryAcquire] + [StoreOwner] == ACQUIRE;
  }

  lemma Begin(c: Config)
    ensures Legal(c, []) && Run(c, []) == INITIAL
  {
  }

  /** The client releases what it holds. */
  lemma Released(c: Config, events: seq<Event>)
    requires Legal(c, events) && Run(c, events).held > 0
    ensures Legal(c, events + RELEASE)
    ensures var s := Run(c, events); Run(c, events + RELEASE) == Unlock(s).(held := Less(s.held))
  {
    hide Run, Legal;
    var s := Run(c, events);
    var cleared := s.(id := Free, held := Less(s.held), leaving := s.leaving + 1);
    Then(c, events, s, ClearOwner, cleared);
    Then(c, events + [ClearOwner], cleared, UpSemaphore, Unlock(s).(held := Less(s.held)));
    assert events + [ClearOwner] + [UpSemaphore] == events + RELEASE;
  }

  /** Two pen interrupts during the client's hold: the first unlocks, the second takes the lock and starts sampling. */
  lemma Stolen(c: Config)
    ensures Legal(c, ACQUIRE + [DOWN]) && Run(c, ACQUIRE + [DOWN]) == INITIAL.(held := 1)
    ensures var stolen := INITIAL.(held := 1, sem := 0, id := Ts, mode := AutoPst);
      Legal(c, ACQUIRE + [DOWN] + [DOWN]) && Run(c, ACQUIRE + [DOWN] + [DOWN]) == stolen
  {
    Held(c);
    hide Run, Legal;
    Then(c, ACQUIRE, INITIAL.(sem := 0, id := Adc, held := 1), DOWN, INITIAL.(held := 1));
    Then(c, ACQUIRE + [DOWN], INITIAL.(held := 1), DOWN, INITIAL.(held := 1, sem := 0, id := Ts, mode := AutoPst));
  }

  /** What the forced unlock leads to: one pen interrupt during the client's hold and the client's own release
      leave the semaphore at 2; two interrupts and the release leave sampling going with nobody owning the ADC. */
  lemma DisturbedRuns(c: Config)
    ensures var once := ACQUIRE + [DOWN] + RELEASE; Legal(c, once) && Run(c, once).sem == 2
    ensures var twice := ACQUIRE + [DOWN] + [DOWN] + RELEASE;
      Legal(c, twice) && Run(c, twice).mode == AutoPst && Run(c, twice).id == Free
  {
    Stolen(c);
    hide Run, Legal;
    Released(c, ACQUIRE + [DOWN]);
    Released(c, ACQUIRE + [DOWN] + [DOWN]);
  }

  function Converting(data: seq<(nat, nat)>): (r: seq<Event>)
    ensures |r| == |data|
  {
    seq(|data|, i requires 0 <= i < |data| => Converted(data[i].0, data[i].1))
  }

  predicate SameLock(s: State, t: State) {
    (s.id, s.sem, s.taking, s.held, s.leaving) == (t.id, t.sem, t.taking, t.held, t.leaving)
  }

  /** Sampling just started, and then conversions of `data`; 2^shift of them arm the timer. */
  predicate Sampled(c: Config, start: State, s: State, data: seq<(nat, nat)>) {
    && SameLock(s, start) && s.downflag == start.downflag && s.reports == start.reports
    && s.count == |data| && s.xp == TotalX(c, data) && s.yp == TotalY(c, data)
    && s.mode == (if |data| < Pow2(c.shift) then AutoPst else WaitUp) && (s.pending <==> |data| == Pow2(c.shift))
  }

  lemma SampledStep(c: Config, start: State, s: State, data: seq<(nat, nat)>, d: (nat, nat))
    requires start.id == Ts && Sampled(c, start, s, data) && |data| < Pow2(c.shift)
    ensures Allowed(s, Converted(d.0, d.1)) && Sampled(c, start, Step(c, s, Converted(d.0, d.1)), data + [d])
  {
    TotalsGrow(c, data, d);
    hide Pow2, TotalX, TotalY;
  }

  lemma {:induction false} SampleOn(c: Config, events: seq<Event>, start: State, data: seq<(nat, nat)>)
    requires Legal(c, events) && Run(c, events) == start && start.id == Ts && Sampled(c, start, start, [])
    requires |data| <= Pow2(c.shift)
    ensures Legal(c, events + Converting(data)) && Sampled(c, start, Run(c, events + Converting(data)), data)
    decreases |data|
  {
    hide Run, Legal, Step, Allowed, Sampled, Pow2;
    if data == [] {
      assert events + Converting(data) == events;
    } else {
      var n := |data| - 1;
      SampleOn(c, events, start, data[..n]);
      SampledStep(c, start, Run(c, events + Converting(data[..n])), data[..n], data[n]);
      Extend(c, events + Converting(data[..n]), Converted(data[n].0, data[n].1));
      assert data[..n] + [data[n]] == data;
      assert events + Converting(data[..n]) + [Converted(data[n].0, data[n].1)] == events + Converting(data);
    }
  }

  /** The pen goes down and stays down for as many rounds of conversions as there are, the timer expiring after each. */
  function Touching(rounds: seq<seq<(nat, nat)>>): seq<Event> {
    if rounds == [] then [DOWN]
    else Touching(rounds[..|rounds| - 1]) + Converting(rounds[|rounds| - 1]) + [Expire(true)]
  }

  function Touches(c: Config, rounds: seq<seq<(nat, nat)>>): seq<Report> {
    seq(|rounds|, i requires 0 <= i < |rounds| => Touch(TotalX(c, rounds[i]), TotalY(c, rounds[i])))
  }

  /** The state with sampling just started and nothing disturbed. */
  predicate Started(s: State) {
    && s.mode == AutoPst && s.xp == s.yp == s.count == 0 && s.downflag == 0 && !s.pending
    && s.sem == 0 && s.id == Ts && s.taking == s.held == s.leaving == 0
  }

  lemma StartedSampled(c: Config, s: State)
    requires Started(s)
    ensures Sampled(c, s, s, [])
  {
    assert Pow2(c.shift) >= 1;
    hide Pow2;
  }

  lemma FirstDown(c: Config)
    ensures Legal(c, [DOWN]) && Started(Run(c, [DOWN])) && Run(c, [DOWN]).reports == []
  {
    Begin(c);
    assert [] + [DOWN] == [DOWN];
    Extend(c, [], DOWN);
  }

  lemma RoundEnds(c: Config, start: State, s: State, data: seq<(nat, nat)>, updown: bool)
    requires Started(start) && Sampled(c, start, s, data) && |data| == Pow2(c.shift)
    ensures Allowed(s, Expire(updown))
    ensures var s' := Step(c, s, Expire(updown));
      if updown then Started(s') && s'.reports == start.reports + [Touch(TotalX(c, data), TotalY(c, data))]
      else s'.(made := []) == INITIAL.(xp := TotalX(c, data), yp := TotalY(c, data), reports := start.reports + [Lift])
  {
    assert Pow2(c.shift) >= 1;
    hide Pow2, TotalX, TotalY;
  }

  /** One more round: 2^shift conversions and an expiry of the timer. */
  lemma OneRound(c: Config, events: seq<Event>, data: seq<(nat, nat)>, updown: bool)
    requires Legal(c, events) && Started(Run(c, events)) && |data| == Pow2(c.shift)
    ensures var more := events + Converting(data) + [Expire(updown)]; var s, s' := Run(c, events), Run(c, more);
      && Legal(c, more)
      && (if updown then Started(s') && s'.reports == s.reports + [Touch(TotalX(c, data), TotalY(c, data))]
          else s'.(made := []) == INITIAL.(xp := TotalX(c, data), yp := TotalY(c, data), reports := s.reports + [Lift]))
  {
    hide Run, Legal, Step, Allowed, Sampled, Started, Pow2, TotalX, TotalY;
    StartedIsTs(Run(c, events));
    StartedSampled(c, Run(c, events));
    SampleOn(c, events, Run(c, events), data);
    RoundEnds(c, Run(c, events), Run(c, events + Converting(data)), data, updown);
    Extend(c, events + Converting(data), Expire(updown));
  }

  lemma StartedIsTs(s: State)
    requires Started(s)
    ensures s.id == Ts
  {
  }

  /** A pen that stays down reports one touch per round of 2^shift conversions, the totals of that round, in order. */
  lemma {:induction false} TouchingReports(c: Config, rounds: seq<seq<(nat, nat)>>)
    requires forall i :: 0 <= i < |rounds| ==> |rounds[i]| == Pow2(c.shift)
    ensures Legal(c, Touching(rounds)) && Started(Run(c, Touching(rounds)))
    ensures Run(c, Touching(rounds)).reports == Touches(c, rounds)
  {
    hide Run, Legal, Started, Pow2, TotalX, TotalY;
    if rounds == [] {
      FirstDown(c);
    } else {
      var n := |rounds| - 1;
      TouchingReports(c, rounds[..n]);
      OneRound(c, Touching(rounds[..n]), rounds[n], true);
      assert Touches(c, rounds) == Touches(c, rounds[..n]) + [Touch(TotalX(c, rounds[n]), TotalY(c, rounds[n]))];
    }
  }

  /** One use of the screen: pen down, any number of rounds, and one more in which the pen is lifted. Every round but
      the last is reported, then the lift; the mode is WAIT4INT(0) again, the lock free and the timer off. */
  lemma PenStroke(c: Config, rounds: seq<seq<(nat, nat)>>, last: seq<(nat, nat)>)
    requires |last| == Pow2(c.shift) && forall i :: 0 <= i < |rounds| ==> |rounds[i]| == Pow2(c.shift)
    ensures var events := Touching(rounds) + Converting(last) + [Expire(false)]; var s := Run(c, events);
      && Legal(c, events) && s.reports == Touches(c, rounds) + [Lift]
      && s.mode == WaitDown && s.count == 0 && !s.pending && s.id == Free && s.sem == 1
  {
    hide Run, Legal, Started, Pow2, TotalX, TotalY, Touches;
    TouchingReports(c, rounds);
    OneRound(c, Touching(rounds), last, false);
  }

  /** And to the touchscreen's end, whatever the configuration and the readings: when the timer expires after the
      release, before a pen-up interrupt has taken the lock back, that interrupt leaves a driver that never samples
      again and a lock that nobody ever gets. */
  lemma FrozenRun(c: Config, data: seq<(nat, nat)>)
    requires |data| == Pow2(c.shift)
    ensures var stolen := ACQUIRE + [DOWN] + [DOWN];
      var events := stolen + Converting(data) + RELEASE + [Expire(true)] + [LIFTED];
      Legal(c, events) && Frozen(Run(c, events)) && !TimerMatches(Run(c, events))
  {
    Stolen(c);
    var stolen := ACQUIRE + [DOWN] + [DOWN];
    StolenSampled(c, Run(c, stolen));
    hide Run, Legal, Step, Pow2, Frozen, TotalX, TotalY;
    SampleOn(c, stolen, Run(c, stolen), data);
    var sampled := stolen + Converting(data);
    Released(c, sampled);
    var lost := Run(c, sampled + RELEASE);
    Extend(c, sampled + RELEASE, Expire(true));
    Expired(c, lost);
    Extend(c, sampled + RELEASE + [Expire(true)], LIFTED);
    TakenBack(c, lost.(pending := false));
  }

  lemma StolenSampled(c: Config, s: State)
    requires s == INITIAL.(held := 1, sem := 0, id := Ts, mode := AutoPst)
    ensures Sampled(c, s, s, [])
  {
    assert Pow2(c.shift) >= 1;
    hide Pow2;
  }

  lemma Expired(c: Config, s: State)
    requires s.id != Ts
    ensures Step(c, s, Expire(true)) == s.(pending := false)
  {
  }

  lemma TakenBack(c: Config, s: State)
    requires Dead(s) && s.id == Free && s.sem == 1 && s.taking == s.held == s.leaving == 0
    ensures Frozen(Step(c, s, LIFTED)) && !TimerMatches(Step(c, s, LIFTED))
  {
  }
}
