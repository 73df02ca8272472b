/** Two threads handing a token back and forth through two semaphores, for any two sequences of
    equal length and every interleaving of their steps. */
module Alternation {

  /** down(own semaphore), print, up(the other's semaphore). */
  datatype Pc = Down | Print | Up

  /** A thread: how many rounds it has completed, and where it is in the current one. */
  datatype Thread = Thread(i: nat, pc: Pc)

  datatype State = State(one: Thread, two: Thread, sem1: nat, sem2: nat, out: seq<int>)

  /** demo_init: the first semaphore can be taken, the second cannot. */
  function Init(): State {
    State(Thread(0, Down), Thread(0, Down), 1, 0, [])
  }

  predicate Enabled(s: State, n: nat, first: bool) {
    if first then s.one.i < n && (s.one.pc == Down ==> s.sem1 > 0)
    else s.two.i < n && (s.two.pc == Down ==> s.sem2 > 0)
  }

  /** One step of thread one, printing `v` when it prints. */
  function StepOne(s: State, v: int): State {
    match s.one.pc
    case Down => s.(one := s.one.(pc := Print), sem1 := if s.sem1 > 0 then s.sem1 - 1 else 0)
    case Print => s.(one := s.one.(pc := Up), out := s.out + [v])
    case Up => s.(one := Thread(s.one.i + 1, Down), sem2 := s.sem2 + 1)
  }

  function StepTwo(s: State, v: int): State {
    match s.two.pc
    case Down => s.(two := s.two.(pc := Print), sem2 := if s.sem2 > 0 then s.sem2 - 1 else 0)
    case Print => s.(two := s.two.(pc := Up), out := s.out + [v])
    case Up => s.(two := Thread(s.two.i + 1, Down), sem1 := s.sem1 + 1)
  }

  /** The scheduler runs thread one (`first`) or thread two; a blocked or finished thread stays put. */
  function Step(s: State, a: seq<int>, b: seq<int>, first: bool): State
    requires |a| == |b|
  {
    if !Enabled(s, |a|, first) then s
    else if first then StepOne(s, a[s.one.i]) else StepTwo(s, b[s.two.i])
  }

  function Run(a: seq<int>, b: seq<int>, schedule: seq<bool>): State
    requires |a| == |b|
  {
    if schedule == [] then Init()
    else Step(Run(a, b, schedule[..|schedule| - 1]), a, b, schedule[|schedule| - 1])
  }

  /** a0, b0, a1, b1, ... */
  function Interleaved(a: seq<int>, b: seq<int>): (r: seq<int>)
    requires |a| == |b|
    ensures |r| == 2 * |a|
  {
    seq(2 * |a|, k requires 0 <= k < 2 * |a| => if k % 2 == 0 then a[k / 2] else b[k / 2])
  }

  function Held(t: Thread): nat { if t.pc == Down then 0 else 1 }
  function Printed(t: Thread): nat { t.i + if t.pc == Up then 1 else 0 }
  function Progress(t: Thread): nat { 3 * t.i + match t.pc case Down => 0 case Print => 1 case Up => 2 }
  predicate Final(s: State, n: nat) { s.one.i == n && s.two.i == n }

  ghost predicate Inv(s: State, a: seq<int>, b: seq<int>)
    requires |a| == |b|
  {
    // the token is in one of the semaphores or with one of the threads
    && s.sem1 + s.sem2 + Held(s.one) + Held(s.two) == 1
    // whose turn it is tells how far the threads are apart
    && s.one.i == s.two.i + s.sem2 + Held(s.two)
    && s.one.i <= |a| && s.two.i <= |b|
    && (s.one.pc != Down ==> s.one.i < |a|) && (s.two.pc != Down ==> s.two.i < |b|)
    && s.out == Interleaved(a, b)[..Printed(s.one) + Printed(s.two)]
  }

  lemma StepKeeps(s: State, a: seq<int>, b: seq<int>, first: bool)
    requires |a| == |b| && Inv(s, a, b)
    ensures Inv(Step(s, a, b, first), a, b)
  {
    if Enabled(s, |a|, first) {
      if first { StepOneKeeps(s, a, b); } else { StepTwoKeeps(s, a, b); }
    }
  }

  lemma PrintOne(a: seq<int>, b: seq<int>, k: nat)
    requires |a| == |b| && k < 2 * |a|
    ensures Interleaved(a, b)[..k + 1] == Interleaved(a, b)[..k] + [if k % 2 == 0 then a[k / 2] else b[k / 2]]
  {}

  lemma StepOneKeeps(s: State, a: seq<int>, b: seq<int>)
    requires |a| == |b| && Inv(s, a, b) && Enabled(s, |a|, true)
    ensures Inv(StepOne(s, a[s.one.i]), a, b)
  {
    var k := Printed(s.one) + Printed(s.two);
    if s.one.pc == Print { PrintOne(a, b, k); }
    hide Interleaved;
  }

  lemma StepTwoKeeps(s: State, a: seq<int>, b: seq<int>)
    requires |a| == |b| && Inv(s, a, b) && Enabled(s, |a|, false)
    ensures Inv(StepTwo(s, b[s.two.i]), a, b)
  {
    var k := Printed(s.one) + Printed(s.two);
    if s.two.pc == Print { PrintOne(a, b, k); }
    hide Interleaved;
  }

  lemma {:induction false} RunKeeps(a: seq<int>, b: seq<int>, schedule: seq<bool>)
    requires |a| == |b|
    ensures Inv(Run(a, b, schedule), a, b)
  {
    if schedule != [] {
      var before := schedule[..|schedule| - 1];
      RunKeeps(a, b, before);
      StepKeeps(Run(a, b, before), a, b, schedule[|schedule| - 1]);
    }
  }

  /** Safety: whatever the scheduler does, the output so far is a prefix of the alternation, and
      there is exactly one token. */
  lemma Alternates(a: seq<int>, b: seq<int>, schedule: seq<bool>)
    requires |a| == |b|
    ensures var s := Run(a, b, schedule);
      s.out <= Interleaved(a, b) && s.sem1 + s.sem2 + Held(s.one) + Held(s.two) == 1
  {
    RunKeeps(a, b, schedule);
  }

  /** Progress: in every reachable state that is not final exactly one thread can move, and moving
      brings the run one step closer to its end. */
  lemma NeverStuck(a: seq<int>, b: seq<int>, schedule: seq<bool>)
    requires |a| == |b|
    ensures var s := Run(a, b, schedule);
      && (Final(s, |a|) <==> !Enabled(s, |a|, true) && !Enabled(s, |a|, false))
      && !(Enabled(s, |a|, true) && Enabled(s, |a|, false))
  {
    RunKeeps(a, b, schedule);
  }

  function Moves(a: seq<int>, b: seq<int>, schedule: seq<bool>): nat
    requires |a| == |b|
  {
    if schedule == [] then 0
    else
      var before := schedule[..|schedule| - 1];
      Moves(a, b, before) + if Enabled(Run(a, b, before), |a|, schedule[|schedule| - 1]) then 1 else 0
  }

  lemma {:induction false} MovesAreProgress(a: seq<int>, b: seq<int>, schedule: seq<bool>)
    requires |a| == |b|
    ensures var s := Run(a, b, schedule); Moves(a, b, schedule) == Progress(s.one) + Progress(s.two)
  {
    if schedule != [] {
      MovesAreProgress(a, b, schedule[..|schedule| - 1]);
    }
  }

  /** Termination: no run makes more than 6n moves, and one that has made them all has printed the
      whole alternation. */
  lemma Terminates(a: seq<int>, b: seq<int>, schedule: seq<bool>)
    requires |a| == |b|
    ensures Moves(a, b, schedule) <= 6 * |a|
    ensures Moves(a, b, schedule) == 6 * |a| <==> Final(Run(a, b, schedule), |a|)
    ensures Final(Run(a, b, schedule), |a|) ==> Run(a, b, schedule).out == Interleaved(a, b)
  {
    RunKeeps(a, b, schedule);
    MovesAreProgress(a, b, schedule);
  }
}
