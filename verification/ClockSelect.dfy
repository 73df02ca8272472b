/** Choosing the SD bus clock among the controller's sources, in 32-bit unsigned arithmetic. */
module ClockSelect {
  import opened Bytes

  const UINT_MAX: word := 0xFFFF_FFFF
  const MAX_BUS_CLK: nat := 4

  datatype Clock = Absent | Present(rate: word)

  /** The sources the table has room for. */
  type Bus = b: seq<Clock> | |b| == 4 witness [Absent, Absent, Absent, Absent]

  const DIVIDERS: set<nat> := {1, 2, 4, 8, 16, 32, 64, 128, 256}

  /** Unsigned subtraction. */
  function Sub(a: word, b: word): word { (a - b) % 0x1_0000_0000 }

  /* ---------- one source ---------- */

  /** The divider the search stops at, from `div` on. */
  function Divider(rate: word, wanted: word, div: nat): (d: nat)
    requires div in DIVIDERS
    ensures d in DIVIDERS && d >= div
    decreases 256 - div
  {
    if div == 256 || rate / div <= wanted then div else Divider(rate, wanted, div * 2)
  }

  function Output(rate: word, wanted: word): word { rate / Divider(rate, wanted, 1) }

  function Delta(clk: Clock, wanted: word): word {
    if clk.Absent? then UINT_MAX else Sub(wanted, Output(clk.rate, wanted))
  }

  predicate Reaches(clk: Clock, wanted: word) { clk.Present? && clk.rate / 256 <= wanted }

  lemma Halved(rate: word, d: nat)
    requires d in DIVIDERS && d < 256
    ensures rate / (2 * d) <= rate / d
  {
    assert d == 1 ==> rate / (2 * d) <= rate / d;
    assert d == 2 ==> rate / (2 * d) <= rate / d;
    assert d == 4 ==> rate / (2 * d) <= rate / d;
    assert d == 8 ==> rate / (2 * d) <= rate / d;
    assert d == 16 ==> rate / (2 * d) <= rate / d;
    assert d == 32 ==> rate / (2 * d) <= rate / d;
    assert d == 64 ==> rate / (2 * d) <= rate / d;
    assert d == 128 ==> rate / (2 * d) <= rate / d;
  }

  lemma {:induction false} Slower(rate: word, a: nat, b: nat)
    requires a in DIVIDERS && b in DIVIDERS && a <= b
    ensures rate / b <= rate / a
    decreases b - a
  {
    if a < b {
      Halved(rate, a);
      Slower(rate, 2 * a, b);
    }
  }

  /** From `div` on, the search finds the fastest output that is not too fast, if there is one. */
  lemma {:induction false} DividerBest(rate: word, wanted: word, div: nat, k: nat)
    requires div in DIVIDERS && k in DIVIDERS && div <= k
    ensures var d := Divider(rate, wanted, div);
      && (rate / k <= wanted ==> rate / k <= rate / d <= wanted)
      && (rate / 256 > wanted ==> d == 256)
    decreases 256 - div
  {
    Slower(rate, div, k);
    Slower(rate, k, 256);
    if div < 256 && rate / div > wanted && div < k {
      DividerBest(rate, wanted, div * 2, k);
    }
  }

  lemma OutputMeans(rate: word, wanted: word)
    ensures rate / 256 <= wanted ==> Output(rate, wanted) <= wanted
    ensures rate / 256 > wanted ==> Output(rate, wanted) == rate / 256
    ensures wanted == UINT_MAX ==> Output(rate, wanted) == rate
  {
    DividerBest(rate, wanted, 1, 256);
  }

  /** What the difference means: how far below the request, or, wrapped, how far above it. */
  lemma DeltaMeans(clk: Clock, wanted: word)
    requires clk.Present?
    ensures Reaches(clk, wanted) ==> Output(clk.rate, wanted) <= wanted
    ensures Reaches(clk, wanted) ==> Delta(clk, wanted) == wanted - Output(clk.rate, wanted)
    ensures Reaches(clk, wanted) && (wanted < UINT_MAX || clk.rate > 0) ==> Delta(clk, wanted) < UINT_MAX
    ensures !Reaches(clk, wanted) ==> Delta(clk, wanted) == 0x1_0000_0000 - (clk.rate / 256 - wanted)
  {
    OutputMeans(clk.rate, wanted);
    hide Output;
  }

  /** Below UINT_MAX, a source that can reach the clock always beats one that cannot, whose difference has
      wrapped, and an absent one. */
  lemma ReachableWins(a: Clock, b: Clock, wanted: word)
    requires Reaches(a, wanted) && !Reaches(b, wanted) && Delta(a, wanted) < UINT_MAX
    ensures Delta(a, wanted) < Delta(b, wanted)
  {
    hide Output;
    DeltaMeans(a, wanted);
    if b.Present? {
      DeltaMeans(b, wanted);
    }
  }

  /* ---------- all of them ---------- */

  /** The first source with the smallest difference. */
  predicate Chosen(bus: Bus, wanted: word, src: nat) {
    src < MAX_BUS_CLK && forall s :: 0 <= s < MAX_BUS_CLK ==>
      Delta(bus[src], wanted) <= Delta(bus[s], wanted) && (s < src ==> Delta(bus[src], wanted) < Delta(bus[s], wanted))
  }

  /** The source reaches the clock, and no source with any divider has a faster output that is not too fast. */
  ghost predicate Optimal(bus: Bus, wanted: word, src: nat)
    requires src < MAX_BUS_CLK
  {
    && Reaches(bus[src], wanted) && Output(bus[src].rate, wanted) <= wanted
    && forall s, k :: 0 <= s < 4 && bus[s].Present? && k in DIVIDERS && bus[s].rate / k <= wanted ==>
         bus[s].rate / k <= Output(bus[src].rate, wanted)
  }

  predicate Stopped(clk: Clock) { clk.Absent? || clk.rate == 0 }

  /** Asked for UINT_MAX when no clock runs, the search keeps source 0, which may not exist. */
  predicate KeepsMissing(bus: Bus, wanted: word) {
    wanted == UINT_MAX && bus[0].Absent? && forall s :: 0 <= s < MAX_BUS_CLK ==> Stopped(bus[s])
  }

  /** When some source can reach the clock, the choice is optimal, with that one exception. */
  lemma ChosenIsOptimal(bus: Bus, wanted: word, src: nat)
    requires Chosen(bus, wanted, src) && exists s :: 0 <= s < MAX_BUS_CLK && Reaches(bus[s], wanted)
    ensures Optimal(bus, wanted, src) <==> !KeepsMissing(bus, wanted)
  {
    hide Delta, Output, Divider, Optimal;
    if wanted == UINT_MAX && forall s :: 0 <= s < MAX_BUS_CLK ==> Stopped(bus[s]) {
      forall s | 0 <= s < MAX_BUS_CLK ensures Delta(bus[s], wanted) == UINT_MAX { StoppedDelta(bus[s]); }
      assert Delta(bus[src], wanted) == Delta(bus[0], wanted);
      assert src == 0;
      if bus[0].Present? {
        ReachingIsOptimal(bus, wanted, src);
      } else {
        AbsentNotOptimal(bus, wanted, src);
      }
    } else {
      var other :| 0 <= other < MAX_BUS_CLK && Reaches(bus[other], wanted) &&
                   (wanted < UINT_MAX || bus[other].rate > 0);
      DeltaMeans(bus[other], wanted);
      if !Reaches(bus[src], wanted) {
        ReachableWins(bus[other], bus[src], wanted);
      }
      ReachingIsOptimal(bus, wanted, src);
    }
  }

  lemma StoppedDelta(clk: Clock)
    requires Stopped(clk)
    ensures Delta(clk, UINT_MAX) == UINT_MAX
  {
    if clk.Present? {
      OutputMeans(clk.rate, UINT_MAX);
    }
  }

  lemma AbsentNotOptimal(bus: Bus, wanted: word, src: nat)
    requires src < MAX_BUS_CLK && bus[src].Absent?
    ensures !Optimal(bus, wanted, src)
  {
  }

  lemma ReachingIsOptimal(bus: Bus, wanted: word, src: nat)
    requires Chosen(bus, wanted, src) && Reaches(bus[src], wanted)
    ensures Optimal(bus, wanted, src)
  {
    hide Delta, Output, Divider;
    DeltaMeans(bus[src], wanted);
    forall s, k | 0 <= s < MAX_BUS_CLK && bus[s].Present? && k in DIVIDERS && bus[s].rate / k <= wanted
      ensures bus[s].rate / k <= Output(bus[src].rate, wanted)
    {
      Slower(bus[s].rate, k, 256);
      DeltaMeans(bus[s], wanted);
      OutputBest(bus[s].rate, wanted, k);
    }
  }

  lemma OutputBest(rate: word, wanted: word, k: nat)
    requires k in DIVIDERS && rate / k <= wanted
    ensures rate / k <= Output(rate, wanted)
  {
    DividerBest(rate, wanted, 1, k);
  }

  /** If every source is too fast, the wrapped difference picks the worst, the one that overshoots most; one that
      overshoots by exactly 1 looks absent. */
  lemma ChosenOvershootsMost(bus: Bus, wanted: word, src: nat, other: nat)
    requires Chosen(bus, wanted, src) && other < MAX_BUS_CLK && bus[other].Present?
    requires forall s :: 0 <= s < MAX_BUS_CLK ==> !Reaches(bus[s], wanted)
    ensures bus[src].Present? ==> bus[src].rate / 256 >= bus[other].rate / 256
    ensures bus[src].Absent? <==> bus[0].Absent? && forall s :: 0 <= s < MAX_BUS_CLK ==> !OvershootsBy2(bus[s], wanted)
  {
    hide Delta;
    forall s | 0 <= s < MAX_BUS_CLK
      ensures Delta(bus[s], wanted) == if bus[s].Absent? then UINT_MAX else 0x1_0000_0000 - (bus[s].rate / 256 - wanted)
    {
      AbsentDelta(bus[s], wanted);
      if bus[s].Present? {
        DeltaMeans(bus[s], wanted);
      }
    }
    assert Delta(bus[src], wanted) <= Delta(bus[other], wanted) && Delta(bus[src], wanted) <= Delta(bus[0], wanted);
    if bus[src].Present? {
      assert OvershootsBy2(bus[src], wanted) || src == 0;
    }
  }

  predicate OvershootsBy2(clk: Clock, wanted: word) { clk.Present? && clk.rate / 256 >= wanted + 2 }

  lemma AbsentDelta(clk: Clock, wanted: word)
    ensures clk.Absent? ==> Delta(clk, wanted) == UINT_MAX
  {
  }

  /* ---------- the driver ---------- */

  /** CONTROL2: the base clock field, and the other bits. */
  datatype Control2 = Control2(sel: nat, others: word)

  class SdhciS3c {
    const clkBus: Bus
    const nullRate: word                 // what clk_get_rate gives for an absent clock
    var curClk: nat
    var maxClk: word
    var timeoutClk: word
    var control2: Control2
    var clockControl: nat

    constructor (bus: Bus, nullRate: word, control2: Control2)
      ensures clkBus == bus && this.nullRate == nullRate && curClk == 0 && this.control2 == control2
    {
      clkBus, this.nullRate, this.control2 := bus, nullRate, control2;
      curClk, maxClk, timeoutClk, clockControl := 0, 0, 0, 0;
    }

    function Rate(src: nat): word
      requires src < MAX_BUS_CLK
    {
      if clkBus[src].Present? then clkBus[src].rate else nullRate
    }

    /** sdhci_s3c_check_sclk: a reset that cleared the clock field is undone, the other bits are left alone. */
    method CheckSclk()
      modifies `control2
      ensures control2 == old(control2).(sel := curClk)
    {
      if control2.sel != curClk {
        control2 := control2.(sel := curClk);
      }
    }

    method ConsiderClock(src: nat, wanted: word) returns (delta: word)
      requires src < MAX_BUS_CLK
      ensures delta == Delta(clkBus[src], wanted)
    {
      if clkBus[src].Absent? {
        return UINT_MAX;
      }
      var rate := clkBus[src].rate;
      var div: nat := 1;
      while div < 256
        invariant div in DIVIDERS && Divider(rate, wanted, div) == Divider(rate, wanted, 1)
        decreases 256 - div
      {
        if rate / div <= wanted {
          break;
        }
        div := div * 2;
      }
      return Sub(wanted, rate / div);
    }

    /** sdhci_s3c_get_max_clk: the fastest present source; 0 when there is none. */
    method GetMaxClk() returns (max: word)
      modifies `control2
      ensures control2 == old(control2).(sel := curClk)
      ensures forall s :: 0 <= s < MAX_BUS_CLK && clkBus[s].Present? ==> clkBus[s].rate <= max
      ensures max == 0 || exists s :: 0 <= s < MAX_BUS_CLK && clkBus[s] == Present(max)
    {
      CheckSclk();
      max := 0;
      for clk := 0 to MAX_BUS_CLK
        invariant forall s :: 0 <= s < clk && clkBus[s].Present? ==> clkBus[s].rate <= max
        invariant max == 0 || exists s :: 0 <= s < clk && clkBus[s] == Present(max)
      {
        if clkBus[clk].Present? && clkBus[clk].rate > max {
          max := clkBus[clk].rate;
        }
      }
    }

    /** sdhci_s3c_set_clock. */
    method SetClock(clock: word) returns (ghost src: nat)
      requires curClk < MAX_BUS_CLK
      modifies this
      ensures clock == 0 ==> src == old(curClk)
      ensures clock != 0 ==> Chosen(clkBus, clock, src)
      ensures curClk == src && src < MAX_BUS_CLK && control2.others == old(control2).others
      ensures src == old(curClk) ==> (
        (control2, maxClk, timeoutClk, clockControl) == old((control2, maxClk, timeoutClk, clockControl)))
      ensures src != old(curClk) ==> control2.sel == src && maxClk == Rate(src) && clockControl == 0
      ensures src != old(curClk) ==> FastestMegahertz(timeoutClk)
    {
      src := curClk;
      if clock == 0 {
        return;
      }
      var bestSrc := FindSource(clock);
      src := bestSrc;
      if curClk != bestSrc {
        clockControl := 0;
        curClk := bestSrc;
        maxClk := Rate(bestSrc);
        var max := GetMaxClk();
        timeoutClk := max / 1000000;
        control2 := control2.(sel := bestSrc);
      }
    }

    /** `mhz` is the rate of the fastest present source, in whole megahertz. */
    ghost predicate FastestMegahertz(mhz: nat) {
      exists max: word ::
        && mhz == max / 1000000
        && (forall s :: 0 <= s < MAX_BUS_CLK && clkBus[s].Present? ==> clkBus[s].rate <= max)
        && (max == 0 || exists s :: 0 <= s < MAX_BUS_CLK && clkBus[s] == Present(max))
    }

    /** The search loop of set_clock. */
    method FindSource(clock: word) returns (bestSrc: nat)
      ensures Chosen(clkBus, clock, bestSrc)
    {
      hide Delta;
      var best: word := UINT_MAX;
      bestSrc := 0;
      for src := 0 to MAX_BUS_CLK
        invariant bestSrc < MAX_BUS_CLK
        invariant best == UINT_MAX ==> bestSrc == 0
        invariant best < UINT_MAX ==> bestSrc < src && best == Delta(clkBus[bestSrc], clock)
        invariant forall s :: 0 <= s < src ==> best <= Delta(clkBus[s], clock)
        invariant forall s :: 0 <= s < bestSrc ==> best < Delta(clkBus[s], clock)
      {
        var delta := ConsiderClock(src, clock);
        if delta < best {
          best := delta;
          bestSrc := src;
        }
      }
    }
  }
}
