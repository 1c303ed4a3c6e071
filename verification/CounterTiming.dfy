/** What updating a timer of Counters.cpp does to its count, and zero-return timers over whole runs. */
module CounterTiming {
  import opened Arithmetic
  import opened CounterState

  // ---------------------------------------------------------------- arithmetic

  /** The time of the last whole tick, by t, of a counter started at s. */
  function LastTick(s: nat, t: nat, rate: nat): nat
    requires rate > 0 && s <= t
  {
    t - Rest(t - s, rate)
  }

  /** Ticks up to t, and from there to end. */
  lemma {:induction false} TicksChain(s: nat, t: nat, end: nat, rate: nat)
    requires rate > 0 && s <= t <= end
    ensures s <= LastTick(s, t, rate) <= t < LastTick(s, t, rate) + rate
    ensures Ticks(end - s, rate) == Ticks(t - s, rate) + Ticks(end - LastTick(s, t, rate), rate)
    decreases t - s
  {
    if t - s >= rate {
      TicksChain(s + rate, t, end, rate);
    }
  }

  /** The difference of two wrapped times. */
  lemma WrapDiff(t: nat, s: nat)
    requires s <= t < s + TWO32
    ensures Wrap(Wrap(t) - Wrap(s)) == t - s
  {
  }

  // ---------------------------------------------------------------- updates

  /** Counting cycles, and not cleared by its target. */
  predicate FreeRunning(c: Counter) {
    c.mode.isCounting && c.mode.clockSource < 3 && !c.mode.zeroReturn && RateOk(c)
  }

  lemma WrapMinus(at: nat, r: nat)
    requires r <= at
    ensures Wrap(Wrap(at) - r) == Wrap(at - r)
  {
  }

  lemma CountWraps(count: u32, q: nat)
    ensures Wrap(count + q) % 0x1_0000 == (count + q) % 0x1_0000
  {
  }

  /** `d` is `c` with that many cycles taken in. */
  ghost predicate TakenIn(c: Counter, change: nat, cycle: u32, d: Counter)
    requires c.rate > 0
  {
    && d.rate == c.rate && d.gated == c.gated && d.mode == c.mode && d.sCycleT == Wrap(cycle - Rest(change, c.rate))
    && d.count % 0x1_0000 == (c.count + Ticks(change, c.rate)) % 0x1_0000
  }

  lemma TickTakes(c: Counter, change: nat, cycle: u32)
    requires c.rate > 0
    ensures TakenIn(c, change, cycle, Tick(c, change, cycle))
  {
    CountWraps(c.count, Ticks(change, c.rate));
  }

  lemma TestsTake(c: Counter, change: nat, cycle: u32, t: Counter)
    requires c.rate > 0 && TakenIn(c, change, cycle, t) && !c.mode.zeroReturn
    ensures TakenIn(c, change, cycle, TestOverflow(TestTarget(t)))
  {
  }

  lemma UpdateTakes(c: Counter, cycle: u32, change: nat)
    requires FreeRunning(c) && Wrap(cycle - c.sCycleT) == change < 0x8000_0000
    ensures TakenIn(c, change, cycle, Update(c, cycle))
  {
    TickTakes(c, change, cycle);
    TestsTake(c, change, cycle, Tick(c, change, cycle));
    assert Update(c, cycle) == TestOverflow(TestTarget(Tick(c, change, cycle)));
  }

  /** Cycles read as negative are dropped. */
  lemma UpdateDrops(c: Counter, cycle: u32)
    requires FreeRunning(c) && Wrap(cycle - c.sCycleT) >= 0x8000_0000
    ensures TakenIn(c, 0, cycle, Update(c, cycle))
  {
    TickTakes(c, 0, cycle);
    TestsTake(c, 0, cycle, Tick(c, 0, cycle));
    assert Update(c, cycle) == TestOverflow(TestTarget(Tick(c, 0, cycle)));
  }

  lemma WtargetTakes(c: Counter, value: u32, cycle: u32, change: nat)
    requires FreeRunning(c) && Wrap(cycle - c.sCycleT) == change
    ensures TakenIn(c, change, cycle, Wtarget(c, value, cycle))
  {
    var d := c.(target := Low16(value), future := false);
    TickTakes(d, change, cycle);
    assert CatchUp(d, cycle) == Tick(d, change, cycle);
  }

  /** A read is the count with the ticks since sCycleT. */
  lemma ReadTicks(c: Counter, cycle: u32, elapsed: nat)
    requires Active(c) && RateOk(c) && Wrap(cycle - c.sCycleT) == elapsed
    ensures Rcount(c, cycle) % 0x1_0000 == (c.count + Ticks(elapsed, c.rate)) % 0x1_0000
  {
    CountWraps(c.count, Ticks(elapsed, c.rate));
  }

  lemma Chain16(a: nat, b: nat, p: nat, q: nat)
    requires b % 0x1_0000 == (a + p) % 0x1_0000
    ensures (b + q) % 0x1_0000 == (a + (p + q)) % 0x1_0000
  {
  }

  /** Reads of d, n cycles after `cycle`, are those of an ideal counter that c was `change` cycles earlier,
      as long as the cycles between fit 32 bits. */
  ghost predicate ReadsIdeal(c: Counter, d: Counter, cycle: u32, change: nat)
    requires c.rate > 0 && RateOk(d)
  {
    forall n: nat :: change + n < TWO32 ==> ReadIdeal(c, d, cycle, change, n)
  }

  predicate ReadIdeal(c: Counter, d: Counter, cycle: u32, change: nat, n: nat)
    requires c.rate > 0 && RateOk(d)
  {
    Rcount(d, Wrap(cycle + n)) % 0x1_0000 == (c.count + Ticks(change + n, c.rate)) % 0x1_0000
  }

  lemma BackAndOn(cycle: u32, r: nat, n: nat)
    requires r + n < TWO32
    ensures Wrap(Wrap(cycle + n) - Wrap(cycle - r)) == r + n
  {
    var q := (cycle - r) / TWO32 - (cycle + n) / TWO32;
    assert Wrap(cycle + n) - Wrap(cycle - r) == r + n + TWO32 * q;
  }

  lemma ReadOn(c: Counter, taken: nat, cycle: u32, d: Counter, n: nat)
    requires FreeRunning(c) && TakenIn(c, taken, cycle, d) && Rest(taken, c.rate) + n < TWO32
    ensures RateOk(d)
    ensures Rcount(d, Wrap(cycle + n)) % 0x1_0000 == (c.count + Ticks(taken, c.rate) + Ticks(Rest(taken, c.rate) + n, c.rate)) % 0x1_0000
  {
    var t := Ticks(Rest(taken, c.rate) + n, c.rate);
    BackAndOn(cycle, Rest(taken, c.rate), n);
    ReadTicks(d, Wrap(cycle + n), Rest(taken, c.rate) + n);
    Chain16(c.count, d.count, Ticks(taken, c.rate), t);
  }

  lemma {:induction false} WholeTicks(k: nat, x: nat, rate: nat)
    requires rate > 0
    ensures Ticks(k * rate + x, rate) == k + Ticks(x, rate) && Rest(k * rate + x, rate) == Rest(x, rate)
    decreases k
  {
    if k > 0 {
      assert k * rate == (k - 1) * rate + rate && (k - 1) * rate >= 0;
      WholeTicks(k - 1, x, rate);
    }
  }

  /** n cycles later, as many ticks are counted after a gap was dropped as after it was taken in. */
  predicate SameTicks(change: nat, rate: u32, n: nat)
    requires rate > 0
  {
    (Ticks(change + n, rate) - Ticks(n, rate)) % 0x1_0000 == 0
  }

  lemma DropHarmless(change: nat, rate: u32, n: nat)
    requires rate > 0 && change % (0x1_0000 * rate) == 0
    ensures SameTicks(change, rate, n)
  {
    var q := change / (0x1_0000 * rate);
    assert change == 0x1_0000 * rate * q;
    assert 0x1_0000 * rate * q == 0x1_0000 * q * rate;
    WholeTicks(0x1_0000 * q, n, rate);
  }

  lemma NextTickFits(change: nat, k: nat, rate: u32)
    requires (rate == 2 || rate == 32 || rate == 512) && change < TWO32
    requires k % 0x1_0000 == 0 && k * rate <= change
    ensures k * rate + rate < TWO32
  {
    var q := k / 0x1_0000;
    if rate == 2 { assert q <= 0x7fff; } else if rate == 32 { assert q <= 0x7ff; } else { assert q <= 0x7f; }
  }

  lemma {:induction false} WholeAndRest(x: nat, rate: nat)
    requires rate > 0
    ensures x == Ticks(x, rate) * rate + Rest(x, rate)
  {
    if x >= rate {
      WholeAndRest(x - rate, rate);
      assert Ticks(x, rate) * rate == Ticks(x - rate, rate) * rate + rate;
    }
  }

  lemma DropHarms(change: nat, rate: u32)
    requires (rate == 2 || rate == 32 || rate == 512) && change < TWO32
    requires forall n: nat :: change + n < TWO32 ==> SameTicks(change, rate, n)
    ensures change % (0x1_0000 * rate) == 0
  {
    var k, r := Ticks(change, rate), Rest(change, rate);
    assert SameTicks(change, rate, 0);
    WholeAndRest(change, rate);
    var n := if r > 0 then rate - r else 0;
    if r > 0 {
      NextTickFits(change, k, rate);
      OneTickMore(change, rate);
    }
    assert SameTicks(change, rate, n);
    MultipleOf(change, k, rate);
  }

  lemma OneTickMore(change: nat, rate: nat)
    requires rate > 0 && Rest(change, rate) > 0
    ensures var n := rate - Rest(change, rate);
            Ticks(change + n, rate) == Ticks(change, rate) + 1 && Ticks(n, rate) == 0
  {
    var k := Ticks(change, rate);
    WholeAndRest(change, rate);
    assert change + (rate - Rest(change, rate)) == (k + 1) * rate + 0;
    WholeTicks(k + 1, 0, rate);
  }

  lemma MultipleOf(change: nat, k: nat, rate: nat)
    requires rate > 0 && k % 0x1_0000 == 0 && change == k * rate
    ensures change % (0x1_0000 * rate) == 0
  {
    var q := k / 0x1_0000;
    assert k * rate == 0x1_0000 * q * rate;
    assert 0x1_0000 * q * rate == (0x1_0000 * rate) * q;
    Quotient(change, 0x1_0000 * rate, q, 0);
  }

  lemma GapTaken(c: Counter, cycle: u32, change: nat, d: Counter, n: nat)
    requires FreeRunning(c) && TakenIn(c, change, cycle, d) && change + n < TWO32
    ensures RateOk(d) && ReadIdeal(c, d, cycle, change, n)
  {
    TicksChain(0, change, change + n, c.rate);
    ReadOn(c, change, cycle, d, n);
  }

  lemma GapDropped(c: Counter, cycle: u32, change: nat, d: Counter, n: nat)
    requires FreeRunning(c) && TakenIn(c, 0, cycle, d) && change + n < TWO32
    ensures RateOk(d)
    ensures ReadIdeal(c, d, cycle, change, n) <==> SameTicks(change, c.rate, n)
  {
    ReadOn(c, 0, cycle, d, n);
    Apart16(c.count, Ticks(n, c.rate), Ticks(change + n, c.rate), Rcount(d, Wrap(cycle + n)));
  }

  lemma Apart16(count: nat, p: nat, q: nat, r: nat)
    requires r % 0x1_0000 == (count + p) % 0x1_0000
    ensures r % 0x1_0000 == (count + q) % 0x1_0000 <==> (q - p) % 0x1_0000 == 0
  {
  }

  /** Where the bound on gaps comes from: rcntUpdate reads the elapsed cycles as signed.  After an update
      every read is ideal exactly when fewer than 2^31 cycles had passed, or those it dropped make a
      multiple of 2^16 whole ticks. */
  lemma UpdateExact(c: Counter, cycle: u32, change: nat)
    requires FreeRunning(c) && change == Wrap(cycle - c.sCycleT)
    ensures ReadsIdeal(c, Update(c, cycle), cycle, change) <==>
            change < 0x8000_0000 || change % (0x1_0000 * c.rate) == 0
  {
    if change < 0x8000_0000 {
      UpdateTakes(c, cycle, change);
      ReadsTaken(c, cycle, change, Update(c, cycle));
    } else {
      UpdateDrops(c, cycle);
      ReadsDropped(c, cycle, change, Update(c, cycle));
    }
  }

  lemma ReadsTaken(c: Counter, cycle: u32, change: nat, d: Counter)
    requires FreeRunning(c) && TakenIn(c, change, cycle, d)
    ensures RateOk(d) && ReadsIdeal(c, d, cycle, change)
  {
    forall n: nat | change + n < TWO32 ensures ReadIdeal(c, d, cycle, change, n) {
      GapTaken(c, cycle, change, d, n);
    }
  }

  lemma ReadsDropped(c: Counter, cycle: u32, change: nat, d: Counter)
    requires FreeRunning(c) && TakenIn(c, 0, cycle, d) && change < TWO32
    ensures RateOk(d)
    ensures ReadsIdeal(c, d, cycle, change) <==> change % (0x1_0000 * c.rate) == 0
  {
    forall n: nat | change + n < TWO32
      ensures ReadIdeal(c, d, cycle, change, n) <==> SameTicks(change, c.rate, n)
      ensures change % (0x1_0000 * c.rate) == 0 ==> SameTicks(change, c.rate, n)
    {
      GapDropped(c, cycle, change, d, n);
      if change % (0x1_0000 * c.rate) == 0 { DropHarmless(change, c.rate, n); }
    }
    if ReadsIdeal(c, d, cycle, change) {
      DropHarms(change, c.rate);
    }
  }

  lemma {:induction false} SomeTicks(x: nat, rate: nat)
    requires rate > 0
    ensures Ticks(x, rate) <= x && (x >= rate ==> Ticks(x, rate) > 0) && (x < rate ==> Ticks(x, rate) == 0)
    decreases x
  {
    if x >= rate {
      SomeTicks(x - rate, rate);
    }
  }

  lemma AddsTicks(count: u16, q: nat)
    requires q < 0xffff_0000
    ensures Wrap(count + q) == count <==> q == 0
  {
  }

  lemma RateSmall(c: Counter)
    requires RateOk(c) && Active(c)
    ensures 2 <= c.rate <= 512
  {
  }

  lemma {:induction false} TicksHalve(x: nat, rate: nat)
    requires rate >= 2
    ensures 2 * Ticks(x, rate) <= x
    decreases x
  {
    if x >= rate {
      TicksHalve(x - rate, rate);
    }
  }

  /** A count write moves sCycleT by cycles read as signed, too: the written count reads back exactly when
      the timer is not counting cycles, or fewer than 2^31 had passed. */
  lemma CountReadsBackExactly(c: Counter, value: u32, cycle: u32)
    requires RateOk(c)
    ensures Rcount(Wcount(c, value, cycle), cycle) == value % 0x1_0000 <==>
            !(c.mode.isCounting && c.mode.clockSource != 3) || Wrap(cycle - c.sCycleT) < 0x8000_0000
  {
    if Active(c) {
      RateSmall(c);
      var change := Wrap(cycle - c.sCycleT);
      var d := Wcount(c, value, cycle);
      var age := if change < 0x8000_0000 then Rest(change, c.rate) else change;
      assert Wrap(cycle - d.sCycleT) == age by {
        if change < 0x8000_0000 {
          BackByRest(cycle, age);
          if change == 0 {
            assert d.sCycleT == c.sCycleT;
          }
        }
      }
      SomeTicks(age, c.rate);
      TicksHalve(age, c.rate);
      AddsTicks(Low16(value), Ticks(age, c.rate));
    }
  }

  lemma TwoCycles(x: nat)
    ensures Ticks(x, 2) == x / 2
  {
    TicksDivide(x, 2);
  }

  lemma OneShort()
    ensures SameTicks(0x8000_0001, 2, 0) && !SameTicks(0x8000_0001, 2, 1)
  {
    TwoCycles(0x8000_0001);
    TwoCycles(0x8000_0002);
  }

  /** A gap that loses a tick: the count is right at the update, and one short at the next cycle. */
  lemma GapLosesTick(c: Counter)
    requires FreeRunning(c) && c.rate == 2 && c.sCycleT == 0
    ensures var d := Update(c, 0x8000_0001);
            && ReadIdeal(c, d, 0x8000_0001, 0x8000_0001, 0)
            && !ReadIdeal(c, d, 0x8000_0001, 0x8000_0001, 1)
  {
    UpdateDrops(c, 0x8000_0001);
    DroppedIsShort(c, Update(c, 0x8000_0001));
  }

  lemma DroppedIsShort(c: Counter, d: Counter)
    requires FreeRunning(c) && c.rate == 2 && TakenIn(c, 0, 0x8000_0001, d)
    ensures RateOk(d)
    ensures ReadIdeal(c, d, 0x8000_0001, 0x8000_0001, 0) && !ReadIdeal(c, d, 0x8000_0001, 0x8000_0001, 1)
  {
    OneShort();
    GapDropped(c, 0x8000_0001, 0x8000_0001, d, 0);
    GapDropped(c, 0x8000_0001, 0x8000_0001, d, 1);
  }

  // ---------------------------------------------------------------- zero-return timers

  /** Counting cycles and cleared by a target that is not in the future; below it, at time s. */
  predicate Cyclic(c: Counter, s: nat) {
    Active(c) && c.mode.zeroReturn && RateOk(c) && !c.future && c.count < c.target && c.sCycleT == Wrap(s)
  }

  function AfterUpdates(c: Counter, times: seq<nat>): (d: Counter)
    requires RateOk(c)
    ensures RateOk(d)
    decreases |times|
  {
    if times == [] then c else AfterUpdates(Update(c, Wrap(times[0])), times[1..])
  }

  /** The overflow test of an update finds the timer beyond sixteen bits. */
  predicate Overflows(c: Counter, cycle: u32)
    requires c.rate > 0
  {
    Active(c) && TestTarget(Tick(c, Elapsed(c, cycle), cycle)).count > 0xffff
  }

  ghost predicate NeverOverflows(c: Counter, times: seq<nat>)
    requires RateOk(c) && c.rate > 0
    decreases |times|
  {
    times == [] || (!Overflows(c, Wrap(times[0])) && NeverOverflows(Update(c, Wrap(times[0])), times[1..]))
  }

  /** No gap between updates exceeds the target's worth of cycles. */
  ghost predicate Frequent(times: seq<nat>, last: nat, period: nat)
    decreases |times|
  {
    times == [] || (last <= times[0] <= last + period && Frequent(times[1..], times[0], period))
  }

  lemma ZeroReturnTests(t: Counter, target: u16)
    requires t.mode.zeroReturn && !t.future && t.target == target && t.count < 2 * target
    ensures var d := TestOverflow(TestTarget(t));
            && TestTarget(t).count <= 0xffff
            && d.count == (if t.count < target then t.count else t.count - target)
            && SameClock(t, d) && !d.future && d.target == target && d.flags.overflowIrqs == t.flags.overflowIrqs
  {
  }

  /** n ticks of an ideal counter that goes from target - 1 to zero. */
  function Cycle(count: nat, target: nat, n: nat): nat
    decreases n
  {
    if n == 0 then count else Cycle(if count + 1 == target then 0 else count + 1, target, n - 1)
  }

  lemma {:induction false} CycleAdd(count: nat, target: nat, m: nat, n: nat)
    ensures Cycle(count, target, m + n) == Cycle(Cycle(count, target, m), target, n)
    decreases m
  {
    if m > 0 {
      CycleAdd(if count + 1 == target then 0 else count + 1, target, m - 1, n);
    }
  }

  lemma {:induction false} CycleOnce(count: nat, target: nat, n: nat)
    requires count < target && n <= target
    ensures Cycle(count, target, n) == if count + n < target then count + n else count + n - target
    decreases n
  {
    if n > 0 {
      CycleOnce(if count + 1 == target then 0 else count + 1, target, n - 1);
    }
  }

  lemma {:induction false} CycleIsModulo(count: nat, target: nat, n: nat)
    requires count < target
    ensures Cycle(count, target, n) == (count + n) % target
    decreases n
  {
    if n == 0 {
      Quotient(count, target, 0, count);
    } else if count + 1 == target {
      CycleIsModulo(0, target, n - 1);
      var k, r := (n - 1) / target, (n - 1) % target;
      assert count + n == target * (k + 1) + r;
      Quotient(count + n, target, k + 1, r);
    } else {
      CycleIsModulo(count + 1, target, n - 1);
    }
  }

  /** An update at that time takes in the ideal ticks. */
  ghost predicate Cycled(c: Counter, s: nat, d: Counter, at: nat) {
    && Cyclic(c, s) && s <= at && Cyclic(d, LastTick(s, at, c.rate))
    && d.count == Cycle(c.count, c.target, Ticks(at - s, c.rate))
    && d.rate == c.rate && d.target == c.target && d.flags.overflowIrqs == c.flags.overflowIrqs
  }

  ghost predicate CycleTaken(c: Counter, cycle: u32, change: nat, d: Counter)
    requires c.rate > 0
  {
    && d.count == Cycle(c.count, c.target, Ticks(change, c.rate)) < c.target
    && d.sCycleT == Wrap(cycle - Rest(change, c.rate))
    && Active(d) && d.mode.zeroReturn && !d.future
    && d.rate == c.rate && d.target == c.target && d.flags.overflowIrqs == c.flags.overflowIrqs
  }

  lemma UpdateCycles(c: Counter, cycle: u32, change: nat)
    requires Active(c) && c.mode.zeroReturn && RateOk(c) && !c.future && c.count < c.target
    requires Wrap(cycle - c.sCycleT) == change < 0x8000_0000 && Ticks(change, c.rate) <= c.target
    ensures CycleTaken(c, cycle, change, Update(c, cycle)) && !Overflows(c, cycle)
  {
    var t := Tick(c, change, cycle);
    assert t.count == c.count + Ticks(change, c.rate);
    CycleOnce(c.count, c.target, Ticks(change, c.rate));
    ZeroReturnTests(t, c.target);
    assert Update(c, cycle) == TestOverflow(TestTarget(t));
  }

  lemma TakenCycles(c: Counter, s: nat, d: Counter, at: nat)
    requires Cyclic(c, s) && s <= at && RateOk(d) && CycleTaken(c, Wrap(at), at - s, d)
    ensures Cycled(c, s, d, at)
  {
    WrapMinus(at, Rest(at - s, c.rate));
  }

  lemma UpdateCyclic(c: Counter, s: nat, last: nat, at: nat)
    requires Cyclic(c, s) && s <= last < s + c.rate && last <= at <= last + c.target * c.rate
    ensures Cycled(c, s, Update(c, Wrap(at)), at) && !Overflows(c, Wrap(at))
  {
    PeriodFits(at - s, c.target, c.rate);
    WrapDiff(at, s);
    UpdateCycles(c, Wrap(at), at - s);
    TakenCycles(c, s, Update(c, Wrap(at)), at);
  }

  lemma PeriodFits(change: nat, target: u16, rate: u32)
    requires (rate == 2 || rate == 32 || rate == 512) && change < target * rate + rate
    ensures Ticks(change, rate) <= target && change < 0x8000_0000
  {
    TicksAtMost(change, target, rate);
    if rate == 2 {} else if rate == 32 {} else {}
  }

  lemma {:induction false} TicksAtMost(change: nat, n: nat, rate: nat)
    requires rate > 0 && change < n * rate + rate
    ensures Ticks(change, rate) <= n
  {
    if change >= rate {
      assert n > 0 && (n - 1) * rate == n * rate - rate;
      TicksAtMost(change - rate, n - 1, rate);
    }
  }

  lemma CycledOn(c: Counter, s: nat, d: Counter, at: nat, end: nat)
    requires Cycled(c, s, d, at) && at <= end
    ensures s <= LastTick(s, at, c.rate) <= at < LastTick(s, at, c.rate) + d.rate
    ensures Cycle(d.count, d.target, Ticks(end - LastTick(s, at, c.rate), d.rate)) == Cycle(c.count, c.target, Ticks(end - s, c.rate))
  {
    TicksChain(s, at, end, c.rate);
    CycleAdd(c.count, c.target, Ticks(at - s, c.rate), Ticks(end - LastTick(s, at, c.rate), c.rate));
  }

  function EndOf(times: seq<nat>, last: nat): nat { if times == [] then last else times[|times| - 1] }

  lemma {:induction false} FrequentEnds(times: seq<nat>, last: nat, period: nat)
    requires Frequent(times, last, period)
    ensures EndOf(times, last) >= last
    ensures times != [] ==> EndOf(times, last) == EndOf(times[1..], times[0])
    decreases |times|
  {
    if times != [] {
      FrequentEnds(times[1..], times[0], period);
    }
  }

  lemma FirstUpdate(c: Counter, s: nat, last: nat, times: seq<nat>, period: nat) returns (d: Counter)
    requires Cyclic(c, s) && s <= last < s + c.rate && period == c.target * c.rate
    requires times != [] && Frequent(times, last, period)
    ensures Cycled(c, s, d, times[0]) && AfterUpdates(c, times) == AfterUpdates(d, times[1..])
    ensures NeverOverflows(c, times) == NeverOverflows(d, times[1..])
  {
    d := Update(c, Wrap(times[0]));
    UpdateCyclic(c, s, last, times[0]);
  }

  lemma {:induction false} CyclicRun(c: Counter, s: nat, last: nat, times: seq<nat>, period: nat)
    requires Cyclic(c, s) && s <= last < s + c.rate && period == c.target * c.rate && Frequent(times, last, period)
    ensures EndOf(times, last) >= last
    ensures AfterUpdates(c, times).flags.overflowIrqs == c.flags.overflowIrqs && NeverOverflows(c, times)
    ensures AfterUpdates(c, times).count == Cycle(c.count, c.target, Ticks(EndOf(times, last) - s, c.rate))
    decreases |times|
  {
    FrequentEnds(times, last, period);
    if times != [] {
      var d := FirstUpdate(c, s, last, times, period);
      FrequentEnds(times[1..], times[0], period);
      CycledOn(c, s, d, times[0], EndOf(times, last));
      CyclicRun(d, LastTick(s, times[0], c.rate), times[0], times[1..], period);
    }
  }

  /** A zero-return timer counts modulo its target: after any updates at most target * rate cycles
      apart the count is the ideal number of ticks mod the target, and it never overflows. */
  lemma ZeroReturnIsModulo(c: Counter, start: nat, times: seq<nat>)
    requires Cyclic(c, start) && Frequent(times, start, c.target * c.rate)
    ensures var d := AfterUpdates(c, times);
            var end := EndOf(times, start);
            && end >= start && NeverOverflows(c, times) && d.flags.overflowIrqs == c.flags.overflowIrqs
            && d.count == Cycle(c.count, c.target, Ticks(end - start, c.rate))
  {
    CyclicRun(c, start, start, times, c.target * c.rate);
  }

  /** Between updates a read does not come back from the target: it is the ideal count exactly until the
      target is reached. */
  lemma ReadBetweenExactly(c: Counter, s: nat, t: nat)
    requires Cyclic(c, s) && s <= t < s + TWO32 && Ticks(t - s, c.rate) <= c.target
    ensures var n := Ticks(t - s, c.rate);
            Rcount(c, Wrap(t)) % 0x1_0000 == Cycle(c.count, c.target, n) <==> c.count + n < c.target
  {
    WrapDiff(t, s);
    CycleOnce(c.count, c.target, Ticks(t - s, c.rate));
    ReadTicks(c, Wrap(t), t - s);
    Unreduced(c.count, c.target, Ticks(t - s, c.rate));
  }

  lemma Unreduced(count: nat, target: u16, n: nat)
    requires count < target && n <= target
    ensures (count + n) % 0x1_0000 == (if count + n < target then count + n else count + n - target) <==> count + n < target
  {
  }
}
