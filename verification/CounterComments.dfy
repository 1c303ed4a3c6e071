/** Where Counters.cpp does not do what the comments of Counters.h say, and exactly when. */
module CounterComments {
  import opened CounterState
  import opened CounterSchedule
  import opened CounterSync
  import opened CounterIrqs
  import opened EeCounters

  // ---------------------------------------------------------------- zero return

  /** The comment: the count returns to zero at the target only if the target's interrupt is enabled. */
  function CommentedCount(c: Counter): u32
    requires c.count >= c.RawTarget()
  {
    if c.mode.zeroReturn && c.mode.targetInterrupt then c.count - c.RawTarget() else c.count
  }

  /** A timer that reaches its target counts on as the comment says exactly when it does not return to
      zero without the interrupt, or its target is zero. */
  lemma ZeroReturnCommentExactly(c: Counter)
    requires c.count >= c.RawTarget()
    ensures TestTarget(c).count == CommentedCount(c) <==>
            (c.mode.zeroReturn ==> c.mode.targetInterrupt) || c.RawTarget() == 0
  {
  }

  lemma ReturnsWithoutInterrupt(c: Counter)
    requires c.count == c.target == 5 && !c.future && c.mode.zeroReturn && !c.mode.targetInterrupt
    ensures TestTarget(c).count == 0 && CommentedCount(c) == 5
  {
  }

  // ---------------------------------------------------------------- gate modes

  /** The timer stands still at that value. */
  ghost predicate StandsAt(d: Counter, value: u32)
    requires RateOk(d)
  {
    !d.mode.isCounting && forall t: u32 :: Rcount(d, t) == value
  }

  /** n cycles on it reads that value and one for every tick. */
  predicate ReadsOn(d: Counter, value: u32, cycle: u32, n: nat)
    requires RateOk(d) && d.rate > 0
  {
    Rcount(d, Wrap(cycle + n)) == Wrap(value + Ticks(n, d.rate))
  }

  /** It counts on from that value at `cycle`. */
  ghost predicate GoesOn(d: Counter, value: u32, cycle: u32)
    requires RateOk(d)
  {
    && d.mode.isCounting
    && (if d.mode.clockSource == 3 then d.count == value else forall n: nat :: n < TWO32 ==> ReadsOn(d, value, cycle, n))
  }

  /** Which edges the comments let a mode restart a timer on: 1 at the end of a blank, 2 at its start, 3 at
      both.  When it starts to count from is another matter, below. */
  predicate CommentRestarts(mode: nat, atStart: bool) {
    mode == 3 || mode == (if atStart then 2 else 1)
  }

  /** The timer before and after a signal: mode 0 counts while the signal is low, the others restart on
      their edges and are left alone on the other. */
  ghost predicate AsCommented(c: Counter, d: Counter, atStart: bool, sCycle: u32, cycle: u32)
    requires RateOk(c) && RateOk(d)
  {
    if c.mode.gateMode == 0 then
      if atStart then StandsAt(d, Rcount(c, cycle)) else GoesOn(d, c.count, cycle)
    else d == if CommentRestarts(c.mode.gateMode, atStart) then Restart(c, sCycle) else c
  }

  /** The two halves of a signal on one timer. */
  ghost predicate BothAsCommented(c: Counter, isVblank: bool, sCycle: u32, cycle: u32)
    requires RateOk(c)
  {
    && AsCommented(c, RaiseGate(c, isVblank, sCycle, cycle), true, sCycle, cycle)
    && AsCommented(c, EndGate(c, isVblank, sCycle, cycle), false, sCycle, cycle)
  }

  /** What the code does: mode 1 restarts at the start of a blank and not at its end, mode 2 at the end
      and not at the start. */
  lemma RestartEdges(c: Counter, isVblank: bool, sCycle: u32, cycle: u32)
    requires RateOk(c) && Gates(c, isVblank)
    ensures c.mode.gateMode == 1 ==>
              RaiseGate(c, isVblank, sCycle, cycle) == Restart(c, sCycle) && EndGate(c, isVblank, sCycle, cycle) == c
    ensures c.mode.gateMode == 2 ==>
              RaiseGate(c, isVblank, sCycle, cycle) == c && EndGate(c, isVblank, sCycle, cycle) == Restart(c, sCycle)
  {
  }

  lemma Later(cycle: u32, n: nat)
    requires n < TWO32
    ensures Wrap(Wrap(cycle + n) - cycle) == n
  {
  }

  lemma StartedGoesOn(d: Counter, cycle: u32)
    requires RateOk(d) && d.mode.isCounting && d.sCycleT == cycle
    ensures GoesOn(d, d.count, cycle)
  {
    if d.mode.clockSource != 3 {
      forall n: nat | n < TWO32 ensures ReadsOn(d, d.count, cycle, n) {
        Later(cycle, n);
      }
    }
  }

  /** Mode 0 stops a timer at what it reads when the blank starts, and lets it go on from there when the
      blank ends. */
  lemma CountsWhileLow(c: Counter, isVblank: bool, sCycle: u32, cycle: u32)
    requires RateOk(c) && Gates(c, isVblank) && c.mode.gateMode == 0
    ensures StandsAt(RaiseGate(c, isVblank, sCycle, cycle), Rcount(c, cycle))
    ensures GoesOn(EndGate(c, isVblank, sCycle, cycle), c.count, cycle)
  {
    StartedGoesOn(EndGate(c, isVblank, sCycle, cycle), cycle);
  }

  /** A timer of gate mode 1 or 2, which the signal restarts on the wrong edge. */
  function Misgated(mode: nat): Counter {
    Counter(5, Mode(0, true, true, mode, false, true, false, false), Flags(false, 0, false, 0), 0xffff, false, 0, 2, 0, true)
  }

  /** Which edges restart a timer, or stop it and let it go on, is as the comments say for every gated
      timer of a mode exactly for the modes 0 and 3. */
  lemma GateEdgesExactly(mode: nat)
    requires mode < 4
    ensures (forall c: Counter, isVblank: bool, sCycle: u32, cycle: u32 ::
               RateOk(c) && Gates(c, isVblank) && c.mode.gateMode == mode ==> BothAsCommented(c, isVblank, sCycle, cycle)) <==>
            mode == 0 || mode == 3
  {
    if mode == 0 {
      forall c: Counter, isVblank: bool, sCycle: u32, cycle: u32 |
        RateOk(c) && Gates(c, isVblank) && c.mode.gateMode == 0
        ensures BothAsCommented(c, isVblank, sCycle, cycle)
      {
        CountsWhileLow(c, isVblank, sCycle, cycle);
      }
    } else if mode < 3 {
      RestartEdges(Misgated(mode), true, 0, 0);
      assert !BothAsCommented(Misgated(mode), true, 0, 0);
    }
  }

  // ---------------------------------------------------------------- where a restarted timer starts

  lemma {:induction false} NoTickYet(elapsed: nat, rate: nat)
    requires rate > 0
    ensures Ticks(elapsed, rate) == 0 <==> elapsed < rate
    ensures Ticks(elapsed, rate) <= elapsed
  {
    if elapsed >= rate {
      NoTickYet(elapsed - rate, rate);
    }
  }

  /** The comments say "reset": a timer restarted with a start cycle reads zero at the signal exactly when
      less than one tick has passed since that cycle. */
  lemma RestartReadsZeroExactly(c: Counter, sCycle: u32, cycle: u32)
    requires RateOk(c) && c.mode.clockSource < 3
    ensures Rcount(Restart(c, sCycle), cycle) == 0 <==> Wrap(cycle - sCycle) < c.rate
    ensures Rcount(Restart(c, sCycle), cycle) == Ticks(Wrap(cycle - sCycle), c.rate)
  {
    NoTickYet(Wrap(cycle - sCycle), c.rate);
  }

  /** The start cycle that a sync passes is that of the phase just over, so at every signal of a phase
      that lasts a tick or longer the restarted timer has counted the whole phase already. */
  lemma RestartCountsPhase(c: Counter, s: SyncCounter, cycle: u32)
    requires RateOk(c) && c.mode.clockSource < 3 && Due(s, cycle) && s.cycleT >= c.rate
    ensures Rcount(Restart(c, s.sCycle), cycle) >= Ticks(s.cycleT, c.rate) > 0
  {
    var age := Wrap(cycle - s.sCycle);
    assert age >= s.cycleT;
    RestartReadsZeroExactly(c, s.sCycle, cycle);
    TicksGrow(s.cycleT, age - s.cycleT, c.rate);
    NoTickYet(s.cycleT, c.rate);
  }

  lemma {:induction false} TicksGrow(x: nat, y: nat, rate: nat)
    requires rate > 0
    ensures Ticks(x + y, rate) >= Ticks(x, rate)
    decreases x
  {
    if x >= rate {
      TicksGrow(x - rate, y, rate);
    }
  }

  /** A timer of gate mode 3 and rate 2 on the vertical blank, restarted at the end of 4000 cycles of
      rendering, the moment it is due: it reads 2000. */
  lemma RestartedReads2000(c: Counter, v: SyncCounter)
    requires v == SyncCounter(VRENDER, 0, 4000)
    requires RateOk(c) && c.mode.clockSource == 0 && c.mode.gateMode == 3 && Gates(c, true)
    ensures Due(v, 4000) && FrameOps(v, 4000) == [GateStart(true, 0, 4000)]
    ensures Rcount(FrameTimer(c, v, 4000), 4000) == 2000
  {
    RestartReadsZeroExactly(c, 0, 4000);
    HalfTicks(4000);
  }

  lemma HalfTicks(x: nat)
    ensures Ticks(x, 2) == x / 2
  {
    TicksDivide(x, 2);
  }
}
