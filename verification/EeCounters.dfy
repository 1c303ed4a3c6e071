/** The globals of Counters.cpp and the operations on them, in place. */
module EeCounters {
  import opened CounterState
  import opened CounterSchedule
  import opened CounterSync
  import opened CounterIrqs
  import opened CounterLazy
  import opened CounterTiming

  /** What a line event is for a timer. */
  function LineOps(h: SyncCounter, cycle: u32): seq<Op> {
    if !Due(h, cycle) then []
    else if h.mode % 2 == HBLANK then [GateStart(false, h.sCycle, cycle)]
    else [GateEnd(false, h.sCycle, cycle)]
  }

  /** What a frame event is for a timer. */
  function FrameOps(v: SyncCounter, cycle: u32): seq<Op> {
    if !Due(v, cycle) || v.mode == GSBLANK then []
    else if v.mode == VSYNC then [GateEnd(true, v.sCycle, cycle)]
    else [GateStart(true, v.sCycle, cycle)]
  }

  /** The start of a phase that is over, as a time that does not wrap. */
  lemma PhaseStart(s: SyncCounter, at: nat) returns (since: nat)
    requires Due(s, Wrap(at)) && s.cycleT >= 0 && Signed(Wrap(Wrap(at) - s.sCycle)) <= at
    ensures since + s.cycleT <= at && Wrap(since) == s.sCycle
  {
    var age := Signed(Wrap(Wrap(at) - s.sCycle));
    since := at - age;
    assert Wrap(Wrap(at) - s.sCycle) == age;
    WrapBack(at, s.sCycle, age);
  }

  lemma WrapBack(at: nat, from: u32, age: u32)
    requires age <= at && Wrap(Wrap(at) - from) == age
    ensures Wrap(at - age) == from
  {
  }

  /** The signal of a line event is one that CounterLazy is about: it restarts timers from the start of
      the phase that ends with it, at least the length of the phase before. */
  lemma LineSignals(h: SyncCounter, at: nat) returns (since: nat)
    requires Due(h, Wrap(at)) && h.cycleT >= 0 && Signed(Wrap(Wrap(at) - h.sCycle)) <= at
    ensures since + h.cycleT <= at
    ensures LineOps(h, Wrap(at)) == [OpOf(Signal(at, h.mode % 2 == HBLANK, false, since))]
  {
    since := PhaseStart(h, at);
  }

  /** So is that of a frame event. */
  lemma FrameSignals(v: SyncCounter, at: nat) returns (since: nat)
    requires Due(v, Wrap(at)) && v.cycleT >= 0 && Signed(Wrap(Wrap(at) - v.sCycle)) <= at && v.mode != GSBLANK
    ensures since + v.cycleT <= at
    ensures FrameOps(v, Wrap(at)) == [OpOf(Signal(at, v.mode != VSYNC, true, since))]
  {
    since := PhaseStart(v, at);
  }

  /** The gates hear of a blank when the interrupts do: a frame event signals the start of the vertical blank
      exactly when it raises VBLANK_S, its end exactly when it raises VBLANK_E; a line event the start of the
      horizontal blank after every odd phase and the end after every even one. */
  lemma SignalsMatchEvents(s: Syncs, start: u32, info: VSyncInfo, cycle: u32)
    requires Locked(s, start, info)
    ensures var t := VSync(s, info, cycle);
            && (t.vblankStarts == s.vblankStarts + 1 <==> FrameOps(s.v, cycle) == [GateStart(true, s.v.sCycle, cycle)])
            && (t.vblankEnds == s.vblankEnds + 1 <==> FrameOps(s.v, cycle) == [GateEnd(true, s.v.sCycle, cycle)])
            && (t.vblankStarts == s.vblankStarts && t.vblankEnds == s.vblankEnds <==> FrameOps(s.v, cycle) == [])
    ensures var t := HScanline(s, info, cycle);
            && (t.hEvents == s.hEvents + 1 && s.hEvents % 2 == 1 <==> LineOps(s.h, cycle) == [GateStart(false, s.h.sCycle, cycle)])
            && (t.hEvents == s.hEvents + 1 && s.hEvents % 2 == 0 <==> LineOps(s.h, cycle) == [GateEnd(false, s.h.sCycle, cycle)])
            && (t.hEvents == s.hEvents <==> LineOps(s.h, cycle) == [])
  {
  }

  function LineTimer(c: Counter, h: SyncCounter, cycle: u32): (d: Counter)
    requires RateOk(c)
    ensures RateOk(d)
  {
    if !Due(h, cycle) then c
    else if h.mode % 2 == HBLANK then StartGate(c, false, h.sCycle, cycle)
    else EndGate(c, false, h.sCycle, cycle)
  }

  function FrameTimer(c: Counter, v: SyncCounter, cycle: u32): (d: Counter)
    requires RateOk(c)
    ensures RateOk(d)
  {
    if !Due(v, cycle) || v.mode == GSBLANK then c
    else if v.mode == VSYNC then EndGate(c, true, v.sCycle, cycle)
    else StartGate(c, true, v.sCycle, cycle)
  }

  lemma LineOpsDo(c: Counter, h: SyncCounter, cycle: u32)
    requires RateOk(c)
    ensures DoAll(c, LineOps(h, cycle)) == LineTimer(c, h, cycle)
    ensures Accounts(c.flags, LineTimer(c, h, cycle).flags, 0, 0)
  {
    SignalsAccount(c, LineOps(h, cycle));
    if Due(h, cycle) {
      DoOne(c, LineOps(h, cycle)[0]);
    }
  }

  lemma FrameOpsDo(c: Counter, v: SyncCounter, cycle: u32)
    requires RateOk(c)
    ensures DoAll(c, FrameOps(v, cycle)) == FrameTimer(c, v, cycle)
    ensures DoAll(c, FrameOps(v, cycle) + [Sync(cycle)]) == Update(FrameTimer(c, v, cycle), cycle)
    ensures Accounts(c.flags, Update(FrameTimer(c, v, cycle), cycle).flags, 0, 0)
  {
    SignalsAccount(c, FrameOps(v, cycle) + [Sync(cycle)]);
    if Due(v, cycle) && v.mode != GSBLANK {
      DoOne(c, FrameOps(v, cycle)[0]);
    }
    AfterFrame(c, FrameOps(v, cycle), cycle);
  }

  /** A timer as rcntInit leaves it. */
  function Unset(start: u32): Counter {
    Counter(0, Mode(0, false, false, 0, false, false, false, false), Flags(false, 0, false, 0), 0xffff, false, 0, 2, start, false)
  }

  /** The first event of all, `n` cycles after `cycle`, as far as no timer postpones its own. */
  ghost predicate ScheduledFor(cs: seq<Counter>, hsync: SyncCounter, vsync: SyncCounter, cycle: u32, n: s32) {
    n >= 0 &&
    (TimersOk(cs, cycle) && SyncOk(hsync, cycle) && SyncOk(vsync, cycle) && (forall c :: c in cs ==> c.count < FUTURE) ==>
      && (NextEventAt(cs, hsync, vsync, cycle, n) <==> !Postponed(cs, |cs|, cycle))
      && (Postponed(cs, |cs|, cycle) ==> n <= 4))
  }

  lemma ScheduleHolds(cs: seq<Counter>, hsync: SyncCounter, vsync: SyncCounter, cycle: u32)
    ensures ScheduledFor(cs, hsync, vsync, cycle, CpuRcntSet(cs, hsync, vsync, cycle))
  {
    if TimersOk(cs, cycle) && SyncOk(hsync, cycle) && SyncOk(vsync, cycle) && (forall c :: c in cs ==> c.count < FUTURE) {
      ScheduleIsExact(cs, hsync, vsync, cycle);
    }
  }

  /** nextCounter, `since` cycles after the last update, once one timer has changed: if the timer is not
      late it is not raised, and has come exactly when it had before or the timer fires. */
  ghost predicate Rescheduled(c: Counter, cycle: u32, since: u32, before: s32, after: s32)
    requires RateOk(c)
  {
    && (Late(c) ==> after == 4)
    && (!Late(c) && AgeOk(c, cycle) && since < 0x7e00_0000 ==>
         && after <= before
         && forall n: nat :: n == 0 || since + n <= after ==> (after <= since + n <==> before <= since + n || Fires(c, cycle, n)))
  }

  lemma RescheduleHolds(c: Counter, cycle: u32, nexts: u32, before: s32)
    requires RateOk(c)
    ensures Rescheduled(c, cycle, Wrap(cycle - nexts), before, RcntSet(c, cycle, nexts, before))
  {
    var since, after := Wrap(cycle - nexts), RcntSet(c, cycle, nexts, before);
    if !Late(c) && AgeOk(c, cycle) && since < 0x7e00_0000 {
      RcntSetDue(c, cycle, nexts, before, 0);
      forall n: nat | n == 0 || since + n <= after
        ensures after <= since + n <==> before <= since + n || Fires(c, cycle, n)
      {
        RcntSetDue(c, cycle, nexts, before, n);
      }
    }
  }

  lemma AfterFrame(c: Counter, ops: seq<Op>, cycle: u32)
    requires RateOk(c)
    ensures DoAll(c, ops + [Sync(cycle)]) == Update(DoAll(c, ops), cycle)
  {
    DoMore(c, ops, [Sync(cycle)]);
    DoOne(DoAll(c, ops), Sync(cycle));
  }

  /** Without a mode write nothing is acknowledged. */
  lemma {:induction false} SignalsAccount(c: Counter, ops: seq<Op>)
    requires RateOk(c) && forall op :: op in ops ==> !op.WriteMode?
    ensures Accounts(c.flags, DoAll(c, ops).flags, 0, 0)
    decreases |ops|
  {
    if ops != [] {
      assert !ops[0].WriteMode?;
      StepAccounts(c, ops[0]);
      SignalsAccount(Do(c, ops[0]), ops[1..]);
    }
  }

  /** Nothing that is read, raised or scheduled tells the two timers apart. */
  ghost predicate Undisturbed(c: Counter, d: Counter, cycle: u32)
    requires RateOk(c) && RateOk(d)
  {
    && Rcount(d, cycle) == Rcount(c, cycle) && d.flags == c.flags && Late(d) == Late(c)
    && forall n: nat :: Fires(d, cycle, n) <==> Fires(c, cycle, n)
  }

  lemma HoldDisturbsNothing(c: Counter, value: u32, cycle: u32)
    requires RateOk(c)
    ensures Undisturbed(c, Whold(c, value), cycle)
  {
  }

  class EeCounters {
    const counters: array<Counter>
    const info: VSyncInfo
    var hsync: SyncCounter
    var vsync: SyncCounter
    /** cpuRegs.cycle. */
    var cycle: u32
    var nextsCounter: u32
    var nextCounter: s32
    /** Interrupts raised by the vertical sync. */
    var vblankStarts: nat
    var vblankEnds: nat
    /** Where the cycle clock was at rcntInit, and what has happened since: sync events, calls for them,
        and the operations on each timer. */
    ghost const start: u32
    ghost const first: Counter
    ghost var hEvents: nat
    ghost var vEvents: nat
    ghost var polls: seq<Poll>
    ghost var log: seq<seq<Op>>

    ghost predicate Sound()
      reads this, counters
    {
      counters.Length == 4 && forall i :: 0 <= i < 4 ==> RateOk(counters[i])
    }

    ghost function SyncState(): Syncs
      reads this
    {
      Syncs(hsync, vsync, hEvents, vEvents, vblankStarts, vblankEnds)
    }

    /** Each timer is what the operations on it make of a new one, and the syncs are what the calls do. */
    ghost predicate Valid()
      reads this, counters
    {
      && Sound() && RateOk(first) && first.flags == Flags(false, 0, false, 0)
      && SyncState() == PollAll(Initial(start, info), info, polls)
      && |log| == 4 && forall i :: 0 <= i < 4 ==> counters[i] == DoAll(first, log[i])
    }

    /** rcntInit, with the timing that UpdateVSyncRate sets. */
    constructor (start: u32, timing: VSyncInfo)
      ensures Valid() && fresh(counters) && cycle == nextsCounter == this.start == start && info == timing
      ensures SyncState() == Initial(start, timing) && log == [[], [], [], []] && polls == [] && first == Unset(start)
      ensures ScheduledFor(counters[..], hsync, vsync, cycle, nextCounter)
      ensures forall i :: 0 <= i < 4 ==>
                && !counters[i].mode.isCounting && !counters[i].gated && counters[i].count == 0
                && counters[i].RawTarget() == 0xffff && counters[i].rate == 2
    {
      counters := new Counter[4](_ => Unset(start));
      hsync := SyncCounter(HRENDER, start, Signed(timing.hRender));
      vsync := SyncCounter(VRENDER, start, Signed(timing.render));
      info, cycle, nextsCounter, nextCounter := timing, start, start, 0;
      vblankStarts, vblankEnds, hEvents, vEvents := 0, 0, 0, 0;
      this.start, first, polls, log := start, Unset(start), [], [[], [], [], []];
      new;
      assert forall i :: 0 <= i < 4 ==> counters[i] == first && log[i] == [];
      CpuRcntSetAll();
    }

    /** Over the whole life of a timer its interrupts are its acknowledgements, and at most one more. */
    lemma InterruptsAcknowledged(i: nat)
      requires Valid() && i < 4
      ensures counters[i].flags.targetIrqs <= TargetAcks(first, log[i]) + 1
      ensures counters[i].flags.overflowIrqs <= OverflowAcks(first, log[i]) + 1
      ensures counters[i].flags.targetIrqs == TargetAcks(first, log[i]) + Flag(counters[i].flags.targetReached)
      ensures counters[i].flags.overflowIrqs == OverflowAcks(first, log[i]) + Flag(counters[i].flags.overflowReached)
    {
      IrqsMatchAcks(first, log[i]);
    }

    /** The syncs are locked to the clock. */
    lemma SyncsLocked()
      requires Valid()
      ensures Locked(SyncState(), start, info)
    {
      assert Reached(SyncState(), start, info);
      ReachedLocked(SyncState(), start, info);
    }

    /** They have advanced by whole lines and half-frames. */
    lemma SyncsInPhase(m: nat, k: nat)
      requires Valid() && hEvents == 2 * m && vEvents == 3 * k
      ensures hsync.sCycle == Wrap(start + m * (info.hRender + info.hBlank) + k * info.hSyncError)
      ensures vsync.sCycle == Wrap(start + k * (info.render + info.blank))
      ensures vblankStarts == k && vblankEnds == k
    {
      SyncsLocked();
      PhaseAt(SyncState(), start, info, m, k);
      PhaseExact(SyncState(), start, info, m, k);
    }

    /** One more operation on timer i. */
    ghost method Record(i: nat, op: Op)
      requires Sound() && RateOk(first) && first.flags == Flags(false, 0, false, 0) && i < 4
      requires SyncState() == PollAll(Initial(start, info), info, polls) && |log| == 4
      requires forall j :: 0 <= j < 4 && j != i ==> counters[j] == DoAll(first, log[j])
      requires counters[i] == Do(DoAll(first, log[i]), op)
      modifies this`log
      ensures Valid() && log == old(log)[i := old(log)[i] + [op]]
    {
      DoMore(first, log[i], [op]);
      DoOne(DoAll(first, log[i]), op);
      log := log[i := log[i] + [op]];
    }

    /** More operations on all timers. */
    ghost method RecordAll(ops: seq<Op>)
      requires Sound() && RateOk(first) && first.flags == Flags(false, 0, false, 0)
      requires SyncState() == PollAll(Initial(start, info), info, polls) && |log| == 4
      requires forall j :: 0 <= j < 4 ==> counters[j] == DoAll(DoAll(first, log[j]), ops)
      modifies this`log
      ensures Valid() && forall j :: 0 <= j < 4 ==> log[j] == old(log)[j] + ops
    {
      ghost var was := log;
      forall j | 0 <= j < 4 ensures counters[j] == DoAll(first, was[j] + ops) {
        DoMore(first, was[j], ops);
      }
      log := seq(4, j requires 0 <= j < 4 => was[j] + ops);
    }

    // -------------------------------------------------------------- tests

    /** _cpuTestTarget. */
    method TestTargetOf(i: nat)
      requires Sound() && i < 4
      modifies counters
      ensures Sound() && counters[..] == old(counters[..])[i := TestTarget(old(counters[i]))]
      ensures Accounts(old(counters[i]).flags, counters[i].flags, 0, 0)
      ensures var c := old(counters[i]);
              c.count < (if c.mode.zeroReturn then 2 * c.RawTarget() else FUTURE) ==> counters[i].count < counters[i].RawTarget()
    {
      TargetSettles(counters[i]);
      if counters[i].count < counters[i].RawTarget() {
        return;
      }
      if counters[i].mode.targetInterrupt {
        if !counters[i].flags.targetReached {
          counters[i] := counters[i].(flags := counters[i].flags.(targetReached := true, targetIrqs := counters[i].flags.targetIrqs + 1));
        }
      }
      if counters[i].mode.zeroReturn {
        counters[i] := counters[i].(count := counters[i].count - counters[i].RawTarget());
      } else {
        counters[i] := counters[i].(future := true);
      }
    }

    /** _cpuTestOverflow. */
    method TestOverflowOf(i: nat)
      requires Sound() && i < 4
      modifies counters
      ensures Sound() && counters[..] == old(counters[..])[i := TestOverflow(old(counters[i]))]
      ensures Accounts(old(counters[i]).flags, counters[i].flags, 0, 0)
      ensures counters[i].count % 0x1_0000 == old(counters[i]).count % 0x1_0000
      ensures old(counters[i]).count < 0x2_0000 ==> counters[i].count <= 0xffff
    {
      OverflowSettles(counters[i]);
      if counters[i].count <= 0xffff {
        return;
      }
      if counters[i].mode.overflowInterrupt {
        if !counters[i].flags.overflowReached {
          counters[i] := counters[i].(flags := counters[i].flags.(overflowReached := true, overflowIrqs := counters[i].flags.overflowIrqs + 1));
        }
      }
      counters[i] := counters[i].(count := counters[i].count - 0x1_0000, future := false);
    }

    // -------------------------------------------------------------- reads

    /** rcntRcount. */
    method RcntRcount(i: nat) returns (r: u32)
      requires Sound() && i < 4
      ensures r == Rcount(counters[i], cycle)
    {
      if counters[i].mode.isCounting && counters[i].mode.clockSource != 3 {
        TicksDivide(Wrap(cycle - counters[i].sCycleT), counters[i].rate);
        r := Wrap(counters[i].count + Wrap(cycle - counters[i].sCycleT) / counters[i].rate);
      } else {
        r := counters[i].count;
      }
    }

    // -------------------------------------------------------------- scheduling

    /** _rcntSet. */
    method RcntSetOf(i: nat)
      requires Sound() && i < 4
      modifies this`nextCounter
      ensures nextCounter == RcntSet(counters[i], cycle, nextsCounter, old(nextCounter))
      ensures Rescheduled(counters[i], cycle, Wrap(cycle - nextsCounter), old(nextCounter), nextCounter)
    {
      RescheduleHolds(counters[i], cycle, nextsCounter, nextCounter);
      var counter := counters[i];
      if !counter.mode.isCounting || counter.mode.clockSource == 3 {
        return;
      }
      if counter.count > 0x1_0000 || counter.count > counter.RawTarget() {
        nextCounter := 4;
        return;
      }
      var c := Signed(Wrap((0x1_0000 - counter.count) * counter.rate - Wrap(cycle - counter.sCycleT) + Wrap(cycle - nextsCounter)));
      if c < nextCounter {
        nextCounter := c;
      }
      if counter.future {
        return;
      }
      c := Signed(Wrap((counter.target - counter.count) * counter.rate - Wrap(cycle - counter.sCycleT) + Wrap(cycle - nextsCounter)));
      if c < nextCounter {
        nextCounter := c;
      }
    }

    /** cpuRcntSet. */
    method CpuRcntSetAll()
      requires Sound()
      modifies this`nextsCounter, this`nextCounter
      ensures nextsCounter == cycle
      ensures nextCounter == CpuRcntSet(counters[..], hsync, vsync, cycle)
      ensures ScheduledFor(counters[..], hsync, vsync, cycle, nextCounter)
    {
      ScheduleHolds(counters[..], hsync, vsync, cycle);
      nextsCounter := cycle;
      nextCounter := Signed(Wrap(vsync.cycleT - Wrap(cycle - vsync.sCycle)));
      var nextHsync := Signed(Wrap(hsync.cycleT - Wrap(cycle - hsync.sCycle)));
      if nextHsync < nextCounter {
        nextCounter := nextHsync;
      }
      var i := 0;
      while i < 4
        invariant i <= 4 && nextsCounter == cycle
        invariant nextCounter == RcntSetUpTo(counters[..], i, cycle, SyncsSet(hsync, vsync, cycle))
      {
        RcntSetOf(i);
        i := i + 1;
      }
      if nextCounter < 0 {
        nextCounter := 0;
      }
    }

    // -------------------------------------------------------------- gates

    /** rcntStartGate. */
    method RcntStartGate(isVblank: bool, sCycle: u32)
      requires Sound()
      modifies counters
      ensures Sound()
      ensures forall i :: 0 <= i < 4 ==> counters[i] == StartGate(old(counters[i]), isVblank, sCycle, cycle)
    {
      var i := 0;
      while i < 4
        invariant i <= 4 && Sound()
        invariant forall j :: 0 <= j < i ==> counters[j] == StartGate(old(counters[j]), isVblank, sCycle, cycle)
        invariant forall j :: i <= j < 4 ==> counters[j] == old(counters[j])
      {
        StartGateOf(i, isVblank, sCycle);
        i := i + 1;
      }
    }

    /** The body of that loop. */
    method StartGateOf(i: nat, isVblank: bool, sCycle: u32)
      requires Sound() && i < 4
      modifies counters
      ensures Sound() && counters[..] == old(counters[..])[i := StartGate(old(counters[i]), isVblank, sCycle, cycle)]
    {
      if !isVblank && counters[i].mode.isCounting && counters[i].mode.clockSource == 3 {
        counters[i] := counters[i].(count := Wrap(counters[i].count + 1));
        TestTargetOf(i);
        TestOverflowOf(i);
      }
      assert counters[..] == old(counters[..])[i := HblankTick(old(counters[i]), isVblank)];
      if !counters[i].gated || counters[i].mode.gateSource != isVblank {
        return;
      }
      match counters[i].mode.gateMode {
        case 0 =>
          var r := RcntRcount(i);
          counters[i] := counters[i].(count := r, mode := counters[i].mode.(isCounting := false), sCycleT := sCycle);
        case 2 =>
        case _ =>
          counters[i] := counters[i].(mode := counters[i].mode.(isCounting := true), count := 0, future := false, sCycleT := sCycle);
      }
    }

    /** rcntEndGate. */
    method RcntEndGate(isVblank: bool, sCycle: u32)
      requires Sound()
      modifies counters
      ensures Sound()
      ensures forall i :: 0 <= i < 4 ==> counters[i] == EndGate(old(counters[i]), isVblank, sCycle, cycle)
    {
      var i := 0;
      while i < 4
        invariant i <= 4 && Sound()
        invariant forall j :: 0 <= j < i ==> counters[j] == EndGate(old(counters[j]), isVblank, sCycle, cycle)
        invariant forall j :: i <= j < 4 ==> counters[j] == old(counters[j])
      {
        if counters[i].gated && counters[i].mode.gateSource == isVblank {
          match counters[i].mode.gateMode {
            case 0 =>
              counters[i] := counters[i].(mode := counters[i].mode.(isCounting := true), sCycleT := cycle);
            case 1 =>
            case _ =>
              counters[i] := counters[i].(mode := counters[i].mode.(isCounting := true), count := 0, future := false, sCycleT := sCycle);
          }
        }
        i := i + 1;
      }
    }

    /** The global `gates` is not zero. */
    predicate AnyGated()
      reads counters
      requires counters.Length == 4
    {
      counters[0].gated || counters[1].gated || counters[2].gated || counters[3].gated
    }

    // -------------------------------------------------------------- the syncs

    /** rcntUpdate_hScanline. */
    method RcntUpdateHScanline() returns (ghost ops: seq<Op>)
      requires Valid()
      modifies this`hsync, this`hEvents, this`polls, this`log, counters
      ensures Valid() && polls == old(polls) + [PollH(cycle)] && SyncState() == HScanline(old(SyncState()), info, cycle)
      ensures Locked(SyncState(), start, info)
      ensures ops == LineOps(old(hsync), cycle) && forall i :: 0 <= i < 4 ==> log[i] == old(log)[i] + ops
      ensures forall i :: 0 <= i < 4 ==> Accounts(old(counters[i]).flags, counters[i].flags, 0, 0)
    {
      PollMore(Initial(start, info), info, polls, PollH(cycle));
      ops := LineEvent();
      polls := polls + [PollH(cycle)];
      RecordAll(ops);
      SyncsLocked();
    }

    method LineEvent() returns (ghost ops: seq<Op>)
      requires Sound()
      modifies this`hsync, this`hEvents, counters
      ensures Sound() && SyncState() == HScanline(old(SyncState()), info, cycle)
      ensures ops == LineOps(old(hsync), cycle)
      ensures forall i :: 0 <= i < 4 ==> counters[i] == DoAll(old(counters[i]), ops)
      ensures forall i :: 0 <= i < 4 ==> Accounts(old(counters[i]).flags, counters[i].flags, 0, 0)
    {
      ops := LineOps(hsync, cycle);
      ghost var h, cs := hsync, counters[..];
      LinePhase();
      forall i | 0 <= i < 4
        ensures counters[i] == DoAll(cs[i], ops) && Accounts(cs[i].flags, counters[i].flags, 0, 0)
      {
        LineOpsDo(cs[i], h, cycle);
      }
    }

    method LinePhase()
      requires Sound()
      modifies this`hsync, this`hEvents, counters
      ensures Sound() && SyncState() == HScanline(old(SyncState()), info, cycle)
      ensures forall i :: 0 <= i < 4 ==> counters[i] == LineTimer(old(counters[i]), old(hsync), cycle)
    {
      if Signed(Wrap(cycle - hsync.sCycle)) < hsync.cycleT {
        return;
      }
      hEvents := hEvents + 1;
      if hsync.mode % 2 == HBLANK {
        RcntStartGate(false, hsync.sCycle);
        hsync := SyncCounter(HRENDER, Wrap(hsync.sCycle + info.hBlank), Signed(info.hRender));
      } else {
        if AnyGated() {
          RcntEndGate(false, hsync.sCycle);
        }
        hsync := SyncCounter(HBLANK, Wrap(hsync.sCycle + info.hRender), Signed(info.hBlank));
      }
    }

    /** VSyncStart, but for the host. */
    method VSyncStart(sCycle: u32)
      requires Sound()
      modifies this`vblankStarts, counters
      ensures Sound() && vblankStarts == old(vblankStarts) + 1
      ensures forall i :: 0 <= i < 4 ==> counters[i] == StartGate(old(counters[i]), true, sCycle, cycle)
    {
      vblankStarts := vblankStarts + 1;
      if AnyGated() {
        RcntStartGate(true, sCycle);
      }
    }

    /** VSyncEnd, likewise. */
    method VSyncEnd(sCycle: u32)
      requires Sound()
      modifies this`vblankEnds, counters
      ensures Sound() && vblankEnds == old(vblankEnds) + 1
      ensures forall i :: 0 <= i < 4 ==> counters[i] == EndGate(old(counters[i]), true, sCycle, cycle)
    {
      vblankEnds := vblankEnds + 1;
      if AnyGated() {
        RcntEndGate(true, sCycle);
      }
    }

    /** rcntUpdate_vSync. */
    method RcntUpdateVSync()
      requires Sound()
      modifies this`hsync, this`vsync, this`vEvents, this`vblankStarts, this`vblankEnds, counters
      ensures Sound()
      ensures SyncState() == VSync(old(SyncState()), info, cycle)
      ensures forall i :: 0 <= i < 4 ==> counters[i] == FrameTimer(old(counters[i]), old(vsync), cycle)
    {
      var diff := Signed(Wrap(cycle - vsync.sCycle));
      if diff < vsync.cycleT {
        return;
      }
      vEvents := vEvents + 1;
      if vsync.mode == VSYNC {
        VSyncEnd(vsync.sCycle);
        vsync := SyncCounter(VRENDER, Wrap(vsync.sCycle + info.blank), Signed(info.render));
      } else if vsync.mode == GSBLANK {
        vsync := vsync.(mode := VSYNC, cycleT := Signed(info.blank));
      } else {
        VSyncStart(vsync.sCycle);
        vsync := SyncCounter(GSBLANK, Wrap(vsync.sCycle + info.render), Signed(info.gsBlank));
        hsync := hsync.(sCycle := Wrap(hsync.sCycle + info.hSyncError));
      }
    }

    // -------------------------------------------------------------- updates

    /** rcntUpdate. */
    method RcntUpdate() returns (ghost ops: seq<Op>)
      requires Valid()
      modifies this`hsync, this`vsync, this`vEvents, this`vblankStarts, this`vblankEnds
      modifies this`nextsCounter, this`nextCounter, this`polls, this`log, counters
      ensures Valid() && polls == old(polls) + [PollV(cycle)] && SyncState() == VSync(old(SyncState()), info, cycle)
      ensures Locked(SyncState(), start, info)
      ensures ops == FrameOps(old(vsync), cycle) + [Sync(cycle)]
      ensures forall i :: 0 <= i < 4 ==> log[i] == old(log)[i] + ops
      ensures forall i :: 0 <= i < 4 ==> Accounts(old(counters[i]).flags, counters[i].flags, 0, 0)
      ensures nextsCounter == cycle && TimersOk(counters[..], cycle)
      ensures ScheduledFor(counters[..], hsync, vsync, cycle, nextCounter)
    {
      ops := Advance();
      SyncsLocked();
      CpuRcntSetAll();
    }

    /** rcntUpdate, up to the schedule, and its record. */
    method Advance() returns (ghost ops: seq<Op>)
      requires Valid()
      modifies this`hsync, this`vsync, this`vEvents, this`vblankStarts, this`vblankEnds, this`polls, this`log, counters
      ensures Valid() && polls == old(polls) + [PollV(cycle)]
      ensures SyncState() == VSync(old(SyncState()), info, cycle) && TimersOk(counters[..], cycle)
      ensures ops == FrameOps(old(vsync), cycle) + [Sync(cycle)]
      ensures forall i :: 0 <= i < 4 ==> log[i] == old(log)[i] + ops
      ensures forall i :: 0 <= i < 4 ==> Accounts(old(counters[i]).flags, counters[i].flags, 0, 0)
    {
      PollMore(Initial(start, info), info, polls, PollV(cycle));
      ops := FrameAndTimers();
      polls := polls + [PollV(cycle)];
      RecordAll(ops);
    }

    method FrameAndTimers() returns (ghost ops: seq<Op>)
      requires Sound()
      modifies this`hsync, this`vsync, this`vEvents, this`vblankStarts, this`vblankEnds, counters
      ensures Sound() && TimersOk(counters[..], cycle) && SyncState() == VSync(old(SyncState()), info, cycle)
      ensures ops == FrameOps(old(vsync), cycle) + [Sync(cycle)]
      ensures forall i :: 0 <= i < 4 ==> counters[i] == DoAll(old(counters[i]), ops)
      ensures forall i :: 0 <= i < 4 ==> Accounts(old(counters[i]).flags, counters[i].flags, 0, 0)
    {
      ops := FrameOps(vsync, cycle) + [Sync(cycle)];
      ghost var v, cs := vsync, counters[..];
      RcntUpdateVSync();
      UpdateTimers();
      forall i | 0 <= i < 4
        ensures counters[i] == DoAll(cs[i], ops) && Accounts(cs[i].flags, counters[i].flags, 0, 0)
      {
        FrameOpsDo(cs[i], v, cycle);
      }
    }

    /** The loop of rcntUpdate. */
    method UpdateTimers()
      requires Sound()
      modifies counters
      ensures Sound() && TimersOk(counters[..], cycle)
      ensures forall i :: 0 <= i < 4 ==> counters[i] == Update(old(counters[i]), cycle)
    {
      forall i | 0 <= i < 4 ensures AgeOk(Update(counters[i], cycle), cycle) {
        UpdatedAge(counters[i], cycle);
      }
      var i := 0;
      while i < 4
        invariant i <= 4 && Sound()
        invariant forall j :: 0 <= j < i ==> counters[j] == Update(old(counters[j]), cycle)
        invariant forall j :: i <= j < 4 ==> counters[j] == old(counters[j])
      {
        UpdateOf(i);
        i := i + 1;
      }
    }

    /** The body of that loop. */
    method UpdateOf(i: nat)
      requires Sound() && i < 4
      modifies counters
      ensures Sound() && counters[..] == old(counters[..])[i := Update(old(counters[i]), cycle)]
    {
      if !counters[i].mode.isCounting {
        return;
      }
      if counters[i].mode.clockSource != 3 {
        var change: int := Signed(Wrap(cycle - counters[i].sCycleT));
        if change < 0 {
          change := 0;
        }
        TakeIn(i, change);
        TestTargetOf(i);
        TestOverflowOf(i);
      } else {
        counters[i] := counters[i].(sCycleT := cycle);
      }
    }

    /** The whole ticks of `change` cycles are counted, the rest stays in sCycleT. */
    method TakeIn(i: nat, change: nat)
      requires Sound() && i < 4 && counters[i].rate > 0
      modifies counters
      ensures Sound() && counters[..] == old(counters[..])[i := Tick(old(counters[i]), change, cycle)]
    {
      var rate := counters[i].rate;
      TicksDivide(change, rate);
      counters[i] := counters[i].(count := Wrap(counters[i].count + change / rate), sCycleT := Wrap(cycle - change % rate));
    }

    // -------------------------------------------------------------- register writes

    /** Elapsed ticks counted before a register write. */
    method CatchUpOf(i: nat)
      requires Sound() && i < 4
      modifies counters
      ensures Sound() && counters[..] == old(counters[..])[i := CatchUp(old(counters[i]), cycle)]
    {
      if counters[i].mode.isCounting {
        if counters[i].mode.clockSource != 3 {
          var change := Wrap(cycle - counters[i].sCycleT);
          TakeIn(i, change);
        }
      }
    }

    /** What a register write on timer i may change, and what it does to the schedule. */
    twostate predicate Written(i: nat, op: Op)
      requires i < 4 && Sound()
      reads this, counters
    {
      && Valid() && |old(log)| == 4 && log == old(log)[i := old(log)[i] + [op]]
      && (forall j :: 0 <= j < 4 && j != i ==> counters[j] == old(counters[j]))
      && Rescheduled(counters[i], cycle, Wrap(cycle - nextsCounter), old(nextCounter), nextCounter)
    }

    /** rcntWmode. */
    method RcntWmode(i: nat, value: u32)
      requires Valid() && i < 4
      modifies counters, this`log, this`nextCounter
      ensures Sound() && Written(i, WriteMode(value, cycle, Wrap(info.hBlank + info.hRender)))
      ensures var op := WriteMode(value, cycle, Wrap(info.hBlank + info.hRender));
              Accounts(old(counters[i]).flags, counters[i].flags, TargetAck(old(counters[i]), op), OverflowAck(old(counters[i]), op))
      ensures ReadsBack(counters[i].mode, counters[i].gated, value)
      ensures RateFor(counters[i].rate, value, Wrap(info.hBlank + info.hRender))
      ensures counters[i].gated <==> value / 4 % 2 == 1 && (value / 8 % 2 == 1 || value % 4 != 3)
      ensures counters[i].count == if counters[i].gated then 0 else Rcount(old(counters[i]), cycle)
      ensures counters[i].flags.targetReached <==> old(counters[i]).flags.targetReached && value / 0x400 % 2 == 0
      ensures counters[i].flags.overflowReached <==> old(counters[i]).flags.overflowReached && value / 0x800 % 2 == 0
    {
      ModeReadsBack(counters[i], value, cycle, Wrap(info.hBlank + info.hRender));
      ghost var op := WriteMode(value, cycle, Wrap(info.hBlank + info.hRender));
      StepAccounts(counters[i], op);
      WriteModeOf(i, value);
      Record(i, op);
      RcntSetOf(i);
    }

    method WriteModeOf(i: nat, value: u32)
      requires Sound() && i < 4
      modifies counters
      ensures Sound()
      ensures counters[..] == old(counters[..])[i := Wmode(old(counters[i]), value, cycle, Wrap(info.hBlank + info.hRender))]
    {
      if counters[i].mode.isCounting {
        CatchUpOf(i);
      } else {
        counters[i] := counters[i].(sCycleT := cycle);
      }
      counters[i] := counters[i].(flags := Acknowledge(counters[i].flags, value), mode := ModeOf(value));
      match counters[i].mode.clockSource {
        case 0 => counters[i] := counters[i].(rate := 2);
        case 1 => counters[i] := counters[i].(rate := 32);
        case 2 => counters[i] := counters[i].(rate := 512);
        case _ => counters[i] := counters[i].(rate := Wrap(info.hBlank + info.hRender));
      }
      SetGateOf(i);
    }

    /** _rcntSetGate: a gated timer stands at zero, an ungated one reads as before. */
    method SetGateOf(i: nat)
      requires Sound() && i < 4
      modifies counters
      ensures Sound() && counters[..] == old(counters[..])[i := SetGate(old(counters[i]), cycle)]
      ensures Rcount(counters[i], cycle) == if counters[i].gated then 0 else Rcount(old(counters[i]), cycle)
    {
      GatedStandsStill(counters[i], cycle, cycle);
      if counters[i].mode.enableGate {
        if !(!counters[i].mode.gateSource && counters[i].mode.clockSource == 3) {
          counters[i] := counters[i].(gated := true, mode := counters[i].mode.(isCounting := false), count := 0, sCycleT := cycle);
          return;
        }
      }
      counters[i] := counters[i].(gated := false);
    }

    /** rcntWcount. */
    method RcntWcount(i: nat, value: u32)
      requires Valid() && i < 4
      modifies counters, this`log, this`nextCounter
      ensures Sound() && Written(i, WriteCount(value, cycle))
      ensures counters[i].count == value % 0x1_0000 && counters[i].flags == old(counters[i]).flags
      ensures counters[i].future <==> counters[i].count > counters[i].target
      ensures var c := old(counters[i]);
              Rcount(counters[i], cycle) == value % 0x1_0000 <==>
              !(c.mode.isCounting && c.mode.clockSource != 3) || Wrap(cycle - c.sCycleT) < 0x8000_0000
    {
      CountReadsBackExactly(counters[i], value, cycle);
      WriteCountOf(i, value);
      Record(i, WriteCount(value, cycle));
      RcntSetOf(i);
    }

    method WriteCountOf(i: nat, value: u32)
      requires Sound() && i < 4
      modifies counters
      ensures Sound() && counters[..] == old(counters[..])[i := Wcount(old(counters[i]), value, cycle)]
    {
      counters[i] := counters[i].(count := value % 0x1_0000, future := false);
      if counters[i].count > counters[i].target {
        counters[i] := counters[i].(future := true);
      }
      if counters[i].mode.isCounting {
        if counters[i].mode.clockSource != 3 {
          var change := Signed(Wrap(cycle - counters[i].sCycleT));
          if change > 0 {
            TicksDivide(change, counters[i].rate);
            counters[i] := counters[i].(sCycleT := Wrap(cycle - change % counters[i].rate));
          }
        }
      } else {
        counters[i] := counters[i].(sCycleT := cycle);
      }
    }

    /** rcntWtarget. */
    method RcntWtarget(i: nat, value: u32)
      requires Valid() && i < 4
      modifies counters, this`log, this`nextCounter
      ensures Sound() && Written(i, WriteTarget(value, cycle))
      ensures counters[i].target == value % 0x1_0000 && Rcount(counters[i], cycle) == Rcount(old(counters[i]), cycle)
      ensures counters[i].future <==> value % 0x1_0000 <= Rcount(old(counters[i]), cycle)
    {
      LateTargetMarked(counters[i], value, cycle);
      WriteTargetOf(i, value);
      Record(i, WriteTarget(value, cycle));
      RcntSetOf(i);
    }

    method WriteTargetOf(i: nat, value: u32)
      requires Sound() && i < 4
      modifies counters
      ensures Sound() && counters[..] == old(counters[..])[i := Wtarget(old(counters[i]), value, cycle)]
    {
      counters[i] := counters[i].(target := value % 0x1_0000, future := false);
      CatchUpOf(i);
      var count := RcntRcount(i);
      if counters[i].target <= count {
        counters[i] := counters[i].(future := true);
      }
    }

    /** rcntWhold: nothing is rescheduled, and nothing read or raised changes. */
    method RcntWhold(i: nat, value: u32)
      requires Valid() && i < 4
      modifies counters, this`log
      ensures Valid() && log == old(log)[i := old(log)[i] + [WriteHold(value)]]
      ensures counters[i].hold == value && Undisturbed(old(counters[i]), counters[i], cycle)
      ensures forall j :: 0 <= j < 4 && j != i ==> counters[j] == old(counters[j])
    {
      HoldDisturbsNothing(counters[i], value, cycle);
      counters[i] := counters[i].(hold := value);
      Record(i, WriteHold(value));
    }
  }
}
