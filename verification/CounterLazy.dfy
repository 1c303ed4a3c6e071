/** Lazy counting in Counters.cpp: over any run of updates, gate signals and register writes, what is read
    from a timer is what an ideal counter shows that ticks one by one. */
module CounterLazy {
  import opened CounterState
  import opened CounterTiming
  import opened CounterIrqs

  /** What happens to a timer between reads, at times that do not wrap.  A signal is the start (raised)
      or the end of a blank, noticed at `at`; `since` is when the phase that ends there began, as the
      code takes the start cycle of a sync before it moves it on. */
  datatype Event =
    | Updated(at: nat)
    | CountSet(at: nat, value: u32)
    | TargetSet(at: nat, value: u32)
    | HoldSet(at: nat, value: u32)
    | Signal(at: nat, raised: bool, isVblank: bool, since: nat)

  function OpOf(e: Event): Op {
    match e
    case Updated(at) => Sync(Wrap(at))
    case CountSet(at, value) => WriteCount(value, Wrap(at))
    case TargetSet(at, value) => WriteTarget(value, Wrap(at))
    case HoldSet(_, value) => WriteHold(value)
    case Signal(at, true, isVblank, since) => GateStart(isVblank, Wrap(since), Wrap(at))
    case Signal(at, false, isVblank, since) => GateEnd(isVblank, Wrap(since), Wrap(at))
  }

  function AfterEvents(c: Counter, events: seq<Event>): (d: Counter)
    requires RateOk(c)
    ensures RateOk(d)
    decreases |events|
  {
    if events == [] then c else AfterEvents(Do(c, OpOf(events[0])), events[1..])
  }

  // ---------------------------------------------------------------- the ideal counter

  /** It is a signal of the blank that gates the timer: bit 3 of the mode is set for the vertical one. */
  predicate Heard(c: Counter, e: Event) { e.Signal? && c.gated && (if e.isVblank then c.mode.gateSource else !c.mode.gateSource) }

  /** It has `count` at time `since`, and from there ticks if it is running. */
  datatype Ideal = Ideal(count: nat, running: bool, since: nat) {
    function At(t: nat, rate: nat): nat
      requires rate > 0
    {
      if running && since <= t then count + Ticks(t - since, rate) else count
    }
  }

  /** What a signal of its gate does to it: mode 0 counts between the end of a blank and the start of
      the next, mode 1 restarts at the start, mode 2 at the end, mode 3 at both.  A restart counts from
      the beginning of the phase that ends there. */
  function Signalled(i: Ideal, mode: nat, rate: nat, at: nat, raised: bool, since: nat): Ideal
    requires rate > 0
  {
    if mode == 0 then if raised then Ideal(i.At(at, rate), false, at) else Ideal(i.count, true, at)
    else if mode == (if raised then 2 else 1) then i
    else Ideal(0, true, since)
  }

  /** The clock, mode and gate of c stay as they are; updates and targets do not matter. */
  function IdealAfter(c: Counter, i: Ideal, e: Event): Ideal
    requires c.rate > 0
  {
    if e.CountSet? then
      Ideal(Low16(e.value), i.running, if i.running && i.since <= e.at then LastTick(i.since, e.at, c.rate) else i.since)
    else if Heard(c, e) then Signalled(i, c.mode.gateMode, c.rate, e.at, e.raised, e.since)
    else i
  }

  function IdealRun(c: Counter, i: Ideal, events: seq<Event>): Ideal
    requires c.rate > 0
    decreases |events|
  {
    if events == [] then i else IdealRun(c, IdealAfter(c, i, events[0]), events[1..])
  }

  // ---------------------------------------------------------------- timing

  /** When the cycles up to `at` have been accounted for, if they were up to `last`. */
  function Accounted(c: Counter, e: Event, last: nat): nat {
    if e.Updated? || e.CountSet? || e.TargetSet? then e.at
    else if Heard(c, e) && c.mode.gateMode != (if e.raised then 2 else 1) then
      if c.mode.gateMode == 0 then e.at else e.since
    else last
  }

  /** Events are in order; while the timer runs, no gap between those that take in its cycles reaches
      2^31 cycles less one tick; and the blanks that a counter of mode 0 counts between take turns. */
  ghost predicate Timely(c: Counter, i: Ideal, events: seq<Event>, last: nat, now: nat, end: nat)
    requires c.rate > 0
    decreases |events|
  {
    if events == [] then now <= end && (i.running ==> end < last + 0x8000_0000 - c.rate)
    else
      var e := events[0];
      && now <= e.at && (i.running ==> e.at < last + 0x8000_0000 - c.rate)
      && (e.Signal? ==> e.since <= e.at)
      && (Heard(c, e) && !e.raised && c.mode.gateMode == 0 ==> !i.running)
      && Timely(c, IdealAfter(c, i, e), events[1..], Accounted(c, e, last), e.at, end)
  }

  // ---------------------------------------------------------------- the simulation

  /** Counts cycles while it counts, is not cleared by its target, and has the setting of c. */
  predicate Like(d: Counter, c: Counter) {
    && RateOk(d) && d.mode.clockSource < 3 && !d.mode.zeroReturn && d.rate == c.rate && d.gated == c.gated
    && d.mode.(isCounting := true) == c.mode.(isCounting := true)
  }

  /** The timer d has taken in the ticks of the ideal counter up to s, one of its ticks. */
  ghost predicate Tracks(d: Counter, c: Counter, i: Ideal, s: nat, last: nat) {
    && Like(d, c) && d.mode.isCounting == i.running
    && (if i.running then
          && i.since <= s <= last < s + d.rate && d.sCycleT == Wrap(s) && Rest(s - i.since, d.rate) == 0
          && d.count % 0x1_0000 == (i.count + Ticks(s - i.since, d.rate)) % 0x1_0000
        else d.count % 0x1_0000 == i.count % 0x1_0000)
  }

  /** From a tick s on, ticks are those from the start on. */
  lemma OnTick(since: nat, s: nat, at: nat, rate: nat)
    requires rate > 0 && since <= s <= at && Rest(s - since, rate) == 0
    ensures Ticks(at - since, rate) == Ticks(s - since, rate) + Ticks(at - s, rate)
    ensures Rest(at - since, rate) == Rest(at - s, rate)
  {
    WholeAndRest(s - since, rate);
    WholeTicks(Ticks(s - since, rate), at - s, rate);
  }

  lemma ToLastTick(since: nat, at: nat, rate: nat)
    requires rate > 0 && since <= at
    ensures var s := LastTick(since, at, rate);
            since <= s <= at < s + rate && Ticks(s - since, rate) == Ticks(at - since, rate) && Rest(s - since, rate) == 0
  {
    WholeAndRest(at - since, rate);
    WholeTicks(Ticks(at - since, rate), 0, rate);
  }

  lemma SameLastTick(since: nat, s: nat, at: nat, rate: nat)
    requires rate > 0 && since <= s <= at && Rest(s - since, rate) == 0
    ensures var t := LastTick(s, at, rate);
            t == LastTick(since, at, rate) && since <= s <= t <= at < t + rate && Rest(t - since, rate) == 0
    ensures Ticks(LastTick(s, at, rate) - since, rate) == Ticks(s - since, rate) + Ticks(at - s, rate)
  {
    TicksChain(s, at, at, rate);
    OnTick(since, s, at, rate);
    ToLastTick(since, at, rate);
  }

  lemma ElapsedAt(d: Counter, s: nat, at: nat)
    requires d.rate > 0 && d.sCycleT == Wrap(s) && s <= at < s + TWO32
    ensures Wrap(Wrap(at) - d.sCycleT) == at - s
    ensures Wrap(Wrap(at) - Rest(at - s, d.rate)) == Wrap(LastTick(s, at, d.rate))
  {
    WrapDiff(at, s);
    WrapMinus(at, Rest(at - s, d.rate));
  }

  /** A read shows the ideal count. */
  lemma ReadTracks(d: Counter, c: Counter, i: Ideal, s: nat, last: nat, at: nat)
    requires Tracks(d, c, i, s, last) && (i.running ==> s <= at < s + TWO32)
    ensures Rcount(d, Wrap(at)) % 0x1_0000 == i.At(at, c.rate) % 0x1_0000
  {
    if i.running {
      WrapDiff(at, s);
      ReadTicks(d, Wrap(at), at - s);
      OnTick(i.since, s, at, d.rate);
      Chain16(i.count, d.count, Ticks(s - i.since, d.rate), Ticks(at - s, d.rate));
    }
  }

  /** Taking in the cycles since s keeps track. */
  lemma TakenTracks(d: Counter, c: Counter, i: Ideal, s: nat, last: nat, at: nat, t: Counter)
    requires Tracks(d, c, i, s, last) && i.running && s <= at < s + TWO32
    requires TakenIn(d, at - s, Wrap(at), t)
    ensures Tracks(t, c, i, LastTick(s, at, c.rate), at)
  {
    ElapsedAt(d, s, at);
    SameLastTick(i.since, s, at, d.rate);
    Chain16(i.count, d.count, Ticks(s - i.since, d.rate), Ticks(at - s, d.rate));
  }

  lemma UpdatedTracks(d: Counter, c: Counter, i: Ideal, s: nat, last: nat, at: nat)
    requires Tracks(d, c, i, s, last) && (i.running ==> s <= at < s + 0x8000_0000)
    ensures Tracks(Update(d, Wrap(at)), c, i, if i.running then LastTick(s, at, c.rate) else s, at)
  {
    if i.running {
      ElapsedAt(d, s, at);
      UpdateTakes(d, Wrap(at), at - s);
      TakenTracks(d, c, i, s, last, at, Update(d, Wrap(at)));
    }
  }

  lemma TargetTracks(d: Counter, c: Counter, i: Ideal, s: nat, last: nat, at: nat, value: u32)
    requires Tracks(d, c, i, s, last) && (i.running ==> s <= at < s + 0x8000_0000)
    ensures Tracks(Wtarget(d, value, Wrap(at)), c, i, if i.running then LastTick(s, at, c.rate) else s, at)
  {
    if i.running {
      ElapsedAt(d, s, at);
      WtargetTakes(d, value, Wrap(at), at - s);
      TakenTracks(d, c, i, s, last, at, Wtarget(d, value, Wrap(at)));
    }
  }

  /** A count write keeps the phase of the ticks. */
  lemma WcountAligns(d: Counter, value: u32, cycle: u32, change: nat)
    requires FreeRunning(d) && Wrap(cycle - d.sCycleT) == change < 0x8000_0000
    ensures var t := Wcount(d, value, cycle);
            t.count == Low16(value) && t.sCycleT == Wrap(cycle - Rest(change, d.rate))
            && t.rate == d.rate && t.gated == d.gated && t.mode == d.mode
  {
  }

  lemma CountTracks(d: Counter, c: Counter, i: Ideal, s: nat, last: nat, at: nat, value: u32)
    requires Tracks(d, c, i, s, last) && (i.running ==> s <= at < s + 0x8000_0000)
    ensures i.running ==> i.since <= at
    ensures Tracks(Wcount(d, value, Wrap(at)), c,
                   Ideal(Low16(value), i.running, if i.running then LastTick(i.since, at, c.rate) else i.since),
                   if i.running then LastTick(s, at, c.rate) else s, at)
  {
    if i.running {
      ElapsedAt(d, s, at);
      WcountAligns(d, value, Wrap(at), at - s);
      SameLastTick(i.since, s, at, d.rate);
    }
  }

  lemma StopTracks(d: Counter, c: Counter, i: Ideal, s: nat, last: nat, at: nat, isVblank: bool, sCycle: u32)
    requires Tracks(d, c, i, s, last) && (i.running ==> s <= at < s + 0x8000_0000)
    requires Gates(c, isVblank) && c.mode.gateMode == 0
    ensures Tracks(StartGate(d, isVblank, sCycle, Wrap(at)), c, Ideal(i.At(at, c.rate), false, at), at, at)
  {
    ReadTracks(d, c, i, s, last, at);
  }

  lemma StartTracks(d: Counter, c: Counter, i: Ideal, s: nat, last: nat, at: nat, isVblank: bool, sCycle: u32)
    requires Tracks(d, c, i, s, last) && !i.running && Gates(c, isVblank) && c.mode.gateMode == 0
    ensures Tracks(EndGate(d, isVblank, sCycle, Wrap(at)), c, Ideal(i.count, true, at), at, at)
  {
  }

  lemma RestartTracks(d: Counter, c: Counter, i: Ideal, s: nat, last: nat, since: nat)
    requires Tracks(d, c, i, s, last)
    ensures Tracks(Restart(d, Wrap(since)), c, Ideal(0, true, since), since, since)
  {
  }

  /** The tick that the timer has reached after an event, if it was at s. */
  function TickReached(c: Counter, i: Ideal, e: Event, s: nat): nat
    requires c.rate > 0
  {
    if e.Signal? then Accounted(c, e, s)
    else if i.running && !e.HoldSet? && s <= e.at then LastTick(s, e.at, c.rate)
    else s
  }

  lemma SignalTracks(d: Counter, c: Counter, i: Ideal, s: nat, last: nat, e: Event)
    requires Tracks(d, c, i, s, last) && e.Signal? && e.since <= e.at && (i.running ==> s <= e.at < s + 0x8000_0000)
    requires Heard(c, e) && c.mode.gateMode == 0 && !e.raised ==> !i.running
    ensures Tracks(Do(d, OpOf(e)), c, IdealAfter(c, i, e), TickReached(c, i, e, s), Accounted(c, e, last))
  {
    var mode, at, isVblank, sCycle := c.mode.gateMode, e.at, e.isVblank, Wrap(e.since);
    if e.raised {
      assert HblankTick(d, isVblank) == d;
      if Gates(c, isVblank) && mode == 0 {
        StopTracks(d, c, i, s, last, at, isVblank, sCycle);
      } else if Gates(c, isVblank) && mode != 2 {
        RestartTracks(d, c, i, s, last, e.since);
      }
    } else if Gates(c, isVblank) && mode == 0 {
      StartTracks(d, c, i, s, last, at, isVblank, sCycle);
    } else if Gates(c, isVblank) && mode != 1 {
      RestartTracks(d, c, i, s, last, e.since);
    }
  }

  lemma StepTracks(d: Counter, c: Counter, i: Ideal, s: nat, last: nat, e: Event)
    requires Tracks(d, c, i, s, last) && (i.running ==> s <= e.at < s + 0x8000_0000) && (e.Signal? ==> e.since <= e.at)
    requires Heard(c, e) && !e.raised && c.mode.gateMode == 0 ==> !i.running
    ensures Tracks(Do(d, OpOf(e)), c, IdealAfter(c, i, e), TickReached(c, i, e, s), Accounted(c, e, last))
  {
    match e
    case Updated(at) => UpdatedTracks(d, c, i, s, last, at);
    case CountSet(at, value) => CountTracks(d, c, i, s, last, at, value);
    case TargetSet(at, value) => TargetTracks(d, c, i, s, last, at, value);
    case HoldSet(_, _) =>
    case Signal(_, _, _, _) => SignalTracks(d, c, i, s, last, e);
  }

  lemma {:induction false} RunTracks(d: Counter, c: Counter, i: Ideal, s: nat, last: nat, now: nat, events: seq<Event>, end: nat)
    requires Tracks(d, c, i, s, last) && (i.running ==> last <= now) && Timely(c, i, events, last, now, end)
    ensures Rcount(AfterEvents(d, events), Wrap(end)) % 0x1_0000 == IdealRun(c, i, events).At(end, c.rate) % 0x1_0000
    decreases |events|
  {
    if events == [] {
      ReadTracks(d, c, i, s, last, end);
    } else {
      var e := events[0];
      StepTracks(d, c, i, s, last, e);
      RunTracks(Do(d, OpOf(e)), c, IdealAfter(c, i, e), TickReached(c, i, e, s), Accounted(c, e, last), e.at, events[1..], end);
    }
  }

  /** Lazy counting is schedule independent: whenever the timer is updated, and whatever counts and targets
      are written and gate signals come meanwhile, a read shows the count of an ideal counter, in the
      sixteen bits that rcntRead32 returns, also when the 32-bit cycle clock wraps. */
  lemma LazyIsIdeal(c: Counter, i: Ideal, start: nat, events: seq<Event>, end: nat)
    requires RateOk(c) && c.mode.clockSource < 3 && !c.mode.zeroReturn && c.sCycleT == Wrap(start)
    requires i == Ideal(c.count, c.mode.isCounting, start) && Timely(c, i, events, start, start, end)
    ensures Rcount(AfterEvents(c, events), Wrap(end)) % 0x1_0000 == IdealRun(c, i, events).At(end, c.rate) % 0x1_0000
  {
    RunTracks(c, c, i, start, start, start, events, end);
  }

  /** Neither updates nor target and hold writes, nor signals that do not gate the timer, matter. */
  predicate Passive(c: Counter, e: Event) {
    !e.CountSet? && !Heard(c, e)
  }

  lemma {:induction false} PassiveRun(c: Counter, i: Ideal, events: seq<Event>)
    requires c.rate > 0 && forall e :: e in events ==> Passive(c, e)
    ensures IdealRun(c, i, events) == i
    decreases |events|
  {
    if events != [] {
      assert Passive(c, events[0]);
      PassiveRun(c, i, events[1..]);
    }
  }

  lemma {:induction false} PassiveEnds(c: Counter, i: Ideal, events: seq<Event>, last: nat, now: nat, end: nat)
    requires c.rate > 0 && Timely(c, i, events, last, now, end)
    ensures now <= end
    decreases |events|
  {
    if events != [] {
      PassiveEnds(c, IdealAfter(c, i, events[0]), events[1..], Accounted(c, events[0], last), events[0].at, end);
    }
  }

  /** So an ungated timer's count, read after any updates, is its initial count and one for every tick
      elapsed. */
  lemma UngatedCountsTicks(c: Counter, i: Ideal, events: seq<Event>, end: nat)
    requires FreeRunning(c) && i == Ideal(c.count, true, i.since) && c.sCycleT == Wrap(i.since)
    requires (forall e :: e in events ==> Passive(c, e)) && Timely(c, i, events, i.since, i.since, end)
    ensures end >= i.since
    ensures Rcount(AfterEvents(c, events), Wrap(end)) % 0x1_0000 == (c.count + Ticks(end - i.since, c.rate)) % 0x1_0000
  {
    assert IdealRun(c, i, events) == i by { PassiveRun(c, i, events); }
    assert end >= i.since by { PassiveEnds(c, i, events, i.since, i.since, end); }
    LazyIsIdeal(c, i, i.since, events, end);
  }

  // ---------------------------------------------------------------- counting hblanks

  predicate IsHblank(op: Op) { op.GateStart? && !op.isVblank }

  function Hblanks(ops: seq<Op>): nat {
    if ops == [] then 0 else (if IsHblank(ops[0]) then 1 else 0) + Hblanks(ops[1..])
  }

  /** Counts hblanks, ungated, and is not cleared by its target. */
  predicate HblankCounter(c: Counter) {
    c.mode.isCounting && c.mode.clockSource == 3 && !c.gated && !c.mode.zeroReturn
  }

  lemma HblankStep(c: Counter, op: Op)
    requires HblankCounter(c) && !op.WriteMode? && !op.WriteCount?
    ensures HblankCounter(Do(c, op))
    ensures Do(c, op).count % 0x1_0000 == (c.count + if IsHblank(op) then 1 else 0) % 0x1_0000
  {
    if IsHblank(op) {
      CountWraps(c.count, 1);
    }
  }

  lemma FirstHblank(c: Counter, ops: seq<Op>) returns (d: Counter)
    requires HblankCounter(c) && ops != [] && !ops[0].WriteMode? && !ops[0].WriteCount?
    ensures HblankCounter(d) && DoAll(c, ops) == DoAll(d, ops[1..])
    ensures d.count % 0x1_0000 == (c.count + if IsHblank(ops[0]) then 1 else 0) % 0x1_0000
  {
    d := Do(c, ops[0]);
    HblankStep(c, ops[0]);
  }

  /** A timer clocked by hblanks counts them, whatever updates, other signals and target writes come
      between; a read shows the count. */
  lemma {:induction false} HblanksCounted(c: Counter, ops: seq<Op>)
    requires HblankCounter(c) && forall op :: op in ops ==> !op.WriteMode? && !op.WriteCount?
    ensures HblankCounter(DoAll(c, ops))
    ensures DoAll(c, ops).count % 0x1_0000 == (c.count + Hblanks(ops)) % 0x1_0000
    ensures forall cycle: u32 :: Rcount(DoAll(c, ops), cycle) == DoAll(c, ops).count
    decreases |ops|
  {
    if ops != [] {
      var d := FirstHblank(c, ops);
      HblanksCounted(d, ops[1..]);
      Chain16(c.count, d.count, if IsHblank(ops[0]) then 1 else 0, Hblanks(ops[1..]));
    }
  }
}
