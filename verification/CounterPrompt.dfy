/** The timers and the scheduler of Counters.cpp together: while rcntUpdate comes no later than a fixed lag
    after nextCounter, the timers stay within the bounds that counting and scheduling need, and no event
    goes unnoticed for longer than that. */
module CounterPrompt {
  import opened CounterState
  import opened CounterTiming
  import opened CounterIrqs
  import opened CounterSchedule

  /** The timers, the cycle clock, the cycles since the last rcntUpdate, and nextCounter. */
  datatype Ee = Ee(timers: seq<Counter>, cycle: u32, since: nat, next: s32)

  /** Cycles pass; rcntUpdate updates all timers and reschedules, with the syncs that many cycles off; a
      blank signals all timers; a register of one is written. */
  datatype Step =
    | Pass(cycles: nat)
    | UpdateAll(syncs: s32)
    | SignalAll(raised: bool, isVblank: bool, sCycle: u32)
    | Write(i: nat, op: Op)

  function All(timers: seq<Counter>, op: Op): (r: seq<Counter>)
    requires forall c :: c in timers ==> RateOk(c)
    ensures |r| == |timers| && forall i :: 0 <= i < |r| ==> r[i] == Do(timers[i], op)
  {
    seq(|timers|, i requires 0 <= i < |timers| => Do(timers[i], op))
  }

  function Signal(s: Step, cycle: u32): Op
    requires s.SignalAll?
  {
    if s.raised then GateStart(s.isVblank, s.sCycle, cycle) else GateEnd(s.isVblank, s.sCycle, cycle)
  }

  function NotNegative(n: s32): s32 { if n < 0 then 0 else n }

  /** nextCounter after a register write. */
  function AfterWrite(d: Counter, op: Op, e: Ee): s32 {
    if op.WriteHold? then e.next else RcntSet(d, e.cycle, Wrap(e.cycle - e.since), e.next)
  }

  function Take(e: Ee, s: Step): Ee
    requires forall c :: c in e.timers ==> RateOk(c)
    requires s.Write? ==> s.i < |e.timers|
  {
    match s
    case Pass(g) => e.(cycle := Wrap(e.cycle + g), since := e.since + g)
    case UpdateAll(syncs) =>
      var timers := All(e.timers, Sync(e.cycle));
      Ee(timers, e.cycle, 0, NotNegative(RcntSetUpTo(timers, |timers|, e.cycle, syncs)))
    case SignalAll(_, _, _) => e.(timers := All(e.timers, Signal(s, e.cycle)))
    case Write(i, op) =>
      var d := Do(e.timers[i], op);
      e.(timers := e.timers[i := d], next := AfterWrite(d, op, e))
  }

  // ---------------------------------------------------------------- the discipline

  /** When rcntUpdate must have come, from the last one. */
  function Deadline(e: Ee, lag: nat): nat { (if e.next < 4 then 4 else e.next) + lag }

  /** The cycles left until then. */
  function Slack(e: Ee, lag: nat): nat { if e.since > Deadline(e, lag) then 0 else Deadline(e, lag) - e.since }

  predicate IsRegisterWrite(op: Op, cycle: u32) {
    match op
    case WriteMode(_, at, _) => at == cycle
    case WriteCount(_, at) => at == cycle
    case WriteTarget(_, at) => at == cycle
    case WriteHold(_) => true
    case _ => false
  }

  /** rcntUpdate comes within the lag of nextCounter, and a sync is never 2^31 cycles off.  Modes are
      written without gating the timer; while its count is not beyond sixteen bits, that is not in the
      moment between an overflow and its update; and hblanks are not exchanged for cycles in one write. */
  predicate Disciplined(e: Ee, s: Step, lag: nat)
    requires forall c :: c in e.timers ==> RateOk(c)
  {
    match s
    case Pass(g) => g == 0 || e.since + g <= Deadline(e, lag)
    case UpdateAll(syncs) => syncs <= 0x7d00_0000
    case SignalAll(_, _, _) => true
    case Write(i, op) =>
      && i < |e.timers| && IsRegisterWrite(op, e.cycle)
      && (op.WriteMode? ==>
           && !Do(e.timers[i], op).gated && Rcount(e.timers[i], e.cycle) <= 0xffff
           && (CountsHblanks(e.timers[i]) ==> !Active(Do(e.timers[i], op))))
  }

  // ---------------------------------------------------------------- one timer

  /** Even at the deadline an ungated timer that counts cycles has overflowed at most once. */
  predicate Within(c: Counter, cycle: u32, slack: nat) {
    && RateOk(c) && !c.gated
    && (if Active(c) then c.count + Ticks(Wrap(cycle - c.sCycleT) + slack, c.rate) <= 0x1_ffff else c.count <= 0xffff)
  }

  lemma {:induction false} TicksSplit(x: nat, y: nat, rate: nat)
    requires rate >= 2
    ensures Ticks(x, rate) <= Ticks(x + y, rate) <= Ticks(x, rate) + y / 2 + 1
    decreases x
  {
    if x >= rate {
      TicksSplit(x - rate, y, rate);
    } else {
      FewTicks(x + y, rate);
      assert (x + y) - rate < y;
    }
  }

  lemma {:induction false} FewTicks(x: nat, rate: nat)
    requires rate >= 2
    ensures Ticks(x, rate) <= (if x < rate then 0 else 1 + (x - rate) / 2)
  {
    if x >= rate {
      FewTicks(x - rate, rate);
    }
  }

  /** Few ticks are few cycles. */
  lemma AgeSmall(x: nat, rate: u32)
    requires (rate == 2 || rate == 32 || rate == 512) && Ticks(x, rate) <= 0x1_ffff
    ensures x < 0x400_0000
  {
    WholeAndRest(x, rate);
    if rate == 2 {} else if rate == 32 {} else {}
  }

  lemma WithinYoung(c: Counter, cycle: u32, slack: nat)
    requires Within(c, cycle, slack) && Active(c)
    ensures Wrap(cycle - c.sCycleT) + slack < 0x400_0000
  {
    AgeSmall(Wrap(cycle - c.sCycleT) + slack, c.rate);
  }

  lemma WithinLess(c: Counter, cycle: u32, slack: nat, less: nat)
    requires Within(c, cycle, slack) && less <= slack
    ensures Within(c, cycle, less)
  {
    if Active(c) {
      TicksSplit(Wrap(cycle - c.sCycleT) + less, slack - less, c.rate);
    }
  }

  lemma WithinLater(c: Counter, cycle: u32, slack: nat, g: nat)
    requires Within(c, cycle, slack) && g <= slack
    ensures Within(c, Wrap(cycle + g), slack - g)
  {
    if Active(c) {
      WithinYoung(c, cycle, slack);
      WrapLater(cycle, c.sCycleT, g);
    }
  }

  /** A timer in sixteen bits that was accounted for less than 512 cycles ago, and whose overflow is due
      no later than the deadline less the lag. */
  lemma FreshWithin(c: Counter, cycle: u32, nexts: u32, slack: nat, lag: nat)
    requires RateOk(c) && !c.gated && c.count <= 0xffff && lag <= 0x1_f000 && Wrap(cycle - nexts) < 0x7e00_0000
    requires Active(c) ==> Wrap(cycle - c.sCycleT) < 512
    requires Active(c) ==>
               slack <= 4 + lag || slack <= Distance(c, 0x1_0000, cycle, nexts) - Wrap(cycle - nexts) + lag
    ensures Within(c, cycle, slack)
  {
    if Active(c) {
      var age, since := Wrap(cycle - c.sCycleT), Wrap(cycle - nexts);
      if slack <= 4 + lag {
        FewTicks(age + slack, c.rate);
      } else {
        var n := Distance(c, 0x1_0000, cycle, nexts) - since - 1;
        DistanceReaches(c, 0x1_0000, cycle, nexts, n);
        BeforeOverflow(c.count, age, n, slack, lag, c.rate);
      }
    }
  }

  lemma BeforeOverflow(count: nat, age: nat, n: nat, slack: nat, lag: nat, rate: nat)
    requires rate >= 2 && count + Ticks(age + n, rate) < 0x1_0000 && slack <= n + 1 + lag && lag <= 0x1_f000
    ensures count + Ticks(age + slack, rate) <= 0x1_ffff
  {
    if slack > n {
      TicksSplit(age + n, slack - n, rate);
    } else {
      TicksSplit(age + slack, n - slack, rate);
    }
  }

  /** An update settles the count in sixteen bits. */
  lemma UpdateSettles(c: Counter, cycle: u32, slack: nat)
    requires Within(c, cycle, slack)
    ensures var d := Update(c, cycle);
            && RateOk(d) && !d.gated && d.count <= 0xffff && Active(d) == Active(c)
            && (Active(d) ==> Wrap(cycle - d.sCycleT) < 512)
  {
    UpdatedAge(c, cycle);
    if Active(c) {
      TakenExactly(c, cycle, slack);
    }
  }

  /** It takes in exactly the ticks elapsed, none lost and none wrapped. */
  lemma TakenExactly(c: Counter, cycle: u32, slack: nat)
    requires Within(c, cycle, slack) && Active(c)
    ensures var age := Wrap(cycle - c.sCycleT);
            && Elapsed(c, cycle) == age < 0x400_0000
            && Tick(c, age, cycle).count == c.count + Ticks(age, c.rate) <= 0x1_ffff
  {
    WithinYoung(c, cycle, slack);
    TicksSplit(Wrap(cycle - c.sCycleT), slack, c.rate);
  }

  // ---------------------------------------------------------------- the deadline of each timer

  /** A timer that is not late is at its overflow no earlier than nextCounter, or nextCounter is 4. */
  lemma RcntSetBound(c: Counter, cycle: u32, nexts: u32, next: s32)
    ensures !Late(c) || !Active(c) ==> RcntSet(c, cycle, nexts, next) <= next
    ensures Active(c) ==> var r := RcntSet(c, cycle, nexts, next); r == 4 || r <= Distance(c, 0x1_0000, cycle, nexts)
    ensures RcntSet(c, cycle, nexts, next) <= 4 || RcntSet(c, cycle, nexts, next) <= next
  {
  }

  lemma {:induction false} RcntSetUpToBound(cs: seq<Counter>, i: nat, cycle: u32, next: s32, j: nat)
    requires j < i <= |cs| && Active(cs[j])
    ensures var r := RcntSetUpTo(cs, i, cycle, next); r <= 4 || r <= Distance(cs[j], 0x1_0000, cycle, cycle)
  {
    RcntSetBound(cs[i - 1], cycle, cycle, RcntSetUpTo(cs, i - 1, cycle, next));
    if j < i - 1 {
      RcntSetUpToBound(cs, i - 1, cycle, next, j);
    }
  }

  lemma {:induction false} RcntSetUpToCap(cs: seq<Counter>, i: nat, cycle: u32, next: s32)
    requires i <= |cs|
    ensures RcntSetUpTo(cs, i, cycle, next) <= 4 || RcntSetUpTo(cs, i, cycle, next) <= next
  {
    if i > 0 {
      RcntSetUpToCap(cs, i - 1, cycle, next);
      RcntSetBound(cs[i - 1], cycle, cycle, RcntSetUpTo(cs, i - 1, cycle, next));
    }
  }

  // ---------------------------------------------------------------- events and nextCounter

  /** Nothing the timer does was due before nextCounter, but for the four cycles of a late timer. */
  ghost predicate Covered(c: Counter, cycle: u32, since: nat, next: s32)
    requires RateOk(c)
  {
    forall n: nat :: Fires(c, cycle, n) ==> since + n + 4 >= next
  }

  lemma CoveredLater(c: Counter, cycle: u32, since: nat, next: s32, g: nat)
    requires RateOk(c) && Covered(c, cycle, since, next)
    ensures Covered(c, Wrap(cycle + g), since + g, next)
  {
    var later := Wrap(cycle + g);
    forall n: nat | Fires(c, later, n) ensures since + g + n + 4 >= next {
      WrapTwice(cycle, g, n);
      assert Fires(c, cycle, g + n);
    }
  }

  lemma WrapTwice(cycle: u32, g: nat, n: nat)
    ensures Wrap(Wrap(cycle + g) + n) == Wrap(cycle + (g + n))
  {
  }

  /** A lower nextCounter, or four, covers what the old one did. */
  lemma CoveredLower(c: Counter, cycle: u32, since: nat, next: s32, lower: s32)
    requires RateOk(c) && Covered(c, cycle, since, next) && (lower <= next || lower <= 4)
    ensures Covered(c, cycle, since, lower)
  {
  }

  /** _rcntSet covers its timer. */
  lemma RcntSetCovers(c: Counter, cycle: u32, nexts: u32, next: s32)
    requires RateOk(c) && AgeOk(c, cycle) && Wrap(cycle - nexts) < 0x7e00_0000
    ensures Covered(c, cycle, Wrap(cycle - nexts), RcntSet(c, cycle, nexts, next))
  {
    var since, r := Wrap(cycle - nexts), RcntSet(c, cycle, nexts, next);
    forall n: nat | Fires(c, cycle, n) ensures since + n + 4 >= r {
      if !Late(c) && since + n <= r {
        RcntSetDue(c, cycle, nexts, next, n);
      }
    }
  }

  lemma {:induction false} RcntSetUpToCovers(cs: seq<Counter>, i: nat, cycle: u32, next: s32, j: nat)
    requires j < i <= |cs| && TimersOk(cs, cycle)
    ensures Covered(cs[j], cycle, 0, RcntSetUpTo(cs, i, cycle, next))
  {
    var before := RcntSetUpTo(cs, i - 1, cycle, next);
    if j == i - 1 {
      RcntSetCovers(cs[j], cycle, cycle, before);
    } else {
      RcntSetUpToCovers(cs, i - 1, cycle, next, j);
      RcntSetBound(cs[i - 1], cycle, cycle, before);
      CoveredLower(cs[j], cycle, 0, before, RcntSetUpTo(cs, i, cycle, next));
    }
  }

  // ---------------------------------------------------------------- register writes

  /** Writing the count or the mode leaves sixteen bits and less than 512 cycles. */
  lemma CountWriteFresh(c: Counter, value: u32, cycle: u32, slack: nat)
    requires Within(c, cycle, slack)
    ensures var d := Wcount(c, value, cycle);
            && RateOk(d) && !d.gated && d.count <= 0xffff && (Active(d) ==> Wrap(cycle - d.sCycleT) < 512)
  {
    if Active(c) {
      WithinYoung(c, cycle, slack);
      var age := Wrap(cycle - c.sCycleT);
      assert Signed(age) == age;
      BackByRest(cycle, Rest(age, c.rate));
    }
  }

  lemma ModeWriteFresh(c: Counter, value: u32, cycle: u32, scanline: u32)
    requires RateOk(c) && Rcount(c, cycle) <= 0xffff
    requires var d := Wmode(c, value, cycle, scanline); !d.gated && (CountsHblanks(c) ==> !Active(d))
    ensures var d := Wmode(c, value, cycle, scanline);
            && RateOk(d) && !d.gated && d.count <= 0xffff && (Active(d) ==> Wrap(cycle - d.sCycleT) < 512)
  {
    if Active(c) {
      BackByRest(cycle, Rest(Wrap(cycle - c.sCycleT), c.rate));
    }
  }

  lemma TargetWriteTakes(c: Counter, value: u32, cycle: u32, age: nat)
    requires RateOk(c) && Active(c) && age == Wrap(cycle - c.sCycleT) && c.count + Ticks(age, c.rate) <= 0x1_ffff
    ensures var d := Wtarget(c, value, cycle);
            && RateOk(d) && Active(d) && d.rate == c.rate && d.gated == c.gated
            && d.count == c.count + Ticks(age, c.rate) && d.sCycleT == Wrap(cycle - Rest(age, c.rate))
  {
  }

  /** Why mode writes are limited.  A timer stopped between its overflow and the update keeps a count beyond
      sixteen bits that no update settles. */
  lemma StopKeepsOverflow(c: Counter, value: u32, cycle: u32, scanline: u32, later: u32)
    requires RateOk(c) && Active(c) && Rcount(c, cycle) > 0xffff && !Bit(value, 4) && !Bit(value, 128)
    ensures var d := Wmode(c, value, cycle, scanline);
            d.count == Rcount(c, cycle) && Update(d, later) == d && d.flags.overflowIrqs == c.flags.overflowIrqs
  {
  }

  /** And a timer switched from hblanks to cycles reads, at once, all cycles since the last update. */
  lemma SwitchCountsBack(c: Counter, value: u32, cycle: u32, scanline: u32)
    requires RateOk(c) && CountsHblanks(c) && value % 4 < 3 && !Bit(value, 4) && Bit(value, 128)
    ensures var d := Wmode(c, value, cycle, scanline);
            Rcount(d, cycle) == Wrap(c.count + Ticks(Wrap(cycle - c.sCycleT), d.rate))
  {
  }

  /** Writing the target takes in the ticks, which moves no overflow. */
  lemma TargetWriteWithin(c: Counter, value: u32, cycle: u32, slack: nat)
    requires Within(c, cycle, slack)
    ensures Within(Wtarget(c, value, cycle), cycle, slack)
  {
    if Active(c) {
      var age := Wrap(cycle - c.sCycleT);
      TicksChain(0, age, age + slack, c.rate);
      TicksSplit(age, slack, c.rate);
      TargetWriteTakes(c, value, cycle, age);
      BackByRest(cycle, Rest(age, c.rate));
    }
  }

  lemma HoldWriteSame(c: Counter, value: u32, cycle: u32, slack: nat, since: nat, next: s32)
    requires Within(c, cycle, slack) && Covered(c, cycle, since, next)
    ensures Within(Whold(c, value), cycle, slack) && Covered(Whold(c, value), cycle, since, next)
  {
    var d := Whold(c, value);
    forall n: nat | Fires(d, cycle, n) ensures since + n + 4 >= next {
      HoldFires(c, value, cycle, n);
    }
  }

  lemma HoldFires(c: Counter, value: u32, cycle: u32, n: nat)
    requires RateOk(c)
    ensures Fires(Whold(c, value), cycle, n) <==> Fires(c, cycle, n)
  {
  }

  // ---------------------------------------------------------------- the invariant

  ghost predicate TimerInv(c: Counter, e: Ee, lag: nat) {
    Within(c, e.cycle, Slack(e, lag)) && Covered(c, e.cycle, e.since, e.next)
  }

  ghost predicate Inv(e: Ee, lag: nat) {
    && lag <= 0x1_f000 && e.next <= 0x7d00_0000 && e.since <= 0x7d00_0000 + lag
    && forall c :: c in e.timers ==> TimerInv(c, e, lag)
  }

  lemma PassInv(e: Ee, g: nat, lag: nat)
    requires Inv(e, lag) && Disciplined(e, Pass(g), lag)
    ensures Inv(Take(e, Pass(g)), lag)
  {
    var f := Take(e, Pass(g));
    if g == 0 {
      assert f == e;
    } else {
      forall c | c in f.timers ensures TimerInv(c, f, lag) {
        assert TimerInv(c, e, lag);
        WithinLater(c, e.cycle, Slack(e, lag), g);
        CoveredLater(c, e.cycle, e.since, e.next, g);
      }
    }
  }

  /** The timers after an update, with a nextCounter they allow. */
  lemma UpdatedTimer(e: Ee, j: nat, syncs: s32, lag: nat)
    requires Inv(e, lag) && j < |e.timers| && syncs <= 0x7d00_0000
    requires forall c :: c in e.timers ==> RateOk(c)
    ensures var f := Take(e, UpdateAll(syncs)); TimerInv(f.timers[j], f, lag)
  {
    var f := Take(e, UpdateAll(syncs));
    var r := RcntSetUpTo(f.timers, |f.timers|, e.cycle, syncs);
    forall k | 0 <= k < |f.timers| ensures RateOk(f.timers[k]) && AgeOk(f.timers[k], e.cycle) {
      UpdatedAge(e.timers[k], e.cycle);
    }
    var d := f.timers[j];
    assert TimerInv(e.timers[j], e, lag);
    UpdateSettles(e.timers[j], e.cycle, Slack(e, lag));
    RcntSetUpToCovers(f.timers, |f.timers|, e.cycle, syncs, j);
    CoveredLower(d, e.cycle, 0, r, f.next);
    if Active(d) {
      RcntSetUpToBound(f.timers, |f.timers|, e.cycle, syncs, j);
    }
    FreshWithin(d, e.cycle, e.cycle, Slack(f, lag), lag);
  }

  lemma UpdateInv(e: Ee, syncs: s32, lag: nat)
    requires Inv(e, lag) && syncs <= 0x7d00_0000 && forall c :: c in e.timers ==> RateOk(c)
    ensures Inv(Take(e, UpdateAll(syncs)), lag)
  {
    var f := Take(e, UpdateAll(syncs));
    forall c | c in f.timers ensures TimerInv(c, f, lag) {
      var j :| 0 <= j < |f.timers| && f.timers[j] == c;
      UpdatedTimer(e, j, syncs, lag);
    }
    RcntSetUpToCap(f.timers, |f.timers|, e.cycle, syncs);
  }

  /** Signals do not gate an ungated timer; at most it counts a hblank. */
  lemma SignalTimer(c: Counter, op: Op, e: Ee, lag: nat)
    requires TimerInv(c, e, lag) && (op.GateStart? || op.GateEnd?)
    ensures TimerInv(Do(c, op), e, lag)
  {
    var d := Do(c, op);
    if CountsHblanks(c) {
      assert !Active(d);
    } else {
      assert d == c;
    }
  }

  lemma SignalInv(e: Ee, s: Step, lag: nat)
    requires Inv(e, lag) && s.SignalAll? && forall c :: c in e.timers ==> RateOk(c)
    ensures Inv(Take(e, s), lag)
  {
    var f := Take(e, s);
    forall d | d in f.timers ensures TimerInv(d, f, lag) {
      var j :| 0 <= j < |f.timers| && f.timers[j] == d;
      assert TimerInv(e.timers[j], e, lag);
      SignalTimer(e.timers[j], Signal(s, e.cycle), e, lag);
      assert TimerInv(d, e, lag);
    }
  }

  /** A count or mode write starts afresh, a target write keeps what is left. */
  lemma WrittenWithin(c: Counter, op: Op, cycle: u32, nexts: u32, slack: nat, next: s32, after: nat, lag: nat)
    requires Within(c, cycle, slack) && IsRegisterWrite(op, cycle) && !op.WriteHold?
    requires op.WriteMode? ==>
               !Do(c, op).gated && Rcount(c, cycle) <= 0xffff && (CountsHblanks(c) ==> !Active(Do(c, op)))
    requires lag <= 0x1_f000 && Wrap(cycle - nexts) < 0x7e00_0000 && after <= slack
    requires after <= 4 + lag || after <= RcntSet(Do(c, op), cycle, nexts, next) - Wrap(cycle - nexts) + lag
    ensures Within(Do(c, op), cycle, after)
  {
    var d := Do(c, op);
    if op.WriteTarget? {
      TargetWriteWithin(c, op.value, cycle, slack);
      WithinLess(d, cycle, slack, after);
    } else {
      if op.WriteCount? {
        CountWriteFresh(c, op.value, cycle, slack);
      } else {
        ModeWriteFresh(c, op.value, cycle, op.scanline);
      }
      RcntSetBound(d, cycle, nexts, next);
      FreshWithin(d, cycle, nexts, after, lag);
    }
  }

  /** The timer written, with nextCounter as _rcntSet leaves it. */
  lemma WrittenTimer(e: Ee, i: nat, op: Op, lag: nat)
    requires Inv(e, lag) && (forall c :: c in e.timers ==> RateOk(c)) && Disciplined(e, Write(i, op), lag)
    requires TimerInv(e.timers[i], e, lag)
    ensures var f := Take(e, Write(i, op)); TimerInv(f.timers[i], f, lag)
  {
    var f, c, nexts, slack := Take(e, Write(i, op)), e.timers[i], Wrap(e.cycle - e.since), Slack(e, lag);
    var d := f.timers[i];
    BackByRest(e.cycle, e.since);
    if op.WriteHold? {
      HoldWriteSame(c, op.value, e.cycle, slack, e.since, e.next);
    } else {
      RcntSetBound(d, e.cycle, nexts, e.next);
      WrittenWithin(c, op, e.cycle, nexts, slack, e.next, Slack(f, lag), lag);
      WithinAge(d, e.cycle, Slack(f, lag));
      RcntSetCovers(d, e.cycle, nexts, e.next);
    }
  }

  lemma WithinAge(c: Counter, cycle: u32, slack: nat)
    requires Within(c, cycle, slack)
    ensures AgeOk(c, cycle) && c.count < FUTURE
  {
    if Active(c) {
      WithinYoung(c, cycle, slack);
    }
  }

  lemma WriteInv(e: Ee, i: nat, op: Op, lag: nat)
    requires Inv(e, lag) && (forall c :: c in e.timers ==> RateOk(c)) && Disciplined(e, Write(i, op), lag)
    ensures Inv(Take(e, Write(i, op)), lag)
  {
    var f := Take(e, Write(i, op));
    RcntSetBound(f.timers[i], e.cycle, Wrap(e.cycle - e.since), e.next);
    assert TimerInv(e.timers[i], e, lag);
    WrittenTimer(e, i, op, lag);
    forall c | c in f.timers ensures TimerInv(c, f, lag) {
      var j :| 0 <= j < |f.timers| && f.timers[j] == c;
      if j != i {
        assert TimerInv(e.timers[j], e, lag);
        WithinLess(c, e.cycle, Slack(e, lag), Slack(f, lag));
        CoveredLower(c, e.cycle, e.since, e.next, f.next);
      }
    }
  }

  // ---------------------------------------------------------------- runs

  /** As rcntInit leaves things, but for what the timers' registers hold: no timer counts or is gated. */
  ghost predicate Init(e: Ee) {
    && e.since == 0 && e.next <= 0x7d00_0000
    && forall c :: c in e.timers ==> RateOk(c) && !c.gated && !c.mode.isCounting && c.count <= 0xffff
  }

  ghost predicate Sound(e: Ee) { forall c :: c in e.timers ==> RateOk(c) }

  ghost predicate IsRun(run: seq<Ee>, steps: seq<Step>, lag: nat) {
    && |run| == |steps| + 1 && Init(run[0]) && lag <= 0x1_f000
    && forall k :: 0 <= k < |steps| ==> Follows(run[k], steps[k], run[k + 1], lag)
  }

  ghost predicate Follows(e: Ee, s: Step, f: Ee, lag: nat) {
    Sound(e) && Disciplined(e, s, lag) && f == Take(e, s)
  }

  lemma StepInv(e: Ee, s: Step, lag: nat)
    requires Inv(e, lag) && Sound(e) && Disciplined(e, s, lag)
    ensures Inv(Take(e, s), lag)
  {
    match s
    case Pass(g) => PassInv(e, g, lag);
    case UpdateAll(syncs) => UpdateInv(e, syncs, lag);
    case SignalAll(_, _, _) => SignalInv(e, s, lag);
    case Write(i, op) => WriteInv(e, i, op, lag);
  }

  lemma {:induction false} RunInv(run: seq<Ee>, steps: seq<Step>, lag: nat, k: nat)
    requires IsRun(run, steps, lag) && k < |run|
    ensures Inv(run[k], lag)
  {
    if k > 0 {
      RunInv(run, steps, lag, k - 1);
      assert Follows(run[k - 1], steps[k - 1], run[k], lag);
      StepInv(run[k - 1], steps[k - 1], lag);
    }
  }

  /** At every point of every run the bounds hold that counting and scheduling assume: counts lie far
      below a marked target, ages and gaps far below 2^31 cycles. */
  lemma BoundsHold(run: seq<Ee>, steps: seq<Step>, lag: nat, k: nat)
    requires IsRun(run, steps, lag) && k < |run|
    ensures TimersOk(run[k].timers, run[k].cycle)
    ensures forall c :: c in run[k].timers ==>
              && c.count <= 0x1_ffff
              && (Active(c) ==> Wrap(run[k].cycle - c.sCycleT) + Slack(run[k], lag) < 0x400_0000)
  {
    RunInv(run, steps, lag, k);
    forall c | c in run[k].timers
      ensures RateOk(c) && AgeOk(c, run[k].cycle) && c.count <= 0x1_ffff
      ensures Active(c) ==> Wrap(run[k].cycle - c.sCycleT) + Slack(run[k], lag) < 0x400_0000
    {
      assert TimerInv(c, run[k], lag);
      WithinAge(c, run[k].cycle, Slack(run[k], lag));
      if Active(c) { WithinYoung(c, run[k].cycle, Slack(run[k], lag)); }
    }
  }

  /** So cpuRcntSet is exact in every run, whatever the syncs are. */
  lemma ScheduleStaysExact(run: seq<Ee>, steps: seq<Step>, lag: nat, k: nat, hsync: SyncCounter, vsync: SyncCounter)
    requires IsRun(run, steps, lag) && k < |run|
    requires SyncOk(hsync, run[k].cycle) && SyncOk(vsync, run[k].cycle)
    ensures TimersOk(run[k].timers, run[k].cycle)
    ensures var n := CpuRcntSet(run[k].timers, hsync, vsync, run[k].cycle);
            NextEventAt(run[k].timers, hsync, vsync, run[k].cycle, n) <==> !Postponed(run[k].timers, |run[k].timers|, run[k].cycle)
  {
    BoundsHold(run, steps, lag, k);
    ScheduleIsExact(run[k].timers, hsync, vsync, run[k].cycle);
  }

  /** No event waits: if a timer is to reach its target or overflow in n cycles, the next rcntUpdate comes
      no later than four cycles and the lag after that, however the run goes on. */
  lemma EventsNoticed(run: seq<Ee>, steps: seq<Step>, lag: nat, k: nat, c: Counter, n: nat)
    requires IsRun(run, steps, lag) && k < |run| && c in run[k].timers
    ensures RateOk(c)
    ensures Fires(c, run[k].cycle, n) ==> Slack(run[k], lag) <= n + 4 + lag
  {
    RunInv(run, steps, lag, k);
    assert TimerInv(c, run[k], lag);
  }

  /** And that update sees the ideal count itself, not only mod 2^16: it raises the target's interrupt
      exactly if the ideal count has reached a target that is not marked, the interrupt is enabled and its
      flag clear, and it leaves sixteen bits. */
  lemma UpdateSeesIdeal(run: seq<Ee>, steps: seq<Step>, lag: nat, k: nat, c: Counter)
    requires IsRun(run, steps, lag) && k < |run| && c in run[k].timers && Active(c)
    ensures RateOk(c)
    ensures var ideal := c.count + Ticks(Wrap(run[k].cycle - c.sCycleT), c.rate);
            var d := Update(c, run[k].cycle);
            && d.count <= 0xffff
            && (d.flags.targetIrqs > c.flags.targetIrqs <==>
                  !c.future && ideal >= c.target && c.mode.targetInterrupt && !c.flags.targetReached)
            && (!c.mode.zeroReturn ==>
                  && d.count == (if ideal <= 0xffff then ideal else ideal - 0x1_0000)
                  && (d.flags.overflowIrqs > c.flags.overflowIrqs <==>
                        ideal > 0xffff && c.mode.overflowInterrupt && !c.flags.overflowReached))
  {
    RunInv(run, steps, lag, k);
    assert TimerInv(c, run[k], lag);
    UpdateSettles(c, run[k].cycle, Slack(run[k], lag));
    TakenExactly(c, run[k].cycle, Slack(run[k], lag));
    TestsSee(Tick(c, Elapsed(c, run[k].cycle), run[k].cycle));
  }

  lemma TestsSee(t: Counter)
    requires t.count <= 0x1_ffff
    ensures var d := TestOverflow(TestTarget(t));
            && (d.flags.targetIrqs > t.flags.targetIrqs <==>
                  !t.future && t.count >= t.target && t.mode.targetInterrupt && !t.flags.targetReached)
            && (!t.mode.zeroReturn ==>
                  && d.count == (if t.count <= 0xffff then t.count else t.count - 0x1_0000)
                  && (d.flags.overflowIrqs > t.flags.overflowIrqs <==>
                        t.count > 0xffff && t.mode.overflowInterrupt && !t.flags.overflowReached))
  {
  }
}
