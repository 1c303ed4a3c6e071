/** The event scheduler of Counters.cpp: cpuRcntSet finds the distance to the next event, and nothing
    fires before it. */
module CounterSchedule {
  import opened CounterState

  /** SyncCounter: a phase that starts at sCycle and lasts cycleT cycles. */
  datatype SyncCounter = SyncCounter(mode: nat, sCycle: u32, cycleT: s32)

  function Min(a: s32, b: s32): s32 { if b < a then b else a }

  // ---------------------------------------------------------------- the scheduler

  /** The cycles from `nexts` until the timer counts to `limit`, as an s32. */
  function Distance(c: Counter, limit: nat, cycle: u32, nexts: u32): s32 {
    Signed(Wrap((limit - c.count) * c.rate - Wrap(cycle - c.sCycleT) + Wrap(cycle - nexts)))
  }

  /** The timer has passed its target or the overflow. */
  predicate Late(c: Counter) { Active(c) && (c.count > 0x1_0000 || c.count > c.RawTarget()) }

  /** _rcntSet: nextCounter afterwards. */
  function RcntSet(c: Counter, cycle: u32, nexts: u32, next: s32): s32 {
    if !Active(c) then next
    else if Late(c) then 4
    else
      var n := Min(next, Distance(c, 0x1_0000, cycle, nexts));
      if c.future then n else Min(n, Distance(c, c.target, cycle, nexts))
  }

  /** The first i timers in turn, from nextCounter as left by the syncs. */
  function RcntSetUpTo(cs: seq<Counter>, i: nat, cycle: u32, next: s32): s32
    requires i <= |cs|
  {
    if i == 0 then next else RcntSet(cs[i - 1], cycle, cycle, RcntSetUpTo(cs, i - 1, cycle, next))
  }

  function SyncDistance(s: SyncCounter, cycle: u32): s32 { Signed(Wrap(s.cycleT - Wrap(cycle - s.sCycle))) }

  function SyncsSet(hsync: SyncCounter, vsync: SyncCounter, cycle: u32): s32 {
    Min(SyncDistance(vsync, cycle), SyncDistance(hsync, cycle))
  }

  /** cpuRcntSet: nextCounter afterwards. */
  function CpuRcntSet(cs: seq<Counter>, hsync: SyncCounter, vsync: SyncCounter, cycle: u32): s32 {
    var n := RcntSetUpTo(cs, |cs|, cycle, SyncsSet(hsync, vsync, cycle));
    if n < 0 then 0 else n
  }

  // ---------------------------------------------------------------- events

  /** The tests have something to do at that count. */
  predicate Reaches(c: Counter, count: u32) { count > 0xffff || count >= c.RawTarget() }

  /** rcntUpdate, n cycles after `cycle`, would find the timer at its target or overflow. */
  predicate Fires(c: Counter, cycle: u32, n: nat)
    requires RateOk(c)
  {
    var at := Wrap(cycle + n);
    Active(c) && Reaches(c, Tick(c, Elapsed(c, at), at).count)
  }

  /** cpuTestCycle: the phase is over. */
  predicate Due(s: SyncCounter, cycle: u32) { Signed(Wrap(cycle - s.sCycle)) >= s.cycleT }

  /** It is over n cycles after `cycle`. */
  predicate SyncFires(s: SyncCounter, cycle: u32, n: nat) { Due(s, Wrap(cycle + n)) }

  /** Otherwise an update there only counts. */
  lemma NoEventOnlyCounts(c: Counter, cycle: u32, n: nat)
    requires RateOk(c) && Active(c) && !Fires(c, cycle, n)
    ensures var at := Wrap(cycle + n); Update(c, at) == Tick(c, Elapsed(c, at), at)
  {
  }

  ghost predicate TimersOk(cs: seq<Counter>, cycle: u32) {
    forall c :: c in cs ==> RateOk(c) && AgeOk(c, cycle)
  }

  /** The timer was taken in less than 2^31 cycles ago. */
  predicate AgeOk(c: Counter, cycle: u32) { Active(c) ==> Wrap(cycle - c.sCycleT) < 0x8000_0000 }

  /** As every updated timer was: its age is less than its rate. */
  lemma UpdatedAge(c: Counter, cycle: u32)
    requires RateOk(c)
    ensures var d := Update(c, cycle); AgeOk(d, cycle) && (Active(d) ==> Wrap(cycle - d.sCycleT) < d.rate)
  {
    if Active(c) {
      BackByRest(cycle, Rest(Elapsed(c, cycle), c.rate));
    }
  }

  ghost predicate SomeFires(cs: seq<Counter>, i: nat, cycle: u32, n: nat)
    requires i <= |cs| && TimersOk(cs, cycle)
  {
    exists j :: 0 <= j < i && Fires(cs[j], cycle, n)
  }

  ghost predicate Event(cs: seq<Counter>, hsync: SyncCounter, vsync: SyncCounter, cycle: u32, n: nat)
    requires TimersOk(cs, cycle)
  {
    SyncFires(hsync, cycle, n) || SyncFires(vsync, cycle, n) || SomeFires(cs, |cs|, cycle, n)
  }

  // ---------------------------------------------------------------- one timer

  lemma {:induction false} TicksReach(x: nat, k: nat, rate: nat)
    requires rate > 0
    ensures Ticks(x, rate) >= k <==> x >= k * rate
    ensures Ticks(x, rate) <= x
    decreases x
  {
    if x >= rate {
      if k == 0 {
        TicksReach(x - rate, 0, rate);
      } else {
        TicksReach(x - rate, k - 1, rate);
        assert k * rate == (k - 1) * rate + rate;
      }
    } else if k > 0 {
      assert k * rate == (k - 1) * rate + rate && (k - 1) * rate >= 0;
    }
  }

  lemma SpanSmall(k: nat, rate: u32)
    requires k <= 0x1_0000 && (rate == 2 || rate == 32 || rate == 512)
    ensures 0 <= k * rate <= 0x200_0000
  {
  }

  lemma WrapSigned(x: s32)
    ensures Signed(Wrap(x)) == x
  {
  }

  lemma WrapLater(cycle: u32, from: u32, n: nat)
    requires Wrap(cycle - from) + n < TWO32
    ensures Wrap(Wrap(cycle + n) - from) == Wrap(cycle - from) + n
  {
  }

  /** The distance is that many cycles off, and the timer has counted to the limit exactly when they
      have passed. */
  lemma DistanceReaches(c: Counter, limit: nat, cycle: u32, nexts: u32, n: nat)
    requires RateOk(c) && Active(c) && AgeOk(c, cycle) && c.count <= limit <= 0x1_0000
    requires Wrap(cycle - nexts) < 0x7e00_0000
    ensures var d := Distance(c, limit, cycle, nexts);
            d <= Wrap(cycle - nexts) + n <==> c.count + Ticks(Wrap(cycle - c.sCycleT) + n, c.rate) >= limit
    ensures Distance(c, limit, cycle, nexts) <= 0x200_0000 - Wrap(cycle - c.sCycleT) + Wrap(cycle - nexts)
  {
    var k, age, since := limit - c.count, Wrap(cycle - c.sCycleT), Wrap(cycle - nexts);
    SpanSmall(k, c.rate);
    WrapSigned(k * c.rate - age + since);
    TicksReach(age + n, k, c.rate);
  }

  lemma ElapsedLater(c: Counter, cycle: u32, n: nat)
    requires Wrap(cycle - c.sCycleT) + n < 0x8000_0000
    ensures Elapsed(c, Wrap(cycle + n)) == Wrap(cycle - c.sCycleT) + n
  {
    WrapLater(cycle, c.sCycleT, n);
  }

  lemma FiresIs(c: Counter, cycle: u32, n: nat)
    requires RateOk(c) && Active(c) && c.count <= 0x1_0000 && Wrap(cycle - c.sCycleT) + n < 0x8000_0000
    ensures var k := c.count + Ticks(Wrap(cycle - c.sCycleT) + n, c.rate);
            Fires(c, cycle, n) <==> k >= 0x1_0000 || (!c.future && k >= c.target)
  {
    var x := Wrap(cycle - c.sCycleT) + n;
    ElapsedLater(c, cycle, n);
    TicksReach(x, 0, c.rate);
    assert Tick(c, x, Wrap(cycle + n)).count == c.count + Ticks(x, c.rate);
  }

  /** _rcntSet on a timer that is not late: the new nextCounter has come exactly when the old one has,
      or the timer fires. */
  lemma RcntSetDue(c: Counter, cycle: u32, nexts: u32, next: s32, n: nat)
    requires RateOk(c) && AgeOk(c, cycle) && !Late(c) && Wrap(cycle - nexts) < 0x7e00_0000
    requires n == 0 || Wrap(cycle - nexts) + n <= RcntSet(c, cycle, nexts, next)
    ensures RcntSet(c, cycle, nexts, next) <= next
    ensures RcntSet(c, cycle, nexts, next) <= Wrap(cycle - nexts) + n <==> next <= Wrap(cycle - nexts) + n || Fires(c, cycle, n)
  {
    if Active(c) {
      DistanceReaches(c, 0x1_0000, cycle, nexts, n);
      if !c.future {
        DistanceReaches(c, c.target, cycle, nexts, n);
      }
      FiresIs(c, cycle, n);
    }
  }

  /** A late timer fires at once. */
  lemma LateFires(c: Counter, cycle: u32)
    requires RateOk(c) && AgeOk(c, cycle) && Late(c) && c.count < FUTURE
    ensures Fires(c, cycle, 0)
  {
    TicksReach(Wrap(cycle - c.sCycleT), 0, c.rate);
  }

  // ---------------------------------------------------------------- all timers

  ghost predicate SomeLate(cs: seq<Counter>, i: nat)
    requires i <= |cs|
  {
    exists j :: 0 <= j < i && Late(cs[j])
  }

  /** A late timer with no timer after it that fires at once. */
  ghost predicate Postponed(cs: seq<Counter>, i: nat, cycle: u32)
    requires i <= |cs| && TimersOk(cs, cycle)
  {
    exists j :: 0 <= j < i && Late(cs[j]) && forall k :: j < k < i ==> !Fires(cs[k], cycle, 0)
  }

  lemma {:induction false} TimersDue(cs: seq<Counter>, i: nat, cycle: u32, next: s32, n: nat)
    requires i <= |cs| && TimersOk(cs, cycle) && !SomeLate(cs, i)
    requires n == 0 || n <= RcntSetUpTo(cs, i, cycle, next)
    ensures RcntSetUpTo(cs, i, cycle, next) <= next
    ensures RcntSetUpTo(cs, i, cycle, next) <= n <==> next <= n || SomeFires(cs, i, cycle, n)
  {
    if i > 0 {
      var c, before := cs[i - 1], RcntSetUpTo(cs, i - 1, cycle, next);
      assert !Late(c);
      RcntSetDue(c, cycle, cycle, before, n);
      TimersDue(cs, i - 1, cycle, next, n);
      assert SomeFires(cs, i, cycle, n) <==> SomeFires(cs, i - 1, cycle, n) || Fires(c, cycle, n);
    }
  }

  lemma PostponedNext(cs: seq<Counter>, i: nat, cycle: u32)
    requires 0 < i <= |cs| && TimersOk(cs, cycle)
    ensures Late(cs[i - 1]) ==> Postponed(cs, i, cycle)
    ensures !Late(cs[i - 1]) ==> (Postponed(cs, i, cycle) <==> Postponed(cs, i - 1, cycle) && !Fires(cs[i - 1], cycle, 0))
  {
  }

  lemma SetNow(c: Counter, cycle: u32, next: s32)
    requires RateOk(c) && AgeOk(c, cycle)
    ensures Late(c) ==> RcntSet(c, cycle, cycle, next) == 4
    ensures !Late(c) ==> RcntSet(c, cycle, cycle, next) <= next
    ensures !Late(c) ==> (RcntSet(c, cycle, cycle, next) > 0 <==> next > 0 && !Fires(c, cycle, 0))
  {
    if !Late(c) {
      RcntSetDue(c, cycle, cycle, next, 0);
    }
  }

  lemma LateStep(cs: seq<Counter>, i: nat, cycle: u32, n: s32, before: s32)
    requires 0 < i <= |cs| && TimersOk(cs, cycle)
    requires Late(cs[i - 1]) ==> n == 4
    requires !Late(cs[i - 1]) ==>
      n <= before <= 4 && (n > 0 <==> before > 0 && !Fires(cs[i - 1], cycle, 0)) && (before > 0 <==> Postponed(cs, i - 1, cycle))
    ensures n <= 4 && (n > 0 <==> Postponed(cs, i, cycle))
  {
    PostponedNext(cs, i, cycle);
  }

  /** With a late timer, the distance is zero exactly when some timer fires at once after the last late one. */
  lemma {:induction false} TimersLate(cs: seq<Counter>, i: nat, cycle: u32, next: s32)
    requires i <= |cs| && TimersOk(cs, cycle) && SomeLate(cs, i)
    ensures RcntSetUpTo(cs, i, cycle, next) <= 4
    ensures RcntSetUpTo(cs, i, cycle, next) > 0 <==> Postponed(cs, i, cycle)
  {
    var c, before := cs[i - 1], RcntSetUpTo(cs, i - 1, cycle, next);
    if !Late(c) {
      TimersLate(cs, i - 1, cycle, next);
    }
    SetNow(c, cycle, before);
    LateStep(cs, i, cycle, RcntSetUpTo(cs, i, cycle, next), before);
  }

  lemma SignedUnique(x: int, y: s32, q: int)
    requires x == y + TWO32 * q
    ensures Signed(Wrap(x)) == y
  {
  }

  /** The age of a sync n cycles later, if it still fits an s32. */
  lemma SyncAge(sCycle: u32, cycle: u32, n: nat, age: s32)
    requires age == Signed(Wrap(cycle - sCycle)) && age + n < 0x8000_0000
    ensures Signed(Wrap(Wrap(cycle + n) - sCycle)) == age + n
  {
    var x := Wrap(cycle + n) - sCycle;
    var q := (cycle - sCycle) / TWO32 - (cycle + n) / TWO32 + if age < 0 then 1 else 0;
    assert x == age + n + TWO32 * q;
    SignedUnique(x, age + n, q);
  }

  lemma SyncDistanceIs(s: SyncCounter, cycle: u32)
    requires SyncOk(s, cycle)
    ensures SyncDistance(s, cycle) == s.cycleT - Signed(Wrap(cycle - s.sCycle))
  {
  }

  lemma SyncDue(s: SyncCounter, cycle: u32, n: nat)
    requires SyncOk(s, cycle) && (n == 0 || n <= SyncDistance(s, cycle))
    ensures SyncDistance(s, cycle) <= n <==> SyncFires(s, cycle, n)
  {
    SyncDistanceIs(s, cycle);
    SyncAge(s.sCycle, cycle, n, Signed(Wrap(cycle - s.sCycle)));
  }

  /** The remaining time of the phase fits an s32. */
  predicate SyncOk(s: SyncCounter, cycle: u32) {
    -0x8000_0000 <= s.cycleT - Signed(Wrap(cycle - s.sCycle)) < 0x8000_0000
  }

  /** Something fires after n cycles, and nothing earlier. */
  ghost predicate NextEventAt(cs: seq<Counter>, hsync: SyncCounter, vsync: SyncCounter, cycle: u32, n: nat)
    requires TimersOk(cs, cycle)
  {
    Event(cs, hsync, vsync, cycle, n) && forall m: nat :: m < n ==> !Event(cs, hsync, vsync, cycle, m)
  }

  lemma EventDue(cs: seq<Counter>, hsync: SyncCounter, vsync: SyncCounter, cycle: u32, n: nat)
    requires TimersOk(cs, cycle) && SyncOk(hsync, cycle) && SyncOk(vsync, cycle) && !SomeLate(cs, |cs|)
    requires n <= CpuRcntSet(cs, hsync, vsync, cycle)
    ensures Event(cs, hsync, vsync, cycle, n) <==> n == CpuRcntSet(cs, hsync, vsync, cycle)
  {
    TimersDue(cs, |cs|, cycle, SyncsSet(hsync, vsync, cycle), n);
    SyncDue(hsync, cycle, n);
    SyncDue(vsync, cycle, n);
  }

  /** cpuRcntSet is exact: nextCounter is the distance to the first event, unless a timer already past
      its target or overflow postpones its own event by up to four cycles. */
  lemma ScheduleIsExact(cs: seq<Counter>, hsync: SyncCounter, vsync: SyncCounter, cycle: u32)
    requires TimersOk(cs, cycle) && SyncOk(hsync, cycle) && SyncOk(vsync, cycle)
    requires forall c :: c in cs ==> c.count < FUTURE
    ensures var n := CpuRcntSet(cs, hsync, vsync, cycle);
            && (NextEventAt(cs, hsync, vsync, cycle, n) <==> !Postponed(cs, |cs|, cycle))
            && (Postponed(cs, |cs|, cycle) ==> n <= 4 && Event(cs, hsync, vsync, cycle, 0))
  {
    var n := CpuRcntSet(cs, hsync, vsync, cycle);
    if SomeLate(cs, |cs|) {
      TimersLate(cs, |cs|, cycle, SyncsSet(hsync, vsync, cycle));
      var j :| 0 <= j < |cs| && Late(cs[j]);
      LateFires(cs[j], cycle);
      assert Event(cs, hsync, vsync, cycle, 0);
    } else {
      forall m: nat | m <= n ensures Event(cs, hsync, vsync, cycle, m) <==> m == n {
        EventDue(cs, hsync, vsync, cycle, m);
      }
    }
  }

  /** Between updates a register write reschedules with its timer alone, relative to the last update:
      nextCounter does not grow, and the timer does not fire before it. */
  lemma WriteKeepsSchedule(c: Counter, cycle: u32, nexts: u32, next: s32, n: nat)
    requires RateOk(c) && AgeOk(c, cycle) && !Late(c) && Wrap(cycle - nexts) < 0x7e00_0000
    requires Wrap(cycle - nexts) + n < RcntSet(c, cycle, nexts, next)
    ensures RcntSet(c, cycle, nexts, next) <= next && !Fires(c, cycle, n)
  {
    RcntSetDue(c, cycle, nexts, next, n);
  }

  /** A late timer alone is postponed: it fires now, and is scheduled in four cycles. */
  lemma LateIsPostponed(d: Counter, cycle: u32, next: s32)
    requires RateOk(d) && AgeOk(d, cycle) && Late(d) && d.count < FUTURE
    ensures TimersOk([d], cycle) && Postponed([d], 1, cycle)
    ensures Fires(d, cycle, 0) && RcntSetUpTo([d], 1, cycle, next) == 4
  {
    LateFires(d, cycle);
    assert Late([d][0]);
    assert RcntSetUpTo([d], 0, cycle, next) == next;
  }

  lemma ThreeTicks()
    ensures Ticks(6, 2) == 3 && Rest(6, 2) == 0
  {
    assert Ticks(2, 2) == 1 + Ticks(0, 2) && Rest(2, 2) == Rest(0, 2);
    assert Ticks(4, 2) == 1 + Ticks(2, 2) && Rest(4, 2) == Rest(2, 2);
  }

  /** A zero-return timer of target 1, just started. */
  predicate Short(c: Counter) {
    && c.mode.isCounting && c.mode.clockSource == 0 && c.rate == 2 && c.mode.zeroReturn
    && c.count == 0 && c.target == 1 && !c.future && c.sCycleT == 0
  }

  lemma TickedThrice(c: Counter)
    requires Short(c)
    ensures Tick(c, 6, 6) == c.(count := 3, sCycleT := 6)
  {
    ThreeTicks();
  }

  /** Updated after three ticks, it has the count 2 left. */
  lemma ShortAfterUpdate(c: Counter)
    requires Short(c)
    ensures var d := Update(c, 6); d.count == 2 && d.sCycleT == 6 && SameClock(c.(sCycleT := 6), d) && !d.future
  {
    TickedThrice(c);
  }

  /** So an update can leave an event postponed. */
  lemma UpdateLeavesLate(c: Counter, next: s32)
    requires Short(c)
    ensures var d := Update(c, 6);
            && Late(d) && TimersOk([d], 6) && Postponed([d], 1, 6)
            && Fires(d, 6, 0) && RcntSetUpTo([d], 1, 6, next) == 4
  {
    ShortAfterUpdate(c);
    LateIsPostponed(Update(c, 6), 6, next);
  }
}
