/** The interrupts of a timer of Counters.cpp over whole runs: at most one per acknowledgement, and none
    from a target that was set behind the count. */
module CounterIrqs {
  import opened CounterState

  /** Everything that happens to a timer, at a given value of the cycle clock. */
  datatype Op =
    | Sync(cycle: u32)
    | GateStart(isVblank: bool, sCycle: u32, cycle: u32)
    | GateEnd(isVblank: bool, sCycle: u32, cycle: u32)
    | WriteMode(value: u32, cycle: u32, scanline: u32)
    | WriteCount(value: u32, cycle: u32)
    | WriteTarget(value: u32, cycle: u32)
    | WriteHold(value: u32)

  function Do(c: Counter, op: Op): (d: Counter)
    requires RateOk(c)
    ensures RateOk(d)
  {
    match op
    case Sync(cycle) => Update(c, cycle)
    case GateStart(isVblank, sCycle, cycle) => StartGate(c, isVblank, sCycle, cycle)
    case GateEnd(isVblank, sCycle, cycle) => EndGate(c, isVblank, sCycle, cycle)
    case WriteMode(value, cycle, scanline) => Wmode(c, value, cycle, scanline)
    case WriteCount(value, cycle) => Wcount(c, value, cycle)
    case WriteTarget(value, cycle) => Wtarget(c, value, cycle)
    case WriteHold(value) => Whold(c, value)
  }

  function DoAll(c: Counter, ops: seq<Op>): (d: Counter)
    requires RateOk(c)
    ensures RateOk(d)
    decreases |ops|
  {
    if ops == [] then c else DoAll(Do(c, ops[0]), ops[1..])
  }

  lemma DoOne(c: Counter, op: Op)
    requires RateOk(c)
    ensures DoAll(c, [op]) == Do(c, op)
  {
    assert [op][1..] == [];
  }

  lemma {:induction false} DoMore(c: Counter, ops: seq<Op>, more: seq<Op>)
    requires RateOk(c)
    ensures DoAll(c, ops + more) == DoAll(DoAll(c, ops), more)
    decreases |ops|
  {
    if ops == [] {
      assert ops + more == more;
    } else {
      assert (ops + more)[0] == ops[0] && (ops + more)[1..] == ops[1..] + more;
      DoMore(Do(c, ops[0]), ops[1..], more);
    }
  }

  // ---------------------------------------------------------------- one interrupt per acknowledgement

  function Flag(isSet: bool): nat { if isSet then 1 else 0 }

  /** The write clears a TargetReached flag that is set. */
  function TargetAck(c: Counter, op: Op): nat {
    Flag(op.WriteMode? && Bit(op.value, 0x400) && c.flags.targetReached)
  }

  function OverflowAck(c: Counter, op: Op): nat {
    Flag(op.WriteMode? && Bit(op.value, 0x800) && c.flags.overflowReached)
  }

  function TargetAcks(c: Counter, ops: seq<Op>): nat
    requires RateOk(c)
    decreases |ops|
  {
    if ops == [] then 0 else TargetAck(c, ops[0]) + TargetAcks(Do(c, ops[0]), ops[1..])
  }

  function OverflowAcks(c: Counter, ops: seq<Op>): nat
    requires RateOk(c)
    decreases |ops|
  {
    if ops == [] then 0 else OverflowAck(c, ops[0]) + OverflowAcks(Do(c, ops[0]), ops[1..])
  }

  /** From f to g, interrupts and flags account for that many acknowledgements. */
  ghost predicate Accounts(f: Flags, g: Flags, targetAcks: nat, overflowAcks: nat) {
    && g.targetIrqs + Flag(f.targetReached) == f.targetIrqs + targetAcks + Flag(g.targetReached)
    && g.overflowIrqs + Flag(f.overflowReached) == f.overflowIrqs + overflowAcks + Flag(g.overflowReached)
  }

  lemma TestsAccount(c: Counter)
    ensures Accounts(c.flags, TestOverflow(TestTarget(c)).flags, 0, 0)
  {
  }

  /** The target test settles a count that is not far off below the target, marked if it does not return
      to zero, and raises an interrupt exactly when it sets the flag. */
  lemma TargetSettles(c: Counter)
    ensures var d := TestTarget(c);
            && Accounts(c.flags, d.flags, 0, 0)
            && (c.count < (if c.mode.zeroReturn then 2 * c.RawTarget() else FUTURE) ==> d.count < d.RawTarget())
            && d.count == (if c.mode.zeroReturn && c.count >= c.RawTarget() then c.count - c.RawTarget() else c.count)
            && (d.future <==> c.future || (!c.mode.zeroReturn && c.count >= c.target))
  {
  }

  /** The overflow test settles a count that is not far off in sixteen bits, keeps it mod 2^16, unmarks
      the target exactly on overflow, and raises an interrupt exactly when it sets the flag. */
  lemma OverflowSettles(c: Counter)
    ensures var d := TestOverflow(c);
            && Accounts(c.flags, d.flags, 0, 0)
            && (c.count < 0x2_0000 ==> d.count <= 0xffff)
            && d.count % 0x1_0000 == c.count % 0x1_0000
            && (d.future <==> c.future && c.count <= 0xffff)
  {
  }

  /** A gated timer stands at zero until its gate moves; an ungated one reads as before. */
  lemma GatedStandsStill(c: Counter, cycle: u32, t: u32)
    requires RateOk(c)
    ensures var d := SetGate(c, cycle);
            && (d.gated <==> c.mode.enableGate && (c.mode.gateSource || c.mode.clockSource != 3))
            && (d.gated ==> Update(d, t) == d && Rcount(d, t) == 0)
            && (!d.gated ==> Rcount(d, t) == Rcount(c, t))
            && d.flags == c.flags
  {
  }

  lemma UpdateAccounts(c: Counter, cycle: u32)
    requires RateOk(c)
    ensures Accounts(c.flags, Update(c, cycle).flags, 0, 0)
  {
    if Active(c) {
      TestsAccount(Tick(c, Elapsed(c, cycle), cycle));
    }
  }

  lemma HblankTickAccounts(c: Counter, isVblank: bool)
    ensures Accounts(c.flags, HblankTick(c, isVblank).flags, 0, 0)
  {
    var t := c.(count := Wrap(c.count + 1));
    TestsAccount(t);
    assert HblankTick(c, isVblank).flags in {c.flags, TestOverflow(TestTarget(t)).flags};
  }

  lemma StepAccounts(c: Counter, op: Op)
    requires RateOk(c)
    ensures Accounts(c.flags, Do(c, op).flags, TargetAck(c, op), OverflowAck(c, op))
  {
    match op
    case Sync(cycle) => UpdateAccounts(c, cycle);
    case GateStart(isVblank, sCycle, cycle) => HblankTickAccounts(c, isVblank);
    case _ =>
  }

  /** Over any run the target raises exactly as many interrupts as its flag was acknowledged, plus
      one if the flag went from clear to set; and so does the overflow. */
  lemma {:induction false} IrqsMatchAcks(c: Counter, ops: seq<Op>)
    requires RateOk(c)
    ensures Accounts(c.flags, DoAll(c, ops).flags, TargetAcks(c, ops), OverflowAcks(c, ops))
    ensures DoAll(c, ops).flags.targetIrqs <= c.flags.targetIrqs + TargetAcks(c, ops) + 1
    ensures DoAll(c, ops).flags.overflowIrqs <= c.flags.overflowIrqs + OverflowAcks(c, ops) + 1
    decreases |ops|
  {
    if ops != [] {
      StepAccounts(c, ops[0]);
      IrqsMatchAcks(Do(c, ops[0]), ops[1..]);
    }
  }

  // ---------------------------------------------------------------- targets behind the count

  /** The count that the operation compares with target and overflow, zero if it compares none. */
  function Tested(c: Counter, op: Op): u32
    requires RateOk(c)
  {
    if op.Sync? && Active(c) then Tick(c, Elapsed(c, op.cycle), op.cycle).count
    else if op.GateStart? && !op.isVblank && CountsHblanks(c) then Wrap(c.count + 1)
    else 0
  }

  /** A gate starts the timer from zero. */
  predicate GateResets(c: Counter, op: Op) {
    || (op.GateStart? && Gates(c, op.isVblank) && (c.mode.gateMode == 1 || c.mode.gateMode >= 3))
    || (op.GateEnd? && Gates(c, op.isVblank) && c.mode.gateMode >= 2)
  }

  /** What makes a target behind the count valid again. */
  predicate Rearms(c: Counter, op: Op)
    requires RateOk(c)
  {
    || Tested(c, op) > 0xffff
    || GateResets(c, op)
    || (op.WriteCount? && Low16(op.value) <= c.target)
    || (op.WriteTarget? && Rcount(c, op.cycle) < Low16(op.value))
  }

  lemma RestIsShort(elapsed: nat, rate: nat)
    requires rate > 0
    ensures Ticks(Rest(elapsed, rate), rate) == 0
  {
  }

  /** Taking in the elapsed cycles does not change what is read. */
  lemma CatchUpReads(c: Counter, cycle: u32)
    requires RateOk(c)
    ensures Rcount(CatchUp(c, cycle), cycle) == Rcount(c, cycle)
  {
    if Active(c) {
      var change := Wrap(cycle - c.sCycleT);
      BackByRest(cycle, Rest(change, c.rate));
      RestIsShort(change, c.rate);
    }
  }

  /** A written target is marked exactly when the count has reached it already; the count is unmoved. */
  lemma LateTargetMarked(c: Counter, value: u32, cycle: u32)
    requires RateOk(c)
    ensures Wtarget(c, value, cycle).future <==> Low16(value) <= Rcount(c, cycle)
    ensures Rcount(Wtarget(c, value, cycle), cycle) == Rcount(c, cycle)
  {
    CatchUpReads(c.(target := Low16(value), future := false), cycle);
  }

  /** A marked target, which the count stays below: no interrupt, and it stays marked unless rearmed. */
  ghost predicate Waits(c: Counter, d: Counter, rearmed: bool) {
    d.flags.targetIrqs == c.flags.targetIrqs && (d.future <==> !rearmed)
  }

  lemma UpdateWaits(c: Counter, cycle: u32)
    requires RateOk(c) && c.future && Tested(c, Sync(cycle)) < c.RawTarget()
    ensures Waits(c, Update(c, cycle), Tested(c, Sync(cycle)) > 0xffff)
  {
  }

  lemma StartGateWaits(c: Counter, op: Op)
    requires RateOk(c) && c.future && op.GateStart? && Tested(c, op) < c.RawTarget()
    ensures Waits(c, StartGate(c, op.isVblank, op.sCycle, op.cycle), Rearms(c, op))
  {
  }

  lemma StepWaits(c: Counter, op: Op)
    requires RateOk(c) && c.future && Tested(c, op) < c.RawTarget()
    ensures Waits(c, Do(c, op), Rearms(c, op))
  {
    match op
    case Sync(cycle) => UpdateWaits(c, cycle);
    case GateStart(_, _, _) => StartGateWaits(c, op);
    case WriteTarget(value, cycle) => LateTargetMarked(c, value, cycle);
    case _ =>
  }

  /** Updates are frequent enough for the compared counts to stay below the marked target, as long
      as the target is marked. */
  ghost predicate Below(c: Counter, ops: seq<Op>)
    requires RateOk(c)
    decreases |ops|
  {
    ops == [] || !c.future || (Tested(c, ops[0]) < FUTURE && Below(Do(c, ops[0]), ops[1..]))
  }

  /** Some step of the run rearms the target, and up to that step no target interrupt is raised. */
  ghost predicate RearmedFirst(c: Counter, ops: seq<Op>)
    requires RateOk(c)
    decreases |ops|
  {
    && ops != []
    && Do(c, ops[0]).flags.targetIrqs == c.flags.targetIrqs
    && (Rearms(c, ops[0]) || RearmedFirst(Do(c, ops[0]), ops[1..]))
  }

  /** A marked target raises no interrupt before an overflow, a gate reset, or a count or target
      written so that the target lies ahead. */
  lemma {:induction false} MarkedTargetWaits(c: Counter, ops: seq<Op>)
    requires RateOk(c) && c.future && Below(c, ops)
    ensures RearmedFirst(c, ops) || (DoAll(c, ops).future && DoAll(c, ops).flags.targetIrqs == c.flags.targetIrqs)
    decreases |ops|
  {
    if ops != [] {
      StepWaits(c, ops[0]);
      if !Rearms(c, ops[0]) {
        MarkedTargetWaits(Do(c, ops[0]), ops[1..]);
      }
    }
  }

  /** So does a target written at or behind the count. */
  lemma LateTargetWaits(c: Counter, value: u32, cycle: u32, ops: seq<Op>)
    requires RateOk(c) && Low16(value) <= Rcount(c, cycle)
    requires Below(Wtarget(c, value, cycle), ops)
    ensures var d := Wtarget(c, value, cycle);
            && d.flags.targetIrqs == c.flags.targetIrqs
            && (RearmedFirst(d, ops) || DoAll(d, ops).flags.targetIrqs == c.flags.targetIrqs)
  {
    LateTargetMarked(c, value, cycle);
    MarkedTargetWaits(Wtarget(c, value, cycle), ops);
  }

  // ---------------------------------------------------------------- what a written mode means

  function Weight(isSet: bool, weight: nat): nat { if isSet then weight else 0 }

  /** The mode register holds the written bits, but for the count bit of a timer that its gate stops. */
  predicate ReadsBack(m: Mode, gated: bool, value: u32) {
    && m.clockSource < 4 && m.gateMode < 4 && (gated ==> !m.isCounting)
    && m.clockSource + Weight(m.enableGate, 4) + Weight(m.gateSource, 8) + 16 * m.gateMode + Weight(m.zeroReturn, 64)
       + Weight(m.isCounting, 128) + Weight(m.targetInterrupt, 256) + Weight(m.overflowInterrupt, 512)
       + Weight(gated && value / 128 % 2 == 1, 128) == value % 0x400
  }

  /** The rates of the four clocks, in cycles. */
  predicate RateFor(rate: u32, value: u32, scanline: u32) {
    && (value % 4 == 0 ==> rate == 2) && (value % 4 == 1 ==> rate == 32)
    && (value % 4 == 2 ==> rate == 512) && (value % 4 == 3 ==> rate == scanline)
  }

  lemma Part4(v: nat)
    ensures v / 4 == 2 * (v / 8) + v / 4 % 2
  {
  }

  lemma Part8(v: nat)
    ensures v / 8 == 2 * (v / 16) + v / 8 % 2
  {
  }

  lemma Part16(v: nat)
    ensures v / 16 == 4 * (v / 64) + v / 16 % 4
  {
  }

  lemma Part64(v: nat)
    ensures v / 64 == 2 * (v / 128) + v / 64 % 2
  {
  }

  lemma Part128(v: nat)
    ensures v / 128 == 2 * (v / 256) + v / 128 % 2
  {
  }

  lemma Part256(v: nat)
    ensures v / 256 == 2 * (v / 512) + v / 256 % 2
  {
  }

  lemma Part512(v: nat)
    ensures v / 512 == 2 * (v / 0x400) + v / 512 % 2
  {
  }

  lemma WeightIs(r: nat, weight: nat)
    requires r < 2
    ensures Weight(r == 1, weight) == weight * r
  {
  }

  /** The parts add up. */
  lemma SumOfParts(v: int, q1: int, q2: int, q3: int, q4: int, q5: int, q6: int, q7: int, q8: int,
                   r0: int, r1: int, r2: int, r3: int, r4: int, r5: int, r6: int, r7: int)
    requires v == 4 * q1 + r0 && q1 == 2 * q2 + r1 && q2 == 2 * q3 + r2 && q3 == 4 * q4 + r3
    requires q4 == 2 * q5 + r4 && q5 == 2 * q6 + r5 && q6 == 2 * q7 + r6 && q7 == 2 * q8 + r7
    ensures v - 0x400 * q8 == r0 + 4 * r1 + 8 * r2 + 16 * r3 + 64 * r4 + 128 * r5 + 256 * r6 + 512 * r7
  {
  }

  lemma TenBits(v: nat)
    ensures v % 0x400 == v % 4 + 4 * (v / 4 % 2) + 8 * (v / 8 % 2) + 16 * (v / 16 % 4) + 64 * (v / 64 % 2)
                         + 128 * (v / 128 % 2) + 256 * (v / 256 % 2) + 512 * (v / 512 % 2)
  {
    Part4(v);
    Part8(v);
    Part16(v);
    Part64(v);
    Part128(v);
    Part256(v);
    Part512(v);
    SumOfParts(v, v / 4, v / 8, v / 16, v / 64, v / 128, v / 256, v / 512, v / 0x400,
               v % 4, v / 4 % 2, v / 8 % 2, v / 16 % 4, v / 64 % 2, v / 128 % 2, v / 256 % 2, v / 512 % 2);
  }

  lemma ModeBits(value: u32)
    ensures ReadsBack(ModeOf(value), false, value)
  {
    TenBits(value);
    WeightIs(value / 4 % 2, 4);
    WeightIs(value / 8 % 2, 8);
    WeightIs(value / 64 % 2, 64);
    WeightIs(value / 128 % 2, 128);
    WeightIs(value / 256 % 2, 256);
    WeightIs(value / 512 % 2, 512);
  }

  /** A written mode reads back, sets the rate of its clock, and gates the timer unless hblanks would gate an
      hblank counter; the count is kept as it was read unless the timer is gated, and a flag is set still
      unless its bit, 10 or 11, was written as one. */
  lemma ModeReadsBack(c: Counter, value: u32, cycle: u32, scanline: u32)
    requires RateOk(c)
    ensures var d := Wmode(c, value, cycle, scanline);
            && ReadsBack(d.mode, d.gated, value) && RateFor(d.rate, value, scanline)
            && (d.gated <==> value / 4 % 2 == 1 && (value / 8 % 2 == 1 || value % 4 != 3))
            && d.count == (if d.gated then 0 else Rcount(c, cycle))
            && (d.flags.targetReached <==> c.flags.targetReached && value / 0x400 % 2 == 0)
            && (d.flags.overflowReached <==> c.flags.overflowReached && value / 0x800 % 2 == 0)
  {
    ModeBits(value);
  }

  /** The timer raises what bits 8 and 9 of its mode ask for: after a write that lets it count cycles ungated,
      the first update that finds the count at the target raises the target's interrupt exactly if bit 8
      was set, and one that finds it beyond sixteen bits the overflow's exactly if bit 9 was. */
  lemma WrittenInterrupts(c: Counter, value: u32, cycle: u32, scanline: u32, at: u32, elapsed: nat)
    requires RateOk(c) && value % 4 < 3 && value / 4 % 2 == 0 && value / 128 % 2 == 1
    requires var d := Wmode(c, value, cycle, scanline);
             elapsed == Wrap(at - d.sCycleT) < 0x8000_0000 && d.rate > 0 && d.count + Ticks(elapsed, d.rate) < TWO32
    ensures var d := Wmode(c, value, cycle, scanline);
            var t, ideal := Update(d, at), d.count + Ticks(elapsed, d.rate);
            && (!d.future && !d.flags.targetReached && ideal >= d.target ==>
                 t.flags.targetIrqs == d.flags.targetIrqs + value / 256 % 2)
            && (!d.mode.zeroReturn && !d.flags.overflowReached && ideal > 0xffff ==>
                 t.flags.overflowIrqs == d.flags.overflowIrqs + value / 512 % 2)
  {
    var d := Wmode(c, value, cycle, scanline);
    assert Active(d) && Elapsed(d, at) == elapsed;
    var t := Tick(d, elapsed, at);
    assert t.count == d.count + Ticks(elapsed, d.rate) && t.flags == d.flags && t.mode == d.mode;
    TestsRaise(t);
  }

  lemma TestsRaise(t: Counter)
    ensures var d := TestOverflow(TestTarget(t));
            && (!t.future && !t.flags.targetReached && t.count >= t.target ==>
                 d.flags.targetIrqs == t.flags.targetIrqs + Flag(t.mode.targetInterrupt))
            && (!t.mode.zeroReturn && !t.flags.overflowReached && t.count > 0xffff ==>
                 d.flags.overflowIrqs == t.flags.overflowIrqs + Flag(t.mode.overflowInterrupt))
  {
  }
}
