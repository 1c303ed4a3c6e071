/** The EE timers of Counters.cpp: their registers, and what each operation does to one timer.
    Cycle counts are 32 bits wide and wrap. */
module CounterState {
  import opened Arithmetic

  const TWO32: int := 0x1_0000_0000
  const FUTURE: int := 0x1000_0000

  type u32 = x: int | 0 <= x < 0x1_0000_0000
  type s32 = x: int | -0x8000_0000 <= x < 0x8000_0000
  type u16 = x: int | 0 <= x < 0x1_0000

  /** Assignment of an integer to a u32. */
  function Wrap(x: int): u32 { x % 0x1_0000_0000 }

  /** A u32 read as an s32. */
  function Signed(x: u32): s32 { if x < 0x8000_0000 then x else x - TWO32 }

  /** The lower ten bits of EECNT_MODE, in bit order. */
  datatype Mode = Mode(
    clockSource: nat, enableGate: bool, gateSource: bool, gateMode: nat, zeroReturn: bool,
    isCounting: bool, targetInterrupt: bool, overflowInterrupt: bool)

  /** The upper two bits of EECNT_MODE, TargetReached and OverflowReached, each with the number of
      interrupts raised on setting it. */
  datatype Flags = Flags(targetReached: bool, targetIrqs: nat, overflowReached: bool, overflowIrqs: nat)

  /** A timer.  `future` is the EECNT_FUTURE_TARGET bit of the source's `target`, `gated` the timer's
      bit of the global `gates`. */
  datatype Counter = Counter(
    count: u32, mode: Mode, flags: Flags, target: u16, future: bool, hold: u32, rate: u32, sCycleT: u32,
    gated: bool)
  {
    /** The source's `target`, guard bit included. */
    function RawTarget(): u32 { if future then target + FUTURE else target }
  }

  function Low16(x: u32): u16 { x % 0x1_0000 }

  // ---------------------------------------------------------------- rates

  /** The rate of a clock source; `scanline` is hBlank + hRender. */
  function RateOf(clockSource: nat, scanline: u32): u32 {
    if clockSource == 0 then 2 else if clockSource == 1 then 32 else if clockSource == 2 then 512 else scanline
  }

  /** The rate is that of the clock source, unless the timer counts hblanks. */
  predicate RateOk(c: Counter) {
    c.mode.clockSource == 3 || (c.mode.clockSource < 3 && c.rate == RateOf(c.mode.clockSource, 0))
  }

  // ---------------------------------------------------------------- counting

  /** The timer counts cycles, rather than hblanks or nothing. */
  predicate Active(c: Counter) { c.mode.isCounting && c.mode.clockSource != 3 }

  /** The ticks of an ideal counter in that many cycles, one at a time; the source divides. */
  function Ticks(elapsed: nat, rate: nat): nat
    requires rate > 0
  {
    if elapsed < rate then 0 else 1 + Ticks(elapsed - rate, rate)
  }

  /** The cycles left over. */
  function Rest(elapsed: nat, rate: nat): (r: nat)
    requires rate > 0
    ensures r < rate && r <= elapsed
  {
    if elapsed < rate then elapsed else Rest(elapsed - rate, rate)
  }

  /** Division does count the ticks. */
  lemma {:induction false} TicksDivide(elapsed: nat, rate: nat)
    requires rate > 0
    ensures Ticks(elapsed, rate) == elapsed / rate && Rest(elapsed, rate) == elapsed % rate
  {
    if elapsed < rate {
      Quotient(elapsed, rate, 0, elapsed);
    } else {
      var x := elapsed - rate;
      TicksDivide(x, rate);
      Quotient(elapsed, rate, x / rate + 1, x % rate);
    }
  }

  lemma BackByRest(cycle: u32, r: u32)
    ensures Wrap(cycle - Wrap(cycle - r)) == r
  {
  }

  /** Adds the whole ticks of `change` cycles, and moves sCycleT so as to keep the rest. */
  function Tick(c: Counter, change: nat, cycle: u32): Counter
    requires c.rate > 0
  {
    c.(count := Wrap(c.count + Ticks(change, c.rate)), sCycleT := Wrap(cycle - Rest(change, c.rate)))
  }

  /** What no test changes. */
  predicate SameClock(c: Counter, d: Counter) {
    && d.sCycleT == c.sCycleT && d.rate == c.rate && d.gated == c.gated && d.target == c.target
    && d.mode == c.mode
  }

  function ReachTarget(m: Mode, f: Flags): Flags {
    if m.targetInterrupt && !f.targetReached then f.(targetReached := true, targetIrqs := f.targetIrqs + 1) else f
  }

  function ReachOverflow(m: Mode, f: Flags): Flags {
    if m.overflowInterrupt && !f.overflowReached then f.(overflowReached := true, overflowIrqs := f.overflowIrqs + 1) else f
  }

  /** _cpuTestTarget. */
  function TestTarget(c: Counter): (d: Counter)
    ensures SameClock(c, d)
  {
    if c.count < c.RawTarget() then c
    else
      var d := c.(flags := ReachTarget(c.mode, c.flags));
      if d.mode.zeroReturn then d.(count := d.count - d.RawTarget()) else d.(future := true)
  }

  /** _cpuTestOverflow. */
  function TestOverflow(c: Counter): (d: Counter)
    ensures SameClock(c, d)
  {
    if c.count <= 0xffff then c
    else c.(flags := ReachOverflow(c.mode, c.flags), count := c.count - 0x1_0000, future := false)
  }

  /** The cycles since sCycleT as rcntUpdate takes them: signed, and none if negative. */
  function Elapsed(c: Counter, cycle: u32): nat {
    var change := Signed(Wrap(cycle - c.sCycleT));
    if change < 0 then 0 else change
  }

  /** The body of the loop of rcntUpdate. */
  function Update(c: Counter, cycle: u32): (d: Counter)
    requires RateOk(c)
    ensures RateOk(d)
  {
    if Active(c) then TestOverflow(TestTarget(Tick(c, Elapsed(c, cycle), cycle)))
    else if c.mode.isCounting then c.(sCycleT := cycle)
    else c
  }

  /** rcntRcount, and rcntCycle. */
  function Rcount(c: Counter, cycle: u32): u32
    requires RateOk(c)
  {
    if Active(c) then Wrap(c.count + Ticks(Wrap(cycle - c.sCycleT), c.rate)) else c.count
  }

  // ---------------------------------------------------------------- gates

  function Restart(c: Counter, sCycle: u32): Counter {
    c.(mode := c.mode.(isCounting := true), count := 0, future := false, sCycleT := sCycle)
  }

  /** The timer counts hblanks. */
  predicate CountsHblanks(c: Counter) { c.mode.isCounting && c.mode.clockSource == 3 }

  /** The first half of the body of the loop of rcntStartGate. */
  function HblankTick(c: Counter, isVblank: bool): (d: Counter)
    ensures SameClock(c, d)
  {
    if !isVblank && CountsHblanks(c) then TestOverflow(TestTarget(c.(count := Wrap(c.count + 1)))) else c
  }

  /** The signal is the one that gates the timer. */
  predicate Gates(c: Counter, isVblank: bool) { c.gated && c.mode.gateSource == isVblank }

  /** The second half. */
  function RaiseGate(c: Counter, isVblank: bool, sCycle: u32, cycle: u32): (d: Counter)
    requires RateOk(c)
    ensures RateOk(d) && d.flags == c.flags
  {
    if !Gates(c, isVblank) || c.mode.gateMode == 2 then c
    else if c.mode.gateMode == 0 then
      c.(count := Rcount(c, cycle), mode := c.mode.(isCounting := false), sCycleT := sCycle)
    else Restart(c, sCycle)
  }

  /** The body of the loop of rcntStartGate. */
  function StartGate(c: Counter, isVblank: bool, sCycle: u32, cycle: u32): (d: Counter)
    requires RateOk(c)
    ensures RateOk(d) && d.flags == HblankTick(c, isVblank).flags
  {
    RaiseGate(HblankTick(c, isVblank), isVblank, sCycle, cycle)
  }

  /** The body of the loop of rcntEndGate. */
  function EndGate(c: Counter, isVblank: bool, sCycle: u32, cycle: u32): (d: Counter)
    ensures d.flags == c.flags && d.rate == c.rate && d.mode.clockSource == c.mode.clockSource
  {
    if !Gates(c, isVblank) || c.mode.gateMode == 1 then c
    else if c.mode.gateMode == 0 then c.(mode := c.mode.(isCounting := true), sCycleT := cycle)
    else Restart(c, sCycle)
  }

  // ---------------------------------------------------------------- register writes

  function Bit(value: u32, weight: nat): bool
    requires weight > 0
  {
    value / weight % 2 == 1
  }

  function ModeOf(value: u32): Mode {
    Mode(value % 4, Bit(value, 4), Bit(value, 8), value / 16 % 4, Bit(value, 64), Bit(value, 128),
         Bit(value, 256), Bit(value, 512))
  }

  /** The flags are cleared by writing ones. */
  function Acknowledge(f: Flags, value: u32): Flags {
    f.(targetReached := f.targetReached && !Bit(value, 0x400), overflowReached := f.overflowReached && !Bit(value, 0x800))
  }

  /** Elapsed ticks taken into the count by a register write, with an unsigned difference. */
  function CatchUp(c: Counter, cycle: u32): Counter
    requires RateOk(c)
  {
    if Active(c) then Tick(c, Wrap(cycle - c.sCycleT), cycle) else c
  }

  /** rcntWmode, up to rescheduling. */
  function Wmode(c: Counter, value: u32, cycle: u32, scanline: u32): (d: Counter)
    requires RateOk(c)
    ensures RateOk(d)
  {
    var d := if c.mode.isCounting then CatchUp(c, cycle) else c.(sCycleT := cycle);
    var e := d.(mode := ModeOf(value), flags := Acknowledge(d.flags, value), rate := RateOf(value % 4, scanline));
    SetGate(e, cycle)
  }

  /** _rcntSetGate. */
  function SetGate(c: Counter, cycle: u32): Counter {
    if c.mode.enableGate && !(!c.mode.gateSource && c.mode.clockSource == 3) then
      c.(gated := true, mode := c.mode.(isCounting := false), count := 0, sCycleT := cycle)
    else c.(gated := false)
  }

  /** rcntWcount, up to rescheduling. */
  function Wcount(c: Counter, value: u32, cycle: u32): (d: Counter)
    requires RateOk(c)
    ensures RateOk(d)
  {
    var d := c.(count := Low16(value), future := Low16(value) > c.target);
    if !d.mode.isCounting then d.(sCycleT := cycle)
    else if d.mode.clockSource == 3 then d
    else
      var change := Signed(Wrap(cycle - d.sCycleT));
      if change > 0 then d.(sCycleT := Wrap(cycle - Rest(change, d.rate))) else d
  }

  /** rcntWtarget, up to rescheduling. */
  function Wtarget(c: Counter, value: u32, cycle: u32): (d: Counter)
    requires RateOk(c)
    ensures RateOk(d)
  {
    var d := CatchUp(c.(target := Low16(value), future := false), cycle);
    d.(future := d.target <= Rcount(d, cycle))
  }

  function Whold(c: Counter, value: u32): Counter { c.(hold := value) }
}
