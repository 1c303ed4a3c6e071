/** The horizontal and vertical sync sequencer of Counters.cpp, and the timing that vSyncInfoCalc gives it. */
module CounterSync {
  import opened CounterState
  import opened CounterSchedule

  const HRENDER: nat := 0
  const HBLANK: nat := 1
  const VRENDER: nat := 0
  const GSBLANK: nat := 2
  const VSYNC: nat := 3

  /** vSyncTimingInfo, in cycles. */
  datatype VSyncInfo = VSyncInfo(
    render: u32, blank: u32, gsBlank: u32, hSyncError: u32, hRender: u32, hBlank: u32, scanlines: u32)

  // ---------------------------------------------------------------- the two sequencers

  function NextH(h: SyncCounter, info: VSyncInfo): SyncCounter {
    if h.mode % 2 == HBLANK then SyncCounter(HRENDER, Wrap(h.sCycle + info.hBlank), Signed(info.hRender))
    else SyncCounter(HBLANK, Wrap(h.sCycle + info.hRender), Signed(info.hBlank))
  }

  predicate StartsVblank(v: SyncCounter) { v.mode != VSYNC && v.mode != GSBLANK }

  function NextV(v: SyncCounter, info: VSyncInfo): SyncCounter {
    if v.mode == VSYNC then SyncCounter(VRENDER, Wrap(v.sCycle + info.blank), Signed(info.render))
    else if v.mode == GSBLANK then SyncCounter(VSYNC, v.sCycle, Signed(info.blank))
    else SyncCounter(GSBLANK, Wrap(v.sCycle + info.render), Signed(info.gsBlank))
  }

  /** The hsync counter after a vertical event. */
  function CorrectedH(h: SyncCounter, v: SyncCounter, info: VSyncInfo): SyncCounter {
    if StartsVblank(v) then h.(sCycle := Wrap(h.sCycle + info.hSyncError)) else h
  }

  /** Both counters; how often each has fired, and how many VBLANK_S and VBLANK_E interrupts were raised. */
  datatype Syncs = Syncs(
    h: SyncCounter, v: SyncCounter, hEvents: nat, vEvents: nat, vblankStarts: nat, vblankEnds: nat)

  /** rcntUpdate_hScanline. */
  function HScanline(s: Syncs, info: VSyncInfo, cycle: u32): Syncs {
    if Due(s.h, cycle) then s.(h := NextH(s.h, info), hEvents := s.hEvents + 1) else s
  }

  /** rcntUpdate_vSync. */
  function VSync(s: Syncs, info: VSyncInfo, cycle: u32): Syncs {
    if !Due(s.v, cycle) then s
    else
      Syncs(CorrectedH(s.h, s.v, info), NextV(s.v, info), s.hEvents, s.vEvents + 1,
            s.vblankStarts + (if StartsVblank(s.v) then 1 else 0), s.vblankEnds + (if s.v.mode == VSYNC then 1 else 0))
  }

  lemma AgeAt(since: nat, at: nat)
    requires since <= at < since + 0x8000_0000
    ensures Signed(Wrap(Wrap(at) - Wrap(since))) == at - since
  {
  }

  /** Called less than 2^31 cycles into a phase, each fires exactly if the phase is over, and otherwise
      changes nothing, also when the clock wraps between. */
  lemma EventsWhenOver(s: Syncs, info: VSyncInfo, since: nat, at: nat)
    requires since <= at < since + 0x8000_0000
    ensures var t := HScanline(s, info, Wrap(at));
            s.h.sCycle == Wrap(since) ==>
              && t.hEvents == s.hEvents + (if at >= since + s.h.cycleT then 1 else 0)
              && (at < since + s.h.cycleT ==> t == s)
    ensures var t := VSync(s, info, Wrap(at));
            s.v.sCycle == Wrap(since) ==>
              && t.vEvents == s.vEvents + (if at >= since + s.v.cycleT then 1 else 0)
              && (at < since + s.v.cycleT ==> t == s)
  {
    AgeAt(since, at);
  }

  /** A call of either, at some cycle. */
  datatype Poll = PollH(cycle: u32) | PollV(cycle: u32)

  function PollOnce(s: Syncs, info: VSyncInfo, p: Poll): Syncs {
    match p
    case PollH(cycle) => HScanline(s, info, cycle)
    case PollV(cycle) => VSync(s, info, cycle)
  }

  function PollAll(s: Syncs, info: VSyncInfo, polls: seq<Poll>): Syncs
    decreases |polls|
  {
    if polls == [] then s else PollAll(PollOnce(s, info, polls[0]), info, polls[1..])
  }

  lemma {:induction false} PollMore(s: Syncs, info: VSyncInfo, polls: seq<Poll>, p: Poll)
    ensures PollAll(s, info, polls + [p]) == PollOnce(PollAll(s, info, polls), info, p)
    decreases |polls|
  {
    if polls == [] {
      assert [] + [p] == [p] && [p][1..] == [];
    } else {
      assert (polls + [p])[0] == polls[0] && (polls + [p])[1..] == polls[1..] + [p];
      PollMore(PollOnce(s, info, polls[0]), info, polls[1..], p);
    }
  }

  /** The counters as rcntInit leaves them. */
  function Initial(start: u32, info: VSyncInfo): Syncs {
    Syncs(SyncCounter(HRENDER, start, Signed(info.hRender)), SyncCounter(VRENDER, start, Signed(info.render)), 0, 0, 0, 0)
  }

  // ---------------------------------------------------------------- phase lock

  /** n times x, by addition. */
  function Times(n: nat, x: nat): nat { if n == 0 then 0 else Times(n - 1, x) + x }

  lemma {:induction false} TimesIs(n: nat, x: nat)
    ensures Times(n, x) == n * x
  {
    if n > 0 {
      TimesIs(n - 1, x);
      assert n * x == (n - 1) * x + x;
    }
  }

  /** The length of m scanlines and k half-frames' corrections. */
  function HTime(info: VSyncInfo, m: nat, k: nat): nat {
    Times(m, info.hRender + info.hBlank) + Times(k, info.hSyncError)
  }

  function VTime(info: VSyncInfo, k: nat): nat { Times(k, info.render + info.blank) }

  /** The state that the numbers of events determine. */
  ghost predicate Locked(s: Syncs, start: u32, info: VSyncInfo) {
    && LockedH(s.h, s.hEvents / 2, s.hEvents % 2 == 0, s.vblankStarts, start, info)
    && LockedV(s.v, s.vEvents / 3, s.vEvents % 3, start, info)
    && s.vblankStarts == (s.vEvents + 2) / 3 && s.vblankEnds == s.vEvents / 3
  }

  ghost predicate LockedH(h: SyncCounter, m: nat, render: bool, k: nat, start: u32, info: VSyncInfo) {
    if render then
      h == SyncCounter(HRENDER, Wrap(start + HTime(info, m, k)), Signed(info.hRender))
    else
      h == SyncCounter(HBLANK, Wrap(start + HTime(info, m, k) + info.hRender), Signed(info.hBlank))
  }

  ghost predicate LockedV(v: SyncCounter, k: nat, phase: nat, start: u32, info: VSyncInfo) {
    if phase == 0 then
      v == SyncCounter(VRENDER, Wrap(start + VTime(info, k)), Signed(info.render))
    else
      && v.sCycle == Wrap(start + VTime(info, k) + info.render)
      && v.mode == (if phase == 1 then GSBLANK else VSYNC)
      && v.cycleT == Signed(if phase == 1 then info.gsBlank else info.blank)
  }

  lemma WrapAdd(x: int, y: int)
    ensures Wrap(Wrap(x) + y) == Wrap(x + y)
  {
  }

  lemma NextHLocked(h: SyncCounter, m: nat, render: bool, k: nat, start: u32, info: VSyncInfo)
    requires LockedH(h, m, render, k, start, info)
    ensures LockedH(NextH(h, info), if render then m else m + 1, !render, k, start, info)
  {
    var t := start + HTime(info, m, k);
    WrapAdd(t, info.hRender);
    WrapAdd(t + info.hRender, info.hBlank);
    assert HTime(info, m + 1, k) == HTime(info, m, k) + info.hRender + info.hBlank;
  }

  lemma CorrectedHLocked(h: SyncCounter, v: SyncCounter, m: nat, render: bool, k: nat, start: u32, info: VSyncInfo)
    requires LockedH(h, m, render, k, start, info)
    ensures LockedH(CorrectedH(h, v, info), m, render, if StartsVblank(v) then k + 1 else k, start, info)
  {
    var t := start + HTime(info, m, k);
    WrapAdd(t, info.hSyncError);
    WrapAdd(t + info.hRender, info.hSyncError);
    assert HTime(info, m, k + 1) == HTime(info, m, k) + info.hSyncError;
  }

  lemma NextVLocked(v: SyncCounter, k: nat, phase: nat, start: u32, info: VSyncInfo)
    requires phase <= 2 && LockedV(v, k, phase, start, info)
    ensures LockedV(NextV(v, info), if phase == 2 then k + 1 else k, if phase == 2 then 0 else phase + 1, start, info)
    ensures StartsVblank(v) == (phase == 0) && (v.mode == VSYNC) == (phase == 2)
  {
    var t := start + VTime(info, k);
    WrapAdd(t, info.render);
    WrapAdd(t + info.render, info.blank);
    assert VTime(info, k + 1) == VTime(info, k) + info.render + info.blank;
  }

  lemma HScanlineLocked(s: Syncs, start: u32, info: VSyncInfo, cycle: u32)
    requires Locked(s, start, info)
    ensures Locked(HScanline(s, info, cycle), start, info)
  {
    NextHLocked(s.h, s.hEvents / 2, s.hEvents % 2 == 0, s.vblankStarts, start, info);
  }

  lemma NextThird(n: nat)
    ensures (n + 1) / 3 == n / 3 + (if n % 3 == 2 then 1 else 0) && (n + 1) % 3 == (if n % 3 == 2 then 0 else n % 3 + 1)
    ensures (n + 3) / 3 == (n + 2) / 3 + (if n % 3 == 0 then 1 else 0)
  {
  }

  lemma VSyncLocked(s: Syncs, start: u32, info: VSyncInfo, cycle: u32)
    requires Locked(s, start, info)
    ensures Locked(VSync(s, info, cycle), start, info)
  {
    NextThird(s.vEvents);
    NextVLocked(s.v, s.vEvents / 3, s.vEvents % 3, start, info);
    CorrectedHLocked(s.h, s.v, s.hEvents / 2, s.hEvents % 2 == 0, s.vblankStarts, start, info);
  }

  lemma PollLocked(s: Syncs, start: u32, info: VSyncInfo, p: Poll)
    requires Locked(s, start, info)
    ensures Locked(PollOnce(s, info, p), start, info)
  {
    match p
    case PollH(cycle) => HScanlineLocked(s, start, info, cycle);
    case PollV(cycle) => VSyncLocked(s, start, info, cycle);
  }

  lemma {:induction false} LockedRun(s: Syncs, start: u32, info: VSyncInfo, polls: seq<Poll>)
    requires Locked(s, start, info)
    ensures Locked(PollAll(s, info, polls), start, info)
    decreases |polls|
  {
    if polls != [] {
      PollLocked(s, start, info, polls[0]);
      LockedRun(PollOnce(s, info, polls[0]), start, info, polls[1..]);
    }
  }

  lemma PhaseAt(s: Syncs, start: u32, info: VSyncInfo, m: nat, k: nat)
    requires Locked(s, start, info) && s.hEvents == 2 * m && s.vEvents == 3 * k
    ensures s.h.sCycle == Wrap(start + HTime(info, m, k)) && s.v.sCycle == Wrap(start + VTime(info, k))
    ensures s.vblankStarts == k && s.vblankEnds == k
  {
  }

  /** Some calls, at whatever cycles, lead from rcntInit to this state. */
  ghost predicate Reached(s: Syncs, start: u32, info: VSyncInfo) {
    exists polls :: s == PollAll(Initial(start, info), info, polls)
  }

  lemma ReachedLocked(s: Syncs, start: u32, info: VSyncInfo)
    requires Reached(s, start, info)
    ensures Locked(s, start, info)
  {
    var polls :| s == PollAll(Initial(start, info), info, polls);
    LockedRun(Initial(start, info), start, info, polls);
  }

  lemma PhaseExact(s: Syncs, start: u32, info: VSyncInfo, m: nat, k: nat)
    requires Locked(s, start, info) && s.hEvents == 2 * m && s.vEvents == 3 * k
    ensures s.h.sCycle == Wrap(start + m * (info.hRender + info.hBlank) + k * info.hSyncError)
    ensures s.v.sCycle == Wrap(start + k * (info.render + info.blank))
  {
    PhaseAt(s, start, info, m, k);
    TimesIs(m, info.hRender + info.hBlank);
    TimesIs(k, info.hSyncError);
    TimesIs(k, info.render + info.blank);
  }

  /** Both sequencers stay locked to the clock, in any interleaving and however late the calls are:
      their phases follow from the numbers of events alone, and after 2m line events and 3k frame
      events the start cycles have advanced by exactly m lines, with k corrections, and by k
      half-frames, with one interrupt of each kind for each half-frame. */
  lemma PhaseLock(s: Syncs, start: u32, info: VSyncInfo, m: nat, k: nat)
    requires Reached(s, start, info)
    ensures Locked(s, start, info)
    ensures s.hEvents == 2 * m && s.vEvents == 3 * k ==>
              && s.h.sCycle == Wrap(start + m * (info.hRender + info.hBlank) + k * info.hSyncError)
              && s.v.sCycle == Wrap(start + k * (info.render + info.blank))
              && s.vblankStarts == k && s.vblankEnds == k
  {
    ReachedLocked(s, start, info);
    if s.hEvents == 2 * m && s.vEvents == 3 * k {
      PhaseExact(s, start, info, m, k);
    }
  }

  // ---------------------------------------------------------------- vSyncInfoCalc

  const TWO64: int := 0x1_0000_0000_0000_0000

  /** A time in ten-thousandths of a cycle, rounded to cycles. */
  function Rounded(x: nat): u32 { Wrap(Wrap(x / 10000) + if x % 10000 >= 5000 then 1 else 0) }

  /** The correction after half a frame, given the lengths of a line and of half a frame. */
  function HSyncError(line: nat, half: nat, scans: u32): u32 {
    Wrap(Wrap(half) - Wrap(Wrap(line) * scans) / 2)
  }

  function Blank(scanline: nat, ntsc: bool): nat { scanline * (if ntsc then 22 else 26) % TWO64 }

  function HBlank(scanline: nat, interlaced: bool): nat { if interlaced then scanline / 2 else scanline / 2 / 2 }

  function HRender(scanline: nat, interlaced: bool): nat {
    if interlaced then scanline - scanline / 2 else (scanline - scanline / 2) / 2
  }

  function Scanline(frame: nat, scans: u32): nat
    requires scans > 0
  {
    frame / scans
  }

  /** vSyncInfoCalc, for a frame of that many ten-thousandths of a cycle. */
  function VSyncInfoCalc(frame: nat, scans: u32, interlaced: bool, ntsc: bool): VSyncInfo
    requires scans > 0
  {
    TimingOf(frame / 2, Scanline(frame, scans), scans, interlaced, ntsc)
  }

  function TimingOf(halfFrame: nat, scanline: nat, scans: u32, interlaced: bool, ntsc: bool): VSyncInfo {
    var blank := Rounded(Blank(scanline, ntsc));
    var render := Rounded((halfFrame - Blank(scanline, ntsc)) % TWO64);
    var hBlank, hRender := Rounded(HBlank(scanline, interlaced)), Rounded(HRender(scanline, interlaced));
    VSyncInfo(render, blank, Wrap(scanline * 7 / 2 / 10000),
              if interlaced then HSyncError(hRender + hBlank, render + blank, scans) else 0, hRender, hBlank, scans)
  }

  /** What is lost when the product of line length and line count is halved. */
  function OddCycle(info: VSyncInfo): nat { (info.hRender + info.hBlank) * info.scanlines % 2 }

  lemma WrapTimes(x: int, n: nat)
    ensures Wrap(Wrap(x) * n) == Wrap(x * n)
  {
    var q := x / TWO32;
    assert Wrap(x) == x - q * TWO32;
    assert Wrap(x) * n == x * n - q * n * TWO32 by {
      assert (x - q * TWO32) * n == x * n - q * TWO32 * n;
      assert q * TWO32 * n == q * n * TWO32;
    }
    Shifted(x * n, - (q * n));
  }

  lemma Shifted(x: int, q: int)
    ensures Wrap(x + q * TWO32) == Wrap(x)
  {
  }

  lemma HalvedTwice(p: int)
    ensures 2 * (Wrap(p) / 2) == Wrap(p) - p % 2
  {
  }

  lemma ErrorBalances(line: nat, half: nat, scans: u32) returns (q: int)
    ensures line * scans + 2 * HSyncError(line, half, scans) - 2 * half == line * scans % 2 + q * TWO32
  {
    var p := line * scans;
    WrapTimes(line, scans);
    HalvedTwice(p);
    var e := Wrap(half) - Wrap(p) / 2;
    q := p / TWO32 - 2 * (e / TWO32) - 2 * (half / TWO32);
  }

  lemma {:induction false} TimesAdd(m: nat, n: nat, x: nat)
    ensures Times(m + n, x) == Times(m, x) + Times(n, x)
    decreases n
  {
    if n > 0 {
      TimesAdd(m, n - 1, x);
    }
  }

  lemma WrapSame(a: int, b: int, odd: nat, q: int)
    requires Wrap(a) == Wrap(b)
    ensures Wrap(a + odd + q * TWO32) == Wrap(b + odd)
  {
  }

  /** j frames of lines and two half-frames. */
  lemma {:induction false} ManyBalance(line: nat, half: nat, scans: u32, e: u32, odd: nat, q: int, j: nat)
    requires Times(scans, line) + 2 * e - 2 * half == odd + q * TWO32
    ensures Wrap(Times(Times(j, scans), line) + Times(2 * j, e) - Times(2 * j, half)) == Wrap(Times(j, odd))
    decreases j
  {
    if j > 0 {
      ManyBalance(line, half, scans, e, odd, q, j - 1);
      TimesAdd(Times(j - 1, scans), scans, line);
      TimesAdd(2 * (j - 1), 2, e);
      TimesAdd(2 * (j - 1), 2, half);
      assert Times(2, e) == 2 * e && Times(2, half) == 2 * half;
      WrapSame(Times(Times(j - 1, scans), line) + Times(2 * (j - 1), e) - Times(2 * (j - 1), half), Times(j - 1, odd), odd, q);
    }
  }

  /** The correction is that of an interlaced mode. */
  predicate Interlaced(info: VSyncInfo) {
    info.hSyncError == HSyncError(info.hRender + info.hBlank, info.render + info.blank, info.scanlines)
  }

  /** In interlaced modes j frames' worth of lines, with their corrections, exceed their half-frames by
      the odd cycle of each frame. */
  lemma CorrectionsBalance(info: VSyncInfo, j: nat)
    requires Interlaced(info)
    ensures Wrap(HTime(info, Times(j, info.scanlines), 2 * j) - VTime(info, 2 * j)) == Wrap(Times(j, OddCycle(info)))
  {
    var line, half, scans := info.hRender + info.hBlank, info.render + info.blank, info.scanlines;
    var q := ErrorBalances(line, half, scans);
    TimesIs(scans, line);
    ManyBalance(line, half, scans, info.hSyncError, OddCycle(info), q, j);
  }

  lemma InStep(s: Syncs, start: u32, info: VSyncInfo, m: nat, k: nat)
    requires Locked(s, start, info) && s.hEvents == 2 * m && s.vEvents == 3 * k
    ensures Wrap(s.h.sCycle - s.v.sCycle) == Wrap(HTime(info, m, k) - VTime(info, k))
  {
    PhaseAt(s, start, info, m, k);
    WrapMinusWrap(start + HTime(info, m, k), start + VTime(info, k));
  }

  lemma LockedLines(s: Syncs, start: u32, info: VSyncInfo, j: nat)
    requires Interlaced(info) && Locked(s, start, info)
    requires s.hEvents == 2 * Times(j, info.scanlines) && s.vEvents == 3 * (2 * j)
    ensures Wrap(s.h.sCycle - s.v.sCycle) == Wrap(Times(j, OddCycle(info)))
  {
    CorrectionsBalance(info, j);
    InStep(s, start, info, Times(j, info.scanlines), 2 * j);
  }

  /** Lines and frames keep in step: in an interlaced mode, after j frames' worth of lines and of
      half-frames, the hsync counter is ahead of the vsync counter by one cycle a frame if the product
      of line length and line count is odd, and by none if it is even. */
  lemma LinesMatchFrames(s: Syncs, start: u32, info: VSyncInfo, j: nat)
    requires Interlaced(info) && Reached(s, start, info)
    requires s.hEvents == 2 * Times(j, info.scanlines) && s.vEvents == 3 * (2 * j)
    ensures Wrap(s.h.sCycle - s.v.sCycle) == Wrap(Times(j, OddCycle(info))) && OddCycle(info) <= 1
  {
    ReachedLocked(s, start, info);
    LockedLines(s, start, info, j);
  }

  lemma CalcInterlaced(frame: nat, scans: u32, ntsc: bool)
    requires scans > 0
    ensures var info := VSyncInfoCalc(frame, scans, true, ntsc); Interlaced(info) && info.scanlines == scans
  {
  }

  lemma TimesOne(x: nat)
    ensures Times(1, x) == x
  {
  }

  lemma AtMostOne(odd: nat)
    requires odd <= 1
    ensures Wrap(Times(1, odd)) <= 1
  {
  }

  /** The case of one frame, for the timing that vSyncInfoCalc gives: a frame's lines and two half-frames
      differ by at most one cycle. */
  lemma FrameWithinOneCycle(frame: nat, scans: u32, ntsc: bool, info: VSyncInfo, start: u32, s: Syncs)
    requires scans > 0 && info == VSyncInfoCalc(frame, scans, true, ntsc) && Reached(s, start, info)
    requires s.hEvents == 2 * scans && s.vEvents == 6
    ensures Wrap(s.h.sCycle - s.v.sCycle) <= 1
  {
    CalcInterlaced(frame, scans, ntsc);
    TimesOne(scans);
    LinesMatchFrames(s, start, info, 1);
    AtMostOne(OddCycle(info));
  }

  lemma WrapMinusWrap(x: int, y: int)
    ensures Wrap(Wrap(x) - Wrap(y)) == Wrap(x - y)
  {
  }

  // ---------------------------------------------------------------- the timing in lines

  /** x ten-thousandths of a cycle, to the nearest cycle. */
  predicate Nearest(cycles: u32, x: nat) {
    10000 * cycles <= x + 5000 && x < 10000 * cycles + 5000
  }

  lemma RoundsToNearest(x: nat)
    requires x < 0x1000_0000_0000
    ensures Nearest(Rounded(x), x)
  {
  }

  lemma BlankIs(line: nat, half: nat, ntsc: bool)
    requires 26 * line <= half < 0x100_0000_0000
    ensures Blank(line, ntsc) == (if ntsc then 22 * line else 26 * line)
    ensures (half - Blank(line, ntsc)) % TWO64 == half - (if ntsc then 22 * line else 26 * line)
  {
  }

  /** Blanking lasts 26 lines, or 22 in NTSC, and rendering the rest of half the frame; GS blanking three and
      a half lines, rounded down; a line is half render, half blank, and half as long when not interlaced. */
  ghost predicate InLines(info: VSyncInfo, half: nat, line: nat, interlaced: bool, ntsc: bool) {
    var blank := if ntsc then 22 * line else 26 * line;
    && blank <= half && Nearest(info.blank, blank) && Nearest(info.render, half - blank)
    && 20000 * info.gsBlank <= 7 * line < 20000 * info.gsBlank + 20000
    && (if interlaced then Nearest(info.hBlank, line / 2) && Nearest(info.hRender, line - line / 2)
        else Nearest(info.hBlank, line / 2 / 2) && Nearest(info.hRender, (line - line / 2) / 2) && info.hSyncError == 0)
  }

  lemma TimingInLines(half: nat, line: nat, scans: u32, interlaced: bool, ntsc: bool)
    requires 26 * line <= half < 0x100_0000_0000
    ensures InLines(TimingOf(half, line, scans, interlaced, ntsc), half, line, interlaced, ntsc)
  {
    BlankIs(line, half, ntsc);
    var blank := if ntsc then 22 * line else 26 * line;
    RoundsToNearest(blank);
    RoundsToNearest(half - blank);
    RoundsToNearest(HBlank(line, interlaced));
    RoundsToNearest(HRender(line, interlaced));
    GsBlankRounds(line);
  }

  /** That is the timing of every frame of under 2^40 ten-thousandths of a cycle and at least 100 lines. */
  lemma CalcInLines(frame: nat, scans: u32, interlaced: bool, ntsc: bool)
    requires 100 <= scans && frame < 0x100_0000_0000
    ensures var info := VSyncInfoCalc(frame, scans, interlaced, ntsc);
            InLines(info, frame / 2, frame / scans, interlaced, ntsc) && info.scanlines == scans
  {
    LinesFit(frame, scans);
    TimingInLines(frame / 2, frame / scans, scans, interlaced, ntsc);
  }

  lemma GsBlankRounds(line: nat)
    requires line < 0x100_0000_0000
    ensures var g := Wrap(line * 7 / 2 / 10000); 20000 * g <= 7 * line < 20000 * g + 20000
  {
  }

  lemma LinesFit(frame: nat, scans: nat)
    requires scans >= 100
    ensures 52 * (frame / scans) <= frame
  {
    var line := frame / scans;
    assert frame >= scans * line;
    assert scans * line >= 100 * line;
  }
}
