/** WorkSema of Threading.h and Semaphore.cpp: one worker, any number of notifiers and one thread
    that waits for the queue to drain, sharing one s32 and two kernel semaphores.

    Every atomic access and every semaphore operation is one step.  A bit test on an s32 is
    written with / and %: masking with 2^30 - 1 is the remainder by 2^30 in two's complement. */
module WorkSema {

  const FLAG: int := 0x4000_0000
  const DEAD: int := -0x8000_0000
  const SPINNING: int := -2
  const SLEEPING: int := -1

  type s32 = x: int | -0x8000_0000 <= x < 0x8000_0000

  // ---------------------------------------------------------------- the encoding

  predicate IsDead(v: s32) { v < SPINNING }

  predicate IsReadyForSleep(v: s32) { v % FLAG == 0 }

  /** v & STATE_FLAG_WAITING_EMPTY, as a truth value. */
  predicate WaitingEmpty(v: s32) { v / FLAG % 2 == 1 }

  /** v & STATE_FLAG_WAITING_EMPTY. */
  function FlagOf(v: s32): s32 { if WaitingEmpty(v) then FLAG else 0 }

  /** v | STATE_FLAG_WAITING_EMPTY. */
  function WithFlag(v: s32): s32 { if WaitingEmpty(v) then v else v + FLAG }

  /** new_state | (current & flag), for the two new states there are. */
  function NextStateWaitForWork(v: s32): s32 {
    if IsReadyForSleep(v) then SLEEPING else FlagOf(v)
  }

  /** The sum that fetch_add(2) stores. */
  function AddTwo(v: s32): s32 {
    if v + 2 < 0x8000_0000 then v + 2 else v + 2 - 0x1_0000_0000
  }

  /** What a value of m_state stands for. */
  datatype Abstract = Dead | Spinning | Sleeping | Running(pending: bool, waitingEmpty: bool)

  function Decode(v: s32): Abstract {
    if v < SPINNING then Dead
    else if v == SPINNING then Spinning
    else if v == SLEEPING then Sleeping
    else Running(v % FLAG != 0, v >= FLAG)
  }

  /** The state changes documented for NotifyOfWork. */
  function Notified(a: Abstract): Abstract {
    match a
    case Dead => Dead
    case Spinning => Running(false, false)
    case Sleeping => Running(true, false)
    case Running(_, w) => Running(true, w)
  }

  /** fetch_add(2) does what is documented exactly for the values that are not about to run into
      the flag, the sign, or the live states from below. */
  lemma NotifyRefines(v: s32)
    ensures Decode(AddTwo(v)) == Notified(Decode(v)) <==>
            (v >= 0 ==> v % FLAG < FLAG - 2) && v != -3 && v != -4
  {
  }

  /** The value after k notifications from v, whatever wraps. */
  function AddTwoTimes(v: s32, k: nat): s32 {
    if k == 0 then v else AddTwo(AddTwoTimes(v, k - 1))
  }

  /** Exactly when work is forgotten: a worker that has acknowledged (m_state is 0 or just the
      flag) and is then notified k times finds the state ready for sleep iff 2^29 divides k. */
  lemma PendingSurvives(v: s32, k: nat)
    requires v == 0 || v == FLAG
    ensures IsReadyForSleep(AddTwoTimes(v, k)) <==> k % 0x2000_0000 == 0
  {
    AddTwoTimesMod(v, k);
    var q, r := k / 0x2000_0000, k % 0x2000_0000;
    RemainderOf(v + 2 * k, q + (if v == 0 then 0 else 1), 2 * r);
  }

  /** The first such number of notifications. */
  lemma WorkForgotten()
    ensures IsReadyForSleep(AddTwoTimes(0, 0x2000_0000))
  {
    PendingSurvives(0, 0x2000_0000);
  }

  lemma RemainderOf(x: int, q: int, r: int)
    requires x == FLAG * q + r && 0 <= r < FLAG
    ensures x % FLAG == r
  {
  }

  lemma {:induction false} AddTwoTimesMod(v: s32, k: nat)
    ensures AddTwoTimes(v, k) % FLAG == (v + 2 * k) % FLAG
  {
    if k > 0 { AddTwoTimesMod(v, k - 1); }
  }

  /** The worker's other operations, on the running states. */
  lemma WorkerOpsRefine(v: s32)
    requires v >= 0
    ensures IsReadyForSleep(v) <==> !Decode(v).pending
    ensures Decode(NextStateWaitForWork(v)) == if Decode(v).pending then Running(false, Decode(v).waitingEmpty) else Sleeping
    ensures Decode(FlagOf(v)) == Running(false, Decode(v).waitingEmpty)
    ensures WithFlag(v) >= 0 && Decode(WithFlag(v)) == Running(Decode(v).pending, true)
  {
  }

  // ---------------------------------------------------------------- the machine

  type Item = nat
  type Thread = nat

  /** Where the worker is.  TryWait is the CAS loop of WaitForWork, TrySpin and Spin the two
      loops of WaitForWorkWithSpin, each with its local `value`. */
  datatype Worker =
    | Working
    | Drained
    | TryWait(v: s32)
    | TrySpin(v: s32)
    | Spin(v: s32)
    | PostEmpty(thenSleep: bool)
    | Asleep
    | Acknowledging
    | PostOnKill
    | Gone

  /** Where the thread in WaitForEmpty or WaitForEmptyWithSpin is.  `asked` is everything
      announced before the call. */
  datatype Waiter =
    | Idle
    | Called(asked: set<Item>)
    | TryFlag(v: s32, asked: set<Item>)
    | Blocked(asked: set<Item>)
    | Woken(asked: set<Item>)
    | Returned(result: bool, asked: set<Item>)

  /** `queue` holds work added and not yet processed, `notifying` the threads between adding their
      work and NotifyOfWork, `posting` those that owe m_sema a Post.  The last line is history:
      m_state is base + 2 * count, plus the flag if `flagged`, and `covered` was announced when
      the worker last acknowledged. */
  datatype State = State(
    mState: s32, sema: nat, emptySema: nat,
    worker: Worker, waiter: Waiter,
    notifying: map<Thread, Item>, posting: set<Thread>,
    queue: set<Item>, announced: set<Item>, processed: set<Item>,
    base: s32, count: nat, flagged: bool, covered: set<Item>)

  const INITIAL: State :=
    State(0, 0, 0, Working, Idle, map[], {}, {}, {}, {}, 0, 0, false, {})

  datatype Action =
    // notifiers
    | AddWork(t: Thread, x: Item)
    | Announce(t: Thread)
    | Post(t: Thread)
    // the worker; a CAS that does not succeed reloads its local, even when the values agree
    | Process(x: Item)
    | FindEmpty
    | LoadForWait
    | LoadForSpin
    | CasWait(success: bool)
    | CasSpin(success: bool)
    | PostToWaiter
    | SpinReload
    | CasSleep(success: bool)
    | TakeToken
    | Acknowledge
    | Kill
    | Reset
    // the thread waiting for empty
    | Call
    | LoadForEmpty
    | CasFlag(success: bool)
    | TakeEmptyToken
    | LoadResult
    | Return

  predicate Enabled(s: State, a: Action) {
    match a
    case AddWork(t, x) => t !in s.notifying && t !in s.posting && x !in s.queue + s.processed
    case Announce(t) => t in s.notifying
    case Post(t) => t in s.posting
    case Process(x) => s.worker.Working? && x in s.queue
    case FindEmpty => s.worker.Working? && s.queue == {}
    case LoadForWait => s.worker.Drained?
    case LoadForSpin => s.worker.Drained?
    case CasWait(success) => s.worker.TryWait? && (success ==> s.mState == s.worker.v)
    case CasSpin(success) => s.worker.TrySpin? && (success ==> s.mState == s.worker.v)
    case PostToWaiter => s.worker.PostEmpty? || s.worker.PostOnKill?
    case SpinReload => s.worker.Spin?
    case CasSleep(success) => s.worker.Spin? && (success ==> s.mState == s.worker.v)
    case TakeToken => s.worker.Asleep? && s.sema > 0
    case Acknowledge => s.worker.Acknowledging?
    case Kill => s.worker.Working? || s.worker.Drained? || s.worker.Asleep?
    case Reset => s.worker.Gone?
    case Call => s.waiter.Idle?
    case LoadForEmpty => s.waiter.Called?
    case CasFlag(success) => s.waiter.TryFlag? && (success ==> s.mState == s.waiter.v)
    case TakeEmptyToken => s.waiter.Blocked? && s.emptySema > 0
    case LoadResult => s.waiter.Woken?
    case Return => s.waiter.Returned?
  }

  /** The two loop tests of WaitForWorkWithSpin on a value just loaded. */
  function AfterLoad(v: s32): Worker {
    if IsReadyForSleep(v) then TrySpin(v) else AfterSpinLoad(v)
  }

  function AfterSpinLoad(v: s32): Worker {
    if v < 0 then Spin(v) else Acknowledging
  }

  /** The loop of WaitForEmpty on a value just loaded. */
  function AfterEmptyLoad(v: s32, asked: set<Item>): Waiter {
    if v < 0 then Returned(!IsDead(v), asked) else TryFlag(v, asked)
  }

  /** The worker acknowledges: whatever has been announced will be found in the queue. */
  function Acknowledged(s: State, v: s32): State {
    s.(mState := FlagOf(v), base := 0, count := 0, covered := s.announced, worker := Working)
  }

  function Apply(s: State, a: Action): State
    requires Enabled(s, a)
  {
    match a
    case AddWork(t, x) => s.(queue := s.queue + {x}, notifying := s.notifying[t := x])
    case Announce(t) =>
      s.(mState := AddTwo(s.mState), count := s.count + 1,
         announced := s.announced + {s.notifying[t]}, notifying := s.notifying - {t},
         posting := if s.mState == SLEEPING then s.posting + {t} else s.posting)
    case Post(t) => s.(posting := s.posting - {t}, sema := s.sema + 1)
    case Process(x) => s.(queue := s.queue - {x}, processed := s.processed + {x})
    case FindEmpty => s.(worker := Drained)
    case LoadForWait => s.(worker := TryWait(s.mState))
    case LoadForSpin => s.(worker := AfterLoad(s.mState))
    case CasWait(success) =>
      var v := s.worker.v;
      if !success then s.(worker := TryWait(s.mState))
      else if !IsReadyForSleep(v) then Acknowledged(s, NextStateWaitForWork(v))
      else s.(mState := NextStateWaitForWork(v), base := SLEEPING, flagged := false,
              worker := if WaitingEmpty(v) then PostEmpty(true) else Asleep)
    case CasSpin(success) =>
      if !success then s.(worker := AfterLoad(s.mState))
      else s.(mState := SPINNING, base := SPINNING, flagged := false,
              worker := if WaitingEmpty(s.worker.v) then PostEmpty(false) else Spin(SPINNING))
    case PostToWaiter =>
      s.(emptySema := s.emptySema + 1,
         worker := if s.worker.PostOnKill? then Gone else if s.worker.thenSleep then Asleep else Spin(SPINNING))
    case SpinReload => s.(worker := AfterSpinLoad(s.mState))
    case CasSleep(success) =>
      if !success then s.(worker := AfterSpinLoad(s.mState))
      else s.(mState := SLEEPING, base := SLEEPING, worker := Asleep)
    case TakeToken => s.(sema := s.sema - 1, worker := Acknowledging)
    case Acknowledge => Acknowledged(s, s.mState)
    case Kill =>
      s.(mState := DEAD, base := DEAD, count := 0, flagged := false,
         worker := if WaitingEmpty(s.mState) then PostOnKill else Gone)
    case Reset => s.(mState := 0, base := 0, count := 0, covered := s.announced, worker := Drained)
    case Call => s.(waiter := Called(s.announced))
    case LoadForEmpty => s.(waiter := AfterEmptyLoad(s.mState, s.waiter.asked))
    case CasFlag(success) =>
      if !success then s.(waiter := AfterEmptyLoad(s.mState, s.waiter.asked))
      else s.(mState := WithFlag(s.waiter.v), flagged := true, waiter := Blocked(s.waiter.asked))
    case TakeEmptyToken => s.(emptySema := s.emptySema - 1, waiter := Woken(s.waiter.asked))
    case LoadResult => s.(waiter := Returned(!IsDead(s.mState), s.waiter.asked))
    case Return => s.(waiter := Idle)
  }

  /** Nothing is left behind by a dead worker: no announced work, no token or Post for it, and no
      token but the one that a blocked waiter is owed. */
  predicate Clean(s: State) {
    s.announced <= s.processed && s.sema == 0 && s.posting == {} && s.emptySema == if s.waiter.Blocked? then 1 else 0
  }

  /** What the protocol asks of its users: fewer than 2^29 notifications between two
      acknowledgements, and a dead worker is reset only when it left nothing behind. */
  predicate Disciplined(s: State, a: Action) {
    && (a.Announce? ==> s.count + 1 < 0x2000_0000)
    && (a.Reset? ==> Clean(s))
  }

  // ---------------------------------------------------------------- invariant

  predicate Busy(w: Worker) { w.Working? || w.Drained? || w.TryWait? || w.TrySpin? }

  /** In WaitForWork or WaitForWorkWithSpin with the queue found empty since the last
      acknowledgement. */
  predicate Waiting(w: Worker) { !w.Working? && !w.PostOnKill? && !w.Gone? }

  /** m_state, and where the worker can be for each base. */
  predicate ValueInv(s: State) {
    && s.count < 0x2000_0000
    && s.mState == s.base + 2 * s.count + (if s.flagged then FLAG else 0)
    && (s.flagged ==> s.base != DEAD && s.base + 2 * s.count >= 0)
    && (Busy(s.worker) ==> s.base == 0)
    && (s.worker.Acknowledging? ==> s.base in {0, SLEEPING, SPINNING} && s.count > 0)
    && (s.worker.Asleep? || s.worker == PostEmpty(true) ==> s.base == SLEEPING)
    && (s.worker.Spin? || s.worker == PostEmpty(false) ==> s.base == SPINNING)
    && (s.worker.PostOnKill? || s.worker.Gone? <==> s.base == DEAD)
    && (s.worker.TrySpin? ==> IsReadyForSleep(s.worker.v))
    && (s.worker.TryWait? || s.worker.TrySpin? ==> s.worker.v >= 0)
    && (s.worker.Spin? ==> s.worker.v == SPINNING)
    && (s.waiter.TryFlag? ==> s.waiter.v >= 0)
  }

  /** The worker has gone to sleep, has been notified since, and has not yet been woken. */
  predicate WakeupDue(s: State) {
    s.base == SLEEPING && s.count > 0 && !s.worker.Acknowledging?
  }

  /** m_sema: tokens and pending posts together are one exactly while a wakeup is due; a worker killed
      in its sleep may leave one. */
  predicate TokenInv(s: State) {
    if s.base == DEAD then s.sema + |s.posting| <= 1
    else s.sema + |s.posting| == if WakeupDue(s) then 1 else 0
  }

  /** m_empty_sema: a blocked waiter has exactly one of the flag, a token, and a pending post; a worker
      killed in its sleep may leave one token more. */
  predicate EmptyInv(s: State) {
    var due := s.emptySema + (if s.flagged then 1 else 0) + if s.worker.PostEmpty? || s.worker.PostOnKill? then 1 else 0;
    var owed := if s.waiter.Blocked? then 1 else 0;
    due == owed || (s.base == DEAD && due == owed + 1)
  }

  predicate WorkInv(s: State) {
    && s.announced <= s.queue + s.processed
    && (forall t | t in s.notifying :: s.notifying[t] in s.queue + s.processed)
    && s.covered <= s.announced
    && (s.count == 0 && s.base != DEAD ==> s.announced <= s.covered)
    && (Waiting(s.worker) ==> s.covered <= s.processed)
  }

  predicate AskedInv(s: State) {
    && (!s.waiter.Idle? ==> s.waiter.asked <= s.announced)
    && (s.waiter.Woken? || (s.waiter.Blocked? && !s.flagged) ==> s.waiter.asked <= s.processed || s.base == DEAD)
    && (s.waiter.Returned? && s.waiter.result ==> s.waiter.asked <= s.processed)
  }

  predicate Inv(s: State) {
    ValueInv(s) && TokenInv(s) && EmptyInv(s) && WorkInv(s) && AskedInv(s)
  }

  /** What the value of m_state tells, while the bound on notifications holds. */
  lemma Encoding(s: State)
    requires ValueInv(s)
    ensures IsDead(s.mState) <==> s.base == DEAD
    ensures s.mState == SLEEPING <==> s.base == SLEEPING && s.count == 0
    ensures s.mState == SPINNING <==> s.base == SPINNING && s.count == 0
    ensures s.mState < 0 <==> s.base == DEAD || (s.base < 0 && s.count == 0)
    ensures s.mState >= 0 ==> (WaitingEmpty(s.mState) <==> s.flagged)
    ensures s.base == 0 ==> (IsReadyForSleep(s.mState) <==> s.count == 0)
    ensures s.base == DEAD ==> !WaitingEmpty(s.mState)
  {
  }

  predicate OfNotifier(a: Action) { a.AddWork? || a.Announce? || a.Post? }

  predicate OfWaiter(a: Action) {
    a.Call? || a.LoadForEmpty? || a.CasFlag? || a.TakeEmptyToken? || a.LoadResult? || a.Return?
  }

  predicate OfLife(a: Action) { a.Process? || a.FindEmpty? || a.Kill? || a.Reset? }

  /** The steps of the two ways to wait for work. */
  predicate OfWorker(a: Action) { !OfNotifier(a) && !OfWaiter(a) && !OfLife(a) }

  lemma StepValueNotifier(s: State, a: Action)
    requires ValueInv(s) && TokenInv(s) && EmptyInv(s) && Enabled(s, a) && Disciplined(s, a) && OfNotifier(a)
    ensures ValueInv(Apply(s, a))
  {
    Encoding(s);
  }

  lemma StepValueWaiter(s: State, a: Action)
    requires ValueInv(s) && TokenInv(s) && EmptyInv(s) && Enabled(s, a) && Disciplined(s, a) && OfWaiter(a)
    ensures ValueInv(Apply(s, a))
  {
    Encoding(s);
  }

  lemma StepValueWorker(s: State, a: Action)
    requires ValueInv(s) && TokenInv(s) && EmptyInv(s) && Enabled(s, a) && Disciplined(s, a) && OfWorker(a)
    ensures ValueInv(Apply(s, a))
  {
    Encoding(s);
  }

  lemma StepValueLife(s: State, a: Action)
    requires ValueInv(s) && TokenInv(s) && EmptyInv(s) && Enabled(s, a) && Disciplined(s, a) && OfLife(a)
    ensures ValueInv(Apply(s, a))
  {
    Encoding(s);
  }

  lemma StepValue(s: State, a: Action)
    requires ValueInv(s) && TokenInv(s) && EmptyInv(s) && Enabled(s, a) && Disciplined(s, a)
    ensures ValueInv(Apply(s, a))
  {
    if OfNotifier(a) { StepValueNotifier(s, a); }
    else if OfWaiter(a) { StepValueWaiter(s, a); }
    else if OfWorker(a) { StepValueWorker(s, a); }
    else { StepValueLife(s, a); }
  }

  lemma StepTokenNotifier(s: State, a: Action)
    requires ValueInv(s) && TokenInv(s) && Enabled(s, a) && Disciplined(s, a) && OfNotifier(a)
    ensures TokenInv(Apply(s, a))
  {
    Encoding(s);
  }

  lemma StepTokenWaiter(s: State, a: Action)
    requires ValueInv(s) && TokenInv(s) && Enabled(s, a) && Disciplined(s, a) && OfWaiter(a)
    ensures TokenInv(Apply(s, a))
  {
    Encoding(s);
  }

  lemma StepTokenWorker(s: State, a: Action)
    requires ValueInv(s) && TokenInv(s) && Enabled(s, a) && Disciplined(s, a) && OfWorker(a)
    ensures TokenInv(Apply(s, a))
  {
    Encoding(s);
  }

  lemma StepTokenLife(s: State, a: Action)
    requires ValueInv(s) && TokenInv(s) && Enabled(s, a) && Disciplined(s, a) && OfLife(a)
    ensures TokenInv(Apply(s, a))
  {
    Encoding(s);
  }

  lemma StepToken(s: State, a: Action)
    requires ValueInv(s) && TokenInv(s) && Enabled(s, a) && Disciplined(s, a)
    ensures TokenInv(Apply(s, a))
  {
    if OfNotifier(a) { StepTokenNotifier(s, a); }
    else if OfWaiter(a) { StepTokenWaiter(s, a); }
    else if OfWorker(a) { StepTokenWorker(s, a); }
    else { StepTokenLife(s, a); }
  }

  lemma StepEmptyNotifier(s: State, a: Action)
    requires ValueInv(s) && EmptyInv(s) && Enabled(s, a) && Disciplined(s, a) && OfNotifier(a)
    ensures EmptyInv(Apply(s, a))
  {
    Encoding(s);
  }

  lemma StepEmptyWaiter(s: State, a: Action)
    requires ValueInv(s) && EmptyInv(s) && Enabled(s, a) && Disciplined(s, a) && OfWaiter(a)
    ensures EmptyInv(Apply(s, a))
  {
    Encoding(s);
  }

  lemma StepEmptyWorker(s: State, a: Action)
    requires ValueInv(s) && EmptyInv(s) && Enabled(s, a) && Disciplined(s, a) && OfWorker(a)
    ensures EmptyInv(Apply(s, a))
  {
    Encoding(s);
  }

  lemma StepEmptyLife(s: State, a: Action)
    requires ValueInv(s) && EmptyInv(s) && Enabled(s, a) && Disciplined(s, a) && OfLife(a)
    ensures EmptyInv(Apply(s, a))
  {
    Encoding(s);
  }

  lemma StepEmpty(s: State, a: Action)
    requires ValueInv(s) && EmptyInv(s) && Enabled(s, a) && Disciplined(s, a)
    ensures EmptyInv(Apply(s, a))
  {
    if OfNotifier(a) { StepEmptyNotifier(s, a); }
    else if OfWaiter(a) { StepEmptyWaiter(s, a); }
    else if OfWorker(a) { StepEmptyWorker(s, a); }
    else { StepEmptyLife(s, a); }
  }

  lemma StepWorkNotifier(s: State, a: Action)
    requires ValueInv(s) && WorkInv(s) && Enabled(s, a) && Disciplined(s, a) && OfNotifier(a)
    ensures WorkInv(Apply(s, a))
  {
    Encoding(s);
  }

  lemma StepWorkWaiter(s: State, a: Action)
    requires ValueInv(s) && WorkInv(s) && Enabled(s, a) && Disciplined(s, a) && OfWaiter(a)
    ensures WorkInv(Apply(s, a))
  {
    Encoding(s);
  }

  lemma StepWorkWorker(s: State, a: Action)
    requires ValueInv(s) && WorkInv(s) && Enabled(s, a) && Disciplined(s, a) && OfWorker(a)
    ensures WorkInv(Apply(s, a))
  {
    Encoding(s);
  }

  lemma StepWorkLife(s: State, a: Action)
    requires ValueInv(s) && WorkInv(s) && Enabled(s, a) && Disciplined(s, a) && OfLife(a)
    ensures WorkInv(Apply(s, a))
  {
    Encoding(s);
  }

  lemma StepWork(s: State, a: Action)
    requires ValueInv(s) && WorkInv(s) && Enabled(s, a) && Disciplined(s, a)
    ensures WorkInv(Apply(s, a))
  {
    if OfNotifier(a) { StepWorkNotifier(s, a); }
    else if OfWaiter(a) { StepWorkWaiter(s, a); }
    else if OfWorker(a) { StepWorkWorker(s, a); }
    else { StepWorkLife(s, a); }
  }

  lemma StepAskedNotifier(s: State, a: Action)
    requires Inv(s) && Enabled(s, a) && Disciplined(s, a) && OfNotifier(a)
    ensures AskedInv(Apply(s, a))
  {
    Encoding(s);
  }

  lemma StepAskedWaiter(s: State, a: Action)
    requires Inv(s) && Enabled(s, a) && Disciplined(s, a) && OfWaiter(a)
    ensures AskedInv(Apply(s, a))
  {
    Encoding(s);
  }

  lemma StepAskedWorker(s: State, a: Action)
    requires Inv(s) && Enabled(s, a) && Disciplined(s, a) && OfWorker(a)
    ensures AskedInv(Apply(s, a))
  {
    Encoding(s);
  }

  lemma StepAskedLife(s: State, a: Action)
    requires Inv(s) && Enabled(s, a) && Disciplined(s, a) && OfLife(a)
    ensures AskedInv(Apply(s, a))
  {
    Encoding(s);
  }

  lemma StepAsked(s: State, a: Action)
    requires Inv(s) && Enabled(s, a) && Disciplined(s, a)
    ensures AskedInv(Apply(s, a))
  {
    if OfNotifier(a) { StepAskedNotifier(s, a); }
    else if OfWaiter(a) { StepAskedWaiter(s, a); }
    else if OfWorker(a) { StepAskedWorker(s, a); }
    else { StepAskedLife(s, a); }
  }

  lemma StepInv(s: State, a: Action)
    requires Inv(s) && Enabled(s, a) && Disciplined(s, a)
    ensures Inv(Apply(s, a))
  {
    StepValue(s, a);
    StepToken(s, a);
    StepEmpty(s, a);
    StepWork(s, a);
    StepAsked(s, a);
  }

  // ---------------------------------------------------------------- runs

  /** A step as the protocol allows it. */
  predicate Next(s: State, a: Action, t: State) {
    Enabled(s, a) && Disciplined(s, a) && t == Apply(s, a)
  }

  /** Any interleaving of the worker, the notifiers and the waiting thread. */
  ghost predicate IsRun(run: seq<State>, actions: seq<Action>) {
    && |run| == |actions| + 1 && run[0] == INITIAL
    && forall i | 0 <= i < |actions| :: Next(run[i], actions[i], run[i + 1])
  }

  lemma {:induction false} RunInv(run: seq<State>, actions: seq<Action>, k: nat)
    requires IsRun(run, actions) && k < |run|
    ensures Inv(run[k])
  {
    if k > 0 {
      RunInv(run, actions, k - 1);
      StepInv(run[k - 1], actions[k - 1]);
    }
  }

  /** No lost wakeup: a worker blocked on m_sema, with no token there and no Post on its way,
      has processed everything announced. */
  lemma NoLostWakeup(run: seq<State>, actions: seq<Action>, k: nat)
    requires IsRun(run, actions) && k < |run|
    requires run[k].worker.Asleep? && run[k].sema == 0 && run[k].posting == {}
    ensures run[k].announced <= run[k].processed
  {
    RunInv(run, actions, k);
  }

  /** No worker of the run was killed in its sleep. */
  ghost predicate KilledAwake(run: seq<State>, actions: seq<Action>, k: nat)
    requires IsRun(run, actions) && k < |run|
  {
    forall j | 0 <= j < k :: actions[j].Kill? ==> !run[j].worker.Asleep?
  }

  /** What such a worker leaves behind: nothing but what it owes. */
  predicate OwesOnly(s: State) {
    s.base == DEAD ==>
      && s.sema == 0 && s.posting == {}
      && s.emptySema + (if s.worker.PostOnKill? then 1 else 0) == if s.waiter.Blocked? then 1 else 0
  }

  lemma StepOwesOnly(s: State, a: Action)
    requires Inv(s) && OwesOnly(s) && Enabled(s, a) && Disciplined(s, a) && (a.Kill? ==> !s.worker.Asleep?)
    ensures OwesOnly(Apply(s, a))
  {
    Encoding(s);
  }

  lemma {:induction false} RunOwesOnly(run: seq<State>, actions: seq<Action>, k: nat)
    requires IsRun(run, actions) && k < |run| && KilledAwake(run, actions, k)
    ensures OwesOnly(run[k])
  {
    if k > 0 {
      RunOwesOnly(run, actions, k - 1);
      RunInv(run, actions, k - 1);
      assert Next(run[k - 1], actions[k - 1], run[k]);
      StepOwesOnly(run[k - 1], actions[k - 1]);
    }
  }

  /** Tokens and pending posts never exceed one, and there are none outside the sleep phase, unless
      a worker killed in its sleep left one. */
  lemma TokensMatchSleep(run: seq<State>, actions: seq<Action>, k: nat)
    requires IsRun(run, actions) && k < |run|
    ensures run[k].sema + |run[k].posting| <= 1
    ensures !run[k].worker.Asleep? && run[k].worker != PostEmpty(true) && (KilledAwake(run, actions, k) || !IsDead(run[k].mState)) ==>
              run[k].sema == 0 && run[k].posting == {}
  {
    RunInv(run, actions, k);
    Encoding(run[k]);
    if KilledAwake(run, actions, k) {
      RunOwesOnly(run, actions, k);
    }
  }

  lemma {:induction false} AskedIsKept(run: seq<State>, actions: seq<Action>, i: nat, k: nat)
    requires IsRun(run, actions) && i < k < |run| && actions[i].Call?
    requires forall j | i < j < k :: !actions[j].Return?
    ensures !run[k].waiter.Idle? && run[k].waiter.asked == run[i].announced
  {
    if k > i + 1 {
      AskedIsKept(run, actions, i, k - 1);
      assert Next(run[k - 1], actions[k - 1], run[k]);
    } else {
      assert Next(run[i], actions[i], run[k]);
    }
  }

  /** WaitForEmpty is safe: when it returns true, everything announced before the call has been
      processed.  This holds with Kill and Reset in the run. */
  lemma WaitForEmptySafe(run: seq<State>, actions: seq<Action>, i: nat, k: nat)
    requires IsRun(run, actions) && i < k < |run| && actions[i].Call?
    requires forall j | i < j < k :: !actions[j].Return?
    requires run[k].waiter.Returned? && run[k].waiter.result
    ensures run[i].announced <= run[k].processed
  {
    AskedIsKept(run, actions, i, k);
    RunInv(run, actions, k);
  }

  /** A false result means that the worker was dead when m_state was loaded, and a true one that it was not:
      whichever step ends the call. */
  lemma ResultTellsDeath(run: seq<State>, actions: seq<Action>, k: nat)
    requires IsRun(run, actions) && k < |actions| && !run[k].waiter.Returned? && run[k + 1].waiter.Returned?
    ensures run[k + 1].waiter.result <==> !run[k].worker.PostOnKill? && !run[k].worker.Gone?
  {
    RunInv(run, actions, k);
    Encoding(run[k]);
    assert Next(run[k], actions[k], run[k + 1]);
  }

  /** A blocked waiter has exactly one of: its flag in m_state, a token, a Post the worker is
      about to make; or, from a worker killed in its sleep, one token more.  A worker that can only be
      woken by new work has paid its debt. */
  lemma NoStuckWaiter(run: seq<State>, actions: seq<Action>, k: nat)
    requires IsRun(run, actions) && k < |run| && run[k].waiter.Blocked?
    ensures var s := run[k];
            var inState := s.mState >= 0 && WaitingEmpty(s.mState);
            var posting := s.worker.PostEmpty? || s.worker.PostOnKill?;
            && (inState || posting || s.emptySema > 0)
            && (KilledAwake(run, actions, k) || !IsDead(s.mState) ==>
                 && s.emptySema <= 1
                 && (if s.emptySema == 1 then !inState && !posting else inState != posting))
    ensures run[k].worker.Gone? || (run[k].worker.Asleep? && run[k].sema == 0 && run[k].posting == {}) ==>
              run[k].emptySema >= 1
  {
    RunInv(run, actions, k);
    Encoding(run[k]);
    if KilledAwake(run, actions, k) {
      RunOwesOnly(run, actions, k);
    }
  }

  /** The assertions of the source: the worker never waits while dead, and the flag is never
      already set when a waiter sets it. */
  lemma AssertionsHold(run: seq<State>, actions: seq<Action>, k: nat)
    requires IsRun(run, actions) && k < |run|
    ensures run[k].worker.Drained? ==> !IsDead(run[k].mState)
    ensures run[k].waiter.TryFlag? && run[k].mState == run[k].waiter.v ==> !WaitingEmpty(run[k].mState)
  {
    RunInv(run, actions, k);
    Encoding(run[k]);
  }

  // ---------------------------------------------------------------- progress

  /** Nothing left for the worker to do by itself: it is blocked on m_sema with no token and no
      Post on its way, or it spins and m_state says so. */
  predicate Settled(s: State) {
    (s.worker.Asleep? && s.sema == 0 && s.posting == {}) || (s.worker.Spin? && s.mState == SPINNING)
  }

  /** The next step of the worker or, if it is blocked, of a notifier that owes it a Post. */
  ghost function OwnStep(s: State): Action {
    match s.worker
    case Working => if s.queue == {} then FindEmpty else var x :| x in s.queue; Process(x)
    case Drained => LoadForWait
    case TryWait(v) => CasWait(s.mState == v)
    case TrySpin(v) => CasSpin(s.mState == v)
    case Spin(_) => SpinReload
    case PostEmpty(_) => PostToWaiter
    case Asleep => if s.sema > 0 || s.posting == {} then TakeToken else var t :| t in s.posting; Post(t)
    case Acknowledging => Acknowledge
    case PostOnKill => PostToWaiter
    case Gone => Reset
  }

  function StepsLeft(s: State): nat {
    match s.worker
    case Working => 9
    case Drained => 8
    case TryWait(v) => if s.mState == v then 6 else 7
    case TrySpin(v) => if s.mState == v then 6 else 7
    case PostEmpty(_) => 5
    case Asleep => if s.sema == 0 then 4 else 3
    case Spin(_) => 2
    case Acknowledging => 1
    case _ => 0
  }

  lemma OwnStepEnabled(s: State)
    requires Inv(s) && s.base != DEAD && !Settled(s)
    ensures Enabled(s, OwnStep(s)) && Disciplined(s, OwnStep(s))
  {
  }

  lemma OwnStepFrame(s: State, a: Action)
    requires Enabled(s, a) && !a.AddWork? && !a.Announce? && !a.Kill? && !a.Reset?
    requires !s.worker.PostOnKill? && !s.worker.Gone? && s.base != DEAD
    requires !a.Call? && !a.LoadForEmpty? && !a.CasFlag? && !a.TakeEmptyToken? && !a.LoadResult? && !a.Return?
    ensures var t := Apply(s, a);
            t.base != DEAD && t.announced == s.announced && t.waiter == s.waiter
  {
  }

  /** The step acknowledges, shortens the queue, or brings the worker nearer to doing so. */
  ghost predicate Nearer(s: State, t: State) {
    if t.count != s.count then t.count == 0
    else if t.queue != s.queue then |t.queue| < |s.queue|
    else StepsLeft(t) < StepsLeft(s)
  }

  lemma OwnStepProgress(s: State)
    requires ValueInv(s) && s.base != DEAD && !Settled(s) && Enabled(s, OwnStep(s))
    ensures Nearer(s, Apply(s, OwnStep(s)))
  {
    match s.worker
    case Working =>
      if s.queue != {} {
        assert |s.queue - {OwnStep(s).x}| < |s.queue|;
      }
    case TryWait(_) => Encoding(s);
    case TrySpin(_) => Encoding(s);
    case Spin(_) => Encoding(s);
    case _ =>
  }

  /** The steps lead from s to t. */
  ghost predicate Leads(s: State, actions: seq<Action>, t: State)
    decreases |actions|
  {
    if actions == [] then s == t
    else Enabled(s, actions[0]) && Disciplined(s, actions[0]) && Leads(Apply(s, actions[0]), actions[1..], t)
  }

  lemma {:induction false} WorkerSettles(s: State) returns (actions: seq<Action>, t: State)
    requires Inv(s) && s.base != DEAD
    ensures Leads(s, actions, t) && Settled(t)
    ensures t.announced == s.announced <= t.processed
    ensures t.waiter == s.waiter && (t.waiter.Blocked? ==> t.emptySema == 1)
    decreases s.count > 0, |s.queue|, StepsLeft(s)
  {
    if Settled(s) {
      Encoding(s);
      actions, t := [], s;
    } else {
      OwnStepEnabled(s);
      OwnStepFrame(s, OwnStep(s));
      OwnStepProgress(s);
      StepInv(s, OwnStep(s));
      var rest;
      rest, t := WorkerSettles(Apply(s, OwnStep(s)));
      actions := [OwnStep(s)] + rest;
      assert actions[1..] == rest;
    }
  }

  /** Notified work is never stranded: from any point of any run a live worker, left to itself, can
      run on until everything announced is processed and a blocked waiter has its token. */
  lemma NoStrandedWork(run: seq<State>, actions: seq<Action>, k: nat) returns (more: seq<Action>, t: State)
    requires IsRun(run, actions) && k < |run| && !IsDead(run[k].mState)
    ensures Leads(run[k], more, t) && Settled(t)
    ensures t.announced == run[k].announced <= t.processed
    ensures t.waiter == run[k].waiter && (t.waiter.Blocked? ==> t.emptySema == 1)
  {
    RunInv(run, actions, k);
    Encoding(run[k]);
    more, t := WorkerSettles(run[k]);
  }

  // ---------------------------------------------------------------- refinement

  /** The documented state machine, step by step: what each action does to the abstract state. */
  predicate AbstractStep(s: State, a: Action, before: Abstract, after: Abstract) {
    match a
    case Announce(_) => after == Notified(before)
    case CasWait(success) =>
      if !success then after == before
      else before.Running? && after == (if before.pending then Abstract.Running(false, before.waitingEmpty) else Sleeping)
    case CasSpin(success) => if success then before.Running? && !before.pending && after == Spinning else after == before
    case CasSleep(success) => if success then before == Spinning && after == Sleeping else after == before
    case Acknowledge => before.Running? && after == Abstract.Running(false, before.waitingEmpty)
    case CasFlag(success) =>
      if success then before.Running? && !before.waitingEmpty && after == Abstract.Running(before.pending, true) else after == before
    case Kill => !before.Dead? && after == Dead
    case Reset => before == Dead && after == Abstract.Running(false, false)
    case _ => after == before
  }

  /** The s32 refines the abstract machine in every run. */
  lemma StateRefines(run: seq<State>, actions: seq<Action>, k: nat)
    requires IsRun(run, actions) && k < |actions|
    ensures AbstractStep(run[k], actions[k], Decode(run[k].mState), Decode(run[k + 1].mState))
  {
    RunInv(run, actions, k);
    assert Next(run[k], actions[k], run[k + 1]);
    StepRefines(run[k], actions[k]);
  }

  /** The abstract state, from the history. */
  function AbstractOf(s: State): Abstract {
    if s.base == DEAD then Dead
    else if s.base < 0 && s.count == 0 then if s.base == SPINNING then Spinning else Sleeping
    else Abstract.Running(s.base + 2 * s.count != 0, s.flagged)
  }

  lemma DecodeIs(s: State)
    requires ValueInv(s)
    ensures Decode(s.mState) == AbstractOf(s)
  {
  }

  lemma StepRefines(s: State, a: Action)
    requires Inv(s) && Enabled(s, a) && Disciplined(s, a)
    ensures AbstractStep(s, a, Decode(s.mState), Decode(Apply(s, a).mState))
  {
    Encoding(s);
    StepInv(s, a);
    DecodeIs(s);
    DecodeIs(Apply(s, a));
  }

  // ---------------------------------------------------------------- when Reset is safe

  /** Reset restores the protocol exactly when nothing is left behind. */
  lemma ResetSafeExactly(s: State)
    requires Inv(s) && Enabled(s, Reset)
    ensures Inv(Apply(s, Reset)) <==> Clean(s)
  {
    Encoding(s);
  }

  /** After a worker killed awake, that is when it left no announced work. */
  lemma ResetAfterWakingKill(run: seq<State>, actions: seq<Action>, k: nat)
    requires IsRun(run, actions) && k < |run| && KilledAwake(run, actions, k) && Enabled(run[k], Reset)
    ensures Inv(Apply(run[k], Reset)) <==> run[k].announced <= run[k].processed
  {
    RunInv(run, actions, k);
    RunOwesOnly(run, actions, k);
    ResetSafeExactly(run[k]);
  }

  /** What follows if it is not.  First: the worker waits at once, goes to sleep with no token and no
      Post on its way, and the announced work it left is exactly what no one will do. */
  lemma ResetStrandsWork(s: State)
    requires Inv(s) && Enabled(s, Reset) && s.sema == 0 && s.posting == {}
    ensures var u := Apply(Apply(s, Reset), LoadForWait);
            Enabled(u, CasWait(true)) &&
            var t := Apply(u, CasWait(true));
            && t.worker.Asleep? && t.sema == 0 && t.posting == {}
            && (t.announced <= t.processed <==> s.announced <= s.processed)
  {
  }

  /** Second: a token left over wakes the worker from its next sleep while m_state still says that it
      sleeps, and acknowledging sets the flag though no one waits. */
  lemma LeftoverTokenSetsFlag(s: State)
    requires Inv(s) && Enabled(s, Reset) && s.sema > 0 && !s.waiter.Blocked?
    ensures var u := Apply(Apply(s, Reset), LoadForWait);
            Enabled(u, CasWait(true)) &&
            var v := Apply(u, CasWait(true));
            Enabled(v, TakeToken) &&
            var t := Apply(Apply(v, TakeToken), Acknowledge);
            t.worker.Working? && WaitingEmpty(t.mState) && t.waiter == s.waiter
  {
  }

  /** WaitForEmpty, called now, returns true without sleeping for long. */
  predicate ReturnsTrue(u: State) {
    Enabled(u, Call) &&
    var v := Apply(Apply(u, Call), LoadForEmpty);
    Enabled(v, CasFlag(true)) &&
    var w := Apply(v, CasFlag(true));
    Enabled(w, TakeEmptyToken) &&
    Apply(Apply(w, TakeEmptyToken), LoadResult).waiter == Returned(true, u.announced)
  }

  lemma TokenReturnsTrue(u: State)
    requires u.waiter.Idle? && u.emptySema > 0 && 0 <= u.mState < FLAG
    ensures ReturnsTrue(u)
  {
    var v := Apply(Apply(u, Call), LoadForEmpty);
    assert v.waiter == TryFlag(u.mState, u.announced);
    var w := Apply(v, CasFlag(true));
    assert w.waiter == Blocked(u.announced) && !IsDead(w.mState);
  }

  /** Third: a token left over for no waiter makes the next WaitForEmpty return true though the work
      announced before it is not done. */
  lemma StrayTokenLies(s: State, n: Thread, x: Item)
    requires Inv(s) && Enabled(s, Reset) && s.emptySema > 0 && s.waiter.Idle? && Enabled(s, AddWork(n, x))
    ensures var r := Apply(s, Reset);
            Enabled(r, AddWork(n, x)) &&
            var u := Apply(Apply(r, AddWork(n, x)), Announce(n));
            ReturnsTrue(u) && x in u.announced && x !in u.processed
  {
    var u := Apply(Apply(Apply(s, Reset), AddWork(n, x)), Announce(n));
    assert u.mState == 2 && u.waiter.Idle?;
    TokenReturnsTrue(u);
  }

  lemma Extend(run: seq<State>, actions: seq<Action>, a: Action) returns (longer: seq<State>)
    requires IsRun(run, actions) && Enabled(run[|actions|], a) && Disciplined(run[|actions|], a)
    ensures IsRun(longer, actions + [a]) && longer[|actions| + 1] == Apply(run[|actions|], a)
  {
    longer := run + [Apply(run[|actions|], a)];
  }

  /** Announced work can be left behind: the worker is killed with it. */
  lemma WorkLeftBehind() returns (run: seq<State>, actions: seq<Action>)
    ensures IsRun(run, actions)
    ensures var s := run[|actions|];
            s.worker.Gone? && s.sema == 0 && s.posting == {} && !(s.announced <= s.processed)
  {
    run, actions := [INITIAL], [];
    run := Extend(run, actions, AddWork(0, 7));
    actions := actions + [AddWork(0, 7)];
    run := Extend(run, actions, Announce(0));
    actions := actions + [Announce(0)];
    assert 7 in run[2].announced && 7 !in run[2].processed;
    run := Extend(run, actions, Kill);
    actions := actions + [Kill];
  }

  /** And a token posted to no one: the value that stands for sleeping has the flag's bit set, so a
      Kill of the sleeping worker posts. */
  lemma TokenLeftBehind() returns (run: seq<State>, actions: seq<Action>)
    ensures IsRun(run, actions)
    ensures run[|actions|].worker.Gone? && run[|actions|].emptySema == 1 && run[|actions|].waiter.Idle?
  {
    run, actions := [INITIAL], [];
    run := Extend(run, actions, FindEmpty);
    actions := actions + [FindEmpty];
    run := Extend(run, actions, LoadForWait);
    actions := actions + [LoadForWait];
    run := Extend(run, actions, CasWait(true));
    actions := actions + [CasWait(true)];
    run := Extend(run, actions, Kill);
    actions := actions + [Kill];
    run := Extend(run, actions, PostToWaiter);
    actions := actions + [PostToWaiter];
  }

  /** Exactly when a Kill posts to no one: the worker slept, and had not been notified. */
  lemma KillPostsAstrayExactly(s: State)
    requires Inv(s) && Enabled(s, Kill)
    ensures Apply(s, Kill).worker.PostOnKill? && !s.flagged <==> s.mState == SLEEPING
  {
    Encoding(s);
  }
}
