/** WorkSema as code: its methods on m_state and the two semaphores, run by one thread at a time.  Every
    atomic access and every semaphore operation is one step of the machine, in the order of the source;
    a call that would block returns, and its rest is a method of its own. */
module WorkSemaCode {
  import opened WorkSema

  /** The result of WaitForEmpty, or that it blocks. */
  datatype Outcome = Done(alive: bool) | Blocks

  class Semaphores {
    var mState: s32
    var sema: nat
    var emptySema: nat
    ghost var st: State

    ghost predicate Valid()
      reads this
    {
      Inv(st) && mState == st.mState && sema == st.sema && emptySema == st.emptySema
    }

    constructor ()
      ensures Valid() && st == INITIAL
    {
      mState, sema, emptySema, st := 0, 0, 0, INITIAL;
    }

    /** A step of the machine. */
    ghost method Take(a: Action)
      requires Inv(st) && Enabled(st, a) && Disciplined(st, a)
      modifies this`st
      ensures st == Apply(old(st), a) && Inv(st)
    {
      StepInv(st, a);
      st := Apply(st, a);
    }

    /** Work and what has been asked of it. */
    ghost function Work(): (set<Item>, set<Item>, set<Item>)
      reads this
    {
      (st.queue, st.announced, st.processed)
    }

    /** NotifyOfWork, by a thread that has added its work. */
    method NotifyOfWork(ghost t: Thread)
      requires Valid() && t in st.notifying && st.count + 1 < 0x2000_0000
      modifies this
      ensures Valid() && Decode(mState) == Notified(Decode(old(mState)))
      ensures sema == old(sema) + if Decode(old(mState)).Sleeping? then 1 else 0
      ensures st.announced == old(st.announced) + {old(st.notifying)[t]} && st.posting <= old(st.posting)
      ensures emptySema == old(emptySema) && st.worker == old(st.worker) && st.waiter == old(st.waiter)
    {
      var previous := mState;
      StepRefines(st, Announce(t));
      mState := AddTwo(mState);
      Take(Announce(t));
      if previous == SLEEPING {
        sema := sema + 1;
        Take(Post(t));
      }
    }

    /** WaitForWork up to m_sema.Wait(); the weak exchange fails `spurious` times for no reason. */
    method WaitForWork(spurious: nat) returns (blocks: bool)
      requires Valid() && st.worker.Drained?
      modifies this
      ensures Valid() && Waited(old(st), blocks) && Work() == old(Work()) && sema == old(sema)
    {
      var value := mState;
      Take(LoadForWait);
      var failures := 0;
      while failures < spurious
        invariant failures <= spurious && Valid()
        invariant st == old(st).(worker := TryWait(value)) && value == mState && sema == old(sema)
      {
        Take(CasWait(false));
        value := mState;
        failures := failures + 1;
      }
      StepRefines(st, CasWait(true));
      mState := NextStateWaitForWork(value);
      Take(CasWait(true));
      blocks := IsReadyForSleep(value);
      if blocks && WaitingEmpty(value) {
        emptySema := emptySema + 1;
        Take(PostToWaiter);
      }
    }

    /** What either form of waiting does: with work pending it goes on, having acknowledged it and kept
        the flag; else it posts to a waiting thread and goes to sleep. */
    ghost predicate Waited(before: State, blocks: bool)
      reads this
    {
      var was := Decode(before.mState);
      && was.Running? && blocks == !was.pending && st.waiter == before.waiter
      && (if blocks then
            && st.worker.Asleep? && Decode(mState) == Sleeping
            && emptySema == before.emptySema + if was.waitingEmpty then 1 else 0
          else
            && st.worker.Working? && Decode(mState) == Abstract.Running(false, was.waitingEmpty)
            && emptySema == before.emptySema && st.covered == st.announced)
    }

    /** The rest of WaitForWork or WaitForWorkWithSpin, once m_sema has a token. */
    method WakeUp()
      requires Valid() && st.worker.Asleep? && sema > 0
      modifies this
      ensures Valid() && st.worker.Working? && sema == 0 && emptySema == old(emptySema)
      ensures Decode(old(mState)).Running?
      ensures Decode(mState) == Abstract.Running(false, Decode(old(mState)).waitingEmpty)
      ensures Work() == old(Work()) && st.covered == st.announced && st.waiter == old(st.waiter)
    {
      sema := sema - 1;
      Take(TakeToken);
      StepRefines(st, Acknowledge);
      mState := FlagOf(mState);
      Take(Acknowledge);
    }

    /** WaitForWorkWithSpin up to m_sema.Wait(), giving up after that many rounds of spinning. */
    method WaitForWorkWithSpin(spurious: nat, rounds: nat) returns (blocks: bool)
      requires Valid() && st.worker.Drained?
      modifies this
      ensures Valid() && Waited(old(st), blocks) && Work() == old(Work()) && sema == old(sema)
    {
      var value := mState;
      Take(LoadForSpin);
      Encoding(st);
      DecodeIs(st);
      var failures := 0;
      while IsReadyForSleep(value)
        invariant failures <= spurious && Valid() && value == mState
        invariant st == old(st).(worker := AfterLoad(value)) && sema == old(sema)
        decreases spurious - failures
      {
        if failures == spurious {
          value := Spin(value);
          break;
        }
        failures := failures + 1;
        Take(CasSpin(false));
        value := mState;
      }
      blocks := value < 0;
      if blocks {
        Doze(rounds);
      } else {
        StepRefines(st, Acknowledge);
        mState := FlagOf(mState);
        Take(Acknowledge);
      }
    }

    /** The exchange that starts spinning. */
    method Spin(value: s32) returns (spinning: s32)
      requires Valid() && st.worker == TrySpin(value) && value == mState
      modifies this
      ensures Valid() && st.worker == Worker.Spin(SPINNING) && spinning == mState == SPINNING
      ensures emptySema == old(emptySema) + if WaitingEmpty(value) then 1 else 0
      ensures sema == old(sema) && Work() == old(Work()) && st.waiter == old(st.waiter)
    {
      mState := SPINNING;
      Take(CasSpin(true));
      if WaitingEmpty(value) {
        emptySema := emptySema + 1;
        Take(PostToWaiter);
      }
      spinning := SPINNING;
    }

    /** Spinning with no one else running: after the rounds the worker goes to sleep. */
    method Doze(rounds: nat)
      requires Valid() && st.worker == Worker.Spin(SPINNING) && mState == SPINNING
      modifies this
      ensures Valid() && st.worker.Asleep? && mState == SLEEPING
      ensures sema == old(sema) && emptySema == old(emptySema) && Work() == old(Work()) && st.waiter == old(st.waiter)
    {
      var waited := 0;
      while waited < rounds
        invariant waited <= rounds && Valid() && st == old(st) && mState == SPINNING
        invariant sema == old(sema) && emptySema == old(emptySema)
      {
        waited := waited + 1;
        Take(SpinReload);
      }
      mState := SLEEPING;
      Take(CasSleep(true));
    }

    /** WaitForEmpty up to m_empty_sema.Wait(). */
    method WaitForEmpty(spurious: nat) returns (r: Outcome)
      requires Valid() && st.waiter.Idle?
      modifies this
      ensures Valid() && sema == old(sema) && emptySema == old(emptySema) && Work() == old(Work())
      ensures r.Blocks? <==> Decode(old(mState)).Running?
      ensures r.Blocks? ==> st.waiter == Blocked(st.announced) && Decode(mState) == Decode(old(mState)).(waitingEmpty := true)
      ensures r.Done? ==> st.waiter.Idle? && mState == old(mState) && r.alive == !Decode(mState).Dead?
      ensures r == Done(true) ==> st.announced <= st.processed
    {
      Take(Call);
      var value := mState;
      Take(LoadForEmpty);
      Encoding(st);
      DecodeIs(st);
      if value < 0 {
        r := Done(!IsDead(value));
        Take(Return);
        return;
      }
      SetFlag(value, spurious);
      r := Blocks;
    }

    /** The exchange that sets the flag. */
    method SetFlag(loaded: s32, spurious: nat)
      requires Valid() && st.waiter.TryFlag? && st.waiter.v == loaded == mState >= 0
      modifies this
      ensures Valid() && sema == old(sema) && emptySema == old(emptySema) && Work() == old(Work())
      ensures Decode(loaded).Running?
      ensures st.waiter == Blocked(old(st).waiter.asked) && Decode(mState) == Decode(loaded).(waitingEmpty := true)
    {
      var value := loaded;
      var failures := 0;
      while failures < spurious
        invariant failures <= spurious && Valid() && value == mState == loaded
        invariant st == old(st) && sema == old(sema) && emptySema == old(emptySema)
      {
        Take(CasFlag(false));
        value := mState;
        failures := failures + 1;
      }
      StepRefines(st, CasFlag(true));
      mState := WithFlag(value);
      Take(CasFlag(true));
    }

    /** The rest of WaitForEmpty, once m_empty_sema has a token. */
    method FinishWaiting() returns (alive: bool)
      requires Valid() && st.waiter.Blocked? && emptySema > 0
      modifies this
      ensures Valid() && st.waiter.Idle? && mState == old(mState) && sema == old(sema)
      ensures emptySema == old(emptySema) - 1 && (alive ==> emptySema == 0)
      ensures alive == !Decode(mState).Dead? && Work() == old(Work())
      ensures alive ==> old(st).waiter.asked <= st.processed
    {
      emptySema := emptySema - 1;
      Take(TakeEmptyToken);
      alive := !IsDead(mState);
      Take(LoadResult);
      Take(Return);
    }

    /** Kill, by the worker as it leaves its loop: while it works, before it waits, or out of its sleep.  The
        value of a sleeping worker has the flag's bit set, so then it posts too. */
    method Kill()
      requires Valid() && (st.worker.Working? || st.worker.Drained? || st.worker.Asleep?)
      modifies this
      ensures Valid() && st.worker.Gone? && Decode(mState).Dead? && Work() == old(Work()) && sema == old(sema)
      ensures Decode(old(mState)).Running? || Decode(old(mState)).Sleeping?
      ensures emptySema == old(emptySema) +
                if Decode(old(mState)).Sleeping? || Decode(old(mState)).waitingEmpty then 1 else 0
    {
      Encoding(st);
      DecodeIs(st);
      var value := mState;
      mState := DEAD;
      Take(Action.Kill);
      if WaitingEmpty(value) {
        emptySema := emptySema + 1;
        Take(PostToWaiter);
      }
    }

    /** Reset, by the worker that restarts. */
    method Reset()
      requires Valid() && st.worker.Gone?
      modifies this
      ensures Valid() <==> Clean(old(st))
      ensures st.worker.Drained? && Decode(mState) == Abstract.Running(false, false)
      ensures sema == old(sema) && emptySema == old(emptySema) && Work() == old(Work())
    {
      ResetSafeExactly(st);
      mState := 0;
      st := Apply(st, Action.Reset);
    }
  }
}
