# Models of PCSX2 components

Dafny models of seven stateful components of PCSX2, each proved against a simple specification.

| files | what they model | what is proved |
|---|---|---|
| `Cache.dfy` | the EE data cache: 64 sets of two ways, fill, write-back, the CACHE instruction | every program of accesses sees flat memory |
| `WorkSema.dfy`, `WorkSemaCode.dfy` | the work semaphore: one worker, any number of notifiers, one waiter, one atomic s32 and two kernel semaphores | no lost wakeup, safe and never stuck waiting, refinement of the documented states |
| `SpscQueue.dfy` | the lock-free ring buffer, with stale reads of the other thread's index | first in first out, no bad slot access, honest refusals and sizes |
| `CounterState.dfy`, `CounterTiming.dfy`, `CounterLazy.dfy`, `CounterIrqs.dfy`, `CounterSchedule.dfy`, `CounterSync.dfy`, `CounterPrompt.dfy`, `CounterComments.dfy`, `EeCounters.dfy` | the EE timers, their event scheduler and the H/V sync sequencer | lazy counting is ideal counting, one interrupt per acknowledgement, exact scheduling, no event unnoticed for long, phase lock |
| `Md5Digest.dfy` | streaming MD5 | any chunking gives the one-shot digest of RFC 1321 |
| `Wildcard.dfy` | the greedy wildcard matcher | it decides the recursive glob relation |
| `Tlb.dfy` | the page map kept up to date as TLB entries are replaced | it is the union of the entries exactly when they are compatible, as entries with disjoint ranges are |
| `Arithmetic.dfy` | | a lemma on division |

Each component has a specification on values (what an operation does to the state), lemmas about it (invariants over every run, refinements, round trips), and the code: a class whose methods update fields and arrays in the order of the source and are proved to do what the specification says. The two protocols, `WorkSema` and `SpscQueue`, are state machines with one step for each memory access or semaphore operation, in any interleaving; their classes run the same steps one thread at a time.

Numbers are mathematical integers, and every 32-bit or 64-bit wrap-around is written out. Bit masks are `/` and `%`, except in `Tlb.dfy`, which has a recursive bitwise and.

Things the code does differently from what it says, or that hold only under a condition; each has the exact condition, and an input where it fails:

- `StringUtil::WildcardMatch` folds case when `case_sensitive` is true and compares exactly when it is false (common/StringUtil.cpp:59-86 and 105-113, against the parameter's name in common/StringUtil.h:50). The model follows the code. The two settings accept the same subjects exactly when no letter occurs in the mask (`FlagMattersExactly`); "a" and "A" are a pair that tells them apart (`FlagIsInverted`).
- `rcntUpdate` reads elapsed cycles as signed. After a gap every later read is right exactly when the gap is shorter than 2^31 cycles, or a multiple of 2^16 whole ticks (`UpdateExact`); a gap of 2^31 + 1 cycles loses a tick (`GapLosesTick`).
- pcsx2/Counters.h:42-45 says that zero return needs the target interrupt enabled. The code returns to zero regardless (pcsx2/Counters.cpp:751), so it does as the comment says exactly when zero return is off, the interrupt on, or the target zero (`ZeroReturnCommentExactly`, `ReturnsWithoutInterrupt`).
- pcsx2/Counters.h:35-39 says that gate mode 1 restarts a timer at the end of a blank and mode 2 at its start. In the code (pcsx2/Counters.cpp:879-884, 925-930) it is the other way round (`RestartEdges`), so the edges are those of the comment exactly for the modes 0 and 3 (`GateEdgesExactly`).
- The comment says that a restarted timer is reset. It counts from the start of the phase before its edge, since the sync passes its start cycle before it moves it on (pcsx2/Counters.cpp:664-670, 682-685, 698-700, 715-717). So it reads zero at the signal exactly when less than a tick has passed since that start (`RestartReadsZeroExactly`), which no phase that lasts a tick allows (`RestartCountsPhase`); after 4000 cycles of rendering a timer of rate 2 restarts at 2000 (`RestartedReads2000`).
- Between updates a zero-return timer is read without the return: the read is right exactly until the target is reached (`ReadBetweenExactly`).
- A timer already past its target or overflow sets `nextCounter` to 4, so its event may come up to four cycles late: `ScheduleIsExact` says exactly when, and `UpdateLeavesLate` shows an update that leaves such a timer.
- `IsReadyForSleep` forgets pending work after a multiple of 2^29 notifications, and only then (`PendingSurvives`, `WorkForgotten`).
- The value of m_state for a sleeping worker has the flag's bit set, so `Kill` of a worker in its sleep posts m_empty_sema for no one, exactly if the worker has not been notified (`KillPostsAstrayExactly`). `Reset` after a `Kill` is safe exactly when no announced work, no token and no such post is left (`ResetSafeExactly`); what follows otherwise is in `ResetStrandsWork`, `LeftoverTokenSetsFlag` and `StrayTokenLies`, and runs that lead there in `WorkLeftBehind` and `TokenLeftBehind`.
- Two TLB entries for one page, or a scratchpad entry elsewhere than at its usual place with large pages, make the page map differ from the entries: `RewriteExact`, `OverlapLosesPage`, `TidyExactly`, with the entries in `SameEntryTwice` and `ScratchLeavesPages`.
- DXSDT and DXSTG can leave a clean line that differs from memory: `StoreDataExact`, `StoreTagExact`, with a state in `StoresBreakInvariant`.

## Model

| member | source | states |
|---|---|---|
| CacheRefinement.CacheRefinesMemory | pcsx2/Cache.cpp:171-310 | Over every run of 8 to 128-bit reads and writes, write-backs, tag loads and remappings, each access returns what flat memory would at the multiple of its size at or below the address, the final view is the flat memory, and once no line is dirty host memory holds it |
| CacheRefinement.StepIsFlat | pcsx2/Cache.cpp:215-310 | One instruction of such a run: same result and same change of view as on flat memory |
| CacheRefinement.ReadIsFlat | pcsx2/Cache.cpp:266-310 | A read returns the view's bytes at its aligned address and changes the view nowhere, even when it evicts a dirty line |
| CacheRefinement.WriteIsFlat | pcsx2/Cache.cpp:227-264 | A write changes the view at exactly its aligned bytes |
| CacheRefinement.AccessOk | pcsx2/Cache.cpp:185-213 | getFreeCache keeps invariant and view, and the line it picks holds the address |
| CacheRefinement.RefillOk | pcsx2/Cache.cpp:124-132 | A clean line may be loaded with a page its set does not hold: invariant and view stay |
| CacheRefinement.WriteBackInv | pcsx2/Cache.cpp:112-122 | Writing a line back keeps every clean line equal to memory, and leaves that line not dirty |
| CacheRefinement.WriteBackView | pcsx2/Cache.cpp:112-122 | Writing a line back changes no byte of the view |
| CacheRefinement.OnlyOneCovers | pcsx2/Cache.cpp:171-183 | No address is held by two lines |
| CacheRefinement.LineIsView | pcsx2/Cache.cpp:107-110 | A valid line is its stretch of the view |
| CacheRefinement.StoreView | pcsx2/Cache.cpp:215-235 | A store into a valid line is a splice of the view |
| CacheRefinement.WriteBackOpOk | pcsx2/Cache.cpp:112-138 | Writing a line back, and clearing it or not, keeps the view and leaves memory equal to it on the line |
| CacheRefinement.InvalidateOk | pcsx2/Cache.cpp:134-138 | Clearing a line takes exactly its bytes back to memory and changes nothing else |
| CacheRefinement.HitInstructions | pcsx2/Cache.cpp:346-366 | On a hit DHIN empties the line and leaves memory, DHWBIN saves the line in memory and empties it, DHWOIN saves it and leaves it clean; no other line or byte changes, and on a miss nothing does |
| CacheRefinement.IndexInstructions | pcsx2/Cache.cpp:368-446 | DXIN, DXWBIN and DXLTG do the same to the line that bits 6 to 11 and bit 0 of the address name |
| CacheRefinement.HitOpInv | pcsx2/Cache.cpp:312-330 | A hit operation keeps the invariant, and the view if it writes back; on a miss the state stays as it is |
| CacheRefinement.StepInv | pcsx2/Cache.cpp:339-446 | Every modelled instruction keeps the invariant: no twins in a set, clean lines equal to memory |
| CacheRefinement.WriteThenRead | pcsx2/Cache.cpp:227-275 | What is written is read back |
| CacheRefinement.AliasesAgree | pcsx2/Cache.cpp:187-191 | Two virtual pages on one host page see the same line: a write through one is read through the other |
| CacheRefinement.StoreDataExact | pcsx2/Cache.cpp:410-420 | DXSDT keeps the invariant if and only if the line is invalid or dirty or holds that word already |
| CacheRefinement.StoreTagExact | pcsx2/Cache.cpp:422-434 | DXSTG keeps the invariant if and only if the line is left invalid, or stands for memory, agrees with it unless dirty, and has no twin |
| CacheCode.StoresBreakInvariant | pcsx2/Cache.cpp:410-434 | After one read of a fresh cache, a DXSDT of other data and a DXSTG that makes an empty way valid, whose tag stands for no memory, each break the invariant |
| CacheRefinement.DataRoundTrip | pcsx2/Cache.cpp:380-420 | What DXSDT stores, DXLDT loads |
| CacheRefinement.TagRoundTrip | pcsx2/Cache.cpp:392-434 | The flags that DXLTG loads, DXSTG stores |
| CacheRefinement.FillsAlternate | pcsx2/Cache.cpp:203-209 | Over any run the fills of a set take its two ways in turn, so the line filled last is never the next victim |
| CacheRefinement.StepVictim | pcsx2/Cache.cpp:80-98 | Only a fill changes the next victim: hits, write-backs and invalidations keep it |
| CacheState.AccessFits | pcsx2/Cache.cpp:223-224 | An aligned access lies within one line |
| CacheState.AlignsDown | pcsx2/Cache.cpp:223-224 | The aligned address is the multiple of the size at or below the address |
| CacheState.SamePlace | pcsx2/Cache.cpp:187-224 | A virtual address has the set, and the aligned place in its line, of the host address behind it |
| CacheCode.Cache.constructor | pcsx2/Cache.cpp:166-169 | After resetCache the view is memory, and way 0 of every set is filled first |
| CacheCode.Cache.WriteBackIfNeeded | pcsx2/Cache.cpp:112-122 | In place: the line's 64 bytes go to memory and the dirty flag is cleared, only if dirty and valid |
| CacheCode.Cache.LoadLine | pcsx2/Cache.cpp:124-132 | In place: tag and data of the line around the address, inside memory |
| CacheCode.Cache.ClearLine | pcsx2/Cache.cpp:134-138 | In place: everything but the LRF flag is zeroed |
| CacheCode.Cache.FindInCache | pcsx2/Cache.cpp:171-183 | The way that holds the page, way 0 first, or none |
| CacheCode.Cache.GetFreeCache | pcsx2/Cache.cpp:185-213 | The state change and the line that AccessOk is about |
| CacheCode.Cache.ReadCache | pcsx2/Cache.cpp:266-310 | Returns the bytes of the view at the multiple of the size at or below the host address, and keeps the view |
| CacheCode.Cache.WriteCache | pcsx2/Cache.cpp:227-264 | Replaces exactly those bytes of the view |
| CacheCode.Cache.DoCacheHitOp | pcsx2/Cache.cpp:312-330 | Operates on the line that holds the address, or does nothing |
| CacheCode.Cache.CACHE | pcsx2/Cache.cpp:339-455 | Each operation number has the effect of its instruction on lines, memory and TagLo, bit by bit and byte by byte, and keeps the invariant but for DXSDT and DXSTG |
| WorkSema.NoLostWakeup | common/Semaphore.cpp:24-73 | In every interleaving, a worker blocked on m_sema with no token and no pending Post has processed everything announced |
| WorkSema.TokensMatchSleep | common/Threading.h:343-354 | Tokens plus pending posts never exceed one, and are zero outside the sleep phase, unless a worker killed in its sleep left one |
| WorkSema.WaitForEmptySafe | common/Semaphore.cpp:75-107 | When WaitForEmpty returns true, everything announced before the call has been processed, also with Kill, of a worker awake or asleep, and clean Resets in the run |
| WorkSema.ResultTellsDeath | common/Semaphore.cpp:75-107 | WaitForEmpty returns false exactly if the worker was dead when m_state was last loaded |
| WorkSema.NoStuckWaiter | common/Semaphore.cpp:75-114 | A blocked waiter has its flag in m_state, a token, or a Post the worker is about to make, and exactly one of them unless a worker was killed in its sleep; a dead or starved worker has paid its token |
| WorkSema.NoStrandedWork | common/Semaphore.cpp:24-73 | From any point of any run a live worker can run on until everything announced is processed and a blocked waiter has its token |
| WorkSema.AssertionsHold | common/Semaphore.cpp:31-86 | The worker never waits while dead, and the flag is never already set when a waiter sets it |
| WorkSema.StateRefines | common/Threading.h:312-354 | In every run each step does to the decoded m_state what is documented for the abstract states |
| WorkSema.StepInv | common/Semaphore.cpp:24-119 | Every step of worker, notifiers and waiter keeps the protocol's invariant |
| WorkSema.NotifyRefines | common/Threading.h:345-351 | fetch_add(2) makes the documented transition if and only if the value is not about to run into the flag, the sign or the live states |
| WorkSema.PendingSurvives | common/Threading.h:329-333 | After k notifications the state looks ready for sleep if and only if 2^29 divides k |
| WorkSema.WorkForgotten | common/Threading.h:329-351 | After 2^29 notifications a running worker finds nothing pending |
| WorkSema.WorkerOpsRefine | common/Threading.h:329-339 | IsReadyForSleep, NextStateWaitForWork, fetch_and and the flag do to running states what is documented |
| WorkSema.ResetSafeExactly | common/Semaphore.cpp:116-119 | Reset restores the protocol if and only if the dead worker left no announced work, no token or Post of its own, and no token but the one a blocked waiter is owed |
| WorkSema.ResetAfterWakingKill | common/Semaphore.cpp:109-119 | After a Kill of a worker awake, that is if and only if it left no announced work |
| WorkSema.ResetStrandsWork | common/Semaphore.cpp:24-119 | From every state where Reset is possible and no token is left, the worker resets, waits and sleeps with no token and no Post, and all announced work is processed if and only if it was before the Reset |
| WorkSema.LeftoverTokenSetsFlag | common/Semaphore.cpp:38-40 | From every such state with a token left, the next sleep ends at once and acknowledging sets the flag with no one waiting |
| WorkSema.StrayTokenLies | common/Semaphore.cpp:75-114 | From every such state with a token for no waiter, the next WaitForEmpty returns true with work announced before it not done |
| WorkSema.KillPostsAstrayExactly | common/Semaphore.cpp:109-114 | Kill posts m_empty_sema without the flag having been set if and only if the worker sleeps and has not been notified |
| WorkSema.WorkLeftBehind | common/Semaphore.cpp:109-114 | A run that kills the worker with announced work in the queue |
| WorkSema.TokenLeftBehind | common/Semaphore.cpp:109-114 | A run that leaves a token in m_empty_sema with no one waiting |
| WorkSema.Encoding | common/Threading.h:312-333 | What the sign, the flag and the low bits of m_state tell, in any state of a run |
| WorkSemaCode.Semaphores.NotifyOfWork | common/Threading.h:343-354 | The documented transition, a token exactly if the worker slept, and the work is announced |
| WorkSemaCode.Semaphores.WaitForWork | common/Semaphore.cpp:24-42 | However often the weak exchange fails: with work pending it is acknowledged and the flag kept; else the waiter is posted and the worker sleeps |
| WorkSemaCode.Semaphores.WaitForWorkWithSpin | common/Semaphore.cpp:44-73 | The same outcome as WaitForWork, after spinning |
| WorkSemaCode.Semaphores.WakeUp | common/Semaphore.cpp:38-40 | The token is consumed, and all that has been announced is acknowledged |
| WorkSemaCode.Semaphores.WaitForEmpty | common/Semaphore.cpp:75-89 | Blocks exactly while the worker runs, with the flag set; else tells whether the worker lives, and if so nothing announced is unprocessed |
| WorkSemaCode.Semaphores.FinishWaiting | common/Semaphore.cpp:87-88 | The token is consumed; true means that everything asked for was processed |
| WorkSemaCode.Semaphores.Kill | common/Semaphore.cpp:109-114 | The state is dead; m_empty_sema gets a token if the flag was set, or the worker slept un-notified |
| WorkSemaCode.Semaphores.Reset | common/Semaphore.cpp:116-119 | The state is running with nothing pending, and the protocol holds if and only if nothing was left behind |
| SpscQueue.Fifo | common/boost_spsc_queue.hpp:88-160 | In every interleaving, with stale index reads, the popped items are a prefix of the pushed ones, and at most max_size - 1 are held |
| SpscQueue.NoBadAccess | common/boost_spsc_queue.hpp:101-160 | Objects are constructed only over raw slots, and only constructed ones are copied, referred to or destroyed |
| SpscQueue.RefusalsAreHonest | common/boost_spsc_queue.hpp:106-121 | push refuses exactly at max_size - 1 items beyond the pops it sees, pop exactly when it sees none |
| SpscQueue.SizeErrsSafely | common/boost_spsc_queue.hpp:192-201 | size() never exceeds the occupancy for the consumer, and is never below it for the producer |
| SpscQueue.NextInv | common/boost_spsc_queue.hpp:88-160 | Every step of either thread keeps indices, slots and what each thread knows consistent |
| SpscQueue.FrontSlot | common/boost_spsc_queue.hpp:123-136 | The slot at read_index holds the oldest item not popped |
| SpscQueue.BackSlot | common/boost_spsc_queue.hpp:103-109 | The slot at write_index is raw when push has found room |
| SpscQueue.ModNext | common/boost_spsc_queue.hpp:88-99 | next_index of a count mod max_size is the next count mod max_size |
| SpscQueue.SizeOfCounts | common/boost_spsc_queue.hpp:192-201 | size() of two counts less than max_size apart is their difference |
| SpscQueue.RingBuffer.Push | common/boost_spsc_queue.hpp:101-114 | Appends the item, or refuses exactly when max_size - 1 are held |
| SpscQueue.RingBuffer.Pop | common/boost_spsc_queue.hpp:116-129 | Removes and returns the first item, or nothing exactly when empty |
| SpscQueue.RingBuffer.Front | common/boost_spsc_queue.hpp:131-136 | The first item, which stays |
| SpscQueue.RingBuffer.PopFront | common/boost_spsc_queue.hpp:138-144 | Removes the item that front() returned |
| SpscQueue.RingBuffer.Empty | common/boost_spsc_queue.hpp:178-181 | True exactly when nothing is held |
| SpscQueue.RingBuffer.ProducerSize | common/boost_spsc_queue.hpp:192-201 | With no one else running, the number of items held |
| SpscQueue.RingBuffer.ConsumerSize | common/boost_spsc_queue.hpp:192-201 | The same for the consumer |
| CounterLazy.LazyIsIdeal | pcsx2/Counters.cpp:779-1064 | Whatever updates, count, target and hold writes and gate signals of any mode come, with less than 2^31 cycles less one tick between those that take in ticks, a read gives the count of a counter that ticks one by one, stops and goes on with its gate, and on a restart counts from the start of the phase that the signal ends, mod 2^16, also when the clock wraps |
| CounterLazy.UngatedCountsTicks | pcsx2/Counters.cpp:779-811 | For an ungated timer whose count is not written that is the initial count plus one for every elapsed tick, whatever signals come |
| CounterLazy.StepTracks | pcsx2/Counters.cpp:779-1041 | One event keeps the timer a whole number of the ideal counter's ticks behind it |
| CounterLazy.ReadTracks | pcsx2/Counters.cpp:1043-1064 | A read at any time shows the ideal count, mod 2^16 |
| CounterLazy.HblanksCounted | pcsx2/Counters.cpp:844-858 | A timer clocked by hblanks has counted the hblanks, mod 2^16, whatever else comes between |
| CounterTiming.ReadTicks | pcsx2/Counters.cpp:1043-1064 | rcntRead32 of the count is the count plus the ideal ticks since sCycleT, mod 2^16 |
| CounterTiming.UpdateExact | pcsx2/Counters.cpp:795-801 | After an update every later read is that of the ideal counter if and only if fewer than 2^31 cycles had passed or they were a multiple of 2^16 whole ticks |
| CounterTiming.CountReadsBackExactly | pcsx2/Counters.cpp:982-1006 | A written count reads back at once exactly when the timer is not counting cycles, or fewer than 2^31 have passed since sCycleT: the write takes the elapsed cycles as signed |
| CounterTiming.GapLosesTick | pcsx2/Counters.cpp:795-801 | After a gap of 2^31 + 1 cycles the count is right at the update and wrong one cycle later |
| CounterTiming.ZeroReturnIsModulo | pcsx2/Counters.cpp:751-811 | With updates at most target * rate cycles apart, a zero-return timer is the ideal counter modulo its target, and no update finds it beyond sixteen bits |
| CounterTiming.ReadBetweenExactly | pcsx2/Counters.cpp:1043-1064 | Between timely updates a read of a zero-return timer is the ideal count modulo its target if and only if the target has not been reached since the last update |
| CounterTiming.CycleIsModulo | pcsx2/Counters.cpp:751-752 | The ideal counter that returns to zero at its target counts modulo the target |
| CounterTiming.UpdateTakes | pcsx2/Counters.cpp:793-806 | One update takes in the whole ticks, keeps the rest in sCycleT, and its tests keep the count mod 2^16 |
| CounterTiming.WtargetTakes | pcsx2/Counters.cpp:1008-1030 | So does a target write |
| CounterTiming.TicksChain | pcsx2/Counters.cpp:799-801 | Ticks counted in two stretches, with the rest carried over, are the ticks of the whole |
| CounterState.TicksDivide | pcsx2/Counters.cpp:799-800 | The division by the rate counts the ideal ticks, and the remainder is the rest |
| CounterIrqs.IrqsMatchAcks | pcsx2/Counters.cpp:737-773 | Over any run of updates, gates and register writes, target interrupts are the acknowledgements of the flag plus its change, so at most one more; and likewise overflow interrupts |
| CounterIrqs.StepAccounts | pcsx2/Counters.cpp:737-1041 | Each operation raises an interrupt exactly when it sets the flag, and clears it only by an acknowledgement |
| CounterIrqs.MarkedTargetWaits | pcsx2/Counters.cpp:754-772 | A target marked as future raises nothing before an overflow, a gate reset, or a count or target write that puts it ahead |
| CounterIrqs.LateTargetWaits | pcsx2/Counters.cpp:1008-1035 | So does a target written at or behind the count |
| CounterIrqs.LateTargetMarked | pcsx2/Counters.cpp:1012-1033 | A written target is marked if and only if the count has reached it, and the write does not move the count |
| CounterIrqs.StepWaits | pcsx2/Counters.cpp:737-1035 | A marked target, with the count below it, is unmarked by exactly the four listed kinds of step, and none raises an interrupt |
| CounterIrqs.TargetSettles | pcsx2/Counters.cpp:737-755 | The target test leaves a count that is not far off below the target, marked unless it returns to zero, and raises an interrupt exactly when it sets the flag |
| CounterIrqs.OverflowSettles | pcsx2/Counters.cpp:757-773 | The overflow test leaves sixteen bits of a count that is not far off, keeps it mod 2^16, unmarks the target exactly on overflow, and raises an interrupt exactly when it sets the flag |
| CounterIrqs.GatedStandsStill | pcsx2/Counters.cpp:813-835 | A timer is gated unless hblank gates an hblank counter; gated it stands at zero whenever it is updated or read, ungated it reads as before |
| CounterIrqs.CatchUpReads | pcsx2/Counters.cpp:950-961 | Counting elapsed ticks before a register write does not change what is read |
| CounterIrqs.ModeReadsBack | pcsx2/Counters.cpp:964-977 | Every bit of a written mode means what pcsx2/Counters.h:22-60 says by its position, and so does the rate |
| CounterIrqs.WrittenInterrupts | pcsx2/Counters.cpp:737-773 | After a mode write that lets a timer count ungated, an update at the target raises the target's interrupt exactly if bit 8 was written, and one at overflow the overflow's exactly if bit 9 was |
| CounterSchedule.ScheduleIsExact | pcsx2/Counters.cpp:86-157 | Something fires at nextCounter and nothing earlier, if and only if no late timer is left after which no timer fires at once; else nextCounter is at most 4 |
| CounterSchedule.RcntSetDue | pcsx2/Counters.cpp:86-135 | _rcntSet on a timer that is not late lowers nextCounter exactly to that timer's first event |
| CounterSchedule.WriteKeepsSchedule | pcsx2/Counters.cpp:104-134 | Rescheduling one timer between updates does not raise nextCounter, and the timer does not fire before it |
| CounterSchedule.TimersLate | pcsx2/Counters.cpp:98-102 | With a late timer nextCounter is at most 4, and positive exactly when no later timer fires at once |
| CounterSchedule.SyncDue | pcsx2/R5900.cpp:258-264 | The distance to a sync has come exactly when cpuTestCycle says so |
| CounterSchedule.NoEventOnlyCounts | pcsx2/Counters.cpp:737-773 | An update at a time when nothing fires only counts |
| CounterSchedule.UpdateLeavesLate | pcsx2/Counters.cpp:98-102 | A zero-return timer of target 1, updated after three ticks, is late, fires at once and is scheduled in four cycles |
| CounterSchedule.LateIsPostponed | pcsx2/Counters.cpp:98-102 | So is every late timer that is alone |
| CounterSchedule.UpdatedAge | pcsx2/Counters.cpp:796-801 | After an update a counting timer's age is less than its rate, as the scheduler needs |
| CounterPrompt.EventsNoticed | pcsx2/Counters.cpp:86-157 | In every run of ungated timers in which rcntUpdate comes within a lag of at most 0x1f000 cycles after nextCounter, it comes no later than four cycles and the lag after any target or overflow |
| CounterPrompt.UpdateSeesIdeal | pcsx2/Counters.cpp:737-811 | In such a run an update finds the ideal count itself, raises the target's interrupt if and only if that has reached an unmarked target with the interrupt enabled and the flag clear, likewise for the overflow, and leaves sixteen bits |
| CounterPrompt.BoundsHold | pcsx2/Counters.cpp:779-811 | In such a run counts stay below 0x20000, and ages up to the next update below 2^26 cycles, as counting and scheduling assume |
| CounterPrompt.ScheduleStaysExact | pcsx2/Counters.cpp:138-157 | In such a run cpuRcntSet is exact as ScheduleIsExact says, with no assumption on the timers |
| CounterPrompt.StepInv | pcsx2/Counters.cpp:779-1041 | Passing time, updates, signals and register writes keep every timer within one overflow at its deadline, and every event covered by nextCounter |
| CounterPrompt.StopKeepsOverflow | pcsx2/Counters.cpp:948-980 | A timer stopped between its overflow and the update keeps a count beyond sixteen bits, and its overflow raises nothing |
| CounterPrompt.SwitchCountsBack | pcsx2/Counters.cpp:948-980 | A timer switched from hblanks to cycles reads, at once, the ticks of all cycles since the last update |
| CounterComments.ZeroReturnCommentExactly | pcsx2/Counters.cpp:751-752 | At the target the count is what pcsx2/Counters.h:42-45 says if and only if zero return is off, the interrupt is on, or the target is zero |
| CounterComments.ReturnsWithoutInterrupt | pcsx2/Counters.cpp:751-752 | A timer at its target 5 without the interrupt returns to zero |
| CounterComments.GateEdgesExactly | pcsx2/Counters.cpp:862-930 | The edges on which gated timers of a mode restart, or stop and go on, are those of pcsx2/Counters.h:35-39 if and only if the mode is 0 or 3 |
| CounterComments.CountsWhileLow | pcsx2/Counters.cpp:862-917 | Mode 0 stops a timer at what it reads when the blank starts; when it ends, the timer goes on from there with one for every tick |
| CounterComments.RestartReadsZeroExactly | pcsx2/Counters.cpp:879-884 | A restarted timer reads zero at the signal if and only if less than one tick has passed since the start cycle passed to it |
| CounterComments.RestartCountsPhase | pcsx2/Counters.cpp:657-730 | When a sync that is due restarts a timer, it reads at least the ticks of the phase just over, and so not zero if that lasts a tick |
| CounterComments.RestartedReads2000 | pcsx2/Counters.cpp:692-717 | A mode 3 timer of rate 2, restarted at the end of 4000 cycles of rendering on time, reads 2000 |
| CounterComments.RestartEdges | pcsx2/Counters.cpp:862-930 | Mode 1 restarts at the start of a blank and not at its end, mode 2 the other way round |
| CounterSync.PhaseLock | pcsx2/Counters.cpp:657-735 | In any interleaving and however late the calls, modes, phases and interrupts follow from the numbers of events: after m lines and k half-frames hsync has advanced m * (hRender + hBlank) + k * hSyncError and vsync k * (Render + Blank) |
| CounterSync.EventsWhenOver | pcsx2/Counters.cpp:657-697 | A line or frame event happens exactly when the cycles since its phase began have reached the phase's length, and a call before that changes nothing, also across a wrap of the clock |
| CounterSync.HScanlineLocked | pcsx2/Counters.cpp:657-690 | A line event moves to the next phase of the same lock |
| CounterSync.VSyncLocked | pcsx2/Counters.cpp:692-735 | So does a frame event, with its correction of hsync |
| CounterSync.LinesMatchFrames | pcsx2/Counters.cpp:262-269 | In interlaced modes j frames of lines run ahead of their half-frames by one cycle a frame if line length times line count is odd, and by none if even |
| CounterSync.FrameWithinOneCycle | pcsx2/Counters.cpp:212-269 | With the timing of vSyncInfoCalc a frame's lines and two half-frames differ by at most one cycle |
| CounterSync.CalcInLines | pcsx2/Counters.cpp:212-260 | Blanking lasts 26 lines, 22 in NTSC, rendering the rest of half a frame, GS blanking three and a half lines, a line half render and half blank, each to the nearest cycle (GS blanking rounded down), and half as long when not interlaced |
| CounterSync.ErrorBalances | pcsx2/Counters.cpp:262-266 | Twice hSyncError is two half-frames less the lines of a frame, but for the odd cycle, mod 2^32 |
| EeCounters.EeCounters.constructor | pcsx2/Counters.cpp:159-183 | The initial timers and syncs, with nextCounter at the first event |
| EeCounters.EeCounters.RcntRcount | pcsx2/Counters.cpp:1043-1056 | By division: the count with the ideal ticks since sCycleT |
| EeCounters.EeCounters.CpuRcntSetAll | pcsx2/Counters.cpp:138-157 | Something fires at nextCounter from now and nothing earlier, if and only if no late timer postpones its event; else nextCounter is at most 4 |
| EeCounters.EeCounters.RcntStartGate | pcsx2/Counters.cpp:838-897 | Each timer is gated on its own, hblank counters ticked |
| EeCounters.EeCounters.RcntEndGate | pcsx2/Counters.cpp:900-938 | Each timer's gate is ended on its own |
| EeCounters.EeCounters.RcntUpdateHScanline | pcsx2/Counters.cpp:657-690 | The line event, locked to the clock, with its gate signal on every timer; interrupts are raised exactly when flags are set |
| EeCounters.LineSignals | pcsx2/Counters.cpp:657-685 | The gate signal of a line event is one that LazyIsIdeal covers, with a phase start at least the phase's length before it |
| EeCounters.FrameSignals | pcsx2/Counters.cpp:692-717 | So is that of a frame event |
| EeCounters.SignalsMatchEvents | pcsx2/Counters.cpp:657-721 | The gates are told of the start and end of the vertical blank exactly when VBLANK_S and VBLANK_E are raised, and of those of the horizontal blank after every odd and every even phase |
| EeCounters.EeCounters.VSyncStart | pcsx2/Counters.cpp:559-584 | One interrupt, and the start gates of every timer |
| EeCounters.EeCounters.VSyncEnd | pcsx2/Counters.cpp:623-639 | One interrupt, and the end gates of every timer |
| EeCounters.EeCounters.RcntUpdateVSync | pcsx2/Counters.cpp:692-735 | The frame event of CounterSync, and its gates on every timer |
| EeCounters.EeCounters.RcntUpdate | pcsx2/Counters.cpp:779-811 | The frame event, locked to the clock, then the update of every timer; interrupts are raised exactly when flags are set, and nextCounter is at the first event |
| EeCounters.EeCounters.UpdateOf | pcsx2/Counters.cpp:785-808 | By division: the update of one timer |
| EeCounters.EeCounters.RcntWmode | pcsx2/Counters.cpp:948-980 | The ten written bits read back, but for the count bit of a timer that gets gated; the rate is 2, 32, 512 or a line by the clock bits; the count stays as it was read, or is zero if gated; a flag stays set unless bit 10 or 11 clears it, which acknowledges it; no interrupt is raised, and the schedule is lowered to the timer's first event |
| EeCounters.EeCounters.RcntWcount | pcsx2/Counters.cpp:982-1006 | One more operation on this timer alone: the count reads back exactly if the timer is not counting cycles or fewer than 2^31 have passed since sCycleT, the target is marked exactly if behind it, and the schedule is lowered to its first event |
| EeCounters.EeCounters.RcntWtarget | pcsx2/Counters.cpp:1008-1035 | One more operation on this timer alone: what is read stays, the target is marked exactly if the count has reached it, and the schedule is lowered to its first event |
| EeCounters.RescheduleHolds | pcsx2/Counters.cpp:86-135 | _rcntSet sets nextCounter to 4 for a late timer, and else lowers it exactly to the timer's first event |
| EeCounters.ScheduleHolds | pcsx2/Counters.cpp:138-157 | For any timers whatever cpuRcntSet's nextCounter is not negative, and exact as ScheduleIsExact says |
| EeCounters.EeCounters.InterruptsAcknowledged | pcsx2/Counters.cpp:737-1041 | At any point in the life of the object each timer has raised its acknowledged interrupts, and one more if its flag is set |
| EeCounters.EeCounters.SyncsInPhase | pcsx2/Counters.cpp:657-735 | At any point in the life of the object with 2m line and 3k frame events, hsync and vsync have advanced by m lines and k half-frames exactly |
| Md5.DigestOfChunks | common/MD5Digest.cpp:138-222 | However a message is cut into Update calls, Final gives the one-shot digest of the whole message, whatever MD5Transform computes |
| Md5.MD5Digest.Update | common/MD5Digest.cpp:138-182 | Keeps: bits[] is the bit length mod 2^64, buf the compressed whole blocks, in[] the bytes after them |
| Md5.MD5Digest.Final | common/MD5Digest.cpp:184-222 | The digest of the message padded as in sections 3.1 and 3.2 of RFC 1321 |
| Md5.MD5Digest.Reset | common/MD5Digest.cpp:125-136 | The state of section 3.3 of RFC 1321, for the empty message |
| Md5.MD5Digest.constructor | common/MD5Digest.cpp:120-123 | A new digest is reset |
| Md5.MD5Digest.AddBits | common/MD5Digest.cpp:145-148 | The carry test and the shifts add eight times the length to a 64-bit count |
| Md5.MD5Digest.AfterCount | common/MD5Digest.cpp:150-181 | From any buffered tail, the rest of Update consumes the data |
| Md5.MD5Digest.WholeBlocks | common/MD5Digest.cpp:171-181 | Whole blocks are compressed in order, the remaining bytes buffered |
| Md5.Padding | common/MD5Digest.cpp:189-218 | Padding completes the last block |
| Md5.PaddingBytes | common/MD5Digest.cpp:189-218 | Padding is 0x80, as few zeros as bring the message to 56 bytes mod 64, and the bit length mod 2^64, low-order byte first |
| Md5.OutputBytes | common/MD5Digest.cpp:221-221 | The sixteen bytes of the digest add up to the four words, low-order byte first |
| Md5.InitialBytes | common/MD5Digest.cpp:127-130 | The initial state is the bytes 01 23 45 67 and so on of section 3.3 of RFC 1321 |
| Md5.BlocksAppend | common/MD5Digest.cpp:171-177 | Compressing a concatenation is compressing its parts in turn |
| Md5.CountCarries | common/MD5Digest.cpp:145-148 | Two words with a carry are one 64-bit count |
| Md5.BufferedBytes | common/MD5Digest.cpp:150-190 | The low word of the bit count gives the number of buffered bytes |
| Md5.FinishOne | common/MD5Digest.cpp:210-220 | Padding that fits the last block ends the padded message |
| Md5.FinishTwo | common/MD5Digest.cpp:201-220 | So does padding that takes one more block |
| Wildcard.WildcardMatch | common/StringUtil.cpp:57-151 | Returns true if and only if the recursive glob relation holds, for either comparison; it terminates and never backtracks without a point |
| Wildcard.MatchStars | common/StringUtil.cpp:73-103 | From the first star on, the greedy loop decides the same relation |
| Wildcard.SkipStars | common/StringUtil.cpp:98-103 | At the subject's end the rest of the mask matches exactly if it is stars |
| Wildcard.NewStarLosesNothing | common/StringUtil.cpp:75-82 | A new star may forget the previous backtrack point: what that one finds, this one finds |
| Wildcard.StepStar | common/StringUtil.cpp:75-82 | Reaching a star keeps the answer, and a star at the mask's end matches all |
| Wildcard.StepAccept | common/StringUtil.cpp:85-89 | Accepting a character keeps the answer |
| Wildcard.StepBacktrack | common/StringUtil.cpp:90-94 | Backtracking keeps the answer, and a backtrack point exists |
| Wildcard.SubjectExhausted | common/StringUtil.cpp:98-103 | At the subject's end no earlier backtrack point can match any more |
| Wildcard.GlobConcat | common/StringUtil.cpp:57-151 | The relation is right on every mask: a concatenated mask matches exactly the concatenations |
| Wildcard.GlobAtoms | common/StringUtil.cpp:64-94 | The empty mask matches the empty string, a star every string, a question mark every single character, any other character itself, and with case_sensitive set a letter also the one 0x20 away |
| Wildcard.FlagFoldsCase | common/StringUtil.cpp:59-86 | With case_sensitive set the case of the subject does not matter |
| Wildcard.FlagMattersExactly | common/StringUtil.cpp:59-150 | The two settings of case_sensitive accept the same subjects if and only if no letter occurs in the mask |
| Wildcard.SwappedDiffers | common/StringUtil.cpp:105-148 | With a letter in the mask, the mask without stars and with the case of its letters swapped does not match when case_sensitive is not set |
| Wildcard.SwappedFolds | common/StringUtil.cpp:59-104 | It does when case_sensitive is set |
| Tlb.RewriteExact | pcsx2/COP0.cpp:360-394 | Replacing an entry keeps the map the union of all entries if and only if the new entry is compatible with the others |
| Tlb.ApartIsCompatible | pcsx2/COP0.cpp:360-394 | Entries whose pages are apart are compatible |
| Tlb.DisjointIsCompatible | pcsx2/COP0.cpp:360-394 | Entries not for the scratchpad whose valid ranges are pairwise disjoint, before and after the replacement, are compatible |
| Tlb.DisjointRunsKeepUnion | pcsx2/COP0.cpp:360-394 | Over any run of replacements that keeps the ranges disjoint the map stays the union of all entries |
| Tlb.InRange | pcsx2/COP0.cpp:256-321 | What an entry maps or unmaps lies in its range |
| Tlb.OverlapLosesPage | pcsx2/COP0.cpp:283-321 | Of two entries for one page, replacing one leaves the page without translation, and the map is not the union |
| Tlb.SameEntryTwice | pcsx2/COP0.cpp:360-394 | With two entries for page 0 the map that has it is their union; replacing the first by one not in use loses the page of the second |
| Tlb.HalvesCover | pcsx2/COP0.cpp:256-280 | With a contiguous page mask the even and odd halves cover exactly Mask + 1 pages each, side by side |
| Tlb.TidyExactly | pcsx2/COP0.cpp:283-321 | Unmapping undoes mapping if and only if the entry is not for the scratchpad, or is at its usual place, or has no page beyond the first four |
| Tlb.ScratchLeavesPages | pcsx2/COP0.cpp:250-293 | A scratchpad entry at page 0 with halves of four pages is not undone by unmapping |
| Tlb.RegistersAreAligned | pcsx2/COP0.cpp:330-336 | WriteTLB aligns the address of every entry with a contiguous page mask |
| Tlb.FieldsMean | pcsx2/COP0.cpp:330-337 | The fields of an entry with a page mask of k ones, in terms of the registers |
| Tlb.LowBitsRemain | pcsx2/COP0.cpp:330-336 | Clearing the low k bits takes off the remainder by 2^k |
| Tlb.UsualScratchpad | pcsx2/COP0.cpp:250-255 | A scratchpad entry at 0x70000000 maps and clears four pages there and no others |
| Tlb.PageBitsIs | pcsx2/COP0.cpp:257-257 | The loops' mask for a contiguous page mask keeps the bits above both halves |
| Tlb.SameStretch | pcsx2/COP0.cpp:262-262 | The match test accepts every page of an aligned stretch |
| Tlb.Cop0.MapTLB | pcsx2/COP0.cpp:241-281 | Every page gets the translation the entry denotes, and no other page changes |
| Tlb.Cop0.UnmapTLB | pcsx2/COP0.cpp:283-321 | Exactly the pages of the entry are cleared |
| Tlb.Cop0.WriteTLB | pcsx2/COP0.cpp:323-340 | With a page mask of k ones, the pages of the even half lead to EntryLo0's frame and those of the odd half to EntryLo1's, with the low k bits cleared, each page at its place, from the page that EntryHi names; no other page changes |
| Tlb.Cop0.TLBWI | pcsx2/COP0.cpp:360-375 | The entry at Index is replaced, and the map stays the union if and only if the entries are compatible, so whenever the ranges are disjoint before and after |
| Tlb.Cop0.TLBWR | pcsx2/COP0.cpp:377-394 | The same for the entry at Random |
| Tlb.Cop0.constructor | pcsx2/R5900.h:205-216 | With no valid entry the empty map is the union |

## Left out

- CacheCode.Cache.CACHE: the unused bits 0-2 and 7-11 that DXSTG can put into a tag are not modelled, and operation 0x7, an instruction cache operation, does nothing, as in the source.
- WorkSema.KillPostsAstrayExactly: a worker is killed while it works, before it waits, or out of m_sema.Wait, not between the other steps of a wait, where nothing can unwind it.
- Md5.DigestOfChunks: MD5Transform, its rounds and constants are a parameter.
- CounterLazy.LazyIsIdeal: zero-return timers are in ZeroReturnIsModulo instead, hblank counters in HblanksCounted, and mode writes, which change the rate or the gate, in the runs of CounterIrqs.
- Tlb.Cop0.TLBWI: Index values of 48 to 63, which reach outside the array of entries, are excluded.
- Tlb.Cop0.TLBWR: Random values of 48 to 63 likewise.
- Cache: the lock flag is only logged by the source and decides nothing; pages with handlers, and the Config register, are not modelled.
- Cache: the first page of host memory stands for the null address, which is never mapped.
- Cache: translation is a page map that keeps the low twelve bits; vtlb itself is not part of this model.
- TLB: TLBP, TLBR, ASID, the G bit, nMask and Cpu->Clear; memSetPageAddr and memClearPageAddr are map updates.
- Work semaphore: real memory ordering (steps are sequentially consistent), more than one thread waiting for empty, the kernel semaphores' own code, GUI yielding and spin times.
- Work semaphore: the methods of WorkSemaCode run one thread at a time; the interleavings are those of the machine in WorkSema.
- Ring buffer: reset(), the destructor and exceptions thrown by T; memory ordering other than stale loads of the other index.
- Wildcard matching: tolower of locales other than "C".
- Counters: the frame limiter, FMV switching, HSINT and the other GS calls, IOP and pad calls, tracing, the host side of VSyncStart and VSyncEnd, save states, cpuSetNextEvent.
- Counters: vSyncInfoCalc takes the frame length as a natural number, so the rounding of the division by the frame rate is not modelled; UpdateVSyncRate and mode changes in mid-run are not either.
- CounterPrompt.EventsNoticed: timers stay ungated; a mode is not written in the moment between an overflow and its update, and does not change from hblanks to cycles in one write, as each of these leaves a count that no update has settled (StopKeepsOverflow, SwitchCountsBack).
- Counters: rcntInit does not clear gates; the constructor starts with none.
- Other parts of the repository: virtual memory, thread wrappers, console, files, user interface, settings and everything else.
