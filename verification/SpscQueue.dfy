/** ringbuffer_base of boost_spsc_queue.hpp: a lock-free queue for one producer and one consumer.

    The producer and the consumer are interleaved one memory access at a time: index loads, the
    construction, copy and destruction of a slot, and index stores are separate steps.  A load of
    the index that the other thread writes may return any value that index has held since the
    last one this thread saw. */
module SpscQueue {
  import opened Arithmetic

  /** Memory for one T: raw, or holding a constructed object. */
  datatype Slot<T> = Raw | Holds(value: T)

  /** What push is doing: `w` is write_index. */
  datatype Producer<T> =
    | PIdle
    | PLoadedOwn(item: T, w: nat)
    | PHasRoom(item: T, w: nat)
    | PConstructed(item: T, w: nat)
    | PSizing(w: nat)

  /** What pop, consume_one (the same accesses), front and pop() without argument are doing. */
  datatype Consumer<T> =
    | CIdle
    | CLoadedWrite(w: nat)
    | CHasItem(r: nat)
    | CCopied(r: nat, out: T)
    | CDestroyed(r: nat, out: T)
    | CFront(out: T)
    | CSizing(w: nat)

  /** `pushed` and `popped` record the completed calls; `seenRead` and `seenWrite` are how many pops
      the producer and how many pushes the consumer know of.  They are history only. */
  datatype State<T> = State(
    buffer: seq<Slot<T>>,
    writeIndex: nat, readIndex: nat, pendingPop: nat,
    producer: Producer<T>, consumer: Consumer<T>,
    pushed: seq<T>, popped: seq<T>,
    seenRead: nat, seenWrite: nat)

  function NextIndex(arg: nat, maxSize: nat): nat
    requires maxSize > 0
  {
    (arg + 1) % maxSize
  }

  ghost predicate Init<T(!new)>(s: State<T>, maxSize: nat) {
    && maxSize > 0
    && s == State(seq(maxSize, _ => Raw), 0, 0, 0, PIdle, CIdle, [], [], 0, 0)
  }

  /** The atomic steps.  The argument `seen` of a load of the other thread's index is the count
      behind the value loaded. */
  datatype Action<T> =
    | PushStart(item: T)
    | PushCheck(seen: nat)
    | PushConstruct
    | PushStore
    | ProducerSizeOwn
    | ProducerSizeOther(seen: nat, size: int)
    | PopLoadWrite(seen: nat)
    | PopLoadOwn
    | PopCopy
    | PopDestroy
    | PopStore
    | EmptyCheck(seen: nat)
    | FrontStart
    | FrontDestroy
    | ConsumerSizeOther(seen: nat)
    | ConsumerSizeOwn(size: int)

  /** Loads see no value older than the last one seen, nor one not yet stored. */
  ghost predicate FreshEnough(known: nat, seen: nat, now: nat) {
    known <= seen <= now
  }

  /** The arithmetic of size(). */
  function SizeOf(writeIndex: nat, readIndex: nat, maxSize: nat): int {
    if readIndex > writeIndex then (writeIndex + maxSize) - readIndex else writeIndex - readIndex
  }

  ghost predicate Next<T(!new)>(s: State<T>, a: Action<T>, t: State<T>)
    requires |s.buffer| > 0
  {
    var n := |s.buffer|;
    match a
    // push
    case PushStart(item) =>
      s.producer.PIdle? && t == s.(producer := PLoadedOwn(item, s.writeIndex))
    case PushCheck(seen) =>
      && s.producer.PLoadedOwn? && FreshEnough(s.seenRead, seen, |s.popped|)
      && t == s.(seenRead := seen,
                 producer := if NextIndex(s.producer.w, n) == seen % n then PIdle
                             else PHasRoom(s.producer.item, s.producer.w))
    case PushConstruct =>
      && s.producer.PHasRoom? && s.producer.w < n
      && t == s.(buffer := s.buffer[s.producer.w := Holds(s.producer.item)],
                 producer := PConstructed(s.producer.item, s.producer.w))
    case PushStore =>
      && s.producer.PConstructed?
      && t == s.(writeIndex := NextIndex(s.producer.w, n), pushed := s.pushed + [s.producer.item], producer := PIdle)
    // size() called by the producer
    case ProducerSizeOwn =>
      s.producer.PIdle? && t == s.(producer := PSizing(s.writeIndex))
    case ProducerSizeOther(seen, size) =>
      && s.producer.PSizing? && FreshEnough(s.seenRead, seen, |s.popped|)
      && size == SizeOf(s.producer.w, seen % n, n)
      && t == s.(seenRead := seen, producer := PIdle)
    // pop(T&) and consume_one
    case PopLoadWrite(seen) =>
      && s.consumer.CIdle? && FreshEnough(s.seenWrite, seen, |s.pushed|)
      && t == s.(seenWrite := seen, consumer := CLoadedWrite(seen % n))
    case PopLoadOwn =>
      && s.consumer.CLoadedWrite?
      && t == s.(consumer := if s.consumer.w == s.readIndex then CIdle else CHasItem(s.readIndex))
    case PopCopy =>
      && s.consumer.CHasItem? && s.consumer.r < n && s.buffer[s.consumer.r].Holds?
      && t == s.(consumer := CCopied(s.consumer.r, s.buffer[s.consumer.r].value))
    case PopDestroy =>
      && s.consumer.CCopied? && s.consumer.r < n
      && t == s.(buffer := s.buffer[s.consumer.r := Raw], consumer := CDestroyed(s.consumer.r, s.consumer.out))
    case PopStore =>
      && s.consumer.CDestroyed?
      && t == s.(readIndex := NextIndex(s.consumer.r, n), popped := s.popped + [s.consumer.out], consumer := CIdle)
    // empty(), front() and pop(): a caller of front must have found the queue not empty
    case EmptyCheck(seen) =>
      s.consumer.CIdle? && FreshEnough(s.seenWrite, seen, |s.pushed|) && t == s.(seenWrite := seen)
    case FrontStart =>
      && s.consumer.CIdle? && |s.popped| < s.seenWrite
      && s.readIndex < n && s.buffer[s.readIndex].Holds?
      && t == s.(pendingPop := s.readIndex, consumer := CFront(s.buffer[s.readIndex].value))
    case FrontDestroy =>
      && s.consumer.CFront? && s.pendingPop < n
      && t == s.(buffer := s.buffer[s.pendingPop := Raw], consumer := CDestroyed(s.pendingPop, s.consumer.out))
    // size() called by the consumer
    case ConsumerSizeOther(seen) =>
      && s.consumer.CIdle? && FreshEnough(s.seenWrite, seen, |s.pushed|)
      && t == s.(seenWrite := seen, consumer := CSizing(seen % n))
    case ConsumerSizeOwn(size) =>
      && s.consumer.CSizing? && size == SizeOf(s.consumer.w, s.readIndex, n)
      && t == s.(consumer := CIdle)
  }

  // ---------------------------------------------------------------- invariant

  /** Objects alive in the buffer: the first not yet destroyed and the first not yet constructed. */
  function Alive<T>(s: State<T>): nat {
    |s.popped| + if s.consumer.CDestroyed? then 1 else 0
  }

  function Built<T>(s: State<T>): nat {
    |s.pushed| + if s.producer.PConstructed? then 1 else 0
  }

  /** The item number i of the whole history. */
  function Item<T>(s: State<T>, i: nat): T
    requires i < Built(s)
  {
    if i < |s.pushed| then s.pushed[i] else s.producer.item
  }

  ghost predicate Inv<T(!new)>(s: State<T>) {
    var n := |s.buffer|;
    && n > 0 && Control(s) && SlotsInv(s)
  }

  /** Everything but the contents of the slots: the indices are the counts mod n, what either
      thread knows is out of date by less than n, and local variables agree with the indices. */
  ghost predicate Control<T(!new)>(s: State<T>)
    requires |s.buffer| > 0
  {
    var n := |s.buffer|;
    && s.writeIndex == |s.pushed| % n && s.readIndex == |s.popped| % n
    && s.popped <= s.pushed
    && s.seenRead <= |s.popped| <= s.seenWrite <= |s.pushed| < s.seenRead + n
    && ProducerInv(s) && ConsumerInv(s)
  }

  ghost predicate ProducerInv<T(!new)>(s: State<T>)
    requires |s.buffer| > 0
  {
    && (s.producer.PLoadedOwn? || s.producer.PHasRoom? || s.producer.PConstructed? || s.producer.PSizing? ==>
         s.producer.w == s.writeIndex)
    && (s.producer.PHasRoom? || s.producer.PConstructed? ==> |s.pushed| + 1 < s.seenRead + |s.buffer|)
  }

  ghost predicate ConsumerInv<T(!new)>(s: State<T>)
    requires |s.buffer| > 0
  {
    && (s.consumer.CLoadedWrite? || s.consumer.CSizing? ==> s.consumer.w == s.seenWrite % |s.buffer|)
    && (s.consumer.CHasItem? || s.consumer.CCopied? || s.consumer.CDestroyed? || s.consumer.CFront? ==>
         |s.popped| < s.seenWrite)
    && (s.consumer.CHasItem? || s.consumer.CCopied? || s.consumer.CDestroyed? ==> s.consumer.r == s.readIndex)
    && (s.consumer.CFront? ==> s.pendingPop == s.readIndex)
    && (s.consumer.CCopied? || s.consumer.CDestroyed? || s.consumer.CFront? ==>
         |s.popped| < |s.pushed| && s.consumer.out == s.pushed[|s.popped|])
  }

  /** Slot j holds the item that is alive there, and is raw if there is none. */
  ghost predicate SlotsInv<T(!new)>(s: State<T>)
    requires |s.buffer| > 0
  {
    && (forall i | Alive(s) <= i < Built(s) :: s.buffer[i % |s.buffer|] == Holds(Item(s, i)))
    && (forall i | Built(s) <= i < Alive(s) + |s.buffer| :: s.buffer[i % |s.buffer|] == Raw)
  }

  // ---------------------------------------------------------------- arithmetic

  lemma ModDistinct(i: nat, j: nat, n: nat)
    requires i <= j < i + n && i % n == j % n
    ensures i == j
  {
    var q := j / n - i / n;
    assert j - i == n * q;
    assert q < 1 || n * q >= n;
  }

  lemma ModNext(i: nat, n: nat)
    requires n > 0
    ensures (i % n + 1) % n == (i + 1) % n
  {
    var q, r := i / n, i % n;
    assert i + 1 == n * q + (r + 1);
    if r + 1 < n {
      Quotient(i + 1, n, q, r + 1);
    } else {
      assert i + 1 == n * (q + 1);
      Quotient(i + 1, n, q + 1, 0);
      Quotient(r + 1, n, 1, 0);
    }
  }

  /** size() from two counts at most n - 1 apart. */
  lemma SizeOfCounts(w: nat, r: nat, n: nat)
    requires r <= w < r + n
    ensures SizeOf(w % n, r % n, n) == w - r
  {
    var at, k := r % n, w - r;
    if at + k < n {
      Quotient(w, n, r / n, at + k);
    } else {
      Quotient(w, n, r / n + 1, at + k - n);
    }
  }

  // ---------------------------------------------------------------- preservation

  lemma InitInv<T(!new)>(s: State<T>, maxSize: nat)
    requires Init(s, maxSize)
    ensures Inv(s)
  {
  }

  /** Writing slot number i of the history leaves every other live slot alone. */
  lemma SlotUpdate<T(!new)>(b: seq<Slot<T>>, i: nat, x: Slot<T>, j: nat)
    requires |b| > 0 && j != i && i < j + |b| && j < i + |b|
    ensures b[i % |b| := x][j % |b|] == b[j % |b|]
  {
    if i % |b| == j % |b| {
      if i < j { ModDistinct(i, j, |b|); } else { ModDistinct(j, i, |b|); }
    }
  }

  lemma ConstructKeepsSlots<T(!new)>(s: State<T>, t: State<T>)
    requires Inv(s) && Next(s, PushConstruct, t)
    ensures SlotsInv(t)
  {
    forall i | i != |s.pushed| && Alive(t) <= i < Alive(t) + |t.buffer|
      ensures t.buffer[i % |t.buffer|] == s.buffer[i % |s.buffer|]
    {
      SlotUpdate(s.buffer, |s.pushed|, Holds(s.producer.item), i);
    }
  }

  lemma DestroyKeepsSlot<T(!new)>(b: seq<Slot<T>>, popped: nat, i: nat)
    requires |b| > 0 && popped < i <= popped + |b|
    ensures b[popped % |b| := Raw][i % |b|] == if i < popped + |b| then b[i % |b|] else Raw
  {
    if i < popped + |b| {
      SlotUpdate(b, popped, Raw, i);
    } else {
      Quotient(i, |b|, popped / |b| + 1, popped % |b|);
    }
  }

  lemma DestroyKeepsSlots<T(!new)>(s: State<T>, a: Action<T>, t: State<T>)
    requires Inv(s) && (a.PopDestroy? || a.FrontDestroy?) && Next(s, a, t)
    ensures SlotsInv(t)
  {
    var n := |s.buffer|;
    assert t.buffer == s.buffer[|s.popped| % n := Raw] && Alive(t) == |s.popped| + 1;
    forall i | Alive(t) <= i < Alive(t) + n
      ensures t.buffer[i % n] == if i < |s.popped| + n then s.buffer[i % n] else Raw
    {
      DestroyKeepsSlot(s.buffer, |s.popped|, i);
    }
  }

  lemma PushCheckRoom<T(!new)>(s: State<T>, seen: nat)
    requires Inv(s) && s.producer.PLoadedOwn? && FreshEnough(s.seenRead, seen, |s.popped|)
    ensures NextIndex(s.producer.w, |s.buffer|) == seen % |s.buffer| <==> |s.pushed| + 1 == seen + |s.buffer|
  {
    var n := |s.buffer|;
    ModNext(|s.pushed|, n);
    if |s.pushed| + 1 == seen + n {
      Quotient(seen + n, n, seen / n + 1, seen % n);
    } else if (|s.pushed| + 1) % n == seen % n {
      ModDistinct(seen, |s.pushed| + 1, n);
    }
  }

  lemma PopLoadDecides<T(!new)>(s: State<T>)
    requires Inv(s) && s.consumer.CLoadedWrite?
    ensures s.consumer.w == s.readIndex <==> s.seenWrite == |s.popped|
  {
    if s.seenWrite % |s.buffer| == |s.popped| % |s.buffer| {
      ModDistinct(|s.popped|, s.seenWrite, |s.buffer|);
    }
  }

  ghost predicate OfProducer<T>(a: Action<T>) {
    a.PushStart? || a.PushCheck? || a.PushConstruct? || a.PushStore? || a.ProducerSizeOwn? || a.ProducerSizeOther?
  }

  lemma ProducerKeepsControl<T(!new)>(s: State<T>, a: Action<T>, t: State<T>)
    requires Inv(s) && OfProducer(a) && Next(s, a, t)
    ensures Control(t)
  {
    match a
    case PushCheck(seen) => PushCheckRoom(s, seen);
    case PushStore => ModNext(|s.pushed|, |s.buffer|);
    case _ =>
  }

  lemma ConsumerKeepsControl<T(!new)>(s: State<T>, a: Action<T>, t: State<T>)
    requires Inv(s) && !OfProducer(a) && Next(s, a, t)
    ensures Control(t)
  {
    match a
    case PopLoadOwn => PopLoadDecides(s);
    case PopCopy => FrontSlot(s);
    case FrontStart => FrontSlot(s);
    case PopStore => ModNext(|s.popped|, |s.buffer|);
    case _ =>
  }

  /** The slot at read_index holds the oldest item the consumer may take. */
  lemma FrontSlot<T(!new)>(s: State<T>)
    requires Inv(s) && |s.popped| < s.seenWrite && !s.consumer.CDestroyed?
    ensures s.buffer[s.readIndex] == Holds(s.pushed[|s.popped|])
  {
  }

  /** The slot at write_index is raw until the producer constructs there. */
  lemma BackSlot<T(!new)>(s: State<T>)
    requires Inv(s) && |s.pushed| + 1 < s.seenRead + |s.buffer| && !s.producer.PConstructed?
    ensures s.buffer[s.writeIndex] == Raw
  {
  }

  lemma KeepsSlots<T(!new)>(s: State<T>, a: Action<T>, t: State<T>)
    requires Inv(s) && Next(s, a, t)
    ensures SlotsInv(t)
  {
    match a
    case PushConstruct => ConstructKeepsSlots(s, t);
    case PopDestroy => DestroyKeepsSlots(s, a, t);
    case FrontDestroy => DestroyKeepsSlots(s, a, t);
    case _ => SameSlots(s, a, t);
  }

  lemma SameSlots<T(!new)>(s: State<T>, a: Action<T>, t: State<T>)
    requires Inv(s) && Next(s, a, t) && !a.PushConstruct? && !a.PopDestroy? && !a.FrontDestroy?
    ensures SlotsInv(t)
  {
    assert t.buffer == s.buffer && Alive(t) == Alive(s) && Built(t) == Built(s);
    assert forall i | Alive(s) <= i < Built(s) :: Item(t, i) == Item(s, i);
  }

  lemma NextInv<T(!new)>(s: State<T>, a: Action<T>, t: State<T>)
    requires Inv(s) && Next(s, a, t)
    ensures Inv(t)
  {
    KeepsSlots(s, a, t);
    if OfProducer(a) { ProducerKeepsControl(s, a, t); } else { ConsumerKeepsControl(s, a, t); }
  }

  // ---------------------------------------------------------------- runs

  /** Any interleaving of the two threads, from the empty queue. */
  ghost predicate IsRun<T(!new)>(run: seq<State<T>>, actions: seq<Action<T>>, maxSize: nat) {
    && |run| == |actions| + 1 && Init(run[0], maxSize)
    && forall i | 0 <= i < |actions| :: |run[i].buffer| == maxSize && Next(run[i], actions[i], run[i + 1])
  }

  lemma {:induction false} RunInv<T(!new)>(run: seq<State<T>>, actions: seq<Action<T>>, maxSize: nat, k: nat)
    requires IsRun(run, actions, maxSize) && k < |run|
    ensures Inv(run[k]) && |run[k].buffer| == maxSize
  {
    if k == 0 {
      InitInv(run[0], maxSize);
    } else {
      RunInv(run, actions, maxSize, k - 1);
      NextInv(run[k - 1], actions[k - 1], run[k]);
    }
  }

  /** First in, first out, and never more than max_size - 1 items, at every point of every run. */
  lemma Fifo<T(!new)>(run: seq<State<T>>, actions: seq<Action<T>>, maxSize: nat, k: nat)
    requires IsRun(run, actions, maxSize) && k < |run|
    ensures run[k].popped <= run[k].pushed
    ensures |run[k].pushed| - |run[k].popped| <= maxSize - 1
  {
    RunInv(run, actions, maxSize, k);
  }

  /** An object is only ever constructed over raw memory, and only a constructed one is copied,
      referred to by front() or destroyed; both threads stay inside the buffer. */
  lemma NoBadAccess<T(!new)>(run: seq<State<T>>, actions: seq<Action<T>>, maxSize: nat, k: nat)
    requires IsRun(run, actions, maxSize) && k < |run|
    ensures var s := run[k];
            && (s.producer.PHasRoom? ==> s.producer.w < |s.buffer| && s.buffer[s.producer.w] == Raw)
            && (s.consumer.CHasItem? || s.consumer.CCopied? ==>
                 |s.popped| < |s.pushed| && s.consumer.r < |s.buffer| && s.buffer[s.consumer.r] == Holds(s.pushed[|s.popped|]))
            && (s.consumer.CFront? ==>
                 s.pendingPop < |s.buffer| && s.buffer[s.pendingPop] == Holds(s.consumer.out))
            && (s.consumer.CIdle? && |s.popped| < s.seenWrite ==>
                 |s.popped| < |s.pushed| && s.readIndex < |s.buffer| && s.buffer[s.readIndex] == Holds(s.pushed[|s.popped|]))
  {
    RunInv(run, actions, maxSize, k);
    var s := run[k];
    if s.producer.PHasRoom? {
      BackSlot(s);
    }
    if |s.popped| < s.seenWrite && !s.consumer.CDestroyed? {
      FrontSlot(s);
    }
  }

  lemma RunStep<T(!new)>(run: seq<State<T>>, actions: seq<Action<T>>, maxSize: nat, k: nat)
    requires IsRun(run, actions, maxSize) && k < |actions|
    ensures |run[k].buffer| == maxSize && Inv(run[k]) && Next(run[k], actions[k], run[k + 1])
  {
    RunInv(run, actions, maxSize, k);
  }

  /** push refuses exactly when max_size - 1 items separate the pushes from the pops it sees, and
      pop exactly when it sees no push beyond the pops. */
  lemma RefusalsAreHonest<T(!new)>(run: seq<State<T>>, actions: seq<Action<T>>, maxSize: nat, k: nat)
    requires IsRun(run, actions, maxSize) && k < |actions|
    ensures actions[k].PushCheck? ==>
              (run[k + 1].producer.PIdle? <==> |run[k].pushed| - actions[k].seen == maxSize - 1)
    ensures actions[k].PopLoadOwn? ==>
              (run[k + 1].consumer.CIdle? <==> run[k].seenWrite == |run[k].popped|)
  {
    RunStep(run, actions, maxSize, k);
    Refusal(run[k], actions[k], run[k + 1]);
  }

  lemma Refusal<T(!new)>(s: State<T>, a: Action<T>, t: State<T>)
    requires Inv(s) && Next(s, a, t)
    ensures a.PushCheck? ==> (t.producer.PIdle? <==> |s.pushed| - a.seen == |s.buffer| - 1)
    ensures a.PopLoadOwn? ==> (t.consumer.CIdle? <==> s.seenWrite == |s.popped|)
  {
    match a
    case PushCheck(seen) => PushCheckRoom(s, seen);
    case PopLoadOwn => PopLoadDecides(s);
    case _ =>
  }

  /** size() errs on the safe side: the consumer is never told of more items than there are when
      the call returns, the producer never of fewer, and both stay within the capacity. */
  lemma SizeErrsSafely<T(!new)>(run: seq<State<T>>, actions: seq<Action<T>>, maxSize: nat, k: nat)
    requires IsRun(run, actions, maxSize) && k < |actions|
    ensures var s := run[k + 1];
            && (actions[k].ConsumerSizeOwn? ==> 0 <= actions[k].size <= |s.pushed| - |s.popped|)
            && (actions[k].ProducerSizeOther? ==> |s.pushed| - |s.popped| <= actions[k].size <= maxSize - 1)
  {
    RunStep(run, actions, maxSize, k);
    SizeResult(run[k], actions[k], run[k + 1]);
  }

  lemma SizeResult<T(!new)>(s: State<T>, a: Action<T>, t: State<T>)
    requires Inv(s) && Next(s, a, t)
    ensures a.ConsumerSizeOwn? ==> 0 <= a.size <= |t.pushed| - |t.popped|
    ensures a.ProducerSizeOther? ==> |t.pushed| - |t.popped| <= a.size <= |s.buffer| - 1
  {
    match a
    case ConsumerSizeOwn(size) => SizeOfCounts(s.seenWrite, |s.popped|, |s.buffer|);
    case ProducerSizeOther(seen, size) => SizeOfCounts(|s.pushed|, seen, |s.buffer|);
    case _ =>
  }

  // ---------------------------------------------------------------- the object

  /** The code itself, run by one thread at a time.  Every statement that touches shared memory is
      one step of the machine above, in the order of the source. */
  class RingBuffer<T(!new)> {
    const maxSize: nat
    const buffer: array<Slot<T>>
    var writeIndex: nat
    var readIndex: nat
    var pendingPop: nat
    ghost var st: State<T>

    ghost predicate Mirrors()
      reads this, buffer
    {
      && buffer.Length == maxSize && buffer[..] == st.buffer && Inv(st)
      && writeIndex == st.writeIndex && readIndex == st.readIndex && pendingPop == st.pendingPop
    }

    ghost predicate Valid()
      reads this, buffer
    {
      Mirrors() && st.producer.PIdle? && st.consumer.CIdle?
    }

    ghost function Contents(): seq<T>
      reads this, buffer
      requires Mirrors()
    {
      st.pushed[|st.popped|..]
    }

    constructor (maxSize: nat)
      requires maxSize > 0
      ensures Valid() && fresh(buffer) && this.maxSize == maxSize && Contents() == []
    {
      this.maxSize := maxSize;
      buffer := new Slot<T>[maxSize](_ => Raw);
      writeIndex, readIndex, pendingPop := 0, 0, 0;
      st := State(seq(maxSize, _ => Raw), 0, 0, 0, PIdle, CIdle, [], [], 0, 0);
      new;
      InitInv(st, maxSize);
    }

    /** The next state of the machine. */
    ghost method Take(a: Action<T>, t: State<T>)
      requires Inv(st) && Next(st, a, t)
      modifies this`st
      ensures st == t && Inv(st)
    {
      NextInv(st, a, t);
      st := t;
    }

    method Push(item: T) returns (ok: bool)
      requires Valid()
      modifies this`writeIndex, this`st, buffer
      ensures Valid()
      ensures ok <==> |old(Contents())| < maxSize - 1
      ensures Contents() == if ok then old(Contents()) + [item] else old(Contents())
    {
      var w := writeIndex;
      Take(PushStart(item), st.(producer := PLoadedOwn(item, w)));
      var next := NextIndex(w, maxSize);
      PushCheckRoom(st, |st.popped|);
      if next == readIndex {
        Take(PushCheck(|st.popped|), st.(seenRead := |st.popped|, producer := PIdle));
        return false;
      }
      Take(PushCheck(|st.popped|), st.(seenRead := |st.popped|, producer := PHasRoom(item, w)));
      Publish(item, w, next);
      return true;
    }

    /** The construction and the store that end push. */
    method Publish(item: T, w: nat, next: nat)
      requires Mirrors() && st.producer == PHasRoom(item, w) && next == NextIndex(w, maxSize)
      modifies this`writeIndex, this`st, buffer
      ensures Mirrors() && st.producer.PIdle? && st.consumer == old(st.consumer)
      ensures st.popped == old(st.popped) && st.pushed == old(st.pushed) + [item]
    {
      buffer[w] := Holds(item);
      Take(PushConstruct, st.(buffer := buffer[..], producer := PConstructed(item, w)));
      writeIndex := next;
      Take(PushStore, st.(writeIndex := next, pushed := st.pushed + [item], producer := PIdle));
    }

    /** pop(T&): Raw when the queue is empty. */
    method Pop() returns (out: Slot<T>)
      requires Valid()
      modifies this`readIndex, this`st, buffer
      ensures Valid()
      ensures out == if old(Contents()) == [] then Raw else Holds(old(Contents())[0])
      ensures Contents() == if old(Contents()) == [] then [] else old(Contents())[1..]
    {
      var w := writeIndex;
      Take(PopLoadWrite(|st.pushed|), st.(seenWrite := |st.pushed|, consumer := CLoadedWrite(w)));
      var r := readIndex;
      PopLoadDecides(st);
      if w == r {
        Take(PopLoadOwn, st.(consumer := CIdle));
        return Raw;
      }
      Take(PopLoadOwn, st.(consumer := CHasItem(r)));
      FrontSlot(st);
      out := buffer[r];
      Take(PopCopy, st.(consumer := CCopied(r, out.value)));
      Release(r, PopDestroy);
    }

    /** The destruction and the store that end every pop. */
    method Release(r: nat, ghost destroy: Action<T>)
      requires Mirrors() && r == readIndex
      requires (destroy.PopDestroy? && st.consumer.CCopied?) || (destroy.FrontDestroy? && st.consumer.CFront?)
      modifies this`readIndex, this`st, buffer
      ensures Mirrors() && st.consumer.CIdle? && st.producer == old(st.producer)
      ensures st.pushed == old(st.pushed) && st.popped == old(st.popped) + [old(st.consumer.out)]
    {
      ghost var out := st.consumer.out;
      buffer[r] := Raw;
      Take(destroy, st.(buffer := buffer[..], consumer := CDestroyed(r, out)));
      var next := NextIndex(r, maxSize);
      readIndex := next;
      Take(PopStore, st.(readIndex := next, popped := st.popped + [out], consumer := CIdle));
    }

    /** front(), for a caller that knows the queue is not empty. */
    method Front() returns (item: T)
      requires Valid() && |st.popped| < st.seenWrite
      modifies this`pendingPop, this`st
      ensures Mirrors() && st.producer.PIdle? && st.consumer == CFront(item)
      ensures old(Contents()) != [] && item == old(Contents())[0] && Contents() == old(Contents())
    {
      pendingPop := readIndex;
      FrontSlot(st);
      item := buffer[pendingPop].value;
      Take(FrontStart, st.(pendingPop := readIndex, consumer := CFront(item)));
    }

    /** pop(), which removes what front() returned. */
    method PopFront()
      requires Mirrors() && st.producer.PIdle? && st.consumer.CFront?
      modifies this`readIndex, this`st, buffer
      ensures Valid()
      ensures old(Contents()) != [] && Contents() == old(Contents())[1..]
    {
      Release(pendingPop, FrontDestroy);
    }

    /** empty(), called by the consumer. */
    method Empty() returns (none: bool)
      requires Valid()
      modifies this`st
      ensures Valid() && Contents() == old(Contents())
      ensures none <==> Contents() == []
      ensures !none ==> |st.popped| < st.seenWrite
    {
      Take(EmptyCheck(|st.pushed|), st.(seenWrite := |st.pushed|));
      none := writeIndex == readIndex;
      if writeIndex == readIndex {
        ModDistinct(|st.popped|, |st.pushed|, maxSize);
      }
    }

    /** size(), called by the producer. */
    method ProducerSize() returns (size: int)
      requires Valid()
      modifies this`st
      ensures Valid() && Contents() == old(Contents()) && size == |Contents()|
      ensures st.seenRead == |st.popped|
    {
      var w := writeIndex;
      Take(ProducerSizeOwn, st.(producer := PSizing(w)));
      var r := readIndex;
      size := if r > w then (w + maxSize) - r else w - r;
      SizeOfCounts(|st.pushed|, |st.popped|, maxSize);
      Take(ProducerSizeOther(|st.popped|, size), st.(seenRead := |st.popped|, producer := PIdle));
    }

    /** size(), called by the consumer. */
    method ConsumerSize() returns (size: int)
      requires Valid()
      modifies this`st
      ensures Valid() && Contents() == old(Contents()) && size == |Contents()|
    {
      var w := writeIndex;
      Take(ConsumerSizeOther(|st.pushed|), st.(seenWrite := |st.pushed|, consumer := CSizing(w)));
      var r := readIndex;
      size := if r > w then (w + maxSize) - r else w - r;
      SizeOfCounts(|st.pushed|, |st.popped|, maxSize);
      Take(ConsumerSizeOwn(size), st.(consumer := CIdle));
    }
  }
}
