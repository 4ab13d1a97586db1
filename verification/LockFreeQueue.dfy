/**
 * The single-producer single-consumer queue, as atomic steps of the two threads on shared memory.
 * Counters are 32 bits wide and wrap; a run is any interleaving of the steps.
 */
module LockFreeQueue {
  import opened Arithmetic

  /** 2^32. */
  const WORD: nat := 0x1_0000_0000

  /**
   * Where the producer is inside PushBack. `at` remembers, for the proof only, how many items had
   * been popped when the counter was loaded.
   */
  datatype Producer<T> =
    | Outside
    | PushCalled(value: T)
    | PushLoaded(value: T, popped: nat, at: nat)
    | Writing(value: T)
    | Written(value: T)

  /** Where the consumer is inside PopFront, or PeekFront when nothing is to be removed. */
  datatype Consumer<T> =
    | Away
    | PopCalled(remove: bool)
    | PopLoaded(remove: bool, pushed: nat, at: nat)
    | Reading(remove: bool)
    | Taken(value: T)

  datatype Queue<T> = Queue(
    capacity: nat,
    pushed: nat,
    popped: nat,
    slots: seq<T>,
    producer: Producer<T>,
    consumer: Consumer<T>,
    history: seq<T>,
    delivered: seq<T>,
    peeked: seq<T>)

  datatype Step<T> =
    | PushCall(value: T) | PushLoad | PushCheck | PushWrite | PushIncrement
    | PopCall(remove: bool) | PopLoad | PopCheck | PopRead | PopIncrement

  function Increment(n: nat): nat {
    (n + 1) % WORD
  }

  /** IsFull, with the popped counter as it was loaded. */
  predicate IsFull(pushed: nat, popped: nat, capacity: nat) {
    pushed == (popped + capacity) % WORD
  }

  /** Size: the unsigned difference of the counters. */
  function Size(pushed: nat, popped: nat): nat
    requires pushed < WORD && popped < WORD
  {
    (pushed + WORD - popped) % WORD
  }

  /** Where in memory the item with this counter value goes. */
  function Place(counter: nat, capacity: nat): (k: nat)
    requires capacity > 0
    ensures k < capacity
  {
    counter % capacity
  }

  /** One step of one thread; a step the thread is not ready for changes nothing. */
  function Next<T>(q: Queue<T>, s: Step<T>): (r: Queue<T>)
    requires |q.slots| == q.capacity
    ensures |r.slots| == r.capacity == q.capacity
    ensures q.history <= r.history && q.delivered <= r.delivered
  {
    match s
    case PushCall(v) =>
      if q.producer.Outside? && q.capacity > 0 then q.(producer := PushCalled(v)) else q
    case PushLoad =>
      if q.producer.PushCalled? then q.(producer := PushLoaded(q.producer.value, q.popped, |q.delivered|)) else q
    case PushCheck =>
      if !q.producer.PushLoaded? then q
      else if IsFull(q.pushed, q.producer.popped, q.capacity) then q.(producer := Outside)
      else q.(producer := Writing(q.producer.value))
    case PushWrite =>
      if q.producer.Writing? && q.capacity > 0
      then q.(slots := q.slots[Place(q.pushed, q.capacity) := q.producer.value], producer := Written(q.producer.value)) else q
    case PushIncrement =>
      if q.producer.Written?
      then q.(pushed := Increment(q.pushed), history := q.history + [q.producer.value], producer := Outside) else q
    case PopCall(remove) =>
      if q.consumer.Away? && q.capacity > 0 then q.(consumer := PopCalled(remove)) else q
    case PopLoad =>
      if q.consumer.PopCalled? then q.(consumer := PopLoaded(q.consumer.remove, q.pushed, |q.history|)) else q
    case PopCheck =>
      if !q.consumer.PopLoaded? then q
      else if q.consumer.pushed == q.popped then q.(consumer := Away)
      else q.(consumer := Reading(q.consumer.remove))
    case PopRead =>
      if !q.consumer.Reading? || q.capacity == 0 then q
      else
        var value := q.slots[Place(q.popped, q.capacity)];
        if q.consumer.remove then q.(consumer := Taken(value)) else q.(consumer := Away, peeked := q.peeked + [value])
    case PopIncrement =>
      if q.consumer.Taken?
      then q.(popped := Increment(q.popped), delivered := q.delivered + [q.consumer.value], consumer := Away) else q
  }

  /** How far a thread is in its call. */
  function PushStage<T>(p: Producer<T>): nat {
    match p
    case Outside => 0
    case PushCalled(_) => 1
    case PushLoaded(_, _, _) => 2
    case Writing(_) => 3
    case Written(_) => 4
  }

  function PopStage<T>(c: Consumer<T>): nat {
    match c
    case Away => 0
    case PopCalled(_) => 1
    case PopLoaded(_, _, _) => 2
    case Reading(_) => 3
    case Taken(_) => 4
  }

  /** A call under way that is going to remove what it reads. */
  predicate Removing<T>(c: Consumer<T>) {
    c.Taken? || (!c.Away? && c.remove)
  }

  /**
   * No step moves both threads, takes a thread back, or changes the value it is pushing or whether it is
   * popping or peeking: a push ends by being refused, or with exactly its value added; a pop by being
   * refused, or with one item delivered; a peek by being refused, or with one item read and none removed.
   */
  lemma CallsGoForward<T>(q: Queue<T>, s: Step<T>)
    requires |q.slots| == q.capacity
    ensures var r := Next(q, s);
            && (r.producer == q.producer || r.consumer == q.consumer)
            && (PushStage(r.producer) >= PushStage(q.producer)
                || (r.producer.Outside? && (s.PushCheck? || r.history == q.history + [q.producer.value])))
            && (!q.producer.Outside? && !r.producer.Outside? ==> r.producer.value == q.producer.value)
            && (PopStage(r.consumer) >= PopStage(q.consumer)
                || (r.consumer.Away? && (s.PopCheck? || (s.PopRead? && !q.consumer.remove && |r.peeked| == |q.peeked| + 1)
                                         || r.delivered == q.delivered + [q.consumer.value])))
            && (!q.consumer.Away? && !r.consumer.Away? ==> Removing(r.consumer) == Removing(q.consumer))
            && (q.consumer.Away? && !r.consumer.Away? ==> s.PopCall? && Removing(r.consumer) == s.remove)
            && (!Removing(q.consumer) ==> r.popped == q.popped && r.delivered == q.delivered)
            && (Removing(q.consumer) ==> r.peeked == q.peeked)
  {
    hide Place, Increment, IsFull;
  }

  function Run<T>(q: Queue<T>, steps: seq<Step<T>>): (r: Queue<T>)
    requires |q.slots| == q.capacity
    ensures |r.slots| == r.capacity == q.capacity
    decreases |steps|
  {
    if steps == [] then q else Next(Run(q, steps[..|steps| - 1]), steps[|steps| - 1])
  }

  function Empty<T>(memory: seq<T>): Queue<T> {
    Queue(|memory|, 0, 0, memory, Outside, Away, [], [], [])
  }

  /** The slot of the i-th item ever pushed. */
  function Slot(i: nat, capacity: nat): (k: nat)
    requires capacity > 0
    ensures k < capacity
  {
    Place(i % WORD, capacity)
  }

  /**
   * What was delivered is the beginning of what was pushed, never more than the capacity apart,
   * and every item in between still lies in its slot.
   */
  ghost predicate Fifo<T>(q: Queue<T>)
    requires |q.slots| == q.capacity
  {
    && q.delivered <= q.history
    && |q.history| - |q.delivered| <= q.capacity
    && forall i | |q.delivered| <= i < |q.history| :: q.slots[Slot(i, q.capacity)] == q.history[i]
  }

  ghost predicate Invariant<T>(q: Queue<T>) {
    && |q.slots| == q.capacity < WORD
    && q.pushed == |q.history| % WORD
    && q.popped == |q.delivered| % WORD
    && (q.capacity == 0 ==> q.history == q.delivered == [])
    && Fifo(q)
    && ProducerReady(q)
    && ConsumerReady(q)
  }

  /** What the producer knows: a count it loaded is stale at worst, and past the check there is room. */
  ghost predicate ProducerReady<T>(q: Queue<T>)
    requires |q.slots| == q.capacity
  {
    match q.producer
    case PushLoaded(_, popped, at) =>
      at <= |q.delivered| && |q.history| - at <= q.capacity && popped == at % WORD
    case Writing(_) => |q.history| - |q.delivered| < q.capacity
    case Written(v) => |q.history| - |q.delivered| < q.capacity && 0 < q.capacity && q.slots[Slot(|q.history|, q.capacity)] == v
    case _ => true
  }

  /** What the consumer knows: past the check there is an item, and the one it took is the oldest. */
  ghost predicate ConsumerReady<T>(q: Queue<T>) {
    match q.consumer
    case PopLoaded(_, pushed, at) => |q.delivered| <= at <= |q.history| && pushed == at % WORD
    case Reading(_) => |q.delivered| < |q.history|
    case Taken(v) => |q.delivered| < |q.history| && v == q.history[|q.delivered|]
    case _ => true
  }

  // --- counters --------------------------------------------------------------------------------

  lemma IncrementCounts(n: nat)
    ensures Increment(n % WORD) == (n + 1) % WORD
  {
  }

  /** Counters less than 2^32 apart are equal only when the counts are. */
  lemma CountersAgree(m: nat, n: nat)
    requires m <= n < m + WORD
    ensures m % WORD == n % WORD <==> m == n
  {
  }

  lemma FullMeansFull(pushed: nat, popped: nat, capacity: nat)
    requires popped <= pushed <= popped + capacity && capacity < WORD
    ensures IsFull(pushed % WORD, popped % WORD, capacity) <==> pushed - popped == capacity
  {
    CountersAgree(pushed, popped + capacity);
  }

  /** Items in the queue at the same time lie in different slots. */
  lemma SlotsDiffer(i: nat, j: nat, capacity: nat)
    requires 0 < capacity && i < j < i + capacity
    requires WORD % capacity == 0 || j < WORD
    ensures Slot(i, capacity) != Slot(j, capacity)
  {
    SlotIs(i, capacity);
    SlotIs(j, capacity);
    hide Place;
    RemaindersDiffer(i, j, capacity);
  }

  /** The slot is what the count itself gives, before or despite the wrap. */
  lemma SlotIs(i: nat, capacity: nat)
    requires 0 < capacity && (WORD % capacity == 0 || i < WORD)
    ensures Slot(i, capacity) == i % capacity
  {
    if i < WORD {
      assert i % WORD == i;
    } else {
      ModuloOfModulo(i, WORD, capacity);
    }
  }

  lemma RemaindersDiffer(i: nat, j: nat, m: nat)
    requires 0 < m && i < j < i + m
    ensures i % m != j % m
  {
    var a, b := i / m, j / m;
    assert i == m * a + i % m && j == m * b + j % m;
    if i % m == j % m {
      assert j - i == m * b - m * a == m * (b - a);
      SmallMultiple(m, b - a);
    }
  }

  // --- every step ------------------------------------------------------------------------------

  lemma PushCheckStep<T>(q: Queue<T>)
    requires Invariant(q)
    ensures Invariant(Next(q, PushCheck))
  {
    hide Place;
    if q.producer.PushLoaded? {
      FullMeansFull(|q.history|, q.producer.at, q.capacity);
      hide IsFull;
    }
  }

  lemma PushWriteStep<T>(q: Queue<T>)
    requires Invariant(q)
    requires q.capacity == 0 || WORD % q.capacity == 0 || |q.history| < WORD
    ensures Invariant(Next(q, PushWrite))
  {
    if q.producer.Writing? {
      var n := |q.history|;
      forall i | |q.delivered| <= i < n
        ensures Slot(i, q.capacity) != Slot(n, q.capacity)
      {
        SlotsDiffer(i, n, q.capacity);
      }
      hide Place;
    }
  }

  lemma PushIncrementStep<T>(q: Queue<T>)
    requires Invariant(q)
    ensures Invariant(Next(q, PushIncrement))
  {
    hide Place;
    if q.producer.Written? {
      IncrementCounts(|q.history|);
      hide Increment;
    }
  }

  lemma PopCheckStep<T>(q: Queue<T>)
    requires Invariant(q)
    ensures Invariant(Next(q, PopCheck))
  {
    hide Place;
    if q.consumer.PopLoaded? {
      CountersAgree(|q.delivered|, q.consumer.at);
    }
  }

  lemma PopReadStep<T>(q: Queue<T>)
    requires Invariant(q)
    ensures Invariant(Next(q, PopRead))
  {
    hide Place;
    if q.consumer.Reading? {
      assert q.slots[Slot(|q.delivered|, q.capacity)] == q.history[|q.delivered|];
    }
  }

  lemma PopIncrementStep<T>(q: Queue<T>)
    requires Invariant(q)
    ensures Invariant(Next(q, PopIncrement))
  {
    hide Place;
    if q.consumer.Taken? {
      IncrementCounts(|q.delivered|);
      hide Increment;
    }
  }

  lemma EveryStep<T>(q: Queue<T>, s: Step<T>)
    requires Invariant(q)
    requires q.capacity == 0 || WORD % q.capacity == 0 || |q.history| < WORD
    ensures Invariant(Next(q, s))
  {
    hide Place;
    match s
    case PushCheck => PushCheckStep(q);
    case PushWrite => PushWriteStep(q);
    case PushIncrement => PushIncrementStep(q);
    case PopCheck => PopCheckStep(q);
    case PopRead => PopReadStep(q);
    case PopIncrement => PopIncrementStep(q);
    case _ =>
  }

  /**
   * Every interleaving keeps the queue first-in first-out: forever when the capacity divides 2^32,
   * and for any capacity while fewer than 2^32 items have been pushed.
   */
  lemma {:induction false} QueueIsFifo<T>(memory: seq<T>, steps: seq<Step<T>>)
    requires |memory| < WORD
    requires |memory| == 0 || WORD % |memory| == 0 || |Run(Empty(memory), steps).history| < WORD
    ensures Invariant(Run(Empty(memory), steps))
    decreases |steps|
  {
    hide Invariant, Next;
    if steps == [] {
      EmptyIsFifo(memory);
    } else {
      var before, s := steps[..|steps| - 1], steps[|steps| - 1];
      var q := Run(Empty(memory), before);
      QueueIsFifo(memory, before);
      EveryStep(q, s);
    }
  }

  lemma EmptyIsFifo<T>(memory: seq<T>)
    requires |memory| < WORD
    ensures Invariant(Empty(memory))
  {
  }

  /** Whoever is about to read, to pop or only to peek, reads the oldest item not yet delivered. */
  lemma ReadsTheOldest<T>(q: Queue<T>)
    requires Invariant(q) && q.consumer.Reading?
    ensures q.capacity > 0 && |q.delivered| < |q.history|
    ensures q.slots[Place(q.popped, q.capacity)] == q.history[|q.delivered|]
    ensures var r := Next(q, PopRead);
            if q.consumer.remove then r.consumer == Taken(q.history[|q.delivered|])
            else r.peeked == q.peeked + [q.history[|q.delivered|]]
  {
    hide Place;
    assert q.slots[Slot(|q.delivered|, q.capacity)] == q.history[|q.delivered|];
  }

  /**
   * A push is refused exactly when the queue was full, and a pop or peek exactly when it was empty,
   * at the moment the other thread's counter was loaded.
   */
  lemma RefusedForGoodReason<T>(q: Queue<T>)
    requires Invariant(q)
    ensures q.producer.PushLoaded? ==>
              (Next(q, PushCheck).producer.Outside? <==> |q.history| - q.producer.at == q.capacity)
    ensures q.consumer.PopLoaded? ==>
              (Next(q, PopCheck).consumer.Away? <==> q.consumer.at == |q.delivered|)
  {
    hide Place, Fifo;
    FifoBounds(q);
    if q.producer.PushLoaded? {
      FullMeansFull(|q.history|, q.producer.at, q.capacity);
    }
    if q.consumer.PopLoaded? {
      ConsumerGap(q);
      CountersAgree(|q.delivered|, q.consumer.at);
    }
    hide IsFull;
  }

  lemma ConsumerGap<T>(q: Queue<T>)
    requires Invariant(q) && q.consumer.PopLoaded?
    ensures |q.delivered| <= q.consumer.at < |q.delivered| + WORD
  {
  }

  /** Size is the number of items in the queue, IsFull and IsEmpty say what they should. */
  lemma SizeIsExact<T>(q: Queue<T>)
    requires Invariant(q)
    ensures Size(q.pushed, q.popped) == |q.history| - |q.delivered| <= q.capacity
    ensures IsFull(q.pushed, q.popped, q.capacity) <==> |q.history| - |q.delivered| == q.capacity
    ensures q.pushed == q.popped <==> q.history == q.delivered
  {
    hide Place, ProducerReady, ConsumerReady;
    var h, d := |q.history|, |q.delivered|;
    assert d <= h <= d + q.capacity;
    UnsignedDifference(h, d, h - d);
    FullMeansFull(h, d, q.capacity);
    CountersAgree(d, h);
    hide IsFull, Size;
    assert h == d <==> q.history == q.delivered;
  }

  /**
   * Size loads the two counters one after the other, in an order the language leaves open. On the
   * producer's or the consumer's own thread one of them stands still. Seen from a third thread, with
   * `later` the state at the second load: when the pushed counter is loaded first, the result is the
   * difference of the counts modulo 2^32. Unless nearly 2^32 items went through in between, it is in
   * range exactly when no item pushed after the first load was popped before the second.
   */
  lemma SizePushedFirst<T>(q: Queue<T>, later: Queue<T>)
    requires Invariant(q) && Invariant(later) && later.capacity == q.capacity
    ensures Size(q.pushed, later.popped) == (|q.history| - |later.delivered|) % WORD
    ensures |q.delivered| <= |later.delivered| < |q.history| + WORD - q.capacity ==>
              (Size(q.pushed, later.popped) <= q.capacity <==> |later.delivered| <= |q.history|)
  {
    hide Fifo, ProducerReady, ConsumerReady;
    FifoBounds(q);
    DifferenceModulo(|q.history|, |later.delivered|);
    SmallDifference(|q.history|, |later.delivered|);
  }

  /**
   * When the popped counter is loaded first, the result counts the items popped since as well, modulo
   * 2^32. Unless 2^32 items are involved, it is in range exactly when those and the ones still there
   * are no more than the capacity.
   */
  lemma SizePoppedFirst<T>(q: Queue<T>, later: Queue<T>)
    requires Invariant(q) && Invariant(later) && later.capacity == q.capacity
    ensures Size(later.pushed, q.popped) == (|later.history| - |q.delivered|) % WORD
    ensures |q.delivered| <= |later.history| < |q.delivered| + WORD ==>
              Size(later.pushed, q.popped) == |later.history| - |q.delivered|
  {
    hide Fifo, ProducerReady, ConsumerReady;
    DifferenceModulo(|later.history|, |q.delivered|);
    SmallDifference(|later.history|, |q.delivered|);
  }

  lemma DifferenceModulo(h: nat, d: nat)
    ensures (h % WORD + WORD - d % WORD) % WORD == (h - d) % WORD
  {
    UnsignedDifference(h % WORD, d % WORD, (h % WORD + WORD - d % WORD) % WORD);
    var k := h / WORD - d / WORD;
    assert h - d == WORD * k + (h % WORD - d % WORD);
  }

  lemma SmallDifference(h: nat, d: nat)
    ensures 0 <= h - d < WORD ==> (h - d) % WORD == h - d
    ensures 0 < d - h <= WORD ==> (h - d) % WORD == WORD - (d - h)
  {
  }

  lemma FifoBounds<T>(q: Queue<T>)
    requires Invariant(q)
    ensures |q.delivered| <= |q.history| <= |q.delivered| + q.capacity
  {
  }

  lemma UnsignedDifference(h: nat, d: nat, x: nat)
    requires x < WORD && (h - d == x || h - d == x - WORD)
    ensures (h % WORD + WORD - d % WORD) % WORD == x
  {
  }

  // --- what goes wrong when the capacity does not divide 2^32 ------------------------------------

  /** A whole undisturbed PushBack, and a whole undisturbed PopFront. */
  function PushSteps<T>(v: T): seq<Step<T>> {
    [PushCall(v), PushLoad, PushCheck, PushWrite, PushIncrement]
  }

  function PopSteps<T>(): seq<Step<T>> {
    [PopCall(true), PopLoad, PopCheck, PopRead, PopIncrement]
  }

  lemma {:induction false} RunAppend<T>(q: Queue<T>, a: seq<Step<T>>, b: seq<Step<T>>)
    requires |q.slots| == q.capacity
    ensures Run(q, a + b) == Run(Run(q, a), b)
    decreases |b|
  {
    if b == [] {
      assert a + b == a;
    } else {
      RunAppend(q, a, b[..|b| - 1]);
      assert (a + b)[..|a + b| - 1] == a + b[..|b| - 1];
    }
  }

  lemma RunFive<T>(q: Queue<T>, a: Step<T>, b: Step<T>, c: Step<T>, d: Step<T>, e: Step<T>)
    requires |q.slots| == q.capacity
    ensures Run(q, [a, b, c, d, e]) == Next(Next(Next(Next(Next(q, a), b), c), d), e)
  {
    hide Next;
    assert [a, b, c, d, e][..4] == [a, b, c, d] && [a, b, c, d][..3] == [a, b, c];
    assert [a, b, c][..2] == [a, b] && [a, b][..1] == [a] && [a][..0] == [];
    assert Run(q, [a]) == Next(q, a);
    assert Run(q, [a, b]) == Next(Run(q, [a]), b);
    assert Run(q, [a, b, c]) == Next(Run(q, [a, b]), c);
    assert Run(q, [a, b, c, d]) == Next(Run(q, [a, b, c]), d);
  }

  /** Neither thread is inside a call, and the counters show how many items went in and out. */
  ghost predicate Quiet<T>(q: Queue<T>) {
    && |q.slots| == q.capacity && 0 < q.capacity < WORD
    && q.producer.Outside? && q.consumer.Away?
    && q.pushed == |q.history| % WORD && q.popped == |q.delivered| % WORD
    && |q.delivered| <= |q.history| <= |q.delivered| + q.capacity
  }

  lemma PushOnce<T>(q: Queue<T>, v: T)
    requires Quiet(q) && |q.history| < |q.delivered| + q.capacity
    ensures var r := Run(q, PushSteps(v));
            && Quiet(r) && r.capacity == q.capacity
            && r.history == q.history + [v] && r.delivered == q.delivered
            && r.slots == q.slots[Slot(|q.history|, q.capacity) := v]
  {
    hide Place, Increment, IsFull, Run;
    RunFive(q, PushCall(v), PushLoad, PushCheck, PushWrite, PushIncrement);
    FullMeansFull(|q.history|, |q.delivered|, q.capacity);
    IncrementCounts(|q.history|);
    var loaded := Next(Next(q, PushCall(v)), PushLoad);
    assert loaded == q.(producer := PushLoaded(v, q.popped, |q.delivered|));
    var writing := Next(loaded, PushCheck);
    assert writing == q.(producer := Writing(v));
    assert Next(writing, PushWrite)
        == q.(slots := q.slots[Slot(|q.history|, q.capacity) := v], producer := Written(v));
  }

  lemma PopOnce<T>(q: Queue<T>)
    requires Quiet(q) && |q.delivered| < |q.history|
    ensures var r := Run(q, PopSteps());
            && Quiet(r) && r.capacity == q.capacity && r.slots == q.slots && r.history == q.history
            && r.delivered == q.delivered + [q.slots[Slot(|q.delivered|, q.capacity)]]
  {
    hide Place, Increment, Run;
    RunFive(q, PopCall(true), PopLoad, PopCheck, PopRead, PopIncrement);
    CountersAgree(|q.delivered|, |q.history|);
    IncrementCounts(|q.delivered|);
    var loaded := Next(Next(q, PopCall(true)), PopLoad);
    assert loaded == q.(consumer := PopLoaded(true, q.pushed, |q.history|));
    var reading := Next(loaded, PopCheck);
    assert reading == q.(consumer := Reading(true));
    assert Next(reading, PopRead) == q.(consumer := Taken(q.slots[Slot(|q.delivered|, q.capacity)]));
  }

  /** A whole undisturbed PeekFront. */
  function PeekSteps<T>(): seq<Step<T>> {
    [PopCall(false), PopLoad, PopCheck, PopRead, PopIncrement]
  }

  /** It reads what a pop would take, and leaves the queue as it was. */
  lemma PeekOnce<T>(q: Queue<T>)
    requires Quiet(q) && |q.delivered| < |q.history|
    ensures Run(q, PeekSteps()) == q.(peeked := q.peeked + [q.slots[Slot(|q.delivered|, q.capacity)]])
  {
    hide Place, Increment, Run;
    RunFive(q, PopCall(false), PopLoad, PopCheck, PopRead, PopIncrement);
    CountersAgree(|q.delivered|, |q.history|);
    var loaded := Next(Next(q, PopCall(false)), PopLoad);
    assert loaded == q.(consumer := PopLoaded(false, q.pushed, |q.history|));
    var reading := Next(loaded, PopCheck);
    assert reading == q.(consumer := Reading(false));
  }

  /** A push on a full queue is refused and changes nothing. */
  lemma PushRefused<T>(q: Queue<T>, v: T)
    requires Quiet(q) && |q.history| == |q.delivered| + q.capacity
    ensures Run(q, PushSteps(v)) == q
  {
    hide Place, Increment, IsFull, Run;
    RunFive(q, PushCall(v), PushLoad, PushCheck, PushWrite, PushIncrement);
    FullMeansFull(|q.history|, |q.delivered|, q.capacity);
    var loaded := Next(Next(q, PushCall(v)), PushLoad);
    assert loaded == q.(producer := PushLoaded(v, q.popped, |q.delivered|));
    assert Next(loaded, PushCheck) == q;
  }

  /** A pop or peek on an empty queue is refused and changes nothing. */
  lemma PopRefused<T>(q: Queue<T>, remove: bool)
    requires Quiet(q) && |q.history| == |q.delivered|
    ensures Run(q, if remove then PopSteps() else PeekSteps()) == q
  {
    hide Place, Increment, Run;
    RunFive(q, PopCall(remove), PopLoad, PopCheck, PopRead, PopIncrement);
    var loaded := Next(Next(q, PopCall(remove)), PopLoad);
    assert loaded == q.(consumer := PopLoaded(remove, q.pushed, |q.history|));
    assert Next(loaded, PopCheck) == q;
  }

  function Repeat<T>(v: T, n: nat): (s: seq<T>)
    ensures |s| == n
    ensures forall i | 0 <= i < n :: s[i] == v
  {
    seq(n, _ => v)
  }

  /** n times in and straight out again. */
  function Cycles<T>(v: T, n: nat): seq<Step<T>> {
    if n == 0 then [] else Cycles(v, n - 1) + (PushSteps(v) + PopSteps())
  }

  lemma {:induction false} AfterCycles<T>(memory: seq<T>, v: T, n: nat)
    requires 0 < |memory| < WORD
    ensures var r := Run(Empty(memory), Cycles(v, n));
            Quiet(r) && r.capacity == |memory| && r.history == r.delivered == Repeat(v, n)
    decreases n
  {
    if n > 0 {
      AfterCycles(memory, v, n - 1);
      hide Quiet, Run;
      RunAppend(Empty(memory), Cycles(v, n - 1), PushSteps(v) + PopSteps());
      var q := Run(Empty(memory), Cycles(v, n - 1));
      CycleOnce(q, v, n - 1);
    }
  }

  lemma CycleOnce<T>(q: Queue<T>, v: T, n: nat)
    requires Quiet(q) && q.history == q.delivered == Repeat(v, n)
    ensures var r := Run(q, PushSteps(v) + PopSteps());
            Quiet(r) && r.capacity == q.capacity && r.history == r.delivered == Repeat(v, n + 1)
  {
    hide Run, Place;
    RunAppend(q, PushSteps(v), PopSteps());
    PushOnce(q, v);
    var p := Run(q, PushSteps(v));
    PopOnce(p);
    assert Repeat(v, n) + [v] == Repeat(v, n + 1);
  }

  function Pushes<T>(v: T, n: nat): seq<Step<T>> {
    if n == 0 then [] else Pushes(v, n - 1) + PushSteps(v)
  }

  lemma {:induction false} AfterPushes<T>(q: Queue<T>, v: T, n: nat)
    requires Quiet(q) && |q.history| + n <= |q.delivered| + q.capacity
    ensures var r := Run(q, Pushes(v, n));
            && Quiet(r) && r.capacity == q.capacity
            && r.history == q.history + Repeat(v, n) && r.delivered == q.delivered
    decreases n
  {
    if n == 0 {
      assert q.history + Repeat(v, 0) == q.history;
    } else {
      hide Run, Place, Quiet, PushSteps;
      AfterPushes(q, v, n - 1);
      RunAppend(q, Pushes(v, n - 1), PushSteps(v));
      var p := Run(q, Pushes(v, n - 1));
      StillRoom(p, q, v, n);
      PushOnce(p, v);
      assert Repeat(v, n - 1) + [v] == Repeat(v, n);
      assert q.history + Repeat(v, n - 1) + [v] == q.history + Repeat(v, n);
    }
  }

  lemma StillRoom<T>(p: Queue<T>, q: Queue<T>, v: T, n: nat)
    requires n > 0 && |q.history| + n <= |q.delivered| + q.capacity
    requires p.history == q.history + Repeat(v, n - 1) && p.delivered == q.delivered && p.capacity == q.capacity
    ensures |p.history| < |p.delivered| + p.capacity
  {
  }

  /** One push and one pop between the loads: a Size of 2^32 - 1, for every capacity. */
  lemma SizeOutOfRangePushedFirst<T>(memory: seq<T>, v: T)
    requires 0 < |memory| < WORD
    ensures var q, later := Empty(memory), Run(Empty(memory), PushSteps(v) + PopSteps());
            later.popped < WORD && Size(q.pushed, later.popped) == WORD - 1
  {
    hide Run, Place, Quiet;
    var q := Empty(memory);
    EmptyIsQuiet(memory);
    CycleOnce(q, v, 0);
    QuietCounters(Run(q, PushSteps(v) + PopSteps()));
  }

  lemma EmptyIsQuiet<T>(memory: seq<T>)
    requires 0 < |memory| < WORD
    ensures Quiet(Empty(memory))
  {
  }

  lemma QuietCounters<T>(q: Queue<T>)
    requires Quiet(q)
    ensures q.pushed == |q.history| % WORD && q.popped == |q.delivered| % WORD
  {
  }

  function Pops<T>(n: nat): seq<Step<T>> {
    if n == 0 then [] else Pops(n - 1) + PopSteps()
  }

  lemma {:induction false} AfterPops<T>(q: Queue<T>, n: nat)
    requires Quiet(q) && |q.delivered| + n <= |q.history|
    ensures var r := Run(q, Pops(n));
            Quiet(r) && r.capacity == q.capacity && r.history == q.history && |r.delivered| == |q.delivered| + n
    decreases n
  {
    if n > 0 {
      hide Run, Place, Quiet, PopSteps;
      AfterPops(q, n - 1);
      RunAppend(q, Pops(n - 1), PopSteps());
      PopOnce(Run(q, Pops(n - 1)));
    }
  }

  /** A full queue, drained and filled again between the loads: a Size of twice the capacity. */
  lemma SizeOutOfRangePoppedFirst<T>(memory: seq<T>, v: T)
    requires 0 < |memory| && 2 * |memory| < WORD
    ensures var n := |memory|;
            var q := Run(Empty(memory), Pushes(v, n));
            var later := Run(q, Pops(n) + Pushes(v, n));
            q.popped < WORD && later.pushed < WORD && Size(later.pushed, q.popped) == 2 * n
  {
    hide Run, Place, Quiet, Pushes, Pops;
    var n := |memory|;
    EmptyIsQuiet(memory);
    AfterPushes(Empty(memory), v, n);
    var q := Run(Empty(memory), Pushes(v, n));
    AfterPops(q, n);
    RunAppend(q, Pops(n), Pushes(v, n));
    var drained := Run(q, Pops(n));
    AfterPushes(drained, v, n);
    QuietCounters(q);
    QuietCounters(Run(drained, Pushes(v, n)));
  }

  /** The run: wrap the counters with a few items still in the queue, push one more, pop one. */
  function WrapRun<T>(capacity: nat, first: T, last: T): seq<Step<T>>
    requires capacity > 0
  {
    var r := WORD % capacity;
    Cycles(first, WORD - r) + (Pushes(first, r) + (PushSteps(last) + PopSteps()))
  }

  /** With a capacity that does not divide 2^32 that run delivers the newest item in place of the oldest. */
  lemma WrapBreaksFifo<T>(memory: seq<T>, first: T, last: T)
    requires 0 < |memory| < WORD && WORD % |memory| != 0 && first != last
    ensures !Fifo(Run(Empty(memory), WrapRun(|memory|, first, last)))
  {
    hide Run, Place, Quiet;
    var capacity := |memory|;
    var r := WORD % capacity;
    var start := Empty(memory);
    AfterCycles(memory, first, WORD - r);
    var q := Run(start, Cycles(first, WORD - r));
    AfterPushes(q, first, r);
    var p := Run(q, Pushes(first, r));
    RunAppend(start, Cycles(first, WORD - r), Pushes(first, r) + (PushSteps(last) + PopSteps()));
    RunAppend(q, Pushes(first, r), PushSteps(last) + PopSteps());
    RunAppend(p, PushSteps(last), PopSteps());
    assert Repeat(first, WORD - r) + Repeat(first, r) == Repeat(first, WORD);
    PushOnce(p, last);
    var full := Run(p, PushSteps(last));
    PopOnce(full);
    SameSlotAfterWrap(capacity);
    var end := Run(full, PopSteps());
    assert end.delivered[WORD - r] == last && end.history[WORD - r] == first;
  }

  lemma SameSlotAfterWrap(capacity: nat)
    requires 0 < capacity < WORD && WORD % capacity != 0
    ensures Slot(WORD, capacity) == Slot(WORD - WORD % capacity, capacity)
  {
    var r := WORD % capacity;
    assert WORD - r == capacity * (WORD / capacity);
    ModuloIs(WORD - r, capacity, WORD / capacity, 0);
    assert WORD % WORD == 0 && (WORD - r) % WORD == WORD - r;
    assert 0 % capacity == 0;
  }

  /** The queue is first-in first-out in every run exactly when its capacity divides 2^32 (or is 0). */
  lemma FifoForever<T(!new)>(memory: seq<T>, first: T, last: T)
    requires |memory| < WORD && first != last
    ensures (forall steps: seq<Step<T>> :: Fifo(Run(Empty(memory), steps))) <==> (|memory| == 0 || WORD % |memory| == 0)
  {
    hide Run, Fifo;
    if |memory| == 0 || WORD % |memory| == 0 {
      forall steps: seq<Step<T>>
        ensures Fifo(Run(Empty(memory), steps))
      {
        QueueIsFifo(memory, steps);
      }
    } else {
      WrapBreaksFifo(memory, first, last);
    }
  }
}
