/** Runs of the router ring (src/audio_router.c) in which it fails: a late store that loses the reported peak, and a
    write past the 2^32nd sample that loses an unread one. */
module RouterWitness {
  import opened Words
  import opened RouterRing
  import opened RouterMachine
  import opened RouterSequential
  import opened RouterPeak

  ghost predicate Reachable<T(!new)>(zero: T, s: State<T>) {
    exists actions: seq<Action<T>> :: Run(zero, actions) == s
  }

  lemma StepReachable<T(!new)>(zero: T, s: State<T>, a: Action<T>)
    requires Reachable(zero, s)
    ensures |s.shared.buffer| == CAPACITY && Reachable(zero, Step(s, a))
  {
    var actions :| Run(zero, actions) == s;
    assert (actions + [a])[..|actions|] == actions;
    assert Run(zero, actions + [a]) == Step(s, a);
  }

  lemma StartReachable<T(!new)>(zero: T)
    ensures Reachable(zero, Start(zero))
  {
    assert Run<T>(zero, []) == Start(zero);
  }

  function Producing<T>(s: State<T>, k: nat): (s': State<T>)
    requires |s.shared.buffer| == CAPACITY
    ensures |s'.shared.buffer| == CAPACITY
    decreases k
  {
    if k == 0 then s else Producing(Step(s, ProducerStep), k - 1)
  }

  function Consuming<T>(s: State<T>, k: nat): (s': State<T>)
    requires |s.shared.buffer| == CAPACITY
    ensures |s'.shared.buffer| == CAPACITY
    decreases k
  {
    if k == 0 then s else Consuming(Step(s, ConsumerStep), k - 1)
  }

  lemma {:induction false} ProducingReachable<T(!new)>(zero: T, s: State<T>, k: nat)
    requires Reachable(zero, s) && |s.shared.buffer| == CAPACITY
    ensures Reachable(zero, Producing(s, k))
    decreases k
  {
    if k > 0 {
      StepReachable(zero, s, ProducerStep);
      ProducingReachable(zero, Step(s, ProducerStep), k - 1);
    }
  }

  lemma {:induction false} ConsumingReachable<T(!new)>(zero: T, s: State<T>, k: nat)
    requires Reachable(zero, s) && |s.shared.buffer| == CAPACITY
    ensures Reachable(zero, Consuming(s, k))
    decreases k
  {
    if k > 0 {
      StepReachable(zero, s, ConsumerStep);
      ConsumingReachable(zero, Step(s, ConsumerStep), k - 1);
    }
  }

  // ---------------------------------------------------------------- a late store

  /** The producer has published its block and starts on the statistics for `level`. */
  ghost predicate Published<T>(s: State<T>, level: Uint32) {
    s.producer.WriteStats? && s.producer.stats == StoreUsage(level)
  }

  /** What the witness run depends on, the buffer's content left aside. */
  ghost predicate At<T>(s: State<T>, w: Uint32, r: Uint32, peak: Uint32, c: Consumer<T>) {
    && |s.shared.buffer| == CAPACITY
    && s.shared.writePos == w && s.shared.readPos == r && s.shared.peakUsage == peak && s.consumer == c
  }

  lemma CopiesOne<T>(s: State<T>)
    requires |s.shared.buffer| == CAPACITY && s.producer.WriteCopying? && s.producer.copied < |s.producer.block|
    requires s.producer.cursor + 1 < U32_SIZE
    ensures var s' := Step(s, ProducerStep);
            && s'.producer.WriteCopying? && s'.producer.block == s.producer.block && s'.producer.size == s.producer.size
            && s'.producer.copied == s.producer.copied + 1 && s'.producer.cursor == s.producer.cursor + 1
            && At(s', s.shared.writePos, s.shared.readPos, s.shared.peakUsage, s.consumer)
  {
  }

  lemma {:induction false} ProducerCopies<T>(s: State<T>, k: nat)
    requires |s.shared.buffer| == CAPACITY && s.producer.WriteCopying? && s.producer.copied + k == |s.producer.block|
    requires s.producer.cursor + k < U32_SIZE
    ensures var s' := Producing(s, k);
            && s'.producer.WriteCopying? && s'.producer.block == s.producer.block && s'.producer.size == s.producer.size
            && s'.producer.copied == |s.producer.block| && s'.producer.cursor == s.producer.cursor + k
            && At(s', s.shared.writePos, s.shared.readPos, s.shared.peakUsage, s.consumer)
    decreases k
  {
    if k > 0 {
      CopiesOne(s);
      ProducerCopies(Step(s, ProducerStep), k - 1);
    }
  }

  lemma SnapsForWrite<T>(s: State<T>, block: seq<T>)
    requires |s.shared.buffer| == CAPACITY && s.producer.WriterIdle? && ValidCount(|block|)
    requires s.shared.writePos >= s.shared.readPos && s.shared.writePos - s.shared.readPos + |block| < CAPACITY
    ensures var s' := Producing(Step(s, CallWrite(block)), 2);
            && s'.producer.WriteCopying? && s'.producer.block == block && s'.producer.copied == 0
            && s'.producer.size == s.shared.writePos - s.shared.readPos && s'.producer.cursor == s.shared.writePos
            && At(s', s.shared.writePos, s.shared.readPos, s.shared.peakUsage, s.consumer)
  {
    var s1 := Step(s, CallWrite(block));
    var s2 := Step(s1, ProducerStep);
    assert Producing(s1, 2) == Producing(s2, 1) == Step(s2, ProducerStep);
  }

  lemma PublishStep<T>(s: State<T>, level: Uint32)
    requires |s.shared.buffer| == CAPACITY && s.producer.WriteCopying? && s.producer.copied == |s.producer.block|
    requires |s.producer.block| < CAPACITY && s.producer.size + |s.producer.block| == level < CAPACITY
    ensures Published(Producing(s, 1), level)
    ensures At(Producing(s, 1), s.producer.cursor, s.shared.readPos, s.shared.peakUsage, s.consumer)
  {
    assert Producing(s, 1) == Producing(Step(s, ProducerStep), 0) == Step(s, ProducerStep);
  }

  lemma CopiesAndPublishes<T>(s: State<T>, level: Uint32)
    requires |s.shared.buffer| == CAPACITY && s.producer.WriteCopying? && s.producer.copied == 0
    requires s.producer.size + |s.producer.block| == level < CAPACITY
    requires s.producer.cursor + |s.producer.block| < U32_SIZE
    ensures var s' := Producing(Producing(s, |s.producer.block|), 1);
            && Published(s', level)
            && At(s', s.producer.cursor + |s.producer.block|, s.shared.readPos, s.shared.peakUsage, s.consumer)
  {
    ProducerCopies(s, |s.producer.block|);
    PublishStep(Producing(s, |s.producer.block|), level);
  }

  /** The rest of a write whose usage raises the peak. */
  lemma RaisesPeak<T>(s: State<T>, level: Uint32)
    requires |s.shared.buffer| == CAPACITY && Published(s, level) && UsagePercent(level) > s.shared.peakUsage
    ensures var s' := Producing(s, 5);
            s'.producer.WriterIdle? && At(s', s.shared.writePos, s.shared.readPos, UsagePercent(level), s.consumer)
  {
    var s1 := Step(s, ProducerStep);
    var s2 := Step(s1, ProducerStep);
    var s3 := Step(s2, ProducerStep);
    assert s3.producer.WriteStats? && s3.producer.stats == StorePeak(level);
    var s4 := Step(s3, ProducerStep);
    assert s4.producer.WriteCounting?;
    assert Producing(s, 5) == Producing(s1, 4) == Producing(s2, 3) == Producing(s3, 2) == Producing(s4, 1);
    assert Producing(s4, 1) == Step(s4, ProducerStep);
  }

  /** A read that starves, up to its decision to store the peak. */
  lemma StarvesAndLoads<T>(s: State<T>, count: Uint32)
    requires |s.shared.buffer| == CAPACITY && s.consumer.ReaderIdle? && ValidCount(count)
    requires s.shared.writePos >= s.shared.readPos && s.shared.writePos - s.shared.readPos < count
    requires UsagePercent(s.shared.writePos - s.shared.readPos) > s.shared.peakUsage
    ensures var s' := Consuming(Step(s, CallRead(count)), 6);
            && PendingStore(s', Reader) == Some(UsagePercent(s.shared.writePos - s.shared.readPos))
            && s'.producer == s.producer
            && At(s', s.shared.writePos, s.shared.readPos, s.shared.peakUsage, s'.consumer)
  {
    var s0 := Step(s, CallRead(count));
    var s1 := Step(s0, ConsumerStep);
    var s2 := Step(s1, ConsumerStep);
    assert s2.consumer.ReadRefused?;
    var s3 := Step(s2, ConsumerStep);
    var s4 := Step(s3, ConsumerStep);
    var s5 := Step(s4, ConsumerStep);
    assert s5.consumer.ReadStats? && s5.consumer.stats.LoadPeak?;
    assert Consuming(s0, 6) == Consuming(s1, 5) == Consuming(s2, 4) == Consuming(s3, 3) == Consuming(s4, 2);
    assert Consuming(s4, 2) == Consuming(s5, 1) == Step(s5, ConsumerStep);
  }

  function Block<T>(x: T, n: nat): (block: seq<T>)
    ensures |block| == n
  {
    seq(n, _ => x)
  }

  lemma Usages()
    ensures UsagePercent(42) == 1 && UsagePercent(84) == 2
  {
  }

  lemma CopiesReachable<T(!new)>(zero: T, s: State<T>, level: Uint32) returns (s': State<T>)
    requires Reachable(zero, s) && |s.shared.buffer| == CAPACITY && s.producer.WriteCopying? && s.producer.copied == 0
    requires s.producer.size + |s.producer.block| == level < CAPACITY
    requires s.producer.cursor + |s.producer.block| < U32_SIZE
    ensures Reachable(zero, s') && Published(s', level)
    ensures At(s', s.producer.cursor + |s.producer.block|, s.shared.readPos, s.shared.peakUsage, s.consumer)
  {
    CopiesAndPublishes(s, level);
    ProducingReachable(zero, s, |s.producer.block|);
    ProducingReachable(zero, Producing(s, |s.producer.block|), 1);
    s' := Producing(Producing(s, |s.producer.block|), 1);
  }

  /** One more block published, from a reachable state. */
  lemma PublishesReachable<T(!new)>(zero: T, s: State<T>, block: seq<T>) returns (s': State<T>)
    requires Reachable(zero, s) && |s.shared.buffer| == CAPACITY && s.producer.WriterIdle? && ValidCount(|block|)
    requires s.shared.writePos >= s.shared.readPos && s.shared.writePos - s.shared.readPos + |block| < CAPACITY
    requires s.shared.writePos + |block| < U32_SIZE
    ensures Reachable(zero, s') && Published(s', s.shared.writePos - s.shared.readPos + |block|)
    ensures At(s', s.shared.writePos + |block|, s.shared.readPos, s.shared.peakUsage, s.consumer)
  {
    SnapsForWrite(s, block);
    StepReachable(zero, s, CallWrite(block));
    ProducingReachable(zero, Step(s, CallWrite(block)), 2);
    var snapped := Producing(Step(s, CallWrite(block)), 2);
    s' := CopiesReachable(zero, snapped, s.shared.writePos - s.shared.readPos + |block|);
  }

  lemma RaisesReachable<T(!new)>(zero: T, s: State<T>, level: Uint32) returns (s': State<T>)
    requires Reachable(zero, s) && |s.shared.buffer| == CAPACITY
    requires Published(s, level) && UsagePercent(level) > s.shared.peakUsage
    ensures Reachable(zero, s') && s'.producer.WriterIdle?
    ensures At(s', s.shared.writePos, s.shared.readPos, UsagePercent(level), s.consumer)
  {
    RaisesPeak(s, level);
    ProducingReachable(zero, s, 5);
    s' := Producing(s, 5);
  }

  /** 42 samples are published, and a read of 44 starves and means to store usage 1. */
  lemma ReaderIsPending<T(!new)>(zero: T) returns (s: State<T>)
    ensures Reachable(zero, s) && Published(s, 42) && At(s, 42, 0, 0, s.consumer) && PendingStore(s, Reader) == Some(1)
  {
    Usages();
    StartReachable(zero);
    var s1 := PublishesReachable(zero, Start(zero), Block(zero, 42));
    StarvesAndLoads(s1, 44);
    StepReachable(zero, s1, CallRead(44));
    ConsumingReachable(zero, Step(s1, CallRead(44)), 6);
    s := Consuming(Step(s1, CallRead(44)), 6);
  }

  /** The producer then stores 1, publishes 42 more and stores usage 2. */
  lemma ReaderIsOvertaken<T(!new)>(zero: T) returns (s: State<T>)
    ensures Reachable(zero, s) && |s.shared.buffer| == CAPACITY
    ensures s.shared.peakUsage == 2 && PendingStore(s, Reader) == Some(1)
  {
    Usages();
    var s0 := ReaderIsPending(zero);
    var s1 := RaisesReachable(zero, s0, 42);
    var s2 := PublishesReachable(zero, s1, Block(zero, 42));
    s := RaisesReachable(zero, s2, 84);
  }

  /** A run that loses the peak: after it the reader stores 1 over the 2 it has not seen. */
  lemma PeakIsLost<T(!new)>(zero: T) returns (actions: seq<Action<T>>, n: nat)
    ensures n < |actions| && Overtaken(zero, actions, n)
    ensures Run(zero, actions[..n + 1]).shared.peakUsage == 1 && HighestUsage(zero, actions[..n + 1]) >= 2
  {
    var s := ReaderIsOvertaken(zero);
    var before :| Run(zero, before) == s;
    actions, n := before + [ConsumerStep], |before|;
    assert actions[..n] == before;
    assert StoresBelow(s, ConsumerStep, Reader);
    LateIffOvertaken(zero, actions, n);
    RunNext(zero, actions, n);
    StoreSetsPeak(s, ConsumerStep, Reader);
    PeakAtMostHighest(zero, actions, n);
  }

  // ---------------------------------------------------------------- what a thread alone leaves of the history

  lemma ProducerLeaves<T>(s: State<T>)
    requires |s.shared.buffer| == CAPACITY && !s.producer.WriterIdle?
    ensures var s' := Step(s, ProducerStep);
            && s'.consumer == s.consumer && s'.consumed == s.consumed
            && (s'.accepted == s.accepted
                || (!WriteDecided(s.producer) && WriteDecided(s'.producer)
                    && s'.accepted == s.accepted + s.producer.block))
            && (WriteDecided(s.producer) ==> s'.producer.WriterIdle? || WriteDecided(s'.producer))
            && (s'.producer.WriterIdle? || s'.producer.block == s.producer.block)
            && (!WriteDecided(s.producer) ==> !s'.producer.WriterIdle?)
  {
  }

  lemma {:induction false} FinishWriteHistory<T(!new)>(zero: T, s: State<T>)
    requires |s.shared.buffer| == CAPACITY && Reachable(zero, s)
    ensures var s' := FinishWrite(s);
            && Reachable(zero, s') && s'.producer.WriterIdle? && s'.consumer == s.consumer && s'.consumed == s.consumed
            && (s'.accepted == s.accepted
                || (!s.producer.WriterIdle? && !WriteDecided(s.producer)
                    && s'.accepted == s.accepted + s.producer.block))
    decreases WriterFuel(s.producer)
  {
    if !s.producer.WriterIdle? {
      StepReachable(zero, s, ProducerStep);
      ProducerLeaves(s);
      FinishWriteHistory(zero, Tick(ProducerNext(s)));
    }
  }

  /** A snapshot yet to be taken will see `current_write >= current_read`. */
  predicate WriterSeesNoWrap<T>(s: State<T>) {
    && (s.producer.WriteCalled? || s.producer.WriteSnapped? ==> s.shared.writePos >= s.shared.readPos)
    && (s.producer.WriteSnapped? ==> s.producer.w == s.shared.writePos)
  }

  lemma {:induction false} FinishWriteNoWrap<T>(s: State<T>)
    requires |s.shared.buffer| == CAPACITY && WriterSeesNoWrap(s)
    ensures FinishWrite(s).wrapSeen == s.wrapSeen
    decreases WriterFuel(s.producer)
  {
    if !s.producer.WriterIdle? {
      FinishWriteNoWrap(Tick(ProducerNext(s)));
    }
  }

  lemma ConsumerLeaves<T>(s: State<T>)
    requires |s.shared.buffer| == CAPACITY && !s.consumer.ReaderIdle?
    ensures var s' := Step(s, ConsumerStep);
            && s'.producer == s.producer && s'.accepted == s.accepted
            && (s'.consumed == s.consumed
                || (!ReadDecided(s.consumer) && ReadDecided(s'.consumer)
                    && s'.consumed == s.consumed + s.consumer.count))
            && (ReadDecided(s.consumer) ==> s'.consumer.ReaderIdle? || ReadDecided(s'.consumer))
            && (s'.consumer.ReaderIdle? || s'.consumer.count == s.consumer.count)
            && (!ReadDecided(s.consumer) ==> !s'.consumer.ReaderIdle?)
  {
  }

  lemma {:induction false} FinishReadReachable<T(!new)>(zero: T, s: State<T>)
    requires |s.shared.buffer| == CAPACITY && Reachable(zero, s)
    ensures Reachable(zero, FinishRead(s)) && FinishRead(s).consumer.ReaderIdle?
    decreases ReaderFuel(s.consumer)
  {
    if !s.consumer.ReaderIdle? {
      ConsumerReachable(zero, s);
      ConsumerBurns(s);
      FinishReadReachable(zero, Tick(ConsumerNext(s)));
    }
  }

  lemma ConsumerReachable<T(!new)>(zero: T, s: State<T>)
    requires |s.shared.buffer| == CAPACITY && Reachable(zero, s)
    ensures Reachable(zero, Tick(ConsumerNext(s)))
  {
    StepReachable(zero, s, ConsumerStep);
    assert Step(s, ConsumerStep) == Tick(ConsumerNext(s));
  }

  lemma ConsumerBurns<T>(s: State<T>)
    requires |s.shared.buffer| == CAPACITY && !s.consumer.ReaderIdle?
    ensures ReaderFuel(ConsumerNext(s).consumer) < ReaderFuel(s.consumer)
  {
  }

  lemma {:induction false} FinishReadTakes<T>(s: State<T>)
    requires |s.shared.buffer| == CAPACITY
    ensures var s' := FinishRead(s);
            && s'.producer == s.producer && s'.accepted == s.accepted
            && (s'.consumed == s.consumed
                || (!s.consumer.ReaderIdle? && !ReadDecided(s.consumer)
                    && s'.consumed == s.consumed + s.consumer.count))
    decreases ReaderFuel(s.consumer)
  {
    if !s.consumer.ReaderIdle? {
      ConsumerLeaves(s);
      ConsumerBurns(s);
      FinishReadTakes(Tick(ConsumerNext(s)));
    }
  }

  predicate ReaderSeesNoWrap<T>(s: State<T>) {
    && (s.consumer.ReadCalled? || s.consumer.ReadSnapped? ==> s.shared.writePos >= s.shared.readPos)
    && (s.consumer.ReadSnapped? ==> s.consumer.r == s.shared.readPos)
  }

  lemma {:induction false} FinishReadNoWrap<T>(s: State<T>)
    requires |s.shared.buffer| == CAPACITY && ReaderSeesNoWrap(s)
    ensures FinishRead(s).wrapSeen == s.wrapSeen
    decreases ReaderFuel(s.consumer)
  {
    if !s.consumer.ReaderIdle? {
      FinishReadNoWrap(Tick(ConsumerNext(s)));
    }
  }

  // ---------------------------------------------------------------- up to the 2^32nd sample

  /** `n` silent samples accepted, the last two of them unread, both threads idle. */
  ghost predicate Laid<T(!new)>(zero: T, s: State<T>, n: nat, unread: nat) {
    && Reachable(zero, s) && |s.shared.buffer| == CAPACITY
    && s.producer.WriterIdle? && s.consumer.ReaderIdle? && !s.wrapSeen
    && |s.accepted| == n && unread <= n && s.consumed == n - unread
    && (forall k :: 0 <= k < n ==> s.accepted[k] == zero)
  }

  lemma ReachableIsGood<T(!new)>(zero: T, s: State<T>)
    requires Reachable(zero, s) && !s.wrapSeen
    ensures RingPart(s)
  {
    var actions :| Run(zero, actions) == s;
    RunIsGood(zero, actions);
  }

  lemma TwoApart(n: nat)
    requires n >= 2
    ensures Wrap32(n - 2) != Wrap32(n) && Wrap32(Wrap32(n - 2) + 2) == Wrap32(n)
  {
    Wrap32Adds(n - 2, 2);
  }

  lemma ReadOfTwo<T>(sh: Shared<T>, n: nat)
    requires |sh.buffer| == CAPACITY && 2 <= n < U32_SIZE && sh.writePos == n && sh.readPos == n - 2
    ensures Read(sh, 2).0.readPos == n
  {
    assert Occupied(sh.writePos, sh.readPos) == 2;
  }

  lemma WriteOfTwo<T>(sh: Shared<T>, n: nat, block: seq<T>)
    requires |sh.buffer| == CAPACITY && n < U32_SIZE && sh.writePos == n && sh.readPos == n && |block| == 2
    ensures InputDone(sh, block).writePos == Wrap32(n + 2)
  {
    assert Occupied(sh.writePos, sh.readPos) == 0;
  }

  lemma LaidPositions<T(!new)>(zero: T, s: State<T>, n: nat, unread: nat)
    requires Laid(zero, s, n, unread) && n < U32_SIZE
    ensures s.shared.writePos == n && s.shared.readPos == n - unread
  {
    ReachableIsGood(zero, s);
  }

  lemma ReadsTwo<T(!new)>(zero: T, s: State<T>, n: nat) returns (s': State<T>)
    requires Laid(zero, s, n, 2) && n < U32_SIZE
    ensures Laid(zero, s', n, 0)
  {
    LaidPositions(zero, s, n, 2);
    ReadOfTwo(s.shared, n);
    var called := Step(s, CallRead(2));
    UndisturbedRead(s, 2);
    StepReachable(zero, s, CallRead(2));
    FinishReadReachable(zero, called);
    FinishReadTakes(called);
    FinishReadNoWrap(called);
    s' := FinishRead(called);
    ReachableIsGood(zero, s');
    TwoApart(n);
  }

  lemma WritesTwo<T(!new)>(zero: T, s: State<T>, n: nat) returns (s': State<T>)
    requires Laid(zero, s, n, 0) && n + 2 <= U32_SIZE
    ensures Laid(zero, s', n + 2, 2)
  {
    var block := Block(zero, 2);
    LaidPositions(zero, s, n, 0);
    WriteOfTwo(s.shared, n, block);
    var called := Step(s, CallWrite(block));
    UndisturbedWrite(s, block);
    StepReachable(zero, s, CallWrite(block));
    FinishWriteHistory(zero, called);
    FinishWriteNoWrap(called);
    s' := FinishWrite(called);
    ReachableIsGood(zero, s');
    TwoApart(n + 2);
  }

  /** For every even number up to 2^32 some run accepts that many samples and leaves the last two unread. */
  lemma {:induction false} SamplesLaid<T(!new)>(zero: T, n: nat) returns (s: State<T>)
    requires 2 <= n <= U32_SIZE && n % 2 == 0
    ensures Laid(zero, s, n, 2)
    decreases n
  {
    var before := Start(zero);
    if n == 2 {
      StartReachable(zero);
    } else {
      var earlier := SamplesLaid(zero, n - 2);
      before := ReadsTwo(zero, earlier, n - 2);
    }
    s := WritesTwo(zero, before, n - 2);
  }

  // ---------------------------------------------------------------- past it

  lemma LaidHolds<T(!new)>(zero: T, s: State<T>)
    requires Laid(zero, s, U32_SIZE, 2)
    ensures Holds(s.shared, s.accepted, s.consumed) && s.shared.writePos == 0 && s.shared.readPos == U32_SIZE - 2
  {
    ReachableIsGood(zero, s);
    forall k | s.consumed <= k < |s.accepted| ensures s.shared.buffer[k % CAPACITY] == s.accepted[k] {
      assert (s.accepted + [])[k] == s.accepted[k];
    }
  }

  lemma Overwrites<T(!new)>(zero: T, other: T, s: State<T>) returns (s': State<T>)
    requires zero != other && Laid(zero, s, U32_SIZE, 2)
    ensures Reachable(zero, s') && |s'.shared.buffer| == CAPACITY
    ensures s'.consumer.ReaderIdle? && s'.consumed == U32_SIZE - 2 && s.accepted <= s'.accepted
    ensures s'.shared.writePos == CAPACITY && s'.shared.readPos == U32_SIZE - 2
    ensures s'.shared.buffer[(U32_SIZE - 2) % CAPACITY] != zero
  {
    var block := Block(other, CAPACITY);
    LaidHolds(zero, s);
    WrappedWriteLosesUnread(s.shared, s.accepted, s.consumed, block);
    UndisturbedWrite(s, block);
    StepReachable(zero, s, CallWrite(block));
    FinishWriteHistory(zero, Step(s, CallWrite(block)));
    s' := FinishWrite(Step(s, CallWrite(block)));
  }

  /** A run that loses a sample: its last write is accepted although two samples are unread, overwrites them, and the
      next read delivers something else in place of the older one. */
  lemma SampleIsLost<T(!new)>(zero: T, other: T) returns (s: State<T>, after: State<T>)
    requires zero != other
    ensures Reachable(zero, s) && |s.shared.buffer| == CAPACITY && s.consumer.ReaderIdle?
    ensures Reachable(zero, after) && after == FinishRead(Step(s, CallRead(2)))
    ensures s.consumed < U32_SIZE <= |s.accepted| && s.accepted[s.consumed] == zero
    ensures s.shared.buffer[s.consumed % CAPACITY] != zero
    ensures |after.replies| > 0 && after.replies[|after.replies| - 1].outcome.Dequeued?
    ensures var played := after.replies[|after.replies| - 1].outcome.samples; |played| == 2 && played[0] != zero
  {
    var laid := SamplesLaid(zero, U32_SIZE);
    s := Overwrites(zero, other, laid);
    assert s.accepted[s.consumed] == laid.accepted[s.consumed];
    UndisturbedRead(s, 2);
    StepReachable(zero, s, CallRead(2));
    FinishReadReachable(zero, Step(s, CallRead(2)));
    FinishReadTakes(Step(s, CallRead(2)));
    after := FinishRead(Step(s, CallRead(2)));
    ReadsOverwritten(s.shared);
  }

  lemma ReadsOverwritten<T>(sh: Shared<T>)
    requires |sh.buffer| == CAPACITY && sh.writePos == CAPACITY && sh.readPos == U32_SIZE - 2
    ensures var out := Read(sh, 2).1;
            out.Some? && |out.value| == 2 && out.value[0] == sh.buffer[(U32_SIZE - 2) % CAPACITY]
  {
    assert Occupied(sh.writePos, sh.readPos) == 2 * CAPACITY + 2;
  }
}
