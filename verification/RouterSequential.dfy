/** The stepped threads against the undisturbed calls: a thread that runs alone does exactly what the
    specification of its callback says, whatever the shared state, wrapped positions included. */
module RouterSequential {
  import opened Words
  import opened RouterRing
  import opened RouterMachine

  /** Steps a statistics update still has to take, at most. */
  function StatsFuel(stats: Stats): nat {
    match stats
    case StoreUsage(_) => 4
    case StoreLevel(_) => 3
    case LoadPeak(_) => 2
    case StorePeak(_) => 1
    case StatsDone => 0
  }

  function WriterFuel<T>(p: Producer<T>): nat {
    match p
    case WriterIdle => 0
    case WriteCounting(_, _, _, _) => 1
    case WriteStats(_, _, _, stats) => 2 + StatsFuel(stats)
    case WriteRefused(_, _, _) => 7
    case WriteCopying(block, _, _, _, copied) => 7 + if copied < |block| then |block| - copied else 0
    case WriteSnapped(block, _, _) => 8 + |block|
    case WriteCalled(block, _) => 9 + |block|
  }

  /** The producer runs alone until its call has returned. */
  function FinishWrite<T>(s: State<T>): State<T>
    requires |s.shared.buffer| == CAPACITY
    decreases WriterFuel(s.producer)
  {
    if s.producer.WriterIdle? then s else FinishWrite(Tick(ProducerNext(s)))
  }

  function ReaderFuel<T>(c: Consumer<T>): nat {
    match c
    case ReaderIdle => 0
    case ReadStats(_, _, _, _, stats) => 1 + StatsFuel(stats)
    case ReadRefused(_, _, _, _) => 6
    case ReadCopying(count, _, _, _, data) => 6 + if |data| < count then count - |data| else 0
    case ReadSnapped(count, _, _) => 7 + count
    case ReadCalled(count, _) => 8 + count
  }

  /** The consumer runs alone until its call has returned. */
  function FinishRead<T>(s: State<T>): State<T>
    requires |s.shared.buffer| == CAPACITY
    decreases ReaderFuel(s.consumer)
  {
    if s.consumer.ReaderIdle? then s else FinishRead(Tick(ConsumerNext(s)))
  }

  /** Running alone from `s`, the producer's call ends with these shared fields. */
  ghost predicate WritesTo<T>(s: State<T>, shared: Shared<T>) {
    |s.shared.buffer| == CAPACITY && FinishWrite(s).shared == shared
  }

  /** Running alone from `s`, the consumer's call ends with these shared fields and returns this outcome. */
  ghost predicate ReadsTo<T>(s: State<T>, shared: Shared<T>, outcome: Outcome<T>) {
    && |s.shared.buffer| == CAPACITY
    && var after := FinishRead(s);
    && after.shared == shared
    && |after.replies| == |s.replies| + 1
    && after.replies[|s.replies|].outcome == outcome
  }

  lemma WriteTurn<T>(s: State<T>, s': State<T>, shared: Shared<T>)
    requires |s.shared.buffer| == CAPACITY && !s.producer.WriterIdle? && s' == Tick(ProducerNext(s))
    requires WritesTo(s', shared)
    ensures WritesTo(s, shared)
  {
  }

  lemma ReadTurn<T>(s: State<T>, s': State<T>, shared: Shared<T>, outcome: Outcome<T>)
    requires |s.shared.buffer| == CAPACITY && !s.consumer.ReaderIdle? && s' == Tick(ConsumerNext(s))
    requires s'.replies == s.replies && ReadsTo(s', shared, outcome)
    ensures ReadsTo(s, shared, outcome)
  {
  }

  function Counted<T>(sh: Shared<T>, block: seq<T>): Shared<T> {
    sh.(frames := Wrap64(sh.frames + |block| / CHANNELS))
  }

  /** What the rest of a statistics update does to the gauges. */
  function StatsRest<T>(sh: Shared<T>, stats: Stats): Shared<T>
    decreases StatsFuel(stats)
  {
    if stats.StatsDone? then sh else var (sh', stats') := StatsStep(sh, stats); StatsRest(sh', stats')
  }

  lemma StatsRestIsUpdate<T>(sh: Shared<T>, level: Uint32)
    ensures StatsRest(sh, StoreUsage(level)) == UpdatedStats(sh, level)
  {
    var (sh1, st1) := StatsStep(sh, StoreUsage(level));
    var (sh2, st2) := StatsStep(sh1, st1);
    var (sh3, st3) := StatsStep(sh2, st2);
    if st3.StorePeak? {
      var (sh4, st4) := StatsStep(sh3, st3);
      assert StatsRest(sh3, st3) == StatsRest(sh4, st4) == sh4;
    }
    assert StatsRest(sh1, st1) == StatsRest(sh2, st2) == StatsRest(sh3, st3);
  }

  // ---------------------------------------------------------------- the producer alone

  lemma FinishCounting<T>(s: State<T>)
    requires |s.shared.buffer| == CAPACITY && s.producer.WriteCounting?
    ensures WritesTo(s, Counted(s.shared, s.producer.block))
  {
    var s' := Tick(ProducerNext(s));
    assert FinishWrite(s') == s';
  }

  lemma {:induction false} FinishWriteStats<T>(s: State<T>)
    requires |s.shared.buffer| == CAPACITY && s.producer.WriteStats? && !s.producer.stats.StatsDone?
    ensures WritesTo(s, Counted(StatsRest(s.shared, s.producer.stats), s.producer.block))
    decreases StatsFuel(s.producer.stats)
  {
    var s' := Tick(ProducerNext(s));
    if s'.producer.WriteStats? {
      FinishWriteStats(s');
    } else {
      FinishCounting(s');
      assert StatsRest(s'.shared, StatsDone) == s'.shared;
    }
    WriteTurn(s, s', Counted(StatsRest(s.shared, s.producer.stats), s.producer.block));
  }

  /** `copied` samples of the block lie in the ring, starting from `buffer` at position `w`. */
  ghost predicate Copying<T>(s: State<T>, buffer: seq<T>, w: Uint32) {
    && |buffer| == |s.shared.buffer| == CAPACITY
    && s.producer.WriteCopying?
    && s.producer.copied <= |s.producer.block| < U32_SIZE
    && s.producer.cursor == Wrap32(w + s.producer.copied)
    && s.shared.buffer == CopyIn(buffer, w, s.producer.block[..s.producer.copied])
  }

  /** The shared fields once the whole block has been copied, published and counted. */
  function Published<T>(sh: Shared<T>, buffer: seq<T>, w: Uint32, size: Uint32, block: seq<T>): Shared<T>
    requires |buffer| == CAPACITY
  {
    Counted(UpdatedStats(sh.(buffer := CopyIn(buffer, w, block), writePos := Wrap32(w + |block|)),
                         Wrap32(size + |block|)), block)
  }

  lemma CopyTurn<T>(s: State<T>, buffer: seq<T>, w: Uint32)
    requires Copying(s, buffer, w) && s.producer.copied < |s.producer.block|
    ensures var s' := Tick(CopyOrPublish(s));
            && Copying(s', buffer, w)
            && s'.shared == s.shared.(buffer := s'.shared.buffer)
            && s'.producer.block == s.producer.block
            && s'.producer.size == s.producer.size
            && s'.producer.copied == s.producer.copied + 1
  {
    var WriteCopying(block, _, size, cursor, copied) := s.producer;
    assert block[..copied + 1][..copied] == block[..copied];
    MaskedTotal(w + copied);
    WrapAdd(w + copied, 1);
  }

  lemma FinishPublishing<T>(s: State<T>, buffer: seq<T>, w: Uint32)
    requires Copying(s, buffer, w) && s.producer.copied == |s.producer.block|
    ensures WritesTo(s, Published(s.shared, buffer, w, s.producer.size, s.producer.block))
  {
    var WriteCopying(block, _, size, cursor, copied) := s.producer;
    var s' := Tick(CopyOrPublish(s));
    assert block[..copied] == block;
    FinishWriteStats(s');
    StatsRestIsUpdate(s'.shared, Wrap32(size + |block|));
    WriteTurn(s, s', Published(s.shared, buffer, w, size, block));
  }

  /** From the middle of the copy loop on, the block ends up in the ring as CopyIn says. */
  lemma {:induction false} FinishCopying<T>(s: State<T>, buffer: seq<T>, w: Uint32)
    requires Copying(s, buffer, w)
    ensures WritesTo(s, Published(s.shared, buffer, w, s.producer.size, s.producer.block))
    decreases |s.producer.block| - s.producer.copied
  {
    if s.producer.copied < |s.producer.block| {
      var s' := Tick(CopyOrPublish(s));
      CopyTurn(s, buffer, w);
      FinishCopying(s', buffer, w);
      WriteTurn(s, s', Published(s.shared, buffer, w, s.producer.size, s.producer.block));
    } else {
      FinishPublishing(s, buffer, w);
    }
  }

  lemma FinishRefused<T>(s: State<T>)
    requires |s.shared.buffer| == CAPACITY && s.producer.WriteRefused?
    ensures WritesTo(s, Counted(s.shared.(overruns := Wrap32(s.shared.overruns + 1)), s.producer.block))
  {
    var s' := Tick(ProducerNext(s));
    FinishCounting(s');
    WriteTurn(s, s', Counted(s'.shared, s.producer.block));
  }

  lemma FinishSnapped<T>(s: State<T>)
    requires |s.shared.buffer| == CAPACITY && s.producer.WriteSnapped? && s.producer.w == s.shared.writePos
    requires |s.producer.block| < U32_SIZE
    ensures WritesTo(s, InputDone(s.shared, s.producer.block))
  {
    var block := s.producer.block;
    var s' := Tick(SnapReadPos(s));
    if s'.producer.WriteRefused? {
      FinishRefused(s');
    } else {
      assert block[..0] == [];
      FinishCopying(s', s.shared.buffer, s.shared.writePos);
    }
    WriteTurn(s, s', InputDone(s.shared, block));
  }

  /** An undisturbed input callback does to the shared fields what its specification says. */
  lemma UndisturbedWrite<T>(s: State<T>, block: seq<T>)
    requires |s.shared.buffer| == CAPACITY && s.producer.WriterIdle? && ValidCount(|block|)
    ensures FinishWrite(Step(s, CallWrite(block))).shared == InputDone(s.shared, block)
  {
    var s1 := Step(s, CallWrite(block));
    var s2 := Tick(ProducerNext(s1));
    FinishSnapped(s2);
    WriteTurn(s1, s2, InputDone(s.shared, block));
  }

  // ---------------------------------------------------------------- the consumer alone

  lemma {:induction false} FinishReadStats<T>(s: State<T>)
    requires |s.shared.buffer| == CAPACITY && s.consumer.ReadStats?
    ensures ReadsTo(s, StatsRest(s.shared, s.consumer.stats), s.consumer.outcome)
    decreases StatsFuel(s.consumer.stats)
  {
    var s' := Tick(ConsumerNext(s));
    if s'.consumer.ReadStats? {
      FinishReadStats(s');
      ReadTurn(s, s', StatsRest(s.shared, s.consumer.stats), s.consumer.outcome);
    } else {
      assert FinishRead(s') == s';
    }
  }

  /** The reader holds the samples from position `r` on. */
  ghost predicate Fetching<T>(s: State<T>, r: Uint32) {
    && |s.shared.buffer| == CAPACITY
    && s.consumer.ReadCopying?
    && |s.consumer.data| <= s.consumer.count <= s.consumer.available
    && s.consumer.cursor == Wrap32(r + |s.consumer.data|)
    && s.consumer.data == CopyOut(s.shared.buffer, r, |s.consumer.data|)
  }

  function Released<T>(sh: Shared<T>, r: Uint32, count: Uint32, available: Uint32): Shared<T>
    requires count <= available
  {
    UpdatedStats(sh.(readPos := Wrap32(r + count)), available - count)
  }

  lemma FetchTurn<T>(s: State<T>, r: Uint32)
    requires Fetching(s, r) && |s.consumer.data| < s.consumer.count
    ensures var s' := Tick(FetchOrRelease(s));
            && Fetching(s', r) && s'.shared == s.shared && s'.replies == s.replies
            && |s'.consumer.data| == |s.consumer.data| + 1
            && s'.consumer.count == s.consumer.count && s'.consumer.available == s.consumer.available
  {
    var ReadCopying(count, _, available, cursor, data) := s.consumer;
    MaskedTotal(r + |data|);
    WrapAdd(r + |data|, 1);
    assert data + [s.shared.buffer[cursor % CAPACITY]] == CopyOut(s.shared.buffer, r, |data| + 1);
  }

  lemma FinishReleasing<T>(s: State<T>, r: Uint32)
    requires Fetching(s, r) && |s.consumer.data| == s.consumer.count
    ensures ReadsTo(s, Released(s.shared, r, s.consumer.count, s.consumer.available), Dequeued(s.consumer.data))
  {
    var s' := Tick(FetchOrRelease(s));
    ReleaseTurn(s, r);
    FinishReadStats(s');
    StatsRestIsUpdate(s'.shared, s.consumer.available - s.consumer.count);
    ReadTurn(s, s', Released(s.shared, r, s.consumer.count, s.consumer.available), Dequeued(s.consumer.data));
  }

  lemma ReleaseTurn<T>(s: State<T>, r: Uint32)
    requires Fetching(s, r) && |s.consumer.data| == s.consumer.count
    ensures var s' := Tick(FetchOrRelease(s));
            && s'.shared == s.shared.(readPos := Wrap32(r + s.consumer.count)) && s'.replies == s.replies
            && s'.consumer.ReadStats? && s'.consumer.outcome == Dequeued(s.consumer.data)
            && s'.consumer.stats == StoreUsage(s.consumer.available - s.consumer.count)
  {
  }

  lemma {:induction false} FinishFetching<T>(s: State<T>, r: Uint32)
    requires Fetching(s, r)
    ensures ReadsTo(s, Released(s.shared, r, s.consumer.count, s.consumer.available),
                    Dequeued(CopyOut(s.shared.buffer, r, s.consumer.count)))
    decreases s.consumer.count - |s.consumer.data|
  {
    if |s.consumer.data| < s.consumer.count {
      var s' := Tick(FetchOrRelease(s));
      FetchTurn(s, r);
      FinishFetching(s', r);
      ReadTurn(s, s', Released(s.shared, r, s.consumer.count, s.consumer.available),
               Dequeued(CopyOut(s.shared.buffer, r, s.consumer.count)));
    } else {
      FinishReleasing(s, r);
    }
  }

  lemma FinishStarving<T>(s: State<T>)
    requires |s.shared.buffer| == CAPACITY && s.consumer.ReadRefused?
    ensures ReadsTo(s, UpdatedStats(s.shared.(underruns := Wrap32(s.shared.underruns + 1)), s.consumer.available),
                    Starved)
  {
    var s' := Tick(ConsumerNext(s));
    FinishReadStats(s');
    StatsRestIsUpdate(s'.shared, s.consumer.available);
    ReadTurn(s, s', UpdatedStats(s'.shared, s.consumer.available), Starved);
  }

  function OutcomeOf<T>(out: Option<seq<T>>): Outcome<T> {
    if out.Some? then Dequeued(out.value) else Starved
  }

  lemma FinishReadSnapped<T>(s: State<T>)
    requires |s.shared.buffer| == CAPACITY && s.consumer.ReadSnapped? && s.consumer.r == s.shared.readPos
    ensures var (shared, out) := Read(s.shared, s.consumer.count); ReadsTo(s, shared, OutcomeOf(out))
  {
    var (shared, out) := Read(s.shared, s.consumer.count);
    var s' := Tick(SnapWritePos(s));
    if s'.consumer.ReadRefused? {
      FinishStarving(s');
    } else {
      FinishFetching(s', s.shared.readPos);
    }
    ReadTurn(s, s', shared, OutcomeOf(out));
  }

  /** An undisturbed rb_read changes the shared fields and returns as its specification says. */
  lemma UndisturbedRead<T>(s: State<T>, count: Uint32)
    requires |s.shared.buffer| == CAPACITY && s.consumer.ReaderIdle? && ValidCount(count)
    ensures var after := FinishRead(Step(s, CallRead(count)));
            var (shared, out) := Read(s.shared, count);
            && after.shared == shared
            && |after.replies| == |s.replies| + 1
            && after.replies[|s.replies|].outcome == OutcomeOf(out)
  {
    var (shared, out) := Read(s.shared, count);
    var s1 := Step(s, CallRead(count));
    var s2 := Tick(ConsumerNext(s1));
    FinishReadSnapped(s2);
    ReadTurn(s1, s2, shared, OutcomeOf(out));
  }
  lemma ReadStepReplies<T>(s: State<T>)
    requires |s.shared.buffer| == CAPACITY && !s.consumer.ReaderIdle?
    ensures var s' := Tick(ConsumerNext(s));
            if s'.consumer.ReaderIdle?
            then |s'.replies| == |s.replies| + 1 && s'.replies[..|s.replies|] == s.replies
                 && s'.replies[|s.replies|].call == ReadCall(s.consumer.count)
            else s'.replies == s.replies && s'.consumer.count == s.consumer.count
  {
  }

  /** The call is added to the replies, and no other. */
  lemma {:induction false} FinishReadReplies<T>(s: State<T>)
    requires |s.shared.buffer| == CAPACITY && !s.consumer.ReaderIdle?
    ensures var replies := FinishRead(s).replies;
            && |replies| == |s.replies| + 1 && replies[..|s.replies|] == s.replies
            && replies[|s.replies|].call == ReadCall(s.consumer.count)
    decreases ReaderFuel(s.consumer)
  {
    var s' := Tick(ConsumerNext(s));
    ReadStepReplies(s);
    if s'.consumer.ReaderIdle? {
      assert FinishRead(s') == s';
    } else {
      FinishReadReplies(s');
    }
  }
}
