/** The router's counters over whole runs: conservation of samples, and bounds on what is reported. */
module RouterCounters {
  import opened Words
  import opened RouterRing
  import opened RouterMachine

  // ---------------------------------------------------------------- what the log counts

  function DroppedBlocks<T>(log: seq<Entry<T>>): nat {
    if log == [] then 0
    else DroppedBlocks(log[..|log| - 1]) + (if log[|log| - 1].outcome.Dropped? then 1 else 0)
  }

  function StarvedBlocks<T>(log: seq<Entry<T>>): nat {
    if log == [] then 0
    else StarvedBlocks(log[..|log| - 1]) + (if log[|log| - 1].outcome.Starved? then 1 else 0)
  }

  function DroppedSamples<T>(log: seq<Entry<T>>): nat {
    if log == [] then 0
    else
      var e := log[|log| - 1];
      DroppedSamples(log[..|log| - 1]) + (if e.call.WriteCall? && e.outcome.Dropped? then |e.call.block| else 0)
  }

  function TotalFrames<T>(blocks: seq<seq<T>>): nat {
    if blocks == [] then 0 else TotalFrames(blocks[..|blocks| - 1]) + |blocks[|blocks| - 1]| / CHANNELS
  }

  lemma CountAppend<T>(log: seq<Entry<T>>, e: Entry<T>)
    ensures DroppedBlocks(log + [e]) == DroppedBlocks(log) + (if e.outcome.Dropped? then 1 else 0)
    ensures StarvedBlocks(log + [e]) == StarvedBlocks(log) + (if e.outcome.Starved? then 1 else 0)
  {
    assert (log + [e])[..|log + [e]| - 1] == log;
  }

  lemma FramesAppend<T>(blocks: seq<seq<T>>, block: seq<T>)
    ensures TotalFrames(blocks + [block]) == TotalFrames(blocks) + |block| / CHANNELS
  {
    assert (blocks + [block])[..|blocks + [block]| - 1] == blocks;
  }

  // ---------------------------------------------------------------- the counters follow the log

  /** Each counter equals what the log says, short of the one increment its thread has still to make. */
  ghost predicate CountersOk<T>(s: State<T>) {
    && |s.shared.buffer| == CAPACITY
    && Counts32(s.shared.overruns, DroppedBlocks(s.log) - RefusalsDue(s.producer))
    && Counts32(s.shared.underruns, StarvedBlocks(s.log) - StarvationsDue(s.consumer))
    && Counts64(s.shared.frames, TotalFrames(s.written) - FramesDue(s.producer))
    && WholeFrameBlocks(s.written)
  }

  predicate Counts32(counter: Uint32, total: int) {
    counter == Wrap32(total)
  }

  predicate Counts64(counter: Uint64, total: int) {
    counter == Wrap64(total)
  }

  lemma Count32Next(counter: Uint32, total: int)
    requires Counts32(counter, total - 1)
    ensures Counts32(Wrap32(counter + 1), total)
  {
  }

  lemma Count64Next(counter: Uint64, total: int, n: nat)
    requires Counts64(counter, total - n)
    ensures Counts64(Wrap64(counter + n), total)
  {
  }

  function RefusalsDue<T>(p: Producer<T>): nat {
    if p.WriteRefused? then 1 else 0
  }

  function StarvationsDue<T>(c: Consumer<T>): nat {
    if c.ReadRefused? then 1 else 0
  }

  function FramesDue<T>(p: Producer<T>): nat {
    if p.WriterIdle? then 0 else |p.block| / CHANNELS
  }

  ghost predicate WholeFrameBlocks<T>(blocks: seq<seq<T>>) {
    forall i :: 0 <= i < |blocks| ==> |blocks[i]| % CHANNELS == 0
  }

  lemma StatsKeepCounters<T>(sh: Shared<T>, stats: Stats)
    ensures var (sh', _) := StatsStep(sh, stats);
            sh'.overruns == sh.overruns && sh'.underruns == sh.underruns && sh'.frames == sh.frames
            && sh'.buffer == sh.buffer
  {
  }

  /** A step that leaves the log and everything counted alone. */
  lemma QuietKeepsCounters<T>(s: State<T>, s': State<T>)
    requires CountersOk(s) && s'.log == s.log && s'.written == s.written
    requires |s'.shared.buffer| == CAPACITY
    requires s'.shared.overruns == s.shared.overruns && s'.shared.underruns == s.shared.underruns
    requires s'.shared.frames == s.shared.frames && FramesDue(s'.producer) == FramesDue(s.producer)
    requires RefusalsDue(s'.producer) == RefusalsDue(s.producer)
    requires StarvationsDue(s'.consumer) == StarvationsDue(s.consumer)
    ensures CountersOk(s')
  {
  }

  /** A step that adds one entry to the log, whose increment, if any, has yet to be made. */
  lemma DecideKeepsCounters<T>(s: State<T>, s': State<T>, e: Entry<T>)
    requires CountersOk(s) && s'.log == s.log + [e] && s'.written == s.written
    requires |s'.shared.buffer| == CAPACITY
    requires s'.shared.overruns == s.shared.overruns && s'.shared.underruns == s.shared.underruns
    requires s'.shared.frames == s.shared.frames && FramesDue(s'.producer) == FramesDue(s.producer)
    requires RefusalsDue(s'.producer) - RefusalsDue(s.producer) == DroppedBlocks(s'.log) - DroppedBlocks(s.log)
    requires StarvationsDue(s'.consumer) - StarvationsDue(s.consumer) == StarvedBlocks(s'.log) - StarvedBlocks(s.log)
    ensures CountersOk(s')
  {
    assert DroppedBlocks(s'.log) - RefusalsDue(s'.producer) == DroppedBlocks(s.log) - RefusalsDue(s.producer);
    assert StarvedBlocks(s'.log) - StarvationsDue(s'.consumer) == StarvedBlocks(s.log) - StarvationsDue(s.consumer);
  }

  lemma RefuseCounts<T>(s: State<T>)
    requires CountersOk(s) && s.producer.WriteRefused?
    ensures CountersOk(Tick(ProducerNext(s)))
  {
    Count32Next(s.shared.overruns, DroppedBlocks(s.log));
  }

  lemma CountingCounts<T>(s: State<T>)
    requires CountersOk(s) && s.producer.WriteCounting?
    ensures CountersOk(Tick(ProducerNext(s)))
  {
    Count64Next(s.shared.frames, TotalFrames(s.written), |s.producer.block| / CHANNELS);
  }

  lemma ProducerKeepsCounters<T>(s: State<T>)
    requires CountersOk(s)
    ensures CountersOk(Tick(ProducerNext(s)))
  {
    var s' := Tick(ProducerNext(s));
    match s.producer
    case WriterIdle =>
    case WriteCalled(_, _) => QuietKeepsCounters(s, s');
    case WriteSnapped(_, _, _) => WriterSnapCounts(s);
    case WriteRefused(_, _, _) => RefuseCounts(s);
    case WriteCopying(_, _, _, _, _) => WriterCopyCounts(s);
    case WriteStats(_, _, _, stats) =>
      StatsKeepCounters(s.shared, stats);
      QuietKeepsCounters(s, s');
    case WriteCounting(_, _, _, _) => CountingCounts(s);
  }

  lemma WriterSnapCounts<T>(s: State<T>)
    requires CountersOk(s) && s.producer.WriteSnapped?
    ensures CountersOk(Tick(SnapReadPos(s)))
  {
    var s' := Tick(SnapReadPos(s));
    if s'.producer.WriteRefused? {
      var e := Entry(WriteCall(s.producer.block), Dropped, s.producer.called, s.now);
      CountAppend(s.log, e);
      DecideKeepsCounters(s, s', e);
    } else {
      QuietKeepsCounters(s, s');
    }
  }

  lemma WriterCopyCounts<T>(s: State<T>)
    requires CountersOk(s) && s.producer.WriteCopying?
    ensures CountersOk(Tick(CopyOrPublish(s)))
  {
    var s' := Tick(CopyOrPublish(s));
    if s'.producer.WriteStats? {
      var e := Entry(WriteCall(s.producer.block), Enqueued, s.producer.called, s.now);
      CountAppend(s.log, e);
      DecideKeepsCounters(s, s', e);
    } else {
      QuietKeepsCounters(s, s');
    }
  }

  lemma ReaderSnapCounts<T>(s: State<T>)
    requires CountersOk(s) && s.consumer.ReadSnapped?
    ensures CountersOk(Tick(SnapWritePos(s)))
  {
    var s' := Tick(SnapWritePos(s));
    if s'.consumer.ReadRefused? {
      var e := Entry(ReadCall(s.consumer.count), Starved, s.consumer.called, s.now);
      CountAppend(s.log, e);
      DecideKeepsCounters(s, s', e);
    } else {
      QuietKeepsCounters(s, s');
    }
  }

  lemma ReaderFetchCounts<T>(s: State<T>)
    requires CountersOk(s) && s.consumer.ReadCopying?
    ensures CountersOk(Tick(FetchOrRelease(s)))
  {
    var s' := Tick(FetchOrRelease(s));
    if s'.consumer.ReadStats? {
      var e := Entry(ReadCall(s.consumer.count), Dequeued(s.consumer.data), s.consumer.called, s.now);
      CountAppend(s.log, e);
      DecideKeepsCounters(s, s', e);
    } else {
      QuietKeepsCounters(s, s');
    }
  }

  lemma StarveCounts<T>(s: State<T>)
    requires CountersOk(s) && s.consumer.ReadRefused?
    ensures CountersOk(Tick(ConsumerNext(s)))
  {
    Count32Next(s.shared.underruns, StarvedBlocks(s.log));
  }

  lemma ConsumerKeepsCounters<T>(s: State<T>)
    requires CountersOk(s)
    ensures CountersOk(Tick(ConsumerNext(s)))
  {
    var s' := Tick(ConsumerNext(s));
    match s.consumer
    case ReaderIdle =>
    case ReadCalled(_, _) => QuietKeepsCounters(s, s');
    case ReadSnapped(_, _, _) => ReaderSnapCounts(s);
    case ReadRefused(_, _, _, _) => StarveCounts(s);
    case ReadCopying(_, _, _, _, _) => ReaderFetchCounts(s);
    case ReadStats(_, _, _, _, stats) =>
      StatsKeepCounters(s.shared, stats);
      QuietKeepsCounters(s, s');
  }

  lemma CallWriteKeepsCounters<T>(s: State<T>, block: seq<T>)
    requires CountersOk(s) && s.producer.WriterIdle? && |block| % CHANNELS == 0
    ensures CountersOk(Tick(s.(producer := WriteCalled(block, s.now), written := s.written + [block])))
  {
    var s' := Tick(s.(producer := WriteCalled(block, s.now), written := s.written + [block]));
    FramesAppend(s.written, block);
    assert TotalFrames(s'.written) - FramesDue(s'.producer) == TotalFrames(s.written) - FramesDue(s.producer);
  }

  lemma CallReadKeepsCounters<T>(s: State<T>, count: Uint32)
    requires CountersOk(s)
    ensures CountersOk(Step(s, CallRead(count)))
  {
    QuietKeepsCounters(s, Step(s, CallRead(count)));
  }

  lemma StepKeepsCounters<T>(s: State<T>, a: Action<T>)
    requires CountersOk(s)
    ensures CountersOk(Step(s, a))
  {
    match a
    case ProducerStep => ProducerKeepsCounters(s);
    case ConsumerStep => ConsumerKeepsCounters(s);
    case CallRead(count) => CallReadKeepsCounters(s, count);
    case CallWrite(block) =>
      if s.producer.WriterIdle? && ValidCount(|block|) {
        CallWriteKeepsCounters(s, block);
      } else {
        QuietKeepsCounters(s, Step(s, a));
      }
  }

  /** In every run, wrapped positions or not, the counters follow the log. */
  lemma {:induction false} RunKeepsCounters<T>(zero: T, actions: seq<Action<T>>)
    ensures CountersOk(Run(zero, actions))
  {
    if actions != [] {
      RunKeepsCounters(zero, actions[..|actions| - 1]);
      StepKeepsCounters(Run(zero, actions[..|actions| - 1]), actions[|actions| - 1]);
    }
  }

  // ---------------------------------------------------------------- conservation

  lemma {:induction false} FramesOfLog<T>(log: seq<Entry<T>>)
    requires Legal(log) && WholeFrameBlocks(BlocksOf(log))
    ensures CHANNELS * TotalFrames(BlocksOf(log)) == |EnqueuedBy(log)| + DroppedSamples(log)
  {
    if log != [] {
      var before, e := log[..|log| - 1], log[|log| - 1];
      assert LegalEntry(Queue(before), e);
      assert WholeFrameBlocks(BlocksOf(before)) by {
        forall i | 0 <= i < |BlocksOf(before)| ensures |BlocksOf(before)[i]| % CHANNELS == 0 {
          assert BlocksOf(log)[i] == BlocksOf(before)[i];
        }
      }
      FramesOfLog(before);
      match e.call
      case WriteCall(block) =>
        assert BlocksOf(log) == BlocksOf(before) + [block];
        FramesAppend(BlocksOf(before), block);
        assert BlocksOf(log)[|BlocksOf(before)|] == block;
      case ReadCall(_) =>
        assert BlocksOf(log) == BlocksOf(before);
    }
  }

  lemma QuiescentTotals<T>(s: State<T>)
    requires LogPart(s) && s.producer.WriterIdle? && WholeFrameBlocks(s.written)
    ensures CHANNELS * TotalFrames(s.written) == |EnqueuedBy(s.log)| + DroppedSamples(s.log)
    ensures s.consumed == |DequeuedBy(s.log)|
  {
    assert s.written == BlocksOf(s.log);
    FramesOfLog(s.log);
    QueueIsWhatRemains(s.log);
  }

  lemma QuiescentCounters<T>(s: State<T>)
    requires CountersOk(s) && s.producer.WriterIdle? && s.consumer.ReaderIdle?
    ensures s.shared.frames == Wrap64(TotalFrames(s.written))
    ensures s.shared.overruns == Wrap32(DroppedBlocks(s.log))
    ensures s.shared.underruns == Wrap32(StarvedBlocks(s.log))
    ensures WholeFrameBlocks(s.written)
  {
  }

  lemma UnwrappedPositions<T>(s: State<T>)
    requires RingPart(s) && LogPart(s) && |s.accepted| < U32_SIZE
    ensures s.shared.writePos == |EnqueuedBy(s.log)| && s.shared.readPos == s.consumed
  {
  }

  /** Sample conservation: whenever both threads are idle, before 2^32 samples have been accepted, twice the
      frames handed over is what was accepted plus what was dropped; the two positions differ by what was
      accepted and not yet consumed; and the error counters equal the dropped and the silenced blocks. */
  lemma Conservation<T>(zero: T, actions: seq<Action<T>>, s: State<T>)
    requires s == Run(zero, actions) && |s.accepted| < U32_SIZE
    requires s.producer.WriterIdle? && s.consumer.ReaderIdle?
    ensures CHANNELS * TotalFrames(s.written) == |EnqueuedBy(s.log)| + DroppedSamples(s.log)
    ensures s.shared.frames == Wrap64(TotalFrames(s.written))
    ensures s.shared.writePos - s.shared.readPos == |EnqueuedBy(s.log)| - |DequeuedBy(s.log)|
    ensures s.shared.overruns == Wrap32(DroppedBlocks(s.log))
    ensures s.shared.underruns == Wrap32(StarvedBlocks(s.log))
  {
    RunKeepsCounters(zero, actions);
    QuiescentCounters(s);
    ShortRunParts(zero, actions);
    QuiescentTotals(s);
    UnwrappedPositions(s);
  }

  // ---------------------------------------------------------------- bounded reporting

  /** calculate_latency_ms */
  function LatencyMs(frames: Uint32, sampleRate: Uint32): Uint32 {
    if sampleRate == 0 then 0 else Wrap32(frames * 1000) / sampleRate
  }

  /** The latency in milliseconds, rounded down, as long as the product fits 32 bits. */
  lemma LatencyRoundsDown(frames: Uint32, sampleRate: Uint32)
    requires sampleRate > 0 && 1000 * frames < U32_SIZE
    ensures var latency := LatencyMs(frames, sampleRate);
            sampleRate * latency <= 1000 * frames < sampleRate * (latency + 1)
  {
    DivisionRounds(1000 * frames, sampleRate);
  }

  lemma DivisionRounds(x: nat, d: nat)
    requires d > 0
    ensures d * (x / d) <= x < d * (x / d + 1)
  {
    assert x == d * (x / d) + x % d;
  }

  /** Under every interleaving the reported fill is at most 4095 samples and the reported usages at most 99
      percent, and at 48 kHz the latency derived from them, with no overflow, at most 42 ms. */
  lemma ReportsAreBounded<T>(zero: T, actions: seq<Action<T>>, s: State<T>)
    requires s == Run(zero, actions) && |s.accepted| < U32_SIZE
    ensures s.shared.samplesBuffered <= 4095 && s.shared.currentUsage <= 99 && s.shared.peakUsage <= 99
    ensures var frames := s.shared.samplesBuffered / CHANNELS;
            var latency := LatencyMs(frames, 48000);
            latency <= 42 && 48000 * latency <= 1000 * frames < 48000 * (latency + 1)
  {
    ShortRunParts(zero, actions);
    LatencyBound(s.shared.samplesBuffered);
  }

  lemma LatencyBound(level: Uint32)
    requires level < CAPACITY
    ensures var frames := level / CHANNELS;
            var latency := LatencyMs(frames, 48000);
            latency <= 42 && 48000 * latency <= 1000 * frames < 48000 * (latency + 1)
  {
  }
}
