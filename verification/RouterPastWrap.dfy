/** The router's ring past 2^32 accepted samples (src/audio_router.c). A snapshot that sees
    `current_write < current_read` makes the size one capacity too large; it is misled when it therefore accepts a block
    that does not fit, or supplies samples that are not there. Without such a snapshot the log stays a queue's, however
    long the run. */
module RouterPastWrap {
  import opened Words
  import opened RouterRing
  import opened RouterMachine

  // ---------------------------------------------------------------- misled snapshots

  /** This snapshot accepts a block that does not fit beside what the queue holds. */
  predicate Overfills<T>(s: State<T>, a: Action<T>) {
    && a.ProducerStep? && s.producer.WriteSnapped? && s.producer.w < s.shared.readPos
    && FreeSpace(Occupied(s.producer.w, s.shared.readPos)) >= |s.producer.block|
    && |Queue(s.log)| + |s.producer.block| >= CAPACITY
  }

  /** This snapshot supplies more samples than the queue holds. */
  predicate Overdraws<T>(s: State<T>, a: Action<T>) {
    && a.ConsumerStep? && s.consumer.ReadSnapped? && s.shared.writePos < s.consumer.r
    && Occupied(s.shared.writePos, s.consumer.r) >= s.consumer.count
    && s.consumer.count > |Queue(s.log)|
  }

  predicate Misled<T>(s: State<T>, a: Action<T>) {
    Overfills(s, a) || Overdraws(s, a)
  }

  ghost predicate NeverMisled<T>(zero: T, actions: seq<Action<T>>) {
    forall n :: 0 <= n < |actions| ==> !Misled(Run(zero, actions[..n]), actions[n])
  }

  // ---------------------------------------------------------------- what a run without them keeps

  ghost predicate WriterSound<T>(p: Producer<T>, accepted: nat, consumed: nat, w: Uint32) {
    && (!p.WriterIdle? ==> ValidCount(|p.block|))
    && (p.WriteSnapped? ==> p.w == w)
    && (p.WriteCopying? ==>
          && p.copied <= |p.block|
          && accepted + |p.block| < consumed + CAPACITY
          && p.cursor == Wrap32(accepted + p.copied))
  }

  ghost predicate ReaderSound<T>(c: Consumer<T>, accepted: seq<T>, consumed: nat, r: Uint32) {
    && (!c.ReaderIdle? ==> ValidCount(c.count))
    && (c.ReadSnapped? ==> c.r == r)
    && (c.ReadCopying? ==>
          && |c.data| <= c.count && consumed + c.count <= |accepted|
          && c.data == accepted[consumed..consumed + |c.data|]
          && c.cursor == Wrap32(consumed + |c.data|))
  }

  /** The ring without the gauges, which a wrapped snapshot does put out of range. */
  ghost predicate RingSound<T>(s: State<T>) {
    && RingOk(s.shared.buffer, s.shared.writePos, s.shared.readPos, s.accepted, s.consumed, InFlight(s.producer))
    && WriterSound(s.producer, |s.accepted|, s.consumed, s.shared.writePos)
    && ReaderSound(s.consumer, s.accepted, s.consumed, s.shared.readPos)
  }

  ghost predicate Sound<T>(s: State<T>) {
    RingSound(s) && LogPart(s) && HistoryPart(s)
  }

  /** A snapshot that is not misled decides as the queue does. */
  lemma WriterDecidesRight<T>(s: State<T>)
    requires RingSound(s) && LogPart(s) && s.producer.WriteSnapped? && !Misled(s, ProducerStep)
    ensures SnapReadPos(s).producer.WriteRefused? <==> |s.accepted| - s.consumed + |s.producer.block| >= CAPACITY
  {
    if s.shared.writePos >= s.shared.readPos {
      UnwrappedTests(|s.accepted|, s.consumed, |s.producer.block|);
    } else {
      WrappedTests(|s.accepted|, s.consumed, |s.producer.block|);
    }
  }

  lemma ReaderDecidesRight<T>(s: State<T>)
    requires RingSound(s) && LogPart(s) && s.consumer.ReadSnapped? && !Misled(s, ConsumerStep)
    ensures SnapWritePos(s).consumer.ReadRefused? <==> s.consumer.count > |s.accepted| - s.consumed
  {
    if s.shared.writePos >= s.shared.readPos {
      UnwrappedTests(|s.accepted|, s.consumed, s.consumer.count);
    } else {
      WrappedTests(|s.accepted|, s.consumed, s.consumer.count);
    }
  }

  lemma WriterSnapStaysSound<T>(s: State<T>)
    requires RingSound(s) && LogPart(s) && s.producer.WriteSnapped? && !Misled(s, ProducerStep)
    ensures RingSound(SnapReadPos(s)) && LogPart(SnapReadPos(s))
  {
    WriterDecidesRight(s);
    if SnapReadPos(s).producer.WriteRefused? {
      var e := Entry(WriteCall(s.producer.block), Dropped, s.producer.called, s.now);
      DropKeepsLog(s.log, s.accepted, s.consumed, e);
      DecideKeepsWritten(s.written, s.log, s.producer, SnapReadPos(s).producer, e);
    }
  }

  lemma CopyStaysSound<T>(s: State<T>)
    requires RingSound(s) && s.producer.WriteCopying? && s.producer.copied < |s.producer.block|
    ensures RingSound(CopyOrPublish(s))
  {
    var WriteCopying(block, called, size, cursor, copied) := s.producer;
    var sh := s.shared;
    assert block[..copied] + [block[copied]] == block[..copied + 1];
    CopyKeepsRing(sh.buffer, sh.writePos, sh.readPos, s.accepted, s.consumed, block[..copied], cursor, block[copied]);
    WrapAdd(|s.accepted| + copied, 1);
  }

  lemma ReaderSeesMore<T>(c: Consumer<T>, accepted: seq<T>, consumed: nat, r: Uint32, block: seq<T>)
    requires ReaderSound(c, accepted, consumed, r) && consumed <= |accepted|
    ensures ReaderSound(c, accepted + block, consumed, r)
  {
    if c.ReadCopying? {
      assert (accepted + block)[consumed..consumed + |c.data|] == accepted[consumed..consumed + |c.data|];
    }
  }

  lemma PublishStaysSound<T>(s: State<T>)
    requires RingSound(s) && LogPart(s) && s.producer.WriteCopying? && s.producer.copied == |s.producer.block|
    ensures RingSound(CopyOrPublish(s)) && LogPart(CopyOrPublish(s))
  {
    var block, sh := s.producer.block, s.shared;
    assert block[..|block|] == block;
    PublishKeepsRing(sh.buffer, sh.writePos, sh.readPos, s.accepted, s.consumed, block);
    ReaderSeesMore(s.consumer, s.accepted, s.consumed, sh.readPos, block);
    var e := Entry(WriteCall(block), Enqueued, s.producer.called, s.now);
    EnqueueKeepsLog(s.log, s.accepted, s.consumed, e);
    DecideKeepsWritten(s.written, s.log, s.producer, CopyOrPublish(s).producer, e);
  }

  lemma ProducerStaysSound<T>(s: State<T>)
    requires RingSound(s) && LogPart(s) && !Misled(s, ProducerStep)
    ensures RingSound(ProducerNext(s)) && LogPart(ProducerNext(s))
  {
    match s.producer
    case WriteSnapped(_, _, _) => WriterSnapStaysSound(s);
    case WriteCopying(block, _, _, _, copied) =>
      if copied < |block| {
        CopyStaysSound(s);
      } else {
        PublishStaysSound(s);
      }
    case WriterIdle =>
    case WriteCalled(_, _) =>
    case WriteRefused(_, _, _) => CountingStaysSound(s);
    case WriteStats(_, _, _, _) => CountingStaysSound(s);
    case WriteCounting(_, _, _, _) => CountingStaysSound(s);
  }

  lemma CountingStaysSound<T>(s: State<T>)
    requires RingSound(s) && LogPart(s) && WriteDecided(s.producer)
    ensures RingSound(ProducerNext(s)) && LogPart(ProducerNext(s))
  {
    var s' := ProducerNext(s);
    assert s'.shared.buffer == s.shared.buffer && s'.log == s.log;
    assert InFlight(s'.producer) == InFlight(s.producer) == [];
  }

  lemma ReaderSnapStaysSound<T>(s: State<T>)
    requires RingSound(s) && LogPart(s) && s.consumer.ReadSnapped? && !Misled(s, ConsumerStep)
    ensures RingSound(SnapWritePos(s)) && LogPart(SnapWritePos(s))
  {
    ReaderDecidesRight(s);
    if SnapWritePos(s).consumer.ReadRefused? {
      StarvesSound(s);
    } else {
      assert s.accepted[s.consumed..s.consumed] == [];
    }
  }

  lemma StarvesSound<T>(s: State<T>)
    requires RingSound(s) && LogPart(s) && s.consumer.ReadSnapped? && SnapWritePos(s).consumer.ReadRefused?
    requires s.consumer.count > |s.accepted| - s.consumed
    ensures RingSound(SnapWritePos(s)) && LogPart(SnapWritePos(s))
  {
    var e := Entry(ReadCall(s.consumer.count), Starved, s.consumer.called, s.now);
    StarveKeepsLog(s.log, s.accepted, s.consumed, e);
    ReadKeepsWritten(s.written, s.log, s.producer, e);
  }

  lemma FetchStaysSound<T>(s: State<T>)
    requires RingSound(s) && s.consumer.ReadCopying? && |s.consumer.data| < s.consumer.count
    ensures RingSound(FetchOrRelease(s))
  {
    var next := s.consumed + |s.consumer.data|;
    WrapAdd(next, 1);
    SlotHolds(s.shared.buffer, s.shared.writePos, s.shared.readPos, s.accepted, s.consumed, InFlight(s.producer), next);
    assert s.accepted[s.consumed..next] + [s.accepted[next]] == s.accepted[s.consumed..next + 1];
  }

  lemma ReleaseStaysSound<T>(s: State<T>)
    requires RingSound(s) && LogPart(s) && s.consumer.ReadCopying? && |s.consumer.data| == s.consumer.count
    ensures RingSound(FetchOrRelease(s)) && LogPart(FetchOrRelease(s))
  {
    var ReadCopying(count, called, _, _, data) := s.consumer;
    ReleaseKeepsRing(s.shared.buffer, s.shared.writePos, s.shared.readPos, s.accepted, s.consumed, InFlight(s.producer),
                     count);
    var e := Entry(ReadCall(count), Dequeued(data), called, s.now);
    DequeueKeepsLog(s.log, s.accepted, s.consumed, e);
    ReadKeepsWritten(s.written, s.log, s.producer, e);
  }

  lemma ConsumerStaysSound<T>(s: State<T>)
    requires RingSound(s) && LogPart(s) && !Misled(s, ConsumerStep)
    ensures RingSound(ConsumerNext(s)) && LogPart(ConsumerNext(s))
  {
    match s.consumer
    case ReadSnapped(_, _, _) => ReaderSnapStaysSound(s);
    case ReadCopying(count, _, _, _, data) =>
      if |data| < count {
        FetchStaysSound(s);
      } else {
        ReleaseStaysSound(s);
      }
    case ReaderIdle =>
    case ReadCalled(_, _) =>
    case ReadRefused(_, _, _, _) => ReadCountingStaysSound(s);
    case ReadStats(_, _, _, _, _) => ReadCountingStaysSound(s);
  }

  lemma ReadCountingStaysSound<T>(s: State<T>)
    requires RingSound(s) && LogPart(s) && (s.consumer.ReadRefused? || s.consumer.ReadStats?)
    ensures RingSound(ConsumerNext(s)) && LogPart(ConsumerNext(s))
  {
    var s' := ConsumerNext(s);
    assert s'.shared.buffer == s.shared.buffer && s'.log == s.log && s'.producer == s.producer;
    assert !s'.consumer.ReadCopying? && !s'.consumer.ReadSnapped?;
  }

  lemma CallStaysSound<T>(s: State<T>, a: Action<T>)
    requires RingSound(s) && LogPart(s) && (a.CallWrite? || a.CallRead?)
    ensures RingSound(Step(s, a)) && LogPart(Step(s, a))
  {
    if a.CallWrite? {
      WriteCallStaysSound(s, a);
    } else {
      ReadCallStaysSound(s, a);
    }
  }

  lemma WriteCallStaysSound<T>(s: State<T>, a: Action<T>)
    requires RingSound(s) && LogPart(s) && a.CallWrite?
    ensures RingSound(Step(s, a)) && LogPart(Step(s, a))
  {
    var s' := Step(s, a);
    assert RingSound(s') by {
      assert InFlight(s'.producer) == InFlight(s.producer) && s'.shared == s.shared && s'.consumer == s.consumer;
    }
    assert LogPart(s') by {
      assert s'.log == s.log && s'.accepted == s.accepted && s'.consumed == s.consumed;
    }
  }

  lemma ReadCallStaysSound<T>(s: State<T>, a: Action<T>)
    requires RingSound(s) && LogPart(s) && a.CallRead?
    ensures RingSound(Step(s, a)) && LogPart(Step(s, a))
  {
    var s' := Step(s, a);
    assert s'.producer == s.producer && s'.shared == s.shared && s'.log == s.log && s'.accepted == s.accepted;
  }

  lemma StepStaysSound<T>(s: State<T>, a: Action<T>)
    requires Sound(s) && !Misled(s, a)
    ensures Sound(Step(s, a))
  {
    match a
    case CallWrite(_) =>
      CallStaysSound(s, a);
      CallKeepsHistory(s, a);
    case ProducerStep =>
      ProducerStaysSound(s);
      ProducerKeepsHistory(s);
    case CallRead(_) =>
      CallStaysSound(s, a);
      CallKeepsHistory(s, a);
    case ConsumerStep =>
      ConsumerStaysSound(s);
      ConsumerKeepsHistory(s);
  }

  lemma {:induction false} RunStaysSound<T>(zero: T, actions: seq<Action<T>>)
    requires NeverMisled(zero, actions)
    ensures Sound(Run(zero, actions))
  {
    if actions == [] {
      StartIsSound(zero);
    } else {
      var n := |actions| - 1;
      NeverMisledBefore(zero, actions, n);
      RunStaysSound(zero, actions[..n]);
      NotMisledAt(zero, actions, n);
      StepStaysSound(Run(zero, actions[..n]), actions[n]);
    }
  }

  lemma StartIsSound<T>(zero: T)
    ensures Sound(Start(zero))
  {
  }

  lemma NotMisledAt<T>(zero: T, actions: seq<Action<T>>, n: nat)
    requires NeverMisled(zero, actions) && n < |actions|
    ensures !Misled(Run(zero, actions[..n]), actions[n])
  {
  }

  lemma NeverMisledBefore<T>(zero: T, actions: seq<Action<T>>, n: nat)
    requires NeverMisled(zero, actions) && n <= |actions|
    ensures NeverMisled(zero, actions[..n])
  {
    forall m | 0 <= m < n ensures !Misled(Run(zero, actions[..n][..m]), actions[..n][m]) {
      assert actions[..n][..m] == actions[..m];
    }
  }

  /** Under every interleaving and however many samples have been accepted: as long as no snapshot is misled, the log is
      a legal history that explains every return. */
  lemma NeverMisledIsLinearizable<T(!new)>(zero: T, actions: seq<Action<T>>)
    requires NeverMisled(zero, actions)
    ensures Linearizes(Run(zero, actions).log, Run(zero, actions).replies)
  {
    RunStaysSound(zero, actions);
  }

  // ---------------------------------------------------------------- and conversely, when calls do not overlap

  predicate Alone<T>(s: State<T>) {
    s.producer.WriterIdle? || s.consumer.ReaderIdle?
  }

  /** No call begins while one of the other thread is under way. */
  ghost predicate Sequential<T>(zero: T, actions: seq<Action<T>>) {
    forall n :: 0 <= n <= |actions| ==> Alone(Run(zero, actions[..n]))
  }

  /** The log is no queue's, or will not be once the copying call takes effect. */
  predicate Doomed<T(==)>(s: State<T>) {
    || !Legal(s.log)
    || (s.producer.WriteCopying? && |Queue(s.log)| + |s.producer.block| >= CAPACITY)
    || (s.consumer.ReadCopying? && |s.consumer.data| <= s.consumer.count && s.consumer.count > |Queue(s.log)|)
  }

  lemma MisledDooms<T>(s: State<T>, a: Action<T>)
    requires |s.shared.buffer| == CAPACITY && Misled(s, a)
    ensures Doomed(Step(s, a))
  {
  }

  lemma LogOnlyGrows<T>(s: State<T>, a: Action<T>)
    requires |s.shared.buffer| == CAPACITY
    ensures !Legal(s.log) ==> !Legal(Step(s, a).log)
  {
    var more := StepLogs(s, a);
    StaysIllegal(s.log, more);
  }

  lemma StaysIllegal<T>(log: seq<Entry<T>>, more: seq<Entry<T>>)
    requires |more| <= 1
    ensures !Legal(log) ==> !Legal(log + more)
  {
    if more == [] {
      assert log + more == log;
    } else {
      LogAppend(log, more[0]);
      assert more == [more[0]];
    }
  }

  lemma StepLogs<T>(s: State<T>, a: Action<T>) returns (more: seq<Entry<T>>)
    requires |s.shared.buffer| == CAPACITY
    ensures |more| <= 1 && Step(s, a).log == s.log + more
  {
    more := if |Step(s, a).log| > |s.log| then [Step(s, a).log[|s.log|]] else [];
    if more == [] {
      assert Step(s, a).log == s.log;
    }
  }

  lemma OverfullStaysDoomed<T>(s: State<T>, a: Action<T>)
    requires |s.shared.buffer| == CAPACITY && Alone(s) && Alone(Step(s, a))
    requires s.producer.WriteCopying? && |Queue(s.log)| + |s.producer.block| >= CAPACITY
    ensures Doomed(Step(s, a))
  {
    LogAppend(s.log, Entry(WriteCall(s.producer.block), Enqueued, s.producer.called, s.now));
  }

  lemma OverdrawnStaysDoomed<T>(s: State<T>, a: Action<T>)
    requires |s.shared.buffer| == CAPACITY && Alone(s) && Alone(Step(s, a))
    requires s.consumer.ReadCopying? && |s.consumer.data| <= s.consumer.count && s.consumer.count > |Queue(s.log)|
    ensures Doomed(Step(s, a))
  {
    LogAppend(s.log, Entry(ReadCall(s.consumer.count), Dequeued(s.consumer.data), s.consumer.called, s.now));
  }

  lemma DoomedStays<T>(s: State<T>, a: Action<T>)
    requires |s.shared.buffer| == CAPACITY && Alone(s) && Alone(Step(s, a)) && Doomed(s)
    ensures Doomed(Step(s, a))
  {
    if !Legal(s.log) {
      LogOnlyGrows(s, a);
    } else if s.producer.WriteCopying? {
      OverfullStaysDoomed(s, a);
    } else {
      OverdrawnStaysDoomed(s, a);
    }
  }

  lemma {:induction false} MisledRunIsDoomed<T>(zero: T, actions: seq<Action<T>>, n: nat, m: nat)
    requires Sequential(zero, actions) && n < m <= |actions| && Misled(Run(zero, actions[..n]), actions[n])
    ensures Doomed(Run(zero, actions[..m]))
    decreases m
  {
    assert actions[..m][..m - 1] == actions[..m - 1];
    if m == n + 1 {
      MisledDooms(Run(zero, actions[..n]), actions[n]);
    } else {
      MisledRunIsDoomed(zero, actions, n, m - 1);
      assert Alone(Run(zero, actions[..m - 1])) && Alone(Run(zero, actions[..m]));
      DoomedStays(Run(zero, actions[..m - 1]), actions[m - 1]);
    }
  }

  /** When calls do not overlap: once both threads are idle, the log is a legal history if and only if no snapshot was
      misled. */
  lemma LegalIffNeverMisled<T>(zero: T, actions: seq<Action<T>>)
    requires Sequential(zero, actions)
    requires Run(zero, actions).producer.WriterIdle? && Run(zero, actions).consumer.ReaderIdle?
    ensures Legal(Run(zero, actions).log) <==> NeverMisled(zero, actions)
  {
    if NeverMisled(zero, actions) {
      RunStaysSound(zero, actions);
    } else {
      var n :| 0 <= n < |actions| && Misled(Run(zero, actions[..n]), actions[n]);
      MisledRunIsDoomed(zero, actions, n, |actions|);
      assert actions[..|actions|] == actions;
    }
  }

  /** When they do overlap, a misled snapshot can be forgiven: a block that does not fit when its snapshot is taken fits
      after all if a read that has copied its samples is about to release them. */
  lemma OverlapForgives<T>(s: State<T>)
    requires Sound(s) && s.producer.WriteSnapped? && s.shared.writePos < s.shared.readPos
    requires s.consumer.ReadCopying? && |s.consumer.data| == s.consumer.count
    requires |s.accepted| - s.consumed + |s.producer.block| >= CAPACITY
    requires |s.accepted| - s.consumed + |s.producer.block| - s.consumer.count < CAPACITY
    ensures Misled(s, ProducerStep) && Sound(Step(Step(s, ProducerStep), ConsumerStep))
  {
    WrappedTests(|s.accepted|, s.consumed, |s.producer.block|);
    ForgivenRing(s);
    ProducerKeepsHistory(s);
    ConsumerKeepsHistory(Step(s, ProducerStep));
  }

  lemma ForgivenRing<T>(s: State<T>)
    requires RingSound(s) && LogPart(s) && s.producer.WriteSnapped? && s.shared.writePos < s.shared.readPos
    requires s.consumer.ReadCopying? && |s.consumer.data| == s.consumer.count
    requires |s.accepted| - s.consumed + |s.producer.block| - s.consumer.count < CAPACITY
    ensures var s' := Step(Step(s, ProducerStep), ConsumerStep); RingSound(s') && LogPart(s')
  {
    var released, s' := FetchOrRelease(Tick(s)), Step(Step(s, ProducerStep), ConsumerStep);
    ReleaseStaysSound(Tick(s));
    ForgivenFields(s, released, s');
    assert WriterSound(s'.producer, |s'.accepted|, s'.consumed, s'.shared.writePos);
  }

  /** The two steps, but for the producer, leave what the release alone would. */
  lemma ForgivenFields<T>(s: State<T>, released: State<T>, s': State<T>)
    requires RingSound(s) && s.producer.WriteSnapped? && s.shared.writePos < s.shared.readPos
    requires s.consumer.ReadCopying? && |s.consumer.data| == s.consumer.count
    requires released == FetchOrRelease(Tick(s)) && s' == Step(Step(s, ProducerStep), ConsumerStep)
    ensures s'.shared == released.shared && s'.consumer == released.consumer && s'.log == released.log
    ensures s'.accepted == released.accepted && s'.consumed == released.consumed && s'.written == released.written
    ensures InFlight(s'.producer) == InFlight(released.producer)
    ensures Undecided(s'.producer) == Undecided(released.producer)
    ensures s'.producer.WriteCopying? && s'.producer.copied == 0 && s'.producer.block == s.producer.block
    ensures s'.producer.cursor == Wrap32(|s.accepted|)
  {
    AcceptedRing(s);
  }

  lemma AcceptedRing<T>(s: State<T>)
    requires RingSound(s) && s.producer.WriteSnapped? && s.shared.writePos < s.shared.readPos
    ensures var s' := Step(s, ProducerStep);
            && s'.producer.WriteCopying? && s'.producer.copied == 0 && s'.producer.block == s.producer.block
            && s'.producer.cursor == Wrap32(|s.accepted|)
            && s'.shared == s.shared && s'.consumer == s.consumer && s'.log == s.log && s'.written == s.written
            && s'.accepted == s.accepted && s'.consumed == s.consumed && s'.producer.called == s.producer.called
            && InFlight(s'.producer) == [] && s'.now == s.now + 1
  {
    WrappedTests(|s.accepted|, s.consumed, |s.producer.block|);
  }
}
