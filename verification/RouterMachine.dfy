/** The router ring under every interleaving of its two IO threads. Each atomic access of rb_write, rb_read and
    rb_update_stats is one step, each copied sample is one step, and a run is any sequence of steps. */
module RouterMachine {
  import opened Words
  import opened RouterRing

  // ---------------------------------------------------------------- the sequential queue

  datatype Call<T> = WriteCall(block: seq<T>) | ReadCall(count: nat)

  datatype Outcome<T> = Enqueued | Dropped | Dequeued(samples: seq<T>) | Starved

  /** An operation at the instant it takes effect: `called` and `at` are step numbers. */
  datatype Entry<T> = Entry(call: Call<T>, outcome: Outcome<T>, called: nat, at: nat)

  /** A completed call as its caller saw it, pointing at its entry in the log. */
  datatype Reply<T> = Reply(entry: nat, call: Call<T>, outcome: Outcome<T>, called: nat, returned: nat)

  /** The bounded queue's rule: all or nothing, decided by the queue as it stands. */
  predicate LegalEntry<T(==)>(queue: seq<T>, e: Entry<T>) {
    match e.call
    case WriteCall(block) =>
      if |queue| + |block| < CAPACITY then e.outcome == Enqueued else e.outcome == Dropped
    case ReadCall(count) =>
      if count <= |queue| then e.outcome == Dequeued(queue[..count]) else e.outcome == Starved
  }

  function AfterEntry<T>(queue: seq<T>, e: Entry<T>): seq<T> {
    match (e.call, e.outcome)
    case (WriteCall(block), Enqueued) => queue + block
    case (ReadCall(_), Dequeued(samples)) => if |samples| <= |queue| then queue[|samples|..] else queue
    case _ => queue
  }

  function Queue<T>(log: seq<Entry<T>>): seq<T> {
    if log == [] then [] else AfterEntry(Queue(log[..|log| - 1]), log[|log| - 1])
  }

  predicate Legal<T(==)>(log: seq<Entry<T>>) {
    log == [] || (Legal(log[..|log| - 1]) && LegalEntry(Queue(log[..|log| - 1]), log[|log| - 1]))
  }

  /** All samples enqueued so far, in order. */
  function EnqueuedBy<T>(log: seq<Entry<T>>): seq<T> {
    if log == [] then []
    else
      var e := log[|log| - 1];
      EnqueuedBy(log[..|log| - 1]) + EnqueuedIn(e)
  }

  /** All samples dequeued so far, in order. */
  function DequeuedBy<T>(log: seq<Entry<T>>): seq<T> {
    if log == [] then []
    else
      var e := log[|log| - 1];
      DequeuedBy(log[..|log| - 1]) + DequeuedIn(e)
  }

  /** The blocks of the log's writes, in order. */
  function BlocksOf<T>(log: seq<Entry<T>>): seq<seq<T>> {
    if log == [] then []
    else
      var e := log[|log| - 1];
      BlocksOf(log[..|log| - 1]) + (if e.call.WriteCall? then [e.call.block] else [])
  }

  /** `log` explains `replies`: it is a legal history of the sequential queue, every operation takes effect
      strictly between its call and its return, each return saw its entry's outcome, and no entry serves twice. */
  ghost predicate Linearizes<T(!new)>(log: seq<Entry<T>>, replies: seq<Reply<T>>) {
    && Legal(log)
    && (forall i, j :: 0 <= i < j < |log| ==> log[i].at < log[j].at)
    && (forall i :: 0 <= i < |log| ==> log[i].called < log[i].at)
    && (forall k :: 0 <= k < |replies| ==> Explains(log, replies[k]))
    && (forall k, k' :: 0 <= k < k' < |replies| ==> replies[k].entry != replies[k'].entry)
  }

  ghost predicate Explains<T>(log: seq<Entry<T>>, r: Reply<T>) {
    && r.entry < |log|
    && log[r.entry].call == r.call
    && log[r.entry].outcome == r.outcome
    && log[r.entry].called == r.called
    && log[r.entry].at < r.returned
  }

  /** A call that returned before another began comes first in the log. */
  lemma RealTimeOrder<T(!new)>(log: seq<Entry<T>>, replies: seq<Reply<T>>, k: nat, j: nat)
    requires Linearizes(log, replies) && k < |replies| && j < |log|
    requires replies[k].returned <= log[j].called
    ensures replies[k].entry < j
  {
    assert Explains(log, replies[k]);
    assert log[j].called < log[j].at;
  }

  function EnqueuedIn<T>(e: Entry<T>): seq<T> {
    if e.call.WriteCall? && e.outcome.Enqueued? then e.call.block else []
  }

  function DequeuedIn<T>(e: Entry<T>): seq<T> {
    if e.outcome.Dequeued? then e.outcome.samples else []
  }

  lemma WriteKeepsRemains<T>(added: seq<T>, taken: seq<T>, queue: seq<T>, e: Entry<T>)
    requires added == taken + queue && |queue| < CAPACITY && e.call.WriteCall? && LegalEntry(queue, e)
    ensures added + EnqueuedIn(e) == taken + DequeuedIn(e) + AfterEntry(queue, e)
    ensures |AfterEntry(queue, e)| < CAPACITY
  {
  }

  lemma ReadKeepsRemains<T>(added: seq<T>, taken: seq<T>, queue: seq<T>, e: Entry<T>)
    requires added == taken + queue && |queue| < CAPACITY && e.call.ReadCall? && LegalEntry(queue, e)
    ensures added + EnqueuedIn(e) == taken + DequeuedIn(e) + AfterEntry(queue, e)
    ensures |AfterEntry(queue, e)| < CAPACITY
  {
    if e.outcome.Dequeued? {
      var count := e.call.count;
      assert queue == queue[..count] + queue[count..];
    }
  }

  lemma LastRemains<T>(log: seq<Entry<T>>)
    requires log != []
    ensures var before, e := log[..|log| - 1], log[|log| - 1];
            && EnqueuedBy(log) == EnqueuedBy(before) + EnqueuedIn(e)
            && DequeuedBy(log) == DequeuedBy(before) + DequeuedIn(e)
            && Queue(log) == AfterEntry(Queue(before), e)
            && (Legal(log) ==> Legal(before) && LegalEntry(Queue(before), e))
  {
  }

  /** In a legal history what comes out is what went in, in order, with the queue as the part still inside. */
  lemma {:induction false} QueueIsWhatRemains<T>(log: seq<Entry<T>>)
    requires Legal(log)
    ensures EnqueuedBy(log) == DequeuedBy(log) + Queue(log)
    ensures |Queue(log)| < CAPACITY
  {
    if log == [] {
    } else {
      var before, e := log[..|log| - 1], log[|log| - 1];
      LastRemains(log);
      QueueIsWhatRemains(before);
      if e.call.WriteCall? {
        WriteKeepsRemains(EnqueuedBy(before), DequeuedBy(before), Queue(before), e);
      } else {
        ReadKeepsRemains(EnqueuedBy(before), DequeuedBy(before), Queue(before), e);
      }
    }
  }

  // ---------------------------------------------------------------- the threads

  /** The stores of rb_update_stats still to be done for a fill level. */
  datatype Stats = StoreUsage(level: Uint32) | StoreLevel(level: Uint32) | LoadPeak(level: Uint32)
                 | StorePeak(level: Uint32) | StatsDone

  datatype Producer<T> =
    | WriterIdle
    | WriteCalled(block: seq<T>, called: nat)
    | WriteSnapped(block: seq<T>, called: nat, w: Uint32)
    | WriteRefused(block: seq<T>, called: nat, entry: nat)
    | WriteCopying(block: seq<T>, called: nat, size: Uint32, cursor: Uint32, copied: nat)
    | WriteStats(block: seq<T>, called: nat, entry: nat, stats: Stats)
    | WriteCounting(block: seq<T>, called: nat, entry: nat, outcome: Outcome<T>)

  datatype Consumer<T> =
    | ReaderIdle
    | ReadCalled(count: Uint32, called: nat)
    | ReadSnapped(count: Uint32, called: nat, r: Uint32)
    | ReadRefused(count: Uint32, called: nat, entry: nat, available: Uint32)
    | ReadCopying(count: Uint32, called: nat, available: Uint32, cursor: Uint32, data: seq<T>)
    | ReadStats(count: Uint32, called: nat, entry: nat, outcome: Outcome<T>, stats: Stats)

  /** `shared` is what the threads see. The rest is the record of the run: the step number, the blocks handed to
      the producer, the samples published and taken, the log, the replies, and whether some snapshot has taken
      the `current_write < current_read` branch. */
  datatype State<T> = State(
    shared: Shared<T>,
    producer: Producer<T>,
    consumer: Consumer<T>,
    now: nat,
    written: seq<seq<T>>,
    accepted: seq<T>,
    consumed: nat,
    log: seq<Entry<T>>,
    replies: seq<Reply<T>>,
    wrapSeen: bool)

  datatype Action<T> = CallWrite(block: seq<T>) | ProducerStep | CallRead(count: Uint32) | ConsumerStep

  function Start<T>(zero: T): State<T> {
    State(Initial(zero), WriterIdle, ReaderIdle, 0, [], [], 0, [], [], false)
  }

  function StatsStep<T>(s: Shared<T>, stats: Stats): (Shared<T>, Stats) {
    match stats
    case StoreUsage(level) => (s.(currentUsage := UsagePercent(level)), StoreLevel(level))
    case StoreLevel(level) => (s.(samplesBuffered := level), LoadPeak(level))
    case LoadPeak(level) => (s, if UsagePercent(level) > s.peakUsage then StorePeak(level) else StatsDone)
    case StorePeak(level) => (s.(peakUsage := UsagePercent(level)), StatsDone)
    case StatsDone => (s, StatsDone)
  }

  /** The acquire load of `read_pos` and the overrun test; a refusal takes effect here. */
  function SnapReadPos<T>(s: State<T>): State<T>
    requires s.producer.WriteSnapped?
  {
    var WriteSnapped(block, called, w) := s.producer;
    var r := s.shared.readPos;
    var size := Occupied(w, r);
    var s := s.(wrapSeen := s.wrapSeen || w < r);
    if FreeSpace(size) < |block| then
      s.(producer := WriteRefused(block, called, |s.log|),
         log := s.log + [Entry(WriteCall(block), Dropped, called, s.now)])
    else
      s.(producer := WriteCopying(block, called, size, w, 0))
  }

  /** One turn of the copy loop, or the release store after the last; an enqueue takes effect at the store. */
  function CopyOrPublish<T>(s: State<T>): State<T>
    requires |s.shared.buffer| == CAPACITY && s.producer.WriteCopying?
  {
    var WriteCopying(block, called, size, cursor, copied) := s.producer;
    if copied < |block| then
      s.(shared := s.shared.(buffer := s.shared.buffer[cursor % CAPACITY := block[copied]]),
         producer := WriteCopying(block, called, size, Wrap32(cursor + 1), copied + 1))
    else
      s.(shared := s.shared.(writePos := cursor),
         producer := WriteStats(block, called, |s.log|, StoreUsage(Wrap32(size + |block|))),
         accepted := s.accepted + block,
         log := s.log + [Entry(WriteCall(block), Enqueued, called, s.now)])
  }

  function ProducerNext<T>(s: State<T>): State<T>
    requires |s.shared.buffer| == CAPACITY
  {
    match s.producer
    case WriterIdle => s
    case WriteCalled(block, called) => s.(producer := WriteSnapped(block, called, s.shared.writePos))
    case WriteSnapped(_, _, _) => SnapReadPos(s)
    case WriteRefused(block, called, entry) =>
      s.(shared := s.shared.(overruns := Wrap32(s.shared.overruns + 1)),
         producer := WriteCounting(block, called, entry, Dropped))
    case WriteCopying(_, _, _, _, _) => CopyOrPublish(s)
    case WriteStats(block, called, entry, stats) =>
      var (shared, stats') := StatsStep(s.shared, stats);
      s.(shared := shared,
         producer := if stats'.StatsDone? then WriteCounting(block, called, entry, Enqueued)
                     else WriteStats(block, called, entry, stats'))
    case WriteCounting(block, called, entry, outcome) =>
      s.(shared := s.shared.(frames := Wrap64(s.shared.frames + |block| / CHANNELS)),
         producer := WriterIdle,
         replies := s.replies + [Reply(entry, WriteCall(block), outcome, called, s.now)])
  }

  /** The acquire load of `write_pos` and the underrun test; a starved read takes effect here. */
  function SnapWritePos<T>(s: State<T>): State<T>
    requires s.consumer.ReadSnapped?
  {
    var ReadSnapped(count, called, r) := s.consumer;
    var w := s.shared.writePos;
    var available := Occupied(w, r);
    var s := s.(wrapSeen := s.wrapSeen || w < r);
    if available < count then
      s.(consumer := ReadRefused(count, called, |s.log|, available),
         log := s.log + [Entry(ReadCall(count), Starved, called, s.now)])
    else
      s.(consumer := ReadCopying(count, called, available, r, []))
  }

  /** One turn of the copy loop, or the release store after the last; a dequeue takes effect at the store. */
  function FetchOrRelease<T>(s: State<T>): State<T>
    requires |s.shared.buffer| == CAPACITY && s.consumer.ReadCopying?
  {
    var ReadCopying(count, called, available, cursor, data) := s.consumer;
    if |data| < count then
      s.(consumer := ReadCopying(count, called, available, Wrap32(cursor + 1),
                                 data + [s.shared.buffer[cursor % CAPACITY]]))
    else
      s.(shared := s.shared.(readPos := cursor),
         consumer := ReadStats(count, called, |s.log|, Dequeued(data), StoreUsage(Wrap32(available - count))),
         consumed := s.consumed + count,
         log := s.log + [Entry(ReadCall(count), Dequeued(data), called, s.now)])
  }

  function ConsumerNext<T>(s: State<T>): State<T>
    requires |s.shared.buffer| == CAPACITY
  {
    match s.consumer
    case ReaderIdle => s
    case ReadCalled(count, called) => s.(consumer := ReadSnapped(count, called, s.shared.readPos))
    case ReadSnapped(_, _, _) => SnapWritePos(s)
    case ReadRefused(count, called, entry, available) =>
      s.(shared := s.shared.(underruns := Wrap32(s.shared.underruns + 1)),
         consumer := ReadStats(count, called, entry, Starved, StoreUsage(available)))
    case ReadCopying(_, _, _, _, _) => FetchOrRelease(s)
    case ReadStats(count, called, entry, outcome, stats) =>
      if stats.StatsDone? then
        s.(consumer := ReaderIdle,
           replies := s.replies + [Reply(entry, ReadCall(count), outcome, called, s.now)])
      else
        var (shared, stats') := StatsStep(s.shared, stats);
        s.(shared := shared, consumer := ReadStats(count, called, entry, outcome, stats'))
  }

  function Tick<T>(s: State<T>): State<T> {
    s.(now := s.now + 1)
  }

  /** One step of the run. A call is ignored while its thread is busy: there is one producer and one consumer. */
  function Step<T>(s: State<T>, a: Action<T>): State<T>
    requires |s.shared.buffer| == CAPACITY
  {
    Tick(
      match a
      case CallWrite(block) =>
        if s.producer.WriterIdle? && ValidCount(|block|) then
          s.(producer := WriteCalled(block, s.now), written := s.written + [block])
        else s
      case ProducerStep => ProducerNext(s)
      case CallRead(count) =>
        if s.consumer.ReaderIdle? && ValidCount(count) then s.(consumer := ReadCalled(count, s.now)) else s
      case ConsumerStep => ConsumerNext(s))
  }

  function Run<T>(zero: T, actions: seq<Action<T>>): (s: State<T>)
    ensures |s.shared.buffer| == CAPACITY
  {
    if actions == [] then Start(zero)
    else Step(Run(zero, actions[..|actions| - 1]), actions[|actions| - 1])
  }

  // ---------------------------------------------------------------- the invariant

  /** The samples of the block in flight that already lie in the ring, beyond the published position. */
  function InFlight<T>(p: Producer<T>): seq<T> {
    if p.WriteCopying? && p.copied <= |p.block| then p.block[..p.copied] else []
  }

  /** Positions are the totals modulo 2^32, and every sample from the read position on, published or in flight,
      lies in its own slot. */
  ghost predicate RingOk<T>(buffer: seq<T>, w: Uint32, r: Uint32, accepted: seq<T>, consumed: nat, flight: seq<T>) {
    && |buffer| == CAPACITY
    && consumed <= |accepted|
    && |accepted| + |flight| < consumed + CAPACITY
    && w == Wrap32(|accepted|)
    && r == Wrap32(consumed)
    && forall k :: consumed <= k < |accepted| + |flight| ==> buffer[k % CAPACITY] == (accepted + flight)[k]
  }

  ghost predicate LogOk<T>(log: seq<Entry<T>>, accepted: seq<T>, consumed: nat) {
    && Legal(log)
    && consumed <= |accepted|
    && Queue(log) == accepted[consumed..]
    && EnqueuedBy(log) == accepted
  }

  ghost predicate StatsOk(stats: Stats) {
    !stats.StatsDone? ==> stats.level < CAPACITY
  }

  ghost predicate WriterOk<T>(p: Producer<T>, accepted: nat, consumed: nat, w: Uint32) {
    && (!p.WriterIdle? ==> ValidCount(|p.block|))
    && (p.WriteSnapped? ==> p.w == w)
    && (p.WriteStats? ==> StatsOk(p.stats))
    && (p.WriteCopying? ==>
          && p.copied <= |p.block|
          && p.size + |p.block| < CAPACITY
          && accepted + |p.block| < consumed + CAPACITY
          && p.cursor == Wrap32(accepted + p.copied))
  }

  ghost predicate ReaderOk<T>(c: Consumer<T>, accepted: seq<T>, consumed: nat, r: Uint32) {
    && (!c.ReaderIdle? ==> ValidCount(c.count))
    && (c.ReadSnapped? ==> c.r == r)
    && (c.ReadRefused? ==> c.available < CAPACITY)
    && (c.ReadStats? ==> StatsOk(c.stats))
    && (c.ReadCopying? ==>
          && |c.data| <= c.count <= c.available < CAPACITY
          && consumed + c.count <= |accepted|
          && c.data == accepted[consumed..consumed + |c.data|]
          && c.cursor == Wrap32(consumed + |c.data|))
  }

  /** Entry `entry` of the log is this call's, and nobody has returned from it yet. */
  ghost predicate Pending<T>(log: seq<Entry<T>>, replies: seq<Reply<T>>, entry: nat, call: Call<T>,
                             outcome: Outcome<T>, called: nat) {
    && entry < |log|
    && log[entry].call == call
    && log[entry].outcome == outcome
    && log[entry].called == called
    && forall k :: 0 <= k < |replies| ==> replies[k].entry != entry
  }

  predicate WriteDecided<T>(p: Producer<T>) {
    p.WriteRefused? || p.WriteStats? || p.WriteCounting?
  }

  function WriteOutcome<T>(p: Producer<T>): Outcome<T>
    requires WriteDecided(p)
  {
    match p
    case WriteRefused(_, _, _) => Dropped
    case WriteStats(_, _, _, _) => Enqueued
    case WriteCounting(_, _, _, outcome) => outcome
  }

  predicate ReadDecided<T>(c: Consumer<T>) {
    c.ReadRefused? || c.ReadStats?
  }

  function ReadOutcome<T>(c: Consumer<T>): Outcome<T>
    requires ReadDecided(c)
  {
    if c.ReadRefused? then Starved else c.outcome
  }

  ghost predicate WriterPending<T>(p: Producer<T>, log: seq<Entry<T>>, replies: seq<Reply<T>>) {
    WriteDecided(p) ==> Pending(log, replies, p.entry, WriteCall(p.block), WriteOutcome(p), p.called)
  }

  ghost predicate ReaderPending<T>(c: Consumer<T>, log: seq<Entry<T>>, replies: seq<Reply<T>>) {
    ReadDecided(c) ==> Pending(log, replies, c.entry, ReadCall(c.count), ReadOutcome(c), c.called)
  }

  ghost predicate LogTimes<T>(log: seq<Entry<T>>, now: nat) {
    && (forall i, j :: 0 <= i < j < |log| ==> log[i].at < log[j].at)
    && (forall i :: 0 <= i < |log| ==> log[i].called < log[i].at < now)
  }

  ghost predicate RepliesOk<T>(log: seq<Entry<T>>, replies: seq<Reply<T>>) {
    && (forall k :: 0 <= k < |replies| ==> Explains(log, replies[k]))
    && (forall k, k' :: 0 <= k < k' < |replies| ==> replies[k].entry != replies[k'].entry)
  }

  /** Every operation in the log has returned or is its thread's pending one. */
  predicate CountOk<T>(log: seq<Entry<T>>, replies: seq<Reply<T>>, p: Producer<T>, c: Consumer<T>) {
    |log| == |replies| + (if WriteDecided(p) then 1 else 0) + (if ReadDecided(c) then 1 else 0)
  }

  predicate ClockOk<T>(p: Producer<T>, c: Consumer<T>, now: nat) {
    (!p.WriterIdle? ==> p.called < now) && (!c.ReaderIdle? ==> c.called < now)
  }

  function Undecided<T>(p: Producer<T>): seq<seq<T>> {
    if p.WriterIdle? || WriteDecided(p) then [] else [p.block]
  }

  /** Every block handed to the producer is in the log, except one whose call is still undecided. */
  ghost predicate WrittenOk<T>(written: seq<seq<T>>, log: seq<Entry<T>>, p: Producer<T>) {
    written == BlocksOf(log) + Undecided(p)
  }

  predicate GaugesOk(usage: Uint32, level: Uint32, peak: Uint32) {
    usage < 100 && level < CAPACITY && peak < 100
  }

  ghost predicate RingPart<T>(s: State<T>) {
    && RingOk(s.shared.buffer, s.shared.writePos, s.shared.readPos, s.accepted, s.consumed, InFlight(s.producer))
    && WriterOk(s.producer, |s.accepted|, s.consumed, s.shared.writePos)
    && ReaderOk(s.consumer, s.accepted, s.consumed, s.shared.readPos)
    && GaugesOk(s.shared.currentUsage, s.shared.samplesBuffered, s.shared.peakUsage)
  }

  ghost predicate LogPart<T>(s: State<T>) {
    LogOk(s.log, s.accepted, s.consumed) && WrittenOk(s.written, s.log, s.producer)
  }

  ghost predicate HistoryPart<T>(s: State<T>) {
    && WriterPending(s.producer, s.log, s.replies)
    && ReaderPending(s.consumer, s.log, s.replies)
    && LogTimes(s.log, s.now)
    && RepliesOk(s.log, s.replies)
    && CountOk(s.log, s.replies, s.producer, s.consumer)
    && ClockOk(s.producer, s.consumer, s.now)
  }

  ghost predicate Good<T>(s: State<T>) {
    RingPart(s) && LogPart(s) && HistoryPart(s)
  }

  // ---------------------------------------------------------------- growing the log and the replies

  lemma LogAppend<T>(log: seq<Entry<T>>, e: Entry<T>)
    ensures Queue(log + [e]) == AfterEntry(Queue(log), e)
    ensures Legal(log + [e]) <==> Legal(log) && LegalEntry(Queue(log), e)
    ensures EnqueuedBy(log + [e]) ==
            EnqueuedBy(log) + (if e.call.WriteCall? && e.outcome.Enqueued? then e.call.block else [])
    ensures BlocksOf(log + [e]) == BlocksOf(log) + (if e.call.WriteCall? then [e.call.block] else [])
  {
    assert (log + [e])[..|log + [e]| - 1] == log;
  }

  /** An operation taking effect now leaves the times and the earlier replies in order. */
  lemma DecideKeepsHistory<T>(log: seq<Entry<T>>, replies: seq<Reply<T>>, now: nat, e: Entry<T>)
    requires LogTimes(log, now) && RepliesOk(log, replies) && e.called < e.at == now
    ensures LogTimes(log + [e], now + 1) && RepliesOk(log + [e], replies)
    ensures Pending(log + [e], replies, |log|, e.call, e.outcome, e.called)
  {
    forall k | 0 <= k < |replies| ensures Explains(log + [e], replies[k]) && replies[k].entry != |log| {
      assert Explains(log, replies[k]);
    }
  }

  lemma PendingSurvivesDecision<T>(log: seq<Entry<T>>, replies: seq<Reply<T>>, e: Entry<T>, entry: nat, call: Call<T>,
                                   outcome: Outcome<T>, called: nat)
    requires Pending(log, replies, entry, call, outcome, called)
    ensures Pending(log + [e], replies, entry, call, outcome, called)
  {
  }

  /** The pending call returns now. */
  lemma ReplyKeepsHistory<T>(log: seq<Entry<T>>, replies: seq<Reply<T>>, now: nat, entry: nat, call: Call<T>,
                             outcome: Outcome<T>, called: nat)
    requires LogTimes(log, now) && RepliesOk(log, replies) && Pending(log, replies, entry, call, outcome, called)
    ensures RepliesOk(log, replies + [Reply(entry, call, outcome, called, now)])
  {
    var r := Reply(entry, call, outcome, called, now);
    assert Explains(log, r);
    forall k | 0 <= k < |replies| + 1 ensures Explains(log, (replies + [r])[k]) {
      if k < |replies| {
        assert Explains(log, replies[k]);
      }
    }
  }

  /** The two threads' pending entries differ, one being a write and the other a read. */
  lemma PendingSurvivesReply<T>(log: seq<Entry<T>>, replies: seq<Reply<T>>, r: Reply<T>, entry: nat, call: Call<T>,
                                outcome: Outcome<T>, called: nat)
    requires Pending(log, replies, entry, call, outcome, called)
    requires r.entry < |log| && log[r.entry].call != call
    ensures Pending(log, replies + [r], entry, call, outcome, called)
  {
  }

  lemma LaterTimes<T>(log: seq<Entry<T>>, now: nat)
    requires LogTimes(log, now)
    ensures LogTimes(log, now + 1)
  {
  }

  // ---------------------------------------------------------------- what one step does to the ring

  /** While a snapshot sees `current_write >= current_read`, the size it computes is the true one. */
  lemma SnapshotExact<T>(s: State<T>)
    requires RingPart(s) && s.shared.writePos >= s.shared.readPos
    ensures Occupied(s.shared.writePos, s.shared.readPos) == |s.accepted| - s.consumed < CAPACITY
  {
    OccupiedOfTotals(|s.accepted|, s.consumed);
  }

  lemma DistinctSlots(k: nat, total: nat)
    requires k < total < k + CAPACITY
    ensures k % CAPACITY != Wrap32(total) % CAPACITY
  {
  }

  /** The slot the producer is about to fill holds no sample the consumer may still read, published or in flight. */
  lemma SlotIsFree<T>(s: State<T>, k: nat)
    requires RingPart(s) && s.producer.WriteCopying? && s.producer.copied < |s.producer.block|
    requires s.consumed <= k < |s.accepted| + s.producer.copied
    ensures |s.accepted| + s.producer.copied - s.consumed < CAPACITY - 1
    ensures k % CAPACITY != s.producer.cursor % CAPACITY
    ensures s.shared.buffer[k % CAPACITY] == (s.accepted + s.producer.block)[k]
  {
    DistinctSlots(k, |s.accepted| + s.producer.copied);
    assert (s.accepted + s.producer.block)[k] == (s.accepted + InFlight(s.producer))[k];
  }

  lemma CopyKeepsRing<T>(buffer: seq<T>, w: Uint32, r: Uint32, accepted: seq<T>, consumed: nat, flight: seq<T>,
                         cursor: Uint32, x: T)
    requires RingOk(buffer, w, r, accepted, consumed, flight)
    requires |accepted| + |flight| + 1 < consumed + CAPACITY && cursor == Wrap32(|accepted| + |flight|)
    ensures RingOk(buffer[cursor % CAPACITY := x], w, r, accepted, consumed, flight + [x])
  {
    var total := |accepted| + |flight|;
    MaskedTotal(total);
    var after := buffer[cursor % CAPACITY := x];
    forall k | consumed <= k < total + 1
      ensures after[k % CAPACITY] == (accepted + (flight + [x]))[k]
    {
      if k < total {
        DistinctSlots(k, total);
        assert (accepted + (flight + [x]))[k] == (accepted + flight)[k];
      }
    }
  }

  lemma PublishKeepsRing<T>(buffer: seq<T>, w: Uint32, r: Uint32, accepted: seq<T>, consumed: nat, block: seq<T>)
    requires RingOk(buffer, w, r, accepted, consumed, block)
    ensures RingOk(buffer, Wrap32(|accepted| + |block|), r, accepted + block, consumed, [])
  {
    assert accepted + block + [] == accepted + block;
  }

  lemma ReleaseKeepsRing<T>(buffer: seq<T>, w: Uint32, r: Uint32, accepted: seq<T>, consumed: nat, flight: seq<T>,
                            count: nat)
    requires RingOk(buffer, w, r, accepted, consumed, flight) && consumed + count <= |accepted|
    ensures RingOk(buffer, w, Wrap32(consumed + count), accepted, consumed + count, flight)
  {
  }

  // ---------------------------------------------------------------- every step keeps the ring

  lemma SnapReadPosKeepsRing<T>(s: State<T>)
    requires RingPart(s) && s.producer.WriteSnapped? && !SnapReadPos(s).wrapSeen
    ensures RingPart(SnapReadPos(s))
    ensures SnapReadPos(s).producer.WriteRefused? <==> |s.accepted| - s.consumed + |s.producer.block| >= CAPACITY
  {
    SnapshotExact(s);
  }

  lemma CopyTurnKeepsRing<T>(s: State<T>)
    requires RingPart(s) && s.producer.WriteCopying? && s.producer.copied < |s.producer.block|
    ensures RingPart(CopyOrPublish(s))
  {
    var WriteCopying(block, called, size, cursor, copied) := s.producer;
    var sh := s.shared;
    assert block[..copied] + [block[copied]] == block[..copied + 1];
    CopyKeepsRing(sh.buffer, sh.writePos, sh.readPos, s.accepted, s.consumed, block[..copied], cursor, block[copied]);
    WrapAdd(|s.accepted| + copied, 1);
  }

  lemma PublishTurnKeepsRing<T>(s: State<T>)
    requires RingPart(s) && s.producer.WriteCopying? && s.producer.copied == |s.producer.block|
    ensures RingPart(CopyOrPublish(s))
  {
    var block, sh := s.producer.block, s.shared;
    assert block[..|block|] == block;
    PublishKeepsRing(sh.buffer, sh.writePos, sh.readPos, s.accepted, s.consumed, block);
    PublishKeepsReader(s.consumer, s.accepted, s.consumed, sh.readPos, block);
  }

  lemma CopyOrPublishKeepsRing<T>(s: State<T>)
    requires RingPart(s) && s.producer.WriteCopying?
    ensures RingPart(CopyOrPublish(s))
  {
    if s.producer.copied < |s.producer.block| {
      CopyTurnKeepsRing(s);
    } else {
      PublishTurnKeepsRing(s);
    }
  }

  lemma PublishKeepsReader<T>(c: Consumer<T>, accepted: seq<T>, consumed: nat, r: Uint32, block: seq<T>)
    requires ReaderOk(c, accepted, consumed, r) && consumed <= |accepted|
    ensures ReaderOk(c, accepted + block, consumed, r)
  {
    if c.ReadCopying? {
      assert (accepted + block)[consumed..consumed + |c.data|] == accepted[consumed..consumed + |c.data|];
    }
  }

  lemma StatsKeepGauges<T>(sh: Shared<T>, stats: Stats)
    requires GaugesOk(sh.currentUsage, sh.samplesBuffered, sh.peakUsage) && StatsOk(stats)
    ensures var (sh', stats') := StatsStep(sh, stats);
            && GaugesOk(sh'.currentUsage, sh'.samplesBuffered, sh'.peakUsage) && StatsOk(stats')
            && sh' == sh.(currentUsage := sh'.currentUsage, samplesBuffered := sh'.samplesBuffered,
                          peakUsage := sh'.peakUsage)
  {
  }

  lemma ProducerKeepsRing<T>(s: State<T>)
    requires RingPart(s) && !ProducerNext(s).wrapSeen
    ensures RingPart(ProducerNext(s))
  {
    match s.producer
    case WriteSnapped(_, _, _) => SnapReadPosKeepsRing(s);
    case WriteCopying(_, _, _, _, _) => CopyOrPublishKeepsRing(s);
    case WriteStats(_, _, _, stats) => StatsKeepGauges(s.shared, stats);
    case _ =>
  }

  lemma SnapWritePosKeepsRing<T>(s: State<T>)
    requires RingPart(s) && s.consumer.ReadSnapped? && !SnapWritePos(s).wrapSeen
    ensures RingPart(SnapWritePos(s))
    ensures SnapWritePos(s).consumer.ReadRefused? <==> s.consumer.count > |s.accepted| - s.consumed
  {
    SnapshotExact(s);
  }

  lemma SlotHolds<T>(buffer: seq<T>, w: Uint32, r: Uint32, accepted: seq<T>, consumed: nat, flight: seq<T>, k: nat)
    requires RingOk(buffer, w, r, accepted, consumed, flight) && consumed <= k < |accepted|
    ensures buffer[Wrap32(k) % CAPACITY] == accepted[k]
  {
    MaskedTotal(k);
    assert (accepted + flight)[k] == accepted[k];
  }

  lemma FetchKeepsReader<T>(s: State<T>)
    requires RingPart(s) && s.consumer.ReadCopying? && |s.consumer.data| < s.consumer.count
    ensures RingPart(FetchOrRelease(s))
  {
    var ReadCopying(count, called, available, cursor, data) := s.consumer;
    var next := s.consumed + |data|;
    WrapAdd(next, 1);
    SlotHolds(s.shared.buffer, s.shared.writePos, s.shared.readPos, s.accepted, s.consumed, InFlight(s.producer), next);
    assert s.accepted[s.consumed..next] + [s.accepted[next]] == s.accepted[s.consumed..next + 1];
  }

  lemma ReleaseKeepsPart<T>(s: State<T>)
    requires RingPart(s) && s.consumer.ReadCopying? && |s.consumer.data| == s.consumer.count
    ensures RingPart(FetchOrRelease(s))
  {
    ReleaseKeepsRing(s.shared.buffer, s.shared.writePos, s.shared.readPos, s.accepted, s.consumed,
                     InFlight(s.producer), s.consumer.count);
  }

  lemma ConsumerKeepsRing<T>(s: State<T>)
    requires RingPart(s) && !ConsumerNext(s).wrapSeen
    ensures RingPart(ConsumerNext(s))
  {
    match s.consumer
    case ReadSnapped(_, _, _) => SnapWritePosKeepsRing(s);
    case ReadCopying(count, _, _, _, data) =>
      if |data| < count {
        FetchKeepsReader(s);
      } else {
        ReleaseKeepsPart(s);
      }
    case ReadStats(_, _, _, _, stats) => StatsKeepGauges(s.shared, stats);
    case _ =>
  }

  // ---------------------------------------------------------------- every step keeps the log a queue's

  lemma DropKeepsLog<T>(log: seq<Entry<T>>, accepted: seq<T>, consumed: nat, e: Entry<T>)
    requires LogOk(log, accepted, consumed)
    requires e.call.WriteCall? && e.outcome.Dropped? && |accepted| - consumed + |e.call.block| >= CAPACITY
    ensures LogOk(log + [e], accepted, consumed)
  {
    LogAppend(log, e);
  }

  lemma EnqueueKeepsLog<T>(log: seq<Entry<T>>, accepted: seq<T>, consumed: nat, e: Entry<T>)
    requires LogOk(log, accepted, consumed)
    requires e.call.WriteCall? && e.outcome.Enqueued? && |accepted| - consumed + |e.call.block| < CAPACITY
    ensures LogOk(log + [e], accepted + e.call.block, consumed)
  {
    LogAppend(log, e);
    assert (accepted + e.call.block)[consumed..] == accepted[consumed..] + e.call.block;
  }

  lemma StarveKeepsLog<T>(log: seq<Entry<T>>, accepted: seq<T>, consumed: nat, e: Entry<T>)
    requires LogOk(log, accepted, consumed)
    requires e.call.ReadCall? && e.outcome.Starved? && e.call.count > |accepted| - consumed
    ensures LogOk(log + [e], accepted, consumed)
  {
    LogAppend(log, e);
  }

  lemma DequeueKeepsLog<T>(log: seq<Entry<T>>, accepted: seq<T>, consumed: nat, e: Entry<T>)
    requires LogOk(log, accepted, consumed)
    requires e.call.ReadCall? && consumed + e.call.count <= |accepted|
    requires e.outcome == Dequeued(accepted[consumed..consumed + e.call.count])
    ensures LogOk(log + [e], accepted, consumed + e.call.count)
  {
    LogAppend(log, e);
    assert accepted[consumed..][..e.call.count] == e.outcome.samples;
    assert accepted[consumed..][e.call.count..] == accepted[consumed + e.call.count..];
  }

  /** A decision moves the block from the undecided call to the log. */
  lemma DecideKeepsWritten<T>(written: seq<seq<T>>, log: seq<Entry<T>>, p: Producer<T>, p': Producer<T>, e: Entry<T>)
    requires WrittenOk(written, log, p) && !p.WriterIdle? && !WriteDecided(p)
    requires e.call == WriteCall(p.block) && WriteDecided(p')
    ensures WrittenOk(written, log + [e], p')
  {
    LogAppend(log, e);
  }

  lemma SnapReadPosKeepsLog<T>(s: State<T>)
    requires RingPart(s) && LogPart(s) && s.producer.WriteSnapped? && !SnapReadPos(s).wrapSeen
    ensures LogPart(SnapReadPos(s))
  {
    SnapReadPosKeepsRing(s);
    if SnapReadPos(s).producer.WriteRefused? {
      var e := Entry(WriteCall(s.producer.block), Dropped, s.producer.called, s.now);
      DropKeepsLog(s.log, s.accepted, s.consumed, e);
      DecideKeepsWritten(s.written, s.log, s.producer, SnapReadPos(s).producer, e);
    }
  }

  lemma CopyOrPublishKeepsLog<T>(s: State<T>)
    requires RingPart(s) && LogPart(s) && s.producer.WriteCopying?
    ensures LogPart(CopyOrPublish(s))
  {
    if s.producer.copied == |s.producer.block| {
      var e := Entry(WriteCall(s.producer.block), Enqueued, s.producer.called, s.now);
      EnqueueKeepsLog(s.log, s.accepted, s.consumed, e);
      DecideKeepsWritten(s.written, s.log, s.producer, CopyOrPublish(s).producer, e);
    }
  }

  lemma ProducerKeepsLog<T>(s: State<T>)
    requires RingPart(s) && LogPart(s) && !ProducerNext(s).wrapSeen
    ensures LogPart(ProducerNext(s))
  {
    match s.producer
    case WriteSnapped(_, _, _) => SnapReadPosKeepsLog(s);
    case WriteCopying(_, _, _, _, _) => CopyOrPublishKeepsLog(s);
    case _ =>
  }

  lemma ReadKeepsWritten<T>(written: seq<seq<T>>, log: seq<Entry<T>>, p: Producer<T>, e: Entry<T>)
    requires WrittenOk(written, log, p) && e.call.ReadCall?
    ensures WrittenOk(written, log + [e], p)
  {
    LogAppend(log, e);
  }

  lemma SnapWritePosKeepsLog<T>(s: State<T>)
    requires RingPart(s) && LogPart(s) && s.consumer.ReadSnapped? && !SnapWritePos(s).wrapSeen
    ensures LogPart(SnapWritePos(s))
  {
    SnapWritePosKeepsRing(s);
    if SnapWritePos(s).consumer.ReadRefused? {
      var e := Entry(ReadCall(s.consumer.count), Starved, s.consumer.called, s.now);
      StarveKeepsLog(s.log, s.accepted, s.consumed, e);
      ReadKeepsWritten(s.written, s.log, s.producer, e);
    }
  }

  lemma FetchOrReleaseKeepsLog<T>(s: State<T>)
    requires RingPart(s) && LogPart(s) && s.consumer.ReadCopying?
    ensures LogPart(FetchOrRelease(s))
  {
    var ReadCopying(count, called, _, _, data) := s.consumer;
    if |data| == count {
      var e := Entry(ReadCall(count), Dequeued(data), called, s.now);
      DequeueKeepsLog(s.log, s.accepted, s.consumed, e);
      ReadKeepsWritten(s.written, s.log, s.producer, e);
    }
  }

  lemma ConsumerKeepsLog<T>(s: State<T>)
    requires RingPart(s) && LogPart(s) && !ConsumerNext(s).wrapSeen
    ensures LogPart(ConsumerNext(s))
  {
    match s.consumer
    case ReadSnapped(_, _, _) => SnapWritePosKeepsLog(s);
    case ReadCopying(_, _, _, _, _) => FetchOrReleaseKeepsLog(s);
    case _ =>
  }

  // ---------------------------------------------------------------- every step keeps the history explained

  /** The producer's operation takes effect: `s'` differs from `s` by one entry and the producer's state. */
  lemma WriterDecides<T>(s: State<T>, s': State<T>, e: Entry<T>)
    requires HistoryPart(s) && !s.producer.WriterIdle? && !WriteDecided(s.producer)
    requires e == Entry(WriteCall(s.producer.block), e.outcome, s.producer.called, s.now)
    requires s'.log == s.log + [e] && s'.replies == s.replies && s'.consumer == s.consumer && s'.now == s.now + 1
    requires WriteDecided(s'.producer) && WriteOutcome(s'.producer) == e.outcome && s'.producer.entry == |s.log|
    requires s'.producer.block == s.producer.block && s'.producer.called == s.producer.called
    ensures HistoryPart(s')
  {
    DecideKeepsHistory(s.log, s.replies, s.now, e);
    if ReadDecided(s.consumer) {
      PendingSurvivesDecision(s.log, s.replies, e, s.consumer.entry, ReadCall(s.consumer.count),
                              ReadOutcome(s.consumer), s.consumer.called);
    }
  }

  lemma ReaderDecides<T>(s: State<T>, s': State<T>, e: Entry<T>)
    requires HistoryPart(s) && !s.consumer.ReaderIdle? && !ReadDecided(s.consumer)
    requires e == Entry(ReadCall(s.consumer.count), e.outcome, s.consumer.called, s.now)
    requires s'.log == s.log + [e] && s'.replies == s.replies && s'.producer == s.producer && s'.now == s.now + 1
    requires ReadDecided(s'.consumer) && ReadOutcome(s'.consumer) == e.outcome && s'.consumer.entry == |s.log|
    requires s'.consumer.count == s.consumer.count && s'.consumer.called == s.consumer.called
    ensures HistoryPart(s')
  {
    DecideKeepsHistory(s.log, s.replies, s.now, e);
    if WriteDecided(s.producer) {
      PendingSurvivesDecision(s.log, s.replies, e, s.producer.entry, WriteCall(s.producer.block),
                              WriteOutcome(s.producer), s.producer.called);
    }
  }

  lemma WriterReplies<T>(s: State<T>)
    requires HistoryPart(s) && s.producer.WriteCounting? && |s.shared.buffer| == CAPACITY
    ensures HistoryPart(Tick(ProducerNext(s)))
  {
    var WriteCounting(block, called, entry, outcome) := s.producer;
    ReplyKeepsHistory(s.log, s.replies, s.now, entry, WriteCall(block), outcome, called);
    LaterTimes(s.log, s.now);
    if ReadDecided(s.consumer) {
      PendingSurvivesReply(s.log, s.replies, Reply(entry, WriteCall(block), outcome, called, s.now),
                           s.consumer.entry, ReadCall(s.consumer.count), ReadOutcome(s.consumer), s.consumer.called);
    }
  }

  lemma ReaderReplies<T>(s: State<T>)
    requires HistoryPart(s) && s.consumer.ReadStats? && s.consumer.stats.StatsDone? && |s.shared.buffer| == CAPACITY
    ensures HistoryPart(Tick(ConsumerNext(s)))
  {
    var ReadStats(count, called, entry, outcome, _) := s.consumer;
    ReplyKeepsHistory(s.log, s.replies, s.now, entry, ReadCall(count), outcome, called);
    LaterTimes(s.log, s.now);
    if WriteDecided(s.producer) {
      PendingSurvivesReply(s.log, s.replies, Reply(entry, ReadCall(count), outcome, called, s.now),
                           s.producer.entry, WriteCall(s.producer.block), WriteOutcome(s.producer), s.producer.called);
    }
  }

  lemma WriterSnapKeepsHistory<T>(s: State<T>)
    requires HistoryPart(s) && s.producer.WriteSnapped?
    ensures HistoryPart(Tick(SnapReadPos(s)))
  {
    LaterTimes(s.log, s.now);
    var s' := Tick(SnapReadPos(s));
    if s'.producer.WriteRefused? {
      WriterDecides(s, s', Entry(WriteCall(s.producer.block), Dropped, s.producer.called, s.now));
    }
  }

  lemma WriterCopyKeepsHistory<T>(s: State<T>)
    requires HistoryPart(s) && s.producer.WriteCopying? && |s.shared.buffer| == CAPACITY
    ensures HistoryPart(Tick(CopyOrPublish(s)))
  {
    LaterTimes(s.log, s.now);
    var s' := Tick(CopyOrPublish(s));
    if s'.producer.WriteStats? {
      WriterDecides(s, s', Entry(WriteCall(s.producer.block), Enqueued, s.producer.called, s.now));
    }
  }

  lemma ProducerKeepsHistory<T>(s: State<T>)
    requires HistoryPart(s) && |s.shared.buffer| == CAPACITY
    ensures HistoryPart(Tick(ProducerNext(s)))
  {
    match s.producer
    case WriterIdle => LaterTimes(s.log, s.now);
    case WriteCalled(_, _) => LaterTimes(s.log, s.now);
    case WriteSnapped(_, _, _) => WriterSnapKeepsHistory(s);
    case WriteRefused(_, _, _) => WriterCountsKeepHistory(s);
    case WriteCopying(_, _, _, _, _) => WriterCopyKeepsHistory(s);
    case WriteStats(_, _, _, _) => WriterCountsKeepHistory(s);
    case WriteCounting(_, _, _, _) => WriterReplies(s);
  }

  lemma WriterCountsKeepHistory<T>(s: State<T>)
    requires HistoryPart(s) && |s.shared.buffer| == CAPACITY && (s.producer.WriteRefused? || s.producer.WriteStats?)
    ensures HistoryPart(Tick(ProducerNext(s)))
  {
    LaterTimes(s.log, s.now);
  }

  lemma ReaderSnapKeepsHistory<T>(s: State<T>)
    requires HistoryPart(s) && s.consumer.ReadSnapped?
    ensures HistoryPart(Tick(SnapWritePos(s)))
  {
    LaterTimes(s.log, s.now);
    var s' := Tick(SnapWritePos(s));
    if s'.consumer.ReadRefused? {
      ReaderDecides(s, s', Entry(ReadCall(s.consumer.count), Starved, s.consumer.called, s.now));
    }
  }

  lemma ReaderFetchKeepsHistory<T>(s: State<T>)
    requires HistoryPart(s) && s.consumer.ReadCopying? && |s.shared.buffer| == CAPACITY
    ensures HistoryPart(Tick(FetchOrRelease(s)))
  {
    LaterTimes(s.log, s.now);
    var s' := Tick(FetchOrRelease(s));
    if s'.consumer.ReadStats? {
      ReaderDecides(s, s', Entry(ReadCall(s.consumer.count), Dequeued(s.consumer.data), s.consumer.called, s.now));
    }
  }

  lemma ConsumerKeepsHistory<T>(s: State<T>)
    requires HistoryPart(s) && |s.shared.buffer| == CAPACITY
    ensures HistoryPart(Tick(ConsumerNext(s)))
  {
    match s.consumer
    case ReaderIdle => LaterTimes(s.log, s.now);
    case ReadCalled(_, _) => LaterTimes(s.log, s.now);
    case ReadSnapped(_, _, _) => ReaderSnapKeepsHistory(s);
    case ReadRefused(_, _, _, _) => ReaderCountsKeepHistory(s);
    case ReadCopying(_, _, _, _, _) => ReaderFetchKeepsHistory(s);
    case ReadStats(_, _, _, _, stats) =>
      if stats.StatsDone? {
        ReaderReplies(s);
      } else {
        ReaderCountsKeepHistory(s);
      }
  }

  lemma ReaderCountsKeepHistory<T>(s: State<T>)
    requires HistoryPart(s) && |s.shared.buffer| == CAPACITY
    requires s.consumer.ReadRefused? || (s.consumer.ReadStats? && !s.consumer.stats.StatsDone?)
    ensures HistoryPart(Tick(ConsumerNext(s)))
  {
    LaterTimes(s.log, s.now);
  }

  // ---------------------------------------------------------------- whole runs

  lemma CallKeepsHistory<T>(s: State<T>, a: Action<T>)
    requires HistoryPart(s) && |s.shared.buffer| == CAPACITY && (a.CallWrite? || a.CallRead?)
    ensures HistoryPart(Step(s, a))
  {
    LaterTimes(s.log, s.now);
  }

  lemma CallWriteKeepsGood<T>(s: State<T>, block: seq<T>)
    requires RingPart(s) && LogPart(s)
    ensures RingPart(Step(s, CallWrite(block))) && LogPart(Step(s, CallWrite(block)))
  {
    var s' := Step(s, CallWrite(block));
    assert InFlight(s'.producer) == InFlight(s.producer) && s'.shared == s.shared && s'.consumer == s.consumer;
    assert s'.log == s.log && s'.accepted == s.accepted;
  }

  lemma CallReadKeepsGood<T>(s: State<T>, count: Uint32)
    requires RingPart(s) && LogPart(s)
    ensures RingPart(Step(s, CallRead(count))) && LogPart(Step(s, CallRead(count)))
  {
    var s' := Step(s, CallRead(count));
    assert s'.producer == s.producer && s'.shared == s.shared && s'.log == s.log && s'.accepted == s.accepted;
  }

  lemma StepKeepsGood<T>(s: State<T>, a: Action<T>)
    requires Good(s) && !Step(s, a).wrapSeen
    ensures Good(Step(s, a))
  {
    match a
    case CallWrite(block) =>
      CallWriteKeepsGood(s, block);
      CallKeepsHistory(s, a);
    case ProducerStep =>
      ProducerKeepsRing(s);
      ProducerKeepsLog(s);
      ProducerKeepsHistory(s);
    case CallRead(count) =>
      CallReadKeepsGood(s, count);
      CallKeepsHistory(s, a);
    case ConsumerStep =>
      ConsumerKeepsRing(s);
      ConsumerKeepsLog(s);
      ConsumerKeepsHistory(s);
  }

  lemma StepOnlyGrows<T>(s: State<T>, a: Action<T>)
    requires |s.shared.buffer| == CAPACITY
    ensures s.wrapSeen ==> Step(s, a).wrapSeen
    ensures s.accepted <= Step(s, a).accepted
  {
  }

  /** Every run in which no snapshot takes the `current_write < current_read` branch stays good. */
  lemma {:induction false} RunIsGood<T>(zero: T, actions: seq<Action<T>>)
    requires !Run(zero, actions).wrapSeen
    ensures Good(Run(zero, actions))
  {
    if actions != [] {
      var before := Run(zero, actions[..|actions| - 1]);
      StepOnlyGrows(before, actions[|actions| - 1]);
      RunIsGood(zero, actions[..|actions| - 1]);
      StepKeepsGood(before, actions[|actions| - 1]);
    }
  }

  lemma StepBeforeWrap<T>(s: State<T>, a: Action<T>)
    requires RingPart(s) && |s.accepted| < U32_SIZE && !s.wrapSeen
    ensures !Step(s, a).wrapSeen
  {
    assert s.shared.writePos == |s.accepted| && s.shared.readPos == s.consumed;
  }

  /** Before 2^32 samples have been accepted no snapshot takes that branch. */
  lemma {:induction false} ShortRunNeverWraps<T>(zero: T, actions: seq<Action<T>>)
    requires |Run(zero, actions).accepted| < U32_SIZE
    ensures !Run(zero, actions).wrapSeen
  {
    if actions != [] {
      var before, a := Run(zero, actions[..|actions| - 1]), actions[|actions| - 1];
      StepOnlyGrows(before, a);
      ShortRunNeverWraps(zero, actions[..|actions| - 1]);
      RunIsGood(zero, actions[..|actions| - 1]);
      StepBeforeWrap(before, a);
    }
  }

  lemma ShortRunParts<T>(zero: T, actions: seq<Action<T>>)
    requires |Run(zero, actions).accepted| < U32_SIZE
    ensures var s := Run(zero, actions); RingPart(s) && LogPart(s)
  {
    ShortRunNeverWraps(zero, actions);
    RunIsGood(zero, actions);
  }

  /** In-flight slot safety: at every step of every interleaving, before 2^32 samples have been accepted, the producer's
      cursor is at most 4095 past the published read position, and the slot it is about to fill holds none of the
      samples from there on, all of which still lie in their own slots. */
  lemma SlotSafety<T>(zero: T, actions: seq<Action<T>>, s: State<T>)
    requires s == Run(zero, actions) && |s.accepted| < U32_SIZE
    requires s.producer.WriteCopying? && s.producer.copied < |s.producer.block|
    ensures s.producer.cursor == Wrap32(|s.accepted| + s.producer.copied) && s.shared.readPos == Wrap32(s.consumed)
    ensures |s.accepted| + s.producer.copied - s.consumed < CAPACITY - 1
    ensures forall k :: s.consumed <= k < |s.accepted| + s.producer.copied ==>
      && k % CAPACITY != s.producer.cursor % CAPACITY
      && s.shared.buffer[k % CAPACITY] == (s.accepted + s.producer.block)[k]
  {
    ShortRunParts(zero, actions);
    forall k | s.consumed <= k < |s.accepted| + s.producer.copied
      ensures k % CAPACITY != s.producer.cursor % CAPACITY
      ensures s.shared.buffer[k % CAPACITY] == (s.accepted + s.producer.block)[k]
    {
      SlotIsFree(s, k);
    }
  }

  /** Linearizability: under every interleaving of one producer and one consumer, with fewer than 2^32 accepted
      samples, the log is a legal history of an all-or-nothing queue of capacity 4095 that explains every return,
      and nothing is in the log but returned calls and at most one decided call per thread. */
  lemma RunIsLinearizable<T(!new)>(zero: T, actions: seq<Action<T>>)
    requires |Run(zero, actions).accepted| < U32_SIZE
    ensures var s := Run(zero, actions);
            && Linearizes(s.log, s.replies)
            && |s.replies| <= |s.log| <= |s.replies| + 2
            && (s.producer.WriterIdle? && s.consumer.ReaderIdle? ==> |s.log| == |s.replies|)
  {
    ShortRunNeverWraps(zero, actions);
    RunIsGood(zero, actions);
  }
}
