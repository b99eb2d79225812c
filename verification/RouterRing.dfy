/** The router's ring buffer (src/audio_router.c): its arithmetic on free-running 32-bit positions, what one
    undisturbed call does, and the two IO callbacks as an imperative class proved against that specification. */
module RouterRing {
  import opened Words

  const CAPACITY: nat := 4096 // ROUTER_BUFFER_FRAME_COUNT * ROUTER_MAX_CHANNELS
  const CHANNELS: nat := 2

  /** The fields the two IO threads share: the ring, its statistics and the router's counters. */
  datatype Shared<T> = Shared(
    buffer: seq<T>,
    writePos: Uint32,
    readPos: Uint32,
    currentUsage: Uint32,
    samplesBuffered: Uint32,
    peakUsage: Uint32,
    overruns: Uint32,
    underruns: Uint32,
    frames: Uint64)

  /** A block an IO callback can be handed: whole stereo frames whose byte size is a 32-bit number. */
  predicate ValidCount(samples: nat) {
    samples % CHANNELS == 0 && 4 * samples < 0x1_0000_0000
  }

  function Initial<T>(zero: T): Shared<T> {
    Shared(seq(CAPACITY, _ => zero), 0, 0, 0, 0, 0, 0, 0, 0)
  }

  // ---------------------------------------------------------------- position arithmetic

  /** The number of samples the code believes the ring holds. */
  function Occupied(w: Uint32, r: Uint32): Uint32 {
    if w >= r then w - r else Wrap32(Wrap32(CAPACITY - r) + w)
  }

  /** The writer keeps one slot free. */
  function FreeSpace(size: Uint32): Uint32 {
    Wrap32(CAPACITY - 1 - size)
  }

  predicate Accepts(w: Uint32, r: Uint32, count: Uint32) {
    FreeSpace(Occupied(w, r)) >= count
  }

  predicate Supplies(w: Uint32, r: Uint32, count: Uint32) {
    Occupied(w, r) >= count
  }

  /** For true totals `written` and `read`, the code's size is exact while both positions lie in the same
      2^32 window, and exactly one capacity too large once only the write position has wrapped. */
  lemma OccupiedOfTotals(written: nat, read: nat)
    requires read <= written < read + CAPACITY
    ensures Occupied(Wrap32(written), Wrap32(read)) ==
            if written / U32_SIZE == read / U32_SIZE then written - read else written - read + CAPACITY
    ensures Wrap32(written) >= Wrap32(read) <==> written / U32_SIZE == read / U32_SIZE
  {
    if written / U32_SIZE != read / U32_SIZE {
      assert written / U32_SIZE == read / U32_SIZE + 1;
    }
  }

  /** Once only the write position has wrapped, the overrun test lets every block pass, and the underrun test hands out
      one whole capacity more than there is. */
  lemma WrappedTests(written: nat, read: nat, n: Uint32)
    requires read <= written < read + CAPACITY && Wrap32(written) < Wrap32(read)
    ensures ValidCount(n) ==> Accepts(Wrap32(written), Wrap32(read), n)
    ensures Supplies(Wrap32(written), Wrap32(read), n) <==> n <= written - read + CAPACITY
  {
    OccupiedOfTotals(written, read);
  }

  lemma UnwrappedTests(written: nat, read: nat, n: Uint32)
    requires read <= written < read + CAPACITY && Wrap32(written) >= Wrap32(read)
    ensures Accepts(Wrap32(written), Wrap32(read), n) <==> written - read + n < CAPACITY
    ensures Supplies(Wrap32(written), Wrap32(read), n) <==> n <= written - read
  {
    OccupiedOfTotals(written, read);
  }

  /** The overrun test tells for every block a callback can hand over whether it fits. */
  ghost predicate OverrunTestExact(w: Uint32, r: Uint32, backlog: nat) {
    forall n: Uint32 :: ValidCount(n) ==> (Accepts(w, r, n) <==> backlog + n < CAPACITY)
  }

  /** The underrun test tells for every block a callback can ask for whether there are as many samples. */
  ghost predicate UnderrunTestExact(w: Uint32, r: Uint32, backlog: nat) {
    forall n: Uint32 :: ValidCount(n) ==> (Supplies(w, r, n) <==> n <= backlog)
  }

  lemma EvenBlocks(backlog: nat)
    requires backlog < CAPACITY && backlog % CHANNELS == 0
    ensures ValidCount(CAPACITY - backlog) && ValidCount(backlog + CHANNELS)
  {
  }

  /** The overrun test is exact if and only if `current_write >= current_read`: once only the write position has wrapped
      it no longer protects unread samples. */
  lemma OverrunTestExactIff(written: nat, read: nat, backlog: nat)
    requires written - read == backlog < CAPACITY && backlog % CHANNELS == 0
    ensures OverrunTestExact(Wrap32(written), Wrap32(read), backlog) <==> Wrap32(written) >= Wrap32(read)
  {
    if Wrap32(written) >= Wrap32(read) {
      forall n: Uint32 | ValidCount(n)
        ensures Accepts(Wrap32(written), Wrap32(read), n) <==> backlog + n < CAPACITY
      {
        UnwrappedTests(written, read, n);
      }
    } else {
      EvenBlocks(backlog);
      WrappedTests(written, read, CAPACITY - backlog);
    }
  }

  /** The underrun test, likewise: with only the write position wrapped it hands out samples that were never written. */
  lemma UnderrunTestExactIff(written: nat, read: nat, backlog: nat)
    requires written - read == backlog < CAPACITY && backlog % CHANNELS == 0
    ensures UnderrunTestExact(Wrap32(written), Wrap32(read), backlog) <==> Wrap32(written) >= Wrap32(read)
  {
    if Wrap32(written) >= Wrap32(read) {
      forall n: Uint32 | ValidCount(n) ensures Supplies(Wrap32(written), Wrap32(read), n) <==> n <= backlog {
        UnwrappedTests(written, read, n);
      }
    } else {
      EvenBlocks(backlog);
      WrappedTests(written, read, backlog + CHANNELS);
    }
  }

  /** Masking a wrapped position picks the slot its unwrapped total picks: 2^32 is a multiple of the capacity. */
  lemma MaskedTotal(total: nat)
    ensures Wrap32(total) % CAPACITY == total % CAPACITY
  {
  }

  // ---------------------------------------------------------------- one undisturbed call

  /** The buffer after the producer's copy loop. */
  function CopyIn<T>(buffer: seq<T>, pos: nat, data: seq<T>): (after: seq<T>)
    requires |buffer| == CAPACITY
    ensures |after| == CAPACITY
  {
    if data == [] then buffer
    else
      var last := |data| - 1;
      CopyIn(buffer, pos, data[..last])[(pos + last) % CAPACITY := data[last]]
  }

  lemma CopyInNext<T>(buffer: seq<T>, pos: nat, data: seq<T>)
    requires |buffer| == CAPACITY && data != []
    ensures var last := |data| - 1;
            CopyIn(buffer, pos, data) == CopyIn(buffer, pos, data[..last])[(pos + last) % CAPACITY := data[last]]
  {
  }

  /** What the consumer's copy loop reads. */
  function CopyOut<T>(buffer: seq<T>, pos: nat, count: nat): (data: seq<T>)
    requires |buffer| == CAPACITY
  {
    seq(count, i requires 0 <= i < count => buffer[(pos + i) % CAPACITY])
  }

  function UsagePercent(buffered: Uint32): Uint32 {
    Wrap32(buffered * 100) / CAPACITY
  }

  function UpdatedStats<T>(s: Shared<T>, buffered: Uint32): Shared<T> {
    var usage := UsagePercent(buffered);
    s.(currentUsage := usage, samplesBuffered := buffered,
       peakUsage := if usage > s.peakUsage then usage else s.peakUsage)
  }

  /** rb_write, run without interruption. */
  function Written<T>(s: Shared<T>, data: seq<T>): Shared<T>
    requires |s.buffer| == CAPACITY && |data| < U32_SIZE
  {
    if Accepts(s.writePos, s.readPos, |data|) then
      UpdatedStats(
        s.(buffer := CopyIn(s.buffer, s.writePos, data), writePos := Wrap32(s.writePos + |data|)),
        Wrap32(Occupied(s.writePos, s.readPos) + |data|))
    else
      s.(overruns := Wrap32(s.overruns + 1))
  }

  /** rb_read, run without interruption: the new state, and the samples unless it starves. */
  function Read<T>(s: Shared<T>, count: Uint32): (r: (Shared<T>, Option<seq<T>>))
    requires |s.buffer| == CAPACITY
    ensures r.1.Some? ==> |r.1.value| == count
  {
    var available := Occupied(s.writePos, s.readPos);
    if available < count then
      (UpdatedStats(s.(underruns := Wrap32(s.underruns + 1)), available), None)
    else
      (UpdatedStats(s.(readPos := Wrap32(s.readPos + count)), available - count),
       Some(CopyOut(s.buffer, s.readPos, count)))
  }

  /** input_callback on a block of whole frames. */
  function InputDone<T>(s: Shared<T>, block: seq<T>): Shared<T>
    requires |s.buffer| == CAPACITY && |block| < U32_SIZE
  {
    var after := Written(s, block);
    after.(frames := Wrap64(after.frames + |block| / CHANNELS))
  }

  // ---------------------------------------------------------------- the ring is a queue

  /** The samples a reader may still take, given how many it has taken in all. */
  ghost predicate Holds<T>(s: Shared<T>, accepted: seq<T>, consumed: nat) {
    && |s.buffer| == CAPACITY
    && consumed <= |accepted| < consumed + CAPACITY
    && s.writePos == Wrap32(|accepted|)
    && s.readPos == Wrap32(consumed)
    && forall k :: consumed <= k < |accepted| ==> s.buffer[k % CAPACITY] == accepted[k]
  }

  /** Copying a block that fits keeps every unread sample and lays the block down after them. */
  lemma {:induction false} CopyInKeepsUnread<T>(buffer: seq<T>, accepted: seq<T>, consumed: nat, data: seq<T>)
    requires |buffer| == CAPACITY
    requires consumed <= |accepted| && |accepted| + |data| < consumed + CAPACITY
    requires forall k :: consumed <= k < |accepted| ==> buffer[k % CAPACITY] == accepted[k]
    ensures forall k :: consumed <= k < |accepted| + |data| ==>
      CopyIn(buffer, |accepted|, data)[k % CAPACITY] == (accepted + data)[k]
  {
    if data != [] {
      var last := |data| - 1;
      CopyInKeepsUnread(buffer, accepted, consumed, data[..last]);
      assert data == data[..last] + [data[last]];
      forall k | consumed <= k < |accepted| + |data|
        ensures CopyIn(buffer, |accepted|, data)[k % CAPACITY] == (accepted + data)[k]
      {
        if k < |accepted| + last {
          OtherSlot(k, |accepted| + last);
          assert (accepted + data[..last])[k] == (accepted + data)[k];
        }
      }
    }
  }

  lemma SlotShift(pos: nat, pos': nat, i: nat)
    requires pos % CAPACITY == pos' % CAPACITY
    ensures (pos + i) % CAPACITY == (pos' + i) % CAPACITY
  {
    assert pos - pos' == CAPACITY * (pos / CAPACITY - pos' / CAPACITY);
  }

  lemma {:induction false} CopyInSlots<T>(buffer: seq<T>, pos: nat, pos': nat, data: seq<T>)
    requires |buffer| == CAPACITY && pos % CAPACITY == pos' % CAPACITY
    ensures CopyIn(buffer, pos, data) == CopyIn(buffer, pos', data)
  {
    if data != [] {
      var last := |data| - 1;
      CopyInSlots(buffer, pos, pos', data[..last]);
      SlotShift(pos, pos', last);
    }
  }

  /** A block that fits and is accepted joins the unread samples. */
  lemma AcceptedIsEnqueued<T>(s: Shared<T>, accepted: seq<T>, consumed: nat, data: seq<T>)
    requires Holds(s, accepted, consumed) && |data| < U32_SIZE && |accepted| - consumed + |data| < CAPACITY
    requires Accepts(s.writePos, s.readPos, |data|)
    ensures Holds(Written(s, data), accepted + data, consumed)
  {
    AcceptedBuffer(s, data);
    AcceptedPositions(s, data);
    MaskedTotal(|accepted|);
    CopyInSlots(s.buffer, s.writePos, |accepted|, data);
    CopyInKeepsUnread(s.buffer, accepted, consumed, data);
    WrapAdd(|accepted|, |data|);
  }

  lemma AcceptedBuffer<T>(s: Shared<T>, data: seq<T>)
    requires |s.buffer| == CAPACITY && |data| < U32_SIZE && Accepts(s.writePos, s.readPos, |data|)
    ensures Written(s, data).buffer == CopyIn(s.buffer, s.writePos, data)
  {
  }

  lemma AcceptedPositions<T>(s: Shared<T>, data: seq<T>)
    requires |s.buffer| == CAPACITY && |data| < U32_SIZE && Accepts(s.writePos, s.readPos, |data|)
    ensures Written(s, data).writePos == Wrap32(s.writePos + |data|) && Written(s, data).readPos == s.readPos
  {
  }

  /** While `current_write >= current_read`, an undisturbed rb_write enqueues the whole block exactly when
      it fits beside the unread samples with one slot to spare, and otherwise changes only the overrun count. */
  lemma WriteIsEnqueue<T>(s: Shared<T>, accepted: seq<T>, consumed: nat, data: seq<T>)
    requires Holds(s, accepted, consumed) && |data| < U32_SIZE && s.writePos >= s.readPos
    ensures |accepted| - consumed + |data| < CAPACITY ==> Holds(Written(s, data), accepted + data, consumed)
    ensures |accepted| - consumed + |data| >= CAPACITY ==> Written(s, data) == s.(overruns := Wrap32(s.overruns + 1))
  {
    UnwrappedTests(|accepted|, consumed, |data|);
    if |accepted| - consumed + |data| < CAPACITY {
      AcceptedIsEnqueued(s, accepted, consumed, data);
    }
  }

  lemma WrapAdd(total: nat, n: nat)
    ensures Wrap32(Wrap32(total) + n) == Wrap32(total + n)
  {
  }

  /** While `current_write >= current_read`, an undisturbed rb_read dequeues the oldest `count` samples exactly
      when the ring holds that many, and otherwise leaves the ring as it is. */
  lemma ReadIsDequeue<T>(s: Shared<T>, accepted: seq<T>, consumed: nat, count: Uint32)
    requires Holds(s, accepted, consumed) && s.writePos >= s.readPos
    ensures count <= |accepted| - consumed ==>
      && Read(s, count).1 == Some(accepted[consumed..consumed + count])
      && Holds(Read(s, count).0, accepted, consumed + count)
    ensures count > |accepted| - consumed ==>
      Read(s, count).1 == None && Holds(Read(s, count).0, accepted, consumed)
  {
    OccupiedOfTotals(|accepted|, consumed);
    if count <= |accepted| - consumed {
      var out := CopyOut(s.buffer, s.readPos, count);
      forall i | 0 <= i < count ensures out[i] == accepted[consumed..consumed + count][i] {
        MaskedTotal(consumed);
        SlotShift(s.readPos, consumed, i);
      }
      assert out == accepted[consumed..consumed + count];
      WrapAdd(consumed, count);
    }
  }

  /** The statistics tell how many samples are unread, and what percentage of the capacity that is, rounded down; the
      peak rises with it. */
  ghost predicate Reports<T>(before: Shared<T>, after: Shared<T>, unread: nat) {
    && after.samplesBuffered == unread
    && CAPACITY * after.currentUsage <= 100 * unread < CAPACITY * (after.currentUsage + 1)
    && after.peakUsage == if before.peakUsage < after.currentUsage then after.currentUsage else before.peakUsage
  }

  lemma StatsReport<T>(s: Shared<T>, buffered: Uint32)
    requires buffered < CAPACITY
    ensures Reports(s, UpdatedStats(s, buffered), buffered)
  {
  }

  /** While `current_write >= current_read`, an undisturbed write that is accepted reports what is unread after it, and
      counts no error. */
  lemma WriteReports<T>(s: Shared<T>, accepted: seq<T>, consumed: nat, data: seq<T>)
    requires Holds(s, accepted, consumed) && s.writePos >= s.readPos && |accepted| - consumed + |data| < CAPACITY
    ensures var after := Written(s, data);
            && Reports(s, after, |accepted| + |data| - consumed)
            && after.overruns == s.overruns && after.underruns == s.underruns && after.frames == s.frames
  {
    OccupiedOfTotals(|accepted|, consumed);
    AcceptedReports(s, data, |accepted| - consumed);
  }

  lemma AcceptedReports<T>(s: Shared<T>, data: seq<T>, size: nat)
    requires |s.buffer| == CAPACITY && Occupied(s.writePos, s.readPos) == size && size + |data| < CAPACITY
    ensures var after := Written(s, data);
            && Reports(s, after, size + |data|)
            && after.overruns == s.overruns && after.underruns == s.underruns && after.frames == s.frames
  {
    assert FreeSpace(size) == CAPACITY - 1 - size;
    var after, stats := Written(s, data), UpdatedStats(s, size + |data|);
    assert after.samplesBuffered == stats.samplesBuffered && after.currentUsage == stats.currentUsage;
    assert after.peakUsage == stats.peakUsage;
    StatsReport(s, size + |data|);
  }

  /** So does an undisturbed read, which counts an underrun exactly when it starves. */
  lemma ReadReports<T>(s: Shared<T>, accepted: seq<T>, consumed: nat, count: Uint32)
    requires Holds(s, accepted, consumed) && s.writePos >= s.readPos
    ensures var after := Read(s, count).0;
            && (if count <= |accepted| - consumed
                then Reports(s, after, |accepted| - consumed - count) && after.underruns == s.underruns
                else Reports(s, after, |accepted| - consumed) && after.underruns == Wrap32(s.underruns + 1))
            && after.overruns == s.overruns && after.frames == s.frames
  {
    OccupiedOfTotals(|accepted|, consumed);
    if count <= |accepted| - consumed {
      StatsReport(s, |accepted| - consumed - count);
    } else {
      StatsReport(s, |accepted| - consumed);
    }
  }

  /** With only the write position wrapped, a full-capacity block is accepted although samples are unread, and
      it overwrites the oldest of them: exactly what the overrun test exists to prevent. */
  lemma WrappedWriteLosesUnread<T>(s: Shared<T>, accepted: seq<T>, consumed: nat, data: seq<T>)
    requires Holds(s, accepted, consumed) && consumed < |accepted|
    requires |data| == CAPACITY && s.writePos < s.readPos
    requires forall x :: x in data ==> x != accepted[consumed]
    ensures Written(s, data).writePos == Wrap32(|accepted| + CAPACITY)
    ensures Written(s, data).buffer[consumed % CAPACITY] != accepted[consumed]
  {
    OccupiedOfTotals(|accepted|, consumed);
    assert FreeSpace(Occupied(s.writePos, s.readPos)) >= CAPACITY;
    var slot := SlotOffset(s.writePos, consumed);
    CopyInLast(s.buffer, s.writePos, data, slot);
    WrapAdd(|accepted|, CAPACITY);
    assert data[slot] in data;
  }

  /** How far past `pos` the slot of `target` lies. */
  function SlotOffset(pos: nat, target: nat): (slot: nat)
    ensures slot < CAPACITY && (pos + slot) % CAPACITY == target % CAPACITY
  {
    (target - pos) % CAPACITY
  }

  /** A copy of at most one capacity leaves each of its samples in the slot it was put in. */
  lemma {:induction false} CopyInLast<T>(buffer: seq<T>, pos: nat, data: seq<T>, i: nat)
    requires |buffer| == CAPACITY && i < |data| <= CAPACITY
    ensures CopyIn(buffer, pos, data)[(pos + i) % CAPACITY] == data[i]
  {
    var last := |data| - 1;
    CopyInNext(buffer, pos, data);
    if i < last {
      CopyInLast(buffer, pos, data[..last], i);
      OtherSlot(pos + i, pos + last);
    }
  }

  lemma OtherSlot(a: nat, b: nat)
    requires a < b < a + CAPACITY
    ensures a % CAPACITY != b % CAPACITY
  {
  }

  /** Whole frames of a byte count: no 32-bit product overflows. */
  lemma WholeFrames(byteSize: Uint32)
    ensures var frames := byteSize / (4 * CHANNELS);
            && frames * CHANNELS == byteSize / 8 * 2 == Wrap32(frames * CHANNELS)
            && 4 * (frames * CHANNELS) <= byteSize
            && frames * CHANNELS / CHANNELS == frames
  {
  }

  // ---------------------------------------------------------------- the code

  /** AudioRouterContext with its RouterRingBuffer, and the functions that update them in place. */
  class AudioRouter {
    const buffer: array<real>
    var writePos: Uint32
    var readPos: Uint32
    var currentUsage: Uint32
    var samplesBuffered: Uint32
    var peakUsage: Uint32
    var overrunCount: Uint32
    var underrunCount: Uint32
    var framesTransferred: Uint64
    var isRunning: bool
    var outputGain: real

    ghost predicate Valid() reads this {
      buffer.Length == CAPACITY
    }

    ghost function State(): Shared<real>
      reads this, buffer
      requires Valid()
    {
      Shared(buffer[..], writePos, readPos, currentUsage, samplesBuffered, peakUsage, overrunCount, underrunCount,
             framesTransferred)
    }

    /** rb_init and the counter resets of audio_router_start, allocation succeeding. */
    constructor ()
      ensures Valid() && fresh(buffer) && State() == Initial(0.0)
      ensures !isRunning && outputGain == 1.0
    {
      buffer := new real[CAPACITY](_ => 0.0);
      writePos, readPos := 0, 0;
      currentUsage, samplesBuffered, peakUsage := 0, 0, 0;
      overrunCount, underrunCount, framesTransferred := 0, 0, 0;
      isRunning, outputGain := false, 1.0;
      new;
      assert buffer[..] == Initial(0.0).buffer;
    }

    method UpdateStats(buffered: Uint32)
      requires Valid()
      modifies this`currentUsage, this`samplesBuffered, this`peakUsage
      ensures State() == UpdatedStats(old(State()), buffered)
    {
      var usage := Wrap32(buffered * 100) / CAPACITY;
      currentUsage := usage;
      samplesBuffered := buffered;
      var peak := peakUsage;
      if usage > peak {
        peakUsage := usage;
      }
    }

    /** The producer's copy loop. */
    method StoreBlock(data: array<real>, count: Uint32) returns (cursor: Uint32)
      requires Valid() && data != buffer && count <= data.Length
      modifies buffer
      ensures buffer[..] == CopyIn(old(buffer[..]), writePos, data[..count])
      ensures cursor == Wrap32(writePos + count)
    {
      cursor := writePos;
      var i := 0;
      while i < count
        invariant 0 <= i <= count
        invariant cursor == Wrap32(writePos + i)
        invariant buffer[..] == CopyIn(old(buffer[..]), writePos, data[..i])
      {
        MaskedTotal(writePos + i);
        WrapAdd(writePos + i, 1);
        CopyInNext(old(buffer[..]), writePos, data[..i + 1]);
        assert data[..i + 1][..i] == data[..i];
        buffer[cursor % CAPACITY] := data[i];
        cursor := Wrap32(cursor + 1);
        i := i + 1;
      }
    }

    /** The consumer's copy loop. */
    method LoadBlock(data: array<real>, count: Uint32) returns (cursor: Uint32)
      requires Valid() && data != buffer && count <= data.Length
      modifies data
      ensures data[..] == CopyOut(buffer[..], readPos, count) + old(data[count..])
      ensures cursor == Wrap32(readPos + count)
    {
      cursor := readPos;
      var i := 0;
      while i < count
        invariant 0 <= i <= count
        invariant cursor == Wrap32(readPos + i)
        invariant forall k :: 0 <= k < i ==> data[k] == buffer[(readPos + k) % CAPACITY]
        invariant forall k :: i <= k < data.Length ==> data[k] == old(data[k])
      {
        MaskedTotal(readPos + i);
        WrapAdd(readPos + i, 1);
        data[i] := buffer[cursor % CAPACITY];
        cursor := Wrap32(cursor + 1);
        i := i + 1;
      }
    }

    method RbWrite(data: array<real>, frameCount: Uint32, channels: Uint32)
      requires Valid() && data != buffer && Wrap32(frameCount * channels) <= data.Length
      modifies this`writePos, this`currentUsage, this`samplesBuffered, this`peakUsage, this`overrunCount, buffer
      ensures State() == Written(old(State()), data[..Wrap32(frameCount * channels)])
    {
      WriteSamples(data, Wrap32(frameCount * channels));
    }

    method WriteSamples(data: array<real>, count: Uint32)
      requires Valid() && data != buffer && count <= data.Length
      modifies this`writePos, this`currentUsage, this`samplesBuffered, this`peakUsage, this`overrunCount, buffer
      ensures State() == Written(old(State()), data[..count])
    {
      var currentWrite, currentRead := writePos, readPos;
      var size := if currentWrite >= currentRead then currentWrite - currentRead
                  else Wrap32(Wrap32(CAPACITY - currentRead) + currentWrite);
      assert size == Occupied(writePos, readPos);
      var freeSpace := Wrap32(CAPACITY - 1 - size);
      if freeSpace < count {
        overrunCount := Wrap32(overrunCount + 1);
        return;
      }
      currentWrite := StoreBlock(data, count);
      writePos := currentWrite;
      UpdateStats(Wrap32(size + count));
    }

    /** On starvation the caller's block is silenced; otherwise it receives the samples read. */
    method RbRead(data: array<real>, frameCount: Uint32, channels: Uint32)
      requires Valid() && data != buffer && Wrap32(frameCount * channels) <= data.Length
      modifies this`readPos, this`currentUsage, this`samplesBuffered, this`peakUsage, this`underrunCount, data
      ensures var count := Wrap32(frameCount * channels);
              var (after, out) := Read(old(State()), count);
              && State() == after
              && (forall k :: 0 <= k < count ==> data[k] == if out.Some? then out.value[k] else 0.0)
              && data[count..] == old(data[count..])
    {
      ReadSamples(data, Wrap32(frameCount * channels));
    }

    method ReadSamples(data: array<real>, count: Uint32)
      requires Valid() && data != buffer && count <= data.Length
      modifies this`readPos, this`currentUsage, this`samplesBuffered, this`peakUsage, this`underrunCount, data
      ensures var (after, out) := Read(old(State()), count);
              && State() == after
              && (forall k :: 0 <= k < count ==> data[k] == if out.Some? then out.value[k] else 0.0)
              && data[count..] == old(data[count..])
    {
      var currentRead, currentWrite := readPos, writePos;
      var available := if currentWrite >= currentRead then currentWrite - currentRead
                       else Wrap32(Wrap32(CAPACITY - currentRead) + currentWrite);
      assert available == Occupied(writePos, readPos);
      if available < count {
        underrunCount := Wrap32(underrunCount + 1);
        Silence(data, count);
        UpdateStats(available);
        return;
      }
      currentRead := LoadBlock(data, count);
      readPos := currentRead;
      UpdateStats(available - count);
    }

    /** memset to zero. */
    method Silence(data: array<real>, count: nat)
      requires count <= data.Length
      modifies data
      ensures (forall k :: 0 <= k < count ==> data[k] == 0.0) && data[count..] == old(data[count..])
    {
      forall k | 0 <= k < count {
        data[k] := 0.0;
      }
    }

    method InputCallback(numberBuffers: Uint32, data: array?<real>, byteSize: Uint32)
      requires Valid() && data != buffer && (data != null ==> byteSize <= 4 * data.Length)
      modifies this, buffer
      ensures isRunning == old(isRunning) && outputGain == old(outputGain)
      ensures if !isRunning || numberBuffers == 0 || byteSize == 0 || data == null then State() == old(State())
              else State() == InputDone(old(State()), data[..byteSize / 8 * 2])
    {
      if !isRunning || numberBuffers == 0 {
        return;
      }
      if byteSize == 0 || data == null {
        return;
      }
      var frames := byteSize / (4 * CHANNELS);
      WholeFrames(byteSize);
      RbWrite(data, frames, CHANNELS);
      framesTransferred := Wrap64(framesTransferred + frames);
    }

    /** The samples read, or silence, scaled by the gain when it lies strictly between 0 and 1. */
    method OutputCallback(numberBuffers: Uint32, data: array?<real>, byteSize: Uint32)
      requires Valid() && data != buffer && (data != null ==> byteSize <= 4 * data.Length)
      modifies this, data
      ensures isRunning == old(isRunning) && outputGain == old(outputGain)
      ensures if !isRunning || numberBuffers == 0 || byteSize == 0 || data == null then
                State() == old(State()) && (data != null ==> data[..] == old(data[..]))
              else
                var count := byteSize / 8 * 2;
                var (after, out) := Read(old(State()), count);
                && State() == after && data[count..] == old(data[count..])
                && forall k :: 0 <= k < count ==>
                     var x := if out.Some? then out.value[k] else 0.0;
                     data[k] == if 0.0 < outputGain < 1.0 then x * outputGain else x
    {
      if !isRunning || numberBuffers == 0 {
        return;
      }
      if byteSize == 0 || data == null {
        return;
      }
      var frames := byteSize / (4 * CHANNELS);
      WholeFrames(byteSize);
      Play(data, frames, frames * CHANNELS);
    }

    method Play(data: array<real>, frames: Uint32, ghost count: nat)
      requires Valid() && data != buffer && count == frames * CHANNELS == Wrap32(frames * CHANNELS) <= data.Length
      modifies this`readPos, this`currentUsage, this`samplesBuffered, this`peakUsage, this`underrunCount, data
      ensures var (after, out) := Read(old(State()), count);
              && State() == after && data[count..] == old(data[count..])
              && forall k :: 0 <= k < count ==>
                   var x := if out.Some? then out.value[k] else 0.0;
                   data[k] == if 0.0 < outputGain < 1.0 then x * outputGain else x
    {
      RbRead(data, frames, CHANNELS);
      ApplyGain(data, frames * CHANNELS);
    }

    method ApplyGain(data: array<real>, count: nat)
      requires Valid() && data != buffer && count <= data.Length
      modifies data
      ensures forall k :: 0 <= k < count ==>
                data[k] == if 0.0 < outputGain < 1.0 then old(data[k]) * outputGain else old(data[k])
      ensures data[count..] == old(data[count..])
    {
      var gain := outputGain;
      if gain < 1.0 && gain > 0.0 {
        var i := 0;
        while i < count
          invariant 0 <= i <= count
          invariant forall k :: 0 <= k < i ==> data[k] == old(data[k]) * gain
          invariant forall k :: i <= k < data.Length ==> data[k] == old(data[k])
        {
          data[i] := data[i] * gain;
          i := i + 1;
        }
      }
    }
  }
}
