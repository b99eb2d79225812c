/** The virtual driver's loopback buffer, its reference-counted IO state and its freewheel clock
    (src/driver/virtual_audio_driver.c). Each driver entry point is one atomic operation. */
module LoopbackDevice {
  import opened Words

  const SIZE: nat := 16384
  const DEVICE_ID: Uint32 := 3 // kObjectID_Device
  const BAD_OBJECT: int := 560947818 // kAudioHardwareBadObjectError, '!obj'

  type Pos = x: nat | x < 16384

  // ---------------------------------------------------------------- the loopback ring

  datatype Loop<T> = Loop(buffer: seq<T>, writePos: Pos, readPos: Pos)

  /** The buffer after the WriteMix loop, which never looks at the read position. */
  function StoreAll<T>(buffer: seq<T>, pos: Pos, samples: seq<T>): (after: seq<T>)
    requires |buffer| == SIZE
    ensures |after| == SIZE
  {
    if samples == [] then buffer
    else
      var last := |samples| - 1;
      StoreAll(buffer, pos, samples[..last])[(pos + last) % SIZE := samples[last]]
  }

  function LoadAll<T>(buffer: seq<T>, pos: Pos, count: nat): seq<T>
    requires |buffer| == SIZE
  {
    seq(count, i requires 0 <= i < count => buffer[(pos + i) % SIZE])
  }

  function Mixed<T>(loop: Loop<T>, samples: seq<T>): Loop<T>
    requires |loop.buffer| == SIZE
  {
    Loop(StoreAll(loop.buffer, loop.writePos, samples), (loop.writePos + |samples|) % SIZE, loop.readPos)
  }

  function Available(w: Pos, r: Pos): Pos {
    if w >= r then w - r else SIZE - r + w
  }

  /** ReadInput: the samples and the advanced read position, or nothing when too few are available. */
  function Fetched<T>(loop: Loop<T>, count: nat): (r: (Loop<T>, Option<seq<T>>))
    requires |loop.buffer| == SIZE
    ensures r.1.Some? ==> |r.1.value| == count
  {
    if Available(loop.writePos, loop.readPos) >= count then
      (loop.(readPos := (loop.readPos + count) % SIZE), Some(LoadAll(loop.buffer, loop.readPos, count)))
    else (loop, None)
  }

  /** For reduced positions the code's size is the true backlog modulo the buffer size: exact for every pair of
      totals whose backlog is below it. */
  lemma AvailableIsBacklog(written: nat, read: nat)
    requires read <= written
    ensures Available(written % SIZE, read % SIZE) == (written - read) % SIZE
  {
    assert written - read == SIZE * (written / SIZE - read / SIZE) + (written % SIZE - read % SIZE);
  }

  // ---------------------------------------------------------------- the device

  /** The driver's globals. */
  datatype Device<T> = Device(
    loop: Loop<T>,
    running: Uint64,
    timeStamps: Uint64,
    anchor: Uint64,
    frameCount: Uint64,
    seed: Uint64)

  datatype Op<T> = StartIO(device: Uint32, now: Uint64) | StopIO | WriteMix(samples: seq<T>) | ReadInput(count: nat)

  function NewDevice<T>(zero: T): Device<T> {
    Device(Loop(seq(SIZE, _ => zero), 0, 0), 0, 0, 0, 0, 1)
  }

  function Started<T>(d: Device<T>, now: Uint64): Device<T> {
    var d' := d.(running := Wrap64(d.running + 1));
    if d.running == 0 then d'.(timeStamps := 0, frameCount := 0, anchor := now, seed := Wrap64(d.seed + 1)) else d'
  }

  function Stopped<T>(d: Device<T>, zero: T): Device<T> {
    var d' := d.(running := Wrap64(d.running - 1));
    if d.running == 1 then d'.(loop := Loop(seq(SIZE, _ => zero), 0, 0), seed := Wrap64(d.seed + 1)) else d'
  }

  function Apply<T>(d: Device<T>, op: Op<T>, zero: T): (Device<T>, Option<seq<T>>)
    requires |d.loop.buffer| == SIZE
  {
    match op
    case StartIO(device, now) => (if device == DEVICE_ID then Started(d, now) else d, None)
    case StopIO => (Stopped(d, zero), None)
    case WriteMix(samples) =>
      (d.(loop := Mixed(d.loop, samples), frameCount := Wrap64(d.frameCount + |samples| / 2)), None)
    case ReadInput(count) =>
      var (loop, out) := Fetched(d.loop, count);
      (d.(loop := loop), out)
  }

  // ---------------------------------------------------------------- whole runs

  /** A run's record: the device; the samples mixed in this IO epoch and the logical position of the next one to be
      read; the clients that have started and not stopped; the frames mixed since the clock was last reset; and the
      number of epoch boundaries so far. */
  datatype Track<T> = Track(device: Device<T>, mixed: seq<T>, read: nat, live: nat, frames: nat, boundaries: nat)

  function Begin<T>(zero: T): Track<T> {
    Track(NewDevice(zero), [], 0, 0, 0, 0)
  }

  /** Where a read starts: overflow has skipped whole buffer lengths of unread samples, and nothing else. */
  function ReadStart(written: nat, read: nat): (start: nat)
    requires read <= written
    ensures read <= start <= written && (start - read) % SIZE == 0 && written - start < SIZE
    ensures written - read < SIZE ==> start == read
  {
    read + SIZE * ((written - read) / SIZE)
  }

  /** What the host promises: it stops only what it started, mixes whole stereo frames and only while running. */
  predicate Allowed<T>(t: Track<T>, op: Op<T>) {
    match op
    case StartIO(_, _) => t.live + 1 < U64_SIZE
    case StopIO => t.live > 0
    case WriteMix(samples) => t.live > 0 && |samples| % 2 == 0
    case ReadInput(count) => count % 2 == 0
  }

  function Advance<T>(t: Track<T>, op: Op<T>, zero: T): (t': Track<T>)
    requires |t.device.loop.buffer| == SIZE && t.read <= |t.mixed|
    ensures |t'.device.loop.buffer| == SIZE && t'.read <= |t'.mixed|
  {
    var (device, out) := Apply(t.device, op, zero);
    match op
    case StartIO(id, _) =>
      if id != DEVICE_ID then t.(device := device)
      else if t.live == 0 then t.(device := device, live := 1, frames := 0, boundaries := t.boundaries + 1)
      else t.(device := device, live := t.live + 1)
    case StopIO =>
      if t.live == 1 then t.(device := device, live := 0, mixed := [], read := 0, boundaries := t.boundaries + 1)
      else t.(device := device, live := if t.live > 0 then t.live - 1 else 0)
    case WriteMix(samples) =>
      t.(device := device, mixed := t.mixed + samples, frames := t.frames + |samples| / 2)
    case ReadInput(count) =>
      var start := ReadStart(|t.mixed|, t.read);
      if out.Some? && start + count <= |t.mixed| then t.(device := device, read := start + count)
      else t.(device := device)
  }

  /** The ring holds the last SIZE samples of the epoch, and both positions are totals reduced modulo SIZE. */
  ghost predicate LoopOk<T>(loop: Loop<T>, mixed: seq<T>, read: nat) {
    && |loop.buffer| == SIZE
    && read <= |mixed|
    && loop.writePos == |mixed| % SIZE
    && loop.readPos == read % SIZE
    && forall k :: 0 <= k < |mixed| && |mixed| - SIZE <= k ==> loop.buffer[k % SIZE] == mixed[k]
  }

  /** The reference count is the number of live clients, the seed is even exactly while IO runs, and the clock counts
      the frames mixed since it was reset. */
  ghost predicate EpochOk<T>(t: Track<T>) {
    && t.device.running == t.live < U64_SIZE
    && t.device.seed == Wrap64(1 + t.boundaries)
    && (t.boundaries % 2 == 1 <==> t.live > 0)
    && t.device.frameCount == Wrap64(t.frames)
    && |t.mixed| % 2 == 0
    && t.read % 2 == 0
    && (t.live > 0 ==> t.frames == |t.mixed| / 2)
    && (t.live == 0 ==> t.mixed == [] && t.read == 0)
  }

  ghost predicate TrackOk<T>(t: Track<T>) {
    LoopOk(t.device.loop, t.mixed, t.read) && EpochOk(t)
  }

  lemma StepPos(pos: nat, n: nat)
    ensures ((pos + n) % SIZE + 1) % SIZE == (pos + (n + 1)) % SIZE
  {
  }

  lemma SameSlot(pos: Pos, total: nat, i: nat)
    requires pos == total % SIZE
    ensures (pos + i) % SIZE == (total + i) % SIZE
  {
    assert total - pos == SIZE * (total / SIZE);
  }

  lemma StoreOne<T>(loop: Loop<T>, mixed: seq<T>, read: nat, x: T)
    requires LoopOk(loop, mixed, read)
    ensures LoopOk(Loop(loop.buffer[loop.writePos := x], (loop.writePos + 1) % SIZE, loop.readPos), mixed + [x], read)
  {
    forall k | 0 <= k < |mixed| && |mixed| + 1 - SIZE <= k ensures k % SIZE != loop.writePos {
    }
  }

  lemma MixedSnoc<T>(loop: Loop<T>, samples: seq<T>, x: T)
    requires |loop.buffer| == SIZE
    ensures var m := Mixed(loop, samples);
            Mixed(loop, samples + [x]) == Loop(m.buffer[m.writePos := x], (m.writePos + 1) % SIZE, m.readPos)
  {
    assert (samples + [x])[..|samples|] == samples;
    StepPos(loop.writePos, |samples|);
  }

  lemma {:induction false} StoreKeepsRecent<T>(loop: Loop<T>, mixed: seq<T>, read: nat, samples: seq<T>)
    requires LoopOk(loop, mixed, read)
    ensures LoopOk(Mixed(loop, samples), mixed + samples, read)
  {
    if samples == [] {
      assert mixed + samples == mixed;
    } else {
      var before, x := samples[..|samples| - 1], samples[|samples| - 1];
      StoreKeepsRecent(loop, mixed, read, before);
      StoreOne(Mixed(loop, before), mixed + before, read, x);
      MixedSnoc(loop, before, x);
      assert before + [x] == samples;
      assert mixed + before + [x] == mixed + samples;
    }
  }

  lemma LoadIsSlice<T>(loop: Loop<T>, mixed: seq<T>, read: nat, start: nat, count: nat)
    requires LoopOk(loop, mixed, read) && start % SIZE == read % SIZE
    requires |mixed| - SIZE <= start && start + count <= |mixed|
    ensures LoadAll(loop.buffer, loop.readPos, count) == mixed[start..start + count]
  {
    forall i | 0 <= i < count ensures LoadAll(loop.buffer, loop.readPos, count)[i] == mixed[start + i] {
      SameSlot(loop.readPos, start, i);
    }
  }

  lemma ReadStartLeft(written: nat, read: nat)
    requires read <= written
    ensures written - ReadStart(written, read) == (written - read) % SIZE
    ensures ReadStart(written, read) % SIZE == read % SIZE
  {
  }

  /** Overflow never tears a block: a successful ReadInput returns the contiguous samples that start at the read
      position advanced by whole buffer lengths; it succeeds exactly when that many are left from there. */
  lemma ReadIsContiguous<T>(loop: Loop<T>, mixed: seq<T>, read: nat, count: nat)
    requires LoopOk(loop, mixed, read)
    ensures var start := ReadStart(|mixed|, read);
            var (after, out) := Fetched(loop, count);
            && (out.Some? <==> start + count <= |mixed|)
            && (out.Some? ==> out.value == mixed[start..start + count] && LoopOk(after, mixed, start + count))
            && (out.None? ==> after == loop)
  {
    AvailableIsBacklog(|mixed|, read);
    var start := ReadStart(|mixed|, read);
    ReadStartLeft(|mixed|, read);
    if start + count <= |mixed| {
      LoadIsSlice(loop, mixed, read, start, count);
      SameSlot(loop.readPos, start, count);
    }
  }

  /** While the backlog stays below the buffer size the loopback is an exact queue. */
  lemma BelowSizeIsQueue<T>(loop: Loop<T>, mixed: seq<T>, read: nat, count: nat)
    requires LoopOk(loop, mixed, read) && |mixed| - read < SIZE
    ensures var (_, out) := Fetched(loop, count);
            out == if read + count <= |mixed| then Some(mixed[read..read + count]) else None
  {
    ReadIsContiguous(loop, mixed, read, count);
  }

  lemma LoopStep<T>(t: Track<T>, op: Op<T>, zero: T)
    requires TrackOk(t) && Allowed(t, op)
    ensures var t' := Advance(t, op, zero); LoopOk(t'.device.loop, t'.mixed, t'.read)
  {
    match op
    case WriteMix(samples) => StoreKeepsRecent(t.device.loop, t.mixed, t.read, samples);
    case ReadInput(count) => ReadIsContiguous(t.device.loop, t.mixed, t.read, count);
    case _ =>
  }

  lemma SeedNext(seed: Uint64, boundaries: nat)
    requires seed == Wrap64(1 + boundaries)
    ensures Wrap64(seed + 1) == Wrap64(1 + (boundaries + 1))
  {
    Wrap64Adds(1 + boundaries, 1);
  }

  lemma Flip(n: nat)
    ensures (n + 1) % 2 == 1 <==> n % 2 != 1
  {
  }

  lemma StartKeepsEpoch<T>(t: Track<T>, op: Op<T>, zero: T)
    requires TrackOk(t) && op.StartIO? && Allowed(t, op)
    ensures EpochOk(Advance(t, op, zero))
  {
    SeedNext(t.device.seed, t.boundaries);
    Wrap64Small(t.live + 1);
    Wrap64Small(0);
    Flip(t.boundaries);
  }

  lemma StopKeepsEpoch<T>(t: Track<T>, op: Op<T>, zero: T)
    requires TrackOk(t) && op.StopIO? && Allowed(t, op)
    ensures EpochOk(Advance(t, op, zero))
  {
    SeedNext(t.device.seed, t.boundaries);
    Wrap64Small(t.live - 1);
    Flip(t.boundaries);
  }

  lemma FramesNext(count: Uint64, frames: nat, more: nat)
    requires count == Wrap64(frames)
    ensures Wrap64(count + more) == Wrap64(frames + more)
  {
    Wrap64Adds(frames, more);
  }

  lemma EvenSum(a: nat, b: nat)
    requires a % 2 == 0 && b % 2 == 0
    ensures (a + b) % 2 == 0 && (a + b) / 2 == a / 2 + b / 2
  {
  }

  lemma MixKeepsEpoch<T>(t: Track<T>, op: Op<T>, zero: T)
    requires TrackOk(t) && op.WriteMix? && Allowed(t, op)
    ensures EpochOk(Advance(t, op, zero))
  {
    EvenSum(|t.mixed|, |op.samples|);
    FramesNext(t.device.frameCount, t.frames, |op.samples| / 2);
  }

  lemma ReadKeepsEpoch<T>(t: Track<T>, op: Op<T>, zero: T)
    requires TrackOk(t) && op.ReadInput? && Allowed(t, op)
    ensures EpochOk(Advance(t, op, zero))
  {
    EvenStart(|t.mixed|, t.read, op.count);
  }

  lemma EvenStart(written: nat, read: nat, count: nat)
    requires read <= written && read % 2 == 0 && count % 2 == 0
    ensures (ReadStart(written, read) + count) % 2 == 0
  {
    var start := ReadStart(written, read);
    assert start + count == 2 * (read / 2 + 8192 * ((written - read) / SIZE) + count / 2);
  }

  lemma StepKeepsTrack<T>(t: Track<T>, op: Op<T>, zero: T)
    requires TrackOk(t) && Allowed(t, op)
    ensures TrackOk(Advance(t, op, zero))
  {
    LoopStep(t, op, zero);
    match op
    case StartIO(_, _) => StartKeepsEpoch(t, op, zero);
    case StopIO => StopKeepsEpoch(t, op, zero);
    case WriteMix(_) => MixKeepsEpoch(t, op, zero);
    case ReadInput(_) => ReadKeepsEpoch(t, op, zero);
  }

  function Run<T>(zero: T, ops: seq<Op<T>>): (t: Track<T>)
    ensures |t.device.loop.buffer| == SIZE && t.read <= |t.mixed|
  {
    if ops == [] then Begin(zero) else Advance(Run(zero, ops[..|ops| - 1]), ops[|ops| - 1], zero)
  }

  /** Every operation of the run is one the host may make where it stands. */
  ghost predicate Disciplined<T>(zero: T, ops: seq<Op<T>>) {
    forall n :: 0 <= n < |ops| ==> Allowed(Run(zero, ops[..n]), ops[n])
  }

  lemma DisciplinedPrefix<T>(zero: T, ops: seq<Op<T>>, n: nat)
    requires Disciplined(zero, ops) && n <= |ops|
    ensures Disciplined(zero, ops[..n])
  {
    forall m | 0 <= m < n ensures Allowed(Run(zero, ops[..n][..m]), ops[..n][m]) {
      assert ops[..n][..m] == ops[..m];
    }
  }

  lemma {:induction false} RunKeepsTrack<T>(zero: T, ops: seq<Op<T>>)
    requires Disciplined(zero, ops)
    ensures TrackOk(Run(zero, ops))
  {
    if ops != [] {
      var n := |ops| - 1;
      DisciplinedPrefix(zero, ops, n);
      RunKeepsTrack(zero, ops[..n]);
      StepKeepsTrack(Run(zero, ops[..n]), ops[n], zero);
    }
  }

  lemma ParityOfSeed(seed: Uint64, boundaries: nat)
    requires seed == Wrap64(1 + boundaries)
    ensures seed % 2 == (1 + boundaries) % 2
  {
    SameParity(1 + boundaries, seed, 0x8000_0000_0000_0000 * ((1 + boundaries) / U64_SIZE));
  }

  lemma SameParity(a: int, b: int, k: int)
    requires a == b + 2 * k
    ensures a % 2 == b % 2
  {
  }

  lemma PosOfFrames(frameCount: Uint64, frames: nat)
    requires frameCount == Wrap64(frames)
    ensures (2 * frames) % SIZE == (2 * frameCount) % SIZE
  {
    assert 2 * frames == 2 * frameCount + SIZE * (0x8_0000_0000_0000 * (frames / U64_SIZE));
  }

  lemma EpochFacts<T>(t: Track<T>)
    requires EpochOk(t) && LoopOk(t.device.loop, t.mixed, t.read)
    ensures t.device.seed % 2 == 0 <==> t.live > 0
    ensures t.live > 0 ==> t.device.loop.writePos == (2 * t.device.frameCount) % SIZE
    ensures t.live == 0 ==> t.device.loop.writePos == 0 && t.device.loop.readPos == 0
  {
    ParityOfSeed(t.device.seed, t.boundaries);
    PosOfFrames(t.device.frameCount, t.frames);
    Flip(t.boundaries);
  }

  /** The IO epoch machine, over every disciplined run: the reference count is the number of live clients, the seed is
      even exactly while IO runs, and while it runs the write position is twice the clock's frame count modulo the
      buffer size; between epochs the ring is reset. */
  lemma EpochMachine<T>(zero: T, ops: seq<Op<T>>, t: Track<T>)
    requires Disciplined(zero, ops) && t == Run(zero, ops)
    ensures t.device.running == t.live
    ensures t.device.seed % 2 == 0 <==> t.live > 0
    ensures t.live > 0 ==> t.device.loop.writePos == (2 * t.device.frameCount) % SIZE
    ensures t.live == 0 ==> t.device.loop.writePos == 0 && t.device.loop.readPos == 0
  {
    RunKeepsTrack(zero, ops);
    EpochFacts(t);
  }

  /** The seed moves, and with it the clock or the ring is reset, exactly when the first client starts or the last
      one stops. */
  lemma BoundariesOnlyAtEdges<T>(t: Track<T>, op: Op<T>, zero: T)
    requires TrackOk(t) && Allowed(t, op)
    ensures var t' := Advance(t, op, zero);
            && (t'.device.seed != t.device.seed <==> (t.live == 0) != (t'.live == 0))
            && (t'.device.anchor != t.device.anchor ==> t.live == 0 && t'.live == 1)
            && (t.live == 0 && t'.live == 1 ==> op.StartIO? && t'.device.anchor == op.now && t'.device.frameCount == 0)
            && (t.live == 1 && t'.live == 0 ==> t'.device.loop == Loop(seq(SIZE, _ => zero), 0, 0))
            && (t'.boundaries == t.boundaries ==> t.frames <= t'.frames && t.mixed <= t'.mixed && t.read <= t'.read)
  {
    SeedMoves(t.device.seed);
    match op
    case StartIO(_, _) =>
    case StopIO =>
    case WriteMix(_) =>
    case ReadInput(_) =>
  }

  lemma SeedMoves(seed: Uint64)
    ensures Wrap64(seed + 1) != seed
  {
  }

  /** Between epochs the ring holds nothing but silence. */
  lemma {:induction false} RestIsSilent<T>(zero: T, ops: seq<Op<T>>)
    requires Disciplined(zero, ops)
    ensures var t := Run(zero, ops);
            t.live == 0 ==> forall k :: 0 <= k < SIZE ==> t.device.loop.buffer[k] == zero
  {
    if ops == [] {
    } else {
      var n := |ops| - 1;
      DisciplinedPrefix(zero, ops, n);
      RunKeepsTrack(zero, ops[..n]);
      RestIsSilent(zero, ops[..n]);
      StaysSilent(Run(zero, ops[..n]), ops[n], zero);
    }
  }

  lemma StaysSilent<T>(t: Track<T>, op: Op<T>, zero: T)
    requires TrackOk(t) && Allowed(t, op)
    requires t.live == 0 ==> forall k :: 0 <= k < SIZE ==> t.device.loop.buffer[k] == zero
    ensures var t' := Advance(t, op, zero);
            t'.live == 0 ==> forall k :: 0 <= k < SIZE ==> t'.device.loop.buffer[k] == zero
  {
    BoundariesOnlyAtEdges(t, op, zero);
  }

  /** ReadInput in any disciplined run, in terms of the samples mixed in this epoch. */
  lemma ReadInRun<T>(zero: T, ops: seq<Op<T>>, t: Track<T>, count: nat)
    requires Disciplined(zero, ops) && t == Run(zero, ops)
    ensures var start := ReadStart(|t.mixed|, t.read);
            Fetched(t.device.loop, count).1
            == if start + count <= |t.mixed| then Some(t.mixed[start..start + count]) else None
  {
    RunKeepsTrack(zero, ops);
    ReadFromTrack(t, count);
  }

  lemma ReadFromTrack<T>(t: Track<T>, count: nat)
    requires LoopOk(t.device.loop, t.mixed, t.read)
    ensures var start := ReadStart(|t.mixed|, t.read);
            Fetched(t.device.loop, count).1
            == if start + count <= |t.mixed| then Some(t.mixed[start..start + count]) else None
  {
    ReadIsContiguous(t.device.loop, t.mixed, t.read, count);
  }

  // ---------------------------------------------------------------- the freewheel clock

  /** What GetZeroTimeStamp reports: the frames mixed, the host time that belongs to them, and the seed. */
  function ZeroTimeStamp<T>(d: Device<T>, ticksPerFrame: real): (real, Uint64, Uint64) {
    (d.frameCount as real, Wrap64(d.anchor + Ticks(d.frameCount, ticksPerFrame)), d.seed)
  }

  /** The rate used: a device that was never initialised falls back to 48 kHz in nanoseconds. */
  function Rate(ticksPerFrame: real): (rate: real)
    ensures rate > 0.0
  {
    if ticksPerFrame <= 0.0 then 1000000000.0 / 48000.0 else ticksPerFrame
  }

  function Ticks(frames: Uint64, ticksPerFrame: real): (ticks: nat)
    ensures ticks as real <= frames as real * Rate(ticksPerFrame) < ticks as real + 1.0
  {
    (frames as real * Rate(ticksPerFrame)).Floor
  }

  /** How many ticks so many frames are worth, exactly. */
  function Worth(frames: nat, ticksPerFrame: real): real {
    frames as real * Rate(ticksPerFrame)
  }

  /** Later operations that cross no epoch boundary. */
  function After<T>(t: Track<T>, ops: seq<Op<T>>, zero: T): (t': Track<T>)
    requires |t.device.loop.buffer| == SIZE && t.read <= |t.mixed|
    ensures |t'.device.loop.buffer| == SIZE && t'.read <= |t'.mixed|
  {
    if ops == [] then t else Advance(After(t, ops[..|ops| - 1], zero), ops[|ops| - 1], zero)
  }

  ghost predicate AllowedAfter<T>(t: Track<T>, ops: seq<Op<T>>, zero: T)
    requires |t.device.loop.buffer| == SIZE && t.read <= |t.mixed|
  {
    ops == [] || (AllowedAfter(t, ops[..|ops| - 1], zero) && Allowed(After(t, ops[..|ops| - 1], zero), ops[|ops| - 1]))
  }

  lemma BoundariesGrow<T>(t: Track<T>, op: Op<T>, zero: T)
    requires |t.device.loop.buffer| == SIZE && t.read <= |t.mixed|
    ensures t.boundaries <= Advance(t, op, zero).boundaries
  {
  }

  lemma {:induction false} SameEpoch<T>(t: Track<T>, ops: seq<Op<T>>, zero: T)
    requires TrackOk(t) && AllowedAfter(t, ops, zero)
    ensures TrackOk(After(t, ops, zero)) && t.boundaries <= After(t, ops, zero).boundaries
    ensures After(t, ops, zero).boundaries == t.boundaries ==>
      After(t, ops, zero).device.anchor == t.device.anchor && t.frames <= After(t, ops, zero).frames
  {
    if ops != [] {
      var before, op := After(t, ops[..|ops| - 1], zero), ops[|ops| - 1];
      SameEpoch(t, ops[..|ops| - 1], zero);
      BoundariesGrow(before, op, zero);
      BoundariesOnlyAtEdges(before, op, zero);
      StepKeepsTrack(before, op, zero);
    }
  }

  /** The host time of a reading before it is cut to 64 bits. */
  function HostTotal<T>(d: Device<T>, ticksPerFrame: real): nat {
    d.anchor + Ticks(d.frameCount, ticksPerFrame)
  }

  /** The reported host time, before it is cut to 64 bits: the anchor and as many whole ticks as the frames are worth,
      at the rate measured or, when there is none, at 48 kHz in nanoseconds. */
  lemma HostTimeCounts<T>(d: Device<T>, ticksPerFrame: real)
    ensures var k := HostTotal(d, ticksPerFrame) - d.anchor;
            && k >= 0
            && (ticksPerFrame > 0.0 ==> k as real <= d.frameCount as real * ticksPerFrame < k as real + 1.0)
            && (ticksPerFrame <= 0.0 ==>
                  k as real <= d.frameCount as real * (1000000000.0 / 48000.0) < k as real + 1.0)
    ensures ZeroTimeStamp(d, ticksPerFrame) ==
            (d.frameCount as real, Wrap64(HostTotal(d, ticksPerFrame)), d.seed)
  {
  }

  /** Neither the frame counter nor the host time passes a multiple of 2^64 from one reading to the other. */
  predicate SameWindow<T>(t: Track<T>, t': Track<T>, ticksPerFrame: real) {
    && t.frames / U64_SIZE == t'.frames / U64_SIZE
    && HostTotal(t.device, ticksPerFrame) / U64_SIZE == HostTotal(t'.device, ticksPerFrame) / U64_SIZE
  }

  /** A later reading against an earlier one, each (sample time, host time, seed), with `mixed` frames in between that
      are worth `exact` ticks: sample time has advanced by exactly those frames, host time has not run back, and it has
      advanced by their worth to within one tick. */
  ghost predicate NoDrift(earlier: (real, Uint64, Uint64), later: (real, Uint64, Uint64), mixed: nat, exact: real) {
    && earlier.2 == later.2
    && later.0 - earlier.0 == mixed as real
    && earlier.1 <= later.1
    && -1.0 < (later.1 - earlier.1) as real - exact < 1.0
  }

  /** Drift-free clock: of any two readings in one seed epoch, whatever happens in between, the later has not drifted
      from the earlier, `exact` being what the frames mixed in between are worth, if and only if no 64-bit counter has
      wrapped between them. */
  lemma ClockNeverDrifts<T>(t: Track<T>, ops: seq<Op<T>>, zero: T, ticksPerFrame: real, t': Track<T>, mixed: int,
                            exact: real)
    requires TrackOk(t) && AllowedAfter(t, ops, zero) && t' == After(t, ops, zero)
    requires t'.boundaries == t.boundaries && mixed == t'.frames - t.frames
    requires exact == mixed as real * if ticksPerFrame > 0.0 then ticksPerFrame else 1000000000.0 / 48000.0
    ensures mixed >= 0
    ensures NoDrift(ZeroTimeStamp(t.device, ticksPerFrame), ZeroTimeStamp(t'.device, ticksPerFrame), mixed, exact)
            <==> SameWindow(t, t', ticksPerFrame)
  {
    SameEpoch(t, ops, zero);
    WorthIs(mixed, ticksPerFrame, exact);
    DriftInEpoch(t, t', ticksPerFrame, mixed, exact);
  }

  lemma WorthIs(mixed: nat, ticksPerFrame: real, exact: real)
    requires exact == mixed as real * if ticksPerFrame > 0.0 then ticksPerFrame else 1000000000.0 / 48000.0
    ensures exact == Worth(mixed, ticksPerFrame)
  {
  }

  /** A run whose clock runs back: IO starts at the last tick of the 64-bit host time, and one frame is mixed. */
  lemma ClockRunsBack<T>(zero: T, x: T, ticksPerFrame: real)
    requires 1.0 <= ticksPerFrame < 1000000.0
    ensures var ops := [StartIO(DEVICE_ID, U64_SIZE - 1), WriteMix([x, x])];
            && Disciplined(zero, ops) && Run(zero, ops).boundaries == Run(zero, ops[..1]).boundaries
            && ZeroTimeStamp(Run(zero, ops).device, ticksPerFrame).1
               < ZeroTimeStamp(Run(zero, ops[..1]).device, ticksPerFrame).1
  {
    var ops: seq<Op<T>> := [StartIO(DEVICE_ID, U64_SIZE - 1), WriteMix([x, x])];
    FirstTwo(zero, ops);
    var t := Run(zero, ops[..1]);
    assert t.device.anchor == U64_SIZE - 1 && t.device.frameCount == 0;
    TicksOfOne(ticksPerFrame);
  }

  lemma FirstTwo<T>(zero: T, ops: seq<Op<T>>)
    requires |ops| == 2
    ensures Run(zero, ops[..0]) == Begin(zero)
    ensures Run(zero, ops[..1]) == Advance(Begin(zero), ops[0], zero)
    ensures Run(zero, ops) == Advance(Run(zero, ops[..1]), ops[1], zero)
  {
    assert ops[..0] == [] && ops[..1][..0] == [];
  }

  lemma TicksOfOne(ticksPerFrame: real)
    requires 1.0 <= ticksPerFrame < 1000000.0
    ensures Ticks(0, ticksPerFrame) == 0 && 1 <= Ticks(1, ticksPerFrame) <= 1000000
  {
  }

  lemma DriftInEpoch<T>(t: Track<T>, t': Track<T>, ticksPerFrame: real, mixed: nat, exact: real)
    requires EpochOk(t) && EpochOk(t') && t.boundaries == t'.boundaries && t.device.anchor == t'.device.anchor
    requires t'.frames - t.frames == mixed && exact == Worth(mixed, ticksPerFrame)
    ensures NoDrift(ZeroTimeStamp(t.device, ticksPerFrame), ZeroTimeStamp(t'.device, ticksPerFrame), mixed, exact)
            <==> SameWindow(t, t', ticksPerFrame)
  {
    WrapKeepsDifference(t.frames, t'.frames);
    if t.frames / U64_SIZE == t'.frames / U64_SIZE {
      StampsDrift(t.device, t'.device, ticksPerFrame, mixed, exact);
    } else {
      CountsApart(t.device, t'.device, ticksPerFrame, mixed, exact);
    }
  }

  lemma CountsApart<T>(d: Device<T>, d': Device<T>, ticksPerFrame: real, mixed: nat, exact: real)
    requires d'.frameCount - d.frameCount != mixed
    ensures !NoDrift(ZeroTimeStamp(d, ticksPerFrame), ZeroTimeStamp(d', ticksPerFrame), mixed, exact)
  {
    assert d'.frameCount as real - d.frameCount as real == (d'.frameCount - d.frameCount) as real;
  }

  lemma WrapKeepsDifference(a: nat, b: nat)
    requires a <= b
    ensures Wrap64(b) - Wrap64(a) == b - a <==> a / U64_SIZE == b / U64_SIZE
  {
    assert Wrap64(b) - Wrap64(a) == b - a - U64_SIZE * (b / U64_SIZE - a / U64_SIZE);
  }

  lemma StampsDrift<T>(d: Device<T>, d': Device<T>, ticksPerFrame: real, mixed: nat, exact: real)
    requires d.anchor == d'.anchor && d.seed == d'.seed && d'.frameCount - d.frameCount == mixed
    requires exact == Worth(mixed, ticksPerFrame)
    ensures NoDrift(ZeroTimeStamp(d, ticksPerFrame), ZeroTimeStamp(d', ticksPerFrame), mixed, exact)
            <==> HostTotal(d, ticksPerFrame) / U64_SIZE == HostTotal(d', ticksPerFrame) / U64_SIZE
  {
    TotalsWithin(d, d', ticksPerFrame, mixed, exact);
    WrappedWithin(HostTotal(d, ticksPerFrame), HostTotal(d', ticksPerFrame), exact);
    StampsByTotals(d, d', ticksPerFrame, mixed, exact);
  }

  lemma TotalsWithin<T>(d: Device<T>, d': Device<T>, ticksPerFrame: real, mixed: nat, exact: real)
    requires d.anchor == d'.anchor && d'.frameCount - d.frameCount == mixed
    requires exact == Worth(mixed, ticksPerFrame)
    ensures var h, h' := HostTotal(d, ticksPerFrame), HostTotal(d', ticksPerFrame);
            h <= h' && -1.0 < (h' - h) as real - exact < 1.0
  {
    TicksGrow(d.frameCount, d'.frameCount, ticksPerFrame);
    TicksDifference(d.frameCount, d'.frameCount, ticksPerFrame);
  }

  lemma StampsByTotals<T>(d: Device<T>, d': Device<T>, ticksPerFrame: real, mixed: nat, exact: real)
    requires d.seed == d'.seed && d'.frameCount - d.frameCount == mixed
    ensures NoDrift(ZeroTimeStamp(d, ticksPerFrame), ZeroTimeStamp(d', ticksPerFrame), mixed, exact)
            <==> var h, h' := Wrap64(HostTotal(d, ticksPerFrame)), Wrap64(HostTotal(d', ticksPerFrame));
                 h <= h' && -1.0 < (h' - h) as real - exact < 1.0
  {
    assert d'.frameCount as real - d.frameCount as real == mixed as real;
  }

  lemma TicksDifference(frames: Uint64, frames': Uint64, ticksPerFrame: real)
    requires frames <= frames'
    ensures -1.0 < (Ticks(frames', ticksPerFrame) - Ticks(frames, ticksPerFrame)) as real
                   - (frames' - frames) as real * Rate(ticksPerFrame) < 1.0
  {
    TicksGrow(frames, frames', ticksPerFrame);
    assert (frames' - frames) as real == frames' as real - frames as real;
  }

  /** Two growing counts that differ by `exact` to within one still do after wrapping exactly when both lie in the same
      window. */
  lemma WrappedWithin(h: nat, h': nat, exact: real)
    requires h <= h' && -1.0 < (h' - h) as real - exact < 1.0
    ensures Wrap64(h) <= Wrap64(h') && -1.0 < (Wrap64(h') - Wrap64(h)) as real - exact < 1.0
            <==> h / U64_SIZE == h' / U64_SIZE
  {
    var k := h' / U64_SIZE - h / U64_SIZE;
    WrappedApart(h, h', k);
    if k > 0 {
      assert Wrap64(h') - Wrap64(h) <= h' - h - U64_SIZE;
    }
  }

  lemma WrappedApart(h: nat, h': nat, k: int)
    requires h <= h' && k == h' / U64_SIZE - h / U64_SIZE
    ensures k >= 0 && Wrap64(h') - Wrap64(h) == h' - h - U64_SIZE * k
  {
  }

  lemma TicksGrow(frames: Uint64, frames': Uint64, ticksPerFrame: real)
    requires frames <= frames'
    ensures Ticks(frames, ticksPerFrame) <= Ticks(frames', ticksPerFrame)
    ensures (frames' as real - frames as real) * Rate(ticksPerFrame)
            == frames' as real * Rate(ticksPerFrame) - frames as real * Rate(ticksPerFrame)
  {
    var rate := Rate(ticksPerFrame);
    assert frames as real * rate <= frames' as real * rate;
  }
}
