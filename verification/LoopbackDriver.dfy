/** The virtual driver's IO entry points (src/driver/virtual_audio_driver.c) as they update its globals. */
module LoopbackDriver {
  import opened Words
  import opened LoopbackDevice
  import opened DriverVolume

  datatype Operation = ProcessOutput | WriteMixOperation | ReadInputOperation | OtherOperation

  class VirtualDriver {
    const loopback: array<real>
    var loopbackWritePos: Pos
    var loopbackReadPos: Pos
    var ioIsRunning: Uint64
    var numberTimeStamps: Uint64
    var anchorHostTime: Uint64
    var currentFrameCount: Uint64
    var ztsSeed: Uint64
    var hostTicksPerFrame: real
    var ioCycleCount: Uint64
    var badLayoutCount: Uint64

    ghost predicate Valid() reads this {
      loopback.Length == SIZE
    }

    ghost function State(): Device<real>
      reads this, loopback
    {
      Device(Loop(loopback[..], loopbackWritePos, loopbackReadPos), ioIsRunning, numberTimeStamps, anchorHostTime,
             currentFrameCount, ztsSeed)
    }

    /** The globals as the plug-in is loaded. */
    constructor ()
      ensures Valid() && fresh(loopback) && State() == NewDevice(0.0)
    {
      loopback := new real[SIZE](_ => 0.0);
      loopbackWritePos, loopbackReadPos := 0, 0;
      ioIsRunning, numberTimeStamps, anchorHostTime, currentFrameCount := 0, 0, 0, 0;
      ztsSeed := 1;
      hostTicksPerFrame := 0.0;
      ioCycleCount, badLayoutCount := 0, 0;
      new;
      assert loopback[..] == NewDevice(0.0).loop.buffer;
    }

    /** Rejects a foreign device and changes nothing; otherwise counts the client in, and for the first one resets the
        clock, anchors it at `now` and moves the seed. */
    method StartIO(device: Uint32, now: Uint64) returns (status: int)
      requires Valid()
      modifies this`ioIsRunning, this`numberTimeStamps, this`currentFrameCount, this`anchorHostTime, this`ztsSeed
      ensures status == if device == DEVICE_ID then 0 else BAD_OBJECT
      ensures State() == Apply(old(State()), Op.StartIO(device, now), 0.0).0
      ensures device == DEVICE_ID ==> ioIsRunning == Wrap64(old(ioIsRunning) + 1)
      ensures device == DEVICE_ID && old(ioIsRunning) == 0 ==>
                anchorHostTime == now && currentFrameCount == 0 && ztsSeed == Wrap64(old(ztsSeed) + 1)
    {
      if device != DEVICE_ID {
        return BAD_OBJECT;
      }
      var prevCount := ioIsRunning;
      ioIsRunning := Wrap64(ioIsRunning + 1);
      if prevCount == 0 {
        numberTimeStamps := 0;
        currentFrameCount := 0;
        anchorHostTime := now;
        ztsSeed := Wrap64(ztsSeed + 1);
      }
      status := 0;
    }

    /** Counts the client out, and for the last one empties the ring and moves the seed. */
    method StopIO() returns (status: int)
      requires Valid()
      modifies this`ioIsRunning, this`loopbackWritePos, this`loopbackReadPos, this`ztsSeed, loopback
      ensures status == 0
      ensures State() == Apply(old(State()), Op.StopIO, 0.0).0
      ensures ioIsRunning == Wrap64(old(ioIsRunning) - 1)
      ensures old(ioIsRunning) == 1 ==>
                (forall k :: 0 <= k < SIZE ==> loopback[k] == 0.0) && ztsSeed == Wrap64(old(ztsSeed) + 1)
    {
      var prevCount := ioIsRunning;
      ioIsRunning := Wrap64(ioIsRunning - 1);
      if prevCount == 1 {
        loopbackWritePos := 0;
        loopbackReadPos := 0;
        forall k | 0 <= k < SIZE {
          loopback[k] := 0.0;
        }
        ztsSeed := Wrap64(ztsSeed + 1);
        assert loopback[..] == seq(SIZE, _ => 0.0);
      }
      status := 0;
    }

    method GetZeroTimeStamp() returns (sampleTime: real, hostTime: Uint64, seed: Uint64)
      requires Valid()
      ensures (sampleTime, hostTime, seed) == ZeroTimeStamp(State(), hostTicksPerFrame)
      ensures sampleTime == currentFrameCount as real && seed == ztsSeed
      ensures var rate := if hostTicksPerFrame > 0.0 then hostTicksPerFrame else 1000000000.0 / 48000.0;
              var ticks := HostTotal(State(), hostTicksPerFrame) - anchorHostTime;
              && hostTime == Wrap64(anchorHostTime + ticks)
              && ticks as real <= currentFrameCount as real * rate < ticks as real + 1.0
    {
      var ticksPerFrame := hostTicksPerFrame;
      if ticksPerFrame <= 0.0 {
        ticksPerFrame := 1000000000.0 / 48000.0;
      }
      assert ticksPerFrame == Rate(hostTicksPerFrame);
      var anchor, frames := anchorHostTime, currentFrameCount;
      var offset := (frames as real * ticksPerFrame).Floor;
      assert offset == Ticks(frames, hostTicksPerFrame);
      hostTime := Wrap64(anchor + offset);
      sampleTime := frames as real;
      seed := ztsSeed;
    }

    /** WriteMix: the copy loop, then the clock. */
    method StoreMix(samples: array<real>, frames: Uint32)
      requires Valid() && samples != loopback && 2 * frames <= samples.Length
      modifies this`loopbackWritePos, this`currentFrameCount, loopback
      ensures State() == Apply(old(State()), WriteMix(samples[..2 * frames]), 0.0).0
    {
      var writePos := loopbackWritePos;
      var total := frames * 2;
      var i := 0;
      while i < total
        invariant 0 <= i <= total
        invariant writePos == (loopbackWritePos + i) % SIZE
        invariant loopback[..] == StoreAll(old(loopback[..]), loopbackWritePos, samples[..i])
        modifies loopback
      {
        assert samples[..i + 1][..i] == samples[..i];
        ghost var before := loopback[..];
        loopback[writePos] := samples[i];
        assert loopback[..] == before[writePos := samples[i]];
        StepPos(loopbackWritePos, i);
        writePos := (writePos + 1) % SIZE;
        i := i + 1;
      }
      loopbackWritePos := writePos;
      currentFrameCount := Wrap64(currentFrameCount + frames);
      assert samples[..2 * frames] == samples[..i];
    }

    /** ReadInput: the oldest samples on hand, or silence when there are too few. */
    method FetchInput(samples: array<real>, frames: Uint32)
      requires Valid() && samples != loopback && 2 * frames <= samples.Length
      modifies this`loopbackReadPos, samples
      ensures State().loop == Fetched(old(State().loop), 2 * frames).0
      ensures State() == old(State()).(loop := State().loop)
      ensures var out := Fetched(old(State().loop), 2 * frames).1;
              && (forall k :: 0 <= k < 2 * frames ==> samples[k] == if out.Some? then out.value[k] else 0.0)
              && samples[2 * frames..] == old(samples[2 * frames..])
    {
      var readPos, writePos := loopbackReadPos, loopbackWritePos;
      var available := if writePos >= readPos then writePos - readPos else SIZE - readPos + writePos;
      assert available == Available(writePos, readPos);
      var count := frames * 2;
      if available >= count {
        LoadLoop(samples, count);
        loopbackReadPos := (readPos + count) % SIZE;
      } else {
        forall k | 0 <= k < count {
          samples[k] := 0.0;
        }
      }
    }

    method LoadLoop(samples: array<real>, count: nat)
      requires Valid() && samples != loopback && count <= samples.Length
      modifies samples
      ensures samples[..] == LoadAll(loopback[..], loopbackReadPos, count) + old(samples[count..])
    {
      var readPos := loopbackReadPos;
      var i := 0;
      while i < count
        invariant 0 <= i <= count
        invariant readPos == (loopbackReadPos + i) % SIZE
        invariant forall k :: 0 <= k < i ==> samples[k] == loopback[(loopbackReadPos + k) % SIZE]
        invariant forall k :: i <= k < samples.Length ==> samples[k] == old(samples[k])
      {
        samples[i] := loopback[readPos];
        StepPos(loopbackReadPos, i);
        readPos := (readPos + 1) % SIZE;
        i := i + 1;
      }
    }

    /** The frames an operation really handles: what the buffer holds, at most what was asked for. */
    function SafeFrames(byteSize: Uint32, frameSize: Uint32): (frames: Uint32)
      ensures 8 * frames <= byteSize && frames <= frameSize
      ensures frames == frameSize || 8 * (frames + 1) > byteSize
    {
      if byteSize / 8 > frameSize then frameSize else byteSize / 8
    }

    /** An operation on a bad buffer layout changes only the counters; ProcessOutput scales the client's samples in
        place; WriteMix and ReadInput act on the loopback. */
    method DoIOOperation(op: Operation, clientId: Uint32, frameSize: Uint32, hasBuffer: bool, numberBuffers: Uint32,
                         data: array?<real>, channels: Uint32, byteSize: Uint32,
                         volumes: DriverClients, lockFree: bool, now: Uint64)
      returns (status: int)
      requires Valid() && volumes.Valid() && data != loopback && (data != null ==> byteSize <= 4 * data.Length)
      modifies this`loopbackWritePos, this`loopbackReadPos, this`currentFrameCount, this`ioCycleCount,
               this`badLayoutCount, loopback, data
      ensures status == 0
      ensures ioCycleCount == if hasBuffer && frameSize != 0 && op.WriteMixOperation? then Wrap64(old(ioCycleCount) + 1)
                              else old(ioCycleCount)
      ensures badLayoutCount == if hasBuffer && frameSize != 0 && (numberBuffers != 1 || data == null || channels != 2)
                                then Wrap64(old(badLayoutCount) + 1) else old(badLayoutCount)
      ensures var usable := hasBuffer && frameSize != 0 && numberBuffers == 1 && data != null && channels == 2;
              var count := 2 * SafeFrames(byteSize, frameSize);
              && (!usable ==> State() == old(State()) && (data != null ==> data[..] == old(data[..])))
              && (usable && op.WriteMixOperation? ==>
                    State() == Apply(old(State()), WriteMix(old(data[..count])), 0.0).0 && data[..] == old(data[..]))
              && (usable && op.ReadInputOperation? ==>
                    && State() == old(State()).(loop := Fetched(old(State().loop), count).0)
                    && data[count..] == old(data[count..])
                    && var out := Fetched(old(State().loop), count).1;
                       forall k :: 0 <= k < count ==> data[k] == if out.Some? then out.value[k] else 0.0)
              && (usable && op.ProcessOutput? ==>
                    && State() == old(State())
                    && data[count..] == old(data[count..])
                    && var hit := volumes.Hits(clientId, lockFree, now);
                       forall k :: 0 <= k < count ==>
                         data[k] == if hit && volumes.cache.muted then 0.0
                                    else if hit && volumes.cache.volume < 0.999 then old(data[k]) * volumes.cache.volume
                                    else old(data[k]))
              && (usable && op.OtherOperation? ==> State() == old(State()) && data[..] == old(data[..]))
    {
      status := 0;
      if !hasBuffer || frameSize == 0 {
        return;
      }
      if op.WriteMixOperation? {
        ioCycleCount := Wrap64(ioCycleCount + 1);
      }
      if numberBuffers != 1 {
        badLayoutCount := Wrap64(badLayoutCount + 1);
        return;
      }
      if data == null || channels != 2 {
        badLayoutCount := Wrap64(badLayoutCount + 1);
        return;
      }
      var frames := byteSize / 8;
      if frames > frameSize {
        frames := frameSize;
      }
      match op
      case ProcessOutput => volumes.ApplyVolume(clientId, lockFree, now, data, frames * 2);
      case WriteMixOperation => StoreMix(data, frames);
      case ReadInputOperation => FetchInput(data, frames);
      case OtherOperation =>
    }
  }
}
