/** Runs of synchronous calls (src/ipc/ipc_client.c, src/ipc/ipc_server.c): which ones leave both byte streams empty,
    and what they do to the map from pids to volume and mute state. */
module IpcLockstep {
  import opened Words
  import opened IpcCodec
  import opened IpcRegistry
  import opened IpcWire

  // ---------------------------------------------------------------- the map the calls act on

  /** What a request does to the map. */
  function After(levels: map<Pid, Level>, q: Request): map<Pid, Level> {
    match q
    case Register(pid, _, volume, muted) => if pid in levels then levels else levels[pid := Level(volume, muted)]
    case Unregister(pid) => levels - {pid}
    case SetVolume(pid, volume) =>
      if pid in levels then levels[pid := levels[pid].(volume := ClampVolume(volume))] else levels
    case SetMute(pid, muted) => if pid in levels then levels[pid := levels[pid].(muted := muted)] else levels
    case Ping => levels
  }

  /** A new pid can register; a known one can be changed or removed. */
  predicate Accepted(levels: map<Pid, Level>, q: Request) {
    match q
    case Register(pid, _, _, _) => pid !in levels
    case Unregister(pid) => pid in levels
    case SetVolume(pid, _) => pid in levels
    case SetMute(pid, _) => pid in levels
    case Ping => true
  }

  lemma AppliedIsAfter(reg: seq<Client>, q: Request, now: Uint64)
    requires DistinctPids(reg)
    ensures DistinctPids(Applied(reg, q, now))
    ensures Levels(Applied(reg, q, now)) == After(Levels(reg), q)
    ensures Succeeds(reg, q) <==> Accepted(Levels(reg), q)
  {
    match q {
      case Register(pid, name, volume, muted) =>
        LevelsByPosition(reg, pid);
        RegisterIsInsert(reg, Client(pid, volume, muted, now, StoredName(name)));
      case Unregister(pid) =>
        LevelsByPosition(reg, pid);
        UnregisterIsRemove(reg, pid);
      case SetVolume(pid, volume) =>
        LevelsByPosition(reg, pid);
        SetVolumeIsReplace(reg, pid, volume);
      case SetMute(pid, muted) =>
        LevelsByPosition(reg, pid);
        SetMuteIsReplace(reg, pid, muted);
      case Ping =>
    }
  }

  // ---------------------------------------------------------------- requests are understood

  lemma {:induction false} CStringOf(s: seq<Byte>, tail: seq<Byte>)
    requires 0 !in s
    ensures CString(s + [0] + tail) == s
  {
    if s == [] {
      assert ([] + [0] + tail)[0] == 0;
    } else {
      CStringOf(s[1..], tail);
      assert (s + [0] + tail)[1..] == s[1..] + [0] + tail;
    }
  }

  /** The name the service stores from the payload is the name the caller passed, cut to 255 bytes. */
  lemma NameSurvives(name: seq<Byte>)
    ensures StoredName(CString(name) + [0]) == StoredName(name)
    ensures var given := CString(name);
            CString(StoredName(CString(name) + [0])) ==
            if |given| <= NAME_SIZE - 1 then given else given[..NAME_SIZE - 1]
  {
    CStringOf(CString(name), []);
    assert CString(name) + [0] + [] == CString(name) + [0];
    StoredNameIsCut(name);
  }

  lemma RegisterFields(pid: Pid, name: seq<Byte>, volume: Uint32, muted: bool)
    ensures var p := Payload(Register(pid, name, volume, muted));
            |p| == 10 + |CString(name)| && ReadI32(p[..4]) == pid && ReadU32(p[4..8]) == volume
            && ReadFlag(p[8..9]) == muted && p[9..] == CString(name) + [0]
  {
    var p := Payload(Register(pid, name, volume, muted));
    assert p[..4] == I32(pid) && p[4..8] == U32(volume) && p[8..9] == Flag(muted) && p[9..] == CString(name) + [0];
    NumbersRoundTrip(0, volume, 0, pid, muted);
  }

  lemma PairFields(pid: Pid, volume: Uint32, muted: bool)
    ensures ReadI32(I32(pid)[..4]) == pid
    ensures var p := I32(pid) + U32(volume); ReadI32(p[..4]) == pid && ReadU32(p[4..8]) == volume
    ensures var p := I32(pid) + Flag(muted); ReadI32(p[..4]) == pid && ReadFlag(p[4..5]) == muted
  {
    var p, q := I32(pid) + U32(volume), I32(pid) + Flag(muted);
    assert I32(pid)[..4] == I32(pid) && p[..4] == I32(pid) && p[4..8] == U32(volume);
    assert q[..4] == I32(pid) && q[4..5] == Flag(muted);
    NumbersRoundTrip(0, volume, 0, pid, muted);
  }

  function StatusOf(reg: seq<Client>, q: Request): Pid {
    if Succeeds(reg, q) then STATUS_OK else if q.Register? then -1 else STATUS_CLIENT_NOT_FOUND
  }

  /** The dispatcher decodes a request to exactly what the caller asked for. */
  lemma DispatchIsApplied(reg: seq<Client>, q: Request, now: Uint64)
    ensures Dispatch(reg, Command(q), Payload(q), now) == (Applied(reg, q, now), StatusOf(reg, q), [])
    ensures var status := Dispatch(reg, Command(q), Payload(q), now).1;
            && (status == STATUS_OK <==> Succeeds(reg, q))
            && (!Succeeds(reg, q) ==> status == if q.Register? then -1 else STATUS_CLIENT_NOT_FOUND)
  {
    match q {
      case Register(pid, name, volume, muted) =>
        RegisterFields(pid, name, volume, muted);
        NameSurvives(name);
      case Unregister(pid) => PairFields(pid, 0, false);
      case SetVolume(pid, volume) => PairFields(pid, volume, false);
      case SetMute(pid, muted) => PairFields(pid, 0, muted);
      case Ping =>
    }
  }

  /** A payload too short for its command is rejected, and so is a valid command the service does not serve. */
  lemma DispatchRejects(reg: seq<Client>, command: Uint16, payload: seq<Byte>, now: Uint64)
    ensures || (command == CMD_REGISTER && |payload| < 9)
            || (command in {CMD_UNREGISTER, CMD_GET_VOLUME} && |payload| < 4)
            || (command == CMD_SET_VOLUME && |payload| < 8)
            || (command == CMD_SET_MUTE && |payload| < 5)
            ==> Dispatch(reg, command, payload, now) == (reg, STATUS_INVALID_HEADER, [])
    ensures command in {CMD_GET_MUTE, CMD_RESPONSE, CMD_ERROR} ==>
              Dispatch(reg, command, payload, now) == (reg, STATUS_UNKNOWN_COMMAND, [])
  {
  }

  // ---------------------------------------------------------------- one call

  lemma StatusReceived(status: Pid)
    ensures StatusIn(ResponseBody(status, [])) == status
  {
    StatusOfBody(status, []);
    assert (ResponseBody(status, []) + Zeros(4))[..4] == ResponseBody(status, [])[..4];
  }

  /** A fitting call made in step ends in step: the registry does what was asked, both streams are empty, and the caller
      learns whether it succeeded. */
  lemma CallInStep(w: World, q: Request, now: Uint64)
    requires InStep(w) && Fits(q)
    ensures Perform(w, q, now) ==
            (World(Applied(w.registry, q, now), [], [], true), if Succeeds(w.registry, q) then 0 else -1)
  {
    var status := StatusOf(w.registry, q);
    DispatchIsApplied(w.registry, q, now);
    ExchangeWhole(w, Command(q), Payload(q), RESPONSE_SIZE, now, Applied(w.registry, q, now), status, []);
    StatusReceived(status);
  }

  /** Whatever the service answers to a complete valid message, the reply carries that message's request id. */
  lemma ReplyEchoesId(reg: seq<Client>, h: Header, payload: seq<Byte>, rest: seq<Byte>, now: Uint64)
    requires ValidHeader(h) && |payload| == h.payloadLen
    ensures var (_, left, reply) := Handled(reg, EncodeHeader(h) + payload + rest, now);
            left == rest && DecodeHeader(reply[..HEADER_SIZE]).requestId == h.requestId
            && DecodeHeader(reply[..HEADER_SIZE]).command == CMD_RESPONSE
  {
    var stream := EncodeHeader(h) + (payload + rest);
    FramingSplits(h, payload + rest);
    assert EncodeHeader(h) + payload + rest == stream;
    assert (payload + rest)[..h.payloadLen] == payload && (payload + rest)[h.payloadLen..] == rest;
    var (reg', status, data) := Dispatch(reg, h.command, payload, now);
    ResponseParts(h.requestId, status, data);
  }

  /** An accepted registration puts the caller's own record in front: its pid, volume and mute state, the time, and the
      caller's name cut to 255 bytes. */
  lemma RegisteredInFront(w: World, q: Request, now: Uint64)
    requires InStep(w) && Fits(q) && q.Register? && !Has(w.registry, q.pid)
    ensures var (w', result) := Perform(w, q, now);
            && result == 0 && |w'.registry| > 0 && w'.registry[1..] == w.registry
            && var c, given := w'.registry[0], CString(q.name);
            && c.pid == q.pid && c.volume == q.volume && c.muted == q.muted && c.connectedAt == now
            && CString(c.name) == if |given| <= NAME_SIZE - 1 then given else given[..NAME_SIZE - 1]
  {
    CallInStep(w, q, now);
    StoredNameIsCut(q.name);
  }

  // ---------------------------------------------------------------- runs of calls

  datatype Call = Call(request: Request, now: Uint64)

  /** The world after the calls, and what each returned. */
  function RunCalls(w: World, calls: seq<Call>): (r: (World, seq<int>))
    ensures |r.1| == |calls|
  {
    if calls == [] then (w, [])
    else
      var (before, results) := RunCalls(w, calls[..|calls| - 1]);
      var (after, result) := Perform(before, calls[|calls| - 1].request, calls[|calls| - 1].now);
      (after, results + [result])
  }

  function RunAfter(levels: map<Pid, Level>, calls: seq<Call>): map<Pid, Level> {
    if calls == [] then levels else After(RunAfter(levels, calls[..|calls| - 1]), calls[|calls| - 1].request)
  }

  ghost predicate AllFit(calls: seq<Call>) {
    forall i :: 0 <= i < |calls| ==> Fits(calls[i].request)
  }

  /** Call `i` returned 0 if the map it found accepted it, and -1 otherwise. */
  ghost predicate Truthful(levels: map<Pid, Level>, calls: seq<Call>, results: seq<int>) {
    |results| == |calls| &&
    forall i :: 0 <= i < |calls| ==>
      results[i] == if Accepted(RunAfter(levels, calls[..i]), calls[i].request) then 0 else -1
  }

  lemma TruthfulGrows(levels: map<Pid, Level>, calls: seq<Call>, results: seq<int>, result: int)
    requires calls != [] && Truthful(levels, calls[..|calls| - 1], results)
    requires result == if Accepted(RunAfter(levels, calls[..|calls| - 1]), calls[|calls| - 1].request) then 0 else -1
    ensures Truthful(levels, calls, results + [result])
  {
    var n := |calls| - 1;
    forall i | 0 <= i < |calls|
      ensures (results + [result])[i] == if Accepted(RunAfter(levels, calls[..i]), calls[i].request) then 0 else -1
    {
      if i < n {
        assert calls[..n][..i] == calls[..i] && calls[..n][i] == calls[i];
        assert results[i] == (results + [result])[i];
      } else {
        assert i == n && calls[..i] == calls[..n];
      }
    }
  }

  /** Lockstep over whole runs: as long as every payload fits, both streams are empty after each call, the registry
      holds exactly the map the calls produce, and each caller was told the truth. */
  lemma {:induction false} RunInStep(w: World, calls: seq<Call>, w': World, results: seq<int>)
    requires InStep(w) && DistinctPids(w.registry) && AllFit(calls)
    requires (w', results) == RunCalls(w, calls)
    ensures InStep(w') && DistinctPids(w'.registry)
    ensures Levels(w'.registry) == RunAfter(Levels(w.registry), calls)
    ensures Truthful(Levels(w.registry), calls, results)
  {
    if calls != [] {
      var n := |calls| - 1;
      var (before, earlier) := RunCalls(w, calls[..n]);
      RunInStep(w, calls[..n], before, earlier);
      var q, now := calls[n].request, calls[n].now;
      CallInStep(before, q, now);
      AppliedIsAfter(before.registry, q, now);
      TruthfulGrows(Levels(w.registry), calls, earlier, Perform(before, q, now).1);
    }
  }
}
