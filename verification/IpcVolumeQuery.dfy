/** The three calls that ask the service for a volume (src/ipc/ipc_client.c). As coded none of them can take the
    service's answer about a registered application, because the 9 data bytes come behind an 8-byte IPCResponse and the
    client's buffer holds 9 bytes. What they can take for a volume is an older call's reply. */
module IpcVolumeQuery {
  import opened Words
  import opened IpcCodec
  import opened IpcRegistry
  import opened IpcWire
  import opened IpcLockstep
  import opened IpcOutOfStep
  import opened IpcUnread
  import opened VolumeCache
  import DriverVolume

  const VOLUME_RESPONSE_SIZE: nat := 9

  /** A zero-initialised IPCVolumeResponse after the payload has been received into it. */
  function VolumeResponse(payload: seq<Byte>): seq<Byte> {
    (payload + Zeros(VOLUME_RESPONSE_SIZE))[..VOLUME_RESPONSE_SIZE]
  }

  /** The query every one of the calls makes: the answered volume and mute state, if any. */
  function Query(w: World, pid: Pid, now: Uint64): (World, Option<(Uint32, bool)>) {
    var (w', reply) := Exchanged(w, CMD_GET_VOLUME, I32(pid), VOLUME_RESPONSE_SIZE, now);
    match reply
    case None => (w', None)
    case Some((h, body)) => (w', if h.command == CMD_RESPONSE then VolumeIn(body) else None)
  }

  /** What a query makes of a response. */
  function VolumeIn(body: seq<Byte>): Option<(Uint32, bool)> {
    var r := VolumeResponse(body);
    if ReadI32(r[..4]) == STATUS_OK then Some((ReadU32(r[4..8]), ReadFlag(r[8..9]))) else None
  }

  /** The data of a volume answer. */
  function VolumeData(volume: Uint32, muted: bool): (data: seq<Byte>)
    ensures |data| == 9
  {
    I32(STATUS_OK) + U32(volume) + Flag(muted)
  }

  /** The service answers a known pid with its volume and mute state, and an unknown one with an error. */
  lemma QueryIsDispatched(reg: seq<Client>, pid: Pid, now: Uint64)
    ensures Dispatch(reg, CMD_GET_VOLUME, I32(pid), now) ==
            if Has(reg, pid)
            then (reg, STATUS_OK, VolumeData(reg[Position(reg, pid)].volume, reg[Position(reg, pid)].muted))
            else (reg, STATUS_CLIENT_NOT_FOUND, [])
  {
    PairFields(pid, 0, false);
  }

  lemma ErrorIsNoVolume(status: Pid)
    requires status != STATUS_OK
    ensures ReadI32(VolumeResponse(ResponseBody(status, []))[..4]) != STATUS_OK
  {
    StatusOfBody(status, []);
    assert VolumeResponse(ResponseBody(status, []))[..4] == ResponseBody(status, [])[..4];
  }

  lemma QueryUnknown(w: World, pid: Pid, now: Uint64)
    requires InStep(w) && !Has(w.registry, pid)
    ensures Query(w, pid, now) == (w, None)
  {
    QueryIsDispatched(w.registry, pid, now);
    ExchangeWhole(w, CMD_GET_VOLUME, I32(pid), VOLUME_RESPONSE_SIZE, now, w.registry, STATUS_CLIENT_NOT_FOUND, []);
    ErrorIsNoVolume(STATUS_CLIENT_NOT_FOUND);
  }

  lemma QueryKnown(w: World, pid: Pid, now: Uint64)
    requires InStep(w) && Has(w.registry, pid)
    ensures var c := w.registry[Position(w.registry, pid)];
            Query(w, pid, now) ==
            (w.(toClient := ResponseBody(STATUS_OK, VolumeData(c.volume, c.muted))), None)
  {
    var c := w.registry[Position(w.registry, pid)];
    QueryIsDispatched(w.registry, pid, now);
    ExchangeWhole(w, CMD_GET_VOLUME, I32(pid), VOLUME_RESPONSE_SIZE, now, w.registry, STATUS_OK,
                   VolumeData(c.volume, c.muted));
  }

  /** As coded a query never yields a volume. It leaves the streams in step exactly when the pid is not registered; for
      a registered pid the 17-byte answer stays behind in the client's stream. */
  lemma QueryNeverAnswers(w: World, pid: Pid, now: Uint64)
    requires InStep(w)
    ensures var (w', answer) := Query(w, pid, now);
            && answer == None && w'.registry == w.registry
            && (InStep(w') <==> pid !in Levels(w.registry))
            && |w'.toClient| == if pid in Levels(w.registry) then 17 else 0
  {
    LevelsByPosition(w.registry, pid);
    if Has(w.registry, pid) {
      QueryKnown(w, pid, now);
    } else {
      QueryUnknown(w, pid, now);
    }
  }

  // ---------------------------------------------------------------- queries with anything unread

  /** The service's answer to a query. */
  function QueryAnswer(reg: seq<Client>, pid: Pid): Answer {
    if Has(reg, pid) then
      var c := reg[Position(reg, pid)];
      Answer(1, STATUS_OK, VolumeData(c.volume, c.muted))
    else Bare(1, STATUS_CLIENT_NOT_FOUND)
  }

  lemma QueryServed(reg: seq<Client>, pid: Pid, now: Uint64)
    ensures Drained(reg, EncodeHeader(InitHeader(CMD_GET_VOLUME, 4, 1)) + I32(pid), now)
            == (reg, Replies([QueryAnswer(reg, pid)]))
  {
    var a := QueryAnswer(reg, pid);
    QueryIsDispatched(reg, pid, now);
    RepliesOne(a);
    ServesOne(reg, CMD_GET_VOLUME, I32(pid), now, reg, a.status, a.data);
  }

  /** Whatever is unread, a query leaves the registry alone, and reads what comes first. */
  lemma QueryReads(w: World, u: Unread, pid: Pid, now: Uint64)
    requires Holds(w, u)
    ensures var (u', got) := Next(Joining(u, [QueryAnswer(w.registry, pid)]), VOLUME_RESPONSE_SIZE);
            Query(w, pid, now) ==
            (World(w.registry, [], Bytes(u'), true), if got.Some? then VolumeIn(got.value) else None)
  {
    QueryServed(w.registry, pid, now);
    assert Transmitted(I32(pid)) == I32(pid);
    ExchangesNext(w, u, CMD_GET_VOLUME, I32(pid), VOLUME_RESPONSE_SIZE, now, w.registry,
                  [QueryAnswer(w.registry, pid)]);
  }

  /** An answer below the width of the length field. */
  predicate Short(a: Answer) {
    RESPONSE_SIZE + |a.data| < U32_SIZE
  }

  /** An OK that fits the volume buffer: it has at most one data byte. */
  predicate YieldsVolume(a: Answer) {
    a.status == STATUS_OK && |a.data| <= 1
  }

  /** What it is taken for: its data length as the volume, its data byte as the mute flag. */
  function StaleVolume(a: Answer): (v: (Uint32, bool))
    requires YieldsVolume(a)
    ensures a.data == [] ==> v == (FLOAT_ZERO, false)
  {
    (|a.data|, a.data != [] && a.data[0] != 0)
  }

  lemma BodyAsVolume(status: Pid, data: seq<Byte>)
    ensures ReadI32(VolumeResponse(ResponseBody(status, data))[..4]) == status
    ensures |data| <= 1 ==>
      var r := VolumeResponse(ResponseBody(status, data));
      ReadU32(r[4..8]) == |data| && r[8] == if data == [] then 0 else data[0]
  {
    var body := ResponseBody(status, data);
    var r := VolumeResponse(body);
    StatusOfBody(status, data);
    assert r[..4] == body[..4] && r[4..8] == body[4..8] == U32(Wrap32(|data|));
    NumbersRoundTrip(0, Wrap32(|data|), 0, 0, false);
  }

  lemma WholeAsVolume(a: Answer, later: seq<Answer>)
    requires Short(a)
    ensures var got := Next(Unread([], [a] + later), VOLUME_RESPONSE_SIZE).1;
            var answer := if got.Some? then VolumeIn(got.value) else None;
            && (answer.Some? <==> YieldsVolume(a))
            && (answer.Some? ==> answer.value == StaleVolume(a))
  {
    BodyAsVolume(a.status, a.data);
    var body := ResponseBody(a.status, a.data);
    assert body[..|body|] == body;
  }

  /** The next thing to be read is an OK left over from an older call. */
  predicate StaleOk(u: Unread) {
    u.tail == [] && u.answers != [] && YieldsVolume(u.answers[0])
  }

  predicate OldestShort(u: Unread) {
    u.answers != [] ==> Short(u.answers[0])
  }

  /** Whatever is unread: a query yields a volume if and only if the oldest unread answer is next, is an OK, and has at
      most one data byte. The registered volume is never read. */
  lemma QueryAnswersIff(w: World, u: Unread, pid: Pid, now: Uint64)
    requires Holds(w, u) && OldestShort(u)
    ensures var (w', answer) := Query(w, pid, now);
            && w'.registry == w.registry
            && (answer.Some? <==> StaleOk(u))
            && (answer.Some? ==> answer.value == StaleVolume(u.answers[0]))
  {
    QueryReads(w, u, pid, now);
    NextAsVolume(u, QueryAnswer(w.registry, pid));
  }

  lemma NextAsVolume(u: Unread, own: Answer)
    requires OldestShort(u) && Short(own) && !YieldsVolume(own)
    ensures var got := Next(Joining(u, [own]), VOLUME_RESPONSE_SIZE).1;
            var answer := if got.Some? then VolumeIn(got.value) else None;
            && (answer.Some? <==> StaleOk(u))
            && (answer.Some? ==> answer.value == StaleVolume(u.answers[0]))
  {
    if u.tail == [] {
      if u.answers == [] {
        WholeAsVolume(own, []);
        assert Joining(u, [own]) == Unread([], [own] + []);
      } else {
        WholeAsVolume(u.answers[0], u.answers[1..] + [own]);
        assert Joining(u, [own]) == Unread([], [u.answers[0]] + (u.answers[1..] + [own]));
      }
    }
  }

  /** The query that reads a stale OK leaves its own answer unread. If the pid is registered that answer is an OK as
      well, with nine data bytes, and the next query yields nothing. */
  lemma SecondQueryFails(w: World, pid: Pid, now: Uint64, later: Uint64)
    requires Lagging(w, [Bare(1, STATUS_OK)]) && Has(w.registry, pid)
    ensures var (w', first) := Query(w, pid, now);
            && first == Some((FLOAT_ZERO, false)) && Lagging(w', [QueryAnswer(w.registry, pid)])
            && QueryAnswer(w.registry, pid).status == STATUS_OK && Query(w', pid, later).1 == None
  {
    var u, own := Unread([], [Bare(1, STATUS_OK)]), QueryAnswer(w.registry, pid);
    HoldsWhole(w, [Bare(1, STATUS_OK)]);
    QueryAnswersIff(w, u, pid, now);
    QueryReads(w, u, pid, now);
    BareTaken(STATUS_OK, [own]);
    assert Joining(u, [own]) == Unread([], [Bare(1, STATUS_OK)] + [own]);
    var w' := Query(w, pid, now).0;
    HoldsWhole(w', [own]);
    QueryAnswersIff(w', Unread([], [own]), pid, later);
  }

  lemma BareTaken(status: Pid, later: seq<Answer>)
    ensures Next(Unread([], [Bare(1, status)] + later), VOLUME_RESPONSE_SIZE).0 == Unread([], later)
  {
    assert ([Bare(1, status)] + later)[1..] == later;
  }

  /** What a query about a registered pid made in step leaves behind: the 17 bytes behind its answer's header. */
  lemma QueryLeaves(w: World, pid: Pid, now: Uint64)
    requires InStep(w) && Has(w.registry, pid)
    ensures var a := QueryAnswer(w.registry, pid);
            Query(w, pid, now) == (World(w.registry, [], Bytes(Unread(ResponseBody(a.status, a.data), [])), true), None)
  {
    HoldsNothing(w);
    QueryReads(w, Unread([], []), pid, now);
    assert Joining(Unread([], []), [QueryAnswer(w.registry, pid)]).answers == [QueryAnswer(w.registry, pid)];
  }

  // ---------------------------------------------------------------- the cached lookups

  /** ipc_client_get_volume_fast: result, volume, mute state; a fresh answer would also be cached. */
  datatype Looked = Looked(world: World, cache: Cache<Uint32>, result: int, volume: Uint32, muted: bool)

  function GetVolumeFast(w: World, c: Cache<Uint32>, pid: Pid, now: Uint64): Looked {
    if Hit(c, pid, now) then Looked(w, c, 0, c.volume, c.muted)
    else if !w.connected then Looked(w, c, -1, c.volume, c.muted)
    else
      var (w', answer) := Query(w, pid, now);
      match answer
      case None => Looked(w', c, -1, c.volume, c.muted)
      case Some((volume, muted)) => Looked(w', Cache(pid, volume, muted, now, true), 0, volume, muted)
  }

  /** ipc_client_refresh_cache; `later` is the clock reading taken after the answer. */
  function RefreshCache(w: World, c: Cache<Uint32>, pid: Pid, now: Uint64, later: Uint64): (World, Cache<Uint32>, int) {
    if !w.connected then (w, c, -1)
    else
      var (w', answer) := Query(w, pid, now);
      match answer
      case None => (w', c, -1)
      case Some((volume, muted)) => (w', Cache(pid, volume, muted, later, true), 0)
  }

  /** A disconnected client, or a connection of which it is known what is unread. */
  ghost predicate Traced(w: World, u: Unread) {
    !w.connected || (Holds(w, u) && OldestShort(u))
  }

  predicate StaleNext(w: World, u: Unread) {
    w.connected && StaleOk(u)
  }

  /** The lookup, with or without connection and whatever is unread: it succeeds exactly on a cache hit or when an older
      call's OK is read in place of an answer; then it hands out and caches what that is taken for. */
  lemma FastExactly(w: World, u: Unread, c: Cache<Uint32>, pid: Pid, now: Uint64)
    requires Traced(w, u)
    ensures var r := GetVolumeFast(w, c, pid, now);
            && r.world.registry == w.registry
            && (r.result == 0 <==> Hit(c, pid, now) || StaleNext(w, u))
            && (if Hit(c, pid, now) || !StaleNext(w, u)
                then r.cache == c && r.volume == c.volume && r.muted == c.muted
                else
                  var (volume, muted) := StaleVolume(u.answers[0]);
                  r.cache == Cache(pid, volume, muted, now, true) && r.volume == volume && r.muted == muted)
  {
    if w.connected {
      QueryAnswersIff(w, u, pid, now);
    }
  }

  /** A refresh succeeds exactly when an older call's OK is read, and then caches what that is taken for. */
  lemma RefreshExactly(w: World, u: Unread, c: Cache<Uint32>, pid: Pid, now: Uint64, later: Uint64)
    requires Traced(w, u)
    ensures var (w', c', result) := RefreshCache(w, c, pid, now, later);
            && w'.registry == w.registry
            && (result == 0 <==> StaleNext(w, u))
            && c' == if StaleNext(w, u)
                     then Cache(pid, StaleVolume(u.answers[0]).0, StaleVolume(u.answers[0]).1, later, true) else c
  {
    if w.connected {
      QueryAnswersIff(w, u, pid, now);
    }
  }

  /** On one cache and clock reading the driver's audio thread and the client's fast lookup succeed in the same states
      exactly if a hit finds the driver initialised and the pid positive, and a miss finds no older call's OK next to be
      read. When the driver hits, the lookup gives its value; otherwise the driver plays at full volume. */
  lemma LookupsAgreeIff(w: World, u: Unread, c: Cache<Uint32>, pid: Pid, initialized: bool, now: Uint64)
    requires Traced(w, u)
    ensures var r := GetVolumeFast(w, c, pid, now);
            var driverHits := pid > 0 && initialized && Hit(c, pid, now);
            var played := DriverVolume.Effective(FLOAT_ONE, c, pid, initialized, now);
            && ((r.result == 0 <==> driverHits)
                <==> if Hit(c, pid, now) then pid > 0 && initialized else !StaleNext(w, u))
            && played == if driverHits then (r.volume, r.muted) else (FLOAT_ONE, false)
  {
    FastExactly(w, u, c, pid, now);
  }

  /** When a miss does find such an OK, without data as most are, the lookup reports volume 0 while the driver plays at
      full volume, and as long as the entry is fresh the driver then plays silence. */
  lemma StaleOkSilences(w: World, u: Unread, c: Cache<Uint32>, pid: Pid, now: Uint64, later: Uint64)
    requires pid > 0 && Traced(w, u) && StaleNext(w, u) && u.answers[0].data == [] && !Hit(c, pid, now)
    requires Wrap64(later - now) < TTL_MS
    ensures var r := GetVolumeFast(w, c, pid, now);
            && r.result == 0 && (r.volume, r.muted) == (FLOAT_ZERO, false)
            && DriverVolume.Effective(FLOAT_ONE, c, pid, true, now) == (FLOAT_ONE, false)
            && DriverVolume.Effective(FLOAT_ONE, r.cache, pid, true, later) == (FLOAT_ZERO, false)
  {
    FastExactly(w, u, c, pid, now);
    FreshPlays(pid, now, later);
  }

  lemma FreshPlays(pid: Pid, now: Uint64, later: Uint64)
    requires pid > 0 && Wrap64(later - now) < TTL_MS
    ensures DriverVolume.Effective(FLOAT_ONE, Cache(pid, FLOAT_ZERO, false, now, true), pid, true, later)
            == (FLOAT_ZERO, false)
  {
  }

  /** A run that comes to this from an empty registry: a removal whose header arrives alone, a ping, and a lookup. It
      reports volume 0 for an application nobody registered. */
  lemma StaleOkIsReached(w: World, pid: Pid, now: Uint64)
    requires InStep(w) && w.registry == [] && pid > 0
    ensures var w1 := PerformSplit(w, Unregister(pid), now).0;
            w1.connected
            && var w2 := Perform(w1, Ping, now).0;
               var r := GetVolumeFast(w2, Empty(FLOAT_ONE), pid, now);
               && !Hit(Empty(FLOAT_ONE), pid, now) && r.result == 0 && (r.volume, r.muted) == (FLOAT_ZERO, false)
               && DriverVolume.Effective(FLOAT_ONE, r.cache, pid, true, now) == (FLOAT_ZERO, false)
  {
    var w1 := PerformSplit(w, Unregister(pid), now).0;
    UnregisterArrivesAlone(w, pid, now);
    PingReadsRejection(w1, now);
    HoldsWhole(Perform(w1, Ping, now).0, [Bare(1, STATUS_OK)]);
    StaleOkSilences(Perform(w1, Ping, now).0, Unread([], [Bare(1, STATUS_OK)]), Empty(FLOAT_ONE), pid, now, now);
  }

  lemma UnregisterArrivesAlone(w: World, pid: Pid, now: Uint64)
    requires InStep(w)
    ensures Lagging(PerformSplit(w, Unregister(pid), now).0, [REJECTED])
  {
    assert Transmitted(Payload(Unregister(pid))) == I32(pid);
    SplitArrival(w, Unregister(pid), now, I32(pid));
    assert Rejections(Pieces(4)) == [REJECTED];
  }

  lemma PingReadsRejection(w: World, now: Uint64)
    requires Lagging(w, [REJECTED])
    ensures Lagging(Perform(w, Ping, now).0, [Bare(1, STATUS_OK)])
  {
    CallLagging(w, [REJECTED], Ping, now);
    assert ([REJECTED] + [Bare(1, STATUS_OK)])[1..] == [Bare(1, STATUS_OK)];
  }
}
