/** Runs of every kind of call (src/ipc/ipc_client.c): registrations, removals, settings and pings, volume queries and
    listings, in any order and whatever is unread. The byte streams are proved to behave as a queue of answers, and from
    that it follows how long a client that has begun to misread its replies goes on failing. */
module IpcMixedRuns {
  import opened Words
  import opened IpcCodec
  import opened IpcRegistry
  import opened IpcWire
  import opened IpcLockstep
  import opened IpcOutOfStep
  import opened IpcUnread
  import opened IpcVolumeQuery
  import opened IpcListing
  import opened IpcQuiet

  // ---------------------------------------------------------------- one call of any kind

  datatype Move = Do(request: Request) | Ask(pid: Pid) | Enumerate

  datatype Turn = Turn(move: Move, now: Uint64)

  /** What a call returns to its caller. */
  datatype Told = Code(code: int) | Heard(level: Option<(Uint32, bool)>) | Apps(apps: Option<seq<Client>>)

  predicate Failed(told: Told) {
    match told
    case Code(code) => code == -1
    case Heard(level) => level.None?
    case Apps(apps) => apps.None?
  }

  function Act(w: World, t: Turn): (World, Told) {
    match t.move
    case Do(q) =>
      var (w', code) := Perform(w, q, t.now);
      (w', Code(code))
    case Ask(pid) =>
      var (w', level) := Query(w, pid, t.now);
      (w', Heard(level))
    case Enumerate =>
      var (w', apps) := ListApps(w, t.now);
      (w', Apps(apps))
  }

  /** What the service does on a call's message and what it answers: once, or for an oversized registration once for the
      header and once for every 16 bytes behind it. */
  function Served(reg: seq<Client>, t: Turn): (r: (seq<Client>, seq<Answer>))
    ensures r.1 != []
  {
    match t.move
    case Do(q) =>
      var payload := Transmitted(Payload(q));
      if |payload| > MAX_PAYLOAD then (reg, Rejections(Pieces(|payload|) + 1))
      else
        var (reg', status, _) := Dispatch(reg, Command(q), payload, t.now);
        (reg', [Bare(1, status)])
    case Ask(pid) => (reg, [QueryAnswer(reg, pid)])
    case Enumerate => (reg, [ListAnswer(reg)])
  }

  /** A fitting request is carried out and answered once. */
  lemma FittingIsServed(reg: seq<Client>, q: Request, now: Uint64)
    requires Fits(q)
    ensures Served(reg, Turn(Do(q), now)) == (Applied(reg, q, now), [Bare(1, StatusOf(reg, q))])
  {
    DispatchIsApplied(reg, q, now);
  }

  lemma RequestIsBare(reg: seq<Client>, q: Request, payload: seq<Byte>, now: Uint64)
    ensures var (_, status, data) := Dispatch(reg, Command(q), payload, now); data == [] && -8 < status <= 0
  {
  }

  lemma OnceServed(reg: seq<Client>, q: Request, now: Uint64)
    requires |Transmitted(Payload(q))| <= MAX_PAYLOAD
    ensures var (reg', answers) := Served(reg, Turn(Do(q), now));
            Drained(reg, EncodeHeader(HeaderOf(q)) + Transmitted(Payload(q)), now) == (reg', Replies(answers))
  {
    var payload := Transmitted(Payload(q));
    RequestIsBare(reg, q, payload, now);
    var answer := Dispatch(reg, Command(q), payload, now);
    ServesSent(reg, HeaderOf(q), payload, now, answer.0, answer.1);
  }

  lemma OftenServed(reg: seq<Client>, q: Request, payload: seq<Byte>, served: (seq<Client>, seq<Answer>), now: Uint64)
    requires payload == Transmitted(Payload(q)) && |payload| > MAX_PAYLOAD
    requires served == (reg, Rejections(Pieces(|payload|) + 1))
    ensures Drained(reg, EncodeHeader(HeaderOf(q)) + payload, now) == (served.0, Replies(served.1))
  {
    OversizedServed(reg, q, payload, now);
  }

  lemma RequestServed(reg: seq<Client>, q: Request, now: Uint64)
    ensures var (reg', answers) := Served(reg, Turn(Do(q), now));
            Drained(reg, EncodeHeader(HeaderOf(q)) + Transmitted(Payload(q)), now) == (reg', Replies(answers))
  {
    if |Transmitted(Payload(q))| > MAX_PAYLOAD {
      OftenServed(reg, q, Transmitted(Payload(q)), Served(reg, Turn(Do(q), now)), now);
    } else {
      OnceServed(reg, q, now);
    }
  }

  function Size(move: Move): nat {
    match move
    case Do(_) => RESPONSE_SIZE
    case Ask(_) => VOLUME_RESPONSE_SIZE
    case Enumerate => MAX_PAYLOAD
  }

  /** What a call makes of what it has read, if anything. */
  function Meant(move: Move, got: Option<seq<Byte>>): (told: Told)
    ensures got.None? ==> Failed(told)
  {
    match move
    case Do(_) => Code(if got.Some? && StatusIn(got.value) == STATUS_OK then 0 else -1)
    case Ask(_) => Heard(if got.Some? then VolumeIn(got.value) else None)
    case Enumerate => Apps(if got.Some? then Some(ParseRecords(got.value, |got.value| / RECORD_SIZE)) else None)
  }

  /** A call on the queue of answers: its own join, and it reads what comes first. */
  function Turned(u: Unread, reg: seq<Client>, t: Turn): (Unread, Told) {
    var (u', got) := Next(Joining(u, Served(reg, t).1), Size(t.move));
    (u', Meant(t.move, got))
  }

  /** On the byte streams a call does just that, whatever is unread. */
  lemma ActsAsTurned(w: World, u: Unread, t: Turn)
    requires Holds(w, u)
    ensures var (u', told) := Turned(u, w.registry, t);
            Act(w, t) == (World(Served(w.registry, t).0, [], Bytes(u'), true), told)
  {
    match t.move
    case Do(q) =>
      var (reg, answers) := Served(w.registry, t);
      RequestServed(w.registry, q, t.now);
      ExchangesNext(w, u, Command(q), Payload(q), RESPONSE_SIZE, t.now, reg, answers);
    case Ask(pid) => QueryReads(w, u, pid, t.now);
    case Enumerate => ListReads(w, u, t.now);
  }

  // ---------------------------------------------------------------- runs

  function RunTurns(w: World, turns: seq<Turn>): (r: (World, seq<Told>))
    ensures |r.1| == |turns|
  {
    if turns == [] then (w, [])
    else
      var (before, told) := RunTurns(w, turns[..|turns| - 1]);
      var (after, last) := Act(before, turns[|turns| - 1]);
      (after, told + [last])
  }

  function RunServed(reg: seq<Client>, turns: seq<Turn>): seq<Client> {
    if turns == [] then reg else Served(RunServed(reg, turns[..|turns| - 1]), turns[|turns| - 1]).0
  }

  /** All answers the service sends during the run, in order. */
  function AllServed(reg: seq<Client>, turns: seq<Turn>): (answers: seq<Answer>)
    ensures |answers| >= |turns|
  {
    if turns == [] then []
    else
      var n := |turns| - 1;
      AllServed(reg, turns[..n]) + Served(RunServed(reg, turns[..n]), turns[n]).1
  }

  function RunUnread(u: Unread, reg: seq<Client>, turns: seq<Turn>): (r: (Unread, seq<Told>))
    ensures |r.1| == |turns|
  {
    if turns == [] then (u, [])
    else
      var n := |turns| - 1;
      var (before, told) := RunUnread(u, reg, turns[..n]);
      var (after, last) := Turned(before, RunServed(reg, turns[..n]), turns[n]);
      (after, told + [last])
  }

  /** Every list asked for during the run is quiet: ListIsQuiet says which are. */
  ghost predicate QuietTurns(reg: seq<Client>, turns: seq<Turn>) {
    forall i :: 0 <= i < |turns| && turns[i].move.Enumerate? ==> Quiet(ListAnswer(RunServed(reg, turns[..i])))
  }

  lemma QuietBefore(reg: seq<Client>, turns: seq<Turn>, n: nat)
    requires QuietTurns(reg, turns) && n <= |turns|
    ensures QuietTurns(reg, turns[..n])
  {
    forall i | 0 <= i < n && turns[i].move.Enumerate? ensures Quiet(ListAnswer(RunServed(reg, turns[..n][..i]))) {
      assert turns[..n][..i] == turns[..i];
    }
  }

  lemma ServedIsQuiet(reg: seq<Client>, t: Turn)
    requires t.move.Enumerate? ==> Quiet(ListAnswer(reg))
    ensures AllQuiet(Served(reg, t).1)
  {
    match t.move
    case Do(q) =>
      RequestIsBare(reg, q, Transmitted(Payload(q)), t.now);
      forall i | 0 <= i < |Served(reg, t).1| ensures Quiet(Served(reg, t).1[i]) {
        BareIsQuiet(Served(reg, t).1[i]);
      }
    case Ask(pid) => QueryAnswerIsQuiet(reg, pid);
    case Enumerate =>
  }

  lemma TurnedIsQuiet(u: Unread, reg: seq<Client>, t: Turn)
    requires Silent(u.tail) && AllQuiet(u.answers) && (t.move.Enumerate? ==> Quiet(ListAnswer(reg)))
    ensures Silent(Turned(u, reg, t).0.tail) && AllQuiet(Turned(u, reg, t).0.answers)
  {
    ServedIsQuiet(reg, t);
    NextIsSilent(Joining(u, Served(reg, t).1), Size(t.move));
  }

  /** Over every run of calls, of every kind and fitting or not, the byte streams are the queue of answers: what each
      caller is told, what is left unread, and the registry. */
  lemma {:induction false} RunRefines(w: World, u: Unread, turns: seq<Turn>)
    requires Holds(w, u) && AllQuiet(u.answers) && QuietTurns(w.registry, turns)
    ensures var (u', told) := RunUnread(u, w.registry, turns);
            && RunTurns(w, turns) == (World(RunServed(w.registry, turns), [], Bytes(u'), true), told)
            && Holds(RunTurns(w, turns).0, u') && AllQuiet(u'.answers)
    decreases |turns|
  {
    if turns == [] {
    } else {
      var n := |turns| - 1;
      QuietBefore(w.registry, turns, n);
      RunRefines(w, u, turns[..n]);
      var before, between := RunTurns(w, turns[..n]).0, RunUnread(u, w.registry, turns[..n]).0;
      ActsAsTurned(before, between, turns[n]);
      TurnedIsQuiet(between, before.registry, turns[n]);
    }
  }

  // ---------------------------------------------------------------- no way back, with calls of every kind

  predicate Something(u: Unread) {
    u.tail != [] || u.answers != []
  }

  lemma SomethingIsBytes(u: Unread)
    ensures Something(u) <==> Bytes(u) != []
  {
    if u.answers != [] {
      RepliesHead(u.answers);
    } else {
      RepliesNone();
    }
  }

  lemma {:induction false} RunLeavesSomething(u: Unread, reg: seq<Client>, turns: seq<Turn>)
    requires Something(u)
    ensures Something(RunUnread(u, reg, turns).0)
  {
    if turns == [] {
    } else {
      RunLeavesSomething(u, reg, turns[..|turns| - 1]);
    }
  }

  /** A connection with anything unread is not brought back in step by calls of any kind, queries and listings
      included. */
  lemma NoTurnsBackInStep(w: World, u: Unread, turns: seq<Turn>)
    requires Holds(w, u) && AllQuiet(u.answers) && QuietTurns(w.registry, turns) && Bytes(u) != []
    ensures RunTurns(w, turns).0.connected && !InStep(RunTurns(w, turns).0)
  {
    SomethingIsBytes(u);
    RunRefines(w, u, turns);
    RunLeavesSomething(u, w.registry, turns);
    SomethingIsBytes(RunUnread(u, w.registry, turns).0);
  }
}
