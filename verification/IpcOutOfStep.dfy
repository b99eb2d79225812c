/** How the two byte streams fall out of step (src/ipc/ipc_client.c, src/ipc/ipc_server.c), and what happens then. A
    registration whose payload exceeds the service's limit, or a request whose header is handled before its payload has
    arrived, makes the service take payload bytes for headers and answer once for each 16 of them. From then on every
    call reads an older call's reply. */
module IpcOutOfStep {
  import opened Words
  import opened IpcCodec
  import opened IpcRegistry
  import opened IpcWire
  import opened IpcLockstep

  /** What the service answers to one message. */
  datatype Answer = Answer(id: Uint32, status: Pid, data: seq<Byte>)

  /** An answer without data, as registrations, removals, settings, pings and errors get. */
  function Bare(id: Uint32, status: Pid): Answer {
    Answer(id, status, [])
  }

  const REJECTED: Answer := Bare(0, STATUS_INVALID_HEADER)

  function Reply(a: Answer): (bytes: seq<Byte>)
    ensures |bytes| == HEADER_SIZE + RESPONSE_SIZE + |a.data|
  {
    EncodeResponse(a.id, a.status, a.data)
  }

  function Joined(blocks: seq<seq<Byte>>): seq<Byte> {
    if blocks == [] then [] else blocks[0] + Joined(blocks[1..])
  }

  function Blocks(answers: seq<Answer>): (blocks: seq<seq<Byte>>)
    ensures |blocks| == |answers|
  {
    seq(|answers|, i requires 0 <= i < |answers| => Reply(answers[i]))
  }

  /** The replies one behind the other. */
  function Replies(answers: seq<Answer>): seq<Byte> {
    Joined(Blocks(answers))
  }

  function Rejections(n: nat): (answers: seq<Answer>)
    ensures |answers| == n
  {
    seq(n, _ => REJECTED)
  }

  lemma {:induction false} JoinedAppend(a: seq<seq<Byte>>, b: seq<seq<Byte>>)
    ensures Joined(a + b) == Joined(a) + Joined(b)
  {
    if a == [] {
      assert a + b == b;
    } else {
      JoinedAppend(a[1..], b);
      assert (a + b)[1..] == a[1..] + b;
      Associate(a[0], Joined(a[1..]), Joined(b));
    }
  }

  lemma RepliesAppend(a: seq<Answer>, b: seq<Answer>)
    ensures Replies(a + b) == Replies(a) + Replies(b)
  {
    assert Blocks(a + b) == Blocks(a) + Blocks(b);
    JoinedAppend(Blocks(a), Blocks(b));
  }

  lemma RepliesNone()
    ensures Replies([]) == []
  {
  }

  lemma RepliesHead(answers: seq<Answer>)
    requires answers != []
    ensures Replies(answers) == Reply(answers[0]) + Replies(answers[1..])
  {
    assert Blocks(answers)[1..] == Blocks(answers[1..]);
  }

  lemma RepliesOne(a: Answer)
    ensures Replies([a]) == Reply(a)
  {
    RepliesHead([a]);
    RepliesNone();
    assert [a][1..] == [] && Reply(a) + [] == Reply(a);
  }

  // ---------------------------------------------------------------- the service reads the payload as headers

  /** Cut into 16-byte pieces, nothing in the stream is a valid header. */
  predicate Nonsense(stream: seq<Byte>)
    decreases |stream|
  {
    |stream| < HEADER_SIZE || (!ValidHeader(DecodeHeader(stream[..HEADER_SIZE])) && Nonsense(stream[HEADER_SIZE..]))
  }

  /** The 16-byte pieces of a stream, the last one possibly shorter. */
  function Pieces(length: nat): nat {
    (length + HEADER_SIZE - 1) / HEADER_SIZE
  }

  lemma PiecesCount(length: nat)
    ensures length >= HEADER_SIZE ==> Pieces(length) == Pieces(length - HEADER_SIZE) + 1
    ensures 0 < length < HEADER_SIZE ==> Pieces(length) == 1
    ensures length == 0 ==> Pieces(length) == 0
  {
  }

  lemma ManyPieces(length: nat)
    requires length > MAX_PAYLOAD
    ensures Pieces(length) >= 257
  {
  }

  lemma RejectionsCons(n: nat)
    ensures Reply(REJECTED) + Replies(Rejections(n)) == Replies(Rejections(n + 1))
    ensures Replies(Rejections(n + 1)) != []
  {
    RepliesHead(Rejections(n + 1));
    assert Rejections(n + 1)[1..] == Rejections(n);
  }

  lemma RejectedFirst(reg: seq<Client>, stream: seq<Byte>, now: Uint64, rest: seq<Byte>, n: nat)
    requires stream != [] && Handled(reg, stream, now) == (reg, rest, Reply(REJECTED))
    requires Drained(reg, rest, now) == (reg, Replies(Rejections(n)))
    ensures Drained(reg, stream, now) == (reg, Replies(Rejections(n + 1)))
  {
    RejectionsCons(n);
  }

  lemma DrainedNothing(reg: seq<Client>, now: Uint64)
    ensures Drained(reg, [], now) == (reg, Replies(Rejections(0)))
  {
    assert Rejections(0) == [];
    RepliesNone();
  }

  lemma {:induction false} NonsenseIsRejected(reg: seq<Client>, stream: seq<Byte>, now: Uint64)
    requires Nonsense(stream)
    ensures Drained(reg, stream, now) == (reg, Replies(Rejections(Pieces(|stream|))))
    decreases |stream|
  {
    PiecesCount(|stream|);
    if stream == [] {
      DrainedNothing(reg, now);
    } else if |stream| < HEADER_SIZE {
      DrainedNothing(reg, now);
      RejectedFirst(reg, stream, now, [], 0);
    } else {
      NonsenseIsRejected(reg, stream[HEADER_SIZE..], now);
      RejectedFirst(reg, stream, now, stream[HEADER_SIZE..], Pieces(|stream| - HEADER_SIZE));
    }
  }

  lemma FromLeAtLeast(bytes: seq<Byte>, i: nat)
    requires i < |bytes| && bytes[i] != 0
    ensures FromLe(bytes) >= Power256(i)
  {
    if i > 0 {
      FromLeAtLeast(bytes[1..], i - 1);
    }
  }

  lemma LongPayloadInvalid(piece: seq<Byte>)
    requires |piece| == HEADER_SIZE && piece[11] != 0
    ensures !ValidHeader(DecodeHeader(piece))
  {
    FromLeAtLeast(piece[8..12], 3);
    assert Power256(3) == 256 * Power256(2);
    Powers();
  }

  lemma WrongVersionInvalid(piece: seq<Byte>)
    requires |piece| == HEADER_SIZE && piece[5] != 0
    ensures !ValidHeader(DecodeHeader(piece))
  {
    FromLeAtLeast(piece[4..6], 1);
    Powers();
  }

  /** A name holds no header, terminated or cut off: the version field would need a zero byte. */
  lemma {:induction false} NameIsNonsense(s: seq<Byte>, tail: seq<Byte>)
    requires 0 !in s && |tail| <= 1
    ensures Nonsense(s + tail)
    decreases |s|
  {
    var stream := s + tail;
    if |stream| >= HEADER_SIZE {
      assert stream[..HEADER_SIZE][5] == s[5];
      WrongVersionInvalid(stream[..HEADER_SIZE]);
      if |s| >= HEADER_SIZE {
        NameIsNonsense(s[HEADER_SIZE..], tail);
        assert stream[HEADER_SIZE..] == s[HEADER_SIZE..] + tail;
      } else {
        assert stream[HEADER_SIZE..] == [];
      }
    }
  }

  /** Nine bytes of numbers followed by a name hold none either: a name that is long enough falls on the payload
      length. */
  lemma NumbersAndNameAreNonsense(p: seq<Byte>, s: seq<Byte>, tail: seq<Byte>)
    requires |p| >= 9 && p[9..] == s + tail && 0 !in s && |tail| <= 1
    ensures Nonsense(p)
  {
    if |p| >= HEADER_SIZE {
      assert |s| >= 6;
      assert p[11] == p[9..][2] == s[2];
      LongPayloadInvalid(p[..HEADER_SIZE]);
      if |s| > 6 {
        NameIsNonsense(s[7..], tail);
        assert p[HEADER_SIZE..] == p[9..][7..] == s[7..] + tail;
      } else {
        assert p[HEADER_SIZE..] == [];
      }
    }
  }

  /** No request's payload contains a header, however much of it is sent. */
  lemma PayloadIsNonsense(q: Request, n: nat)
    requires n <= |Payload(q)|
    ensures Nonsense(Payload(q)[..n])
  {
    if n >= HEADER_SIZE {
      var p, s := Payload(q), CString(q.name);
      RegisterFields(q.pid, q.name, q.volume, q.muted);
      if n == |p| {
        assert p[..n] == p;
        NumbersAndNameAreNonsense(p, s, [0]);
      } else {
        assert p[..n][9..] == p[9..][..n - 9] == s[..n - 9] + [];
        NumbersAndNameAreNonsense(p[..n], s[..n - 9], []);
      }
    }
  }

  // ---------------------------------------------------------------- the client reads one reply a call

  lemma ReceivesOldest(w: World, answers: seq<Answer>, later: seq<Byte>, size: nat)
    requires answers != [] && w.toClient == Replies(answers) + later
    ensures Received(w, size) ==
            Taken(w, answers[0].id, answers[0].status, answers[0].data, Replies(answers[1..]) + later, size)
  {
    var a, rest := answers[0], Replies(answers[1..]) + later;
    RepliesHead(answers);
    Associate(Reply(a), Replies(answers[1..]), later);
    ReceivesReply(w, a.id, a.status, a.data, rest, size);
  }

  function ResultOf(a: Answer): int {
    if a.status == STATUS_OK then 0 else -1
  }

  /** A connection whose client has `answers` still to read. */
  predicate Lagging(w: World, answers: seq<Answer>) {
    w.connected && w.toServer == [] && w.toClient == Replies(answers)
  }

  lemma ConcludesOldest(w: World, answers: seq<Answer>)
    requires answers != [] && answers[0].data == [] && w.toClient == Replies(answers)
    ensures Concluded(Received(w, RESPONSE_SIZE)) == (w.(toClient := Replies(answers[1..])), ResultOf(answers[0]))
  {
    var a := answers[0];
    assert w.toClient == Replies(answers) + [];
    ReceivesOldest(w, answers, [], RESPONSE_SIZE);
    TakenWhole(w, a.id, a.status, [], Replies(answers[1..]) + [], RESPONSE_SIZE);
    assert Replies(answers[1..]) + [] == Replies(answers[1..]);
    StatusReceived(a.status);
  }

  lemma SendLagging(w: World, answers: seq<Answer>, served: seq<Answer>, reg: seq<Client>, h: Header,
                    payload: seq<Byte>, now: Uint64)
    requires Lagging(w, answers) && Drained(w.registry, EncodeHeader(h) + payload, now) == (reg, Replies(served))
    ensures Sent(w, h, payload, now) == World(reg, [], Replies(answers + served), true)
  {
    SentBehind(w, h, payload, now, reg, Replies(served));
    RepliesAppend(answers, served);
  }

  /** The header a call sends. */
  function HeaderOf(q: Request): Header {
    InitHeader(Command(q), Wrap32(|Payload(q)|), 1)
  }

  /** When the service answers a call with `served`, the call reads the oldest unread answer. */
  lemma ReadsOldest(w: World, answers: seq<Answer>, served: seq<Answer>, reg: seq<Client>, q: Request,
                    payload: seq<Byte>, now: Uint64)
    requires Lagging(w, answers) && served != [] && payload == Transmitted(Payload(q))
    requires (answers + served)[0].data == []
    requires Drained(w.registry, EncodeHeader(HeaderOf(q)) + payload, now) == (reg, Replies(served))
    ensures Perform(w, q, now) ==
            (World(reg, [], Replies((answers + served)[1..]), true), ResultOf((answers + served)[0]))
  {
    SendLagging(w, answers, served, reg, HeaderOf(q), payload, now);
    ConcludesOldest(World(reg, [], Replies(answers + served), true), answers + served);
  }

  /** What is sent of a request, within the limit, is dispatched and answered once. */
  lemma ServesSent(reg: seq<Client>, h: Header, payload: seq<Byte>, now: Uint64, reg': seq<Client>, status: Pid)
    requires KnownCommand(h.command) && |payload| <= MAX_PAYLOAD && h == InitHeader(h.command, |payload|, 1)
    requires Dispatch(reg, h.command, payload, now) == (reg', status, [])
    ensures Drained(reg, EncodeHeader(h) + payload, now) == (reg', Replies([Bare(1, status)]))
  {
    RepliesOne(Bare(1, status));
    ServesOne(reg, h.command, payload, now, reg', status, []);
  }

  lemma RejectsAll(reg: seq<Client>, h: Header, payload: seq<Byte>, now: Uint64)
    requires !ValidHeader(h) && Nonsense(payload)
    ensures Drained(reg, EncodeHeader(h) + payload, now) == (reg, Replies(Rejections(Pieces(|payload|) + 1)))
  {
    FramingSplits(h, payload);
    NonsenseIsRejected(reg, payload, now);
    RejectedFirst(reg, EncodeHeader(h) + payload, now, payload, Pieces(|payload|));
  }

  lemma RejectionsShift(n: nat)
    ensures ([] + Rejections(n + 1))[1..] == Rejections(n) && ([] + Rejections(n + 1))[0] == REJECTED
    ensures Replies([]) == []
  {
    RepliesNone();
  }

  lemma OversizedServed(reg: seq<Client>, q: Request, payload: seq<Byte>, now: Uint64)
    requires payload == Transmitted(Payload(q)) && |payload| > MAX_PAYLOAD
    ensures Drained(reg, EncodeHeader(HeaderOf(q)) + payload, now)
            == (reg, Replies(Rejections(Pieces(|payload|) + 1)))
  {
    PayloadIsNonsense(q, Wrap32(|Payload(q)|));
    RejectsAll(reg, HeaderOf(q), payload, now);
  }

  /** A registration of which more than the limit is sent changes nothing in the registry, returns -1, and leaves one
      rejection in the client's stream for every 16 bytes sent behind the header. */
  lemma OversizedRegistration(w: World, q: Request, now: Uint64, payload: seq<Byte>)
    requires InStep(w) && payload == Transmitted(Payload(q)) && |payload| > MAX_PAYLOAD
    ensures Perform(w, q, now) == (World(w.registry, [], Replies(Rejections(Pieces(|payload|))), true), -1)
    ensures Pieces(|payload|) >= 257
  {
    ManyPieces(|payload|);
    OversizedServed(w.registry, q, payload, now);
    RejectionsRead(w, q, now, HeaderOf(q), payload, Pieces(|payload|), Perform(w, q, now));
  }

  lemma RejectionsRead(w: World, q: Request, now: Uint64, h: Header, payload: seq<Byte>, n: nat, after: (World, int))
    requires InStep(w) && payload == Transmitted(Payload(q)) && h == HeaderOf(q) && after == Perform(w, q, now)
    requires Drained(w.registry, EncodeHeader(h) + payload, now) == (w.registry, Replies(Rejections(n + 1)))
    ensures after == (World(w.registry, [], Replies(Rejections(n)), true), -1)
  {
    ReadsRejections(w, q, now, h, payload, n);
  }

  lemma ReadsRejections(w: World, q: Request, now: Uint64, h: Header, payload: seq<Byte>, n: nat)
    requires InStep(w) && payload == Transmitted(Payload(q)) && h == HeaderOf(q)
    requires Drained(w.registry, EncodeHeader(h) + payload, now) == (w.registry, Replies(Rejections(n + 1)))
    ensures Perform(w, q, now) == (World(w.registry, [], Replies(Rejections(n)), true), -1)
  {
    RejectionsShift(n);
    ReadsOldest(w, [], Rejections(n + 1), w.registry, q, payload, now);
  }

  lemma AnsweredOnce(w: World, q: Request, now: Uint64, payload: seq<Byte>, reg: seq<Client>, status: Pid)
    requires InStep(w) && payload == Transmitted(Payload(q)) && |payload| <= MAX_PAYLOAD
    requires Dispatch(w.registry, Command(q), payload, now) == (reg, status, [])
    ensures Perform(w, q, now) == (World(reg, [], [], true), ResultOf(Bare(1, status)))
  {
    ServesSent(w.registry, HeaderOf(q), payload, now, reg, status);
    OneAnswer(Bare(1, status));
    ReadsOldest(w, [], [Bare(1, status)], reg, q, payload, now);
  }

  lemma OneAnswer(a: Answer)
    ensures ([] + [a])[1..] == [] && ([] + [a])[0] == a && Replies([]) == []
  {
    RepliesNone();
  }

  lemma RegisterAnswersBare(reg: seq<Client>, payload: seq<Byte>, now: Uint64)
    ensures Dispatch(reg, CMD_REGISTER, payload, now).2 == []
  {
  }

  /** A registration so long that its length wraps to an allowed one is cut short and answered once. */
  lemma WrappedRegistration(w: World, q: Request, now: Uint64)
    requires InStep(w) && q.Register? && |Transmitted(Payload(q))| <= MAX_PAYLOAD
    ensures InStep(Perform(w, q, now).0)
  {
    var payload := Transmitted(Payload(q));
    RegisterAnswersBare(w.registry, payload, now);
    var answer := Dispatch(w.registry, CMD_REGISTER, payload, now);
    AnsweredOnce(w, q, now, payload, answer.0, answer.1);
  }

  /** A call leaves the streams in step exactly when what it sends of its payload is within the limit. */
  lemma StepKeptIffFits(w: World, q: Request, now: Uint64)
    requires InStep(w)
    ensures InStep(Perform(w, q, now).0) <==> |Transmitted(Payload(q))| <= MAX_PAYLOAD
  {
    var payload := Transmitted(Payload(q));
    if |payload| > MAX_PAYLOAD {
      OversizedRegistration(w, q, now, payload);
      RejectionsCons(Pieces(|payload|) - 1);
    } else if Fits(q) {
      CallInStep(w, q, now);
    } else {
      WrappedRegistration(w, q, now);
    }
  }

  // ---------------------------------------------------------------- a header that arrives alone

  /** ipc_client_send with the service's turn coming between its two sends. */
  function SentSplit(w: World, h: Header, payload: seq<Byte>, now: Uint64): World {
    var (reg1, first) := Drained(w.registry, w.toServer + EncodeHeader(h), now);
    var (reg2, second) := Drained(reg1, payload, now);
    World(reg2, [], w.toClient + first + second, w.connected)
  }

  function PerformSplit(w: World, q: Request, now: Uint64): (World, int)
    requires w.connected
  {
    Concluded(Received(SentSplit(w, HeaderOf(q), Transmitted(Payload(q)), now), RESPONSE_SIZE))
  }

  const TOO_LARGE: Answer := Bare(1, STATUS_PAYLOAD_TOO_LARGE)

  lemma HeaderAlone(reg: seq<Client>, command: Uint16, length: Uint32, now: Uint64)
    requires KnownCommand(command) && 0 < length <= MAX_PAYLOAD
    ensures Drained(reg, EncodeHeader(InitHeader(command, length, 1)), now) == (reg, Replies([TOO_LARGE]))
  {
    var h := InitHeader(command, length, 1);
    FramingSplits(h, []);
    RepliesOne(TOO_LARGE);
    assert EncodeHeader(h) + [] == EncodeHeader(h);
    assert Handled(reg, EncodeHeader(h), now) == (reg, [], EncodeResponse(1, STATUS_PAYLOAD_TOO_LARGE, []));
    assert Drained(reg, [], now) == (reg, []);
    assert EncodeResponse(1, STATUS_PAYLOAD_TOO_LARGE, []) + [] == EncodeResponse(1, STATUS_PAYLOAD_TOO_LARGE, []);
  }

  /** Then the request is lost: the call fails, the registry stays as it was, and at least one reply too many is
      left. */
  lemma SplitArrival(w: World, q: Request, now: Uint64, payload: seq<Byte>)
    requires InStep(w) && payload == Transmitted(Payload(q)) && 0 < |payload| <= MAX_PAYLOAD
    ensures PerformSplit(w, q, now) == (World(w.registry, [], Replies(Rejections(Pieces(|payload|))), true), -1)
    ensures Pieces(|payload|) >= 1
  {
    var lost := Rejections(Pieces(|payload|));
    PayloadIsNonsense(q, Wrap32(|Payload(q)|));
    SplitServed(w, Command(q), payload, now);
    SplitConcludes(w, q, now, payload, w.registry, [TOO_LARGE] + lost);
    assert ([TOO_LARGE] + lost)[1..] == lost;
  }

  lemma SplitConcludes(w: World, q: Request, now: Uint64, payload: seq<Byte>, reg: seq<Client>, all: seq<Answer>)
    requires w.connected && payload == Transmitted(Payload(q)) && all != [] && all[0].data == []
    requires SentSplit(w, HeaderOf(q), payload, now) == World(reg, [], Replies(all), true)
    ensures PerformSplit(w, q, now) == (World(reg, [], Replies(all[1..]), true), ResultOf(all[0]))
  {
    ConcludesOldest(World(reg, [], Replies(all), true), all);
  }

  lemma RejectsAlone(reg: seq<Client>, h: Header, now: Uint64)
    requires !ValidHeader(h)
    ensures Drained(reg, EncodeHeader(h), now) == (reg, Replies(Rejections(1)))
  {
    FramingSplits(h, []);
    DrainedNothing(reg, now);
    assert EncodeHeader(h) + [] == EncodeHeader(h);
    assert Handled(reg, EncodeHeader(h), now) == (reg, [], Reply(REJECTED));
    RejectedFirst(reg, EncodeHeader(h), now, [], 0);
  }

  /** An oversized request fares as it does when it arrives in one piece. */
  lemma SplitOversized(w: World, q: Request, now: Uint64, payload: seq<Byte>)
    requires InStep(w) && payload == Transmitted(Payload(q)) && |payload| > MAX_PAYLOAD
    ensures PerformSplit(w, q, now) == (World(w.registry, [], Replies(Rejections(Pieces(|payload|))), true), -1)
  {
    var n := Pieces(|payload|);
    PayloadIsNonsense(q, Wrap32(|Payload(q)|));
    RejectsAlone(w.registry, HeaderOf(q), now);
    NonsenseIsRejected(w.registry, payload, now);
    SentInTwo(w, HeaderOf(q), payload, now, Replies(Rejections(1)), Replies(Rejections(n)));
    RepliesAppend(Rejections(1), Rejections(n));
    SplitConcludes(w, q, now, payload, w.registry, Rejections(1) + Rejections(n));
    assert (Rejections(1) + Rejections(n))[1..] == Rejections(n);
  }

  lemma SentAlone(w: World, h: Header, now: Uint64, reg: seq<Client>, a: Answer)
    requires InStep(w) && Drained(w.registry, EncodeHeader(h) + [], now) == (reg, Replies([a]))
    ensures SentSplit(w, h, [], now) == World(reg, [], Replies([a]), true)
  {
    NothingAround(w.toServer, EncodeHeader(h));
    NothingAround(w.toClient, Replies([a]));
    assert w.toServer + EncodeHeader(h) == EncodeHeader(h) + [];
    DrainedNothing(reg, now);
  }

  lemma NothingAround(x: seq<Byte>, y: seq<Byte>)
    requires x == []
    ensures x + y == y && y + [] == y && x + y + [] == y
  {
  }

  lemma SplitEmpty(w: World, q: Request, now: Uint64)
    requires InStep(w) && Transmitted(Payload(q)) == []
    ensures InStep(PerformSplit(w, q, now).0)
  {
    EmptyAnswersBare(w.registry, q, now);
    var answer := Dispatch(w.registry, Command(q), [], now);
    var a := Bare(1, answer.1);
    ServesSent(w.registry, HeaderOf(q), [], now, answer.0, answer.1);
    SentAlone(w, HeaderOf(q), now, answer.0, a);
    SplitConcludes(w, q, now, [], answer.0, [a]);
    assert [a][1..] == [];
    RepliesNone();
  }

  lemma EmptyAnswersBare(reg: seq<Client>, q: Request, now: Uint64)
    ensures Dispatch(reg, Command(q), [], now).2 == []
  {
  }

  /** A call whose header is handled alone ends in step exactly when it sends nothing but the header, as Ping does. */
  lemma SplitKeptIffEmpty(w: World, q: Request, now: Uint64)
    requires InStep(w)
    ensures InStep(PerformSplit(w, q, now).0) <==> Transmitted(Payload(q)) == []
  {
    var payload := Transmitted(Payload(q));
    if payload == [] {
      SplitEmpty(w, q, now);
    } else if |payload| <= MAX_PAYLOAD {
      SplitArrival(w, q, now, payload);
      RejectionsCons(Pieces(|payload|) - 1);
    } else {
      SplitOversized(w, q, now, payload);
      RejectionsCons(Pieces(|payload|) - 1);
    }
  }

  lemma SplitServed(w: World, command: Uint16, payload: seq<Byte>, now: Uint64)
    requires InStep(w) && KnownCommand(command) && 0 < |payload| <= MAX_PAYLOAD && Nonsense(payload)
    ensures SentSplit(w, InitHeader(command, |payload|, 1), payload, now) ==
            World(w.registry, [], Replies([TOO_LARGE] + Rejections(Pieces(|payload|))), true)
  {
    var lost := Rejections(Pieces(|payload|));
    HeaderAlone(w.registry, command, |payload|, now);
    NonsenseIsRejected(w.registry, payload, now);
    RepliesAppend([TOO_LARGE], lost);
    SentInTwo(w, InitHeader(command, |payload|, 1), payload, now, Replies([TOO_LARGE]), Replies(lost));
  }

  lemma SentInTwo(w: World, h: Header, payload: seq<Byte>, now: Uint64, first: seq<Byte>, second: seq<Byte>)
    requires InStep(w) && Drained(w.registry, EncodeHeader(h), now) == (w.registry, first)
    requires Drained(w.registry, payload, now) == (w.registry, second)
    ensures SentSplit(w, h, payload, now) == World(w.registry, [], first + second, true)
  {
    assert w.toServer + EncodeHeader(h) == EncodeHeader(h) && w.toClient + first == first;
  }

  // ---------------------------------------------------------------- runs on a lagging connection

  /** What the service answers to each call, in order. */
  function Answers(reg: seq<Client>, calls: seq<Call>): (answers: seq<Answer>)
    ensures |answers| == |calls|
    ensures forall i :: 0 <= i < |answers| ==> answers[i].data == []
  {
    if calls == [] then []
    else Answers(reg, calls[..|calls| - 1]) +
         [Bare(1, StatusOf(RunApplied(reg, calls[..|calls| - 1]), calls[|calls| - 1].request))]
  }

  function RunApplied(reg: seq<Client>, calls: seq<Call>): seq<Client> {
    if calls == [] then reg
    else Applied(RunApplied(reg, calls[..|calls| - 1]), calls[|calls| - 1].request, calls[|calls| - 1].now)
  }

  lemma ServesCall(reg: seq<Client>, q: Request, now: Uint64)
    requires Fits(q)
    ensures Transmitted(Payload(q)) == Payload(q)
    ensures Drained(reg, EncodeHeader(HeaderOf(q)) + Payload(q), now)
            == (Applied(reg, q, now), Replies([Bare(1, StatusOf(reg, q))]))
  {
    DispatchIsApplied(reg, q, now);
    assert HeaderOf(q).payloadLen == |Payload(q)|;
    ServesSent(reg, HeaderOf(q), Payload(q), now, Applied(reg, q, now), StatusOf(reg, q));
  }

  lemma CallLagging(w: World, answers: seq<Answer>, q: Request, now: Uint64)
    requires Lagging(w, answers) && Fits(q) && (answers != [] ==> answers[0].data == [])
    ensures var all := answers + [Bare(1, StatusOf(w.registry, q))];
            var (w', result) := Perform(w, q, now);
            w'.registry == Applied(w.registry, q, now) && Lagging(w', all[1..]) && result == ResultOf(all[0])
  {
    ServesCall(w.registry, q, now);
    ReadsOldest(w, answers, [Bare(1, StatusOf(w.registry, q))], Applied(w.registry, q, now), q, Payload(q), now);
  }

  ghost predicate ResultsAre(results: seq<int>, all: seq<Answer>) {
    |results| <= |all| && forall i :: 0 <= i < |results| ==> results[i] == ResultOf(all[i])
  }

  lemma ShiftAnswers(answers: seq<Answer>, told: seq<Answer>, a: Answer, n: nat)
    requires |told| == n
    ensures var before := (answers + told)[n..] + [a];
            before == (answers + (told + [a]))[n..] && before[1..] == (answers + (told + [a]))[n + 1..]
            && before[0] == (answers + (told + [a]))[n]
  {
    assert answers + (told + [a]) == (answers + told) + [a];
  }

  lemma ResultsGrow(results: seq<int>, told: seq<Answer>, all: seq<Answer>, result: int)
    requires ResultsAre(results, told) && told <= all && |results| < |all| && result == ResultOf(all[|results|])
    ensures ResultsAre(results + [result], all)
  {
  }

  ghost predicate AllBare(answers: seq<Answer>) {
    forall i :: 0 <= i < |answers| ==> answers[i].data == []
  }

  /** The world and results of a run that started `answers` behind and was answered `told`. */
  ghost predicate RanLagging(w: World, results: seq<int>, answers: seq<Answer>, told: seq<Answer>) {
    |results| == |told| && Lagging(w, (answers + told)[|told|..]) && ResultsAre(results, answers + told)
  }

  lemma RanOneMore(w: World, results: seq<int>, answers: seq<Answer>, told: seq<Answer>, a: Answer, w': World,
                   result: int)
    requires RanLagging(w, results, answers, told)
    requires var all := (answers + told)[|told|..] + [a]; Lagging(w', all[1..]) && result == ResultOf(all[0])
    ensures RanLagging(w', results + [result], answers, told + [a])
  {
    ShiftAnswers(answers, told, a, |told|);
    assert answers + told <= answers + (told + [a]);
    ResultsGrow(results, answers + told, answers + (told + [a]), result);
  }

  /** With no data among the unread answers, over any run of fitting calls the registry does what was asked, but the
      answers stay as many calls behind as they were at the start: call `i` is told what the service said `|answers|`
      calls earlier. */
  lemma {:induction false} RunLagging(w: World, answers: seq<Answer>, calls: seq<Call>)
    requires Lagging(w, answers) && AllBare(answers) && AllFit(calls)
    ensures var (w', results) := RunCalls(w, calls);
            && w'.registry == RunApplied(w.registry, calls)
            && RanLagging(w', results, answers, Answers(w.registry, calls))
  {
    if calls == [] {
      assert (answers + [])[0..] == answers;
    } else {
      var n := |calls| - 1;
      RunLagging(w, answers, calls[..n]);
      var (before, results) := RunCalls(w, calls[..n]);
      var q, now, told := calls[n].request, calls[n].now, Answers(w.registry, calls[..n]);
      CallLagging(before, (answers + told)[n..], q, now);
      var (after, result) := Perform(before, q, now);
      RanOneMore(before, results, answers, told, Bare(1, StatusOf(before.registry, q)), after, result);
    }
  }

  // ---------------------------------------------------------------- no way back

  /** The service answers every non-empty stream. */
  lemma {:induction false} DrainedAnswers(reg: seq<Client>, stream: seq<Byte>, now: Uint64)
    requires stream != []
    ensures |Drained(reg, stream, now).1| >= HEADER_SIZE + RESPONSE_SIZE
  {
    var (reg', rest, reply) := Handled(reg, stream, now);
    assert Drained(reg, stream, now).1 == reply + Drained(reg', rest, now).1;
  }

  /** A call takes no more than one bare reply's bytes. */
  lemma ReceivedTakesLittle(w: World)
    requires |w.toClient| >= HEADER_SIZE + RESPONSE_SIZE
    ensures var w' := Received(w, RESPONSE_SIZE).0;
            w'.connected == w.connected && w'.toServer == w.toServer
            && |w'.toClient| >= |w.toClient| - (HEADER_SIZE + RESPONSE_SIZE)
  {
  }

  lemma SentAddsReply(w: World, h: Header, payload: seq<Byte>, now: Uint64)
    ensures var w' := Sent(w, h, payload, now);
            && w'.connected == w.connected && w'.toServer == []
            && |w'.toClient| >= |w.toClient| + HEADER_SIZE + RESPONSE_SIZE
  {
    DrainedAnswers(w.registry, w.toServer + EncodeHeader(h) + payload, now);
  }

  lemma CallKeepsBytes(w: World, q: Request, now: Uint64)
    requires w.connected
    ensures var w' := Perform(w, q, now).0; w'.connected && w'.toServer == [] && |w'.toClient| >= |w.toClient|
  {
    SentAddsReply(w, HeaderOf(q), Transmitted(Payload(q)), now);
    ReceivedTakesLittle(Sent(w, HeaderOf(q), Transmitted(Payload(q)), now));
  }

  /** Unread bytes never become fewer: a connection that has some, whatever they are and however it came to have them,
      is not brought back in step by any run of registrations, removals, settings and pings. */
  lemma {:induction false} NeverBackInStep(w: World, calls: seq<Call>)
    requires w.connected
    ensures var w' := RunCalls(w, calls).0; w'.connected && |w'.toClient| >= |w.toClient|
    ensures w.toClient != [] ==> !InStep(RunCalls(w, calls).0)
  {
    if calls != [] {
      var n := |calls| - 1;
      NeverBackInStep(w, calls[..n]);
      CallKeepsBytes(RunCalls(w, calls[..n]).0, calls[n].request, calls[n].now);
    }
  }
}
