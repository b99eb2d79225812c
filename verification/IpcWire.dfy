/** Client and service over two byte streams (src/ipc/ipc_client.c, src/ipc/ipc_server.c): the request dispatcher, the
    synchronous calls, and what keeps the streams in step. Every `send` arrives whole, and the service handles messages
    until its stream is empty before the client reads. */
module IpcWire {
  import opened Words
  import opened IpcCodec
  import opened IpcRegistry

  // ---------------------------------------------------------------- the dispatcher

  const RECORD_SIZE: nat := 273

  /** One ListClients record: pid, volume, mute flag, connection time, 256 name bytes. */
  function Record(c: Client): (bytes: seq<Byte>) {
    I32(c.pid) + U32(c.volume) + Flag(c.muted) + U64(c.connectedAt) + c.name
  }

  function Records(reg: seq<Client>): seq<Byte> {
    if reg == [] then [] else Records(reg[..|reg| - 1]) + Record(reg[|reg| - 1])
  }

  /** The records sent, cut to the 32-bit reply length. */
  function ListData(reg: seq<Client>): seq<Byte> {
    var listed := reg[..Wrap32(|reg|)];
    var length := Wrap32(RECORD_SIZE * |listed|);
    var bytes := Records(listed);
    if length <= |bytes| then bytes[..length] else bytes
  }

  /** What a command does to the registry, the status it answers and the data it sends along. */
  function Dispatch(reg: seq<Client>, command: Uint16, payload: seq<Byte>, now: Uint64): (seq<Client>, Pid, seq<Byte>) {
    if command == CMD_REGISTER then
      if |payload| >= 9 then
        var c := Client(ReadI32(payload[..4]), ReadU32(payload[4..8]), ReadFlag(payload[8..9]), now,
                        StoredName(payload[9..]));
        (Registered(reg, c), if Has(reg, c.pid) then -1 else STATUS_OK, [])
      else (reg, STATUS_INVALID_HEADER, [])
    else if command == CMD_UNREGISTER then
      if |payload| >= 4 then
        var pid := ReadI32(payload[..4]);
        (Unregistered(reg, pid), if Has(reg, pid) then STATUS_OK else STATUS_CLIENT_NOT_FOUND, [])
      else (reg, STATUS_INVALID_HEADER, [])
    else if command == CMD_GET_VOLUME then
      if |payload| >= 4 then
        var pid := ReadI32(payload[..4]);
        if Has(reg, pid) then
          var c := reg[Position(reg, pid)];
          (reg, STATUS_OK, I32(STATUS_OK) + U32(c.volume) + Flag(c.muted))
        else (reg, STATUS_CLIENT_NOT_FOUND, [])
      else (reg, STATUS_INVALID_HEADER, [])
    else if command == CMD_SET_VOLUME then
      if |payload| >= 8 then
        var pid := ReadI32(payload[..4]);
        (WithVolume(reg, pid, ReadU32(payload[4..8])), if Has(reg, pid) then STATUS_OK else STATUS_CLIENT_NOT_FOUND, [])
      else (reg, STATUS_INVALID_HEADER, [])
    else if command == CMD_SET_MUTE then
      if |payload| >= 5 then
        var pid := ReadI32(payload[..4]);
        (WithMute(reg, pid, ReadFlag(payload[4..5])), if Has(reg, pid) then STATUS_OK else STATUS_CLIENT_NOT_FOUND, [])
      else (reg, STATUS_INVALID_HEADER, [])
    else if command == CMD_PING then (reg, STATUS_OK, [])
    else if command == CMD_LIST_CLIENTS then (reg, STATUS_OK, ListData(reg))
    else (reg, STATUS_UNKNOWN_COMMAND, [])
  }

  /** What happens to a message whose header is valid, `rest` being what waits behind the header. */
  function Answered(reg: seq<Client>, h: Header, rest: seq<Byte>, now: Uint64): (seq<Client>, seq<Byte>, seq<Byte>) {
    if |rest| < h.payloadLen then (reg, [], EncodeResponse(h.requestId, STATUS_PAYLOAD_TOO_LARGE, []))
    else
      var (reg', status, data) := Dispatch(reg, h.command, rest[..h.payloadLen], now);
      (reg', rest[h.payloadLen..], EncodeResponse(h.requestId, status, data))
  }

  /** handle_client_message on a non-empty stream: the new registry, what is left unread, and the reply. */
  function Handled(reg: seq<Client>, stream: seq<Byte>, now: Uint64): (r: (seq<Client>, seq<Byte>, seq<Byte>))
    requires stream != []
    ensures |r.1| < |stream| && |r.2| >= HEADER_SIZE + RESPONSE_SIZE
  {
    if |stream| < HEADER_SIZE then (reg, [], EncodeResponse(0, STATUS_INVALID_HEADER, []))
    else
      var h := DecodeHeader(stream[..HEADER_SIZE]);
      var rest := stream[HEADER_SIZE..];
      if !ValidHeader(h) then (reg, rest, EncodeResponse(0, STATUS_INVALID_HEADER, []))
      else Answered(reg, h, rest, now)
  }

  /** The event loop keeps handling messages while bytes are waiting. */
  function Drained(reg: seq<Client>, stream: seq<Byte>, now: Uint64): (seq<Client>, seq<Byte>)
    decreases |stream|
  {
    if stream == [] then (reg, [])
    else
      var (reg', rest, reply) := Handled(reg, stream, now);
      var (reg'', replies) := Drained(reg', rest, now);
      (reg'', reply + replies)
  }

  // ---------------------------------------------------------------- the client's side

  /** The registry, the bytes in flight each way, and the client's connection flag. */
  datatype World = World(registry: seq<Client>, toServer: seq<Byte>, toClient: seq<Byte>, connected: bool)

  /** ipc_client_send, then the service's turn. */
  function Sent(w: World, h: Header, payload: seq<Byte>, now: Uint64): World {
    var (reg, replies) := Drained(w.registry, w.toServer + EncodeHeader(h) + payload, now);
    World(reg, [], w.toClient + replies, w.connected)
  }

  /** ipc_client_recv into a buffer of `size` bytes: the header and payload, or a failure. A payload too large for the
      buffer stays in the stream. */
  function Received(w: World, size: nat): (World, Option<(Header, seq<Byte>)>) {
    if w.toClient == [] then (w.(connected := false), None)
    else if |w.toClient| < HEADER_SIZE then (w.(toClient := []), None)
    else
      var h := DecodeHeader(w.toClient[..HEADER_SIZE]);
      var rest := w.toClient[HEADER_SIZE..];
      if !ValidHeader(h) then (w.(toClient := rest), None)
      else if h.payloadLen == 0 then (w.(toClient := rest), Some((h, [])))
      else if h.payloadLen > size then (w.(toClient := rest), None)
      else if |rest| < h.payloadLen then (w.(toClient := [], connected := false), None)
      else (w.(toClient := rest[h.payloadLen..]), Some((h, rest[..h.payloadLen])))
  }

  /** The client gives the connection up exactly when it finds nothing at all, or a valid header that fits the buffer
      but promises more than there is; it receives a message exactly when a valid header comes with all of its payload,
      and the payload fits; otherwise it has dropped the header. */
  lemma ReceivedCases(w: World, size: nat)
    requires w.connected
    ensures var (w', got) := Received(w, size);
            var long := |w.toClient| >= HEADER_SIZE;
            var rest := if long then w.toClient[HEADER_SIZE..] else [];
            var fits := long && var h := DecodeHeader(w.toClient[..HEADER_SIZE]);
                        ValidHeader(h) && h.payloadLen <= size;
            var length := if long then DecodeHeader(w.toClient[..HEADER_SIZE]).payloadLen else 0;
            && w'.registry == w.registry && w'.toServer == w.toServer
            && (!w'.connected <==> w.toClient == [] || (fits && length > |rest|))
            && (got.Some? <==> fits && length <= |rest|)
            && (got.Some? ==> got.value == (DecodeHeader(w.toClient[..HEADER_SIZE]), rest[..length]))
            && w'.toClient == if got.Some? then rest[length..] else if fits then [] else rest
  {
  }

  /** What is sent of a payload: as much as the 32-bit length field says. */
  function Transmitted(payload: seq<Byte>): (sent: seq<Byte>)
    ensures |sent| == Wrap32(|payload|)
    ensures |payload| < U32_SIZE ==> sent == payload
  {
    payload[..Wrap32(|payload|)]
  }

  /** ipc_client_send_sync with request id 1, as every call uses it. */
  function Exchanged(w: World, command: Uint16, payload: seq<Byte>, size: nat, now: Uint64)
    : (World, Option<(Header, seq<Byte>)>)
  {
    if !w.connected then (w, None)
    else Received(Sent(w, InitHeader(command, Wrap32(|payload|), 1), Transmitted(payload), now), size)
  }

  /** The status field of a zero-initialised response buffer after the payload has been received into it. */
  function StatusIn(payload: seq<Byte>): Pid {
    ReadI32((payload + Zeros(4))[..4])
  }

  /** What a call that expects a bare IPCResponse returns: 0 on success, otherwise -1. */
  function Concluded(received: (World, Option<(Header, seq<Byte>)>)): (World, int) {
    match received.1
    case None => (received.0, -1)
    case Some((h, body)) => (received.0, if h.command == CMD_RESPONSE && StatusIn(body) == STATUS_OK then 0 else -1)
  }

  datatype Request =
    | Register(pid: Pid, name: seq<Byte>, volume: Uint32, muted: bool)
    | Unregister(pid: Pid)
    | SetVolume(pid: Pid, volume: Uint32)
    | SetMute(pid: Pid, muted: bool)
    | Ping

  function Command(q: Request): Uint16 {
    match q
    case Register(_, _, _, _) => CMD_REGISTER
    case Unregister(_) => CMD_UNREGISTER
    case SetVolume(_, _) => CMD_SET_VOLUME
    case SetMute(_, _) => CMD_SET_MUTE
    case Ping => CMD_PING
  }

  /** The packed request structures; a name is a C string and travels with its terminator. */
  function Payload(q: Request): seq<Byte> {
    match q
    case Register(pid, name, volume, muted) => I32(pid) + U32(volume) + Flag(muted) + CString(name) + [0]
    case Unregister(pid) => I32(pid)
    case SetVolume(pid, volume) => I32(pid) + U32(volume)
    case SetMute(pid, muted) => I32(pid) + Flag(muted)
    case Ping => []
  }

  function Perform(w: World, q: Request, now: Uint64): (World, int) {
    Concluded(Exchanged(w, Command(q), Payload(q), RESPONSE_SIZE, now))
  }

  // ---------------------------------------------------------------- the abstract operations

  function Applied(reg: seq<Client>, q: Request, now: Uint64): seq<Client> {
    match q
    case Register(pid, name, volume, muted) => Registered(reg, Client(pid, volume, muted, now, StoredName(name)))
    case Unregister(pid) => Unregistered(reg, pid)
    case SetVolume(pid, volume) => WithVolume(reg, pid, volume)
    case SetMute(pid, muted) => WithMute(reg, pid, muted)
    case Ping => reg
  }

  /** When the operation succeeds: a new pid registers, a known one can be changed or removed. */
  predicate Succeeds(reg: seq<Client>, q: Request) {
    match q
    case Register(pid, _, _, _) => !Has(reg, pid)
    case Unregister(pid) => Has(reg, pid)
    case SetVolume(pid, _) => Has(reg, pid)
    case SetMute(pid, _) => Has(reg, pid)
    case Ping => true
  }

  /** The payload limit the service enforces. */
  predicate Fits(q: Request) {
    |Payload(q)| <= MAX_PAYLOAD
  }

  predicate InStep(w: World) {
    w.connected && w.toServer == [] && w.toClient == []
  }

  // ---------------------------------------------------------------- one exchange

  lemma FramingSplits(h: Header, payload: seq<Byte>)
    ensures var stream := EncodeHeader(h) + payload;
            stream[..HEADER_SIZE] == EncodeHeader(h) && stream[HEADER_SIZE..] == payload
            && DecodeHeader(stream[..HEADER_SIZE]) == h
  {
    HeaderRoundTrip(h);
  }

  /** The service takes a framed valid request off its stream in one piece. */
  lemma ServesOne(reg: seq<Client>, command: Uint16, payload: seq<Byte>, now: Uint64, reg': seq<Client>, status: Pid,
                  data: seq<Byte>)
    requires KnownCommand(command) && |payload| <= MAX_PAYLOAD
    requires Dispatch(reg, command, payload, now) == (reg', status, data)
    ensures Drained(reg, EncodeHeader(InitHeader(command, |payload|, 1)) + payload, now)
            == (reg', EncodeResponse(1, status, data))
  {
    var h := InitHeader(command, |payload|, 1);
    var stream := EncodeHeader(h) + payload;
    FramingSplits(h, payload);
    assert payload[..|payload|] == payload && payload[|payload|..] == [];
    assert Handled(reg, stream, now) == (reg', [], EncodeResponse(1, status, data));
    assert Drained(reg', [], now) == (reg', []);
    assert EncodeResponse(1, status, data) + [] == EncodeResponse(1, status, data);
  }

  lemma Halves(x: seq<Byte>, y: seq<Byte>)
    ensures (x + y)[..|x|] == x && (x + y)[|x|..] == y
  {
  }

  lemma SplitBehind(x: seq<Byte>, y: seq<Byte>, n: nat)
    requires n <= |x|
    ensures (x + y)[..n] == x[..n] && (x + y)[n..] == x[n..] + y
  {
  }

  /** The header of a reply, and what waits behind it. */
  lemma ReplyHeader(id: Uint32, status: Pid, data: seq<Byte>, later: seq<Byte>)
    ensures var stream := EncodeResponse(id, status, data) + later;
            && |stream| >= HEADER_SIZE
            && DecodeHeader(stream[..HEADER_SIZE]) == ResponseHeader(id, data)
            && stream[HEADER_SIZE..] == ResponseBody(status, data) + later
  {
    var h, body := ResponseHeader(id, data), ResponseBody(status, data);
    Associate(EncodeHeader(h), body, later);
    Halves(EncodeHeader(h), body + later);
    HeaderRoundTrip(h);
  }

  /** The length field of a reply. */
  function ReplyLength(data: seq<Byte>): (p: Uint32)
    ensures p <= RESPONSE_SIZE + |data|
    ensures RESPONSE_SIZE + |data| < U32_SIZE ==> p == RESPONSE_SIZE + |data|
  {
    Wrap32(RESPONSE_SIZE + |data|)
  }

  /** What the client makes of a reply with `later` behind it: it takes as much as the length field says when that fits
      its buffer and the payload limit, and otherwise leaves the whole body in the stream. */
  function Taken(w: World, id: Uint32, status: Pid, data: seq<Byte>, later: seq<Byte>, size: nat)
    : (World, Option<(Header, seq<Byte>)>)
  {
    var p, body := ReplyLength(data), ResponseBody(status, data);
    if p <= MAX_PAYLOAD && p <= size
    then (w.(toClient := body[p..] + later), Some((ResponseHeader(id, data), body[..p])))
    else (w.(toClient := body + later), None)
  }

  lemma ReceivesReply(w: World, id: Uint32, status: Pid, data: seq<Byte>, later: seq<Byte>, size: nat)
    requires w.toClient == EncodeResponse(id, status, data) + later
    ensures Received(w, size) == Taken(w, id, status, data, later, size)
  {
    ReplyHeader(id, status, data, later);
    var p, body := ReplyLength(data), ResponseBody(status, data);
    SplitBehind(body, later, p);
    assert ResponseHeader(id, data).payloadLen == p;
  }

  /** A reply below the width of the length field is taken whole or not at all. */
  lemma TakenWhole(w: World, id: Uint32, status: Pid, data: seq<Byte>, later: seq<Byte>, size: nat)
    requires RESPONSE_SIZE + |data| < U32_SIZE
    ensures Taken(w, id, status, data, later, size) ==
            if RESPONSE_SIZE + |data| <= MAX_PAYLOAD && RESPONSE_SIZE + |data| <= size
            then (w.(toClient := later), Some((ResponseHeader(id, data), ResponseBody(status, data))))
            else (w.(toClient := ResponseBody(status, data) + later), None)
  {
    var body := ResponseBody(status, data);
    assert body[..|body|] == body && body[|body|..] + later == later;
  }

  /** Replies queue up behind what the client has not read. */
  lemma SentBehind(w: World, h: Header, payload: seq<Byte>, now: Uint64, reg: seq<Client>, replies: seq<Byte>)
    requires w.toServer == [] && Drained(w.registry, EncodeHeader(h) + payload, now) == (reg, replies)
    ensures Sent(w, h, payload, now) == World(reg, [], w.toClient + replies, w.connected)
  {
    assert w.toServer + EncodeHeader(h) + payload == EncodeHeader(h) + payload;
  }

  lemma SendInStep(w: World, command: Uint16, payload: seq<Byte>, now: Uint64, reg: seq<Client>, status: Pid,
                   data: seq<Byte>)
    requires InStep(w) && KnownCommand(command) && |payload| <= MAX_PAYLOAD
    requires Dispatch(w.registry, command, payload, now) == (reg, status, data)
    ensures Sent(w, InitHeader(command, |payload|, 1), payload, now)
            == World(reg, [], EncodeResponse(1, status, data), true)
  {
    ServesOne(w.registry, command, payload, now, reg, status, data);
    SentBehind(w, InitHeader(command, |payload|, 1), payload, now, reg, EncodeResponse(1, status, data));
    assert [] + EncodeResponse(1, status, data) == EncodeResponse(1, status, data);
  }

  /** In step, a fitting request is dispatched once, the reply carries the request's id, and the client makes of it what
      its length field allows. */
  lemma ExchangeInStep(w: World, command: Uint16, payload: seq<Byte>, size: nat, now: Uint64, reg: seq<Client>,
                       status: Pid, data: seq<Byte>)
    requires InStep(w) && KnownCommand(command) && |payload| <= MAX_PAYLOAD
    requires Dispatch(w.registry, command, payload, now) == (reg, status, data)
    ensures Exchanged(w, command, payload, size, now) ==
            Taken(World(reg, [], EncodeResponse(1, status, data), true), 1, status, data, [], size)
  {
    assert Transmitted(payload) == payload;
    SendInStep(w, command, payload, now, reg, status, data);
    var sent := World(reg, [], EncodeResponse(1, status, data), true);
    assert sent.toClient == EncodeResponse(1, status, data) + [];
    ReceivesReply(sent, 1, status, data, [], size);
  }

  /** What an exchange leaves behind when the reply is below the width of the length field. */
  function AfterReply(reg: seq<Client>, status: Pid, data: seq<Byte>, size: nat)
    : (World, Option<(Header, seq<Byte>)>)
  {
    if RESPONSE_SIZE + |data| <= MAX_PAYLOAD && RESPONSE_SIZE + |data| <= size
    then (World(reg, [], [], true), Some((ResponseHeader(1, data), ResponseBody(status, data))))
    else (World(reg, [], ResponseBody(status, data), true), None)
  }

  lemma ExchangeWhole(w: World, command: Uint16, payload: seq<Byte>, size: nat, now: Uint64, reg: seq<Client>,
                      status: Pid, data: seq<Byte>)
    requires InStep(w) && KnownCommand(command) && |payload| <= MAX_PAYLOAD
    requires Dispatch(w.registry, command, payload, now) == (reg, status, data)
    requires RESPONSE_SIZE + |data| < U32_SIZE
    ensures Exchanged(w, command, payload, size, now) == AfterReply(reg, status, data, size)
  {
    ExchangeInStep(w, command, payload, size, now, reg, status, data);
    TakenWhole(World(reg, [], EncodeResponse(1, status, data), true), 1, status, data, [], size);
    assert ResponseBody(status, data) + [] == ResponseBody(status, data);
  }
}
