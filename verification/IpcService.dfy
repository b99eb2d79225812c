/** The service's side in code (src/ipc/ipc_server.c): receiving a message, dispatching it to the registry on the heap,
    and writing the reply, all proved equal to the functions of IpcWire. */
module IpcService {
  import opened Words
  import opened IpcCodec
  import opened IpcRegistry
  import opened IpcWire
  import opened IpcListing
  import opened ConnectionList

  /** A connected socket: the bytes in flight each way. */
  class Link {
    var toServer: seq<Byte>
    var toClient: seq<Byte>

    constructor ()
      ensures toServer == [] && toClient == []
    {
      toServer, toClient := [], [];
    }

    /** The service's recv of at most `n` bytes. */
    method ServerRecv(n: nat) returns (bytes: seq<Byte>)
      modifies this`toServer
      ensures |bytes| == if n <= |old(toServer)| then n else |old(toServer)|
      ensures bytes == old(toServer)[..|bytes|] && toServer == old(toServer)[|bytes|..]
    {
      var k := if n <= |toServer| then n else |toServer|;
      bytes, toServer := toServer[..k], toServer[k..];
    }

    /** The client's recv of at most `n` bytes. */
    method ClientRecv(n: nat) returns (bytes: seq<Byte>)
      modifies this`toClient
      ensures |bytes| == if n <= |old(toClient)| then n else |old(toClient)|
      ensures bytes == old(toClient)[..|bytes|] && toClient == old(toClient)[|bytes|..]
    {
      var k := if n <= |toClient| then n else |toClient|;
      bytes, toClient := toClient[..k], toClient[k..];
    }
  }

  // ---------------------------------------------------------------- writing records through a moving pointer

  /** memcpy to the pointer, which then moves past the bytes. */
  method Put(buffer: array<Byte>, ptr: nat, bytes: seq<Byte>) returns (next: nat)
    requires ptr + |bytes| <= buffer.Length
    modifies buffer
    ensures next == ptr + |bytes| && buffer[..next] == old(buffer[..ptr]) + bytes
  {
    var i := 0;
    while i < |bytes|
      invariant 0 <= i <= |bytes|
      invariant buffer[..ptr] == old(buffer[..ptr])
      invariant buffer[ptr..ptr + i] == bytes[..i]
    {
      buffer[ptr + i] := bytes[i];
      i := i + 1;
    }
    next := ptr + |bytes|;
    assert buffer[..next] == buffer[..ptr] + buffer[ptr..next];
  }

  method PutRecord(buffer: array<Byte>, start: nat, c: Client) returns (ptr: nat)
    requires |c.name| == NAME_SIZE && start + RECORD_SIZE <= buffer.Length
    modifies buffer
    ensures ptr == start + RECORD_SIZE && buffer[..ptr] == old(buffer[..start]) + Record(c)
  {
    ptr := Put(buffer, start, I32(c.pid));
    ptr := Put(buffer, ptr, U32(c.volume));
    ptr := Put(buffer, ptr, Flag(c.muted));
    ptr := Put(buffer, ptr, U64(c.connectedAt));
    ptr := Put(buffer, ptr, c.name);
    FieldsAreRecord(old(buffer[..start]), c);
  }

  lemma FieldsAreRecord(before: seq<Byte>, c: Client)
    ensures before + I32(c.pid) + U32(c.volume) + Flag(c.muted) + U64(c.connectedAt) + c.name == before + Record(c)
  {
  }

  /** The list's records, one behind the other. */
  method WriteRecords(list: array<Client>) returns (buffer: array<Byte>)
    requires NamesFixed(list[..])
    ensures fresh(buffer) && buffer[..] == Records(list[..])
  {
    buffer := new Byte[RECORD_SIZE * list.Length];
    var i, ptr := 0, 0;
    while i < list.Length
      invariant 0 <= i <= list.Length && ptr == RECORD_SIZE * i
      invariant buffer[..ptr] == Records(list[..i])
    {
      assert list[..i + 1][..i] == list[..i] && list[..][i] == list[i];
      ptr := PutRecord(buffer, ptr, list[i]);
      i := i + 1;
    }
    assert list[..i] == list[..] && buffer[..ptr] == buffer[..];
  }

  // ---------------------------------------------------------------- send_response and the dispatcher

  method SendResponse(link: Link, requestId: Uint32, status: Pid, data: seq<Byte>)
    modifies link`toClient
    ensures link.toClient == old(link.toClient) + EncodeResponse(requestId, status, data)
  {
    var header := InitHeader(CMD_RESPONSE, Wrap32(RESPONSE_SIZE + |data|), requestId);
    var buffer := EncodeHeader(header) + (I32(status) + U32(Wrap32(|data|)) + data);
    link.toClient := link.toClient + buffer;
  }

  method ServeRegister(registry: ServerRegistry, payload: seq<Byte>, now: Uint64) returns (status: Pid)
    requires registry.Valid()
    modifies registry, registry.clients
    ensures registry.Valid()
    ensures (registry.Registry(), status, []) == Dispatch(old(registry.Registry()), CMD_REGISTER, payload, now)
    ensures forall e :: e in registry.clients.spine ==> e in old(registry.clients.spine) || fresh(e)
  {
    if |payload| >= 9 {
      var result := registry.Register(ReadI32(payload[..4]), ReadU32(payload[4..8]), ReadFlag(payload[8..9]), now,
                                      payload[9..]);
      status := result;
    } else {
      status := STATUS_INVALID_HEADER;
    }
  }

  method ServeUnregister(registry: ServerRegistry, payload: seq<Byte>, now: Uint64) returns (status: Pid)
    requires registry.Valid()
    modifies registry, registry.clients, registry.clients.spine
    ensures registry.Valid()
    ensures (registry.Registry(), status, []) == Dispatch(old(registry.Registry()), CMD_UNREGISTER, payload, now)
    ensures forall e :: e in registry.clients.spine ==> e in old(registry.clients.spine)
  {
    if |payload| >= 4 {
      var result := registry.Unregister(ReadI32(payload[..4]));
      status := if result != 0 then STATUS_CLIENT_NOT_FOUND else STATUS_OK;
    } else {
      status := STATUS_INVALID_HEADER;
    }
  }

  method ServeGetVolume(registry: ServerRegistry, payload: seq<Byte>, now: Uint64)
    returns (status: Pid, data: seq<Byte>)
    requires registry.Valid()
    ensures (registry.Registry(), status, data) == Dispatch(registry.Registry(), CMD_GET_VOLUME, payload, now)
  {
    status, data := STATUS_OK, [];
    if |payload| >= 4 {
      var pid := ReadI32(payload[..4]);
      var result, volume, muted := registry.GetVolume(pid);
      LevelsByPosition(registry.Registry(), pid);
      if result == 0 {
        data := I32(STATUS_OK) + U32(volume) + Flag(muted);
      } else {
        status := STATUS_CLIENT_NOT_FOUND;
      }
    } else {
      status := STATUS_INVALID_HEADER;
    }
  }

  method ServeSetVolume(registry: ServerRegistry, payload: seq<Byte>, now: Uint64) returns (status: Pid)
    requires registry.Valid()
    modifies registry.clients.spine
    ensures registry.Valid()
    ensures (registry.Registry(), status, []) == Dispatch(old(registry.Registry()), CMD_SET_VOLUME, payload, now)
  {
    if |payload| >= 8 {
      var result := registry.SetVolume(ReadI32(payload[..4]), ReadU32(payload[4..8]));
      status := if result != 0 then STATUS_CLIENT_NOT_FOUND else STATUS_OK;
    } else {
      status := STATUS_INVALID_HEADER;
    }
  }

  method ServeSetMute(registry: ServerRegistry, payload: seq<Byte>, now: Uint64) returns (status: Pid)
    requires registry.Valid()
    modifies registry.clients.spine
    ensures registry.Valid()
    ensures (registry.Registry(), status, []) == Dispatch(old(registry.Registry()), CMD_SET_MUTE, payload, now)
  {
    if |payload| >= 5 {
      var result := registry.SetMute(ReadI32(payload[..4]), ReadFlag(payload[4..5]));
      status := if result != 0 then STATUS_CLIENT_NOT_FOUND else STATUS_OK;
    } else {
      status := STATUS_INVALID_HEADER;
    }
  }

  /** The source allocates response_len bytes and writes every record. Where that length has wrapped, the bytes beyond
      it do not belong to the buffer; here they are written and then not sent. */
  method ServeListClients(registry: ServerRegistry, payload: seq<Byte>, now: Uint64)
    returns (status: Pid, data: seq<Byte>)
    requires registry.Valid()
    ensures (registry.Registry(), status, data) == Dispatch(registry.Registry(), CMD_LIST_CLIENTS, payload, now)
  {
    ghost var reg := registry.Registry();
    PaddedAreFixed(reg);
    var list, count := registry.ListClients();
    if list == null || count == 0 {
      return STATUS_OK, [];
    }
    RecordsLength(list[..]);
    Wrap32Below(RECORD_SIZE * count);
    var responseLen := Wrap32(RECORD_SIZE * count);
    var buffer := WriteRecords(list);
    status, data := STATUS_OK, buffer[..responseLen];
    assert data == Records(list[..])[..responseLen];
  }

  /** The switch of handle_client_message. */
  method DispatchCommand(registry: ServerRegistry, command: Uint16, payload: seq<Byte>, now: Uint64)
    returns (status: Pid, data: seq<Byte>)
    requires registry.Valid()
    modifies registry, registry.clients, registry.clients.spine
    ensures registry.Valid()
    ensures (registry.Registry(), status, data) == Dispatch(old(registry.Registry()), command, payload, now)
    ensures forall e :: e in registry.clients.spine ==> e in old(registry.clients.spine) || fresh(e)
  {
    status, data := STATUS_OK, [];
    if command == CMD_REGISTER {
      status := ServeRegister(registry, payload, now);
    } else if command == CMD_UNREGISTER {
      status := ServeUnregister(registry, payload, now);
    } else if command == CMD_GET_VOLUME {
      status, data := ServeGetVolume(registry, payload, now);
    } else if command == CMD_SET_VOLUME {
      status := ServeSetVolume(registry, payload, now);
    } else if command == CMD_SET_MUTE {
      status := ServeSetMute(registry, payload, now);
    } else if command == CMD_PING {
      status := STATUS_OK;
    } else if command == CMD_LIST_CLIENTS {
      status, data := ServeListClients(registry, payload, now);
    } else {
      status := STATUS_UNKNOWN_COMMAND;
    }
  }

  // ---------------------------------------------------------------- one message, and all that are waiting

  /** The part of handle_client_message behind the header check. */
  method AnswerMessage(registry: ServerRegistry, link: Link, header: Header, now: Uint64)
    requires registry.Valid()
    modifies registry, registry.clients, registry.clients.spine, link
    ensures registry.Valid()
    ensures (registry.Registry(), link.toServer, link.toClient) ==
            var (reg, rest, reply) := Answered(old(registry.Registry()), header, old(link.toServer), now);
            (reg, rest, old(link.toClient) + reply)
    ensures forall e :: e in registry.clients.spine ==> e in old(registry.clients.spine) || fresh(e)
  {
    var payload := [];
    if header.payloadLen > 0 {
      payload := link.ServerRecv(header.payloadLen);
      if |payload| != header.payloadLen {
        SendResponse(link, header.requestId, STATUS_PAYLOAD_TOO_LARGE, []);
        return;
      }
    }
    var status, data := DispatchCommand(registry, header.command, payload, now);
    SendResponse(link, header.requestId, status, data);
  }

  /** One message has been handled: the registry, what is left unread, and one reply more. */
  ghost predicate MessageHandled(reg0: seq<Client>, stream0: seq<Byte>, sent0: seq<Byte>, reg: seq<Client>,
                                 stream: seq<Byte>, sent: seq<Byte>, now: Uint64)
    requires stream0 != []
  {
    var (reg', rest, reply) := Handled(reg0, stream0, now);
    reg == reg' && stream == rest && sent == sent0 + reply
  }

  /** handle_client_message: with nothing to receive the connection is to be closed; otherwise one message is taken off
      the stream, whole or not, and exactly one reply is sent. */
  method HandleClientMessage(registry: ServerRegistry, link: Link, now: Uint64) returns (closes: bool)
    requires registry.Valid()
    modifies registry, registry.clients, registry.clients.spine, link
    ensures registry.Valid() && closes == (old(link.toServer) == [])
    ensures closes ==> registry.Registry() == old(registry.Registry()) && unchanged(link)
    ensures !closes ==> MessageHandled(old(registry.Registry()), old(link.toServer), old(link.toClient),
                                       registry.Registry(), link.toServer, link.toClient, now)
    ensures forall e :: e in registry.clients.spine ==> e in old(registry.clients.spine) || fresh(e)
  {
    if link.toServer == [] {
      return true;
    }
    closes := false;
    var bytes := link.ServerRecv(HEADER_SIZE);
    if |bytes| != HEADER_SIZE {
      SendResponse(link, 0, STATUS_INVALID_HEADER, []);
      return;
    }
    var header := DecodeHeader(bytes);
    if !ValidHeader(header) {
      SendResponse(link, 0, STATUS_INVALID_HEADER, []);
      return;
    }
    AnswerMessage(registry, link, header, now);
  }

  /** A readable event on descriptor `fd`: a message is handled, or the connection is taken off the list. */
  method HandleEvent(registry: ServerRegistry, link: Link, connections: Connections, fd: int, now: Uint64)
    requires registry.Valid() && connections.Valid()
    modifies registry, registry.clients, registry.clients.spine, link, connections.list, connections.list.spine
    ensures registry.Valid() && connections.Valid()
    ensures if old(link.toServer) == []
            then registry.Registry() == old(registry.Registry()) && unchanged(link)
                 && connections.list.Items() == Removed(old(connections.list.Items()), fd)
            else connections.list.Items() == old(connections.list.Items())
                 && MessageHandled(old(registry.Registry()), old(link.toServer), old(link.toClient),
                                   registry.Registry(), link.toServer, link.toClient, now)
  {
    var closes := HandleClientMessage(registry, link, now);
    if closes {
      Close(registry, connections, fd);
    }
  }

  /** The connection is closed; the registry stays as it is. */
  method Close(registry: ServerRegistry, connections: Connections, fd: int)
    requires registry.Valid() && connections.Valid()
    modifies connections.list, connections.list.spine
    ensures registry.Valid() && connections.Valid()
    ensures registry.Registry() == old(registry.Registry())
    ensures connections.list.Items() == Removed(old(connections.list.Items()), fd)
  {
    ghost var reg := registry.Registry();
    connections.Remove(fd);
    assert registry.Registry() == reg && registry.clients.Valid();
  }

  /** After sending `sent`, with `stream` left, the service is on its way to what draining all of `stream0` does. */
  ghost predicate Serving(reg0: seq<Client>, stream0: seq<Byte>, reg: seq<Client>, stream: seq<Byte>, sent: seq<Byte>,
                          now: Uint64)
  {
    && Drained(reg0, stream0, now).0 == Drained(reg, stream, now).0
    && Drained(reg0, stream0, now).1 == sent + Drained(reg, stream, now).1
  }

  lemma ServingStarts(reg: seq<Client>, stream: seq<Byte>, now: Uint64)
    ensures Serving(reg, stream, reg, stream, [], now)
  {
    assert [] + Drained(reg, stream, now).1 == Drained(reg, stream, now).1;
  }

  lemma ServingStep(reg0: seq<Client>, stream0: seq<Byte>, reg: seq<Client>, stream: seq<Byte>, sent: seq<Byte>,
                    now: Uint64, reg': seq<Client>, rest: seq<Byte>, reply: seq<Byte>)
    requires stream != [] && (reg', rest, reply) == Handled(reg, stream, now)
    requires Serving(reg0, stream0, reg, stream, sent, now)
    ensures Serving(reg0, stream0, reg', rest, sent + reply, now)
  {
    Associate(sent, reply, Drained(reg', rest, now).1);
  }

  lemma ServingEnds(reg0: seq<Client>, stream0: seq<Byte>, reg: seq<Client>, sent: seq<Byte>, now: Uint64)
    requires Serving(reg0, stream0, reg, [], sent, now)
    ensures Drained(reg0, stream0, now) == (reg, sent)
  {
    assert sent + [] == sent;
  }

  /** The service's progress: what it has sent so far behind `before`, and what it still has to do. */
  ghost predicate Progress(reg0: seq<Client>, stream0: seq<Byte>, before: seq<Byte>, now: Uint64, reg: seq<Client>,
                           stream: seq<Byte>, toClient: seq<Byte>, sent: seq<Byte>)
  {
    toClient == before + sent && Serving(reg0, stream0, reg, stream, sent, now)
  }

  lemma ProgressStep(reg0: seq<Client>, stream0: seq<Byte>, before: seq<Byte>, now: Uint64, reg: seq<Client>,
                     stream: seq<Byte>, toClient: seq<Byte>, sent: seq<Byte>, reg': seq<Client>, rest: seq<Byte>,
                     reply: seq<Byte>)
    requires stream != [] && (reg', rest, reply) == Handled(reg, stream, now)
    requires Progress(reg0, stream0, before, now, reg, stream, toClient, sent)
    ensures Progress(reg0, stream0, before, now, reg', rest, toClient + reply, sent + reply)
  {
    ServingStep(reg0, stream0, reg, stream, sent, now, reg', rest, reply);
    Associate(before, sent, reply);
  }

  /** One turn of the event loop. */
  method ServeNext(registry: ServerRegistry, link: Link, now: Uint64, ghost reg0: seq<Client>, ghost stream0: seq<Byte>,
                   ghost before: seq<Byte>, ghost sent: seq<Byte>) returns (ghost sent': seq<Byte>)
    requires registry.Valid() && link.toServer != []
    requires Progress(reg0, stream0, before, now, registry.Registry(), link.toServer, link.toClient, sent)
    modifies registry, registry.clients, registry.clients.spine, link
    ensures registry.Valid() && |link.toServer| < |old(link.toServer)|
    ensures Progress(reg0, stream0, before, now, registry.Registry(), link.toServer, link.toClient, sent')
    ensures forall e :: e in registry.clients.spine ==> e in old(registry.clients.spine) || fresh(e)
  {
    ghost var (reg, rest, reply) := Handled(registry.Registry(), link.toServer, now);
    ProgressStep(reg0, stream0, before, now, registry.Registry(), link.toServer, link.toClient, sent, reg, rest, reply);
    var _ := HandleClientMessage(registry, link, now);
    sent' := sent + reply;
  }

  /** The event loop, as long as bytes are waiting on this connection. */
  method ServeWaiting(registry: ServerRegistry, link: Link, now: Uint64)
    requires registry.Valid()
    modifies registry, registry.clients, registry.clients.spine, link
    ensures registry.Valid()
    ensures (registry.Registry(), link.toServer, link.toClient) ==
            var (reg, replies) := Drained(old(registry.Registry()), old(link.toServer), now);
            (reg, [], old(link.toClient) + replies)
    ensures forall e :: e in registry.clients.spine ==> e in old(registry.clients.spine) || fresh(e)
  {
    ghost var reg0, stream0, before, sent: seq<Byte> := registry.Registry(), link.toServer, link.toClient, [];
    ServingStarts(reg0, stream0, now);
    while link.toServer != []
      invariant registry.Valid()
      invariant Progress(reg0, stream0, before, now, registry.Registry(), link.toServer, link.toClient, sent)
      invariant forall e :: e in registry.clients.spine ==> e in old(registry.clients.spine) || fresh(e)
      invariant forall i :: 0 <= i < |registry.clients.spine| ==>
        registry.clients.spine[i] in old(registry.clients.spine) || fresh(registry.clients.spine[i])
      decreases |link.toServer|
    {
      sent := ServeNext(registry, link, now, reg0, stream0, before, sent);
    }
    ServingEnds(reg0, stream0, registry.Registry(), sent, now);
  }
}
