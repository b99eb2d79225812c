/** The client's side in code (src/ipc/ipc_client.c), proved equal to the functions of IpcWire, IpcVolumeQuery and
    IpcListing. Between a call's send and its receive the service takes its turn. */
module IpcCaller {
  import opened Words
  import opened IpcCodec
  import opened IpcRegistry
  import opened IpcWire
  import opened IpcListing
  import opened IpcService
  import opened IpcVolumeQuery
  import opened VolumeCache
  import opened Backoff

  class IpcClient {
    const link: Link
    var connected: bool
    var cache: Cache<Uint32>
    var reconnectAttempts: nat

    /** ipc_client_init, on a socket that ipc_client_connect will connect. */
    constructor (link: Link)
      ensures this.link == link && !connected && cache == Empty(FLOAT_ONE) && reconnectAttempts == 0
    {
      this.link, connected, cache, reconnectAttempts := link, false, Empty(FLOAT_ONE), 0;
    }

    /** ipc_client_connect: whatever connection there was is closed; `connects` says whether a new one can be made,
        whose streams are then empty. */
    method Connect(connects: bool) returns (result: int)
      modifies this`connected, this`reconnectAttempts, link
      ensures connected == connects && (result == 0 <==> connects) && (result == -1 <==> !connects)
      ensures reconnectAttempts == Next(old(reconnectAttempts), Event.Connect(connects))
      ensures reconnectAttempts == if connects then 0 else old(reconnectAttempts)
      ensures forall reg :: connects ==> InStep(WorldWith(reg))
    {
      connected := false;
      if !connects {
        return -1;
      }
      link.toServer, link.toClient := [], [];
      connected := true;
      reconnectAttempts := 0;
      result := 0;
    }

    /** ipc_client_reconnect; `slept` is the time spent in nanosleep. */
    method Reconnect(connects: bool) returns (result: int, slept: Option<nat>)
      modifies this`connected, this`reconnectAttempts, link
      ensures slept == Sleep(old(reconnectAttempts), Event.Reconnect(connects))
      ensures reconnectAttempts == Next(old(reconnectAttempts), Event.Reconnect(connects))
      ensures result == if connects && old(reconnectAttempts) < MAX_ATTEMPTS then 0 else -1
      ensures reconnectAttempts == if result == 0 then 0
                                   else if old(reconnectAttempts) < MAX_ATTEMPTS then old(reconnectAttempts) + 1
                                   else old(reconnectAttempts)
      ensures result == 0 ==> forall reg :: InStep(WorldWith(reg))
    {
      if reconnectAttempts >= MAX_ATTEMPTS {
        return -1, None;
      }
      var delay := BASE_DELAY_MS * PowerOfTwo(reconnectAttempts);
      if delay > LONGEST_DELAY_MS {
        delay := LONGEST_DELAY_MS;
      }
      slept := Some(delay);
      reconnectAttempts := reconnectAttempts + 1;
      var connection := Connect(connects);
      if connection == 0 {
        reconnectAttempts := 0;
        return 0, slept;
      }
      result := -1;
    }

    /** ipc_client_reset_reconnect */
    method ResetReconnect()
      modifies this`reconnectAttempts
      ensures reconnectAttempts == Next(old(reconnectAttempts), Event.Reset) == 0
    {
      reconnectAttempts := 0;
    }

    /** This connection beside a registry. */
    ghost function WorldWith(reg: seq<Client>): World reads this, link {
      World(reg, link.toServer, link.toClient, connected)
    }

    /** ipc_client_send */
    method Send(header: Header, payload: seq<Byte>) returns (result: int)
      requires header.payloadLen <= |payload|
      modifies link`toServer
      ensures result == if connected then 0 else -1
      ensures link.toServer ==
              if connected then old(link.toServer) + EncodeHeader(header) + payload[..header.payloadLen]
              else old(link.toServer)
    {
      if !connected {
        return -1;
      }
      link.toServer := link.toServer + EncodeHeader(header);
      if header.payloadLen > 0 {
        link.toServer := link.toServer + payload[..header.payloadLen];
      }
      result := 0;
    }

    /** ipc_client_recv */
    method Recv(size: nat, ghost reg: seq<Client>) returns (result: int, header: Header, payload: seq<Byte>)
      requires connected
      modifies this`connected, link`toClient
      ensures WorldWith(reg) == Received(old(WorldWith(reg)), size).0
      ensures Received(old(WorldWith(reg)), size).1 == if result == 0 then Some((header, payload)) else None
    {
      result, header, payload := -1, Header(0, 0, 0, 0, 0), [];
      var bytes := link.ClientRecv(HEADER_SIZE);
      if |bytes| == 0 {
        connected := false;
        return;
      }
      if |bytes| != HEADER_SIZE {
        return;
      }
      header := DecodeHeader(bytes);
      if !ValidHeader(header) {
        return;
      }
      if header.payloadLen > 0 {
        if header.payloadLen > size {
          return;
        }
        payload := link.ClientRecv(header.payloadLen);
        if |payload| != header.payloadLen {
          connected := false;
          return;
        }
      }
      result := 0;
    }

    /** ipc_client_send_sync with the header every caller builds. */
    method SendSync(registry: ServerRegistry, command: Uint16, payload: seq<Byte>, size: nat, now: Uint64)
      returns (result: int, header: Header, body: seq<Byte>)
      requires registry.Valid()
      modifies this`connected, link, registry, registry.clients, registry.clients.spine
      ensures registry.Valid()
      ensures WorldWith(registry.Registry()) ==
              Exchanged(old(WorldWith(registry.Registry())), command, payload, size, now).0
      ensures Exchanged(old(WorldWith(registry.Registry())), command, payload, size, now).1
              == if result == 0 then Some((header, body)) else None
    {
      var request := InitHeader(command, Wrap32(|payload|), 1);
      header, body := request, [];
      if !connected {
        return -1, header, body;
      }
      Deliver(registry, request, payload, now);
      result, header, body := Recv(size, registry.Registry());
    }

    /** The send of a connected client, and the service's turn. */
    method Deliver(registry: ServerRegistry, request: Header, payload: seq<Byte>, now: Uint64)
      requires registry.Valid() && connected && request.payloadLen <= |payload|
      modifies link, registry, registry.clients, registry.clients.spine
      ensures registry.Valid()
      ensures WorldWith(registry.Registry()) ==
              Sent(old(WorldWith(registry.Registry())), request, payload[..request.payloadLen], now)
    {
      var _ := Send(request, payload);
      ServeWaiting(registry, link, now);
    }

    /** A call that expects a bare IPCResponse. */
    method Call(registry: ServerRegistry, command: Uint16, payload: seq<Byte>, now: Uint64) returns (result: int)
      requires registry.Valid()
      modifies this`connected, link, registry, registry.clients, registry.clients.spine
      ensures registry.Valid()
      ensures (WorldWith(registry.Registry()), result) ==
              Concluded(Exchanged(old(WorldWith(registry.Registry())), command, payload, RESPONSE_SIZE, now))
    {
      var sent, header, body := SendSync(registry, command, payload, RESPONSE_SIZE, now);
      if sent != 0 {
        return -1;
      }
      result := if header.command == CMD_RESPONSE && StatusIn(body) == STATUS_OK then 0 else -1;
    }

    method RegisterApp(registry: ServerRegistry, pid: Pid, name: seq<Byte>, volume: Uint32, muted: bool, now: Uint64)
      returns (result: int)
      requires registry.Valid()
      modifies this`connected, link, registry, registry.clients, registry.clients.spine
      ensures registry.Valid()
      ensures (WorldWith(registry.Registry()), result) ==
              Perform(old(WorldWith(registry.Registry())), Register(pid, name, volume, muted), now)
    {
      if !connected {
        return -1;
      }
      result := Call(registry, CMD_REGISTER, I32(pid) + U32(volume) + Flag(muted) + CString(name) + [0], now);
    }

    method UnregisterApp(registry: ServerRegistry, pid: Pid, now: Uint64) returns (result: int)
      requires registry.Valid()
      modifies this`connected, link, registry, registry.clients, registry.clients.spine
      ensures registry.Valid()
      ensures (WorldWith(registry.Registry()), result) ==
              Perform(old(WorldWith(registry.Registry())), Unregister(pid), now)
    {
      if !connected {
        return -1;
      }
      result := Call(registry, CMD_UNREGISTER, I32(pid), now);
    }

    method SetAppVolume(registry: ServerRegistry, pid: Pid, volume: Uint32, now: Uint64) returns (result: int)
      requires registry.Valid()
      modifies this`connected, link, registry, registry.clients, registry.clients.spine
      ensures registry.Valid()
      ensures (WorldWith(registry.Registry()), result) ==
              Perform(old(WorldWith(registry.Registry())), SetVolume(pid, volume), now)
    {
      if !connected {
        return -1;
      }
      result := Call(registry, CMD_SET_VOLUME, I32(pid) + U32(volume), now);
    }

    method SetAppMute(registry: ServerRegistry, pid: Pid, muted: bool, now: Uint64) returns (result: int)
      requires registry.Valid()
      modifies this`connected, link, registry, registry.clients, registry.clients.spine
      ensures registry.Valid()
      ensures (WorldWith(registry.Registry()), result) ==
              Perform(old(WorldWith(registry.Registry())), SetMute(pid, muted), now)
    {
      if !connected {
        return -1;
      }
      var payload := I32(pid) + Flag(muted);
      assert payload == Payload(SetMute(pid, muted));
      result := Call(registry, CMD_SET_MUTE, payload, now);
    }

    method PingServer(registry: ServerRegistry, now: Uint64) returns (result: int)
      requires registry.Valid()
      modifies this`connected, link, registry, registry.clients, registry.clients.spine
      ensures registry.Valid()
      ensures (WorldWith(registry.Registry()), result) == Perform(old(WorldWith(registry.Registry())), Ping, now)
    {
      if !connected {
        return -1;
      }
      assert Payload(Ping) == [] && Command(Ping) == CMD_PING;
      result := Call(registry, CMD_PING, [], now);
    }

    /** The exchange inside ipc_client_get_app_volume, ipc_client_get_volume_fast and ipc_client_refresh_cache. */
    method QueryVolume(registry: ServerRegistry, pid: Pid, now: Uint64) returns (answer: Option<(Uint32, bool)>)
      requires registry.Valid()
      modifies this`connected, link, registry, registry.clients, registry.clients.spine
      ensures registry.Valid()
      ensures (WorldWith(registry.Registry()), answer) == Query(old(WorldWith(registry.Registry())), pid, now)
    {
      var result, header, body := SendSync(registry, CMD_GET_VOLUME, I32(pid), VOLUME_RESPONSE_SIZE, now);
      if result != 0 {
        return None;
      }
      var response := VolumeResponse(body);
      if header.command == CMD_RESPONSE && ReadI32(response[..4]) == STATUS_OK {
        answer := Some((ReadU32(response[4..8]), ReadFlag(response[8..9])));
      } else {
        answer := None;
      }
    }

    /** `later` is the clock reading taken after the answer. */
    method RefreshCache(registry: ServerRegistry, pid: Pid, now: Uint64, later: Uint64) returns (result: int)
      requires registry.Valid()
      modifies this`connected, this`cache, link, registry, registry.clients, registry.clients.spine
      ensures registry.Valid()
      ensures (WorldWith(registry.Registry()), cache, result) ==
              IpcVolumeQuery.RefreshCache(old(WorldWith(registry.Registry())), old(cache), pid, now, later)
    {
      if !connected {
        return -1;
      }
      ghost var before := WorldWith(registry.Registry());
      var answer := QueryVolume(registry, pid, now);
      assert (WorldWith(registry.Registry()), answer) == Query(before, pid, now);
      if answer.None? {
        return -1;
      }
      cache := Cache(pid, answer.value.0, answer.value.1, later, true);
      result := 0;
    }

    /** On a miss, the same exchange as a refresh, stamped with the clock reading the lookup began with. */
    method GetVolumeFast(registry: ServerRegistry, pid: Pid, now: Uint64)
      returns (result: int, volume: Uint32, muted: bool)
      requires registry.Valid()
      modifies this`connected, this`cache, link, registry, registry.clients, registry.clients.spine
      ensures registry.Valid()
      ensures Looked(WorldWith(registry.Registry()), cache, result, volume, muted) ==
              IpcVolumeQuery.GetVolumeFast(old(WorldWith(registry.Registry())), old(cache), pid, now)
    {
      if cache.valid && cache.pid == pid && Wrap64(now - cache.timestamp) < TTL_MS {
        assert Hit(cache, pid, now);
        return 0, cache.volume, cache.muted;
      }
      assert !Hit(cache, pid, now);
      result := RefreshCache(registry, pid, now, now);
      volume, muted := cache.volume, cache.muted;
    }

    /** ipc_client_set_cache */
    method SetCache(pid: Pid, volume: Uint32, muted: bool, now: Uint64)
      modifies this`cache
      ensures cache == Stored(old(cache), Store(pid, volume, muted, now))
    {
      cache := Cache(pid, volume, muted, now, true);
    }

    /** ipc_client_list_apps; `None` stands for -1. */
    method ListApps(registry: ServerRegistry, now: Uint64) returns (apps: Option<seq<Client>>)
      requires registry.Valid()
      modifies this`connected, link, registry, registry.clients, registry.clients.spine
      ensures registry.Valid()
      ensures (WorldWith(registry.Registry()), apps) == IpcListing.ListApps(old(WorldWith(registry.Registry())), now)
    {
      var result, header, body := SendSync(registry, CMD_LIST_CLIENTS, [], MAX_PAYLOAD, now);
      if result != 0 || header.command != CMD_RESPONSE {
        return None;
      }
      var appCount := |body| / RECORD_SIZE;
      if appCount == 0 {
        return Some([]);
      }
      var list := Parse(body, appCount);
      apps := Some(list[..]);
    }
  }

  /** The record parser: every field is read at a moving pointer. */
  method Parse(buffer: seq<Byte>, count: nat) returns (list: array<Client>)
    requires RECORD_SIZE * count <= |buffer|
    ensures fresh(list) && list[..] == ParseRecords(buffer, count)
  {
    list := new Client[count](_ => Client(0, 0, false, 0, []));
    var i, ptr := 0, 0;
    while i < count
      invariant 0 <= i <= count && ptr == RECORD_SIZE * i
      invariant list[..i] == ParseRecords(buffer, i)
    {
      var app := ParseAt(buffer, ptr);
      ghost var before := list[..i];
      list[i] := app;
      assert list[..i + 1] == before + [app];
      ptr := ptr + RECORD_SIZE;
      i := i + 1;
    }
    assert list[..] == list[..i];
  }

  method ParseAt(buffer: seq<Byte>, start: nat) returns (app: Client)
    requires start + RECORD_SIZE <= |buffer|
    ensures app == ParseRecord(buffer[start..start + RECORD_SIZE])
  {
    var ptr := start;
    var pid := ReadI32(buffer[ptr..ptr + 4]);
    ptr := ptr + 4;
    var volume := ReadU32(buffer[ptr..ptr + 4]);
    ptr := ptr + 4;
    var muted := ReadFlag(buffer[ptr..ptr + 1]);
    ptr := ptr + 1;
    var connectedAt := ReadU64(buffer[ptr..ptr + 8]);
    ptr := ptr + 8;
    app := Client(pid, volume, muted, connectedAt, buffer[ptr..ptr + NAME_SIZE]);
    ghost var record := buffer[start..start + RECORD_SIZE];
    assert buffer[start..start + 4] == record[..4] && buffer[start + 4..start + 8] == record[4..8];
    assert buffer[start + 8..start + 9] == record[8..9] && buffer[start + 9..start + 17] == record[9..17];
    assert buffer[start + 17..start + RECORD_SIZE] == record[17..];
  }
}
