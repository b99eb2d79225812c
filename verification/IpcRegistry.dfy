/** The service's registry of applications (src/ipc/ipc_server.c): a linked list on the heap, proved against
    sequences of records, which in turn refine a map from pids to volume and mute state. */
module IpcRegistry {
  import opened Words
  import opened IpcCodec
  import opened LinkedNodes
  import opened Lookup

  const NAME_SIZE: nat := 256

  datatype Client = Client(pid: Pid, volume: Uint32, muted: bool, connectedAt: Uint64, name: seq<Byte>)

  /** The bytes of a C string before its terminator, or all of them when there is none. */
  function CString(bytes: seq<Byte>): (s: seq<Byte>)
    ensures 0 !in s && |s| <= |bytes| && s == bytes[..|s|]
    ensures |s| < |bytes| ==> bytes[|s|] == 0
  {
    if bytes == [] || bytes[0] == 0 then [] else [bytes[0]] + CString(bytes[1..])
  }

  function Zeros(n: nat): seq<Byte> {
    seq(n, _ => 0)
  }

  /** strncpy into the 256-byte field, which is then terminated. */
  function StoredName(bytes: seq<Byte>): (name: seq<Byte>)
    ensures |name| == NAME_SIZE
  {
    var s := CString(bytes);
    var kept := if |s| < NAME_SIZE then s else s[..NAME_SIZE - 1];
    kept + Zeros(NAME_SIZE - |kept|)
  }

  /** A stored name is zero from its first zero on. */
  ghost predicate Padded(name: seq<Byte>) {
    |name| == NAME_SIZE && forall i, j :: 0 <= i <= j < NAME_SIZE && name[i] == 0 ==> name[j] == 0
  }

  lemma StoredNameIsPadded(bytes: seq<Byte>)
    ensures Padded(StoredName(bytes))
  {
    var s := CString(bytes);
    assert forall i :: 0 <= i < |s| ==> s[i] in s;
  }

  lemma {:induction false} CStringFound(bytes: seq<Byte>, n: nat)
    requires n < |bytes| && bytes[n] == 0 && 0 !in bytes[..n]
    ensures CString(bytes) == bytes[..n]
  {
    if n > 0 {
      assert bytes[..n][0] == bytes[0] && bytes[..n] == [bytes[0]] + bytes[1..][..n - 1];
      CStringFound(bytes[1..], n - 1);
    }
  }

  /** A stored name is the name given, cut to 255 bytes. */
  lemma StoredNameIsCut(bytes: seq<Byte>)
    ensures CString(StoredName(bytes)) ==
            if |CString(bytes)| <= NAME_SIZE - 1 then CString(bytes) else CString(bytes)[..NAME_SIZE - 1]
  {
    var s := CString(bytes);
    var n := if |s| <= NAME_SIZE - 1 then |s| else NAME_SIZE - 1;
    assert StoredName(bytes)[..n] == s[..n];
    CStringFound(StoredName(bytes), n);
  }

  // ---------------------------------------------------------------- sequences of records

  function Pids(reg: seq<Client>): (pids: seq<Pid>)
    ensures |pids| == |reg|
  {
    seq(|reg|, i requires 0 <= i < |reg| => reg[i].pid)
  }

  /** The first record with this pid, or the length. */
  function Position(reg: seq<Client>, pid: Pid): (i: nat)
    ensures i <= |reg|
    ensures i < |reg| ==> reg[i].pid == pid
    ensures forall k :: 0 <= k < i ==> reg[k].pid != pid
  {
    var pids := Pids(reg);
    assert forall k :: 0 <= k < |reg| ==> pids[k] == reg[k].pid;
    Find(pids, pid)
  }

  predicate Has(reg: seq<Client>, pid: Pid) {
    Position(reg, pid) < |reg|
  }

  function Registered(reg: seq<Client>, c: Client): seq<Client> {
    if Has(reg, c.pid) then reg else [c] + reg
  }

  function Unregistered(reg: seq<Client>, pid: Pid): seq<Client> {
    var i := Position(reg, pid);
    if i < |reg| then reg[..i] + reg[i + 1..] else reg
  }

  function WithVolume(reg: seq<Client>, pid: Pid, volume: Uint32): seq<Client> {
    var i := Position(reg, pid);
    if i < |reg| then reg[i := reg[i].(volume := ClampVolume(volume))] else reg
  }

  function WithMute(reg: seq<Client>, pid: Pid, muted: bool): seq<Client> {
    var i := Position(reg, pid);
    if i < |reg| then reg[i := reg[i].(muted := muted)] else reg
  }

  ghost predicate DistinctPids(reg: seq<Client>) {
    forall i, j :: 0 <= i < j < |reg| ==> reg[i].pid != reg[j].pid
  }

  // ---------------------------------------------------------------- the map they stand for

  datatype Level = Level(volume: Uint32, muted: bool)

  function Levels(reg: seq<Client>): map<Pid, Level> {
    if reg == [] then map[] else Levels(reg[1..])[reg[0].pid := Level(reg[0].volume, reg[0].muted)]
  }

  lemma {:induction false} LevelsByPosition(reg: seq<Client>, pid: Pid)
    ensures Has(reg, pid) <==> pid in Levels(reg)
    ensures Has(reg, pid) ==> var c := reg[Position(reg, pid)]; Levels(reg)[pid] == Level(c.volume, c.muted)
  {
    if reg != [] {
      LevelsByPosition(reg[1..], pid);
    }
  }

  /** A duplicate changes nothing; a new pid is inserted at the head. */
  lemma RegisterIsInsert(reg: seq<Client>, c: Client)
    requires DistinctPids(reg)
    ensures DistinctPids(Registered(reg, c))
    ensures Levels(Registered(reg, c)) ==
            if c.pid in Levels(reg) then Levels(reg) else Levels(reg)[c.pid := Level(c.volume, c.muted)]
  {
    LevelsByPosition(reg, c.pid);
    if !Has(reg, c.pid) {
      assert ([c] + reg)[1..] == reg;
    }
  }

  lemma LevelsCons(c: Client, reg: seq<Client>)
    ensures Levels([c] + reg) == Levels(reg)[c.pid := Level(c.volume, c.muted)]
  {
    assert ([c] + reg)[1..] == reg;
  }

  lemma RemoveOther(m: map<Pid, Level>, k: Pid, v: Level, p: Pid)
    requires k != p
    ensures (m - {p})[k := v] == m[k := v] - {p}
  {
  }

  lemma RemoveAdded(m: map<Pid, Level>, k: Pid, v: Level)
    requires k !in m
    ensures m[k := v] - {k} == m
  {
  }

  lemma {:induction false} RemoveLevels(reg: seq<Client>, i: nat)
    requires DistinctPids(reg) && i < |reg|
    ensures Levels(reg[..i] + reg[i + 1..]) == Levels(reg) - {reg[i].pid}
  {
    var head, rest := reg[0], reg[1..];
    var level := Level(head.volume, head.muted);
    if i == 0 {
      assert reg[..0] + reg[1..] == rest;
      LevelsByPosition(rest, head.pid);
      assert !Has(rest, head.pid);
      RemoveAdded(Levels(rest), head.pid, level);
    } else {
      var left := rest[..i - 1] + rest[i..];
      assert rest[i - 1] == reg[i];
      RemoveLevels(rest, i - 1);
      assert reg[..i] + reg[i + 1..] == [head] + left;
      LevelsCons(head, left);
      RemoveOther(Levels(rest), head.pid, level, reg[i].pid);
    }
  }

  lemma DistinctWithout(reg: seq<Client>, i: nat)
    requires DistinctPids(reg) && i < |reg|
    ensures DistinctPids(reg[..i] + reg[i + 1..])
  {
  }

  /** Removal takes exactly this pid out of the map. */
  lemma UnregisterIsRemove(reg: seq<Client>, pid: Pid)
    requires DistinctPids(reg)
    ensures DistinctPids(Unregistered(reg, pid))
    ensures Levels(Unregistered(reg, pid)) == Levels(reg) - {pid}
  {
    var i := Position(reg, pid);
    LevelsByPosition(reg, pid);
    if i < |reg| {
      DistinctWithout(reg, i);
      RemoveLevels(reg, i);
    } else {
      assert Levels(reg) - {pid} == Levels(reg);
    }
  }

  /** Replacing a record in place by one with the same pid replaces its level. */
  lemma {:induction false} UpdateIsReplace(reg: seq<Client>, i: nat, c: Client)
    requires DistinctPids(reg) && i < |reg| && reg[i].pid == c.pid
    ensures DistinctPids(reg[i := c])
    ensures Levels(reg[i := c]) == Levels(reg)[c.pid := Level(c.volume, c.muted)]
  {
    if i == 0 {
      assert reg[0 := c][1..] == reg[1..];
    } else {
      UpdateIsReplace(reg[1..], i - 1, c);
      assert reg[i := c][1..] == reg[1..][i - 1 := c];
    }
  }

  lemma SetVolumeIsReplace(reg: seq<Client>, pid: Pid, volume: Uint32)
    requires DistinctPids(reg)
    ensures DistinctPids(WithVolume(reg, pid, volume)) && Pids(WithVolume(reg, pid, volume)) == Pids(reg)
    ensures Levels(WithVolume(reg, pid, volume)) ==
            if pid in Levels(reg) then Levels(reg)[pid := Levels(reg)[pid].(volume := ClampVolume(volume))]
            else Levels(reg)
  {
    LevelsByPosition(reg, pid);
    var i := Position(reg, pid);
    if i < |reg| {
      UpdateIsReplace(reg, i, reg[i].(volume := ClampVolume(volume)));
    }
  }

  lemma SetMuteIsReplace(reg: seq<Client>, pid: Pid, muted: bool)
    requires DistinctPids(reg)
    ensures DistinctPids(WithMute(reg, pid, muted)) && Pids(WithMute(reg, pid, muted)) == Pids(reg)
    ensures Levels(WithMute(reg, pid, muted)) ==
            if pid in Levels(reg) then Levels(reg)[pid := Levels(reg)[pid].(muted := muted)] else Levels(reg)
  {
    LevelsByPosition(reg, pid);
    var i := Position(reg, pid);
    if i < |reg| {
      UpdateIsReplace(reg, i, reg[i].(muted := muted));
    }
  }

  // ---------------------------------------------------------------- the heap

  /** All stored names are zero from their first zero on, as registration leaves them. */
  ghost predicate NamesPadded(reg: seq<Client>) {
    forall i :: 0 <= i < |reg| ==> Padded(reg[i].name)
  }

  lemma InsertKeeps(reg: seq<Client>, c: Client)
    requires DistinctPids(reg) && NamesPadded(reg) && !Has(reg, c.pid) && exists name :: c.name == StoredName(name)
    ensures DistinctPids([c] + reg) && NamesPadded([c] + reg)
  {
    var name :| c.name == StoredName(name);
    StoredNameIsPadded(name);
    RegisterIsInsert(reg, c);
  }

  lemma RemoveKeeps(reg: seq<Client>, i: nat)
    requires DistinctPids(reg) && NamesPadded(reg) && i < |reg|
    ensures DistinctPids(reg[..i] + reg[i + 1..]) && NamesPadded(reg[..i] + reg[i + 1..])
  {
    DistinctWithout(reg, i);
  }

  /** `client_count++` and `client_count--` keep the count that of the list. */
  lemma CountOneMore(n: nat)
    ensures Wrap32(Wrap32(n) + 1) == Wrap32(n + 1)
    ensures Wrap32(Wrap32(n + 1) - 1) == Wrap32(n)
  {
    Wrap32Adds(n, 1);
    Wrap32Adds(n + 1, -1);
  }

  /** The part of IPCServerContext that holds the registry. */
  class ServerRegistry {
    const clients: NodeList<Client>
    var clientCount: Uint32

    /** The list is acyclic and counted by `clientCount`, no pid occurs twice, and every name is padded. */
    ghost predicate Valid() reads this, clients, clients.spine {
      && clients.Valid()
      && clientCount == Wrap32(|clients.spine|)
      && DistinctPids(Registry())
      && NamesPadded(Registry())
    }

    /** The records in list order. */
    ghost function Registry(): (reg: seq<Client>)
      reads this, clients, clients.spine
      ensures |reg| == |clients.spine|
    {
      clients.Items()
    }

    constructor ()
      ensures Valid() && fresh(clients) && Registry() == []
    {
      clients := new NodeList<Client>();
      clientCount := 0;
    }

    /** ipc_server_find_client */
    method FindClient(pid: Pid) returns (entry: Node?<Client>, ghost i: nat)
      requires Valid()
      ensures i == Position(Registry(), pid)
      ensures entry == NodeOf(clients.spine, Position(Registry(), pid))
    {
      entry := clients.head;
      i := 0;
      while entry != null
        invariant i <= |clients.spine| && entry == NodeOf(clients.spine, i)
        invariant forall k :: 0 <= k < i ==> Registry()[k].pid != pid
        decreases |clients.spine| - i
      {
        assert Registry()[i] == entry.info;
        if entry.info.pid == pid {
          FirstPosition(Registry(), pid, i);
          return;
        }
        entry := entry.next;
        i := i + 1;
      }
      FirstPosition(Registry(), pid, i);
    }

    /** Fails, changing nothing, exactly when the pid is known; otherwise the new record becomes the head. */
    method Register(pid: Pid, volume: Uint32, muted: bool, now: Uint64, name: seq<Byte>) returns (result: int)
      requires Valid()
      modifies this`clientCount, clients
      ensures Valid()
      ensures result == if Has(old(Registry()), pid) then -1 else 0
      ensures Registry() == Registered(old(Registry()), Client(pid, volume, muted, now, StoredName(name)))
      ensures result == 0 ==>
                |Registry()| > 0 &&
                var c, given := Registry()[0], CString(name);
                && Registry()[1..] == old(Registry())
                && c.pid == pid && c.volume == volume && c.muted == muted && c.connectedAt == now
                && CString(c.name) == if |given| <= NAME_SIZE - 1 then given else given[..NAME_SIZE - 1]
      ensures clients.spine == old(clients.spine)
              || exists e: Node<Client> :: fresh(e) && clients.spine == [e] + old(clients.spine)
    {
      var found, i := FindClient(pid);
      if found != null {
        return -1;
      }
      Prepend(Client(pid, volume, muted, now, StoredName(name)), name);
      StoredNameIsCut(name);
      result := 0;
    }

    /** A new record becomes the head. */
    method Prepend(info: Client, ghost name: seq<Byte>)
      requires Valid() && !Has(Registry(), info.pid) && info.name == StoredName(name)
      modifies this`clientCount, clients
      ensures Valid() && Registry() == [info] + old(Registry())
      ensures exists e: Node<Client> :: fresh(e) && clients.spine == [e] + old(clients.spine)
    {
      InsertKeeps(Registry(), info);
      CountOneMore(|clients.spine|);
      clients.PushFront(info);
      clientCount := Wrap32(clientCount + 1);
    }

    /** Unlinks exactly the first record with the pid and keeps the order of the rest; fails when there is none. */
    method Unregister(pid: Pid) returns (result: int)
      requires Valid()
      modifies this`clientCount, clients, clients.spine
      ensures Valid()
      ensures result == if Has(old(Registry()), pid) then 0 else -1
      ensures Registry() == Unregistered(old(Registry()), pid)
      ensures forall e :: e in clients.spine ==> e in old(clients.spine)
    {
      var previous: Node?<Client> := null;
      var current := clients.head;
      ghost var i := 0;
      while current != null
        invariant i <= |clients.spine| && current == NodeOf(clients.spine, i)
        invariant if i == 0 then previous == null else previous == clients.spine[i - 1]
        invariant forall k :: 0 <= k < i ==> Registry()[k].pid != pid
        invariant unchanged(this) && unchanged(clients) && unchanged(clients.spine)
        decreases |clients.spine| - i
      {
        assert Registry()[i] == current.info;
        if current.info.pid == pid {
          FirstPosition(Registry(), pid, i);
          RemoveAt(previous, current, i);
          return 0;
        }
        previous := current;
        current := current.next;
        i := i + 1;
      }
      FirstPosition(Registry(), pid, i);
      result := -1;
    }

    /** Takes node `i` out of the list and frees it. */
    method RemoveAt(previous: Node?<Client>, current: Node<Client>, ghost i: nat)
      requires Valid() && i < |clients.spine| && current == clients.spine[i]
      requires if i == 0 then previous == null else previous == clients.spine[i - 1]
      modifies this`clientCount, clients, clients.spine
      ensures Valid() && Registry() == old(Registry())[..i] + old(Registry())[i + 1..]
      ensures clients.spine == old(clients.spine)[..i] + old(clients.spine)[i + 1..]
      ensures forall e :: e in clients.spine ==> e in old(clients.spine)
    {
      ghost var reg := Registry();
      RemoveKeeps(reg, i);
      assert Wrap32(clientCount - 1) == Wrap32(|reg| - 1) by {
        CountOneMore(|reg| - 1);
      }
      clients.Unlink(previous, current, i);
      assert Registry() == reg[..i] + reg[i + 1..];
      clientCount := Wrap32(clientCount - 1);
      assert Registry() == reg[..i] + reg[i + 1..];
    }

    /** ipc_server_set_volume: clamps, and fails exactly when the pid is unknown. */
    method SetVolume(pid: Pid, volume: Uint32) returns (result: int)
      requires Valid()
      modifies clients.spine
      ensures Valid()
      ensures result == if Has(old(Registry()), pid) then 0 else -1
      ensures Registry() == WithVolume(old(Registry()), pid, volume)
    {
      var v := volume;
      if FloatNegative(v) {
        v := FLOAT_ZERO;
      }
      if FloatAboveOne(v) {
        v := FLOAT_ONE;
      }
      var entry, i := FindClient(pid);
      if entry == null {
        return -1;
      }
      clients.Update(entry, entry.info.(volume := v), i);
      result := 0;
    }

    method SetMute(pid: Pid, muted: bool) returns (result: int)
      requires Valid()
      modifies clients.spine
      ensures Valid()
      ensures result == if Has(old(Registry()), pid) then 0 else -1
      ensures Registry() == WithMute(old(Registry()), pid, muted)
    {
      var entry, i := FindClient(pid);
      if entry == null {
        return -1;
      }
      clients.Update(entry, entry.info.(muted := muted), i);
      result := 0;
    }

    method GetVolume(pid: Pid) returns (result: int, volume: Uint32, muted: bool)
      requires Valid()
      ensures result == if Has(Registry(), pid) then 0 else -1
      ensures Has(Registry(), pid) ==>
        pid in Levels(Registry()) && Levels(Registry())[pid] == Level(volume, muted)
    {
      volume, muted := FLOAT_ZERO, false;
      var entry, i := FindClient(pid);
      if entry == null {
        return -1, volume, muted;
      }
      LevelsByPosition(Registry(), pid);
      result, volume, muted := 0, entry.info.volume, entry.info.muted;
    }

    /** ipc_server_list_clients: the whole list, in order, as far as the 32-bit count reaches; null when that is
        zero. */
    method ListClients() returns (list: array?<Client>, count: Uint32)
      requires Valid()
      ensures count == Wrap32(|Registry()|)
      ensures if count == 0 then list == null else list != null && fresh(list) && list[..] == Registry()[..count]
    {
      count := clientCount;
      if count == 0 {
        return null, 0;
      }
      list := new Client[count](_ => Client(0, 0, false, 0, []));
      var i := 0;
      var current := clients.head;
      while current != null && i < count
        invariant 0 <= i <= count <= |clients.spine| && current == NodeOf(clients.spine, i)
        invariant list[..i] == Registry()[..i]
        modifies list
        decreases count - i
      {
        assert Registry()[i] == current.info;
        list[i] := current.info;
        i := i + 1;
        current := current.next;
      }
      assert list[..] == list[..i];
    }
  }

  lemma FirstPosition(reg: seq<Client>, pid: Pid, i: nat)
    requires i <= |reg| && (i < |reg| ==> reg[i].pid == pid) && forall k :: 0 <= k < i ==> reg[k].pid != pid
    ensures Position(reg, pid) == i
  {
  }
}
