/** The driver's client slots and its cached per-client volume (src/driver/app_volume_driver.c). */
module DriverVolume {
  import opened Words
  import opened VolumeCache
  import opened Lookup

  const MAX_CLIENTS: nat := 64

  /** kAudioHardwareBadDeviceError, '!dev' */
  const BAD_DEVICE: int := 560227702

  datatype Slot = Slot(clientId: Uint32, pid: int, active: bool)

  const FREE: Slot := Slot(0, 0, false)

  /** What an operation asks the IPC client to send. */
  datatype Notice =
    | NoNotice
    | RegisterApp(pid: int, name: string, volume: real, muted: bool)
    | UnregisterApp(pid: int)

  // ---------------------------------------------------------------- the table as a map

  function Clients(slots: seq<Slot>): map<Uint32, int> {
    if slots == [] then map[]
    else
      var rest, last := Clients(slots[..|slots| - 1]), slots[|slots| - 1];
      if last.active then rest[last.clientId := last.pid] else rest
  }

  function ActiveCount(slots: seq<Slot>): (n: nat)
    ensures n <= |slots|
  {
    if slots == [] then 0 else ActiveCount(slots[..|slots| - 1]) + (if slots[|slots| - 1].active then 1 else 0)
  }

  predicate Owns(slots: seq<Slot>, i: nat, id: Uint32) {
    i < |slots| && slots[i].active && slots[i].clientId == id
  }

  ghost predicate DistinctIds(slots: seq<Slot>) {
    forall i, j :: 0 <= i < j < |slots| && slots[i].active && slots[j].active ==> slots[i].clientId != slots[j].clientId
  }

  lemma DistinctPrefix(slots: seq<Slot>, rest: seq<Slot>, last: Slot)
    requires DistinctIds(slots) && slots != [] && rest == slots[..|slots| - 1] && last == slots[|slots| - 1]
    ensures DistinctIds(rest)
    ensures last.active ==> forall i: nat :: !Owns(rest, i, last.clientId)
  {
  }

  lemma {:induction false} ClientsOwned(slots: seq<Slot>)
    requires DistinctIds(slots)
    ensures forall id :: id in Clients(slots) ==> exists i: nat :: Owns(slots, i, id)
  {
    if slots != [] {
      var rest := slots[..|slots| - 1];
      DistinctPrefix(slots, rest, slots[|slots| - 1]);
      ClientsOwned(rest);
      forall id | id in Clients(slots) ensures exists i: nat :: Owns(slots, i, id) {
        if id in Clients(rest) {
          var i: nat :| Owns(rest, i, id);
          assert Owns(slots, i, id);
        } else {
          assert Owns(slots, |slots| - 1, id);
        }
      }
    }
  }

  lemma {:induction false} ClientsIndexed(slots: seq<Slot>)
    requires DistinctIds(slots)
    ensures forall i :: 0 <= i < |slots| && slots[i].active ==>
      slots[i].clientId in Clients(slots) && Clients(slots)[slots[i].clientId] == slots[i].pid
  {
    if slots != [] {
      DistinctPrefix(slots, slots[..|slots| - 1], slots[|slots| - 1]);
      ClientsIndexed(slots[..|slots| - 1]);
    }
  }

  lemma {:induction false} ClientsCounted(slots: seq<Slot>)
    requires DistinctIds(slots)
    ensures |Clients(slots)| == ActiveCount(slots)
  {
    if slots != [] {
      var rest, last := slots[..|slots| - 1], slots[|slots| - 1];
      DistinctPrefix(slots, rest, last);
      ClientsCounted(rest);
      ClientsOwned(rest);
      assert last.active ==> last.clientId !in Clients(rest);
    }
  }

  /** The map holds exactly the active slots, and is as large as their number. */
  lemma ClientsByIndex(slots: seq<Slot>)
    requires DistinctIds(slots)
    ensures forall i :: 0 <= i < |slots| && slots[i].active ==>
      slots[i].clientId in Clients(slots) && Clients(slots)[slots[i].clientId] == slots[i].pid
    ensures forall id :: id in Clients(slots) ==> exists i: nat :: Owns(slots, i, id)
    ensures |Clients(slots)| == ActiveCount(slots)
  {
    ClientsIndexed(slots);
    ClientsOwned(slots);
    ClientsCounted(slots);
  }

  /** The map's entry for one id, found by its slot. */
  lemma ClientAt(slots: seq<Slot>, i: nat, id: Uint32)
    requires DistinctIds(slots) && Owns(slots, i, id)
    ensures id in Clients(slots) && Clients(slots)[id] == slots[i].pid
  {
    ClientsByIndex(slots);
  }

  lemma ClientSlot(slots: seq<Slot>, id: Uint32) returns (i: nat)
    requires DistinctIds(slots) && id in Clients(slots)
    ensures Owns(slots, i, id)
  {
    ClientsByIndex(slots);
    i :| Owns(slots, i, id);
  }

  function Without(slots: seq<Slot>, i: nat): map<Uint32, int>
    requires i < |slots|
  {
    if slots[i].active then Clients(slots) - {slots[i].clientId} else Clients(slots)
  }

  function Occupant(slot: Slot): map<Uint32, int> {
    if slot.active then map[slot.clientId := slot.pid] else map[]
  }

  lemma UpdateGains(slots: seq<Slot>, i: nat, slot: Slot, id: Uint32)
    requires i < |slots| && DistinctIds(slots) && DistinctIds(slots[i := slot])
    requires id in Without(slots, i) + Occupant(slot)
    ensures id in Clients(slots[i := slot]) && Clients(slots[i := slot])[id] == (Without(slots, i) + Occupant(slot))[id]
  {
    if id in Occupant(slot) {
      ClientAt(slots[i := slot], i, id);
    } else {
      var j := ClientSlot(slots, id);
      ClientAt(slots, j, id);
      ClientAt(slots[i := slot], j, id);
    }
  }

  lemma UpdateAddsNothing(slots: seq<Slot>, i: nat, slot: Slot, id: Uint32)
    requires i < |slots| && DistinctIds(slots) && DistinctIds(slots[i := slot])
    requires id in Clients(slots[i := slot])
    ensures id in Without(slots, i) + Occupant(slot)
  {
    var j := ClientSlot(slots[i := slot], id);
    if j != i {
      ClientAt(slots, j, id);
    }
  }

  /** Changing one slot changes the map at most at the id it held and the id it now holds. */
  lemma SlotUpdate(slots: seq<Slot>, i: nat, slot: Slot)
    requires i < |slots| && DistinctIds(slots) && DistinctIds(slots[i := slot])
    ensures Clients(slots[i := slot]) == Without(slots, i) + Occupant(slot)
  {
    var expected := Without(slots, i) + Occupant(slot);
    forall id | id in expected
      ensures id in Clients(slots[i := slot]) && Clients(slots[i := slot])[id] == expected[id]
    {
      UpdateGains(slots, i, slot, id);
    }
    forall id | id in Clients(slots[i := slot]) ensures id in expected {
      UpdateAddsNothing(slots, i, slot, id);
    }
  }

  lemma {:induction false} CountUpdate(slots: seq<Slot>, i: nat, slot: Slot)
    requires i < |slots|
    ensures ActiveCount(slots[i := slot]) ==
            ActiveCount(slots) - (if slots[i].active then 1 else 0) + (if slot.active then 1 else 0)
  {
    var n := |slots| - 1;
    if i == n {
      assert slots[i := slot][..n] == slots[..n];
    } else {
      CountUpdate(slots[..n], i, slot);
      assert slots[i := slot][..n] == slots[..n][i := slot];
    }
  }

  lemma {:induction false} FullTable(slots: seq<Slot>)
    ensures ActiveCount(slots) == |slots| <==> forall i :: 0 <= i < |slots| ==> slots[i].active
  {
    if slots != [] {
      FullTable(slots[..|slots| - 1]);
    }
  }

  /** The slot with this id, or the length. */
  function SlotOf(slots: seq<Slot>, id: Uint32): (i: nat)
    ensures i <= |slots|
    ensures i < |slots| ==> Owns(slots, i, id)
    ensures forall k :: 0 <= k < i ==> !Owns(slots, k, id)
  {
    var owned := seq(|slots|, i requires 0 <= i < |slots| => Owns(slots, i, id));
    assert forall k :: 0 <= k < |slots| ==> owned[k] == Owns(slots, k, id);
    Find(owned, true)
  }

  /** The first free slot, or the length. */
  function FreeSlot(slots: seq<Slot>): (i: nat)
    ensures i <= |slots|
    ensures i < |slots| ==> !slots[i].active
    ensures forall k :: 0 <= k < i ==> slots[k].active
  {
    var taken := seq(|slots|, i requires 0 <= i < |slots| => slots[i].active);
    assert forall k :: 0 <= k < |slots| ==> taken[k] == slots[k].active;
    Find(taken, false)
  }

  // ---------------------------------------------------------------- the code

  class DriverClients {
    const slots: array<Slot>
    var clientCount: int
    var ipcInitialized: bool
    var connected: bool
    var cache: Cache<real>

    ghost predicate Valid() reads this, slots {
      slots.Length == MAX_CLIENTS && DistinctIds(slots[..]) && clientCount == ActiveCount(slots[..])
    }

    /** The abstract state: client ids to pids. */
    ghost function Table(): map<Uint32, int> reads this, slots {
      Clients(slots[..])
    }

    constructor ()
      ensures Valid() && fresh(slots) && Table() == map[]
    {
      slots := new Slot[MAX_CLIENTS](_ => FREE);
      clientCount := 0;
      ipcInitialized, connected, cache := false, false, Empty(1.0);
      new;
      AllFree(slots[..]);
    }

    method FindActive(clientId: Uint32) returns (i: nat)
      requires slots.Length == MAX_CLIENTS
      ensures i <= MAX_CLIENTS
      ensures i < MAX_CLIENTS ==> Owns(slots[..], i, clientId)
      ensures forall k :: 0 <= k < i ==> !Owns(slots[..], k, clientId)
      ensures i == SlotOf(slots[..], clientId)
    {
      i := 0;
      while i < MAX_CLIENTS
        invariant i <= MAX_CLIENTS
        invariant forall k :: 0 <= k < i ==> !Owns(slots[..], k, clientId)
      {
        if slots[i].active && slots[i].clientId == clientId {
          assert Owns(slots[..], i, clientId);
          return;
        }
        i := i + 1;
      }
    }

    /** A known id gets the new pid in its slot; a new id gets the first free slot, and the service is told; it fails,
        changing nothing, exactly when the id is new and all 64 slots are active. */
    method AddClient(clientId: Uint32, pid: int, bundleId: Option<string>, name: Option<string>)
      returns (status: int, notice: Notice)
      requires Valid()
      modifies this`clientCount, slots
      ensures Valid()
      ensures status == (if clientId in old(Table()) || |old(Table())| < MAX_CLIENTS then 0 else BAD_DEVICE)
      ensures Table() == (if status == 0 then old(Table())[clientId := pid] else old(Table()))
      ensures var at := if clientId in old(Table()) then SlotOf(old(slots[..]), clientId) else FreeSlot(old(slots[..]));
              slots[..] == if at < MAX_CLIENTS then old(slots[..])[at := Slot(clientId, pid, true)] else old(slots[..])
      ensures if status == 0 && clientId !in old(Table()) && ipcInitialized && connected
              then
                var told := if name.Some? then name.value else if bundleId.Some? then bundleId.value else "Unknown";
                notice == RegisterApp(pid, told, 1.0, false)
              else notice == NoNotice
    {
      notice := NoNotice;
      ClientsByIndex(slots[..]);
      FullTable(slots[..]);
      var i := FindActive(clientId);
      if i < MAX_CLIENTS {
        Replaced(slots[..], i, Slot(clientId, pid, true));
        slots[i] := Slot(clientId, pid, true);
        assert slots[..] == old(slots[..])[i := Slot(clientId, pid, true)];
        return 0, NoNotice;
      }
      assert clientId !in Table();
      i := 0;
      while i < MAX_CLIENTS
        invariant i <= MAX_CLIENTS
        invariant forall k :: 0 <= k < i ==> slots[k].active
      {
        if slots[i].active {
          i := i + 1;
          continue;
        }
        Inserted(slots[..], i, Slot(clientId, pid, true));
        slots[i] := Slot(clientId, pid, true);
        assert slots[..] == old(slots[..])[i := Slot(clientId, pid, true)];
        clientCount := clientCount + 1;
        if ipcInitialized && connected {
          var appName := if name.Some? then name.value else if bundleId.Some? then bundleId.value else "Unknown";
          notice := RegisterApp(pid, appName, 1.0, false);
        }
        return 0, notice;
      }
      status := BAD_DEVICE;
    }

    /** Removes exactly the given id, and fails, changing nothing, exactly when it is unknown. */
    method RemoveClient(clientId: Uint32) returns (status: int, notice: Notice)
      requires Valid()
      modifies this`clientCount, slots
      ensures Valid()
      ensures status == (if clientId in old(Table()) then 0 else BAD_DEVICE)
      ensures Table() == old(Table()) - {clientId}
      ensures var at := SlotOf(old(slots[..]), clientId);
              slots[..] == if at < MAX_CLIENTS then old(slots[..])[at := FREE] else old(slots[..])
      ensures notice == (if status == 0 && ipcInitialized && connected && old(Table())[clientId] > 0
                         then UnregisterApp(old(Table())[clientId]) else NoNotice)
    {
      notice := NoNotice;
      ClientsByIndex(slots[..]);
      var i := FindActive(clientId);
      if i == MAX_CLIENTS {
        assert clientId !in Table();
        return BAD_DEVICE, NoNotice;
      }
      var removedPid := slots[i].pid;
      Vacated(slots[..], i);
      slots[i] := FREE;
      assert slots[..] == old(slots[..])[i := FREE];
      clientCount := clientCount - 1;
      if ipcInitialized && removedPid > 0 && connected {
        notice := UnregisterApp(removedPid);
      }
      status := 0;
    }

    /** -1 for an unknown client, or whenever the lock is not free. */
    method GetPid(clientId: Uint32, lockFree: bool) returns (pid: int)
      requires Valid()
      ensures pid == if lockFree && clientId in Table() then Table()[clientId] else -1
    {
      pid := -1;
      if lockFree {
        ClientsByIndex(slots[..]);
        var i := FindActive(clientId);
        if i < MAX_CLIENTS {
          pid := slots[i].pid;
        }
      }
    }

    /** The first `maxCount` active pids, in slot order: each at the place given by the active slots before its own. */
    method GetClientPids(outPids: array<int>, maxCount: Uint32) returns (count: nat)
      requires Valid() && maxCount <= outPids.Length && outPids != slots as object
      modifies outPids
      ensures count == if maxCount < |Table()| then maxCount else |Table()|
      ensures var s, out := slots[..], outPids[..];
              forall i :: 0 <= i < |s| && s[i].active && ActiveCount(s[..i]) < maxCount ==>
                ActiveCount(s[..i]) < count && out[ActiveCount(s[..i])] == s[i].pid
      ensures outPids[count..] == old(outPids[count..])
    {
      ghost var s := slots[..];
      count := 0;
      var i := 0;
      while i < MAX_CLIENTS && count < maxCount
        invariant 0 <= i <= MAX_CLIENTS && count <= maxCount && slots[..] == s
        invariant count == ActiveCount(s[..i])
        invariant PidsOut(s, i, outPids[..], count)
        invariant outPids[count..] == old(outPids[..])[count..]
      {
        CountNext(s, i);
        assert slots[i] == s[i];
        ghost var before := outPids[..];
        if slots[i].active {
          outPids[count] := slots[i].pid;
          count := count + 1;
        }
        assert outPids[count..] == before[count..];
        PidsOutNext(s, i, before, outPids[..], count);
        i := i + 1;
      }
      ClientsByIndex(s);
      AllOut(s, i, outPids[..], count, maxCount);
    }

    /** The client is known and the cache has a fresh entry for its pid. */
    ghost predicate Hits(clientId: Uint32, lockFree: bool, now: Uint64) reads this, slots {
      && lockFree && clientId in Table() && Table()[clientId] > 0 && ipcInitialized
      && cache.valid && cache.pid == Table()[clientId] && Wrap64(now - cache.timestamp) < TTL_MS
    }

    /** The audio thread's volume: the cached one on a hit, otherwise full and unmuted. */
    method GetVolume(clientId: Uint32, lockFree: bool, now: Uint64) returns (volume: real, muted: bool)
      requires Valid()
      ensures (volume, muted) ==
              Effective(1.0, cache, if lockFree && clientId in Table() then Table()[clientId] else -1,
                        ipcInitialized, now)
      ensures if Hits(clientId, lockFree, now) then volume == cache.volume && muted == cache.muted
              else volume == 1.0 && !muted
    {
      volume, muted := 1.0, false;
      var pid := GetPid(clientId, lockFree);
      if pid > 0 && ipcInitialized {
        if cache.valid && cache.pid == pid && Wrap64(now - cache.timestamp) < TTL_MS {
          volume, muted := cache.volume, cache.muted;
        }
      }
    }

    method ApplyVolume(clientId: Uint32, lockFree: bool, now: Uint64, data: array<real>, count: nat)
      requires Valid() && count <= data.Length
      modifies data
      ensures var hit := Hits(clientId, lockFree, now);
              forall k :: 0 <= k < count ==>
                data[k] == if hit && cache.muted then 0.0
                           else if hit && cache.volume < 0.999 then old(data[k]) * cache.volume
                           else old(data[k])
      ensures data[count..] == old(data[count..])
    {
      var volume, muted := GetVolume(clientId, lockFree, now);
      ghost var was := data[..count];
      var i := 0;
      if muted {
        forall k | 0 <= k < count {
          data[k] := 0.0;
        }
        return;
      }
      if volume >= 0.999 {
        return;
      }
      while i < count
        invariant 0 <= i <= count
        invariant forall k :: 0 <= k < i ==> data[k] == was[k] * volume
        invariant forall k :: i <= k < data.Length ==> data[k] == old(data[k])
      {
        data[i] := data[i] * volume;
        i := i + 1;
      }
    }
  }

  /** What the driver plays a client at: the cached volume on a hit, otherwise full volume. */
  function Effective<V>(full: V, cache: Cache<V>, pid: int, ipcInitialized: bool, now: Uint64): (V, bool) {
    if pid > 0 && ipcInitialized && Hit(cache, pid, now) then (cache.volume, cache.muted) else (full, false)
  }

  lemma {:induction false} AllFree(slots: seq<Slot>)
    requires forall i :: 0 <= i < |slots| ==> !slots[i].active
    ensures Clients(slots) == map[] && ActiveCount(slots) == 0
  {
    if slots != [] {
      AllFree(slots[..|slots| - 1]);
    }
  }

  lemma Replaced(slots: seq<Slot>, i: nat, slot: Slot)
    requires i < |slots| && DistinctIds(slots) && slots[i].active && slot.active && slot.clientId == slots[i].clientId
    ensures DistinctIds(slots[i := slot]) && ActiveCount(slots[i := slot]) == ActiveCount(slots)
    ensures Clients(slots[i := slot]) == Clients(slots)[slot.clientId := slot.pid]
  {
    SlotUpdate(slots, i, slot);
    CountUpdate(slots, i, slot);
  }

  lemma Inserted(slots: seq<Slot>, i: nat, slot: Slot)
    requires i < |slots| && DistinctIds(slots) && !slots[i].active && slot.active && slot.clientId !in Clients(slots)
    ensures DistinctIds(slots[i := slot]) && ActiveCount(slots[i := slot]) == ActiveCount(slots) + 1
    ensures Clients(slots[i := slot]) == Clients(slots)[slot.clientId := slot.pid]
  {
    StillDistinct(slots, i, slot);
    SlotUpdate(slots, i, slot);
    CountUpdate(slots, i, slot);
  }

  lemma StillDistinct(slots: seq<Slot>, i: nat, slot: Slot)
    requires i < |slots| && DistinctIds(slots) && slot.clientId !in Clients(slots)
    ensures DistinctIds(slots[i := slot])
  {
    ClientsByIndex(slots);
    var after := slots[i := slot];
    forall j, k | 0 <= j < k < |after| && after[j].active && after[k].active
      ensures after[j].clientId != after[k].clientId
    {
      assert j != i ==> Owns(slots, j, slots[j].clientId);
      assert k != i ==> Owns(slots, k, slots[k].clientId);
    }
  }

  lemma Vacated(slots: seq<Slot>, i: nat)
    requires i < |slots| && DistinctIds(slots) && slots[i].active
    ensures DistinctIds(slots[i := FREE]) && ActiveCount(slots[i := FREE]) == ActiveCount(slots) - 1
    ensures Clients(slots[i := FREE]) == Clients(slots) - {slots[i].clientId}
  {
    SlotUpdate(slots, i, FREE);
    CountUpdate(slots, i, FREE);
  }

  /** The pids of the active slots before `n` stand in `out`, each behind those of the active slots before it. */
  ghost predicate PidsOut(slots: seq<Slot>, n: nat, out: seq<int>, count: nat) {
    n <= |slots| && count <= |out| &&
    forall i :: 0 <= i < n && slots[i].active ==>
      ActiveCount(slots[..i]) < count && out[ActiveCount(slots[..i])] == slots[i].pid
  }

  lemma CountNext(slots: seq<Slot>, i: nat)
    requires i < |slots|
    ensures ActiveCount(slots[..i + 1]) == ActiveCount(slots[..i]) + (if slots[i].active then 1 else 0)
  {
    assert slots[..i + 1][..i] == slots[..i];
  }

  lemma PidsOutNext(slots: seq<Slot>, n: nat, before: seq<int>, out: seq<int>, count: nat)
    requires n < |slots| && PidsOut(slots, n, before, ActiveCount(slots[..n])) && ActiveCount(slots[..n]) <= count
    requires count == ActiveCount(slots[..n + 1]) <= |out|
    requires |out| == |before| && out[..ActiveCount(slots[..n])] == before[..ActiveCount(slots[..n])]
    requires slots[n].active ==> out[count - 1] == slots[n].pid
    ensures PidsOut(slots, n + 1, out, count)
  {
    CountNext(slots, n);
    forall i | 0 <= i < n && slots[i].active ensures out[ActiveCount(slots[..i])] == slots[i].pid {
      assert out[..ActiveCount(slots[..n])][ActiveCount(slots[..i])] == before[ActiveCount(slots[..i])];
    }
  }

  lemma AllOut(slots: seq<Slot>, n: nat, out: seq<int>, count: nat, maxCount: nat)
    requires PidsOut(slots, n, out, count) && count == ActiveCount(slots[..n]) && (n == |slots| || count >= maxCount)
    ensures ActiveCount(slots[..n]) <= ActiveCount(slots) && (n == |slots| ==> count == ActiveCount(slots))
    ensures forall i :: 0 <= i < |slots| && slots[i].active && ActiveCount(slots[..i]) < maxCount ==>
              ActiveCount(slots[..i]) < count && out[ActiveCount(slots[..i])] == slots[i].pid
  {
    CountGrows(slots, n, |slots|);
    assert slots[..|slots|] == slots;
    forall i | n <= i < |slots| ensures ActiveCount(slots[..i]) >= count {
      CountGrows(slots, n, i);
    }
  }

  /** Further on there are no fewer active slots. */
  lemma {:induction false} CountGrows(slots: seq<Slot>, i: nat, j: nat)
    requires i <= j <= |slots|
    ensures ActiveCount(slots[..i]) <= ActiveCount(slots[..j])
  {
    if i < j {
      CountGrows(slots, i, j - 1);
      assert slots[..j][..j - 1] == slots[..j - 1];
    }
  }
}
