/** The controller's own list of applications (src/app_volume_control.c): a compacting array of at most 64 entries, and
    the request each change sends to the service. */
module VolumeTable {
  import opened Words
  import opened IpcCodec
  import opened IpcRegistry
  import opened IpcWire
  import opened Lookup

  const MAX_ENTRIES: nat := 64

  datatype Row = Row(pid: Pid, bundleId: seq<Byte>, name: seq<Byte>, volume: Uint32, muted: bool, active: bool)

  const BLANK: Row := Row(0, Zeros(NAME_SIZE), Zeros(NAME_SIZE), FLOAT_ZERO, false, false)

  // ---------------------------------------------------------------- the list as a sequence

  function RowPids(rows: seq<Row>): (pids: seq<Pid>)
    ensures |pids| == |rows|
  {
    seq(|rows|, i requires 0 <= i < |rows| => rows[i].pid)
  }

  ghost predicate DistinctRows(rows: seq<Row>) {
    forall i, j :: 0 <= i < j < |rows| ==> rows[i].pid != rows[j].pid
  }

  /** The first row with this pid, or the length. */
  function RowOf(rows: seq<Row>, pid: Pid): (i: nat)
    ensures i <= |rows|
    ensures i < |rows| ==> rows[i].pid == pid
    ensures forall k :: 0 <= k < i ==> rows[k].pid != pid
  {
    var pids := RowPids(rows);
    assert forall k :: 0 <= k < |rows| ==> pids[k] == rows[k].pid;
    Find(pids, pid)
  }

  predicate Listed(rows: seq<Row>, pid: Pid) {
    RowOf(rows, pid) < |rows|
  }

  datatype Change =
    | Add(pid: Pid, bundleId: Option<seq<Byte>>, name: Option<seq<Byte>>)
    | Remove(pid: Pid)
    | SetLevel(pid: Pid, volume: Uint32)
    | Mute(pid: Pid, muted: bool)
    | SetActive(pid: Pid, active: bool)

  /** Registration overwrites the strings it is given and marks the row active. */
  function Named(row: Row, bundleId: Option<seq<Byte>>, name: Option<seq<Byte>>): Row {
    row.(bundleId := if bundleId.Some? then StoredName(bundleId.value) else row.bundleId,
         name := if name.Some? then StoredName(name.value) else row.name,
         active := true)
  }

  function NewRow(pid: Pid): Row {
    BLANK.(pid := pid, volume := FLOAT_ONE, active := true)
  }

  /** Whether a change finds what it needs: an entry, or for a registration room for one. */
  predicate Takes(rows: seq<Row>, c: Change) {
    Listed(rows, c.pid) || (c.Add? && |rows| < MAX_ENTRIES)
  }

  function Changed(rows: seq<Row>, c: Change): seq<Row> {
    var i := RowOf(rows, c.pid);
    if !Takes(rows, c) then rows
    else match c
      case Add(pid, bundleId, name) =>
        if i < |rows| then rows[i := Named(rows[i], bundleId, name)] else rows + [Named(NewRow(pid), bundleId, name)]
      case Remove(_) => rows[..i] + rows[i + 1..]
      case SetLevel(_, volume) => rows[i := rows[i].(volume := ClampVolume(volume))]
      case Mute(_, muted) => rows[i := rows[i].(muted := muted)]
      case SetActive(_, active) => rows[i := rows[i].(active := active)]
  }

  /** The name the service is told: the given name, else the bundle id, else "Unknown". */
  function ServiceName(bundleId: Option<seq<Byte>>, name: Option<seq<Byte>>): seq<Byte> {
    if name.Some? then name.value else if bundleId.Some? then bundleId.value else UNKNOWN
  }

  const UNKNOWN: seq<Byte> := [0x55, 0x6E, 0x6B, 0x6E, 0x6F, 0x77, 0x6E]

  /** The request a change sends; the active flag is local. */
  function Notice(rows: seq<Row>, c: Change): Option<Request> {
    if !Takes(rows, c) then None
    else match c
      case Add(pid, bundleId, name) =>
        var row := if Listed(rows, pid) then rows[RowOf(rows, pid)] else NewRow(pid);
        Some(Register(pid, ServiceName(bundleId, name), row.volume, row.muted))
      case Remove(pid) => Some(Unregister(pid))
      case SetLevel(pid, volume) => Some(SetVolume(pid, ClampVolume(volume)))
      case Mute(pid, muted) => Some(SetMute(pid, muted))
      case SetActive(_, _) => None
  }

  /** Every change keeps the pids distinct and the list within its 64 entries. */
  lemma ChangedKeepsRows(rows: seq<Row>, c: Change)
    requires DistinctRows(rows) && |rows| <= MAX_ENTRIES
    ensures DistinctRows(Changed(rows, c)) && |Changed(rows, c)| <= MAX_ENTRIES
  {
  }

  lemma RowFound(rows: seq<Row>, pid: Pid, i: nat)
    requires i <= |rows| && (i < |rows| ==> rows[i].pid == pid) && forall k :: 0 <= k < i ==> rows[k].pid != pid
    ensures RowOf(rows, pid) == i
  {
  }

  /** The rows among which find_or_create_entry hands out one for this pid. */
  function Created(rows: seq<Row>, pid: Pid): seq<Row> {
    if Listed(rows, pid) then rows else rows + [NewRow(pid)]
  }

  /** A registration is the creation of an entry followed by the filling in of its strings. */
  lemma AddInTwoSteps(rows: seq<Row>, pid: Pid, bundleId: Option<seq<Byte>>, name: Option<seq<Byte>>)
    requires Takes(rows, Add(pid, bundleId, name))
    ensures var i, created := RowOf(rows, pid), Created(rows, pid);
            && i < |created|
            && Changed(rows, Add(pid, bundleId, name)) == created[i := Named(created[i], bundleId, name)]
            && Notice(rows, Add(pid, bundleId, name)) ==
               Some(Register(pid, ServiceName(bundleId, name), created[i].volume, created[i].muted))
  {
  }

  /** `stored` is the C string given, cut to 255 bytes, or what was there when none was given. */
  predicate Stores(stored: seq<Byte>, given: Option<seq<Byte>>, before: seq<Byte>) {
    match given
    case None => stored == before
    case Some(bytes) =>
      var s := CString(bytes);
      CString(stored) == if |s| <= NAME_SIZE - 1 then s else s[..NAME_SIZE - 1]
  }

  lemma GivenIsStored(given: Option<seq<Byte>>, before: seq<Byte>)
    ensures Stores(if given.Some? then StoredName(given.value) else before, given, before)
  {
    if given.Some? {
      StoredNameIsCut(given.value);
    }
  }

  /** A registration, row by row: a new application has full volume, is not muted and comes last; a known one keeps its
      place and its levels. Either is then active, under the strings given. The service is told the row's levels, and
      the name given, else the bundle id, else "Unknown". */
  lemma AddIs(rows: seq<Row>, pid: Pid, bundleId: Option<seq<Byte>>, name: Option<seq<Byte>>)
    requires Takes(rows, Add(pid, bundleId, name))
    ensures var i, after := RowOf(rows, pid), Changed(rows, Add(pid, bundleId, name));
            && |after| == (if i < |rows| then |rows| else |rows| + 1)
            && (forall k :: 0 <= k < |after| && k != i ==> after[k] == rows[k])
            && after[i].pid == pid && after[i].active
            && (i < |rows| ==> after[i].volume == rows[i].volume && after[i].muted == rows[i].muted)
            && (i == |rows| ==> after[i].volume == FLOAT_ONE && !after[i].muted)
            && Stores(after[i].name, name, if i < |rows| then rows[i].name else Zeros(NAME_SIZE))
            && Stores(after[i].bundleId, bundleId, if i < |rows| then rows[i].bundleId else Zeros(NAME_SIZE))
            && var told := if name.Some? then name.value else if bundleId.Some? then bundleId.value else UNKNOWN;
               Notice(rows, Add(pid, bundleId, name)) == Some(Register(pid, told, after[i].volume, after[i].muted))
  {
    var i := RowOf(rows, pid);
    GivenIsStored(name, if i < |rows| then rows[i].name else Zeros(NAME_SIZE));
    GivenIsStored(bundleId, if i < |rows| then rows[i].bundleId else Zeros(NAME_SIZE));
  }

  /** The three settings change their own field of the one row, the volume clamped, and nothing else; volume and mute
      state are told to the service as they now are, the active flag is not. */
  lemma SettingIs(rows: seq<Row>, c: Change)
    requires Listed(rows, c.pid) && (c.SetLevel? || c.Mute? || c.SetActive?)
    ensures var i, after := RowOf(rows, c.pid), Changed(rows, c);
            && |after| == |rows| && (forall k :: 0 <= k < |rows| && k != i ==> after[k] == rows[k])
            && after[i].pid == rows[i].pid && after[i].name == rows[i].name && after[i].bundleId == rows[i].bundleId
            && (if c.SetLevel? then after[i].volume == ClampVolume(c.volume) else after[i].volume == rows[i].volume)
            && (if c.Mute? then after[i].muted == c.muted else after[i].muted == rows[i].muted)
            && (if c.SetActive? then after[i].active == c.active else after[i].active == rows[i].active)
            && (c.SetLevel? ==> Notice(rows, c) == Some(SetVolume(c.pid, after[i].volume)))
            && (c.Mute? ==> Notice(rows, c) == Some(SetMute(c.pid, after[i].muted)))
            && (c.SetActive? ==> Notice(rows, c) == None)
  {
  }

  /** A change that finds no row, and for a registration no room, changes and tells nothing; a removal takes out its row
      and is told. */
  lemma RemovalIs(rows: seq<Row>, c: Change)
    ensures !Listed(rows, c.pid) && !(c.Add? && |rows| < MAX_ENTRIES) ==>
              Changed(rows, c) == rows && Notice(rows, c) == None
    ensures Listed(rows, c.pid) && c.Remove? ==>
              var i, after := RowOf(rows, c.pid), Changed(rows, c);
              && |after| == |rows| - 1 && Notice(rows, c) == Some(Unregister(c.pid))
              && forall k :: 0 <= k < |after| ==> after[k] == rows[if k < i then k else k + 1]
  {
  }

  // ---------------------------------------------------------------- the code

  class VolumeList {
    const entries: array<Row>
    var count: nat

    /** At most 64 entries with distinct pids; everything behind them is zeroed. */
    ghost predicate Valid() reads this, entries {
      && entries.Length == MAX_ENTRIES && count <= MAX_ENTRIES
      && DistinctRows(entries[..count])
      && forall k :: count <= k < MAX_ENTRIES ==> entries[k] == BLANK
    }

    ghost function Rows(): seq<Row>
      requires count <= entries.Length
      reads this, entries
    {
      entries[..count]
    }

    constructor ()
      ensures Valid() && fresh(entries) && Rows() == []
    {
      entries := new Row[MAX_ENTRIES](_ => BLANK);
      count := 0;
    }

    /** find_entry_unlocked; the index stands for the entry's address, `count` for NULL. */
    method FindEntry(pid: Pid) returns (i: nat)
      requires Valid()
      ensures i == RowOf(Rows(), pid)
    {
      i := 0;
      while i < count
        invariant i <= count
        invariant forall k :: 0 <= k < i ==> Rows()[k].pid != pid
      {
        if entries[i].pid == pid {
          RowFound(Rows(), pid, i);
          return;
        }
        i := i + 1;
      }
      RowFound(Rows(), pid, i);
    }

    /** find_or_create_entry; the result is 64 when the list is full. */
    method FindOrCreate(pid: Pid) returns (i: nat)
      requires Valid()
      modifies this`count, entries
      ensures Valid() && i <= MAX_ENTRIES
      ensures i < MAX_ENTRIES <==> Listed(old(Rows()), pid) || old(count) < MAX_ENTRIES
      ensures i < MAX_ENTRIES ==> i == RowOf(old(Rows()), pid)
      ensures Rows() == if i < MAX_ENTRIES then Created(old(Rows()), pid) else old(Rows())
    {
      i := FindEntry(pid);
      if i < count {
        return;
      }
      if count >= MAX_ENTRIES {
        return MAX_ENTRIES;
      }
      entries[i] := BLANK;
      count := count + 1;
      entries[i] := Row(pid, entries[i].bundleId, entries[i].name, FLOAT_ONE, false, true);
      assert Rows() == old(Rows()) + [NewRow(pid)];
    }

    /** Replaces one row by another with the same pid. */
    method Put(i: nat, row: Row)
      requires Valid() && i < count && row.pid == entries[i].pid
      modifies entries
      ensures Valid() && Rows() == old(Rows())[i := row]
    {
      entries[i] := row;
      assert Rows() == old(Rows())[i := row];
    }

    /** The strings given to a registration, copied into its entry. */
    method Rename(i: nat, bundleId: Option<seq<Byte>>, name: Option<seq<Byte>>)
      requires Valid() && i < count
      modifies entries
      ensures Valid() && Rows() == old(Rows())[i := Named(old(Rows())[i], bundleId, name)]
    {
      if bundleId.Some? {
        Put(i, entries[i].(bundleId := StoredName(bundleId.value)));
      }
      if name.Some? {
        Put(i, entries[i].(name := StoredName(name.value)));
      }
      Put(i, entries[i].(active := true));
    }

    /** app_volume_register */
    method Register(pid: Pid, bundleId: Option<seq<Byte>>, name: Option<seq<Byte>>)
      returns (status: int, notice: Option<Request>)
      requires Valid()
      modifies this`count, entries
      ensures Valid() && Rows() == Changed(old(Rows()), Add(pid, bundleId, name))
      ensures status == if Takes(old(Rows()), Add(pid, bundleId, name)) then 0 else -1
      ensures notice == Notice(old(Rows()), Add(pid, bundleId, name))
    {
      var i := FindOrCreate(pid);
      if i == MAX_ENTRIES {
        return -1, None;
      }
      AddInTwoSteps(old(Rows()), pid, bundleId, name);
      Rename(i, bundleId, name);
      var row := entries[i];
      assert row == Rows()[i];
      status, notice := 0, Some(IpcWire.Register(pid, ServiceName(bundleId, name), row.volume, row.muted));
    }

    /** Moves every entry behind `i` up one place. */
    method ShiftLeft(i: nat)
      requires i < count <= entries.Length
      modifies entries
      ensures entries[..count - 1] == old(Rows())[..i] + old(Rows())[i + 1..]
      ensures entries[count..] == old(entries[count..])
    {
      var j := i;
      while j < count - 1
        invariant i <= j <= count - 1
        invariant forall k :: 0 <= k < i ==> entries[k] == old(entries[k])
        invariant forall k :: i <= k < j ==> entries[k] == old(entries[k + 1])
        invariant forall k :: j <= k < entries.Length ==> entries[k] == old(entries[k])
        modifies entries
      {
        entries[j] := entries[j + 1];
        j := j + 1;
      }
    }

    /** app_volume_unregister: the later entries move up one place and the last one is zeroed. */
    method Unregister(pid: Pid) returns (status: int, notice: Option<Request>)
      requires Valid()
      modifies this`count, entries
      ensures Valid() && Rows() == Changed(old(Rows()), Remove(pid))
      ensures status == if Takes(old(Rows()), Remove(pid)) then 0 else -1
      ensures notice == Notice(old(Rows()), Remove(pid))
    {
      var i := FindEntry(pid);
      if i == count {
        return -1, None;
      }
      ShiftLeft(i);
      count := count - 1;
      entries[count] := BLANK;
      ChangedKeepsRows(old(Rows()), Remove(pid));
      assert Rows() == old(Rows())[..i] + old(Rows())[i + 1..];
      status, notice := 0, Some(IpcWire.Unregister(pid));
    }

    /** app_volume_set */
    method Set(pid: Pid, volume: Uint32) returns (status: int, notice: Option<Request>)
      requires Valid()
      modifies entries
      ensures Valid() && Rows() == Changed(old(Rows()), SetLevel(pid, volume))
      ensures status == if Takes(old(Rows()), SetLevel(pid, volume)) then 0 else -1
      ensures notice == Notice(old(Rows()), SetLevel(pid, volume))
    {
      var v := volume;
      if FloatNegative(v) {
        v := FLOAT_ZERO;
      }
      if FloatAboveOne(v) {
        v := FLOAT_ONE;
      }
      var i := FindEntry(pid);
      if i == count {
        return -1, None;
      }
      Put(i, entries[i].(volume := v));
      status, notice := 0, Some(IpcWire.SetVolume(pid, v));
    }

    /** app_volume_set_mute */
    method SetMute(pid: Pid, muted: bool) returns (status: int, notice: Option<Request>)
      requires Valid()
      modifies entries
      ensures Valid() && Rows() == Changed(old(Rows()), Mute(pid, muted))
      ensures status == if Takes(old(Rows()), Mute(pid, muted)) then 0 else -1
      ensures notice == Notice(old(Rows()), Mute(pid, muted))
    {
      var i := FindEntry(pid);
      if i == count {
        return -1, None;
      }
      Put(i, entries[i].(muted := muted));
      status, notice := 0, Some(IpcWire.SetMute(pid, muted));
    }

    /** app_volume_set_active */
    method SetActiveFlag(pid: Pid, active: bool) returns (status: int)
      requires Valid()
      modifies entries
      ensures Valid() && Rows() == Changed(old(Rows()), SetActive(pid, active))
      ensures status == if Takes(old(Rows()), SetActive(pid, active)) then 0 else -1
    {
      var i := FindEntry(pid);
      if i == count {
        return -1;
      }
      Put(i, entries[i].(active := active));
      status := 0;
    }
  }
}
