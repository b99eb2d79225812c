/** The controller's list beside the service's registry (src/app_volume_control.c, src/ipc/ipc_server.c): with the
    connection up and no other writer, every run of changes leaves both with the same map, in opposite orders. */
module VolumeMirror {
  import opened Words
  import opened IpcCodec
  import opened IpcRegistry
  import opened IpcWire
  import opened IpcLockstep
  import opened IpcOutOfStep
  import opened VolumeTable

  // ---------------------------------------------------------------- the relation

  predicate SameApp(row: Row, c: Client) {
    row.pid == c.pid && row.volume == c.volume && row.muted == c.muted
  }

  /** Entry `i` of the list is record `|rows| - 1 - i` of the registry. */
  predicate MirrorsAt(rows: seq<Row>, reg: seq<Client>, i: nat)
    requires |rows| == |reg| && i < |rows|
  {
    SameApp(rows[i], reg[|rows| - 1 - i])
  }

  ghost predicate Mirrored(rows: seq<Row>, reg: seq<Client>) {
    |rows| == |reg| && forall i :: 0 <= i < |rows| ==> MirrorsAt(rows, reg, i)
  }

  function RowLevels(rows: seq<Row>): map<Pid, Level> {
    if rows == [] then map[]
    else RowLevels(rows[..|rows| - 1])[rows[|rows| - 1].pid := Level(rows[|rows| - 1].volume, rows[|rows| - 1].muted)]
  }

  function Reversed<T>(s: seq<T>): (r: seq<T>)
    ensures |r| == |s|
  {
    seq(|s|, i requires 0 <= i < |s| => s[|s| - 1 - i])
  }

  /** Mirrored tables stand for one map, and their pid orders are each other's reverse. */
  lemma {:induction false} MirroredAgree(rows: seq<Row>, reg: seq<Client>)
    requires Mirrored(rows, reg)
    ensures RowLevels(rows) == Levels(reg)
    ensures Pids(reg) == Reversed(RowPids(rows))
  {
    if rows != [] {
      var n := |rows| - 1;
      MirroredRest(rows, reg);
      MirroredAgree(rows[..n], reg[1..]);
      assert MirrorsAt(rows, reg, n);
    }
    forall i | 0 <= i < |reg| ensures reg[i].pid == RowPids(rows)[|rows| - 1 - i] {
      assert MirrorsAt(rows, reg, |rows| - 1 - i);
    }
  }

  lemma MirroredRest(rows: seq<Row>, reg: seq<Client>)
    requires Mirrored(rows, reg) && rows != []
    ensures Mirrored(rows[..|rows| - 1], reg[1..])
  {
    var n := |rows| - 1;
    forall i | 0 <= i < n ensures MirrorsAt(rows[..n], reg[1..], i) {
      assert MirrorsAt(rows, reg, i);
    }
  }

  /** A pid is found at mirror-image places. */
  lemma MirroredPlace(rows: seq<Row>, reg: seq<Client>, pid: Pid)
    requires Mirrored(rows, reg) && DistinctRows(rows)
    ensures Listed(rows, pid) <==> Has(reg, pid)
    ensures Listed(rows, pid) ==> Position(reg, pid) == |rows| - 1 - RowOf(rows, pid)
  {
    var n, i, p := |rows|, RowOf(rows, pid), Position(reg, pid);
    if p < n {
      assert MirrorsAt(rows, reg, n - 1 - p);
    }
    if i < n {
      assert MirrorsAt(rows, reg, i);
    }
  }

  // ---------------------------------------------------------------- what each change does to both sides

  lemma AppendMirrors(rows: seq<Row>, reg: seq<Client>, row: Row, c: Client)
    requires Mirrored(rows, reg) && SameApp(row, c)
    ensures Mirrored(rows + [row], [c] + reg)
  {
    var rows', reg' := rows + [row], [c] + reg;
    forall i | 0 <= i <= |rows| ensures MirrorsAt(rows', reg', i) {
      if i < |rows| {
        assert MirrorsAt(rows, reg, i);
      }
    }
  }

  lemma UpdateMirrors(rows: seq<Row>, reg: seq<Client>, i: nat, row: Row, c: Client)
    requires Mirrored(rows, reg) && i < |rows| && SameApp(row, c)
    ensures Mirrored(rows[i := row], reg[|rows| - 1 - i := c])
  {
    var rows', reg' := rows[i := row], reg[|rows| - 1 - i := c];
    forall k | 0 <= k < |rows| ensures MirrorsAt(rows', reg', k) {
      assert MirrorsAt(rows, reg, k);
    }
  }

  lemma RemoveMirrors(rows: seq<Row>, reg: seq<Client>, i: nat)
    requires Mirrored(rows, reg) && i < |rows|
    ensures var j := |rows| - 1 - i; Mirrored(rows[..i] + rows[i + 1..], reg[..j] + reg[j + 1..])
  {
    var j := |rows| - 1 - i;
    var rows', reg' := rows[..i] + rows[i + 1..], reg[..j] + reg[j + 1..];
    forall k | 0 <= k < |rows'| ensures MirrorsAt(rows', reg', k) {
      assert MirrorsAt(rows, reg, if k < i then k else k + 1);
    }
  }

  lemma ClampTwice(volume: Uint32)
    ensures ClampVolume(ClampVolume(volume)) == ClampVolume(volume)
  {
  }

  /** A registration of a listed pid changes only local strings, and the service refuses the duplicate. */
  lemma AddMirrors(rows: seq<Row>, reg: seq<Client>, c: Change, now: Uint64)
    requires Mirrored(rows, reg) && DistinctRows(rows) && c.Add? && Takes(rows, c)
    ensures Mirrored(Changed(rows, c), Applied(reg, Notice(rows, c).value, now))
  {
    MirroredPlace(rows, reg, c.pid);
    var i, q := RowOf(rows, c.pid), Notice(rows, c).value;
    if i < |rows| {
      var j := |rows| - 1 - i;
      assert MirrorsAt(rows, reg, i);
      UpdateMirrors(rows, reg, i, Named(rows[i], c.bundleId, c.name), reg[j]);
      assert reg[j := reg[j]] == reg;
    } else {
      AppendMirrors(rows, reg, Named(NewRow(c.pid), c.bundleId, c.name),
                    Client(c.pid, q.volume, q.muted, now, StoredName(q.name)));
    }
  }

  lemma RemovalMirrors(rows: seq<Row>, reg: seq<Client>, pid: Pid)
    requires Mirrored(rows, reg) && DistinctRows(rows) && Listed(rows, pid)
    ensures Mirrored(Changed(rows, Remove(pid)), Unregistered(reg, pid))
  {
    MirroredPlace(rows, reg, pid);
    var i, j := RowOf(rows, pid), Position(reg, pid);
    assert Changed(rows, Remove(pid)) == rows[..i] + rows[i + 1..];
    assert Unregistered(reg, pid) == reg[..j] + reg[j + 1..];
    RemoveMirrors(rows, reg, i);
  }

  lemma LevelMirrors(rows: seq<Row>, reg: seq<Client>, pid: Pid, volume: Uint32)
    requires Mirrored(rows, reg) && DistinctRows(rows) && Listed(rows, pid)
    ensures Mirrored(Changed(rows, SetLevel(pid, volume)), WithVolume(reg, pid, ClampVolume(volume)))
  {
    MirroredPlace(rows, reg, pid);
    var i, v := RowOf(rows, pid), ClampVolume(volume);
    assert MirrorsAt(rows, reg, i);
    ClampTwice(volume);
    UpdateMirrors(rows, reg, i, rows[i].(volume := v), reg[Position(reg, pid)].(volume := v));
  }

  lemma MuteMirrors(rows: seq<Row>, reg: seq<Client>, pid: Pid, muted: bool)
    requires Mirrored(rows, reg) && DistinctRows(rows) && Listed(rows, pid)
    ensures Mirrored(Changed(rows, Mute(pid, muted)), WithMute(reg, pid, muted))
  {
    MirroredPlace(rows, reg, pid);
    var i := RowOf(rows, pid);
    assert MirrorsAt(rows, reg, i);
    UpdateMirrors(rows, reg, i, rows[i].(muted := muted), reg[Position(reg, pid)].(muted := muted));
  }

  lemma ActiveMirrors(rows: seq<Row>, reg: seq<Client>, pid: Pid, active: bool)
    requires Mirrored(rows, reg) && DistinctRows(rows) && Listed(rows, pid)
    ensures Mirrored(Changed(rows, SetActive(pid, active)), reg)
  {
    MirroredPlace(rows, reg, pid);
    var i, p := RowOf(rows, pid), Position(reg, pid);
    assert MirrorsAt(rows, reg, i);
    UpdateMirrors(rows, reg, i, rows[i].(active := active), reg[p]);
    assert reg[p := reg[p]] == reg;
  }

  /** The registry after the request a change sends. */
  function Mirror(rows: seq<Row>, reg: seq<Client>, c: Change, now: Uint64): seq<Client> {
    match Notice(rows, c) case None => reg case Some(q) => Applied(reg, q, now)
  }

  lemma ChangeMirrors(rows: seq<Row>, reg: seq<Client>, c: Change, now: Uint64)
    requires Mirrored(rows, reg) && DistinctRows(rows)
    ensures Mirrored(Changed(rows, c), Mirror(rows, reg, c, now))
  {
    if Takes(rows, c) {
      match c {
        case Add(_, _, _) => AddMirrors(rows, reg, c, now);
        case Remove(pid) => RemovalMirrors(rows, reg, pid);
        case SetLevel(pid, volume) => LevelMirrors(rows, reg, pid, volume);
        case Mute(pid, muted) => MuteMirrors(rows, reg, pid, muted);
        case SetActive(pid, active) => ActiveMirrors(rows, reg, pid, active);
      }
    }
  }

  // ---------------------------------------------------------------- changes on a live connection

  datatype Both = Both(rows: seq<Row>, world: World)

  /** A change is made locally and then, where it says so, at the service. */
  function Step(s: Both, c: Change, now: Uint64): Both {
    Both(Changed(s.rows, c), match Notice(s.rows, c) case None => s.world case Some(q) => Perform(s.world, q, now).0)
  }

  ghost predicate Agrees(s: Both) {
    InStep(s.world) && DistinctRows(s.rows) && Mirrored(s.rows, s.world.registry)
  }

  /** The change sends nothing, or a request the service accepts. */
  predicate Allowed(rows: seq<Row>, c: Change) {
    Notice(rows, c).Some? ==> Fits(Notice(rows, c).value)
  }

  lemma ChangedDistinct(rows: seq<Row>, c: Change)
    requires DistinctRows(rows)
    ensures DistinctRows(Changed(rows, c))
  {
  }

  lemma StepAgrees(s: Both, c: Change, now: Uint64)
    requires Agrees(s) && Allowed(s.rows, c)
    ensures Agrees(Step(s, c, now))
  {
    ChangedDistinct(s.rows, c);
    ChangeMirrors(s.rows, s.world.registry, c, now);
    match Notice(s.rows, c) {
      case None =>
      case Some(q) => CallInStep(s.world, q, now);
    }
  }

  /** Agreement survives a change exactly when its request, if any, fits. */
  lemma StepAgreesIff(s: Both, c: Change, now: Uint64)
    requires Agrees(s) && (Notice(s.rows, c).Some? ==> |Payload(Notice(s.rows, c).value)| < U32_SIZE)
    ensures Agrees(Step(s, c, now)) <==> Allowed(s.rows, c)
  {
    if Allowed(s.rows, c) {
      StepAgrees(s, c, now);
    } else {
      StepKeptIffFits(s.world, Notice(s.rows, c).value, now);
    }
  }

  /** In terms of the name: every change is allowed but a registration whose name is longer than 4086 bytes. */
  lemma AllowedIff(rows: seq<Row>, c: Change)
    ensures Allowed(rows, c) <==>
            !(c.Add? && Takes(rows, c) && |CString(ServiceName(c.bundleId, c.name))| > MAX_PAYLOAD - 10)
  {
  }

  // ---------------------------------------------------------------- runs

  datatype Timed = Timed(change: Change, now: Uint64)

  function RunChanges(s: Both, changes: seq<Timed>): Both {
    if changes == [] then s
    else Step(RunChanges(s, changes[..|changes| - 1]), changes[|changes| - 1].change, changes[|changes| - 1].now)
  }

  ghost predicate AllowedAt(s: Both, changes: seq<Timed>, i: nat)
    requires i < |changes|
  {
    Allowed(RunChanges(s, changes[..i]).rows, changes[i].change)
  }

  ghost predicate AllAllowed(s: Both, changes: seq<Timed>) {
    forall i :: 0 <= i < |changes| ==> AllowedAt(s, changes, i)
  }

  lemma AllAllowedPrefix(s: Both, changes: seq<Timed>, n: nat)
    requires AllAllowed(s, changes) && n <= |changes|
    ensures AllAllowed(s, changes[..n])
  {
    forall i | 0 <= i < n ensures AllowedAt(s, changes[..n], i) {
      assert AllowedAt(s, changes, i);
      assert changes[..n][..i] == changes[..i];
    }
  }

  lemma {:induction false} RunAgrees(s: Both, changes: seq<Timed>)
    requires Agrees(s) && AllAllowed(s, changes)
    ensures Agrees(RunChanges(s, changes))
  {
    if changes != [] {
      var n := |changes| - 1;
      AllAllowedPrefix(s, changes, n);
      assert AllowedAt(s, changes, n);
      RunAgrees(s, changes[..n]);
      StepAgrees(RunChanges(s, changes[..n]), changes[n].change, changes[n].now);
    }
  }

  /** From an empty list and an empty registry, every run of allowed changes leaves the service with the very map the
      list holds, its pids in exactly the opposite order, and both byte streams empty. */
  lemma LocalAndServerAgree(w: World, changes: seq<Timed>, s: Both)
    requires InStep(w) && w.registry == [] && AllAllowed(Both([], w), changes)
    requires s == RunChanges(Both([], w), changes)
    ensures InStep(s.world)
    ensures Levels(s.world.registry) == RowLevels(s.rows)
    ensures Pids(s.world.registry) == Reversed(RowPids(s.rows))
  {
    RunAgrees(Both([], w), changes);
    MirroredAgree(s.rows, s.world.registry);
  }
}
