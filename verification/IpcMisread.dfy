/** A client whose next read begins in the middle of a reply (src/ipc/ipc_client.c). Every failing call takes 16 bytes,
    while replies are 24 bytes, 33 about a registered pid, and 24 plus 273 an application for a listing. The client
    fails until a reply happens to start where it reads. */
module IpcMisread {
  import opened Words
  import opened IpcCodec
  import opened IpcRegistry
  import opened IpcWire
  import opened IpcLockstep
  import opened IpcOutOfStep
  import opened IpcUnread
  import opened IpcVolumeQuery
  import opened IpcListing
  import opened IpcQuiet
  import opened IpcMixedRuns

  // ---------------------------------------------------------------- where replies start

  /** How many bytes from the start of a fragment of `t` bytes reply `j` behind it starts. */
  function Offset(t: nat, answers: seq<Answer>, j: nat): (n: nat)
    requires j <= |answers|
    ensures n >= t + HEAD * j
  {
    if j == 0 then t else Offset(t, answers, j - 1) + HEAD + |answers[j - 1].data|
  }

  lemma {:induction false} OffsetOfPrefix(t: nat, answers: seq<Answer>, later: seq<Answer>, j: nat)
    requires j <= |answers|
    ensures Offset(t, answers + later, j) == Offset(t, answers, j)
  {
    if j > 0 {
      OffsetOfPrefix(t, answers, later, j - 1);
    }
  }

  lemma {:induction false} OffsetsGrow(t: nat, answers: seq<Answer>, i: nat, j: nat)
    requires i <= j <= |answers|
    ensures Offset(t, answers, i) <= Offset(t, answers, j)
    ensures i < j ==> Offset(t, answers, i) < Offset(t, answers, j)
  {
    if i < j {
      OffsetsGrow(t, answers, i, j - 1);
    }
  }

  /** None of the first `n` reads, each 16 bytes after the one before, begins where a reply starts. */
  ghost predicate Misses(t: nat, answers: seq<Answer>, n: nat) {
    forall j :: 0 <= j < |answers| ==>
      Offset(t, answers, j) % HEADER_SIZE != 0 || Offset(t, answers, j) >= HEADER_SIZE * n
  }

  // ---------------------------------------------------------------- a run inside replies

  /** After `m` reads inside replies `u` is left: `j` of all replies have been begun, and the rest of the last one. */
  ghost predicate Inside(t: nat, all: seq<Answer>, m: nat, u: Unread, j: nat) {
    && j <= |all| && u.answers == all[j..]
    && |u.tail| + HEADER_SIZE * m == Offset(t, all, j)
    && (j > 0 ==> HEADER_SIZE * m > Offset(t, all, j - 1))
  }

  lemma InsideWithMore(t: nat, all: seq<Answer>, m: nat, u: Unread, j: nat, served: seq<Answer>)
    requires Inside(t, all, m, u, j)
    ensures Inside(t, all + served, m, Joining(u, served), j)
  {
    OffsetOfPrefix(t, all, served, j);
    if j > 0 {
      OffsetOfPrefix(t, all, served, j - 1);
    }
    assert (all + served)[j..] == all[j..] + served;
  }

  /** One more read inside a reply: of the same one, or into the next. */
  lemma ReadsOn(t: nat, all: seq<Answer>, m: nat, u: Unread, j: nat, size: nat) returns (j': nat)
    requires Inside(t, all, m, u, j) && u.tail != [] && u.answers != []
    ensures Inside(t, all, m + 1, Next(u, size).0, j') && Next(u, size).1 == None
  {
    if |u.tail| >= HEADER_SIZE {
      j' := j;
    } else {
      j' := j + 1;
      assert u.answers[0] == all[j] && u.answers[1..] == all[j + 1..];
    }
  }

  ghost predicate AllFailed(told: seq<Told>) {
    forall i :: 0 <= i < |told| ==> Failed(told[i])
  }

  /** Every call of the run begins its read inside a reply. */
  ghost predicate NeverMeets(u: Unread, reg: seq<Client>, turns: seq<Turn>) {
    forall i :: 0 <= i < |turns| ==> RunUnread(u, reg, turns[..i]).0.tail != []
  }

  lemma NeverMeetsBefore(u: Unread, reg: seq<Client>, turns: seq<Turn>, n: nat)
    requires NeverMeets(u, reg, turns) && n <= |turns|
    ensures NeverMeets(u, reg, turns[..n])
  {
    forall i | 0 <= i < n ensures RunUnread(u, reg, turns[..n][..i]).0.tail != [] {
      assert turns[..n][..i] == turns[..i];
    }
  }

  lemma TurnInside(t: nat, all: seq<Answer>, m: nat, u: Unread, j: nat, reg: seq<Client>, turn: Turn) returns (j': nat)
    requires Inside(t, all, m, u, j) && u.tail != []
    ensures Inside(t, all + Served(reg, turn).1, m + 1, Turned(u, reg, turn).0, j') && Failed(Turned(u, reg, turn).1)
  {
    var served := Served(reg, turn).1;
    InsideWithMore(t, all, m, u, j, served);
    j' := ReadsOn(t, all + served, m, Joining(u, served), j, Size(turn.move));
  }

  lemma ServedLast(u: Unread, reg: seq<Client>, turns: seq<Turn>)
    requires turns != []
    ensures var n := |turns| - 1;
            u.answers + AllServed(reg, turns)
            == u.answers + AllServed(reg, turns[..n]) + Served(RunServed(reg, turns[..n]), turns[n]).1
  {
  }

  lemma FailedMore(told: seq<Told>, last: Told)
    requires AllFailed(told) && Failed(last)
    ensures AllFailed(told + [last])
  {
  }

  lemma UnreadLast(u: Unread, reg: seq<Client>, turns: seq<Turn>)
    requires turns != []
    ensures var n := |turns| - 1;
            var (before, told) := RunUnread(u, reg, turns[..n]);
            var (after, last) := Turned(before, RunServed(reg, turns[..n]), turns[n]);
            RunUnread(u, reg, turns) == (after, told + [last])
  {
  }

  /** As long as that is so, every call fails. */
  lemma {:induction false} StaysInside(u: Unread, reg: seq<Client>, turns: seq<Turn>) returns (j: nat)
    requires NeverMeets(u, reg, turns)
    ensures Inside(|u.tail|, u.answers + AllServed(reg, turns), |turns|, RunUnread(u, reg, turns).0, j)
    ensures AllFailed(RunUnread(u, reg, turns).1)
    decreases |turns|
  {
    if turns == [] {
      j := 0;
      assert u.answers + [] == u.answers;
    } else {
      var n := |turns| - 1;
      NeverMeetsBefore(u, reg, turns, n);
      var i := StaysInside(u, reg, turns[..n]);
      var (before, told) := RunUnread(u, reg, turns[..n]);
      var between := RunServed(reg, turns[..n]);
      assert before.tail != [];
      j := TurnInside(|u.tail|, u.answers + AllServed(reg, turns[..n]), n, before, i, between, turns[n]);
      ServedLast(u, reg, turns);
      UnreadLast(u, reg, turns);
      FailedMore(told, Turned(before, between, turns[n]).1);
    }
  }

  // ---------------------------------------------------------------- exactly until a reply starts

  lemma {:induction false} ServedPrefix(reg: seq<Client>, turns: seq<Turn>, n: nat) returns (later: seq<Answer>)
    requires n <= |turns|
    ensures AllServed(reg, turns) == AllServed(reg, turns[..n]) + later && |later| >= |turns| - n
    decreases |turns|
  {
    if n == |turns| {
      later := [];
      assert turns[..n] == turns && AllServed(reg, turns) + [] == AllServed(reg, turns);
    } else {
      var last := |turns| - 1;
      var between := ServedPrefix(reg, turns[..last], n);
      assert turns[..last][..n] == turns[..n];
      var served := LastServed(reg, turns);
      later := between + served;
      JoinThree(AllServed(reg, turns[..n]), between, served);
    }
  }

  lemma JoinThree(x: seq<Answer>, y: seq<Answer>, z: seq<Answer>)
    ensures (x + y) + z == x + (y + z)
  {
  }

  lemma LastServed(reg: seq<Client>, turns: seq<Turn>) returns (served: seq<Answer>)
    requires turns != []
    ensures served != [] && AllServed(reg, turns) == AllServed(reg, turns[..|turns| - 1]) + served
  {
    served := Served(RunServed(reg, turns[..|turns| - 1]), turns[|turns| - 1]).1;
  }

  /** Where a run inside replies ends, the fragment is empty exactly if a reply starts there. */
  lemma EmptyIffStarts(t: nat, all: seq<Answer>, m: nat, u: Unread, j: nat, i: nat)
    requires Inside(t, all, m, u, j) && i <= |all| && Offset(t, all, i) == HEADER_SIZE * m
    ensures u.tail == [] && i == j
  {
    if i < j {
      OffsetsGrow(t, all, i, j - 1);
    } else {
      OffsetsGrow(t, all, j, i);
    }
  }

  lemma MeetsWhereStarts(u: Unread, reg: seq<Client>, turns: seq<Turn>, i: nat)
    requires NeverMeets(u, reg, turns) && i < |u.answers + AllServed(reg, turns)|
    ensures var n := Offset(|u.tail|, u.answers + AllServed(reg, turns), i);
            n % HEADER_SIZE != 0 || n >= HEADER_SIZE * |turns|
  {
    var all := u.answers + AllServed(reg, turns);
    var n := Offset(|u.tail|, all, i);
    if n % HEADER_SIZE == 0 && n < HEADER_SIZE * |turns| {
      var m := n / HEADER_SIZE;
      var later := ServedPrefix(reg, turns, m);
      var early := u.answers + AllServed(reg, turns[..m]);
      assert all == early + later;
      NeverMeetsBefore(u, reg, turns, m);
      var j := StaysInside(u, reg, turns[..m]);
      var there := RunUnread(u, reg, turns[..m]).0;
      InsideWithMore(|u.tail|, early, m, there, j, later);
      assert there.tail != [];
      EmptyIffStarts(|u.tail|, all, m, Joining(there, later), j, i);
    }
  }

  lemma MissesBefore(t: nat, early: seq<Answer>, later: seq<Answer>, n: nat, m: nat)
    requires Misses(t, early + later, n) && m <= n
    ensures Misses(t, early, m)
  {
    forall j | 0 <= j < |early|
      ensures Offset(t, early, j) % HEADER_SIZE != 0 || Offset(t, early, j) >= HEADER_SIZE * m
    {
      OffsetOfPrefix(t, early, later, j);
      assert Offset(t, early + later, j) % HEADER_SIZE != 0 || Offset(t, early + later, j) >= HEADER_SIZE * n;
    }
  }

  /** A run that has met no start so far, and misses those of the answers now sent, has not come to one either. */
  lemma StillInside(t: nat, early: seq<Answer>, later: seq<Answer>, n: nat, u: Unread, j: nat)
    requires Inside(t, early, n, u, j) && Misses(t, early + later, n + 1) && later != []
    ensures u.tail != []
  {
    OffsetOfPrefix(t, early, later, j);
    assert Offset(t, early + later, j) % HEADER_SIZE != 0 || Offset(t, early + later, j) >= HEADER_SIZE * (n + 1);
  }

  lemma NeverMeetsMore(u: Unread, reg: seq<Client>, turns: seq<Turn>)
    requires turns != [] && NeverMeets(u, reg, turns[..|turns| - 1])
    requires RunUnread(u, reg, turns[..|turns| - 1]).0.tail != []
    ensures NeverMeets(u, reg, turns)
  {
    var n := |turns| - 1;
    forall i | 0 <= i < |turns| ensures RunUnread(u, reg, turns[..i]).0.tail != [] {
      if i < n {
        InsideAt(u, reg, turns[..n], i);
        assert turns[..n][..i] == turns[..i];
      } else {
        assert turns[..i] == turns[..n];
      }
    }
  }

  lemma InsideAt(u: Unread, reg: seq<Client>, turns: seq<Turn>, i: nat)
    requires NeverMeets(u, reg, turns) && i < |turns|
    ensures RunUnread(u, reg, turns[..i]).0.tail != []
  {
  }

  lemma {:induction false} MissesNeverMeets(u: Unread, reg: seq<Client>, turns: seq<Turn>)
    requires Misses(|u.tail|, u.answers + AllServed(reg, turns), |turns|)
    ensures NeverMeets(u, reg, turns)
    decreases |turns|
  {
    if turns == [] {
    } else {
      var first := turns[..|turns| - 1];
      var later := MissesFirst(u, reg, turns);
      MissesNeverMeets(u, reg, first);
      InsideAfter(u, reg, first, later);
      NeverMeetsMore(u, reg, turns);
    }
  }

  lemma MissesFirst(u: Unread, reg: seq<Client>, turns: seq<Turn>) returns (later: seq<Answer>)
    requires turns != [] && Misses(|u.tail|, u.answers + AllServed(reg, turns), |turns|)
    ensures var first := turns[..|turns| - 1];
            && later != [] && Misses(|u.tail|, u.answers + AllServed(reg, first), |first|)
            && Misses(|u.tail|, u.answers + AllServed(reg, first) + later, |first| + 1)
  {
    var n := |turns| - 1;
    later := ServedPrefix(reg, turns, n);
    MissesSplit(|u.tail|, u.answers, AllServed(reg, turns), AllServed(reg, turns[..n]), later, n);
  }

  lemma MissesSplit(t: nat, waiting: seq<Answer>, all: seq<Answer>, early: seq<Answer>, later: seq<Answer>, n: nat)
    requires Misses(t, waiting + all, n + 1) && all == early + later
    ensures Misses(t, waiting + early, n) && Misses(t, waiting + early + later, n + 1)
  {
    assert waiting + all == waiting + early + later;
    MissesBefore(t, waiting + early, later, n + 1, n);
  }

  lemma InsideAfter(u: Unread, reg: seq<Client>, turns: seq<Turn>, later: seq<Answer>)
    requires NeverMeets(u, reg, turns) && later != []
    requires Misses(|u.tail|, u.answers + AllServed(reg, turns) + later, |turns| + 1)
    ensures RunUnread(u, reg, turns).0.tail != []
  {
    var j := StaysInside(u, reg, turns);
    StillInside(|u.tail|, u.answers + AllServed(reg, turns), later, |turns|, RunUnread(u, reg, turns).0, j);
  }

  /** Every call of a run begins inside a reply if and only if no reply starts at a multiple of 16 bytes from where the
      client began to misread, short of what the run reads. */
  lemma NeverMeetsIff(u: Unread, reg: seq<Client>, turns: seq<Turn>)
    ensures NeverMeets(u, reg, turns) <==> Misses(|u.tail|, u.answers + AllServed(reg, turns), |turns|)
  {
    if NeverMeets(u, reg, turns) {
      forall i | 0 <= i < |u.answers + AllServed(reg, turns)|
        ensures var n := Offset(|u.tail|, u.answers + AllServed(reg, turns), i);
                n % HEADER_SIZE != 0 || n >= HEADER_SIZE * |turns|
      {
        MeetsWhereStarts(u, reg, turns, i);
      }
    }
    if Misses(|u.tail|, u.answers + AllServed(reg, turns), |turns|) {
      MissesNeverMeets(u, reg, turns);
    }
  }

  /** A run that meets no start: on the byte streams every call fails for its caller, and the service does what all of
      them ask. */
  lemma MissingAllFail(w: World, u: Unread, turns: seq<Turn>)
    requires Holds(w, u) && AllQuiet(u.answers) && QuietTurns(w.registry, turns)
    requires Misses(|u.tail|, u.answers + AllServed(w.registry, turns), |turns|)
    ensures AllFailed(RunTurns(w, turns).1) && RunTurns(w, turns).0.registry == RunServed(w.registry, turns)
  {
    RunRefines(w, u, turns);
    MissesNeverMeets(u, w.registry, turns);
    var _ := StaysInside(u, w.registry, turns);
  }

  // ---------------------------------------------------------------- fewer than eight

  /** How far, modulo 8 bytes each, these answers move the client against the starts of replies. */
  function Shift(answers: seq<Answer>): nat {
    if answers == [] then 0 else Shift(answers[..|answers| - 1]) + |answers[|answers| - 1].data| % 8
  }

  lemma {:induction false} ShiftAppend(a: seq<Answer>, b: seq<Answer>)
    ensures Shift(a + b) == Shift(a) + Shift(b)
  {
    if b == [] {
      assert a + b == a;
    } else {
      ShiftAppend(a, b[..|b| - 1]);
      assert (a + b)[..|a + b| - 1] == a + b[..|b| - 1];
    }
  }

  lemma {:induction false} OffsetShifts(t: nat, answers: seq<Answer>, j: nat)
    requires j <= |answers|
    ensures Offset(t, answers, j) % 8 == (t + Shift(answers[..j])) % 8
  {
    if j > 0 {
      OffsetShifts(t, answers, j - 1);
      assert answers[..j][..j - 1] == answers[..j - 1];
      SameAfter(Offset(t, answers, j - 1), t + Shift(answers[..j - 1]), |answers[j - 1].data|);
    }
  }

  lemma SameAfter(a: nat, b: nat, d: nat)
    requires a % 8 == b % 8
    ensures (a + HEAD + d) % 8 == (b + d % 8) % 8
  {
  }

  lemma SmallShiftMisses(t: nat, answers: seq<Answer>, n: nat)
    requires t % 8 != 0 && t % 8 + Shift(answers) < 8
    ensures Misses(t, answers, n)
  {
    forall j | 0 <= j < |answers| ensures Offset(t, answers, j) % HEADER_SIZE != 0 {
      OffsetIsOdd(t, answers, j);
      NotOfSixteen(Offset(t, answers, j));
    }
  }

  lemma OffsetIsOdd(t: nat, answers: seq<Answer>, j: nat)
    requires t % 8 != 0 && t % 8 + Shift(answers) < 8 && j <= |answers|
    ensures Offset(t, answers, j) % 8 != 0
  {
    OffsetShifts(t, answers, j);
    ShiftAppend(answers[..j], answers[j..]);
    assert answers[..j] + answers[j..] == answers;
    SmallSum(t, Shift(answers[..j]));
  }

  lemma SmallSum(t: nat, d: nat)
    requires t % 8 != 0 && t % 8 + d < 8
    ensures (t + d) % 8 != 0
  {
  }

  lemma NotOfSixteen(n: nat)
    requires n % 8 != 0
    ensures n % HEADER_SIZE != 0
  {
  }

  /** A query about a registered pid counts one, a listing the number of its applications modulo 8, all else nothing. */
  function TurnShift(reg: seq<Client>, t: Turn): nat {
    match t.move
    case Do(_) => 0
    case Ask(pid) => if Has(reg, pid) then 1 else 0
    case Enumerate => |ListData(reg)| % 8
  }

  function RunShift(reg: seq<Client>, turns: seq<Turn>): nat {
    if turns == [] then 0
    else
      var n := |turns| - 1;
      RunShift(reg, turns[..n]) + TurnShift(RunServed(reg, turns[..n]), turns[n])
  }

  lemma {:induction false} BareShift(answers: seq<Answer>)
    requires AllBare(answers)
    ensures Shift(answers) == 0
  {
    if answers != [] {
      BareShift(answers[..|answers| - 1]);
    }
  }

  lemma ServedShift(reg: seq<Client>, t: Turn)
    ensures Shift(Served(reg, t).1) == TurnShift(reg, t)
  {
    if t.move.Do? {
      BareShift(Served(reg, t).1);
    } else {
      assert Served(reg, t).1[..0] == [];
    }
  }

  lemma {:induction false} AllServedShift(reg: seq<Client>, turns: seq<Turn>)
    ensures Shift(AllServed(reg, turns)) == RunShift(reg, turns)
    decreases |turns|
  {
    if turns == [] {
    } else {
      var n := |turns| - 1;
      AllServedShift(reg, turns[..n]);
      ServedShift(RunServed(reg, turns[..n]), turns[n]);
      ShiftAppend(AllServed(reg, turns[..n]), Served(RunServed(reg, turns[..n]), turns[n]).1);
    }
  }

  /** From a fragment on, every call of every kind fails and is carried out as long as the answers sent shift the client
      by less than what is missing to 8. */
  lemma FragmentAllFail(w: World, tail: seq<Byte>, turns: seq<Turn>)
    requires Holds(w, Unread(tail, [])) && QuietTurns(w.registry, turns)
    requires |tail| % 8 != 0 && |tail| % 8 + RunShift(w.registry, turns) < 8
    ensures AllFailed(RunTurns(w, turns).1) && RunTurns(w, turns).0.registry == RunServed(w.registry, turns)
  {
    var all := AllServed(w.registry, turns);
    assert [] + all == all;
    AllServedShift(w.registry, turns);
    SmallShiftMisses(|tail|, all, |turns|);
    MissingAllFail(w, Unread(tail, []), turns);
  }

  lemma BodyIsSilent(a: Answer)
    requires Quiet(a)
    ensures Silent(ResponseBody(a.status, a.data))
  {
    QuietFrom(a, HEADER_SIZE);
    assert Reply(a)[HEADER_SIZE..] == ResponseBody(a.status, a.data);
  }

  /** A query about a registered pid made in step leaves the 17 bytes of its answer, which are such a fragment. */
  lemma QueryFragment(w: World, pid: Pid, now: Uint64) returns (tail: seq<Byte>)
    requires InStep(w) && Has(w.registry, pid)
    ensures |tail| == 17 && Holds(Query(w, pid, now).0, Unread(tail, [])) && Query(w, pid, now).0.registry == w.registry
  {
    var a := QueryAnswer(w.registry, pid);
    QueryLeaves(w, pid, now);
    QueryAnswerIsQuiet(w.registry, pid);
    BodyIsSilent(a);
    tail := ResponseBody(a.status, a.data);
  }

  /** After one query about a registered pid every call of a run fails for its caller and is carried out, queries
      included, as long as fewer than eight answers about registered pids have been sent, the first one counted. */
  lemma AfterQueryAllFail(w: World, pid: Pid, now: Uint64, turns: seq<Turn>)
    requires InStep(w) && Has(w.registry, pid)
    requires QuietTurns(w.registry, turns) && 1 + RunShift(w.registry, turns) < 8
    ensures var (w', told) := RunTurns(Query(w, pid, now).0, turns);
            AllFailed(told) && w'.registry == RunServed(w.registry, turns)
  {
    var tail := QueryFragment(w, pid, now);
    FragmentAllFail(Query(w, pid, now).0, tail, turns);
  }

  lemma ListFragment(w: World, now: Uint64) returns (tail: seq<Byte>)
    requires InStep(w) && NamesPadded(w.registry) && Narrow(|w.registry|) && |w.registry| >= 15
    requires Quiet(ListAnswer(w.registry))
    ensures |tail| % 8 == |w.registry| % 8
    ensures Holds(ListApps(w, now).0, Unread(tail, [])) && ListApps(w, now).0.registry == w.registry
  {
    var a := ListAnswer(w.registry);
    ListLeaves(w, now);
    BodyIsSilent(a);
    tail := ResponseBody(a.status, a.data);
    ListBodyLength(w.registry);
  }

  lemma ListBodyLength(reg: seq<Client>)
    requires NamesPadded(reg) && Narrow(|reg|)
    ensures |ResponseBody(STATUS_OK, ListData(reg))| % 8 == |reg| % 8
  {
    PaddedAreFixed(reg);
    NarrowLength(|reg|);
    ListDataLength(reg);
    RecordsModuloEight(|reg|);
  }

  lemma RecordsModuloEight(n: nat)
    ensures (RESPONSE_SIZE + RECORD_SIZE * n) % 8 == n % 8
  {
    assert RESPONSE_SIZE + RECORD_SIZE * n == n + 8 * (1 + 34 * n);
  }

  /** After a failed listing, likewise: with n applications the client is n modulo 8 bytes off. */
  lemma AfterListAllFail(w: World, now: Uint64, turns: seq<Turn>)
    requires InStep(w) && NamesPadded(w.registry) && Narrow(|w.registry|) && |w.registry| >= 15
    requires Quiet(ListAnswer(w.registry)) && QuietTurns(w.registry, turns)
    requires |w.registry| % 8 != 0 && |w.registry| % 8 + RunShift(w.registry, turns) < 8
    ensures var (w', told) := RunTurns(ListApps(w, now).0, turns);
            AllFailed(told) && w'.registry == RunServed(w.registry, turns)
  {
    var tail := ListFragment(w, now);
    FragmentAllFail(ListApps(w, now).0, tail, turns);
  }

  // ---------------------------------------------------------------- the eighth

  function Many(a: Answer, n: nat): (answers: seq<Answer>)
    ensures |answers| == n
  {
    seq(n, _ => a)
  }

  function Repeated(move: Move, now: Uint64, n: nat): (turns: seq<Turn>)
    ensures |turns| == n
  {
    seq(n, _ => Turn(move, now))
  }

  lemma ServedOnceMore(reg: seq<Client>, before: seq<Turn>, t: Turn, a: Answer)
    requires RunServed(reg, before) == reg && Served(reg, t) == (reg, [a])
    ensures RunServed(reg, before + [t]) == reg && AllServed(reg, before + [t]) == AllServed(reg, before) + [a]
  {
    assert (before + [t])[..|before + [t]| - 1] == before;
  }

  /** A call that changes nothing and is answered once, made `n` times after others. */
  lemma {:induction false} RepeatedServed(reg: seq<Client>, before: seq<Turn>, move: Move, now: Uint64, n: nat,
                                          a: Answer)
    requires RunServed(reg, before) == reg && Served(reg, Turn(move, now)) == (reg, [a])
    ensures RunServed(reg, before + Repeated(move, now, n)) == reg
    ensures AllServed(reg, before + Repeated(move, now, n)) == AllServed(reg, before) + Many(a, n)
  {
    OneMore(before, Turn(move, now), AllServed(reg, before), a, n);
    if n > 0 {
      RepeatedServed(reg, before, move, now, n - 1, a);
      ServedOnceMore(reg, before + Repeated(move, now, n - 1), Turn(move, now), a);
    }
  }

  lemma OneMore(before: seq<Turn>, t: Turn, answers: seq<Answer>, a: Answer, n: nat)
    ensures n == 0 ==> before + Repeated(t.move, t.now, n) == before && answers + Many(a, n) == answers
    ensures n > 0 ==> before + Repeated(t.move, t.now, n) == before + Repeated(t.move, t.now, n - 1) + [t]
    ensures n > 0 ==> answers + Many(a, n) == answers + Many(a, n - 1) + [a]
  {
  }

  const OK_ANSWER: Answer := Bare(1, STATUS_OK)

  /** Seven queries more about the pid, then ten pings. */
  function EighthRun(pid: Pid, now: Uint64): seq<Turn> {
    Repeated(Ask(pid), now, 7) + Repeated(Do(Ping), now, 10)
  }

  lemma EighthServed(reg: seq<Client>, pid: Pid, now: Uint64)
    ensures var turns := EighthRun(pid, now);
            && RunServed(reg, turns) == reg
            && AllServed(reg, turns) == Many(QueryAnswer(reg, pid), 7) + Many(OK_ANSWER, 10)
  {
    RepeatedServed(reg, [], Ask(pid), now, 7, QueryAnswer(reg, pid));
    assert [] + Repeated(Ask(pid), now, 7) == Repeated(Ask(pid), now, 7);
    assert [] + Many(QueryAnswer(reg, pid), 7) == Many(QueryAnswer(reg, pid), 7);
    RepeatedServed(reg, Repeated(Ask(pid), now, 7), Do(Ping), now, 10, OK_ANSWER);
  }

  lemma {:induction false} EighthOffsets(v: Answer, j: nat)
    requires |v.data| == 9 && j <= 17
    ensures Offset(17, Many(v, 7) + Many(OK_ANSWER, 10), j) == if j <= 7 then 17 + 33 * j else 248 + 24 * (j - 7)
  {
    if j > 0 {
      EighthOffsets(v, j - 1);
    }
  }

  /** Of these replies none starts where the first 17 reads begin, and the ninth where the 18th does. */
  lemma EighthMisses(v: Answer)
    requires |v.data| == 9
    ensures Misses(17, Many(v, 7) + Many(OK_ANSWER, 10), 17)
    ensures Offset(17, Many(v, 7) + Many(OK_ANSWER, 10), 8) == 17 * HEADER_SIZE
  {
    var all := Many(v, 7) + Many(OK_ANSWER, 10);
    forall j | 0 <= j < |all| ensures Offset(17, all, j) % HEADER_SIZE != 0 || Offset(17, all, j) >= HEADER_SIZE * 17 {
      EighthOffsets(v, j);
    }
    EighthOffsets(v, 8);
  }

  lemma EighthLeaves(reg: seq<Client>, pid: Pid, now: Uint64, tail: seq<Byte>)
    requires Has(reg, pid) && |tail| == 17
    ensures var (u, told) := RunUnread(Unread(tail, []), reg, EighthRun(pid, now));
            u == Unread([], Many(OK_ANSWER, 9)) && AllFailed(told)
  {
    var v, start, turns := QueryAnswer(reg, pid), Unread(tail, []), EighthRun(pid, now);
    var all := Many(v, 7) + Many(OK_ANSWER, 10);
    EighthServed(reg, pid, now);
    assert start.answers + AllServed(reg, turns) == all;
    EighthMisses(v);
    MissesNeverMeets(start, reg, turns);
    var j := StaysInside(start, reg, turns);
    EmptyIffStarts(17, all, 17, RunUnread(start, reg, turns).0, j, 8);
    assert all[8..] == Many(OK_ANSWER, 9);
  }

  /** The eighth answer about a registered pid lets the client find the start of a reply again: after one query in step,
      seven more and ten pings, all of which fail, the next call returns 0, whatever it asks and whatever the service
      answers. It has read the second ping's OK. */
  lemma EighthQueryMeets(w: World, pid: Pid, now: Uint64, q: Request)
    requires InStep(w) && Has(w.registry, pid)
    ensures var (w', told) := RunTurns(Query(w, pid, now).0, EighthRun(pid, now));
            AllFailed(told) && w'.registry == w.registry && w'.connected && Perform(w', q, now).1 == 0
  {
    var tail := QueryFragment(w, pid, now);
    var first := Query(w, pid, now).0;
    EighthRefines(first, pid, now, tail);
    OkIsRead(RunTurns(first, EighthRun(pid, now)).0, q, now);
  }

  lemma EighthRefines(w: World, pid: Pid, now: Uint64, tail: seq<Byte>)
    requires Holds(w, Unread(tail, [])) && Has(w.registry, pid) && |tail| == 17
    ensures var (w', told) := RunTurns(w, EighthRun(pid, now));
            AllFailed(told) && w'.registry == w.registry && Holds(w', Unread([], Many(OK_ANSWER, 9)))
  {
    assert QuietTurns(w.registry, EighthRun(pid, now));
    RunRefines(w, Unread(tail, []), EighthRun(pid, now));
    EighthLeaves(w.registry, pid, now, tail);
    EighthServed(w.registry, pid, now);
  }

  lemma OkIsRead(w: World, q: Request, now: Uint64)
    requires Holds(w, Unread([], Many(OK_ANSWER, 9)))
    ensures Perform(w, q, now).1 == 0
  {
    var u, t := Unread([], Many(OK_ANSWER, 9)), Turn(Do(q), now);
    ActsAsTurned(w, u, t);
    StatusReceived(STATUS_OK);
    var body := ResponseBody(STATUS_OK, []);
    assert body[..|body|] == body;
    assert Joining(u, Served(w.registry, t).1).answers[0] == OK_ANSWER;
  }
}
