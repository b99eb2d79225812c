/** The client's reconnection attempts (src/ipc/ipc_client.c): exponential backoff with a give-up count. */
module Backoff {
  import opened Words

  const MAX_ATTEMPTS: nat := 5
  const BASE_DELAY_MS: nat := 100
  const LONGEST_DELAY_MS: nat := 5000

  /** The sleep before an attempt, given how many have failed. */
  function Delay(attempts: nat): nat {
    var ms := BASE_DELAY_MS * PowerOfTwo(attempts);
    if ms > LONGEST_DELAY_MS then LONGEST_DELAY_MS else ms
  }

  /** What happens to the attempt count: a reconnect or a direct connect, which may succeed, or a reset. */
  datatype Event = Reconnect(connects: bool) | Connect(connects: bool) | Reset

  /** The new attempt count. */
  function Next(attempts: nat, e: Event): nat {
    match e
    case Reconnect(connects) => if attempts >= MAX_ATTEMPTS then attempts else if connects then 0 else attempts + 1
    case Connect(connects) => if connects then 0 else attempts
    case Reset => 0
  }

  /** How long the event sleeps, if it does. */
  function Sleep(attempts: nat, e: Event): Option<nat> {
    if e.Reconnect? && attempts < MAX_ATTEMPTS then Some(Delay(attempts)) else None
  }

  /** The attempt count after a run of events, and the sleeps it took. */
  function RunEvents(attempts: nat, events: seq<Event>): (nat, seq<nat>) {
    if events == [] then (attempts, [])
    else
      var (before, sleeps) := RunEvents(attempts, events[..|events| - 1]);
      var e := events[|events| - 1];
      (Next(before, e), match Sleep(before, e) case None => sleeps case Some(ms) => sleeps + [ms])
  }

  function Total(sleeps: seq<nat>): nat {
    if sleeps == [] then 0 else Total(sleeps[..|sleeps| - 1]) + sleeps[|sleeps| - 1]
  }

  function Reconnects(events: seq<Event>): nat {
    if events == [] then 0
    else Reconnects(events[..|events| - 1]) + (if events[|events| - 1].Reconnect? then 1 else 0)
  }

  /** A connection made or a reset clears the count, so that the schedule starts again; a failed reconnect raises it by
      one, up to the limit, from which on only a direct connect or a reset helps. */
  lemma CountOfFailures(attempts: nat, e: Event)
    ensures Next(attempts, e) == 0 <==>
              (attempts == 0 && e != Reconnect(false))
              || e.Reset? || e == Connect(true) || (e == Reconnect(true) && attempts < MAX_ATTEMPTS)
    ensures Next(attempts, e) != 0 ==> Next(attempts, e) == attempts + (if Sleep(attempts, e).Some? then 1 else 0)
  {
  }

  predicate Failing(e: Event) {
    !e.Reset? && !e.connects
  }

  /** The first `n` sleeps of a fresh client. */
  function Schedule(n: nat): (sleeps: seq<nat>)
    ensures |sleeps| == n
  {
    if n == 0 then [] else Schedule(n - 1) + [Delay(n - 1)]
  }

  lemma Delays()
    ensures Delay(0) == 100 && Delay(1) == 200 && Delay(2) == 400 && Delay(3) == 800 && Delay(4) == 1600
    ensures forall n: nat :: n < MAX_ATTEMPTS ==> BASE_DELAY_MS * PowerOfTwo(n) < LONGEST_DELAY_MS
  {
    assert PowerOfTwo(1) == 2 * PowerOfTwo(0);
    assert PowerOfTwo(2) == 2 * PowerOfTwo(1);
    assert PowerOfTwo(3) == 2 * PowerOfTwo(2);
    assert PowerOfTwo(4) == 2 * PowerOfTwo(3);
    forall n: nat | n < MAX_ATTEMPTS ensures BASE_DELAY_MS * PowerOfTwo(n) < LONGEST_DELAY_MS {
      assert n == 0 || n == 1 || n == 2 || n == 3 || n == 4;
    }
  }

  lemma {:induction false} ScheduleTotal(n: nat)
    requires n <= MAX_ATTEMPTS
    ensures Total(Schedule(n)) == BASE_DELAY_MS * (PowerOfTwo(n) - 1)
  {
    if n > 0 {
      Delays();
      ScheduleTotal(n - 1);
      assert Schedule(n)[..n - 1] == Schedule(n - 1);
    }
  }

  /** With no success and no reset, `k` reconnects of a fresh client sleep for the first min(k, 5) delays of the
      schedule and no longer: at most five sleeps, 3100 ms in all, every further attempt failing at once. */
  lemma FailingRun(events: seq<Event>)
    requires forall i :: 0 <= i < |events| ==> Failing(events[i])
    ensures var n := if Reconnects(events) < MAX_ATTEMPTS then Reconnects(events) else MAX_ATTEMPTS;
            && RunEvents(0, events) == (n, [100, 200, 400, 800, 1600][..n])
            && RunEvents(0, events) == (n, Schedule(n)) && Total(Schedule(n)) <= 3100
  {
    FailingFollows(events);
    var n := if Reconnects(events) < MAX_ATTEMPTS then Reconnects(events) else MAX_ATTEMPTS;
    ScheduleTotal(n);
    SmallPowers(n);
    FirstDelays(n);
  }

  lemma {:induction false} FailingFollows(events: seq<Event>)
    requires forall i :: 0 <= i < |events| ==> Failing(events[i])
    ensures var n := if Reconnects(events) < MAX_ATTEMPTS then Reconnects(events) else MAX_ATTEMPTS;
            RunEvents(0, events) == (n, Schedule(n))
  {
    if events != [] {
      FailingFollows(events[..|events| - 1]);
      var e := events[|events| - 1];
      assert Failing(e);
    }
  }

  lemma {:induction false} FirstDelays(n: nat)
    requires n <= MAX_ATTEMPTS
    ensures Schedule(n) == [100, 200, 400, 800, 1600][..n]
  {
    if n > 0 {
      Delays();
      FirstDelays(n - 1);
      assert n == 1 || n == 2 || n == 3 || n == 4 || n == 5;
    }
  }

  lemma SmallPowers(n: nat)
    requires n <= MAX_ATTEMPTS
    ensures PowerOfTwo(n) <= 32
  {
    assert PowerOfTwo(5) == 2 * PowerOfTwo(4) && PowerOfTwo(4) == 2 * PowerOfTwo(3);
    assert PowerOfTwo(3) == 2 * PowerOfTwo(2);
    assert PowerOfTwo(2) == 2 * PowerOfTwo(1) && PowerOfTwo(1) == 2 * PowerOfTwo(0);
    assert n == 0 || n == 1 || n == 2 || n == 3 || n == 4 || n == 5;
  }

  /** Whatever happens, a client below its limit stays within it, and no sleep is ever cut to 5000 ms. */
  lemma {:induction false} ClampNeverReached(attempts: nat, events: seq<Event>)
    requires attempts <= MAX_ATTEMPTS
    ensures var (after, sleeps) := RunEvents(attempts, events);
            after <= MAX_ATTEMPTS && forall i :: 0 <= i < |sleeps| ==> sleeps[i] <= 1600
  {
    if events != [] {
      ClampNeverReached(attempts, events[..|events| - 1]);
      Delays();
      var before := RunEvents(attempts, events[..|events| - 1]).0;
      assert before < MAX_ATTEMPTS ==> before == 0 || before == 1 || before == 2 || before == 3 || before == 4;
    }
  }
}
