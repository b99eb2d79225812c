/** The router's reported peak usage (rb_update_stats in src/audio_router.c), which both IO threads raise with a load
    and a separate store: when it is the true maximum, and exactly how it is lost. */
module RouterPeak {
  import opened Words
  import opened RouterRing
  import opened RouterMachine

  // ---------------------------------------------------------------- the highest usage

  /** The usage whose statistics update this step completes. */
  function Completes<T>(s: State<T>, a: Action<T>): Option<Uint32> {
    if a.ProducerStep? && s.producer.WriteStats? then CompletesUpdate(s.shared.peakUsage, s.producer.stats)
    else if a.ConsumerStep? && s.consumer.ReadStats? then CompletesUpdate(s.shared.peakUsage, s.consumer.stats)
    else None
  }

  function CompletesUpdate(peak: Uint32, stats: Stats): Option<Uint32> {
    match stats
    case LoadPeak(level) => if UsagePercent(level) > peak then None else Some(UsagePercent(level))
    case StorePeak(level) => Some(UsagePercent(level))
    case _ => None
  }

  /** The highest usage of all completed updates. An update stores `current_usage` before it turns to the peak, so
      between the two stores the usage reported as current can be above it. */
  function HighestUsage<T>(zero: T, actions: seq<Action<T>>): nat {
    if actions == [] then 0
    else
      var before, a := actions[..|actions| - 1], actions[|actions| - 1];
      match Completes(Run(zero, before), a)
      case Some(usage) => if usage > HighestUsage(zero, before) then usage else HighestUsage(zero, before)
      case None => HighestUsage(zero, before)
  }

  ghost predicate PeakRight<T>(zero: T, actions: seq<Action<T>>, n: nat)
    requires n <= |actions|
  {
    Run(zero, actions[..n]).shared.peakUsage == HighestUsage(zero, actions[..n])
  }

  // ---------------------------------------------------------------- loads and stores

  datatype Thread = Writer | Reader

  function Other(t: Thread): Thread {
    if t.Writer? then Reader else Writer
  }

  predicate OwnStep<T>(a: Action<T>, t: Thread) {
    if t.Writer? then a.ProducerStep? else a.ConsumerStep?
  }

  /** What is left of the thread's statistics update. */
  function StatsOf<T>(s: State<T>, t: Thread): Stats {
    if t.Writer? then if s.producer.WriteStats? then s.producer.stats else StatsDone
    else if s.consumer.ReadStats? then s.consumer.stats else StatsDone
  }

  /** The peak the thread has decided to store. */
  function PendingStore<T>(s: State<T>, t: Thread): Option<Uint32> {
    if StatsOf(s, t).StorePeak? then Some(UsagePercent(StatsOf(s, t).level)) else None
  }

  lemma OthersKeepPending<T>(s: State<T>, a: Action<T>, t: Thread)
    requires |s.shared.buffer| == CAPACITY && !OwnStep(a, t)
    ensures PendingStore(Step(s, a), t) == PendingStore(s, t)
    ensures !OwnStep(a, Other(t)) ==> Step(s, a).shared.peakUsage == s.shared.peakUsage
  {
  }

  lemma StoreSetsPeak<T>(s: State<T>, a: Action<T>, t: Thread)
    requires |s.shared.buffer| == CAPACITY && OwnStep(a, t) && PendingStore(s, t).Some?
    ensures Step(s, a).shared.peakUsage == PendingStore(s, t).value && PendingStore(Step(s, a), t) == None
    ensures Completes(s, a) == PendingStore(s, t)
  {
  }

  /** A thread decides to store only a usage above the peak it has just loaded. */
  lemma LoadSeesPeak<T>(s: State<T>, a: Action<T>, t: Thread)
    requires |s.shared.buffer| == CAPACITY && OwnStep(a, t) && PendingStore(s, t).None?
    ensures Step(s, a).shared.peakUsage == s.shared.peakUsage
    ensures PendingStore(Step(s, a), t).Some? ==> PendingStore(Step(s, a), t).value > s.shared.peakUsage
    ensures Completes(s, a).Some? ==> Completes(s, a).value <= s.shared.peakUsage
  {
  }

  lemma CallsKeepPeak<T>(s: State<T>, a: Action<T>)
    requires |s.shared.buffer| == CAPACITY && !OwnStep(a, Writer) && !OwnStep(a, Reader)
    ensures Step(s, a).shared.peakUsage == s.shared.peakUsage && Completes(s, a) == None
  {
  }

  /** This step stores a peak below the one that stands. */
  predicate StoresLate<T>(s: State<T>, a: Action<T>) {
    exists t: Thread :: StoresBelow(s, a, t)
  }

  predicate StoresBelow<T>(s: State<T>, a: Action<T>, t: Thread) {
    OwnStep(a, t) && PendingStore(s, t).Some? && PendingStore(s, t).value < s.shared.peakUsage
  }

  lemma PeakStep<T>(s: State<T>, a: Action<T>)
    requires |s.shared.buffer| == CAPACITY
    ensures Step(s, a).shared.peakUsage ==
            match Completes(s, a)
            case Some(usage) => if usage > s.shared.peakUsage || StoresLate(s, a) then usage else s.shared.peakUsage
            case None => s.shared.peakUsage
    ensures StoresLate(s, a) ==> Completes(s, a).Some? && Completes(s, a).value < s.shared.peakUsage
  {
    if OwnStep(a, Writer) {
      StepOfThread(s, a, Writer);
    } else if OwnStep(a, Reader) {
      StepOfThread(s, a, Reader);
    } else {
      CallsKeepPeak(s, a);
    }
  }

  lemma StepOfThread<T>(s: State<T>, a: Action<T>, t: Thread)
    requires |s.shared.buffer| == CAPACITY && OwnStep(a, t)
    ensures StoresLate(s, a) <==> StoresBelow(s, a, t)
    ensures Step(s, a).shared.peakUsage ==
            match Completes(s, a)
            case Some(usage) => if usage > s.shared.peakUsage || StoresLate(s, a) then usage else s.shared.peakUsage
            case None => s.shared.peakUsage
    ensures StoresLate(s, a) ==> Completes(s, a).Some? && Completes(s, a).value < s.shared.peakUsage
  {
    assert forall t': Thread :: OwnStep(a, t') ==> t' == t;
    if PendingStore(s, t).Some? {
      StoreSetsPeak(s, a, t);
    } else {
      LoadSeesPeak(s, a, t);
    }
  }

  // ---------------------------------------------------------------- right until a late store, and not after it

  ghost predicate LateAt<T>(zero: T, actions: seq<Action<T>>, n: nat)
    requires n < |actions|
  {
    StoresLate(Run(zero, actions[..n]), actions[n])
  }

  lemma RunNext<T>(zero: T, actions: seq<Action<T>>, n: nat)
    requires n < |actions|
    ensures Run(zero, actions[..n + 1]) == Step(Run(zero, actions[..n]), actions[n])
    ensures HighestUsage(zero, actions[..n + 1]) ==
            match Completes(Run(zero, actions[..n]), actions[n])
            case Some(usage) => if usage > HighestUsage(zero, actions[..n]) then usage
                                else HighestUsage(zero, actions[..n])
            case None => HighestUsage(zero, actions[..n])
  {
    assert actions[..n + 1][..n] == actions[..n];
  }

  /** The reported peak is never above the highest usage of all completed updates. */
  lemma {:induction false} PeakAtMostHighest<T>(zero: T, actions: seq<Action<T>>, n: nat)
    requires n <= |actions|
    ensures Run(zero, actions[..n]).shared.peakUsage <= HighestUsage(zero, actions[..n])
  {
    if n > 0 {
      PeakAtMostHighest(zero, actions, n - 1);
      RunNext(zero, actions, n - 1);
      PeakStep(Run(zero, actions[..n - 1]), actions[n - 1]);
    }
  }

  /** A late store puts the peak below the highest usage. */
  lemma LateStoreLosesPeak<T>(zero: T, actions: seq<Action<T>>, n: nat)
    requires n < |actions| && LateAt(zero, actions, n)
    ensures Run(zero, actions[..n + 1]).shared.peakUsage < HighestUsage(zero, actions[..n + 1])
  {
    PeakAtMostHighest(zero, actions, n);
    RunNext(zero, actions, n);
    PeakStep(Run(zero, actions[..n]), actions[n]);
  }

  lemma {:induction false} PeakRightUntilLate<T>(zero: T, actions: seq<Action<T>>, n: nat)
    requires n <= |actions| && forall m :: 0 <= m < n ==> !LateAt(zero, actions, m)
    ensures PeakRight(zero, actions, n)
  {
    if n > 0 {
      PeakRightUntilLate(zero, actions, n - 1);
      assert !LateAt(zero, actions, n - 1);
      RunNext(zero, actions, n - 1);
      PeakStep(Run(zero, actions[..n - 1]), actions[n - 1]);
    }
  }

  // ---------------------------------------------------------------- updates that do not overlap

  predicate Updating<T>(s: State<T>, t: Thread) {
    !StatsOf(s, t).StatsDone?
  }

  predicate Overlap<T>(s: State<T>) {
    Updating(s, Writer) && Updating(s, Reader)
  }

  /** Every store decided on still raises the peak. */
  ghost predicate PendingHigh<T>(s: State<T>) {
    forall t: Thread :: PendingStore(s, t).Some? ==> PendingStore(s, t).value > s.shared.peakUsage
  }

  lemma OneThreadKeepsHigh<T>(s: State<T>, a: Action<T>, t: Thread)
    requires |s.shared.buffer| == CAPACITY && PendingHigh(s) && !Overlap(s) && OwnStep(a, t)
    ensures PendingHigh(Step(s, a))
  {
    OthersKeepPending(s, a, Other(t));
    if PendingStore(s, t).Some? {
      StoreSetsPeak(s, a, t);
      assert Updating(s, t) && !Updating(s, Other(t));
    } else {
      LoadSeesPeak(s, a, t);
    }
    forall t': Thread | PendingStore(Step(s, a), t').Some?
      ensures PendingStore(Step(s, a), t').value > Step(s, a).shared.peakUsage
    {
      assert t' == t || t' == Other(t);
    }
  }

  lemma StepKeepsHigh<T>(s: State<T>, a: Action<T>)
    requires |s.shared.buffer| == CAPACITY && PendingHigh(s) && !Overlap(s)
    ensures PendingHigh(Step(s, a)) && !StoresLate(s, a)
  {
    if OwnStep(a, Writer) {
      OneThreadKeepsHigh(s, a, Writer);
    } else if OwnStep(a, Reader) {
      OneThreadKeepsHigh(s, a, Reader);
    } else {
      CallsKeepPeak(s, a);
      OthersKeepPending(s, a, Writer);
      OthersKeepPending(s, a, Reader);
    }
  }

  lemma {:induction false} DisjointRunIsHigh<T>(zero: T, actions: seq<Action<T>>, n: nat)
    requires n <= |actions| && forall m :: 0 <= m < n ==> !Overlap(Run(zero, actions[..m]))
    ensures PendingHigh(Run(zero, actions[..n]))
  {
    if n > 0 {
      DisjointRunIsHigh(zero, actions, n - 1);
      assert !Overlap(Run(zero, actions[..n - 1]));
      RunNext(zero, actions, n - 1);
      StepKeepsHigh(Run(zero, actions[..n - 1]), actions[n - 1]);
    }
  }

  /** In a run in which the two threads' statistics updates never overlap, as when they are atomic, the reported peak is
      at every moment the highest usage of all updates completed so far. */
  lemma DisjointUpdatesKeepPeak<T>(zero: T, actions: seq<Action<T>>)
    requires forall n :: 0 <= n < |actions| ==> !Overlap(Run(zero, actions[..n]))
    ensures forall n :: 0 <= n <= |actions| ==> PeakRight(zero, actions, n)
  {
    forall m | 0 <= m < |actions| ensures !LateAt(zero, actions, m) {
      DisjointRunIsHigh(zero, actions, m);
      assert !Overlap(Run(zero, actions[..m]));
      StepKeepsHigh(Run(zero, actions[..m]), actions[m]);
    }
    forall n | 0 <= n <= |actions| ensures PeakRight(zero, actions, n) {
      PeakRightUntilLate(zero, actions, n);
    }
  }

  // ---------------------------------------------------------------- late stores are overtaken ones

  /** Step `l` is the thread's load, after which it means to store `u`. */
  ghost predicate LoadedAt<T>(zero: T, actions: seq<Action<T>>, l: nat, t: Thread, u: Uint32) {
    && l < |actions| && OwnStep(actions[l], t)
    && PendingStore(Run(zero, actions[..l]), t) == None
    && PendingStore(Run(zero, actions[..l + 1]), t) == Some(u)
  }

  /** Step `m` is the thread's store of `v`. */
  ghost predicate StoredAt<T>(zero: T, actions: seq<Action<T>>, m: nat, t: Thread, v: Uint32) {
    m < |actions| && OwnStep(actions[m], t) && PendingStore(Run(zero, actions[..m]), t) == Some(v)
  }

  predicate Rests<T>(actions: seq<Action<T>>, t: Thread, from: nat, to: nat) {
    forall k :: from < k < to && k < |actions| ==> !OwnStep(actions[k], t)
  }

  /** Between `l` and `n` the thread stores more than `u`. */
  ghost predicate StoredMore<T>(zero: T, actions: seq<Action<T>>, l: nat, n: nat, t: Thread, u: Uint32) {
    exists m: nat, v: Uint32 :: l < m < n && v > u && StoredAt(zero, actions, m, t, v)
  }

  /** The store at step `n` is overtaken: between its thread's load and this store, the other thread has stored more. */
  ghost predicate Overtaken<T>(zero: T, actions: seq<Action<T>>, n: nat) {
    exists t: Thread, u: Uint32, l: nat ::
      && l < n && StoredAt(zero, actions, n, t, u) && LoadedAt(zero, actions, l, t, u) && Rests(actions, t, l, n)
      && StoredMore(zero, actions, l, n, Other(t), u)
  }

  /** The thread's pending stores before each step of a run, and after its last. */
  ghost function Pendings<T>(zero: T, actions: seq<Action<T>>, t: Thread): (pends: seq<Option<Uint32>>)
    ensures |pends| == |actions| + 1
  {
    seq(|actions| + 1, n requires 0 <= n <= |actions| => PendingStore(Run(zero, actions[..n]), t))
  }

  /** Only the thread's own steps change what it has pending: a load sets it, a store clears it. */
  ghost predicate Alternates<T>(pends: seq<Option<Uint32>>, actions: seq<Action<T>>, t: Thread) {
    && |pends| == |actions| + 1 && pends[0] == None
    && forall k :: 0 <= k < |actions| ==>
         (if OwnStep(actions[k], t) then pends[k] == None || pends[k + 1] == None else pends[k + 1] == pends[k])
  }

  lemma PendingsAlternate<T>(zero: T, actions: seq<Action<T>>, t: Thread)
    ensures Alternates(Pendings(zero, actions, t), actions, t)
  {
    var pends := Pendings(zero, actions, t);
    assert actions[..0] == [];
    forall k | 0 <= k < |actions|
      ensures if OwnStep(actions[k], t) then pends[k] == None || pends[k + 1] == None else pends[k + 1] == pends[k]
    {
      RunNext(zero, actions, k);
      if !OwnStep(actions[k], t) {
        OthersKeepPending(Run(zero, actions[..k]), actions[k], t);
      } else if pends[k].Some? {
        StoreSetsPeak(Run(zero, actions[..k]), actions[k], t);
      }
    }
  }

  lemma {:induction false} LoadIn<T>(pends: seq<Option<Uint32>>, actions: seq<Action<T>>, n: nat, t: Thread, u: Uint32)
    returns (l: nat)
    requires Alternates(pends, actions, t) && n <= |actions| && pends[n] == Some(u)
    ensures l < n && OwnStep(actions[l], t) && pends[l] == None && pends[l + 1] == Some(u) && Rests(actions, t, l, n)
    decreases n
  {
    if OwnStep(actions[n - 1], t) {
      l := n - 1;
    } else {
      l := LoadIn(pends, actions, n - 1, t, u);
    }
  }

  /** Every store has its load. */
  lemma LoadOf<T>(zero: T, actions: seq<Action<T>>, n: nat, t: Thread, u: Uint32) returns (l: nat)
    requires n <= |actions| && PendingStore(Run(zero, actions[..n]), t) == Some(u)
    ensures l < n && LoadedAt(zero, actions, l, t, u) && Rests(actions, t, l, n)
  {
    var pends := Pendings(zero, actions, t);
    PendingsAlternate(zero, actions, t);
    l := LoadIn(pends, actions, n, t, u);
  }

  /** What a thread's pending store has to expect of the peak. */
  ghost predicate PeakSince<T>(zero: T, actions: seq<Action<T>>, l: nat, n: nat, t: Thread, u: Uint32)
    requires n <= |actions|
  {
    var s := Run(zero, actions[..n]);
    if StoredMore(zero, actions, l, n, Other(t), u)
    then s.shared.peakUsage > u
         && (PendingStore(s, Other(t)).Some? ==> PendingStore(s, Other(t)).value > s.shared.peakUsage)
    else s.shared.peakUsage <= u
  }

  /** Step `n` is the thread's store of more than `u`. */
  ghost predicate StoresMoreAt<T>(zero: T, actions: seq<Action<T>>, n: nat, t: Thread, u: Uint32)
    requires n < |actions|
  {
    && OwnStep(actions[n], t) && PendingStore(Run(zero, actions[..n]), t).Some?
    && PendingStore(Run(zero, actions[..n]), t).value > u
  }

  lemma StoredMoreAdds<T>(zero: T, actions: seq<Action<T>>, l: nat, n: nat, t: Thread, u: Uint32)
    requires l < n < |actions| && (StoredMore(zero, actions, l, n, t, u) || StoresMoreAt(zero, actions, n, t, u))
    ensures StoredMore(zero, actions, l, n + 1, t, u)
  {
    if StoresMoreAt(zero, actions, n, t, u) {
      assert StoredAt(zero, actions, n, t, PendingStore(Run(zero, actions[..n]), t).value);
    } else {
      var m: nat, v: Uint32 :| l < m < n && v > u && StoredAt(zero, actions, m, t, v);
    }
  }

  lemma StoredMoreGrows<T>(zero: T, actions: seq<Action<T>>, l: nat, n: nat, t: Thread, u: Uint32)
    requires l < n < |actions|
    ensures StoredMore(zero, actions, l, n + 1, t, u) <==>
            StoredMore(zero, actions, l, n, t, u) || StoresMoreAt(zero, actions, n, t, u)
  {
    if StoredMore(zero, actions, l, n, t, u) || StoresMoreAt(zero, actions, n, t, u) {
      StoredMoreAdds(zero, actions, l, n, t, u);
    }
    if StoredMore(zero, actions, l, n + 1, t, u) {
      var m: nat, v: Uint32 :| l < m < n + 1 && v > u && StoredAt(zero, actions, m, t, v);
      if m < n {
        assert StoredMore(zero, actions, l, n, t, u);
      }
    }
  }

  lemma PeakSinceStep<T>(zero: T, actions: seq<Action<T>>, l: nat, n: nat, t: Thread, u: Uint32)
    requires l < n < |actions| && !OwnStep(actions[n], t) && PeakSince(zero, actions, l, n, t, u)
    ensures PeakSince(zero, actions, l, n + 1, t, u)
  {
    var s, a := Run(zero, actions[..n]), actions[n];
    RunNext(zero, actions, n);
    StoredMoreGrows(zero, actions, l, n, Other(t), u);
    if OwnStep(a, Other(t)) {
      if PendingStore(s, Other(t)).Some? {
        StoreSetsPeak(s, a, Other(t));
      } else {
        LoadSeesPeak(s, a, Other(t));
      }
    } else {
      CallsKeepPeak(s, a);
      OthersKeepPending(s, a, Other(t));
    }
  }

  lemma PeakAtLoad<T>(zero: T, actions: seq<Action<T>>, l: nat, t: Thread, u: Uint32)
    requires l < |actions| && LoadedAt(zero, actions, l, t, u)
    ensures PeakSince(zero, actions, l, l + 1, t, u)
  {
    RunNext(zero, actions, l);
    LoadSeesPeak(Run(zero, actions[..l]), actions[l], t);
  }

  lemma {:induction false} PeakSinceOn<T>(zero: T, actions: seq<Action<T>>, l: nat, n: nat, t: Thread, u: Uint32)
    requires l < n <= |actions| && PeakSince(zero, actions, l, l + 1, t, u)
    requires forall k :: l < k < n ==> !OwnStep(actions[k], t)
    ensures PeakSince(zero, actions, l, n, t, u)
  {
    if n > l + 1 {
      PeakSinceOn(zero, actions, l, n - 1, t, u);
      PeakSinceStep(zero, actions, l, n - 1, t, u);
    }
  }

  lemma PeakSinceLoad<T>(zero: T, actions: seq<Action<T>>, l: nat, n: nat, t: Thread, u: Uint32)
    requires l < n <= |actions| && LoadedAt(zero, actions, l, t, u) && Rests(actions, t, l, n)
    ensures PeakSince(zero, actions, l, n, t, u)
  {
    PeakAtLoad(zero, actions, l, t, u);
    PeakSinceOn(zero, actions, l, n, t, u);
  }

  /** A store is late exactly when it is overtaken. */
  lemma LateIffOvertaken<T>(zero: T, actions: seq<Action<T>>, n: nat)
    requires n < |actions|
    ensures LateAt(zero, actions, n) <==> Overtaken(zero, actions, n)
  {
    var s := Run(zero, actions[..n]);
    if LateAt(zero, actions, n) {
      var t: Thread :| StoresBelow(s, actions[n], t);
      var u := PendingStore(s, t).value;
      var l := LoadOf(zero, actions, n, t, u);
      PeakSinceLoad(zero, actions, l, n, t, u);
      assert StoredAt(zero, actions, n, t, u);
    }
    if Overtaken(zero, actions, n) {
      var t: Thread, u: Uint32, l: nat :|
        && l < n && StoredAt(zero, actions, n, t, u) && LoadedAt(zero, actions, l, t, u) && Rests(actions, t, l, n)
        && StoredMore(zero, actions, l, n, Other(t), u);
      PeakSinceLoad(zero, actions, l, n, t, u);
      assert StoresBelow(s, actions[n], t);
    }
  }

  /** The reported peak is at every moment of a run the highest usage of all completed updates if and only if no store
      in the run is overtaken: the other thread never stores more between a thread's load of the peak and its store. */
  lemma PeakIsHighestIff<T>(zero: T, actions: seq<Action<T>>)
    ensures (forall n :: 0 <= n <= |actions| ==> PeakRight(zero, actions, n))
            <==> (forall n :: 0 <= n < |actions| ==> !Overtaken(zero, actions, n))
  {
    if forall n :: 0 <= n < |actions| ==> !Overtaken(zero, actions, n) {
      forall n | 0 <= n < |actions| ensures !LateAt(zero, actions, n) {
        LateIffOvertaken(zero, actions, n);
      }
      forall n | 0 <= n <= |actions| ensures PeakRight(zero, actions, n) {
        PeakRightUntilLate(zero, actions, n);
      }
    } else {
      var n :| 0 <= n < |actions| && Overtaken(zero, actions, n);
      LateIffOvertaken(zero, actions, n);
      LateStoreLosesPeak(zero, actions, n);
      assert !PeakRight(zero, actions, n + 1);
    }
  }
}
