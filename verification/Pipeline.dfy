/** The whole audio path: samples mixed into the driver's loopback, fetched by ReadInput, handed unchanged to the
    router's input callback, and taken out again by its output callback, with the router's threads interleaved step by
    step. Every sample carries where it came from. */
module Pipeline {
  import opened Words
  import opened RouterRing
  import Loopback = LoopbackDevice
  import Router = RouterMachine
  import Sequential = RouterSequential

  /** `Mix(pos)`: the sample mixed at position `pos`, counting every sample ever mixed. */
  datatype Origin = Quiet | Mix(pos: nat)

  datatype Sample = Sample(value: real, origin: Origin)

  const SILENT: Sample := Sample(0.0, Quiet)

  /** Device, the mixed values so far with the position at which the current IO epoch began, and router. */
  datatype Pipe = Pipe(track: Loopback.Track<Sample>, base: nat, values: seq<real>, router: Router.State<Sample>)

  datatype Action = StartIO(now: Uint64) | StopIO | WriteMix(values: seq<real>) | Input(count: Uint32)
                  | ProducerStep | CallRead(count: Uint32) | ConsumerStep

  function Tag(values: seq<real>, pos: nat): seq<Sample> {
    seq(|values|, i requires 0 <= i < |values| => Sample(values[i], Mix(pos + i)))
  }

  function Idle(count: nat): seq<Sample> {
    seq(count, _ => SILENT)
  }

  function Begin(): (p: Pipe) {
    Pipe(Loopback.Begin(SILENT), 0, [], Router.Start(SILENT))
  }

  predicate Sized(p: Pipe) {
    && |p.track.device.loop.buffer| == Loopback.SIZE
    && p.track.read <= |p.track.mixed|
    && |p.router.shared.buffer| == CAPACITY
  }

  /** What ReadInput leaves in the host's buffer. */
  function InputBlock(p: Pipe, count: nat): seq<Sample>
    requires Sized(p)
  {
    match Loopback.Fetched(p.track.device.loop, count).1
    case Some(block) => block
    case None => Idle(count)
  }

  /** Host operations that break the host's promises, and calls to a busy thread, do not happen. */
  function Step(p: Pipe, a: Action): (p': Pipe)
    requires Sized(p)
    ensures Sized(p')
  {
    match a
    case StartIO(now) =>
      var op := Loopback.StartIO(Loopback.DEVICE_ID, now);
      if Loopback.Allowed(p.track, op) then p.(track := Loopback.Advance(p.track, op, SILENT)) else p
    case StopIO =>
      if Loopback.Allowed(p.track, Loopback.StopIO) then
        var track := Loopback.Advance(p.track, Loopback.StopIO, SILENT);
        p.(track := track, base := if track.live == 0 then |p.values| else p.base)
      else p
    case WriteMix(values) =>
      var op := Loopback.WriteMix(Tag(values, |p.values|));
      if Loopback.Allowed(p.track, op) then
        p.(track := Loopback.Advance(p.track, op, SILENT), values := p.values + values)
      else p
    case Input(count) =>
      if p.router.producer.WriterIdle? && ValidCount(count) then
        p.(track := Loopback.Advance(p.track, Loopback.ReadInput(count), SILENT),
           router := Router.Step(p.router, Router.CallWrite(InputBlock(p, count))))
      else p
    case ProducerStep => p.(router := Router.Step(p.router, Router.ProducerStep))
    case CallRead(count) => p.(router := Router.Step(p.router, Router.CallRead(count)))
    case ConsumerStep => p.(router := Router.Step(p.router, Router.ConsumerStep))
  }

  function Run(actions: seq<Action>): (p: Pipe)
    ensures Sized(p)
  {
    if actions == [] then Begin() else Step(Run(actions[..|actions| - 1]), actions[|actions| - 1])
  }

  // ---------------------------------------------------------------- ordered streams

  /** No sample comes from nowhere, none is reordered or repeated, and none changes channel. */
  ghost predicate Ordered(stream: seq<Sample>) {
    && (forall i, j :: 0 <= i < j < |stream| && stream[i].origin.Mix? && stream[j].origin.Mix? ==>
          stream[i].origin.pos < stream[j].origin.pos)
    && (forall i :: 0 <= i < |stream| && stream[i].origin.Mix? ==> stream[i].origin.pos % 2 == i % 2)
  }

  /** Inserted silence, or exactly the value mixed at its position. */
  ghost predicate Genuine(stream: seq<Sample>, values: seq<real>) {
    forall i :: 0 <= i < |stream| ==> Authentic(stream[i], values)
  }

  predicate Authentic(x: Sample, values: seq<real>) {
    match x.origin
    case Quiet => x.value == 0.0
    case Mix(pos) => pos < |values| && x.value == values[pos]
  }

  ghost predicate Precedes(a: seq<Sample>, b: seq<Sample>) {
    forall i, j :: 0 <= i < |a| && 0 <= j < |b| && a[i].origin.Mix? && b[j].origin.Mix? ==>
      a[i].origin.pos < b[j].origin.pos
  }

  ghost predicate Below(stream: seq<Sample>, limit: nat) {
    forall i :: 0 <= i < |stream| && stream[i].origin.Mix? ==> stream[i].origin.pos < limit
  }

  /** Every mixed sample of `a` occurs in `b`. */
  ghost predicate DrawnFrom(a: seq<Sample>, b: seq<Sample>) {
    forall i :: 0 <= i < |a| && a[i].origin.Mix? ==> a[i] in b
  }

  lemma OrderedJoin(a: seq<Sample>, b: seq<Sample>)
    requires Ordered(a) && Ordered(b) && |a| % 2 == 0 && Precedes(a, b)
    ensures Ordered(a + b)
  {
    var ab := a + b;
    forall i | 0 <= i < |ab| && ab[i].origin.Mix? ensures ab[i].origin.pos % 2 == i % 2 {
      if i >= |a| {
        assert ab[i] == b[i - |a|];
      }
    }
    forall i, j | 0 <= i < j < |ab| && ab[i].origin.Mix? && ab[j].origin.Mix?
      ensures ab[i].origin.pos < ab[j].origin.pos
    {
      assert ab[i] == if i < |a| then a[i] else b[i - |a|];
      assert ab[j] == if j < |a| then a[j] else b[j - |a|];
    }
  }

  lemma OrderedPrefix(a: seq<Sample>, b: seq<Sample>)
    requires Ordered(a + b)
    ensures Ordered(a)
  {
    assert forall i :: 0 <= i < |a| ==> a[i] == (a + b)[i];
  }

  lemma OrderedSplit(a: seq<Sample>, b: seq<Sample>)
    requires Ordered(a + b) && |a| % 2 == 0
    ensures Ordered(a) && Ordered(b) && Precedes(a, b)
  {
    OrderedPrefix(a, b);
    var ab := a + b;
    assert forall j :: 0 <= j < |b| ==> b[j] == ab[|a| + j];
    forall j | 0 <= j < |b| && b[j].origin.Mix? ensures b[j].origin.pos % 2 == j % 2 {
      assert ab[|a| + j].origin.pos % 2 == (|a| + j) % 2;
    }
    forall i, j | 0 <= i < j < |b| && b[i].origin.Mix? && b[j].origin.Mix?
      ensures b[i].origin.pos < b[j].origin.pos
    {
      assert ab[|a| + i].origin.pos < ab[|a| + j].origin.pos;
    }
    forall i, j | 0 <= i < |a| && 0 <= j < |b| && a[i].origin.Mix? && b[j].origin.Mix?
      ensures a[i].origin.pos < b[j].origin.pos
    {
      assert ab[i].origin.pos < ab[|a| + j].origin.pos;
    }
  }

  lemma PrecedesDrawn(a: seq<Sample>, a': seq<Sample>, b: seq<Sample>)
    requires DrawnFrom(a', a) && Precedes(a, b)
    ensures Precedes(a', b)
  {
    forall i, j | 0 <= i < |a'| && 0 <= j < |b| && a'[i].origin.Mix? && b[j].origin.Mix?
      ensures a'[i].origin.pos < b[j].origin.pos
    {
      var k :| 0 <= k < |a| && a[k] == a'[i];
    }
  }

  function Concat(blocks: seq<seq<Sample>>): seq<Sample> {
    if blocks == [] then [] else Concat(blocks[..|blocks| - 1]) + blocks[|blocks| - 1]
  }

  lemma ConcatAppend(blocks: seq<seq<Sample>>, block: seq<Sample>)
    ensures Concat(blocks + [block]) == Concat(blocks) + block
  {
    assert (blocks + [block])[..|blocks + [block]| - 1] == blocks;
  }

  // ---------------------------------------------------------------- through the router

  /** What one read plays: its samples, or as much silence. */
  function Piece(call: Router.Call<Sample>, outcome: Router.Outcome<Sample>): seq<Sample> {
    match (call, outcome)
    case (ReadCall(_), Dequeued(samples)) => samples
    case (ReadCall(count), Starved) => Idle(count)
    case _ => []
  }

  function Heard(log: seq<Router.Entry<Sample>>): seq<Sample> {
    if log == [] then [] else Heard(log[..|log| - 1]) + Piece(log[|log| - 1].call, log[|log| - 1].outcome)
  }

  /** Everything the output callback has delivered, in order. */
  function Output(replies: seq<Router.Reply<Sample>>): seq<Sample> {
    if replies == [] then []
    else Output(replies[..|replies| - 1]) + Piece(replies[|replies| - 1].call, replies[|replies| - 1].outcome)
  }

  predicate EvenCall(call: Router.Call<Sample>) {
    match call
    case WriteCall(block) => |block| % 2 == 0
    case ReadCall(count) => count % 2 == 0
  }

  ghost predicate EvenLog(log: seq<Router.Entry<Sample>>) {
    forall i :: 0 <= i < |log| ==> EvenCall(log[i].call)
  }

  lemma EvenLogPrefix(log: seq<Router.Entry<Sample>>)
    requires EvenLog(log) && log != []
    ensures EvenLog(log[..|log| - 1]) && EvenCall(log[|log| - 1].call)
  {
  }

  /** `kept` is what the ring accepted of the ordered stream `sent`. */
  ghost predicate KeptOf(kept: seq<Sample>, sent: seq<Sample>) {
    Ordered(kept) && |kept| % 2 == 0 && |sent| % 2 == 0 && forall x :: x in kept ==> x in sent
  }

  /** The next block is kept or dropped as a whole. */
  lemma KeptContinues(kept: seq<Sample>, sent: seq<Sample>, block: seq<Sample>)
    requires KeptOf(kept, sent) && Ordered(sent + block) && |block| % 2 == 0
    ensures KeptOf(kept + block, sent + block) && KeptOf(kept, sent + block)
  {
    OrderedSplit(sent, block);
    PrecedesDrawn(sent, kept, block);
    OrderedJoin(kept, block);
  }

  /** Dropping whole blocks leaves the accepted stream ordered. */
  lemma {:induction false} EnqueuedOrdered(log: seq<Router.Entry<Sample>>)
    requires EvenLog(log) && Ordered(Concat(Router.BlocksOf(log)))
    ensures KeptOf(Router.EnqueuedBy(log), Concat(Router.BlocksOf(log)))
  {
    if log != [] {
      var before, e := log[..|log| - 1], log[|log| - 1];
      EvenLogPrefix(log);
      var kept, sent := Router.EnqueuedBy(before), Concat(Router.BlocksOf(before));
      if e.call.ReadCall? {
        assert Router.BlocksOf(log) == Router.BlocksOf(before) && Router.EnqueuedBy(log) == kept;
        EnqueuedOrdered(before);
      } else {
        ConcatAppend(Router.BlocksOf(before), e.call.block);
        OrderedPrefix(sent, e.call.block);
        EnqueuedOrdered(before);
        KeptContinues(kept, sent, e.call.block);
        assert Router.EnqueuedBy(log) == kept + e.call.block || Router.EnqueuedBy(log) == kept;
      }
    }
  }

  lemma {:induction false} HeardMembers(log: seq<Router.Entry<Sample>>)
    ensures forall x :: x in Heard(log) ==> x == SILENT || x in Router.DequeuedBy(log)
  {
    if log != [] {
      var before, e := log[..|log| - 1], log[|log| - 1];
      HeardMembers(before);
      assert Heard(log) == Heard(before) + Piece(e.call, e.outcome);
      assert Router.DequeuedBy(log) == Router.DequeuedBy(before) + Router.DequeuedIn(e);
    }
  }

  lemma PieceOrdered(queue: seq<Sample>, e: Router.Entry<Sample>)
    requires Router.LegalEntry(queue, e) && EvenCall(e.call) && Ordered(Router.DequeuedIn(e))
    ensures var piece := Piece(e.call, e.outcome);
            && Ordered(piece) && |piece| % 2 == 0 && |Router.DequeuedIn(e)| % 2 == 0
            && (piece == Router.DequeuedIn(e) || forall i :: 0 <= i < |piece| ==> piece[i].origin.Quiet?)
  {
  }

  /** Playing what was taken next, or silence in its place, continues an ordered stream. */
  lemma PieceContinues(heard: seq<Sample>, dequeued: seq<Sample>, taken: seq<Sample>, piece: seq<Sample>)
    requires Ordered(heard) && |heard| % 2 == 0 && Ordered(dequeued + taken) && |dequeued| % 2 == 0 && Ordered(piece)
    requires forall x :: x in heard ==> x == SILENT || x in dequeued
    requires piece == taken || forall i :: 0 <= i < |piece| ==> piece[i].origin.Quiet?
    ensures Ordered(heard + piece)
  {
    OrderedSplit(dequeued, taken);
    PrecedesDrawn(dequeued, heard, taken);
    OrderedJoin(heard, piece);
  }

  lemma LastHeard(log: seq<Router.Entry<Sample>>)
    requires log != []
    ensures Heard(log) == Heard(log[..|log| - 1]) + Piece(log[|log| - 1].call, log[|log| - 1].outcome)
  {
  }

  lemma PieceHeard(queue: seq<Sample>, heard: seq<Sample>, dequeued: seq<Sample>, e: Router.Entry<Sample>)
    requires Ordered(heard) && |heard| % 2 == 0 && |dequeued| % 2 == 0
    requires Router.LegalEntry(queue, e) && EvenCall(e.call)
    requires Ordered(dequeued + Router.DequeuedIn(e)) && forall x :: x in heard ==> x == SILENT || x in dequeued
    ensures var piece := Piece(e.call, e.outcome);
            Ordered(heard + piece) && |heard + piece| % 2 == 0 && |dequeued + Router.DequeuedIn(e)| % 2 == 0
  {
    OrderedSplit(dequeued, Router.DequeuedIn(e));
    PieceOrdered(queue, e);
    PieceContinues(heard, dequeued, Router.DequeuedIn(e), Piece(e.call, e.outcome));
  }

  /** Inserting whole blocks of silence leaves the played stream ordered. */
  lemma {:induction false} HeardOrdered(log: seq<Router.Entry<Sample>>)
    requires EvenLog(log) && Router.Legal(log) && Ordered(Router.DequeuedBy(log))
    ensures Ordered(Heard(log)) && |Heard(log)| % 2 == 0 && |Router.DequeuedBy(log)| % 2 == 0
  {
    if log != [] {
      var before, e := log[..|log| - 1], log[|log| - 1];
      EvenLogPrefix(log);
      Router.LastRemains(log);
      OrderedPrefix(Router.DequeuedBy(before), Router.DequeuedIn(e));
      HeardOrdered(before);
      HeardMembers(before);
      LastHeard(log);
      PieceHeard(Router.Queue(before), Heard(before), Router.DequeuedBy(before), e);
    }
  }

  /** In a router history fed an ordered, genuine stream, what is played is ordered and genuine. */
  lemma HeardFromFed(log: seq<Router.Entry<Sample>>, values: seq<real>)
    requires EvenLog(log) && Router.Legal(log)
    requires Ordered(Concat(Router.BlocksOf(log))) && Genuine(Concat(Router.BlocksOf(log)), values)
    ensures Ordered(Heard(log)) && Genuine(Heard(log), values)
  {
    var fed, accepted, taken := Concat(Router.BlocksOf(log)), Router.EnqueuedBy(log), Router.DequeuedBy(log);
    EnqueuedOrdered(log);
    Router.QueueIsWhatRemains(log);
    OrderedPrefix(taken, Router.Queue(log));
    HeardOrdered(log);
    HeardMembers(log);
    forall i | 0 <= i < |Heard(log)| ensures Authentic(Heard(log)[i], values) {
      var x := Heard(log)[i];
      if x != SILENT {
        assert x in taken;
        assert x in accepted;
        assert x in fed;
        var k :| 0 <= k < |fed| && fed[k] == x;
        assert Authentic(fed[k], values);
      }
    }
  }

  // ---------------------------------------------------------------- the invariant of the path

  /** The samples of this epoch carry consecutive positions, from an even base on. */
  ghost predicate SourceOk(p: Pipe) {
    && Loopback.TrackOk(p.track)
    && p.base % 2 == 0
    && Tagged(p.track.mixed, p.values, p.base)
  }

  /** What has been handed to the router so far is ordered, genuine, and ends before the next sample to be read. */
  ghost predicate FedOk(written: seq<seq<Sample>>, values: seq<real>, frontier: nat) {
    && Ordered(Concat(written))
    && |Concat(written)| % 2 == 0
    && Genuine(Concat(written), values)
    && Below(Concat(written), frontier)
  }

  function Frontier(p: Pipe): nat {
    p.base + p.track.read
  }

  /** The output callback's deliveries are the log's reads, but for one that has not yet returned. */
  ghost predicate OutputOk(log: seq<Router.Entry<Sample>>, replies: seq<Router.Reply<Sample>>,
                           c: Router.Consumer<Sample>)
  {
    && EvenLog(log)
    && Heard(log) == Output(replies) + Undelivered(c)
  }

  function Undelivered(c: Router.Consumer<Sample>): seq<Sample> {
    if Router.ReadDecided(c) then Piece(Router.ReadCall(c.count), Router.ReadOutcome(c)) else []
  }

  ghost predicate PathOk(p: Pipe) {
    && SourceOk(p)
    && FedOk(p.router.written, p.values, Frontier(p))
    && RouterOk(p.router)
  }

  // ---------------------------------------------------------------- host operations

  lemma FedGrows(written: seq<seq<Sample>>, values: seq<real>, frontier: nat, values': seq<real>, frontier': nat)
    requires FedOk(written, values, frontier) && values <= values' && frontier <= frontier'
    ensures FedOk(written, values', frontier')
  {
    var fed := Concat(written);
    forall i | 0 <= i < |fed| ensures Authentic(fed[i], values') {
      assert Authentic(fed[i], values);
    }
  }

  lemma StartKeepsSource(p: Pipe, now: Uint64)
    requires SourceOk(p) && Sized(p)
    ensures SourceOk(Step(p, StartIO(now)))
    ensures Frontier(Step(p, StartIO(now))) == Frontier(p) && Step(p, StartIO(now)).values == p.values
  {
    var op := Loopback.StartIO(Loopback.DEVICE_ID, now);
    if Loopback.Allowed(p.track, op) {
      Loopback.StepKeepsTrack(p.track, op, SILENT);
    }
  }

  lemma StopKeepsSource(p: Pipe)
    requires SourceOk(p) && Sized(p)
    ensures SourceOk(Step(p, StopIO))
    ensures Frontier(Step(p, StopIO)) >= Frontier(p) && Step(p, StopIO).values == p.values
  {
    if Loopback.Allowed(p.track, Loopback.StopIO) {
      Loopback.StepKeepsTrack(p.track, Loopback.StopIO, SILENT);
      var track := Loopback.Advance(p.track, Loopback.StopIO, SILENT);
      assert track.live == 0 ==> track.mixed == [] && |p.values| == p.base + |p.track.mixed|;
    }
  }

  /** The samples of an epoch, tagged with the positions from `base` on. */
  ghost predicate Tagged(mixed: seq<Sample>, values: seq<real>, base: nat) {
    && base + |mixed| == |values|
    && forall i :: 0 <= i < |mixed| ==> mixed[i] == Sample(values[base + i], Mix(base + i))
  }

  lemma TaggedGrows(mixed: seq<Sample>, values: seq<real>, base: nat, more: seq<real>)
    requires Tagged(mixed, values, base)
    ensures Tagged(mixed + Tag(more, |values|), values + more, base)
  {
  }

  lemma MixKeepsSource(p: Pipe, values: seq<real>)
    requires SourceOk(p) && Sized(p)
    ensures SourceOk(Step(p, WriteMix(values)))
    ensures Frontier(Step(p, WriteMix(values))) == Frontier(p) && p.values <= Step(p, WriteMix(values)).values
  {
    var op := Loopback.WriteMix(Tag(values, |p.values|));
    if Loopback.Allowed(p.track, op) {
      Loopback.StepKeepsTrack(p.track, op, SILENT);
      TaggedGrows(p.track.mixed, p.values, p.base, values);
    }
  }

  // ---------------------------------------------------------------- fetching a block

  lemma BlockFromSource(p: Pipe, count: nat, start: nat)
    requires SourceOk(p) && start % 2 == 0 && start + count <= |p.track.mixed|
    ensures var block := p.track.mixed[start..start + count];
            && Ordered(block) && Genuine(block, p.values)
            && (forall i :: 0 <= i < count ==> block[i].origin == Mix(p.base + start + i))
  {
    var block := p.track.mixed[start..start + count];
    forall i | 0 <= i < count
      ensures block[i] == Sample(p.values[p.base + start + i], Mix(p.base + start + i)) && Authentic(block[i], p.values)
    {
      assert block[i] == p.track.mixed[start + i];
      assert p.track.mixed[start + i].origin == Mix(p.base + start + i);
    }
    ConsecutiveOrdered(block, p.base + start);
  }

  lemma ConsecutiveOrdered(block: seq<Sample>, first: nat)
    requires first % 2 == 0 && forall i :: 0 <= i < |block| ==> block[i].origin == Mix(first + i)
    ensures Ordered(block)
  {
  }

  /** The block the host receives continues the stream handed to the router so far. */
  lemma InputContinues(p: Pipe, count: nat)
    requires SourceOk(p) && Sized(p) && count % 2 == 0
    ensures var block := InputBlock(p, count);
            var track := Loopback.Advance(p.track, Loopback.ReadInput(count), SILENT);
            && |block| == count && Ordered(block) && Genuine(block, p.values)
            && (forall i :: 0 <= i < count && block[i].origin.Mix? ==>
                  Frontier(p) <= block[i].origin.pos < p.base + track.read)
            && p.track.read <= track.read && track.mixed == p.track.mixed
  {
    Loopback.ReadFromTrack(p.track, count);
    var start := Loopback.ReadStart(|p.track.mixed|, p.track.read);
    if start + count <= |p.track.mixed| {
      Loopback.EvenStart(|p.track.mixed|, p.track.read, 0);
      BlockFromSource(p, count, start);
    }
  }

  lemma FeedBlock(written: seq<seq<Sample>>, values: seq<real>, frontier: nat, block: seq<Sample>, frontier': nat)
    requires FedOk(written, values, frontier) && frontier <= frontier'
    requires Ordered(block) && |block| % 2 == 0 && Genuine(block, values)
    requires forall i :: 0 <= i < |block| && block[i].origin.Mix? ==> frontier <= block[i].origin.pos < frontier'
    ensures FedOk(written + [block], values, frontier')
  {
    var fed := Concat(written);
    ConcatAppend(written, block);
    OrderedJoin(fed, block);
    forall i | 0 <= i < |fed + block|
      ensures Authentic((fed + block)[i], values)
      ensures (fed + block)[i].origin.Mix? ==> (fed + block)[i].origin.pos < frontier'
    {
      assert (fed + block)[i] == if i < |fed| then fed[i] else block[i - |fed|];
      if i < |fed| {
        assert Authentic(fed[i], values);
      } else {
        assert Authentic(block[i - |fed|], values);
      }
    }
  }

  lemma InputKeepsSource(p: Pipe, count: Uint32)
    requires SourceOk(p) && Sized(p) && ValidCount(count)
    ensures SourceOk(p.(track := Loopback.Advance(p.track, Loopback.ReadInput(count), SILENT)))
  {
    InputContinues(p, count);
    Loopback.StepKeepsTrack(p.track, Loopback.ReadInput(count), SILENT);
  }

  lemma InputFeeds(p: Pipe, count: Uint32)
    requires SourceOk(p) && Sized(p) && ValidCount(count) && FedOk(p.router.written, p.values, Frontier(p))
    ensures FedOk(p.router.written + [InputBlock(p, count)], p.values,
                  p.base + Loopback.Advance(p.track, Loopback.ReadInput(count), SILENT).read)
  {
    InputContinues(p, count);
    FeedBlock(p.router.written, p.values, Frontier(p), InputBlock(p, count),
              p.base + Loopback.Advance(p.track, Loopback.ReadInput(count), SILENT).read);
  }

  /** An idle producer accepts the block: only then does the host call it. */
  lemma InputCalls(p: Pipe, count: Uint32)
    requires SourceOk(p) && Sized(p) && p.router.producer.WriterIdle? && ValidCount(count)
    ensures Step(p, Input(count)).router.written == p.router.written + [InputBlock(p, count)]
    ensures Step(p, Input(count)).values == p.values && Step(p, Input(count)).base == p.base
    ensures Step(p, Input(count)).track == Loopback.Advance(p.track, Loopback.ReadInput(count), SILENT)
  {
    InputContinues(p, count);
  }

  lemma InputKeepsPath(p: Pipe, count: Uint32)
    requires PathOk(p) && Sized(p) && p.router.producer.WriterIdle? && ValidCount(count)
    ensures SourceOk(Step(p, Input(count)))
    ensures FedOk(Step(p, Input(count)).router.written, p.values, Frontier(Step(p, Input(count))))
  {
    InputKeepsSource(p, count);
    InputFeeds(p, count);
    InputCalls(p, count);
  }

  // ---------------------------------------------------------------- router steps

  lemma LogGrows(log: seq<Router.Entry<Sample>>, e: Router.Entry<Sample>)
    ensures Heard(log + [e]) == Heard(log) + Piece(e.call, e.outcome)
    ensures EvenLog(log) && EvenCall(e.call) ==> EvenLog(log + [e])
  {
    assert (log + [e])[..|log + [e]| - 1] == log;
  }

  lemma OutputGrows(replies: seq<Router.Reply<Sample>>, r: Router.Reply<Sample>)
    ensures Output(replies + [r]) == Output(replies) + Piece(r.call, r.outcome)
  {
    assert (replies + [r])[..|replies + [r]| - 1] == replies;
  }

  /** A write's entry and a write's reply deliver nothing. */
  lemma WriteDelivers(log: seq<Router.Entry<Sample>>, replies: seq<Router.Reply<Sample>>, c: Router.Consumer<Sample>,
                      e: Router.Entry<Sample>, r: Router.Reply<Sample>)
    requires OutputOk(log, replies, c) && e.call.WriteCall? && EvenCall(e.call) && r.call.WriteCall?
    ensures OutputOk(log + [e], replies, c) && OutputOk(log, replies + [r], c)
  {
    LogGrows(log, e);
    OutputGrows(replies, r);
    assert Heard(log) + [] == Heard(log) && Output(replies) + [] == Output(replies);
  }

  lemma ReadDecides(log: seq<Router.Entry<Sample>>, replies: seq<Router.Reply<Sample>>, c: Router.Consumer<Sample>,
                    c': Router.Consumer<Sample>, e: Router.Entry<Sample>)
    requires OutputOk(log, replies, c) && !Router.ReadDecided(c) && Router.ReadDecided(c') && EvenCall(e.call)
    requires e.call == Router.ReadCall(c'.count) && e.outcome == Router.ReadOutcome(c')
    ensures OutputOk(log + [e], replies, c')
  {
    LogGrows(log, e);
  }

  lemma ReadReplies(log: seq<Router.Entry<Sample>>, replies: seq<Router.Reply<Sample>>, c: Router.Consumer<Sample>,
                    r: Router.Reply<Sample>)
    requires OutputOk(log, replies, c) && Router.ReadDecided(c)
    requires r.call == Router.ReadCall(c.count) && r.outcome == Router.ReadOutcome(c)
    ensures OutputOk(log, replies + [r], Router.ReaderIdle)
  {
    OutputGrows(replies, r);
  }

  ghost predicate Delivering(s: Router.State<Sample>) {
    OutputOk(s.log, s.replies, s.consumer)
  }

  lemma ProducerKeepsOutput(s: Router.State<Sample>)
    requires Router.RingPart(s) && Delivering(s)
    ensures Delivering(Router.Tick(Router.ProducerNext(s)))
  {
    if !s.producer.WriterIdle? {
      var p := s.producer;
      var outcome := if p.WriteCopying? then Router.Enqueued else Router.Dropped;
      var e := Router.Entry(Router.WriteCall(p.block), outcome, p.called, s.now);
      var seen := if p.WriteCounting? then p.outcome else outcome;
      var r := Router.Reply(if p.WriteCounting? then p.entry else 0, Router.WriteCall(p.block), seen, p.called, s.now);
      WriteDelivers(s.log, s.replies, s.consumer, e, r);
      ProducerAdds(s, e, r);
    }
  }

  lemma ProducerAdds(s: Router.State<Sample>, e: Router.Entry<Sample>, r: Router.Reply<Sample>)
    requires |s.shared.buffer| == CAPACITY && !s.producer.WriterIdle?
    requires e == Router.Entry(Router.WriteCall(s.producer.block),
                               if s.producer.WriteCopying? then Router.Enqueued else Router.Dropped,
                               s.producer.called, s.now)
    requires s.producer.WriteCounting? ==>
      r == Router.Reply(s.producer.entry, Router.WriteCall(s.producer.block), s.producer.outcome, s.producer.called,
                        s.now)
    ensures var s' := Router.ProducerNext(s);
            && s'.consumer == s.consumer
            && ((s'.log == s.log && s'.replies == s.replies)
                || (s'.log == s.log + [e] && s'.replies == s.replies)
                || (s'.log == s.log && s'.replies == s.replies + [r]))
  {
  }

  lemma SnapWritePosDelivers(s: Router.State<Sample>)
    requires Router.RingPart(s) && Delivering(s) && s.consumer.ReadSnapped?
    ensures Delivering(Router.Tick(Router.SnapWritePos(s)))
  {
    var s' := Router.SnapWritePos(s);
    if s'.consumer.ReadRefused? {
      ReadDecides(s.log, s.replies, s.consumer, s'.consumer,
                  Router.Entry(Router.ReadCall(s.consumer.count), Router.Starved, s.consumer.called, s.now));
    }
  }

  lemma FetchOrReleaseDelivers(s: Router.State<Sample>)
    requires Router.RingPart(s) && Delivering(s) && s.consumer.ReadCopying?
    ensures Delivering(Router.Tick(Router.FetchOrRelease(s)))
  {
    var s' := Router.FetchOrRelease(s);
    if s'.consumer.ReadStats? {
      ReadDecides(s.log, s.replies, s.consumer, s'.consumer,
                  Router.Entry(Router.ReadCall(s.consumer.count), Router.Dequeued(s.consumer.data), s.consumer.called,
                               s.now));
    }
  }

  lemma ReadStatsDelivers(s: Router.State<Sample>)
    requires Router.RingPart(s) && Delivering(s) && s.consumer.ReadStats?
    ensures Delivering(Router.Tick(Router.ConsumerNext(s)))
  {
    var c := s.consumer;
    if c.stats.StatsDone? {
      ReadReplies(s.log, s.replies, c, Router.Reply(c.entry, Router.ReadCall(c.count), c.outcome, c.called, s.now));
    }
  }

  lemma ConsumerKeepsOutput(s: Router.State<Sample>)
    requires Router.RingPart(s) && Delivering(s)
    ensures Delivering(Router.Tick(Router.ConsumerNext(s)))
  {
    match s.consumer
    case ReaderIdle =>
    case ReadCalled(_, _) =>
    case ReadSnapped(_, _, _) => SnapWritePosDelivers(s);
    case ReadRefused(_, _, _, _) =>
    case ReadCopying(_, _, _, _, _) => FetchOrReleaseDelivers(s);
    case ReadStats(_, _, _, _, _) => ReadStatsDelivers(s);
  }

  lemma RouterStepKeepsOutput(s: Router.State<Sample>, a: Router.Action<Sample>)
    requires Router.RingPart(s) && Delivering(s)
    ensures Delivering(Router.Step(s, a))
  {
    match a
    case ProducerStep => ProducerKeepsOutput(s);
    case ConsumerStep => ConsumerKeepsOutput(s);
    case CallWrite(_) => CallWriteKeepsOutput(s, a);
    case CallRead(_) => CallReadKeepsOutput(s, a);
  }

  lemma CallWriteKeepsOutput(s: Router.State<Sample>, a: Router.Action<Sample>)
    requires Router.RingPart(s) && Delivering(s) && a.CallWrite?
    ensures Delivering(Router.Step(s, a))
  {
    var s' := Router.Step(s, a);
    assert s'.log == s.log && s'.replies == s.replies && s'.consumer == s.consumer;
  }

  lemma CallReadKeepsOutput(s: Router.State<Sample>, a: Router.Action<Sample>)
    requires Router.RingPart(s) && Delivering(s) && a.CallRead?
    ensures Delivering(Router.Step(s, a))
  {
    var s' := Router.Step(s, a);
    assert s'.log == s.log && s'.replies == s.replies;
  }

  ghost predicate RouterOk(s: Router.State<Sample>) {
    Router.Good(s) && Delivering(s)
  }

  lemma RouterStepKeepsRouter(s: Router.State<Sample>, a: Router.Action<Sample>)
    requires RouterOk(s) && |s.accepted| < U32_SIZE && !s.wrapSeen
    ensures RouterOk(Router.Step(s, a)) && !Router.Step(s, a).wrapSeen
  {
    Router.StepBeforeWrap(s, a);
    Router.StepKeepsGood(s, a);
    RouterStepKeepsOutput(s, a);
  }

  /** The router action behind a pipeline action, if any. */
  function RouterAction(p: Pipe, a: Action): Option<Router.Action<Sample>>
    requires Sized(p)
  {
    match a
    case Input(count) =>
      if p.router.producer.WriterIdle? && ValidCount(count) then Some(Router.CallWrite(InputBlock(p, count))) else None
    case ProducerStep => Some(Router.ProducerStep)
    case CallRead(count) => Some(Router.CallRead(count))
    case ConsumerStep => Some(Router.ConsumerStep)
    case _ => None
  }

  lemma WrittenOnlyByInput(s: Router.State<Sample>, a: Router.Action<Sample>)
    requires |s.shared.buffer| == CAPACITY && !a.CallWrite?
    ensures Router.Step(s, a).written == s.written
  {
  }

  lemma InputStepKeepsPath(p: Pipe, count: Uint32)
    requires Sized(p) && PathOk(p) && |p.router.accepted| < U32_SIZE && !p.router.wrapSeen
    requires p.router.producer.WriterIdle? && ValidCount(count)
    ensures PathOk(Step(p, Input(count))) && !Step(p, Input(count)).router.wrapSeen
  {
    var p' := Step(p, Input(count));
    InputRouter(p, count);
    InputKeepsPath(p, count);
    assert SourceOk(p') && FedOk(p'.router.written, p'.values, Frontier(p')) && RouterOk(p'.router);
  }

  lemma InputRouter(p: Pipe, count: Uint32)
    requires Sized(p) && RouterOk(p.router) && |p.router.accepted| < U32_SIZE && !p.router.wrapSeen
    requires p.router.producer.WriterIdle? && ValidCount(count)
    ensures RouterOk(Step(p, Input(count)).router) && !Step(p, Input(count)).router.wrapSeen
    ensures Step(p, Input(count)).values == p.values
  {
    RouterStepKeepsRouter(p.router, Router.CallWrite(InputBlock(p, count)));
  }

  lemma ThreadStepKeepsPath(p: Pipe, a: Action, r: Router.Action<Sample>)
    requires Sized(p) && PathOk(p) && |p.router.accepted| < U32_SIZE && !p.router.wrapSeen
    requires !r.CallWrite? && Step(p, a) == p.(router := Router.Step(p.router, r))
    ensures PathOk(Step(p, a)) && !Step(p, a).router.wrapSeen
  {
    RouterStepKeepsRouter(p.router, r);
    WrittenOnlyByInput(p.router, r);
  }

  lemma HostStepKeepsPath(p: Pipe, a: Action)
    requires Sized(p) && PathOk(p) && !p.router.wrapSeen && RouterAction(p, a).None?
    ensures PathOk(Step(p, a)) && !Step(p, a).router.wrapSeen
  {
    HostStepKeepsSource(p, a);
    FedGrows(p.router.written, p.values, Frontier(p), Step(p, a).values, Frontier(Step(p, a)));
  }

  lemma StepKeepsPath(p: Pipe, a: Action)
    requires Sized(p) && PathOk(p) && |p.router.accepted| < U32_SIZE && !p.router.wrapSeen
    ensures PathOk(Step(p, a)) && !Step(p, a).router.wrapSeen
  {
    match a
    case StartIO(_) => HostStepKeepsPath(p, a);
    case StopIO => HostStepKeepsPath(p, a);
    case WriteMix(_) => HostStepKeepsPath(p, a);
    case Input(count) =>
      if p.router.producer.WriterIdle? && ValidCount(count) {
        InputStepKeepsPath(p, count);
      } else {
        HostStepKeepsPath(p, a);
      }
    case ProducerStep => ThreadStepKeepsPath(p, a, Router.ProducerStep);
    case CallRead(count) => ThreadStepKeepsPath(p, a, Router.CallRead(count));
    case ConsumerStep => ThreadStepKeepsPath(p, a, Router.ConsumerStep);
  }

  lemma HostStepKeepsSource(p: Pipe, a: Action)
    requires Sized(p) && SourceOk(p) && RouterAction(p, a).None?
    ensures var p' := Step(p, a);
            SourceOk(p') && p.values <= p'.values && Frontier(p) <= Frontier(p') && p'.router == p.router
  {
    match a
    case StartIO(now) => StartKeepsSource(p, now);
    case StopIO => StopKeepsSource(p);
    case WriteMix(values) => MixKeepsSource(p, values);
    case _ =>
  }

  lemma AcceptedGrows(p: Pipe, a: Action)
    requires Sized(p)
    ensures |p.router.accepted| <= |Step(p, a).router.accepted|
  {
    match RouterAction(p, a)
    case Some(r) => Router.StepOnlyGrows(p.router, r);
    case None =>
  }

  lemma BeginIsOk()
    ensures PathOk(Begin())
  {
  }

  lemma {:induction false} RunKeepsPath(actions: seq<Action>)
    requires |Run(actions).router.accepted| < U32_SIZE
    ensures PathOk(Run(actions)) && !Run(actions).router.wrapSeen
  {
    if actions == [] {
      BeginIsOk();
    } else {
      var before, a := actions[..|actions| - 1], actions[|actions| - 1];
      AcceptedGrows(Run(before), a);
      RunKeepsPath(before);
      StepKeepsPath(Run(before), a);
    }
  }

  // ---------------------------------------------------------------- end to end

  /** The value output_callback plays for a sample under a gain. */
  function Played(gain: real, x: Sample): real {
    if 0.0 < gain < 1.0 then x.value * gain else x.value
  }

  function Factor(gain: real): real {
    if 0.0 < gain < 1.0 then gain else 1.0
  }

  /** Played as silence, or as the gain times the value mixed at its position. */
  ghost predicate FaithfullyPlayed(gain: real, x: Sample, values: seq<real>) {
    match x.origin
    case Quiet => Played(gain, x) == 0.0
    case Mix(pos) => pos < |values| && Played(gain, x) == Factor(gain) * values[pos]
  }

  lemma FedSplits(written: seq<seq<Sample>>, blocks: seq<seq<Sample>>, producer: Router.Producer<Sample>,
                  values: seq<real>)
    requires written == blocks + Router.Undecided(producer)
    requires Ordered(Concat(written)) && Genuine(Concat(written), values)
    ensures Ordered(Concat(blocks)) && Genuine(Concat(blocks), values)
  {
    if Router.Undecided(producer) != [] {
      var block := Router.Undecided(producer)[0];
      assert written == blocks + [block];
      ConcatAppend(blocks, block);
      OrderedPrefix(Concat(blocks), block);
      forall i | 0 <= i < |Concat(blocks)| ensures Authentic(Concat(blocks)[i], values) {
        assert Concat(written)[i] == Concat(blocks)[i];
        assert Authentic(Concat(written)[i], values);
      }
    } else {
      assert written == blocks;
    }
  }

  lemma OutputIsOrdered(log: seq<Router.Entry<Sample>>, replies: seq<Router.Reply<Sample>>, c: Router.Consumer<Sample>,
                        values: seq<real>)
    requires OutputOk(log, replies, c) && Router.Legal(log)
    requires Ordered(Concat(Router.BlocksOf(log))) && Genuine(Concat(Router.BlocksOf(log)), values)
    ensures Ordered(Output(replies)) && Genuine(Output(replies), values)
  {
    HeardFromFed(log, values);
    OrderedPrefix(Output(replies), Undelivered(c));
    forall i | 0 <= i < |Output(replies)| ensures Authentic(Output(replies)[i], values) {
      assert Heard(log)[i] == Output(replies)[i];
      assert Authentic(Heard(log)[i], values);
    }
  }

  lemma PathDelivers(p: Pipe)
    requires PathOk(p)
    ensures Ordered(Output(p.router.replies)) && Genuine(Output(p.router.replies), p.values)
  {
    FedSplits(p.router.written, Router.BlocksOf(p.router.log), p.router.producer, p.values);
    OutputIsOrdered(p.router.log, p.router.replies, p.router.consumer, p.values);
  }

  lemma GenuinePlayed(gain: real, x: Sample, values: seq<real>)
    requires Authentic(x, values)
    ensures FaithfullyPlayed(gain, x, values)
  {
  }

  /** End to end: in every run before 2^32 samples have been accepted, every sample delivered by the output callback is
      inserted silence or the gain times the value mixed at its position; the positions delivered are strictly
      increasing and keep their left/right parity. Nothing is reordered, duplicated or moved to the other channel. */
  lemma EndToEnd(actions: seq<Action>, p: Pipe, gain: real)
    requires p == Run(actions) && |p.router.accepted| < U32_SIZE
    ensures Ordered(Output(p.router.replies))
    ensures forall x :: x in Output(p.router.replies) ==> FaithfullyPlayed(gain, x, p.values)
  {
    RunKeepsPath(actions);
    PathDelivers(p);
    var out := Output(p.router.replies);
    forall x | x in out ensures FaithfullyPlayed(gain, x, p.values) {
      var i :| 0 <= i < |out| && out[i] == x;
      assert Authentic(out[i], p.values);
      GenuinePlayed(gain, x, p.values);
    }
  }
  // ---------------------------------------------------------------- the callback plays what the path delivers

  /** The router's fields without the samples' origins, as the callback has them. */
  function Valued(sh: Shared<Sample>): Shared<real> {
    Shared(seq(|sh.buffer|, i requires 0 <= i < |sh.buffer| => sh.buffer[i].value), sh.writePos, sh.readPos,
           sh.currentUsage, sh.samplesBuffered, sh.peakUsage, sh.overruns, sh.underruns, sh.frames)
  }

  /** A read of the values is the read of the samples. */
  lemma ReadOfValues(sh: Shared<Sample>, count: Uint32)
    requires |sh.buffer| == CAPACITY
    ensures var (after, out) := Read(sh, count);
            && Read(Valued(sh), count).0 == Valued(after)
            && (Read(Valued(sh), count).1.Some? <==> out.Some?)
            && (out.Some? ==> forall k :: 0 <= k < count ==> Read(Valued(sh), count).1.value[k] == out.value[k].value)
  {
    assert Valued(Read(sh, count).0).buffer == Valued(sh).buffer;
  }

  /** What a read delivers to its caller: the samples taken, or silence. */
  function PieceRead(sh: Shared<Sample>, count: Uint32): (piece: seq<Sample>)
    requires |sh.buffer| == CAPACITY
    ensures |piece| == count
  {
    var out := Read(sh, count).1;
    if out.Some? then out.value else Idle(count)
  }

  lemma PieceOfRead(sh: Shared<Sample>, count: Uint32)
    requires |sh.buffer| == CAPACITY
    ensures var out := Read(Valued(sh), count).1;
            forall k :: 0 <= k < count ==> PieceRead(sh, count)[k].value == if out.Some? then out.value[k] else 0.0
  {
    ReadOfValues(sh, count);
  }

  lemma ReadGrowsOutput(s: Router.State<Sample>, count: Uint32, s': Router.State<Sample>)
    requires |s.shared.buffer| == CAPACITY && s.consumer.ReaderIdle? && ValidCount(count)
    requires s' == Sequential.FinishRead(Router.Step(s, Router.CallRead(count)))
    ensures s'.shared == Read(s.shared, count).0
    ensures Output(s'.replies) == Output(s.replies) + PieceRead(s.shared, count)
  {
    Sequential.UndisturbedRead(s, count);
    Sequential.FinishReadReplies(Router.Step(s, Router.CallRead(count)));
    var n := |s.replies|;
    assert s'.replies[..|s'.replies| - 1] == s.replies;
    assert Piece(s'.replies[n].call, s'.replies[n].outcome) == PieceRead(s.shared, count);
  }

  lemma PlaysPiece(out: Option<seq<real>>, piece: seq<Sample>, gain: real, data: seq<real>)
    requires |data| == |piece| && (out.Some? ==> |out.value| == |piece|)
    requires forall k :: 0 <= k < |piece| ==> piece[k].value == if out.Some? then out.value[k] else 0.0
    requires forall k :: 0 <= k < |data| ==>
               var x := if out.Some? then out.value[k] else 0.0;
               data[k] == if 0.0 < gain < 1.0 then x * gain else x
    ensures forall k :: 0 <= k < |data| ==> data[k] == Played(gain, piece[k])
  {
  }

  /** An undisturbed call of the output callback in a run: what it leaves in its caller's block, `out` being what it has
      read, is what is played for the very samples by which the run's output grows. */
  lemma CallbackPlays(s: Router.State<Sample>, count: Uint32, gain: real, out: Option<seq<real>>, data: seq<real>,
                      s': Router.State<Sample>) returns (piece: seq<Sample>)
    requires |s.shared.buffer| == CAPACITY && s.consumer.ReaderIdle? && ValidCount(count)
    requires out == Read(Valued(s.shared), count).1 && |data| == count
    requires forall k :: 0 <= k < |data| ==>
               var x := if out.Some? then out.value[k] else 0.0;
               data[k] == if 0.0 < gain < 1.0 then x * gain else x
    requires s' == Sequential.FinishRead(Router.Step(s, Router.CallRead(count)))
    ensures |piece| == count && Output(s'.replies) == Output(s.replies) + piece
    ensures forall k :: 0 <= k < |data| ==> data[k] == Played(gain, piece[k])
  {
    piece := PieceRead(s.shared, count);
    PieceOfRead(s.shared, count);
    ReadGrowsOutput(s, count, s');
    PlaysPiece(out, piece, gain, data);
  }
}
