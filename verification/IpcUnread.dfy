/** What a client has still to read (src/ipc/ipc_client.c): whole replies, possibly behind the rest of one it has begun
    to misread. One read takes the oldest reply, leaves its body behind when that is too long for the buffer, or drops
    16 bytes from the middle of a reply. */
module IpcUnread {
  import opened Words
  import opened IpcCodec
  import opened IpcRegistry
  import opened IpcWire
  import opened IpcOutOfStep

  /** `tail` is what is left of a reply that was begun, `answers` are the whole ones behind it. */
  datatype Unread = Unread(tail: seq<Byte>, answers: seq<Answer>)

  function Bytes(u: Unread): seq<Byte> {
    u.tail + Replies(u.answers)
  }

  // ---------------------------------------------------------------- the inside of replies

  /** The 16 bytes from `k` on, read as a header. */
  function HeaderAt(bytes: seq<Byte>, k: nat): Header
    requires k + HEADER_SIZE <= |bytes|
  {
    DecodeHeader(bytes[k..k + HEADER_SIZE])
  }

  /** No valid header begins in these bytes, whichever message follows them. */
  ghost predicate Silent(bytes: seq<Byte>) {
    forall h: Header, k: nat :: h.magic == MAGIC && k < |bytes| ==> !ValidHeader(HeaderAt(bytes + EncodeHeader(h), k))
  }

  /** No valid header begins inside the reply, its own aside. */
  ghost predicate Quiet(a: Answer) {
    Silent(Reply(a)[1..])
  }

  ghost predicate AllQuiet(answers: seq<Answer>) {
    forall i :: 0 <= i < |answers| ==> Quiet(answers[i])
  }

  lemma SilentFrom(bytes: seq<Byte>, n: nat)
    requires Silent(bytes) && n <= |bytes|
    ensures Silent(bytes[n..])
  {
    var rest := bytes[n..];
    forall h: Header, k: nat | h.magic == MAGIC && k < |rest|
      ensures !ValidHeader(HeaderAt(rest + EncodeHeader(h), k))
    {
      var stream := bytes + EncodeHeader(h);
      assert (rest + EncodeHeader(h))[k..k + HEADER_SIZE] == stream[n + k..n + k + HEADER_SIZE];
      assert !ValidHeader(HeaderAt(stream, n + k));
    }
  }

  lemma QuietFrom(a: Answer, n: nat)
    requires Quiet(a) && 1 <= n <= |Reply(a)|
    ensures Silent(Reply(a)[n..])
  {
    SilentFrom(Reply(a)[1..], n - 1);
    assert Reply(a)[1..][n - 1..] == Reply(a)[n..];
  }

  // ---------------------------------------------------------------- one read

  /** What one read into a buffer of `size` bytes leaves unread, and what it takes. */
  function Next(u: Unread, size: nat): (Unread, Option<seq<Byte>>)
    requires u.answers != []
  {
    var a := u.answers[0];
    if |u.tail| >= HEADER_SIZE then (Unread(u.tail[HEADER_SIZE..], u.answers), None)
    else if u.tail != [] then (Unread(Reply(a)[HEADER_SIZE - |u.tail|..], u.answers[1..]), None)
    else
      var p, body := ReplyLength(a.data), ResponseBody(a.status, a.data);
      if p <= MAX_PAYLOAD && p <= size then (Unread(body[p..], u.answers[1..]), Some(body[..p]))
      else (Unread(body, u.answers[1..]), None)
  }

  /** The client's stream holds exactly these unread bytes, and misreading the first of them meets no header. */
  ghost predicate Holds(w: World, u: Unread) {
    w.connected && w.toServer == [] && w.toClient == Bytes(u) && Silent(u.tail)
  }

  lemma ReadsWhole(w: World, u: Unread, size: nat)
    requires Holds(w, u) && u.answers != [] && u.tail == []
    ensures var (u', got) := Next(u, size);
            && Received(w, size).0 == w.(toClient := Bytes(u'))
            && Received(w, size).1 ==
               if got.Some? then Some((ResponseHeader(u.answers[0].id, u.answers[0].data), got.value)) else None
  {
    assert w.toClient == Replies(u.answers) + [];
    ReceivesOldest(w, u.answers, [], size);
    assert Replies(u.answers[1..]) + [] == Replies(u.answers[1..]);
  }

  /** The 16 bytes a client in the middle of a reply takes for a header. */
  lemma MeetsNoHeader(u: Unread)
    requires Silent(u.tail) && u.tail != [] && u.answers != []
    ensures |Bytes(u)| >= HEADER_SIZE && !ValidHeader(DecodeHeader(Bytes(u)[..HEADER_SIZE]))
  {
    var a := u.answers[0];
    var h := ResponseHeader(a.id, a.data);
    RepliesHead(u.answers);
    assert !ValidHeader(HeaderAt(u.tail + EncodeHeader(h), 0));
    Associate(EncodeHeader(h), ResponseBody(a.status, a.data), Replies(u.answers[1..]));
    assert Bytes(u)[..HEADER_SIZE] == (u.tail + EncodeHeader(h))[0..0 + HEADER_SIZE];
  }

  lemma CutAcross(tail: seq<Byte>, reply: seq<Byte>, later: seq<Byte>)
    requires |tail| < HEADER_SIZE && |reply| >= HEADER_SIZE
    ensures (tail + (reply + later))[HEADER_SIZE..] == reply[HEADER_SIZE - |tail|..] + later
  {
  }

  lemma ReadsPiece(w: World, u: Unread, size: nat)
    requires Holds(w, u) && u.answers != [] && u.tail != []
    ensures Received(w, size) == (w.(toClient := Bytes(Next(u, size).0)), None)
  {
    MeetsNoHeader(u);
    RepliesHead(u.answers);
    if |u.tail| >= HEADER_SIZE {
      SplitBehind(u.tail, Replies(u.answers), HEADER_SIZE);
    } else {
      CutAcross(u.tail, Reply(u.answers[0]), Replies(u.answers[1..]));
    }
  }

  /** A read of the client's stream is the read of its unread answers: what is received and what is left. */
  lemma ReadsNext(w: World, u: Unread, size: nat)
    requires Holds(w, u) && u.answers != []
    ensures var (u', got) := Next(u, size);
            && Received(w, size).0 == w.(toClient := Bytes(u'))
            && Received(w, size).1 ==
               if got.Some? then Some((ResponseHeader(u.answers[0].id, u.answers[0].data), got.value)) else None
  {
    if u.tail == [] {
      ReadsWhole(w, u, size);
    } else {
      ReadsPiece(w, u, size);
    }
  }

  lemma NextIsSilent(u: Unread, size: nat)
    requires u.answers != [] && Silent(u.tail) && Quiet(u.answers[0])
    ensures Silent(Next(u, size).0.tail)
  {
    var a := u.answers[0];
    var body := ResponseBody(a.status, a.data);
    if |u.tail| >= HEADER_SIZE {
      SilentFrom(u.tail, HEADER_SIZE);
    } else if u.tail != [] {
      QuietFrom(a, HEADER_SIZE - |u.tail|);
    } else {
      assert Reply(a)[HEADER_SIZE..] == body;
      QuietFrom(a, HEADER_SIZE);
      SilentFrom(body, ReplyLength(a.data));
    }
  }

  // ---------------------------------------------------------------- one exchange

  /** The unread answers once the service has answered. */
  function Joining(u: Unread, served: seq<Answer>): Unread {
    Unread(u.tail, u.answers + served)
  }

  lemma SendsBehind(w: World, u: Unread, h: Header, payload: seq<Byte>, now: Uint64, reg: seq<Client>,
                    served: seq<Answer>)
    requires Holds(w, u) && Drained(w.registry, EncodeHeader(h) + payload, now) == (reg, Replies(served))
    ensures Sent(w, h, payload, now) == World(reg, [], Bytes(Joining(u, served)), true)
  {
    SentBehind(w, h, payload, now, reg, Replies(served));
    RepliesAppend(u.answers, served);
    Associate(u.tail, Replies(u.answers), Replies(served));
  }

  /** An exchange: the new answers join the unread ones, and the next read takes what comes first. */
  lemma ExchangesNext(w: World, u: Unread, command: Uint16, payload: seq<Byte>, size: nat, now: Uint64,
                      reg: seq<Client>, served: seq<Answer>)
    requires Holds(w, u) && served != []
    requires Drained(w.registry, EncodeHeader(InitHeader(command, Wrap32(|payload|), 1)) + Transmitted(payload), now)
             == (reg, Replies(served))
    ensures var v := Joining(u, served);
            var (u', got) := Next(v, size);
            Exchanged(w, command, payload, size, now) ==
            (World(reg, [], Bytes(u'), true),
             if got.Some? then Some((ResponseHeader(v.answers[0].id, v.answers[0].data), got.value)) else None)
  {
    var v := Joining(u, served);
    SendsBehind(w, u, InitHeader(command, Wrap32(|payload|), 1), Transmitted(payload), now, reg, served);
    ReadsNext(World(reg, [], Bytes(v), true), v, size);
  }

  lemma HoldsNothing(w: World)
    requires InStep(w)
    ensures Holds(w, Unread([], []))
  {
    RepliesNone();
  }

  lemma HoldsWhole(w: World, answers: seq<Answer>)
    ensures Lagging(w, answers) <==> Holds(w, Unread([], answers))
  {
    assert [] + Replies(answers) == Replies(answers);
  }
}
