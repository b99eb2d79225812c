/** ListClients: the service writes 273-byte records (src/ipc/ipc_server.c), the client parses them
    (src/ipc/ipc_client.c). The two undo each other on the record data; the client, as coded, parses from 8 bytes too
    early. */
module IpcListing {
  import opened Words
  import opened IpcCodec
  import opened IpcRegistry
  import opened IpcWire
  import opened IpcOutOfStep
  import opened IpcUnread

  // ---------------------------------------------------------------- one record

  function ParseRecord(bytes: seq<Byte>): Client
    requires |bytes| == RECORD_SIZE
  {
    Client(ReadI32(bytes[..4]), ReadU32(bytes[4..8]), ReadFlag(bytes[8..9]), ReadU64(bytes[9..17]), bytes[17..])
  }

  ghost predicate NamesFixed(reg: seq<Client>) {
    forall i :: 0 <= i < |reg| ==> |reg[i].name| == NAME_SIZE
  }

  lemma RecordFields(c: Client)
    requires |c.name| == NAME_SIZE
    ensures var r := Record(c);
            && |r| == RECORD_SIZE
            && r[..4] == I32(c.pid) && r[4..8] == U32(c.volume) && r[8..9] == Flag(c.muted)
            && r[9..17] == U64(c.connectedAt) && r[17..] == c.name
  {
  }

  lemma RecordRoundTrip(c: Client)
    requires |c.name| == NAME_SIZE
    ensures |Record(c)| == RECORD_SIZE && ParseRecord(Record(c)) == c
  {
    RecordFields(c);
    NumbersRoundTrip(0, c.volume, c.connectedAt, c.pid, c.muted);
  }

  lemma SignedRoundTrip(bytes: seq<Byte>)
    requires |bytes| == 4
    ensures I32(ReadI32(bytes)) == bytes
  {
    EncodeDecode(bytes);
    SignedAsUnsigned(ReadU32(bytes));
  }

  lemma SignedAsUnsigned(x: Uint32)
    ensures Wrap32(if x < 0x8000_0000 then x else x - U32_SIZE) == x
  {
  }

  /** Every 273 bytes whose mute byte is a C bool are some record's encoding. */
  lemma RecordBytesRoundTrip(bytes: seq<Byte>)
    requires |bytes| == RECORD_SIZE && bytes[8] <= 1
    ensures Record(ParseRecord(bytes)) == bytes
  {
    FieldsRoundTrip(bytes[..4], bytes[4..8], bytes[8..9], bytes[9..17]);
    FiveParts(bytes);
  }

  lemma FieldsRoundTrip(a: seq<Byte>, b: seq<Byte>, c: seq<Byte>, d: seq<Byte>)
    requires |a| == 4 && |b| == 4 && |c| == 1 && c[0] <= 1 && |d| == 8
    ensures I32(ReadI32(a)) == a && U32(ReadU32(b)) == b && Flag(ReadFlag(c)) == c && U64(ReadU64(d)) == d
  {
    SignedRoundTrip(a);
    EncodeDecode(b);
    EncodeDecode(d);
  }

  lemma FiveParts(bytes: seq<Byte>)
    requires |bytes| >= 17
    ensures bytes == bytes[..4] + bytes[4..8] + bytes[8..9] + bytes[9..17] + bytes[17..]
  {
  }

  // ---------------------------------------------------------------- the whole list

  /** The first `n` records of `bytes`. */
  function ParseRecords(bytes: seq<Byte>, n: nat): (list: seq<Client>)
    requires RECORD_SIZE * n <= |bytes|
    ensures |list| == n
  {
    if n == 0 then []
    else ParseRecords(bytes, n - 1) + [ParseRecord(bytes[RECORD_SIZE * (n - 1)..RECORD_SIZE * (n - 1) + RECORD_SIZE])]
  }

  lemma {:induction false} RecordsLength(reg: seq<Client>)
    requires NamesFixed(reg)
    ensures |Records(reg)| == RECORD_SIZE * |reg|
  {
    if reg != [] {
      RecordsLength(reg[..|reg| - 1]);
      RecordFields(reg[|reg| - 1]);
    }
  }

  lemma {:induction false} ParseOfPrefix(bytes: seq<Byte>, tail: seq<Byte>, n: nat)
    requires RECORD_SIZE * n <= |bytes|
    ensures ParseRecords(bytes + tail, n) == ParseRecords(bytes, n)
  {
    if n > 0 {
      ParseOfPrefix(bytes, tail, n - 1);
      var at := RECORD_SIZE * (n - 1);
      assert (bytes + tail)[at..at + RECORD_SIZE] == bytes[at..at + RECORD_SIZE];
    }
  }

  lemma ParseAppended(bytes: seq<Byte>, record: seq<Byte>, n: nat)
    requires |bytes| == RECORD_SIZE * n && |record| == RECORD_SIZE
    ensures ParseRecords(bytes + record, n + 1) == ParseRecords(bytes, n) + [ParseRecord(record)]
  {
    ParseOfPrefix(bytes, record, n);
    var at := RECORD_SIZE * n;
    assert (bytes + record)[at..at + RECORD_SIZE] == record;
  }

  /** Parsing the data section gives back the registry. */
  lemma {:induction false} ListRoundTrip(reg: seq<Client>)
    requires NamesFixed(reg)
    ensures |Records(reg)| == RECORD_SIZE * |reg| && ParseRecords(Records(reg), |reg|) == reg
  {
    RecordsLength(reg);
    if reg != [] {
      var n := |reg| - 1;
      ListRoundTrip(reg[..n]);
      RecordRoundTrip(reg[n]);
      ParseAppended(Records(reg[..n]), Record(reg[n]), n);
      assert reg == reg[..n] + [reg[n]];
    }
  }

  /** Every record's mute byte is a C bool. */
  ghost predicate FlagsAreBools(bytes: seq<Byte>, n: nat)
    requires RECORD_SIZE * n <= |bytes|
  {
    forall i :: 0 <= i < n ==> bytes[RECORD_SIZE * i + 8] <= 1
  }

  lemma RecordsSnoc(list: seq<Client>, c: Client)
    ensures Records(list + [c]) == Records(list) + Record(c)
  {
    assert (list + [c])[..|list|] == list;
  }

  lemma RecordAt(bytes: seq<Byte>, at: nat)
    requires at + RECORD_SIZE <= |bytes| && bytes[at + 8] <= 1
    ensures bytes[..at + RECORD_SIZE] == bytes[..at] + Record(ParseRecord(bytes[at..at + RECORD_SIZE]))
  {
    var record := bytes[at..at + RECORD_SIZE];
    assert record[8] == bytes[at + 8];
    RecordBytesRoundTrip(record);
    assert bytes[..at + RECORD_SIZE] == bytes[..at] + record;
  }

  /** And writing what was parsed gives back the data section. */
  lemma {:induction false} ListBytesRoundTrip(bytes: seq<Byte>, n: nat)
    requires RECORD_SIZE * n <= |bytes| && FlagsAreBools(bytes, n)
    ensures Records(ParseRecords(bytes, n)) == bytes[..RECORD_SIZE * n]
  {
    if n > 0 {
      ListBytesRoundTrip(bytes, n - 1);
      var at := RECORD_SIZE * (n - 1);
      RecordAt(bytes, at);
      RecordsSnoc(ParseRecords(bytes, n - 1), ParseRecord(bytes[at..at + RECORD_SIZE]));
    }
  }

  // ---------------------------------------------------------------- the reply

  /** The 32-bit length of the records sent for `n` applications. */
  function ListLength(n: nat): Uint32 {
    Wrap32(RECORD_SIZE * Wrap32(n))
  }

  /** The 32-bit length in the header of that reply. */
  function ListReplyLength(n: nat): Uint32 {
    Wrap32(RESPONSE_SIZE + ListLength(n))
  }

  lemma WholePrefix<T>(s: seq<T>)
    ensures s[..|s|] == s
  {
  }

  lemma Wrap32Below(x: nat)
    ensures Wrap32(x) <= x
    ensures x < U32_SIZE ==> Wrap32(x) == x
  {
  }

  lemma ListDataLength(reg: seq<Client>)
    requires NamesFixed(reg)
    ensures |ListData(reg)| == ListLength(|reg|)
  {
    Wrap32Below(|reg|);
    var listed := reg[..Wrap32(|reg|)];
    RecordsLength(listed);
    Wrap32Below(RECORD_SIZE * |listed|);
  }

  /** A list whose reply is below the width of the length field is sent whole. */
  predicate Narrow(n: nat) {
    RESPONSE_SIZE + RECORD_SIZE * n < U32_SIZE
  }

  lemma NarrowLength(n: nat)
    requires Narrow(n)
    ensures ListLength(n) == RECORD_SIZE * n && ListReplyLength(n) == RESPONSE_SIZE + RECORD_SIZE * n
    ensures ListReplyLength(n) / RECORD_SIZE == n
    ensures ListReplyLength(n) <= MAX_PAYLOAD <==> n <= 14
  {
    Wrap32Below(n);
    Wrap32Below(RECORD_SIZE * n);
    Wrap32Below(RESPONSE_SIZE + RECORD_SIZE * n);
  }

  lemma NarrowDataIsRecords(reg: seq<Client>)
    requires NamesFixed(reg) && Narrow(|reg|)
    ensures ListData(reg) == Records(reg) && |Records(reg)| == RECORD_SIZE * |reg|
  {
    RecordsLength(reg);
    Wrap32Below(|reg|);
    Wrap32Below(RECORD_SIZE * |reg|);
    WholePrefix(reg);
    WholePrefix(Records(reg));
  }

  /** The reply passes the client's header check exactly when its wrapped length is within the payload limit. Below the
      width of the length field that is for at most 14 applications, and the client's division of the whole payload
      length yields their number. */
  lemma ListReplyFits(reg: seq<Client>)
    requires NamesFixed(reg)
    ensures var h := ResponseHeader(1, ListData(reg));
            && (ValidHeader(h) <==> ListReplyLength(|reg|) <= MAX_PAYLOAD)
            && (Narrow(|reg|) ==> (ValidHeader(h) <==> |reg| <= 14) && h.payloadLen / RECORD_SIZE == |reg|)
  {
    ListDataLength(reg);
    if Narrow(|reg|) {
      NarrowLength(|reg|);
    }
  }

  /** Beyond that width the check can pass again: it does for 15732481 applications, whose reply claims 25 bytes. */
  lemma LongListPasses()
    ensures ListReplyLength(15732481) == 25 <= MAX_PAYLOAD && !Narrow(15732481)
  {
    assert RECORD_SIZE * 15732481 == U32_SIZE + 17;
  }

  // ---------------------------------------------------------------- the client, as coded

  /** ipc_client_list_apps: the records are read from the start of the payload. */
  function ListApps(w: World, now: Uint64): (World, Option<seq<Client>>) {
    var (w', reply) := Exchanged(w, CMD_LIST_CLIENTS, [], MAX_PAYLOAD, now);
    match reply
    case None => (w', None)
    case Some((h, body)) =>
      if h.command != CMD_RESPONSE then (w', None)
      else (w', Some(ParseRecords(body, |body| / RECORD_SIZE)))
  }

  /** What the client makes of the reply in step: as many bytes as the header claims, if that is within the limit. */
  lemma ListExchange(w: World, now: Uint64, body: seq<Byte>, p: Uint32)
    requires InStep(w) && NamesFixed(w.registry)
    requires body == ResponseBody(STATUS_OK, ListData(w.registry)) && p == ListReplyLength(|w.registry|)
    ensures |body| == RESPONSE_SIZE + ListLength(|w.registry|) && p <= |body|
    ensures ListApps(w, now) ==
            if p <= MAX_PAYLOAD
            then (w.(toClient := body[p..] + []), Some(ParseRecords(body[..p], p / RECORD_SIZE)))
            else (w.(toClient := body + []), None)
  {
    var reg := w.registry;
    ListDataLength(reg);
    Wrap32Below(RESPONSE_SIZE + ListLength(|reg|));
    ExchangeInStep(w, CMD_LIST_CLIENTS, [], MAX_PAYLOAD, now, reg, STATUS_OK, ListData(reg));
  }

  /** What the client takes for the first record: the response's own fields, then the true record 8 bytes late. */
  lemma ShiftedRecord(c: Client, n: nat, rest: seq<Byte>)
    requires |c.name| == NAME_SIZE
    ensures var first := (I32(STATUS_OK) + U32(Wrap32(n)) + (Record(c) + rest))[..RECORD_SIZE];
            && first[..4] == I32(STATUS_OK) && first[4..8] == U32(Wrap32(n))
            && first[9] == I32(c.pid)[1] && first[12] == U32(c.volume)[0]
            && first[17..25] == U64(c.connectedAt)
  {
    RecordFields(c);
    ReadLate(I32(STATUS_OK), U32(Wrap32(n)), Record(c), rest);
    assert Record(c)[1] == Record(c)[..4][1] && Record(c)[4] == Record(c)[4..8][0];
  }

  lemma ReadLate(a: seq<Byte>, b: seq<Byte>, record: seq<Byte>, rest: seq<Byte>)
    requires |a| == 4 && |b| == 4 && |record| == RECORD_SIZE
    ensures var first := (a + b + (record + rest))[..RECORD_SIZE];
            && first[..4] == a && first[4..8] == b && first[9] == record[1] && first[12] == record[4]
            && first[17..25] == record[9..17]
  {
  }

  lemma {:induction false} ParseHead(bytes: seq<Byte>, n: nat)
    requires 0 < n && RECORD_SIZE * n <= |bytes|
    ensures ParseRecords(bytes, n)[0] == ParseRecord(bytes[..RECORD_SIZE])
  {
    if n > 1 {
      ParseHead(bytes, n - 1);
    }
  }

  lemma {:induction false} RecordsHead(reg: seq<Client>) returns (rest: seq<Byte>)
    requires reg != []
    ensures Records(reg) == Record(reg[0]) + rest
  {
    if |reg| == 1 {
      rest := [];
    } else {
      var before := RecordsHead(reg[..|reg| - 1]);
      rest := before + Record(reg[|reg| - 1]);
    }
  }

  /** The first bytes of the numbers a record would have to hold to be read 8 bytes late as itself. */
  lemma FirstBytes(n: nat)
    requires 1 <= n <= 14
    ensures I32(0)[1] == 0 && U32(RECORD_SIZE * n)[0] != 0
  {
    assert ToLe(0, 4) == [0] + ToLe(0, 3) && ToLe(0, 3) == [0] + ToLe(0, 2);
    assert U32(RECORD_SIZE * n)[0] == RECORD_SIZE * n % 256;
    LowByte(n);
  }

  lemma LowByte(n: nat)
    requires 1 <= n <= 14
    ensures RECORD_SIZE * n % 256 == 17 * n
  {
    RestOf(RECORD_SIZE * n, n, 17 * n);
  }

  lemma RestOf(x: nat, q: nat, r: nat)
    requires x == 256 * q + r && r < 256
    ensures x % 256 == r
  {
  }

  /** A record read 8 bytes late as itself would begin its name with the bytes before its time. */
  lemma ReadAsItself(c: Client, first: seq<Byte>)
    requires |c.name| == NAME_SIZE && |first| == RECORD_SIZE
    requires first[17..25] == U64(c.connectedAt) && ParseRecord(first) == c
    ensures c.name[0] == first[9] && c.name[3] == first[12]
  {
    EncodeDecode(first[9..17]);
    assert c.name[0] == first[17..25][0] == first[9..17][0];
    assert c.name[3] == first[17..25][3] == first[9..17][3];
  }

  /** No record with a stored name is read as itself. */
  lemma ShiftedIsOther(c: Client, n: nat, first: seq<Byte>)
    requires Padded(c.name) && 1 <= n <= 14 && |first| == RECORD_SIZE
    requires first[..4] == I32(STATUS_OK) && first[4..8] == U32(RECORD_SIZE * n)
    requires first[9] == I32(c.pid)[1] && first[12] == U32(c.volume)[0] && first[17..25] == U64(c.connectedAt)
    ensures ParseRecord(first).pid == 0 && ParseRecord(first).volume == RECORD_SIZE * n
    ensures ParseRecord(first) != c
  {
    NumbersRoundTrip(0, RECORD_SIZE * n, 0, STATUS_OK, false);
    if ParseRecord(first) == c {
      FirstBytes(n);
      ReadAsItself(c, first);
      assert false;
    }
  }

  /** Parsing from the start of the payload is not the inverse of writing: its first record is the response's own status
      and data length. */
  lemma ParsedAsCodedIsOther(reg: seq<Client>)
    requires NamesPadded(reg) && 1 <= |reg| <= 14
    ensures |Records(reg)| == RECORD_SIZE * |reg|
    ensures var list := ParseRecords(ResponseBody(STATUS_OK, Records(reg)), |reg|);
            list[0].pid == 0 && list[0].volume == RECORD_SIZE * |reg| && list != reg
  {
    RecordsLength(reg);
    var n, body := |reg|, ResponseBody(STATUS_OK, Records(reg));
    var rest := RecordsHead(reg);
    Wrap32Below(RECORD_SIZE * n);
    ShiftedRecord(reg[0], RECORD_SIZE * n, rest);
    ParseHead(body, n);
    ShiftedIsOther(reg[0], n, body[..RECORD_SIZE]);
  }

  lemma NarrowOther(reg: seq<Client>, body: seq<Byte>, p: Uint32)
    requires NamesPadded(reg) && 1 <= |reg| <= 14
    requires body == ResponseBody(STATUS_OK, ListData(reg)) && p == ListReplyLength(|reg|)
    ensures p == |body| && p / RECORD_SIZE == |reg|
    ensures ParseRecords(body[..p], p / RECORD_SIZE) != reg
  {
    NarrowLength(|reg|);
    NarrowDataIsRecords(reg);
    WholePrefix(body);
    ParsedAsCodedIsOther(reg);
  }

  lemma PaddedAreFixed(reg: seq<Client>)
    requires NamesPadded(reg)
    ensures NamesFixed(reg)
  {
  }

  lemma ShortRepliesAreNarrow(n: nat, p: Uint32)
    requires p == ListReplyLength(n) && p <= MAX_PAYLOAD && p / RECORD_SIZE == n
    ensures n <= 14
  {
    NarrowLength(n);
  }

  /** The call as coded, in every in-step state, with any number of applications: it returns a list exactly when the
      reply's wrapped length is within the limit, keeps the streams in step exactly when the true length is, and the
      list it returns is the registry only when that is empty. */
  lemma ListAppsAsCoded(w: World, now: Uint64)
    requires InStep(w) && NamesPadded(w.registry)
    ensures var (w', list) := ListApps(w, now);
            var n := |w.registry|;
            && w'.registry == w.registry
            && (list.Some? <==> ListReplyLength(n) <= MAX_PAYLOAD)
            && (InStep(w') <==> RESPONSE_SIZE + ListLength(n) <= MAX_PAYLOAD)
            && (list.Some? ==> |list.value| == ListReplyLength(n) / RECORD_SIZE)
            && (list == Some(w.registry) <==> w.registry == [])
  {
    var n, body, p := |w.registry|, ResponseBody(STATUS_OK, ListData(w.registry)), ListReplyLength(|w.registry|);
    PaddedAreFixed(w.registry);
    ListExchange(w, now, body, p);
    LeftBehind(n, body, p);
    if p <= MAX_PAYLOAD && p / RECORD_SIZE == n && n != 0 {
      ShortRepliesAreNarrow(n, p);
      NarrowOther(w.registry, body, p);
    }
  }

  lemma LeftBehind(n: nat, body: seq<Byte>, p: Uint32)
    requires p == ListReplyLength(n) && |body| == RESPONSE_SIZE + ListLength(n) && p <= |body|
    ensures RESPONSE_SIZE + ListLength(n) <= MAX_PAYLOAD <==> p <= MAX_PAYLOAD && body[p..] + [] == []
    ensures body + [] != []
  {
    Wrap32Below(RESPONSE_SIZE + ListLength(n));
  }

  /** For all but absurdly many applications: up to 14 the list has the right length and the streams stay in step, from
      15 on the call fails and leaves the reply's body behind. */
  lemma ListAppsNarrow(w: World, now: Uint64)
    requires InStep(w) && NamesPadded(w.registry) && Narrow(|w.registry|)
    ensures var (w', list) := ListApps(w, now);
            && (list.Some? <==> |w.registry| <= 14) && (InStep(w') <==> |w.registry| <= 14)
            && (list.Some? ==> |list.value| == |w.registry|)
  {
    ListAppsAsCoded(w, now);
    NarrowLength(|w.registry|);
  }

  // ---------------------------------------------------------------- listings with anything unread

  /** The service's answer to a listing. */
  function ListAnswer(reg: seq<Client>): Answer {
    Answer(1, STATUS_OK, ListData(reg))
  }

  lemma ListServed(reg: seq<Client>, now: Uint64)
    ensures Drained(reg, EncodeHeader(InitHeader(CMD_LIST_CLIENTS, 0, 1)) + [], now)
            == (reg, Replies([ListAnswer(reg)]))
  {
    RepliesOne(ListAnswer(reg));
    ServesOne(reg, CMD_LIST_CLIENTS, [], now, reg, STATUS_OK, ListData(reg));
  }

  /** Whatever is unread, a listing leaves the registry alone, and reads what comes first. */
  lemma ListReads(w: World, u: Unread, now: Uint64)
    requires Holds(w, u)
    ensures var (u', got) := Next(Joining(u, [ListAnswer(w.registry)]), MAX_PAYLOAD);
            ListApps(w, now) ==
            (World(w.registry, [], Bytes(u'), true),
             if got.Some? then Some(ParseRecords(got.value, |got.value| / RECORD_SIZE)) else None)
  {
    ListServed(w.registry, now);
    assert Transmitted([]) == [];
    ExchangesNext(w, u, CMD_LIST_CLIENTS, [], MAX_PAYLOAD, now, w.registry, [ListAnswer(w.registry)]);
  }

  /** On a connection that is behind, the oldest unread answer is taken for the list, whatever it answers and even if it
      is an error: its length field, within the limit, says how many records are read. In the middle of a reply there is
      no list. */
  lemma ListAppsBehind(w: World, u: Unread, now: Uint64)
    requires Holds(w, u) && Bytes(u) != []
    ensures var (w', list) := ListApps(w, now);
            && w'.registry == w.registry
            && (list.Some? <==> u.tail == [] && ReplyLength(u.answers[0].data) <= MAX_PAYLOAD)
            && (list.Some? ==> |list.value| == ReplyLength(u.answers[0].data) / RECORD_SIZE)
  {
    if u.tail == [] && u.answers == [] {
      RepliesNone();
    }
    ListReads(w, u, now);
  }

  /** Below the width of the length field the oldest answer is read as (8 + data) / 273 records: none for an answer
      without data, and as many as there were applications for that of an earlier listing. */
  lemma ListAppsLagging(w: World, answers: seq<Answer>, now: Uint64)
    requires Lagging(w, answers) && answers != [] && RESPONSE_SIZE + |answers[0].data| <= MAX_PAYLOAD
    ensures var (w', list) := ListApps(w, now);
            && w'.registry == w.registry && Lagging(w', answers[1..] + [ListAnswer(w.registry)])
            && list.Some? && |list.value| == (RESPONSE_SIZE + |answers[0].data|) / RECORD_SIZE
            && (answers[0].data == [] ==> list.value == [])
  {
    var a, own := answers[0], ListAnswer(w.registry);
    var body := ResponseBody(a.status, a.data);
    HoldsWhole(w, answers);
    ListReads(w, Unread([], answers), now);
    assert body[|body|..] == [] && (answers + [own])[1..] == answers[1..] + [own];
    HoldsWhole(ListApps(w, now).0, answers[1..] + [own]);
  }

  /** Of two listings on a connection one bare answer behind, the first finds no application and the second as many as
      there are, up to 14: it reads the first one's answer. */
  lemma SecondListing(w: World, a: Answer, now: Uint64, later: Uint64)
    requires Lagging(w, [a]) && a.data == [] && NamesPadded(w.registry) && |w.registry| <= 14
    ensures var (w', first) := ListApps(w, now);
            var second := ListApps(w', later).1;
            first == Some([]) && second.Some? && |second.value| == |w.registry|
  {
    PaddedAreFixed(w.registry);
    NarrowDataIsRecords(w.registry);
    ListAppsLagging(w, [a], now);
    assert [a][1..] + [ListAnswer(w.registry)] == [ListAnswer(w.registry)];
    ListAppsLagging(ListApps(w, now).0, [ListAnswer(w.registry)], later);
  }

  /** A listing in step of 15 applications or more leaves the body of its answer behind. */
  lemma ListLeaves(w: World, now: Uint64)
    requires InStep(w) && NamesPadded(w.registry) && Narrow(|w.registry|) && |w.registry| >= 15
    ensures var a := ListAnswer(w.registry);
            ListApps(w, now) == (World(w.registry, [], Bytes(Unread(ResponseBody(a.status, a.data), [])), true), None)
  {
    var a := ListAnswer(w.registry);
    PaddedAreFixed(w.registry);
    NarrowLength(|w.registry|);
    ListDataLength(w.registry);
    HoldsNothing(w);
    ListReads(w, Unread([], []), now);
    assert Joining(Unread([], []), [a]).answers == [a];
  }

  // ---------------------------------------------------------------- names stay padded

  /** Whatever message the service handles, every name it stores stays padded. */
  lemma DispatchKeepsNames(reg: seq<Client>, command: Uint16, payload: seq<Byte>, now: Uint64)
    requires NamesPadded(reg)
    ensures NamesPadded(Dispatch(reg, command, payload, now).0)
  {
    if command == CMD_REGISTER && |payload| >= 9 {
      StoredNameIsPadded(payload[9..]);
    }
  }

  /** So they are in every registry the service reaches, over any byte stream. */
  lemma {:induction false} DrainedKeepsNames(reg: seq<Client>, stream: seq<Byte>, now: Uint64)
    requires NamesPadded(reg)
    ensures NamesPadded(Drained(reg, stream, now).0)
    decreases |stream|
  {
    if stream != [] {
      if |stream| >= HEADER_SIZE {
        var h, rest := DecodeHeader(stream[..HEADER_SIZE]), stream[HEADER_SIZE..];
        if ValidHeader(h) && h.payloadLen <= |rest| {
          DispatchKeepsNames(reg, h.command, rest[..h.payloadLen], now);
        }
      }
      var (reg', rest, _) := Handled(reg, stream, now);
      DrainedKeepsNames(reg', rest, now);
    }
  }
}
