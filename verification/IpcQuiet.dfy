/** No reply of the service looks, from any place inside it, like the start of a message (src/ipc/ipc_server.c): always
    for replies without data and for volumes, and for lists of applications with ordinary names, pids and volumes. */
module IpcQuiet {
  import opened Words
  import opened IpcCodec
  import opened IpcRegistry
  import opened IpcWire
  import opened IpcOutOfStep
  import opened IpcUnread
  import opened IpcVolumeQuery
  import opened IpcListing

  // ---------------------------------------------------------------- the first bytes of a message

  /** What the first eight bytes of every valid header look like: magic number, version, and a command that is not 0. */
  predicate LooksValid(piece: seq<Byte>)
    requires |piece| >= 8
  {
    && piece[0] == 0x43 && piece[1] == 0x50 && piece[2] == 0x49 && piece[3] == 0x41
    && piece[4] == 1 && piece[5] == 0 && (piece[6] != 0 || piece[7] != 0)
  }

  lemma ByteByByte(x: Uint32)
    ensures U32(x) == [x % 256, x / 256 % 256, x / 256 / 256 % 256, x / 256 / 256 / 256 % 256]
  {
    assert U32(x) == [x % 256] + ToLe(x / 256, 3);
    assert ToLe(x / 256, 3) == [x / 256 % 256] + ToLe(x / 256 / 256, 2);
    assert ToLe(x / 256 / 256, 2) == [x / 256 / 256 % 256] + ToLe(x / 256 / 256 / 256, 1);
    assert ToLe(x / 256 / 256 / 256, 1) == [x / 256 / 256 / 256 % 256] + [];
  }

  lemma TwoBytes(x: Uint16)
    ensures U16(x) == [x % 256, x / 256]
  {
    assert U16(x) == [x % 256] + ToLe(x / 256, 1);
    assert ToLe(x / 256, 1) == [x / 256 % 256] + [];
  }

  lemma ValidLooksValid(piece: seq<Byte>)
    requires |piece| == HEADER_SIZE && ValidHeader(DecodeHeader(piece))
    ensures LooksValid(piece)
  {
    var h := DecodeHeader(piece);
    HeaderBytesRoundTrip(piece);
    HeaderParts(U32(h.magic), U16(h.version), U16(h.command), U32(h.payloadLen), U32(h.requestId));
    ByteByByte(MAGIC);
    TwoBytes(VERSION);
    TwoBytes(h.command);
    assert piece[0..4] == U32(MAGIC) && piece[4..6] == U16(VERSION) && piece[6..8] == U16(h.command);
    assert piece[4] == piece[4..6][0] && piece[5] == piece[4..6][1];
    assert piece[6] == piece[6..8][0] && piece[7] == piece[6..8][1];
  }

  /** Enough for a reply to be quiet: from no place after its first byte do its bytes, with those of a message behind
      them, look valid. */
  ghost predicate Dull(bytes: seq<Byte>) {
    forall next: seq<Byte>, k: nat ::
      |next| == HEADER_SIZE && next[0] == 0x43 && 1 <= k < |bytes| ==> !LooksValid((bytes + next)[k..])
  }

  lemma DullIsQuiet(a: Answer)
    requires Dull(Reply(a))
    ensures Quiet(a)
  {
    var inside := Reply(a)[1..];
    forall h: Header, k: nat | h.magic == MAGIC && k < |inside|
      ensures !ValidHeader(HeaderAt(inside + EncodeHeader(h), k))
    {
      var next := EncodeHeader(h);
      var piece := (inside + next)[k..k + HEADER_SIZE];
      HeaderParts(U32(h.magic), U16(h.version), U16(h.command), U32(h.payloadLen), U32(h.requestId));
      ByteByByte(MAGIC);
      assert next[0] == next[0..4][0];
      assert !LooksValid((Reply(a) + next)[k + 1..]);
      assert forall i :: 0 <= i < HEADER_SIZE ==> piece[i] == (Reply(a) + next)[k + 1..][i];
      if ValidHeader(DecodeHeader(piece)) {
        ValidLooksValid(piece);
      }
    }
  }

  // ---------------------------------------------------------------- the head of a reply

  /** The ids and statuses the service uses. */
  predicate Usual(a: Answer) {
    a.id < 2 && -8 < a.status <= 0
  }

  const HEAD: nat := HEADER_SIZE + RESPONSE_SIZE

  /** The 24 bytes in front of the data, as far as they matter: no place but the first begins like the magic number. */
  ghost predicate HeadOk(bytes: seq<Byte>) {
    && |bytes| >= HEAD
    && (forall i :: 1 <= i < 8 || 12 <= i < 20 ==> bytes[i] != 0x43)
    && bytes[11] == 0 && bytes[23] == 0 && bytes[12] != 0x50 && bytes[12] != 0x49 && bytes[13] != 0x49
    && bytes[12] != 0x41 && bytes[13] != 0x41 && bytes[14] != 0x41
  }

  lemma SmallBytes(x: Uint32)
    requires x < 16 || x >= U32_SIZE - 8
    ensures forall i :: 0 <= i < 4 ==> U32(x)[i] < 0x10 || U32(x)[i] >= 0xF0
  {
    ByteByByte(x);
  }

  lemma NarrowBytes(x: Uint32)
    requires x < 0x100_0000
    ensures U32(x)[3] == 0
  {
    ByteByByte(x);
  }

  lemma HeadOfReply(a: Answer)
    requires Usual(a) && RESPONSE_SIZE + |a.data| < 0x100_0000
    ensures HeadOk(Reply(a)) && Reply(a)[..HEAD] + a.data == Reply(a)
  {
    var p, n := Wrap32(RESPONSE_SIZE + |a.data|), Wrap32(|a.data|);
    assert p < 0x100_0000 && n < 0x100_0000;
    FixedBytes();
    NarrowBytes(p);
    NarrowBytes(n);
    SmallBytes(a.id);
    SmallStatus(a.status);
    SevenParts(U32(MAGIC), U16(VERSION), U16(CMD_RESPONSE), U32(p), U32(a.id), I32(a.status), U32(n), a.data);
  }

  lemma FixedBytes()
    ensures U32(MAGIC)[1] == 0x50 && U32(MAGIC)[2] == 0x49 && U32(MAGIC)[3] == 0x41
    ensures U16(VERSION) == [1, 0] && U16(CMD_RESPONSE) == [0, 0x80]
  {
    ByteByByte(MAGIC);
    TwoBytes(VERSION);
    TwoBytes(CMD_RESPONSE);
  }

  lemma SmallStatus(status: Pid)
    requires -8 < status <= 0
    ensures forall i :: 0 <= i < 4 ==> I32(status)[i] < 0x10 || I32(status)[i] >= 0xF0
  {
    SmallBytes(Wrap32(status));
    assert I32(status) == U32(Wrap32(status));
  }

  lemma SevenParts(m: seq<Byte>, v: seq<Byte>, c: seq<Byte>, p: seq<Byte>, i: seq<Byte>, s: seq<Byte>, n: seq<Byte>,
                   data: seq<Byte>)
    requires |m| == 4 && |v| == 2 && |c| == 2 && |p| == 4 && |i| == 4 && |s| == 4 && |n| == 4
    requires m[1] == 0x50 && m[2] == 0x49 && m[3] == 0x41 && v == [1, 0] && c == [0, 0x80] && p[3] == 0 && n[3] == 0
    requires forall k :: 0 <= k < 4 ==> i[k] < 0x10 || i[k] >= 0xF0
    requires forall k :: 0 <= k < 4 ==> s[k] < 0x10 || s[k] >= 0xF0
    ensures var bytes := (m + v + c + p + i) + (s + n + data); HeadOk(bytes) && bytes[..HEAD] + data == bytes
  {
  }

  lemma HeadIsDull(bytes: seq<Byte>, next: seq<Byte>, k: nat)
    requires HeadOk(bytes) && 1 <= k < HEAD && k != 20 && k != 21 && k != 22 && |next| == HEADER_SIZE
    ensures !LooksValid((bytes + next)[k..])
  {
    var piece := (bytes + next)[k..];
    assert piece[0] == bytes[k];
    if 8 <= k < 12 {
      assert piece[11 - k] == bytes[11] == 0;
    }
  }

  /** The last four bytes of the head are the data length, whose high byte is zero. */
  lemma DataLengthIsDull(bytes: seq<Byte>, next: seq<Byte>, k: nat)
    requires HeadOk(bytes) && 20 <= k < HEAD && |next| == HEADER_SIZE
    ensures !LooksValid((bytes + next)[k..])
  {
    assert (bytes + next)[k..][23 - k] == bytes[23] == 0;
  }

  lemma HeadPart(bytes: seq<Byte>, next: seq<Byte>, k: nat)
    requires HeadOk(bytes) && 1 <= k < HEAD && |next| == HEADER_SIZE
    ensures !LooksValid((bytes + next)[k..])
  {
    if k >= 20 {
      DataLengthIsDull(bytes, next, k);
    } else {
      HeadIsDull(bytes, next, k);
    }
  }

  // ---------------------------------------------------------------- bare replies and volumes

  lemma BareIsQuiet(a: Answer)
    requires Usual(a) && a.data == []
    ensures Quiet(a)
  {
    HeadOfReply(a);
    forall next: seq<Byte>, k: nat | |next| == HEADER_SIZE && next[0] == 0x43 && 1 <= k < |Reply(a)|
      ensures !LooksValid((Reply(a) + next)[k..])
    {
      HeadPart(Reply(a), next, k);
    }
    DullIsQuiet(a);
  }

  /** A volume's nine bytes: a status of zero, the volume, the mute flag. Even a volume that spells the magic number is
      followed by the flag and the next message's first byte, which is no version. */
  lemma VolumeIsDull(bytes: seq<Byte>, next: seq<Byte>, k: nat)
    requires |bytes| == HEAD + 9 && (forall i :: 24 <= i < 28 ==> bytes[i] == 0) && bytes[32] <= 1
    requires HEAD <= k < |bytes| && |next| == HEADER_SIZE && next[0] == 0x43
    ensures !LooksValid((bytes + next)[k..])
  {
    var piece := (bytes + next)[k..];
    if k < 28 {
      assert piece[0] == 0;
    } else if k == 28 {
      assert piece[5] == next[0];
    } else {
      assert piece[32 - k] == bytes[32] <= 1;
    }
  }

  lemma VolumeBytes(head: seq<Byte>, volume: Uint32, muted: bool)
    requires |head| == HEAD
    ensures var bytes := head + VolumeData(volume, muted);
            (forall i :: 24 <= i < 28 ==> bytes[i] == 0) && bytes[32] <= 1
  {
    ByteByByte(0);
    assert I32(STATUS_OK) == U32(0) == [0, 0, 0, 0];
  }

  lemma VolumeIsQuiet(a: Answer, volume: Uint32, muted: bool)
    requires Usual(a) && a.data == VolumeData(volume, muted)
    ensures Quiet(a)
  {
    HeadOfReply(a);
    VolumeBytes(Reply(a)[..HEAD], volume, muted);
    forall next: seq<Byte>, k: nat | |next| == HEADER_SIZE && next[0] == 0x43 && 1 <= k < |Reply(a)|
      ensures !LooksValid((Reply(a) + next)[k..])
    {
      if k < HEAD {
        HeadPart(Reply(a), next, k);
      } else {
        VolumeIsDull(Reply(a), next, k);
      }
    }
    DullIsQuiet(a);
  }

  /** Whatever the service answers to a query is quiet. */
  lemma QueryAnswerIsQuiet(reg: seq<Client>, pid: Pid)
    ensures Quiet(QueryAnswer(reg, pid))
  {
    if Has(reg, pid) {
      var c := reg[Position(reg, pid)];
      VolumeIsQuiet(QueryAnswer(reg, pid), c.volume, c.muted);
    } else {
      BareIsQuiet(QueryAnswer(reg, pid));
    }
  }

  // ---------------------------------------------------------------- lists of ordinary applications

  /** An application no part of whose record spells a message: a pid below 2^24, a volume from 0 to 1, a name of at most
      253 bytes, a connection time below 2^46 ms and outside the 256 ms from 0x1_4149_5043_00 on, which spell the magic
      number. */
  ghost predicate Ordinary(c: Client) {
    && 0 <= c.pid < 0x100_0000 && c.volume <= FLOAT_ONE
    && c.connectedAt < 0x4000_0000_0000 && c.connectedAt / 256 != 0x1_4149_5043
    && Padded(c.name) && c.name[253] == 0
  }
  /** The numbers of an ordinary record: the high byte of the pid is zero, and those of volume and time are small. */
  ghost predicate NumbersOrdinary(r: seq<Byte>)
    requires |r| == RECORD_SIZE
  {
    && r[3] == 0 && r[7] < 0x40 && r[8] <= 1
    && r[14] < 0x40 && r[15] == 0 && r[16] == 0
    && !(r[10] == 0x43 && r[11] == 0x50 && r[12] == 0x49 && r[13] == 0x41 && r[14] == 1)
  }

  /** The name of an ordinary record: zero from its first zero on, and so at its end. */
  ghost predicate NameOrdinary(r: seq<Byte>)
    requires |r| == RECORD_SIZE
  {
    (forall i, j :: 17 <= i <= j < RECORD_SIZE && r[i] == 0 ==> r[j] == 0) && r[270] == 0
  }

  /** `piece` continues the record from its byte `at` on, as far as that goes. */
  ghost predicate Continues(r: seq<Byte>, at: nat, piece: seq<Byte>) {
    at < |r| && |piece| >= HEADER_SIZE && forall i :: 0 <= i < HEADER_SIZE && at + i < |r| ==> piece[i] == r[at + i]
  }

  lemma NumbersAreDull(r: seq<Byte>, at: nat, piece: seq<Byte>)
    requires |r| == RECORD_SIZE && NumbersOrdinary(r) && Continues(r, at, piece) && at < 17
    ensures !LooksValid(piece)
  {
    if at <= 3 {
      assert piece[3 - at] == r[3];
    } else if at <= 7 {
      assert piece[7 - at] == r[7];
    } else if at == 8 {
      assert piece[0] == r[8];
    } else if at == 9 {
      assert piece[6] == r[15] && piece[7] == r[16];
    } else if at == 10 {
      assert piece[0] == r[10] && piece[1] == r[11] && piece[2] == r[12] && piece[3] == r[13] && piece[4] == r[14];
    } else if at <= 14 {
      assert piece[14 - at] == r[14];
    } else {
      assert piece[16 - at] == r[16];
    }
  }

  lemma NameIsDull(r: seq<Byte>, at: nat, piece: seq<Byte>)
    requires |r| == RECORD_SIZE && NameOrdinary(r) && Continues(r, at, piece) && 17 <= at
    ensures !LooksValid(piece)
  {
    if at <= 265 {
      assert piece[5] == r[at + 5] && piece[6] == r[at + 6] && piece[7] == r[at + 7];
    } else if at <= 270 {
      assert piece[270 - at] == r[270];
    } else {
      assert piece[0] == r[at] == 0;
    }
  }

  lemma EightBytes(x: Uint64)
    requires x < 0x4000_0000_0000 && x / 256 != 0x1_4149_5043
    ensures var t := U64(x);
            && t[5] < 0x40 && t[6] == 0 && t[7] == 0
            && !(t[1] == 0x43 && t[2] == 0x50 && t[3] == 0x49 && t[4] == 0x41 && t[5] == 1)
  {
    var y := x / 256;
    var y1 := y / 256;
    var y2 := y1 / 256;
    var y3 := y2 / 256;
    var y4 := y3 / 256;
    SmallTime(x, y, y1, y2, y3, y4);
    assert U64(x) == [x % 256] + ToLe(y, 7);
    assert ToLe(y, 7) == [y % 256] + ToLe(y1, 6);
    assert ToLe(y1, 6) == [y1 % 256] + ToLe(y2, 5);
    assert ToLe(y2, 5) == [y2 % 256] + ToLe(y3, 4);
    assert ToLe(y3, 4) == [y3 % 256] + ToLe(y4, 3);
    assert ToLe(y4, 3) == [y4] + ToLe(0, 2);
    assert ToLe(0, 2) == [0] + ToLe(0, 1) && ToLe(0, 1) == [0] + [];
  }

  lemma SmallTime(x: Uint64, y: nat, y1: nat, y2: nat, y3: nat, y4: nat)
    requires x < 0x4000_0000_0000 && y == x / 256 && y != 0x1_4149_5043
    requires y1 == y / 256 && y2 == y1 / 256 && y3 == y2 / 256 && y4 == y3 / 256
    ensures y4 < 0x40
    ensures !(y % 256 == 0x43 && y1 % 256 == 0x50 && y2 % 256 == 0x49 && y3 % 256 == 0x41 && y4 == 1)
  {
    assert y == 256 * (256 * (256 * (256 * y4 + y3 % 256) + y2 % 256) + y1 % 256) + y % 256;
  }

  lemma RecordParts(a: seq<Byte>, b: seq<Byte>, c: seq<Byte>, d: seq<Byte>, e: seq<Byte>)
    requires |a| == 4 && |b| == 4 && |c| == 1 && |d| == 8 && |e| == NAME_SIZE
    ensures var r := a + b + c + d + e;
            && |r| == RECORD_SIZE && r[3] == a[3] && r[7] == b[3] && r[8] == c[0]
            && (forall i :: 9 <= i < 17 ==> r[i] == d[i - 9])
            && (forall i :: 17 <= i < RECORD_SIZE ==> r[i] == e[i - 17])
  {
  }

  lemma RecordIsOrdinary(c: Client)
    requires Ordinary(c)
    ensures |Record(c)| == RECORD_SIZE && NumbersOrdinary(Record(c)) && NameOrdinary(Record(c))
  {
    RecordParts(I32(c.pid), U32(c.volume), Flag(c.muted), U64(c.connectedAt), c.name);
    assert I32(c.pid) == U32(c.pid);
    ByteByByte(c.pid);
    ByteByByte(c.volume);
    EightBytes(c.connectedAt);
  }

  ghost predicate AllOrdinary(reg: seq<Client>) {
    forall i :: 0 <= i < |reg| ==> Ordinary(reg[i])
  }

  lemma OrdinaryAreFixed(reg: seq<Client>)
    requires AllOrdinary(reg)
    ensures NamesFixed(reg)
  {
  }

  lemma SplitAt(a: seq<Byte>, b: seq<Byte>, k: nat)
    ensures k < |a| ==> (a + b)[k] == a[k]
    ensures |a| <= k < |a| + |b| ==> (a + b)[k] == b[k - |a|]
  {
  }

  /** Byte `r` of record `i`. */
  lemma {:induction false} RecordsAt(reg: seq<Client>, i: nat, r: nat)
    requires NamesFixed(reg) && i < |reg| && r < RECORD_SIZE
    ensures |Records(reg)| == RECORD_SIZE * |reg| && |Record(reg[i])| == RECORD_SIZE
    ensures Records(reg)[RECORD_SIZE * i + r] == Record(reg[i])[r]
  {
    var n := |reg| - 1;
    RecordsLength(reg);
    RecordsLength(reg[..n]);
    SplitAt(Records(reg[..n]), Record(reg[n]), RECORD_SIZE * i + r);
    if i < n {
      RecordsAt(reg[..n], i, r);
    }
  }

  lemma RecordContinues(reg: seq<Client>, i: nat, r: nat, piece: seq<Byte>)
    requires NamesFixed(reg) && i < |reg| && r < RECORD_SIZE && Continues(Records(reg), RECORD_SIZE * i + r, piece)
    ensures Continues(Record(reg[i]), r, piece)
  {
    RecordsAt(reg, i, r);
    forall j: nat | j < HEADER_SIZE && r + j < RECORD_SIZE ensures piece[j] == Record(reg[i])[r + j] {
      RecordByte(reg, i, r, piece, j);
    }
  }

  lemma RecordByte(reg: seq<Client>, i: nat, r: nat, piece: seq<Byte>, j: nat)
    requires NamesFixed(reg) && i < |reg| && r < RECORD_SIZE && Continues(Records(reg), RECORD_SIZE * i + r, piece)
    requires j < HEADER_SIZE && r + j < RECORD_SIZE
    ensures |Record(reg[i])| == RECORD_SIZE && piece[j] == Record(reg[i])[r + j]
  {
    RecordsAt(reg, i, r + j);
    ContinuesAt(Records(reg), RECORD_SIZE * i + r, piece, j);
    assert RECORD_SIZE * i + r + j == RECORD_SIZE * i + (r + j);
  }

  lemma ContinuesAt(bytes: seq<Byte>, at: nat, piece: seq<Byte>, j: nat)
    requires Continues(bytes, at, piece) && j < HEADER_SIZE && at + j < |bytes|
    ensures piece[j] == bytes[at + j]
  {
  }

  lemma PlaceInRecords(at: nat, n: nat) returns (i: nat, r: nat)
    requires at < RECORD_SIZE * n
    ensures i < n && r < RECORD_SIZE && at == RECORD_SIZE * i + r
  {
    i, r := at / RECORD_SIZE, at % RECORD_SIZE;
  }

  lemma RecordsAreDull(reg: seq<Client>, at: nat, piece: seq<Byte>)
    requires AllOrdinary(reg) && Continues(Records(reg), at, piece) && |Records(reg)| == RECORD_SIZE * |reg|
    ensures !LooksValid(piece)
  {
    var i, r := PlaceInRecords(at, |reg|);
    OrdinaryAreFixed(reg);
    RecordIsOrdinary(reg[i]);
    RecordContinues(reg, i, r, piece);
    if r < 17 {
      NumbersAreDull(Record(reg[i]), r, piece);
    } else {
      NameIsDull(Record(reg[i]), r, piece);
    }
  }

  lemma ListBytes(reg: seq<Client>)
    requires AllOrdinary(reg) && |reg| <= 61000
    ensures ListData(reg) == Records(reg) && |Records(reg)| == RECORD_SIZE * |reg|
  {
    NarrowDataIsRecords(reg);
  }

  /** A list of up to 61000 ordinary applications is quiet. */
  lemma ListIsQuiet(reg: seq<Client>)
    requires AllOrdinary(reg) && |reg| <= 61000
    ensures Quiet(ListAnswer(reg))
  {
    var a := ListAnswer(reg);
    ListBytes(reg);
    HeadOfReply(a);
    forall next: seq<Byte>, k: nat | |next| == HEADER_SIZE && next[0] == 0x43 && 1 <= k < |Reply(a)|
      ensures !LooksValid((Reply(a) + next)[k..])
    {
      if k < HEAD {
        HeadPart(Reply(a), next, k);
      } else {
        ListPart(Reply(a), Reply(a)[..HEAD], reg, next, k);
      }
    }
    DullIsQuiet(a);
  }

  lemma ListPart(bytes: seq<Byte>, head: seq<Byte>, reg: seq<Client>, next: seq<Byte>, k: nat)
    requires AllOrdinary(reg) && |head| == HEAD && bytes == head + Records(reg) && |next| == HEADER_SIZE
    requires HEAD <= k < |bytes| && |Records(reg)| == RECORD_SIZE * |reg|
    ensures !LooksValid((bytes + next)[k..])
  {
    var piece := (bytes + next)[k..];
    forall j | 0 <= j < HEADER_SIZE && k - HEAD + j < |Records(reg)|
      ensures piece[j] == Records(reg)[k - HEAD + j]
    {
      assert piece[j] == bytes[k + j];
    }
    RecordsAreDull(reg, k - HEAD, piece);
  }
}
