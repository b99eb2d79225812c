/** The wire format of the IPC protocol (include/ipc/ipc_protocol.h): packed little-endian records. A float travels as
    its 32-bit pattern. */
module IpcCodec {
  import opened Words

  type Byte = x: int | 0 <= x < 256
  type Uint16 = x: int | 0 <= x < 0x1_0000
  type Pid = x: int | -0x8000_0000 <= x < 0x8000_0000

  lemma Associate(x: seq<Byte>, y: seq<Byte>, z: seq<Byte>)
    ensures (x + y) + z == x + (y + z)
  {
  }

  // ---------------------------------------------------------------- little-endian numbers

  function Power256(n: nat): (p: nat)
    ensures p > 0
  {
    if n == 0 then 1 else 256 * Power256(n - 1)
  }

  function ToLe(x: nat, n: nat): (bytes: seq<Byte>)
    ensures |bytes| == n
  {
    if n == 0 then [] else [x % 256] + ToLe(x / 256, n - 1)
  }

  function FromLe(bytes: seq<Byte>): (x: nat)
    ensures x < Power256(|bytes|)
  {
    if bytes == [] then 0 else bytes[0] + 256 * FromLe(bytes[1..])
  }

  lemma {:induction false} DecodeEncode(x: nat, n: nat)
    requires x < Power256(n)
    ensures FromLe(ToLe(x, n)) == x
  {
    if n > 0 {
      DecodeEncode(x / 256, n - 1);
      assert ToLe(x, n)[1..] == ToLe(x / 256, n - 1);
    }
  }

  lemma {:induction false} EncodeDecode(bytes: seq<Byte>)
    ensures ToLe(FromLe(bytes), |bytes|) == bytes
  {
    if bytes != [] {
      EncodeDecode(bytes[1..]);
      assert FromLe(bytes) % 256 == bytes[0] && FromLe(bytes) / 256 == FromLe(bytes[1..]);
    }
  }

  lemma Powers()
    ensures Power256(1) == 0x100 && Power256(2) == 0x1_0000 && Power256(4) == U32_SIZE && Power256(8) == U64_SIZE
  {
    assert Power256(2) == 256 * Power256(1);
    assert Power256(3) == 256 * Power256(2);
    assert Power256(4) == 256 * Power256(3);
    assert Power256(5) == 256 * Power256(4);
    assert Power256(6) == 256 * Power256(5);
    assert Power256(7) == 256 * Power256(6);
    assert Power256(8) == 256 * Power256(7);
  }

  function U16(x: Uint16): seq<Byte> { ToLe(x, 2) }

  function U32(x: Uint32): seq<Byte> { ToLe(x, 4) }

  function U64(x: Uint64): seq<Byte> { ToLe(x, 8) }

  /** Signed 32-bit values in two's complement. */
  function I32(x: Pid): seq<Byte> { ToLe(Wrap32(x), 4) }

  function Flag(b: bool): seq<Byte> { [if b then 1 else 0] }

  function ReadU16(bytes: seq<Byte>): Uint16
    requires |bytes| == 2
  {
    Powers(); FromLe(bytes)
  }

  function ReadU32(bytes: seq<Byte>): Uint32
    requires |bytes| == 4
  {
    Powers(); FromLe(bytes)
  }

  function ReadU64(bytes: seq<Byte>): Uint64
    requires |bytes| == 8
  {
    Powers(); FromLe(bytes)
  }

  function ReadI32(bytes: seq<Byte>): Pid
    requires |bytes| == 4
  {
    var x := ReadU32(bytes);
    if x < 0x8000_0000 then x else x - U32_SIZE
  }

  function ReadFlag(bytes: seq<Byte>): bool
    requires |bytes| == 1
  {
    bytes[0] != 0
  }

  lemma NumbersRoundTrip(a: Uint16, b: Uint32, c: Uint64, d: Pid, e: bool)
    ensures ReadU16(U16(a)) == a && ReadU32(U32(b)) == b && ReadU64(U64(c)) == c
    ensures ReadI32(I32(d)) == d && ReadFlag(Flag(e)) == e
  {
    Powers();
    DecodeEncode(a, 2);
    DecodeEncode(b, 4);
    DecodeEncode(c, 8);
    DecodeEncode(Wrap32(d), 4);
  }

  // ---------------------------------------------------------------- message headers

  const HEADER_SIZE: nat := 16
  const MAGIC: Uint32 := 0x41495043
  const VERSION: Uint16 := 1
  const MAX_PAYLOAD: nat := 4096

  const CMD_REGISTER: Uint16 := 0x0001
  const CMD_UNREGISTER: Uint16 := 0x0002
  const CMD_GET_VOLUME: Uint16 := 0x0100
  const CMD_SET_VOLUME: Uint16 := 0x0101
  const CMD_GET_MUTE: Uint16 := 0x0102
  const CMD_SET_MUTE: Uint16 := 0x0103
  const CMD_LIST_CLIENTS: Uint16 := 0x0200
  const CMD_PING: Uint16 := 0x0201
  const CMD_RESPONSE: Uint16 := 0x8000
  const CMD_ERROR: Uint16 := 0x8001

  datatype Header = Header(magic: Uint32, version: Uint16, command: Uint16, payloadLen: Uint32, requestId: Uint32)

  /** ipc_init_header */
  function InitHeader(command: Uint16, payloadLen: Uint32, requestId: Uint32): Header {
    Header(MAGIC, VERSION, command, payloadLen, requestId)
  }

  predicate KnownCommand(command: Uint16) {
    command in {CMD_REGISTER, CMD_UNREGISTER, CMD_GET_VOLUME, CMD_SET_VOLUME, CMD_GET_MUTE, CMD_SET_MUTE,
                CMD_LIST_CLIENTS, CMD_PING, CMD_RESPONSE, CMD_ERROR}
  }

  /** ipc_validate_header */
  predicate ValidHeader(h: Header) {
    h.magic == MAGIC && h.version == VERSION && h.payloadLen <= MAX_PAYLOAD && KnownCommand(h.command)
  }

  function EncodeHeader(h: Header): (bytes: seq<Byte>)
    ensures |bytes| == HEADER_SIZE
  {
    U32(h.magic) + U16(h.version) + U16(h.command) + U32(h.payloadLen) + U32(h.requestId)
  }

  function DecodeHeader(bytes: seq<Byte>): Header
    requires |bytes| == HEADER_SIZE
  {
    Header(ReadU32(bytes[0..4]), ReadU16(bytes[4..6]), ReadU16(bytes[6..8]), ReadU32(bytes[8..12]),
           ReadU32(bytes[12..16]))
  }

  lemma HeaderParts(a: seq<Byte>, b: seq<Byte>, c: seq<Byte>, d: seq<Byte>, e: seq<Byte>)
    requires |a| == 4 && |b| == 2 && |c| == 2 && |d| == 4 && |e| == 4
    ensures var bytes := a + b + c + d + e;
            bytes[0..4] == a && bytes[4..6] == b && bytes[6..8] == c && bytes[8..12] == d && bytes[12..16] == e
  {
  }

  /** Encoding loses nothing: a header is read back field by field. */
  lemma HeaderRoundTrip(h: Header)
    ensures DecodeHeader(EncodeHeader(h)) == h
  {
    HeaderParts(U32(h.magic), U16(h.version), U16(h.command), U32(h.payloadLen), U32(h.requestId));
    NumbersRoundTrip(h.version, h.magic, 0, 0, false);
    NumbersRoundTrip(h.command, h.payloadLen, 0, 0, false);
    NumbersRoundTrip(0, h.requestId, 0, 0, false);
  }

  /** Every 16 bytes are some header's encoding, and no two headers share one. */
  lemma HeaderBytesRoundTrip(bytes: seq<Byte>)
    requires |bytes| == HEADER_SIZE
    ensures EncodeHeader(DecodeHeader(bytes)) == bytes
  {
    EncodeDecode(bytes[0..4]);
    EncodeDecode(bytes[4..6]);
    EncodeDecode(bytes[6..8]);
    EncodeDecode(bytes[8..12]);
    EncodeDecode(bytes[12..16]);
    assert bytes == bytes[0..4] + bytes[4..6] + bytes[6..8] + bytes[8..12] + bytes[12..16];
  }

  // ---------------------------------------------------------------- responses

  const STATUS_OK: Pid := 0
  const STATUS_INVALID_HEADER: Pid := -1
  const STATUS_UNKNOWN_COMMAND: Pid := -2
  const STATUS_PAYLOAD_TOO_LARGE: Pid := -3
  const STATUS_CLIENT_NOT_FOUND: Pid := -4

  const RESPONSE_SIZE: nat := 8

  /** send_response: header, status, data length, data; both lengths are 32-bit fields. */
  function EncodeResponse(requestId: Uint32, status: Pid, data: seq<Byte>): (bytes: seq<Byte>)
    ensures |bytes| == HEADER_SIZE + RESPONSE_SIZE + |data|
  {
    EncodeHeader(ResponseHeader(requestId, data)) + ResponseBody(status, data)
  }

  function ResponseHeader(requestId: Uint32, data: seq<Byte>): Header {
    InitHeader(CMD_RESPONSE, Wrap32(RESPONSE_SIZE + |data|), requestId)
  }

  /** IPCResponse followed by its data. */
  function ResponseBody(status: Pid, data: seq<Byte>): (bytes: seq<Byte>)
    ensures |bytes| == RESPONSE_SIZE + |data|
  {
    I32(status) + U32(Wrap32(|data|)) + data
  }

  lemma ResponseParts(requestId: Uint32, status: Pid, data: seq<Byte>)
    ensures var bytes := EncodeResponse(requestId, status, data);
            && DecodeHeader(bytes[..HEADER_SIZE]) == ResponseHeader(requestId, data)
            && bytes[HEADER_SIZE..] == ResponseBody(status, data)
  {
    var bytes := EncodeResponse(requestId, status, data);
    assert bytes[..HEADER_SIZE] == EncodeHeader(ResponseHeader(requestId, data));
    HeaderRoundTrip(ResponseHeader(requestId, data));
  }

  lemma StatusOfBody(status: Pid, data: seq<Byte>)
    ensures ReadI32(ResponseBody(status, data)[..4]) == status
  {
    assert ResponseBody(status, data)[..4] == I32(status);
    NumbersRoundTrip(0, 0, 0, status, false);
  }

  // ---------------------------------------------------------------- float patterns

  /** `x < 0.0f`, on bit patterns: false for zeros and NaNs. */
  predicate FloatNegative(x: Uint32) {
    0x8000_0000 < x <= 0xFF80_0000
  }

  /** `x > 1.0f`, on bit patterns: false for NaNs. */
  predicate FloatAboveOne(x: Uint32) {
    0x3F80_0000 < x <= 0x7F80_0000
  }

  /** The fields of a single-precision pattern (IEEE 754, section 3.4). */
  function Exponent(x: Uint32): nat {
    x / 0x80_0000 % 256
  }

  function Fraction(x: Uint32): nat {
    x % 0x80_0000
  }

  predicate IsNan(x: Uint32) {
    Exponent(x) == 255 && Fraction(x) != 0
  }

  /** The magnitude a pattern stands for, in units of the smallest one, 2^-149. */
  function Magnitude(x: Uint32): nat {
    if Exponent(x) == 0 then Fraction(x) else (0x80_0000 + Fraction(x)) * PowerOfTwo(Exponent(x) - 1)
  }

  const ONE_EXPONENT: nat := 149

  lemma OneIs()
    ensures PowerOfTwo(ONE_EXPONENT) == 0x80_0000 * PowerOfTwo(126) && PowerOfTwo(126) == 2 * PowerOfTwo(125)
  {
    PowersMultiply(23, 126);
    EightMillion();
  }

  lemma EightMillion()
    ensures PowerOfTwo(23) == 0x80_0000
  {
    PowersMultiply(11, 12);
    PowersMultiply(5, 6);
    PowersMultiply(6, 6);
    PowersMultiply(3, 3);
    PowersMultiply(2, 3);
    assert PowerOfTwo(2) == 2 * PowerOfTwo(1) && PowerOfTwo(3) == 2 * PowerOfTwo(2);
  }

  /** Scaling keeps the order of the mantissas. */
  lemma ScaledLess(a: nat, b: nat, p: nat, q: nat)
    requires p <= q
    ensures a <= b ==> a * p <= b * q
    ensures a < b && p > 0 ==> a * p < b * q
  {
    if a <= b {
      assert a * p <= a * q <= b * q;
    }
    if a < b && p > 0 {
      assert a * p < b * p <= b * q;
    }
  }

  lemma SmallExponent(e: nat, m: nat)
    requires 1 <= e < 127 && m < 0x100_0000
    ensures m * PowerOfTwo(e - 1) < PowerOfTwo(ONE_EXPONENT)
  {
    OneIs();
    PowersGrow(e - 1, 125);
    ScaledLess(m, 0x100_0000, PowerOfTwo(e - 1), PowerOfTwo(125));
  }

  lemma LargeExponent(e: nat, m: nat)
    requires 127 < e && m >= 0x80_0000
    ensures m * PowerOfTwo(e - 1) > PowerOfTwo(ONE_EXPONENT)
  {
    OneIs();
    PowersGrow(127, e - 1);
    ScaledLess(0x80_0000, m, PowerOfTwo(127), PowerOfTwo(e - 1));
    assert PowerOfTwo(127) == 2 * PowerOfTwo(126);
  }

  lemma OnesExponent(f: nat, p: nat)
    requires p > 0
    ensures (0x80_0000 + f) * p > 0x80_0000 * p <==> f > 0
  {
    assert (0x80_0000 + f) * p == 0x80_0000 * p + f * p;
    assert f > 0 ==> f * p > 0;
  }

  lemma Subnormal(f: nat)
    requires f < 0x80_0000
    ensures f < PowerOfTwo(ONE_EXPONENT)
  {
    EightMillion();
    PowersGrow(23, ONE_EXPONENT);
  }

  lemma BelowOne(x: Uint32)
    requires Exponent(x) < 127
    ensures Magnitude(x) < PowerOfTwo(ONE_EXPONENT)
  {
    if Exponent(x) == 0 {
      Subnormal(Fraction(x));
    } else {
      SmallExponent(Exponent(x), 0x80_0000 + Fraction(x));
    }
  }

  lemma AboveTwo(x: Uint32)
    requires Exponent(x) > 127
    ensures Magnitude(x) > PowerOfTwo(ONE_EXPONENT)
  {
    LargeExponent(Exponent(x), 0x80_0000 + Fraction(x));
  }

  lemma FromOneOn(x: Uint32)
    requires Exponent(x) == 127
    ensures Magnitude(x) > PowerOfTwo(ONE_EXPONENT) <==> Fraction(x) > 0
  {
    OneIs();
    OnesExponent(Fraction(x), PowerOfTwo(126));
  }

  lemma AboveOneByFields(x: Uint32)
    ensures Magnitude(x) > PowerOfTwo(ONE_EXPONENT) <==> Exponent(x) > 127 || (Exponent(x) == 127 && Fraction(x) > 0)
  {
    if Exponent(x) < 127 {
      BelowOne(x);
    } else if Exponent(x) == 127 {
      FromOneOn(x);
    } else {
      AboveTwo(x);
    }
  }

  lemma MagnitudeZero(x: Uint32)
    ensures Magnitude(x) == 0 <==> Exponent(x) == 0 && Fraction(x) == 0
  {
    if Exponent(x) > 0 {
      ScaledLess(0, 0x80_0000 + Fraction(x), 1, PowerOfTwo(Exponent(x) - 1));
    }
  }

  /** The pattern tests are the float comparisons: negative exactly for a sign and a magnitude, above one exactly for no
      sign and a magnitude above one, neither for a NaN. */
  lemma FloatTests(x: Uint32)
    ensures FloatNegative(x) <==> !IsNan(x) && x >= 0x8000_0000 && Magnitude(x) > 0
    ensures FloatAboveOne(x) <==> !IsNan(x) && x < 0x8000_0000 && Magnitude(x) > PowerOfTwo(ONE_EXPONENT)
  {
    AboveOneByFields(x);
    MagnitudeZero(x);
    FieldsOf(x);
  }

  lemma FieldsOf(x: Uint32)
    ensures x == (if x >= 0x8000_0000 then 0x8000_0000 else 0) + Exponent(x) * 0x80_0000 + Fraction(x)
  {
  }

  const FLOAT_ZERO: Uint32 := 0
  const FLOAT_ONE: Uint32 := 0x3F80_0000

  /** The two-step clamp both sides apply to a volume; a NaN passes unchanged. */
  function ClampVolume(x: Uint32): (v: Uint32)
    ensures FloatNegative(x) ==> v == FLOAT_ZERO
    ensures FloatAboveOne(x) ==> v == FLOAT_ONE
    ensures !FloatNegative(x) && !FloatAboveOne(x) ==> v == x
    ensures !FloatNegative(v) && !FloatAboveOne(v)
  {
    var low := if FloatNegative(x) then FLOAT_ZERO else x;
    if FloatAboveOne(low) then FLOAT_ONE else low
  }
}
