/** The 34-byte HM v3.6 ProtocolFrame: decoder and printer. */
module HmFrame {
  import opened Wrappers
  import opened BitStrings
  import opened Crc16
  import opened Hex

  const HM_HEADER_LEN: nat := 18
  const HM_CRC_LEN: nat := 2
  const HMPAYLOAD_V36_SIZE: nat := 14
  const BODY_LEN: nat := 32
  const FRAME_LEN: nat := 34

  datatype DecodeFailure = BadCrc | BadVersion | BadFormat | BadSize | BadSerial | BadTimestamp

  datatype Result<T> = Ok(value: T) | Failed(reason: DecodeFailure)

  datatype Decoded = Decoded(
    uid: string, nodeSeq: int, msgType: Byte, flags: Byte, vccMv: int, tempC: real,
    humidityAdc: int, humAlarm: int, measureCycles: int, sendCycles: int,
    pending: Byte, freeSlots: Byte, alarm: bool, lowBatt: bool)

  // ---- reading ----

  predicate IsHM(data: seq<Byte>, i: nat) {
    i + 1 < |data| && data[i] == 0x48 && data[i + 1] == 0x4D
  }

  /** data.find(b"HM") */
  function FindHM(data: seq<Byte>, from: nat): (r: Option<nat>)
    requires from <= |data|
    ensures r.Some? ==> from <= r.value && IsHM(data, r.value)
    ensures forall j :: from <= j < (if r.Some? then r.value else |data|) ==> !IsHM(data, j)
    decreases |data| - from
  {
    if IsHM(data, from) then Some(from)
    else if from == |data| then None
    else FindHM(data, from + 1)
  }

  function U16(data: seq<Byte>, i: nat): (n: int)
    requires i + 2 <= |data|
    ensures 0 <= n < 0x1_0000
  {
    var low: int, high: int := data[i], data[i + 1];
    low + 0x100 * high
  }

  function I16(data: seq<Byte>, i: nat): (n: int)
    requires i + 2 <= |data|
    ensures -0x8000 <= n < 0x8000
  {
    if U16(data, i) < 0x8000 then U16(data, i) else U16(data, i) - 0x1_0000
  }

  /** The stored CRC is little-endian. */
  function CrcField(frame: seq<Byte>): Word
    requires |frame| == FRAME_LEN
  {
    Bits8(frame[33]) + Bits8(frame[32])
  }

  predicate HasFlag(flags: Byte, bit: nat)
    requires bit > 0
  {
    flags / bit % 2 == 1
  }

  function Unpack(frame: seq<Byte>): Decoded
    requires |frame| == FRAME_LEN
  {
    var flags, msgType := frame[6], frame[5];
    Decoded(ToHex(frame[7..15]), U16(frame, 15), msgType, flags, U16(frame, 18),
            I16(frame, 20) as real / 100.0, U16(frame, 22), U16(frame, 24), U16(frame, 26),
            U16(frame, 28), frame[30], frame[31],
            HasFlag(flags, 0x02) || msgType == 0x05, HasFlag(flags, 0x04))
  }

  /** decode_hm_v36 on the bytes, with the source's order of checks. */
  function DecodeBytes(input: seq<Byte>): Result<Decoded> {
    match FindHM(input, 0)
    case None => Failed(BadFormat)
    case Some(i) =>
      if i > 4 then Failed(BadFormat)
      else
        var data := input[i..];
        if |data| < HM_HEADER_LEN + HM_CRC_LEN then Failed(BadSize)
        else if data[2] != 1 then Failed(BadVersion)
        else if data[17] != HMPAYLOAD_V36_SIZE then Failed(BadFormat)
        else if |data| != HM_HEADER_LEN + HMPAYLOAD_V36_SIZE + HM_CRC_LEN then Failed(BadSize)
        else if Crc(data[..BODY_LEN]) != CrcField(data) then Failed(BadCrc)
        else if data[0] != 0x48 || data[1] != 0x4D then Failed(BadFormat)
        else Ok(Unpack(data))
  }

  function DecodeHmV36(rawHex: string): Result<Decoded> {
    match FromHex(rawHex)
    case None => Failed(BadFormat)
    case Some(data) => DecodeBytes(data)
  }

  // ---- what is accepted ----

  predicate ValidFrame(frame: seq<Byte>) {
    && |frame| == FRAME_LEN
    && frame[0] == 0x48 && frame[1] == 0x4D && frame[2] == 1 && frame[17] == 14
    && CrcField(frame) == Crc(frame[..BODY_LEN])
  }

  /** No "HM" starts inside the prefix. */
  predicate NoHM(input: seq<Byte>, prefix: nat) {
    forall j :: 0 <= j < prefix ==> !IsHM(input, j)
  }

  /** An input is accepted exactly when it is a valid frame behind at most four bytes in which
      no earlier "HM" starts; its length fixes the alignment. */
  lemma {:induction false} AcceptedIff(input: seq<Byte>)
    ensures DecodeBytes(input).Ok? <==>
            FRAME_LEN <= |input| <= FRAME_LEN + 4
            && ValidFrame(input[|input| - FRAME_LEN..]) && NoHM(input, |input| - FRAME_LEN)
    ensures DecodeBytes(input).Ok? ==> DecodeBytes(input).value == Unpack(input[|input| - FRAME_LEN..])
  {
    var found := FindHM(input, 0);
    if FRAME_LEN <= |input| <= FRAME_LEN + 4 {
      var i := |input| - FRAME_LEN;
      var frame := input[i..];
      assert ValidFrame(frame) ==> IsHM(input, i);
      if NoHM(input, i) && IsHM(input, i) {
        assert found == Some(i);
      }
      if found == Some(i) {
        assert frame[0] == 0x48 && frame[1] == 0x4D;
      }
    }
  }

  /** The CRC is only ever blamed for frames that are otherwise well formed, and every such frame
      with a wrong CRC is reported as that. */
  lemma {:induction false} CrcFailureIff(input: seq<Byte>)
    ensures DecodeBytes(input) == Failed(BadCrc) <==>
            FRAME_LEN <= |input| <= FRAME_LEN + 4
            && NoHM(input, |input| - FRAME_LEN) && IsHM(input, |input| - FRAME_LEN)
            && (var frame := input[|input| - FRAME_LEN..];
                frame[2] == 1 && frame[17] == 14 && CrcField(frame) != Crc(frame[..BODY_LEN]))
  {
    var found := FindHM(input, 0);
    if FRAME_LEN <= |input| <= FRAME_LEN + 4 {
      var i := |input| - FRAME_LEN;
      if NoHM(input, i) && IsHM(input, i) {
        assert found == Some(i);
      }
    }
  }

  // ---- the format, byte by byte ----

  lemma {:induction false} FlagBits(flags: Byte)
    ensures HasFlag(flags, 0x02) <==> Bits8(flags)[6]
    ensures HasFlag(flags, 0x04) <==> Bits8(flags)[5]
  {
    assert Bits8(flags) == Bits(flags / 2, 7) + [flags % 2 == 1];
    assert Bits(flags / 2, 7) == Bits(flags / 2 / 2, 6) + [flags / 2 % 2 == 1];
    assert Bits(flags / 2 / 2, 6) == Bits(flags / 2 / 2 / 2, 5) + [flags / 2 / 2 % 2 == 1];
    assert flags / 4 == flags / 2 / 2;
  }

  lemma {:induction false} UnpackedFields(f: seq<Byte>, d: Decoded)
    requires |f| == 34 && d == Unpack(f)
    ensures d.uid == ToHex(f[7..15]) && d.msgType == f[5] && d.flags == f[6]
    ensures d.nodeSeq == f[15] as int + 256 * f[16] as int && d.vccMv == f[18] as int + 256 * f[19] as int
    ensures d.tempC == (f[20] as int + 256 * f[21] as int - if f[21] >= 128 then 65536 else 0) as real / 100.0
    ensures d.humidityAdc == f[22] as int + 256 * f[23] as int && d.humAlarm == f[24] as int + 256 * f[25] as int
    ensures d.measureCycles == f[26] as int + 256 * f[27] as int && d.sendCycles == f[28] as int + 256 * f[29] as int
    ensures d.pending == f[30] && d.freeSlots == f[31]
    ensures (d.alarm <==> Bits8(f[6])[6] || f[5] == 5) && (d.lowBatt <==> Bits8(f[6])[5])
  {
    FlagBits(f[6]);
  }

  /** The fields of an accepted frame: two-byte fields low byte first, the temperature in two's
      complement hundredths, the alarm from bit 1 of the flags or message type 5, the battery from bit 2,
      and the CRC of the first 32 bytes low byte first. */
  lemma {:induction false} DecodedFields(input: seq<Byte>, f: seq<Byte>, d: Decoded)
    requires DecodeBytes(input) == Ok(d) && |input| >= 34 && f == input[|input| - 34..]
    ensures d.uid == ToHex(f[7..15]) && d.msgType == f[5] && d.flags == f[6]
    ensures d.nodeSeq == f[15] as int + 256 * f[16] as int && d.vccMv == f[18] as int + 256 * f[19] as int
    ensures d.tempC == (f[20] as int + 256 * f[21] as int - if f[21] >= 128 then 65536 else 0) as real / 100.0
    ensures d.humidityAdc == f[22] as int + 256 * f[23] as int && d.humAlarm == f[24] as int + 256 * f[25] as int
    ensures d.measureCycles == f[26] as int + 256 * f[27] as int && d.sendCycles == f[28] as int + 256 * f[29] as int
    ensures d.pending == f[30] && d.freeSlots == f[31]
    ensures (d.alarm <==> Bits8(f[6])[6] || f[5] == 5) && (d.lowBatt <==> Bits8(f[6])[5])
    ensures Crc(f[..32]) == Bits8(f[33]) + Bits8(f[32])
  {
    AcceptedIff(input);
    UnpackedFields(f, d);
  }

  /** The checks in their order, on the first "HM" at i. */
  lemma {:induction false} DecodeReasons(input: seq<Byte>, i: nat)
    requires i + 1 < |input| && input[i] == 0x48 && input[i + 1] == 0x4D
    requires forall j :: 0 <= j < i ==> !(input[j] == 0x48 && input[j + 1] == 0x4D)
    ensures var n, r := |input| - i, DecodeBytes(input);
            if i > 4 then r == Failed(BadFormat)
            else if n < 20 then r == Failed(BadSize)
            else if input[i + 2] != 1 then r == Failed(BadVersion)
            else if input[i + 17] != 14 then r == Failed(BadFormat)
            else if n != 34 then r == Failed(BadSize)
            else if Crc(input[i..][..32]) != Bits8(input[i + 33]) + Bits8(input[i + 32]) then r == Failed(BadCrc)
            else r.Ok?
  {
    assert IsHM(input, i);
    assert FindHM(input, 0) == Some(i);
  }

  /** Without an "HM", or without hex digits, there is no frame. */
  lemma {:induction false} NoFrame(input: seq<Byte>, rawHex: string)
    requires forall j :: 0 <= j < |input| - 1 ==> !(input[j] == 0x48 && input[j + 1] == 0x4D)
    ensures DecodeBytes(input) == Failed(BadFormat)
    ensures FromHex(rawHex) == None ==> DecodeHmV36(rawHex) == Failed(BadFormat)
    ensures FromHex(rawHex) == Some(input) ==> DecodeHmV36(rawHex) == Failed(BadFormat)
  {
  }

  // ---- printing ----

  function Pack16(n: int): (s: seq<Byte>)
    ensures |s| == 2
    ensures U16(s, 0) == n % 0x1_0000
  {
    [n % 0x100, n / 0x100 % 0x100]
  }

  datatype Body = Body(
    verMinor: Byte, verPatch: Byte, msgType: Byte, flags: Byte, uid: seq<Byte>, nodeSeq: int,
    vcc: int, temp: int, humidity: int, humAlarm: int, measureCycles: int, sendCycles: int,
    pending: Byte, freeSlots: Byte)

  /** struct format <2sBBBBB8sHBHhHHHHBB with ver_major 1 and payload_len 14. */
  function PackBody(b: Body): (s: seq<Byte>)
    requires |b.uid| == 8
    ensures |s| == BODY_LEN
  {
    [0x48, 0x4D, 1, b.verMinor, b.verPatch, b.msgType, b.flags] + b.uid + Pack16(b.nodeSeq) + [14]
    + Pack16(b.vcc) + Pack16(b.temp) + Pack16(b.humidity) + Pack16(b.humAlarm)
    + Pack16(b.measureCycles) + Pack16(b.sendCycles) + [b.pending, b.freeSlots]
  }

  /** "<H": low byte first. */
  function PackCrc(crc: Word): (s: seq<Byte>)
    ensures |s| == 2
  {
    [ByteOf(crc[8..]), ByteOf(crc[..8])]
  }

  function Seal(body: seq<Byte>, badCrc: bool): (frame: seq<Byte>)
    requires |body| == BODY_LEN
    ensures |frame| == FRAME_LEN
  {
    body + PackCrc(if badCrc then Xor(Crc(body), Trues(16)) else Crc(body))
  }

  /** int() of a float: toward zero. */
  function Trunc(x: real): int {
    if x >= 0.0 then x.Floor else -((-x).Floor)
  }

  /** The "8s" format pads a short string with zero bytes and cuts a long one. */
  function EightBytes(s: seq<Byte>): (r: seq<Byte>)
    ensures |r| == 8
    ensures |s| == 8 ==> r == s
  {
    if |s| >= 8 then s[..8] else s + seq(8 - |s|, i => 0)
  }

  /** The arguments of build_hm_v36_frame. */
  datatype Telemetry = Telemetry(
    uidHex: string, nodeSeq: int, vccMv: int, tempC: real, humidityAdc: int,
    humAlarm: int, msgType: int, flags: int)
  {
    /** None stands for the exceptions of bytes.fromhex and struct.pack. */
    function ToBody(): (b: Option<Body>)
      ensures b.Some? ==> |b.value.uid| == 8 && -0x8000 <= b.value.temp < 0x8000
    {
      match FromHex(uidHex)
      case None => None
      case Some(uid) =>
        var temp := Trunc(tempC * 100.0);
        if 0 <= msgType < 0x100 && 0 <= flags < 0x100 && -0x8000 <= temp < 0x8000 then
          Some(Body(1, 1, msgType, flags, EightBytes(uid), nodeSeq, vccMv, temp, humidityAdc, humAlarm, 1, 2, 0, 15))
        else None
    }
  }

  function BuildHmV36Frame(t: Telemetry, badCrc: bool): Option<string> {
    match t.ToBody()
    case None => None
    case Some(b) => Some(ToHex(Seal(PackBody(b), badCrc)))
  }

  /** The first 32 bytes that are printed: the header, the uid cut or padded to eight bytes, and the fields
      at their places, two-byte fields low byte first. */
  lemma {:induction false} PrintedBody(t: Telemetry, uid: seq<Byte>, s: seq<Byte>)
    requires t.ToBody().Some? && FromHex(t.uidHex) == Some(uid) && s == PackBody(t.ToBody().value)
    ensures s[0] == 0x48 && s[1] == 0x4D && s[2] == 1 && s[3] == 1 && s[4] == 1 && s[5] == t.msgType && s[6] == t.flags
    ensures s[7..15] == EightBytes(uid) && s[15] as int + 256 * s[16] as int == t.nodeSeq % 65536 && s[17] == 14
    ensures s[18] as int + 256 * s[19] as int == t.vccMv % 65536
    ensures s[20] as int + 256 * s[21] as int == Trunc(t.tempC * 100.0) % 65536
    ensures s[22] as int + 256 * s[23] as int == t.humidityAdc % 65536
    ensures s[24] as int + 256 * s[25] as int == t.humAlarm % 65536
    ensures s[26] == 1 && s[27] == 0 && s[28] == 2 && s[29] == 0 && s[30] == 0 && s[31] == 15
  {
    PackedFields(t.ToBody().value, s);
  }

  lemma {:induction false} PackedFields(b: Body, s: seq<Byte>)
    requires |b.uid| == 8 && s == PackBody(b)
    ensures s[0] == 0x48 && s[1] == 0x4D && s[2] == 1 && s[3] == b.verMinor && s[4] == b.verPatch
    ensures s[5] == b.msgType && s[6] == b.flags && s[7..15] == b.uid && s[17] == 14
    ensures s[15] as int + 256 * s[16] as int == b.nodeSeq % 65536
    ensures s[18] as int + 256 * s[19] as int == b.vcc % 65536
    ensures s[20] as int + 256 * s[21] as int == b.temp % 65536
    ensures s[22] as int + 256 * s[23] as int == b.humidity % 65536
    ensures s[24] as int + 256 * s[25] as int == b.humAlarm % 65536
    ensures s[26] == Pack16(b.measureCycles)[0] && s[27] == Pack16(b.measureCycles)[1]
    ensures s[28] == Pack16(b.sendCycles)[0] && s[29] == Pack16(b.sendCycles)[1]
    ensures s[30] == b.pending && s[31] == b.freeSlots
  {
    LowHigh(b.nodeSeq);
    LowHigh(b.vcc);
    LowHigh(b.temp);
    LowHigh(b.humidity);
    LowHigh(b.humAlarm);
  }

  lemma {:induction false} EightBytesAre(s: seq<Byte>, i: nat)
    requires i < 8
    ensures EightBytes(s)[i] == if i < |s| then s[i] else 0
  {
  }

  /** There is a frame exactly for a uid in hex, one-byte type and flags, and a temperature in range. */
  lemma {:induction false} PrintsIff(t: Telemetry, badCrc: bool)
    ensures BuildHmV36Frame(t, badCrc).Some? <==>
            FromHex(t.uidHex).Some? && 0 <= t.msgType < 256 && 0 <= t.flags < 256
            && -32768 <= Trunc(t.tempC * 100.0) <= 32767
  {
  }

  lemma {:induction false} LowHigh(n: int)
    ensures Pack16(n)[0] as int + 256 * Pack16(n)[1] as int == n % 65536
  {
  }

  /** The frame that is printed: those bytes, then their CRC low byte first, or its complement for a bad one. */
  lemma {:induction false} PrintedFrame(t: Telemetry, badCrc: bool)
    requires BuildHmV36Frame(t, badCrc).Some?
    ensures t.ToBody().Some?
    ensures exists f: seq<Byte> ::
              && FromHex(BuildHmV36Frame(t, badCrc).value) == Some(f) && |f| == 34
              && f[..32] == PackBody(t.ToBody().value)
              && Bits8(f[33]) + Bits8(f[32]) == if badCrc then Xor(Crc(f[..32]), Trues(16)) else Crc(f[..32])
  {
    var body := PackBody(t.ToBody().value);
    var crc: Word := if badCrc then Xor(Crc(body), Trues(16)) else Crc(body);
    var f := Seal(body, badCrc);
    FromToHex(f);
    assert f[..32] == body;
    assert f[32] == ByteOf(crc[8..]) && f[33] == ByteOf(crc[..8]);
    assert crc[..8] + crc[8..] == crc;
  }

  /** int() cuts toward zero. */
  lemma {:induction false} TruncIs(x: real, n: int)
    ensures Trunc(x) == n <==> if x >= 0.0 then n as real <= x < n as real + 1.0 else n as real - 1.0 < x <= n as real
  {
    assert -(-x) == x;
    if x < 0.0 {
      var f := (-x).Floor;
      assert f as real <= -x < f as real + 1.0;
      assert (-f) as real == -(f as real);
    }
  }

  /** What the decoder reports for a printed body. */
  function Reported(b: Body): Decoded {
    Decoded(ToHex(b.uid), b.nodeSeq % 0x1_0000, b.msgType, b.flags, b.vcc % 0x1_0000, b.temp as real / 100.0,
            b.humidity % 0x1_0000, b.humAlarm % 0x1_0000, b.measureCycles % 0x1_0000,
            b.sendCycles % 0x1_0000, b.pending, b.freeSlots,
            HasFlag(b.flags, 0x02) || b.msgType == 0x05, HasFlag(b.flags, 0x04))
  }

  lemma {:induction false} U16OfPack16(frame: seq<Byte>, i: nat, n: int)
    requires i + 2 <= |frame| && frame[i] == Pack16(n)[0] && frame[i + 1] == Pack16(n)[1]
    ensures U16(frame, i) == n % 0x1_0000
    ensures -0x8000 <= n < 0x8000 ==> I16(frame, i) == n
  {
  }

  lemma {:induction false} UnpackPack(b: Body, tail: seq<Byte>)
    requires |b.uid| == 8 && |tail| == 2 && -0x8000 <= b.temp < 0x8000
    ensures Unpack(PackBody(b) + tail) == Reported(b)
  {
    var frame := PackBody(b) + tail;
    assert frame[7..15] == b.uid;
    U16OfPack16(frame, 15, b.nodeSeq);
    U16OfPack16(frame, 18, b.vcc);
    U16OfPack16(frame, 20, b.temp);
    U16OfPack16(frame, 22, b.humidity);
    U16OfPack16(frame, 24, b.humAlarm);
    U16OfPack16(frame, 26, b.measureCycles);
    U16OfPack16(frame, 28, b.sendCycles);
  }

  lemma {:induction false} CrcFieldOfSeal(body: seq<Byte>, badCrc: bool)
    requires |body| == BODY_LEN
    ensures CrcField(Seal(body, badCrc)) == Crc(body) <==> !badCrc
    ensures Seal(body, badCrc)[..BODY_LEN] == body
  {
    var crc: Word := if badCrc then Xor(Crc(body), Trues(16)) else Crc(body);
    assert crc[..8] + crc[8..] == crc;
    if badCrc {
      assert crc[0] != Crc(body)[0];
    }
  }

  lemma {:induction false} DecodeFramed(prefix: seq<Byte>, frame: seq<Byte>)
    requires |prefix| <= 4 && NoHM(prefix, |prefix|)
    requires |frame| == FRAME_LEN && frame[0] == 0x48 && frame[1] == 0x4D && frame[2] == 1 && frame[17] == 14
    ensures DecodeBytes(prefix + frame)
         == if CrcField(frame) == Crc(frame[..BODY_LEN]) then Ok(Unpack(frame)) else Failed(BadCrc)
  {
    PrefixedFrame(prefix, frame);
    var input := prefix + frame;
    assert IsHM(input, |prefix|);
    AcceptedIff(input);
    CrcFailureIff(input);
  }

  lemma {:induction false} HeaderOfBody(b: Body)
    requires |b.uid| == 8
    ensures var s := PackBody(b); s[0] == 0x48 && s[1] == 0x4D && s[2] == 1 && s[17] == 14
  {
  }

  lemma {:induction false} DecodePrinted(prefix: seq<Byte>, b: Body, badCrc: bool)
    requires |prefix| <= 4 && NoHM(prefix, |prefix|)
    requires |b.uid| == 8 && -0x8000 <= b.temp < 0x8000
    ensures DecodeBytes(prefix + Seal(PackBody(b), badCrc)) == if badCrc then Failed(BadCrc) else Ok(Reported(b))
  {
    var body := PackBody(b);
    var frame := Seal(body, badCrc);
    HeaderOfBody(b);
    CrcFieldOfSeal(body, badCrc);
    DecodeFramed(prefix, frame);
    UnpackPack(b, frame[BODY_LEN..]);
    assert frame == body + frame[BODY_LEN..];
  }

  /** Decoding what the printer prints returns the printed fields (16-bit fields modulo 2^16, the
      temperature cut to hundredths), also behind up to four bytes without "HM". A frame printed
      with a corrupted CRC is reported as a CRC failure. */
  lemma {:induction false} RoundTrip(prefix: seq<Byte>, t: Telemetry, badCrc: bool)
    requires |prefix| <= 4 && NoHM(prefix, |prefix|)
    requires BuildHmV36Frame(t, badCrc).Some?
    ensures DecodeHmV36(ToHex(prefix) + BuildHmV36Frame(t, badCrc).value)
         == if badCrc then Failed(BadCrc) else Ok(Reported(t.ToBody().value))
  {
    var b := t.ToBody().value;
    var frame := Seal(PackBody(b), badCrc);
    ToHexAppend(prefix, frame);
    FromToHex(prefix + frame);
    DecodePrinted(prefix, b, badCrc);
  }

  lemma {:induction false} RoundTripBare(t: Telemetry)
    requires BuildHmV36Frame(t, false).Some?
    ensures DecodeHmV36(BuildHmV36Frame(t, false).value) == Ok(Reported(t.ToBody().value))
  {
    var prefix: seq<Byte> := [];
    RoundTrip(prefix, t, false);
    assert ToHex(prefix) + BuildHmV36Frame(t, false).value == BuildHmV36Frame(t, false).value;
  }

  predicate InRange(t: Telemetry, hundredths: int) {
    && 0 <= t.nodeSeq < 0x1_0000 && 0 <= t.vccMv < 0x1_0000
    && 0 <= t.humidityAdc < 0x1_0000 && 0 <= t.humAlarm < 0x1_0000
    && 0 <= t.msgType < 0x100 && 0 <= t.flags < 0x100
    && -0x8000 <= hundredths < 0x8000 && t.tempC == hundredths as real / 100.0
  }

  /** The printed fields, unchanged. */
  function Printed(t: Telemetry, uid: seq<Byte>): Decoded
    requires 0 <= t.msgType < 0x100 && 0 <= t.flags < 0x100
  {
    Decoded(ToHex(uid), t.nodeSeq, t.msgType, t.flags, t.vccMv, t.tempC, t.humidityAdc, t.humAlarm,
            1, 2, 0, 15, HasFlag(t.flags, 0x02) || t.msgType == 0x05, HasFlag(t.flags, 0x04))
  }

  lemma {:induction false} BodyOf(t: Telemetry, uid: seq<Byte>, hundredths: int)
    requires |uid| == 8 && FromHex(t.uidHex) == Some(uid) && InRange(t, hundredths)
    ensures t.ToBody()
         == Some(Body(1, 1, t.msgType, t.flags, uid, t.nodeSeq, t.vccMv, hundredths, t.humidityAdc, t.humAlarm, 1, 2, 0, 15))
  {
    Hundredths(hundredths);
  }

  lemma {:induction false} BodyInRange(t: Telemetry, uid: seq<Byte>, hundredths: int)
    requires |uid| == 8 && FromHex(t.uidHex) == Some(uid) && InRange(t, hundredths)
    ensures t.ToBody().Some? && Reported(t.ToBody().value) == Printed(t, uid)
  {
    BodyOf(t, uid, hundredths);
  }

  /** Fields within their ranges come back unchanged. */
  lemma {:induction false} RoundTripInRange(t: Telemetry, uid: seq<Byte>, hundredths: int)
    requires |uid| == 8 && FromHex(t.uidHex) == Some(uid) && InRange(t, hundredths)
    ensures BuildHmV36Frame(t, false).Some?
    ensures DecodeHmV36(BuildHmV36Frame(t, false).value) == Ok(Printed(t, uid))
  {
    BodyInRange(t, uid, hundredths);
    RoundTripBare(t);
  }

  lemma {:induction false} Hundredths(n: int)
    ensures Trunc(n as real / 100.0 * 100.0) == n
  {
    assert n as real / 100.0 * 100.0 == n as real;
    assert -(n as real) == (-n) as real;
  }

  lemma {:induction false} ToHexAppend(a: seq<Byte>, b: seq<Byte>)
    ensures ToHex(a + b) == ToHex(a) + ToHex(b)
  {
    if a == [] {
      assert a + b == b;
    } else {
      assert (a + b)[1..] == a[1..] + b;
      ToHexAppend(a[1..], b);
    }
  }

  lemma {:induction false} PrefixedFrame(prefix: seq<Byte>, frame: seq<Byte>)
    requires |prefix| <= 4 && NoHM(prefix, |prefix|)
    requires |frame| == FRAME_LEN && frame[0] == 0x48
    ensures var input := prefix + frame;
            input[|input| - FRAME_LEN..] == frame && NoHM(input, |prefix|)
  {
    var input := prefix + frame;
    forall j | 0 <= j < |prefix|
      ensures !IsHM(input, j)
    {
      assert !IsHM(prefix, j);
    }
  }

  /** The body whose printing a decoded frame came from. */
  function ToBody(d: Decoded, uid: seq<Byte>, verMinor: Byte, verPatch: Byte): Body {
    Body(verMinor, verPatch, d.msgType, d.flags, uid, d.nodeSeq, d.vccMv, Trunc(d.tempC * 100.0), d.humidityAdc,
         d.humAlarm, d.measureCycles, d.sendCycles, d.pending, d.freeSlots)
  }

  lemma {:induction false} TwoBytes(low: Byte, high: Byte, n: int)
    requires n % 0x1_0000 == low as int + 0x100 * high as int
    ensures Pack16(n) == [low, high]
  {
    assert n % 0x100 == low;
    assert n / 0x100 % 0x100 == high;
  }

  lemma {:induction false} Pack16OfU16(frame: seq<Byte>, i: nat)
    requires i + 2 <= |frame|
    ensures Pack16(U16(frame, i)) == frame[i..i + 2] == Pack16(I16(frame, i))
  {
    TwoBytes(frame[i], frame[i + 1], U16(frame, i));
    TwoBytes(frame[i], frame[i + 1], I16(frame, i));
  }

  lemma {:induction false} Slices(frame: seq<Byte>)
    requires |frame| == FRAME_LEN
    ensures frame[..BODY_LEN]
         == frame[..7] + frame[7..15] + frame[15..17] + [frame[17]] + frame[18..20] + frame[20..22]
            + frame[22..24] + frame[24..26] + frame[26..28] + frame[28..30] + [frame[30], frame[31]]
  {
  }

  lemma {:induction false} PackSlices(b: Body, frame: seq<Byte>)
    requires |frame| == FRAME_LEN && b.uid == frame[7..15] && frame[17] == 14
    requires frame[..7] == [0x48, 0x4D, 1, b.verMinor, b.verPatch, b.msgType, b.flags]
    requires Pack16(b.nodeSeq) == frame[15..17] && Pack16(b.vcc) == frame[18..20]
    requires Pack16(b.temp) == frame[20..22] && Pack16(b.humidity) == frame[22..24]
    requires Pack16(b.humAlarm) == frame[24..26] && Pack16(b.measureCycles) == frame[26..28]
    requires Pack16(b.sendCycles) == frame[28..30] && b.pending == frame[30] && b.freeSlots == frame[31]
    ensures PackBody(b) == frame[..BODY_LEN]
  {
    Slices(frame);
  }

  function RawBody(frame: seq<Byte>): Body
    requires |frame| == FRAME_LEN
  {
    Body(frame[3], frame[4], frame[5], frame[6], frame[7..15], U16(frame, 15), U16(frame, 18), I16(frame, 20),
         U16(frame, 22), U16(frame, 24), U16(frame, 26), U16(frame, 28), frame[30], frame[31])
  }

  lemma {:induction false} PackRawBody(frame: seq<Byte>, b: Body)
    requires |frame| == FRAME_LEN && frame[0] == 0x48 && frame[1] == 0x4D && frame[2] == 1 && frame[17] == 14
    requires b == RawBody(frame)
    ensures PackBody(b) == frame[..BODY_LEN]
  {
    Pack16OfU16(frame, 15);
    Pack16OfU16(frame, 18);
    Pack16OfU16(frame, 20);
    Pack16OfU16(frame, 22);
    Pack16OfU16(frame, 24);
    Pack16OfU16(frame, 26);
    Pack16OfU16(frame, 28);
    assert frame[..7] == [0x48, 0x4D, 1, frame[3], frame[4], frame[5], frame[6]];
    PackSlices(b, frame);
  }

  lemma {:induction false} ToBodyOfUnpack(frame: seq<Byte>)
    requires |frame| == FRAME_LEN
    ensures ToBody(Unpack(frame), frame[7..15], frame[3], frame[4]) == RawBody(frame)
  {
    Hundredths(I16(frame, 20));
  }

  lemma {:induction false} ResealBody(frame: seq<Byte>)
    requires ValidFrame(frame)
    ensures Seal(frame[..BODY_LEN], false) == frame
  {
    var crc := Crc(frame[..BODY_LEN]);
    assert crc[8..] == Bits8(frame[33 - 1]) && crc[..8] == Bits8(frame[33]);
    ByteOfBits8(frame[32]);
    ByteOfBits8(frame[33]);
  }

  /** Printing the fields of an accepted frame, with the two version bytes the decoder ignores,
      gives the frame back. */
  lemma {:induction false} Reencode(input: seq<Byte>)
    requires DecodeBytes(input).Ok?
    ensures FRAME_LEN <= |input|
    ensures var frame := input[|input| - FRAME_LEN..];
            var d := DecodeBytes(input).value;
            FromHex(d.uid) == Some(frame[7..15])
            && Seal(PackBody(ToBody(d, frame[7..15], frame[3], frame[4])), false) == frame
  {
    AcceptedIff(input);
    var frame := input[|input| - FRAME_LEN..];
    FromToHex(frame[7..15]);
    ToBodyOfUnpack(frame);
    PackRawBody(frame, RawBody(frame));
    ResealBody(frame);
  }
}
