/** The IUSB packet codec: 32-byte header, payload accessors, whole frames. */
module IusbFrame {
  import opened Wrappers
  import opened Bytes

  const HEADER_LEN := 32
  const SIGNATURE: seq<byte> := [0x49, 0x55, 0x53, 0x42, 0x20, 0x20, 0x20, 0x20]
  const OPCODE_OFFSET := 9
  const OP_KILL_REDIR := 0xF6
  const DEVICE_CDROM := 5

  datatype Fault = ShortFrame | BadSignature | LengthMismatch

  datatype Header = Header(
    major: int, minor: int, dataLen: int, serverCaps: int, deviceType: int, protocol: int,
    direction: int, deviceNumber: int, interfaceNumber: int, clientData: int,
    instance: int, sequence: int)

  datatype Packet = Packet(header: Header, payload: seq<byte>)

  predicate IsByte(n: int) { 0 <= n < 256 }

  /** Every field fits the width the wire gives it. */
  predicate InRange(h: Header) {
    && IsByte(h.major) && IsByte(h.minor) && 0 <= h.dataLen < U32 && IsByte(h.serverCaps)
    && IsByte(h.deviceType) && IsByte(h.protocol) && IsByte(h.direction) && IsByte(h.deviceNumber)
    && IsByte(h.interfaceNumber) && IsByte(h.clientData) && IsByte(h.instance)
    && 0 <= h.sequence < U32
  }

  /** Where the fields sit; byte 11 is left for the checksum, the last four are reserved. */
  function Layout(
    signature: seq<byte>, versions: seq<byte>, length: seq<byte>, singles: seq<byte>, sequence: seq<byte>)
    : (b: seq<byte>)
    requires |signature| == 8 && |versions| == 3 && |length| == 4 && |singles| == 8 && |sequence| == 4
    ensures |b| == HEADER_LEN && b[11] == 0
  {
    signature + versions + [0] + length + singles + sequence + [0, 0, 0, 0]
  }

  function Versions(h: Header): seq<byte> { [h.major % 256, h.minor % 256, HEADER_LEN] }

  function Singles(h: Header): seq<byte> {
    [h.serverCaps % 256, h.deviceType % 256, h.protocol % 256, h.direction % 256,
     h.deviceNumber % 256, h.interfaceNumber % 256, h.clientData % 256, h.instance % 256]
  }

  /** The header bytes before the checksum is filled in. */
  function Unsummed(h: Header): (b: seq<byte>)
    ensures |b| == HEADER_LEN && b[11] == 0
  {
    Layout(SIGNATURE, Versions(h), ToLE(h.dataLen, 4), Singles(h), ToLE(h.sequence, 4))
  }

  function Marshal(h: Header): (b: seq<byte>)
    ensures |b| == HEADER_LEN
  {
    var u := Unsummed(h);
    u[11 := (0 - Sum(u)) % 256]
  }

  /** Overwrite part of a buffer, as a bytearray slice assignment of equal length does. */
  method Put(b: array<byte>, at: nat, s: seq<byte>)
    requires at + |s| <= b.Length
    modifies b
    ensures forall i :: 0 <= i < b.Length ==>
              b[i] == if at <= i < at + |s| then s[i - at] else old(b[i])
  {
    for k := 0 to |s|
      invariant forall i :: 0 <= i < b.Length ==>
                  b[i] == if at <= i < at + k then s[i - at] else old(b[i])
    {
      b[at + k] := s[k];
    }
  }

  /** The fields written one after the other into a zeroed buffer. */
  method LayOut(
    signature: seq<byte>, versions: seq<byte>, length: seq<byte>, singles: seq<byte>, sequence: seq<byte>)
    returns (b: array<byte>)
    requires |signature| == 8 && |versions| == 3 && |length| == 4 && |singles| == 8 && |sequence| == 4
    ensures fresh(b) && b.Length == HEADER_LEN
    ensures b[..] == Layout(signature, versions, length, singles, sequence)
  {
    b := new byte[HEADER_LEN](_ => 0);
    Put(b, 0, signature);
    Put(b, 8, versions);
    Put(b, 12, length);
    Put(b, 16, singles);
    Put(b, 24, sequence);
  }

  /** The bytearray filling of `marshal`, checked against the value it must produce. */
  method FillHeader(h: Header) returns (b: array<byte>)
    ensures fresh(b) && b[..] == Marshal(h)
  {
    b := LayOut(SIGNATURE, Versions(h), ToLE(h.dataLen, 4), Singles(h), ToLE(h.sequence, 4));
    var sum := SumOf(b);
    b[11] := (-sum) % 256;
  }

  method SumOf(b: array<byte>) returns (sum: int)
    ensures sum == Sum(b[..])
  {
    sum := 0;
    for i := 0 to b.Length
      invariant sum == Sum(b[..i])
    {
      assert b[..i + 1][..i] == b[..i];
      sum := sum + b[i];
    }
    assert b[..b.Length] == b[..];
  }

  function Parse(b: seq<byte>): Result<Header, Fault> {
    if |b| < HEADER_LEN then Err(ShortFrame)
    else if b[0..8] != SIGNATURE then Err(BadSignature)
    else Ok(Header(b[8], b[9], FromLE(b[12..16]), b[16], b[17], b[18], b[19],
                   b[20], b[21], b[22], b[23], FromLE(b[24..28])))
  }

  /** The receiver's sum over the 32 header bytes is zero modulo 256. */
  lemma ChecksumIsZero(h: Header)
    ensures Sum(Marshal(h)) % 256 == 0
  {
    var u := Unsummed(h);
    SumUpdate(u, 11, (0 - Sum(u)) % 256);
  }

  lemma ParseOfMarshal(h: Header)
    requires InRange(h)
    ensures Parse(Marshal(h)) == Ok(h)
  {
    FieldPlaces(h);
    FromLEOfToLE(h.dataLen, 4);
    FromLEOfToLE(h.sequence, 4);
    SinglesInRange(h);
    SinglesAt(Marshal(h));
  }

  lemma SinglesInRange(h: Header)
    requires InRange(h)
    ensures Versions(h) == [h.major, h.minor, HEADER_LEN]
    ensures Singles(h) == [h.serverCaps, h.deviceType, h.protocol, h.direction,
                           h.deviceNumber, h.interfaceNumber, h.clientData, h.instance]
  {
  }

  lemma SinglesAt(b: seq<byte>)
    requires |b| == HEADER_LEN
    ensures b[8..11] == [b[8], b[9], b[10]]
    ensures b[16..24] == [b[16], b[17], b[18], b[19], b[20], b[21], b[22], b[23]]
  {
  }

  /** What a parsed header forgets: only length byte, checksum and the reserved tail. */
  lemma MarshalOfParse(b: seq<byte>)
    requires |b| == HEADER_LEN && Parse(b).Ok?
    ensures InRange(Parse(b).value)
    ensures var m := Marshal(Parse(b).value);
            m[0..10] == b[0..10] && m[12..16] == b[12..16] && m[16..24] == b[16..24] && m[24..28] == b[24..28]
  {
    var h := Parse(b).value;
    ToLEOfFromLE(b[12..16]);
    ToLEOfFromLE(b[24..28]);
    FieldPlaces(h);
    SinglesInRange(h);
    SinglesAt(b);
    FirstTen(b, Marshal(h));
  }

  lemma FirstTen(b: seq<byte>, m: seq<byte>)
    requires |b| == |m| == HEADER_LEN && b[0..8] == m[0..8]
    requires m[8..11] == [b[8], b[9], HEADER_LEN]
    ensures m[0..10] == b[0..10]
  {
    assert m[8] == m[8..11][0] && m[9] == m[8..11][1];
    assert forall i :: 0 <= i < 8 ==> b[i] == b[0..8][i] && m[i] == m[0..8][i];
  }

  lemma FieldPlaces(h: Header)
    ensures var m := Marshal(h);
            && m[0..8] == SIGNATURE && m[8..11] == Versions(h)
            && m[12..16] == ToLE(h.dataLen, 4) && m[16..24] == Singles(h) && m[24..28] == ToLE(h.sequence, 4)
  {
    var u := Unsummed(h);
    LayoutPlaces(SIGNATURE, Versions(h), ToLE(h.dataLen, 4), Singles(h), ToLE(h.sequence, 4), (0 - Sum(u)) % 256);
  }

  lemma LayoutPlaces(
    signature: seq<byte>, versions: seq<byte>, length: seq<byte>, singles: seq<byte>, sequence: seq<byte>, sum: byte)
    requires |signature| == 8 && |versions| == 3 && |length| == 4 && |singles| == 8 && |sequence| == 4
    ensures var m := Layout(signature, versions, length, singles, sequence)[11 := sum];
            && m[0..8] == signature && m[8..11] == versions
            && m[12..16] == length && m[16..24] == singles && m[24..28] == sequence
  {
  }

  /** Every byte of a header, by position: the signature is "IUSB" and four blanks, length
      and sequence number are least significant byte first, the tail is zero. */
  lemma HeaderBytes(h: Header)
    ensures var m := Marshal(h);
            && m[0..8] == [0x49, 0x55, 0x53, 0x42, 0x20, 0x20, 0x20, 0x20]
            && m[8] == h.major % 256 && m[9] == h.minor % 256 && m[10] == 32
            && (forall i :: 0 <= i < 4 ==> m[12 + i] == h.dataLen / Pow256(i) % 256)
            && m[16] == h.serverCaps % 256 && m[17] == h.deviceType % 256
            && m[18] == h.protocol % 256 && m[19] == h.direction % 256
            && m[20] == h.deviceNumber % 256 && m[21] == h.interfaceNumber % 256
            && m[22] == h.clientData % 256 && m[23] == h.instance % 256
            && (forall i :: 0 <= i < 4 ==> m[24 + i] == h.sequence / Pow256(i) % 256)
  {
    FieldPlaces(h);
    ToLEDigits(h.dataLen, 4);
    ToLEDigits(h.sequence, 4);
    BytesAt(Marshal(h));
  }

  lemma BytesAt(m: seq<byte>)
    requires |m| == HEADER_LEN
    ensures forall i :: 0 <= i < 4 ==> m[12 + i] == m[12..16][i] && m[24 + i] == m[24..28][i]
    ensures m[8..11] == [m[8], m[9], m[10]]
    ensures m[16..24] == [m[16], m[17], m[18], m[19], m[20], m[21], m[22], m[23]]
  {
  }

  /** A header is accepted on its length and signature alone; checksum, header length and
      reserved bytes are not looked at. */
  lemma ParseIff(b: seq<byte>)
    ensures Parse(b).Ok?
            <==> |b| >= 32 && b[0..8] == [0x49, 0x55, 0x53, 0x42, 0x20, 0x20, 0x20, 0x20]
  {
  }

  /** A frame is accepted when its header is and its length is what the header says. */
  lemma FrameIff(frame: seq<byte>)
    ensures ParseRequestFrame(frame).Ok?
            <==> && |frame| >= 32 && frame[0..8] == [0x49, 0x55, 0x53, 0x42, 0x20, 0x20, 0x20, 0x20]
                 && ToLE(|frame| - 32, 4) == frame[12..16] && |frame| - 32 < U32
    ensures ParseRequestFrame(frame).Ok? ==> ParseRequestFrame(frame).value.payload == frame[32..]
  {
    if |frame| >= HEADER_LEN {
      var head := frame[..HEADER_LEN];
      assert head[0..8] == frame[0..8] && head[12..16] == frame[12..16];
      ToLEOfFromLE(frame[12..16]);
      if |frame| - 32 < U32 {
        FromLEOfToLE(|frame| - 32, 4);
      }
    }
  }

  function Opcode(p: Packet): int {
    if |p.payload| <= OPCODE_OFFSET then 0 else p.payload[OPCODE_OFFSET]
  }

  function Cdb(payload: seq<byte>): seq<byte> {
    if |payload| <= OPCODE_OFFSET then [] else payload[OPCODE_OFFSET..]
  }

  predicate IsKill(p: Packet) { Opcode(p) == OP_KILL_REDIR }

  /** A kill is the byte 0xF6 at offset 9 of the payload. */
  lemma KillIff(p: Packet)
    ensures IsKill(p) <==> |p.payload| > 9 && p.payload[9] == 0xF6
  {
  }

  function ParseRequestFrame(frame: seq<byte>): Result<Packet, Fault> {
    if |frame| < HEADER_LEN then Err(ShortFrame)
    else
      match Parse(frame[..HEADER_LEN])
      case Err(f) => Err(f)
      case Ok(h) =>
        if |frame| - HEADER_LEN != h.dataLen then Err(LengthMismatch)
        else Ok(Packet(h, frame[HEADER_LEN..]))
  }

  function ResponseHeader(req: Header, payloadLen: nat, deviceType: int): Header {
    Header(1, 0, payloadLen, 0, deviceType, 1, 128, 0, 0, 0, req.instance, req.sequence)
  }

  function BuildResponseFrame(req: Header, payload: seq<byte>, deviceType: int): seq<byte> {
    Marshal(ResponseHeader(req, |payload|, deviceType)) + payload
  }

  /** A response frame parses back to its payload, with the request's instance and
      sequence number, exactly when the payload length fits the 32-bit length field. */
  lemma ResponseFrameRoundTrip(req: Header, payload: seq<byte>, deviceType: int)
    requires InRange(req) && IsByte(deviceType)
    ensures |payload| < U32 ==>
              ParseRequestFrame(BuildResponseFrame(req, payload, deviceType))
              == Ok(Packet(ResponseHeader(req, |payload|, deviceType), payload))
    ensures ParseRequestFrame(BuildResponseFrame(req, payload, deviceType)).Ok? <==> |payload| < U32
  {
    var h := ResponseHeader(req, |payload|, deviceType);
    var f := BuildResponseFrame(req, payload, deviceType);
    assert f[..HEADER_LEN] == Marshal(h) && f[HEADER_LEN..] == payload;
    if |payload| < U32 {
      ParseOfMarshal(h);
    } else {
      FieldPlaces(h);
      ToLEOfFromLE(Marshal(h)[12..16]);
    }
  }

  /** Every byte of a response header that is not the length or the checksum: version 1.0,
      the device type, protocol 1, direction 128, and of the request only instance and
      sequence number. */
  lemma ResponseHeaderBytes(req: Header, payload: seq<byte>, deviceType: int)
    requires IsByte(deviceType) && InRange(req)
    ensures var f := BuildResponseFrame(req, payload, deviceType);
            && |f| == 32 + |payload| && f[32..] == payload
            && f[8] == 1 && f[9] == 0
            && f[16] == 0 && f[17] == deviceType && f[18] == 1 && f[19] == 128
            && f[20] == 0 && f[21] == 0 && f[22] == 0 && f[23] == req.instance
            && (forall i :: 0 <= i < 4 ==> f[24 + i] == req.sequence / Pow256(i) % 256)
            && (forall i :: 0 <= i < 4 ==> f[12 + i] == |payload| / Pow256(i) % 256)
  {
    var h := ResponseHeader(req, |payload|, deviceType);
    HeaderBytes(h);
    var f := BuildResponseFrame(req, payload, deviceType);
    assert forall i :: 0 <= i < 32 ==> f[i] == Marshal(h)[i];
  }
}
