/** IVTP packets: the 8-byte header, the fixed-width session packet, and the video
    fragment convention. */
module Ivtp {
  import opened Wrappers
  import opened Bytes
  import opened Wire

  const HEADER_LEN := 8
  const MAX_FRAME_BYTES := 9_216_000
  const OP_REFRESH_VIDEO_SCREEN := 5
  const OP_RESUME_REDIRECTION := 6
  const OP_STOP_SESSION := 8
  const OP_VALIDATE := 18
  const OP_VALIDATE_RESPONSE := 19
  const OP_GET_WEB_TOKEN := 21
  const OP_SESSION_ACCEPTED := 23
  const OP_VIDEO_FRAGMENT := 25

  datatype Header = Header(kind: int, size: int, status: int)

  /** A received packet, its body already read. */
  datatype Packet = Packet(kind: nat, status: nat, body: seq<byte>)

  predicate InRange(h: Header) {
    0 <= h.kind < 0x1_0000 && 0 <= h.size < U32 && 0 <= h.status < 0x1_0000
  }

  function Marshal(h: Header): (b: seq<byte>)
    ensures |b| == HEADER_LEN
  {
    ToLE(h.kind, 2) + ToLE(h.size, 4) + ToLE(h.status, 2)
  }

  function Parse(b: seq<byte>): Option<Header> {
    if |b| < HEADER_LEN then None
    else Some(Header(FromLE(b[0..2]), FromLE(b[2..6]), FromLE(b[6..8])))
  }

  lemma ParseOfMarshal(h: Header, rest: seq<byte>)
    requires InRange(h)
    ensures Parse(Marshal(h) + rest) == Some(h)
  {
    var b := Marshal(h) + rest;
    assert b[0..2] == ToLE(h.kind, 2) && b[2..6] == ToLE(h.size, 4) && b[6..8] == ToLE(h.status, 2);
    FromLEOfToLE(h.kind, 2);
    FromLEOfToLE(h.size, 4);
    FromLEOfToLE(h.status, 2);
  }

  /** Type in bytes 0 and 1, body size in 2 to 5, status in 6 and 7, least significant first. */
  lemma HeaderBytes(h: Header)
    ensures var b := Marshal(h);
            && (forall i :: 0 <= i < 2 ==> b[..2][i] == h.kind / Pow256(i) % 256)
            && (forall i :: 0 <= i < 4 ==> b[2..6][i] == h.size / Pow256(i) % 256)
            && (forall i :: 0 <= i < 2 ==> b[6..][i] == h.status / Pow256(i) % 256)
  {
    var b := Marshal(h);
    assert b[..2] == ToLE(h.kind, 2) && b[2..6] == ToLE(h.size, 4) && b[6..] == ToLE(h.status, 2);
    ToLEDigits(h.kind, 2);
    ToLEDigits(h.size, 4);
    ToLEDigits(h.status, 2);
  }

  // ----- VALIDATE_VIDEO_SESSION -----

  const TOKEN_WIDTH := 129
  const IP_WIDTH := 65
  const USER_WIDTH := 129

  /** Zero-padded to its width; `None` when it does not fit. */
  function Fixed(value: seq<byte>, width: nat): (r: Option<seq<byte>>)
    ensures r.Some? <==> |value| <= width
    ensures r.Some? ==> |r.value| == width
  {
    if |value| > width then None else Some(value + Zeros(width - |value|))
  }

  predicate Fits(token: seq<byte>, ip: seq<byte>, user: seq<byte>) {
    |token| <= TOKEN_WIDTH && |ip| <= IP_WIDTH && |user| <= USER_WIDTH
  }

  function ValidateBody(token: seq<byte>, ip: seq<byte>, user: seq<byte>): (b: seq<byte>)
    requires Fits(token, ip, user)
    ensures |b| == 324
  {
    [0] + Fixed(token, TOKEN_WIDTH).value + Fixed(ip, IP_WIDTH).value + Fixed(user, USER_WIDTH).value
  }

  function ValidatePacket(token: seq<byte>, ip: seq<byte>, user: seq<byte>): (r: Option<seq<byte>>)
    ensures r.Some? <==> Fits(token, ip, user)
    ensures r.Some? ==> |r.value| == HEADER_LEN + 324
  {
    if Fits(token, ip, user) then
      Some(Marshal(Header(OP_VALIDATE, 324, 0)) + ValidateBody(token, ip, user))
    else None
  }

  predicate NoNul(s: seq<byte>) { forall i :: 0 <= i < |s| ==> s[i] != 0 }

  function UpToNul(s: seq<byte>): seq<byte> {
    if s == [] || s[0] == 0 then [] else [s[0]] + UpToNul(s[1..])
  }

  /** A NUL-free value is read back from its field. */
  lemma {:induction false} FixedRecovers(value: seq<byte>, width: nat)
    requires NoNul(value) && |value| <= width
    ensures UpToNul(Fixed(value, width).value) == value
    decreases |value|
  {
    var field := value + Zeros(width - |value|);
    if value != [] {
      FixedRecovers(value[1..], width - 1);
      assert field[1..] == value[1..] + Zeros(width - |value|);
    }
  }

  /** The packet's layout: header for 324 body bytes, then the three fields in order. */
  lemma ValidateLayout(token: seq<byte>, ip: seq<byte>, user: seq<byte>)
    requires Fits(token, ip, user)
    ensures var p := ValidatePacket(token, ip, user).value;
            && Parse(p) == Some(Header(OP_VALIDATE, 324, 0))
            && p[8] == 0
            && p[9..138] == Fixed(token, TOKEN_WIDTH).value
            && p[138..203] == Fixed(ip, IP_WIDTH).value
            && p[203..332] == Fixed(user, USER_WIDTH).value
  {
    var body := ValidateBody(token, ip, user);
    ParseOfMarshal(Header(OP_VALIDATE, 324, 0), body);
    var p := ValidatePacket(token, ip, user).value;
    assert p[8..] == body;
    BodyParts([0], Fixed(token, TOKEN_WIDTH).value, Fixed(ip, IP_WIDTH).value, Fixed(user, USER_WIDTH).value);
    assert p[9..138] == body[1..130] && p[138..203] == body[130..195] && p[203..332] == body[195..324];
  }

  lemma BodyParts(a: seq<byte>, b: seq<byte>, c: seq<byte>, d: seq<byte>)
    requires |a| == 1 && |b| == 129 && |c| == 65 && |d| == 129
    ensures var s := a + b + c + d;
            s[1..130] == b && s[130..195] == c && s[195..324] == d && s[0] == a[0]
  {
  }

  /** Two sessions with the same packet are the same session. */
  lemma ValidateDetermines(t1: seq<byte>, i1: seq<byte>, u1: seq<byte>, t2: seq<byte>, i2: seq<byte>, u2: seq<byte>)
    requires Fits(t1, i1, u1) && Fits(t2, i2, u2)
    requires NoNul(t1) && NoNul(i1) && NoNul(u1) && NoNul(t2) && NoNul(i2) && NoNul(u2)
    requires ValidatePacket(t1, i1, u1) == ValidatePacket(t2, i2, u2)
    ensures t1 == t2 && i1 == i2 && u1 == u2
  {
    ValidateLayout(t1, i1, u1);
    ValidateLayout(t2, i2, u2);
    FixedRecovers(t1, TOKEN_WIDTH);
    FixedRecovers(t2, TOKEN_WIDTH);
    FixedRecovers(i1, IP_WIDTH);
    FixedRecovers(i2, IP_WIDTH);
    FixedRecovers(u1, USER_WIDTH);
    FixedRecovers(u2, USER_WIDTH);
  }

  // ----- packets on the byte stream -----

  /** Why no packet could be read; `partial` says bytes of it had arrived. */
  datatype Loss = TimedOut(partial: bool) | PeerClosed | SocketFault | Oversized

  datatype Read = Received(packet: Packet) | Missing(why: Loss)

  function WhyNot(t: Taken): Loss
    requires !t.Got?
  {
    match t
    case Idle => TimedOut(false)
    case Stalled => TimedOut(true)
    case Eof => PeerClosed
    case Broken => SocketFault
  }

  /** One packet: 8 header bytes, then as many body bytes as the header says, unless that
      is implausibly many. */
  function NextPacket(toks: seq<Token>): (r: (Read, seq<Token>))
    ensures r.0.Received? ==> |r.1| < |toks| && |r.0.packet.body| <= MAX_FRAME_BYTES
  {
    var head := TakeExact(toks, HEADER_LEN);
    if !head.0.Got? then (Missing(WhyNot(head.0)), head.1)
    else
      var h := Parse(head.0.bytes).value;
      if h.size > MAX_FRAME_BYTES then (Missing(Oversized), head.1)
      else
        var body := TakeExact(head.1, h.size);
        if body.0.Got? then (Received(Packet(h.kind, h.status, body.0.bytes)), body.1)
        else (Missing(WhyNot(body.0)), body.1)
  }

  /** `read_packet`, whatever way the bytes arrive. */
  method ReadPacket(t: Transport) returns (r: Read)
    requires t.Valid()
    modifies t`inbox
    ensures t.Valid()
    ensures (r, t.Left()) == NextPacket(old(t.Left()))
  {
    var head := t.RecvExact(HEADER_LEN);
    if !head.Got? {
      return Missing(WhyNot(head));
    }
    var h := Parse(head.bytes).value;
    if h.size > MAX_FRAME_BYTES {
      return Missing(Oversized);
    }
    var body := t.RecvExact(h.size);
    r := if body.Got? then Received(Packet(h.kind, h.status, body.bytes)) else Missing(WhyNot(body));
  }

  /** Every packet a stream yields, and why there are no more. */
  function ReadAll(toks: seq<Token>): (seq<Packet>, Loss)
    decreases |toks|
  {
    match NextPacket(toks)
    case (Received(p), rest) => var all := ReadAll(rest); ([p] + all.0, all.1)
    case (Missing(why), _) => ([], why)
  }

  function Serialised(p: Packet): seq<byte> {
    Marshal(Header(p.kind, |p.body|, p.status)) + p.body
  }

  function Stream(packets: seq<Packet>): seq<byte> {
    if packets == [] then [] else Serialised(packets[0]) + Stream(packets[1..])
  }

  predicate Sendable(p: Packet) { p.kind < 0x1_0000 && p.status < 0x1_0000 && |p.body| < U32 }

  predicate AllSendable(packets: seq<Packet>) {
    forall i :: 0 <= i < |packets| ==> Sendable(packets[i])
  }

  /** The header of a sendable packet arrives as such. */
  lemma HeaderArrives(p: Packet, rest: seq<Token>)
    requires Sendable(p)
    ensures var head := Marshal(Header(p.kind, |p.body|, p.status));
            && TakeExact(Raw(head) + rest, HEADER_LEN) == (Got(head), rest)
            && Parse(head) == Some(Header(p.kind, |p.body|, p.status))
  {
    var h := Header(p.kind, |p.body|, p.status);
    ParseOfMarshal(h, []);
    assert Marshal(h) + [] == Marshal(h);
    TakeWhole(Marshal(h), rest);
  }

  /** A packet at the front of a stream is read back, the rest untouched, unless its body
      exceeds the cap. */
  lemma ReadSerialised(p: Packet, rest: seq<Token>)
    requires Sendable(p)
    ensures |p.body| <= MAX_FRAME_BYTES ==> NextPacket(Raw(Serialised(p)) + rest) == (Received(p), rest)
    ensures |p.body| > MAX_FRAME_BYTES ==> NextPacket(Raw(Serialised(p)) + rest).0 == Missing(Oversized)
  {
    var head := Marshal(Header(p.kind, |p.body|, p.status));
    RawConcat(head, p.body, rest);
    HeaderArrives(p, Raw(p.body) + rest);
    TakeWhole(p.body, rest);
  }

  /** A packet cut off before its end is not read: not at all, or as oversized. */
  lemma CutPacket(p: Packet, cut: nat, rest: seq<Token>)
    requires Sendable(p) && cut < |Serialised(p)| && (rest == [] || !rest[0].B?)
    ensures NextPacket(Raw(Serialised(p)[..cut]) + rest).0.Missing?
    ensures NextPacket(Raw(Serialised(p)[..cut]) + rest).0.why.Oversized? ==> |p.body| > MAX_FRAME_BYTES
  {
    if cut < HEADER_LEN {
      HeaderLost(Serialised(p)[..cut], rest);
    } else {
      CutInSecond(Marshal(Header(p.kind, |p.body|, p.status)), p.body, cut);
      CutBody(p, p.body[..cut - HEADER_LEN], rest);
    }
  }

  lemma CutInSecond(a: seq<byte>, b: seq<byte>, cut: nat)
    requires |a| <= cut <= |a| + |b|
    ensures (a + b)[..cut] == a + b[..cut - |a|]
  {
  }

  lemma CutBody(p: Packet, part: seq<byte>, rest: seq<Token>)
    requires Sendable(p) && |part| < |p.body| && (rest == [] || !rest[0].B?)
    ensures var r := NextPacket(Raw(Marshal(Header(p.kind, |p.body|, p.status)) + part) + rest).0;
            r.Missing? && (r.why.Oversized? ==> |p.body| > MAX_FRAME_BYTES)
  {
    if |p.body| <= MAX_FRAME_BYTES {
      BodyLost(p, part, rest);
    } else {
      RawConcat(Marshal(Header(p.kind, |p.body|, p.status)), part, rest);
      HeaderArrives(p, Raw(part) + rest);
    }
  }

  /** Why a packet is missing: nothing more came, the socket failed, or the wait timed out,
      with or without bytes of the header or body being read. */
  function LossAt(some: seq<byte>, rest: seq<Token>): Loss
    requires rest == [] || !rest[0].B?
  {
    if rest == [] then PeerClosed else if rest[0].F? then SocketFault else TimedOut(some != [])
  }

  lemma TakeLost(some: seq<byte>, rest: seq<Token>, n: nat)
    requires |some| < n && (rest == [] || !rest[0].B?)
    ensures var r := TakeExact(Raw(some) + rest, n).0; !r.Got? && WhyNot(r) == LossAt(some, rest)
  {
    if rest == [] {
      assert Raw(some) + rest == Raw(some);
      TakeEof(some, n);
    } else {
      assert rest == [rest[0]] + rest[1..];
      TakeBlocked(some, rest[0], rest[1..], n);
    }
  }

  lemma HeaderLost(some: seq<byte>, rest: seq<Token>)
    requires |some| < 8 && (rest == [] || !rest[0].B?)
    ensures NextPacket(Raw(some) + rest).0 == Missing(LossAt(some, rest))
  {
    TakeLost(some, rest, HEADER_LEN);
  }

  lemma BodyLost(p: Packet, part: seq<byte>, rest: seq<Token>)
    requires Sendable(p) && |part| < |p.body| <= MAX_FRAME_BYTES && (rest == [] || !rest[0].B?)
    ensures NextPacket(Raw(Marshal(Header(p.kind, |p.body|, p.status)) + part) + rest).0 == Missing(LossAt(part, rest))
  {
    RawConcat(Marshal(Header(p.kind, |p.body|, p.status)), part, rest);
    HeaderArrives(p, Raw(part) + rest);
    TakeLost(part, rest, |p.body|);
  }

  lemma TakeShort(some: seq<byte>, rest: seq<Token>, n: nat)
    requires |some| < n && (rest == [] || !rest[0].B?)
    ensures !TakeExact(Raw(some) + rest, n).0.Got?
  {
    if rest == [] {
      assert Raw(some) + rest == Raw(some);
      TakeEof(some, n);
    } else {
      assert rest == [rest[0]] + rest[1..];
      TakeBlocked(some, rest[0], rest[1..], n);
    }
  }

  /** How many packets come before the first whose body exceeds the cap. */
  function Legible(packets: seq<Packet>): (k: nat)
    ensures k <= |packets| && (k < |packets| ==> |packets[k].body| > MAX_FRAME_BYTES)
  {
    if packets == [] || |packets[0].body| > MAX_FRAME_BYTES then 0 else 1 + Legible(packets[1..])
  }

  /** A stream of packets is read back packet by packet, body boundaries and all, up to the
      first oversized one; without one, what follows is read on. */
  lemma {:induction false} StreamIsReadBack(packets: seq<Packet>, rest: seq<Token>)
    requires AllSendable(packets)
    ensures ReadAll(Raw(Stream(packets)) + rest)
            == if Legible(packets) < |packets| then (packets[..Legible(packets)], Oversized)
               else (packets + ReadAll(rest).0, ReadAll(rest).1)
  {
    var toks := Raw(Stream(packets)) + rest;
    if packets == [] {
      assert toks == rest && packets + ReadAll(rest).0 == ReadAll(rest).0;
    } else {
      RawConcat(Serialised(packets[0]), Stream(packets[1..]), rest);
      ReadOn(packets[0], Raw(Stream(packets[1..])) + rest);
      if |packets[0].body| <= MAX_FRAME_BYTES {
        StreamIsReadBack(packets[1..], rest);
        Regroup(packets, ReadAll(rest).0);
        TakeCons(packets, Legible(packets[1..]));
      }
    }
  }

  lemma Regroup(packets: seq<Packet>, more: seq<Packet>)
    requires packets != []
    ensures [packets[0]] + (packets[1..] + more) == packets + more
  {
  }

  lemma TakeCons(packets: seq<Packet>, k: nat)
    requires packets != [] && k < |packets|
    ensures [packets[0]] + packets[1..][..k] == packets[..k + 1]
  {
  }

  /** Reading a packet, then what follows it. */
  function Onward(p: Packet, later: (seq<Packet>, Loss)): (seq<Packet>, Loss) {
    if |p.body| <= MAX_FRAME_BYTES then ([p] + later.0, later.1) else ([], Oversized)
  }

  lemma ReadOn(p: Packet, rest: seq<Token>)
    requires Sendable(p)
    ensures ReadAll(Raw(Serialised(p)) + rest) == Onward(p, ReadAll(rest))
  {
    ReadSerialised(p, rest);
  }

  lemma CutRaw(a: seq<byte>, b: seq<byte>, cut: nat, rest: seq<Token>)
    requires cut <= |a + b|
    ensures Raw((a + b)[..cut]) + rest
            == if cut < |a| then Raw(a[..cut]) + rest else Raw(a) + (Raw(b[..cut - |a|]) + rest)
  {
    if cut < |a| {
      assert (a + b)[..cut] == a[..cut];
    } else {
      CutInSecond(a, b, cut);
      RawConcat(a, b[..cut - |a|], rest);
    }
  }

  lemma ReadCut(p: Packet, cut: nat, rest: seq<Token>)
    requires Sendable(p) && cut < |Serialised(p)| && (rest == [] || !rest[0].B?)
    ensures var all := ReadAll(Raw(Serialised(p)[..cut]) + rest);
            all.0 == [] && (all.1.Oversized? ==> |p.body| > MAX_FRAME_BYTES)
  {
    CutPacket(p, cut, rest);
  }

  /** Some of these packets from the first on, and `Oversized` only before one that is. */
  predicate ReadFrom(packets: seq<Packet>, all: (seq<Packet>, Loss)) {
    && |all.0| <= |packets| && all.0 == packets[..|all.0|]
    && (all.1.Oversized? ==> |all.0| < |packets| && |packets[|all.0|].body| > MAX_FRAME_BYTES)
  }

  lemma OnwardReadFrom(packets: seq<Packet>, all: (seq<Packet>, Loss))
    requires packets != [] && |packets[0].body| <= MAX_FRAME_BYTES && ReadFrom(packets[1..], all)
    ensures ReadFrom(packets, Onward(packets[0], all))
  {
    TakeCons(packets, |all.0|);
  }

  // What the proof below needs to know of `ReadAll`.
  type Reader = seq<Token> -> (seq<Packet>, Loss)

  ghost predicate ReadsWhole(read: Reader) {
    forall p, rest :: Sendable(p) ==> read(Raw(Serialised(p)) + rest) == Onward(p, read(rest))
  }

  ghost predicate ReadsCut(read: Reader, rest: seq<Token>) {
    && read(rest).0 == [] && !read(rest).1.Oversized?
    && forall p, cut :: Sendable(p) && 0 <= cut < |Serialised(p)| ==>
         var all := read(Raw(Serialised(p)[..cut]) + rest);
         all.0 == [] && (all.1.Oversized? ==> |p.body| > MAX_FRAME_BYTES)
  }

  lemma ReadAllReadsWhole(read: Reader)
    requires forall toks :: read(toks) == ReadAll(toks)
    ensures ReadsWhole(read)
  {
    forall p, rest | Sendable(p)
      ensures read(Raw(Serialised(p)) + rest) == Onward(p, read(rest))
    {
      ReadOn(p, rest);
    }
  }

  lemma ReadAllReadsCut(read: Reader, rest: seq<Token>)
    requires forall toks :: read(toks) == ReadAll(toks)
    requires rest == [] || !rest[0].B?
    ensures ReadsCut(read, rest)
  {
    forall p, cut | Sendable(p) && 0 <= cut < |Serialised(p)|
      ensures var all := read(Raw(Serialised(p)[..cut]) + rest);
              all.0 == [] && (all.1.Oversized? ==> |p.body| > MAX_FRAME_BYTES)
    {
      ReadCut(p, cut, rest);
    }
    assert Raw([]) + rest == rest;
    TakeShort([], rest, HEADER_LEN);
  }

  lemma {:induction false} ReadsPrefix(read: Reader, packets: seq<Packet>, cut: nat, rest: seq<Token>)
    requires ReadsWhole(read) && ReadsCut(read, rest)
    requires AllSendable(packets) && cut <= |Stream(packets)|
    ensures ReadFrom(packets, read(Raw(Stream(packets)[..cut]) + rest))
    decreases |packets|
  {
    if packets == [] {
      assert Raw([]) + rest == rest;
    } else {
      var p, later := packets[0], Stream(packets[1..]);
      var first := |Serialised(p)|;
      CutRaw(Serialised(p), later, cut, rest);
      if cut < first {
        assert read(Raw(Serialised(p)[..cut]) + rest).0 == [];
      } else {
        ReadWholeStep(read, p, Raw(later[..cut - first]) + rest);
        ReadsPrefix(read, packets[1..], cut - first, rest);
        if |p.body| <= MAX_FRAME_BYTES {
          OnwardReadFrom(packets, read(Raw(later[..cut - first]) + rest));
        }
      }
    }
  }

  lemma ReadWholeStep(read: Reader, p: Packet, rest: seq<Token>)
    requires ReadsWhole(read) && Sendable(p)
    ensures read(Raw(Serialised(p)) + rest) == Onward(p, read(rest))
  {
  }

  /** A stream broken off anywhere yields some of its packets from the first on, nothing
      else; a packet is called oversized only if it is. */
  lemma BrokenStreamIsPrefix(packets: seq<Packet>, cut: nat, rest: seq<Token>)
    requires AllSendable(packets) && cut <= |Stream(packets)| && (rest == [] || !rest[0].B?)
    ensures ReadFrom(packets, ReadAll(Raw(Stream(packets)[..cut]) + rest))
  {
    var read: Reader := toks => ReadAll(toks);
    ReadAllReadsWhole(read);
    ReadAllReadsCut(read, rest);
    ReadsPrefix(read, packets, cut, rest);
  }
}
