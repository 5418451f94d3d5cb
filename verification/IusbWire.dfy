/** IUSB packet reads over a byte stream with poll timeouts. */
module IusbWire {
  import opened Wrappers
  import opened Bytes
  import opened IusbFrame
  import opened Wire

  const MAX_PACKET_PAYLOAD := 0x20000 + 4096

  // ----- read_packet -----

  datatype ReadOutcome = Received(packet: Packet) | IdlePoll | PeerClosed | MidFrameStall | SocketFault | BadFrame

  function WhyNot(t: Taken): ReadOutcome
    requires !t.Got?
  {
    match t
    case Idle => IdlePoll
    case Eof => PeerClosed
    case Stalled => MidFrameStall
    case Broken => SocketFault
  }

  function NextPacket(toks: seq<Token>): (r: (ReadOutcome, seq<Token>))
    ensures |r.1| <= |toks|
    ensures toks != [] ==> |r.1| < |toks|
    ensures toks == [] ==> r.0 == PeerClosed
  {
    var head := TakeExact(toks, HEADER_LEN);
    if !head.0.Got? then (WhyNot(head.0), head.1)
    else
      match Parse(head.0.bytes)
      case Err(_) => (BadFrame, head.1)
      case Ok(h) =>
        if h.dataLen > MAX_PACKET_PAYLOAD then (BadFrame, head.1)
        else
          var body := TakeExact(head.1, h.dataLen);
          if body.0.Got? then (Received(Packet(h, body.0.bytes)), body.1) else (WhyNot(body.0), body.1)
  }

  method ReadPacket(t: Transport) returns (r: ReadOutcome)
    requires t.Valid()
    modifies t`inbox
    ensures t.Valid()
    ensures (r, t.Left()) == NextPacket(old(t.Left()))
  {
    var head := t.RecvExact(HEADER_LEN);
    if !head.Got? {
      return WhyNot(head);
    }
    var h := Parse(head.bytes);
    if h.Err? || h.value.dataLen > MAX_PACKET_PAYLOAD {
      return BadFrame;
    }
    MarshalOfParse(head.bytes);
    var body := t.RecvExact(h.value.dataLen);
    r := if body.Got? then Received(Packet(h.value, body.bytes)) else WhyNot(body);
  }

  /** Once 32 bytes are there, a packet is refused exactly for its signature or for a payload
      of more than 135168 bytes, before any of the payload is read. */
  lemma RefusedIff(head: seq<byte>, rest: seq<Token>)
    requires |head| == 32
    ensures var (r, left) := NextPacket(Raw(head) + rest);
            && (r == BadFrame <==> || head[0..8] != [0x49, 0x55, 0x53, 0x42, 0x20, 0x20, 0x20, 0x20]
                                   || FromLE(head[12..16]) > 135168)
            && (r == BadFrame ==> left == rest)
  {
    TakeWhole(head, rest);
  }

  /** A frame the reader accepts: well formed, and no larger than the cap. */
  predicate Whole(f: seq<byte>) {
    ParseRequestFrame(f).Ok? && |f| <= HEADER_LEN + MAX_PACKET_PAYLOAD
  }

  lemma WholeFrameIsRead(f: seq<byte>, rest: seq<Token>)
    requires Whole(f)
    ensures NextPacket(Raw(f) + rest) == (Received(ParseRequestFrame(f).value), rest)
  {
    var head, body := f[..HEADER_LEN], f[HEADER_LEN..];
    assert Raw(f) + rest == Raw(head) + (Raw(body) + rest) by {
      assert f == head + body;
      RawConcat(head, body, rest);
    }
    TakeWhole(head, Raw(body) + rest);
    TakeWhole(body, rest);
  }

  /** What one poll timeout does, wherever it falls in a frame: before the frame it is
      harmless, inside header or payload it is a stall, after the frame it waits its turn.
      Exactly between header and payload it passes for idle with the header gone. */
  lemma TimeoutInFrame(f: seq<byte>, k: nat, rest: seq<Token>)
    requires Whole(f) && k <= |f|
    ensures var toks := Raw(f[..k]) + ([T] + (Raw(f[k..]) + rest));
            NextPacket(toks) ==
            if k == |f| then (Received(ParseRequestFrame(f).value), [T] + rest)
            else if k == 0 then (IdlePoll, Raw(f) + rest)
            else if k == HEADER_LEN then (IdlePoll, Raw(f[HEADER_LEN..]) + rest)
            else (MidFrameStall, Raw(f[k..]) + rest)
  {
    var left := Raw(f[k..]) + rest;
    if k == |f| {
      assert f[..k] == f && left == rest;
      WholeFrameIsRead(f, [T] + rest);
    } else if k < HEADER_LEN {
      assert k == 0 ==> f[k..] == f;
      TakeBlocked(f[..k], T, left, HEADER_LEN);
    } else {
      TimeoutInPayload(f, k, left);
    }
  }

  lemma TimeoutInPayload(f: seq<byte>, k: nat, left: seq<Token>)
    requires Whole(f) && HEADER_LEN <= k < |f|
    ensures NextPacket(Raw(f[..k]) + ([T] + left)) == (if k == HEADER_LEN then IdlePoll else MidFrameStall, left)
  {
    var head, some := f[..HEADER_LEN], f[HEADER_LEN..k];
    assert Raw(f[..k]) + ([T] + left) == Raw(head) + (Raw(some) + ([T] + left)) by {
      assert f[..k] == head + some;
      RawConcat(head, some, [T] + left);
    }
    TakeWhole(head, Raw(some) + ([T] + left));
    TakeBlocked(some, T, left, |f| - HEADER_LEN);
  }

  /** A timeout inside the stream costs nothing exactly when it falls between frames. */
  lemma TimeoutHarmlessIff(f: seq<byte>, k: nat, rest: seq<Token>)
    requires Whole(f) && k < |f|
    ensures var toks := Raw(f[..k]) + ([T] + (Raw(f[k..]) + rest));
            NextPacket(toks) == (IdlePoll, Raw(f) + rest) <==> k == 0
  {
    TimeoutInFrame(f, k, rest);
    if k == HEADER_LEN {
      assert |Raw(f[HEADER_LEN..]) + rest| < |Raw(f) + rest|;
    }
  }
}
