/** The console handshake: greeting, session packet, verdict, resume. */
module IvtpHandshake {
  import opened Wrappers
  import opened Bytes
  import opened Wire
  import opened Ivtp

  datatype ErrorClass =
    | ProtocolError | AuthenticationError | UnsupportedCapability | TimedOut | InvalidState | RemoteOperation

  datatype Outcome =
    | Open(greetingLen: nat, subStatus: Option<byte>)
    | Refused(error: ErrorClass)
    | NoPacket                     // no outcome yet; the handshake itself is then `Lost`
    | Lost(why: Loss)

  function ValidateStatusError(status: nat): ErrorClass {
    if status == 2 then UnsupportedCapability
    else if status in {0, 3, 4, 5} then AuthenticationError
    else ProtocolError
  }

  function StopSessionError(status: nat): ErrorClass {
    match status
    case 7 => AuthenticationError
    case 8 => UnsupportedCapability
    case 9 => ErrorClass.TimedOut
    case 10 => InvalidState
    case _ => RemoteOperation
  }

  datatype Session = Session(token: seq<byte>, ip: seq<byte>, user: seq<byte>, announce: bool)

  function WebTokenPacket(token: seq<byte>): seq<byte> {
    Marshal(Header(OP_GET_WEB_TOKEN, |token|, 0)) + token
  }

  function ResumePacket(): seq<byte> { Marshal(Header(OP_RESUME_REDIRECTION, 0, 0)) }

  /** What is sent once the greeting is accepted, as far as the fields allow. */
  function Introduction(s: Session): seq<seq<byte>> {
    (if s.announce then [WebTokenPacket(s.token)] else [])
    + (if Fits(s.token, s.ip, s.user) then [ValidatePacket(s.token, s.ip, s.user).value] else [])
  }

  /** A packet the wait for the verdict cannot pass over. */
  predicate Decisive(p: Packet) {
    p.kind == OP_VALIDATE_RESPONSE || p.kind == OP_STOP_SESSION || |p.body| > MAX_FRAME_BYTES
  }

  function FirstDecisive(packets: seq<Packet>): Option<Packet> {
    if packets == [] then None
    else if Decisive(packets[0]) then Some(packets[0])
    else FirstDecisive(packets[1..])
  }

  function Verdict(greetingLen: nat, p: Packet): Outcome {
    if |p.body| > MAX_FRAME_BYTES then Refused(ProtocolError)
    else if p.kind == OP_STOP_SESSION then Refused(StopSessionError(p.status))
    else if p.body == [] then Refused(ProtocolError)
    else if p.body[0] != 1 then Refused(ValidateStatusError(p.body[0]))
    else Open(greetingLen, if |p.body| > 1 then Some(p.body[1]) else None)
  }

  predicate Accepted(packets: seq<Packet>) {
    packets != [] && |packets[0].body| <= MAX_FRAME_BYTES && packets[0].kind == OP_SESSION_ACCEPTED
  }

  /** The whole exchange, told from its greeting and its one deciding packet. */
  function Handshake(packets: seq<Packet>, s: Session): (Outcome, seq<seq<byte>>) {
    if !Accepted(packets) then (if packets == [] then NoPacket else Refused(ProtocolError), [])
    else if !Fits(s.token, s.ip, s.user) then (Refused(ProtocolError), Introduction(s))
    else
      var first := FirstDecisive(packets[1..]);
      var outcome := if first.None? then NoPacket else Verdict(|packets[0].body|, first.value);
      (outcome, Introduction(s) + (if outcome.Open? then [ResumePacket()] else []))
  }

  function Ended(outcome: Outcome, why: Loss): Outcome {
    if !outcome.NoPacket? then outcome else if why.Oversized? then Refused(ProtocolError) else Lost(why)
  }

  /** The exchange over a byte stream. */
  function HandshakeOn(toks: seq<Token>, s: Session): (Outcome, seq<seq<byte>>) {
    var (packets, why) := ReadAll(toks);
    var (outcome, sent) := Handshake(packets, s);
    (Ended(outcome, why), sent)
  }

  function Flat(packets: seq<seq<byte>>): seq<byte> {
    if packets == [] then [] else Flat(packets[..|packets| - 1]) + packets[|packets| - 1]
  }

  lemma FlatSnoc(packets: seq<seq<byte>>, p: seq<byte>)
    ensures Flat(packets + [p]) == Flat(packets) + p
  {
    assert (packets + [p])[..|packets|] == packets;
  }

  method Send(t: Transport, sent: seq<seq<byte>>, p: seq<byte>) returns (now: seq<seq<byte>>)
    modifies t`sent
    ensures now == sent + [p]
    ensures forall base :: old(t.sent) == base + Flat(sent) ==> t.sent == base + Flat(now)
  {
    t.sent := t.sent + p;
    now := sent + [p];
    FlatSnoc(sent, p);
    assert forall base: seq<byte> :: base + (Flat(sent) + p) == base + Flat(sent) + p;
  }

  /** How the wait for the verdict over a byte stream ends. */
  function VerdictOn(toks: seq<Token>, greetingLen: nat): Outcome {
    var (packets, why) := ReadAll(toks);
    var first := FirstDecisive(packets);
    Ended(if first.None? then NoPacket else Verdict(greetingLen, first.value), why)
  }

  lemma VerdictOnNext(toks: seq<Token>, greetingLen: nat)
    ensures var (next, rest) := NextPacket(toks);
            VerdictOn(toks, greetingLen)
            == if next.Missing? then Ended(NoPacket, next.why)
               else if Decisive(next.packet) then Verdict(greetingLen, next.packet)
               else VerdictOn(rest, greetingLen)
  {
    var (next, rest) := NextPacket(toks);
    if next.Received? {
      assert ([next.packet] + ReadAll(rest).0)[1..] == ReadAll(rest).0;
    }
  }

  /** The wait for the verdict: everything not decisive is read and dropped. */
  method AwaitVerdict(t: Transport, greetingLen: nat) returns (outcome: Outcome)
    requires t.Valid()
    modifies t`inbox
    ensures t.Valid()
    ensures outcome == VerdictOn(old(t.Left()), greetingLen)
  {
    while true
      invariant t.Valid()
      invariant VerdictOn(t.Left(), greetingLen) == VerdictOn(old(t.Left()), greetingLen)
      decreases |t.Left()|
    {
      VerdictOnNext(t.Left(), greetingLen);
      var next := ReadPacket(t);
      if next.Missing? {
        return if next.why.Oversized? then Refused(ProtocolError) else Lost(next.why);
      }
      var p := next.packet;
      if p.kind == OP_VALIDATE_RESPONSE {
        if p.body == [] {
          return Refused(ProtocolError);
        }
        if p.body[0] != 1 {
          return Refused(ValidateStatusError(p.body[0]));
        }
        return Open(greetingLen, if |p.body| > 1 then Some(p.body[1]) else None);
      }
      if p.kind == OP_STOP_SESSION {
        return Refused(StopSessionError(p.status));
      }
    }
  }

  /** What is sent on an accepted greeting; `ok` says that the session packet was. */
  method Introduce(t: Transport, s: Session) returns (ok: bool, sent: seq<seq<byte>>)
    modifies t`sent
    ensures ok == Fits(s.token, s.ip, s.user)
    ensures sent == Introduction(s) && t.sent == old(t.sent) + Flat(sent)
  {
    sent := [];
    assert t.sent == t.sent + Flat(sent);
    if s.announce {
      sent := Send(t, sent, WebTokenPacket(s.token));
    }
    var validate := ValidatePacket(s.token, s.ip, s.user);
    ok := validate.Some?;
    if ok {
      sent := Send(t, sent, validate.value);
    }
  }

  lemma HandshakeOnNext(toks: seq<Token>, s: Session)
    ensures var (next, rest) := NextPacket(toks);
            HandshakeOn(toks, s)
            == if next.Missing? then (Ended(NoPacket, next.why), [])
               else if next.packet.kind != OP_SESSION_ACCEPTED then (Refused(ProtocolError), [])
               else if !Fits(s.token, s.ip, s.user) then (Refused(ProtocolError), Introduction(s))
               else
                 var outcome := VerdictOn(rest, |next.packet.body|);
                 (outcome, Introduction(s) + if outcome.Open? then [ResumePacket()] else [])
  {
    var (next, rest) := NextPacket(toks);
    if next.Received? {
      assert ([next.packet] + ReadAll(rest).0)[1..] == ReadAll(rest).0;
    }
  }

  /** `open_channel`: outcome and packets sent depend on the stream alone, not on how it
      arrives chopped. */
  method OpenChannel(t: Transport, s: Session) returns (outcome: Outcome, sent: seq<seq<byte>>)
    requires t.Valid()
    modifies t
    ensures t.Valid()
    ensures (outcome, sent) == HandshakeOn(old(t.Left()), s)
    ensures t.sent == old(t.sent) + Flat(sent)
  {
    HandshakeOnNext(t.Left(), s);
    assert t.sent + Flat([]) == t.sent;
    var greeting := ReadPacket(t);
    if greeting.Missing? {
      return if greeting.why.Oversized? then Refused(ProtocolError) else Lost(greeting.why), [];
    }
    if greeting.packet.kind != OP_SESSION_ACCEPTED {
      return Refused(ProtocolError), [];
    }
    var ok;
    ok, sent := Introduce(t, s);
    if !ok {
      return Refused(ProtocolError), sent;
    }
    outcome := AwaitVerdict(t, |greeting.packet.body|);
    assert sent + [] == sent;
    if outcome.Open? {
      sent := Send(t, sent, ResumePacket());
    }
  }

  // ----- what decides -----

  /** A verdict (type 19), a stop (type 8) or an oversized packet. */
  predicate Settles(p: Packet) { p.kind == 19 || p.kind == 8 || |p.body| > 9_216_000 }

  /** Position `k` holds the first packet that settles the matter. */
  ghost predicate DecidesAt(packets: seq<Packet>, k: nat) {
    k < |packets| && Settles(packets[k]) && forall j :: 0 <= j < k ==> !Settles(packets[j])
  }

  lemma {:induction false} FirstDecisiveIsFirst(packets: seq<Packet>, k: nat)
    requires DecidesAt(packets, k)
    ensures FirstDecisive(packets) == Some(packets[k])
  {
    if k > 0 {
      assert !Settles(packets[0]);
      assert forall j :: 0 <= j < |packets| - 1 ==> packets[1..][j] == packets[j + 1];
      FirstDecisiveIsFirst(packets[1..], k - 1);
    }
  }

  lemma {:induction false} SomeDecides(packets: seq<Packet>) returns (k: nat)
    requires FirstDecisive(packets).Some?
    ensures DecidesAt(packets, k)
  {
    if Decisive(packets[0]) {
      k := 0;
    } else {
      var j := SomeDecides(packets[1..]);
      k := j + 1;
      forall i | 0 <= i < k
        ensures !Settles(packets[i])
      {
        assert i > 0 ==> packets[i] == packets[1..][i - 1];
      }
    }
  }

  predicate Grants(p: Packet) {
    p.kind == 19 && 1 <= |p.body| <= 9_216_000 && p.body[0] == 1
  }

  lemma ResumeIsNew(s: Session)
    ensures ResumePacket() !in Introduction(s)
  {
    var resume := ResumePacket();
    ParseOfMarshal(Header(OP_RESUME_REDIRECTION, 0, 0), []);
    assert resume + [] == resume;
    if Fits(s.token, s.ip, s.user) {
      ValidateLayout(s.token, s.ip, s.user);
    }
    assert WebTokenPacket(s.token)[..2] == ToLE(OP_GET_WEB_TOKEN, 2);
    assert resume[..2] == ToLE(OP_RESUME_REDIRECTION, 2);
    FromLEOfToLE(OP_GET_WEB_TOKEN, 2);
    FromLEOfToLE(OP_RESUME_REDIRECTION, 2);
  }

  /** RESUME_REDIRECTION is sent exactly when the greeting is accepted, the fields fit and
      the first packet after it that is a verdict, a stop or oversized is a verdict whose
      first byte is 1. */
  lemma ResumeIff(packets: seq<Packet>, s: Session)
    ensures ResumePacket() in Handshake(packets, s).1
            <==> && Accepted(packets) && Fits(s.token, s.ip, s.user)
                 && exists k: nat :: DecidesAt(packets[1..], k) && Grants(packets[1..][k])
  {
    ResumeIsNew(s);
    if Accepted(packets) && Fits(s.token, s.ip, s.user) {
      var later := packets[1..];
      if FirstDecisive(later).Some? {
        var k := SomeDecides(later);
        FirstDecisiveIsFirst(later, k);
      }
      if exists k: nat :: DecidesAt(later, k) && Grants(later[k]) {
        var k: nat :| DecidesAt(later, k) && Grants(later[k]);
        FirstDecisiveIsFirst(later, k);
      }
    }
  }

  function OnlyDecisive(packets: seq<Packet>): seq<Packet> {
    if packets == [] then []
    else if Settles(packets[0]) then [packets[0]] + OnlyDecisive(packets[1..])
    else OnlyDecisive(packets[1..])
  }

  lemma {:induction false} FirstDecisiveKept(packets: seq<Packet>)
    ensures FirstDecisive(OnlyDecisive(packets)) == FirstDecisive(packets)
  {
    if packets != [] && !Settles(packets[0]) {
      FirstDecisiveKept(packets[1..]);
    }
  }

  /** Deleting every other packet after the greeting changes neither sends nor result. */
  lemma NoiseChangesNothing(greeting: Packet, later: seq<Packet>, s: Session)
    ensures Handshake([greeting] + later, s) == Handshake([greeting] + OnlyDecisive(later), s)
  {
    assert ([greeting] + later)[1..] == later;
    assert ([greeting] + OnlyDecisive(later))[1..] == OnlyDecisive(later);
    FirstDecisiveKept(later);
  }

  // ----- packets and bytes -----

  lemma {:induction false} FirstDecisiveConcat(a: seq<Packet>, b: seq<Packet>)
    ensures FirstDecisive(a + b) == if FirstDecisive(a).Some? then FirstDecisive(a) else FirstDecisive(b)
  {
    if a == [] {
      assert a + b == b;
    } else {
      assert (a + b)[1..] == a[1..] + b;
      FirstDecisiveConcat(a[1..], b);
    }
  }

  /** Once packets decide, what follows them does not matter. */
  lemma HandshakeSettled(packets: seq<Packet>, more: seq<Packet>, s: Session)
    requires !Handshake(packets, s).0.NoPacket?
    ensures Handshake(packets + more, s) == Handshake(packets, s)
  {
    assert packets != [];
    assert (packets + more)[0] == packets[0] && (packets + more)[1..] == packets[1..] + more;
    FirstDecisiveConcat(packets[1..], more);
  }

  /** An oversized packet settles the handshake as refused, if nothing before it has. */
  lemma OversizedSettles(packets: seq<Packet>, k: nat, s: Session)
    requires k < |packets| && |packets[k].body| > MAX_FRAME_BYTES
    ensures var (outcome, sent) := Handshake(packets[..k], s);
            Handshake(packets, s) == (Ended(outcome, Oversized), sent)
  {
    var before, more := packets[..k], packets[k..];
    assert before + more == packets;
    if !Handshake(before, s).0.NoPacket? {
      HandshakeSettled(before, more, s);
    } else if k > 0 {
      assert packets[1..] == before[1..] + more;
      FirstDecisiveConcat(before[1..], more);
    }
  }

  /** Of the bytes on the wire: packets that settle the handshake settle it whatever
      follows them on the stream. */
  lemma HandshakeOfStream(packets: seq<Packet>, rest: seq<Token>, s: Session)
    requires AllSendable(packets) && !Handshake(packets, s).0.NoPacket?
    ensures HandshakeOn(Raw(Stream(packets)) + rest, s) == Handshake(packets, s)
  {
    StreamIsReadBack(packets, rest);
    if Legible(packets) < |packets| {
      OversizedSettles(packets, Legible(packets), s);
    } else {
      HandshakeSettled(packets, ReadAll(rest).0, s);
    }
  }

  /** Packets that leave it open, and then silence: the loss is reported for what it is, and
      the resume is not sent. */
  lemma WaitIsLost(packets: seq<Packet>, rest: seq<Token>, s: Session)
    requires AllSendable(packets) && Handshake(packets, s).0.NoPacket? && (rest == [] || !rest[0].B?)
    ensures HandshakeOn(Raw(Stream(packets)) + rest, s)
            == (Lost(if rest == [] then PeerClosed else if rest[0].F? then SocketFault else Loss.TimedOut(false)),
                Handshake(packets, s).1)
    ensures ResumePacket() !in Handshake(packets, s).1
  {
    StreamIsReadBack(packets, rest);
    HeaderLost([], rest);
    assert Raw([]) + rest == rest && packets + [] == packets;
    ResumeIsNew(s);
    if Legible(packets) < |packets| {
      OversizedSettles(packets, Legible(packets), s);
    }
  }

  /** A stream broken off anywhere settles the handshake as the whole one would, or reports
      the loss; the resume is never sent on the strength of a torn packet. */
  lemma BrokenHandshakeNeverLies(packets: seq<Packet>, cut: nat, rest: seq<Token>, s: Session)
    requires AllSendable(packets) && cut <= |Stream(packets)| && (rest == [] || !rest[0].B?)
    ensures var (outcome, sent) := HandshakeOn(Raw(Stream(packets)[..cut]) + rest, s);
            (outcome, sent) == Handshake(packets, s) || (outcome.Lost? && ResumePacket() !in sent)
  {
    BrokenStreamIsPrefix(packets, cut, rest);
    var (read, why) := ReadAll(Raw(Stream(packets)[..cut]) + rest);
    if why.Oversized? {
      OversizedSettles(packets, |read|, s);
    } else if !Handshake(read, s).0.NoPacket? {
      HandshakeSettled(read, packets[|read|..], s);
      assert read + packets[|read|..] == packets;
    } else {
      ResumeIsNew(s);
    }
  }

  // ----- what goes out -----

  /** The session packet's body, read back field by field. */
  predicate Carries(body: seq<byte>, s: Session) {
    && |body| == 324 && body[0] == 0
    && (NoNul(s.token) ==> UpToNul(body[1..130]) == s.token)
    && (NoNul(s.ip) ==> UpToNul(body[130..195]) == s.ip)
    && (NoNul(s.user) ==> UpToNul(body[195..324]) == s.user)
  }

  lemma BodyCarries(s: Session)
    requires Fits(s.token, s.ip, s.user)
    ensures Carries(ValidateBody(s.token, s.ip, s.user), s)
  {
    BodyParts([0], Fixed(s.token, TOKEN_WIDTH).value, Fixed(s.ip, IP_WIDTH).value, Fixed(s.user, USER_WIDTH).value);
    if NoNul(s.token) {
      FixedRecovers(s.token, TOKEN_WIDTH);
    }
    if NoNul(s.ip) {
      FixedRecovers(s.ip, IP_WIDTH);
    }
    if NoNul(s.user) {
      FixedRecovers(s.user, USER_WIDTH);
    }
  }

  function Tail(on: bool, p: Packet): seq<Packet> { if on then [p] else [] }

  lemma {:induction false} FlatConcat(a: seq<seq<byte>>, b: seq<seq<byte>>)
    ensures Flat(a + b) == Flat(a) + Flat(b)
  {
    if b == [] {
      assert a + b == a && Flat(a) + [] == Flat(a);
    } else {
      var front, last := b[..|b| - 1], b[|b| - 1];
      assert (a + b)[..|a + b| - 1] == a + front && (a + b)[|a + b| - 1] == last;
      FlatConcat(a, front);
      Associative(Flat(a), Flat(front), last);
    }
  }

  lemma Associative(a: seq<byte>, b: seq<byte>, c: seq<byte>)
    ensures a + b + c == a + (b + c)
  {
  }

  lemma {:induction false} StreamConcat(a: seq<Packet>, b: seq<Packet>)
    ensures Stream(a + b) == Stream(a) + Stream(b)
  {
    if a == [] {
      assert a + b == b;
    } else {
      assert (a + b)[1..] == a[1..] + b;
      StreamConcat(a[1..], b);
      Associative(Serialised(a[0]), Stream(a[1..]), Stream(b));
    }
  }

  lemma FlatIsStream(on: bool, p: Packet, bytes: seq<byte>)
    requires bytes == Serialised(p)
    ensures Flat(if on then [bytes] else []) == Stream(Tail(on, p))
  {
    assert [bytes][..0] == [] && [p][1..] == [];
  }

  lemma IntroductionIsStream(s: Session)
    ensures var body := if Fits(s.token, s.ip, s.user) then ValidateBody(s.token, s.ip, s.user) else [];
            Flat(Introduction(s))
            == Stream(Tail(s.announce, Packet(21, 0, s.token)) + Tail(Fits(s.token, s.ip, s.user), Packet(18, 0, body)))
  {
    var fits := Fits(s.token, s.ip, s.user);
    var body := if fits then ValidateBody(s.token, s.ip, s.user) else [];
    var validate := Serialised(Packet(18, 0, body));
    FlatIsStream(s.announce, Packet(21, 0, s.token), WebTokenPacket(s.token));
    FlatIsStream(fits, Packet(18, 0, body), validate);
    FlatConcat(if s.announce then [WebTokenPacket(s.token)] else [], if fits then [validate] else []);
    StreamConcat(Tail(s.announce, Packet(21, 0, s.token)), Tail(fits, Packet(18, 0, body)));
  }

  lemma ResumeIsStream(on: bool)
    ensures Flat(if on then [ResumePacket()] else []) == Stream(Tail(on, Packet(6, 0, [])))
  {
    assert ResumePacket() + [] == ResumePacket();
    FlatIsStream(on, Packet(6, 0, []), ResumePacket());
  }

  /** The packets an accepted handshake with fitting fields sends, in order. */
  function Outgoing(s: Session, body: seq<byte>, granted: bool): seq<Packet> {
    Tail(s.announce, Packet(21, 0, s.token)) + [Packet(18, 0, body)] + Tail(granted, Packet(6, 0, []))
  }

  /** Everything the client sends, read back as the peer reads it. Nothing goes out before
      the greeting is accepted. Then, if the fields fit: the token as a packet of type 21
      exactly when asked for, one packet of type 18 with token, address and user name each
      in its own field, and an empty packet of type 6 exactly on a grant. If they do not
      fit: only the token, if asked for. */
  lemma SendsReadBack(toks: seq<Token>, s: Session)
    ensures var (outcome, sent) := HandshakeOn(toks, s);
            var greeted := ReadAll(toks).0;
            && (greeted == [] || greeted[0].kind != 23 ==> sent == [])
            && (greeted != [] && greeted[0].kind == 23 && !Fits(s.token, s.ip, s.user) ==>
                  Flat(sent) == Stream(Tail(s.announce, Packet(21, 0, s.token))))
            && (greeted != [] && greeted[0].kind == 23 && Fits(s.token, s.ip, s.user) ==>
                  exists body ::
                    && Carries(body, s)
                    && ReadAll(Raw(Flat(sent))) == (Outgoing(s, body, outcome.Open?), PeerClosed))
  {
    var (outcome, sent) := HandshakeOn(toks, s);
    HandshakeOnNext(toks, s);
    IntroductionIsStream(s);
    if ReadAll(toks).0 != [] && ReadAll(toks).0[0].kind == 23 {
      if Fits(s.token, s.ip, s.user) {
        BodyCarries(s);
        OutgoingIsRead(s, outcome.Open?);
      } else {
        assert Tail(s.announce, Packet(21, 0, s.token)) + [] == Tail(s.announce, Packet(21, 0, s.token));
      }
    }
  }

  lemma OutgoingIsRead(s: Session, granted: bool)
    requires Fits(s.token, s.ip, s.user)
    ensures var body := ValidateBody(s.token, s.ip, s.user);
            ReadAll(Raw(Flat(Introduction(s) + if granted then [ResumePacket()] else [])))
            == (Outgoing(s, body, granted), PeerClosed)
  {
    FlatIsOutgoing(s, granted);
    ShortStreamRead(Outgoing(s, ValidateBody(s.token, s.ip, s.user), granted));
  }

  lemma FlatIsOutgoing(s: Session, granted: bool)
    requires Fits(s.token, s.ip, s.user)
    ensures var body := ValidateBody(s.token, s.ip, s.user);
            Flat(Introduction(s) + if granted then [ResumePacket()] else []) == Stream(Outgoing(s, body, granted))
  {
    var body := ValidateBody(s.token, s.ip, s.user);
    IntroductionIsStream(s);
    ResumeIsStream(granted);
    FlatConcat(Introduction(s), if granted then [ResumePacket()] else []);
    StreamConcat(Tail(s.announce, Packet(21, 0, s.token)) + [Packet(18, 0, body)], Tail(granted, Packet(6, 0, [])));
  }

  lemma ShortStreamRead(packets: seq<Packet>)
    requires forall i :: 0 <= i < |packets| ==> Sendable(packets[i]) && |packets[i].body| <= MAX_FRAME_BYTES
    ensures ReadAll(Raw(Stream(packets))) == (packets, PeerClosed)
  {
    StreamIsReadBack(packets, []);
    assert Raw(Stream(packets)) + [] == Raw(Stream(packets));
    assert ReadAll([]) == ([], PeerClosed) && packets + [] == packets;
  }

  /** What the deciding packet decides, value by value: its type is 19 or 8, or it is
      oversized. */
  lemma OutcomeTable(packets: seq<Packet>, s: Session, k: nat)
    requires packets != [] && packets[0].kind == 23 && |packets[0].body| <= MAX_FRAME_BYTES
    requires Fits(s.token, s.ip, s.user) && DecidesAt(packets[1..], k)
    ensures var p, outcome := packets[1..][k], Handshake(packets, s).0;
            if |p.body| > 9_216_000 then outcome == Refused(ProtocolError)
            else if p.kind == 8 then
              outcome == Refused(if p.status == 7 then AuthenticationError
                                 else if p.status == 8 then UnsupportedCapability
                                 else if p.status == 9 then ErrorClass.TimedOut
                                 else if p.status == 10 then InvalidState
                                 else RemoteOperation)
            else
              && p.kind == 19
              && (p.body == [] ==> outcome == Refused(ProtocolError))
              && (p.body != [] && p.body[0] == 1 ==>
                    outcome == Open(|packets[0].body|, if |p.body| >= 2 then Some(p.body[1]) else None))
              && (p.body != [] && p.body[0] == 2 ==> outcome == Refused(UnsupportedCapability))
              && (p.body != [] && p.body[0] in {0, 3, 4, 5} ==> outcome == Refused(AuthenticationError))
              && (p.body != [] && p.body[0] > 5 ==> outcome == Refused(ProtocolError))
  {
    FirstDecisiveIsFirst(packets[1..], k);
  }
}
