/** The serve loop: packets in, device answers out, callbacks on the way. */
module ServeLoop {
  import opened Wrappers
  import opened Bytes
  import opened IusbFrame
  import opened CdromDevice
  import opened MediaDaemon
  import opened Wire
  import opened IusbWire

  datatype Ending = Stopped | Closed | Killed | Stall | Fault | Malformed | Overflowed

  /** One turn of the loop after the stop check. */
  datatype Turn = Turn(sent: seq<byte>, hooks: History, ends: bool, ending: Ending)

  function Continue(sent: seq<byte>, hooks: History): Turn { Turn(sent, hooks, false, Stopped) }
  function End(hooks: History, ending: Ending): Turn { Turn([], hooks, true, ending) }

  /** How a request that is not a kill is served. */
  type Answerer = Packet -> Turn

  function DeviceTurn(image: seq<byte>, p: Packet): Turn {
    match Respond(image, p.payload)
    case NoReply => Continue([], [Requested(p.payload)])
    case Overflow => End([Requested(p.payload)], Overflowed)
    case Answer(payload) =>
      Continue(BuildResponseFrame(p.header, payload, DEVICE_CDROM), [Requested(p.payload)])
  }

  function Device(image: seq<byte>): Answerer { p => DeviceTurn(image, p) }

  function TurnFor(answer: Answerer, r: ReadOutcome): Turn {
    match r
    case IdlePoll => Continue([], [Polled])
    case PeerClosed => End([], Closed)
    case MidFrameStall => End([], Stall)
    case SocketFault => End([], Fault)
    case BadFrame => End([], Malformed)
    case Received(p) => if IsKill(p) then End([], Killed) else answer(p)
  }

  datatype Run = Run(sent: seq<byte>, hooks: History, ending: Ending)

  function Follow(turn: Turn, run: Run): Run {
    Run(turn.sent + run.sent, turn.hooks + run.hooks, run.ending)
  }

  /** The successive packet reads a stream yields, until it is exhausted. */
  function Reads(toks: seq<Token>): seq<ReadOutcome>
    decreases |toks|
  {
    if toks == [] then [] else [NextPacket(toks).0] + Reads(NextPacket(toks).1)
  }

  /** The loop over those reads; the stop flag reads true from check number `stopAt` on,
      and a stream read to its end is a closed peer. */
  function ServeReads(answer: Answerer, outcomes: seq<ReadOutcome>, stopAt: nat): Run
    decreases stopAt
  {
    if stopAt == 0 then Run([], [], Stopped)
    else if outcomes == [] then Run([], [], Closed)
    else
      var turn := TurnFor(answer, outcomes[0]);
      if turn.ends then Run(turn.sent, turn.hooks, turn.ending)
      else Follow(turn, ServeReads(answer, outcomes[1..], stopAt - 1))
  }

  /** The whole session as a function of the stream alone. */
  function Serve(image: seq<byte>, toks: seq<Token>, stopAt: nat): Run {
    ServeReads(Device(image), Reads(toks), stopAt)
  }

  // ----- the loop itself -----

  ghost predicate Linked(dev: CDROMDevice, d: Daemon)
    reads dev, dev.cache, dev.cache.medium, d
  {
    && dev.Valid() && d.Valid()
    && dev.nBlocks == BlocksServed(d.history)
    && dev.nBytes == BytesServed(dev.cache.medium.content, d.history)
  }

  method ServeRequest(t: Transport, dev: CDROMDevice, d: Daemon, p: Packet) returns (ends: bool, ending: Ending)
    requires Linked(dev, d)
    modifies t`sent, dev, dev.cache, d
    ensures Linked(dev, d)
    ensures var turn := DeviceTurn(dev.cache.medium.content, p);
            && (ends, ending) == (turn.ends, turn.ending)
            && t.sent == old(t.sent) + turn.sent
            && d.history == old(d.history) + turn.hooks
  {
    ServedSnoc(dev.cache.medium.content, d.history, Requested(p.payload));
    d.OnRequest(p.payload, dev.nBytes, dev.nBlocks);
    var reply := dev.Handle(p.payload);
    match reply
    case NoReply => return false, Stopped;
    case Overflow => return true, Overflowed;
    case Answer(payload) =>
      t.sent := t.sent + BuildResponseFrame(p.header, payload, DEVICE_CDROM);
      return false, Stopped;
  }

  method ServeOne(t: Transport, dev: CDROMDevice, d: Daemon) returns (ends: bool, ending: Ending)
    requires t.Valid() && Linked(dev, d)
    modifies t, dev, dev.cache, d
    ensures t.Valid() && Linked(dev, d)
    ensures var next := NextPacket(old(t.Left()));
            var turn := TurnFor(Device(dev.cache.medium.content), next.0);
            && t.Left() == next.1
            && (ends, ending) == (turn.ends, turn.ending)
            && t.sent == old(t.sent) + turn.sent
            && d.history == old(d.history) + turn.hooks
  {
    var r := ReadPacket(t);
    match r
    case IdlePoll =>
      ServedSnoc(dev.cache.medium.content, d.history, Polled);
      d.OnIdle();
      return false, Stopped;
    case PeerClosed => return true, Closed;
    case MidFrameStall => return true, Stall;
    case SocketFault => return true, Fault;
    case BadFrame => return true, Malformed;
    case Received(p) =>
      if IsKill(p) {
        return true, Killed;
      }
      ends, ending := ServeRequest(t, dev, d, p);
  }

  /** What has been sent and reported, followed by what the rest of the run will. */
  function Joined(sent: seq<byte>, history: History, run: Run): Run {
    Run(sent + run.sent, history + run.hooks, run.ending)
  }

  lemma JoinedFollow(sent: seq<byte>, history: History, turn: Turn, run: Run)
    ensures Joined(sent, history, Follow(turn, run)) == Joined(sent + turn.sent, history + turn.hooks, run)
  {
  }

  lemma NothingMore(sent: seq<byte>, history: History)
    ensures forall e :: Joined(sent, history, Run([], [], e)) == Run(sent, history, e)
  {
    assert sent + [] == sent && history + [] == history;
  }

  /** One turn consumes one read. */
  lemma ServeStep(answer: Answerer, toks: seq<Token>, stopAt: nat, left: nat, sent: seq<byte>, history: History)
    requires stopAt > 0 && left == stopAt - 1
    ensures var next := NextPacket(toks);
            var turn := TurnFor(answer, next.0);
            Joined(sent, history, ServeReads(answer, Reads(toks), stopAt))
            == if turn.ends then Run(sent + turn.sent, history + turn.hooks, turn.ending)
               else Joined(sent + turn.sent, history + turn.hooks, ServeReads(answer, Reads(next.1), left))
  {
    if toks == [] {
      NothingMore(sent, history);
    } else {
      var next := NextPacket(toks);
      ServeReadsCons(answer, next.0, Reads(next.1), stopAt, left);
      JoinedFollow(sent, history, TurnFor(answer, next.0), ServeReads(answer, Reads(next.1), left));
    }
  }

  lemma ServeReadsCons(answer: Answerer, r: ReadOutcome, rest: seq<ReadOutcome>, stopAt: nat, left: nat)
    requires stopAt > 0 && left == stopAt - 1
    ensures var turn := TurnFor(answer, r);
            ServeReads(answer, [r] + rest, stopAt) == Onward(turn, ServeReads(answer, rest, left))
  {
    assert ([r] + rest)[1..] == rest;
  }

  /** The loop, its device and its callbacks realise `Serve` for every chopping of the
      stream; trace and device stay in step throughout. */
  method ServeForever(t: Transport, dev: CDROMDevice, d: Daemon, stopAt: nat) returns (ending: Ending)
    requires t.Valid() && Linked(dev, d)
    modifies t, dev, dev.cache, d
    ensures t.Valid() && Linked(dev, d)
    ensures Run(t.sent, d.history, ending)
            == Joined(old(t.sent), old(d.history), Serve(dev.cache.medium.content, old(t.Left()), stopAt))
  {
    var left := stopAt;  // stop checks still to read false
    ghost var image := dev.cache.medium.content;
    ghost var whole := Joined(t.sent, d.history, ServeReads(Device(image), Reads(t.Left()), stopAt));
    while left > 0
      invariant whole == Joined(t.sent, d.history, ServeReads(Device(image), Reads(t.Left()), left))
      invariant t.Valid() && Linked(dev, d) && dev.cache.medium.content == image
    {
      ghost var toks, sent, history := t.Left(), t.sent, d.history;
      ghost var turn := TurnFor(Device(image), NextPacket(toks).0);
      var ends;
      ends, ending := ServeOne(t, dev, d);
      assert ends == turn.ends && t.sent == sent + turn.sent && d.history == history + turn.hooks;
      var fewer: nat := left - 1;
      ServeStep(Device(image), toks, left, fewer, sent, history);
      if ends {
        return;
      }
      assert whole == Joined(t.sent, d.history, ServeReads(Device(image), Reads(t.Left()), fewer));
      left := fewer;
    }
    NothingMore(t.sent, d.history);
    ending := Stopped;
  }

  // ----- the loop as a fold over whole frames -----

  /** A session as the peer plays it: quiet polls between whole frames. */
  datatype Item = Quiet | Frame(bytes: seq<byte>)

  predicate Wellformed(script: seq<Item>) {
    forall i :: 0 <= i < |script| ==> script[i].Frame? ==> Whole(script[i].bytes)
  }

  function ItemTokens(item: Item): seq<Token> {
    if item.Quiet? then [T] else Raw(item.bytes)
  }

  function Played(script: seq<Item>): seq<Token> {
    if script == [] then [] else ItemTokens(script[0]) + Played(script[1..])
  }

  function ItemRead(item: Item): ReadOutcome
    requires item.Frame? ==> ParseRequestFrame(item.bytes).Ok?
  {
    if item.Quiet? then IdlePoll else Received(ParseRequestFrame(item.bytes).value)
  }

  function ItemReads(script: seq<Item>): seq<ReadOutcome>
    requires Wellformed(script)
  {
    if script == [] then [] else [ItemRead(script[0])] + ItemReads(script[1..])
  }

  lemma OneItemRead(item: Item, rest: seq<Token>)
    requires item.Frame? ==> Whole(item.bytes)
    ensures NextPacket(ItemTokens(item) + rest) == (ItemRead(item), rest)
    ensures ItemTokens(item) != []
  {
    match item
    case Quiet =>
      TakeBlocked([], T, rest, HEADER_LEN);
      assert Raw([]) + ([T] + rest) == [T] + rest;
    case Frame(f) => WholeFrameIsRead(f, rest);
  }

  /** Framing: the stream of a script is read back item by item, nothing lost or merged. */
  lemma {:induction false} ReadsOfPlayed(script: seq<Item>)
    requires Wellformed(script)
    ensures Reads(Played(script)) == ItemReads(script)
  {
    if script != [] {
      OneItemRead(script[0], Played(script[1..]));
      ReadsOfPlayed(script[1..]);
    }
  }

  /** `process_frame`: one raw request frame in, at most one raw response frame out. */
  datatype Processed = Invalid(fault: IusbFrame.Fault) | Silent | Answered(frame: seq<byte>) | Failed

  function ProcessFrame(image: seq<byte>, frame: seq<byte>): Processed {
    match ParseRequestFrame(frame)
    case Err(f) => Invalid(f)
    case Ok(p) =>
      if IsKill(p) then Silent
      else
        match Respond(image, p.payload)
        case NoReply => Silent
        case Overflow => Failed
        case Answer(payload) => Answered(BuildResponseFrame(p.header, payload, DEVICE_CDROM))
  }

  /** What one read contributes, and how many reads are served before one ends the run. */
  function SentFor(answer: Answerer, outcomes: seq<ReadOutcome>): seq<byte> {
    if outcomes == [] then [] else TurnFor(answer, outcomes[0]).sent + SentFor(answer, outcomes[1..])
  }

  function HooksFor(answer: Answerer, outcomes: seq<ReadOutcome>): History {
    if outcomes == [] then [] else TurnFor(answer, outcomes[0]).hooks + HooksFor(answer, outcomes[1..])
  }

  function ServedCount(answer: Answerer, outcomes: seq<ReadOutcome>, stopAt: nat): (m: nat)
    ensures m <= stopAt && m <= |outcomes|
    decreases stopAt
  {
    if stopAt == 0 || outcomes == [] || TurnFor(answer, outcomes[0]).ends then 0
    else 1 + ServedCount(answer, outcomes[1..], stopAt - 1)
  }

  /** The served reads are the ones before the stop, the end, or the first read that ends
      the session. */
  lemma {:induction false} ServedCountIsFirst(answer: Answerer, outcomes: seq<ReadOutcome>, stopAt: nat)
    ensures var m := ServedCount(answer, outcomes, stopAt);
            && (forall i :: 0 <= i < m ==> !TurnFor(answer, outcomes[i]).ends)
            && (m < stopAt && m < |outcomes| ==> TurnFor(answer, outcomes[m]).ends)
    decreases stopAt
  {
    if stopAt > 0 && outcomes != [] && !TurnFor(answer, outcomes[0]).ends {
      ServedCountIsFirst(answer, outcomes[1..], stopAt - 1);
      var m := ServedCount(answer, outcomes[1..], stopAt - 1);
      forall i | 0 <= i < m + 1
        ensures !TurnFor(answer, outcomes[i]).ends
      {
        assert i > 0 ==> outcomes[i] == outcomes[1..][i - 1];
      }
    }
  }

  /** Why the loop is over once `m` reads are served. */
  function EndingAt(answer: Answerer, outcomes: seq<ReadOutcome>, stopAt: nat, m: nat): Ending {
    if m == stopAt then Stopped else if m >= |outcomes| then Closed else TurnFor(answer, outcomes[m]).ending
  }

  /** What the read that ends the loop reports, if a read does. */
  function LastHooks(answer: Answerer, outcomes: seq<ReadOutcome>, stopAt: nat, m: nat): History {
    if m < stopAt && m < |outcomes| then TurnFor(answer, outcomes[m]).hooks else []
  }

  lemma {:induction false} ServeSends(answer: Answerer, outcomes: seq<ReadOutcome>, stopAt: nat)
    requires forall p :: answer(p).ends ==> answer(p).sent == []
    ensures ServeReads(answer, outcomes, stopAt).sent
            == SentFor(answer, outcomes[..ServedCount(answer, outcomes, stopAt)])
    decreases stopAt
  {
    if stopAt > 0 && outcomes != [] && !TurnFor(answer, outcomes[0]).ends {
      var m := ServedCount(answer, outcomes[1..], stopAt - 1);
      ServeSends(answer, outcomes[1..], stopAt - 1);
      assert outcomes[..m + 1][1..] == outcomes[1..][..m];
    }
  }

  lemma {:induction false} ServeReports(answer: Answerer, outcomes: seq<ReadOutcome>, stopAt: nat)
    ensures var m := ServedCount(answer, outcomes, stopAt);
            ServeReads(answer, outcomes, stopAt).hooks
            == HooksFor(answer, outcomes[..m]) + LastHooks(answer, outcomes, stopAt, m)
    decreases stopAt
  {
    if stopAt > 0 && outcomes != [] && !TurnFor(answer, outcomes[0]).ends {
      var m := ServedCount(answer, outcomes[1..], stopAt - 1);
      ServeReports(answer, outcomes[1..], stopAt - 1);
      assert outcomes[..m + 1][1..] == outcomes[1..][..m];
      JoinHooks(TurnFor(answer, outcomes[0]).hooks, HooksFor(answer, outcomes[1..][..m]),
                LastHooks(answer, outcomes, stopAt, m + 1));
    }
  }

  lemma {:induction false} ServeEnds(answer: Answerer, outcomes: seq<ReadOutcome>, stopAt: nat)
    ensures ServeReads(answer, outcomes, stopAt).ending
            == EndingAt(answer, outcomes, stopAt, ServedCount(answer, outcomes, stopAt))
    decreases stopAt
  {
    if stopAt > 0 && outcomes != [] && !TurnFor(answer, outcomes[0]).ends {
      ServeEnds(answer, outcomes[1..], stopAt - 1);
    }
  }

  lemma JoinHooks(a: History, b: History, c: History)
    ensures a + (b + c) == a + b + c
  {
  }

  // ----- the same, in terms of frames and process_frame -----

  function AnswerTo(image: seq<byte>, item: Item): seq<byte> {
    if item.Quiet? then []
    else match ProcessFrame(image, item.bytes) case Answered(frame) => frame case _ => []
  }

  /** The answers of `process_frame`, in order, silent ones left out. */
  function Answers(image: seq<byte>, script: seq<Item>): seq<byte> {
    if script == [] then [] else AnswerTo(image, script[0]) + Answers(image, script[1..])
  }

  lemma AnswerIsTurn(image: seq<byte>, item: Item)
    requires item.Frame? ==> Whole(item.bytes)
    ensures TurnFor(Device(image), ItemRead(item)).sent == AnswerTo(image, item)
  {
  }

  lemma {:induction false} AnswersAreSent(image: seq<byte>, script: seq<Item>)
    requires Wellformed(script)
    ensures SentFor(Device(image), ItemReads(script)) == Answers(image, script)
  {
    if script != [] {
      AnswerIsTurn(image, script[0]);
      AnswersAreSent(image, script[1..]);
      assert ItemReads(script)[1..] == ItemReads(script[1..]);
    }
  }

  lemma {:induction false} ItemReadsTake(script: seq<Item>, m: nat)
    requires Wellformed(script) && m <= |script|
    ensures |ItemReads(script)| == |script|
    ensures Wellformed(script[..m]) && ItemReads(script)[..m] == ItemReads(script[..m])
    ensures m < |script| ==> ItemReads(script)[m] == ItemRead(script[m])
  {
    if script != [] {
      ItemReadsTake(script[1..], if m == 0 then 0 else m - 1);
      if m > 0 {
        assert script[..m][1..] == script[1..][..m - 1];
        assert ItemReads(script)[..m] == [ItemRead(script[0])] + ItemReads(script[1..])[..m - 1];
      }
    }
  }

  /** What the daemon is told of an item that does not kill: a poll, or the payload. */
  function Report(item: Item): History {
    if item.Quiet? then [Polled] else [Requested(Clip(item.bytes, 32, 32 + |item.bytes|))]
  }

  function Reports(script: seq<Item>): History {
    if script == [] then [] else Report(script[0]) + Reports(script[1..])
  }

  /** A frame with 0xF6 as byte 9 of its payload. */
  predicate Kills(item: Item) { item.Frame? && |item.bytes| > 41 && item.bytes[41] == 0xF6 }

  /** A frame whose answer cannot be encoded. */
  predicate Fails(image: seq<byte>, item: Item) {
    item.Frame? && ProcessFrame(image, item.bytes).Failed?
  }

  lemma ReportIsTurn(image: seq<byte>, item: Item)
    requires item.Frame? ==> Whole(item.bytes)
    ensures TurnFor(Device(image), ItemRead(item)).hooks == if Kills(item) then [] else Report(item)
  {
    if item.Frame? {
      KillIff(ItemRead(item).packet);
      assert Clip(item.bytes, 32, 32 + |item.bytes|) == item.bytes[32..];
    }
  }

  lemma {:induction false} ReportsAreHooks(image: seq<byte>, script: seq<Item>)
    requires Wellformed(script) && forall i :: 0 <= i < |script| ==> !Kills(script[i])
    ensures HooksFor(Device(image), ItemReads(script)) == Reports(script)
  {
    if script != [] {
      ReportIsTurn(image, script[0]);
      ReportsAreHooks(image, script[1..]);
      assert ItemReads(script)[1..] == ItemReads(script[1..]);
    }
  }

  lemma DeviceEndsSilent(image: seq<byte>)
    ensures forall p :: Device(image)(p).ends ==> Device(image)(p).sent == []
  {
  }

  /** For every script of whole frames with polls between them, and every moment of the
      stop, the loop writes exactly the in-order answers of `process_frame` to the items
      before the first that kills or fails, reports each of them and the one that fails,
      and ends for the reason the script gives. */
  lemma ServeIsFold(image: seq<byte>, script: seq<Item>, stopAt: nat) returns (m: nat)
    requires Wellformed(script)
    ensures m <= stopAt && m <= |script|
    ensures forall i :: 0 <= i < m ==> !Kills(script[i]) && !Fails(image, script[i])
    ensures m < stopAt && m < |script| ==> Kills(script[m]) || Fails(image, script[m])
    ensures var run := Serve(image, Played(script), stopAt);
            && run.sent == Answers(image, script[..m])
            && run.hooks == Reports(script[..m])
               + (if m < stopAt && m < |script| && !Kills(script[m]) then Report(script[m]) else [])
            && run.ending == (if m == stopAt then Stopped else if m == |script| then Closed
                              else if Kills(script[m]) then Killed else Overflowed)
  {
    ReadsOfPlayed(script);
    DeviceEndsSilent(image);
    ServeSends(Device(image), ItemReads(script), stopAt);
    ServeReports(Device(image), ItemReads(script), stopAt);
    ServeEnds(Device(image), ItemReads(script), stopAt);
    m := ServedCount(Device(image), ItemReads(script), stopAt);
    ItemReadsTake(script, |script|);
    ItemReadsTake(script, m);
    AnswersAreSent(image, script[..m]);
    NoneEnds(image, script, stopAt, m);
    ReportsAreHooks(image, script[..m]);
    if m < |script| {
      EndingOfItem(image, script[m]);
      ReportIsTurn(image, script[m]);
    }
  }

  lemma NoneEnds(image: seq<byte>, script: seq<Item>, stopAt: nat, m: nat)
    requires Wellformed(script) && m == ServedCount(Device(image), ItemReads(script), stopAt) && m <= |script|
    ensures forall i :: 0 <= i < m ==> !Kills(script[i]) && !Fails(image, script[i])
    ensures m < stopAt && m < |script| ==> Kills(script[m]) || Fails(image, script[m])
  {
    ServedCountIsFirst(Device(image), ItemReads(script), stopAt);
    ItemReadsTake(script, |script|);
    forall i | 0 <= i < |script|
      ensures ItemReads(script)[i] == ItemRead(script[i])
      ensures TurnFor(Device(image), ItemRead(script[i])).ends <==> Kills(script[i]) || Fails(image, script[i])
    {
      ItemReadsTake(script, i);
      EndingOfItem(image, script[i]);
    }
  }

  /** An item ends the session as a kill or because its answer cannot be encoded. */
  lemma EndingOfItem(image: seq<byte>, item: Item)
    requires item.Frame? ==> Whole(item.bytes)
    ensures var turn := TurnFor(Device(image), ItemRead(item));
            && (turn.ends <==> Kills(item) || Fails(image, item))
            && (turn.ends ==> turn.ending == if Kills(item) then Killed else Overflowed)
  {
    if item.Frame? {
      KillIff(ItemRead(item).packet);
    }
  }

  // ----- polls only stutter -----

  function WithoutIdle(outcomes: seq<ReadOutcome>): seq<ReadOutcome> {
    if outcomes == [] then []
    else (if outcomes[0].IdlePoll? then [] else [outcomes[0]]) + WithoutIdle(outcomes[1..])
  }

  /** The stop time once idle reads are gone: the reads that are not idle among the first
      `stopAt`, and the checks left over at the end of the stream. */
  function StopAfter(outcomes: seq<ReadOutcome>, stopAt: nat): nat {
    var seen := Min(stopAt, |outcomes|);
    |WithoutIdle(outcomes[..seen])| + stopAt - seen
  }

  function Requests(h: History): History {
    if h == [] then [] else (if h[0].Polled? then [] else [h[0]]) + Requests(h[1..])
  }

  /** The same run, its polls not reported. */
  function Quieted(run: Run): Run { run.(hooks := Requests(run.hooks)) }

  /** Serving a request reports no poll. */
  ghost predicate ReportsRequests(answer: Answerer) {
    forall p :: Requests(answer(p).hooks) == answer(p).hooks
  }

  lemma {:induction false} RequestsConcat(a: History, b: History)
    ensures Requests(a + b) == Requests(a) + Requests(b)
  {
    if a == [] {
      assert a + b == b;
    } else {
      assert (a + b)[1..] == a[1..] + b;
      RequestsConcat(a[1..], b);
    }
  }

  lemma StopAfterStep(outcomes: seq<ReadOutcome>, stopAt: nat)
    requires outcomes != [] && stopAt > 0
    ensures StopAfter(outcomes, stopAt)
            == StopAfter(outcomes[1..], stopAt - 1) + if outcomes[0].IdlePoll? then 0 else 1
  {
    var seen := Min(stopAt, |outcomes|);
    assert outcomes[..seen][1..] == outcomes[1..][..seen - 1];
  }

  lemma TurnReports(answer: Answerer, r: ReadOutcome)
    requires ReportsRequests(answer)
    ensures Requests(TurnFor(answer, r).hooks) == if r.IdlePoll? then [] else TurnFor(answer, r).hooks
  {
    assert Requests([Polled]) == Requests([]);
  }

  /** The loop over any reads at all, with its idle reads taken out and its stop brought
      forward by as many, sends the same bytes, ends the same way and reports the same
      requests. */
  lemma {:induction false} IdleReadsOnlyStutter(answer: Answerer, outcomes: seq<ReadOutcome>, stopAt: nat)
    requires ReportsRequests(answer)
    ensures ServeReads(answer, WithoutIdle(outcomes), StopAfter(outcomes, stopAt))
            == Quieted(ServeReads(answer, outcomes, stopAt))
    decreases stopAt
  {
    if stopAt > 0 && outcomes != [] {
      IdleReadsOnlyStutter(answer, outcomes[1..], stopAt - 1);
      if outcomes[0].IdlePoll? {
        IdleStutters(answer, outcomes, stopAt);
      } else {
        OtherCounts(answer, outcomes, stopAt);
      }
    }
  }

  /** An idle read in front changes nothing but the stop. */
  lemma IdleStutters(answer: Answerer, outcomes: seq<ReadOutcome>, stopAt: nat)
    requires stopAt > 0 && outcomes != [] && outcomes[0].IdlePoll?
    ensures StopAfter(outcomes, stopAt) == StopAfter(outcomes[1..], stopAt - 1)
    ensures WithoutIdle(outcomes) == WithoutIdle(outcomes[1..])
    ensures Quieted(ServeReads(answer, outcomes, stopAt)) == Quieted(ServeReads(answer, outcomes[1..], stopAt - 1))
  {
    StopAfterStep(outcomes, stopAt);
    IdleDropped(outcomes);
    ServeUnfolds(answer, outcomes, stopAt);
    IdleStep(ServeReads(answer, outcomes[1..], stopAt - 1));
  }

  /** Any other read is served alike. */
  lemma OtherCounts(answer: Answerer, outcomes: seq<ReadOutcome>, stopAt: nat)
    requires stopAt > 0 && outcomes != [] && !outcomes[0].IdlePoll? && ReportsRequests(answer)
    requires ServeReads(answer, WithoutIdle(outcomes[1..]), StopAfter(outcomes[1..], stopAt - 1))
             == Quieted(ServeReads(answer, outcomes[1..], stopAt - 1))
    ensures ServeReads(answer, WithoutIdle(outcomes), StopAfter(outcomes, stopAt))
            == Quieted(ServeReads(answer, outcomes, stopAt))
  {
    StopAfterStep(outcomes, stopAt);
    ServeUnfolds(answer, outcomes, stopAt);
    RealStep(answer, outcomes[0], WithoutIdle(outcomes[1..]), StopAfter(outcomes[1..], stopAt - 1),
             ServeReads(answer, outcomes[1..], stopAt - 1));
  }

  lemma IdleDropped(outcomes: seq<ReadOutcome>)
    requires outcomes != [] && outcomes[0].IdlePoll?
    ensures WithoutIdle(outcomes) == WithoutIdle(outcomes[1..])
  {
    assert [] + WithoutIdle(outcomes[1..]) == WithoutIdle(outcomes[1..]);
  }

  /** A turn, and the rest of the run if it does not end it. */
  function Onward(turn: Turn, run: Run): Run {
    if turn.ends then Run(turn.sent, turn.hooks, turn.ending) else Follow(turn, run)
  }

  lemma ServeUnfolds(answer: Answerer, outcomes: seq<ReadOutcome>, stopAt: nat)
    requires outcomes != [] && stopAt > 0
    ensures ServeReads(answer, outcomes, stopAt)
            == Onward(TurnFor(answer, outcomes[0]), ServeReads(answer, outcomes[1..], stopAt - 1))
  {
  }

  lemma IdleStep(run: Run)
    ensures Quieted(Onward(Continue([], [Polled]), run)) == Quieted(run)
  {
    RequestsConcat([Polled], run.hooks);
    assert Requests([Polled]) == [] + Requests([]);
    assert [] + run.sent == run.sent && [] + Requests(run.hooks) == Requests(run.hooks);
  }

  lemma RealStep(answer: Answerer, r: ReadOutcome, rest: seq<ReadOutcome>, left: nat, run: Run)
    requires !r.IdlePoll? && ReportsRequests(answer) && ServeReads(answer, rest, left) == Quieted(run)
    ensures ServeReads(answer, [r] + rest, left + 1) == Quieted(Onward(TurnFor(answer, r), run))
  {
    TurnReports(answer, r);
    QuietedTurn(TurnFor(answer, r), run);
    ServeReadsCons(answer, r, rest, left + 1, left);
  }

  lemma QuietedTurn(turn: Turn, run: Run)
    requires Requests(turn.hooks) == turn.hooks
    ensures Quieted(Onward(turn, run)) == Onward(turn, Quieted(run))
  {
    RequestsConcat(turn.hooks, run.hooks);
  }

  function WithoutPolls(script: seq<Item>): seq<Item> {
    if script == [] then []
    else (if script[0].Quiet? then [] else [script[0]]) + WithoutPolls(script[1..])
  }

  lemma {:induction false} ReadsWithoutPolls(script: seq<Item>)
    requires Wellformed(script)
    ensures Wellformed(WithoutPolls(script)) && ItemReads(WithoutPolls(script)) == WithoutIdle(ItemReads(script))
  {
    if script != [] {
      ReadsWithoutPolls(script[1..]);
      var rest := WithoutPolls(script[1..]);
      assert ItemReads(script)[1..] == ItemReads(script[1..]);
      if script[0].Quiet? {
        assert [] + rest == rest;
      } else {
        assert ([script[0]] + rest)[1..] == rest;
      }
    }
  }

  /** Idle polls only stutter: a session without them is, but for the polls reported, the
      same session, whatever the stop time. */
  lemma PollsOnlyStutter(image: seq<byte>, script: seq<Item>, stopAt: nat)
    requires Wellformed(script)
    ensures Serve(image, Played(WithoutPolls(script)), StopAfter(ItemReads(script), stopAt))
            == Quieted(Serve(image, Played(script), stopAt))
  {
    ReadsWithoutPolls(script);
    ReadsOfPlayed(script);
    ReadsOfPlayed(WithoutPolls(script));
    forall p
      ensures Requests(Device(image)(p).hooks) == Device(image)(p).hooks
    {
      assert Requests([Requested(p.payload)]) == [Requested(p.payload)] + Requests([]);
    }
    IdleReadsOnlyStutter(Device(image), ItemReads(script), stopAt);
  }

  /** Every answer carries its request's instance and sequence number and a payload that
      parses back to the device's reply. */
  lemma AnswerEchoesRequest(image: seq<byte>, frame: seq<byte>)
    requires ProcessFrame(image, frame).Answered?
    ensures var req := ParseRequestFrame(frame).value;
            var reply := Respond(image, req.payload).payload;
            |reply| < U32 ==>
              && ParseRequestFrame(ProcessFrame(image, frame).frame).Ok?
              && var resp := ParseRequestFrame(ProcessFrame(image, frame).frame).value;
                 && resp.payload == reply
                 && resp.header.instance == req.header.instance
                 && resp.header.sequence == req.header.sequence
                 && resp.header.direction == 128 && resp.header.deviceType == 5 && resp.header.protocol == 1
  {
    var req := ParseRequestFrame(frame).value;
    MarshalOfParse(frame[..HEADER_LEN]);
    ResponseFrameRoundTrip(req.header, Respond(image, req.payload).payload, DEVICE_CDROM);
  }

  // ----- a poll inside a frame -----

  /** The one place a poll is not harmless: right after a header. The header is swallowed
      with the poll, and the session goes on exactly as if the peer had sent the payload
      alone. */
  lemma PollAfterHeaderLosesHeader(image: seq<byte>, f: seq<byte>, rest: seq<Token>, stopAt: nat)
    requires Whole(f) && |f| > HEADER_LEN && stopAt > 0
    ensures Serve(image, Raw(f[..HEADER_LEN]) + ([T] + (Raw(f[HEADER_LEN..]) + rest)), stopAt)
            == Follow(Continue([], [Polled]), Serve(image, Raw(f[HEADER_LEN..]) + rest, stopAt - 1))
  {
    TimeoutInFrame(f, HEADER_LEN, rest);
    var left := Raw(f[HEADER_LEN..]) + rest;
    IdleFirst(Device(image), Raw(f[..HEADER_LEN]) + ([T] + left), left, stopAt);
  }

  lemma IdleFirst(answer: Answerer, toks: seq<Token>, left: seq<Token>, stopAt: nat)
    requires stopAt > 0 && toks != [] && NextPacket(toks) == (IdlePoll, left)
    ensures ServeReads(answer, Reads(toks), stopAt)
            == Follow(Continue([], [Polled]), ServeReads(answer, Reads(left), stopAt - 1))
  {
    ServeReadsCons(answer, IdlePoll, Reads(left), stopAt, stopAt - 1);
  }

  /** Why a stream that does not go on with a header ends the session. */
  function DeadEnd(toks: seq<Token>): Ending {
    var k := Lead(toks);
    if k >= HEADER_LEN then Malformed
    else if k == |toks| then Closed
    else if toks[k].F? then Fault
    else Stall
  }

  /** So unless what follows the poll happens to look like a header, a session whose frame
      was sound ends at once, that frame unanswered and unreported. */
  lemma PollAfterHeaderKillsSession(image: seq<byte>, f: seq<byte>, rest: seq<Token>, stopAt: nat)
    requires Whole(f) && |f| > HEADER_LEN && stopAt >= 2
    requires var left := Raw(f[HEADER_LEN..]) + rest;
             Lead(left) >= HEADER_LEN ==> Unraw(left[..8]) != SIGNATURE
    ensures var left := Raw(f[HEADER_LEN..]) + rest;
            Serve(image, Raw(f[..HEADER_LEN]) + ([T] + left), stopAt) == Run([], [Polled], DeadEnd(left))
  {
    PollAfterHeaderLosesHeader(image, f, rest, stopAt);
    var left := Raw(f[HEADER_LEN..]) + rest;
    LeadRaw(f[HEADER_LEN..], rest);
    NoHeader(left);
    DeadEndServed(Device(image), left, stopAt - 1);
  }

  lemma NoHeader(toks: seq<Token>)
    requires Lead(toks) > 0
    requires Lead(toks) >= HEADER_LEN ==> Unraw(toks[..8]) != SIGNATURE
    ensures forall answer: Answerer :: TurnFor(answer, NextPacket(toks).0) == End([], DeadEnd(toks))
  {
    var k := Lead(toks);
    if k >= HEADER_LEN {
      assert Unraw(toks[..HEADER_LEN])[0..8] == Unraw(toks[..8]);
    }
  }

  lemma DeadEndServed(answer: Answerer, toks: seq<Token>, stopAt: nat)
    requires stopAt > 0 && toks != [] && TurnFor(answer, NextPacket(toks).0) == End([], DeadEnd(toks))
    ensures Follow(Continue([], [Polled]), ServeReads(answer, Reads(toks), stopAt)) == Run([], [Polled], DeadEnd(toks))
  {
  }

  // ----- the daemon's serve phase -----

  datatype Final = Final(ending: Ending, sent: seq<byte>, blocks: nat, bytes: nat)

  predicate Normal(e: Ending) { e in {Stopped, Closed, Killed} }

  /** From a fresh daemon on a fresh connection, for every stream and stop time: the bytes
      sent are `Serve`'s; the device has counted exactly the reads reported; a normal
      ending closes the idle streak and records the final counters. */
  method RunSession(t: Transport, dev: CDROMDevice, d: Daemon, stopAt: nat) returns (f: Final)
    requires t.Valid() && t.sent == [] && dev.Valid() && d.Valid() && d.history == [] && dev.nBlocks == dev.nBytes == 0
    modifies t, dev, dev.cache, d
    ensures var run := Serve(dev.cache.medium.content, old(t.Left()), stopAt);
            && f.ending == run.ending && f.sent == run.sent
            && f.blocks == BlocksServed(run.hooks)
            && f.bytes == BytesServed(dev.cache.medium.content, run.hooks)
            && d.history == run.hooks
            && var normal := f.ending.Stopped? || f.ending.Closed? || f.ending.Killed?;
               && d.Fields() == (if normal then StreakClosed(After(run.hooks)) else After(run.hooks))
               && (normal ==> d.sectorsServed == f.blocks && d.bytesRead == f.bytes)
  {
    var ending := ServeForever(t, dev, d, stopAt);
    ghost var run := Serve(dev.cache.medium.content, old(t.Left()), stopAt);
    assert [] + run.sent == run.sent && [] + run.hooks == run.hooks;
    if Normal(ending) {
      d.Finish(dev.nBytes, dev.nBlocks);
    }
    f := Final(ending, t.sent, dev.nBlocks, dev.nBytes);
  }
}
