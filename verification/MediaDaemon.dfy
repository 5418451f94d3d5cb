/** The daemon's bookkeeping: idle streaks, served counters and the READ trace, kept up to
    date by the two callbacks of the serve loop. */
module MediaDaemon {
  import opened Wrappers
  import opened Bytes
  import opened IusbFrame
  import opened CdromDevice
  import opened TraceLog

  /** What the serve loop reports: an idle poll, or a request about to be handled. */
  datatype Hook = Polled | Requested(payload: seq<byte>)

  type History = seq<Hook>

  datatype Streak = Streak(polls: nat, seconds: nat)

  const POLL_SECONDS := 2

  function Spell(polls: nat): Streak { Streak(polls, polls * POLL_SECONDS) }

  // ----- what a history says -----

  function Polls(h: History): nat {
    if h == [] then 0 else Polls(h[..|h| - 1]) + (if h[|h| - 1].Polled? then 1 else 0)
  }

  /** Idle polls since the last request. */
  function OpenStreak(h: History): nat {
    if h == [] || h[|h| - 1].Requested? then 0 else OpenStreak(h[..|h| - 1]) + 1
  }

  /** Every idle spell that a request has ended, oldest first. */
  function ClosedStreaks(h: History): seq<nat> {
    if h == [] then []
    else
      var before := h[..|h| - 1];
      Ended(ClosedStreaks(before), if h[|h| - 1].Polled? then 0 else OpenStreak(before))
  }

  /** One more spell, unless it is empty. */
  function Ended(streaks: seq<nat>, spell: nat): seq<nat> {
    if spell == 0 then streaks else streaks + [spell]
  }

  function Total(s: seq<nat>): nat { if s == [] then 0 else Total(s[..|s| - 1]) + s[|s| - 1] }

  /** The trace line for a request, sliced as the callback slices it. */
  function EntryOf(payload: seq<byte>): Option<Entry> {
    var cdb := Cdb(payload);
    if cdb != [] && (cdb[0] == READ10 || cdb[0] == READ12) then
      var blocks := if cdb[0] == READ10 then Clip(cdb, 7, 9) else Clip(cdb, 6, 10);
      Some(Entry(cdb[0] == READ12, FromBE(Clip(cdb, 2, 6)), FromBE(blocks)))
    else None
  }

  function Noted(hook: Hook): seq<Entry> {
    if hook.Polled? then [] else match EntryOf(hook.payload) case None => [] case Some(e) => [e]
  }

  function TraceOf(h: History): seq<Entry> {
    if h == [] then [] else TraceOf(h[..|h| - 1]) + Noted(h[|h| - 1])
  }

  function SumBlocks(es: seq<Entry>): nat {
    if es == [] then 0 else SumBlocks(es[..|es| - 1]) + es[|es| - 1].blocks
  }

  /** What the device has counted once every request in the history is handled. */
  function BlocksServed(h: History): nat {
    if h == [] then 0
    else BlocksServed(h[..|h| - 1]) + (if h[|h| - 1].Polled? then 0 else BlocksRead(h[|h| - 1].payload))
  }

  function BytesServed(image: seq<byte>, h: History): nat {
    if h == [] then 0
    else BytesServed(image, h[..|h| - 1]) + (if h[|h| - 1].Polled? then 0 else BytesRead(image, h[|h| - 1].payload))
  }

  // ----- the state record -----

  function SpellRecord(polls: nat): Option<Streak> {
    if polls == 0 then None else Some(Spell(polls))
  }

  function ClosedRecord(streaks: seq<nat>): Option<Streak> {
    if streaks == [] then None else Some(Spell(streaks[|streaks| - 1]))
  }

  /** The fields the callbacks maintain. */
  datatype Record = Record(idlePolls: nat, current: Option<Streak>, last: Option<Streak>, log: string)

  function Line(payload: seq<byte>): string {
    match EntryOf(payload) case None => "" case Some(e) => Render(e) + "\n"
  }

  function Idled(r: Record): Record {
    var polls := if r.current.None? then 1 else r.current.value.polls + 1;
    r.(idlePolls := r.idlePolls + 1, current := Some(Spell(polls)))
  }

  function StreakClosed(r: Record): Record {
    if r.current.None? then r else r.(last := r.current, current := None)
  }

  function Served(r: Record, payload: seq<byte>): Record {
    var c := StreakClosed(r);
    c.(log := c.log + Line(payload))
  }

  function After(h: History): Record {
    if h == [] then Record(0, None, None, "")
    else
      match h[|h| - 1]
      case Polled => Idled(After(h[..|h| - 1]))
      case Requested(payload) => Served(After(h[..|h| - 1]), payload)
  }

  class Daemon {
    var idlePolls: nat
    var currentStreak: Option<Streak>
    var lastStreak: Option<Streak>
    var bytesRead: nat
    var sectorsServed: nat
    var log: string
    ghost var history: History

    ghost function Fields(): Record
      reads this
    {
      Record(idlePolls, currentStreak, lastStreak, log)
    }

    /** RecordMeaning says what this record is in terms of the history alone. */
    ghost predicate Valid()
      reads this
    {
      Fields() == After(history)
    }

    constructor ()
      ensures Valid() && history == []
    {
      idlePolls, currentStreak, lastStreak := 0, None, None;
      bytesRead, sectorsServed := 0, 0;
      log, history := "", [];
    }

    /** No streak is open any more, and the last one is the latest of the whole history. */
    method CloseIdleStreak()
      requires Valid()
      modifies this`currentStreak, this`lastStreak
      ensures currentStreak == None && lastStreak == ClosedRecord(AllStreaks(history))
    {
      ExitMeaning(history);
      if currentStreak.Some? {
        lastStreak, currentStreak := currentStreak, None;
      }
    }

    method OnIdle()
      requires Valid()
      modifies this
      ensures Valid() && history == old(history) + [Polled]
      ensures bytesRead == old(bytesRead) && sectorsServed == old(sectorsServed)
    {
      match currentStreak {
        case None => currentStreak := Some(Streak(1, POLL_SECONDS));
        case Some(s) => currentStreak := Some(Streak(s.polls + 1, (s.polls + 1) * POLL_SECONDS));
      }
      idlePolls := idlePolls + 1;
      AfterPoll(history);
      history := history + [Polled];
    }

    /** Runs before the device handles the request: the counters it copies still exclude
        the request while the trace already includes it. */
    method OnRequest(payload: seq<byte>, served: nat, blocks: nat)
      requires Valid()
      modifies this
      ensures Valid() && history == old(history) + [Requested(payload)]
      ensures bytesRead == served && sectorsServed == blocks
    {
      CloseIdleStreak();
      OnceClosed(history, Fields());
      bytesRead, sectorsServed := served, blocks;
      var entry := EntryOf(payload);
      if entry.Some? {
        log := log + (Render(entry.value) + "\n");
      }
      AfterRequest(history, payload, Fields());
      history := history + [Requested(payload)];
    }

    /** A normal end of the serve loop leaves no streak open. */
    method Finish(served: nat, blocks: nat)
      requires Valid()
      modifies this
      ensures history == old(history) && Fields() == StreakClosed(After(history))
      ensures bytesRead == served && sectorsServed == blocks
    {
      CloseIdleStreak();
      OnceClosed(history, Fields());
      bytesRead, sectorsServed := served, blocks;
    }
  }

  /** Every idle spell, the one still open included. */
  function AllStreaks(h: History): seq<nat> {
    Ended(ClosedStreaks(h), OpenStreak(h))
  }

  /** The record the callbacks build says exactly what the history says: lifetime polls,
      the open spell, the latest closed one, and a log of every READ in order. */
  lemma {:induction false} RecordMeaning(h: History)
    ensures After(h) == Told(h)
  {
    if h != [] {
      RecordMeaning(h[..|h| - 1]);
      if h[|h| - 1].Polled? {
        IdleTold(h);
      } else {
        RequestTold(h);
      }
    }
  }

  function Told(h: History): Record { Telling(Polls(h), OpenStreak(h), ClosedStreaks(h), Log(Render, TraceOf(h))) }

  function Telling(polls: nat, open: nat, closed: seq<nat>, log: string): Record {
    Record(polls, SpellRecord(open), ClosedRecord(closed), log)
  }

  /** What the latest event adds to what the history before it says. */
  lemma Latest(h: History)
    requires h != []
    ensures var before, hook := h[..|h| - 1], h[|h| - 1];
            && Polls(h) == Polls(before) + (if hook.Polled? then 1 else 0)
            && OpenStreak(h) == (if hook.Polled? then OpenStreak(before) + 1 else 0)
            && ClosedStreaks(h) == Ended(ClosedStreaks(before), if hook.Polled? then 0 else OpenStreak(before))
            && TraceOf(h) == TraceOf(before) + Noted(hook)
  {
  }

  lemma IdleTold(h: History)
    requires h != [] && h[|h| - 1].Polled?
    ensures Told(h) == Idled(Told(h[..|h| - 1]))
  {
    Latest(h);
    assert TraceOf(h[..|h| - 1]) + [] == TraceOf(h[..|h| - 1]);
  }

  lemma RequestTold(h: History)
    requires h != [] && h[|h| - 1].Requested?
    ensures Told(h) == Served(Told(h[..|h| - 1]), h[|h| - 1].payload)
  {
    var before, payload := h[..|h| - 1], h[|h| - 1].payload;
    Latest(h);
    LogNoted(TraceOf(before), payload);
    RequestTelling(Polls(before), OpenStreak(before), ClosedStreaks(before), Log(Render, TraceOf(before)), payload);
  }

  lemma RequestTelling(polls: nat, open: nat, closed: seq<nat>, log: string, payload: seq<byte>)
    ensures Telling(polls, 0, Ended(closed, open), log + Line(payload))
            == Served(Telling(polls, open, closed, log), payload)
  {
  }

  lemma LogNoted(es: seq<Entry>, payload: seq<byte>)
    ensures Log(Render, es) + Line(payload) == Log(Render, es + Noted(Requested(payload)))
  {
    match EntryOf(payload)
    case None =>
      assert es + [] == es && Log(Render, es) + "" == Log(Render, es);
    case Some(e) =>
      LogSnoc(Render, es, e);
  }

  /** After a normal exit no streak is open and the last one is the latest of all. */
  lemma ExitMeaning(h: History)
    ensures StreakClosed(After(h)).current == None
    ensures StreakClosed(After(h)).last == ClosedRecord(AllStreaks(h))
    ensures StreakClosed(After(h)).idlePolls == Total(AllStreaks(h))
  {
    RecordMeaning(h);
    PollsAreStreaks(h);
  }

  /** A spell is reported with its polls and two seconds for each. */
  lemma SpellFields(h: History)
    ensures After(h).current == if OpenStreak(h) == 0 then None else Some(Streak(OpenStreak(h), 2 * OpenStreak(h)))
    ensures var closed := ClosedStreaks(h);
            After(h).last
            == if closed == [] then None else Some(Streak(closed[|closed| - 1], 2 * closed[|closed| - 1]))
  {
    RecordMeaning(h);
    TellingFields(Polls(h), OpenStreak(h), ClosedStreaks(h), Log(Render, TraceOf(h)));
  }

  lemma TellingFields(polls: nat, open: nat, closed: seq<nat>, log: string)
    ensures var r := Telling(polls, open, closed, log);
            && r.current == (if open == 0 then None else Some(Streak(open, 2 * open)))
            && r.last == if closed == [] then None else Some(Streak(closed[|closed| - 1], 2 * closed[|closed| - 1]))
  {
  }

  lemma OnceClosed(h: History, r: Record)
    requires r.idlePolls == After(h).idlePolls && r.log == After(h).log
    requires r.current == None && r.last == ClosedRecord(AllStreaks(h))
    ensures r == StreakClosed(After(h))
  {
    ExitMeaning(h);
  }

  lemma AfterPoll(h: History)
    ensures After(h + [Polled]) == Idled(After(h))
  {
    assert (h + [Polled])[..|h|] == h;
  }

  lemma AfterRequest(h: History, payload: seq<byte>, r: Record)
    requires var closed := StreakClosed(After(h));
             r == match EntryOf(payload)
                  case None => closed
                  case Some(e) => closed.(log := closed.log + (Render(e) + "\n"))
    ensures r == After(h + [Requested(payload)])
  {
    assert (h + [Requested(payload)])[..|h|] == h;
  }

  lemma ServedSnoc(image: seq<byte>, h: History, hook: Hook)
    ensures BlocksServed(h + [hook]) == BlocksServed(h) + (if hook.Polled? then 0 else BlocksRead(hook.payload))
    ensures BytesServed(image, h + [hook])
            == BytesServed(image, h) + (if hook.Polled? then 0 else BytesRead(image, hook.payload))
  {
    assert (h + [hook])[..|h|] == h;
  }

  lemma {:induction false} LogSnoc(render: Renderer, es: seq<Entry>, e: Entry)
    ensures Log(render, es + [e]) == Log(render, es) + (render(e) + "\n")
    decreases |es|
  {
    if es == [] {
      assert (es + [e])[1..] == [];
      assert Log(render, []) == [];
      assert render(e) + "\n" + [] == render(e) + "\n";
    } else {
      assert (es + [e])[1..] == es[1..] + [e];
      LogSnoc(render, es[1..], e);
      assert render(es[0]) + "\n" + (Log(render, es[1..]) + (render(e) + "\n"))
             == render(es[0]) + "\n" + Log(render, es[1..]) + (render(e) + "\n");
    }
  }

  // ----- conservation -----

  lemma TotalEnded(streaks: seq<nat>, spell: nat)
    ensures Total(Ended(streaks, spell)) == Total(streaks) + spell
  {
    assert (streaks + [spell])[..|streaks|] == streaks;
  }

  /** Nothing idle is lost: lifetime polls are the closed spells plus the open one. */
  lemma {:induction false} PollsAreStreaks(h: History)
    ensures Polls(h) == Total(ClosedStreaks(h)) + OpenStreak(h)
    ensures Polls(h) == Total(AllStreaks(h))
  {
    if h != [] {
      var before := h[..|h| - 1];
      Latest(h);
      PollsAreStreaks(before);
      TotalEnded(ClosedStreaks(before), if h[|h| - 1].Polled? then 0 else OpenStreak(before));
    }
    TotalEnded(ClosedStreaks(h), OpenStreak(h));
  }

  predicate AllPolls(h: History, a: nat, b: nat) { forall i :: a <= i < b <= |h| ==> h[i].Polled? }

  /** The open streak is the maximal run of polls at the end of the history. */
  lemma {:induction false} OpenStreakIsTrailingRun(h: History)
    ensures var k := OpenStreak(h);
            && k <= |h| && AllPolls(h, |h| - k, |h|)
            && (k < |h| ==> h[|h| - k - 1].Requested?)
  {
    if h != [] && h[|h| - 1].Polled? {
      OpenStreakIsTrailingRun(h[..|h| - 1]);
    }
  }

  /** A maximal run of `k` polls ends just before the request at `i`. */
  predicate RunEnds(h: History, i: nat, k: nat) {
    && i < |h| && h[i].Requested?
    && 0 < k <= i && AllPolls(h, i - k, i)
    && (k < i ==> h[i - k - 1].Requested?)
  }

  /** After `i`, no request follows a poll. */
  predicate NoRunAfter(h: History, i: nat) {
    forall j, k :: i < j < |h| && k == j - 1 && h[j].Requested? ==> h[k].Requested?
  }

  predicate LatestRun(h: History, i: nat, k: nat) { RunEnds(h, i, k) && NoRunAfter(h, i) }

  /** The last closed streak is the latest maximal run of polls that a request ended. */
  lemma {:induction false} LastClosedIsLatestRun(h: History) returns (i: nat)
    requires ClosedStreaks(h) != []
    ensures LatestRun(h, i, Top(ClosedStreaks(h)))
  {
    var before := h[..|h| - 1];
    var spell := if h[|h| - 1].Polled? then 0 else OpenStreak(before);
    Latest(h);
    TopEnded(ClosedStreaks(before), spell);
    if spell > 0 {
      i := |h| - 1;
      RunClosed(h);
    } else {
      i := LastClosedIsLatestRun(before);
      RunExtends(h, i, Top(ClosedStreaks(before)));
    }
  }

  function Top(s: seq<nat>): nat
    requires s != []
  {
    s[|s| - 1]
  }

  lemma TopEnded(streaks: seq<nat>, spell: nat)
    ensures spell > 0 ==> Top(Ended(streaks, spell)) == spell
    ensures spell == 0 ==> Ended(streaks, spell) == streaks
  {
  }

  lemma RunClosed(h: History)
    requires h != [] && h[|h| - 1].Requested? && OpenStreak(h[..|h| - 1]) > 0
    ensures LatestRun(h, |h| - 1, OpenStreak(h[..|h| - 1]))
  {
    OpenStreakIsTrailingRun(h[..|h| - 1]);
  }

  lemma RunExtends(h: History, i: nat, k: nat)
    requires h != [] && LatestRun(h[..|h| - 1], i, k)
    requires h[|h| - 1].Polled? || OpenStreak(h[..|h| - 1]) == 0
    ensures LatestRun(h, i, k)
  {
    OpenStreakIsTrailingRun(h[..|h| - 1]);
  }

  lemma SumBlocksSnoc(es: seq<Entry>, e: Entry)
    ensures SumBlocks(es + [e]) == SumBlocks(es) + e.blocks
  {
    assert (es + [e])[..|es|] == es;
  }

  /** The callback's slicing of a descriptor and the device's own decode agree: the same
      requests, the same LBA, the same block count. */
  lemma TraceEntryIsExtent(payload: seq<byte>)
    ensures EntryOf(payload).Some? <==> ExtentOf(Cdb(payload)).ReadOf?
    ensures EntryOf(payload).Some? ==>
              && ExtentOf(Cdb(payload)) == ReadOf(EntryOf(payload).value.lba, EntryOf(payload).value.blocks)
              && EntryOf(payload).value.is12 == (Cdb(payload)[0] == READ12)
  {
  }

  /** The trace log and the device agree on every block. */
  lemma {:induction false} TraceMatchesDevice(h: History)
    ensures SumBlocks(TraceOf(h)) == BlocksServed(h)
  {
    if h != [] {
      TraceMatchesDevice(h[..|h| - 1]);
      var noted := Noted(h[|h| - 1]);
      if noted == [] {
        assert TraceOf(h) == TraceOf(h[..|h| - 1]);
      } else {
        SumBlocksSnoc(TraceOf(h[..|h| - 1]), noted[0]);
      }
    }
  }

  /** When a request is announced, the log is ahead of the device by that request alone. */
  lemma TraceLeadsDevice(h: History, payload: seq<byte>)
    ensures SumBlocks(TraceOf(h + [Requested(payload)])) == BlocksServed(h) + BlocksRead(payload)
  {
    TraceMatchesDevice(h + [Requested(payload)]);
    ServedSnoc([], h, Requested(payload));
  }

  predicate Strays(image: seq<byte>, hook: Hook) { hook.Requested? && PastEnd(image, hook.payload) }

  lemma LastHook(image: seq<byte>, hook: Hook)
    ensures var bytes := if hook.Polled? then 0 else BytesRead(image, hook.payload);
            var blocks := if hook.Polled? then 0 else BlocksRead(hook.payload);
            bytes <= BLOCK * blocks && (bytes == BLOCK * blocks <==> !Strays(image, hook))
  {
    if hook.Requested? {
      ReadWithinImage(image, hook.payload);
    }
  }

  predicate NoneStray(image: seq<byte>, h: History) {
    h == [] || (NoneStray(image, h[..|h| - 1]) && !Strays(image, h[|h| - 1]))
  }

  lemma {:induction false} NoneStrayIsForall(image: seq<byte>, h: History)
    ensures NoneStray(image, h) <==> forall i :: 0 <= i < |h| ==> !Strays(image, h[i])
  {
    if h != [] {
      NoneStrayIsForall(image, h[..|h| - 1]);
      assert forall i :: 0 <= i < |h| - 1 ==> h[i] == h[..|h| - 1][i];
    }
  }

  lemma {:induction false} BytesMatchBlocksInductively(image: seq<byte>, h: History)
    ensures BytesServed(image, h) <= BLOCK * BlocksServed(h)
    ensures BytesServed(image, h) == BLOCK * BlocksServed(h) <==> NoneStray(image, h)
  {
    if h != [] {
      BytesMatchBlocksInductively(image, h[..|h| - 1]);
      LastHook(image, h[|h| - 1]);
    }
  }

  /** Over a whole run the bytes served never exceed 2048 per block, and fall short
      exactly when some READ ran past the end of the image. */
  lemma BytesMatchBlocks(image: seq<byte>, h: History)
    ensures BytesServed(image, h) <= BLOCK * BlocksServed(h)
    ensures BytesServed(image, h) == BLOCK * BlocksServed(h) <==> forall i :: 0 <= i < |h| ==> !Strays(image, h[i])
  {
    BytesMatchBlocksInductively(image, h);
    NoneStrayIsForall(image, h);
  }

  /** Whatever a crash leaves of the log of a history, reading it back gives the READs of
      that history, in order, up to the last one completely written. */
  lemma LogSurvivesCrash(h: History, cut: nat)
    requires cut <= |After(h).log|
    ensures Entries(DecodeLine, Lines(After(h).log[..cut])) == TraceOf(h)[..Complete(Render, TraceOf(h), cut)]
  {
    RecordMeaning(h);
    JsonLinesAreCodec();
    CrashKeepsCompleteEntries(Render, DecodeLine, TraceOf(h), cut);
  }
}
