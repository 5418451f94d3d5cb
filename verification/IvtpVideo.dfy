/** Video frame reassembly and the capture loop that drives it. */
module IvtpVideo {
  import opened Bytes
  import opened Wire
  import opened Ivtp

  const LAST_BIT := 0x8000

  datatype Fed = More | Frame(bytes: seq<byte>) | TooLong

  /** One fragment: the first of a frame discards whatever was collected, the last hands
      the frame over, and the cap is checked before anything is kept. */
  function FeedTo(buf: seq<byte>, num: nat, data: seq<byte>): (r: (Fed, seq<byte>))
    ensures |buf| <= MAX_FRAME_BYTES ==> |r.1| <= MAX_FRAME_BYTES
  {
    var kept := if num % LAST_BIT == 0 then [] else buf;
    if |kept| + |data| > MAX_FRAME_BYTES then (TooLong, kept)
    else if num / LAST_BIT % 2 == 1 then (Frame(kept + data), [])
    else (More, kept + data)
  }

  class FrameReassembler {
    var buf: seq<byte>

    /** Holds in every run, failing ones included. */
    ghost predicate Valid()
      reads this
    {
      |buf| <= MAX_FRAME_BYTES
    }

    constructor ()
      ensures Valid() && buf == []
    {
      buf := [];
    }

    method Feed(num: nat, data: seq<byte>) returns (r: Fed)
      requires Valid()
      modifies this
      ensures Valid() && (r, buf) == FeedTo(old(buf), num, data)
      ensures r.Frame? ==> buf == []
    {
      var isFirst := num % LAST_BIT == 0;
      var isLast := num / LAST_BIT % 2 == 1;
      if isFirst {
        buf := [];
      }
      if |buf| + |data| > MAX_FRAME_BYTES {
        return TooLong;
      }
      buf := buf + data;
      if isLast {
        r := Frame(buf);
        buf := [];
        return;
      }
      return More;
    }
  }

  /** `RanDry` is no outcome yet; the loop itself ends in `Lost` then. */
  datatype Capture =
    | Captured(frame: seq<byte>)
    | FrameTooLong
    | ShortFragment
    | SessionStopped(status: nat)
    | Implausible
    | RanDry
    | Lost(why: Loss)

  /** The capture loop over the packets still to come. */
  function CaptureFrom(packets: seq<Packet>, buf: seq<byte>): Capture
    decreases |packets|
  {
    if packets == [] then RanDry
    else
      var p := packets[0];
      if |p.body| > MAX_FRAME_BYTES then Implausible
      else if p.kind == OP_VIDEO_FRAGMENT then
        if |p.body| < 2 then ShortFragment
        else
          var fed := FeedTo(buf, FromLE(p.body[..2]), p.body[2..]);
          match fed.0
          case Frame(bytes) => Captured(bytes)
          case TooLong => FrameTooLong
          case More => CaptureFrom(packets[1..], fed.1)
      else if p.kind == OP_STOP_SESSION then SessionStopped(p.status)
      else CaptureFrom(packets[1..], buf)
  }

  function Ended(r: Capture, why: Loss): Capture {
    if !r.RanDry? then r else if why.Oversized? then Implausible else Lost(why)
  }

  /** The capture loop over a byte stream. */
  function CaptureOn(toks: seq<Token>, buf: seq<byte>): Capture {
    Ended(CaptureFrom(ReadAll(toks).0, buf), ReadAll(toks).1)
  }

  lemma CaptureOnNext(toks: seq<Token>, buf: seq<byte>)
    ensures var (next, rest) := NextPacket(toks);
            CaptureOn(toks, buf)
            == if next.Missing? then (if next.why.Oversized? then Implausible else Lost(next.why))
               else Ended(CaptureFrom([next.packet] + ReadAll(rest).0, buf), ReadAll(rest).1)
  {
  }

  function RefreshPacket(): seq<byte> { Marshal(Header(OP_REFRESH_VIDEO_SCREEN, 0, 0)) }

  /** The loop reads packet by packet; its outcome depends on the stream alone, not on how
      it arrives chopped. */
  method CaptureOneFrame(t: Transport, refresh: bool) returns (r: Capture)
    requires t.Valid()
    modifies t
    ensures t.Valid() && t.sent == old(t.sent) + (if refresh then RefreshPacket() else [])
    ensures r == CaptureOn(old(t.Left()), [])
  {
    if refresh {
      t.sent := t.sent + RefreshPacket();
    }
    var reassembler := new FrameReassembler();
    ghost var sent := t.sent;
    while true
      invariant t.Valid() && t.sent == sent && reassembler.Valid() && fresh(reassembler)
      invariant CaptureOn(t.Left(), reassembler.buf) == CaptureOn(old(t.Left()), [])
      decreases |t.Left()|
    {
      CaptureOnNext(t.Left(), reassembler.buf);
      var next := ReadPacket(t);
      if next.Missing? {
        return if next.why.Oversized? then Implausible else Lost(next.why);
      }
      var p := next.packet;
      assert ([p] + ReadAll(t.Left()).0)[1..] == ReadAll(t.Left()).0;
      if p.kind == OP_VIDEO_FRAGMENT {
        if |p.body| < 2 {
          return ShortFragment;
        }
        var fed := reassembler.Feed(FromLE(p.body[..2]), p.body[2..]);
        match fed {
          case Frame(bytes) => return Captured(bytes);
          case TooLong => return FrameTooLong;
          case More =>
        }
      } else if p.kind == OP_STOP_SESSION {
        return SessionStopped(p.status);
      }
    }
  }

  // ----- packets and bytes -----

  /** Packets sent decide the outcome, whatever follows them on the stream; if they do not,
      what follows does. */
  lemma CaptureOfStream(packets: seq<Packet>, rest: seq<Token>, buf: seq<byte>)
    requires AllSendable(packets)
    ensures var r := CaptureFrom(packets, buf);
            CaptureOn(Raw(Stream(packets)) + rest, buf)
            == if r.RanDry? then CaptureOn(rest, Collected(packets, buf)) else r
  {
    StreamIsReadBack(packets, rest);
    var k := Legible(packets);
    if k < |packets| {
      CaptureStopsAt(packets, k, buf);
    } else {
      CaptureSplit(packets, ReadAll(rest).0, buf);
    }
  }

  /** Either the packets before decide, or the oversized one does. */
  lemma CaptureStopsAt(packets: seq<Packet>, k: nat, buf: seq<byte>)
    requires k < |packets| && |packets[k].body| > MAX_FRAME_BYTES
    ensures CaptureFrom(packets, buf) == Ended(CaptureFrom(packets[..k], buf), Oversized)
  {
    CaptureSplit(packets[..k], packets[k..], buf);
    assert packets[..k] + packets[k..] == packets;
  }

  lemma CaptureSplit(a: seq<Packet>, b: seq<Packet>, buf: seq<byte>)
    ensures var r := CaptureFrom(a, buf);
            CaptureFrom(a + b, buf) == if r.RanDry? then CaptureFrom(b, Collected(a, buf)) else r
  {
    if CaptureFrom(a, buf).RanDry? {
      CaptureConcat(a, b, buf);
    } else {
      CaptureDecided(a, b, buf);
    }
  }

  lemma {:induction false} CaptureDecided(a: seq<Packet>, b: seq<Packet>, buf: seq<byte>)
    requires !CaptureFrom(a, buf).RanDry?
    ensures CaptureFrom(a + b, buf) == CaptureFrom(a, buf)
    decreases |a|
  {
    assert (a + b)[1..] == a[1..] + b;
    var p := a[0];
    if |p.body| <= MAX_FRAME_BYTES {
      if p.kind == OP_VIDEO_FRAGMENT {
        if |p.body| >= 2 {
          var fed := FeedTo(buf, FromLE(p.body[..2]), p.body[2..]);
          if fed.0.More? {
            CaptureDecided(a[1..], b, fed.1);
          }
        }
      } else if p.kind != OP_STOP_SESSION {
        CaptureDecided(a[1..], b, buf);
      }
    }
  }

  // ----- noise -----

  /** A packet the loop reads and discards. */
  predicate Noise(p: Packet) {
    p.kind != 25 && p.kind != 8 && |p.body| <= 9_216_000
  }

  function Signal(packets: seq<Packet>): seq<Packet> {
    if packets == [] then []
    else if Noise(packets[0]) then Signal(packets[1..])
    else [packets[0]] + Signal(packets[1..])
  }

  lemma {:induction false} CaptureIgnoresNoise(packets: seq<Packet>, buf: seq<byte>)
    ensures CaptureFrom(packets, buf) == CaptureFrom(Signal(packets), buf)
    decreases |packets|
  {
    if packets != [] {
      var p := packets[0];
      if Noise(p) {
        CaptureIgnoresNoise(packets[1..], buf);
      } else {
        assert ([p] + Signal(packets[1..]))[1..] == Signal(packets[1..]);
        if p.kind == OP_VIDEO_FRAGMENT && 2 <= |p.body| <= MAX_FRAME_BYTES {
          CaptureIgnoresNoise(packets[1..], FeedTo(buf, FromLE(p.body[..2]), p.body[2..]).1);
        }
      }
    }
  }

  /** What is collected once `packets` have passed without an outcome. */
  function Collected(packets: seq<Packet>, buf: seq<byte>): seq<byte>
    requires CaptureFrom(packets, buf).RanDry?
    decreases |packets|
  {
    if packets == [] then buf
    else if packets[0].kind == OP_VIDEO_FRAGMENT then
      Collected(packets[1..], FeedTo(buf, FromLE(packets[0].body[..2]), packets[0].body[2..]).1)
    else Collected(packets[1..], buf)
  }

  lemma {:induction false} CaptureConcat(a: seq<Packet>, b: seq<Packet>, buf: seq<byte>)
    requires CaptureFrom(a, buf).RanDry?
    ensures CaptureFrom(a + b, buf) == CaptureFrom(b, Collected(a, buf))
    decreases |a|
  {
    if a == [] {
      assert a + b == b;
    } else {
      assert (a + b)[1..] == a[1..] + b;
      if a[0].kind == OP_VIDEO_FRAGMENT {
        CaptureConcat(a[1..], b, FeedTo(buf, FromLE(a[0].body[..2]), a[0].body[2..]).1);
      } else {
        CaptureConcat(a[1..], b, buf);
      }
    }
  }

  /** How a packet that comes while the loop is still waiting ends the capture: a stop with
      its own status, a fragment too short for its number and an oversized packet as errors;
      whatever comes after does not matter. */
  lemma CaptureEndsAt(before: seq<Packet>, p: Packet, after: seq<Packet>)
    requires CaptureFrom(before, []).RanDry?
    ensures var r := CaptureFrom(before + ([p] + after), []);
            && (|p.body| > 9_216_000 ==> r == Implausible)
            && (p.kind == 8 && |p.body| <= 9_216_000 ==> r == SessionStopped(p.status))
            && (p.kind == 25 && |p.body| < 2 ==> r == ShortFragment)
  {
    CaptureConcat(before, [p] + after, []);
  }

  /** The same on the wire. */
  lemma StreamEndsAt(before: seq<Packet>, p: Packet, after: seq<Packet>, rest: seq<Token>)
    requires CaptureFrom(before, []).RanDry? && AllSendable(before + ([p] + after))
    ensures var r := CaptureOn(Raw(Stream(before + ([p] + after))) + rest, []);
            && (|p.body| > 9_216_000 ==> r == Implausible)
            && (p.kind == 8 && |p.body| <= 9_216_000 ==> r == SessionStopped(p.status))
            && (p.kind == 25 && |p.body| < 2 ==> r == ShortFragment)
  {
    CaptureEndsAt(before, p, after);
    CaptureOfStream(before + ([p] + after), rest, []);
  }

  // ----- a frame cut into fragments -----

  function Joined(chunks: seq<seq<byte>>): seq<byte> {
    if chunks == [] then [] else Joined(chunks[..|chunks| - 1]) + chunks[|chunks| - 1]
  }

  function FragmentNumber(i: nat, n: nat): nat { if i == n - 1 then i + 0x8000 else i }

  /** Any status will do. */
  function Fragment(chunks: seq<seq<byte>>, i: nat, status: nat -> nat): Packet
    requires i < |chunks|
  {
    Packet(25, status(i), ToLE(FragmentNumber(i, |chunks|), 2) + chunks[i])
  }

  function FragmentsFrom(chunks: seq<seq<byte>>, i: nat, status: nat -> nat): seq<Packet>
    requires i <= |chunks|
    decreases |chunks| - i
  {
    if i == |chunks| then [] else [Fragment(chunks, i, status)] + FragmentsFrom(chunks, i + 1, status)
  }

  predicate Readable(chunks: seq<seq<byte>>) {
    forall i :: 0 <= i < |chunks| ==> |chunks[i]| <= MAX_FRAME_BYTES - 2
  }

  lemma FragmentParses(chunks: seq<seq<byte>>, i: nat, status: nat -> nat)
    requires i < |chunks| <= 32768
    ensures var body := Fragment(chunks, i, status).body;
            && |body| == |chunks[i]| + 2 && body[2..] == chunks[i]
            && FromLE(body[..2]) == FragmentNumber(i, |chunks|)
            && (FragmentNumber(i, |chunks|) % LAST_BIT == 0 <==> i == 0)
            && (FragmentNumber(i, |chunks|) / LAST_BIT % 2 == 1 <==> i == |chunks| - 1)
  {
    var num := FragmentNumber(i, |chunks|);
    var body := Fragment(chunks, i, status).body;
    assert body[..2] == ToLE(num, 2) && body[2..] == chunks[i];
    FromLEOfToLE(num, 2);
  }

  lemma {:induction false} JoinedGrows(chunks: seq<seq<byte>>, i: nat)
    requires i <= |chunks|
    ensures |Joined(chunks[..i])| <= |Joined(chunks)|
    decreases |chunks|
  {
    if i == |chunks| {
      assert chunks[..i] == chunks;
    } else {
      var fewer := chunks[..|chunks| - 1];
      JoinedGrows(fewer, i);
      assert fewer[..i] == chunks[..i];
    }
  }

  lemma NextFragment(chunks: seq<seq<byte>>, i: nat, status: nat -> nat, after: seq<Packet>)
    requires i < |chunks|
    ensures FragmentsFrom(chunks, i, status) + after
            == [Fragment(chunks, i, status)] + (FragmentsFrom(chunks, i + 1, status) + after)
  {
  }

  /** From fragment `i` on, with the earlier ones collected, a frame that fits comes out. */
  lemma {:induction false} FragmentsReassemble(
    chunks: seq<seq<byte>>, i: nat, status: nat -> nat, buf: seq<byte>, after: seq<Packet>)
    requires i < |chunks| <= 32768 && Readable(chunks) && |Joined(chunks)| <= MAX_FRAME_BYTES
    requires i > 0 ==> buf == Joined(chunks[..i])
    ensures CaptureFrom(FragmentsFrom(chunks, i, status) + after, buf) == Captured(Joined(chunks))
    decreases |chunks| - i
  {
    NextFragment(chunks, i, status, after);
    FragmentStep(chunks, i, status, buf, FragmentsFrom(chunks, i + 1, status) + after);
    JoinedTake(chunks, i);
    JoinedGrows(chunks, i + 1);
    var next := Joined(chunks[..i + 1]);
    assert next == (if i == 0 then [] else buf) + chunks[i];
    if i == |chunks| - 1 {
      assert chunks[..i + 1] == chunks;
    } else {
      FragmentsReassemble(chunks, i + 1, status, next, after);
    }
  }

  predicate Refused(r: Capture) { r == Implausible || r == FrameTooLong }

  /** And one that does not fit is refused by one of the two caps. */
  lemma {:induction false} FragmentsRefused(
    chunks: seq<seq<byte>>, i: nat, status: nat -> nat, buf: seq<byte>, after: seq<Packet>)
    requires i < |chunks| <= 32768
    requires !ReadableFrom(chunks, i) || |Joined(chunks)| > MAX_FRAME_BYTES
    requires i > 0 ==> buf == Joined(chunks[..i])
    ensures Refused(CaptureFrom(FragmentsFrom(chunks, i, status) + after, buf))
    decreases |chunks| - i
  {
    NextFragment(chunks, i, status, after);
    FragmentStep(chunks, i, status, buf, FragmentsFrom(chunks, i + 1, status) + after);
    JoinedTake(chunks, i);
    var next := Joined(chunks[..i + 1]);
    assert next == (if i == 0 then [] else buf) + chunks[i];
    assert i == |chunks| - 1 ==> chunks[..i + 1] == chunks;
    if |chunks[i]| + 2 <= MAX_FRAME_BYTES && |next| <= MAX_FRAME_BYTES && i < |chunks| - 1 {
      FragmentsRefused(chunks, i + 1, status, next, after);
    }
  }

  predicate ReadableFrom(chunks: seq<seq<byte>>, i: nat)
    requires i <= |chunks|
    decreases |chunks| - i
  {
    i == |chunks| || (|chunks[i]| <= MAX_FRAME_BYTES - 2 && ReadableFrom(chunks, i + 1))
  }

  lemma {:induction false} ReadableFromIsForall(chunks: seq<seq<byte>>, i: nat)
    requires i <= |chunks|
    ensures ReadableFrom(chunks, i) <==> forall j :: i <= j < |chunks| ==> |chunks[j]| <= MAX_FRAME_BYTES - 2
    decreases |chunks| - i
  {
    if i < |chunks| {
      ReadableFromIsForall(chunks, i + 1);
    }
  }

  lemma JoinedTake(chunks: seq<seq<byte>>, i: nat)
    requires i < |chunks|
    ensures Joined(chunks[..i + 1]) == Joined(chunks[..i]) + chunks[i]
    ensures i == 0 ==> Joined(chunks[..i]) == []
  {
    assert chunks[..i + 1][..i] == chunks[..i];
  }

  /** What one fragment of the frame does to the loop. */
  lemma FragmentStep(chunks: seq<seq<byte>>, i: nat, status: nat -> nat, buf: seq<byte>, rest: seq<Packet>)
    requires i < |chunks| <= 32768
    ensures var kept := if i == 0 then [] else buf;
            CaptureFrom([Fragment(chunks, i, status)] + rest, buf)
            == if |chunks[i]| + 2 > MAX_FRAME_BYTES then Implausible
               else if |kept| + |chunks[i]| > MAX_FRAME_BYTES then FrameTooLong
               else if i == |chunks| - 1 then Captured(kept + chunks[i])
               else CaptureFrom(rest, kept + chunks[i])
  {
    FragmentParses(chunks, i, status);
    assert ([Fragment(chunks, i, status)] + rest)[1..] == rest;
  }

  /** A frame cut into 1 to 32768 fragments, arriving after any unfinished partial frame
      and mixed with any packets the loop discards, comes out unchanged exactly when it is
      at most the cap and no single fragment carries more than the cap less its 2-byte
      number; otherwise the loop reports an error, never other bytes. */
  lemma FrameIsCapturedIff(
    packets: seq<Packet>, before: seq<Packet>, chunks: seq<seq<byte>>, status: nat -> nat, after: seq<Packet>)
    requires 1 <= |chunks| <= 32768
    requires CaptureFrom(before, []).RanDry?
    requires Signal(packets) == before + (FragmentsFrom(chunks, 0, status) + after)
    ensures CaptureFrom(packets, []) == Captured(Joined(chunks))
            <==> |Joined(chunks)| <= MAX_FRAME_BYTES && Readable(chunks)
    ensures CaptureFrom(packets, []) == Captured(Joined(chunks)) || Refused(CaptureFrom(packets, []))
  {
    CaptureIgnoresNoise(packets, []);
    CaptureConcat(before, FragmentsFrom(chunks, 0, status) + after, []);
    if |Joined(chunks)| <= MAX_FRAME_BYTES && Readable(chunks) {
      FragmentsReassemble(chunks, 0, status, Collected(before, []), after);
    } else {
      ReadableFromIsForall(chunks, 0);
      FragmentsRefused(chunks, 0, status, Collected(before, []), after);
    }
  }

  /** The same of the bytes on the wire, whatever comes after them. */
  lemma StreamedFrameIsCapturedIff(
    packets: seq<Packet>, before: seq<Packet>, chunks: seq<seq<byte>>, status: nat -> nat, after: seq<Packet>,
    rest: seq<Token>)
    requires 1 <= |chunks| <= 32768 && AllSendable(packets)
    requires CaptureFrom(before, []).RanDry?
    requires Signal(packets) == before + (FragmentsFrom(chunks, 0, status) + after)
    ensures var r := CaptureOn(Raw(Stream(packets)) + rest, []);
            && (r == Captured(Joined(chunks)) <==> |Joined(chunks)| <= MAX_FRAME_BYTES && Readable(chunks))
            && (r == Captured(Joined(chunks)) || Refused(r))
  {
    FrameIsCapturedIff(packets, before, chunks, status, after);
    CaptureOfStream(packets, rest, []);
  }

  /** A stream broken off anywhere gives the outcome of the whole stream or reports the
      loss; it never gives another outcome. */
  lemma BrokenStreamNeverLies(packets: seq<Packet>, cut: nat, rest: seq<Token>, buf: seq<byte>)
    requires AllSendable(packets) && cut <= |Stream(packets)| && (rest == [] || !rest[0].B?)
    ensures var r := CaptureOn(Raw(Stream(packets)[..cut]) + rest, buf);
            r == CaptureFrom(packets, buf) || r.Lost?
  {
    BrokenStreamIsPrefix(packets, cut, rest);
    var (read, why) := ReadAll(Raw(Stream(packets)[..cut]) + rest);
    if why.Oversized? {
      CaptureStopsAt(packets, |read|, buf);
    } else {
      CaptureSplit(read, packets[|read|..], buf);
      assert packets[..|read|] + packets[|read|..] == packets;
    }
  }

  /** A stream that stops between packets with no outcome yet is reported for what it is: the
      peer has closed, the socket has failed, or the wait has timed out. */
  lemma WaitIsLost(packets: seq<Packet>, rest: seq<Token>)
    requires AllSendable(packets) && CaptureFrom(packets, []).RanDry? && (rest == [] || !rest[0].B?)
    ensures CaptureOn(Raw(Stream(packets)) + rest, [])
            == Lost(if rest == [] then PeerClosed else if rest[0].F? then SocketFault else TimedOut(false))
  {
    CaptureOfStream(packets, rest, []);
    HeaderLost([], rest);
    assert Raw([]) + rest == rest;
  }

  /** The nudge is an empty packet of type 5. */
  lemma RefreshIsRead()
    ensures ReadAll(Raw(RefreshPacket())) == ([Packet(5, 0, [])], PeerClosed)
  {
    var p := Packet(5, 0, []);
    assert RefreshPacket() + [] == RefreshPacket() == Serialised(p);
    ReadOn(p, []);
    assert Raw(Serialised(p)) + [] == Raw(Serialised(p));
    HeaderLost([], []);
    assert Raw([]) + [] == [] && ReadAll([]) == ([], PeerClosed) && [p] + [] == [p];
  }

  /** A frame of exactly the advertised maximum, sent whole, is refused by the packet cap. */
  lemma MaximalFrameInOneFragmentIsRefused(frame: seq<byte>, status: nat -> nat)
    requires |frame| == MAX_FRAME_BYTES
    ensures CaptureFrom(FragmentsFrom([frame], 0, status), []) == Implausible
  {
    FragmentParses([frame], 0, status);
    assert FragmentsFrom([frame], 0, status)[0] == Fragment([frame], 0, status);
  }
}
