/** Writes beside concurrent readers of one cache. `write_at` writes the medium first,
    outside the lock, and drops the windows it touched in a critical section of its own; a
    reader that fetched before the write and stores after the drop brings stale bytes back. */
module CacheWrites {
  import opened Wrappers
  import opened Bytes
  import opened Lru
  import opened WindowCache
  import opened CacheInterleaving

  datatype Span = Span(offset: int, length: nat)

  /** `pending` holds the writes that have reached the medium and not yet the cache. */
  datatype World = World(image: seq<byte>, readers: State, pending: map<nat, Span>)

  datatype Geometry = Geometry(ws: nat, cap: nat)

  datatype Event =
    | ReaderStep(i: nat)                                              // reader `i` takes one step
    | WriteMedium(id: nat, data: seq<byte>, offset: int, accept: nat)
    | DropWindows(id: nat)

  function Over(g: Geometry, image: seq<byte>): Config { Config(image, g.ws, g.cap) }

  function Touched(g: Geometry, windows: map<nat, seq<byte>>, w: Span): set<nat> {
    set k | k in windows && Overlaps(k, g.ws, w.offset, w.length)
  }

  /** Cache.Invalidate, as one step. */
  function Drop(g: Geometry, sh: Shared, w: Span): Shared {
    var gone := Touched(g, sh.windows, w);
    sh.(order := Minus(sh.order, gone), windows := sh.windows - gone)
  }

  predicate Enabled(s: World, e: Event) {
    match e
    case ReaderStep(_) => true
    case WriteMedium(id, _, _, _) => id !in s.pending
    case DropWindows(id) => id in s.pending
  }

  function Next(g: Geometry, s: World, e: Event): World
    requires g.ws > 0 && Enabled(s, e)
  {
    match e
    case ReaderStep(i) => s.(readers := Step(Over(g, s.image), s.readers, i))
    case WriteMedium(id, data, offset, accept) =>
      s.(image := Overlay(s.image, data[..Min(accept, |data|)], offset),
         pending := s.pending[id := Span(offset, |data|)])
    case DropWindows(id) =>
      s.(readers := s.readers.(shared := Drop(g, s.readers.shared, s.pending[id])), pending := s.pending - {id})
  }

  // ----- what is stale, and what still may be -----

  /** A write that has reached the medium will yet drop this window. */
  ghost predicate Dirty(g: Geometry, pending: map<nat, Span>, k: nat) {
    exists id :: id in pending && Overlaps(k, g.ws, pending[id].offset, pending[id].length)
  }

  /** The bytes are the medium's, or a pending write will drop them. */
  ghost predicate Current(g: Geometry, image: seq<byte>, pending: map<nat, Span>, k: nat, data: seq<byte>) {
    data == Slice(image, g.ws, k) || Dirty(g, pending, k)
  }

  ghost predicate WindowsOk(g: Geometry, image: seq<byte>, pending: map<nat, Span>, sh: Shared)
    requires g.ws > 0
  {
    && Keyed(sh.order, sh.windows) && |sh.order| <= g.cap
    && forall k :: k in sh.windows ==>
         Aligned(k, g.ws) && k < |image| && Current(g, image, pending, k, sh.windows[k])
  }

  /** The reader is inside the medium, at the window it wants. */
  ghost predicate Placed(g: Geometry, size: nat, t: Thread)
    requires g.ws > 0
  {
    t.pc.Reading? ==>
      && t.pc.end <= size
      && (!t.pc.phase.AtLookup? ==> t.pc.phase.start == AlignDown(t.pc.pos, g.ws) && t.pc.pos < t.pc.end)
  }

  /** What the reader holds between its fetch and its second critical section is current. */
  ghost predicate Holds(g: Geometry, image: seq<byte>, pending: map<nat, Span>, t: Thread) {
    t.pc.Reading? && t.pc.phase.AtInsert? ==> Current(g, image, pending, t.pc.phase.start, t.pc.phase.data)
  }

  ghost predicate Inv(g: Geometry, s: World)
    requires g.ws > 0
  {
    && WindowsOk(g, s.image, s.pending, s.readers.shared)
    && forall i :: 0 <= i < |s.readers.threads| ==>
         Placed(g, |s.image|, s.readers.threads[i]) && Holds(g, s.image, s.pending, s.readers.threads[i])
  }

  /** The drop leaves no reader holding bytes from before the write. */
  ghost predicate Clean(g: Geometry, s: World, e: Event) {
    e.DropWindows? && e.id in s.pending ==>
      forall i :: 0 <= i < |s.readers.threads| ==>
        Holds(g, s.image, s.pending - {e.id}, s.readers.threads[i])
  }

  // ----- every clean step keeps the invariant -----

  lemma {:induction false} MinusDistinct(order: seq<nat>, gone: set<nat>)
    requires Distinct(order)
    ensures Distinct(Minus(order, gone))
  {
    if order != [] {
      MinusDistinct(order[1..], gone);
      MinusMembers(order[1..], gone);
    }
  }

  lemma DropKeeps(g: Geometry, s: World, id: nat)
    requires g.ws > 0 && Inv(g, s) && id in s.pending && Clean(g, s, DropWindows(id))
    ensures Inv(g, Next(g, s, DropWindows(id)))
  {
    var sh := s.readers.shared;
    var gone := Touched(g, sh.windows, s.pending[id]);
    MinusDistinct(sh.order, gone);
    MinusMembers(sh.order, gone);
    forall k | k in sh.windows && k !in gone
      ensures Current(g, s.image, s.pending - {id}, k, sh.windows[k])
    {
      if sh.windows[k] != Slice(s.image, g.ws, k) {
        var w :| w in s.pending && Overlaps(k, g.ws, s.pending[w].offset, s.pending[w].length);
        assert w in s.pending - {id};
      }
    }
  }

  lemma StaysCurrent(g: Geometry, s: World, e: Event, k: nat, bytes: seq<byte>)
    requires g.ws > 0 && e.WriteMedium? && Enabled(s, e) && Current(g, s.image, s.pending, k, bytes)
    ensures Current(g, Next(g, s, e).image, Next(g, s, e).pending, k, bytes)
  {
    var n := Min(e.accept, |e.data|);
    var pending := Next(g, s, e).pending;
    if Overlaps(k, g.ws, e.offset, |e.data|) {
      assert pending[e.id] == Span(e.offset, |e.data|);
    } else if Dirty(g, s.pending, k) {
      var w :| w in s.pending && Overlaps(k, g.ws, s.pending[w].offset, s.pending[w].length);
      assert pending[w] == s.pending[w];
    } else {
      OverlayElsewhere(s.image, e.data[..n], e.offset, g.ws, k);
    }
  }

  lemma WriteKeeps(g: Geometry, s: World, e: Event)
    requires g.ws > 0 && Inv(g, s) && e.WriteMedium? && Enabled(s, e)
    ensures Inv(g, Next(g, s, e))
  {
    var sh := s.readers.shared;
    forall k | k in sh.windows
      ensures Current(g, Next(g, s, e).image, Next(g, s, e).pending, k, sh.windows[k])
    {
      StaysCurrent(g, s, e, k, sh.windows[k]);
    }
    forall i | 0 <= i < |s.readers.threads|
      ensures Holds(g, Next(g, s, e).image, Next(g, s, e).pending, s.readers.threads[i])
    {
      var t := s.readers.threads[i];
      if t.pc.Reading? && t.pc.phase.AtInsert? {
        StaysCurrent(g, s, e, t.pc.phase.start, t.pc.phase.data);
      }
    }
  }

  lemma InsertKeeps(g: Geometry, image: seq<byte>, pending: map<nat, Span>, sh: Shared, t: Thread)
    requires g.ws > 0 && WindowsOk(g, image, pending, sh)
    requires Placed(g, |image|, t) && Holds(g, image, pending, t) && t.pc.Reading? && t.pc.phase.AtInsert?
    ensures t.pc.phase.start <= t.pc.pos
    ensures var r := Insert(Over(g, image), sh, t);
            WindowsOk(g, image, pending, r.0) && Placed(g, |image|, r.1) && Holds(g, image, pending, r.1)
  {
    var start, data := t.pc.phase.start, t.pc.phase.data;
    AlignDownIsAligned(t.pc.pos, g.ws);
    if start in sh.windows {
      MoveToEndKeyed(sh.order, sh.windows, start, g.cap);
      MinusOne(sh.order, start);
    } else {
      InsertKeyed(sh.order, sh.windows, start, data, g.cap);
      NewestKeyed(sh.order + [start], sh.windows[start := data], g.cap);
    }
  }

  lemma MoveKeeps(g: Geometry, image: seq<byte>, pending: map<nat, Span>, sh: Shared, t: Thread)
    requires g.ws > 0 && WindowsOk(g, image, pending, sh)
    requires Placed(g, |image|, t) && Holds(g, image, pending, t)
    ensures var r := Move(Over(g, image), sh, t);
            WindowsOk(g, image, pending, r.0) && Placed(g, |image|, r.1) && Holds(g, image, pending, r.1)
  {
    if t.pc.Reading? {
      if t.pc.phase.AtInsert? {
        InsertKeeps(g, image, pending, sh, t);
      } else if t.pc.phase.AtLookup? && t.pc.pos < t.pc.end {
        var start := AlignDown(t.pc.pos, g.ws);
        if start in sh.windows {
          MoveToEndKeyed(sh.order, sh.windows, start, g.cap);
          MinusOne(sh.order, start);
        }
      }
    }
  }

  lemma EventKeepsInv(g: Geometry, s: World, e: Event)
    requires g.ws > 0 && Inv(g, s) && Enabled(s, e) && Clean(g, s, e)
    ensures Inv(g, Next(g, s, e))
  {
    match e
    case ReaderStep(i) =>
      if i < |s.readers.threads| {
        MoveKeeps(g, s.image, s.pending, s.readers.shared, s.readers.threads[i]);
      }
    case WriteMedium(_, _, _, _) => WriteKeeps(g, s, e);
    case DropWindows(id) => DropKeeps(g, s, id);
  }

  // ----- whole runs -----

  ghost predicate Follows(g: Geometry, s: World, events: seq<Event>, end: World)
    requires g.ws > 0
    decreases |events|
  {
    if events == [] then s == end
    else Enabled(s, events[0]) && Follows(g, Next(g, s, events[0]), events[1..], end)
  }

  /** No drop of the run leaves a reader holding bytes from before its write. */
  ghost predicate AllClean(g: Geometry, s: World, events: seq<Event>, end: World)
    requires g.ws > 0 && Follows(g, s, events, end)
    decreases |events|
  {
    events == [] || (Clean(g, s, events[0]) && AllClean(g, Next(g, s, events[0]), events[1..], end))
  }

  lemma {:induction false} RunKeepsInv(g: Geometry, s: World, events: seq<Event>, end: World)
    requires g.ws > 0 && Inv(g, s) && Follows(g, s, events, end) && AllClean(g, s, events, end)
    ensures Inv(g, end)
    decreases |events|
  {
    if events != [] {
      EventKeepsInv(g, s, events[0]);
      RunKeepsInv(g, Next(g, s, events[0]), events[1..], end);
    }
  }

  /** Over every clean interleaving of readers and writers, once no write is pending every
      resident window holds the medium's present bytes, within capacity. */
  lemma ResidentsAreCurrent(g: Geometry, image: seq<byte>, programs: seq<seq<Request>>, events: seq<Event>, end: World)
    requires g.ws > 0
    requires Follows(g, World(image, Start(programs), map[]), events, end)
    requires AllClean(g, World(image, Start(programs), map[]), events, end)
    ensures Inv(g, end)
    ensures end.pending == map[] ==> SharedOk(Over(g, end.image), end.readers.shared)
  {
    RunKeepsInv(g, World(image, Start(programs), map[]), events, end);
  }

  // ----- readers after the last write -----

  /** A thread without its first `n` answers. */
  function Since(t: Thread, n: nat): Thread
    requires n <= |t.done|
  {
    t.(done := t.done[n..])
  }

  /** Answers already given play no part in what a thread does next. */
  lemma MoveSince(c: Config, sh: Shared, t: Thread, n: nat)
    requires c.ws > 0 && n <= |t.done|
    ensures var r := Move(c, sh, t);
            && t.done <= r.1.done
            && Move(c, sh, Since(t, n)) == (r.0, Since(r.1, n))
  {
    assert forall x :: (t.done + [x])[n..] == t.done[n..] + [x];
  }

  lemma {:induction false} QuietReadsAreFlat(
    g: Geometry, image: seq<byte>, s: State, schedule: seq<nat>, i: nat, n: nat, program: seq<Request>)
    requires g.ws > 0 && Inv(g, World(image, s, map[]))
    requires i < |s.threads| && n <= |s.threads[i].done|
    requires ThreadOk(Over(g, image), program, Since(s.threads[i], n))
    ensures var end := Execute(Over(g, image), s, schedule);
            && s.threads[i].done <= end.threads[i].done
            && ThreadOk(Over(g, image), program, Since(end.threads[i], n))
    decreases |schedule|
  {
    if schedule != [] {
      var j, c := schedule[0], Over(g, image);
      EventKeepsInv(g, World(image, s, map[]), ReaderStep(j));
      if j == i {
        MoveSince(c, s.shared, s.threads[i], n);
        MoveKeepsInv(c, s.shared, program, Since(s.threads[i], n));
      }
      QuietReadsAreFlat(g, image, Step(c, s, j), schedule[1..], i, n, program);
    }
  }

  /** Every read that a thread begins after the last write gets the medium's present bytes,
      whatever it read before and whatever readers are still in flight beside it. */
  lemma ReadsAfterWritesAreFlat(g: Geometry, s: World, schedule: seq<nat>, i: nat)
    requires g.ws > 0 && Inv(g, s) && s.pending == map[]
    requires i < |s.readers.threads| && s.readers.threads[i].pc.Ready?
    ensures var t := s.readers.threads[i];
            var done := Execute(Over(g, s.image), s.readers, schedule).threads[i].done;
            && t.done <= done
            && (var later := done[|t.done|..];
                && |later| <= |t.todo|
                && forall j :: 0 <= j < |later| ==> later[j] == FlatAnswer(s.image, t.todo[j]))
  {
    var t := s.readers.threads[i];
    QuietReadsAreFlat(g, s.image, s.readers, schedule, i, |t.done|, t.todo);
  }

  // ----- exactly when -----

  /** However the readers go on, no resident window goes stale. */
  ghost predicate StaysCorrect(g: Geometry, s: World)
    requires g.ws > 0
  {
    forall schedule ::
      Correct(Execute(Over(g, s.image), s.readers, schedule).shared.windows, s.image, g.ws)
  }

  lemma {:induction false} QuietKeepsInv(g: Geometry, image: seq<byte>, s: State, schedule: seq<nat>)
    requires g.ws > 0 && Inv(g, World(image, s, map[]))
    ensures Correct(Execute(Over(g, image), s, schedule).shared.windows, image, g.ws)
    decreases |schedule|
  {
    if schedule != [] {
      EventKeepsInv(g, World(image, s, map[]), ReaderStep(schedule[0]));
      QuietKeepsInv(g, image, Step(Over(g, image), s, schedule[0]), schedule[1..]);
    }
  }

  lemma {:induction false} NoRoom(c: Config, s: State, schedule: seq<nat>)
    requires c.ws > 0 && c.cap == 0 && s.shared.order == [] && s.shared.windows == map[]
    ensures Execute(c, s, schedule).shared.windows == map[]
    decreases |schedule|
  {
    if schedule != [] {
      NoRoom(c, Step(c, s, schedule[0]), schedule[1..]);
    }
  }

  lemma StaleStored(g: Geometry, s: World, i: nat)
    requires g.ws > 0 && g.cap > 0 && i < |s.readers.threads|
    requires var t := s.readers.threads[i];
             && t.pc.Reading? && t.pc.phase.AtInsert? && t.pc.phase.start <= t.pc.pos
             && t.pc.phase.start !in s.readers.shared.windows
             && t.pc.phase.data != Slice(s.image, g.ws, t.pc.phase.start)
    ensures !StaysCorrect(g, s)
  {
    var c, t := Over(g, s.image), s.readers.threads[i];
    var order := Newest(s.readers.shared.order + [t.pc.phase.start], g.cap);
    assert order[|order| - 1] == t.pc.phase.start;
    var after := Step(c, s.readers, i);
    assert after.shared.windows[t.pc.phase.start] == t.pc.phase.data;
    assert Execute(c, s.readers, [i]) == after by {
      assert [i][1..] == [];
    }
  }

  /** The drop that ends the last pending write is safe exactly when the cache can hold
      nothing or no reader is left holding bytes from before the write. */
  lemma DropIsSafeIff(g: Geometry, s: World, id: nat)
    requires g.ws > 0 && Inv(g, s) && s.pending.Keys == {id}
    ensures StaysCorrect(g, Next(g, s, DropWindows(id))) <==> g.cap == 0 || Clean(g, s, DropWindows(id))
  {
    var after := Next(g, s, DropWindows(id));
    assert after.pending == map[];
    if Clean(g, s, DropWindows(id)) {
      DropKeeps(g, s, id);
      forall schedule
        ensures Correct(Execute(Over(g, s.image), after.readers, schedule).shared.windows, s.image, g.ws)
      {
        QuietKeepsInv(g, s.image, after.readers, schedule);
      }
    } else if g.cap == 0 {
      assert s.readers.shared.order == [];
      assert s.readers.shared.windows == map[];
      forall schedule
        ensures Correct(Execute(Over(g, s.image), after.readers, schedule).shared.windows, s.image, g.ws)
      {
        NoRoom(Over(g, s.image), after.readers, schedule);
      }
    } else {
      var i :| 0 <= i < |s.readers.threads| && !Holds(g, s.image, after.pending, s.readers.threads[i]);
      var start := s.readers.threads[i].pc.phase.start;
      assert Dirty(g, s.pending, start);
      StaleStored(g, after, i);
    }
  }

  /** A check that suffices: the write touches no window between its fetch and its store. */
  lemma NoOverlapIsClean(g: Geometry, s: World, id: nat)
    requires g.ws > 0 && Inv(g, s) && id in s.pending
    requires forall i :: 0 <= i < |s.readers.threads| ==>
               var pc := s.readers.threads[i].pc;
               pc.Reading? && pc.phase.AtInsert? ==>
                 !Overlaps(pc.phase.start, g.ws, s.pending[id].offset, s.pending[id].length)
    ensures Clean(g, s, DropWindows(id))
  {
    forall i | 0 <= i < |s.readers.threads|
      ensures Holds(g, s.image, s.pending - {id}, s.readers.threads[i])
    {
      var t := s.readers.threads[i];
      assert Holds(g, s.image, s.pending, t);
      if t.pc.Reading? && t.pc.phase.AtInsert? && t.pc.phase.data != Slice(s.image, g.ws, t.pc.phase.start) {
        var start := t.pc.phase.start;
        var w :| w in s.pending && Overlaps(start, g.ws, s.pending[w].offset, s.pending[w].length);
        assert w in s.pending - {id};
      }
    }
  }

  const TINY := Geometry(1, 1)
  const ONE_BYTE := Request(1, 0)

  const FRESH := Shared([], map[], 0, 0, 0)
  const MISSED := Shared([], map[], 1, 0, 0)
  const STALE := Shared([0], map[0 := [0]], 1, 1, 1)

  type Answers = seq<Result<seq<byte>, Error>>

  function At(pos: nat, out: seq<byte>, phase: Phase): Pc { Reading(0, 1, pos, out, phase) }

  /** A reader about to read one byte, then `more`. */
  function Reader(more: seq<Request>, done: Answers, pc: Pc): Thread { Thread([ONE_BYTE] + more, done, pc) }

  function Alone(image: seq<byte>, sh: Shared, t: Thread): World { World(image, State(sh, [t]), map[]) }

  /** A reader that misses moves on to hold what it fetched. */
  lemma MissMoves(more: seq<Request>, done: Answers)
    ensures var c := Over(TINY, [0]);
            && Move(c, FRESH, Reader(more, done, Ready)) == (FRESH, Reader(more, done, At(0, [], AtLookup)))
            && Move(c, FRESH, Reader(more, done, At(0, [], AtLookup)))
               == (MISSED, Reader(more, done, At(0, [], AtFetch(0))))
            && Move(c, MISSED, Reader(more, done, At(0, [], AtFetch(0))))
               == (MISSED, Reader(more, done, At(0, [], AtInsert(0, [0]))))
  {
    assert Slice([0], 1, 0) == [0];
  }

  lemma StoreMoves(more: seq<Request>, done: Answers)
    ensures Move(Over(TINY, [1]), MISSED, Reader(more, done, At(0, [], AtInsert(0, [0]))))
            == (STALE, Reader(more, done, At(1, [0], AtLookup)))
  {
    var all := MISSED.windows[0 := [0]];
    assert Newest([] + [0], 1) == [0];
    assert (map k | k in all && k in [0] :: all[k]) == map[0 := [0]];
    assert [] + [0][0..1] == [0];
  }

  /** A reader that hits answers what is resident. */
  lemma HitMoves(more: seq<Request>, done: Answers)
    ensures var c := Over(TINY, [1]);
            && Move(c, STALE, Reader(more, done, Ready)) == (STALE, Reader(more, done, At(0, [], AtLookup)))
            && Move(c, STALE, Reader(more, done, At(0, [], AtLookup)))
               == (STALE, Reader(more, done, At(1, [0], AtLookup)))
            && Move(c, STALE, Reader(more, done, At(1, [0], AtLookup)))
               == (STALE, Thread(more, done + [Ok([0])], Ready))
  {
    assert Minus([0], {0}) + [0] == [0];
    assert [] + [0][0..1] == [0];
    assert ([ONE_BYTE] + more)[1..] == more;
  }

  lemma Steps(image: seq<byte>, sh: Shared, t: Thread, rest: seq<Event>, end: World) returns (events: seq<Event>)
    requires var r := Move(Over(TINY, image), sh, t); Follows(TINY, Alone(image, r.0, r.1), rest, end)
    ensures Follows(TINY, Alone(image, sh, t), events, end)
  {
    var r := Move(Over(TINY, image), sh, t);
    events := [ReaderStep(0)] + rest;
    assert [t][0 := r.1] == [r.1];
    FollowsCons(TINY, Alone(image, sh, t), ReaderStep(0), rest, end);
  }

  lemma FollowsCons(g: Geometry, s: World, e: Event, rest: seq<Event>, end: World)
    requires g.ws > 0 && Enabled(s, e) && Follows(g, Next(g, s, e), rest, end)
    ensures Follows(g, s, [e] + rest, end)
  {
    assert ([e] + rest)[1..] == rest;
  }

  /** The write happens between a reader's fetch and its store. */
  lemma WriteBetween(t: Thread, rest: seq<Event>, end: World) returns (events: seq<Event>)
    requires Follows(TINY, Alone([1], MISSED, t), rest, end)
    ensures Follows(TINY, Alone([0], MISSED, t), events, end)
  {
    var write, drop := WriteMedium(9, [1], 0, 1), DropWindows(9);
    var s, written := Alone([0], MISSED, t), Alone([1], MISSED, t).(pending := map[9 := Span(0, 1)]);
    assert Overlay([0], [1][..1], 0) == [1];
    assert Next(TINY, s, write) == written;
    assert Next(TINY, written, drop) == Alone([1], MISSED, t);
    FollowsCons(TINY, written, drop, rest, end);
    FollowsCons(TINY, s, write, [drop] + rest, end);
    events := [write] + ([drop] + rest);
  }

  lemma StaleAnswer(end: World) returns (events: seq<Event>)
    requires end == Alone([1], STALE, Thread([], [Ok([0])] + [Ok([0])], Ready))
    ensures Follows(TINY, Alone([1], STALE, Reader([ONE_BYTE], [], At(1, [0], AtLookup))), events, end)
  {
    HitMoves([ONE_BYTE], []);
    HitMoves([], [Ok([0])]);
    assert Thread([ONE_BYTE], [] + [Ok([0])], Ready) == Reader([], [Ok([0])], Ready);
    events := Steps([1], STALE, Reader([], [Ok([0])], At(1, [0], AtLookup)), [], end);
    events := Steps([1], STALE, Reader([], [Ok([0])], At(0, [], AtLookup)), events, end);
    events := Steps([1], STALE, Reader([], [Ok([0])], Ready), events, end);
    events := Steps([1], STALE, Reader([ONE_BYTE], [], At(1, [0], AtLookup)), events, end);
  }

  lemma StaleStore(more: seq<Request>, rest: seq<Event>, end: World) returns (events: seq<Event>)
    requires Follows(TINY, Alone([1], STALE, Reader(more, [], At(1, [0], AtLookup))), rest, end)
    ensures Follows(TINY, Alone([0], FRESH, Reader(more, [], Ready)), events, end)
  {
    MissMoves(more, []);
    StoreMoves(more, []);
    events := Steps([1], MISSED, Reader(more, [], At(0, [], AtInsert(0, [0]))), rest, end);
    events := WriteBetween(Reader(more, [], At(0, [], AtInsert(0, [0]))), events, end);
    events := Steps([0], MISSED, Reader(more, [], At(0, [], AtFetch(0))), events, end);
    events := Steps([0], FRESH, Reader(more, [], At(0, [], AtLookup)), events, end);
    events := Steps([0], FRESH, Reader(more, [], Ready), events, end);
  }

  /** The failing run: a reader fetches a zero, a write puts a one there and drops its
      windows, the reader stores the zero, and a read begun after the write answers zero. */
  lemma StaleRun() returns (events: seq<Event>, end: World)
    ensures Follows(TINY, World([0], Start([[ONE_BYTE, ONE_BYTE]]), map[]), events, end)
    ensures end.image == [1] && end.pending == map[]
    ensures |end.readers.threads| == 1 && end.readers.threads[0].done == [Ok([0]), Ok([0])]
  {
    end := Alone([1], STALE, Thread([], [Ok([0])] + [Ok([0])], Ready));
    events := StaleAnswer(end);
    events := StaleStore([ONE_BYTE], events, end);
    assert [ONE_BYTE] + [ONE_BYTE] == [ONE_BYTE, ONE_BYTE];
    assert Start([[ONE_BYTE, ONE_BYTE]]).threads == [Reader([ONE_BYTE], [], Ready)];
  }
}
