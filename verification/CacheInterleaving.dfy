/** Concurrent readers of one cache over an unchanging medium. Each thread runs `read_at`
    as atomic steps: the two critical sections of `_window` and, between them and outside
    the lock, one fetch. A schedule says which thread moves next. */
module CacheInterleaving {
  import opened Wrappers
  import opened Bytes
  import opened Lru
  import opened WindowCache

  datatype Phase = AtLookup | AtFetch(start: nat) | AtInsert(start: nat, data: seq<byte>)

  datatype Pc = Ready | Reading(offset: nat, end: nat, pos: nat, out: seq<byte>, phase: Phase)

  datatype Thread = Thread(todo: seq<Request>, done: seq<Result<seq<byte>, Error>>, pc: Pc)

  /** `stored` counts completed second critical sections; the source keeps no such number. */
  datatype Shared = Shared(order: seq<nat>, windows: map<nat, seq<byte>>, misses: nat, fetched: nat, stored: nat)

  datatype State = State(shared: Shared, threads: seq<Thread>)

  datatype Config = Config(image: seq<byte>, ws: nat, cap: nat)

  // ----- one atomic step of one thread -----

  /** Back in the read loop with a window in hand. */
  function Consume(pc: Pc, win: seq<byte>, start: nat): Pc
    requires pc.Reading? && start <= pc.pos
  {
    if pc.pos >= pc.end then pc.(phase := AtLookup)
    else
      var taken := TakeChunk(win, start, pc.pos, pc.end);
      if taken.0 == [] then pc.(end := pc.pos, phase := AtLookup)
      else pc.(pos := taken.1, out := pc.out + taken.0, phase := AtLookup)
  }

  function Finish(t: Thread, result: Result<seq<byte>, Error>): Thread {
    Thread(if t.todo == [] then [] else t.todo[1..], t.done + [result], Ready)
  }

  function Begin(c: Config, t: Thread): Thread {
    if t.todo == [] then t
    else
      var r := t.todo[0];
      if r.offset < 0 then Finish(t, Err(NegativeOffset))
      else if r.offset >= |c.image| || r.n < 0 then Finish(t, Ok([]))
      else t.(pc := Reading(r.offset, Min(r.offset + r.n, |c.image|), r.offset, [], AtLookup))
  }

  /** First critical section. */
  function Lookup(c: Config, sh: Shared, t: Thread): (r: (Shared, Thread))
    requires c.ws > 0 && t.pc.Reading?
  {
    if t.pc.pos >= t.pc.end then (sh, Finish(t, Ok(t.pc.out)))
    else
      var start := AlignDown(t.pc.pos, c.ws);
      if start in sh.windows then
        (sh.(order := Minus(sh.order, {start}) + [start]),
         t.(pc := Consume(t.pc, sh.windows[start], start)))
      else (sh.(misses := sh.misses + 1), t.(pc := t.pc.(phase := AtFetch(start))))
  }

  /** Second critical section: prefer a window another reader stored meanwhile. */
  function Insert(c: Config, sh: Shared, t: Thread): (r: (Shared, Thread))
    requires t.pc.Reading? && t.pc.phase.AtInsert? && t.pc.phase.start <= t.pc.pos
  {
    var start, data := t.pc.phase.start, t.pc.phase.data;
    var counted := sh.(fetched := sh.fetched + |data|, stored := sh.stored + 1);
    if start in sh.windows then
      (counted.(order := Minus(sh.order, {start}) + [start]),
       t.(pc := Consume(t.pc, sh.windows[start], start)))
    else
      var order := Newest(sh.order + [start], c.cap);
      (counted.(order := order,
                windows := map k | k in sh.windows[start := data] && k in order :: sh.windows[start := data][k]),
       t.(pc := Consume(t.pc, data, start)))
  }

  function Move(c: Config, sh: Shared, t: Thread): (r: (Shared, Thread))
    requires c.ws > 0
  {
    match t.pc
    case Ready => (sh, Begin(c, t))
    case Reading(_, _, pos, _, phase) =>
      match phase
      case AtLookup => Lookup(c, sh, t)
      case AtFetch(start) => (sh, t.(pc := t.pc.(phase := AtInsert(start, Slice(c.image, c.ws, start)))))
      case AtInsert(start, _) => if start <= pos then Insert(c, sh, t) else (sh, t)
  }

  function Step(c: Config, s: State, i: nat): (s': State)
    requires c.ws > 0
    ensures |s'.threads| == |s.threads|
  {
    if i >= |s.threads| then s
    else
      var r := Move(c, s.shared, s.threads[i]);
      State(r.0, s.threads[i := r.1])
  }

  function Execute(c: Config, s: State, schedule: seq<nat>): (s': State)
    requires c.ws > 0
    ensures |s'.threads| == |s.threads|
    decreases |schedule|
  {
    if schedule == [] then s else Execute(c, Step(c, s, schedule[0]), schedule[1..])
  }

  function Start(programs: seq<seq<Request>>): State {
    State(Shared([], map[], 0, 0, 0), seq(|programs|, i requires 0 <= i < |programs| => Thread(programs[i], [], Ready)))
  }

  // ----- the invariant -----

  ghost predicate SharedOk(c: Config, sh: Shared)
    requires c.ws > 0
  {
    Keyed(sh.order, sh.windows) && |sh.order| <= c.cap && Correct(sh.windows, c.image, c.ws)
  }

  function FlatAnswer(image: seq<byte>, r: Request): Result<seq<byte>, Error> {
    if r.offset < 0 then Err(NegativeOffset) else Ok(Slice(image, r.n, r.offset))
  }

  ghost predicate ReadingOk(c: Config, r: Request, pc: Pc)
    requires c.ws > 0 && pc.Reading?
  {
    && r.offset == pc.offset && pc.offset < |c.image| && r.n >= 0
    && pc.end == Min(r.offset + r.n, |c.image|)
    && pc.offset <= pc.pos <= pc.end
    && pc.out == c.image[pc.offset..pc.pos]
    && (!pc.phase.AtLookup? ==> pc.phase.start == AlignDown(pc.pos, c.ws) && pc.pos < pc.end)
    && (pc.phase.AtInsert? ==> pc.phase.data == Slice(c.image, c.ws, pc.phase.start))
  }

  /** A thread has answered a prefix of its program, every answer flat, and is part-way
      through the next request with exactly the bytes before its position. */
  ghost predicate ThreadOk(c: Config, program: seq<Request>, t: Thread)
    requires c.ws > 0
  {
    && |t.done| <= |program|
    && t.todo == program[|t.done|..]
    && (forall j :: 0 <= j < |t.done| ==> t.done[j] == FlatAnswer(c.image, program[j]))
    && (t.pc.Reading? ==> t.todo != [] && ReadingOk(c, t.todo[0], t.pc))
  }

  /** A thread that has missed and not yet stored. */
  function Flying(t: Thread): nat { if t.pc.Reading? && !t.pc.phase.AtLookup? then 1 else 0 }

  function InFlight(threads: seq<Thread>): nat {
    if threads == [] then 0 else InFlight(threads[..|threads| - 1]) + Flying(threads[|threads| - 1])
  }

  lemma {:induction false} InFlightUpdate(threads: seq<Thread>, i: nat, t: Thread)
    requires i < |threads|
    ensures InFlight(threads[i := t]) == InFlight(threads) - Flying(threads[i]) + Flying(t)
    ensures InFlight(threads) >= Flying(threads[i])
  {
    var n := |threads| - 1;
    if i == n {
      assert threads[i := t][..n] == threads[..n];
    } else {
      assert threads[i := t][..n] == threads[..n][i := t];
      InFlightUpdate(threads[..n], i, t);
    }
  }

  /** Every miss is a fetch completed or one in flight, and no fetch exceeds a window. */
  predicate Balanced(c: Config, s: State) {
    && s.shared.misses == s.shared.stored + InFlight(s.threads)
    && s.shared.fetched <= s.shared.stored * c.ws
  }

  lemma MoveAccounts(c: Config, sh: Shared, program: seq<Request>, t: Thread)
    requires c.ws > 0 && ThreadOk(c, program, t)
    ensures var r := Move(c, sh, t);
            && r.0.misses - r.0.stored == sh.misses - sh.stored + Flying(r.1) - Flying(t)
            && ((r.0.stored == sh.stored && r.0.fetched == sh.fetched)
                || (r.0.stored == sh.stored + 1 && r.0.fetched <= sh.fetched + c.ws))
  {
  }

  lemma StepKeepsBalance(c: Config, programs: seq<seq<Request>>, s: State, i: nat)
    requires c.ws > 0 && Inv(c, programs, s) && Balanced(c, s)
    ensures Balanced(c, Step(c, s, i))
  {
    if i < |s.threads| {
      assert ThreadOk(c, programs[i], s.threads[i]);
      MoveAccounts(c, s.shared, programs[i], s.threads[i]);
      var r := Move(c, s.shared, s.threads[i]);
      BalanceMoves(c, s, i, r.0, r.1);
    }
  }

  lemma BalanceMoves(c: Config, s: State, i: nat, sh: Shared, t: Thread)
    requires Balanced(c, s) && i < |s.threads|
    requires sh.misses - sh.stored == s.shared.misses - s.shared.stored + Flying(t) - Flying(s.threads[i])
    requires || (sh.stored == s.shared.stored && sh.fetched == s.shared.fetched)
             || (sh.stored == s.shared.stored + 1 && sh.fetched <= s.shared.fetched + c.ws)
    ensures Balanced(c, State(sh, s.threads[i := t]))
  {
    InFlightUpdate(s.threads, i, t);
    OneMore(s.shared.stored, s.shared.fetched, sh.fetched, c.ws);
  }

  lemma OneMore(stored: nat, fetched: nat, now: nat, ws: nat)
    requires fetched <= stored * ws
    ensures now <= fetched + ws ==> now <= (stored + 1) * ws
  {
    assert (stored + 1) * ws == stored * ws + ws;
  }

  ghost predicate Inv(c: Config, programs: seq<seq<Request>>, s: State)
    requires c.ws > 0
  {
    && |s.threads| == |programs|
    && SharedOk(c, s.shared)
    && forall i :: 0 <= i < |programs| ==> ThreadOk(c, programs[i], s.threads[i])
  }

  lemma FinishOk(c: Config, program: seq<Request>, t: Thread, result: Result<seq<byte>, Error>)
    requires c.ws > 0 && ThreadOk(c, program, t) && t.todo != []
    requires result == FlatAnswer(c.image, t.todo[0])
    ensures ThreadOk(c, program, Finish(t, result))
  {
    assert t.todo[0] == program[|t.done|];
    assert t.todo[1..] == program[|t.done| + 1..];
  }

  lemma ConsumeOk(c: Config, r: Request, pc: Pc, win: seq<byte>)
    requires c.ws > 0 && pc.Reading? && ReadingOk(c, r, pc) && pc.pos < pc.end
    requires win == Slice(c.image, c.ws, AlignDown(pc.pos, c.ws))
    ensures ReadingOk(c, r, Consume(pc, win, AlignDown(pc.pos, c.ws)))
  {
    TakeChunkIsSlice(c.image, c.ws, pc.pos, pc.end);
    JoinSlices(c.image, pc.offset, pc.pos, pc.pos + ChunkLength(pc.pos, pc.end, c.ws, |c.image|));
  }

  lemma StoreOk(c: Config, sh: Shared, start: nat)
    requires c.ws > 0 && SharedOk(c, sh) && start !in sh.windows
    requires Aligned(start, c.ws) && start < |c.image|
    ensures var all := sh.windows[start := Slice(c.image, c.ws, start)];
            var order := Newest(sh.order + [start], c.cap);
            SharedOk(c, sh.(order := order, windows := map k | k in all && k in order :: all[k]))
  {
    var all := sh.windows[start := Slice(c.image, c.ws, start)];
    InsertKeyed(sh.order, sh.windows, start, Slice(c.image, c.ws, start), c.cap);
    InsertCorrect(sh.windows, c.image, c.ws, start);
    NewestKeyed(sh.order + [start], all, c.cap);
  }

  lemma NewestKeyed(order: seq<nat>, windows: map<nat, seq<byte>>, cap: nat)
    requires Keyed(order, windows)
    ensures Keyed(Newest(order, cap), map k | k in windows && k in Newest(order, cap) :: windows[k])
  {
    var kept := Newest(order, cap);
    var cut := |order| - |kept|;
    assert kept == order[cut..];
    DistinctSuffix(order, cut);
    forall k | k in kept
      ensures k in windows
    {
      assert k in order;
    }
  }

  lemma LookupKeepsInv(c: Config, sh: Shared, program: seq<Request>, t: Thread)
    requires c.ws > 0 && SharedOk(c, sh) && ThreadOk(c, program, t)
    requires t.pc.Reading? && t.pc.phase.AtLookup?
    ensures var r := Lookup(c, sh, t); SharedOk(c, r.0) && ThreadOk(c, program, r.1)
  {
    if t.pc.pos >= t.pc.end {
      FinishOk(c, program, t, Ok(t.pc.out));
    } else {
      var start := AlignDown(t.pc.pos, c.ws);
      if start in sh.windows {
        MoveToEndKeyed(sh.order, sh.windows, start, c.cap);
        MinusOne(sh.order, start);
        ConsumeOk(c, t.todo[0], t.pc, sh.windows[start]);
      }
    }
  }

  lemma InsertKeepsInv(c: Config, sh: Shared, program: seq<Request>, t: Thread)
    requires c.ws > 0 && SharedOk(c, sh) && ThreadOk(c, program, t)
    requires t.pc.Reading? && t.pc.phase.AtInsert?
    ensures t.pc.phase.start <= t.pc.pos
    ensures var r := Insert(c, sh, t); SharedOk(c, r.0) && ThreadOk(c, program, r.1)
  {
    var start := t.pc.phase.start;
    AlignDownIsAligned(t.pc.pos, c.ws);
    ConsumeOk(c, t.todo[0], t.pc, t.pc.phase.data);
    if start in sh.windows {
      MoveToEndKeyed(sh.order, sh.windows, start, c.cap);
      MinusOne(sh.order, start);
    } else {
      StoreOk(c, sh, start);
    }
  }

  lemma BeginKeepsInv(c: Config, program: seq<Request>, t: Thread)
    requires c.ws > 0 && ThreadOk(c, program, t) && t.pc.Ready?
    ensures ThreadOk(c, program, Begin(c, t))
  {
    if t.todo != [] {
      var r := t.todo[0];
      if r.offset < 0 || r.offset >= |c.image| || r.n < 0 {
        FinishOk(c, program, t, FlatAnswer(c.image, r));
      }
    }
  }

  lemma MoveKeepsInv(c: Config, sh: Shared, program: seq<Request>, t: Thread)
    requires c.ws > 0 && SharedOk(c, sh) && ThreadOk(c, program, t)
    ensures var r := Move(c, sh, t); SharedOk(c, r.0) && ThreadOk(c, program, r.1)
  {
    if t.pc.Ready? {
      BeginKeepsInv(c, program, t);
    } else if t.pc.phase.AtLookup? {
      LookupKeepsInv(c, sh, program, t);
    } else if t.pc.phase.AtInsert? {
      InsertKeepsInv(c, sh, program, t);
    }
  }

  lemma StepKeepsInv(c: Config, programs: seq<seq<Request>>, s: State, i: nat)
    requires c.ws > 0 && Inv(c, programs, s)
    ensures Inv(c, programs, Step(c, s, i))
  {
    if i < |s.threads| {
      assert ThreadOk(c, programs[i], s.threads[i]);
      MoveKeepsInv(c, s.shared, programs[i], s.threads[i]);
    }
  }

  lemma {:induction false} ExecuteKeepsInv(c: Config, programs: seq<seq<Request>>, s: State, schedule: seq<nat>)
    requires c.ws > 0 && Inv(c, programs, s) && Balanced(c, s)
    ensures Inv(c, programs, Execute(c, s, schedule)) && Balanced(c, Execute(c, s, schedule))
    decreases |schedule|
  {
    if schedule != [] {
      StepKeepsBalance(c, programs, s, schedule[0]);
      StepKeepsInv(c, programs, s, schedule[0]);
      ExecuteKeepsInv(c, programs, Step(c, s, schedule[0]), schedule[1..]);
    }
  }

  /** Whatever the schedule, every answer any thread has returned is the flat medium's
      answer to that request, requests are answered in program order with none skipped,
      every resident window is aligned and correct, the number of resident windows never
      exceeds the capacity, and every miss is a fetch completed or still in flight. */
  lemma InterleavedReadsAreFlat(c: Config, programs: seq<seq<Request>>, schedule: seq<nat>)
    requires c.ws > 0
    ensures var s := Execute(c, Start(programs), schedule);
            && |s.threads| == |programs|
            && (forall i :: 0 <= i < |programs| ==>
                  && |s.threads[i].done| <= |programs[i]|
                  && s.threads[i].todo == programs[i][|s.threads[i].done|..]
                  && (forall j :: 0 <= j < |s.threads[i].done| ==>
                        s.threads[i].done[j] == FlatAnswer(c.image, programs[i][j])))
            && |s.shared.windows| <= c.cap
            && Correct(s.shared.windows, c.image, c.ws)
            && Balanced(c, s)
  {
    var s0 := Start(programs);
    assert Inv(c, programs, s0);
    NobodyFlying(s0.threads);
    ExecuteKeepsInv(c, programs, s0, schedule);
    var s := Execute(c, s0, schedule);
    forall i | 0 <= i < |programs|
      ensures |s.threads[i].done| <= |programs[i]|
      ensures s.threads[i].todo == programs[i][|s.threads[i].done|..]
      ensures forall j :: 0 <= j < |s.threads[i].done| ==> s.threads[i].done[j] == FlatAnswer(c.image, programs[i][j])
    {
      assert ThreadOk(c, programs[i], s.threads[i]);
    }
    KeyCount(s.shared.order, s.shared.windows);
  }

  // ----- the cache among readers is the same LRU -----

  /** A hit, and a store whether another reader came first or not, is one LRU access; a miss
      changes neither order nor windows. */
  lemma AccessIsTouch(c: Config, sh: Shared, t: Thread)
    requires c.ws > 0 && SharedOk(c, sh) && t.pc.Reading? && t.pc.pos < t.pc.end
    ensures var start := AlignDown(t.pc.pos, c.ws);
            var after := Lookup(c, sh, t).0;
            && after.windows == sh.windows
            && after.order == if start in sh.order then Touch(sh.order, start, c.cap) else sh.order
    ensures t.pc.phase.AtInsert? && t.pc.phase.start <= t.pc.pos ==>
              var start := t.pc.phase.start;
              var after := Insert(c, sh, t).0;
              && after.order == Touch(sh.order, start, c.cap)
              && (forall k :: k in after.windows ==> k in after.order)
              && (forall k :: k in after.windows && k in sh.windows ==> after.windows[k] == sh.windows[k])
  {
    var here := AlignDown(t.pc.pos, c.ws);
    if here in sh.windows {
      MoveToEndKeyed(sh.order, sh.windows, here, c.cap);
    }
    if t.pc.phase.AtInsert? && t.pc.phase.start <= t.pc.pos {
      var start := t.pc.phase.start;
      if start in sh.windows {
        MoveToEndKeyed(sh.order, sh.windows, start, c.cap);
      } else {
        InsertKeyed(sh.order, sh.windows, start, t.pc.phase.data, c.cap);
      }
    }
  }

  // ----- every reader gets there -----

  /** No more moves than this are needed for one request: one to begin, three for a window,
      which holds at least a byte, and one to finish. */
  function PerRequest(c: Config): nat { 3 * |c.image| + 2 }

  function Waiting(c: Config, todo: seq<Request>): nat {
    if todo == [] then 0 else PerRequest(c) + Waiting(c, todo[1..])
  }

  function Remaining(pc: Pc): int {
    if pc.Ready? then 0
    else 3 * (pc.end - pc.pos) + 1
         - (match pc.phase case AtLookup => 0 case AtFetch(_) => 1 case AtInsert(_, _) => 2)
  }

  function Work(c: Config, t: Thread): int {
    if t.pc.Ready? || t.todo == [] then Waiting(c, t.todo) else Remaining(t.pc) + Waiting(c, t.todo[1..])
  }

  /** Every move of a reader with work left is progress, whatever the others have done. */
  lemma MoveWorks(c: Config, sh: Shared, program: seq<Request>, t: Thread)
    requires c.ws > 0 && SharedOk(c, sh) && ThreadOk(c, program, t)
    ensures Work(c, t) >= 0 && (Work(c, t) == 0 <==> t.todo == [])
    ensures t.todo != [] ==> Work(c, Move(c, sh, t).1) < Work(c, t)
  {
    if t.pc.Reading? && t.pc.pos < t.pc.end {
      TakeChunkIsSlice(c.image, c.ws, t.pc.pos, t.pc.end);
    }
  }

  function Turns(schedule: seq<nat>, i: nat): nat {
    if schedule == [] then 0 else (if schedule[0] == i then 1 else 0) + Turns(schedule[1..], i)
  }

  lemma {:induction false} TurnsWork(c: Config, programs: seq<seq<Request>>, s: State, schedule: seq<nat>, i: nat)
    requires c.ws > 0 && Inv(c, programs, s) && i < |programs| && Turns(schedule, i) >= Work(c, s.threads[i])
    ensures Execute(c, s, schedule).threads[i].todo == []
    decreases |schedule|
  {
    assert ThreadOk(c, programs[i], s.threads[i]);
    MoveWorks(c, s.shared, programs[i], s.threads[i]);
    if schedule != [] {
      var next := Step(c, s, schedule[0]);
      StepKeepsInv(c, programs, s, schedule[0]);
      TurnsWork(c, programs, next, schedule[1..], i);
    }
  }

  /** No reader starves: one that is given enough turns, however they are spread and whatever
      the others do in between, has answered its whole program, each answer the medium's. */
  lemma ReadersFinish(c: Config, programs: seq<seq<Request>>, schedule: seq<nat>, i: nat)
    requires c.ws > 0 && i < |programs| && Turns(schedule, i) >= Waiting(c, programs[i])
    ensures var t := Execute(c, Start(programs), schedule).threads[i];
            && |t.done| == |programs[i]|
            && forall j :: 0 <= j < |t.done| ==> t.done[j] == FlatAnswer(c.image, programs[i][j])
  {
    assert Inv(c, programs, Start(programs));
    TurnsWork(c, programs, Start(programs), schedule, i);
    InterleavedReadsAreFlat(c, programs, schedule);
  }

  lemma {:induction false} NobodyFlying(threads: seq<Thread>)
    requires forall i :: 0 <= i < |threads| ==> threads[i].pc.Ready?
    ensures InFlight(threads) == 0
  {
    if threads != [] {
      NobodyFlying(threads[..|threads| - 1]);
    }
  }

  lemma KeyCount(order: seq<nat>, windows: map<nat, seq<byte>>)
    requires forall k :: k in windows ==> k in order
    ensures |windows| <= |order|
    decreases |order|
  {
    if order == [] {
      assert windows.Keys == {};
    } else {
      var fewer := windows - {order[0]};
      KeyCount(order[1..], fewer);
      assert windows.Keys <= fewer.Keys + {order[0]};
      SubsetSize(windows.Keys, fewer.Keys + {order[0]});
    }
  }

  lemma SubsetSize(a: set<nat>, b: set<nat>)
    requires a <= b
    ensures |a| <= |b|
  {
    if a != {} {
      var x :| x in a;
      SubsetSize(a - {x}, b - {x});
    }
  }
}
