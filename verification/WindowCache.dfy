/** The windowed read-ahead LRU cache in front of a fixed-size medium. */
module WindowCache {
  import opened Wrappers
  import opened Bytes
  import opened Lru

  datatype Error = NegativeOffset | ReadOnly

  /** What `read_at(n, offset)` of a flat medium returns. */
  function Slice(content: seq<byte>, n: int, offset: int): seq<byte> {
    if n <= 0 || offset < 0 || offset >= |content| then []
    else content[offset..Min(offset + n, |content|)]
  }

  /** The bytes from `offset` on, as many as asked for or as there are. */
  lemma SliceMeans(content: seq<byte>, n: nat, offset: nat)
    ensures |Slice(content, n, offset)| == if offset >= |content| then 0 else Min(n, |content| - offset)
    ensures forall i :: 0 <= i < |Slice(content, n, offset)| ==> Slice(content, n, offset)[i] == content[offset + i]
  {
  }

  /** A flat medium after a write: bytes landing outside it are dropped. */
  function Overlay(content: seq<byte>, data: seq<byte>, offset: int): (r: seq<byte>)
    ensures |r| == |content|
  {
    seq(|content|, i requires 0 <= i < |content| =>
      if offset <= i < offset + |data| then data[i - offset] else content[i])
  }

  // ----- window arithmetic -----

  /** The start of the window holding `pos`; AlignDownIsMod gives the closed form. */
  function AlignDown(pos: int, ws: nat): (r: int)
    requires ws > 0
    ensures r <= pos < r + ws
    ensures pos >= 0 ==> r >= 0
    decreases if pos < 0 then -pos + ws else pos
  {
    if pos < 0 then AlignDown(pos + ws, ws) - ws
    else if pos < ws then 0
    else AlignDown(pos - ws, ws) + ws
  }

  lemma {:induction false} AlignDownIsMod(pos: int, ws: nat)
    requires ws > 0
    ensures AlignDown(pos, ws) == pos - pos % ws
    decreases if pos < 0 then -pos + ws else pos
  {
    ModShift(pos, ws);
    if pos < 0 {
      AlignDownIsMod(pos + ws, ws);
    } else if pos >= ws {
      AlignDownIsMod(pos - ws, ws);
    } else {
      SmallMod(pos, ws);
    }
  }

  /** `k` is a whole number of windows away from zero. */
  predicate Aligned(k: int, ws: nat)
    requires ws > 0
    decreases if k < 0 then -k + ws else k
  {
    if k < 0 then Aligned(k + ws, ws) else k == 0 || (k >= ws && Aligned(k - ws, ws))
  }

  lemma {:induction false} AlignDownIsAligned(pos: int, ws: nat)
    requires ws > 0
    ensures Aligned(AlignDown(pos, ws), ws)
    decreases if pos < 0 then -pos + ws else pos
  {
    if pos < 0 {
      AlignDownIsAligned(pos + ws, ws);
      PreviousAligned(AlignDown(pos + ws, ws), ws);
    } else if pos >= ws {
      AlignDownIsAligned(pos - ws, ws);
    }
  }

  lemma SmallMod(pos: int, ws: nat)
    requires 0 <= pos < ws
    ensures pos % ws == pos
  {
  }

  lemma ModShift(pos: int, ws: nat)
    requires ws > 0
    ensures (pos + ws) % ws == pos % ws == (pos - ws) % ws
  {
    DivUnique(pos + ws, pos / ws + 1, pos % ws, ws);
    DivUnique(pos - ws, pos / ws - 1, pos % ws, ws);
  }

  lemma DivUnique(n: int, q: int, r: int, ws: nat)
    requires ws > 0 && 0 <= r < ws && n == ws * q + r
    ensures n % ws == r
  {
    var d := q - n / ws;
    assert n % ws - r == ws * d;
    assert d >= 1 ==> ws * d >= ws;
    assert d <= -1 ==> ws * d + ws <= 0;
  }

  lemma NextAligned(w: int, ws: nat)
    requires ws > 0 && Aligned(w, ws)
    ensures Aligned(w + ws, ws)
  {
  }

  lemma PreviousAligned(w: int, ws: nat)
    requires ws > 0 && Aligned(w, ws)
    ensures Aligned(w - ws, ws)
  {
    assert w < ws && w != 0 ==> w < 0;
  }

  /** Two aligned positions less than a window apart are the same. */
  lemma {:induction false} AlignedUnique(w: int, k: int, ws: nat)
    requires ws > 0 && Aligned(w, ws) && Aligned(k, ws) && w <= k < w + ws
    ensures w == k
    decreases if w < 0 then -w + ws else w
  {
    if w < 0 {
      NextAligned(k, ws);
      AlignedUnique(w + ws, k + ws, ws);
    } else if w > 0 {
      AlignedUnique(w - ws, k - ws, ws);
    }
  }

  /** Window `k` shares a byte position with a write of `length` bytes at `offset`. */
  predicate Overlaps(k: int, ws: nat, offset: int, length: nat) {
    length > 0 && k < offset + length && offset < k + ws
  }

  /** The window starts a read of `[pos, end)` asks for, in order. */
  function Starts(pos: nat, end: int, ws: nat): seq<nat>
    requires ws > 0
    decreases end - pos
  {
    if pos >= end then []
    else [AlignDown(pos, ws)] + Starts(AlignDown(pos, ws) + ws, end, ws)
  }

  lemma AlignDownOfAligned(w: nat, ws: nat)
    requires ws > 0 && Aligned(w, ws)
    ensures AlignDown(w, ws) == w
  {
    AlignDownIsAligned(w, ws);
    AlignedUnique(AlignDown(w, ws), w, ws);
  }

  /** They are the windows from the one holding `pos` on, one after the other, each once, up
      to the last that starts before `end`. */
  lemma {:induction false} StartsMeans(pos: nat, end: nat, ws: nat, i: nat)
    requires ws > 0 && pos < end && i < |Starts(pos, end, ws)|
    ensures Starts(pos, end, ws)[i] == AlignDown(pos, ws) + i * ws < end
    ensures i == |Starts(pos, end, ws)| - 1 ==> end <= AlignDown(pos, ws) + i * ws + ws
    decreases end - pos
  {
    var next := AlignDown(pos, ws) + ws;
    AlignDownIsAligned(pos, ws);
    NextAligned(AlignDown(pos, ws), ws);
    AlignDownOfAligned(next, ws);
    if i > 0 {
      StartsMeans(next, end, ws, i - 1);
      assert (i - 1) * ws + ws == i * ws;
    } else if |Starts(pos, end, ws)| == 1 {
      assert Starts(next, end, ws) == [];
    }
  }

  /** The windows one `read_at(n, offset)` looks up. */
  function ReadTrace(n: int, offset: int, size: nat, ws: nat): seq<nat>
    requires ws > 0
  {
    if offset < 0 then [] else Starts(offset, Min(offset + n, size), ws)
  }

  /** How far the window under `pos` reaches towards `end`. */
  function ChunkLength(pos: nat, end: nat, ws: nat, size: nat): (c: nat)
    requires ws > 0 && pos < end <= size
    ensures 0 < c <= end - pos
  {
    Min(Min(AlignDown(pos, ws) + ws, size) - pos, end - pos)
  }

  lemma StartsStep(pos: nat, end: nat, ws: nat, size: nat)
    requires ws > 0 && pos < end <= size
    ensures Starts(pos, end, ws)
            == [AlignDown(pos, ws)] + Starts(pos + ChunkLength(pos, end, ws, size), end, ws)
  {
    var next := AlignDown(pos, ws) + ws;
    if next >= end {
      assert Starts(next, end, ws) == [];
    }
  }

  lemma LoopTurn(before: Tally, pos: nat, end: nat, ws: nat, size: nat, cap: nat, next: nat)
    requires ws > 0 && pos < end <= size && next == pos + ChunkLength(pos, end, ws, size)
    ensures AccessAll(Access(before, AlignDown(pos, ws), cap), Starts(next, end, ws), cap)
            == AccessAll(before, Starts(pos, end, ws), cap)
  {
    StartsStep(pos, end, ws, size);
    AccessAllCons(before, AlignDown(pos, ws), Starts(next, end, ws), cap);
  }

  /** What the read loop takes from window `win` at `start`, and the position after it;
      nothing when the window is too short to reach `pos`. */
  function TakeChunk(win: seq<byte>, start: nat, pos: nat, end: nat): (r: (seq<byte>, nat))
    requires start <= pos < end
  {
    var inWin := pos - start;
    if inWin >= |win| then ([], pos)
    else
      var length := Min(|win| - inWin, end - pos);
      (win[inWin..inWin + length], pos + length)
  }

  lemma TakeChunkIsSlice(content: seq<byte>, ws: nat, pos: nat, end: nat)
    requires ws > 0 && pos < end <= |content|
    ensures var next := pos + ChunkLength(pos, end, ws, |content|);
            TakeChunk(Slice(content, ws, AlignDown(pos, ws)), AlignDown(pos, ws), pos, end)
            == (content[pos..next], next)
  {
    var start := AlignDown(pos, ws);
    var inWin := pos - start;
    SubSlice(content, start, Min(start + ws, |content|), inWin, inWin + ChunkLength(pos, end, ws, |content|));
  }

  lemma SubSlice<T>(s: seq<T>, a: nat, b: nat, c: nat, d: nat)
    requires a <= b <= |s| && c <= d <= b - a
    ensures s[a..b][c..d] == s[a + c..a + d]
  {
    forall i | 0 <= i < d - c
      ensures s[a..b][c..d][i] == s[a + c..a + d][i]
    {
      assert s[a..b][c + i] == s[a + c + i];
    }
  }

  lemma JoinSlices<T>(s: seq<T>, a: nat, b: nat, c: nat)
    requires a <= b <= c <= |s|
    ensures s[a..b] + s[b..c] == s[a..c]
  {
  }

  /** The recency list names each resident window exactly once. */
  ghost predicate Keyed(order: seq<nat>, windows: map<nat, seq<byte>>) {
    Distinct(order) && forall k :: k in order <==> k in windows
  }

  /** Every resident window is aligned, on the medium, and holds the medium's bytes. */
  ghost predicate Correct(windows: map<nat, seq<byte>>, content: seq<byte>, ws: nat)
    requires ws > 0
  {
    forall k :: k in windows ==> Aligned(k, ws) && k < |content| && windows[k] == Slice(content, ws, k)
  }

  lemma MoveToEndKeyed(order: seq<nat>, windows: map<nat, seq<byte>>, k: nat, cap: nat)
    requires Keyed(order, windows) && k in windows && |order| <= cap
    ensures Keyed(Minus(order, {k}) + [k], windows)
    ensures Touch(order, k, cap) == Minus(order, {k}) + [k]
  {
    MinusOne(order, k);
    MinusMembers(order, {k});
    DistinctSnoc(Minus(order, {k}), k);
  }

  lemma InsertKeyed(order: seq<nat>, windows: map<nat, seq<byte>>, k: nat, win: seq<byte>, cap: nat)
    requires Keyed(order, windows) && k !in windows
    ensures Keyed(order + [k], windows[k := win])
    ensures Touch(order, k, cap) == Newest(order + [k], cap)
  {
    MinusAbsent(order, {k});
    DistinctSnoc(order, k);
  }

  lemma InsertCorrect(windows: map<nat, seq<byte>>, content: seq<byte>, ws: nat, k: nat)
    requires ws > 0 && Correct(windows, content, ws) && Aligned(k, ws) && k < |content|
    ensures Correct(windows[k := Slice(content, ws, k)], content, ws)
  {
  }

  lemma RemoveCorrect(windows: map<nat, seq<byte>>, content: seq<byte>, ws: nat, gone: set<nat>)
    requires ws > 0 && Correct(windows, content, ws)
    ensures Correct(windows - gone, content, ws)
  {
  }

  lemma EvictKeyed(order: seq<nat>, windows: map<nat, seq<byte>>, cap: nat)
    requires Keyed(order, windows) && cap < |order|
    ensures Keyed(order[1..], windows - {order[0]})
    ensures Newest(order[1..], cap) == Newest(order, cap)
  {
    assert order == [order[0]] + order[1..];
  }

  lemma RemoveKeyed(order: seq<nat>, windows: map<nat, seq<byte>>, k: nat)
    requires Keyed(order, windows)
    ensures Keyed(Minus(order, {k}), windows - {k})
    ensures |Minus(order, {k})| <= |order|
  {
    MinusOne(order, k);
    MinusMembers(order, {k});
  }

  /** Of the aligned windows in `before`, those reaching past `offset` and starting before
      `limit` are gone; the others are untouched. */
  ghost predicate Dropped(before: map<nat, seq<byte>>, now: map<nat, seq<byte>>, offset: int, limit: int, ws: nat) {
    && (forall k :: k in now <==> k in before && !(k < limit && offset < k + ws))
    && (forall k :: k in now ==> now[k] == before[k])
  }

  ghost predicate AllAligned(windows: map<nat, seq<byte>>, ws: nat)
    requires ws > 0
  {
    forall k :: k in windows ==> Aligned(k, ws)
  }

  lemma DropNothing(before: map<nat, seq<byte>>, offset: int, ws: nat)
    requires ws > 0 && AllAligned(before, ws)
    ensures Dropped(before, before, offset, AlignDown(offset, ws), ws)
  {
    var w := AlignDown(offset, ws);
    AlignDownIsAligned(offset, ws);
    forall k | k in before && k < w
      ensures k + ws <= offset
    {
      if offset < k + ws {
        AlignedUnique(k, w, ws);
      }
    }
  }

  lemma DropOne(before: map<nat, seq<byte>>, now: map<nat, seq<byte>>, offset: int, w: int, ws: nat)
    requires ws > 0 && AllAligned(before, ws) && Aligned(w, ws) && offset < w + ws
    requires Dropped(before, now, offset, w, ws)
    ensures Dropped(before, if w >= 0 then now - {w} else now, offset, w + ws, ws)
  {
    forall k | k in before && w <= k < w + ws
      ensures k == w
    {
      AlignedUnique(w, k, ws);
    }
  }

  lemma DropPastEnd(before: map<nat, seq<byte>>, now: map<nat, seq<byte>>, offset: int, length: nat, w: int, ws: nat)
    requires ws > 0 && length > 0 && AllAligned(before, ws)
    requires Aligned(w, ws) && offset + length <= w < offset + length + ws
    requires Dropped(before, now, offset, w, ws)
    ensures now == map k | k in before && !Overlaps(k, ws, offset, length) :: before[k]
  {
    PreviousAligned(w, ws);
    forall k | k in before && k < w
      ensures k < offset + length
    {
      if w - ws <= k {
        AlignedUnique(w - ws, k, ws);
      }
    }
  }

  class Medium {
    var content: seq<byte>

    constructor (image: seq<byte>)
      ensures content == image
    {
      content := image;
    }

    method ReadAt(n: int, offset: int) returns (r: seq<byte>)
      ensures r == Slice(content, n, offset)
    {
      if n <= 0 || offset < 0 {
        return [];
      }
      r := if offset >= |content| then [] else content[offset..Min(offset + n, |content|)];
    }

    /** A writer may take only the first `accept` bytes of what it is offered. */
    method WriteAt(data: seq<byte>, offset: int, accept: nat) returns (n: nat)
      modifies this
      ensures n <= |data| && n <= accept && (n == |data| || n == accept)
      ensures |content| == |old(content)|
      ensures forall i :: 0 <= i < |content| ==>
                content[i] == if offset <= i < offset + n then data[i - offset] else old(content)[i]
      ensures 0 <= offset && offset + n <= |content| ==> Slice(content, n, offset) == data[..n]
    {
      n := Min(accept, |data|);
      content := Overlay(content, data[..n], offset);
    }
  }

  class Cache {
    const medium: Medium
    const writable: bool
    const windowSize: nat
    const maxWindows: nat
    const size: nat
    var order: seq<nat>               // keys of the ordered dictionary, MRU at the end
    var windows: map<nat, seq<byte>>  // its values
    var hits: nat
    var misses: nat
    var fetched: nat

    ghost predicate Valid()
      reads this, medium
    {
      && windowSize > 0
      && size == |medium.content|
      && |order| <= maxWindows
      && Keyed(order, windows)
      && Correct(windows, medium.content, windowSize)
    }

    ghost function Accesses(): Tally
      reads this
    {
      Tally(order, hits, hits + misses)
    }

    constructor (medium: Medium, writable: bool, windowSize: nat, maxWindows: nat)
      requires windowSize > 0
      ensures Valid() && this.medium == medium && this.writable == writable
      ensures this.windowSize == windowSize && this.maxWindows == maxWindows
      ensures order == [] && hits == misses == fetched == 0
    {
      this.medium, this.writable := medium, writable;
      this.windowSize, this.maxWindows := windowSize, maxWindows;
      size := |medium.content|;
      order, windows := [], map[];
      hits, misses, fetched := 0, 0, 0;
    }

    /** First critical section: a resident window becomes the most recent. */
    method Lookup(start: nat) returns (found: bool, win: seq<byte>)
      requires Valid()
      modifies this`order, this`hits, this`misses
      ensures Valid()
      ensures found <==> start in old(order)
      ensures found ==> win == Slice(medium.content, windowSize, start)
      ensures order == if found then Touch(old(order), start, maxWindows) else old(order)
      ensures hits == old(hits) + (if found then 1 else 0)
      ensures misses == old(misses) + (if found then 0 else 1)
    {
      if start in windows {
        MoveToEndKeyed(order, windows, start, maxWindows);
        order := Minus(order, {start}) + [start];
        hits := hits + 1;
        return true, windows[start];
      }
      misses := misses + 1;
      return false, [];
    }

    method EvictOverflow()
      requires windowSize > 0 && Keyed(order, windows) && Correct(windows, medium.content, windowSize)
      modifies this`order, this`windows
      ensures order == Newest(old(order), maxWindows)
      ensures Keyed(order, windows) && Correct(windows, medium.content, windowSize)
    {
      while |order| > maxWindows
        invariant Keyed(order, windows)
        invariant Correct(windows, medium.content, windowSize)
        invariant Newest(order, maxWindows) == Newest(old(order), maxWindows)
      {
        EvictKeyed(order, windows, maxWindows);
        RemoveCorrect(windows, medium.content, windowSize, {order[0]});
        order, windows := order[1..], windows - {order[0]};
      }
    }

    /** Second critical section: keep the fetched window and evict the least recent. */
    method Insert(start: nat, data: seq<byte>)
      requires Valid() && start !in order && Aligned(start, windowSize) && start < size
      requires data == Slice(medium.content, windowSize, start)
      modifies this`order, this`windows, this`fetched
      ensures Valid()
      ensures order == Touch(old(order), start, maxWindows)
      ensures fetched == old(fetched) + |data|
    {
      fetched := fetched + |data|;
      InsertKeyed(order, windows, start, data, maxWindows);
      InsertCorrect(windows, medium.content, windowSize, start);
      order, windows := order + [start], windows[start := data];
      EvictOverflow();
    }

    /** One window, from memory or from the medium; the recency order takes one LRU step. */
    method Window(start: nat) returns (win: seq<byte>)
      requires Valid() && Aligned(start, windowSize) && start < size
      modifies this
      ensures Valid()
      ensures win == Slice(medium.content, windowSize, start)
      ensures Accesses() == Access(old(Accesses()), start, maxWindows)
      ensures fetched == old(fetched) + (if start in old(order) then 0 else |win|)
    {
      var found;
      found, win := Lookup(start);
      if found {
        return;
      }
      var want := windowSize;
      if start + want > size {
        want := size - start;
      }
      win := medium.ReadAt(want, start);
      Insert(start, win);
    }

    /** One turn of the read loop: what the window under `pos` contributes. */
    method NextChunk(pos: nat, end: nat) returns (chunk: seq<byte>, next: nat)
      requires Valid() && pos < end <= size
      modifies this
      ensures Valid()
      ensures pos < next <= end && chunk == medium.content[pos..next]
      ensures AccessAll(Accesses(), Starts(next, end, windowSize), maxWindows)
              == old(AccessAll(Accesses(), Starts(pos, end, windowSize), maxWindows))
    {
      AlignDownIsAligned(pos, windowSize);
      ghost var before := Accesses();
      var start := AlignDown(pos, windowSize);
      var win := Window(start);
      var taken := TakeChunk(win, start, pos, end);
      chunk, next := taken.0, taken.1;
      TakeChunkIsSlice(medium.content, windowSize, pos, end);
      LoopTurn(before, pos, end, windowSize, size, maxWindows, next);
    }

    method ReadRange(offset: nat, end: nat) returns (out: seq<byte>)
      requires Valid() && offset <= end <= size
      modifies this
      ensures Valid()
      ensures out == medium.content[offset..end]
      ensures Accesses() == AccessAll(old(Accesses()), Starts(offset, end, windowSize), maxWindows)
    {
      out := [];
      var pos := offset;
      ghost var content := medium.content;
      ghost var goal := AccessAll(Accesses(), Starts(offset, end, windowSize), maxWindows);
      while pos < end
        invariant Valid() && offset <= pos <= end && medium.content == content
        invariant out == content[offset..pos]
        invariant AccessAll(Accesses(), Starts(pos, end, windowSize), maxWindows) == goal
        decreases end - pos
      {
        var chunk, next := NextChunk(pos, end);
        if chunk == [] {
          break;
        }
        JoinSlices(content, offset, pos, next);
        out, pos := out + chunk, next;
      }
    }

    /** `read_at`: the medium's own bytes, whatever is or is not resident. */
    method ReadAt(n: int, offset: int) returns (r: Result<seq<byte>, Error>)
      requires Valid()
      modifies this
      ensures Valid()
      ensures r == if offset < 0 then Err(NegativeOffset) else Ok(Slice(medium.content, n, offset))
      ensures Accesses() == AccessAll(old(Accesses()), ReadTrace(n, offset, size, windowSize), maxWindows)
    {
      if offset < 0 {
        return Err(NegativeOffset);
      }
      if offset >= size {
        return Ok([]);
      }
      var end := Min(offset + n, size);
      if end < offset {
        return Ok([]);
      }
      var out := ReadRange(offset, end);
      r := Ok(out);
    }

    method Invalidate(offset: int, length: nat)
      requires windowSize > 0 && Keyed(order, windows)
      requires AllAligned(windows, windowSize)
      modifies this`order, this`windows
      ensures windows == map k | k in old(windows) && !Overlaps(k, windowSize, offset, length) :: old(windows)[k]
      ensures Keyed(order, windows) && |order| <= |old(order)|
    {
      if length == 0 {
        return;
      }
      var end := offset + length;
      var w := AlignDown(offset, windowSize);
      AlignDownIsAligned(offset, windowSize);
      ghost var before := windows;
      DropNothing(before, offset, windowSize);
      while w < end
        invariant Aligned(w, windowSize) && offset - windowSize < w < end + windowSize
        invariant Keyed(order, windows) && |order| <= |old(order)|
        invariant Dropped(before, windows, offset, w, windowSize)
        decreases end - w
      {
        DropOne(before, windows, offset, w, windowSize);
        NextAligned(w, windowSize);
        if w >= 0 {
          RemoveKeyed(order, windows, w);
          order, windows := Minus(order, {w}), windows - {w};
        }
        w := w + windowSize;
      }
      DropPastEnd(before, windows, offset, length, w, windowSize);
    }

    /** Write through, then drop every window the write touches. */
    method WriteAt(data: seq<byte>, offset: int, accept: nat) returns (r: Result<nat, Error>)
      requires Valid()
      modifies this, medium
      ensures Valid()
      ensures !writable ==> r == Err(ReadOnly) && medium.content == old(medium.content)
      ensures writable ==>
                && r == Ok(Min(accept, |data|))
                && medium.content == Overlay(old(medium.content), data[..Min(accept, |data|)], offset)
    {
      if !writable {
        return Err(ReadOnly);
      }
      ghost var before := medium.content;
      var n := medium.WriteAt(data, offset, accept);
      assert medium.content == Overlay(before, data[..n], offset);
      Invalidate(offset, |data|);
      forall k | k in windows
        ensures windows[k] == Slice(medium.content, windowSize, k)
      {
        OverlayElsewhere(before, data[..n], offset, windowSize, k);
      }
      r := Ok(n);
    }
  }

  lemma OverlayElsewhere(content: seq<byte>, data: seq<byte>, offset: int, ws: nat, k: nat)
    requires !Overlaps(k, ws, offset, |data|)
    ensures Slice(Overlay(content, data, offset), ws, k) == Slice(content, ws, k)
  {
  }

  // ----- whole runs -----

  datatype Op = Read(n: int, offset: int) | Write(data: seq<byte>, at: int, accept: nat)
  datatype Outcome = Got(bytes: Result<seq<byte>, Error>) | Put(count: Result<nat, Error>)

  /** One operation on a flat array of bytes: no cache anywhere. */
  function FlatStep(content: seq<byte>, writable: bool, op: Op): (r: (Outcome, seq<byte>)) {
    match op
    case Read(n, offset) =>
      (Got(if offset < 0 then Err(NegativeOffset) else Ok(Slice(content, n, offset))), content)
    case Write(data, at, accept) =>
      if !writable then (Put(Err(ReadOnly)), content)
      else (Put(Ok(Min(accept, |data|))), Overlay(content, data[..Min(accept, |data|)], at))
  }

  function FlatRun(content: seq<byte>, writable: bool, ops: seq<Op>): seq<Outcome>
    decreases |ops|
  {
    if ops == [] then []
    else
      var r := FlatStep(content, writable, ops[0]);
      [r.0] + FlatRun(r.1, writable, ops[1..])
  }

  method Apply(cache: Cache, op: Op) returns (outcome: Outcome)
    requires cache.Valid()
    modifies cache, cache.medium
    ensures cache.Valid()
    ensures (outcome, cache.medium.content) == FlatStep(old(cache.medium.content), cache.writable, op)
  {
    match op
    case Read(n, offset) =>
      var bytes := cache.ReadAt(n, offset);
      outcome := Got(bytes);
    case Write(data, at, accept) =>
      var count := cache.WriteAt(data, at, accept);
      outcome := Put(count);
  }

  /** Over any mix of reads and writes, from any valid cache state, every answer is the
      one the flat array would give. */
  method Run(cache: Cache, ops: seq<Op>) returns (outcomes: seq<Outcome>)
    requires cache.Valid()
    modifies cache, cache.medium
    ensures cache.Valid()
    ensures outcomes == FlatRun(old(cache.medium.content), cache.writable, ops)
  {
    outcomes := [];
    var i := 0;
    while i < |ops|
      invariant i <= |ops| && cache.Valid()
      invariant outcomes + FlatRun(cache.medium.content, cache.writable, ops[i..])
                == FlatRun(old(cache.medium.content), cache.writable, ops)
    {
      var outcome := Apply(cache, ops[i]);
      outcomes := outcomes + [outcome];
      i := i + 1;
    }
  }

  datatype Request = Request(n: int, offset: int)

  /** Every window start a run of requests looks up, in order. */
  function RunTrace(requests: seq<Request>, size: nat, ws: nat): seq<nat>
    requires ws > 0
  {
    if requests == [] then []
    else RunTrace(requests[..|requests| - 1], size, ws)
         + ReadTrace(requests[|requests| - 1].n, requests[|requests| - 1].offset, size, ws)
  }

  /** A read-only run from an empty cache leaves resident exactly the most recently used
      distinct windows of the whole run, in recency order, and counts exactly its hits. */
  method RunReads(cache: Cache, requests: seq<Request>)
    requires cache.Valid() && cache.order == [] && cache.hits == cache.misses == 0
    modifies cache
    ensures cache.Valid()
    ensures var trace := RunTrace(requests, cache.size, cache.windowSize);
            && cache.order == Newest(ByLastUse(trace), cache.maxWindows)
            && cache.hits == Hits([], trace, cache.maxWindows)
            && cache.hits + cache.misses == |trace|
  {
    for i := 0 to |requests|
      invariant cache.Valid()
      invariant cache.Accesses()
                == AccessAll(Tally([], 0, 0), RunTrace(requests[..i], cache.size, cache.windowSize), cache.maxWindows)
    {
      ghost var done := RunTrace(requests[..i], cache.size, cache.windowSize);
      assert requests[..i + 1][..i] == requests[..i];
      var _ := cache.ReadAt(requests[i].n, requests[i].offset);
      AccessAllConcat(Tally([], 0, 0), done,
                      ReadTrace(requests[i].n, requests[i].offset, cache.size, cache.windowSize), cache.maxWindows);
    }
    assert requests[..|requests|] == requests;
    AccessAllIs(Tally([], 0, 0), RunTrace(requests, cache.size, cache.windowSize), cache.maxWindows);
    LruExact(RunTrace(requests, cache.size, cache.windowSize), cache.maxWindows);
  }
}
