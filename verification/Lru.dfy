/** The recency order kept by the window cache, and what it must equal. */
module Lru {

  /** `order` with every occurrence of a member of `gone` removed. */
  function Minus(order: seq<nat>, gone: set<nat>): seq<nat> {
    if order == [] then []
    else if order[0] in gone then Minus(order[1..], gone)
    else [order[0]] + Minus(order[1..], gone)
  }

  /** The newest `cap` entries; the oldest are evicted first. */
  function Newest(order: seq<nat>, cap: nat): (r: seq<nat>)
    ensures |r| <= cap && |r| <= |order|
  {
    if |order| <= cap then order else order[|order| - cap..]
  }

  /** One access: move or append `k` at the recent end, then evict down to `cap`. */
  function Touch(order: seq<nat>, k: nat, cap: nat): seq<nat> {
    Newest(Minus(order, {k}) + [k], cap)
  }

  function TouchAll(order: seq<nat>, trace: seq<nat>, cap: nat): seq<nat>
    decreases |trace|
  {
    if trace == [] then order else TouchAll(Touch(order, trace[0], cap), trace[1..], cap)
  }

  function Hits(order: seq<nat>, trace: seq<nat>, cap: nat): nat
    decreases |trace|
  {
    if trace == [] then 0
    else (if trace[0] in order then 1 else 0) + Hits(Touch(order, trace[0], cap), trace[1..], cap)
  }

  /** What the cache keeps about its accesses: recency order, hits, and lookups. */
  datatype Tally = Tally(order: seq<nat>, hits: nat, lookups: nat)

  function Access(t: Tally, k: nat, cap: nat): Tally {
    Tally(Touch(t.order, k, cap), t.hits + (if k in t.order then 1 else 0), t.lookups + 1)
  }

  function AccessAll(t: Tally, trace: seq<nat>, cap: nat): Tally
    decreases |trace|
  {
    if trace == [] then t else AccessAll(Access(t, trace[0], cap), trace[1..], cap)
  }

  lemma AccessAllCons(t: Tally, k: nat, rest: seq<nat>, cap: nat)
    ensures AccessAll(t, [k] + rest, cap) == AccessAll(Access(t, k, cap), rest, cap)
  {
    assert ([k] + rest)[1..] == rest;
  }

  lemma {:induction false} AccessAllIs(t: Tally, trace: seq<nat>, cap: nat)
    ensures AccessAll(t, trace, cap)
            == Tally(TouchAll(t.order, trace, cap), t.hits + Hits(t.order, trace, cap), t.lookups + |trace|)
    decreases |trace|
  {
    if trace != [] {
      AccessAllIs(Access(t, trace[0], cap), trace[1..], cap);
    }
  }

  lemma {:induction false} AccessAllConcat(t: Tally, a: seq<nat>, b: seq<nat>, cap: nat)
    ensures AccessAll(AccessAll(t, a, cap), b, cap) == AccessAll(t, a + b, cap)
    decreases |a|
  {
    if a == [] {
      assert a + b == b;
    } else {
      assert (a + b)[1..] == a[1..] + b;
      AccessAllConcat(Access(t, a[0], cap), a[1..], b, cap);
    }
  }

  /** The distinct keys of a trace, ordered by their last use: a position survives
      exactly when its key is not used again later. No cache is involved. */
  function ByLastUse(trace: seq<nat>): seq<nat> {
    if trace == [] then []
    else if trace[0] in trace[1..] then ByLastUse(trace[1..])
    else [trace[0]] + ByLastUse(trace[1..])
  }

  /** The position of the last use of a key. */
  function LastUse(trace: seq<nat>, k: nat): (r: nat)
    requires k in trace
    ensures r < |trace| && trace[r] == k && k !in trace[r + 1..]
  {
    if k in trace[1..] then 1 + LastUse(trace[1..], k) else 0
  }

  lemma {:induction false} ByLastUseMembers(trace: seq<nat>)
    ensures Distinct(ByLastUse(trace))
    ensures forall k :: k in ByLastUse(trace) <==> k in trace
  {
    if trace != [] {
      ByLastUseMembers(trace[1..]);
    }
  }

  /** That is what `ByLastUse` is: every key of the trace, each once, earlier last uses first. */
  lemma {:induction false} ByLastUseMeans(trace: seq<nat>, i: nat, j: nat)
    requires i < j < |ByLastUse(trace)|
    ensures var x, y := ByLastUse(trace)[i], ByLastUse(trace)[j];
            x in trace && y in trace && LastUse(trace, x) < LastUse(trace, y)
  {
    var rest := trace[1..];
    if trace[0] in rest {
      ByLastUseMeans(rest, i, j);
    } else if i > 0 {
      ByLastUseMeans(rest, i - 1, j - 1);
    } else {
      ByLastUseIn(rest, j - 1);
    }
  }

  lemma {:induction false} ByLastUseIn(trace: seq<nat>, j: nat)
    requires j < |ByLastUse(trace)|
    ensures ByLastUse(trace)[j] in trace
  {
    if trace[0] in trace[1..] {
      ByLastUseIn(trace[1..], j);
    } else if j > 0 {
      ByLastUseIn(trace[1..], j - 1);
    }
  }

  predicate Distinct(s: seq<nat>) {
    s == [] || (s[0] !in s[1..] && Distinct(s[1..]))
  }

  lemma {:induction false} DistinctSuffix(s: seq<nat>, cut: nat)
    requires Distinct(s) && cut <= |s|
    ensures Distinct(s[cut..])
  {
    if cut > 0 {
      DistinctSuffix(s[1..], cut - 1);
      assert s[1..][cut - 1..] == s[cut..];
    } else {
      assert s[cut..] == s;
    }
  }

  lemma {:induction false} DistinctSnoc(s: seq<nat>, k: nat)
    requires Distinct(s) && k !in s
    ensures Distinct(s + [k])
  {
    if s == [] {
      assert s + [k] == [k];
    } else {
      DistinctSnoc(s[1..], k);
      assert (s + [k])[1..] == s[1..] + [k];
    }
  }

  function Members(s: seq<nat>): set<nat> { set k | k in s }

  // ----- algebra of Minus -----

  lemma {:induction false} MinusMembers(order: seq<nat>, gone: set<nat>)
    ensures forall k :: k in Minus(order, gone) <==> k in order && k !in gone
    ensures |Minus(order, gone)| <= |order|
  {
    if order != [] {
      MinusMembers(order[1..], gone);
    }
  }

  lemma {:induction false} MinusConcat(a: seq<nat>, b: seq<nat>, gone: set<nat>)
    ensures Minus(a + b, gone) == Minus(a, gone) + Minus(b, gone)
  {
    if a == [] {
      assert a + b == b;
    } else {
      assert (a + b)[1..] == a[1..] + b;
      MinusConcat(a[1..], b, gone);
    }
  }

  lemma {:induction false} MinusAbsent(a: seq<nat>, gone: set<nat>)
    requires forall k :: k in a ==> k !in gone
    ensures Minus(a, gone) == a
  {
    if a != [] {
      MinusAbsent(a[1..], gone);
    }
  }

  lemma {:induction false} MinusTwice(a: seq<nat>, g: set<nat>, h: set<nat>)
    ensures Minus(Minus(a, g), h) == Minus(a, g + h)
  {
    if a != [] {
      MinusTwice(a[1..], g, h);
      if a[0] !in g {
        assert ([a[0]] + Minus(a[1..], g))[1..] == Minus(a[1..], g);
      }
    }
  }

  /** Removing one key keeps a list duplicate-free and drops at most one entry. */
  lemma {:induction false} MinusOne(a: seq<nat>, k: nat)
    requires Distinct(a)
    ensures Distinct(Minus(a, {k}))
    ensures |Minus(a, {k})| == if k in a then |a| - 1 else |a|
  {
    MinusMembers(a, {k});
    if a != [] {
      MinusOne(a[1..], k);
      MinusMembers(a[1..], {k});
      if a[0] != k {
        assert Minus(a, {k})[1..] == Minus(a[1..], {k});
      }
    }
  }

  /** Moving a key to the recent end keeps a list duplicate-free. */
  lemma MoveKeepsDistinct(order: seq<nat>, k: nat)
    requires Distinct(order)
    ensures Distinct(Minus(order, {k}) + [k])
  {
    MinusOne(order, k);
    MinusMembers(order, {k});
    DistinctSnoc(Minus(order, {k}), k);
  }

  lemma NewestOfSuffix(front: seq<nat>, back: seq<nat>, cap: nat)
    requires cap <= |back|
    ensures Newest(front + back, cap) == Newest(back, cap)
  {
    assert (front + back)[|front| + |back| - cap..] == back[|back| - cap..];
  }

  /** Truncating before an access or after it gives the same residents. */
  lemma TouchNewest(all: seq<nat>, k: nat, cap: nat)
    requires Distinct(all)
    ensures Touch(Newest(all, cap), k, cap) == Newest(Minus(all, {k}) + [k], cap)
  {
    if |all| > cap {
      var front, kept := all[..|all| - cap], all[|all| - cap..];
      assert all == front + kept;
      MinusConcat(front, kept, {k});
      DistinctSuffix(all, |all| - cap);
      MinusOne(kept, k);
      var back := Minus(kept, {k}) + [k];
      Regroup(Minus(front, {k}), Minus(kept, {k}), [k]);
      NewestOfSuffix(Minus(front, {k}), back, cap);
    }
  }

  /** The same recency list with no capacity at all. */
  function UseAll(order: seq<nat>, trace: seq<nat>): seq<nat>
    decreases |trace|
  {
    if trace == [] then order else UseAll(Minus(order, {trace[0]}) + [trace[0]], trace[1..])
  }

  lemma MoveThenForget(order: seq<nat>, k: nat, later: set<nat>)
    ensures Minus(Minus(order, {k}) + [k], later)
            == Minus(order, {k} + later) + (if k in later then [] else [k])
  {
    MinusConcat(Minus(order, {k}), [k], later);
    MinusTwice(order, {k}, later);
    assert Minus([k], later) == if k in later then [] else [k];
  }

  lemma Regroup(a: seq<nat>, b: seq<nat>, c: seq<nat>)
    ensures a + b + c == a + (b + c)
  {
  }

  lemma {:induction false} UseAllByLastUse(order: seq<nat>, trace: seq<nat>)
    ensures UseAll(order, trace) == Minus(order, Members(trace)) + ByLastUse(trace)
    decreases |trace|
  {
    if trace == [] {
      MinusAbsent(order, Members(trace));
    } else {
      var k, rest := trace[0], trace[1..];
      var moved := Minus(order, {k}) + [k];
      calc {
        UseAll(order, trace);
        UseAll(moved, rest);
        { UseAllByLastUse(moved, rest); }
        Minus(moved, Members(rest)) + ByLastUse(rest);
        { MoveThenForget(order, k, Members(rest)); MembersCons(trace); }
        Minus(order, Members(trace)) + (if k in rest then [] else [k]) + ByLastUse(rest);
        { Regroup(Minus(order, Members(trace)), if k in rest then [] else [k], ByLastUse(rest)); }
        Minus(order, Members(trace)) + ((if k in rest then [] else [k]) + ByLastUse(rest));
        Minus(order, Members(trace)) + ByLastUse(trace);
      }
    }
  }

  lemma MembersCons(trace: seq<nat>)
    requires trace != []
    ensures Members(trace) == {trace[0]} + Members(trace[1..])
  {
    assert trace == [trace[0]] + trace[1..];
  }

  lemma {:induction false} TouchAllNewest(all: seq<nat>, trace: seq<nat>, cap: nat)
    requires Distinct(all)
    ensures TouchAll(Newest(all, cap), trace, cap) == Newest(UseAll(all, trace), cap)
    decreases |trace|
  {
    if trace != [] {
      TouchNewest(all, trace[0], cap);
      MoveKeepsDistinct(all, trace[0]);
      TouchAllNewest(Minus(all, {trace[0]}) + [trace[0]], trace[1..], cap);
    }
  }

  // ----- main results -----

  /** LRU exactness: from empty, the residents in recency order are exactly the `cap`
      most recently used distinct keys of the whole access history. */
  lemma LruExact(trace: seq<nat>, cap: nat)
    ensures TouchAll([], trace, cap) == Newest(ByLastUse(trace), cap)
  {
    TouchAllNewest([], trace, cap);
    UseAllByLastUse([], trace);
    assert Minus([], Members(trace)) + ByLastUse(trace) == ByLastUse(trace);
  }

  /** Inclusion: a larger cache holds everything a smaller one holds. */
  lemma LruInclusion(trace: seq<nat>, small: nat, large: nat, k: nat)
    requires small <= large
    requires k in TouchAll([], trace, small)
    ensures k in TouchAll([], trace, large)
  {
    LruExact(trace, small);
    LruExact(trace, large);
    var all := ByLastUse(trace);
    NewestIncludes(all, small, large);
  }

  lemma NewestIncludes(all: seq<nat>, small: nat, large: nat)
    requires small <= large
    ensures forall k :: k in Newest(all, small) ==> k in Newest(all, large)
  {
    if |all| > large {
      assert Newest(all, small) == Newest(all, large)[large - small..];
    }
  }

  lemma {:induction false} HitsGrow(all: seq<nat>, trace: seq<nat>, small: nat, large: nat)
    requires Distinct(all) && small <= large
    ensures Hits(Newest(all, small), trace, small) <= Hits(Newest(all, large), trace, large)
    decreases |trace|
  {
    if trace != [] {
      var k := trace[0];
      NewestIncludes(all, small, large);
      TouchNewest(all, k, small);
      TouchNewest(all, k, large);
      MoveKeepsDistinct(all, k);
      HitsGrow(Minus(all, {k}) + [k], trace[1..], small, large);
    }
  }

  /** No Belady anomaly: on every trace more capacity never means fewer hits. */
  lemma LruHitsMonotone(trace: seq<nat>, small: nat, large: nat)
    requires small <= large
    ensures Hits([], trace, small) <= Hits([], trace, large)
  {
    HitsGrow([], trace, small, large);
  }
}
