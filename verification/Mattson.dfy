/**
 Mattson's theorem for the one-pass profiler: the hit curve it computes is the hit count of a real
 LRU cache at every capacity, up to the single request the profiler misreports.
 */
module Mattson {
  import opened StackDistance
  import opened LruCache
  import LruProfiler
  import opened Seqs

  // ---------- a cache of capacity c replaying unit-size requests ----------

  function RunQueue(trace: Trace, c: nat): seq<Entry> {
    if trace == [] then []
    else Access(RunQueue(trace[..|trace| - 1], c), 0, c, trace[|trace| - 1], 1).queue
  }

  /** The number of hits of an LRU cache of `c` objects on the trace. */
  function LruHits(trace: Trace, c: nat): nat {
    if trace == [] then 0
    else
      var f := trace[..|trace| - 1];
      LruHits(f, c) + (if Access(RunQueue(f, c), 0, c, trace[|trace| - 1], 1).hit then 1 else 0)
  }

  /** Replaying a trace through the cache object counts exactly `LruHits` hits. */
  method Replay(trace: Trace, c: nat) returns (hits: nat)
    ensures hits == LruHits(trace, c)
  {
    hide Access, Entries, Occupied;
    var cache := new Cache(c, 0);
    hits := 0;
    var i := 0;
    while i < |trace|
      invariant 0 <= i <= |trace| && fresh(cache) && fresh(cache.owned) && cache.Valid()
      invariant cache.capacity == c && cache.mdSize == 0
      invariant Entries(cache.queue) == RunQueue(trace[..i], c) && hits == LruHits(trace[..i], c)
    {
      assert trace[..i + 1][..i] == trace[..i];
      var hit := cache.Get(trace[i], 1);
      if hit {
        hits := hits + 1;
      }
      i := i + 1;
    }
    assert trace[..|trace|] == trace;
  }

  // ---------- the recency stack, and the inclusion property ----------

  function Dropped(s: seq<int>, x: int): seq<int> {
    var i := IndexOf(s, x);
    if i < |s| then Without(s, i) else s
  }

  /** All objects of the trace, most recently used first. */
  function Stack(trace: Trace): seq<int> {
    if trace == [] then []
    else [trace[|trace| - 1]] + Dropped(Stack(trace[..|trace| - 1]), trace[|trace| - 1])
  }

  function Min(a: nat, b: nat): nat {
    if a < b then a else b
  }

  function Units(s: seq<int>): (q: seq<Entry>)
    ensures |q| == |s|
  {
    seq(|s|, i requires 0 <= i < |s| => Entry(s[i], 1))
  }

  lemma {:induction false} UnitsOccupied(s: seq<int>)
    ensures Occupied(Units(s), 0) == |s|
  {
    if s != [] {
      UnitsOccupied(s[..|s| - 1]);
      assert Units(s)[..|s| - 1] == Units(s[..|s| - 1]);
    }
  }

  lemma UnitsFind(s: seq<int>, x: int)
    ensures Find(Units(s), x) == IndexOf(s, x)
  {
    var i, j := Find(Units(s), x), IndexOf(s, x);
    assert forall k :: 0 <= k < |s| ==> Units(s)[k].id == s[k];
    assert forall k :: 0 <= k < j ==> s[..j][k] == s[k];
  }

  lemma UnitsEvict(s: seq<int>, c: nat)
    requires 1 <= c && |s| <= c
    ensures EvictFor(Units(s), 0, c, 1) == Units(s[..Min(|s|, c - 1)])
  {
    UnitsOccupied(s);
    if |s| == c {
      var t := s[..c - 1];
      UnitsOccupied(t);
      assert Units(s)[..|s| - 1] == Units(t);
    } else {
      assert s[..|s|] == s;
    }
  }

  /** A miss in the first `m` places does not move them when the object is dropped further down. */
  lemma DroppedPrefix(s: seq<int>, x: int, m: nat)
    requires m <= IndexOf(s, x)
    ensures m <= |Dropped(s, x)| && Dropped(s, x)[..m] == s[..m]
  {
  }

  lemma DroppedLength(s: seq<int>, x: int)
    ensures |Dropped(s, x)| == if IndexOf(s, x) < |s| then |s| - 1 else |s|
  {
  }

  lemma UnitsOne(x: int)
    ensures Units([x]) == [Entry(x, 1)]
  {
  }

  lemma PrefixIndex(s: seq<int>, x: int, m: nat)
    requires m <= |s|
    ensures IndexOf(s[..m], x) == Min(IndexOf(s, x), m)
  {
    var i, j := IndexOf(s, x), IndexOf(s[..m], x);
    assert forall k :: 0 <= k < i ==> s[k] == s[..i][k];
    assert forall k :: 0 <= k < j ==> s[..m][..j][k] == s[k];
  }

  lemma HitUnits(s: seq<int>, x: int, m: nat)
    requires IndexOf(s, x) < m <= |s|
    ensures var q, i := Units(s[..m]), IndexOf(s, x);
            [q[i]] + q[..i] + q[i + 1..] == Units(([x] + Dropped(s, x))[..m])
  {
    var i, t := IndexOf(s, x), s[..m];
    DroppedSlice(s, x, m);
    UnitsConcat([x] + t[..i], t[i + 1..]);
    UnitsConcat([x], t[..i]);
    UnitsSlice(t, i);
  }

  lemma WithoutSlice(s: seq<int>, i: nat, m: nat)
    requires i < m <= |s|
    ensures |Without(s, i)| == |s| - 1 && Without(s, i)[..m - 1] == s[..m][..i] + s[..m][i + 1..]
  {
  }

  lemma FrontSlice(x: int, d: seq<int>, m: nat, a: seq<int>, b: seq<int>)
    requires 0 < m <= |d| + 1 && d[..m - 1] == a + b
    ensures ([x] + d)[..m] == [x] + a + b
  {
  }

  lemma DroppedSlice(s: seq<int>, x: int, m: nat)
    requires IndexOf(s, x) < m <= |s|
    ensures var i, t := IndexOf(s, x), s[..m]; ([x] + Dropped(s, x))[..m] == [x] + t[..i] + t[i + 1..]
  {
    hide IndexOf, Without;
    var i, t := IndexOf(s, x), s[..m];
    WithoutSlice(s, i, m);
    FrontSlice(x, Without(s, i), m, t[..i], t[i + 1..]);
  }

  lemma UnitsSlice(t: seq<int>, i: nat)
    requires i < |t|
    ensures Units(t)[..i] == Units(t[..i]) && Units(t)[i + 1..] == Units(t[i + 1..]) && [Units(t)[i]] == Units([t[i]])
  {
  }

  lemma UnitsConcat(a: seq<int>, b: seq<int>)
    ensures Units(a + b) == Units(a) + Units(b)
  {
  }

  lemma MissUnits(s: seq<int>, x: int, c: nat)
    requires 0 < c && Min(c, |s|) <= IndexOf(s, x)
    ensures var s' := [x] + Dropped(s, x);
            [Entry(x, 1)] + EvictFor(Units(s[..Min(c, |s|)]), 0, c, 1) == Units(s'[..Min(c, |s'|)])
  {
    hide IndexOf, EvictFor, Occupied, Units, Dropped;
    var m := Min(c, |s|);
    var n, q, s' := Min(m, c - 1), s[..m], [x] + Dropped(s, x);
    UnitsEvict(q, c);
    DroppedPrefix(s, x, n);
    DroppedLength(s, x);
    assert q[..n] == s[..n];
    assert s'[..n + 1] == [x] + Dropped(s, x)[..n];
    UnitsConcat([x], s[..n]);
    UnitsOne(x);
  }

  lemma AccessUnits(s: seq<int>, x: int, c: nat)
    ensures var a := Access(Units(s[..Min(c, |s|)]), 0, c, x, 1);
            var s' := [x] + Dropped(s, x);
            && a.queue == Units(s'[..Min(c, |s'|)])
            && (a.hit <==> IndexOf(s, x) < Min(c, |s|))
  {
    var m := Min(c, |s|);
    UnitsFind(s[..m], x);
    PrefixIndex(s, x, m);
    if IndexOf(s, x) < m {
      HitUnits(s, x, m);
    } else if c > 0 {
      MissUnits(s, x, c);
    } else {
      assert s[..0] == [] && ([x] + Dropped(s, x))[..0] == [];
    }
  }

  /** Inclusion: every cache holds a prefix of the one recency stack. */
  lemma {:induction false} Inclusion(trace: Trace, c: nat)
    ensures var s := Stack(trace); RunQueue(trace, c) == Units(s[..Min(c, |s|)])
  {
    if trace == [] {
      assert Units([]) == [];
    } else {
      var f := trace[..|trace| - 1];
      Inclusion(f, c);
      AccessUnits(Stack(f), trace[|trace| - 1], c);
    }
  }

  // ---------- the place in the stack is the stack distance ----------

  lemma {:induction false} IdsCard(s: seq<int>)
    requires NoRepeat(s)
    ensures |Elems(s)| == |s|
  {
    if s != [] {
      var f, x := s[..|s| - 1], s[|s| - 1];
      IdsCard(f);
      ElemsAppend(f, x);
      assert f + [x] == s;
    }
  }

  /** `x` stands in the stack right below the objects used since its own last use. */
  ghost predicate Placed(s: seq<int>, f: Trace, x: int) {
    var i, p := IndexOf(s, x), LastUse(f, x);
    i < |s| && p >= 0 && Elems(s[..i]) == Elems(f[p + 1..])
  }

  lemma StackStep(s: seq<int>, f: Trace, y: int)
    requires NoRepeat(s) && Elems(s) == Elems(f) && forall x <- Elems(f) :: Placed(s, f, x)
    ensures var s', g := [y] + Dropped(s, y), f + [y];
            NoRepeat(s') && Elems(s') == Elems(g) && forall x <- Elems(g) :: Placed(s', g, x)
  {
    hide IndexOf, LastUse, Dropped, Elems, Placed, NoRepeat;
    var s', g := [y] + Dropped(s, y), f + [y];
    DroppedFacts(s, y);
    NoRepeatCons(y, Dropped(s, y));
    ElemsAppend(f, y);
    ElemsCons(y, Dropped(s, y));
    forall x | x in Elems(g) ensures Placed(s', g, x) {
      if x == y {
        FrontPlaced(s', f, y);
      } else {
        StackPlace(s, f, y, x);
      }
    }
  }

  lemma NoRepeatCons(y: int, r: seq<int>)
    requires NoRepeat(r) && y !in r
    ensures NoRepeat([y] + r)
  {
    var s := [y] + r;
    assert forall i :: 0 < i < |s| ==> s[i] == r[i - 1];
  }

  /** The object used last stands at the front. */
  lemma FrontPlaced(s: seq<int>, f: Trace, y: int)
    requires s != [] && s[0] == y
    ensures Placed(s, f + [y], y)
  {
    var g := f + [y];
    LastUseAppend(f, y);
    assert s[..0] == [] && g[|f| + 1..] == [];
  }

  lemma DroppedFacts(s: seq<int>, y: int)
    requires NoRepeat(s)
    ensures var r := Dropped(s, y); NoRepeat(r) && y !in r && Elems(r) == Elems(s) - {y}
  {
    var r, k := Dropped(s, y), IndexOf(s, y);
    if k < |s| {
      WithoutAt(s, k);
      assert forall i :: 0 <= i < |s| && i != k ==> s[i] == r[if i < k then i else i - 1];
    } else {
      assert s[..|s|] == s;
    }
  }

  /** Dropping `y` keeps the objects above `x`, save `y` itself. */
  lemma DroppedAbove(s: seq<int>, y: int, i: nat) returns (j: nat)
    requires NoRepeat(s) && i < |s| && s[i] != y
    ensures var r := Dropped(s, y); j < |r| && r[j] == s[i] && Elems(r[..j]) == Elems(s[..i]) - {y}
  {
    var r, k := Dropped(s, y), IndexOf(s, y);
    if k < i {
      j := i - 1;
      assert r[..j] == Without(s[..i], k);
      PrefixIndex(s, y, i);
      DroppedFacts(s[..i], y);
    } else {
      j := i;
      assert r[..j] == s[..i];
      assert s[..i] == s[..k][..i];
    }
  }

  /** Where an object other than the requested one ends up. */
  lemma StackPlace(s: seq<int>, f: Trace, y: int, x: int)
    requires NoRepeat(s) && Placed(s, f, x) && x != y
    ensures Placed([y] + Dropped(s, y), f + [y], x)
  {
    hide IndexOf, LastUse;
    var r, p := Dropped(s, y), LastUse(f, x);
    LastUseAppend(f, y);
    assert (f + [y])[p + 1..] == f[p + 1..] + [y];
    ElemsAppend(f[p + 1..], y);
    var j := DroppedAbove(s, y, IndexOf(s, x));
    DroppedFacts(s, y);
    IndexOfAt([y] + r, j + 1);
    assert ([y] + r)[..j + 1] == [y] + r[..j];
    ElemsCons(y, r[..j]);
  }

  lemma {:induction false} StackPlaces(trace: Trace)
    ensures var s := Stack(trace);
            NoRepeat(s) && Elems(s) == Elems(trace) && forall x <- Elems(trace) :: Placed(s, trace, x)
  {
    hide IndexOf, LastUse, Placed, Dropped;
    if trace != [] {
      var f, y := trace[..|trace| - 1], trace[|trace| - 1];
      StackPlaces(f);
      StackStep(Stack(f), f, y);
      assert f + [y] == trace;
    }
  }

  lemma PlacedIndex(s: seq<int>, f: Trace, x: int)
    requires NoRepeat(s) && Placed(s, f, x)
    ensures IndexOf(s, x) == |Elems(f[LastUse(f, x) + 1..])|
  {
    IdsCard(s[..IndexOf(s, x)]);
  }

  /** The place of an object in the stack is its stack distance. */
  lemma StackIndex(f: Trace, x: int)
    ensures var i, p := IndexOf(Stack(f), x), LastUse(f, x);
            if p >= 0 then i < |Stack(f)| && i == |Elems(f[p + 1..])| else i == |Stack(f)|
  {
    var s := Stack(f);
    var i, p := IndexOf(s, x), LastUse(f, x);
    StackPlaces(f);
    LastUseSpec(f, x);
    if p >= 0 {
      assert Placed(s, f, x);
      PlacedIndex(s, f, x);
    }
    IndexOfMember(s, x);
  }

  /** A request hits in the cache of capacity `c` exactly when its stack distance is below `c`. */
  lemma HitIffNear(trace: Trace, t: nat, c: nat)
    requires t < |trace|
    ensures Access(RunQueue(trace[..t], c), 0, c, trace[t], 1).hit <==> 0 <= TrueDistance(trace, t) < c
  {
    hide Access, RunQueue, Stack, IndexOf, LastUse, Elems, Units;
    var f, x := trace[..t], trace[t];
    Inclusion(f, c);
    AccessUnits(Stack(f), x, c);
    StackIndex(f, x);
    var p := Prev(trace, t);
    assert p >= 0 ==> f[p + 1..] == trace[p + 1..t];
  }

  // ---------- the curve ----------

  /** The one request the profiler misreports makes a hit in the cache of capacity `c`. */
  predicate LosesHit(trace: Trace, c: nat) {
    trace != [] && Next(trace, 0) >= 0 && TrueDistance(trace, Next(trace, 0)) < c
  }

  lemma {:induction false} CountsAgree(trace: Trace, c: nat, n: nat)
    requires n <= |trace|
    ensures LruHits(trace[..n], c) == LruProfiler.CountBelow(Reports(trace[..n]), c)
                                      + (if LosesHit(trace, c) && Next(trace, 0) < n then 1 else 0)
  {
    hide Access, RunQueue, LastUse, Elems, Next, StateAfter, DistanceOf, Prev, Entries;
    if n > 0 {
      var t := n - 1;
      CountsAgree(trace, c, t);
      assert trace[..n][..t] == trace[..t] && trace[..n][t] == trace[t];
      ReportsAppend(trace, t);
      LruProfiler.CountAppend(Reports(trace[..t]), Reported(trace, t));
      HitIffNear(trace, t, c);
      DistanceTheorem(trace, t);
      if Prev(trace, t) == 0 {
        NextUnique(trace, 0, t);
      }
    }
  }

  /**
   Mattson's theorem for `_get_lru_hit_cnt`: entry `c` of the curve is the number of hits of an
   LRU cache of capacity `c`, one less if the second access to the first object is among them.
   */
  lemma HitCurve(trace: Trace, c: nat)
    ensures LruProfiler.CountBelow(Reports(trace), c) == LruHits(trace, c) - (if LosesHit(trace, c) then 1 else 0)
  {
    CountsAgree(trace, c, |trace|);
    assert trace[..|trace|] == trace;
  }

  /** The curve is exact at `c` if and only if no hit is lost. */
  lemma ExactIff(trace: Trace, c: nat)
    ensures LruProfiler.CountBelow(Reports(trace), c) == LruHits(trace, c) <==> !LosesHit(trace, c)
  {
    HitCurve(trace, c);
  }

  /** `_get_lru_hit_cnt` against a replay of the cache at every capacity up to `size`. */
  method Profile(trace: Trace, size: int) returns (hits: array<int>)
    requires size >= -1
    ensures hits.Length == size + 1
    ensures forall c :: 0 <= c <= size ==> hits[c] == LruHits(trace, c) - (if LosesHit(trace, c) then 1 else 0)
  {
    hits := LruProfiler.HitCounts(trace, size);
    forall c | 0 <= c <= size ensures hits[c] == LruHits(trace, c) - (if LosesHit(trace, c) then 1 else 0) {
      HitCurve(trace, c);
    }
  }
}
