/** When the SHARDS curves are exact: at full rate, and while the sample holds every object. */
module ShardsExact {
  import opened StackDistance
  import opened Seqs
  import opened Reuse
  import opened BottomK
  import opened Shards
  import BottomUpSplay
  import Mattson
  import LruCache

  // ---------- the curve of unscaled outcomes ----------

  /** Every request was sampled, and at full rate. */
  ghost predicate Unscaled(os: seq<Outcome>) {
    forall i :: 0 <= i < |os| ==> !os[i].Skipped? && os[i].rate == 1.0
  }

  /** The hits in requests or in bytes of a cache of `c` bytes: the reuses within distance `c`. */
  function HitsWithin(os: seq<Outcome>, c: int, bytes: bool): nat {
    if os == [] then 0
    else
      var o := os[|os| - 1];
      HitsWithin(os[..|os| - 1], c, bytes) + (if o.Hit? && o.distance <= c then (if bytes then o.size else 1) else 0)
  }

  lemma LowerBoundIs(sizes: seq<nat>, d: int, i: nat)
    requires Ascending(sizes) && i < |sizes|
    ensures LowerBound(sizes, d) <= i <==> d <= sizes[i]
  {
  }

  /** A histogram entry is the difference of the hits at two neighbouring sizes. */
  lemma {:induction false} LocalIs(os: seq<Outcome>, sizes: seq<nat>, i: nat, bytes: bool)
    requires Unscaled(os) && Ascending(sizes) && i < |sizes|
    ensures var below := if i == 0 then 0 else HitsWithin(os, sizes[i - 1], bytes);
            Local(os, sizes, i, bytes) == (HitsWithin(os, sizes[i], bytes) - below) as real
  {
    if os != [] {
      var o := os[|os| - 1];
      LocalIs(os[..|os| - 1], sizes, i, bytes);
      if o.Hit? {
        LowerBoundIs(sizes, o.distance, i);
        if i > 0 { LowerBoundIs(sizes, o.distance, i - 1); }
      }
    }
  }

  /** The outcomes belong to the requests. */
  ghost predicate Matching(os: seq<Outcome>, trace: Requests) {
    |os| == |trace| && forall i :: 0 <= i < |os| ==> os[i].Skipped? || os[i].size == trace[i].size
  }

  lemma {:induction false} AllSampled(os: seq<Outcome>, trace: Requests, bytes: bool)
    requires Unscaled(os) && Matching(os, trace)
    ensures SampledTotal(os, bytes) == Requested(trace, bytes) as real
  {
    if os != [] {
      AllSampled(os[..|os| - 1], trace[..|trace| - 1], bytes);
    }
  }

  lemma AdjustedIs(os: seq<Outcome>, trace: Requests, sizes: seq<nat>, i: nat, bytes: bool)
    requires Unscaled(os) && Matching(os, trace) && Ascending(sizes) && i < |sizes|
    ensures var below := if i == 0 then 0 else HitsWithin(os, sizes[i - 1], bytes);
            Adjusted(os, trace, sizes, i, bytes) == (HitsWithin(os, sizes[i], bytes) - below) as real
  {
    LocalIs(os, sizes, i, bytes);
    AllSampled(os, trace, bytes);
  }

  lemma RunningStep(a: seq<real>, n: int, d: int)
    requires a != [] && Running(a[..|a| - 1]) == n && a[|a| - 1] == d as real
    ensures Running(a) == n + d
  {
    assert n as real + d as real == (n + d) as real;
  }

  /** The curve of unscaled outcomes counts, for each size, the reuses within that size. */
  lemma {:induction false} CurveExact(os: seq<Outcome>, trace: Requests, sizes: seq<nat>, i: nat, bytes: bool)
    requires Unscaled(os) && Matching(os, trace) && Ascending(sizes) && i < |sizes|
    ensures Curve(os, trace, sizes, i, bytes) == HitsWithin(os, sizes[i], bytes)
  {
    var a := Histo(os, trace, sizes, bytes)[..i + 1];
    AdjustedIs(os, trace, sizes, i, bytes);
    var below := if i == 0 then 0 else HitsWithin(os, sizes[i - 1], bytes);
    if i == 0 {
      assert a[..0] == [];
    } else {
      CurveExact(os, trace, sizes, i - 1, bytes);
      assert a[..i] == Histo(os, trace, sizes, bytes)[..i];
    }
    RunningStep(a, below, HitsWithin(os, sizes[i], bytes) - below);
  }

  // ---------- every curve is nondecreasing ----------

  lemma {:induction false} LocalNonnegative(os: seq<Outcome>, sizes: seq<nat>, i: nat, bytes: bool)
    ensures Local(os, sizes, i, bytes) >= 0.0
  {
    if os != [] {
      LocalNonnegative(os[..|os| - 1], sizes, i, bytes);
      AmountNonnegative(os[|os| - 1], bytes);
    }
  }

  lemma AmountNonnegative(o: Outcome, bytes: bool)
    ensures Amount(o, bytes) >= 0.0
  {
  }

  lemma TruncateKeeps(n: int, x: real)
    requires x >= 0.0
    ensures Truncate(n as real + x) >= n
  {
  }

  /** At any rate, and whatever the outcomes, a larger cache is credited with at least as many hits. */
  lemma CurveNondecreasing(os: seq<Outcome>, trace: Requests, sizes: seq<nat>, i: nat, bytes: bool)
    requires i + 1 < |sizes|
    ensures Curve(os, trace, sizes, i, bytes) <= Curve(os, trace, sizes, i + 1, bytes)
  {
    var a := Histo(os, trace, sizes, bytes);
    LocalNonnegative(os, sizes, i + 1, bytes);
    assert a[..i + 2][..i + 1] == a[..i + 1];
    TruncateKeeps(Running(a[..i + 1]), a[i + 1]);
  }

  // ---------- the fixed-rate run at rate 1 ----------

  lemma AllChosen(f: Requests, h: Hasher)
    ensures Chosen(Names(f), SampleMax(1.0), h) == Elems(Names(f))
  {
    assert forall id :: id in Chosen(Names(f), SampleMax(1.0), h) <==> id in Elems(Names(f));
  }

  lemma {:induction false} FullRateMatches(trace: Requests, h: Hasher)
    ensures var os := RateOutcomes(trace, 1.0, h); Unscaled(os) && Matching(os, trace)
  {
    if trace != [] {
      FullRateMatches(trace[..|trace| - 1], h);
    }
  }

  lemma {:induction false} SelectCount(f: Requests, lo: nat, times: set<int>, keys: set<int>)
    requires lo <= |f| && (forall r <- f :: r.size == 1)
    requires forall k :: k in keys <==> lo <= k < |f| && k + 1 in times
    ensures BottomUpSplay.Total(Select(f, lo, |f|, times)) == |keys|
    decreases |f| - lo
  {
    if lo < |f| {
      SelectCount(f, lo + 1, times, keys - {lo});
      assert f[lo] in f;
      var head := if lo + 1 in times then [BottomUpSplay.Item(lo + 1, 1)] else [];
      BottomUpSplay.TotalConcat(head, Select(f, lo + 1, |f|, times));
      BottomUpSplay.FilterOne(BottomUpSplay.Item(lo + 1, 1), 0);
    } else {
      assert forall k :: k !in keys;
      assert keys == {};
    }
  }

  /** Position `k` holds the last use of its object. */
  ghost predicate Live(s: Trace, k: int) {
    0 <= k < |s| && LastUse(s, s[k]) == k
  }

  lemma LiveTimes(f: Requests, k: int)
    requires 0 <= k < |f|
    ensures k + 1 in Times(f, Elems(Names(f))) <==> Live(Names(f), k)
  {
    var s, ids := Names(f), Elems(Names(f));
    if LastUse(s, s[k]) == k {
      assert s[k] in ids;
    }
    if k + 1 in Times(f, ids) {
      var id :| id in ids && LastTime(f, id) == k + 1;
      LastUseSpec(s, id);
    }
  }

  lemma LiveCount(f: Requests, p: nat, keys: set<int>)
    requires p < |f| && (forall r <- f :: r.size == 1) && forall k :: k in keys <==> p <= k && Live(Names(f), k)
    ensures BottomUpSplay.Total(Select(f, p, |f|, Times(f, Elems(Names(f))))) == |keys|
  {
    var times := Times(f, Elems(Names(f)));
    forall k ensures k in keys <==> p <= k < |f| && k + 1 in times {
      if 0 <= k < |f| { LiveTimes(f, k); }
    }
    SelectCount(f, p, times, keys);
  }

  ghost function LiveFrom(s: Trace, p: nat): set<int> {
    set k | p <= k < |s| && Live(s, k)
  }

  /** The last uses from a last use on are that one and one for each object used since. */
  lemma LiveFromCount(s: Trace, p: nat)
    requires p < |s| && Live(s, p)
    ensures |LiveFrom(s, p)| == |Elems(s[p + 1..])| + 1
  {
    hide LastUse, Elems;
    var keys := LiveFrom(s, p);
    LaterUses(s, p, keys - {p});
    assert p in keys;
  }

  /** With unit sizes the reuse distance counts the objects used since, and the object itself. */
  lemma UnitDistance(f: Requests, id: int)
    requires id in Elems(Names(f)) && (forall r <- f :: r.size == 1)
    ensures LastTime(f, id) > 0
    ensures Distance(f, Elems(Names(f)), id) == |Elems(Names(f)[LastUse(Names(f), id) + 1..])| + 1
  {
    hide Times, Select, LastUse, Elems, Names, BottomUpSplay.Total;
    var s := Names(f);
    LastUseSpec(s, id);
    var p := LastUse(s, id);
    LiveFromCount(s, p);
    LiveCount(f, p, LiveFrom(s, p));
  }

  lemma ScaledByOne(d: int)
    ensures Scaled(d, 1.0) == d
  {
    assert d as real / 1.0 == d as real;
  }

  lemma FullRateSampled(f: Requests, r: Request, h: Hasher)
    ensures RateOutcome(f, r, 1.0, h) == Sampled(f, Elems(Names(f)), r, 1.0)
  {
    hide Names, Sampled, Elems, Chosen;
    AllChosen(f, h);
  }

  /** At full rate a unit-size request is a reuse at one more than its stack distance, if it is a reuse at all. */
  lemma FullRateOutcome(f: Requests, r: Request, h: Hasher)
    requires forall q <- f :: q.size == 1
    ensures var o := RateOutcome(f, r, 1.0, h);
            var d := TrueDistance(Names(f) + [r.id], |f|);
            if d < 0 then o == Cold(r.size, 1.0) else o == Hit(r.size, 1.0, d + 1)
  {
    hide LastUse, Elems, Names, Distance, LastTime, RateOutcome, Scaled;
    var s := Names(f);
    assert (s + [r.id])[..|f|] == s;
    FullRateSampled(f, r, h);
    LastUseSpec(s, r.id);
    LastTimeSpec(f, r.id);
    if r.id in Elems(s) {
      UnitDistance(f, r.id);
      ScaledByOne(Distance(f, Elems(s), r.id));
      var p := LastUse(s, r.id);
      assert (s + [r.id])[p + 1..|f|] == s[p + 1..];
    }
  }

  /** The reuses within distance `c` are the hits of an LRU cache of `c` objects. */
  lemma {:induction false} FullRateHits(trace: Requests, h: Hasher, c: nat)
    requires forall r <- trace :: r.size == 1
    ensures HitsWithin(RateOutcomes(trace, 1.0, h), c, false) == Mattson.LruHits(Names(trace), c)
  {
    hide LastUse, RateOutcome, TrueDistance, Elems, Mattson.RunQueue, LruCache.Access;
    if trace != [] {
      var f, r := trace[..|trace| - 1], trace[|trace| - 1];
      FullRateHits(f, h, c);
      FullRateOutcome(f, r, h);
      assert f + [r] == trace;
      NamesAppend(f, r);
      var s := Names(f) + [r.id];
      assert s[..|f|] == Names(f);
      Mattson.HitIffNear(s, |f|, c);
      var os := RateOutcomes(trace, 1.0, h);
      FullRateMatches(f, h);
      assert os[..|f|] == RateOutcomes(f, 1.0, h);
    }
  }

  /** At rate 1 with unit sizes the curve is the number of LRU hits at every requested size. */
  lemma FullRateIsLru(trace: Requests, sizes: seq<nat>, i: nat, h: Hasher)
    requires Ascending(sizes) && i < |sizes| && (forall r <- trace :: r.size == 1)
    ensures Curve(RateOutcomes(trace, 1.0, h), trace, sizes, i, false) == Mattson.LruHits(Names(trace), sizes[i])
  {
    FullRateMatches(trace, h);
    CurveExact(RateOutcomes(trace, 1.0, h), trace, sizes, i, false);
    FullRateHits(trace, h, sizes[i]);
  }

  // ---------- the fixed-size run with room for every object ----------

  lemma RoomyOutcome(f: Requests, r: Request, k: nat, h: Hasher)
    requires |Elems(Names(f + [r]))| < k
    ensures SizeOutcome(f, r, k, h) == RateOutcome(f, r, 1.0, h)
  {
    var g := f + [r];
    NamesAppend(f, r);
    ElemsAppend(Names(f), r.id);
    SubsetCard(Elems(Names(f)), Elems(Names(g)));
    KeptCard(Names(f), k, h);
    KeptCard(Names(g), k, h);
    AllChosen(f, h);
  }

  /** With fewer objects than the sample size, the fixed-size run sees what the full-rate run sees. */
  lemma {:induction false} RoomyIsFullRate(trace: Requests, k: nat, h: Hasher)
    requires |Elems(Names(trace))| < k
    ensures SizeOutcomes(trace, k, h) == RateOutcomes(trace, 1.0, h)
  {
    if trace != [] {
      var f, r := trace[..|trace| - 1], trace[|trace| - 1];
      assert f + [r] == trace;
      NamesAppend(f, r);
      ElemsAppend(Names(f), r.id);
      SubsetCard(Elems(Names(f)), Elems(Names(trace)));
      RoomyIsFullRate(f, k, h);
      RoomyOutcome(f, r, k, h);
    }
  }

  // ---------- the runs ----------

  /** A fixed-rate run at rate 1 over unit-size requests computes the LRU hit curve. */
  method FullRateRun(trace: Requests, sizes: seq<nat>, h: Hasher) returns (hits: array<int>)
    requires |sizes| > 0 && Ascending(sizes) && trace != [] && (forall r <- trace :: r.size == 1)
    ensures hits.Length == |sizes|
    ensures forall i :: 0 <= i < |sizes| ==> hits[i] == Mattson.LruHits(Names(trace), sizes[i])
  {
    hide Curve, RateOutcomes, Mattson.LruHits;
    var bytes;
    hits, bytes := FixedRate(trace, sizes, 1.0, h);
    forall i | 0 <= i < |sizes| ensures hits[i] == Mattson.LruHits(Names(trace), sizes[i]) {
      FullRateIsLru(trace, sizes, i, h);
    }
  }

  /** A fixed-size run with room for more objects than the trace has gives the result of the full-rate run. */
  method RoomyRun(trace: Requests, sizes: seq<nat>, k: nat, h: Hasher) returns (hits: array<int>, bytes: array<int>)
    requires |sizes| > 0 && Ascending(sizes) && trace != [] && |Elems(Names(trace))| < k
    ensures hits.Length == |sizes| && bytes.Length == |sizes|
    ensures forall i :: 0 <= i < |sizes| ==> hits[i] == Curve(RateOutcomes(trace, 1.0, h), trace, sizes, i, false)
    ensures forall i :: 0 <= i < |sizes| ==> bytes[i] == Curve(RateOutcomes(trace, 1.0, h), trace, sizes, i, true)
  {
    hide Curve, RateOutcomes, SizeOutcomes;
    SubsetCard(Zeros(Names(trace), h), Elems(Names(trace)));
    hits, bytes := FixedSize(trace, sizes, k, h);
    RoomyIsFullRate(trace, k, h);
  }
}
