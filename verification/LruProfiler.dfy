/** The one-pass LRU hit-count curve of profilerLRU.c. */
module LruProfiler {
  import opened StackDistance

  /** How many distances are at least 0 and below `c`. */
  function CountBelow(ds: seq<int>, c: int): nat {
    if ds == [] then 0
    else CountBelow(ds[..|ds| - 1], c) + (if 0 <= ds[|ds| - 1] < c then 1 else 0)
  }

  /** How many distances equal `d`. */
  function CountEqual(ds: seq<int>, d: int): nat {
    if ds == [] then 0
    else CountEqual(ds[..|ds| - 1], d) + (if ds[|ds| - 1] == d then 1 else 0)
  }

  lemma CountAppend(ds: seq<int>, d: int)
    ensures forall c :: CountBelow(ds + [d], c) == CountBelow(ds, c) + (if 0 <= d < c then 1 else 0)
    ensures forall e :: CountEqual(ds + [d], e) == CountEqual(ds, e) + (if d == e then 1 else 0)
  {
    assert (ds + [d])[..|ds|] == ds;
  }

  /** Summing the histogram step by step gives the cumulative count. */
  lemma {:induction false} CountSum(ds: seq<int>, c: nat)
    ensures CountBelow(ds, c + 1) == CountBelow(ds, c) + CountEqual(ds, c)
    ensures CountBelow(ds, 0) == 0
  {
    if ds != [] {
      CountSum(ds[..|ds| - 1], c);
    }
  }

  /** The reuses that were reported at all. */
  function Reuses(ds: seq<int>): nat {
    if ds == [] then 0 else Reuses(ds[..|ds| - 1]) + (if ds[|ds| - 1] >= 0 then 1 else 0)
  }

  lemma {:induction false} BelowIsPart(ds: seq<int>, c: int)
    ensures CountBelow(ds, c) <= Reuses(ds)
    ensures CountBelow(ds, c) == Reuses(ds) <==> forall t :: 0 <= t < |ds| ==> ds[t] < 0 || ds[t] < c
  {
    if ds != [] {
      var f, n := ds[..|ds| - 1], |ds| - 1;
      BelowIsPart(f, c);
      assert forall t :: 0 <= t < n ==> f[t] == ds[t];
    }
  }

  /**
   A curve up to `size` reaches all reuses exactly when there is an entry for 0 and `size` exceeds
   every reported distance. A size of -1 gives no entry at all; it does not stand for the largest size.
   */
  lemma CurveReaches(ds: seq<int>, size: int)
    requires size >= -1
    ensures (exists c :: 0 <= c <= size && CountBelow(ds, c) == Reuses(ds))
            <==> size >= 0 && forall t :: 0 <= t < |ds| ==> ds[t] < 0 || ds[t] < size
  {
    BelowIsPart(ds, size);
    forall c | 0 <= c <= size
      ensures CountBelow(ds, c) == Reuses(ds) ==> forall t :: 0 <= t < |ds| ==> ds[t] < 0 || ds[t] < size
    {
      BelowIsPart(ds, c);
    }
  }

  /** A round of the trace loop of `_get_lru_hit_cnt`: `hist[j]` counts the distances `j - 1`. */
  method FeedHistogram(p: Profiler, trace: Trace, ts: nat, hist: array<int>, ghost ds: seq<int>)
    returns (ghost ds': seq<int>)
    requires ts < |trace| && p.Tracking(trace[..ts]) && ds == Reports(trace[..ts])
    requires (hist.Length > 0 ==> hist[0] == 0) && forall j :: 1 <= j < hist.Length ==> hist[j] == CountEqual(ds, j - 1)
    modifies p, p.nodes, hist
    ensures p.Tracking(trace[..ts + 1]) && fresh(p.nodes - old(p.nodes)) && ds' == Reports(trace[..ts + 1])
    ensures (hist.Length > 0 ==> hist[0] == 0) && forall j :: 1 <= j < hist.Length ==> hist[j] == CountEqual(ds', j - 1)
  {
    var dist, lastAccess := Feed(p, trace, ts);
    ReportsAppend(trace, ts);
    ReportedRange(trace, ts);
    ds' := ds + [dist];
    Tally(dist, hist, ds);
  }

  /** The histogram counts one more distance, if it is a reuse within the size. */
  method Tally(dist: int, hist: array<int>, ghost ds: seq<int>)
    requires dist >= -1
    requires (hist.Length > 0 ==> hist[0] == 0) && forall j :: 1 <= j < hist.Length ==> hist[j] == CountEqual(ds, j - 1)
    modifies hist
    ensures (hist.Length > 0 ==> hist[0] == 0) && forall j :: 1 <= j < hist.Length ==> hist[j] == CountEqual(ds + [dist], j - 1)
  {
    CountAppend(ds, dist);
    if dist != -1 && dist + 1 <= hist.Length - 1 {
      hist[dist + 1] := hist[dist + 1] + 1;
    }
  }

  lemma ReportedRange(trace: Trace, t: nat)
    requires t < |trace|
    ensures Reported(trace, t) >= -1
  {
  }

  /** The second loop of `_get_lru_hit_cnt`: turn the histogram into a running sum in place. */
  method Accumulate(hist: array<int>, ghost ds: seq<int>)
    requires (hist.Length > 0 ==> hist[0] == 0) && forall j :: 1 <= j < hist.Length ==> hist[j] == CountEqual(ds, j - 1)
    modifies hist
    ensures forall c :: 0 <= c < hist.Length ==> hist[c] == CountBelow(ds, c)
  {
    CountSum(ds, 0);
    var i := 1;
    while i < hist.Length
      invariant 1 <= i && (hist.Length > 0 ==> i <= hist.Length)
      invariant forall c :: 0 <= c < i && c < hist.Length ==> hist[c] == CountBelow(ds, c)
      invariant forall j :: i <= j < hist.Length ==> hist[j] == CountEqual(ds, j - 1)
    {
      CountSum(ds, i - 1);
      hist[i] := hist[i] + hist[i - 1];
      i := i + 1;
    }
  }

  /**
   `_get_lru_hit_cnt`: entry `c` of the result counts the requests whose reported stack
   distance is below `c`. For a size of -1 the array is empty.
   */
  method HitCounts(trace: Trace, size: int) returns (hits: array<int>)
    requires size >= -1
    ensures fresh(hits) && hits.Length == size + 1
    ensures forall c :: 0 <= c <= size ==> hits[c] == CountBelow(Reports(trace), c)
  {
    hide CountEqual, CountBelow, StateAfter;
    hits := new int[size + 1](i => 0);
    var p := new Profiler();
    ghost var ds := [];
    NothingYet();
    var ts := 0;
    while ts < |trace|
      invariant 0 <= ts <= |trace| && fresh(p) && fresh(p.nodes) && p.Tracking(trace[..ts])
      invariant ds == Reports(trace[..ts])
      invariant (hits.Length > 0 ==> hits[0] == 0) && forall j :: 1 <= j < hits.Length ==> hits[j] == CountEqual(ds, j - 1)
    {
      ds := FeedHistogram(p, trace, ts, hits, ds);
      ts := ts + 1;
    }
    assert trace[..|trace|] == trace;
    Accumulate(hits, ds);
  }

  lemma NothingYet()
    ensures Reports([]) == [] && StateAfter([]) == State({}, map[]) && forall d :: CountEqual([], d) == 0
  {
  }

  /** `_get_lru_miss_cnt`: the requests that are not hits. */
  method MissCounts(trace: Trace, size: int) returns (misses: array<int>)
    requires size >= -1
    ensures misses.Length == size + 1
    ensures forall c :: 0 <= c <= size ==> misses[c] == |trace| - CountBelow(Reports(trace), c)
  {
    hide CountBelow, Reports;
    misses := HitCounts(trace, size);
    var i := 0;
    while i < size + 1
      invariant 0 <= i <= size + 1 && misses.Length == size + 1 && fresh(misses)
      invariant forall c :: 0 <= c < i ==> misses[c] == |trace| - CountBelow(Reports(trace), c)
      invariant forall c :: i <= c <= size ==> misses[c] == CountBelow(Reports(trace), c)
    {
      misses[i] := |trace| - misses[i];
      i := i + 1;
    }
  }
}
