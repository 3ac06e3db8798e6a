/** The SHARDS profiler of mrcProfiler.cpp: sampling at a fixed rate and at a fixed number of objects. */
module Shards {
  import opened StackDistance
  import opened Seqs
  import opened Reuse
  import opened BottomK
  import opened MinValueMap
  import BottomUpSplay

  /** What one request contributes: nothing, a first access, or a reuse at a scaled distance. */
  datatype Outcome =
    | Skipped
    | Cold(size: nat, rate: Rate)
    | Hit(size: nat, rate: Rate, distance: int)

  type Rate = x: real | x > 0.0 witness 1.0

  /** `distance / sample_rate`, converted to an integer. */
  function Scaled(d: int, rate: Rate): int {
    Truncate(d as real / rate)
  }

  /** The conversion of a floating-point number to an integer. */
  function Truncate(x: real): int {
    if x >= 0.0 then x.Floor else -((-x).Floor)
  }

  /** A sampled request after the requests `f`, when the objects `ids` are tracked. */
  function Sampled(f: Requests, ids: set<int>, r: Request, rate: Rate): Outcome {
    if r.id in ids && LastTime(f, r.id) > 0 then Hit(r.size, rate, Scaled(Distance(f, ids, r.id), rate))
    else Cold(r.size, rate)
  }

  // ---------- the hit curve of a sequence of outcomes ----------

  /** How much a sampled request counts, in requests or in bytes. */
  function Amount(o: Outcome, bytes: bool): real {
    if o.Skipped? then 0.0 else (if bytes then o.size as real else 1.0) / o.rate
  }

  /** The first size that is at least `d`, as `std::lower_bound` finds it. */
  function LowerBound(sizes: seq<nat>, d: int): (i: nat)
    ensures i <= |sizes|
    ensures forall j :: 0 <= j < i ==> sizes[j] < d
    ensures i < |sizes| ==> sizes[i] >= d
  {
    if sizes == [] || sizes[0] >= d then 0 else 1 + LowerBound(sizes[1..], d)
  }

  /** What `std::lower_bound` demands of the cache sizes. */
  ghost predicate Ascending(sizes: seq<nat>) {
    forall i, j :: 0 <= i < j < |sizes| ==> sizes[i] <= sizes[j]
  }

  function InBucket(o: Outcome, sizes: seq<nat>, i: int): bool {
    o.Hit? && LowerBound(sizes, o.distance) == i
  }

  /** Entry `i` of the local histogram. */
  function Local(os: seq<Outcome>, sizes: seq<nat>, i: int, bytes: bool): real {
    if os == [] then 0.0
    else
      var o := os[|os| - 1];
      Local(os[..|os| - 1], sizes, i, bytes) + (if InBucket(o, sizes, i) then Amount(o, bytes) else 0.0)
  }

  /** `sampled_cnt` or `sampled_size`. */
  function SampledTotal(os: seq<Outcome>, bytes: bool): real {
    if os == [] then 0.0 else SampledTotal(os[..|os| - 1], bytes) + Amount(os[|os| - 1], bytes)
  }

  /** `n_req_` or `sum_obj_size_req`. */
  function Requested(trace: Requests, bytes: bool): nat {
    if trace == [] then 0
    else Requested(trace[..|trace| - 1], bytes) + (if bytes then trace[|trace| - 1].size else 1)
  }

  /** The histogram once the requests that were not sampled are added to the first entry. */
  function Adjusted(os: seq<Outcome>, trace: Requests, sizes: seq<nat>, i: int, bytes: bool): real {
    Local(os, sizes, i, bytes) + (if i == 0 then Requested(trace, bytes) as real - SampledTotal(os, bytes) else 0.0)
  }

  function Histo(os: seq<Outcome>, trace: Requests, sizes: seq<nat>, bytes: bool): (a: seq<real>)
    ensures |a| == |sizes|
  {
    seq(|sizes|, i => Adjusted(os, trace, sizes, i, bytes))
  }

  /** The running sum of step 4, rounded to an integer after every addition. */
  function Running(a: seq<real>): int {
    if a == [] then 0 else Truncate(Running(a[..|a| - 1]) as real + a[|a| - 1])
  }

  /** Entry `i` of the result of a run. */
  function Curve(os: seq<Outcome>, trace: Requests, sizes: seq<nat>, i: nat, bytes: bool): int
    requires i < |sizes|
  {
    Running(Histo(os, trace, sizes, bytes)[..i + 1])
  }

  /** The histograms of counts and of bytes, as the trace loop fills them. */
  class Histogram {
    const sizes: seq<nat>
    const cnt: array<real>
    const size: array<real>
    var sampledCnt: real
    var sampledSize: real
    var nReq: int
    var sumSize: int

    /** The outcomes `os` of the requests `f` have been counted. */
    ghost predicate Holds(os: seq<Outcome>, f: Requests)
      reads this, cnt, size
    {
      && cnt.Length == |sizes| && size.Length == |sizes| && cnt != size
      && (forall i :: 0 <= i < |sizes| ==> cnt[i] == Local(os, sizes, i, false))
      && (forall i :: 0 <= i < |sizes| ==> size[i] == Local(os, sizes, i, true))
      && sampledCnt == SampledTotal(os, false) && sampledSize == SampledTotal(os, true)
      && nReq == Requested(f, false) && sumSize == Requested(f, true)
    }

    constructor (sizes: seq<nat>)
      ensures this.sizes == sizes && Holds([], []) && fresh(cnt) && fresh(size)
    {
      this.sizes, sampledCnt, sampledSize, nReq, sumSize := sizes, 0.0, 0.0, 0, 0;
      cnt := new real[|sizes|](i => 0.0);
      size := new real[|sizes|](i => 0.0);
    }

    /** Count one request and its outcome. */
    method Tally(r: Request, o: Outcome, ghost os: seq<Outcome>, ghost f: Requests)
      requires Holds(os, f)
      modifies this, cnt, size
      ensures Holds(os + [o], f + [r])
    {
      assert (os + [o])[..|os|] == os && (f + [r])[..|f|] == f;
      nReq, sumSize := nReq + 1, sumSize + r.size;
      if !o.Skipped? {
        sampledCnt := sampledCnt + 1.0 / o.rate;
        sampledSize := sampledSize + o.size as real / o.rate;
        if o.Hit? {
          var idx := LowerBound(sizes, o.distance);
          if idx < |sizes| {
            cnt[idx] := cnt[idx] + 1.0 / o.rate;
            size[idx] := size[idx] + o.size as real / o.rate;
          }
        }
      }
    }
  }

  /** Step 4: the running sum. */
  method Accumulate(a: array<real>) returns (hits: array<int>)
    ensures fresh(hits) && hits.Length == a.Length
    ensures forall i :: 0 <= i < a.Length ==> hits[i] == Running(a[..i + 1])
  {
    hits := new int[a.Length](i => 0);
    var accu := 0;
    for n := 0 to a.Length
      invariant accu == Running(a[..n])
      invariant forall i :: 0 <= i < n ==> hits[i] == Running(a[..i + 1])
    {
      assert a[..n + 1][..n] == a[..n];
      accu := Truncate(accu as real + a[n]);
      hits[n] := accu;
    }
  }

  /** Steps 3 and 4 of both runs: adjust the first entry, then accumulate. */
  method Finish(a: array<real>, total: int, sampled: real, ghost os: seq<Outcome>, ghost trace: Requests,
                ghost sizes: seq<nat>, ghost bytes: bool)
    returns (hits: array<int>)
    requires a.Length == |sizes| > 0 && forall i :: 0 <= i < |sizes| ==> a[i] == Local(os, sizes, i, bytes)
    requires total == Requested(trace, bytes) && sampled == SampledTotal(os, bytes)
    modifies a
    ensures fresh(hits) && hits.Length == |sizes|
    ensures forall i :: 0 <= i < |sizes| ==> hits[i] == Curve(os, trace, sizes, i, bytes)
  {
    a[0] := a[0] + (total as real - sampled);
    assert a[..] == Histo(os, trace, sizes, bytes);
    hits := Accumulate(a);
    forall i | 0 <= i < |sizes| ensures hits[i] == Curve(os, trace, sizes, i, bytes) {
      assert a[..i + 1] == a[..][..i + 1];
    }
  }

  // ---------- sampling at a fixed rate ----------

  function SampleMax(rate: Rate): int {
    if rate >= 1.0 then HASH_SPACE - 1 else (HASH_SPACE as real * rate).Floor
  }

  /** The objects of the trace that the hash function selects. */
  ghost function Chosen(ids: Trace, max: int, h: Hasher): set<int> {
    set id <- Elems(ids) | h(id) <= max
  }

  ghost function RateOutcome(f: Requests, r: Request, rate: Rate, h: Hasher): Outcome {
    if h(r.id) > SampleMax(rate) then Skipped else Sampled(f, Chosen(Names(f), SampleMax(rate), h), r, rate)
  }

  ghost function RateOutcomes(trace: Requests, rate: Rate, h: Hasher): seq<Outcome> {
    if trace == [] then []
    else
      var f := trace[..|trace| - 1];
      RateOutcomes(f, rate, h) + [RateOutcome(f, trace[|trace| - 1], rate, h)]
  }

  lemma ChosenAppend(f: Requests, r: Request, max: int, h: Hasher)
    ensures Chosen(Names(f + [r]), max, h) == Chosen(Names(f), max, h) + (if h(r.id) <= max then {r.id} else {})
  {
    NamesAppend(f, r);
    ElemsAppend(Names(f), r.id);
    var a, b := Chosen(Names(f + [r]), max, h), Chosen(Names(f), max, h) + (if h(r.id) <= max then {r.id} else {});
    assert forall x :: x in a <==> x in b;
  }

  /** What a sampled request does to the table and the tree. */
  method Touch(t: Tracker, r: Request, time: int, rate: Rate, ghost f: Requests) returns (o: Outcome)
    requires t.Tracking(f) && time == |f| + 1
    modifies t, t.tree, t.repr
    ensures t.Tracking(f + [r]) && t.last.Keys == old(t.last.Keys) + {r.id} && fresh(t.repr - old(t.repr))
    ensures o == Sampled(f, old(t.last.Keys), r, rate)
  {
    hide BottomUpSplay.Splay.Valid;
    if r.id in t.last {
      var d := t.Measure(r.id, f);
      o := Hit(r.size, rate, Scaled(d, rate));
      t.Drop(r.id, f);
    } else {
      o := Cold(r.size, rate);
    }
    t.Enter(r, time, f);
  }

  /** One round of the fixed-rate loop. */
  method RateRound(t: Tracker, r: Request, time: int, rate: Rate, max: int, h: Hasher, ghost f: Requests)
    returns (o: Outcome)
    requires t.Tracking(f) && time == |f| + 1 && max == SampleMax(rate)
    requires t.last.Keys == Chosen(Names(f), max, h)
    modifies t, t.tree, t.repr
    ensures t.Tracking(f + [r]) && fresh(t.repr - old(t.repr))
    ensures t.last.Keys == Chosen(Names(f + [r]), max, h)
    ensures o == RateOutcome(f, r, rate, h)
  {
    ChosenAppend(f, r, max, h);
    if h(r.id) <= max {
      o := Touch(t, r, time, rate, f);
    } else {
      t.Ignore(r, f);
      o := Skipped;
    }
  }

  /** The curves of counts and of bytes. */
  method Results(hist: Histogram, ghost os: seq<Outcome>, ghost trace: Requests) returns (hits: array<int>, bytes: array<int>)
    requires |hist.sizes| > 0 && hist.Holds(os, trace)
    modifies hist.cnt, hist.size
    ensures fresh(hits) && hits.Length == |hist.sizes| && fresh(bytes) && bytes.Length == |hist.sizes|
    ensures forall i :: 0 <= i < |hist.sizes| ==> hits[i] == Curve(os, trace, hist.sizes, i, false)
    ensures forall i :: 0 <= i < |hist.sizes| ==> bytes[i] == Curve(os, trace, hist.sizes, i, true)
  {
    hits := Finish(hist.cnt, hist.nReq, hist.sampledCnt, os, trace, hist.sizes, false);
    bytes := Finish(hist.size, hist.sumSize, hist.sampledSize, os, trace, hist.sizes, true);
  }

  lemma Advance(trace: Requests, n: nat)
    requires n < |trace|
    ensures trace[..n + 1] == trace[..n] + [trace[n]] && trace[..n + 1][..n] == trace[..n]
  {
  }

  /** The loop body of `fixed_sample_rate_run`. */
  method RateFeed(t: Tracker, hist: Histogram, r: Request, time: int, rate: Rate, h: Hasher,
                  ghost f: Requests, ghost os: seq<Outcome>)
    returns (o: Outcome)
    requires t.Tracking(f) && time == |f| + 1 && t.last.Keys == Chosen(Names(f), SampleMax(rate), h)
    requires hist.Holds(os, f)
    modifies t, t.tree, t.repr, hist, hist.cnt, hist.size
    ensures t.Tracking(f + [r]) && fresh(t.repr - old(t.repr))
    ensures t.last.Keys == Chosen(Names(f + [r]), SampleMax(rate), h)
    ensures o == RateOutcome(f, r, rate, h) && hist.Holds(os + [o], f + [r])
  {
    o := RateRound(t, r, time, rate, SampleMax(rate), h, f);
    hist.Tally(r, o, os, f);
  }

  /** `fixed_sample_rate_run`. */
  method FixedRate(trace: Requests, sizes: seq<nat>, rate: Rate, h: Hasher) returns (hits: array<int>, bytes: array<int>)
    requires |sizes| > 0 && Ascending(sizes) && trace != []
    ensures hits.Length == |sizes| && bytes.Length == |sizes|
    ensures forall i :: 0 <= i < |sizes| ==> hits[i] == Curve(RateOutcomes(trace, rate, h), trace, sizes, i, false)
    ensures forall i :: 0 <= i < |sizes| ==> bytes[i] == Curve(RateOutcomes(trace, rate, h), trace, sizes, i, true)
  {
    hide BottomUpSplay.Splay.Valid, Histogram.Holds, RateOutcome, Curve;
    var t := new Tracker();
    var hist := new Histogram(sizes);
    var time := 0;
    ghost var os := [];
    while time < |trace|
      invariant 0 <= time <= |trace| && fresh(t) && fresh(t.tree) && fresh(t.repr) && t.Tracking(trace[..time])
      invariant t.last.Keys == Chosen(Names(trace[..time]), SampleMax(rate), h)
      invariant fresh(hist) && fresh(hist.cnt) && fresh(hist.size) && hist.sizes == sizes && hist.Holds(os, trace[..time])
      invariant os == RateOutcomes(trace[..time], rate, h)
    {
      ghost var f := trace[..time];
      Advance(trace, time);
      var o := RateFeed(t, hist, trace[time], time + 1, rate, h, f, os);
      os := os + [o];
      time := time + 1;
    }
    assert trace[..|trace|] == trace;
    hits, bytes := Results(hist, os, trace);
  }

  // ---------- sampling a fixed number of objects ----------

  /** The sampling rate: the largest value kept, as a part of the hash space, once the sample is full. */
  ghost function SizeRate(m: map<int, int>, k: nat): Rate
    requires k > 0
  {
    if |m| == k && m[Top(m)] > 0 then m[Top(m)] as real / HASH_SPACE as real else 1.0
  }

  /** The outcome of the request `r` after `f`: it is sampled if its object is tracked afterwards. */
  ghost function SizeOutcome(f: Requests, r: Request, k: nat, h: Hasher): Outcome
    requires k > 0
  {
    var m := Kept(Names(f + [r]), k, h);
    if r.id !in m then Skipped else Sampled(f, Kept(Names(f), k, h).Keys, r, SizeRate(m, k))
  }

  ghost function SizeOutcomes(trace: Requests, k: nat, h: Hasher): seq<Outcome>
    requires k > 0
  {
    if trace == [] then []
    else
      var f := trace[..|trace| - 1];
      SizeOutcomes(f, k, h) + [SizeOutcome(f, trace[|trace| - 1], k, h)]
  }

  lemma KeptAppend(f: Requests, r: Request, k: nat, h: Hasher)
    requires k > 0
    ensures Kept(Names(f + [r]), k, h) == Offer(Kept(Names(f), k, h), k, r.id, h(r.id))
  {
    NamesAppend(f, r);
    assert (Names(f) + [r.id])[..|f|] == Names(f);
  }

  /** The sampler's set and map, the last-access table and the tree all track the same objects. */
  ghost predicate InLockstep(t: Tracker, s: MinValueMap, f: Requests)
    reads t, t.tree, t.repr, s
  {
    s.n > 0 && s.InStep() && t.Tracking(f) && t.last.Keys == s.values.Keys
  }

  /** A new object enters the sampler, and may displace another. */
  method Enroll(s: MinValueMap, id: int, value: int) returns (out: int, popped: bool)
    requires s.n > 0 && s.InStep() && id !in s.values && Admits(s.values, s.n, value)
    modifies s
    ensures s.InStep() && s.values == Taken(old(s.values), s.n, id, value) && id in s.values
    ensures popped ==> out in old(s.values)
    ensures s.values.Keys - {id} == old(s.values.Keys) - (if popped then {out} else {})
  {
    out, popped := s.Insert(id, value);
  }

  /** The first part of a sampled request: the sampler is updated, and a displaced object forgotten. */
  method Admit(t: Tracker, s: MinValueMap, id: int, value: int, ghost f: Requests)
    requires InLockstep(t, s, f) && id !in t.last && Admits(s.values, s.n, value)
    modifies t, t.tree, t.repr, s
    ensures s.InStep() && s.values == Taken(old(s.values), s.n, id, value) && id in s.values
    ensures t.Tracking(f) && t.repr == old(t.repr) && t.last.Keys == s.values.Keys - {id}
  {
    hide BottomUpSplay.Splay.Valid;
    var out, popped := Enroll(s, id, value);
    if popped {
      t.Drop(out, f);
    }
  }

  method CurrentRate(s: MinValueMap) returns (rate: Rate)
    requires s.n > 0 && s.InStep() && Divisible(s.values, s.n)
    ensures rate == SizeRate(s.values, s.n)
  {
    PairsCard(s.values);
    if !s.Full() {
      rate := 1.0;
    } else {
      var v := s.MaxValue();
      rate := v as real / HASH_SPACE as real;
    }
  }

  /** Whether the fixed-size run samples a request. */
  method Accepts(t: Tracker, s: MinValueMap, id: int, value: int, ghost f: Requests) returns (b: bool)
    requires InLockstep(t, s, f) && |s.values| <= s.n
    ensures b <==> id in t.last || Admits(s.values, s.n, value)
  {
    PairsCard(s.values);
    b := !s.Full() || id in t.last;
    if !b {
      var v := s.MaxValue();
      b := value < v;
    }
  }

  /** The sampling rate is not 0: a full sample has a positive largest value. */
  ghost predicate Divisible(m: map<int, int>, k: nat)
    requires k > 0
  {
    |m| == k ==> m[Top(m)] > 0
  }

  /** A sampled request, once the sampler holds its object. */
  method Sample(t: Tracker, s: MinValueMap, r: Request, time: int, ghost f: Requests) returns (o: Outcome)
    requires s.n > 0 && s.InStep() && t.Tracking(f) && t.last.Keys + {r.id} == s.values.Keys
    requires time == |f| + 1 && Divisible(s.values, s.n)
    modifies t, t.tree, t.repr
    ensures InLockstep(t, s, f + [r]) && fresh(t.repr - old(t.repr))
    ensures o == Sampled(f, old(t.last.Keys), r, SizeRate(s.values, s.n))
  {
    hide BottomUpSplay.Splay.Valid;
    var rate := CurrentRate(s);
    o := Touch(t, r, time, rate, f);
  }

  /** A sampled request for a new object. */
  method SampleNew(t: Tracker, s: MinValueMap, r: Request, time: int, value: int, ghost f: Requests) returns (o: Outcome)
    requires InLockstep(t, s, f) && r.id !in t.last && Admits(s.values, s.n, value)
    requires time == |f| + 1 && Divisible(Taken(s.values, s.n, r.id, value), s.n)
    modifies t, t.tree, t.repr, s
    ensures InLockstep(t, s, f + [r]) && fresh(t.repr - old(t.repr))
    ensures s.values == Taken(old(s.values), s.n, r.id, value) && r.id in s.values
    ensures o == Cold(r.size, SizeRate(s.values, s.n))
  {
    hide BottomUpSplay.Splay.Valid, Taken, Admits;
    Admit(t, s, r.id, value, f);
    o := Sample(t, s, r, time, f);
  }

  /** One round of the fixed-size loop. */
  method SizeRound(t: Tracker, s: MinValueMap, r: Request, time: int, value: int, ghost f: Requests) returns (o: Outcome)
    requires InLockstep(t, s, f) && time == |f| + 1
    requires |s.values| <= s.n && Divisible(Offer(s.values, s.n, r.id, value), s.n)
    modifies t, t.tree, t.repr, s
    ensures InLockstep(t, s, f + [r]) && fresh(t.repr - old(t.repr))
    ensures s.values == Offer(old(s.values), s.n, r.id, value)
    ensures o == if r.id in s.values then Sampled(f, old(t.last.Keys), r, SizeRate(s.values, s.n)) else Skipped
  {
    hide BottomUpSplay.Splay.Valid, Tracker.Tracking, Taken, Admits, SizeRate, Divisible;
    var sampled := Accepts(t, s, r.id, value, f);
    if sampled {
      if r.id !in t.last {
        o := SampleNew(t, s, r, time, value, f);
      } else {
        o := Sample(t, s, r, time, f);
      }
    } else {
      t.Ignore(r, f);
      o := Skipped;
    }
  }

  /** The structures are in step and hold the sample of the requests `f`. */
  ghost predicate SampleOf(t: Tracker, s: MinValueMap, f: Requests, h: Hasher)
    reads t, t.tree, t.repr, s
  {
    InLockstep(t, s, f) && s.values == Kept(Names(f), s.n, h)
  }

  /** The loop body of `fixed_sample_size_run`. */
  method SizeFeed(t: Tracker, s: MinValueMap, hist: Histogram, r: Request, time: int, h: Hasher,
                  ghost f: Requests, ghost os: seq<Outcome>)
    returns (o: Outcome)
    requires SampleOf(t, s, f, h) && time == |f| + 1 && hist.Holds(os, f)
    requires Divisible(Kept(Names(f + [r]), s.n, h), s.n)
    modifies t, t.tree, t.repr, s, hist, hist.cnt, hist.size
    ensures SampleOf(t, s, f + [r], h) && fresh(t.repr - old(t.repr))
    ensures o == SizeOutcome(f, r, s.n, h) && hist.Holds(os + [o], f + [r])
  {
    hide BottomUpSplay.Splay.Valid, Tracker.Tracking, Offer, SizeRate, Sampled, Kept, Names, Divisible, Histogram.Holds;
    KeptSmallest(Names(f), s.n, h);
    KeptAppend(f, r, s.n, h);
    o := SizeRound(t, s, r, time, h(r.id), f);
    hist.Tally(r, o, os, f);
  }

  /** The empty structures. */
  method Start(k: nat, ghost h: Hasher) returns (t: Tracker, s: MinValueMap)
    requires k > 0
    ensures fresh(t) && fresh(t.tree) && fresh(t.repr) && fresh(s) && s.n == k && SampleOf(t, s, [], h)
  {
    t := new Tracker();
    s := new MinValueMap(k);
  }

  /** With fewer than `k` objects of hash value 0 the rate never is 0. */
  lemma PrefixDivisible(trace: Requests, n: nat, k: nat, h: Hasher)
    requires n <= |trace| && |Zeros(Names(trace), h)| < k
    ensures Divisible(Kept(Names(trace[..n]), k, h), k)
  {
    assert Names(trace[..n]) == Names(trace)[..n];
    ElemsPrefix(Names(trace), n);
    TopPositive(Names(trace[..n]), k, h, Zeros(Names(trace), h));
  }

  /** `fixed_sample_size_run`, when fewer objects than the sample takes have the hash value 0, by which a rate would divide. */
  method FixedSize(trace: Requests, sizes: seq<nat>, k: nat, h: Hasher) returns (hits: array<int>, bytes: array<int>)
    requires |sizes| > 0 && Ascending(sizes) && trace != [] && |Zeros(Names(trace), h)| < k
    ensures hits.Length == |sizes| && bytes.Length == |sizes|
    ensures forall i :: 0 <= i < |sizes| ==> hits[i] == Curve(SizeOutcomes(trace, k, h), trace, sizes, i, false)
    ensures forall i :: 0 <= i < |sizes| ==> bytes[i] == Curve(SizeOutcomes(trace, k, h), trace, sizes, i, true)
  {
    hide SampleOf, Histogram.Holds, SizeOutcome, Curve;
    var t, s := Start(k, h);
    var hist := new Histogram(sizes);
    var time := 0;
    ghost var os := [];
    while time < |trace|
      invariant 0 <= time <= |trace| && fresh(t) && fresh(t.tree) && fresh(t.repr) && fresh(s) && s.n == k
      invariant SampleOf(t, s, trace[..time], h)
      invariant fresh(hist) && fresh(hist.cnt) && fresh(hist.size) && hist.sizes == sizes && hist.Holds(os, trace[..time])
      invariant os == SizeOutcomes(trace[..time], k, h)
    {
      ghost var f := trace[..time];
      Advance(trace, time);
      PrefixDivisible(trace, time + 1, k, h);
      var o := SizeFeed(t, s, hist, trace[time], time + 1, h, f, os);
      os := os + [o];
      time := time + 1;
    }
    assert trace[..|trace|] == trace;
    hits, bytes := Results(hist, os, trace);
  }
}
