/**
 What the two SHARDS runs compute, in terms of the trace and the hash values alone: which requests
 are sampled, at which rate and distance, and what the curves add up.
 */
module ShardsMeaning {
  import opened StackDistance
  import opened Seqs
  import opened Reuse
  import opened BottomK
  import opened MinValueMap
  import opened Shards
  import BottomUpSplay

  // ---------- reuse distances ----------

  /** The sizes of the objects among `ids` that are used at position `p` or later, each at its last use. */
  ghost function Since(f: Requests, ids: set<int>, p: nat): nat
    requires p <= |f|
    decreases |f| - p
  {
    if p == |f| then 0
    else
      (if f[p].id in ids && (forall j :: p < j < |f| ==> f[j].id != f[p].id) then f[p].size else 0)
      + Since(f, ids, p + 1)
  }

  lemma TimesAt(f: Requests, ids: set<int>, p: nat)
    requires p < |f|
    ensures p + 1 in Times(f, ids) <==> f[p].id in ids && forall j :: p < j < |f| ==> f[j].id != f[p].id
  {
    var s := Names(f);
    LastUseSpec(s, f[p].id);
    assert forall j :: 0 <= j < |f| ==> s[j] == f[j].id;
    if p + 1 in Times(f, ids) {
      var id :| id in ids && LastTime(f, id) == p + 1;
      LastUseSpec(s, id);
    }
  }

  lemma NothingSelected()
    ensures BottomUpSplay.Total([]) == 0
  {
  }

  lemma {:induction false} SelectIs(f: Requests, ids: set<int>, p: nat)
    requires p <= |f|
    ensures BottomUpSplay.Total(Select(f, p, |f|, Times(f, ids))) == Since(f, ids, p)
    decreases |f| - p
  {
    hide Times, BottomUpSplay.Total;
    NothingSelected();
    if p < |f| {
      TimesAt(f, ids, p);
      SelectIs(f, ids, p + 1);
      var head := if p + 1 in Times(f, ids) then [BottomUpSplay.Item(p + 1, f[p].size)] else [];
      BottomUpSplay.TotalConcat(head, Select(f, p + 1, |f|, Times(f, ids)));
      BottomUpSplay.FilterOne(BottomUpSplay.Item(p + 1, f[p].size), 0);
    }
  }

  /** The reuse distance is the size of all that is tracked and used since the last access, the object included. */
  lemma DistanceIs(f: Requests, ids: set<int>, id: int)
    requires LastTime(f, id) > 0
    ensures Distance(f, ids, id) == Since(f, ids, LastUse(Names(f), id))
  {
    SelectIs(f, ids, LastUse(Names(f), id));
  }

  /** `s` is the distance `d` divided by the rate and rounded down. */
  ghost predicate ScaledTo(s: int, rate: real, d: nat) {
    s as real * rate <= d as real < (s + 1) as real * rate
  }

  lemma ScaledIs(d: nat, rate: Rate)
    ensures ScaledTo(Scaled(d, rate), rate, d)
  {
    hide ScaledTo;
    NotNegative(d, rate);
    Multiplied(Scaled(d, rate), d as real / rate, rate, d);
  }

  lemma Multiplied(s: int, x: real, rate: Rate, d: nat)
    requires s as real <= x < (s + 1) as real && x * rate == d as real
    ensures ScaledTo(s, rate, d)
  {
    var low, high := s as real, (s + 1) as real;
    ProductAtMost(low, x, rate);
    ProductBelow(x, high, rate);
    assert low * rate <= d as real < high * rate;
  }

  lemma NotNegative(d: nat, rate: Rate)
    ensures d as real / rate >= 0.0
  {
  }

  lemma ProductAtMost(a: real, b: real, r: real)
    requires a <= b && r > 0.0
    ensures a * r <= b * r
  {
    if a < b {
      ProductBelow(a, b, r);
    }
  }

  lemma ProductBelow(a: real, b: real, r: real)
    requires a < b && r > 0.0
    ensures a * r < b * r
  {
    var d := b - a;
    assert d * r > 0.0;
    assert b * r == a * r + d * r;
  }

  // ---------- the fixed-rate run ----------

  /** The hash value lies in the part `rate` of the space of 2^64 values. */
  ghost predicate InPart(value: int, rate: real) {
    value as real <= 18446744073709551616.0 * rate
  }

  /** The seen objects that the hash function selects. */
  ghost function Selected(f: Requests, rate: real, h: Hasher): set<int> {
    set x <- Elems(Names(f)) | InPart(h(x), rate)
  }

  /** What the fixed-rate run makes of the request `r` after the requests `f`. */
  ghost predicate RateMeans(o: Outcome, f: Requests, r: Request, rate: Rate, h: Hasher) {
    if !InPart(h(r.id), rate) then o.Skipped?
    else
      var p := LastUse(Names(f), r.id);
      && !o.Skipped? && o.size == r.size && o.rate == rate
      && (o.Hit? <==> p >= 0)
      && (o.Hit? ==> ScaledTo(o.distance, rate, Since(f, Selected(f, rate, h), p)))
  }

  lemma BelowFloor(v: int, x: real)
    ensures v <= x.Floor <==> v as real <= x
  {
  }

  lemma MaxIs(v: HashValue, rate: Rate)
    ensures v <= SampleMax(rate) <==> InPart(v, rate)
  {
    if rate >= 1.0 {
      ProductAtMost(1.0, rate, 18446744073709551616.0);
    } else {
      BelowFloor(v, 18446744073709551616.0 * rate);
    }
  }

  lemma ChosenIs(f: Requests, rate: Rate, h: Hasher)
    ensures Chosen(Names(f), SampleMax(rate), h) == Selected(f, rate, h)
  {
    hide SampleMax, InPart;
    var a, b := Chosen(Names(f), SampleMax(rate), h), Selected(f, rate, h);
    forall x ensures x in a <==> x in b {
      MaxIs(h(x), rate);
    }
  }

  lemma RateOutcomeMeans(f: Requests, r: Request, rate: Rate, h: Hasher)
    ensures RateMeans(RateOutcome(f, r, rate, h), f, r, rate, h)
  {
    hide SampleMax, InPart, Distance, Scaled, ScaledTo, Names, LastUse, Since, Elems;
    MaxIs(h(r.id), rate);
    ChosenIs(f, rate, h);
    LastUseSpec(Names(f), r.id);
    LastTimeSpec(f, r.id);
    if LastTime(f, r.id) > 0 {
      DistanceIs(f, Selected(f, rate, h), r.id);
      ScaledIs(Since(f, Selected(f, rate, h), LastUse(Names(f), r.id)), rate);
    }
  }

  /** Every outcome of the fixed-rate run means what it should. */
  lemma {:induction false} RateOutcomesMean(trace: Requests, rate: Rate, h: Hasher, t: nat)
    requires t < |trace|
    ensures |RateOutcomes(trace, rate, h)| == |trace|
    ensures RateMeans(RateOutcomes(trace, rate, h)[t], trace[..t], trace[t], rate, h)
  {
    hide RateOutcome, RateMeans;
    var f := trace[..|trace| - 1];
    RateLength(f, rate, h);
    if t < |f| {
      RateOutcomesMean(f, rate, h, t);
      assert f[..t] == trace[..t];
    } else {
      RateOutcomeMeans(f, trace[t], rate, h);
    }
  }

  lemma {:induction false} RateLength(trace: Requests, rate: Rate, h: Hasher)
    ensures |RateOutcomes(trace, rate, h)| == |trace|
  {
    hide RateOutcome;
    if trace != [] {
      RateLength(trace[..|trace| - 1], rate, h);
    }
  }

  // ---------- the fixed-size run ----------

  /**
   The rate of a sample `kept` of the objects `seen`: 1 while it is not full, and then the largest
   hash value kept as a part of the space of 2^64 values. No object left out has a smaller one.
   */
  ghost predicate RateOf(rate: real, kept: set<int>, seen: set<int>, k: nat, h: Hasher) {
    if |seen| < k then rate == 1.0
    else
      && (exists x :: x in kept && h(x) as real == rate * 18446744073709551616.0)
      && (forall x <- kept :: h(x) as real <= rate * 18446744073709551616.0)
      && (forall y <- seen :: y in kept || h(y) as real >= rate * 18446744073709551616.0)
  }

  /** What the fixed-size run makes of the request `r` after the requests `f`. */
  ghost predicate SizeMeans(o: Outcome, f: Requests, r: Request, k: nat, h: Hasher)
    requires k > 0
  {
    var before, after := Kept(Names(f), k, h).Keys, Kept(Names(f + [r]), k, h).Keys;
    if r.id !in after then o.Skipped?
    else
      && !o.Skipped? && o.size == r.size && RateOf(o.rate, after, Elems(Names(f + [r])), k, h)
      && (o.Hit? <==> r.id in before)
      && (o.Hit? ==> LastUse(Names(f), r.id) >= 0
                     && ScaledTo(o.distance, o.rate, Since(f, before, LastUse(Names(f), r.id))))
  }

  lemma ShareOfSpace(v: int, rate: real)
    requires rate == v as real / HASH_SPACE as real
    ensures rate * 18446744073709551616.0 == v as real
  {
  }

  lemma SizeRateIs(m: map<int, int>, seen: set<int>, k: nat, h: Hasher)
    requires k > 0 && Smallest(m, seen, k, h) && Divisible(m, k)
    ensures RateOf(SizeRate(m, k), m.Keys, seen, k, h)
  {
    SmallestCard(m, seen, k, h);
    if |m| == k {
      var top := Top(m);
      ShareOfSpace(m[top], SizeRate(m, k));
      forall x | x in m ensures h(x) <= m[top] {
        TopIsMax(m, x);
      }
    }
  }

  lemma SizeOutcomeMeans(f: Requests, r: Request, k: nat, h: Hasher)
    requires k > 0 && Divisible(Kept(Names(f + [r]), k, h), k)
    ensures SizeMeans(SizeOutcome(f, r, k, h), f, r, k, h)
  {
    hide Kept, Distance, Scaled, ScaledTo, Names, LastUse, Since, Elems, SizeRate, RateOf, Divisible;
    var before, after := Kept(Names(f), k, h), Kept(Names(f + [r]), k, h);
    KeptSmallest(Names(f), k, h);
    KeptSmallest(Names(f + [r]), k, h);
    SizeRateIs(after, Elems(Names(f + [r])), k, h);
    LastUseSpec(Names(f), r.id);
    LastTimeSpec(f, r.id);
    if r.id in before {
      DistanceIs(f, before.Keys, r.id);
      ScaledIs(Since(f, before.Keys, LastUse(Names(f), r.id)), SizeRate(after, k));
    }
  }

  /** Every outcome of the fixed-size run means what it should. */
  lemma {:induction false} SizeOutcomesMean(trace: Requests, k: nat, h: Hasher, t: nat)
    requires t < |trace| && |Zeros(Names(trace), h)| < k
    ensures |SizeOutcomes(trace, k, h)| == |trace|
    ensures SizeMeans(SizeOutcomes(trace, k, h)[t], trace[..t], trace[t], k, h)
  {
    hide SizeOutcome, SizeMeans, Zeros, Names;
    SizeLength(trace, k, h);
    SizeOutcomeAt(trace, k, h, t);
    PrefixDivisible(trace, t + 1, k, h);
    assert trace[..t + 1] == trace[..t] + [trace[t]];
    SizeOutcomeMeans(trace[..t], trace[t], k, h);
  }

  lemma {:induction false} SizeOutcomeAt(trace: Requests, k: nat, h: Hasher, t: nat)
    requires t < |trace| && k > 0
    ensures |SizeOutcomes(trace, k, h)| == |trace|
    ensures SizeOutcomes(trace, k, h)[t] == SizeOutcome(trace[..t], trace[t], k, h)
  {
    hide SizeOutcome;
    var f := trace[..|trace| - 1];
    SizeLength(f, k, h);
    if t < |f| {
      SizeOutcomeAt(f, k, h, t);
      assert f[..t] == trace[..t];
    }
  }

  lemma {:induction false} SizeLength(trace: Requests, k: nat, h: Hasher)
    requires k > 0
    ensures |SizeOutcomes(trace, k, h)| == |trace|
  {
    hide SizeOutcome;
    if trace != [] {
      SizeLength(trace[..|trace| - 1], k, h);
    }
  }

  ghost function HashedBelow(seen: set<int>, v: real, h: Hasher): set<int> {
    set x <- seen | h(x) as real < v
  }

  ghost function HashedUpTo(seen: set<int>, v: real, h: Hasher): set<int> {
    set x <- seen | h(x) as real <= v
  }

  /** The rate of a full sample is the k-th smallest hash value seen, as a part of the space, whatever was kept. */
  lemma RateIsOrderStatistic(rate: real, kept: set<int>, seen: set<int>, k: nat, h: Hasher)
    requires RateOf(rate, kept, seen, k, h) && kept <= seen && |kept| == k <= |seen|
    ensures var v := rate * 18446744073709551616.0;
            |HashedBelow(seen, v, h)| < k <= |HashedUpTo(seen, v, h)| && exists x :: x in seen && h(x) as real == v
  {
    var v := rate * 18446744073709551616.0;
    var x :| x in kept && h(x) as real == v;
    forall y | y in HashedBelow(seen, v, h) ensures y in kept - {x} {
      assert y in seen && h(y) as real < v;
    }
    forall y | y in kept ensures y in HashedUpTo(seen, v, h) {
      assert y in seen && h(y) as real <= v;
    }
    SubsetCard(HashedBelow(seen, v, h), kept - {x});
    SubsetCard(kept, HashedUpTo(seen, v, h));
  }

  // ---------- the curves ----------

  /** The weight of the reuses within distance `c`: each counts for as many as its rate stands for. */
  function WeightUpTo(os: seq<Outcome>, c: int, bytes: bool): real {
    if os == [] then 0.0
    else
      var o := os[|os| - 1];
      WeightUpTo(os[..|os| - 1], c, bytes)
      + (if o.Hit? && o.distance <= c then (if bytes then o.size as real else 1.0) / o.rate else 0.0)
  }

  /** The weight of all sampled requests. */
  function Weight(os: seq<Outcome>, bytes: bool): real {
    if os == [] then 0.0
    else
      var o := os[|os| - 1];
      Weight(os[..|os| - 1], bytes) + (if o.Skipped? then 0.0 else (if bytes then o.size as real else 1.0) / o.rate)
  }

  function Bytes(trace: Requests): nat {
    if trace == [] then 0 else Bytes(trace[..|trace| - 1]) + trace[|trace| - 1].size
  }

  /** What sampling has missed of the requests or bytes of the trace. */
  function Missed(os: seq<Outcome>, trace: Requests, bytes: bool): real {
    (if bytes then Bytes(trace) else |trace|) as real - Weight(os, bytes)
  }

  /** `n` is `x` rounded towards zero. */
  predicate TowardsZero(n: int, x: real) {
    && (x >= 0.0 ==> 0 <= n && n as real <= x < (n + 1) as real)
    && (x <= 0.0 ==> n <= 0 && (n - 1) as real < x <= n as real)
  }

  /**
   The curve `a`: the first entry is what sampling has missed and the weight of the reuses within
   the first size; each further entry adds the weight between two sizes; all are rounded on the way.
   */
  ghost predicate IsCurve(a: seq<int>, os: seq<Outcome>, trace: Requests, sizes: seq<nat>, bytes: bool) {
    && |a| == |sizes|
    && (|sizes| > 0 ==> TowardsZero(a[0], Missed(os, trace, bytes) + WeightUpTo(os, sizes[0], bytes)))
    && forall i :: 1 <= i < |sizes| ==> CurveStep(a[i - 1], a[i], os, sizes[i - 1], sizes[i], bytes)
  }

  ghost predicate CurveStep(before: int, after: int, os: seq<Outcome>, low: nat, high: nat, bytes: bool) {
    TowardsZero(after, before as real + (WeightUpTo(os, high, bytes) - WeightUpTo(os, low, bytes)))
  }

  lemma TruncateIs(x: real)
    ensures TowardsZero(Truncate(x), x)
  {
  }

  lemma LowerBoundWithin(sizes: seq<nat>, d: int, i: nat)
    requires Ascending(sizes) && i < |sizes|
    ensures LowerBound(sizes, d) <= i <==> d <= sizes[i]
  {
  }

  lemma {:induction false} LocalWeight(os: seq<Outcome>, sizes: seq<nat>, i: nat, bytes: bool)
    requires Ascending(sizes) && i < |sizes|
    ensures Local(os, sizes, i, bytes) ==
            WeightUpTo(os, sizes[i], bytes) - (if i == 0 then 0.0 else WeightUpTo(os, sizes[i - 1], bytes))
  {
    hide Ascending;
    if os != [] {
      var o := os[|os| - 1];
      LocalWeight(os[..|os| - 1], sizes, i, bytes);
      if o.Hit? {
        LowerBoundWithin(sizes, o.distance, i);
        if i > 0 { LowerBoundWithin(sizes, o.distance, i - 1); }
      }
    }
  }

  lemma {:induction false} TotalWeight(os: seq<Outcome>, bytes: bool)
    ensures SampledTotal(os, bytes) == Weight(os, bytes)
  {
    if os != [] {
      TotalWeight(os[..|os| - 1], bytes);
    }
  }

  lemma {:induction false} RequestedIs(trace: Requests, bytes: bool)
    ensures Requested(trace, bytes) == if bytes then Bytes(trace) else |trace|
  {
    if trace != [] {
      RequestedIs(trace[..|trace| - 1], bytes);
    }
  }

  /** At any rate the computed numbers are the curve of the outcomes. */
  lemma CurveIs(os: seq<Outcome>, trace: Requests, sizes: seq<nat>, bytes: bool, a: seq<int>)
    requires Ascending(sizes) && |a| == |sizes| && forall i :: 0 <= i < |sizes| ==> a[i] == Curve(os, trace, sizes, i, bytes)
    ensures IsCurve(a, os, trace, sizes, bytes)
  {
    hide Local, Requested, SampledTotal, WeightUpTo, Missed, Truncate, TowardsZero;
    if |sizes| > 0 {
      CurveAt(os, trace, sizes, 0, bytes);
    }
    forall i | 1 <= i < |sizes| ensures CurveStep(a[i - 1], a[i], os, sizes[i - 1], sizes[i], bytes) {
      CurveAt(os, trace, sizes, i, bytes);
    }
  }

  lemma CurveAt(os: seq<Outcome>, trace: Requests, sizes: seq<nat>, i: nat, bytes: bool)
    requires Ascending(sizes) && i < |sizes|
    ensures i == 0 ==> TowardsZero(Curve(os, trace, sizes, 0, bytes), Missed(os, trace, bytes) + WeightUpTo(os, sizes[0], bytes))
    ensures i > 0 ==> CurveStep(Curve(os, trace, sizes, i - 1, bytes), Curve(os, trace, sizes, i, bytes),
                                os, sizes[i - 1], sizes[i], bytes)
  {
    hide Local, Requested, SampledTotal, WeightUpTo, Truncate, TowardsZero, Weight, Ascending;
    var all := Histo(os, trace, sizes, bytes);
    var a := all[..i + 1];
    LocalWeight(os, sizes, i, bytes);
    TotalWeight(os, bytes);
    RequestedIs(trace, bytes);
    assert a[..i] == all[..i];
    var before := if i == 0 then 0 else Curve(os, trace, sizes, i - 1, bytes);
    RunningLast(a, before);
    TruncateIs(before as real + a[i]);
  }

  lemma RunningLast(a: seq<real>, before: int)
    requires a != [] && before == (if |a| == 1 then 0 else Running(a[..|a| - 1]))
    ensures Running(a) == Truncate(before as real + a[|a| - 1])
  {
    assert |a| == 1 ==> a[..0] == [];
  }

  /** Each rounding loses less than 1: entry `i` of the curve is that close to the estimate without rounding. */
  lemma {:induction false} CurveNear(a: seq<int>, os: seq<Outcome>, trace: Requests, sizes: seq<nat>, bytes: bool, i: nat)
    requires IsCurve(a, os, trace, sizes, bytes) && i < |sizes|
    ensures var exact := Missed(os, trace, bytes) + WeightUpTo(os, sizes[i], bytes);
            exact - (i + 1) as real < a[i] as real < exact + (i + 1) as real
  {
    hide Missed, WeightUpTo;
    if i > 0 {
      CurveNear(a, os, trace, sizes, bytes, i - 1);
      assert CurveStep(a[i - 1], a[i], os, sizes[i - 1], sizes[i], bytes);
    }
  }

  // ---------- the runs ----------

  /** `fixed_sample_rate_run`, with the outcome of every request. */
  method SampleByRate(trace: Requests, sizes: seq<nat>, rate: Rate, h: Hasher)
    returns (hits: array<int>, bytes: array<int>, ghost os: seq<Outcome>)
    requires |sizes| > 0 && Ascending(sizes) && trace != []
    ensures |os| == |trace| && forall t :: 0 <= t < |trace| ==> RateMeans(os[t], trace[..t], trace[t], rate, h)
    ensures IsCurve(hits[..], os, trace, sizes, false) && IsCurve(bytes[..], os, trace, sizes, true)
  {
    hide Curve, RateOutcomes, RateMeans, IsCurve, Ascending;
    hits, bytes := FixedRate(trace, sizes, rate, h);
    os := RateOutcomes(trace, rate, h);
    RateLength(trace, rate, h);
    forall t | 0 <= t < |trace| ensures RateMeans(os[t], trace[..t], trace[t], rate, h) {
      RateOutcomesMean(trace, rate, h, t);
    }
    CurveIs(os, trace, sizes, false, hits[..]);
    CurveIs(os, trace, sizes, true, bytes[..]);
  }

  /** `fixed_sample_size_run`, with the outcome of every request. */
  method SampleBySize(trace: Requests, sizes: seq<nat>, k: nat, h: Hasher)
    returns (hits: array<int>, bytes: array<int>, ghost os: seq<Outcome>)
    requires |sizes| > 0 && Ascending(sizes) && trace != [] && |Zeros(Names(trace), h)| < k
    ensures |os| == |trace| && forall t :: 0 <= t < |trace| ==> SizeMeans(os[t], trace[..t], trace[t], k, h)
    ensures IsCurve(hits[..], os, trace, sizes, false) && IsCurve(bytes[..], os, trace, sizes, true)
  {
    hide Curve, SizeOutcomes, SizeMeans, IsCurve, Zeros, Ascending;
    hits, bytes := FixedSize(trace, sizes, k, h);
    os := SizeOutcomes(trace, k, h);
    SizeLength(trace, k, h);
    forall t | 0 <= t < |trace| ensures SizeMeans(os[t], trace[..t], trace[t], k, h) {
      SizeOutcomesMean(trace, k, h, t);
    }
    CurveIs(os, trace, sizes, false, hits[..]);
    CurveIs(os, trace, sizes, true, bytes[..]);
  }
}
