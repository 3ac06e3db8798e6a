/**
 Stack distances of a trace, as dist.c computes them with a splay tree of last-access times and
 a hash table from object to last-access time.

 The hash table stores timestamps as pointers and reads a null pointer as "absent", while the
 callers count time from 0. An object whose last access was at time 0 is therefore taken for new.
 */
module StackDistance {
  import opened SplayTree
  import opened Seqs
  import Sets

  type Trace = seq<int>

  // ---------- the meaning of a stack distance ----------

  /** The last position before `t` that requests the same object as position `t`, or -1. */
  function Prev(trace: Trace, t: nat): (p: int)
    requires t < |trace|
    ensures -1 <= p < t
    ensures p >= 0 ==> trace[p] == trace[t]
    ensures forall j :: p < j < t ==> trace[j] != trace[t]
  {
    LastUseSpec(trace[..t], trace[t]);
    LastUse(trace[..t], trace[t])
  }

  /** The last position of `id` in `s`, or -1. */
  function LastUse(s: Trace, id: int): (p: int)
    ensures -1 <= p < |s|
  {
    if s == [] then -1
    else if s[|s| - 1] == id then |s| - 1
    else LastUse(s[..|s| - 1], id)
  }

  lemma {:induction false} LastUseSpec(s: Trace, id: int)
    ensures var p := LastUse(s, id);
            (p >= 0 ==> s[p] == id) && (forall j :: p < j < |s| ==> s[j] != id) && (p >= 0 <==> id in Elems(s))
  {
    if s != [] && s[|s| - 1] != id {
      LastUseSpec(s[..|s| - 1], id);
      assert forall j :: 0 <= j < |s| - 1 ==> s[..|s| - 1][j] == s[j];
    }
  }

  /** The number of different objects requested since the previous access, or -1 on a first access. */
  function TrueDistance(trace: Trace, t: nat): int
    requires t < |trace|
  {
    if Prev(trace, t) < 0 then -1 else |Elems(trace[Prev(trace, t) + 1..t])|
  }

  // ---------- the state of the profiler and one request ----------

  /** The keys of the tree and the contents of the hash table. */
  datatype State = State(keys: set<int>, last: map<int, int>)

  /** `g_hash_table_lookup` returns a null pointer: no entry, or the timestamp 0. */
  predicate LooksAbsent(s: State, id: int) {
    id !in s.last || s.last[id] == 0
  }

  function DistanceOf(s: State, id: int): int {
    if LooksAbsent(s, id) then -1 else |set k <- s.keys | k > s.last[id]|
  }

  function Record(s: State, id: int, ts: int): State {
    State((if LooksAbsent(s, id) then s.keys else s.keys - {s.last[id]}) + {ts}, s.last[id := ts])
  }

  /** Every recorded time is in the tree, and no two objects share one. */
  ghost predicate Consistent(s: State) {
    && (forall id <- s.last :: s.last[id] in s.keys)
    && (forall a <- s.last, b <- s.last :: a != b ==> s.last[a] != s.last[b])
  }

  /** Splay the old time to the root and read the number of later ones off the right subtree. */
  method Rank(oldTs: int, root: Node?, ghost g: Tree, ghost fp: set<Node>) returns (dist: int, p: Node?)
    requires Valid(g, root) && fp == Nodes(g) && oldTs in KeySet(g)
    modifies fp
    ensures dist == |set k <- KeySet(g) | k > oldTs|
    ensures Valid(TopDown(oldTs, g), p) && Nodes(TopDown(oldTs, g)) == fp && KeySet(TopDown(oldTs, g)) == KeySet(g)
  {
    TopDownSplays(oldTs, g);
    ghost var s := TopDown(oldTs, g);
    RightCount(oldTs, s);
    p := Splay(oldTs, root, g, fp);
    SubtreeValue(s.right, p.right);
    dist := NodeValue(p.right);
  }

  /** Replace the old time by the new one. */
  method Move(oldTs: int, ts: int, root: Node?, ghost g: Tree, ghost fp: set<Node>)
    returns (p: Node, ghost g': Tree, ghost fp': set<Node>)
    requires Valid(g, root) && fp == Nodes(g)
    modifies fp
    ensures Valid(g', p) && fp' == Nodes(g') && fresh(fp' - fp) && KeySet(g') == KeySet(g) - {oldTs} + {ts}
  {
    var d, h := Delete(oldTs, root, g, fp);
    p, g', fp' := Insert(ts, d, h, Nodes(h));
  }

  class Profiler {
    var root: Node?
    var last: map<int, int>
    ghost var tree: Tree
    ghost var nodes: set<Node>

    ghost function Abstract(): State
      reads this
    {
      State(KeySet(tree), last)
    }

    ghost predicate Sound()
      reads this, nodes
    {
      nodes == Nodes(tree) && Valid(tree, root)
    }

    /** The profiler has been fed the trace `t` from time 0. */
    ghost predicate Tracking(t: Trace)
      reads this, nodes
    {
      Sound() && Abstract() == StateAfter(t)
    }

    constructor ()
      ensures Sound() && fresh(nodes) && Abstract() == State({}, map[])
    {
      root, last, tree, nodes := null, map[], Leaf, {};
    }

    /** `get_stack_dist_add_req`. */
    method AddRequest(id: int, ts: int) returns (dist: int, lastAccess: int)
      requires Sound() && Consistent(Abstract()) && forall k <- Abstract().keys :: k < ts
      modifies this, nodes
      ensures Sound() && fresh(nodes - old(nodes))
      ensures Abstract() == Record(old(Abstract()), id, ts)
      ensures dist == DistanceOf(old(Abstract()), id)
      ensures lastAccess == if LooksAbsent(old(Abstract()), id) then -1 else old(last[id])
    {
      hide Valid, TopDown, KeySet, Nodes;
      var found := if id in last then last[id] else 0;
      if found == 0 {
        dist, lastAccess := -1, -1;
        root, tree, nodes := Insert(ts, root, tree, nodes);
      } else {
        lastAccess := found;
        dist, root := Rank(found, root, tree, nodes);
        root, tree, nodes := Move(found, ts, root, TopDown(found, tree), nodes);
      }
      last := last[id := ts];
    }
  }

  // ---------- whole runs ----------

  /** The state after a trace replayed with timestamps 0, 1, 2, ... */
  function StateAfter(trace: Trace): State {
    if trace == [] then State({}, map[])
    else Record(StateAfter(trace[..|trace| - 1]), trace[|trace| - 1], |trace| - 1)
  }

  /** What the profiler reports for position `t`. */
  function Reported(trace: Trace, t: nat): int
    requires t < |trace|
  {
    DistanceOf(StateAfter(trace[..t]), trace[t])
  }

  lemma LastUseAppend(f: Trace, x: int)
    ensures forall id :: LastUse(f + [x], id) == if id == x then |f| else LastUse(f, id)
  {
    assert (f + [x])[..|f|] == f;
  }

  /** Recorded times are positions of the trace, different for different objects. */
  lemma LastUseDiffers(trace: Trace)
    ensures forall id <- Elems(trace) :: 0 <= LastUse(trace, id) && trace[LastUse(trace, id)] == id
  {
    forall id | id in Elems(trace) ensures 0 <= LastUse(trace, id) && trace[LastUse(trace, id)] == id {
      LastUseSpec(trace, id);
    }
  }

  /** The table holds exactly the last uses. */
  ghost predicate TableTracks(s: State, trace: Trace) {
    s.last.Keys == Elems(trace) && forall id <- Elems(trace) :: s.last[id] == LastUse(trace, id)
  }

  /** The tree holds the last uses too, and never loses the time 0. */
  ghost predicate TreeTracks(s: State, trace: Trace) {
    forall k :: k in s.keys <==> (k == 0 && trace != []) || (0 <= k < |trace| && LastUse(trace, trace[k]) == k)
  }

  lemma TracksAppend(s: State, f: Trace, x: int)
    requires TableTracks(s, f) && TreeTracks(s, f)
    ensures TableTracks(Record(s, x, |f|), f + [x]) && TreeTracks(Record(s, x, |f|), f + [x])
  {
    ElemsAppend(f, x);
    LastUseAppend(f, x);
    LastUseDiffers(f);
    var t, s' := f + [x], Record(s, x, |f|);
    forall k ensures k in s'.keys <==> (k == 0 && t != []) || (0 <= k < |t| && LastUse(t, t[k]) == k) {
      if 0 <= k < |f| {
        assert t[k] == f[k] && f[k] in Elems(f);
      }
    }
  }

  lemma {:induction false} RunTracks(trace: Trace)
    ensures TableTracks(StateAfter(trace), trace) && TreeTracks(StateAfter(trace), trace)
  {
    if trace != [] {
      var f, x := trace[..|trace| - 1], trace[|trace| - 1];
      RunTracks(f);
      TracksAppend(StateAfter(f), f, x);
      assert f + [x] == trace;
    }
  }

  lemma RunConsistent(trace: Trace)
    ensures Consistent(StateAfter(trace)) && forall k <- StateAfter(trace).keys :: 0 <= k < |trace|
  {
    RunTracks(trace);
    LastUseDiffers(trace);
  }

  /** Objects and their recorded times are equally many. */
  lemma {:induction false} LastUseCard(f: Trace, ids: set<int>, keys: set<int>)
    requires ids <= Elems(f) && forall k :: k in keys <==> 0 <= k < |f| && f[k] in ids && LastUse(f, f[k]) == k
    ensures |keys| == |ids|
    decreases ids
  {
    LastUseDiffers(f);
    if ids == {} {
      assert forall k :: k !in keys;
    } else {
      var x := Sets.Pick(ids);
      LastUseCard(f, ids - {x}, keys - {LastUse(f, x)});
    }
  }

  /** The recorded times after `p` are as many as the objects used after `p`. */
  lemma LaterUses(f: Trace, p: nat, keys: set<int>)
    requires p < |f| && forall k :: k in keys <==> p < k < |f| && LastUse(f, f[k]) == k
    ensures |keys| == |Elems(f[p + 1..])|
  {
    var later := f[p + 1..];
    LastUseDiffers(f);
    forall id ensures id in Elems(later) <==> LastUse(f, id) > p {
      LastUseSpec(f, id);
      var l := LastUse(f, id);
      if l > p { assert later[l - p - 1] == id; }
    }
    assert Elems(later) <= Elems(f);
    forall k | 0 <= k < |f| ensures k in keys <==> f[k] in Elems(later) && LastUse(f, f[k]) == k {
      assert f[k] in Elems(f);
    }
    LastUseCard(f, Elems(later), keys);
  }

  /**
   The profiler reports the true stack distance of every request except one: the second
   access to the first object of the trace, which it reports as a first access.
   */
  lemma DistanceTheorem(trace: Trace, t: nat)
    requires t < |trace|
    ensures Reported(trace, t) == if Prev(trace, t) == 0 then -1 else TrueDistance(trace, t)
  {
    var f, id := trace[..t], trace[t];
    RunTracks(f);
    LastUseSpec(f, id);
    var p := LastUse(f, id);
    if p > 0 {
      assert f[p + 1..] == trace[p + 1..t];
      LaterUses(f, p, set k <- StateAfter(f).keys | k > p);
    }
  }

  /** A trace on which the report is wrong: the same object requested twice. */
  lemma FirstObjectMisreported()
    ensures Reported([7, 7], 1) == -1 && TrueDistance([7, 7], 1) == 0
  {
    DistanceTheorem([7, 7], 1);
    assert [7, 7][..1] == [7];
    assert LastUse([7], 7) == 0;
    assert [7, 7][1..1] == [];
    assert Elems<int>([]) == {};
  }

  // ---------- the distance arrays ----------

  const UINT32_MAX := 0xFFFF_FFFF

  /** The conversion of a distance of at most `UINT32_MAX` to the 32-bit array element. */
  function ToInt32(d: int): int {
    if d < 0x8000_0000 then d else d - 0x1_0000_0000
  }

  lemma StateAppend(trace: Trace, t: nat)
    requires t < |trace|
    ensures StateAfter(trace[..t + 1]) == Record(StateAfter(trace[..t]), trace[t], t)
  {
    assert trace[..t + 1][..t] == trace[..t];
  }

  /** One round of the trace loops: request number `ts` of the trace. */
  method Feed(p: Profiler, trace: Trace, ts: nat) returns (dist: int, lastAccess: int)
    requires ts < |trace| && p.Tracking(trace[..ts])
    modifies p, p.nodes
    ensures p.Tracking(trace[..ts + 1]) && fresh(p.nodes - old(p.nodes))
    ensures dist == Reported(trace, ts)
    ensures lastAccess == if Prev(trace, ts) == 0 then -1 else Prev(trace, ts)
  {
    RunConsistent(trace[..ts]);
    RunTracks(trace[..ts]);
    LastUseSpec(trace[..ts], trace[ts]);
    StateAppend(trace, ts);
    dist, lastAccess := p.AddRequest(trace[ts], ts);
  }

  /** All reports of a run. */
  function Reports(trace: Trace): (r: seq<int>)
    ensures |r| == |trace|
  {
    if trace == [] then []
    else var n := |trace| - 1; Reports(trace[..n]) + [DistanceOf(StateAfter(trace[..n]), trace[n])]
  }

  lemma {:induction false} ReportsAt(trace: Trace, t: nat)
    requires t < |trace|
    ensures Reports(trace)[t] == Reported(trace, t)
  {
    var n := |trace| - 1;
    if t < n {
      ReportsAt(trace[..n], t);
      assert trace[..n][..t] == trace[..t];
    }
  }

  lemma {:induction false} ReportsPrefix(trace: Trace, ts: nat)
    requires ts <= |trace|
    ensures Reports(trace[..ts]) <= Reports(trace)
  {
    if ts == |trace| {
      assert trace[..ts] == trace;
    } else {
      ReportsPrefix(trace[..|trace| - 1], ts);
      assert trace[..|trace| - 1][..ts] == trace[..ts];
    }
  }

  lemma ReportsAppend(trace: Trace, ts: nat)
    requires ts < |trace|
    ensures Reports(trace[..ts + 1]) == Reports(trace[..ts]) + [Reported(trace, ts)]
  {
    assert trace[..ts + 1][..ts] == trace[..ts];
  }

  /** The 32-bit array that holds the distances `ds`. */
  function Narrow(ds: seq<int>): (a: seq<int>)
    ensures |a| == |ds|
  {
    seq(|ds|, t requires 0 <= t < |ds| => ToInt32(ds[t]))
  }

  predicate Fit(ds: seq<int>) {
    forall t :: 0 <= t < |ds| ==> ds[t] <= UINT32_MAX
  }

  lemma FitAppend(ds: seq<int>, d: int)
    ensures Fit(ds + [d]) <==> Fit(ds) && d <= UINT32_MAX
    ensures Narrow(ds + [d]) == Narrow(ds) + [ToInt32(d)]
  {
    var e := ds + [d];
    assert e[|ds|] == d && forall t :: 0 <= t < |ds| ==> e[t] == ds[t];
  }

  /**
   The guard lets distances through that 32 bits with a sign cannot hold: the array keeps the
   distances exactly when all are below 2^31, and the largest one let through reads as -1, the mark
   of a first access.
   */
  lemma NarrowExact(ds: seq<int>)
    ensures Narrow(ds) == ds <==> forall t :: 0 <= t < |ds| ==> ds[t] < 0x8000_0000
    ensures UINT32_MAX in ds ==> -1 in Narrow(ds)
    ensures forall t :: 0 <= t < |ds| && 0 <= ds[t] < 0x1_0000_0000 ==>
              -0x8000_0000 <= Narrow(ds)[t] < 0x8000_0000 && (ds[t] - Narrow(ds)[t]) % 0x1_0000_0000 == 0
  {
    var a := Narrow(ds);
    forall t | 0 <= t < |ds| ensures a[t] == ds[t] <==> ds[t] < 0x8000_0000 {
    }
    if UINT32_MAX in ds {
      var t :| 0 <= t < |ds| && ds[t] == UINT32_MAX;
      assert a[t] == -1;
    }
  }

  /** A round of the loop of `get_stack_dist` for `STACK_DIST`. */
  method FeedStack(p: Profiler, trace: Trace, ts: nat, dists: array<int>, ghost ds: seq<int>)
    returns (ok: bool, ghost ds': seq<int>)
    requires ts < |trace| == dists.Length && p.Tracking(trace[..ts]) && ds == Reports(trace[..ts])
    modifies p, p.nodes, dists
    ensures p.Tracking(trace[..ts + 1]) && fresh(p.nodes - old(p.nodes))
    ensures ds' == Reports(trace[..ts + 1]) && (Fit(ds') <==> Fit(ds) && ok)
    ensures old(dists[..ts]) == Narrow(ds) ==> dists[..ts + 1] == Narrow(ds')
  {
    hide Valid, KeySet, Nodes, Reports, Record, Narrow, Fit;
    var dist, lastAccess := Feed(p, trace, ts);
    ReportsAppend(trace, ts);
    FitAppend(ds, dist);
    ds' := ds + [dist];
    ok := dist <= UINT32_MAX;
    dists[ts] := ToInt32(dist);
    assert dists[..ts + 1] == old(dists[..ts]) + [ToInt32(dist)];
  }

  /** `get_stack_dist` with `STACK_DIST`; a distance that does not fit 32 bits aborts the run. */
  method StackDistances(trace: Trace) returns (ok: bool, dists: array<int>)
    ensures ok <==> Fit(Reports(trace))
    ensures ok ==> dists[..] == Narrow(Reports(trace))
  {
    hide Narrow, Fit, Reports, Record, Valid, KeySet, Nodes;
    Unfit(trace, 0);
    dists := new int[|trace|];
    var p := new Profiler();
    var ts := 0;
    ghost var ds := [];
    ok := true;
    while ts < |trace| && ok
      invariant 0 <= ts <= |trace| && fresh(p) && fresh(p.nodes) && p.Tracking(trace[..ts])
      invariant ds == Reports(trace[..ts]) && (ok <==> Fit(ds))
      invariant dists[..ts] == Narrow(ds)
    {
      ok, ds := FeedStack(p, trace, ts, dists, ds);
      ts := ts + 1;
    }
    Unfit(trace, ts);
    assert ts == |trace| ==> trace[..ts] == trace && dists[..ts] == dists[..];
  }

  /** A distance that does not fit makes the whole run fail. */
  lemma Unfit(trace: Trace, ts: nat)
    requires ts <= |trace|
    ensures !Fit(Reports(trace[..ts])) ==> !Fit(Reports(trace))
    ensures Fit([]) && Narrow([]) == []
  {
    ReportsPrefix(trace, ts);
  }

  /** The first position after `t` that requests the same object, or -1. */
  function Next(trace: Trace, t: nat): (n: int)
    requires t < |trace|
    ensures n == -1 || (t < n < |trace| && Prev(trace, n) == t)
  {
    NextFrom(trace, t, t + 1)
  }

  function NextFrom(trace: Trace, t: nat, m: nat): (n: int)
    requires t < m <= |trace| && forall j :: t < j < m ==> trace[j] != trace[t]
    ensures n == -1 || (m <= n < |trace| && Prev(trace, n) == t)
    decreases |trace| - m
  {
    if m == |trace| then -1
    else if trace[m] == trace[t] then
      assert Prev(trace, m) == t by { assert Prev(trace, m) >= t by { PrevAtLeast(trace, t, m); } }
      m
    else NextFrom(trace, t, m + 1)
  }

  lemma PrevAtLeast(trace: Trace, t: nat, m: nat)
    requires t < m < |trace| && trace[t] == trace[m]
    ensures Prev(trace, m) >= t
  {
  }

  /** The next access of `t` is the only position whose previous access is `t`. */
  lemma {:induction false} NextUnique(trace: Trace, t: nat, n: nat)
    requires t < n < |trace| && Prev(trace, n) == t
    ensures Next(trace, t) == n
  {
    NextFromUnique(trace, t, t + 1, n);
  }

  lemma {:induction false} NextFromUnique(trace: Trace, t: nat, m: nat, n: nat)
    requires t < m <= n < |trace| && Prev(trace, n) == t
    requires forall j :: t < j < m ==> trace[j] != trace[t]
    ensures NextFrom(trace, t, m) == n
    decreases n - m
  {
    if m < n {
      NextFromUnique(trace, t, m + 1, n);
    }
  }

  /**
   The array `get_stack_dist` builds for `FUTURE_STACK_DIST`: at each position the distance
   reported for the next access to its object, or -1 if there is none.
   */
  function FutureArray(trace: Trace): (a: seq<int>)
    ensures |a| == |trace|
  {
    seq(|trace|, t requires 0 <= t < |trace| =>
      if Next(trace, t) < 0 then -1 else ToInt32(Reports(trace)[Next(trace, t)]))
  }

  /** An object that is not requested again has -1, any other the report of its next request, in 32 bits. */
  lemma FutureIs(trace: Trace, t: nat, n: nat)
    requires t < |trace|
    ensures (forall j :: t < j < |trace| ==> trace[j] != trace[t]) ==> FutureArray(trace)[t] == -1
    ensures t < n < |trace| && trace[n] == trace[t] && (forall j :: t < j < n ==> trace[j] != trace[t])
            ==> FutureArray(trace)[t] == ToInt32(Reported(trace, n))
  {
    if t < n < |trace| && trace[n] == trace[t] && (forall j :: t < j < n ==> trace[j] != trace[t]) {
      PrevIs(trace, t, n);
      NextUnique(trace, t, n);
      ReportsAt(trace, n);
    }
  }

  lemma PrevIs(trace: Trace, t: nat, n: nat)
    requires t < n < |trace| && trace[n] == trace[t] && (forall j :: t < j < n ==> trace[j] != trace[t])
    ensures Prev(trace, n) == t
  {
    PrevAtLeast(trace, t, n);
  }

  /** The part of `target` that the positions before `ts` have filled in. */
  function Filled(trace: Trace, target: seq<int>, ts: nat): (a: seq<int>)
    requires |target| == |trace|
    ensures |a| == |trace|
  {
    seq(|trace|, t requires 0 <= t < |trace| => if Next(trace, t) < ts then target[t] else -1)
  }

  /** Storing the report of position `ts` at its previous access is what the future array asks for. */
  lemma FilledStep(trace: Trace, ts: nat)
    requires ts < |trace|
    ensures var p, a := Prev(trace, ts), FutureArray(trace);
            Filled(trace, a, ts + 1) ==
            if p <= 0 then Filled(trace, a, ts) else Filled(trace, a, ts)[p := ToInt32(Reported(trace, ts))]
  {
    var p, a := Prev(trace, ts), FutureArray(trace);
    if p >= 0 {
      NextUnique(trace, p, ts);
      ReportsAt(trace, ts);
      DistanceTheorem(trace, ts);
    }
    forall t | 0 <= t < |trace| ensures Next(trace, t) == ts <==> t == p {
    }
  }

  lemma FilledEnds(trace: Trace)
    ensures Filled(trace, FutureArray(trace), 0) == seq(|trace|, _ => -1)
    ensures Filled(trace, FutureArray(trace), |trace|) == FutureArray(trace)
  {
  }

  /** A round of the loop of `get_stack_dist` for `FUTURE_STACK_DIST`. */
  method FeedFuture(p: Profiler, trace: Trace, ts: nat, dists: array<int>, ghost ds: seq<int>)
    returns (ok: bool, ghost ds': seq<int>)
    requires ts < |trace| == dists.Length && p.Tracking(trace[..ts]) && ds == Reports(trace[..ts])
    requires dists[..] == Filled(trace, FutureArray(trace), ts)
    modifies p, p.nodes, dists
    ensures p.Tracking(trace[..ts + 1]) && fresh(p.nodes - old(p.nodes))
    ensures ds' == Reports(trace[..ts + 1]) && (Fit(ds') <==> Fit(ds) && ok)
    ensures dists[..] == Filled(trace, FutureArray(trace), ts + 1)
  {
    hide Valid, KeySet, Nodes, LastUse, Next, Reports, Prev;
    var dist, lastAccess := Feed(p, trace, ts);
    ReportsAppend(trace, ts);
    FitAppend(ds, dist);
    FilledStep(trace, ts);
    ds' := ds + [dist];
    ok := dist <= UINT32_MAX;
    if lastAccess != -1 {
      dists[lastAccess] := ToInt32(dist);
      assert dists[..] == old(dists[..])[lastAccess := ToInt32(dist)];
    }
  }

  /** `get_stack_dist` with `FUTURE_STACK_DIST`: the distance is stored at the position of the last access. */
  method FutureDistances(trace: Trace) returns (ok: bool, dists: array<int>)
    ensures ok <==> Fit(Reports(trace))
    ensures ok ==> dists[..] == FutureArray(trace)
  {
    hide Next, Reports, Record, Fit, Filled, FutureArray, Valid, KeySet, Nodes;
    dists := new int[|trace|](i => -1);
    FilledEnds(trace);
    Unfit(trace, 0);
    var p := new Profiler();
    var ts := 0;
    ghost var ds := [];
    ok := true;
    while ts < |trace| && ok
      invariant 0 <= ts <= |trace| && fresh(p) && fresh(p.nodes) && p.Tracking(trace[..ts])
      invariant ds == Reports(trace[..ts]) && (ok <==> Fit(ds))
      invariant dists[..] == Filled(trace, FutureArray(trace), ts)
    {
      ok, ds := FeedFuture(p, trace, ts, dists, ds);
      ts := ts + 1;
    }
    Unfit(trace, ts);
    assert ts == |trace| ==> trace[..ts] == trace;
  }
}
