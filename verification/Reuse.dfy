/**
 The pair of structures with which mrcProfiler.cpp measures reuse distances: the last access time
 of every tracked object, and a splay tree from these times to the object sizes.
 */
module Reuse {
  import opened BottomUpSplay
  import opened StackDistance
  import opened Seqs

  datatype Request = Request(id: int, size: nat)

  type Requests = seq<Request>

  function Names(f: Requests): (s: Trace)
    ensures |s| == |f|
  {
    seq(|f|, i requires 0 <= i < |f| => f[i].id)
  }

  lemma NamesAppend(f: Requests, r: Request)
    ensures Names(f + [r]) == Names(f) + [r.id]
  {
  }

  /** The time of the last access to `id`, counted from 1; 0 if there is none. */
  function LastTime(f: Requests, id: int): (t: nat)
    ensures t <= |f|
  {
    LastUse(Names(f), id) + 1
  }

  function Times(f: Requests, ids: set<int>): set<int> {
    set id <- ids :: LastTime(f, id)
  }

  /** The requests between two times whose time is in `times`, as tree items. */
  function Select(f: Requests, lo: nat, hi: nat, times: set<int>): seq<Item>
    requires lo <= hi <= |f|
    decreases hi - lo
  {
    if lo == hi then []
    else (if lo + 1 in times then [Item(lo + 1, f[lo].size)] else []) + Select(f, lo + 1, hi, times)
  }

  /**
   The reuse distance of an object: the sizes of all tracked objects accessed at or after its last
   access, itself included, each at its own last access.
   */
  function Distance(f: Requests, ids: set<int>, id: int): int
    requires LastTime(f, id) > 0
  {
    Total(Select(f, LastTime(f, id) - 1, |f|, Times(f, ids)))
  }

  lemma {:induction false} SelectRange(f: Requests, lo: nat, hi: nat, times: set<int>)
    requires lo <= hi <= |f|
    ensures AllAbove(Select(f, lo, hi, times), lo) && AllBelow(Select(f, lo, hi, times), hi + 1)
    decreases hi - lo
  {
    if lo < hi {
      SelectRange(f, lo + 1, hi, times);
    }
  }

  lemma {:induction false} SelectSplit(f: Requests, lo: nat, mid: nat, hi: nat, times: set<int>)
    requires lo <= mid <= hi <= |f|
    ensures Select(f, lo, hi, times) == Select(f, lo, mid, times) + Select(f, mid, hi, times)
    decreases mid - lo
  {
    if lo < mid {
      SelectSplit(f, lo + 1, mid, hi, times);
    }
  }

  lemma {:induction false} SelectSame(f: Requests, g: Requests, lo: nat, hi: nat, a: set<int>, b: set<int>)
    requires lo <= hi <= |f| && hi <= |g| && f[..hi] == g[..hi]
    requires forall t :: lo < t <= hi ==> (t in a <==> t in b)
    ensures Select(f, lo, hi, a) == Select(g, lo, hi, b)
    decreases hi - lo
  {
    if lo < hi {
      assert f[lo] == f[..hi][lo] && g[lo] == g[..hi][lo];
      SelectSame(f, g, lo + 1, hi, a, b);
    }
  }

  lemma SelectAtLeast(f: Requests, p: nat, times: set<int>)
    requires 1 <= p <= |f|
    ensures AtLeast(Select(f, 0, |f|, times), p) == Select(f, p - 1, |f|, times)
  {
    var a, b := Select(f, 0, p - 1, times), Select(f, p - 1, |f|, times);
    SelectSplit(f, 0, p - 1, |f|, times);
    SelectRange(f, 0, p - 1, times);
    SelectRange(f, p - 1, |f|, times);
    FilterConcat(a, b, p);
    FilterBelow(a, p);
    FilterAbove(b, p);
  }

  lemma SelectOne(f: Requests, lo: nat, times: set<int>)
    requires lo < |f|
    ensures Select(f, lo, lo + 1, times) == if lo + 1 in times then [Item(lo + 1, f[lo].size)] else []
  {
    assert Select(f, lo + 1, lo + 1, times) == [];
  }

  /** The items before, at and after the time `p`. */
  lemma SelectAround(f: Requests, p: nat, times: set<int>) returns (a: seq<Item>, m: seq<Item>, b: seq<Item>)
    requires 1 <= p <= |f|
    ensures Select(f, 0, |f|, times) == a + (m + b)
    ensures a == Select(f, 0, p - 1, times) && b == Select(f, p, |f|, times)
    ensures m == if p in times then [Item(p, f[p - 1].size)] else []
  {
    a, m, b := Select(f, 0, p - 1, times), Select(f, p - 1, p, times), Select(f, p, |f|, times);
    SelectOne(f, p - 1, times);
    SelectSplit(f, 0, p - 1, |f|, times);
    SelectSplit(f, p - 1, p, |f|, times);
  }

  lemma SelectWithout(f: Requests, p: nat, times: set<int>)
    requires 1 <= p <= |f|
    ensures Select(f, 0, |f|, times - {p}) == Select(f, 0, p - 1, times) + Select(f, p, |f|, times)
  {
    var less := times - {p};
    SelectSplit(f, 0, p - 1, |f|, less);
    SelectSplit(f, p - 1, p, |f|, less);
    SelectOne(f, p - 1, less);
    SelectSame(f, f, 0, p - 1, times, less);
    SelectSame(f, f, p, |f|, times, less);
    assert Select(f, p - 1, |f|, less) == Select(f, p, |f|, times);
  }

  lemma SelectRemove(f: Requests, p: nat, times: set<int>)
    requires 1 <= p <= |f|
    ensures var s := Select(f, 0, |f|, times); Below(s, p) + Beyond(s, p) == Select(f, 0, |f|, times - {p})
  {
    SelectWithout(f, p, times);
    SelectRange(f, 0, p - 1, times);
    SelectRange(f, p, |f|, times);
    var a, m, b := SelectAround(f, p, times);
    CutMiddle(a, m, b, p);
  }

  lemma CutMiddle(a: seq<Item>, m: seq<Item>, b: seq<Item>, p: int)
    requires AllBelow(a, p) && AllAbove(b, p) && (m == [] || (|m| == 1 && m[0].key == p))
    ensures var s := a + (m + b); Below(s, p) + Beyond(s, p) == a + b
  {
    if m == [] {
      assert m + b == b;
      SplitBetween(a, b, p);
    } else {
      assert a + (m + b) == a + [m[0]] + b;
      SplitAt(a, m[0], b);
    }
  }

  /** Storing a request later than everything in the tree. */
  lemma SelectAppend(f: Requests, r: Request, times: set<int>)
    requires |f| + 1 !in times
    ensures var s, k := Select(f, 0, |f|, times), |f| + 1;
            && s == Below(s, k) + Beyond(s, k)
            && Below(s, k) + [Item(k, r.size)] + Beyond(s, k) == Select(f + [r], 0, k, times + {k})
  {
    var s, g, k := Select(f, 0, |f|, times), f + [r], |f| + 1;
    SelectRange(f, 0, |f|, times);
    FilterBelow(s, k);
    assert AllBelow(s, k + 1);
    FilterBelow(s, k + 1);
    SelectSplit(g, 0, |f|, k, times + {k});
    assert g[..|f|] == f && f[..|f|] == f;
    SelectSame(g, f, 0, |f|, times + {k}, times);
    assert Select(g, |f|, k, times + {k}) == [Item(k, r.size)];
  }

  /** A request for an untracked object leaves the tree as it is. */
  lemma SelectSkip(f: Requests, r: Request, times: set<int>)
    requires |f| + 1 !in times
    ensures Select(f + [r], 0, |f| + 1, times) == Select(f, 0, |f|, times)
  {
    var g := f + [r];
    SelectSplit(g, 0, |f|, |f| + 1, times);
    assert g[..|f|] == f && f[..|f|] == f;
    SelectSame(g, f, 0, |f|, times, times);
    assert Select(g, |f|, |f| + 1, times) == [];
  }

  // ---------- last access times ----------

  lemma LastTimeAppend(f: Requests, r: Request)
    ensures forall id :: LastTime(f + [r], id) == if id == r.id then |f| + 1 else LastTime(f, id)
  {
    NamesAppend(f, r);
    LastUseAppend(Names(f), r.id);
  }

  lemma LastTimeSpec(f: Requests, id: int)
    ensures LastTime(f, id) > 0 <==> id in Elems(Names(f))
    ensures LastTime(f, id) > 0 ==> f[LastTime(f, id) - 1].id == id
  {
    LastUseSpec(Names(f), id);
  }

  /** Every tracked object has been accessed. */
  ghost predicate Seen(f: Requests, ids: set<int>) {
    ids <= Elems(Names(f))
  }

  lemma TimesRemove(f: Requests, ids: set<int>, id: int)
    requires Seen(f, ids) && id in ids
    ensures Times(f, ids - {id}) == Times(f, ids) - {LastTime(f, id)}
  {
    var a, b := Times(f, ids - {id}), Times(f, ids) - {LastTime(f, id)};
    forall x | x in ids ensures LastTime(f, x) > 0 && f[LastTime(f, x) - 1].id == x {
      LastTimeSpec(f, x);
    }
    assert forall t :: t in a <==> t in b;
  }

  lemma TimesAppend(f: Requests, ids: set<int>, r: Request)
    requires r.id !in ids
    ensures Times(f + [r], ids) == Times(f, ids) && Times(f + [r], ids + {r.id}) == Times(f, ids) + {|f| + 1}
    ensures |f| + 1 !in Times(f, ids)
  {
    LastTimeAppend(f, r);
    var g := f + [r];
    assert forall t :: t in Times(g, ids) <==> t in Times(f, ids);
    assert LastTime(g, r.id) == |f| + 1;
    assert forall t :: t in Times(g, ids + {r.id}) <==> t in Times(f, ids) + {|f| + 1};
  }

  lemma SeenAppend(f: Requests, ids: set<int>, r: Request)
    requires Seen(f, ids)
    ensures Seen(f + [r], ids) && Seen(f + [r], ids + {r.id})
  {
    NamesAppend(f, r);
    ElemsAppend(Names(f), r.id);
  }

  // ---------- the two structures ----------

  /** The requests so far, the times in the table and the items in the tree. */
  datatype Log = Log(requests: Requests, last: map<int, int>, items: seq<Item>)

  /** The table holds the last access times of its objects, the tree the same times with the sizes. */
  ghost predicate Faithful(l: Log) {
    && Seen(l.requests, l.last.Keys)
    && (forall id <- l.last :: l.last[id] == LastTime(l.requests, id))
    && l.items == Select(l.requests, 0, |l.requests|, Times(l.requests, l.last.Keys))
  }

  type FaithfulLog = l: Log | Faithful(l) ghost witness Log([], map[], [])

  /** Forgetting an object. */
  lemma Dropped(l: FaithfulLog, id: int)
    requires id in l.last
    ensures var p := l.last[id]; Faithful(Log(l.requests, l.last - {id}, Below(l.items, p) + Beyond(l.items, p)))
  {
    var f := l.requests;
    LastTimeSpec(f, id);
    TimesRemove(f, l.last.Keys, id);
    SelectRemove(f, l.last[id], Times(f, l.last.Keys));
    assert (l.last - {id}).Keys == l.last.Keys - {id};
  }

  /** Entering an object that is not tracked, at the current time. */
  lemma Entered(l: FaithfulLog, r: Request)
    requires r.id !in l.last
    ensures var s, k := l.items, |l.requests| + 1;
            && s == Below(s, k) + Beyond(s, k)
            && Faithful(Log(l.requests + [r], l.last[r.id := k], Below(s, k) + [Item(k, r.size)] + Beyond(s, k)))
  {
    var f, ids := l.requests, l.last.Keys;
    TimesAppend(f, ids, r);
    SelectAppend(f, r, Times(f, ids));
    SeenAppend(f, ids, r);
    LastTimeAppend(f, r);
    assert l.last[r.id := |f| + 1].Keys == ids + {r.id};
  }

  /** A request that is not sampled. */
  lemma Ignored(l: FaithfulLog, r: Request)
    requires r.id !in l.last
    ensures Faithful(Log(l.requests + [r], l.last, l.items))
  {
    var f, ids := l.requests, l.last.Keys;
    TimesAppend(f, ids, r);
    SelectSkip(f, r, Times(f, ids));
    SeenAppend(f, ids, r);
    LastTimeAppend(f, r);
  }

  lemma Measured(l: FaithfulLog, id: int)
    requires id in l.last
    ensures LastTime(l.requests, id) > 0
    ensures Total(AtLeast(l.items, l.last[id])) == Distance(l.requests, l.last.Keys, id)
  {
    LastTimeSpec(l.requests, id);
    SelectAtLeast(l.requests, l.last[id], Times(l.requests, l.last.Keys));
  }

  class Tracker {
    var last: map<int, int>
    const tree: Splay
    ghost var log: FaithfulLog
    ghost var repr: set<Node>

    /** The table and the tree are those of the log, after the requests `f`. */
    ghost predicate Tracking(f: Requests)
      reads this, tree, repr
    {
      tree.nodes <= repr && tree.Valid() && log == Log(f, last, tree.View())
    }

    constructor ()
      ensures Tracking([]) && fresh(tree) && fresh(repr) && last == map[]
    {
      last := map[];
      tree := new Splay();
      log := Log([], map[], []);
      repr := {};
    }

    /** The distance of an object that has been accessed before. */
    method Measure(id: int, ghost f: Requests) returns (d: int)
      requires Tracking(f) && id in last
      ensures LastTime(f, id) > 0 && d == Distance(f, last.Keys, id)
    {
      Measured(log, id);
      d := tree.Distance(last[id]);
    }

    /** Forget an object: its time leaves the tree, then its entry leaves the table. */
    method Drop(id: int, ghost f: Requests)
      requires Tracking(f) && id in last
      modifies this, tree, repr
      ensures Tracking(f) && last == old(last) - {id} && last.Keys == old(last.Keys) - {id} && repr == old(repr)
    {
      Dropped(log, id);
      tree.Erase(last[id]);
      last := last - {id};
      log := Log(f, last, tree.View());
    }

    /** Enter an object that is not tracked, at the current time. */
    method Enter(r: Request, time: int, ghost f: Requests)
      requires Tracking(f) && r.id !in last && time == |f| + 1
      modifies this, tree, repr
      ensures Tracking(f + [r]) && last == old(last)[r.id := time] && fresh(repr - old(repr))
    {
      hide Faithful, Below, AtLeast, Items, Splay.Valid;
      Entered(log, r);
      last := last[r.id := time];
      tree.Insert(time, r.size);
      log := Log(f + [r], last, tree.View());
      repr := repr + tree.nodes;
    }

    /** A request that is not sampled changes nothing. */
    ghost method Ignore(r: Request, f: Requests)
      requires Tracking(f) && r.id !in last
      modifies this`log
      ensures Tracking(f + [r])
    {
      Ignored(log, r);
      log := Log(f + [r], last, log.items);
    }
  }
}
