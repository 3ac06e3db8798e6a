/**
 The sample of the fixed-size profiler: which objects `fixed_sample_size_run` tracks, as a function
 of the objects requested so far.
 */
module BottomK {
  import opened MinValueMap
  import opened StackDistance
  import opened Seqs
  import Sets

  const HASH_SPACE := 0x1_0000_0000_0000_0000

  type HashValue = v: int | 0 <= v < HASH_SPACE

  type Hasher = int -> HashValue

  /** A request for `id`: a tracked object changes nothing, another one is offered to the map. */
  ghost function Offer(m: map<int, int>, k: nat, id: int, value: int): map<int, int>
    requires k > 0
  {
    if id !in m && Admits(m, k, value) then Taken(m, k, id, value) else m
  }

  /** The tracked objects and their hash values after the requests `ids`. */
  ghost function Kept(ids: Trace, k: nat, h: Hasher): map<int, int>
    requires k > 0
  {
    if ids == [] then map[]
    else Offer(Kept(ids[..|ids| - 1], k, h), k, ids[|ids| - 1], h(ids[|ids| - 1]))
  }

  /** `m` holds `k` objects of `seen` with the smallest hash values, or all of them. */
  ghost predicate Smallest(m: map<int, int>, seen: set<int>, k: nat, h: Hasher) {
    && m.Keys <= seen
    && (forall x <- m :: m[x] == h(x))
    && |m| <= k && (|m| < k ==> m.Keys == seen)
    && (forall x <- m, y <- seen :: y in m || h(x) <= h(y))
  }

  lemma TopIsMax(m: map<int, int>, x: int)
    requires x in m
    ensures m[x] <= m[Top(m)]
  {
    assert Pair(m[x], x) in Pairs(m);
  }

  lemma TakenCard(m: map<int, int>, k: nat, id: int, value: int)
    requires k > 0 && |m| <= k && id !in m
    ensures |Taken(m, k, id, value)| == if |m| < k then |m| + 1 else k
  {
    var a := m[id := value];
    assert a.Keys == m.Keys + {id};
    assert |a| == |a.Keys| && |m| == |m.Keys|;
    if |m| >= k {
      var b := a - {Top(m)};
      assert b.Keys == a.Keys - {Top(m)};
      assert |b| == |b.Keys|;
    }
  }

  lemma OfferRefused(m: map<int, int>, seen: set<int>, k: nat, id: int, h: Hasher)
    requires k > 0 && Smallest(m, seen, k, h) && (id in m || !Admits(m, k, h(id)))
    ensures Smallest(m, seen + {id}, k, h)
  {
    if id in m {
      assert seen + {id} == seen;
    } else {
      forall x | x in m ensures h(x) <= h(id) {
        TopIsMax(m, x);
      }
    }
  }

  lemma OfferRoom(m: map<int, int>, seen: set<int>, k: nat, id: int, h: Hasher)
    requires k > 0 && Smallest(m, seen, k, h) && id !in m && |m| < k
    ensures Smallest(m[id := h(id)], seen + {id}, k, h)
  {
    TakenCard(m, k, id, h(id));
    assert m[id := h(id)].Keys == seen + {id};
  }

  lemma OfferFull(m: map<int, int>, seen: set<int>, k: nat, id: int, h: Hasher)
    requires k > 0 && Smallest(m, seen, k, h) && id !in m && |m| == k && h(id) < m[Top(m)]
    ensures Smallest(m[id := h(id)] - {Top(m)}, seen + {id}, k, h)
  {
    hide Pairs, IsLast;
    var top := Top(m);
    var t, all := m[id := h(id)] - {top}, seen + {id};
    TakenCard(m, k, id, h(id));
    forall x, y | x in t && y in all && y !in t ensures h(x) <= h(y) {
      assert h(top) <= h(y);
      if x != id { TopIsMax(m, x); }
    }
  }

  /** After every request the sample holds the smallest hash values seen so far. */
  lemma {:induction false} KeptSmallest(ids: Trace, k: nat, h: Hasher)
    requires k > 0
    ensures Smallest(Kept(ids, k, h), Elems(ids), k, h)
  {
    if ids != [] {
      var f, x := ids[..|ids| - 1], ids[|ids| - 1];
      var m := Kept(f, k, h);
      KeptSmallest(f, k, h);
      ElemsAppend(f, x);
      assert f + [x] == ids;
      if x !in m && |m| < k {
        OfferRoom(m, Elems(f), k, x, h);
      } else if x !in m && Admits(m, k, h(x)) {
        OfferFull(m, Elems(f), k, x, h);
      } else {
        OfferRefused(m, Elems(f), k, x, h);
      }
    }
  }

  lemma SmallestCard(m: map<int, int>, seen: set<int>, k: nat, h: Hasher)
    requires Smallest(m, seen, k, h)
    ensures |m| == if |seen| < k then |seen| else k
  {
    SubsetCard(m.Keys, seen);
    assert |m| == |m.Keys|;
  }

  lemma {:induction false} SubsetCard(a: set<int>, b: set<int>)
    requires a <= b
    ensures |a| <= |b|
  {
    assert b == a + (b - a);
  }

  /** The sample holds `k` objects, or all of them while there are fewer. */
  lemma KeptCard(ids: Trace, k: nat, h: Hasher)
    requires k > 0
    ensures var n := |Elems(ids)|; |Kept(ids, k, h)| == if n < k then n else k
    ensures |Elems(ids)| <= k ==> Kept(ids, k, h).Keys == Elems(ids)
  {
    KeptSmallest(ids, k, h);
    var m := Kept(ids, k, h);
    SmallestCard(m, Elems(ids), k, h);
    if |Elems(ids)| <= k {
      SubsetFull(m.Keys, Elems(ids));
    }
  }

  /** The objects whose hash value is 0. */
  function Zeros(ids: Trace, h: Hasher): set<int> {
    set id <- Elems(ids) | h(id) == 0
  }

  /** While fewer than `k` objects have the hash value 0, a full sample has a positive largest value. */
  lemma TopPositive(ids: Trace, k: nat, h: Hasher, zeros: set<int>)
    requires k > 0 && Zeros(ids, h) <= zeros && |zeros| < k
    ensures var m := Kept(ids, k, h); |m| == k ==> m[Top(m)] > 0
  {
    hide Kept, Top;
    var m := Kept(ids, k, h);
    KeptSmallest(ids, k, h);
    assert |m| == |m.Keys|;
    if |m| == k && m[Top(m)] <= 0 {
      forall x | x in m.Keys ensures x in zeros {
        TopIsMax(m, x);
        assert x in Zeros(ids, h);
      }
      SubsetCard(m.Keys, zeros);
    }
  }

  /** A sample that holds a larger value holds every object of hash value 0 too. */
  lemma ZerosKept(m: map<int, int>, ids: Trace, k: nat, h: Hasher, x: int)
    requires Smallest(m, Elems(ids), k, h) && x in m && m[x] > 0
    ensures Zeros(ids, h) <= m.Keys - {x}
  {
    forall y | y in Zeros(ids, h) ensures y in m.Keys - {x} {
      assert y in Elems(ids) && (y in m || h(x) <= h(y));
    }
  }

  /** The rate is 0, so that the source divides by 0, exactly when as many objects have the hash value 0. */
  lemma ZeroRateIff(ids: Trace, k: nat, h: Hasher)
    requires k > 0
    ensures var m := Kept(ids, k, h); (|m| == k && m[Top(m)] == 0) <==> |Zeros(ids, h)| >= k
  {
    hide Kept, Top;
    var m, zeros := Kept(ids, k, h), Zeros(ids, h);
    KeptSmallest(ids, k, h);
    KeptCard(ids, k, h);
    SubsetCard(zeros, Elems(ids));
    if |zeros| < k {
      TopPositive(ids, k, h, zeros);
    } else if m[Top(m)] > 0 {
      var rest := m.Keys - {Top(m)};
      assert |rest| == k - 1;
      ZerosKept(m, ids, k, h, Top(m));
      SubsetCard(zeros, rest);
    }
  }

  lemma SubsetFull(a: set<int>, b: set<int>)
    requires a <= b && |a| == |b|
    ensures a == b
  {
    if b - a != {} {
      var x := Sets.Pick(b - a);
      SubsetCard(a + {x}, b);
    }
    assert b == a + (b - a);
  }

  /** A full sample turns the object away, and keeps doing so. */
  ghost predicate Excluded(m: map<int, int>, k: nat, y: int, value: int) {
    y !in m && |m| >= k > 0 && forall x <- m :: m[x] <= value
  }

  lemma ExcludedStays(m: map<int, int>, k: nat, y: int, x: int, h: Hasher)
    requires Excluded(m, k, y, h(y)) && |m| == k
    ensures Excluded(Offer(m, k, x, h(x)), k, y, h(y))
  {
    var top := Top(m);
    if x !in m && Admits(m, k, h(x)) {
      TakenCard(m, k, x, h(x));
    }
  }

  /** An object that was evicted or refused is never sampled again. */
  lemma {:induction false} NeverAgain(f: Trace, g: Trace, k: nat, h: Hasher, y: int)
    requires k > 0 && y in Elems(f) && y !in Kept(f, k, h)
    ensures y !in Kept(f + g, k, h) && Excluded(Kept(f + g, k, h), k, y, h(y))
    decreases |g|
  {
    if g == [] {
      assert f + g == f;
      KeptSmallest(f, k, h);
    } else {
      var i, x := g[..|g| - 1], g[|g| - 1];
      NeverAgain(f, i, k, h, y);
      assert (f + g)[..|f + g| - 1] == f + i;
      KeptSmallest(f + i, k, h);
      ExcludedStays(Kept(f + i, k, h), k, y, x, h);
    }
  }
}
