/** The bounded map of minvaluemap.hpp: it keeps the `n` keys with the smallest values. */
module MinValueMap {
  import Sets

  datatype Pair = Pair(value: int, key: int)

  /** The order of `std::pair`. */
  predicate Precedes(p: Pair, q: Pair) {
    p.value < q.value || (p.value == q.value && p.key <= q.key)
  }

  /** What `rbegin` of the ordered set points to. */
  predicate IsLast(s: set<Pair>, p: Pair) {
    p in s && forall q <- s :: Precedes(q, p)
  }

  function Pairs(m: map<int, int>): set<Pair> {
    set k <- m :: Pair(m[k], k)
  }

  lemma PairsHas(m: map<int, int>)
    ensures forall p :: p in Pairs(m) <==> p.key in m && m[p.key] == p.value
  {
    forall p ensures p in Pairs(m) <==> p.key in m && m[p.key] == p.value {
      if p.key in m && m[p.key] == p.value {
        assert p == Pair(m[p.key], p.key);
      }
    }
  }

  lemma {:induction false} LastExists(s: set<Pair>) returns (p: Pair)
    requires s != {}
    ensures IsLast(s, p)
  {
    var x := Sets.Pick(s);
    if s == {x} {
      p := x;
    } else {
      p := LastExists(s - {x});
      assert s == (s - {x}) + {x};
      if Precedes(p, x) { p := x; }
    }
  }

  lemma {:induction false} PairsCard(m: map<int, int>)
    ensures |Pairs(m)| == |m|
  {
    if m == map[] {
      assert forall p :: p !in Pairs(m);
      assert Pairs(m) == {};
    } else {
      var k := Sets.Pick(m.Keys);
      PairsCard(m - {k});
      PairsRemove(m, k);
      assert (m - {k}).Keys == m.Keys - {k};
      assert |m.Keys| == |m| && |(m - {k}).Keys| == |m - {k}|;
    }
  }

  lemma TopExists(m: map<int, int>)
    requires m != map[]
    ensures exists k :: k in m && IsLast(Pairs(m), Pair(m[k], k))
  {
    var x := Sets.Pick(m.Keys);
    assert Pair(m[x], x) in Pairs(m);
    var p := LastExists(Pairs(m));
    assert p.key in m && p == Pair(m[p.key], p.key);
  }

  /** The key that stands last, the one that is given up first. */
  ghost function Top(m: map<int, int>): (k: int)
    requires m != map[]
    ensures k in m && IsLast(Pairs(m), Pair(m[k], k))
  {
    TopExists(m);
    var k :| k in m && IsLast(Pairs(m), Pair(m[k], k));
    k
  }

  /** The key that stands last has the largest value, and among equal values the largest key. */
  lemma TopIs(m: map<int, int>, x: int)
    requires x in m
    ensures m[x] < m[Top(m)] || (m[x] == m[Top(m)] && x <= Top(m))
  {
    assert Pair(m[x], x) in Pairs(m);
  }

  lemma TopUnique(m: map<int, int>, p: Pair)
    requires m != map[] && IsLast(Pairs(m), p)
    ensures p.key == Top(m) && p.value == m[Top(m)]
  {
    var q := Pair(m[Top(m)], Top(m));
    assert Precedes(p, q) && Precedes(q, p);
  }

  /** A new pair is taken when there is room or its value is below the largest one. */
  ghost predicate Admits(m: map<int, int>, n: nat, value: int)
    requires n > 0
  {
    |m| < n || value < m[Top(m)]
  }

  /** The contents once a new pair has been taken. */
  ghost function Taken(m: map<int, int>, n: nat, key: int, value: int): map<int, int>
    requires n > 0
  {
    if |m| < n then m[key := value] else m[key := value] - {Top(m)}
  }

  lemma PairsUpdate(m: map<int, int>, key: int, value: int)
    ensures Pairs(m[key := value]) == (if key in m then Pairs(m) - {Pair(m[key], key)} else Pairs(m)) + {Pair(value, key)}
  {
    var a, b := Pairs(m[key := value]), (if key in m then Pairs(m) - {Pair(m[key], key)} else Pairs(m)) + {Pair(value, key)};
    PairsHas(m);
    PairsHas(m[key := value]);
    assert forall p :: p in a <==> p in b;
  }

  lemma PairsRemove(m: map<int, int>, key: int)
    requires key in m
    ensures Pairs(m - {key}) == Pairs(m) - {Pair(m[key], key)}
  {
    var a, b := Pairs(m - {key}), Pairs(m) - {Pair(m[key], key)};
    PairsHas(m);
    PairsHas(m - {key});
    assert forall p :: p in a <==> p in b;
  }

  class MinValueMap {
    const n: nat
    var entries: set<Pair>
    var values: map<int, int>

    /** The ordered set and the map hold the same pairs. */
    ghost predicate InStep()
      reads this
    {
      entries == Pairs(values)
    }

    constructor (n: nat)
      ensures this.n == n && values == map[] && InStep()
    {
      this.n, entries, values := n, {}, map[];
    }

    predicate Full()
      reads this
    {
      |entries| == n
    }

    method MaxValue() returns (v: int)
      requires InStep() && values != map[]
      ensures v == values[Top(values)]
    {
      var p := Last();
      v := p.value;
    }

    method Last() returns (p: Pair)
      requires InStep() && values != map[]
      ensures IsLast(entries, p) && p.key == Top(values) && p.value == values[Top(values)]
    {
      assert IsLast(entries, Pair(values[Top(values)], Top(values)));
      p :| IsLast(entries, p);
      TopUnique(values, p);
    }

    /**
     `insert`. The set and the map stay in step unless the key is new, there is no room and the
     value is not below the largest: then the key is added to the map only.
     */
    method Insert(key: int, value: int) returns (id: int, popped: bool)
      requires InStep() && n > 0
      modifies this
      ensures InStep() <==> key in old(values) || Admits(old(values), n, value)
      ensures popped <==> key !in old(values) && |old(values)| >= n && Admits(old(values), n, value)
      ensures values == if popped then Taken(old(values), n, key, value) else old(values)[key := value]
      ensures id == if popped then Top(old(values)) else -1
    {
      hide Precedes, IsLast, Pairs, Top;
      popped, id := false, -1;
      PairsUpdate(values, key, value);
      PairsCard(values);
      if key in values {
        entries := entries - {Pair(values[key], key)} + {Pair(value, key)};
        values := values[key := value];
      } else {
        var before := values;
        values := values[key := value];
        if |entries| < n {
          entries := entries + {Pair(value, key)};
        } else {
          PairsHas(before);
          assert Pair(value, key) !in Pairs(before);
          ghost var top := Top(before);
          assert IsLast(entries, Pair(before[top], top));
          var last: Pair :| IsLast(entries, last);
          TopUnique(before, last);
          TopUnique(before, last);
          if value < last.value {
            PairsRemove(values, top);
            entries := entries - {last} + {Pair(value, key)};
            values := values - {last.key};
            assert values == Taken(before, n, key, value);
            id, popped := last.key, true;
          }
        }
      }
    }
  }
}
