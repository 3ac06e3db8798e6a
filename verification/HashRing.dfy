/** The consistent-hash ring of consistentHash.c, for servers of equal weight. */
module HashRing {
  import opened Seqs

  const N_VNODE_PER_SERVER := 160
  const HASHES_PER_SERVER := 40
  const RING_SIZE := 0x1_0000_0000

  type Point = p: int | 0 <= p < RING_SIZE witness 0

  datatype VNode = VNode(point: Point, server: nat)

  /** Four bytes of the digest of "server-key", as one number. */
  type Digest = (nat, nat, nat) -> Point

  // ---------- building the ring ----------

  /** The points of the first `n` servers, in the order in which they are generated. */
  function ServerPoint(digest: Digest, i: nat): VNode {
    VNode(digest(i / N_VNODE_PER_SERVER, i % N_VNODE_PER_SERVER / 4, i % 4), i / N_VNODE_PER_SERVER)
  }

  function Points(digest: Digest, count: nat): (ps: seq<VNode>)
    ensures |ps| == count
  {
    seq(count, i requires 0 <= i < count => ServerPoint(digest, i))
  }

  ghost predicate Ascending(ring: seq<VNode>) {
    forall i, j :: 0 <= i < j < |ring| ==> ring[i].point <= ring[j].point
  }

  function Inserted(ring: seq<VNode>, v: VNode): (r: seq<VNode>)
    ensures |r| == |ring| + 1
  {
    if ring == [] || v.point <= ring[0].point then [v] + ring else [ring[0]] + Inserted(ring[1..], v)
  }

  lemma ConsAscending(v: VNode, ring: seq<VNode>)
    requires Ascending(ring) && (ring == [] || v.point <= ring[0].point)
    ensures Ascending([v] + ring)
  {
  }

  lemma {:induction false} InsertedSorts(ring: seq<VNode>, v: VNode)
    requires Ascending(ring)
    ensures Ascending(Inserted(ring, v))
    ensures Inserted(ring, v)[0].point == v.point || (ring != [] && Inserted(ring, v)[0].point == ring[0].point)
  {
    if ring == [] || v.point <= ring[0].point {
      ConsAscending(v, ring);
    } else {
      var rest := Inserted(ring[1..], v);
      InsertedSorts(ring[1..], v);
      assert ring[1..] != [] ==> ring[1..][0] == ring[1];
      ConsAscending(ring[0], rest);
    }
  }

  lemma {:induction false} InsertedAdds(ring: seq<VNode>, v: VNode)
    ensures multiset(Inserted(ring, v)) == multiset(ring) + multiset{v}
  {
    if ring != [] && v.point > ring[0].point {
      InsertedAdds(ring[1..], v);
      assert ring == [ring[0]] + ring[1..];
    }
  }

  /** The vnodes by ascending point: what `qsort` leaves. */
  function Sorted(ps: seq<VNode>): (r: seq<VNode>)
    ensures |r| == |ps|
  {
    if ps == [] then [] else Inserted(Sorted(ps[..|ps| - 1]), ps[|ps| - 1])
  }

  lemma {:induction false} SortedIs(ps: seq<VNode>)
    ensures Ascending(Sorted(ps)) && multiset(Sorted(ps)) == multiset(ps)
  {
    if ps != [] {
      var f, v := ps[..|ps| - 1], ps[|ps| - 1];
      SortedIs(f);
      InsertedSorts(Sorted(f), v);
      InsertedAdds(Sorted(f), v);
      assert ps == f + [v];
    }
  }

  /** The vnodes of `nServer` servers by ascending point; the order of equal points is open, as `qsort` leaves it. */
  ghost predicate IsRing(ring: seq<VNode>, digest: Digest, nServer: nat) {
    Ascending(ring) && multiset(ring) == multiset(Points(digest, nServer * N_VNODE_PER_SERVER))
  }

  /** `ch_ring_create_ring` without weights: 40 hashes per server, four points from each. */
  method CreateRing(digest: Digest, nServer: nat) returns (ring: seq<VNode>)
    ensures IsRing(ring, digest, nServer) && |ring| == nServer * N_VNODE_PER_SERVER
  {
    var vnodes: seq<VNode> := [];
    for server := 0 to nServer
      invariant vnodes == Points(digest, server * N_VNODE_PER_SERVER)
    {
      for key := 0 to HASHES_PER_SERVER
        invariant vnodes == Points(digest, server * N_VNODE_PER_SERVER + 4 * key)
      {
        for part := 0 to 4
          invariant vnodes == Points(digest, server * N_VNODE_PER_SERVER + 4 * key + part)
        {
          PointAt(digest, server, key, part);
          vnodes := vnodes + [VNode(digest(server, key, part), server)];
        }
      }
    }
    ring := Sorted(vnodes);
    SortedIs(vnodes);
  }

  lemma PointAt(digest: Digest, server: nat, key: nat, part: nat)
    requires key < HASHES_PER_SERVER && part < 4
    ensures var i := server * N_VNODE_PER_SERVER + 4 * key + part;
            Points(digest, i + 1) == Points(digest, i) + [VNode(digest(server, key, part), server)]
  {
    var i := server * N_VNODE_PER_SERVER + 4 * key + part;
    Digits(server, key, part);
    assert ServerPoint(digest, i) == VNode(digest(server, key, part), server);
  }

  lemma Digits(server: nat, key: nat, part: nat)
    requires key < HASHES_PER_SERVER && part < 4
    ensures var i := server * N_VNODE_PER_SERVER + 4 * key + part;
            i / N_VNODE_PER_SERVER == server && i % N_VNODE_PER_SERVER / 4 == key && i % 4 == part
  {
    Quotients(server, 4 * key + part);
    Fours(HASHES_PER_SERVER * server + key, part);
    Fours(key, part);
  }

  lemma Quotients(q: nat, r: nat)
    requires r < N_VNODE_PER_SERVER
    ensures (q * N_VNODE_PER_SERVER + r) / N_VNODE_PER_SERVER == q && (q * N_VNODE_PER_SERVER + r) % N_VNODE_PER_SERVER == r
  {
  }

  lemma Fours(q: nat, r: nat)
    requires r < 4
    ensures (4 * q + r) / 4 == q && (4 * q + r) % 4 == r
  {
  }

  // ---------- looking up a key ----------

  /** The first vnode at or after `h`, or vnode 0 when there is none. */
  function Successor(ring: seq<VNode>, h: Point): (i: nat)
    requires ring != []
    ensures i < |ring|
  {
    var j := FirstAtLeast(ring, h);
    if j == |ring| then 0 else j
  }

  function FirstAtLeast(ring: seq<VNode>, h: Point): (i: nat)
    ensures i <= |ring| && (i < |ring| ==> ring[i].point >= h)
    ensures forall j :: 0 <= j < i ==> ring[j].point < h
  {
    if ring == [] || ring[0].point >= h then 0 else 1 + FirstAtLeast(ring[1..], h)
  }

  /** `ch_ring_get_vnode_idx`: the search terminates and finds the clockwise successor, also among equal points. */
  method GetVnodeIdx(ring: seq<VNode>, h: Point) returns (idx: int)
    requires ring != [] && Ascending(ring)
    ensures idx == Successor(ring, h)
  {
    var low, high := 0, |ring|;
    ghost var s := FirstAtLeast(ring, h);
    idx := -1;
    while idx == -1
      invariant 0 <= low <= high <= |ring| || idx != -1
      invariant if idx == -1 then low <= s <= high else idx == Successor(ring, h)
      decreases idx == -1, high - low
    {
      var mid := (low + high) / 2;
      if mid == |ring| {
        return 0;
      }
      var here, before := ring[mid].point, if mid == 0 then 0 else ring[mid - 1].point;
      if h <= here && h > before {
        idx := mid;
      } else {
        if here < h {
          low := mid + 1;
        } else {
          high := mid - 1;
        }
        if low > high {
          idx := 0;
        }
      }
    }
  }

  /** The way from `h` clockwise to `p`. */
  function Clockwise(h: Point, p: Point): int {
    if p >= h then p - h else p + RING_SIZE - h
  }

  /** The successor is a nearest vnode in clockwise direction. */
  lemma SuccessorNearest(ring: seq<VNode>, h: Point, i: nat)
    requires ring != [] && Ascending(ring) && i < |ring|
    ensures Clockwise(h, ring[Successor(ring, h)].point) <= Clockwise(h, ring[i].point)
  {
    var j := FirstAtLeast(ring, h);
    if j == |ring| {
      assert i == 0 || ring[0].point <= ring[i].point;
    } else if i >= j {
      assert i == j || ring[j].point <= ring[i].point;
    }
  }

  // ---------- the points of a ring ----------

  /** `v` is one of the four points of one of the forty hashes of a server. */
  ghost predicate PointOf(digest: Digest, n: nat, v: VNode) {
    v.server < n && exists key: nat, part: nat :: key < 40 && part < 4 && v.point == digest(v.server, key, part)
  }

  /** A ring holds 160 points of each server, and no others. */
  lemma RingPoints(ring: seq<VNode>, digest: Digest, nServer: nat, v: VNode)
    requires IsRing(ring, digest, nServer)
    ensures |ring| == 160 * nServer && (v in ring <==> PointOf(digest, nServer, v))
  {
    assert |multiset(ring)| == |ring|;
    RingMembers(ring, digest, nServer, v);
    if PointOf(digest, nServer, v) {
      var key: nat, part: nat :| key < 40 && part < 4 && v.point == digest(v.server, key, part);
      Digits(v.server, key, part);
      var i := v.server * N_VNODE_PER_SERVER + 4 * key + part;
      assert ServerPoint(digest, i) == v;
    }
    if v in ring {
      var i :| 0 <= i < nServer * N_VNODE_PER_SERVER && ServerPoint(digest, i) == v;
      assert v.point == digest(v.server, i % N_VNODE_PER_SERVER / 4, i % 4);
    }
  }

  // ---------- adding a server ----------

  /** The vnodes of a ring are the generated ones. */
  lemma RingMembers(ring: seq<VNode>, digest: Digest, nServer: nat, v: VNode)
    requires IsRing(ring, digest, nServer)
    ensures v in ring <==> exists i :: 0 <= i < nServer * N_VNODE_PER_SERVER && ServerPoint(digest, i) == v
  {
    var ps := Points(digest, nServer * N_VNODE_PER_SERVER);
    assert v in ring <==> v in multiset(ring);
    assert v in ps <==> v in multiset(ps);
    assert forall i :: 0 <= i < |ps| ==> ps[i] == ServerPoint(digest, i);
  }

  function Owner(ring: seq<VNode>, h: Point): (v: VNode)
    requires ring != []
    ensures v in ring
  {
    ring[Successor(ring, h)]
  }

  lemma RingNonempty(ring: seq<VNode>, digest: Digest, nServer: nat)
    requires nServer > 0 && IsRing(ring, digest, nServer)
    ensures ring != []
  {
    RingMembers(ring, digest, nServer, ServerPoint(digest, 0));
  }

  /** Any vnode of a ring is at least as far clockwise as the one that owns the key. */
  lemma OwnerNearest(ring: seq<VNode>, h: Point, v: VNode)
    requires Ascending(ring) && v in ring
    ensures Clockwise(h, Owner(ring, h).point) <= Clockwise(h, v.point)
  {
    var i :| 0 <= i < |ring| && ring[i] == v;
    SuccessorNearest(ring, h, i);
  }

  /** No other of the first `n` servers has a point where `u` stands. */
  ghost predicate Alone(digest: Digest, n: nat, u: VNode) {
    forall i :: 0 <= i < n * N_VNODE_PER_SERVER && ServerPoint(digest, i).point == u.point ==> ServerPoint(digest, i).server == u.server
  }

  /**
   When a server is added, a key stays where it is or moves to the new server, whatever the order
   of equal points in the two rings, unless its old owner shares the point with another old server.
   */
  lemma GrowthMovesToNew(before: seq<VNode>, after: seq<VNode>, digest: Digest, n: nat, h: Point)
    requires n > 0 && IsRing(before, digest, n) && IsRing(after, digest, n + 1)
    ensures before != [] && after != []
    ensures Alone(digest, n, Owner(before, h)) ==> Owner(after, h).server in {Owner(before, h).server, n}
  {
    RingNonempty(before, digest, n);
    RingNonempty(after, digest, n + 1);
    var u, v := Owner(before, h), Owner(after, h);
    RingMembers(before, digest, n, u);
    RingMembers(after, digest, n + 1, u);
    RingMembers(after, digest, n + 1, v);
    OwnerNearest(after, h, u);
    var i :| 0 <= i < (n + 1) * N_VNODE_PER_SERVER && ServerPoint(digest, i) == v;
    if i < n * N_VNODE_PER_SERVER {
      RingMembers(before, digest, n, v);
      OwnerNearest(before, h, v);
      assert u.point == v.point;
    } else {
      NewServer(n, i);
    }
  }

  lemma NewServer(n: nat, i: nat)
    requires n * N_VNODE_PER_SERVER <= i < (n + 1) * N_VNODE_PER_SERVER
    ensures i / N_VNODE_PER_SERVER == n
  {
  }

  // ---------- several servers ----------

  function ServerAt(ring: seq<VNode>, i: nat): nat
    requires ring != []
  {
    ring[i % |ring|].server
  }

  /** The servers met going once around the ring from vnode `start`. */
  function Around(ring: seq<VNode>, start: nat): (s: seq<nat>)
    requires start < |ring|
    ensures |s| == |ring|
  {
    seq<nat>(|ring|, i requires 0 <= i < |ring| => ServerAt(ring, start + i))
  }

  /** The first `n` different elements of `s` that are not in `taken`, as many as there are. */
  function Picks(s: seq<nat>, taken: set<nat>, n: nat): (r: seq<nat>)
    ensures |r| <= n
    decreases |s|
  {
    if n == 0 || s == [] then []
    else if s[0] in taken then Picks(s[1..], taken, n)
    else [s[0]] + Picks(s[1..], taken + {s[0]}, n - 1)
  }

  /** The picks are different, untaken elements of `s`. */
  lemma {:induction false} PicksDiffer(s: seq<nat>, taken: set<nat>, n: nat)
    ensures var r := Picks(s, taken, n); NoRepeat(r) && Elems(r) <= Elems(s) - taken
    decreases |s|
  {
    if n > 0 && s != [] {
      assert [s[0]] + s[1..] == s;
      ElemsCons(s[0], s[1..]);
      if s[0] in taken {
        PicksDiffer(s[1..], taken, n);
      } else {
        var r := Picks(s[1..], taken + {s[0]}, n - 1);
        PicksDiffer(s[1..], taken + {s[0]}, n - 1);
        ElemsCons(s[0], r);
        assert forall i :: 0 <= i < |r| ==> r[i] in Elems(r);
      }
    }
  }

  /**
   `r` are the `n` untaken elements of `s` that come first: they stand in the order in which they
   first occur, and whatever is left out occurs first behind all of them.
   */
  ghost predicate ComeFirst(r: seq<nat>, s: seq<nat>, taken: set<nat>, n: nat) {
    && (forall a, b :: 0 <= a < b < |r| ==> IndexOf(s, r[a]) < IndexOf(s, r[b]))
    && (forall x: nat :: x in s && x !in taken && x !in r ==>
          |r| == n && forall a :: 0 <= a < n ==> IndexOf(s, r[a]) < IndexOf(s, x))
  }

  lemma PassTaken(r: seq<nat>, s: seq<nat>, taken: set<nat>, n: nat)
    requires s != [] && s[0] in taken && ComeFirst(r, s[1..], taken, n) && forall x: nat :: x in r ==> x !in taken
    ensures ComeFirst(r, s, taken, n)
  {
    hide IndexOf;
    LaterPlaces(s);
  }

  lemma TakeFirst(r: seq<nat>, s: seq<nat>, taken: set<nat>, n: nat)
    requires n > 0 && s != [] && s[0] !in taken && ComeFirst(r, s[1..], taken + {s[0]}, n - 1)
    requires forall x: nat :: x in r ==> x !in taken + {s[0]}
    ensures ComeFirst([s[0]] + r, s, taken, n)
  {
    hide IndexOf;
    LaterPlaces(s);
  }

  /** The picks are the elements that come first. */
  lemma {:induction false} PicksFirst(s: seq<nat>, taken: set<nat>, n: nat)
    ensures ComeFirst(Picks(s, taken, n), s, taken, n)
    decreases |s|
  {
    hide ComeFirst, Elems;
    if n == 0 || s == [] {
      NoneFirst(s, taken, n);
    } else if s[0] in taken {
      PicksFirst(s[1..], taken, n);
      PickedElsewhere(s[1..], taken, n);
      PassTaken(Picks(s[1..], taken, n), s, taken, n);
    } else {
      PicksFirst(s[1..], taken + {s[0]}, n - 1);
      PickedElsewhere(s[1..], taken + {s[0]}, n - 1);
      TakeFirst(Picks(s[1..], taken + {s[0]}, n - 1), s, taken, n);
    }
  }

  lemma NoneFirst(s: seq<nat>, taken: set<nat>, n: nat)
    requires n == 0 || s == []
    ensures ComeFirst([], s, taken, n)
  {
  }

  lemma LaterPlaces(s: seq<nat>)
    requires s != []
    ensures IndexOf(s, s[0]) == 0 && forall x: nat :: x != s[0] ==> IndexOf(s, x) == 1 + IndexOf(s[1..], x)
  {
  }

  lemma PickedElsewhere(s: seq<nat>, taken: set<nat>, n: nat)
    ensures forall x: nat :: x in Picks(s, taken, n) ==> x in s && x !in taken
  {
    PicksDiffer(s, taken, n);
    var r := Picks(s, taken, n);
    forall x: nat | x in r ensures x in s && x !in taken {
      var i :| 0 <= i < |r| && r[i] == x;
      assert x in Elems(r);
    }
  }

  /** What the first element takes away from the elements that are left. */
  lemma LeftOver(s: seq<nat>, taken: set<nat>)
    requires s != []
    ensures s[0] in taken ==> Elems(s) - taken == Elems(s[1..]) - taken
    ensures s[0] !in taken ==> |Elems(s) - taken| == |Elems(s[1..]) - (taken + {s[0]})| + 1
  {
    assert [s[0]] + s[1..] == s;
    ElemsCons(s[0], s[1..]);
    if s[0] !in taken {
      assert Elems(s) - taken == (Elems(s[1..]) - (taken + {s[0]})) + {s[0]};
    }
  }

  /** There are as many picks as asked for, unless too few elements are left. */
  lemma {:induction false} PicksCount(s: seq<nat>, taken: set<nat>, n: nat)
    ensures var m := |Elems(s) - taken|; |Picks(s, taken, n)| == if m < n then m else n
    decreases |s|
  {
    hide Elems;
    if s == [] {
      NoElems();
      assert Elems(s) - taken == {};
    } else if n > 0 {
      LeftOver(s, taken);
      if s[0] in taken {
        PicksCount(s[1..], taken, n);
      } else {
        PicksCount(s[1..], taken + {s[0]}, n - 1);
      }
    }
  }

  lemma NoElems()
    ensures Elems<nat>([]) == {}
  {
  }

  /** All picks stem from the first part of `s` once they are complete, and more of `s` changes nothing. */
  lemma {:induction false} PicksPrefix(s: seq<nat>, t: seq<nat>, taken: set<nat>, n: nat)
    ensures Picks(s + t, taken, n) ==
            Picks(s, taken, n) + Picks(t, taken + Elems(Picks(s, taken, n)), n - |Picks(s, taken, n)|)
    decreases |s|
  {
    hide Elems;
    NoElems();
    if s == [] {
      assert s + t == t;
      assert taken + {} == taken;
    } else if n > 0 {
      assert (s + t)[1..] == s[1..] + t;
      if s[0] in taken {
        PicksPrefix(s[1..], t, taken, n);
      } else {
        PicksPrefix(s[1..], t, taken + {s[0]}, n - 1);
        PickedFirst(s[0], Picks(s[1..], taken + {s[0]}, n - 1), taken);
      }
    }
  }

  lemma PickedFirst(x: nat, r: seq<nat>, taken: set<nat>)
    ensures taken + {x} + Elems(r) == taken + Elems([x] + r)
  {
    ElemsCons(x, r);
  }

  ghost predicate Marks(chosen: array<bool>, taken: set<nat>)
    reads chosen
  {
    forall i :: 0 <= i < chosen.Length ==> (chosen[i] <==> i in taken)
  }

  /** One step around the ring: an unmarked server is taken and marked. */
  method Visit(server: nat, idxs: seq<nat>, chosen: array<bool>, ghost taken: set<nat>) returns (r: seq<nat>)
    requires server < chosen.Length && Marks(chosen, taken + Elems(idxs))
    modifies chosen
    ensures r == (if server in taken + Elems(idxs) then idxs else idxs + [server]) && Marks(chosen, taken + Elems(r))
  {
    ElemsAppend(idxs, server);
    r := idxs;
    if !chosen[server] {
      r := idxs + [server];
      chosen[server] := true;
    }
  }

  /**
   The loop of `ch_ring_get_servers` and `ch_ring_get_available_servers`: go around the ring from
   `start`, taking each server that is not marked. False stands for the abort after a full round.
   */
  method Collect(ring: seq<VNode>, start: nat, n: nat, chosen: array<bool>, ghost taken: set<nat>) returns (ok: bool, idxs: seq<nat>)
    requires start < |ring| && (forall v <- ring :: v.server < chosen.Length) && Marks(chosen, taken)
    modifies chosen
    ensures ok ==> idxs == Picks(Around(ring, start), taken, n)
    ensures ok <==> n <= |Elems(Around(ring, start)) - taken|
  {
    hide Elems, Picks, Marks;
    ghost var s := Around(ring, start);
    PicksCount(s, taken, n);
    PicksStart(s, taken, n);
    idxs := [];
    var pos := 0;
    while |idxs| < n
      invariant 0 <= pos <= |ring| && idxs == Picks(s[..pos], taken, n) && Marks(chosen, taken + Elems(idxs))
      decreases |ring| - pos
    {
      var v := ring[(start + pos) % |ring|];
      assert v in ring;
      Meets(ring, start, pos, taken, n);
      idxs := Visit(v.server, idxs, chosen, taken);
      pos := pos + 1;
      if pos > |ring| {
        return false, idxs;
      }
    }
    PicksAll(s, pos, taken, n);
    ok := true;
  }

  lemma PicksStart(s: seq<nat>, taken: set<nat>, n: nat)
    ensures Picks(s[..0], taken, n) == [] && taken + Elems<nat>([]) == taken
    ensures Picks(s[..|s|], taken, n) == Picks(s, taken, n)
  {
    NoElems();
    assert s[..|s|] == s;
  }

  /** What the walk meets at step `pos`; after a full round it meets only what it has. */
  lemma Meets(ring: seq<VNode>, start: nat, pos: nat, taken: set<nat>, n: nat)
    requires start < |ring| && pos <= |ring| && |Picks(Around(ring, start)[..pos], taken, n)| < n
    ensures var s := Around(ring, start);
            var r, x := Picks(s[..pos], taken, n), ring[(start + pos) % |ring|].server;
            if pos < |ring| then Picks(s[..pos + 1], taken, n) == if x in taken + Elems(r) then r else r + [x]
            else |Picks(s, taken, n)| < n
  {
    var s := Around(ring, start);
    if pos < |ring| {
      PicksStep(s, pos, taken, n);
      assert s[pos] == ServerAt(ring, start + pos);
    } else {
      assert s[..pos] == s;
    }
  }

  lemma PicksStep(s: seq<nat>, pos: nat, taken: set<nat>, n: nat)
    requires pos < |s| && |Picks(s[..pos], taken, n)| < n
    ensures var r := Picks(s[..pos], taken, n);
            Picks(s[..pos + 1], taken, n) == if s[pos] in taken + Elems(r) then r else r + [s[pos]]
  {
    assert s[..pos + 1] == s[..pos] + [s[pos]];
    PicksPrefix(s[..pos], [s[pos]], taken, n);
    assert [s[pos]][1..] == [];
  }

  lemma PicksAll(s: seq<nat>, pos: nat, taken: set<nat>, n: nat)
    requires pos <= |s| && |Picks(s[..pos], taken, n)| >= n
    ensures Picks(s, taken, n) == Picks(s[..pos], taken, n)
  {
    assert s == s[..pos] + s[pos..];
    PicksPrefix(s[..pos], s[pos..], taken, n);
  }

  // ---------- whole lookups ----------

  function Servers(n: nat): set<nat> {
    if n == 0 then {} else Servers(n - 1) + {n - 1}
  }

  lemma {:induction false} ServersAre(n: nat)
    ensures |Servers(n)| == n && forall x: nat :: x in Servers(n) <==> x < n
  {
    if n > 0 {
      ServersAre(n - 1);
      assert n - 1 !in Servers(n - 1);
    }
  }

  /** Every server owns points. */
  lemma AllServersOccur(ring: seq<VNode>, digest: Digest, nServer: nat, start: nat)
    requires IsRing(ring, digest, nServer) && start < |ring|
    ensures Elems(Around(ring, start)) == Servers(nServer)
  {
    hide IsRing;
    var s := Around(ring, start);
    ServersAre(nServer);
    forall x: nat ensures x in Elems(s) <==> x in Servers(nServer) {
      if x < nServer {
        ServerOccurs(ring, digest, nServer, start, x);
      }
      if x in Elems(s) {
        var i :| 0 <= i < |s| && s[i] == x;
        ServersInRange(ring, digest, nServer, ring[(start + i) % |ring|]);
      }
    }
  }

  lemma ServerOccurs(ring: seq<VNode>, digest: Digest, nServer: nat, start: nat, x: nat)
    requires IsRing(ring, digest, nServer) && start < |ring| && x < nServer
    ensures x in Elems(Around(ring, start))
  {
    hide IsRing, Around;
    var i := x * N_VNODE_PER_SERVER;
    var v := ServerPoint(digest, i);
    RingMembers(ring, digest, nServer, v);
    var j :| 0 <= j < |ring| && ring[j] == v;
    OnTheWay(ring, start, j);
  }

  /** Going around the ring meets every vnode. */
  lemma OnTheWay(ring: seq<VNode>, start: nat, j: nat)
    requires start < |ring| && j < |ring|
    ensures ring[j].server in Elems(Around(ring, start))
  {
    hide ServerAt;
    var i := if j >= start then j - start else j + |ring| - start;
    Wrap(j, |ring|);
    assert ServerAt(ring, start + i) == ring[j].server by { AtWrapped(ring, start + i, j); }
    assert Around(ring, start)[i] == ServerAt(ring, start + i);
  }

  lemma AtWrapped(ring: seq<VNode>, i: nat, j: nat)
    requires j < |ring| && i % |ring| == j
    ensures ServerAt(ring, i) == ring[j].server
  {
  }

  lemma Wrap(j: nat, n: nat)
    requires j < n
    ensures (j + n) % n == j && j % n == j
  {
  }

  lemma ServersInRange(ring: seq<VNode>, digest: Digest, nServer: nat, v: VNode)
    requires IsRing(ring, digest, nServer) && v in ring
    ensures v.server < nServer
  {
    RingMembers(ring, digest, nServer, v);
  }

  /**
   `ch_ring_get_servers`: the first `n` different servers clockwise from the key. It aborts exactly
   when there are fewer than `n` servers.
   */
  method GetServers(digest: Digest, ring: seq<VNode>, nServer: nat, h: Point, n: nat) returns (ok: bool, idxs: seq<nat>)
    requires nServer > 0 && IsRing(ring, digest, nServer)
    ensures ok <==> n <= nServer
    ensures ring != [] && (ok ==> |idxs| == n && NoRepeat(idxs) && idxs == Picks(Around(ring, Successor(ring, h)), {}, n))
    ensures ok && n > 0 ==> idxs[0] == Owner(ring, h).server
  {
    hide Picks, Elems, Around, NoRepeat, Successor;
    RingNonempty(ring, digest, nServer);
    var start := GetVnodeIdx(ring, h);
    var chosen := new bool[nServer](i => false);
    forall v | v in ring ensures v.server < nServer {
      ServersInRange(ring, digest, nServer, v);
    }
    ok, idxs := Collect(ring, start, n, chosen, {});
    Enough(ring, digest, nServer, start, {}, n);
    assert Servers(nServer) - {} == Servers(nServer);
    ServersAre(nServer);
    if n > 0 {
      FirstPicked(ring, start, n);
    }
  }

  lemma FirstPicked(ring: seq<VNode>, start: nat, n: nat)
    requires start < |ring| && n > 0
    ensures var r := Picks(Around(ring, start), {}, n); r != [] && r[0] == ring[start].server
  {
    Wrap(start, |ring|);
    assert Around(ring, start)[0] == ServerAt(ring, start);
  }

  /** The servers that are not marked as unavailable. */
  ghost function Unavailable(marks: seq<bool>): set<nat> {
    set i: nat | i < |marks| && marks[i]
  }

  /** `ch_ring_get_available_servers`: as above, passing over the unavailable servers. */
  method GetAvailableServers(digest: Digest, ring: seq<VNode>, nServer: nat, h: Point, n: nat, unavailable: seq<bool>)
    returns (ok: bool, idxs: seq<nat>)
    requires nServer > 0 && IsRing(ring, digest, nServer) && |unavailable| == nServer
    ensures ok <==> n <= |Servers(nServer) - Unavailable(unavailable)|
    ensures ring != []
    ensures ok ==> |idxs| == n && NoRepeat(idxs) && Elems(idxs) !! Unavailable(unavailable)
                   && idxs == Picks(Around(ring, Successor(ring, h)), Unavailable(unavailable), n)
  {
    hide Picks, Elems, Around, NoRepeat, Successor;
    RingNonempty(ring, digest, nServer);
    var start := GetVnodeIdx(ring, h);
    var chosen := new bool[nServer](i requires 0 <= i < nServer => unavailable[i]);
    forall v | v in ring ensures v.server < nServer {
      ServersInRange(ring, digest, nServer, v);
    }
    ok, idxs := Collect(ring, start, n, chosen, Unavailable(unavailable));
    Enough(ring, digest, nServer, start, Unavailable(unavailable), n);
  }

  lemma Enough(ring: seq<VNode>, digest: Digest, nServer: nat, start: nat, taken: set<nat>, n: nat)
    requires IsRing(ring, digest, nServer) && start < |ring|
    ensures var s := Around(ring, start);
            var r := Picks(s, taken, n);
            && Elems(s) - taken == Servers(nServer) - taken
            && NoRepeat(r) && Elems(r) !! taken && (n <= |Elems(s) - taken| ==> |r| == n)
  {
    var s := Around(ring, start);
    AllServersOccur(ring, digest, nServer, start);
    PicksDiffer(s, taken, n);
    PicksCount(s, taken, n);
  }
}
