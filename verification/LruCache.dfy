/**
 An LRU cache of objects of arbitrary size: `cache_get_base` of cache.c driving the hooks of
 plugin_lru.c over the doubly linked list of cacheObj.h.
 */
module LruCache {

  // ---------- the cache as a function on its recency list, most recent first ----------

  datatype Entry = Entry(id: int, size: nat)

  function Occupied(q: seq<Entry>, md: nat): nat {
    if q == [] then 0 else Occupied(q[..|q| - 1], md) + q[|q| - 1].size + md
  }

  /** The position of an object in the list, or its length. */
  function Find(q: seq<Entry>, id: int): (i: nat)
    ensures i <= |q| && (i < |q| ==> q[i].id == id) && forall j :: 0 <= j < i ==> q[j].id != id
  {
    if q == [] then 0
    else if q[0].id == id then 0
    else 1 + Find(q[1..], id)
  }

  /** Evict from the tail until `need` more bytes fit. */
  function EvictFor(q: seq<Entry>, md: nat, capacity: nat, need: nat): (r: seq<Entry>)
    ensures r <= q
  {
    if q != [] && Occupied(q, md) + need > capacity then EvictFor(q[..|q| - 1], md, capacity, need) else q
  }

  datatype Outcome = Outcome(hit: bool, queue: seq<Entry>)

  /** One request: a hit moves to the front, a miss that can fit evicts and inserts. */
  function Access(q: seq<Entry>, md: nat, capacity: nat, id: int, size: nat): Outcome {
    var i := Find(q, id);
    if i < |q| then Outcome(true, [q[i]] + q[..i] + q[i + 1..])
    else if size + md > capacity then Outcome(false, q)
    else Outcome(false, [Entry(id, size)] + EvictFor(q, md, capacity, size + md))
  }

  // ---------- what a request does, byte by byte ----------

  /** The first `k` entries are all that can stay when `need` more bytes enter. */
  ghost predicate MostThatFits(q: seq<Entry>, k: nat, md: nat, capacity: nat, need: nat) {
    && k <= |q| && Occupied(q[..k], md) + need <= capacity
    && (k < |q| ==> Occupied(q[..k + 1], md) + need > capacity)
  }

  /**
   The recency list `after` and the answer are those of an LRU cache: an object that is stored is
   found and moves to the front; one that can never fit changes nothing; any other enters at the
   front, and the least recently used ones leave, no more of them than it needs.
   */
  ghost predicate Serves(q: seq<Entry>, md: nat, capacity: nat, id: int, size: nat, hit: bool, after: seq<Entry>) {
    if hit then
      exists i :: 0 <= i < |q| && q[i].id == id && (forall j :: 0 <= j < i ==> q[j].id != id)
                  && after == [q[i]] + q[..i] + q[i + 1..]
    else
      && (forall i :: 0 <= i < |q| ==> q[i].id != id)
      && (size + md > capacity ==> after == q)
      && (size + md <= capacity ==>
            exists k: nat :: MostThatFits(q, k, md, capacity, size + md) && after == [Entry(id, size)] + q[..k])
  }

  lemma OccupiedNone(md: nat)
    ensures Occupied([], md) == 0
  {
  }

  /** The eviction loop stops as soon as there is room, and not before. */
  lemma {:induction false} EvictsLeast(q: seq<Entry>, md: nat, capacity: nat, need: nat)
    requires need <= capacity
    ensures var r := EvictFor(q, md, capacity, need); r == q[..|r|] && MostThatFits(q, |r|, md, capacity, need)
  {
    hide Occupied;
    OccupiedNone(md);
    assert q[..|q|] == q;
    if q != [] && Occupied(q, md) + need > capacity {
      var f := q[..|q| - 1];
      EvictsLeast(f, md, capacity, need);
      var k := |EvictFor(f, md, capacity, need)|;
      assert f[..k] == q[..k];
      if k < |f| { assert f[..k + 1] == q[..k + 1]; }
    }
  }

  lemma {:induction false} OccupiedGrows(q: seq<Entry>, i: nat, k: nat, md: nat)
    requires i <= k <= |q|
    ensures Occupied(q[..i], md) <= Occupied(q[..k], md)
  {
    if i < k {
      OccupiedGrows(q, i, k - 1, md);
      assert q[..k][..k - 1] == q[..k - 1];
    }
  }

  /** Only one number of entries is the most that fits. */
  lemma MostIsOne(q: seq<Entry>, i: nat, k: nat, md: nat, capacity: nat, need: nat)
    requires MostThatFits(q, i, md, capacity, need) && MostThatFits(q, k, md, capacity, need)
    ensures i == k
  {
    if i < k {
      OccupiedGrows(q, i + 1, k, md);
    } else if k < i {
      OccupiedGrows(q, k + 1, i, md);
    }
  }

  /** A request has exactly one outcome that serves it, and `Access` is that outcome. */
  lemma AccessServes(q: seq<Entry>, md: nat, capacity: nat, id: int, size: nat, hit: bool, after: seq<Entry>)
    ensures Serves(q, md, capacity, id, size, hit, after) <==> Outcome(hit, after) == Access(q, md, capacity, id, size)
  {
    hide Occupied, EvictFor;
    var i := Find(q, id);
    if i == |q| && size + md <= capacity {
      var r := EvictFor(q, md, capacity, size + md);
      EvictsLeast(q, md, capacity, size + md);
      if Serves(q, md, capacity, id, size, hit, after) {
        var k: nat :| MostThatFits(q, k, md, capacity, size + md) && after == [Entry(id, size)] + q[..k];
        MostIsOne(q, |r|, k, md, capacity, size + md);
      }
    }
  }

  // ---------- the linked list and the cache object ----------

  class Obj {
    const id: int
    const size: nat
    var prev: Obj?
    var next: Obj?

    constructor (id: int, size: nat)
      ensures this.id == id && this.size == size
    {
      this.id, this.size := id, size;
      prev, next := null, null;
    }
  }

  function Entries(s: seq<Obj>): (q: seq<Entry>)
    ensures |q| == |s|
  {
    seq(|s|, i requires 0 <= i < |s| => Entry(s[i].id, s[i].size))
  }

  ghost predicate Distinct(s: seq<Obj>) {
    forall i, j :: 0 <= i < j < |s| ==> s[i].id != s[j].id
  }

  /** The pointers run through `s` in both directions: `p` starts it and `before` precedes it. */
  ghost predicate Walk(s: seq<Obj>, before: Obj?, p: Obj?, tail: Obj?)
    reads s
  {
    if s == [] then p == null && tail == before
    else p == s[0] && s[0].prev == before && Walk(s[1..], s[0], s[0].next, tail)
  }

  /** The list pointer by pointer. */
  lemma {:induction false} WalkChained(s: seq<Obj>, before: Obj?, p: Obj?, tail: Obj?)
    ensures Walk(s, before, p, tail) <==>
              && (s == [] ==> p == null && tail == before)
              && (s != [] ==> p == s[0] && tail == s[|s| - 1] && s[0].prev == before && s[|s| - 1].next == null)
              && (forall i :: 0 <= i < |s| - 1 ==> s[i].next == s[i + 1])
              && (forall i :: 1 <= i < |s| ==> s[i].prev == s[i - 1])
  {
    if s != [] {
      WalkChained(s[1..], s[0], s[0].next, tail);
      var r := s[1..];
      assert forall i :: 0 <= i < |r| ==> r[i] == s[i + 1];
    }
  }

  function Without<T>(s: seq<T>, k: nat): seq<T>
    requires k < |s|
  {
    s[..k] + s[k + 1..]
  }

  /** `remove_obj_from_list`. */
  method RemoveFromList(head: Obj?, tail: Obj?, obj: Obj, ghost s: seq<Obj>, ghost k: nat, ghost r: seq<Obj>)
    returns (head': Obj?, tail': Obj?)
    requires Walk(s, null, head, tail) && Distinct(s) && k < |s| && s[k] == obj && r == Without(s, k)
    modifies s
    ensures Walk(r, null, head', tail')
  {
    hide Walk;
    head', tail' := head, tail;
    WalkChained(s, null, head, tail);
    assert obj.next == if k + 1 < |s| then s[k + 1] else null;
    assert obj.prev == if k > 0 then s[k - 1] else null;
    if obj == head' {
      head' := obj.next;
      if obj.next != null { obj.next.prev := null; }
    }
    if obj == tail' {
      tail' := obj.prev;
      if obj.prev != null { obj.prev.next := null; }
    }
    if obj.prev != null { obj.prev.next := obj.next; }
    if obj.next != null { obj.next.prev := obj.prev; }
    obj.prev := null;
    obj.next := null;
    WithoutAt(s, k);
    WalkChained(r, null, head', tail');
  }

  lemma WithoutAt<T>(s: seq<T>, k: nat)
    requires k < |s|
    ensures |Without(s, k)| == |s| - 1
    ensures forall i :: 0 <= i < |s| - 1 ==> Without(s, k)[i] == if i < k then s[i] else s[i + 1]
  {
  }

  /** `move_obj_to_head`. */
  method MoveToHead(head: Obj?, tail: Obj?, obj: Obj, ghost s: seq<Obj>, ghost k: nat, ghost r: seq<Obj>)
    returns (head': Obj?, tail': Obj?)
    requires Walk(s, null, head, tail) && Distinct(s) && k < |s| && s[k] == obj && r == [obj] + Without(s, k)
    modifies s
    ensures Walk(r, null, head', tail')
  {
    hide Walk;
    head', tail' := head, tail;
    WalkChained(s, null, head, tail);
    WithoutAt(s, k);
    if head == tail || obj == head {
      assert r == s;
      return;
    }
    assert k > 0 && obj.prev == s[k - 1];
    obj.prev.next := obj.next;
    if obj == tail {
      tail' := obj.prev;
    } else {
      assert k + 1 < |s| && obj.next == s[k + 1];
      obj.next.prev := obj.prev;
    }
    head.prev := obj;
    obj.prev := null;
    obj.next := head;
    head' := obj;
    WalkChained(r, null, head', tail');
  }

  /** `prepend_obj_to_head`. */
  method PrependToHead(head: Obj?, tail: Obj?, obj: Obj, ghost s: seq<Obj>, ghost r: seq<Obj>)
    returns (head': Obj?, tail': Obj?)
    requires Walk(s, null, head, tail) && obj !in s && r == [obj] + s
    modifies s, obj
    ensures Walk(r, null, head', tail')
  {
    hide Walk;
    head', tail' := head, tail;
    WalkChained(s, null, head, tail);
    obj.prev := null;
    obj.next := head;
    if tail == null {
      tail' := obj;
    }
    if head != null {
      head.prev := obj;
    }
    head' := obj;
    WalkChained(r, null, head', tail');
  }

  lemma {:induction false} OccupiedConcat(a: seq<Entry>, b: seq<Entry>, md: nat)
    ensures Occupied(a + b, md) == Occupied(a, md) + Occupied(b, md)
    decreases |b|
  {
    if b == [] {
      assert a + b == a;
    } else {
      OccupiedConcat(a, b[..|b| - 1], md);
      assert (a + b)[..|a + b| - 1] == a + b[..|b| - 1];
    }
  }

  /** Taking an entry out lowers the occupied bytes by its size and metadata. */
  lemma OccupiedWithout(q: seq<Entry>, k: nat, md: nat)
    requires k < |q|
    ensures Occupied(q, md) == Occupied(Without(q, k), md) + q[k].size + md
    ensures Occupied([q[k]] + Without(q, k), md) == Occupied(q, md)
  {
    var a, e, b := q[..k], [q[k]], q[k + 1..];
    assert q == a + e + b;
    OccupiedConcat(a + e, b, md);
    OccupiedConcat(a, e, md);
    OccupiedConcat(a, b, md);
    OccupiedConcat(e, a + b, md);
    assert e[..0] == [];
  }

  lemma EntriesShape(s: seq<Obj>, k: nat)
    requires k < |s|
    ensures Entries(Without(s, k)) == Without(Entries(s), k)
    ensures Entries([s[k]] + Without(s, k)) == [Entries(s)[k]] + Without(Entries(s), k)
    ensures Entries(s[..k]) == Entries(s)[..k]
  {
  }

  ghost function Members(s: seq<Obj>): set<Obj> {
    set i | 0 <= i < |s| :: s[i]
  }

  lemma MembersShape(s: seq<Obj>, k: nat)
    requires k < |s|
    ensures Members(Without(s, k)) <= Members(s) && Members([s[k]] + Without(s, k)) <= Members(s)
  {
    WithoutAt(s, k);
  }

  /** The hash table that finds each object of the list under its id. */
  ghost function TableOf(s: seq<Obj>): map<int, Obj> {
    if s == [] then map[] else TableOf(s[1..])[s[0].id := s[0]]
  }

  /** No id occurs twice in the list. */
  ghost predicate Unique(s: seq<Obj>) {
    s == [] || (s[0].id !in TableOf(s[1..]) && Unique(s[1..]))
  }

  /** The table, the list and the byte counter agree. */
  ghost predicate Accounted(table: map<int, Obj>, s: seq<Obj>, occupied: int, md: nat) {
    Unique(s) && table == TableOf(s) && occupied == Occupied(Entries(s), md)
  }

  lemma {:induction false} TableIndex(s: seq<Obj>, id: int) returns (k: nat)
    requires id in TableOf(s)
    ensures k < |s| && s[k] == TableOf(s)[id] && s[k].id == id
  {
    if s[0].id == id {
      k := 0;
    } else {
      k := TableIndex(s[1..], id);
      k := k + 1;
    }
  }

  lemma {:induction false} TableHolds(s: seq<Obj>)
    requires Unique(s)
    ensures Distinct(s) && forall i :: 0 <= i < |s| ==> s[i].id in TableOf(s)
  {
    if s != [] {
      TableHolds(s[1..]);
      assert forall i :: 1 <= i < |s| ==> s[i] == s[1..][i - 1];
    }
  }

  lemma {:induction false} RemovedTable(s: seq<Obj>, k: nat)
    requires Unique(s) && k < |s|
    ensures Unique(Without(s, k)) && TableOf(Without(s, k)) == TableOf(s) - {s[k].id}
  {
    hide TableOf, Unique;
    TableHolds(s);
    var o, t := s[0], s[1..];
    assert s == [o] + t;
    TableCons(o, t);
    if k == 0 {
      assert Without(s, 0) == t;
    } else {
      RemovedTable(t, k - 1);
      assert Without(s, k) == [o] + Without(t, k - 1);
      TableCons(o, Without(t, k - 1));
    }
  }

  lemma TableCons(o: Obj, t: seq<Obj>)
    ensures TableOf([o] + t) == TableOf(t)[o.id := o]
    ensures Unique([o] + t) <==> o.id !in TableOf(t) && Unique(t)
  {
    assert ([o] + t)[1..] == t;
  }

  lemma Removed(table: map<int, Obj>, s: seq<Obj>, occupied: int, md: nat, k: nat) returns (r: seq<Obj>)
    requires Accounted(table, s, occupied, md) && k < |s|
    ensures r == Without(s, k) && Members(r) <= Members(s) && Entries(r) == Without(Entries(s), k)
    ensures Accounted(table - {s[k].id}, r, occupied - (s[k].size + md), md)
  {
    r := Without(s, k);
    EntriesShape(s, k);
    MembersShape(s, k);
    OccupiedWithout(Entries(s), k, md);
    RemovedTable(s, k);
  }

  lemma Added(table: map<int, Obj>, s: seq<Obj>, occupied: int, md: nat, obj: Obj) returns (r: seq<Obj>)
    requires Accounted(table, s, occupied, md) && obj.id !in table
    ensures r == [obj] + s && Members(r) <= Members(s) + {obj}
    ensures Accounted(table[obj.id := obj], r, occupied + (obj.size + md), md)
    ensures Entries(r) == [Entry(obj.id, obj.size)] + Entries(s)
  {
    r := [obj] + s;
    var e := [Entry(obj.id, obj.size)];
    assert Entries(r) == e + Entries(s);
    OccupiedConcat(e, Entries(s), md);
    assert e[..0] == [];
    assert Occupied(e, md) == obj.size + md;
    assert r[1..] == s;
  }

  lemma FindAt(s: seq<Obj>, k: nat)
    requires Distinct(s) && k < |s|
    ensures Find(Entries(s), s[k].id) == k
  {
    assert forall i :: 0 <= i < |s| ==> Entries(s)[i].id == s[i].id;
  }

  lemma FindNone(s: seq<Obj>, id: int)
    requires Unique(s) && id !in TableOf(s)
    ensures Find(Entries(s), id) == |s|
  {
    TableHolds(s);
    assert forall i :: 0 <= i < |s| ==> Entries(s)[i].id == s[i].id;
  }

  /** Everything that promoting the object `id` means for the list, the table and the counters. */
  lemma PromotedTo(table: map<int, Obj>, s: seq<Obj>, occupied: int, md: nat, id: int) returns (k: nat, r: seq<Obj>)
    requires Accounted(table, s, occupied, md) && id in table
    ensures k < |s| && s[k] == table[id] && k == Find(Entries(s), id) && r == [s[k]] + Without(s, k)
    ensures Accounted(table, r, occupied, md) && Members(r) <= Members(s) && |r| == |s|
    ensures Entries(r) == [Entries(s)[k]] + Without(Entries(s), k)
  {
    hide TableOf, Unique, Entries, Members, Occupied, Without;
    k := TableIndex(s, id);
    WithoutAt(s, k);
    TableHolds(s);
    FindAt(s, k);
    EntriesShape(s, k);
    MembersShape(s, k);
    var t := Removed(table, s, occupied, md, k);
    r := Added(table - {id}, t, occupied - (s[k].size + md), md, s[k]);
    assert (table - {id})[id := s[k]] == table;
  }

  class Cache {
    const capacity: nat
    const mdSize: nat
    var table: map<int, Obj>
    var head: Obj?
    var tail: Obj?
    var occupied: int
    var nObj: int
    var nReq: int
    ghost var queue: seq<Obj>
    ghost var owned: set<Obj>

    ghost predicate Valid()
      reads this, owned
    {
      && Members(queue) <= owned
      && Walk(queue, null, head, tail)
      && Accounted(table, queue, occupied, mdSize)
      && occupied <= capacity && nObj == |queue|
    }

    constructor (capacity: nat, mdSize: nat)
      ensures Valid() && this.capacity == capacity && this.mdSize == mdSize
      ensures queue == [] && owned == {} && nReq == 0
    {
      this.capacity, this.mdSize := capacity, mdSize;
      table, head, tail, occupied, nObj, nReq, queue, owned := map[], null, null, 0, 0, 0, [], {};
    }

    /** `plugin_lru_find` with `update_cache`: a found object moves to the head. */
    method FindAndPromote(id: int) returns (obj: Obj?)
      requires Valid()
      modifies this`head, this`tail, this`queue, owned
      ensures Valid()
      ensures var q, i := old(Entries(queue)), Find(old(Entries(queue)), id);
              if i < |q| then obj != null && Entries(queue) == [q[i]] + Without(q, i)
              else obj == null && queue == old(queue) && id !in table
    {
      hide Walk, TableOf, Unique, Entries, Occupied;
      if id !in table {
        FindNone(queue, id);
        return null;
      }
      obj := table[id];
      TableHolds(queue);
      ghost var k, r := PromotedTo(table, queue, occupied, mdSize, id);
      head, tail := MoveToHead(head, tail, obj, queue, k, r);
      queue := r;
    }

    /** `remove_obj_from_list` followed by `cache_remove_obj_base`. */
    method Drop(obj: Obj, ghost k: nat)
      requires Valid() && k < |queue| && queue[k] == obj
      modifies this`head, this`tail, this`queue, this`table, this`occupied, this`nObj, owned
      ensures Valid() && queue == Without(old(queue), k) && table == old(table) - {obj.id}
    {
      hide Walk, TableOf, Unique, Entries, Occupied;
      TableHolds(queue);
      ghost var r := Removed(table, queue, occupied, mdSize, k);
      head, tail := RemoveFromList(head, tail, obj, queue, k, r);
      queue := r;
      occupied := occupied - (obj.size + mdSize);
      nObj := nObj - 1;
      table := table - {obj.id};
    }

    /** `plugin_lru_evict`: drop the tail. */
    method Evict()
      requires Valid() && queue != []
      modifies this`head, this`tail, this`queue, this`table, this`occupied, this`nObj, owned
      ensures Valid() && queue == old(queue[..|queue| - 1]) && table.Keys <= old(table.Keys)
    {
      ghost var k := |queue| - 1;
      WalkChained(queue, null, head, tail);
      Drop(tail, k);
      assert queue == old(queue[..|queue| - 1]);
    }

    /** `plugin_lru_remove`: drop an object by id, wherever it stands in the list. */
    method Remove(id: int) returns (found: bool)
      requires Valid()
      modifies this`head, this`tail, this`queue, this`table, this`occupied, this`nObj, owned
      ensures Valid()
      ensures var q, i := old(Entries(queue)), Find(old(Entries(queue)), id);
              found == (i < |q|) && Entries(queue) == if found then Without(q, i) else q
    {
      found := id in table;
      if found {
        ghost var k := TableIndex(queue, id);
        TableHolds(queue);
        FindAt(queue, k);
        EntriesShape(queue, k);
        Drop(table[id], k);
      } else {
        FindNone(queue, id);
      }
    }

    /** `plugin_lru_insert`: a new object enters at the head. */
    method Insert(id: int, size: nat)
      requires Valid() && id !in table && occupied + size + mdSize <= capacity
      modifies this`head, this`tail, this`queue, this`table, this`occupied, this`nObj, this`owned, owned
      ensures Valid() && fresh(owned - old(owned))
      ensures Entries(queue) == [Entry(id, size)] + old(Entries(queue))
    {
      hide Walk, TableOf, Unique, Entries, Occupied;
      var obj := new Obj(id, size);
      ghost var r := Added(table, queue, occupied, mdSize, obj);
      head, tail := PrependToHead(head, tail, obj, queue, r);
      queue := r;
      owned := owned + {obj};
      table := table[id := obj];
      occupied := occupied + (size + mdSize);
      nObj := nObj + 1;
    }

    /** The eviction loop of `cache_get_base`. */
    method MakeRoom(ghost id: int, size: nat)
      requires Valid() && size + mdSize <= capacity && id !in table
      modifies this`head, this`tail, this`queue, this`table, this`occupied, this`nObj, owned
      ensures Valid() && id !in table && occupied + size + mdSize <= capacity
      ensures Entries(queue) == EvictFor(old(Entries(queue)), mdSize, capacity, size + mdSize)
      ensures var q, k := old(Entries(queue)), |queue|;
              MostThatFits(q, k, mdSize, capacity, size + mdSize) && Entries(queue) == q[..k]
    {
      hide Walk, TableOf, Unique, Members, MostThatFits;
      while occupied + size + mdSize > capacity
        invariant Valid() && id !in table
        invariant EvictFor(Entries(queue), mdSize, capacity, size + mdSize)
                  == EvictFor(old(Entries(queue)), mdSize, capacity, size + mdSize)
        decreases |queue|
      {
        if queue != [] { EntriesShape(queue, |queue| - 1); }
        Evict();
      }
      EvictsLeast(old(Entries(queue)), mdSize, capacity, size + mdSize);
    }

    /** `cache_get_base`. */
    method Get(id: int, size: nat) returns (hit: bool)
      requires Valid()
      modifies this, owned
      ensures Valid() && fresh(owned - old(owned)) && nReq == old(nReq) + 1
      ensures Outcome(hit, Entries(queue)) == Access(old(Entries(queue)), mdSize, capacity, id, size)
      ensures Serves(old(Entries(queue)), mdSize, capacity, id, size, hit, Entries(queue))
    {
      hide Occupied, EvictFor, Walk, TableOf, Unique, Entries, Members, Accounted, Find, Serves;
      ghost var q := Entries(queue);
      ghost var i := Find(q, id);
      assert i < |q| ==> [q[i]] + Without(q, i) == [q[i]] + q[..i] + q[i + 1..];
      nReq := nReq + 1;
      var obj := FindAndPromote(id);
      hit := obj != null;
      if !hit && size + mdSize <= capacity {
        MakeRoom(id, size);
        Insert(id, size);
      }
      AccessServes(q, mdSize, capacity, id, size, hit, Entries(queue));
    }
  }
}
