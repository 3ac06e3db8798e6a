/**
 The open-addressing hash table of robin_hood.h.

 Every occupied slot has an info byte that encodes how far the slot is from the home bucket of its
 key, in units of `inc`, plus a few bits of the hash. Slots past the last bucket form an overflow
 buffer, and a sentinel byte closes the table.
 */
module RobinHood {

  datatype Node = Node(key: int, val: int)

  /** The parameters of a table: buckets, slots with the overflow buffer, and the layout of info bytes. */
  datatype Shape = Shape(buckets: nat, slots: nat, shift: nat) {
    function Inc(): nat {
      match shift case 0 => 32 case 1 => 16 case 2 => 8 case 3 => 4 case _ => 2
    }

    predicate Ok() {
      buckets >= 1 && slots == SlotsFor(buckets) && shift <= 4
    }
  }

  const MAX_LOAD_FACTOR_100 := 80
  const PADDING := 8

  /** `calcMaxNumElementsAllowed`. */
  function Allowed(buckets: nat): nat {
    buckets * MAX_LOAD_FACTOR_100 / 100
  }

  /** `calcNumElementsWithBuffer`. */
  function SlotsFor(buckets: nat): nat {
    buckets + if Allowed(buckets) < 255 then Allowed(buckets) else 255
  }

  type Hash = int -> nat

  /** `keyToIdx`: the bucket of a key, from the upper bits of its hash. */
  function Home(h: Hash, s: Shape, k: int): nat
    requires s.buckets >= 1
  {
    h(k) / 32 % s.buckets
  }

  /** `keyToIdx`: the hash bits kept in the info byte. */
  function Bits(h: Hash, s: Shape, k: int): nat {
    var low := h(k) % 32;
    match s.shift case 0 => low case 1 => low / 2 case 2 => low / 4 case 3 => low / 8 case _ => low / 16
  }

  /** The info value a probe for `k` carries when it looks at slot `i`. */
  function Probe(h: Hash, s: Shape, k: int, i: int): int
    requires s.buckets >= 1
  {
    (i - Home(h, s, k) + 1) * s.Inc() + Bits(h, s, k)
  }

  lemma BitsBelow(h: Hash, s: Shape, k: int)
    ensures Bits(h, s, k) < s.Inc()
  {
  }

  lemma ProbeStep(h: Hash, s: Shape, k: int, i: int)
    requires s.buckets >= 1
    ensures Probe(h, s, k, i + 1) == Probe(h, s, k, i) + s.Inc()
    ensures Probe(h, s, k, Home(h, s, k)) == s.Inc() + Bits(h, s, k)
  {
    var d := i - Home(h, s, k) + 1;
    assert (d + 1) * s.Inc() == d * s.Inc() + s.Inc();
  }

  /** A probe away from the home bucket carries at least twice the increment, and only then. */
  lemma ProbeAway(h: Hash, s: Shape, k: int, i: int)
    requires s.buckets >= 1
    ensures Probe(h, s, k, i) >= 2 * s.Inc() <==> i > Home(h, s, k)
    ensures Probe(h, s, k, i) >= s.Inc() <==> i >= Home(h, s, k)
    ensures i >= Home(h, s, k) ==> Probe(h, s, k, i) >= 2 * (i - Home(h, s, k) + 1)
  {
    BitsBelow(h, s, k);
    var d := i - Home(h, s, k) + 1;
    var inc := s.Inc();
    if d >= 2 { assert d * inc >= 2 * inc; }
    if d <= 1 { assert d * inc <= inc; }
    if d <= 0 { assert d * inc <= 0; }
    if d >= 1 { assert d * inc >= inc; assert d * inc >= d * 2; }
  }

  // ---------- the invariant ----------

  /** Bytes in range, then the sentinel, then zeros; the empty table has no sentinel. */
  ghost predicate Bytes(s: Shape, info: seq<int>) {
    && |info| == s.slots + PADDING
    && (forall i :: 0 <= i < |info| ==> 0 <= info[i] <= 255)
    && info[s.slots] == (if s.buckets == 1 then 0 else 1)
    && (forall i :: s.slots < i < |info| ==> info[i] == 0)
  }

  /** The order that lets searches stop early: info rises by at most one increment per slot. */
  ghost predicate Descends(inc: int, info: seq<int>, j: int)
    requires 1 <= j < |info|
  {
    info[j] >= 2 * inc ==> info[j - 1] >= info[j] - inc
  }

  ghost predicate Ordered(s: Shape, info: seq<int>)
    requires |info| == s.slots + PADDING
  {
    forall j :: 1 <= j <= s.slots ==> Descends(s.Inc(), info, j)
  }

  /** What an occupied slot says: its byte is the probe of its key, and the index knows the slot. */
  ghost predicate SlotOk(h: Hash, s: Shape, info: seq<int>, nodes: seq<Node>, slot: map<int, int>, i: int)
    requires s.buckets >= 1 && |info| == s.slots + PADDING && |nodes| == s.slots && 0 <= i < s.slots
  {
    info[i] != 0 ==>
      var k := nodes[i].key;
      Home(h, s, k) <= i && info[i] == Probe(h, s, k, i) && k in slot && slot[k] == i
  }

  /** The index leads every key to a slot that holds it. */
  ghost predicate KeyOk(s: Shape, info: seq<int>, nodes: seq<Node>, slot: map<int, int>, k: int)
    requires |info| == s.slots + PADDING && |nodes| == s.slots && k in slot
  {
    0 <= slot[k] < s.slots && info[slot[k]] != 0 && nodes[slot[k]].key == k
  }

  ghost predicate Table(h: Hash, s: Shape, info: seq<int>, nodes: seq<Node>, slot: map<int, int>) {
    && s.Ok() && |nodes| == s.slots
    && Bytes(s, info) && Ordered(s, info)
    && (forall i :: 0 <= i < s.slots ==> SlotOk(h, s, info, nodes, slot, i))
    && (forall k <- slot :: KeyOk(s, info, nodes, slot, k))
  }

  datatype RawTable = RawTable(h: Hash, s: Shape, info: seq<int>, nodes: seq<Node>, slot: map<int, int>)

  /** A table that satisfies the invariant. */
  type SoundTable = t: RawTable | Table(t.h, t.s, t.info, t.nodes, t.slot)
    ghost witness RawTable(k => 0, Shape(1, 1, 0), [0, 0, 0, 0, 0, 0, 0, 0, 0], [Node(0, 0)], map[])

  /** The finite map a table stands for. */
  ghost function Contents(nodes: seq<Node>, slot: map<int, int>): map<int, int>
    requires forall k <- slot :: 0 <= slot[k] < |nodes|
  {
    map k <- slot :: nodes[slot[k]].val
  }

  // ---------- searching ----------

  /** Between its home bucket and its slot, a key's probe never exceeds the byte it meets. */
  lemma {:induction false} ProbeMeets(h: Hash, s: Shape, info: seq<int>, nodes: seq<Node>, slot: map<int, int>, k: int, j: int)
    requires Table(h, s, info, nodes, slot) && k in slot && Home(h, s, k) <= j <= slot[k]
    ensures info[j] >= Probe(h, s, k, j)
    ensures j == slot[k] ==> info[j] == Probe(h, s, k, j)
    decreases slot[k] - j
  {
    assert KeyOk(s, info, nodes, slot, k);
    if j == slot[k] {
      assert SlotOk(h, s, info, nodes, slot, j);
    } else {
      ProbeMeets(h, s, info, nodes, slot, k, j + 1);
      ProbeStep(h, s, k, j);
      ProbeAway(h, s, k, j + 1);
      assert Descends(s.Inc(), info, j + 1);
    }
  }

  /** A probe that exceeds the byte it meets has passed every place its key could be. */
  lemma SearchEnds(h: Hash, s: Shape, info: seq<int>, nodes: seq<Node>, slot: map<int, int>, k: int, j: int)
    requires Table(h, s, info, nodes, slot) && Home(h, s, k) <= j < |info| && info[j] < Probe(h, s, k, j)
    ensures k in slot ==> slot[k] < j
  {
    if k in slot && j <= slot[k] {
      ProbeMeets(h, s, info, nodes, slot, k, j);
    }
  }

  /** No probe gets past the sentinel. */
  lemma ProbeInside(h: Hash, s: Shape, info: seq<int>, k: int, j: int)
    requires s.Ok() && Bytes(s, info) && Home(h, s, k) <= j < |info| && Probe(h, s, k, j) <= info[j]
    ensures j < s.slots
  {
    ProbeAway(h, s, k, j);
  }

  /** A probe for `k` that has not been decided before slot `j`. */
  ghost predicate Probing(h: Hash, s: Shape, slot: map<int, int>, k: int, j: int, probe: int)
    requires s.buckets >= 1
  {
    Home(h, s, k) <= j && probe == Probe(h, s, k, j) && (k in slot ==> j <= slot[k])
  }

  lemma ProbeStarts(h: Hash, s: Shape, info: seq<int>, nodes: seq<Node>, slot: map<int, int>, k: int)
    requires Table(h, s, info, nodes, slot)
    ensures Probing(h, s, slot, k, Home(h, s, k), s.Inc() + Bits(h, s, k)) && Home(h, s, k) < s.buckets <= s.slots
  {
    ProbeStep(h, s, k, 0);
    if k in slot {
      assert KeyOk(s, info, nodes, slot, k);
      assert SlotOk(h, s, info, nodes, slot, slot[k]);
    }
  }

  /** Deciding slot `j`: either the key is there, or the probe moves on. */
  lemma ProbeDecides(h: Hash, s: Shape, info: seq<int>, nodes: seq<Node>, slot: map<int, int>, k: int, j: int, probe: int)
    requires Table(h, s, info, nodes, slot) && Probing(h, s, slot, k, j, probe) && j < |info|
    ensures info[j] == probe ==> j < s.slots
    ensures info[j] == probe && nodes[j].key == k ==> k in slot && slot[k] == j
    ensures !(info[j] == probe && nodes[j].key == k) ==> Probing(h, s, slot, k, j + 1, probe + s.Inc())
  {
    ProbeStep(h, s, k, j);
    ProbeAway(h, s, k, j);
    if info[j] == probe {
      ProbeInside(h, s, info, k, j);
      assert SlotOk(h, s, info, nodes, slot, j);
    }
    if k in slot && slot[k] == j {
      assert KeyOk(s, info, nodes, slot, k);
      assert SlotOk(h, s, info, nodes, slot, j);
    }
  }

  // ---------- room in the overflow buffer ----------

  /** The number of occupied slots. */
  ghost function Used(info: seq<int>): nat {
    if info == [] then 0 else Used(info[..|info| - 1]) + (if info[|info| - 1] != 0 then 1 else 0)
  }

  lemma {:induction false} UsedConcat(a: seq<int>, b: seq<int>)
    ensures Used(a + b) == Used(a) + Used(b)
    decreases |b|
  {
    if b == [] {
      assert a + b == a;
    } else {
      UsedConcat(a, b[..|b| - 1]);
      assert (a + b)[..|a + b| - 1] == a + b[..|b| - 1];
    }
  }

  lemma {:induction false} UsedFull(a: seq<int>)
    requires forall i :: 0 <= i < |a| ==> a[i] != 0
    ensures Used(a) == |a|
  {
    if a != [] {
      UsedFull(a[..|a| - 1]);
    }
  }

  /** All slots from the home bucket of an entry up to the entry are occupied. */
  lemma {:induction false} RunOccupied(h: Hash, s: Shape, info: seq<int>, nodes: seq<Node>, slot: map<int, int>, i: int, j: int)
    requires Table(h, s, info, nodes, slot) && 0 <= i < s.slots && info[i] != 0
    requires Home(h, s, nodes[i].key) <= j <= i
    ensures info[j] != 0
  {
    var k := nodes[i].key;
    assert SlotOk(h, s, info, nodes, slot, i);
    ProbeMeets(h, s, info, nodes, slot, k, j);
    ProbeAway(h, s, k, j);
  }

  /** An entry is less far from home than there are entries. */
  lemma DisplacementBelow(h: Hash, s: Shape, info: seq<int>, nodes: seq<Node>, slot: map<int, int>, i: int)
    requires Table(h, s, info, nodes, slot) && 0 <= i < s.slots && info[i] != 0
    ensures 0 <= Home(h, s, nodes[i].key) <= i
    ensures i - Home(h, s, nodes[i].key) < Used(info[..s.slots])
  {
    hide Ordered, KeyOk, Home, Probe;
    assert SlotOk(h, s, info, nodes, slot, i);
    var a := Home(h, s, nodes[i].key);
    var run := info[a..i + 1];
    forall j | 0 <= j < |run| ensures run[j] != 0 {
      RunOccupied(h, s, info, nodes, slot, i, a + j);
    }
    UsedFull(run);
    UsedParts(info, a, i + 1, s.slots);
  }

  lemma UsedParts(info: seq<int>, a: nat, b: nat, n: nat)
    requires a <= b <= n <= |info|
    ensures Used(info[..n]) == Used(info[..a]) + Used(info[a..b]) + Used(info[b..n])
  {
    assert info[..n] == (info[..a] + info[a..b]) + info[b..n];
    UsedConcat(info[..a] + info[a..b], info[b..n]);
    UsedConcat(info[..a], info[a..b]);
  }

  /**
   Under the load limit the last slot of the overflow buffer stays empty, so the search for an
   empty slot ends before the sentinel.
   */
  lemma LastSlotEmpty(h: Hash, s: Shape, info: seq<int>, nodes: seq<Node>, slot: map<int, int>)
    requires Table(h, s, info, nodes, slot) && Used(info[..s.slots]) <= Allowed(s.buckets) && 0 < Allowed(s.buckets)
    ensures info[s.slots - 1] == 0
  {
    hide Ordered, KeyOk, Used, Home, Probe;
    var i := s.slots - 1;
    var k := nodes[i].key;
    HomeBelow(h, s, k);
    ProbeAway(h, s, k, i);
    assert SlotOk(h, s, info, nodes, slot, i);
    if info[i] != 0 {
      DisplacementBelow(h, s, info, nodes, slot, i);
    }
  }

  lemma HomeBelow(h: Hash, s: Shape, k: int)
    requires s.buckets >= 1
    ensures Home(h, s, k) < s.buckets
  {
  }

  /** A table of so many entries has headroom under the finest layout, whatever the hash function. */
  const SURE_HEADROOM := 126

  lemma FinestHeadroom(h: Hash, s: Shape, info: seq<int>, nodes: seq<Node>, slot: map<int, int>)
    requires Table(h, s, info, nodes, slot) && s.shift == 4 && Used(info[..s.slots]) <= SURE_HEADROOM
    ensures Headroom(s, info)
  {
    hide Ordered, KeyOk, Used;
    forall i | 0 <= i < s.slots ensures info[i] + s.Inc() <= 255 {
      if info[i] != 0 {
        assert SlotOk(h, s, info, nodes, slot, i);
        DisplacementBelow(h, s, info, nodes, slot, i);
        BitsBelow(h, s, nodes[i].key);
      }
    }
  }

  lemma {:induction false} UsedWithin(a: seq<int>, lo: nat, n: nat)
    requires forall i :: 0 <= i < |a| && a[i] != 0 ==> lo <= i < lo + n
    ensures Used(a) <= n && Used(a) <= if |a| >= lo then |a| - lo else 0
  {
    if a != [] {
      UsedWithin(a[..|a| - 1], lo, n);
    }
  }

  /** When all keys collide, the displacements use up the info bytes: no table holds more than 127 entries. */
  lemma CollidingBound(h: Hash, s: Shape, info: seq<int>, nodes: seq<Node>, slot: map<int, int>)
    requires Table(h, s, info, nodes, slot) && forall k :: h(k) == h(0)
    ensures Used(info[..s.slots]) <= SURE_HEADROOM + 1
  {
    hide Ordered, KeyOk, Used;
    var lo := Home(h, s, 0);
    var a := info[..s.slots];
    forall i | 0 <= i < |a| && a[i] != 0 ensures lo <= i < lo + 127 {
      assert SlotOk(h, s, info, nodes, slot, i);
      ProbeAway(h, s, nodes[i].key, i);
    }
    UsedWithin(a, lo, 127);
  }

  // ---------- inserting ----------

  function Bumped(a: seq<int>, d: int): (b: seq<int>)
    ensures |b| == |a|
  {
    seq(|a|, i requires 0 <= i < |a| => a[i] + d)
  }

  /** The info bytes after an insertion at `a` that pushes everything up to the empty slot `e`. */
  function PushedInfo(info: seq<int>, a: int, e: int, byte: int, inc: int): (r: seq<int>)
    requires 0 <= a <= e < |info|
    ensures |r| == |info|
  {
    info[..a] + [byte] + Bumped(info[a..e], inc) + info[e + 1..]
  }

  function PushedNodes(nodes: seq<Node>, a: int, e: int, n: Node): (r: seq<Node>)
    requires 0 <= a <= e < |nodes|
    ensures |r| == |nodes|
  {
    nodes[..a] + [n] + nodes[a..e] + nodes[e + 1..]
  }

  ghost function PushedSlot(slot: map<int, int>, a: int, e: int, k: int): map<int, int> {
    (map x <- slot :: if a <= slot[x] < e then slot[x] + 1 else slot[x])[k := a]
  }

  lemma PushedInfoAt(info: seq<int>, a: int, e: int, byte: int, inc: int, j: int)
    requires 0 <= a <= e < |info| && 0 <= j < |info|
    ensures PushedInfo(info, a, e, byte, inc)[j] == if j == a then byte else if a < j <= e then info[j - 1] + inc else info[j]
  {
  }

  lemma PushedNodesAt(nodes: seq<Node>, a: int, e: int, n: Node, j: int)
    requires 0 <= a <= e < |nodes| && 0 <= j < |nodes|
    ensures PushedNodes(nodes, a, e, n)[j] == if j == a then n else if a < j <= e then nodes[j - 1] else nodes[j]
  {
  }

  lemma IsPushedInfo(info: seq<int>, a: int, e: int, byte: int, inc: int, r: seq<int>)
    requires 0 <= a <= e < |info| == |r| && r[a] == byte
    requires forall j :: a < j <= e ==> r[j] == info[j - 1] + inc
    requires forall j :: 0 <= j < a || e < j < |r| ==> r[j] == info[j]
    ensures r == PushedInfo(info, a, e, byte, inc)
  {
    var p := PushedInfo(info, a, e, byte, inc);
    forall j | 0 <= j < |r| ensures p[j] == r[j] {
      PushedInfoAt(info, a, e, byte, inc, j);
    }
  }

  lemma IsPushedNodes(nodes: seq<Node>, a: int, e: int, n: Node, r: seq<Node>)
    requires 0 <= a <= e < |nodes| == |r| && r[a] == n
    requires forall j :: a < j <= e ==> r[j] == nodes[j - 1]
    requires forall j :: 0 <= j < a || e < j < |r| ==> r[j] == nodes[j]
    ensures r == PushedNodes(nodes, a, e, n)
  {
    var p := PushedNodes(nodes, a, e, n);
    forall j | 0 <= j < |r| ensures p[j] == r[j] {
      PushedNodesAt(nodes, a, e, n, j);
    }
  }

  /** Where a new key may go: its probe wins at `a`, and lost everywhere from its home bucket up to `a`. */
  ghost predicate InsertionPoint(h: Hash, s: Shape, info: seq<int>, k: int, a: int)
    requires s.buckets >= 1 && |info| == s.slots + PADDING
  {
    && Home(h, s, k) <= a < s.slots && info[a] < Probe(h, s, k, a)
    && (a > Home(h, s, k) ==> info[a - 1] >= Probe(h, s, k, a) - s.Inc())
  }

  /** No byte of the table would overflow if it were pushed one slot on. */
  ghost predicate Headroom(s: Shape, info: seq<int>)
    requires |info| == s.slots + PADDING
  {
    forall i :: 0 <= i < s.slots ==> info[i] + s.Inc() <= 255
  }

  lemma PushedOrdered(s: Shape, info: seq<int>, a: int, e: int, byte: int, j: int)
    requires |info| == s.slots + PADDING && 0 <= a <= e < s.slots && 1 <= j <= s.slots && Ordered(s, info)
    requires info[e] == 0 && forall i :: a <= i < e ==> info[i] >= s.Inc()
    requires info[a] < byte && byte >= s.Inc() && (byte >= 2 * s.Inc() ==> a > 0 && info[a - 1] >= byte - s.Inc())
    ensures Descends(s.Inc(), PushedInfo(info, a, e, byte, s.Inc()), j)
  {
    PushedInfoAt(info, a, e, byte, s.Inc(), j);
    PushedInfoAt(info, a, e, byte, s.Inc(), j - 1);
    assert Descends(s.Inc(), info, j);
    if j >= 2 { assert Descends(s.Inc(), info, j - 1); }
  }

  /** The situation in which a new node is pushed in. */
  ghost predicate CanPush(h: Hash, s: Shape, info: seq<int>, nodes: seq<Node>, slot: map<int, int>, k: int, a: int, e: int) {
    && Table(h, s, info, nodes, slot) && Headroom(s, info) && k !in slot
    && InsertionPoint(h, s, info, k, a) && a <= e < s.slots
    && info[e] == 0 && (forall i :: a <= i < e ==> info[i] != 0)
  }

  lemma PushedByte(h: Hash, s: Shape, info: seq<int>, nodes: seq<Node>, slot: map<int, int>, k: int, a: int, e: int)
    requires CanPush(h, s, info, nodes, slot, k, a, e)
    ensures s.Inc() <= Probe(h, s, k, a) <= 255
    ensures Probe(h, s, k, a) >= 2 * s.Inc() ==> a > 0 && info[a - 1] >= Probe(h, s, k, a) - s.Inc()
    ensures forall i :: a <= i < e ==> info[i] >= s.Inc()
  {
    ProbeAway(h, s, k, a);
    BitsBelow(h, s, k);
    ProbeStep(h, s, k, a);
    forall i | a <= i < e ensures info[i] >= s.Inc() {
      assert SlotOk(h, s, info, nodes, slot, i);
      ProbeAway(h, s, nodes[i].key, i);
    }
  }

  lemma PushedBytes(h: Hash, s: Shape, info: seq<int>, nodes: seq<Node>, slot: map<int, int>, k: int, a: int, e: int)
    requires CanPush(h, s, info, nodes, slot, k, a, e)
    ensures var r := PushedInfo(info, a, e, Probe(h, s, k, a), s.Inc()); Bytes(s, r) && Ordered(s, r)
  {
    var byte := Probe(h, s, k, a);
    var r := PushedInfo(info, a, e, byte, s.Inc());
    PushedByte(h, s, info, nodes, slot, k, a, e);
    forall i | 0 <= i < |info|
      ensures r[i] == if i == a then byte else if a < i <= e then info[i - 1] + s.Inc() else info[i] {
      PushedInfoAt(info, a, e, byte, s.Inc(), i);
    }
    forall j | 1 <= j <= s.slots ensures Descends(s.Inc(), r, j) {
      PushedOrdered(s, info, a, e, byte, j);
    }
  }

  lemma PushedSlotOk(h: Hash, s: Shape, info: seq<int>, nodes: seq<Node>, slot: map<int, int>, n: Node, a: int, e: int, i: int)
    requires CanPush(h, s, info, nodes, slot, n.key, a, e) && 0 <= i < s.slots
    ensures SlotOk(h, s, PushedInfo(info, a, e, Probe(h, s, n.key, a), s.Inc()), PushedNodes(nodes, a, e, n),
                   PushedSlot(slot, a, e, n.key), i)
  {
    PushedInfoAt(info, a, e, Probe(h, s, n.key, a), s.Inc(), i);
    PushedNodesAt(nodes, a, e, n, i);
    assert SlotOk(h, s, info, nodes, slot, i);
    if i > 0 {
      assert SlotOk(h, s, info, nodes, slot, i - 1);
      ProbeStep(h, s, nodes[i - 1].key, i - 1);
    }
  }

  /** Where the entry of `x` stands after the push. */
  lemma PushedEntry(s: Shape, info: seq<int>, nodes: seq<Node>, slot: map<int, int>, n: Node, a: int, e: int, byte: int, x: int)
    requires |info| == s.slots + PADDING && |nodes| == s.slots && 0 <= a <= e < s.slots
    requires info[e] == 0 && byte > 0 && (forall i :: a <= i < e ==> info[i] > 0) && n.key !in slot
    requires x in PushedSlot(slot, a, e, n.key) && (x in slot ==> KeyOk(s, info, nodes, slot, x))
    ensures KeyOk(s, PushedInfo(info, a, e, byte, s.Inc()), PushedNodes(nodes, a, e, n), PushedSlot(slot, a, e, n.key), x)
    ensures x in slot ==> PushedNodes(nodes, a, e, n)[PushedSlot(slot, a, e, n.key)[x]] == nodes[slot[x]]
  {
    var i := PushedSlot(slot, a, e, n.key)[x];
    PushedInfoAt(info, a, e, byte, s.Inc(), i);
    PushedNodesAt(nodes, a, e, n, i);
  }

  lemma PushedKeyOk(h: Hash, s: Shape, info: seq<int>, nodes: seq<Node>, slot: map<int, int>, n: Node, a: int, e: int, x: int)
    requires CanPush(h, s, info, nodes, slot, n.key, a, e) && x in PushedSlot(slot, a, e, n.key)
    ensures KeyOk(s, PushedInfo(info, a, e, Probe(h, s, n.key, a), s.Inc()), PushedNodes(nodes, a, e, n),
                  PushedSlot(slot, a, e, n.key), x)
    ensures x in slot ==> PushedNodes(nodes, a, e, n)[PushedSlot(slot, a, e, n.key)[x]] == nodes[slot[x]]
  {
    hide Ordered, Probe, SlotOk, Headroom, PushedInfo, PushedNodes;
    PushedByte(h, s, info, nodes, slot, n.key, a, e);
    assert x in slot ==> KeyOk(s, info, nodes, slot, x);
    PushedEntry(s, info, nodes, slot, n, a, e, Probe(h, s, n.key, a), x);
  }

  lemma PushedUsed(info: seq<int>, a: int, e: int, byte: int, inc: int, slots: int)
    requires 0 <= a <= e < slots <= |info| && byte > 0 && inc > 0 && info[e] == 0
    requires forall i :: a <= i < e ==> info[i] > 0
    ensures Used(PushedInfo(info, a, e, byte, inc)[..slots]) == Used(info[..slots]) + 1
  {
    var r := PushedInfo(info, a, e, byte, inc)[..slots];
    var run := info[a..e];
    UsedFull(run);
    UsedFull([byte] + Bumped(run, inc));
    var tail := info[e + 1..slots];
    assert r == info[..a] + ([byte] + Bumped(run, inc)) + tail;
    assert info[..slots] == info[..a] + (run + [0]) + tail;
    UsedConcat(info[..a] + ([byte] + Bumped(run, inc)), tail);
    UsedConcat(info[..a], [byte] + Bumped(run, inc));
    UsedConcat(info[..a] + (run + [0]), tail);
    UsedConcat(info[..a], run + [0]);
    UsedConcat(run, [0]);
    assert [0][..0] == [];
  }

  lemma PushTable(h: Hash, s: Shape, info: seq<int>, nodes: seq<Node>, slot: map<int, int>, n: Node, a: int, e: int)
    requires CanPush(h, s, info, nodes, slot, n.key, a, e)
    ensures Table(h, s, PushedInfo(info, a, e, Probe(h, s, n.key, a), s.Inc()),
                  PushedNodes(nodes, a, e, n), PushedSlot(slot, a, e, n.key))
  {
    var info', nodes', slot' := PushedInfo(info, a, e, Probe(h, s, n.key, a), s.Inc()),
                                PushedNodes(nodes, a, e, n), PushedSlot(slot, a, e, n.key);
    PushedBytes(h, s, info, nodes, slot, n.key, a, e);
    forall i | 0 <= i < s.slots ensures SlotOk(h, s, info', nodes', slot', i) {
      PushedSlotOk(h, s, info, nodes, slot, n, a, e, i);
    }
    forall x | x in slot' ensures KeyOk(s, info', nodes', slot', x) {
      PushedKeyOk(h, s, info, nodes, slot, n, a, e, x);
    }
  }

  /** The contents are compared key by key. */
  lemma ContentsWith(nodes: seq<Node>, slot: map<int, int>, nodes': seq<Node>, slot': map<int, int>, n: Node)
    requires (forall x <- slot :: 0 <= slot[x] < |nodes|) && slot'.Keys == slot.Keys + {n.key}
    requires forall x <- slot' :: 0 <= slot'[x] < |nodes'| && nodes'[slot'[x]].val == if x == n.key then n.val else nodes[slot[x]].val
    ensures Contents(nodes', slot') == Contents(nodes, slot)[n.key := n.val]
  {
    var c, d := Contents(nodes', slot'), Contents(nodes, slot)[n.key := n.val];
    assert c.Keys == d.Keys;
    assert forall x <- slot' :: c[x] == d[x];
  }

  lemma PushContents(h: Hash, s: Shape, info: seq<int>, nodes: seq<Node>, slot: map<int, int>, n: Node, a: int, e: int)
    requires CanPush(h, s, info, nodes, slot, n.key, a, e)
    ensures var nodes', slot' := PushedNodes(nodes, a, e, n), PushedSlot(slot, a, e, n.key);
            && (forall x <- slot' :: 0 <= slot'[x] < |nodes'|)
            && Contents(nodes', slot') == Contents(nodes, slot)[n.key := n.val]
  {
    hide Ordered, SlotOk, Contents;
    var nodes', slot' := PushedNodes(nodes, a, e, n), PushedSlot(slot, a, e, n.key);
    PushedNodesAt(nodes, a, e, n, a);
    forall x | x in slot' ensures 0 <= slot'[x] < |nodes'|
      ensures nodes'[slot'[x]].val == if x == n.key then n.val else nodes[slot[x]].val
    {
      PushedKeyOk(h, s, info, nodes, slot, n, a, e, x);
    }
    assert slot'.Keys == slot.Keys + {n.key};
    SlotsInside(h, s, info, nodes, slot);
    ContentsWith(nodes, slot, nodes', slot', n);
  }

  lemma SlotsInside(h: Hash, s: Shape, info: seq<int>, nodes: seq<Node>, slot: map<int, int>)
    requires Table(h, s, info, nodes, slot)
    ensures forall k <- slot :: 0 <= slot[k] < |nodes| && nodes[slot[k]].key == k
  {
    forall k | k in slot ensures 0 <= slot[k] < |nodes| && nodes[slot[k]].key == k {
      assert KeyOk(s, info, nodes, slot, k);
    }
  }

  /** Pushing a node in keeps the table sound and adds exactly that node to the map. */
  lemma PushKeeps(h: Hash, s: Shape, info: seq<int>, nodes: seq<Node>, slot: map<int, int>, n: Node, a: int, e: int)
    requires CanPush(h, s, info, nodes, slot, n.key, a, e)
    ensures var info', nodes', slot' := PushedInfo(info, a, e, Probe(h, s, n.key, a), s.Inc()),
                                        PushedNodes(nodes, a, e, n), PushedSlot(slot, a, e, n.key);
            && Table(h, s, info', nodes', slot')
            && Used(info'[..s.slots]) == Used(info[..s.slots]) + 1
            && Contents(nodes', slot') == Contents(nodes, slot)[n.key := n.val]
  {
    PushTable(h, s, info, nodes, slot, n, a, e);
    PushContents(h, s, info, nodes, slot, n, a, e);
    PushedByte(h, s, info, nodes, slot, n.key, a, e);
    PushedUsed(info, a, e, Probe(h, s, n.key, a), s.Inc(), s.slots);
  }

  // ---------- erasing ----------

  /** The info bytes after the node at `a` is erased and the run up to `e` moves back by one. */
  function PulledInfo(info: seq<int>, a: int, e: int, inc: int): (r: seq<int>)
    requires 0 <= a <= e < |info|
    ensures |r| == |info|
  {
    info[..a] + Bumped(info[a + 1..e + 1], -inc) + [0] + info[e + 1..]
  }

  /** Slot `e` is left with a stale node. */
  function PulledNodes(nodes: seq<Node>, a: int, e: int): (r: seq<Node>)
    requires 0 <= a <= e < |nodes|
    ensures |r| == |nodes|
  {
    nodes[..a] + nodes[a + 1..e + 1] + nodes[e..]
  }

  ghost function PulledSlot(slot: map<int, int>, a: int, e: int): map<int, int> {
    map x <- slot | slot[x] != a :: if a < slot[x] <= e then slot[x] - 1 else slot[x]
  }

  /** The run that moves back: every slot after `a` up to `e` is away from home, the next one is not. */
  ghost predicate CanPull(h: Hash, s: Shape, info: seq<int>, nodes: seq<Node>, slot: map<int, int>, a: int, e: int) {
    && Table(h, s, info, nodes, slot)
    && 0 <= a <= e < s.slots && info[a] != 0
    && (forall i :: a < i <= e ==> info[i] >= 2 * s.Inc())
    && info[e + 1] < 2 * s.Inc()
  }

  lemma PulledInfoAt(info: seq<int>, a: int, e: int, inc: int, j: int)
    requires 0 <= a <= e < |info| - 1 && 0 <= j < |info|
    ensures PulledInfo(info, a, e, inc)[j] == if j == e then 0 else if a <= j < e then info[j + 1] - inc else info[j]
  {
  }

  lemma IsPulled(info: seq<int>, nodes: seq<Node>, a: int, e: int, inc: int, r: seq<int>, m: seq<Node>)
    requires 0 <= a <= e < |nodes| < |info| == |r| && |m| == |nodes|
    requires r[e] == 0 && forall j :: 0 <= j < a || e < j < |r| ==> r[j] == info[j]
    requires forall j :: a <= j < e ==> r[j] == info[j + 1] - inc
    requires forall j :: 0 <= j < a || e <= j < |m| ==> m[j] == nodes[j]
    requires forall j :: a <= j < e ==> m[j] == nodes[j + 1]
    ensures r == PulledInfo(info, a, e, inc) && m == PulledNodes(nodes, a, e)
  {
    var p, q := PulledInfo(info, a, e, inc), PulledNodes(nodes, a, e);
    forall j | 0 <= j < |r| ensures p[j] == r[j] {
      PulledInfoAt(info, a, e, inc, j);
    }
    forall j | 0 <= j < |m| ensures q[j] == m[j] {
      PulledNodesAt(nodes, a, e, j);
    }
  }

  lemma PulledNodesAt(nodes: seq<Node>, a: int, e: int, j: int)
    requires 0 <= a <= e < |nodes| && 0 <= j < |nodes|
    ensures a <= j < e ==> PulledNodes(nodes, a, e)[j] == nodes[j + 1]
    ensures j < a || j >= e ==> PulledNodes(nodes, a, e)[j] == nodes[j]
  {
  }

  lemma PulledOrdered(h: Hash, s: Shape, info: seq<int>, nodes: seq<Node>, slot: map<int, int>, a: int, e: int, j: int)
    requires CanPull(h, s, info, nodes, slot, a, e) && 1 <= j <= s.slots
    ensures Descends(s.Inc(), PulledInfo(info, a, e, s.Inc()), j)
  {
    PulledInfoAt(info, a, e, s.Inc(), j);
    PulledInfoAt(info, a, e, s.Inc(), j - 1);
    assert Descends(s.Inc(), info, j);
    if j < s.slots { assert Descends(s.Inc(), info, j + 1); }
  }

  lemma PulledSlotOk(h: Hash, s: Shape, info: seq<int>, nodes: seq<Node>, slot: map<int, int>, a: int, e: int, i: int)
    requires CanPull(h, s, info, nodes, slot, a, e) && 0 <= i < s.slots
    ensures SlotOk(h, s, PulledInfo(info, a, e, s.Inc()), PulledNodes(nodes, a, e), PulledSlot(slot, a, e), i)
  {
    PulledInfoAt(info, a, e, s.Inc(), i);
    PulledNodesAt(nodes, a, e, i);
    assert SlotOk(h, s, info, nodes, slot, i);
    if a <= i < e {
      assert SlotOk(h, s, info, nodes, slot, i + 1);
      ProbeStep(h, s, nodes[i + 1].key, i);
      ProbeAway(h, s, nodes[i + 1].key, i + 1);
    }
  }

  lemma PulledKeyOk(h: Hash, s: Shape, info: seq<int>, nodes: seq<Node>, slot: map<int, int>, a: int, e: int, x: int)
    requires CanPull(h, s, info, nodes, slot, a, e) && x in PulledSlot(slot, a, e)
    ensures KeyOk(s, PulledInfo(info, a, e, s.Inc()), PulledNodes(nodes, a, e), PulledSlot(slot, a, e), x)
    ensures PulledNodes(nodes, a, e)[PulledSlot(slot, a, e)[x]] == nodes[slot[x]]
  {
    var i := PulledSlot(slot, a, e)[x];
    assert KeyOk(s, info, nodes, slot, x);
    PulledInfoAt(info, a, e, s.Inc(), i);
    PulledNodesAt(nodes, a, e, i);
  }

  lemma PulledUsed(info: seq<int>, a: int, e: int, inc: int, slots: int)
    requires 0 <= a <= e < slots <= |info| && 0 <= inc && info[a] != 0 && forall i :: a < i <= e ==> info[i] > inc
    ensures Used(PulledInfo(info, a, e, inc)[..slots]) == Used(info[..slots]) - 1
  {
    var run, tail := info[a + 1..e + 1], info[e + 1..slots];
    var moved := Bumped(run, -inc);
    UsedFull([info[a]] + run);
    UsedFull(moved);
    assert PulledInfo(info, a, e, inc)[..slots] == info[..a] + (moved + [0]) + tail;
    assert info[..slots] == info[..a] + ([info[a]] + run) + tail;
    UsedConcat(info[..a] + (moved + [0]), tail);
    UsedConcat(info[..a], moved + [0]);
    UsedConcat(moved, [0]);
    UsedConcat(info[..a] + ([info[a]] + run), tail);
    UsedConcat(info[..a], [info[a]] + run);
    assert [0][..0] == [];
  }

  lemma PullTable(h: Hash, s: Shape, info: seq<int>, nodes: seq<Node>, slot: map<int, int>, a: int, e: int)
    requires CanPull(h, s, info, nodes, slot, a, e)
    ensures Table(h, s, PulledInfo(info, a, e, s.Inc()), PulledNodes(nodes, a, e), PulledSlot(slot, a, e))
  {
    var info', nodes', slot' := PulledInfo(info, a, e, s.Inc()), PulledNodes(nodes, a, e), PulledSlot(slot, a, e);
    forall i | 0 <= i < |info| ensures info'[i] == if i == e then 0 else if a <= i < e then info[i + 1] - s.Inc() else info[i] {
      PulledInfoAt(info, a, e, s.Inc(), i);
    }
    assert Bytes(s, info');
    forall j | 1 <= j <= s.slots ensures Descends(s.Inc(), info', j) {
      PulledOrdered(h, s, info, nodes, slot, a, e, j);
    }
    forall i | 0 <= i < s.slots ensures SlotOk(h, s, info', nodes', slot', i) {
      PulledSlotOk(h, s, info, nodes, slot, a, e, i);
    }
    forall x | x in slot' ensures KeyOk(s, info', nodes', slot', x) {
      PulledKeyOk(h, s, info, nodes, slot, a, e, x);
    }
  }

  lemma ContentsWithout(nodes: seq<Node>, slot: map<int, int>, nodes': seq<Node>, slot': map<int, int>, key: int)
    requires (forall x <- slot :: 0 <= slot[x] < |nodes|) && slot'.Keys == slot.Keys - {key}
    requires forall x <- slot' :: 0 <= slot'[x] < |nodes'| && nodes'[slot'[x]] == nodes[slot[x]]
    ensures Contents(nodes', slot') == Contents(nodes, slot) - {key}
  {
    var c, d := Contents(nodes', slot'), Contents(nodes, slot) - {key};
    assert c.Keys == d.Keys;
    assert forall x <- slot' :: c[x] == d[x];
  }

  lemma PulledKeys(nodes: seq<Node>, slot: map<int, int>, a: int, e: int)
    requires 0 <= a < |nodes| && nodes[a].key in slot && slot[nodes[a].key] == a
    requires forall k <- slot :: 0 <= slot[k] < |nodes| && nodes[slot[k]].key == k
    ensures PulledSlot(slot, a, e).Keys == slot.Keys - {nodes[a].key}
  {
    var p := PulledSlot(slot, a, e);
    assert forall x :: x in p.Keys <==> x in slot.Keys - {nodes[a].key};
  }

  lemma PullContents(h: Hash, s: Shape, info: seq<int>, nodes: seq<Node>, slot: map<int, int>, a: int, e: int)
    requires CanPull(h, s, info, nodes, slot, a, e)
    ensures var nodes', slot' := PulledNodes(nodes, a, e), PulledSlot(slot, a, e);
            && (forall x <- slot' :: 0 <= slot'[x] < |nodes'|)
            && Contents(nodes', slot') == Contents(nodes, slot) - {nodes[a].key}
  {
    hide Ordered, Contents;
    var nodes', slot' := PulledNodes(nodes, a, e), PulledSlot(slot, a, e);
    assert SlotOk(h, s, info, nodes, slot, a);
    SlotsInside(h, s, info, nodes, slot);
    forall x | x in slot' ensures 0 <= slot'[x] < |nodes'| && nodes'[slot'[x]] == nodes[slot[x]] {
      PulledKeyOk(h, s, info, nodes, slot, a, e, x);
    }
    PulledKeys(nodes, slot, a, e);
    ContentsWithout(nodes, slot, nodes', slot', nodes[a].key);
  }

  // ---------- halving all info bytes at once ----------

  /** The table under the next smaller increment. */
  function Finer(s: Shape): Shape {
    s.(shift := s.shift + 1)
  }

  /** The info bytes after `try_increase_info`: all halved, the sentinel restored. */
  function HalvedInfo(s: Shape, info: seq<int>): (r: seq<int>)
    requires |info| == s.slots + PADDING
    ensures |r| == |info|
  {
    seq(|info|, i requires 0 <= i < |info| => if i == s.slots then 1 else info[i] / 2)
  }

  /** Halving a probe gives the probe under the halved increment and the shorter hash bits. */
  lemma ProbeHalves(h: Hash, s: Shape, k: int, i: int)
    requires s.buckets >= 1 && s.shift < 4 && i >= Home(h, s, k)
    ensures Finer(s).Inc() * 2 == s.Inc() && Bits(h, Finer(s), k) == Bits(h, s, k) / 2
    ensures Probe(h, Finer(s), k, i) == Probe(h, s, k, i) / 2
  {
    var d, b := i - Home(h, s, k) + 1, Finer(s).Inc();
    assert d * (2 * b) == 2 * (d * b);
  }

  lemma {:induction false} UsedHalves(a: seq<int>, b: seq<int>)
    requires |a| == |b| && forall i :: 0 <= i < |a| ==> (a[i] != 0 <==> b[i] != 0)
    ensures Used(a) == Used(b)
  {
    if a != [] {
      UsedHalves(a[..|a| - 1], b[..|b| - 1]);
    }
  }

  lemma HalvedSlotOk(h: Hash, s: Shape, info: seq<int>, nodes: seq<Node>, slot: map<int, int>, i: int)
    requires Table(h, s, info, nodes, slot) && s.shift < 4 && 0 <= i < s.slots
    ensures SlotOk(h, Finer(s), HalvedInfo(s, info), nodes, slot, i)
    ensures HalvedInfo(s, info)[i] != 0 <==> info[i] != 0
  {
    assert SlotOk(h, s, info, nodes, slot, i);
    var k := nodes[i].key;
    if info[i] != 0 {
      ProbeHalves(h, s, k, i);
      ProbeAway(h, s, k, i);
    }
  }

  lemma HalvedDescends(s: Shape, info: seq<int>, j: int)
    requires |info| == s.slots + PADDING && 1 <= j <= s.slots && s.shift < 4 && Descends(s.Inc(), info, j)
    ensures Descends(Finer(s).Inc(), HalvedInfo(s, info), j)
  {
  }

  /** Halving re-encodes every slot: the same keys in the same slots under the finer layout. */
  lemma HalveKeeps(h: Hash, s: Shape, info: seq<int>, nodes: seq<Node>, slot: map<int, int>)
    requires Table(h, s, info, nodes, slot) && s.shift < 4 && s.buckets > 1
    ensures var r := HalvedInfo(s, info);
            && Table(h, Finer(s), r, nodes, slot)
            && Used(r[..s.slots]) == Used(info[..s.slots]) && Headroom(Finer(s), r)
  {
    var r := HalvedInfo(s, info);
    forall i | 0 <= i < s.slots
      ensures SlotOk(h, Finer(s), r, nodes, slot, i) && (r[i] != 0 <==> info[i] != 0)
    {
      HalvedSlotOk(h, s, info, nodes, slot, i);
    }
    forall j | 1 <= j <= s.slots ensures Descends(Finer(s).Inc(), r, j) {
      assert Descends(s.Inc(), info, j);
      HalvedDescends(s, info, j);
    }
    forall k | k in slot ensures KeyOk(Finer(s), r, nodes, slot, k) {
      assert KeyOk(s, info, nodes, slot, k);
    }
    UsedHalves(info[..s.slots], r[..s.slots]);
  }

  /** The 64-bit word whose bytes, least significant first, are `b`. */
  function Word(b: seq<int>): int {
    if b == [] then 0 else b[0] + 256 * Word(b[1..])
  }

  /** The bytes of a word of `n` bytes under the mask 0x7f in every byte. */
  function Low7(w: int, n: nat): (b: seq<int>)
    ensures |b| == n
    decreases n
  {
    if n == 0 then [] else [w % 128] + Low7(w / 256, n - 1)
  }

  function Halves(b: seq<int>): (r: seq<int>)
    ensures |r| == |b|
  {
    seq(|b|, i requires 0 <= i < |b| => b[i] / 2)
  }

  lemma HalveFirst(x: int, w: int)
    requires 0 <= x <= 255
    ensures var v := (x + 256 * w) / 2; v % 128 == x / 2 && v / 256 == w / 2
  {
    assert (x + 256 * w) / 2 == x / 2 + 128 * w;
  }

  /** Shifting a packed word right by one and masking every byte halves all bytes at once. */
  lemma {:induction false} HalveWord(b: seq<int>)
    requires forall i :: 0 <= i < |b| ==> 0 <= b[i] <= 255
    ensures Low7(Word(b) / 2, |b|) == Halves(b)
  {
    if b != [] {
      HalveWord(b[1..]);
      HalveFirst(b[0], Word(b[1..]));
      assert Halves(b) == [b[0] / 2] + Halves(b[1..]);
    }
  }
}
