/** The table object of robin_hood.h: its arrays and counters, updated in place, refine a finite map. */
module RobinHoodMap {
  import opened RobinHood
  import Sets

  const INITIAL_NUM_ELEMENTS := 8
  const INITIAL_MULTIPLIER := 0xc4ceb9fe1a85ec53
  const MULTIPLIER_STEP := 0xc4ceb9fe1a85ec54
  const TWO_TO_THE_64 := 0x1_0000_0000_0000_0000

  type Mixer = (int, int) -> nat

  /** The hash of a key under the current multiplier; the mixing itself is left open. */
  function HashWith(mix: Mixer, multiplier: int): Hash {
    k => mix(multiplier, k)
  }

  /** The cast of an info value to a byte; its precondition says that the cast loses nothing. */
  function ToByte(x: int): int
    requires 0 <= x <= 255
  {
    x
  }

  ghost function Count(m: SoundTable): nat {
    Used(m.info[..m.s.slots])
  }

  ghost function Denotes(m: SoundTable): map<int, int> {
    assert forall k <- m.slot :: KeyOk(m.s, m.info, m.nodes, m.slot, k);
    RobinHood.Contents(m.nodes, m.slot)
  }

  /** The load limit holds, and unless the limit is lowered to 0 no byte is close to overflowing. */
  ghost predicate Roomy(m: SoundTable, maxAllowed: nat) {
    && Count(m) <= Allowed(m.s.buckets)
    && (maxAllowed == 0 || (maxAllowed == Allowed(m.s.buckets) && Headroom(m.s, m.info)))
  }

  /** The bucket counts; for these, taking the low bits of a hash is taking a remainder. */
  predicate PowerOfTwo(n: nat) {
    n == 1 || (n > 1 && n % 2 == 0 && PowerOfTwo(n / 2))
  }

  datatype InsertionState = OverflowError | KeyFound | NewNode

  /** Every entry of `a` is an entry of `b`. */
  ghost predicate Within(a: map<int, int>, b: map<int, int>) {
    forall k <- a :: k in b && a[k] == b[k]
  }

  class Table {
    const mix: Mixer
    var multiplier: int
    var nodes: array<Node>
    var info: array<int>
    var num: nat
    var mask: nat
    var maxAllowed: nat
    var inc: int
    var hashShift: nat
    ghost var model: SoundTable

    function TheShape(): Shape
      reads this
    {
      Shape(mask + 1, nodes.Length, hashShift)
    }

    function TheHash(): Hash
      reads this
    {
      HashWith(mix, multiplier)
    }

    /** The fields are those of the sound table `model`, and the counters agree with it. */
    ghost predicate Valid()
      reads this, nodes, info
    {
      && model.h == TheHash() && model.s == TheShape()
      && info[..] == model.info && nodes[..] == model.nodes
      && inc == model.s.Inc() && num == Count(model)
      && Roomy(model, maxAllowed) && PowerOfTwo(mask + 1)
    }

    /** The finite map that the table implements. */
    ghost function View(): map<int, int>
      reads this
    {
      Denotes(model)
    }

    /** No finer layout of the info bytes can make room: only a rehash can. */
    predicate MustRehash()
      reads this
    {
      mask > 0 && (num >= Allowed(mask + 1) || inc <= 2)
    }

    /** The limit is only lowered to 0 when some byte is close to overflowing. */
    ghost predicate Tight()
      reads this
    {
      maxAllowed == 0 ==> !Headroom(model.s, model.info)
    }

    /** The table is never more than four fifths full, and has a power of two of buckets. */
    lemma Load()
      requires Valid()
      ensures Allowed(mask + 1) == (mask + 1) * 4 / 5 && num <= (mask + 1) * 4 / 5
      ensures nodes.Length == mask + 1 + if (mask + 1) * 4 / 5 < 255 then (mask + 1) * 4 / 5 else 255
      ensures PowerOfTwo(mask + 1) && PowerOfTwo((mask + 1) * 2) && PowerOfTwo(8)
    {
      assert PowerOfTwo(4) && PowerOfTwo(2);
    }

    constructor (mix: Mixer)
      ensures this.mix == mix
      ensures Valid() && View() == map[] && num == 0 && mask == 0
      ensures fresh(nodes) && fresh(info)
    {
      hide RobinHood.Table, Count, Denotes;
      this.mix := mix;
      multiplier := INITIAL_MULTIPLIER;
      nodes := new Node[1](i => Node(0, 0));
      info := new int[1 + PADDING](i => 0);
      num, mask, maxAllowed, inc, hashShift := 0, 0, 0, 32, 0;
      new;
      assert info[..] == [0, 0, 0, 0, 0, 0, 0, 0, 0] && nodes[..] == [Node(0, 0)];
      model := Dummy(TheHash());
    }

    /** Where a search starts. */
    lemma Starts(key: int)
      requires Valid()
      ensures var a := Home(TheHash(), TheShape(), key);
              && a == Home(model.h, model.s, key) && a < nodes.Length && info.Length == nodes.Length + PADDING
              && Probing(model.h, model.s, model.slot, key, a, inc + Bits(TheHash(), TheShape(), key))
    {
      hide PowerOfTwo, KeyOk, SlotOk, Used, Denotes, Headroom, Ordered, Probe;
      ProbeStarts(model.h, model.s, model.info, model.nodes, model.slot, key);
    }

    /** What a probe learns from the slot that it looks at. */
    lemma Look(key: int, idx: int, probe: int)
      requires Valid() && 0 <= idx < info.Length && Probing(model.h, model.s, model.slot, key, idx, probe)
      ensures probe <= info[idx] ==> idx < nodes.Length
      ensures probe == info[idx] && nodes[idx].key == key ==> key in model.slot && model.slot[key] == idx
      ensures !(probe == info[idx] && nodes[idx].key == key) ==>
                Probing(model.h, model.s, model.slot, key, idx + 1, probe + inc)
      ensures probe > info[idx] ==> key !in model.slot
    {
      hide PowerOfTwo, KeyOk, SlotOk, Used, Denotes, Headroom, Ordered, Probe;
      var h, s, bytes, cells, slot := model.h, model.s, model.info, model.nodes, model.slot;
      ProbeDecides(h, s, bytes, cells, slot, key, idx, probe);
      if probe <= info[idx] {
        ProbeInside(h, s, bytes, key, idx);
      } else {
        SearchEnds(h, s, bytes, cells, slot, key, idx);
      }
    }

    /** `findIdx`, with its loop unrolled twice. */
    method FindIdx(key: int) returns (found: bool, idx: nat)
      requires Valid()
      ensures found <==> key in model.slot
      ensures found ==> idx == model.slot[key] && idx < nodes.Length && nodes[idx].key == key
    {
      hide Valid, Probing;
      Starts(key);
      idx := Home(TheHash(), TheShape(), key);
      var probe := inc + Bits(TheHash(), TheShape(), key);
      var more := true;
      while more
        invariant idx < info.Length && Probing(model.h, model.s, model.slot, key, idx, probe)
        invariant if more then idx < nodes.Length else probe > info[idx]
        decreases more, nodes.Length - idx
      {
        Look(key, idx, probe);
        if probe == info[idx] && nodes[idx].key == key {
          return true, idx;
        }
        idx, probe := idx + 1, probe + inc;
        Look(key, idx, probe);
        if probe == info[idx] && nodes[idx].key == key {
          return true, idx;
        }
        idx, probe := idx + 1, probe + inc;
        more := probe <= info[idx];
        Look(key, idx, probe);
      }
      Look(key, idx, probe);
      found := false;
    }

    /** A slot with another key under a byte that is not below the probe lies before the last one. */
    lemma PassGreater(key: int, idx: int, probe: int)
      requires Valid() && 0 <= idx < nodes.Length && Probing(model.h, model.s, model.slot, key, idx, probe)
      requires probe < info[idx] || (probe == info[idx] && nodes[idx].key != key)
      ensures Home(model.h, model.s, key) <= idx && idx + 1 < nodes.Length
      ensures Probing(model.h, model.s, model.slot, key, idx + 1, probe + inc)
    {
      hide PowerOfTwo, KeyOk, SlotOk, Used, Denotes, Headroom, Ordered, Probe;
      LastEmpty(model);
      ProbeAway(model.h, model.s, key, idx);
      ProbeDecides(model.h, model.s, model.info, model.nodes, model.slot, key, idx, probe);
    }

    /** `keyToIdx` and `nextWhileLess`: skip the slots whose byte exceeds the probe. */
    method SkipGreater(key: int) returns (idx: nat, probe: int)
      requires Valid()
      ensures idx < nodes.Length && Probing(model.h, model.s, model.slot, key, idx, probe) && probe >= info[idx]
      ensures idx > Home(model.h, model.s, key) ==> info[idx - 1] >= probe - inc
    {
      hide PowerOfTwo, KeyOk, SlotOk, Used, Denotes, Headroom, Ordered, Probe, Probing;
      ghost var h, s := model.h, model.s;
      ProbeStarts(h, s, model.info, model.nodes, model.slot, key);
      idx := Home(TheHash(), TheShape(), key);
      probe := inc + Bits(TheHash(), TheShape(), key);
      while probe < info[idx]
        invariant idx < nodes.Length && Probing(h, s, model.slot, key, idx, probe)
        invariant idx > Home(h, s, key) ==> info[idx - 1] >= probe - inc
        decreases nodes.Length - idx
      {
        PassGreater(key, idx, probe);
        idx, probe := idx + 1, probe + inc;
      }
    }

    /** A slot that holds another key under the same byte lies before the last one, and the next byte is no larger. */
    lemma PassEqual(key: int, idx: int, probe: int)
      requires Valid() && 0 <= idx < nodes.Length && Probing(model.h, model.s, model.slot, key, idx, probe) && probe == info[idx]
      ensures nodes[idx].key == key ==> key in model.slot && model.slot[key] == idx
      ensures nodes[idx].key != key ==>
                idx + 1 < nodes.Length && Probing(model.h, model.s, model.slot, key, idx + 1, probe + inc) && probe + inc >= info[idx + 1]
    {
      hide PowerOfTwo, KeyOk, SlotOk, Used, Denotes, Count, Headroom;
      var h, s := model.h, model.s;
      LastEmpty(model);
      ProbeAway(h, s, key, idx);
      ProbeAway(h, s, key, idx + 1);
      ProbeDecides(h, s, model.info, model.nodes, model.slot, key, idx, probe);
      assert Descends(inc, model.info, idx + 1);
    }

    /** A probe that has met a smaller byte. */
    lemma Passed(key: int, idx: int, probe: int)
      requires Valid() && 0 <= idx < nodes.Length && Probing(model.h, model.s, model.slot, key, idx, probe) && probe > info[idx]
      requires idx > Home(model.h, model.s, key) ==> info[idx - 1] >= probe - inc
      ensures key !in model.slot && probe == Probe(model.h, model.s, key, idx)
      ensures InsertionPoint(model.h, model.s, model.info, key, idx)
    {
      SearchEnds(model.h, model.s, model.info, model.nodes, model.slot, key, idx);
    }

    /** The search of `insertKeyPrepareEmptySpot`: the slot of the key, or the place where it belongs. */
    method Locate(key: int) returns (found: bool, idx: nat, probe: int)
      requires Valid()
      ensures found <==> key in model.slot
      ensures found ==> idx == model.slot[key] && idx < nodes.Length && nodes[idx].key == key
      ensures !found ==> idx < nodes.Length && probe == Probe(model.h, model.s, key, idx)
                         && InsertionPoint(model.h, model.s, model.info, key, idx)
    {
      hide Probing, Home, Probe, SlotOk, KeyOk, Ordered, Roomy, InsertionPoint;
      idx, probe := SkipGreater(key);
      while probe == info[idx]
        invariant idx < nodes.Length && Probing(model.h, model.s, model.slot, key, idx, probe) && probe >= info[idx]
        invariant idx > Home(model.h, model.s, key) ==> info[idx - 1] >= probe - inc
        decreases nodes.Length - idx
      {
        PassEqual(key, idx, probe);
        if nodes[idx].key == key {
          return true, idx, probe;
        }
        idx, probe := idx + 1, probe + inc;
      }
      Passed(key, idx, probe);
      found := false;
    }

    /** The node loop of `shiftUp`: slots `a` to `e - 1` move one place up, and `n` takes the gap. */
    method ShiftNodesUp(e: nat, a: nat, n: Node)
      requires a <= e < nodes.Length
      modifies nodes
      ensures nodes[..] == PushedNodes(old(nodes[..]), a, e, n)
    {
      hide PushedNodes;
      var idx := e;
      while idx != a
        invariant a <= idx <= e
        invariant forall j :: 0 <= j <= idx || e < j < nodes.Length ==> nodes[j] == old(nodes[j])
        invariant forall j :: idx < j <= e ==> nodes[j] == old(nodes[j - 1])
        decreases idx
      {
        nodes[idx] := nodes[idx - 1];
        idx := idx - 1;
      }
      nodes[a] := n;
      IsPushedNodes(old(nodes[..]), a, e, n, nodes[..]);
    }

    /** The info loop of `shiftUp` and the final store; a byte near the limit asks for a finer layout. */
    method ShiftInfoUp(e: nat, a: nat, byte: int) returns (ghost full: nat)
      requires a <= e < nodes.Length < info.Length && inc >= 0 && 0 <= byte <= 255
      requires forall i :: a <= i < e ==> 0 <= info[i] && info[i] + inc <= 255
      modifies info, this`maxAllowed
      ensures info[..] == PushedInfo(old(info[..]), a, e, byte, inc)
      ensures maxAllowed == 0 || maxAllowed == old(maxAllowed)
      ensures maxAllowed != 0 ==> forall i :: a <= i <= e ==> info[i] + inc <= 255
      ensures a <= full <= e && (maxAllowed != old(maxAllowed) ==> info[full] + inc > 255)
    {
      hide PushedInfo;
      full := a;
      if byte + inc > 0xFF {
        maxAllowed := 0;
      }
      var idx := e;
      while idx != a
        invariant a <= idx <= e
        invariant forall j :: 0 <= j <= idx || e < j < info.Length ==> info[j] == old(info[j])
        invariant forall j :: idx < j <= e ==> info[j] == old(info[j - 1]) + inc
        invariant maxAllowed == 0 || maxAllowed == old(maxAllowed)
        invariant maxAllowed != 0 ==> byte + inc <= 255 && forall j :: idx < j <= e ==> info[j] + inc <= 255
        invariant full == a || idx < full <= e
        invariant maxAllowed != old(maxAllowed) ==> (if full == a then byte else info[full]) + inc > 255
        decreases idx
      {
        info[idx] := ToByte(info[idx - 1] + inc);
        if info[idx] + inc > 0xFF {
          maxAllowed := 0;
          full := idx;
        }
        idx := idx - 1;
      }
      info[a] := ToByte(byte);
      IsPushedInfo(old(info[..]), a, e, byte, inc, info[..]);
    }

    /** The load limit, and the two values that the limit on the count can have. */
    lemma Limits()
      requires Valid()
      ensures (maxAllowed == 0 || maxAllowed == Allowed(mask + 1)) && num <= Allowed(mask + 1) && inc >= 2
      ensures mask == 0 ==> num == 0 && maxAllowed == 0 && View() == map[]
      ensures View().Keys == model.slot.Keys
    {
      if mask == 0 {
        EmptyDummy(model);
      }
    }

    /** A table of at most 126 entries that is out of headroom can still be given a finer layout. */
    lemma FinerHelps()
      requires Valid() && Tight() && num <= SURE_HEADROOM
      ensures maxAllowed > 0 || inc > 2
    {
      if model.s.shift == 4 {
        FinestHeadroom(model.h, model.s, model.info, model.nodes, model.slot);
      }
    }

    /** When all keys collide, no table holds more than 127 entries. */
    lemma CollidingSize()
      requires Valid() && forall a, b :: mix(a, b) == mix(0, 0)
      ensures num <= SURE_HEADROOM + 1
    {
      CollidingBound(model.h, model.s, model.info, model.nodes, model.slot);
    }

    /** The search for an empty slot; under the load limit it ends before the sentinel. */
    method FindEmpty(a: nat) returns (e: nat)
      requires Valid() && a < nodes.Length && mask > 0
      ensures a <= e < nodes.Length && info[e] == 0 && forall i :: a <= i < e ==> info[i] != 0
    {
      LastEmpty(model);
      e := a;
      while info[e] != 0
        invariant a <= e < nodes.Length && forall i :: a <= i < e ==> info[i] != 0
        decreases nodes.Length - e
      {
        e := e + 1;
      }
    }

    /** `shiftUp` and the stores at the insertion point. */
    method ShiftUp(n: Node, a: nat, e: nat, byte: int, ghost s: Shape)
      requires maxAllowed > 0 && a <= e < nodes.Length == s.slots && info.Length == s.slots + PADDING
      requires inc == s.Inc() && 0 <= byte <= 255 && Headroom(s, info[..]) && forall i :: 0 <= i < nodes.Length ==> 0 <= info[i]
      modifies info, nodes, this`maxAllowed
      ensures info[..] == PushedInfo(old(info[..]), a, e, byte, inc) && nodes[..] == PushedNodes(old(nodes[..]), a, e, n)
      ensures maxAllowed == if Headroom(s, info[..]) then old(maxAllowed) else 0
    {
      hide PushedInfo, PushedNodes;
      ghost var bytes, before := info[..], maxAllowed;
      assert forall i :: 0 <= i < nodes.Length ==> bytes[i] + inc <= 255;
      ShiftNodesUp(e, a, n);
      ghost var full := ShiftInfoUp(e, a, byte);
      Settled(s, bytes, info[..], a, e, byte, full, before, maxAllowed);
    }

    lemma RoomToShift()
      requires Valid() && maxAllowed > 0
      ensures Headroom(model.s, model.info) && inc == model.s.Inc() && info[..] == model.info && nodes[..] == model.nodes
      ensures info.Length == nodes.Length + PADDING && nodes.Length == model.s.slots
      ensures forall i :: 0 <= i < nodes.Length ==> 0 <= info[i] && info[i] + inc <= 255
    {
    }

    /** The last part of `insertKeyPrepareEmptySpot` and of `insert_move`: push a new node in at `a`. */
    method Put(n: Node, a: nat, byte: int)
      requires Valid() && maxAllowed > 0 && num < Allowed(mask + 1) && mask > 0 && n.key !in model.slot
      requires a < nodes.Length && InsertionPoint(model.h, model.s, model.info, n.key, a)
      requires byte == Probe(model.h, model.s, n.key, a)
      modifies info, nodes, this`maxAllowed, this`num, this`model
      ensures Valid() && View() == old(View())[n.key := n.val] && num == old(num) + 1
      ensures maxAllowed == if Headroom(model.s, model.info) then old(maxAllowed) else 0
    {
      hide PowerOfTwo, SlotOk, KeyOk, Denotes, InsertionPoint, Count, Ordered, PushedInfo, PushedNodes, Headroom;
      RoomToShift();
      var e := FindEmpty(a);
      ghost var m := Pushed(model, n, a, e);
      ShiftUp(n, a, e, byte, model.s);
      num := num + 1;
      model := m;
    }

    /** The loop of `shiftDown`: the run after `a` moves back, until a slot that is empty or at home. */
    method PullBack(a: nat) returns (e: nat)
      requires a < nodes.Length < info.Length && inc > 0
      requires info[nodes.Length] < 2 * inc && forall i :: 0 <= i < info.Length ==> 0 <= info[i] <= 255
      modifies info, nodes
      ensures a <= e < nodes.Length && old(info[e + 1]) < 2 * inc
      ensures forall j :: a < j <= e ==> old(info[j]) >= 2 * inc
      ensures info[..] == PulledInfo(old(info[..]), a, e, inc)
      ensures nodes[..] == PulledNodes(old(nodes[..]), a, e)
    {
      hide PulledInfo, PulledNodes;
      ghost var bytes, cells := info[..], nodes[..];
      e := a;
      while info[e + 1] >= 2 * inc
        invariant a <= e < nodes.Length
        invariant forall j :: 0 <= j < a || e <= j < nodes.Length ==> nodes[j] == cells[j]
        invariant forall j :: 0 <= j < a || e < j < info.Length ==> info[j] == bytes[j]
        invariant forall j :: a <= j < e ==> nodes[j] == cells[j + 1]
        invariant forall j :: a <= j < e ==> info[j] == bytes[j + 1] - inc
        invariant forall j :: a < j <= e ==> bytes[j] >= 2 * inc
        decreases nodes.Length - e
      {
        info[e] := ToByte(info[e + 1] - inc);
        nodes[e] := nodes[e + 1];
        e := e + 1;
      }
      info[e] := 0;
      IsPulled(bytes, cells, a, e, inc, info[..], nodes[..]);
    }

    /** `shiftDown`, with the decrement of the element count by its callers. */
    method ShiftDown(a: nat)
      requires Valid() && a < nodes.Length && info[a] != 0
      modifies info, nodes, this`num, this`model
      ensures Valid() && View() == old(View() - {nodes[a].key}) && num == old(num) - 1
    {
      hide PowerOfTwo, SlotOk, KeyOk, Denotes, Count, Ordered, PulledInfo, PulledNodes;
      var e := PullBack(a);
      ghost var m := Pulled(model, a, e);
      PulledHeadroom(model.s, model.info, a, e);
      num := num - 1;
      model := m;
    }

    /** The search loop of `erase`, one slot per round. */
    method FindForErase(key: int) returns (found: bool, idx: nat)
      requires Valid()
      ensures found <==> key in model.slot
      ensures found ==> idx == model.slot[key] && idx < nodes.Length && nodes[idx].key == key
    {
      hide Valid, Probing;
      Starts(key);
      idx := Home(TheHash(), TheShape(), key);
      var probe := inc + Bits(TheHash(), TheShape(), key);
      var more := true;
      while more
        invariant idx < info.Length && Probing(model.h, model.s, model.slot, key, idx, probe)
        invariant if more then idx < nodes.Length else probe > info[idx]
        decreases more, nodes.Length - idx
      {
        Look(key, idx, probe);
        if probe == info[idx] && nodes[idx].key == key {
          return true, idx;
        }
        idx, probe := idx + 1, probe + inc;
        more := probe <= info[idx];
        Look(key, idx, probe);
      }
      Look(key, idx, probe);
      found := false;
    }

    /** `erase` by key. */
    method Erase(key: int) returns (erased: bool)
      requires Valid()
      modifies info, nodes, this`num, this`model
      ensures Valid() && erased == (key in old(View())) && View() == old(View()) - {key}
      ensures num == old(num) - (if erased then 1 else 0)
    {
      var idx;
      erased, idx := FindForErase(key);
      if erased {
        assert KeyOk(model.s, model.info, model.nodes, model.slot, key);
        ShiftDown(idx);
      }
    }

    /** The loop of `try_increase_info`: eight bytes at a time, as one word. */
    method HalveBytes()
      requires info.Length == nodes.Length + PADDING
      requires forall i :: 0 <= i < info.Length ==> 0 <= info[i] <= 255
      modifies info
      ensures forall i :: 0 <= i < nodes.Length ==> info[i] == old(info[i]) / 2
      ensures forall i :: nodes.Length < i < info.Length ==> info[i] == old(info[i]) || info[i] == old(info[i]) / 2
    {
      var i := 0;
      while i < nodes.Length
        invariant 0 <= i < nodes.Length + PADDING
        invariant forall j :: 0 <= j < i ==> info[j] == old(info[j]) / 2
        invariant forall j :: i <= j < info.Length ==> info[j] == old(info[j])
      {
        var block := info[i..i + 8];
        var word := Word(block);
        HalveWord(block);
        var halved := Low7(word / 2, 8);
        assert forall j :: 0 <= j < 8 ==> halved[j] == block[j] / 2;
        forall j | 0 <= j < 8 {
          info[i + j] := halved[j];
        }
        i := i + 8;
      }
    }

    /** All bytes halved, and the sentinel restored. */
    method HalveInfo(ghost s: Shape)
      requires info.Length == nodes.Length + PADDING && s.slots == nodes.Length
      requires forall i :: 0 <= i < info.Length ==> 0 <= info[i] <= 255
      requires forall i :: nodes.Length < i < info.Length ==> info[i] == 0
      modifies info
      ensures info[..] == HalvedInfo(s, old(info[..]))
    {
      HalveBytes();
      info[nodes.Length] := 1;
    }

    lemma LimitHolds()
      requires Valid()
      ensures Count(model) <= Allowed(model.s.buckets)
    {
    }

    /** One hash bit less in every info byte makes room for longer displacements. */
    method Refine()
      requires Valid() && mask > 0 && inc > 2
      modifies info, this`inc, this`hashShift, this`maxAllowed, this`model
      ensures Valid() && View() == old(View()) && model.slot == old(model.slot) && maxAllowed == Allowed(mask + 1)
    {
      hide PowerOfTwo, SlotOk, KeyOk, Used, Denotes, Count, Ordered, Headroom, Allowed, Roomy;
      LimitHolds();
      ghost var m := Halved(model);
      inc := inc / 2;
      hashShift := hashShift + 1;
      HalveInfo(model.s);
      maxAllowed := Allowed(mask + 1);
      model := m;
    }

    /** `try_increase_info`: a finer layout, unless the increment cannot be halved any more. */
    method TryIncreaseInfo() returns (done: bool)
      requires Valid() && mask > 0
      modifies info, this`inc, this`hashShift, this`maxAllowed, this`model
      ensures Valid() && View() == old(View()) && model.slot == old(model.slot)
      ensures done <==> old(inc) > 2
      ensures done ==> maxAllowed == Allowed(mask + 1)
      ensures !done ==> maxAllowed == old(maxAllowed) && model == old(model) && inc == old(inc)
    {
      hide Valid, View;
      done := inc > 2;
      if done {
        Refine();
      }
    }

    /** `initData`: an empty table of `n` buckets. */
    method InitData(n: nat)
      requires n >= 2 && PowerOfTwo(n)
      modifies this`nodes, this`info, this`num, this`mask, this`maxAllowed, this`inc, this`hashShift, this`model
      ensures Valid() && Tight() && View() == map[] && num == 0 && mask == n - 1 && maxAllowed == Allowed(n) > 0
      ensures fresh(nodes) && fresh(info)
    {
      hide PowerOfTwo, SlotOk, KeyOk, Used, Denotes, Count, Headroom, RobinHood.Table;
      num, mask, maxAllowed := 0, n - 1, Allowed(n);
      nodes, info := ClearedArrays(n);
      inc, hashShift := 32, 0;
      model := Blank(TheHash(), n, info[..], nodes[..]);
    }

    /** `insert_move`: a node that is known to be new enters; false when it would throw an overflow error. */
    method InsertMove(n: Node) returns (ok: bool)
      requires Valid() && mask > 0 && n.key !in model.slot && num < Allowed(mask + 1)
      modifies info, nodes, this`maxAllowed, this`num, this`model, this`inc, this`hashShift
      ensures Valid() && (old(Tight()) ==> Tight())
      ensures ok ==> View() == old(View())[n.key := n.val] && num == old(num) + 1
      ensures !ok ==> View() == old(View()) && num == old(num)
      ensures ok <==> old(maxAllowed) > 0 || old(inc) > 2
    {
      if maxAllowed == 0 {
        ok := TryIncreaseInfo();
        if !ok {
          return;
        }
      }
      var idx, probe := Seek(n.key);
      Put(n, idx, probe);
      ok := true;
    }

    /** The loop of `insert_move`: skip every slot whose byte is not below the probe. */
    method Seek(key: int) returns (idx: nat, probe: int)
      requires Valid() && key !in model.slot && mask > 0
      ensures idx < nodes.Length && probe == Probe(model.h, model.s, key, idx)
      ensures InsertionPoint(model.h, model.s, model.info, key, idx)
    {
      hide Valid, Probing, Probe, InsertionPoint;
      Starts(key);
      idx := Home(TheHash(), TheShape(), key);
      probe := inc + Bits(TheHash(), TheShape(), key);
      while probe <= info[idx]
        invariant idx < nodes.Length && Probing(model.h, model.s, model.slot, key, idx, probe)
        invariant idx > Home(model.h, model.s, key) ==> info[idx - 1] >= probe - inc
        decreases nodes.Length - idx
      {
        Look(key, idx, probe);
        PassGreater(key, idx, probe);
        idx, probe := idx + 1, probe + inc;
      }
      Passed(key, idx, probe);
    }

    /** One round of the loop of `rehashPowerOfTwo`. */
    method MoveOne(byte: int, node: Node, ghost i: nat, ghost m: SoundTable) returns (ok: bool)
      requires Valid() && Tight() && mask > 0 && i < m.s.slots && byte == m.info[i] && node == m.nodes[i]
      requires View() == Moved(m, i) && num == Used(m.info[..i]) && Count(m) <= Allowed(mask + 1)
      modifies info, nodes, this`maxAllowed, this`num, this`model, this`inc, this`hashShift
      ensures Valid() && Tight()
      ensures ok ==> View() == Moved(m, i + 1) && num == Used(m.info[..i + 1])
      ensures !ok ==> View() == Moved(m, i) && SURE_HEADROOM < num == Used(m.info[..i]) < Count(m)
    {
      MovedStep(m, i);
      ok := true;
      if byte != 0 {
        assert node.key !in View();
        if num <= SURE_HEADROOM {
          FinerHelps();
        }
        ok := InsertMove(node);
      }
    }

    /**
     `rehashPowerOfTwo`: move every node of the old table `m` into a fresh one of `n` buckets;
     false when a move would throw an overflow error, which leaves the nodes moved so far.
     */
    method Rehash(n: nat, ghost m: SoundTable) returns (ok: bool)
      requires n >= 2 && PowerOfTwo(n) && info[..] == m.info && nodes[..] == m.nodes && Count(m) <= Allowed(n)
      modifies this`nodes, this`info, this`num, this`mask, this`maxAllowed, this`inc, this`hashShift, this`model
      ensures fresh(nodes) && fresh(info) && Valid() && Tight() && mask == n - 1
      ensures ok ==> View() == Denotes(m) && num == Count(m)
      ensures !ok ==> Within(View(), Denotes(m)) && SURE_HEADROOM < num < Count(m)
    {
      hide Valid, Moved, Used, SlotOk, KeyOk, Tight, Ordered, Denotes;
      var oldNodes, oldInfo := nodes, info;
      InitData(n);
      MovedStart(m);
      var i := 0;
      ok := true;
      while ok && i < oldNodes.Length
        invariant 0 <= i <= oldNodes.Length && fresh(nodes) && fresh(info) && Valid() && Tight() && mask == n - 1
        invariant oldInfo[..] == m.info && oldNodes[..] == m.nodes
        invariant ok ==> View() == Moved(m, i) && num == Used(m.info[..i])
        invariant !ok ==> Within(View(), Denotes(m)) && SURE_HEADROOM < num < Count(m)
      {
        MovedWithin(m, i);
        ok := MoveOne(oldInfo[i], oldNodes[i], i, m);
        i := i + 1;
      }
    }

    /** The end of `increase_size`: after a rehash of up to 126 entries a finer layout can still make room. */
    method Resize(n: nat, factor: int) returns (ok: bool)
      requires Valid() && n >= 2 && PowerOfTwo(n) && num < Allowed(n)
      modifies this, info
      ensures fresh(nodes) && fresh(info) && Valid() && Within(View(), old(View())) && mask == n - 1 && multiplier == factor
      ensures ok ==> View() == old(View()) && num == old(num)
      ensures !ok ==> SURE_HEADROOM < num < old(num)
      ensures old(num) <= SURE_HEADROOM ==> num < maxAllowed || !MustRehash()
    {
      hide Tight, Denotes, Roomy;
      multiplier := factor;
      ok := Rehash(n, model);
      if num <= SURE_HEADROOM {
        FinerHelps();
      }
      Limits();
    }

    lemma AllowedDoubles()
      requires mask > 0
      ensures Allowed(mask + 1) < Allowed((mask + 1) * 2)
    {
    }

    /** The rehash at the end of `increase_size`: a new multiplier for a table less than half full, else twice the buckets. */
    method Regrow() returns (ok: bool)
      requires Valid() && mask > 0
      modifies this, info
      ensures fresh(nodes) && fresh(info) && Valid() && Within(View(), old(View()))
      ensures ok ==> View() == old(View()) && num == old(num) && mask > 0
      ensures !ok ==> SURE_HEADROOM < num < old(num)
      ensures old(num) <= SURE_HEADROOM ==> num < maxAllowed || !MustRehash()
      ensures if 2 * old(num) < Allowed(old(mask) + 1)
              then mask == old(mask) && multiplier == (old(multiplier) + MULTIPLIER_STEP) % TWO_TO_THE_64
              else mask == 2 * old(mask) + 1 && multiplier == old(multiplier)
    {
      hide Valid, Tight, Allowed, View, PowerOfTwo;
      Limits();
      Load();
      AllowedDoubles();
      if num * 2 < Allowed(mask + 1) {
        ok := Resize(mask + 1, (multiplier + MULTIPLIER_STEP) % TWO_TO_THE_64);
      } else {
        ok := Resize((mask + 1) * 2, multiplier);
      }
    }

    /**
     `increase_size`: a finer layout if that helps, else a new multiplier or twice the buckets. Up to
     126 entries it succeeds, and leaves room for one more at once or after another finer layout.
     */
    method IncreaseSize() returns (ok: bool)
      requires Valid()
      modifies this, info
      ensures (fresh(nodes) && fresh(info)) || (nodes == old(nodes) && info == old(info))
      ensures Valid() && Within(View(), old(View()))
      ensures ok ==> View() == old(View()) && num == old(num) && mask > 0
      ensures !ok ==> SURE_HEADROOM < num < old(num) && old(MustRehash())
      ensures !old(MustRehash()) ==> num < maxAllowed
      ensures old(num) <= SURE_HEADROOM ==> num < maxAllowed || !MustRehash()
      ensures !old(MustRehash()) ==> mask == (if old(mask) == 0 then 7 else old(mask)) && multiplier == old(multiplier)
      ensures old(MustRehash()) ==>
                if 2 * old(num) < Allowed(old(mask) + 1)
                then mask == old(mask) && multiplier == (old(multiplier) + MULTIPLIER_STEP) % TWO_TO_THE_64
                else mask == 2 * old(mask) + 1 && multiplier == old(multiplier)
    {
      hide Valid, Tight, Allowed, View, PowerOfTwo;
      Limits();
      Load();
      if mask == 0 {
        InitData(INITIAL_NUM_ELEMENTS);
        return true;
      }
      if num < Allowed(mask + 1) {
        ok := TryIncreaseInfo();
        if ok {
          return;
        }
      }
      ok := Regrow();
    }

    /** The value store of `insert_or_assign` for a key that is present. */
    method Assign(key: int, val: int, idx: nat)
      requires Valid() && key in model.slot && idx == model.slot[key] && idx < nodes.Length && nodes[idx].key == key
      modifies nodes, this`model
      ensures Valid() && View() == old(View())[key := val]
    {
      ghost var m := Assigned(model, key, val);
      nodes[idx] := Node(key, val);
      model := m;
    }

    /**
     `insertKeyPrepareEmptySpot` with the node stores of `try_emplace` and `insert_or_assign`. A table
     of at most 126 entries takes every new key, and needs at most two attempts to make room for it.
     */
    method Insert(key: int, val: int, assign: bool) returns (result: InsertionState)
      requires Valid()
      modifies this, info, nodes
      ensures (fresh(nodes) && fresh(info)) || (nodes == old(nodes) && info == old(info))
      ensures Valid()
      ensures result == KeyFound <==> key in old(View())
      ensures result == KeyFound ==> View() == if assign then old(View())[key := val] else old(View())
      ensures result == NewNode ==> View() == old(View())[key := val] && num == old(num) + 1
      ensures result == OverflowError ==> Within(View(), old(View()))
      ensures result == OverflowError ==> old(num) > SURE_HEADROOM && old(num) >= old(maxAllowed) && old(MustRehash())
    {
      hide Valid, View, Allowed;
      var attempt := 0;
      while attempt < 256
        invariant attempt == 0 ==> num == old(num) && mask == old(mask) && inc == old(inc) && maxAllowed == old(maxAllowed)
        invariant attempt > 0 ==> key !in old(View()) && old(num) >= old(maxAllowed)
        invariant attempt > 0 && !old(MustRehash()) ==> attempt == 1 && num < maxAllowed
        invariant attempt > 0 && old(num) <= SURE_HEADROOM ==>
                    attempt <= 2 && (num < maxAllowed || (attempt == 1 && !MustRehash()))
        invariant Valid() && View() == old(View()) && num == old(num)
        invariant (fresh(nodes) && fresh(info)) || (nodes == old(nodes) && info == old(info))
      {
        Limits();
        attempt := attempt + 1;
        var found, idx, probe := Locate(key);
        if found {
          if assign {
            Assign(key, val, idx);
          }
          return KeyFound;
        }
        if num >= maxAllowed {
          var ok := IncreaseSize();
          if !ok {
            return OverflowError;
          }
        } else {
          Put(Node(key, val), idx, probe);
          return NewNode;
        }
      }
      result := OverflowError;
    }
  }

  /** The allocation of `initData`: cleared slots, and the sentinel byte behind them. */
  method ClearedArrays(n: nat) returns (nodes: array<Node>, info: array<int>)
    ensures fresh(nodes) && nodes.Length == SlotsFor(n)
    ensures fresh(info) && info.Length == SlotsFor(n) + PADDING
    ensures forall i :: 0 <= i < |info[..]| ==> info[..][i] == if i == SlotsFor(n) then 1 else 0
  {
    nodes := new Node[SlotsFor(n)](i => Node(0, 0));
    info := new int[SlotsFor(n) + PADDING](i => if i == SlotsFor(n) then 1 else 0);
  }

  /** The part of the map whose nodes stand in the first `i` slots. */
  ghost function Moved(m: SoundTable, i: nat): map<int, int> {
    assert forall k <- m.slot :: KeyOk(m.s, m.info, m.nodes, m.slot, k);
    map k <- m.slot | m.slot[k] < i :: m.nodes[m.slot[k]].val
  }

  lemma MovedStart(m: SoundTable)
    ensures Moved(m, 0) == map[] && Used(m.info[..0]) == 0
    ensures Moved(m, m.s.slots) == Denotes(m)
  {
    forall k | k in m.slot ensures 0 <= m.slot[k] < m.s.slots {
      assert KeyOk(m.s, m.info, m.nodes, m.slot, k);
    }
  }

  lemma MovedWithin(m: SoundTable, i: nat)
    ensures Within(Moved(m, i), Denotes(m))
  {
    forall k | k in m.slot ensures 0 <= m.slot[k] < m.s.slots {
      assert KeyOk(m.s, m.info, m.nodes, m.slot, k);
    }
  }

  lemma MovedStep(m: SoundTable, i: nat)
    requires i < m.s.slots
    ensures Moved(m, i + 1) == if m.info[i] != 0 then Moved(m, i)[m.nodes[i].key := m.nodes[i].val] else Moved(m, i)
    ensures m.info[i] != 0 ==> m.nodes[i].key !in Moved(m, i)
    ensures Used(m.info[..i + 1]) == Used(m.info[..i]) + (if m.info[i] != 0 then 1 else 0) <= Count(m)
  {
    assert SlotOk(m.h, m.s, m.info, m.nodes, m.slot, i);
    forall k | k in m.slot ensures m.slot[k] == i ==> m.info[i] != 0 && m.nodes[i].key == k {
      assert KeyOk(m.s, m.info, m.nodes, m.slot, k);
    }
    assert m.info[..i + 1][..i] == m.info[..i];
    assert m.info[..m.s.slots] == m.info[..i + 1] + m.info[i + 1..m.s.slots];
    UsedConcat(m.info[..i + 1], m.info[i + 1..m.s.slots]);
  }

  /** `LastSlotEmpty`, also for the table of one bucket that nothing can enter. */
  lemma LastEmpty(m: SoundTable)
    requires Count(m) <= Allowed(m.s.buckets)
    ensures m.info[m.s.slots - 1] == 0
  {
    if Allowed(m.s.buckets) > 0 {
      LastSlotEmpty(m.h, m.s, m.info, m.nodes, m.slot);
    }
  }

  /** The table of one bucket, with no slot allowed, is empty. */
  lemma EmptyDummy(m: SoundTable)
    requires m.s.buckets == 1 && Count(m) <= Allowed(1)
    ensures Denotes(m) == map[]
  {
    forall k | k in m.slot ensures m.info[0] != 0 {
      assert KeyOk(m.s, m.info, m.nodes, m.slot, k);
    }
    LastEmpty(m);
  }

  lemma Assigned(m: SoundTable, key: int, val: int) returns (m': SoundTable)
    requires key in m.slot
    ensures KeyOk(m.s, m.info, m.nodes, m.slot, key)
    ensures m'.h == m.h && m'.s == m.s && m'.info == m.info && m'.slot == m.slot
    ensures m'.nodes == m.nodes[m.slot[key] := Node(key, val)]
    ensures Denotes(m') == Denotes(m)[key := val] && Count(m') == Count(m)
  {
    assert KeyOk(m.s, m.info, m.nodes, m.slot, key);
    var nodes := m.nodes[m.slot[key] := Node(key, val)];
    forall i | 0 <= i < m.s.slots ensures SlotOk(m.h, m.s, m.info, nodes, m.slot, i) {
      assert SlotOk(m.h, m.s, m.info, m.nodes, m.slot, i);
    }
    forall k | k in m.slot ensures KeyOk(m.s, m.info, nodes, m.slot, k) {
      assert KeyOk(m.s, m.info, m.nodes, m.slot, k);
    }
    m' := RawTable(m.h, m.s, m.info, nodes, m.slot);
    forall k | k in m.slot && k != key ensures nodes[m.slot[k]] == m.nodes[m.slot[k]] {
      assert KeyOk(m.s, m.info, m.nodes, m.slot, k);
    }
    var d := Denotes(m)[key := val];
    assert Denotes(m').Keys == d.Keys;
    assert forall k :: k in d ==> Denotes(m')[k] == d[k];
  }

  /** The table of one bucket that stands for a map nobody has entered anything into. */
  lemma Dummy(h: Hash) returns (m: SoundTable)
    ensures m == RawTable(h, Shape(1, 1, 0), [0, 0, 0, 0, 0, 0, 0, 0, 0], [Node(0, 0)], map[])
    ensures Denotes(m) == map[] && Count(m) == 0
  {
    m := RawTable(h, Shape(1, 1, 0), [0, 0, 0, 0, 0, 0, 0, 0, 0], [Node(0, 0)], map[]);
    UsedNone(m.info[..1]);
  }

  /** The sound table without any entry. */
  lemma Blank(h: Hash, n: nat, info: seq<int>, nodes: seq<Node>) returns (m: SoundTable)
    requires n >= 2 && |nodes| == SlotsFor(n) && |info| == SlotsFor(n) + PADDING
    requires forall i :: 0 <= i < |info| ==> info[i] == if i == SlotsFor(n) then 1 else 0
    ensures m == RawTable(h, Shape(n, SlotsFor(n), 0), info, nodes, map[])
    ensures Denotes(m) == map[] && Count(m) == 0 && Headroom(m.s, m.info)
  {
    m := RawTable(h, Shape(n, SlotsFor(n), 0), info, nodes, map[]);
    UsedNone(info[..SlotsFor(n)]);
  }

  lemma {:induction false} UsedNone(a: seq<int>)
    requires forall i :: 0 <= i < |a| ==> a[i] == 0
    ensures Used(a) == 0
  {
    if a != [] {
      UsedNone(a[..|a| - 1]);
    }
  }

  /** The sound table after halving all info bytes. */
  lemma Halved(m: SoundTable) returns (m': SoundTable)
    requires m.s.Inc() > 2 && m.s.buckets > 1
    ensures m' == RawTable(m.h, Finer(m.s), HalvedInfo(m.s, m.info), m.nodes, m.slot)
    ensures Denotes(m') == Denotes(m) && Count(m') == Count(m) && 2 * m'.s.Inc() == m.s.Inc()
    ensures Count(m) <= Allowed(m.s.buckets) ==> Roomy(m', Allowed(m.s.buckets))
  {
    HalveKeeps(m.h, m.s, m.info, m.nodes, m.slot);
    m' := RawTable(m.h, Finer(m.s), HalvedInfo(m.s, m.info), m.nodes, m.slot);
  }

  lemma Pushed(m: SoundTable, n: Node, a: int, e: int) returns (m': SoundTable)
    requires CanPush(m.h, m.s, m.info, m.nodes, m.slot, n.key, a, e)
    ensures m'.h == m.h && m'.s == m.s
    ensures m'.info == PushedInfo(m.info, a, e, Probe(m.h, m.s, n.key, a), m.s.Inc())
    ensures m'.nodes == PushedNodes(m.nodes, a, e, n)
    ensures Denotes(m') == Denotes(m)[n.key := n.val] && Count(m') == Count(m) + 1
    ensures m.s.Inc() <= Probe(m.h, m.s, n.key, a) <= 255
  {
    PushKeeps(m.h, m.s, m.info, m.nodes, m.slot, n, a, e);
    PushedByte(m.h, m.s, m.info, m.nodes, m.slot, n.key, a, e);
    m' := RawTable(m.h, m.s, PushedInfo(m.info, a, e, Probe(m.h, m.s, n.key, a), m.s.Inc()),
                   PushedNodes(m.nodes, a, e, n), PushedSlot(m.slot, a, e, n.key));
  }

  lemma Pulled(m: SoundTable, a: int, e: int) returns (m': SoundTable)
    requires CanPull(m.h, m.s, m.info, m.nodes, m.slot, a, e)
    ensures m'.h == m.h && m'.s == m.s
    ensures m'.info == PulledInfo(m.info, a, e, m.s.Inc()) && m'.nodes == PulledNodes(m.nodes, a, e)
    ensures Denotes(m') == Denotes(m) - {m.nodes[a].key} && Count(m') == Count(m) - 1
  {
    PullTable(m.h, m.s, m.info, m.nodes, m.slot, a, e);
    PullContents(m.h, m.s, m.info, m.nodes, m.slot, a, e);
    PulledUsed(m.info, a, e, m.s.Inc(), m.s.slots);
    m' := RawTable(m.h, m.s, PulledInfo(m.info, a, e, m.s.Inc()), PulledNodes(m.nodes, a, e), PulledSlot(m.slot, a, e));
  }

  lemma PulledHeadroom(s: Shape, info: seq<int>, a: nat, e: nat)
    requires |info| == s.slots + PADDING && a <= e < s.slots
    ensures Headroom(s, info) ==> Headroom(s, PulledInfo(info, a, e, s.Inc()))
  {
    forall i | 0 <= i < s.slots {
      PulledInfoAt(info, a, e, s.Inc(), i);
    }
  }

  /** The limit is lowered exactly when the table loses its headroom. */
  lemma Settled(s: Shape, info: seq<int>, r: seq<int>, a: nat, e: nat, byte: int, full: nat, before: nat, after: nat)
    requires |info| == s.slots + PADDING && a <= full <= e < s.slots && Headroom(s, info)
    requires r == PushedInfo(info, a, e, byte, s.Inc()) && before > 0 && (after == 0 || after == before)
    requires after != 0 ==> forall i :: a <= i <= e ==> r[i] + s.Inc() <= 255
    requires after != before ==> r[full] + s.Inc() > 255
    ensures after == if Headroom(s, r) then before else 0
  {
    hide PushedInfo;
    PushedHeadroom(s, info, a, e, byte);
  }

  lemma PushedHeadroom(s: Shape, info: seq<int>, a: nat, e: nat, byte: int)
    requires |info| == s.slots + PADDING && a <= e < s.slots && Headroom(s, info)
    ensures var r := PushedInfo(info, a, e, byte, s.Inc());
            (forall i :: a <= i <= e ==> r[i] + s.Inc() <= 255) ==> Headroom(s, r)
  {
    var r := PushedInfo(info, a, e, byte, s.Inc());
    forall i | 0 <= i < s.slots ensures i < a || i > e ==> r[i] == info[i] {
      PushedInfoAt(info, a, e, byte, s.Inc(), i);
    }
  }

  /** The element count is the size of the map. */
  lemma {:induction false} MovedCard(m: SoundTable, i: nat)
    requires i <= m.s.slots
    ensures |Moved(m, i)| == Used(m.info[..i])
  {
    if i == 0 {
      MovedStart(m);
    } else {
      MovedCard(m, i - 1);
      MovedStep(m, i - 1);
    }
  }

  lemma CountIsSize(m: SoundTable)
    ensures Count(m) == |Denotes(m)|
  {
    MovedCard(m, m.s.slots);
    MovedStart(m);
  }

  // ---------- whole runs ----------

  datatype Op = TryEmplace(key: int, val: int) | InsertOrAssign(key: int, val: int) | Remove(key: int)

  /** What an operation means for a finite map. */
  function Step(m: map<int, int>, op: Op): map<int, int> {
    match op
    case TryEmplace(k, v) => if k in m then m else m[k := v]
    case InsertOrAssign(k, v) => m[k := v]
    case Remove(k) => m - {k}
  }

  function Run(ops: seq<Op>): map<int, int> {
    if ops == [] then map[] else Step(Run(ops[..|ops| - 1]), ops[|ops| - 1])
  }

  /** Operation `i` puts the key `k` into the map, and no later one removes it. */
  ghost predicate Enters(ops: seq<Op>, i: int, k: int) {
    && 0 <= i < |ops| && ops[i].key == k && !ops[i].Remove?
    && forall j :: i < j < |ops| ==> ops[j] != Remove(k)
  }

  /** Operation `i` gives the key `k` the value that it has in the end. */
  ghost predicate Decides(ops: seq<Op>, i: int, k: int, v: int) {
    && Enters(ops, i, k) && ops[i].val == v
    && (ops[i].TryEmplace? ==> forall j :: !Enters(ops[..i], j, k))
    && forall j :: i < j < |ops| && ops[j].key == k ==> !ops[j].InsertOrAssign?
  }

  /**
   What a run leaves under a key: nothing, unless some operation enters the key and none removes it
   later; and then the value of the last assignment since, or else of the first entry since.
   */
  lemma {:induction false} RunIs(ops: seq<Op>, k: int, v: int)
    ensures k in Run(ops) <==> exists i :: Enters(ops, i, k)
    ensures k in Run(ops) && Run(ops)[k] == v <==> exists i :: Decides(ops, i, k, v)
  {
    if ops != [] {
      var f, op := ops[..|ops| - 1], ops[|ops| - 1];
      RunIs(f, k, v);
      RunGoesOn(f, op, k, v);
      assert f + [op] == ops;
    }
  }

  lemma EntersAppend(f: seq<Op>, op: Op, i: int, k: int)
    ensures Enters(f + [op], i, k) <==> if i == |f| then op.key == k && !op.Remove? else Enters(f, i, k) && op != Remove(k)
  {
    var ops := f + [op];
    assert ops[|f|] == op;
    assert forall j :: 0 <= j < |f| ==> ops[j] == f[j];
  }

  lemma DecidesAppend(f: seq<Op>, op: Op, i: int, k: int, v: int)
    ensures Decides(f + [op], i, k, v) <==>
            if i == |f| then op.key == k && !op.Remove? && op.val == v && (op.TryEmplace? ==> forall j :: !Enters(f, j, k))
            else Decides(f, i, k, v) && op != Remove(k) && (op.key == k ==> !op.InsertOrAssign?)
  {
    hide Enters;
    var ops := f + [op];
    EntersAppend(f, op, i, k);
    assert ops[..|f|] == f && ops[|f|] == op;
    assert forall j :: 0 <= j < |f| ==> ops[j] == f[j];
    if 0 <= i < |f| {
      assert ops[..i] == f[..i];
    } else if i != |f| {
      Outside(f, i, k);
    }
  }

  lemma Outside(f: seq<Op>, i: int, k: int)
    requires !(0 <= i < |f|)
    ensures !Enters(f, i, k)
  {
  }

  /** Which operation counts, once one more has been carried out. */
  lemma RunGoesOn(f: seq<Op>, op: Op, k: int, v: int)
    ensures (exists i :: Enters(f + [op], i, k)) <==>
            if op.key == k then !op.Remove? else exists i :: Enters(f, i, k)
    ensures (exists i :: Decides(f + [op], i, k, v)) <==>
            if op.key != k then exists i :: Decides(f, i, k, v)
            else if op.Remove? then false
            else if op.InsertOrAssign? || !(exists i :: Enters(f, i, k)) then op.val == v
            else exists i :: Decides(f, i, k, v)
  {
    hide Enters, Decides;
    var ops := f + [op];
    forall i
      ensures Enters(ops, i, k) <==> if i == |f| then op.key == k && !op.Remove? else Enters(f, i, k) && op != Remove(k)
    {
      EntersAppend(f, op, i, k);
    }
    forall i
      ensures Decides(ops, i, k, v) <==>
              if i == |f| then op.key == k && !op.Remove? && op.val == v && (op.TryEmplace? ==> forall j :: !Enters(f, j, k))
              else Decides(f, i, k, v) && op != Remove(k) && (op.key == k ==> !op.InsertOrAssign?)
    {
      DecidesAppend(f, op, i, k, v);
    }
    Outside(f, |f|, k);
    Undecided(f, |f|, k, v);
  }

  lemma Undecided(f: seq<Op>, i: int, k: int, v: int)
    requires !(0 <= i < |f|)
    ensures !Decides(f, i, k, v)
    ensures forall j :: Decides(f, j, k, v) ==> Enters(f, j, k)
  {
    hide Enters;
    Outside(f, i, k);
  }

  method Perform(t: Table, op: Op) returns (ok: bool)
    requires t.Valid()
    modifies t, t.nodes, t.info
    ensures (fresh(t.nodes) && fresh(t.info)) || (t.nodes == old(t.nodes) && t.info == old(t.info))
    ensures t.Valid()
    ensures ok ==> t.View() == Step(old(t.View()), op)
    ensures !ok ==> !op.Remove? && op.key !in old(t.View()) && old(t.num) > SURE_HEADROOM
    ensures !ok ==> old(t.num) >= old(t.maxAllowed) && old(t.MustRehash()) && Within(t.View(), old(t.View()))
  {
    match op
    case TryEmplace(k, v) =>
      var r := t.Insert(k, v, false);
      ok := r != OverflowError;
    case InsertOrAssign(k, v) =>
      var r := t.Insert(k, v, true);
      ok := r != OverflowError;
    case Remove(k) =>
      var erased := t.Erase(k);
      ok := true;
  }

  /** At no time does the map of a run hold more than `n` keys. */
  ghost predicate NeverOver(ops: seq<Op>, n: nat) {
    forall i :: 0 <= i <= |ops| ==> |Run(ops[..i])| <= n
  }

  ghost predicate AllCollide(mix: Mixer) {
    forall a, b :: mix(a, b) == mix(0, 0)
  }

  /** A failing step enters a 128th key. */
  lemma OverAfter(ops: seq<Op>, done: nat)
    requires done < |ops| && !ops[done].Remove? && ops[done].key !in Run(ops[..done])
    ensures |Run(ops[..done + 1])| == |Run(ops[..done])| + 1
  {
    assert ops[..done + 1][..done] == ops[..done];
    NewKeyCounts(Run(ops[..done]), ops[done].key, ops[done].val);
  }

  lemma NewKeyCounts(m: map<int, int>, k: int, v: int)
    requires k !in m
    ensures |m[k := v]| == |m| + 1
  {
    assert m[k := v].Keys == m.Keys + {k};
    assert |m[k := v]| == |m[k := v].Keys| && |m| == |m.Keys|;
  }

  /**
   Refinement over whole runs: after any sequence of operations the table finds exactly the keys,
   with exactly the values, that a finite map would hold, unless it throws an overflow error. With
   up to 127 keys at a time there is no overflow, whatever the hash function does; and when all keys
   collide there is one exactly when the map comes to hold more.
   */
  method Replay(mix: Mixer, ops: seq<Op>, probe: int) returns (ok: bool, found: bool, val: int, size: nat, done: nat)
    ensures done <= |ops| && (ok <==> done == |ops|)
    ensures NeverOver(ops, SURE_HEADROOM + 1) ==> ok
    ensures AllCollide(mix) ==> (ok <==> NeverOver(ops, SURE_HEADROOM + 1))
    ensures !ok ==> !ops[done].Remove? && ops[done].key !in Run(ops[..done]) && |Run(ops[..done])| > SURE_HEADROOM
    ensures ok ==> found == (probe in Run(ops)) && (found ==> val == Run(ops)[probe]) && size == |Run(ops)|
  {
    hide Table.Valid, Run, Step;
    found, val, size := false, 0, 0;
    var t;
    ok, done, t := Execute(mix, ops);
    if ok {
      assert ops[..|ops|] == ops;
      found, val, size := Consult(t, probe);
    } else {
      OverAfter(ops, done);
    }
  }

  lemma RunStep(ops: seq<Op>, i: nat)
    requires i < |ops|
    ensures Run(ops[..i + 1]) == Step(Run(ops[..i]), ops[i])
  {
    assert ops[..i + 1][..i] == ops[..i];
  }

  /** The operations up to the first that overflows. */
  method Execute(mix: Mixer, ops: seq<Op>) returns (ok: bool, done: nat, t: Table)
    ensures done <= |ops| && (ok <==> done == |ops|) && t.Valid()
    ensures ok ==> t.View() == Run(ops[..|ops|])
    ensures !ok ==> !ops[done].Remove? && ops[done].key !in Run(ops[..done]) && |Run(ops[..done])| > SURE_HEADROOM
    ensures AllCollide(mix) ==> forall i :: 0 <= i <= done ==> |Run(ops[..i])| <= SURE_HEADROOM + 1
  {
    hide Table.Valid, Table.View, Run, Step, Within, AllCollide;
    t := new Table(mix);
    ok, done := true, 0;
    assert Run(ops[..0]) == map[] by { RunNothing(); }
    Sized(t);
    while done < |ops|
      invariant 0 <= done <= |ops| && fresh(t) && fresh(t.nodes) && fresh(t.info) && t.Valid() && t.mix == mix
      invariant ok && t.View() == Run(ops[..done]) && t.num == |Run(ops[..done])|
      invariant AllCollide(mix) ==> forall i :: 0 <= i <= done ==> |Run(ops[..i])| <= SURE_HEADROOM + 1
    {
      RunStep(ops, done);
      ok := Perform(t, ops[done]);
      if !ok {
        return;
      }
      Sized(t);
      done := done + 1;
    }
  }

  lemma RunNothing()
    ensures Run([]) == map[]
  {
  }

  lemma Sized(t: Table)
    requires t.Valid()
    ensures t.num == |t.View()|
    ensures AllCollide(t.mix) ==> t.num <= SURE_HEADROOM + 1
  {
    CountIsSize(t.model);
    if AllCollide(t.mix) {
      t.CollidingSize();
    }
  }

  /** A lookup and the element count. */
  method Consult(t: Table, probe: int) returns (found: bool, val: int, size: nat)
    requires t.Valid()
    ensures found == (probe in t.View()) && (found ==> val == t.View()[probe]) && size == |t.View()|
  {
    Sized(t);
    size := t.num;
    var idx;
    found, idx := t.FindIdx(probe);
    val := if found then t.nodes[idx].val else 0;
  }

  // ---------- an overflow ----------

  /** Entering the keys 0 to n - 1. */
  function Entering(n: nat): (ops: seq<Op>)
    ensures |ops| == n
  {
    seq(n, i requires 0 <= i < n => TryEmplace(i, 0))
  }

  lemma {:induction false} EnteringRuns(n: nat, i: nat)
    requires i <= n
    ensures |Run(Entering(n)[..i])| == i && forall k :: k in Run(Entering(n)[..i]) <==> 0 <= k < i
  {
    hide Run;
    RunNothing();
    if i > 0 {
      EnteringRuns(n, i - 1);
      RunStep(Entering(n), i - 1);
      NewKeyCounts(Run(Entering(n)[..i - 1]), i - 1, 0);
    } else {
      assert Entering(n)[..0] == [];
    }
  }

  /** The bound is sharp: under a constant hash 127 keys enter, and the 128th overflows. */
  method Collide(c: nat, n: nat) returns (ok: bool)
    ensures ok <==> n <= 127
  {
    var mix: Mixer := (a, b) => c;
    var found, val, size, done;
    ok, found, val, size, done := Replay(mix, Entering(n), 0);
    assert AllCollide(mix);
    forall i | 0 <= i <= n ensures |Run(Entering(n)[..i])| == i {
      EnteringRuns(n, i);
    }
    assert |Run(Entering(n)[..n])| == n;
  }
}
