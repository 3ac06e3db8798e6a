/**
 The binary heap of pqueue.c. Slot 0 is unused; every element stores its own position, so that it
 can be removed or reprioritised from anywhere in the heap.
 */
module PriorityQueue {

  class Node {
    const id: int
    var pri: real
    var pos: int

    constructor (id: int, pri: real)
      ensures this.id == id && this.pri == pri
    {
      this.id, this.pri, pos := id, pri, 0;
    }
  }

  // ---------- order with a gap ----------

  /** Slot `j` does not outrank its parent. */
  predicate Below(ks: seq<real>, j: int)
    requires 2 <= j < |ks|
  {
    ks[j] <= ks[j / 2]
  }

  /** Heap order of the priorities in slots 1 and up. */
  ghost predicate Heap(ks: seq<real>) {
    forall j :: 2 <= j < |ks| ==> Below(ks, j)
  }

  /** Heap order except at slot `i`, around which the order also holds when slot `i` is skipped. */
  ghost predicate HeapAround(ks: seq<real>, i: int) {
    && (forall j :: 2 <= j < |ks| && j != i && j / 2 != i ==> Below(ks, j))
    && (i > 1 ==> forall j :: 2 <= j < |ks| && j / 2 == i ==> ks[j] <= ks[i / 2])
  }

  /** Nothing below slot `i` outranks it. */
  ghost predicate Outranks(ks: seq<real>, i: int)
    requires 0 <= i < |ks|
  {
    forall j :: 2 <= j < |ks| && j / 2 == i ==> ks[j] <= ks[i]
  }

  lemma BubbleStep(ks: seq<real>, i: int)
    requires 2 <= i < |ks| && HeapAround(ks, i) && Outranks(ks, i) && ks[i / 2] < ks[i]
    ensures var s := ks[i := ks[i / 2]][i / 2 := ks[i]]; HeapAround(s, i / 2) && Outranks(s, i / 2)
  {
    var p, s := i / 2, ks[i := ks[i / 2]][i / 2 := ks[i]];
    forall j | 2 <= j < |s| && j != p && j / 2 != p ensures Below(s, j) {
      assert j / 2 != i ==> Below(ks, j);
    }
    forall j | 2 <= j < |s| && j / 2 == p ensures s[j] <= s[p] && (p > 1 ==> s[j] <= s[p / 2]) {
      assert j != i ==> Below(ks, j);
      assert p > 1 ==> Below(ks, p);
    }
  }

  lemma BubbleDone(ks: seq<real>, i: int)
    requires 1 <= i < |ks| && HeapAround(ks, i) && Outranks(ks, i) && (i == 1 || ks[i / 2] >= ks[i])
    ensures Heap(ks)
  {
    forall j | 2 <= j < |ks| ensures Below(ks, j) {
    }
  }

  /** `c` is the child of `i` with the largest priority. */
  ghost predicate IsMaxChild(ks: seq<real>, i: int, c: int) {
    && 2 <= c < |ks| && c / 2 == i
    && forall j :: 2 <= j < |ks| && j / 2 == i ==> ks[j] <= ks[c]
  }

  lemma PercolateStep(ks: seq<real>, i: int, c: int)
    requires 1 <= i < |ks| && HeapAround(ks, i) && (i == 1 || ks[i] <= ks[i / 2])
    requires IsMaxChild(ks, i, c) && ks[i] < ks[c]
    ensures var s := ks[i := ks[c]][c := ks[i]]; HeapAround(s, c) && s[c] <= s[c / 2]
  {
    var s := ks[i := ks[c]][c := ks[i]];
    forall j | 2 <= j < |s| && j != c && j / 2 != c ensures Below(s, j) {
      assert j != i && j / 2 != i ==> Below(ks, j);
    }
    forall j | 2 <= j < |s| && j / 2 == c ensures s[j] <= s[c / 2] {
      assert Below(ks, j);
    }
  }

  lemma MaxChildLow(ks: seq<real>, i: int, c: int)
    requires 1 <= i < |ks| && IsMaxChild(ks, i, c) && ks[c] <= ks[i]
    ensures Outranks(ks, i)
  {
  }

  lemma PercolateDone(ks: seq<real>, i: int)
    requires 1 <= i < |ks| && HeapAround(ks, i) && (i == 1 || ks[i] <= ks[i / 2]) && Outranks(ks, i)
    ensures Heap(ks)
  {
    forall j | 2 <= j < |ks| ensures Below(ks, j) {
    }
  }

  /** The root of a heap is a maximum. */
  lemma {:induction false} RootIsMax(ks: seq<real>, j: int)
    requires Heap(ks) && 1 <= j < |ks|
    ensures ks[j] <= ks[1]
    decreases j
  {
    if j > 1 {
      assert Below(ks, j);
      RootIsMax(ks, j / 2);
    }
  }

  /** Changing one priority of a heap leaves the order around its slot intact. */
  lemma Changed(ks: seq<real>, i: int, k: real)
    requires Heap(ks) && 1 <= i < |ks|
    ensures HeapAround(ks[i := k], i)
    ensures ks[i] <= k ==> Outranks(ks[i := k], i)
    ensures k <= ks[i] ==> i == 1 || k <= ks[i / 2]
  {
    var s := ks[i := k];
    forall j | 2 <= j < |s| && j != i && j / 2 != i ensures Below(s, j) {
      assert Below(ks, j);
    }
    forall j | 2 <= j < |s| && j / 2 == i ensures s[j] <= ks[i] && (i > 1 ==> s[j] <= s[i / 2]) {
      assert Below(ks, j);
      assert i > 1 ==> Below(ks, i);
    }
    assert i > 1 ==> Below(ks, i);
  }

  /** A heap without its last slot is a heap. */
  lemma Shorter(ks: seq<real>, n: nat)
    requires Heap(ks) && n <= |ks|
    ensures Heap(ks[..n])
  {
    forall j | 2 <= j < n ensures Below(ks[..n], j) {
      assert Below(ks, j);
    }
  }

  /** A slot appended at the end has nothing below it. */
  lemma Longer(ks: seq<real>, k: real)
    requires Heap(ks) && |ks| >= 1
    ensures HeapAround(ks + [k], |ks|) && Outranks(ks + [k], |ks|)
  {
    var s := ks + [k];
    forall j | 2 <= j < |s| && j != |ks| && j / 2 != |ks| ensures Below(s, j) {
      assert Below(ks, j);
    }
  }

  class Queue {
    var d: array<Node?>
    var size: nat
    ghost var members: set<Node>
    ghost var ks: seq<real>

    /**
     The slots hold the members, each at the position it stores, and `ks` lists the priorities. Slot
     `i` is a gap that belongs to the member `m`; for `i == 0` there is no gap.
     */
    ghost predicate Filled(i: int, m: Node?)
      reads this, d, members
    {
      && 1 <= size <= d.Length && |ks| == size && 0 <= i < size && (i > 0 <==> m != null)
      && (forall j :: 1 <= j < size && j != i ==>
            d[j] != null && d[j] in members && d[j].pos == j && d[j].pri == ks[j] && d[j] != m)
      && (forall x <- members :: x != m ==> 1 <= x.pos < size && x.pos != i && d[x.pos] == x)
      && (m != null ==> m in members && ks[i] == m.pri)
    }

    ghost predicate Valid()
      reads this, d, members
    {
      Filled(0, null) && Heap(ks)
    }

    /** `pqueue_init`. */
    constructor (n: nat)
      ensures Valid() && members == {} && fresh(d)
    {
      d := new Node?[n + 1](i => null);
      size, members, ks := 1, {}, [0.0];
    }

    /** One round of either loop: the element in slot `from` moves into the gap. */
    method Shift(i: int, from: int, ghost m: Node)
      requires Filled(i, m) && 1 <= from < size && from != i
      modifies d, this`ks, members`pos
      ensures Filled(from, m) && ks == old(ks[i := ks[from]][from := ks[i]])
    {
      d[i] := d[from];
      d[i].pos := i;
      ks := ks[i := ks[from]][from := ks[i]];
    }

    /** The end of either loop: the moving element takes the gap. */
    method Close(i: int, m: Node)
      requires Filled(i, m)
      modifies d, members`pos
      ensures Filled(0, null)
    {
      d[i] := m;
      m.pos := i;
    }

    /** `bubble_up`. */
    method BubbleUp(start: int)
      requires 0 <= start < d.Length && Filled(start, d[start]) && start > 0
      requires HeapAround(ks, start) && Outranks(ks, start)
      modifies d, this`ks, members`pos
      ensures Valid()
    {
      var i, moving := start, d[start];
      var parent := i / 2;
      while i > 1 && d[parent].pri < moving.pri
        invariant moving in members && Filled(i, moving) && HeapAround(ks, i) && Outranks(ks, i)
        invariant i > 0 && parent == i / 2
        decreases i
      {
        BubbleStep(ks, i);
        Shift(i, parent, moving);
        i := parent;
        parent := i / 2;
      }
      BubbleDone(ks, i);
      Close(i, moving);
    }

    /** `maxchild`: the child with the largest priority, or 0 for none. */
    method MaxChild(i: int, ghost m: Node) returns (c: int)
      requires Filled(i, m)
      ensures if c == 0 then Outranks(ks, i) && 2 * i >= size else i < c < size && IsMaxChild(ks, i, c)
    {
      c := 2 * i;
      if c >= size {
        return 0;
      }
      if c + 1 < size && d[c].pri < d[c + 1].pri {
        c := c + 1;
      }
    }

    /** A round of the loop of `percolate_down`: the gap moves to the child `c`, and `c'` is its own largest child. */
    method Lower(i: int, c: int, moving: Node) returns (i': int, c': int)
      requires 0 < i < c < size && Filled(i, moving) && IsMaxChild(ks, i, c) && moving.pri < d[c].pri
      requires HeapAround(ks, i) && (i == 1 || ks[i] <= ks[i / 2])
      modifies d, this`ks, members`pos
      ensures i' == c && Filled(c, moving) && HeapAround(ks, c) && ks[c] <= ks[c / 2]
      ensures if c' == 0 then Outranks(ks, c) else c < c' < size && IsMaxChild(ks, c, c')
    {
      hide Heap, HeapAround, Outranks, IsMaxChild;
      PercolateStep(ks, i, c);
      Shift(i, c, moving);
      i' := c;
      c' := MaxChild(c, moving);
    }

    /** The loop of `percolate_down`, and the end of it. */
    method Sink(start: int)
      requires 0 < start < size <= d.Length && Filled(start, d[start])
      requires HeapAround(ks, start) && (start == 1 || ks[start] <= ks[start / 2])
      modifies d, this`ks, members`pos
      ensures Valid()
    {
      hide Heap, HeapAround, Outranks, IsMaxChild;
      var i, moving := start, d[start];
      var c := MaxChild(i, moving);
      while c != 0 && moving.pri < d[c].pri
        invariant moving in members && Filled(i, moving) && HeapAround(ks, i) && i > 0 && (i == 1 || ks[i] <= ks[i / 2])
        invariant if c == 0 then Outranks(ks, i) else i < c < size && IsMaxChild(ks, i, c)
        decreases size - i
      {
        i, c := Lower(i, c, moving);
      }
      if c != 0 {
        MaxChildLow(ks, i, c);
      }
      PercolateDone(ks, i);
      Close(i, moving);
    }

    /** `percolate_down`. A position past the end of the heap, as after removing its last slot, is left alone. */
    method PercolateDown(start: int, ghost gone: set<Node>)
      requires 0 < start < d.Length && d[start] != null && size >= 1
      requires start < size ==> Filled(start, d[start]) && HeapAround(ks, start) && (start == 1 || ks[start] <= ks[start / 2])
      requires start >= size ==> Valid() && gone !! members && d[start] in gone
      modifies d, this`ks, members`pos, gone`pos
      ensures Valid()
    {
      hide Heap, HeapAround;
      if start < size {
        Sink(start);
      } else {
        assert 2 * start >= size;
        d[start].pos := start;
      }
    }

    /** The growth in `pqueue_insert`: twice the slots. */
    method Grow()
      requires Valid()
      modifies this`d
      ensures Valid() && size < d.Length && (d == old(d) || fresh(d))
    {
      if size >= d.Length {
        var larger := new Node?[2 * d.Length](i => null);
        forall i | 0 <= i < d.Length {
          larger[i] := d[i];
        }
        d := larger;
      }
    }

    /** A new element gets the slot after the last one, as a gap. */
    method Open(n: Node) returns (i: int)
      requires Valid() && n !in members && size < d.Length
      modifies this`size, this`members, this`ks, d
      ensures 0 < i < d.Length && d[i] == n && members == old(members) + {n}
      ensures Filled(i, n) && HeapAround(ks, i) && Outranks(ks, i)
    {
      hide Heap, HeapAround, Outranks;
      i := size;
      size := size + 1;
      d[i] := n;
      Longer(ks, n.pri);
      ks, members := ks + [n.pri], members + {n};
    }

    /** `pqueue_insert`. */
    method Insert(n: Node)
      requires Valid() && n !in members
      modifies this, d, members`pos, n`pos
      ensures Valid() && members == old(members) + {n} && (d == old(d) || fresh(d))
    {
      hide Heap, HeapAround, Outranks;
      Grow();
      var i := Open(n);
      BubbleUp(i);
    }

    /** `pqueue_change_priority`. */
    method ChangePriority(n: Node, pri: real)
      requires Valid() && n in members
      modifies d, this`ks, members`pos, n`pri
      ensures Valid() && n.pri == pri
    {
      var old_pri := n.pri;
      n.pri := pri;
      var i := n.pos;
      Changed(ks, i, pri);
      ks := ks[i := pri];
      if old_pri < pri {
        BubbleUp(i);
      } else {
        PercolateDown(i, {});
      }
    }

    /** `pqueue_peek`. */
    method Peek() returns (n: Node?)
      requires Valid()
      ensures n == null <==> members == {}
      ensures n != null ==> size > 1 && n == d[1] && n in members && forall x <- members :: x.pri <= n.pri
    {
      if size == 1 {
        assert forall x <- members :: false;
        return null;
      }
      n := d[1];
      forall x: Node | x in members ensures x.pri <= n.pri {
        RootIsMax(ks, x.pos);
      }
    }

    /** The last slot takes the place of slot `i`, whose element leaves. */
    method Vacate(i: int, ghost n: Node)
      requires Valid() && 1 <= i < size && d[i] == n
      modifies this`size, this`members, this`ks, d
      ensures size == old(size) - 1 && 1 <= size < d.Length && members == old(members) - {n}
      ensures d[i] == old(d[size - 1]) && d[i] != null
      ensures i >= size ==> Valid() && d[i] == n
      ensures i < size ==> Filled(i, d[i]) && HeapAround(ks, i)
      ensures i < size ==> (n.pri <= d[i].pri ==> Outranks(ks, i)) && (d[i].pri <= n.pri ==> i == 1 || ks[i] <= ks[i / 2])
    {
      hide Heap, HeapAround, Outranks;
      size := size - 1;
      d[i] := d[size];
      Shorter(ks, size);
      members := members - {n};
      if i < size {
        Changed(ks[..size], i, ks[size]);
        ks := ks[..size][i := ks[size]];
      } else {
        ks := ks[..size];
      }
    }

    /** `pqueue_remove`. */
    method Remove(n: Node)
      requires Valid() && n in members
      modifies this, d, members`pos
      ensures Valid() && members == old(members) - {n} && d == old(d)
    {
      hide Heap, HeapAround, Outranks;
      var i := n.pos;
      Vacate(i, n);
      if n.pri < d[i].pri {
        BubbleUp(i);
      } else {
        PercolateDown(i, {n});
      }
    }

    /** `pqueue_pop`. */
    method Pop() returns (head: Node?)
      requires Valid()
      modifies this, d, members`pos
      ensures Valid() && d == old(d)
      ensures head == null <==> old(members) == {}
      ensures head != null ==> head in old(members) && members == old(members) - {head}
                               && forall x <- old(members) :: x.pri <= head.pri
      ensures head == null ==> members == old(members)
    {
      hide Heap, HeapAround, Outranks;
      head := Peek();
      if head == null {
        return;
      }
      Vacate(1, head);
      PercolateDown(1, {head});
    }
  }

  /** The elements come out by falling priority. */
  ghost predicate Falling(out: seq<Node>)
    reads out`pri
  {
    forall i, j :: 0 <= i < j < |out| ==> out[j].pri <= out[i].pri
  }

  lemma FallingNone()
    ensures Falling([])
  {
  }

  lemma FallingAppend(out: seq<Node>, n: Node)
    requires Falling(out) && forall i :: 0 <= i < |out| ==> n.pri <= out[i].pri
    ensures Falling(out + [n])
  {
  }

  /** Popping until the queue is empty yields every element once, by falling priority. */
  method Drain(q: Queue) returns (out: seq<Node>)
    requires q.Valid()
    modifies q, q.d, q.members`pos
    ensures q.Valid() && q.members == {}
    ensures Falling(out) && |out| == |old(q.members)|
    ensures forall x <- old(q.members) :: x in out
    ensures forall i :: 0 <= i < |out| ==> out[i] in old(q.members)
  {
    hide Queue.Valid, Falling;
    out := [];
    FallingNone();
    ghost var all := q.members;
    var head := q.Pop();
    while head != null
      invariant q.Valid() && q.d == old(q.d) && q.members <= all && (head == null ==> q.members == {})
      invariant head != null ==> head in all && head !in q.members && forall x <- q.members :: x.pri <= head.pri
      invariant forall i :: 0 <= i < |out| ==> out[i] in all && out[i] !in q.members && out[i] != head
      invariant forall i :: 0 <= i < |out| ==> head != null ==> head.pri <= out[i].pri
      invariant forall x <- all :: x in q.members || x == head || x in out
      invariant |all| == |q.members| + |out| + (if head == null then 0 else 1)
      invariant Falling(out)
      decreases |q.members|, head != null
    {
      FallingAppend(out, head);
      out := out + [head];
      ghost var rest := q.members;
      head := q.Pop();
      assert |rest| == |q.members| + if head == null then 0 else 1;
    }
  }
}
