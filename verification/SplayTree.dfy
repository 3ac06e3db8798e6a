/**
 The size-augmented top-down splay tree of splay.c, with its nodes on the heap.

 A `Tree` is the ghost picture of a linked structure: it names the nodes themselves, so
 a function over trees can read the (constant) keys without reading the heap, while
 `Linked` and `Counted` say that the pointers and the counts stored in the nodes agree with it.
 */
module SplayTree {
  import opened Seqs

  class Node {
    const key: int
    var left: Node?
    var right: Node?
    var value: int

    constructor (k: int)
      ensures key == k && left == null && right == null && value == 1
    {
      key := k;
      left, right, value := null, null, 1;
    }
  }

  datatype Tree = Leaf | Fork(left: Tree, node: Node, right: Tree)

  function Nodes(t: Tree): set<Node> {
    if t.Leaf? then {} else Nodes(t.left) + {t.node} + Nodes(t.right)
  }

  function InOrder(t: Tree): seq<Node> {
    if t.Leaf? then [] else InOrder(t.left) + [t.node] + InOrder(t.right)
  }

  function Size(t: Tree): nat {
    if t.Leaf? then 0 else Size(t.left) + 1 + Size(t.right)
  }

  /** Search order: the keys strictly increase from left to right. */
  ghost predicate Ascending(s: seq<Node>) {
    forall i, j :: 0 <= i < j < |s| ==> s[i].key < s[j].key
  }

  /** The pointers starting at `p` spell out exactly the tree `t`. */
  ghost predicate Linked(t: Tree, p: Node?)
    reads Nodes(t)
  {
    match t
    case Leaf => p == null
    case Fork(l, n, r) => p == n && Linked(l, n.left) && Linked(r, n.right)
  }

  /** Every node stores the number of nodes below and including it (`check_sTree`). */
  ghost predicate Counted(t: Tree)
    reads Nodes(t)
  {
    match t
    case Leaf => true
    case Fork(l, n, r) => n.value == Size(t) && Counted(l) && Counted(r)
  }

  /** No node occurs twice. */
  ghost predicate Apart(t: Tree) {
    match t
    case Leaf => true
    case Fork(l, n, r) =>
      Nodes(l) !! {n} !! Nodes(r) && Apart(l) && Apart(r)
  }

  ghost predicate Valid(t: Tree, p: Node?)
    reads Nodes(t)
  {
    Linked(t, p) && Counted(t) && Ascending(InOrder(t))
  }

  function KeysOf(s: seq<Node>): set<int> {
    set i | 0 <= i < |s| :: s[i].key
  }

  function KeySet(t: Tree): set<int> {
    KeysOf(InOrder(t))
  }

  ghost predicate Below(s: seq<Node>, k: int) {
    forall i :: 0 <= i < |s| ==> s[i].key < k
  }

  ghost predicate Above(s: seq<Node>, k: int) {
    forall i :: 0 <= i < |s| ==> k < s[i].key
  }

  // ---------- what the order of the in-order sequence says about a tree ----------

  lemma {:induction false} InOrderNodes(t: Tree)
    ensures Elems(InOrder(t)) == Nodes(t)
    ensures |InOrder(t)| == Size(t)
  {
    if t.Fork? {
      InOrderNodes(t.left);
      InOrderNodes(t.right);
      ElemsJoin(InOrder(t.left), t.node, InOrder(t.right));
    }
  }

  lemma ElemsJoin(a: seq<Node>, n: Node, b: seq<Node>)
    ensures Elems(a + [n] + b) == Elems(a) + {n} + Elems(b)
  {
    var s := a + [n] + b;
    assert forall i :: 0 <= i < |a| ==> a[i] == s[i];
    assert forall i :: 0 <= i < |b| ==> b[i] == s[|a| + 1 + i];
    assert s[|a|] == n;
  }

  /** In ascending order each node separates what stands before it from what follows. */
  lemma AscendingParts(a: seq<Node>, n: Node, b: seq<Node>)
    ensures Ascending(a + [n] + b) <==> Ascending(a) && Ascending(b) && Below(a, n.key) && Above(b, n.key)
  {
    var s := a + [n] + b;
    assert forall i :: 0 <= i < |a| ==> a[i] == s[i];
    assert forall i :: 0 <= i < |b| ==> b[i] == s[|a| + 1 + i];
    assert s[|a|] == n;
    if Ascending(a) && Ascending(b) && Below(a, n.key) && Above(b, n.key) {
      forall i, j | 0 <= i < j < |s| ensures s[i].key < s[j].key {
        assert i < |a| ==> s[i] == a[i];
        assert j > |a| ==> s[j] == b[j - |a| - 1];
      }
    }
  }

  lemma {:induction false} AscendingApart(t: Tree)
    requires Ascending(InOrder(t))
    ensures Apart(t)
  {
    if t.Fork? {
      AscendingParts(InOrder(t.left), t.node, InOrder(t.right));
      AscendingApart(t.left);
      AscendingApart(t.right);
      InOrderNodes(t.left);
      InOrderNodes(t.right);
    }
  }

  // ---------- the splay step as a function on trees ----------

  /** One node hung on a side tree during the descent, with the subtree it brought along. */
  datatype Hook = Hook(sub: Tree, node: Node)

  /** Side trees of the descent, outermost hook first, around the remaining subtree. */
  datatype Cut = Cut(ls: seq<Hook>, mid: Tree, rs: seq<Hook>)

  function RotateRight(t: Tree): Tree
    requires t.Fork? && t.left.Fork?
  {
    Fork(t.left.left, t.left.node, Fork(t.left.right, t.node, t.right))
  }

  function RotateLeft(t: Tree): Tree
    requires t.Fork? && t.right.Fork?
  {
    Fork(Fork(t.left, t.node, t.right.left), t.right.node, t.right.right)
  }

  lemma RotationSize(t: Tree)
    requires t.Fork?
    ensures t.left.Fork? ==> Size(RotateRight(t)) == Size(t)
    ensures t.right.Fork? ==> Size(RotateLeft(t)) == Size(t)
  {
  }

  /** The subtree a round works on: with a step in the same direction ahead, it is rotated first. */
  function Aimed(k: int, t: Tree): Tree
    requires t.Fork?
  {
    if k < t.node.key && t.left.Fork? && k < t.left.node.key then RotateRight(t)
    else if k > t.node.key && t.right.Fork? && k > t.right.node.key then RotateLeft(t)
    else t
  }

  /** One round of the descent loop: rotate, then hang the top on a side tree, unless it is time to stop. */
  function OneRound(k: int, c: Cut): (d: Cut)
    requires c.mid.Fork?
  {
    var u := Aimed(k, c.mid);
    if k < c.mid.node.key && u.left.Fork? then Cut(c.ls, u.left, c.rs + [Hook(u.right, u.node)])
    else if k > c.mid.node.key && u.right.Fork? then Cut(c.ls + [Hook(u.left, u.node)], u.right, c.rs)
    else c.(mid := u)
  }

  predicate LastRound(k: int, c: Cut)
    requires c.mid.Fork?
  {
    var u := Aimed(k, c.mid);
    !(k < c.mid.node.key && u.left.Fork?) && !(k > c.mid.node.key && u.right.Fork?)
  }

  /** The descent loop: cut the tree along the search path of `k`. */
  function Descend(k: int, c: Cut): (d: Cut)
    requires c.mid.Fork?
    ensures d.mid.Fork?
    decreases Size(c.mid)
  {
    RotationSize(c.mid);
    if LastRound(k, c) then OneRound(k, c) else Descend(k, OneRound(k, c))
  }

  /** How many rounds the descent loop takes from the cut `c` on. */
  function Rounds(k: int, c: Cut): nat
    requires c.mid.Fork?
    decreases Size(c.mid)
  {
    RotationSize(c.mid);
    if LastRound(k, c) then 1 else 1 + Rounds(k, OneRound(k, c))
  }

  /** The left side tree: each hook keeps its left subtree, the next hook hangs to its right. */
  function HangLeft(ls: seq<Hook>, inner: Tree): Tree
    decreases |ls|
  {
    if ls == [] then inner
    else var h := ls[|ls| - 1]; HangLeft(ls[..|ls| - 1], Fork(h.sub, h.node, inner))
  }

  function HangRight(rs: seq<Hook>, inner: Tree): Tree
    decreases |rs|
  {
    if rs == [] then inner
    else var h := rs[|rs| - 1]; HangRight(rs[..|rs| - 1], Fork(inner, h.node, h.sub))
  }

  function Reassemble(c: Cut): Tree
    requires c.mid.Fork?
  {
    Fork(HangLeft(c.ls, c.mid.left), c.mid.node, HangRight(c.rs, c.mid.right))
  }

  /** Top-down splaying. */
  function TopDown(k: int, t: Tree): Tree {
    if t.Leaf? then Leaf else Reassemble(Descend(k, Cut([], t, [])))
  }

  /** A key two levels down on the same side: its path is turned over, not only cut. */
  lemma ZigZigRight(a: Tree, x: Node, b: Tree, y: Node, c: Tree, z: Node, d: Tree)
    requires x.key < y.key < z.key
    ensures TopDown(x.key, Fork(Fork(Fork(a, x, b), y, c), z, d)) == Fork(a, x, Fork(b, y, Fork(c, z, d)))
  {
    var t, h := Fork(Fork(Fork(a, x, b), y, c), z, d), Hook(Fork(c, z, d), y);
    Stops(x.key, Cut([], t, []), Cut([], Fork(a, x, b), [h]));
    OneHook(h, b);
  }

  lemma ZigZigLeft(a: Tree, x: Node, b: Tree, y: Node, c: Tree, z: Node, d: Tree)
    requires x.key < y.key < z.key
    ensures TopDown(z.key, Fork(a, x, Fork(b, y, Fork(c, z, d)))) == Fork(Fork(Fork(a, x, b), y, c), z, d)
  {
    var t, h := Fork(a, x, Fork(b, y, Fork(c, z, d))), Hook(Fork(a, x, b), y);
    Stops(z.key, Cut([], t, []), Cut([h], Fork(c, z, d), []));
    OneHook(h, c);
  }

  /** A key two levels down on the inside: its two ancestors come to stand on either side. */
  lemma ZigZag(a: Tree, x: Node, b: Tree, y: Node, c: Tree, z: Node, d: Tree)
    requires x.key < y.key < z.key
    ensures TopDown(y.key, Fork(Fork(a, x, Fork(b, y, c)), z, d)) == Fork(Fork(a, x, b), y, Fork(c, z, d))
    ensures TopDown(y.key, Fork(a, x, Fork(Fork(b, y, c), z, d))) == Fork(Fork(a, x, b), y, Fork(c, z, d))
  {
    var t, u := Fork(Fork(a, x, Fork(b, y, c)), z, d), Fork(a, x, Fork(Fork(b, y, c), z, d));
    var l, r, m := Hook(a, x), Hook(d, z), Fork(b, y, c);
    GoesOn(y.key, Cut([], t, []), Cut([], t.left, [r]));
    Stops(y.key, Cut([], t.left, [r]), Cut([l], m, [r]));
    GoesOn(y.key, Cut([], u, []), Cut([l], u.right, []));
    Stops(y.key, Cut([l], u.right, []), Cut([l], m, [r]));
    OneHook(l, b);
    OneHook(r, c);
  }

  lemma OneHook(h: Hook, inner: Tree)
    ensures HangLeft([h], inner) == Fork(h.sub, h.node, inner) && HangRight([h], inner) == Fork(inner, h.node, h.sub)
  {
    assert [h][..0] == [];
  }

  lemma GoesOn(k: int, c: Cut, d: Cut)
    requires c.mid.Fork? && !LastRound(k, c) && OneRound(k, c) == d
    ensures d.mid.Fork? && Descend(k, c) == Descend(k, d)
  {
    RotationSize(c.mid);
  }

  /** A round that arrives at the key is the last but one. */
  lemma Stops(k: int, c: Cut, d: Cut)
    requires c.mid.Fork? && !LastRound(k, c) && OneRound(k, c) == d && d.mid.Fork? && d.mid.node.key == k
    ensures Descend(k, c) == d
  {
    RotationSize(c.mid);
  }

  // ---------- the two forms of the loop ----------

  /**
   A round as `splay` writes it, with the tests for a missing child before and after the rotation:
   whether the loop is left, and the cut. `OneRound` is the form of `sedgewickized_splay`, which
   rotates first and tests once.
   */
  function EarlyRound(k: int, c: Cut): (bool, Cut)
    requires c.mid.Fork?
  {
    var t := c.mid;
    if k < t.node.key then
      if t.left.Leaf? then (true, c)
      else if k < t.left.node.key then
        var u := RotateRight(t);
        if u.left.Leaf? then (true, c.(mid := u)) else (false, Cut(c.ls, u.left, c.rs + [Hook(u.right, u.node)]))
      else (false, Cut(c.ls, t.left, c.rs + [Hook(t.right, t.node)]))
    else if k > t.node.key then
      if t.right.Leaf? then (true, c)
      else if k > t.right.node.key then
        var u := RotateLeft(t);
        if u.right.Leaf? then (true, c.(mid := u)) else (false, Cut(c.ls + [Hook(u.left, u.node)], u.right, c.rs))
      else (false, Cut(c.ls + [Hook(t.left, t.node)], t.right, c.rs))
    else (true, c)
  }

  lemma EarlyRoundSame(k: int, c: Cut)
    requires c.mid.Fork?
    ensures EarlyRound(k, c) == (LastRound(k, c), OneRound(k, c))
    ensures !LastRound(k, c) ==> OneRound(k, c).mid.Fork? && Size(OneRound(k, c).mid) < Size(c.mid)
  {
    RotationSize(c.mid);
  }

  function EarlyDescend(k: int, c: Cut): (d: Cut)
    requires c.mid.Fork?
    decreases Size(c.mid)
  {
    EarlyRoundSame(k, c);
    var r := EarlyRound(k, c);
    if r.0 then r.1 else EarlyDescend(k, r.1)
  }

  /** `splay` and `sedgewickized_splay` take every tree apart in the same way, and so build the same tree. */
  lemma {:induction false} SameShape(k: int, c: Cut)
    requires c.mid.Fork?
    ensures EarlyDescend(k, c) == Descend(k, c)
    decreases Size(c.mid)
  {
    EarlyRoundSame(k, c);
    if !LastRound(k, c) {
      SameShape(k, OneRound(k, c));
    }
  }

  // ---------- splaying keeps the in-order sequence and brings the key to the root ----------

  ghost function FlatLeft(ls: seq<Hook>): seq<Node>
    decreases |ls|
  {
    if ls == [] then []
    else FlatLeft(ls[..|ls| - 1]) + (InOrder(ls[|ls| - 1].sub) + [ls[|ls| - 1].node])
  }

  ghost function FlatRight(rs: seq<Hook>): seq<Node>
    decreases |rs|
  {
    if rs == [] then []
    else ([rs[|rs| - 1].node] + InOrder(rs[|rs| - 1].sub)) + FlatRight(rs[..|rs| - 1])
  }

  ghost function Flat(c: Cut): seq<Node> {
    FlatLeft(c.ls) + InOrder(c.mid) + FlatRight(c.rs)
  }

  lemma FlatLeftAppend(ls: seq<Hook>, h: Hook)
    ensures FlatLeft(ls + [h]) == FlatLeft(ls) + (InOrder(h.sub) + [h.node])
  {
    assert (ls + [h])[..|ls|] == ls;
  }

  lemma FlatRightAppend(rs: seq<Hook>, h: Hook)
    ensures FlatRight(rs + [h]) == ([h.node] + InOrder(h.sub)) + FlatRight(rs)
  {
    assert (rs + [h])[..|rs|] == rs;
  }

  lemma {:induction false} HangLeftInOrder(ls: seq<Hook>, inner: Tree)
    ensures InOrder(HangLeft(ls, inner)) == FlatLeft(ls) + InOrder(inner)
    decreases |ls|
  {
    if ls != [] {
      var h := ls[|ls| - 1];
      HangLeftInOrder(ls[..|ls| - 1], Fork(h.sub, h.node, inner));
    }
  }

  lemma {:induction false} HangRightInOrder(rs: seq<Hook>, inner: Tree)
    ensures InOrder(HangRight(rs, inner)) == InOrder(inner) + FlatRight(rs)
    decreases |rs|
  {
    if rs != [] {
      var h := rs[|rs| - 1];
      HangRightInOrder(rs[..|rs| - 1], Fork(inner, h.node, h.sub));
    }
  }

  lemma InOrderFork(t: Tree)
    requires t.Fork?
    ensures InOrder(t) == InOrder(t.left) + [t.node] + InOrder(t.right)
  {
  }

  lemma Nested<T>(l: seq<T>, a: seq<T>, n: T, b: seq<T>, r: seq<T>)
    ensures (l + a) + [n] + (b + r) == l + (a + [n] + b) + r
  {
  }

  lemma ReassembleInOrder(c: Cut)
    requires c.mid.Fork?
    ensures InOrder(Reassemble(c)) == Flat(c)
  {
    hide InOrder, HangLeft, HangRight, FlatLeft, FlatRight;
    InOrderFork(c.mid);
    InOrderFork(Reassemble(c));
    Nested(FlatLeft(c.ls), InOrder(c.mid.left), c.mid.node, InOrder(c.mid.right), FlatRight(c.rs));
    HangLeftInOrder(c.ls, c.mid.left);
    HangRightInOrder(c.rs, c.mid.right);
  }

  lemma {:induction false} RotationInOrder(t: Tree)
    requires t.Fork?
    ensures t.left.Fork? ==> InOrder(RotateRight(t)) == InOrder(t)
    ensures t.right.Fork? ==> InOrder(RotateLeft(t)) == InOrder(t)
  {
    if t.left.Fork? {
      var a, b, c := InOrder(t.left.left), InOrder(t.left.right), InOrder(t.right);
      assert InOrder(RotateRight(t)) == a + [t.left.node] + (b + [t.node] + c);
      assert InOrder(t) == (a + [t.left.node] + b) + [t.node] + c;
    }
    if t.right.Fork? {
      var a, b, c := InOrder(t.left), InOrder(t.right.left), InOrder(t.right.right);
      assert InOrder(RotateLeft(t)) == (a + [t.node] + b) + [t.right.node] + c;
      assert InOrder(t) == a + [t.node] + (b + [t.right.node] + c);
    }
  }

  /** Where the descent stops: at `k`, or with nothing left on the side of `k`. */
  ghost predicate Stopped(k: int, t: Tree) {
    t.Fork? && (k < t.node.key ==> t.left.Leaf?) && (t.node.key < k ==> t.right.Leaf?)
  }

  /** What the descent maintains: order, and the side trees on the right sides of `k`. */
  ghost predicate Parted(k: int, c: Cut) {
    c.mid.Fork? && Ascending(InOrder(c.mid)) && Below(FlatLeft(c.ls), k) && Above(FlatRight(c.rs), k)
  }

  lemma Regroup<T>(l: seq<T>, a: seq<T>, n: T, b: seq<T>, r: seq<T>)
    ensures l + (a + [n] + b) + r == l + a + (([n] + b) + r) == (l + (a + [n])) + b + r
  {
  }

  lemma BelowConcat(a: seq<Node>, b: seq<Node>, k: int)
    ensures Below(a + b, k) <==> Below(a, k) && Below(b, k)
    ensures Above(a + b, k) <==> Above(a, k) && Above(b, k)
  {
    var s := a + b;
    assert forall i :: 0 <= i < |a| ==> s[i] == a[i];
    assert forall i :: 0 <= i < |b| ==> s[|a| + i] == b[i];
  }

  lemma BesideRight(k: int, n: Node, b: seq<Node>, r: seq<Node>)
    ensures k < n.key && Above(b, n.key) && Above(r, k) ==> Above(([n] + b) + r, k)
  {
    BelowConcat([n] + b, r, k);
    BelowConcat([n], b, k);
  }

  lemma BesideLeft(k: int, n: Node, a: seq<Node>, l: seq<Node>)
    ensures n.key < k && Below(a, n.key) && Below(l, k) ==> Below(l + (a + [n]), k)
  {
    BelowConcat(l, a + [n], k);
    BelowConcat(a, [n], k);
  }

  lemma HookRight(k: int, c: Cut, u: Tree, d: Cut)
    requires Parted(k, c) && u.Fork? && u.left.Fork? && InOrder(u) == InOrder(c.mid) && k < u.node.key
    requires d == Cut(c.ls, u.left, c.rs + [Hook(u.right, u.node)])
    ensures Flat(d) == Flat(c) && Parted(k, d)
  {
    hide InOrder, FlatLeft, FlatRight, Ascending, Below, Above;
    InOrderFork(u);
    FlatRightAppend(c.rs, Hook(u.right, u.node));
    BesideRight(k, u.node, InOrder(u.right), FlatRight(c.rs));
    AscendingParts(InOrder(u.left), u.node, InOrder(u.right));
    Regroup(FlatLeft(c.ls), InOrder(u.left), u.node, InOrder(u.right), FlatRight(c.rs));
  }

  lemma HookLeft(k: int, c: Cut, u: Tree, d: Cut)
    requires Parted(k, c) && u.Fork? && u.right.Fork? && InOrder(u) == InOrder(c.mid) && u.node.key < k
    requires d == Cut(c.ls + [Hook(u.left, u.node)], u.right, c.rs)
    ensures Flat(d) == Flat(c) && Parted(k, d)
  {
    hide InOrder, FlatLeft, FlatRight, Ascending, Below, Above;
    InOrderFork(u);
    FlatLeftAppend(c.ls, Hook(u.left, u.node));
    BesideLeft(k, u.node, InOrder(u.left), FlatLeft(c.ls));
    AscendingParts(InOrder(u.left), u.node, InOrder(u.right));
    Regroup(FlatLeft(c.ls), InOrder(u.left), u.node, InOrder(u.right), FlatRight(c.rs));
  }

  lemma {:induction false} RoundKeeps(k: int, c: Cut)
    requires Parted(k, c)
    ensures var d := OneRound(k, c);
            Flat(d) == Flat(c) && Parted(k, d) && (LastRound(k, c) ==> Stopped(k, d.mid))
  {
    var t, u, d := c.mid, Aimed(k, c.mid), OneRound(k, c);
    RotationInOrder(t);
    AscendingParts(InOrder(t.left), t.node, InOrder(t.right));
    if k < t.node.key && u.left.Fork? {
      HookRight(k, c, u, d);
    } else if t.node.key < k && u.right.Fork? {
      HookLeft(k, c, u, d);
    }
  }

  lemma {:induction false} DescendKeeps(k: int, c: Cut)
    requires Parted(k, c)
    ensures var d := Descend(k, c);
            Flat(d) == Flat(c) && Parted(k, d) && Stopped(k, d.mid)
    decreases Size(c.mid)
  {
    RoundKeeps(k, c);
    RotationSize(c.mid);
    if !LastRound(k, c) {
      DescendKeeps(k, OneRound(k, c));
    }
  }

  /** After splaying for `k` the root parts the tree at `k`. */
  ghost predicate PartedAt(k: int, s: Tree) {
    s.Fork? && Below(InOrder(s.left), k) && Above(InOrder(s.right), k)
  }

  /**
   Splaying keeps every node in its place in the order, and afterwards the root parts the
   tree at `k`: everything to its left is below `k` and everything to its right above it,
   so the root holds `k` exactly when the tree does.
   */
  lemma {:induction false} TopDownSplays(k: int, t: Tree)
    requires Ascending(InOrder(t))
    ensures InOrder(TopDown(k, t)) == InOrder(t)
    ensures t.Fork? ==>
              var s := TopDown(k, t);
              PartedAt(k, s) && (k in KeySet(t) <==> s.node.key == k)
  {
    if t.Fork? {
      var c := Cut([], t, []);
      assert Flat(c) == InOrder(t);
      DescendKeeps(k, c);
      var d := Descend(k, c);
      ReassembleInOrder(d);
      PartedRoot(k, d);
    }
  }

  /** Where the descent stops, the root parts what is left of the tree. */
  lemma StoppedParts(k: int, t: Tree)
    requires Ascending(InOrder(t)) && Stopped(k, t)
    ensures Below(InOrder(t.left), k) && Above(InOrder(t.right), k)
  {
    AscendingParts(InOrder(t.left), t.node, InOrder(t.right));
  }

  lemma RootKey(a: seq<Node>, n: Node, b: seq<Node>, k: int)
    requires Below(a, k) && Above(b, k)
    ensures k in KeysOf(a + [n] + b) <==> n.key == k
  {
    KeysJoin(a, n, b);
  }

  lemma PartedRoot(k: int, d: Cut)
    requires Parted(k, d) && Stopped(k, d.mid)
    ensures var s := Reassemble(d);
            PartedAt(k, s) && (k in KeySet(s) <==> s.node.key == k)
  {
    hide InOrder, FlatLeft, FlatRight, HangLeft, HangRight, Below, Above, Ascending, KeysOf;
    var s := Reassemble(d);
    HangLeftInOrder(d.ls, d.mid.left);
    HangRightInOrder(d.rs, d.mid.right);
    StoppedParts(k, d.mid);
    BelowConcat(FlatLeft(d.ls), InOrder(d.mid.left), k);
    BelowConcat(InOrder(d.mid.right), FlatRight(d.rs), k);
    InOrderFork(s);
    RootKey(InOrder(s.left), s.node, InOrder(s.right), k);
  }

  // ---------- the pointer-level descent ----------

  ghost function Spine(hs: seq<Hook>): (s: set<Node>)
    ensures forall i :: 0 <= i < |hs| ==> hs[i].node in s
    decreases |hs|
  {
    if hs == [] then {} else Spine(hs[..|hs| - 1]) + {hs[|hs| - 1].node}
  }

  ghost function Carried(hs: seq<Hook>): (s: set<Node>)
    ensures forall i :: 0 <= i < |hs| ==> Nodes(hs[i].sub) <= s
    decreases |hs|
  {
    if hs == [] then {} else Carried(hs[..|hs| - 1]) + Nodes(hs[|hs| - 1].sub)
  }

  ghost predicate SpineDistinct(hs: seq<Hook>) {
    forall i, j :: 0 <= i < j < |hs| ==> hs[i].node != hs[j].node
  }

  /** The five parts of a cut share no node. */
  ghost predicate Scattered(c: Cut) {
    && SpineDistinct(c.ls) && SpineDistinct(c.rs)
    && Apart(c.mid)
    && Spine(c.ls) !! Carried(c.ls) !! Nodes(c.mid) !! Spine(c.rs) !! Carried(c.rs)
  }

  ghost function Footprint(c: Cut): set<Node> {
    Spine(c.ls) + Carried(c.ls) + Nodes(c.mid) + Spine(c.rs) + Carried(c.rs)
  }

  lemma SpineAppend(hs: seq<Hook>, h: Hook)
    ensures Spine(hs + [h]) == Spine(hs) + {h.node}
    ensures Carried(hs + [h]) == Carried(hs) + Nodes(h.sub)
  {
    assert (hs + [h])[..|hs|] == hs;
  }

  lemma NodesFork(t: Tree)
    requires t.Fork?
    ensures Nodes(t) == Nodes(t.left) + {t.node} + Nodes(t.right)
  {
  }

  lemma ScatterRight(c: Cut, u: Tree)
    requires Scattered(c) && u.Fork? && Apart(u) && Nodes(u) == Nodes(c.mid)
    ensures Scattered(Cut(c.ls, u.left, c.rs + [Hook(u.right, u.node)]))
    ensures Footprint(Cut(c.ls, u.left, c.rs + [Hook(u.right, u.node)])) == Footprint(c)
  {
    hide Spine, Carried, Nodes;
    NodesFork(u);
    SpineAppend(c.rs, Hook(u.right, u.node));
    assert forall i :: 0 <= i < |c.rs| ==> c.rs[i].node in Spine(c.rs);
  }

  lemma ScatterLeft(c: Cut, u: Tree)
    requires Scattered(c) && u.Fork? && Apart(u) && Nodes(u) == Nodes(c.mid)
    ensures Scattered(Cut(c.ls + [Hook(u.left, u.node)], u.right, c.rs))
    ensures Footprint(Cut(c.ls + [Hook(u.left, u.node)], u.right, c.rs)) == Footprint(c)
  {
    hide Spine, Carried, Nodes;
    NodesFork(u);
    SpineAppend(c.ls, Hook(u.left, u.node));
    assert forall i :: 0 <= i < |c.ls| ==> c.ls[i].node in Spine(c.ls);
  }

  /** The subtrees carried by the hooks are intact: linked from their hook and counted. */
  ghost predicate CarriedLeft(ls: seq<Hook>)
    reads Spine(ls)`left, Carried(ls)
  {
    forall i :: 0 <= i < |ls| ==> Linked(ls[i].sub, ls[i].node.left) && Counted(ls[i].sub)
  }

  ghost predicate CarriedRight(rs: seq<Hook>)
    reads Spine(rs)`right, Carried(rs)
  {
    forall i :: 0 <= i < |rs| ==> Linked(rs[i].sub, rs[i].node.right) && Counted(rs[i].sub)
  }

  /** `top` starts the chain of right pointers through the hooks and `last` ends it. */
  ghost predicate ChainLeft(ls: seq<Hook>, top: Node, last: Node)
    reads Spine(ls)`right, top`right
  {
    && last == (if ls == [] then top else ls[|ls| - 1].node)
    && (ls != [] ==> top.right == ls[0].node)
    && (forall i :: 0 <= i < |ls| - 1 ==> ls[i].node.right == ls[i + 1].node)
  }

  ghost predicate ChainRight(rs: seq<Hook>, top: Node, last: Node)
    reads Spine(rs)`left, top`left
  {
    && last == (if rs == [] then top else rs[|rs| - 1].node)
    && (rs != [] ==> top.left == rs[0].node)
    && (forall i :: 0 <= i < |rs| - 1 ==> rs[i].node.left == rs[i + 1].node)
  }

  ghost function Weight(hs: seq<Hook>): nat
    decreases |hs|
  {
    if hs == [] then 0 else Weight(hs[..|hs| - 1]) + 1 + Size(hs[|hs| - 1].sub)
  }

  lemma WeightAppend(hs: seq<Hook>, h: Hook)
    ensures Weight(hs + [h]) == Weight(hs) + 1 + Size(h.sub)
  {
    assert (hs + [h])[..|hs|] == hs;
  }

  /** A tree whose root count may be out of date, everything below it being exact. */
  ghost predicate CountedBelow(t: Tree)
    reads Nodes(t)
  {
    t.Fork? && Counted(t.left) && Counted(t.right)
  }

  /** `node_value`: the count of a subtree, 0 for the empty one. */
  function NodeValue(p: Node?): int
    reads p
  {
    if p == null then 0 else p.value
  }

  lemma SubtreeValue(t: Tree, p: Node?)
    requires Linked(t, p) && Counted(t)
    ensures NodeValue(p) == Size(t) && (p == null <==> t.Leaf?)
  {
  }

  /** The pointers of the descent loop spell out the cut `c`. */
  ghost predicate Wired(c: Cut, top: Node, l: Node, t: Node?, r: Node)
    reads Footprint(c), top
  {
    && Linked(c.mid, t) && CountedBelow(c.mid)
    && ChainLeft(c.ls, top, l) && ChainRight(c.rs, top, r)
    && CarriedLeft(c.ls) && CarriedRight(c.rs)
  }

  /** `fp` holds the nodes of the cut, each in one place only, and not the dummy node `top`. */
  ghost predicate Covers(fp: set<Node>, c: Cut, top: Node) {
    fp == Footprint(c) && top !in fp && Scattered(c)
  }

  lemma ChainLeftAppend(ls: seq<Hook>, h: Hook, top: Node, last: Node)
    requires ChainLeft(ls, top, last) && last.right == h.node
    ensures ChainLeft(ls + [h], top, h.node)
  {
  }

  lemma ChainRightAppend(rs: seq<Hook>, h: Hook, top: Node, last: Node)
    requires ChainRight(rs, top, last) && last.left == h.node
    ensures ChainRight(rs + [h], top, h.node)
  {
  }

  lemma CarriedLeftAppend(ls: seq<Hook>, h: Hook)
    requires CarriedLeft(ls) && Linked(h.sub, h.node.left) && Counted(h.sub)
    ensures CarriedLeft(ls + [h])
  {
  }

  lemma CarriedRightAppend(rs: seq<Hook>, h: Hook)
    requires CarriedRight(rs) && Linked(h.sub, h.node.right) && Counted(h.sub)
    ensures CarriedRight(rs + [h])
  {
  }

  lemma LastInSpine(hs: seq<Hook>, top: Node, last: Node)
    requires last == if hs == [] then top else hs[|hs| - 1].node
    ensures last in Spine(hs) + {top}
  {
  }

  /** The free pointer at the end of the left spine is no part of the picture. */
  method PointLeft(ghost c: Cut, ghost top: Node, l: Node, ghost t: Node, ghost r: Node, x: Node?, ghost fp: set<Node>)
    requires Covers(fp, c, top) && Wired(c, top, l, t, r)
    modifies l`right
    ensures Wired(c, top, l, t, r) && l.right == x
  {
    hide Linked, CountedBelow, CarriedLeft, CarriedRight, ChainRight, Nodes, Carried, Spine;
    LastInSpine(c.ls, top, l);
    l.right := x;
  }

  /** The free pointer at the end of the right spine is no part of the picture. */
  method PointRight(ghost c: Cut, ghost top: Node, ghost l: Node, ghost t: Node, r: Node, x: Node?, ghost fp: set<Node>)
    requires Covers(fp, c, top) && Wired(c, top, l, t, r)
    modifies r`left
    ensures Wired(c, top, l, t, r) && r.left == x
  {
    hide Linked, CountedBelow, CarriedLeft, CarriedRight, ChainLeft, Nodes, Carried, Spine;
    LastInSpine(c.rs, top, r);
    r.left := x;
  }

  lemma LinkedRoot(t: Tree, p: Node?)
    requires Linked(t, p)
    ensures t.Fork? ==> p == t.node && Linked(t.left, t.node.left) && Linked(t.right, t.node.right)
  {
  }

  /** The link step to the right: the current root ends the right spine, and the descent goes on to its left. */
  method LinkRight(ghost c: Cut, top: Node, ghost l: Node, t: Node, r: Node, ghost fp: set<Node>) returns (t': Node)
    requires Covers(fp, c, top) && Wired(c, top, l, t, r) && c.mid.left.Fork?
    modifies r`left
    ensures Wired(Cut(c.ls, c.mid.left, c.rs + [Hook(c.mid.right, c.mid.node)]), top, l, t', t)
  {
    hide Covers, ChainLeft, ChainRight, CarriedLeft, CarriedRight, Linked;
    PointRight(c, top, l, t, r, t, fp);
    LinkedRoot(c.mid, t);
    LinkedRoot(c.mid.left, t.left);
    t' := t.left;
    ghost var h := Hook(c.mid.right, c.mid.node);
    CountedRoot(c.mid.left);
    ChainRightAppend(c.rs, h, top, r);
    CarriedRightAppend(c.rs, h);
  }

  lemma CountedRoot(t: Tree)
    requires Counted(t)
    ensures t.Fork? ==> Counted(t.left) && Counted(t.right)
  {
  }

  /** The link step to the left: the current root ends the left spine, and the descent goes on to its right. */
  method LinkLeft(ghost c: Cut, top: Node, l: Node, t: Node, ghost r: Node, ghost fp: set<Node>) returns (t': Node)
    requires Covers(fp, c, top) && Wired(c, top, l, t, r) && c.mid.right.Fork?
    modifies l`right
    ensures Wired(Cut(c.ls + [Hook(c.mid.left, c.mid.node)], c.mid.right, c.rs), top, t, t', r)
  {
    hide Covers, ChainLeft, ChainRight, CarriedLeft, CarriedRight, Linked;
    PointLeft(c, top, l, t, r, t, fp);
    LinkedRoot(c.mid, t);
    LinkedRoot(c.mid.right, t.right);
    t' := t.right;
    ghost var h := Hook(c.mid.left, c.mid.node);
    CountedRoot(c.mid.right);
    ChainLeftAppend(c.ls, h, top, l);
    CarriedLeftAppend(c.ls, h);
  }

  method RotateRightAt(t: Node, ghost g: Tree) returns (y: Node)
    requires g.Fork? && g.left.Fork? && Apart(g) && Linked(g, t) && CountedBelow(g)
    modifies g.node, g.left.node
    ensures Linked(RotateRight(g), y) && CountedBelow(RotateRight(g))
  {
    y := t.left;
    SubtreeValue(g.left.right, y.right);
    SubtreeValue(g.right, t.right);
    t.left := y.right;
    y.right := t;
    t.value := NodeValue(t.left) + NodeValue(t.right) + 1;
  }

  method RotateLeftAt(t: Node, ghost g: Tree) returns (y: Node)
    requires g.Fork? && g.right.Fork? && Apart(g) && Linked(g, t) && CountedBelow(g)
    modifies g.node, g.right.node
    ensures Linked(RotateLeft(g), y) && CountedBelow(RotateLeft(g))
  {
    y := t.right;
    SubtreeValue(g.left, t.left);
    SubtreeValue(g.right.left, y.left);
    t.right := y.left;
    y.left := t;
    t.value := NodeValue(t.left) + NodeValue(t.right) + 1;
  }

  /** The rotation of a round, when `k` lies to the left; it leaves the side trees alone. */
  lemma AimedRoot(t: Tree, p: Node)
    requires Linked(t, p)
    ensures t.Fork? ==> p == t.node && (p.left == null <==> t.left.Leaf?) && (p.right == null <==> t.right.Leaf?)
    ensures t.Fork? && t.left.Fork? ==> p.left == t.left.node && p.left in Nodes(t)
    ensures t.Fork? && t.right.Fork? ==> p.right == t.right.node && p.right in Nodes(t)
    ensures t.Fork? ==> p in Nodes(t)
  {
  }

  method AimLeft(k: int, ghost c: Cut, ghost top: Node, ghost l: Node, t: Node, ghost r: Node, ghost fp: set<Node>)
    returns (y: Node)
    requires Covers(fp, c, top) && Wired(c, top, l, t, r) && k < t.key
    modifies Nodes(c.mid)
    ensures Wired(c.(mid := Aimed(k, c.mid)), top, l, y, r)
  {
    hide Spine, Carried, ChainLeft, ChainRight, CarriedLeft, CarriedRight, SpineDistinct, Counted, Nodes;
    y := t;
    AimedRoot(c.mid, t);
    if t.left != null && k < t.left.key {
      y := RotateRightAt(t, c.mid);
    }
  }

  method AimRight(k: int, ghost c: Cut, ghost top: Node, ghost l: Node, t: Node, ghost r: Node, ghost fp: set<Node>)
    returns (y: Node)
    requires Covers(fp, c, top) && Wired(c, top, l, t, r) && k > t.key
    modifies Nodes(c.mid)
    ensures Wired(c.(mid := Aimed(k, c.mid)), top, l, y, r)
  {
    hide Spine, Carried, ChainLeft, ChainRight, CarriedLeft, CarriedRight, SpineDistinct, Counted, Nodes;
    y := t;
    AimedRoot(c.mid, t);
    if t.right != null && k > t.right.key {
      y := RotateLeftAt(t, c.mid);
    }
  }

  lemma RotationApart(t: Tree)
    requires t.Fork? && Apart(t)
    ensures t.left.Fork? ==> Apart(RotateRight(t)) && Nodes(RotateRight(t)) == Nodes(t)
    ensures t.right.Fork? ==> Apart(RotateLeft(t)) && Nodes(RotateLeft(t)) == Nodes(t)
  {
    if t.left.Fork? {
      assert Apart(Fork(t.left.right, t.node, t.right));
    }
    if t.right.Fork? {
      assert Apart(Fork(t.left, t.node, t.right.left));
    }
  }

  lemma AimedCovered(k: int, c: Cut, top: Node, fp: set<Node>)
    requires Covers(fp, c, top) && c.mid.Fork?
    ensures Covers(fp, c.(mid := Aimed(k, c.mid)), top)
  {
    RotationApart(c.mid);
  }

  /** The rest of a round to the left: the root joins the right spine, with the size of its right part. */
  method PassRight(ghost c: Cut, top: Node, ghost l: Node, t: Node, r: Node, rSize: int, ghost fp: set<Node>)
    returns (t': Node, rSize': int)
    requires Covers(fp, c, top) && Wired(c, top, l, t, r) && c.mid.left.Fork? && rSize == Weight(c.rs)
    modifies r`left
    ensures var d := Cut(c.ls, c.mid.left, c.rs + [Hook(c.mid.right, c.mid.node)]);
            rSize' == Weight(d.rs) && Covers(fp, d, top) && Wired(d, top, l, t', t)
  {
    hide Spine, Carried, ChainLeft, ChainRight, CarriedLeft, CarriedRight, Weight;
    WeightAppend(c.rs, Hook(c.mid.right, c.mid.node));
    ScatterRight(c, c.mid);
    SubtreeValue(c.mid.right, t.right);
    rSize' := rSize + 1 + NodeValue(t.right);
    t' := LinkRight(c, top, l, t, r, fp);
  }

  /** The rest of a round to the right. */
  method PassLeft(ghost c: Cut, top: Node, l: Node, t: Node, ghost r: Node, lSize: int, ghost fp: set<Node>)
    returns (t': Node, lSize': int)
    requires Covers(fp, c, top) && Wired(c, top, l, t, r) && c.mid.right.Fork? && lSize == Weight(c.ls)
    modifies l`right
    ensures var d := Cut(c.ls + [Hook(c.mid.left, c.mid.node)], c.mid.right, c.rs);
            lSize' == Weight(d.ls) && Covers(fp, d, top) && Wired(d, top, t, t', r)
  {
    hide Spine, Carried, ChainLeft, ChainRight, CarriedLeft, CarriedRight, Weight;
    WeightAppend(c.ls, Hook(c.mid.left, c.mid.node));
    ScatterLeft(c, c.mid);
    SubtreeValue(c.mid.left, t.left);
    lSize' := lSize + 1 + NodeValue(t.left);
    t' := LinkLeft(c, top, l, t, r, fp);
  }

  /** The round of the loop of `splay` when `k` lies to the left. */
  method GoLeft(k: int, top: Node, ghost l: Node, t: Node, r: Node, rSize: int, ghost c: Cut, ghost fp: set<Node>)
    returns (done: bool, t': Node, r': Node, rSize': int)
    requires Covers(fp, c, top) && Wired(c, top, l, t, r) && rSize == Weight(c.rs) && k < t.key
    modifies fp, top
    ensures done <==> LastRound(k, c)
    ensures var d := OneRound(k, c);
            rSize' == Weight(d.rs) && Covers(fp, d, top) && Wired(d, top, l, t', r')
  {
    hide Spine, Carried, CarriedLeft, CarriedRight, Weight, Counted, Scattered, ChainLeft;
    t' := AimLeft(k, c, top, l, t, r, fp);
    AimedCovered(k, c, top, fp);
    ghost var d := c.(mid := Aimed(k, c.mid));
    r', rSize' := r, rSize;
    SubtreeValue(d.mid.left, t'.left);
    done := t'.left == null;
    LastInSpine(d.rs, top, r);
    if !done {
      r' := t';
      t', rSize' := PassRight(d, top, l, t', r, rSize, fp);
    }
  }

  /** The round of the loop of `splay` when `k` lies to the right. */
  method GoRight(k: int, top: Node, l: Node, t: Node, ghost r: Node, lSize: int, ghost c: Cut, ghost fp: set<Node>)
    returns (done: bool, t': Node, l': Node, lSize': int)
    requires Covers(fp, c, top) && Wired(c, top, l, t, r) && lSize == Weight(c.ls) && k > t.key
    modifies fp, top
    ensures done <==> LastRound(k, c)
    ensures var d := OneRound(k, c);
            lSize' == Weight(d.ls) && Covers(fp, d, top) && Wired(d, top, l', t', r)
  {
    hide Spine, Carried, CarriedLeft, CarriedRight, Weight, Counted, Scattered, ChainRight;
    t' := AimRight(k, c, top, l, t, r, fp);
    AimedCovered(k, c, top, fp);
    ghost var d := c.(mid := Aimed(k, c.mid));
    l', lSize' := l, lSize;
    SubtreeValue(d.mid.right, t'.right);
    done := t'.right == null;
    LastInSpine(d.ls, top, l);
    if !done {
      l' := t';
      t', lSize' := PassLeft(d, top, l, t', r, lSize, fp);
    }
  }

  method Advance(k: int, top: Node, l: Node, t: Node, r: Node, lSize: int, rSize: int, ghost c: Cut, ghost fp: set<Node>)
    returns (done: bool, l': Node, t': Node, r': Node, lSize': int, rSize': int)
    requires Covers(fp, c, top) && Wired(c, top, l, t, r) && lSize == Weight(c.ls) && rSize == Weight(c.rs)
    modifies fp, top
    ensures done <==> LastRound(k, c)
    ensures var d := OneRound(k, c);
            && lSize' == Weight(d.ls) && rSize' == Weight(d.rs)
            && Covers(fp, d, top) && Wired(d, top, l', t', r')
  {
    l', t', r', lSize', rSize' := l, t, r, lSize, rSize;
    if k < t.key {
      done, t', r', rSize' := GoLeft(k, top, l, t, r, rSize, c, fp);
    } else if k > t.key {
      done, t', l', lSize' := GoRight(k, top, l, t, r, lSize, c, fp);
    } else {
      done := true;
    }
  }

  lemma RoundShrinks(k: int, c: Cut)
    requires c.mid.Fork? && !LastRound(k, c)
    ensures Size(OneRound(k, c).mid) < Size(c.mid)
  {
    RotationSize(c.mid);
  }

  /** The loop of `splay`: walk down towards `k`, moving what is passed to the two side trees; and its length. */
  method CutAlong(k: int, root: Node, top: Node, ghost g: Tree, ghost fp: set<Node>)
    returns (l: Node, t: Node, r: Node, lSize: int, rSize: int, ghost rounds: nat)
    requires g.Fork? && Apart(g) && Linked(g, root) && Counted(g) && fp == Nodes(g) && top !in fp
    modifies fp, top
    ensures var c := Descend(k, Cut([], g, []));
            && Covers(fp, c, top) && Wired(c, top, l, t, r)
            && lSize == Weight(c.ls) && rSize == Weight(c.rs)
    ensures rounds == Rounds(k, Cut([], g, []))
  {
    l, t, r, lSize, rSize, rounds := top, root, top, 0, 0, 0;
    ghost var c := Cut([], g, []);
    var done := false;
    while !done
      invariant Covers(fp, c, top) && Wired(c, top, l, t, r)
      invariant lSize == Weight(c.ls) && rSize == Weight(c.rs)
      invariant Descend(k, Cut([], g, [])) == if done then c else Descend(k, c)
      invariant Rounds(k, Cut([], g, [])) == rounds + if done then 0 else Rounds(k, c)
      decreases !done, Size(c.mid)
    {
      if !LastRound(k, c) { RoundShrinks(k, c); }
      done, l, t, r, lSize, rSize := Advance(k, top, l, t, r, lSize, rSize, c, fp);
      c := OneRound(k, c);
      rounds := rounds + 1;
    }
  }

  // ---------- repairing the counts along the spines and reassembling ----------

  /** Along a spine of `total` nodes each hook counts what has not been passed above it. */
  ghost predicate SpineCounts(hs: seq<Hook>, total: int)
    reads Spine(hs)`value
  {
    forall i :: 0 <= i < |hs| ==> hs[i].node.value == total - Weight(hs[..i])
  }

  /** The counts to be stored along the spine, outermost first. */
  ghost function Passing(hs: seq<Hook>, total: int): (ws: seq<int>)
    ensures |ws| == |hs|
  {
    seq(|hs|, i requires 0 <= i < |hs| => total - Weight(hs[..i]))
  }

  lemma PassingAt(hs: seq<Hook>, total: int)
    ensures forall i :: 0 <= i < |hs| ==> Passing(hs, total)[i] == total - Weight(hs[..i])
    ensures |hs| > 0 ==> Passing(hs, total)[0] == total
  {
    assert |hs| > 0 ==> hs[..0] == [];
  }

  lemma PassingNext(hs: seq<Hook>, total: int, i: nat)
    requires i < |hs|
    ensures i + 1 < |hs| ==> Passing(hs, total)[i + 1] == Passing(hs, total)[i] - (1 + Size(hs[i].sub))
  {
    assert hs[..i + 1][..i] == hs[..i];
  }

  /** The first repair loop: down the right spine of the left side tree. */
  method RecountLeft(ghost ls: seq<Hook>, top: Node, ghost l: Node, size: int)
    requires ChainLeft(ls, top, l) && l.right == null && CarriedLeft(ls) && SpineDistinct(ls)
    requires Spine(ls) !! Carried(ls)
    modifies Spine(ls)`value
    ensures SpineCounts(ls, size)
  {
    hide Spine, Carried, Weight, Linked, Counted, Passing;
    var y, n := top.right, size;
    ghost var i, ws := 0, Passing(ls, size);
    PassingAt(ls, size);
    while y != null
      invariant 0 <= i <= |ls| && y == (if i == |ls| then null else ls[i].node)
      invariant i < |ls| ==> n == ws[i]
      invariant CarriedLeft(ls)
      invariant forall j :: 0 <= j < i ==> ls[j].node.value == ws[j]
      decreases |ls| - i
    {
      y.value := n;
      SubtreeValue(ls[i].sub, y.left);
      PassingNext(ls, size, i);
      n := n - (1 + NodeValue(y.left));
      y := y.right;
      i := i + 1;
    }
  }

  /** The second repair loop: down the left spine of the right side tree. */
  method RecountRight(ghost rs: seq<Hook>, top: Node, ghost r: Node, size: int)
    requires ChainRight(rs, top, r) && r.left == null && CarriedRight(rs) && SpineDistinct(rs)
    requires Spine(rs) !! Carried(rs)
    modifies Spine(rs)`value
    ensures SpineCounts(rs, size)
  {
    hide Spine, Carried, Weight, Linked, Counted, Passing;
    var y, n := top.left, size;
    ghost var i, ws := 0, Passing(rs, size);
    PassingAt(rs, size);
    while y != null
      invariant 0 <= i <= |rs| && y == (if i == |rs| then null else rs[i].node)
      invariant i < |rs| ==> n == ws[i]
      invariant CarriedRight(rs)
      invariant forall j :: 0 <= j < i ==> rs[j].node.value == ws[j]
      decreases |rs| - i
    {
      y.value := n;
      SubtreeValue(rs[i].sub, y.right);
      PassingNext(rs, size, i);
      n := n - (1 + NodeValue(y.right));
      y := y.left;
      i := i + 1;
    }
  }

  lemma {:induction false} HangLeftLinked(ls: seq<Hook>, inner: Tree, top: Node, last: Node)
    requires ChainLeft(ls, top, last) && CarriedLeft(ls) && SpineCounts(ls, Weight(ls) + Size(inner))
    requires Linked(inner, last.right) && Counted(inner)
    ensures Linked(HangLeft(ls, inner), top.right) && Counted(HangLeft(ls, inner))
    decreases |ls|
  {
    if ls != [] {
      var front, h := ls[..|ls| - 1], ls[|ls| - 1];
      assert forall i :: 0 <= i < |front| ==> front[i] == ls[i] && front[..i] == ls[..i];
      assert h.node.value == 1 + Size(h.sub) + Size(inner);
      HangLeftLinked(front, Fork(h.sub, h.node, inner), top, if front == [] then top else front[|front| - 1].node);
    }
  }

  lemma {:induction false} HangRightLinked(rs: seq<Hook>, inner: Tree, top: Node, last: Node)
    requires ChainRight(rs, top, last) && CarriedRight(rs) && SpineCounts(rs, Weight(rs) + Size(inner))
    requires Linked(inner, last.left) && Counted(inner)
    ensures Linked(HangRight(rs, inner), top.left) && Counted(HangRight(rs, inner))
    decreases |rs|
  {
    if rs != [] {
      var front, h := rs[..|rs| - 1], rs[|rs| - 1];
      assert forall i :: 0 <= i < |front| ==> front[i] == rs[i] && front[..i] == rs[..i];
      assert h.node.value == 1 + Size(h.sub) + Size(inner);
      HangRightLinked(front, Fork(inner, h.node, h.sub), top, if front == [] then top else front[|front| - 1].node);
    }
  }

  lemma {:induction false} HangLeftNodes(ls: seq<Hook>, inner: Tree)
    ensures Nodes(HangLeft(ls, inner)) == Spine(ls) + Carried(ls) + Nodes(inner)
    decreases |ls|
  {
    if ls != [] {
      var front, h := ls[..|ls| - 1], ls[|ls| - 1];
      HangLeftNodes(front, Fork(h.sub, h.node, inner));
      SpineAppend(front, h);
      assert front + [h] == ls;
    }
  }

  lemma {:induction false} HangRightNodes(rs: seq<Hook>, inner: Tree)
    ensures Nodes(HangRight(rs, inner)) == Spine(rs) + Carried(rs) + Nodes(inner)
    decreases |rs|
  {
    if rs != [] {
      var front, h := rs[..|rs| - 1], rs[|rs| - 1];
      HangRightNodes(front, Fork(inner, h.node, h.sub));
      SpineAppend(front, h);
      assert front + [h] == rs;
    }
  }

  method RepairLeft(ghost c: Cut, top: Node, l: Node, ghost t: Node, ghost r: Node, total: int, ghost fp: set<Node>)
    requires Covers(fp, c, top) && Wired(c, top, l, t, r)
    modifies Spine(c.ls)`value, l`right
    ensures Wired(c, top, l, t, r) && SpineCounts(c.ls, total)
  {
    hide Spine, Carried, SpineDistinct, ChainLeft, ChainRight, CarriedLeft, CarriedRight, Nodes, Apart, SpineCounts;
    hide Linked, CountedBelow;
    PointLeft(c, top, l, t, r, null, fp);
    RecountLeft(c.ls, top, l, total);
  }

  method RepairRight(ghost c: Cut, top: Node, ghost l: Node, ghost t: Node, r: Node, total: int, ghost fp: set<Node>)
    requires Covers(fp, c, top) && Wired(c, top, l, t, r)
    modifies Spine(c.rs)`value, r`left
    ensures Wired(c, top, l, t, r) && SpineCounts(c.rs, total)
  {
    hide Spine, Carried, SpineDistinct, ChainLeft, ChainRight, CarriedLeft, CarriedRight, Nodes, Apart, SpineCounts;
    hide Linked, CountedBelow;
    PointRight(c, top, l, t, r, null, fp);
    RecountRight(c.rs, top, r, total);
  }

  /** The count of the root is no part of the picture while the loop runs. */
  method StampRoot(ghost c: Cut, ghost top: Node, ghost l: Node, t: Node, ghost r: Node, total: int, ghost fp: set<Node>)
    requires Covers(fp, c, top) && Wired(c, top, l, t, r)
    modifies t`value
    ensures Wired(c, top, l, t, r) && t.value == total
  {
    hide ChainLeft, ChainRight, SpineDistinct, Spine, CarriedLeft, CarriedRight;
    t.value := total;
  }

  /** The part of `splay` after its loop that repairs the counts of the root and of both spines. */
  method Repair(ghost c: Cut, top: Node, l: Node, t: Node, r: Node, lSize: int, rSize: int, ghost fp: set<Node>)
    requires Covers(fp, c, top) && Wired(c, top, l, t, r)
    requires lSize == Weight(c.ls) && rSize == Weight(c.rs)
    requires t in fp && l in fp + {top} && r in fp + {top}
    modifies fp, top
    ensures Wired(c, top, l, t, r)
    ensures SpineCounts(c.ls, Weight(c.ls) + Size(c.mid.left))
    ensures SpineCounts(c.rs, Weight(c.rs) + Size(c.mid.right))
    ensures t.value == Weight(c.ls) + Weight(c.rs) + Size(c.mid)
  {
    hide Spine, Carried, SpineDistinct, ChainLeft, ChainRight, CarriedLeft, CarriedRight, SpineCounts, Weight, Linked, Counted;
    RootCounts(c.mid, t);
    var lTotal, rTotal := lSize + NodeValue(t.left), rSize + NodeValue(t.right);
    StampRoot(c, top, l, t, r, lTotal + rTotal + 1, fp);
    RepairLeft(c, top, l, t, r, lTotal, fp);
    RepairRight(c, top, l, t, r, rTotal, fp);
  }

  lemma RootCounts(t: Tree, p: Node)
    requires Linked(t, p) && CountedBelow(t)
    ensures p in Nodes(t) && NodeValue(p.left) == Size(t.left) && NodeValue(p.right) == Size(t.right)
  {
    SubtreeValue(t.left, p.left);
    SubtreeValue(t.right, p.right);
  }

  method JoinLeft(ghost c: Cut, top: Node, l: Node, t: Node, ghost r: Node, ghost fp: set<Node>)
    requires Covers(fp, c, top) && Wired(c, top, l, t, r) && SpineCounts(c.ls, Weight(c.ls) + Size(c.mid.left))
    modifies l`right
    ensures Wired(c, top, l, t, r)
    ensures var s := HangLeft(c.ls, c.mid.left); Linked(s, top.right) && Counted(s)
  {
    hide HangLeft, ChainLeft, ChainRight, CarriedLeft, CarriedRight, Carried, Apart;
    PointLeft(c, top, l, t, r, t.left, fp);
    HangLeftLinked(c.ls, c.mid.left, top, l);
  }

  method JoinRight(ghost c: Cut, top: Node, ghost l: Node, t: Node, r: Node, ghost fp: set<Node>)
    requires Covers(fp, c, top) && Wired(c, top, l, t, r) && SpineCounts(c.rs, Weight(c.rs) + Size(c.mid.right))
    modifies r`left
    ensures var s := HangRight(c.rs, c.mid.right); Linked(s, top.left) && Counted(s)
  {
    hide HangRight, ChainLeft, ChainRight, CarriedLeft, CarriedRight, Carried, Apart;
    PointRight(c, top, l, t, r, t.right, fp);
    HangRightLinked(c.rs, c.mid.right, top, r);
  }

  lemma {:induction false} HangSize(c: Cut)
    requires c.mid.Fork?
    ensures Size(Reassemble(c)) == Weight(c.ls) + Weight(c.rs) + Size(c.mid)
  {
    HangLeftSize(c.ls, c.mid.left);
    HangRightSize(c.rs, c.mid.right);
  }

  lemma {:induction false} HangLeftSize(ls: seq<Hook>, inner: Tree)
    ensures Size(HangLeft(ls, inner)) == Weight(ls) + Size(inner)
    decreases |ls|
  {
    if ls != [] {
      HangLeftSize(ls[..|ls| - 1], Fork(ls[|ls| - 1].sub, ls[|ls| - 1].node, inner));
    }
  }

  lemma {:induction false} HangRightSize(rs: seq<Hook>, inner: Tree)
    ensures Size(HangRight(rs, inner)) == Weight(rs) + Size(inner)
    decreases |rs|
  {
    if rs != [] {
      HangRightSize(rs[..|rs| - 1], Fork(inner, rs[|rs| - 1].node, rs[|rs| - 1].sub));
    }
  }

  method Plant(t: Node, top: Node, ghost a: Tree, ghost b: Tree)
    requires t !in Nodes(a) && t !in Nodes(b) && t != top
    requires Linked(a, top.right) && Linked(b, top.left) && Counted(a) && Counted(b)
    requires t.value == Size(a) + 1 + Size(b)
    modifies t`left, t`right
    ensures Linked(Fork(a, t, b), t) && Counted(Fork(a, t, b))
  {
    t.left := top.right;
    t.right := top.left;
  }

  lemma ReassembleNodes(c: Cut, top: Node, r: Node, fp: set<Node>)
    requires Covers(fp, c, top) && c.mid.Fork? && r == if c.rs == [] then top else c.rs[|c.rs| - 1].node
    ensures Nodes(Reassemble(c)) == fp
    ensures var a, b := HangLeft(c.ls, c.mid.left), HangRight(c.rs, c.mid.right);
            Nodes(a) <= fp && Nodes(b) <= fp && c.mid.node !in Nodes(a) && c.mid.node !in Nodes(b) && r !in Nodes(a)
  {
    LastInSpine(c.rs, top, r);
    HangLeftNodes(c.ls, c.mid.left);
    HangRightNodes(c.rs, c.mid.right);
  }

  /** The last four assignments of `splay`. */
  method Join(ghost c: Cut, top: Node, l: Node, t: Node, r: Node, ghost fp: set<Node>)
    requires Covers(fp, c, top) && Wired(c, top, l, t, r)
    requires SpineCounts(c.ls, Weight(c.ls) + Size(c.mid.left))
    requires SpineCounts(c.rs, Weight(c.rs) + Size(c.mid.right))
    requires t.value == Weight(c.ls) + Weight(c.rs) + Size(c.mid)
    modifies t, l`right, r`left
    ensures Linked(Reassemble(c), t) && Counted(Reassemble(c)) && Nodes(Reassemble(c)) == fp
  {
    hide SpineCounts, Weight, HangLeft, HangRight, Spine, Carried, CarriedLeft, CarriedRight;
    ReassembleNodes(c, top, r, fp);
    HangSize(c);
    ghost var a, b := HangLeft(c.ls, c.mid.left), HangRight(c.rs, c.mid.right);
    JoinLeft(c, top, l, t, r, fp);
    JoinRight(c, top, l, t, r, fp);
    assert Linked(a, top.right) && Counted(a);
    Plant(t, top, a, b);
  }

  /** The part of `splay` after its loop. */
  method Rebuild(ghost c: Cut, top: Node, l: Node, t: Node, r: Node, lSize: int, rSize: int, ghost fp: set<Node>)
    requires Covers(fp, c, top) && Wired(c, top, l, t, r)
    requires lSize == Weight(c.ls) && rSize == Weight(c.rs)
    requires t in fp && l in fp + {top} && r in fp + {top}
    modifies fp, top
    ensures Linked(Reassemble(c), t) && Counted(Reassemble(c)) && Nodes(Reassemble(c)) == fp
  {
    hide Covers, Wired, Spine, Carried, SpineCounts, Reassemble, Weight, Linked, Counted, Nodes;
    Repair(c, top, l, t, r, lSize, rSize, fp);
    Join(c, top, l, t, r, fp);
  }

  /**
   `splay`: relinks the nodes into the splayed tree and leaves an exact count at every one of them.
   */
  method Splay(k: int, t: Node?, ghost g: Tree, ghost fp: set<Node>) returns (p: Node?)
    requires Valid(g, t) && fp == Nodes(g)
    modifies fp
    ensures Valid(TopDown(k, g), p) && Nodes(TopDown(k, g)) == fp
  {
    hide Descend, Spine, Carried, SpineCounts, Reassemble, Weight, Ascending;
    if t == null {
      return t;
    }
    var top := new Node(k);
    AscendingApart(g);
    TopDownSplays(k, g);
    var l, mid, r, lSize, rSize;
    ghost var rounds;
    l, mid, r, lSize, rSize, rounds := CutAlong(k, t, top, g, fp);
    ghost var c := Descend(k, Cut([], g, []));
    LastInSpine(c.ls, top, l);
    LastInSpine(c.rs, top, r);
    Rebuild(c, top, l, mid, r, lSize, rSize, fp);
    p := mid;
  }

  // ---------- insertion and deletion ----------

  /** The tree `insert` builds around the splayed root: the new node on top, the old root on its side of `k`. */
  function Grafted(s: Tree, n: Node): Tree
    requires s.Fork?
  {
    if n.key < s.node.key then Fork(s.left, n, Fork(Leaf, s.node, s.right))
    else if n.key > s.node.key then Fork(Fork(s.left, s.node, Leaf), n, s.right)
    else s
  }

  lemma GraftedNodes(s: Tree, n: Node)
    requires s.Fork?
    ensures Nodes(Grafted(s, n)) == if s.node.key == n.key then Nodes(s) else Nodes(s) + {n}
  {
    assert Nodes(Fork(Leaf, s.node, s.right)) == {s.node} + Nodes(s.right);
    assert Nodes(Fork(s.left, s.node, Leaf)) == Nodes(s.left) + {s.node};
  }

  lemma GraftedBelowOrder(s: Tree, n: Node)
    requires s.Fork? && n.key < s.node.key
    ensures InOrder(Grafted(s, n)) == InOrder(s.left) + [n] + ([] + [s.node] + InOrder(s.right))
  {
    hide InOrder;
    InOrderLeaf();
    InOrderFork(Fork(Leaf, s.node, s.right));
    InOrderFork(Grafted(s, n));
  }

  lemma GraftedBelow(s: Tree, n: Node)
    requires Ascending(InOrder(s)) && PartedAt(n.key, s) && n.key < s.node.key
    ensures Ascending(InOrder(Grafted(s, n))) && KeySet(Grafted(s, n)) == KeySet(s) + {n.key}
  {
    hide InOrder, Grafted, KeysOf;
    var a, b := InOrder(s.left), InOrder(s.right);
    InOrderFork(s);
    GraftedBelowOrder(s, n);
    AscendingParts(a, s.node, b);
    KeysJoin(a, s.node, b);
    AscendingThrough(a, n, [], s.node, b);
    assert KeysOf([]) == {} by { NoKeys(); }
  }

  lemma NoKeys()
    ensures KeysOf([]) == {}
  {
  }

  lemma GraftedAboveOrder(s: Tree, n: Node)
    requires s.Fork? && n.key > s.node.key
    ensures InOrder(Grafted(s, n)) == InOrder(s.left) + [s.node] + ([] + [n] + InOrder(s.right))
    ensures InOrder(s) == InOrder(s.left) + [s.node] + InOrder(s.right)
  {
    hide Nodes, Size;
    assert InOrder(Leaf) == [];
    Shift(InOrder(s.left), s.node, n, InOrder(s.right));
  }

  lemma Shift(a: seq<Node>, m: Node, n: Node, b: seq<Node>)
    ensures (a + [m] + []) + [n] + b == a + [m] + ([] + [n] + b)
  {
  }

  lemma GraftedAbove(s: Tree, n: Node)
    requires Ascending(InOrder(s)) && PartedAt(n.key, s) && n.key > s.node.key
    ensures Ascending(InOrder(Grafted(s, n))) && KeySet(Grafted(s, n)) == KeySet(s) + {n.key}
  {
    hide InOrder, Grafted;
    var a, b := InOrder(s.left), InOrder(s.right);
    GraftedAboveOrder(s, n);
    AscendingParts(a, s.node, b);
    KeysJoin(a, s.node, b);
    AscendingThrough(a, s.node, [], n, b);
  }

  lemma GraftedKeys(k: int, s: Tree, n: Node)
    requires Ascending(InOrder(s)) && PartedAt(k, s) && n.key == k
    ensures Ascending(InOrder(Grafted(s, n))) && KeySet(Grafted(s, n)) == KeySet(s) + {k}
  {
    if k < s.node.key {
      GraftedBelow(s, n);
    } else if k > s.node.key {
      GraftedAbove(s, n);
    } else {
      KeysJoin(InOrder(s.left), s.node, InOrder(s.right));
    }
  }

  lemma AscendingThrough(a: seq<Node>, m: Node, b: seq<Node>, n: Node, c: seq<Node>)
    requires Ascending(a) && Ascending(b) && Ascending(c) && m.key < n.key
    requires Below(a, m.key) && Above(b, m.key) && Below(b, n.key) && Above(c, n.key)
    ensures var s := a + [m] + (b + [n] + c);
            Ascending(s) && KeysOf(s) == KeysOf(a) + {m.key} + KeysOf(b) + {n.key} + KeysOf(c)
  {
    hide KeysOf, Ascending, Below, Above;
    AscendingParts(b, n, c);
    KeysJoin(b, n, c);
    AboveAll(b, n, c, m.key);
    AscendingParts(a, m, b + [n] + c);
    KeysJoin(a, m, b + [n] + c);
  }

  lemma AboveAll(b: seq<Node>, n: Node, c: seq<Node>, k: int)
    requires Above(b, k) && k < n.key && Above(c, n.key)
    ensures Above(b + [n] + c, k)
  {
    BelowConcat(b + [n], c, k);
    BelowConcat(b, [n], k);
  }

  lemma KeysJoin(a: seq<Node>, n: Node, b: seq<Node>)
    ensures KeysOf(a + [n] + b) == KeysOf(a) + {n.key} + KeysOf(b)
  {
    var s := a + [n] + b;
    assert forall i :: 0 <= i < |a| ==> a[i] == s[i];
    assert forall i :: 0 <= i < |b| ==> b[i] == s[|a| + 1 + i];
    assert s[|a|] == n;
  }

  /** The relinking of `insert` when the new key is below the root. */
  method GraftLow(root: Node, n: Node, ghost s: Tree)
    requires Linked(s, root) && Counted(s) && Apart(s) && s.Fork? && n !in Nodes(s) && n.key < root.key
    modifies root, n
    ensures Linked(Grafted(s, n), n) && Counted(Grafted(s, n))
  {
    SubtreeValue(s.left, root.left);
    SubtreeValue(s.right, root.right);
    n.left, n.right := root.left, root;
    root.left := null;
    root.value := 1 + NodeValue(root.right);
    ghost var f := Fork(Leaf, s.node, s.right);
    assert Linked(f, n.right) && Counted(f);
    SubtreeValue(s.left, n.left);
    SubtreeValue(f, n.right);
    n.value := 1 + NodeValue(n.left) + NodeValue(n.right);
  }

  /** The relinking of `insert` when the new key is above the root. */
  method GraftHigh(root: Node, n: Node, ghost s: Tree)
    requires Linked(s, root) && Counted(s) && Apart(s) && s.Fork? && n !in Nodes(s) && n.key > root.key
    modifies root, n
    ensures Linked(Grafted(s, n), n) && Counted(Grafted(s, n))
  {
    SubtreeValue(s.left, root.left);
    SubtreeValue(s.right, root.right);
    n.right, n.left := root.right, root;
    root.right := null;
    root.value := 1 + NodeValue(root.left);
    ghost var f := Fork(s.left, s.node, Leaf);
    assert Linked(f, n.left) && Counted(f);
    SubtreeValue(s.right, n.right);
    SubtreeValue(f, n.left);
    n.value := 1 + NodeValue(n.left) + NodeValue(n.right);
  }

  /** The relinking at the end of `insert`. */
  method Graft(root: Node, n: Node, ghost s: Tree)
    requires Linked(s, root) && Counted(s) && Apart(s) && s.Fork? && n !in Nodes(s) && n.key != root.key
    modifies root, n
    ensures Linked(Grafted(s, n), n) && Counted(Grafted(s, n))
  {
    hide Linked, Counted, Apart, Grafted;
    if n.key < root.key {
      GraftLow(root, n, s);
    } else {
      GraftHigh(root, n, s);
    }
  }

  /** `insert`: adds the key, unless it is already there. */
  method Insert(k: int, t: Node?, ghost g: Tree, ghost fp: set<Node>)
    returns (p: Node, ghost g': Tree, ghost fp': set<Node>)
    requires Valid(g, t) && fp == Nodes(g)
    modifies fp
    ensures Valid(g', p) && fp' == Nodes(g') && fresh(fp' - fp)
    ensures KeySet(g') == KeySet(g) + {k}
    ensures p.key == k && g' == if g.Leaf? then Fork(Leaf, p, Leaf) else Grafted(TopDown(k, g), p)
  {
    var n := new Node(k);
    if t == null {
      assert InOrder(Fork(Leaf, n, Leaf)) == [] + [n] + [];
      KeysJoin([], n, []);
      return n, Fork(Leaf, n, Leaf), {n};
    }
    ghost var s := TopDown(k, g);
    var root := Splay(k, t, g, fp);
    TopDownSplays(k, g);
    GraftedKeys(k, s, n);
    GraftedNodes(s, n);
    AscendingApart(s);
    g' := Grafted(s, n);
    if k != root.key {
      Graft(root, n, s);
      p := n;
    } else {
      p := root;
    }
    fp' := Nodes(g');
  }

  /** The tree `splay_delete` leaves: the splayed left part takes over the right one. */
  function Pruned(k: int, s: Tree): Tree
    requires s.Fork?
  {
    if s.node.key != k then s
    else if s.left.Leaf? then s.right
    else var y := TopDown(k, s.left); if y.Fork? then Fork(y.left, y.node, s.right) else Leaf
  }

  /** The deepest case of `splay_delete`: the root goes and the splayed left part takes over. */
  lemma PrunedLeft(k: int, s: Tree, y: Tree)
    requires Ascending(InOrder(s)) && s.Fork? && s.node.key == k && s.left.Fork? && y == TopDown(k, s.left)
    ensures y.Fork? && y.right.Leaf? && InOrder(y) == InOrder(s.left) && Nodes(y) == Nodes(s.left)
    ensures InOrder(s.left) == InOrder(y.left) + [y.node] + [] && Size(y) == Size(s.left)
  {
    hide TopDown;
    AscendingParts(InOrder(s.left), s.node, InOrder(s.right));
    TopDownSplays(k, s.left);
    LastOfLeft(k, y);
    InOrderNodes(y);
    InOrderNodes(s.left);
  }

  /** Dropping the middle of an ascending sequence. */
  lemma AscendingDrop(a: seq<Node>, m: Node, b: seq<Node>)
    requires Ascending(a + [m] + b)
    ensures Ascending(a + b) && KeysOf(a + b) == KeysOf(a + [m] + b) - {m.key}
  {
    AscendingParts(a, m, b);
    KeysJoin(a, m, b);
    var s := a + b;
    assert forall i :: 0 <= i < |a| ==> s[i] == a[i];
    assert forall i :: 0 <= i < |b| ==> s[|a| + i] == b[i];
    assert forall k :: k in KeysOf(s) <==> k in KeysOf(a) + KeysOf(b);
  }

  lemma PrunedInOrder(k: int, s: Tree)
    requires Ascending(InOrder(s)) && s.Fork? && s.node.key == k
    ensures InOrder(Pruned(k, s)) == InOrder(s.left) + InOrder(s.right)
  {
    hide TopDown, Ascending, Nodes, Size, InOrder;
    if s.left.Fork? {
      var y := TopDown(k, s.left);
      PrunedLeft(k, s, y);
      InOrderFork(Fork(y.left, y.node, s.right));
      NothingBetween(InOrder(y.left), y.node, InOrder(s.right));
    } else {
      InOrderLeaf();
      assert [] + InOrder(s.right) == InOrder(s.right);
    }
  }

  lemma InOrderLeaf()
    ensures InOrder(Leaf) == []
  {
  }

  lemma NothingBetween(a: seq<Node>, m: Node, b: seq<Node>)
    ensures (a + [m] + []) + b == a + [m] + b
  {
  }

  lemma PrunedNodes(k: int, s: Tree)
    requires Ascending(InOrder(s)) && s.Fork? && s.node.key == k
    ensures Size(Pruned(k, s)) == Size(s) - 1 && Nodes(Pruned(k, s)) <= Nodes(s)
  {
    hide TopDown, Ascending, InOrder;
    if s.left.Fork? {
      PrunedLeft(k, s, TopDown(k, s.left));
    }
  }

  lemma PrunedKeys(k: int, s: Tree)
    requires Ascending(InOrder(s)) && PartedAt(k, s)
    ensures var g := Pruned(k, s);
            && Ascending(InOrder(g)) && KeySet(g) == KeySet(s) - {k}
            && Size(g) == (if s.node.key == k then Size(s) - 1 else Size(s))
            && Nodes(g) <= Nodes(s)
    ensures s.node.key == k && s.left.Fork? ==>
              var y := TopDown(k, s.left); y.Fork? && y.right.Leaf? && Nodes(y) == Nodes(s.left)
  {
    hide TopDown;
    if s.node.key == k {
      PrunedInOrder(k, s);
      PrunedNodes(k, s);
      AscendingDrop(InOrder(s.left), s.node, InOrder(s.right));
      if s.left.Fork? {
        PrunedLeft(k, s, TopDown(k, s.left));
      }
    } else {
      KeysJoin(InOrder(s.left), s.node, InOrder(s.right));
    }
  }

  /** Splaying for a bound above every key leaves nothing to the right of the root. */
  lemma LastOfLeft(k: int, y: Tree)
    requires PartedAt(k, y) && Below(InOrder(y), k)
    ensures y.right.Leaf?
  {
    var a, b := InOrder(y.left), InOrder(y.right);
    assert forall i :: 0 <= i < |b| ==> b[i] == InOrder(y)[|a| + 1 + i];
    RootAmong(y.right, k);
  }

  lemma RootAmong(t: Tree, k: int)
    ensures t.Fork? && Below(InOrder(t), k) ==> t.node.key < k
    ensures t.Fork? && Above(InOrder(t), k) ==> k < t.node.key
  {
    assert t.Fork? ==> InOrder(t)[|InOrder(t.left)|] == t.node;
  }

  /** The splayed left part `y` adopts the right part of the deleted root. */
  method Adopt(p: Node, right: Node?, ghost y: Tree, ghost b: Tree, count: int)
    requires Linked(y, p) && Counted(y) && y.Fork? && y.right.Leaf? && Linked(b, right) && Counted(b)
    requires Apart(y) && Nodes(y) !! Nodes(b) && count == Size(y.left) + 1 + Size(b)
    modifies p`right, p`value
    ensures Linked(Fork(y.left, y.node, b), p) && Counted(Fork(y.left, y.node, b))
  {
    p.right := right;
    p.value := count;
  }

  /** `splay_delete`: removes the key if it is there; `root_value - 1` is the right count for the new root. */
  method Delete(k: int, t: Node?, ghost g: Tree, ghost fp: set<Node>) returns (p: Node?, ghost g': Tree)
    requires Valid(g, t) && fp == Nodes(g)
    modifies fp
    ensures Valid(g', p) && Nodes(g') <= fp
    ensures KeySet(g') == KeySet(g) - {k}
    ensures g' == if g.Leaf? then Leaf else Pruned(k, TopDown(k, g))
  {
    if t == null {
      return null, g;
    }
    var rootValue := t.value;
    ghost var s := TopDown(k, g);
    TopDownSplays(k, g);
    PrunedKeys(k, s);
    InOrderNodes(s);
    InOrderNodes(g);
    p := Splay(k, t, g, fp);
    g' := Pruned(k, s);
    if k == p.key {
      p := Unroot(k, p, s, rootValue, fp);
    }
  }

  method Unroot(k: int, root: Node, ghost s: Tree, rootValue: int, ghost fp: set<Node>) returns (p: Node?)
    requires Valid(s, root) && fp == Nodes(s) && PartedAt(k, s) && root.key == k && rootValue == Size(s)
    modifies fp
    ensures Linked(Pruned(k, s), p) && Counted(Pruned(k, s))
  {
    AscendingApart(s);
    PrunedKeys(k, s);
    SubtreeValue(s.left, root.left);
    SubtreeValue(s.right, root.right);
    if root.left == null {
      p := root.right;
      if p != null {
        p.value := rootValue - 1;
      }
    } else {
      ghost var y := TopDown(k, s.left);
      AscendingParts(InOrder(s.left), s.node, InOrder(s.right));
      p := Splay(k, root.left, s.left, Nodes(s.left));
      AscendingApart(y);
      Adopt(p, root.right, y, s.right, rootValue - 1);
    }
  }

  // ---------- reading a rank off the root ----------

  lemma {:induction false} AscendingCard(s: seq<Node>)
    requires Ascending(s)
    ensures |KeysOf(s)| == |s|
    decreases |s|
  {
    if s != [] {
      var a, n := s[..|s| - 1], s[|s| - 1];
      AscendingCard(a);
      assert s == a + [n] + [];
      KeysJoin(a, n, []);
      assert n.key !in KeysOf(a);
    }
  }

  /** The keys above the middle of an ascending sequence are those to its right. */
  lemma KeysAbove(a: seq<Node>, m: Node, b: seq<Node>)
    requires Ascending(a + [m] + b)
    ensures (set x <- KeysOf(a + [m] + b) | x > m.key) == KeysOf(b)
  {
    AscendingParts(a, m, b);
    KeysJoin(a, m, b);
    assert forall x :: x in (set x <- KeysOf(a + [m] + b) | x > m.key) <==> x in KeysOf(b);
  }

  /** With the key at the root, the count of the right subtree is the number of larger keys. */
  lemma RightCount(k: int, s: Tree)
    requires PartedAt(k, s) && s.node.key == k && Ascending(InOrder(s))
    ensures Size(s.right) == |set x <- KeySet(s) | x > k|
  {
    hide KeysOf, Elems;
    KeysAbove(InOrder(s.left), s.node, InOrder(s.right));
    AscendingParts(InOrder(s.left), s.node, InOrder(s.right));
    AscendingCard(InOrder(s.right));
    InOrderNodes(s.right);
  }
}
