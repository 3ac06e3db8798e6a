/**
 The bottom-up splay tree of splaytree.hpp: nodes with parent pointers, subtree sums and sizes.

 As in `SplayTree`, a ghost `Tree` names the nodes; a `Path` is the way from a subtree up to the
 root, with the subtrees that hang off it.
 */
module BottomUpSplay {

  class Node {
    const key: int
    const val: int
    var left: Node?
    var right: Node?
    var parent: Node?
    var sum: int
    var size: int

    constructor (key: int, val: int)
      ensures this.key == key && this.val == val && sum == val && size == 1
      ensures left == null && right == null && parent == null
    {
      this.key, this.val := key, val;
      sum, size := val, 1;
      left, right, parent := null, null, null;
    }

    /** `maintain`: recompute the sum and the size from the children. */
    method Maintain()
      requires left != this && right != this
      modifies this`sum, this`size
      ensures sum == val + SumOf(left) + SumOf(right)
      ensures size == 1 + SizeOf(left) + SizeOf(right)
    {
      var s, z := val + SumOf(left) + SumOf(right), 1 + SizeOf(left) + SizeOf(right);
      sum, size := s, z;
    }
  }

  function SumOf(p: Node?): int
    reads (if p == null then {} else {p})`sum
  {
    if p == null then 0 else p.sum
  }

  function SizeOf(p: Node?): int
    reads (if p == null then {} else {p})`size
  {
    if p == null then 0 else p.size
  }

  datatype Item = Item(key: int, val: int)

  datatype Tree = Leaf | Fork(left: Tree, node: Node, right: Tree)

  datatype Path =
    | Top
    | FromLeft(up: Path, node: Node, right: Tree)
    | FromRight(up: Path, node: Node, left: Tree)

  function Nodes(t: Tree): set<Node> {
    if t.Leaf? then {} else Nodes(t.left) + {t.node} + Nodes(t.right)
  }

  function PathNodes(c: Path): set<Node> {
    match c
    case Top => {}
    case FromLeft(up, n, r) => PathNodes(up) + {n} + Nodes(r)
    case FromRight(up, n, l) => PathNodes(up) + {n} + Nodes(l)
  }

  function Items(t: Tree): seq<Item> {
    if t.Leaf? then [] else Items(t.left) + [Item(t.node.key, t.node.val)] + Items(t.right)
  }

  function Total(s: seq<Item>): int {
    if s == [] then 0 else s[0].val + Total(s[1..])
  }

  function Sum(t: Tree): int {
    if t.Leaf? then 0 else Sum(t.left) + t.node.val + Sum(t.right)
  }

  function Size(t: Tree): nat {
    if t.Leaf? then 0 else Size(t.left) + 1 + Size(t.right)
  }

  /** The node above the place where the path starts. */
  function Above(c: Path): Node? {
    if c.Top? then null else c.node
  }

  /** The pointers from `p`, down and back up, spell out `t`. */
  ghost predicate Linked(t: Tree, p: Node?, parent: Node?)
    reads Nodes(t)`left, Nodes(t)`right, Nodes(t)`parent
  {
    match t
    case Leaf => p == null
    case Fork(l, n, r) => p == n && n.parent == parent && Linked(l, n.left, n) && Linked(r, n.right, n)
  }

  /** Every node stores the sum and the size of its subtree. */
  ghost predicate Summed(t: Tree)
    reads Nodes(t)`sum, Nodes(t)`size
  {
    match t
    case Leaf => true
    case Fork(l, n, r) => n.sum == Sum(t) && n.size == Size(t) && Summed(l) && Summed(r)
  }

  /** The path leads from `p` to `root`, past the subtrees beside it. */
  ghost predicate Hung(c: Path, p: Node?, root: Node?)
    reads PathNodes(c)`left, PathNodes(c)`right, PathNodes(c)`parent
  {
    match c
    case Top => root == p
    case FromLeft(up, n, r) =>
      n.left == p && n.parent == Above(up) && Linked(r, n.right, n) && Hung(up, n, root)
    case FromRight(up, n, l) =>
      n.right == p && n.parent == Above(up) && Linked(l, n.left, n) && Hung(up, n, root)
  }

  /** The subtrees beside the path are summed; the nodes of the path itself may be stale. */
  ghost predicate SidesSummed(c: Path)
    reads PathNodes(c)`sum, PathNodes(c)`size
  {
    match c
    case Top => true
    case FromLeft(up, n, r) => Summed(r) && SidesSummed(up)
    case FromRight(up, n, l) => Summed(l) && SidesSummed(up)
  }

  ghost predicate Apart(t: Tree) {
    t.Leaf? || (Nodes(t.left) !! {t.node} !! Nodes(t.right) && Apart(t.left) && Apart(t.right))
  }

  ghost predicate PathApart(c: Path) {
    match c
    case Top => true
    case FromLeft(up, n, r) => PathNodes(up) !! {n} !! Nodes(r) && Apart(r) && PathApart(up)
    case FromRight(up, n, l) => PathNodes(up) !! {n} !! Nodes(l) && Apart(l) && PathApart(up)
  }

  /** `fp` holds the nodes of the subtree `t` and of the path above it, each once. */
  ghost predicate Covers(fp: set<Node>, c: Path, t: Tree) {
    fp == PathNodes(c) + Nodes(t) && PathNodes(c) !! Nodes(t) && PathApart(c) && Apart(t)
  }

  function RotateRight(t: Tree): Tree
    requires t.Fork? && t.left.Fork?
  {
    Fork(t.left.left, t.left.node, Fork(t.left.right, t.node, t.right))
  }

  function RotateLeft(t: Tree): Tree
    requires t.Fork? && t.right.Fork?
  {
    Fork(Fork(t.left, t.node, t.right.left), t.right.node, t.right.right)
  }

  // ---------- splaying as a function on paths and trees ----------

  /** The subtree one step further up. */
  function Plug(c: Path, t: Tree): Tree
    requires !c.Top?
  {
    if c.FromLeft? then Fork(t, c.node, c.right) else Fork(c.left, c.node, t)
  }

  /** One round of `splay`: the subtree at `x` after the zig, zig-zig or zig-zag step. */
  function SplayStep(c: Path, t: Tree): Tree
    requires !c.Top? && t.Fork?
  {
    if c.up.Top? then
      if c.FromLeft? then RotateRight(Plug(c, t)) else RotateLeft(Plug(c, t))
    else if c.FromLeft? && c.up.FromLeft? then
      RotateRight(RotateRight(Plug(c.up, Plug(c, t))))
    else if c.FromRight? && c.up.FromRight? then
      RotateLeft(RotateLeft(Plug(c.up, Plug(c, t))))
    else if c.FromLeft? then
      RotateLeft(Plug(c.up, RotateRight(Plug(c, t))))
    else
      RotateRight(Plug(c.up, RotateLeft(Plug(c, t))))
  }

  function SplayRest(c: Path): Path
    requires !c.Top?
  {
    if c.up.Top? then Top else c.up.up
  }

  /** `splay`: climb to the root. */
  function SplayUp(c: Path, t: Tree): (r: Tree)
    requires t.Fork?
    ensures r.Fork? && r.node == t.node
  {
    if c.Top? then t else SplayUp(SplayRest(c), SplayStep(c, t))
  }

  /** How many rounds the climb takes. */
  function Rounds(c: Path): nat {
    if c.Top? then 0 else 1 + Rounds(SplayRest(c))
  }

  function Depth(c: Path): nat {
    if c.Top? then 0 else 1 + Depth(c.up)
  }

  lemma SplayUnfolds(c: Path, t: Tree)
    requires !c.Top? && t.Fork?
    ensures SplayUp(SplayRest(c), SplayStep(c, t)) == SplayUp(c, t) && Depth(SplayRest(c)) < Depth(c)
    ensures SplayStep(c, t).Fork? && SplayStep(c, t).node == t.node
  {
  }

  // ---------- splaying keeps the items in order ----------

  function PathLeft(c: Path): seq<Item> {
    match c
    case Top => []
    case FromLeft(up, n, r) => PathLeft(up)
    case FromRight(up, n, l) => PathLeft(up) + Items(l) + [Item(n.key, n.val)]
  }

  function PathRight(c: Path): seq<Item> {
    match c
    case Top => []
    case FromLeft(up, n, r) => [Item(n.key, n.val)] + Items(r) + PathRight(up)
    case FromRight(up, n, l) => PathRight(up)
  }

  /** All items, seen from a subtree and its path. */
  function Flat(c: Path, t: Tree): seq<Item> {
    PathLeft(c) + Items(t) + PathRight(c)
  }

  lemma {:induction false} RotationItems(t: Tree)
    requires t.Fork?
    ensures t.left.Fork? ==> Items(RotateRight(t)) == Items(t)
    ensures t.right.Fork? ==> Items(RotateLeft(t)) == Items(t)
  {
    var m := Item(t.node.key, t.node.val);
    if t.left.Fork? {
      var a, b, c := Items(t.left.left), Items(t.left.right), Items(t.right);
      var n := Item(t.left.node.key, t.left.node.val);
      assert Items(RotateRight(t)) == a + [n] + (b + [m] + c);
      assert Items(t) == (a + [n] + b) + [m] + c;
    }
    if t.right.Fork? {
      var a, b, c := Items(t.left), Items(t.right.left), Items(t.right.right);
      var n := Item(t.right.node.key, t.right.node.val);
      assert Items(RotateLeft(t)) == (a + [m] + b) + [n] + c;
      assert Items(t) == a + [m] + (b + [n] + c);
    }
  }

  lemma PlugItems(c: Path, t: Tree)
    requires !c.Top?
    ensures Flat(c.up, Plug(c, t)) == Flat(c, t)
  {
    var m := Item(c.node.key, c.node.val);
    if c.FromLeft? {
      Regroup(PathLeft(c.up), Items(t), m, Items(c.right), PathRight(c.up));
    } else {
      Regroup(PathLeft(c.up), Items(c.left), m, Items(t), PathRight(c.up));
    }
  }

  lemma Regroup<T>(l: seq<T>, a: seq<T>, n: T, b: seq<T>, r: seq<T>)
    ensures l + (a + [n] + b) + r == l + a + ([n] + b + r) == (l + a + [n]) + b + r
  {
  }

  lemma SameItems(c: Path, t: Tree, u: Tree)
    requires !c.Top? && Items(t) == Items(u)
    ensures Items(Plug(c, t)) == Items(Plug(c, u))
  {
  }

  lemma {:induction false} StepItems(c: Path, t: Tree)
    requires !c.Top? && t.Fork?
    ensures Flat(SplayRest(c), SplayStep(c, t)) == Flat(c, t)
  {
    var u := Plug(c, t);
    PlugItems(c, t);
    RotationItems(u);
    if !c.up.Top? {
      PlugItems(c.up, u);
      var v := Plug(c.up, u);
      RotationItems(v);
      if c.FromLeft? && c.up.FromLeft? {
        RotationItems(RotateRight(v));
      } else if c.FromRight? && c.up.FromRight? {
        RotationItems(RotateLeft(v));
      } else if c.FromLeft? {
        SameItems(c.up, u, RotateRight(u));
        RotationItems(Plug(c.up, RotateRight(u)));
      } else {
        SameItems(c.up, u, RotateLeft(u));
        RotationItems(Plug(c.up, RotateLeft(u)));
      }
    }
  }

  lemma {:induction false} SplayItems(c: Path, t: Tree)
    requires t.Fork?
    ensures Items(SplayUp(c, t)) == Flat(c, t)
    decreases Depth(c)
  {
    if !c.Top? {
      StepItems(c, t);
      SplayUnfolds(c, t);
      SplayItems(SplayRest(c), SplayStep(c, t));
    }
  }

  /** The path to the leftmost node of the right subtree of the root `n`. */
  ghost predicate ToSuccessor(c: Path, n: Node, a: Tree) {
    match c
    case Top => false
    case FromLeft(up, m, r) => ToSuccessor(up, n, a)
    case FromRight(up, m, l) => up.Top? && m == n && l == a
  }

  /**
   Splaying the successor of the root puts the old root right below it on the left, with its own
   left subtree and nothing on its right: exactly the node that `remove` then cuts out.
   */
  lemma {:induction false} SuccessorSplayed(c: Path, t: Tree, n: Node, a: Tree)
    requires ToSuccessor(c, n, a) && t.Fork? && t.left.Leaf?
    ensures SplayUp(c, t).left == Fork(a, n, Leaf)
    decreases Depth(c)
  {
    SplayUnfolds(c, t);
    if c.FromLeft? && c.up.FromLeft? {
      SuccessorSplayed(SplayRest(c), SplayStep(c, t), n, a);
    }
  }

  // ---------- sorted items ----------

  ghost predicate Sorted(s: seq<Item>) {
    forall i, j :: 0 <= i < j < |s| ==> s[i].key < s[j].key
  }

  ghost predicate AllBelow(s: seq<Item>, k: int) {
    forall i :: 0 <= i < |s| ==> s[i].key < k
  }

  ghost predicate AllAbove(s: seq<Item>, k: int) {
    forall i :: 0 <= i < |s| ==> k < s[i].key
  }

  function Below(s: seq<Item>, k: int): seq<Item> {
    if s == [] then [] else (if s[0].key < k then [s[0]] else []) + Below(s[1..], k)
  }

  function AtLeast(s: seq<Item>, k: int): seq<Item> {
    if s == [] then [] else (if s[0].key >= k then [s[0]] else []) + AtLeast(s[1..], k)
  }

  function Beyond(s: seq<Item>, k: int): seq<Item> {
    AtLeast(s, k + 1)
  }

  lemma Associate(a: seq<Item>, b: seq<Item>, c: seq<Item>)
    ensures a + (b + c) == (a + b) + c
  {
  }

  lemma {:induction false} BelowConcat(a: seq<Item>, b: seq<Item>, k: int)
    ensures Below(a + b, k) == Below(a, k) + Below(b, k)
    decreases |a|
  {
    if a == [] {
      assert a + b == b;
    } else {
      BelowConcat(a[1..], b, k);
      assert (a + b)[1..] == a[1..] + b;
      Associate(if a[0].key < k then [a[0]] else [], Below(a[1..], k), Below(b, k));
    }
  }

  lemma {:induction false} AtLeastConcat(a: seq<Item>, b: seq<Item>, k: int)
    ensures AtLeast(a + b, k) == AtLeast(a, k) + AtLeast(b, k)
    decreases |a|
  {
    if a == [] {
      assert a + b == b;
    } else {
      AtLeastConcat(a[1..], b, k);
      assert (a + b)[1..] == a[1..] + b;
      Associate(if a[0].key >= k then [a[0]] else [], AtLeast(a[1..], k), AtLeast(b, k));
    }
  }

  lemma FilterConcat(a: seq<Item>, b: seq<Item>, k: int)
    ensures Below(a + b, k) == Below(a, k) + Below(b, k) && AtLeast(a + b, k) == AtLeast(a, k) + AtLeast(b, k)
  {
    BelowConcat(a, b, k);
    AtLeastConcat(a, b, k);
  }

  lemma {:induction false} FilterBelow(a: seq<Item>, k: int)
    requires AllBelow(a, k)
    ensures Below(a, k) == a && AtLeast(a, k) == []
  {
    if a != [] {
      assert forall i :: 0 <= i < |a| - 1 ==> a[1..][i] == a[i + 1];
      FilterBelow(a[1..], k);
    }
  }

  lemma {:induction false} FilterAbove(a: seq<Item>, k: int)
    requires AllAbove(a, k - 1)
    ensures AtLeast(a, k) == a && Below(a, k) == []
  {
    if a != [] {
      assert forall i :: 0 <= i < |a| - 1 ==> a[1..][i] == a[i + 1];
      FilterAbove(a[1..], k);
    }
  }

  lemma FilterOne(n: Item, k: int)
    ensures Below([n], k) == (if n.key < k then [n] else []) && AtLeast([n], k) == (if n.key >= k then [n] else [])
    ensures Total([n]) == n.val
  {
    assert [n][1..] == [];
  }

  /** The filters of a sorted sequence around one of its items. */
  lemma FilterAround(a: seq<Item>, n: Item, b: seq<Item>, k: int)
    ensures Below(a + [n] + b, k) == Below(a, k) + Below([n], k) + Below(b, k)
    ensures AtLeast(a + [n] + b, k) == AtLeast(a, k) + AtLeast([n], k) + AtLeast(b, k)
  {
    FilterConcat(a + [n], b, k);
    FilterConcat(a, [n], k);
  }

  lemma {:induction false} TotalConcat(a: seq<Item>, b: seq<Item>)
    ensures Total(a + b) == Total(a) + Total(b)
  {
    if a == [] {
      assert a + b == b;
    } else {
      TotalConcat(a[1..], b);
      assert (a + b)[1..] == a[1..] + b;
    }
  }

  lemma SortedParts(a: seq<Item>, n: Item, b: seq<Item>)
    ensures Sorted(a + [n] + b) <==> Sorted(a) && Sorted(b) && AllBelow(a, n.key) && AllAbove(b, n.key)
  {
    var s := a + [n] + b;
    assert forall i :: 0 <= i < |a| ==> a[i] == s[i];
    assert forall i :: 0 <= i < |b| ==> b[i] == s[|a| + 1 + i];
    assert s[|a|] == n;
  }

  lemma SplitBeyond(a: seq<Item>, n: Item, b: seq<Item>)
    requires AllBelow(a, n.key) && AllAbove(b, n.key)
    ensures Beyond(a + [n] + b, n.key) == b
  {
    var k := n.key + 1;
    FilterAround(a, n, b, k);
    FilterOne(n, k);
    FilterBelow(a, k);
    FilterAbove(b, k);
  }

  /** Around an item with key `k`, the filters give back the two sides. */
  lemma SplitAt(a: seq<Item>, n: Item, b: seq<Item>)
    requires AllBelow(a, n.key) && AllAbove(b, n.key)
    ensures var s := a + [n] + b; Below(s, n.key) == a && Beyond(s, n.key) == b && AtLeast(s, n.key) == [n] + b
  {
    SplitBeyond(a, n, b);
    FilterAround(a, n, b, n.key);
    FilterOne(n, n.key);
    FilterBelow(a, n.key);
    FilterAbove(b, n.key);
  }

  lemma SplitBetween(a: seq<Item>, b: seq<Item>, k: int)
    requires AllBelow(a, k) && AllAbove(b, k)
    ensures Below(a + b, k) == a && Beyond(a + b, k) == b && AtLeast(a + b, k) == b
  {
    FilterConcat(a, b, k);
    FilterConcat(a, b, k + 1);
    FilterBelow(a, k);
    FilterBelow(a, k + 1);
    FilterAbove(b, k);
    FilterAbove(b, k + 1);
  }

  lemma {:induction false} SumTotal(t: Tree)
    ensures Sum(t) == Total(Items(t)) && Size(t) == |Items(t)|
  {
    if t.Fork? {
      SumTotal(t.left);
      SumTotal(t.right);
      var m := Item(t.node.key, t.node.val);
      TotalConcat(Items(t.left) + [m], Items(t.right));
      TotalConcat(Items(t.left), [m]);
      assert [m][1..] == [];
    }
  }

  /** `getDistance_`: the total of the items at or after `k`, read off the stored subtree sums. */
  function GetDistance(x: Node?, k: int, ghost t: Tree, ghost parent: Node?): (d: int)
    requires Linked(t, x, parent) && Summed(t) && Sorted(Items(t))
    reads Nodes(t)
    ensures d == Total(AtLeast(Items(t), k))
    decreases t
  {
    if x == null then 0
    else
      LinkedRoot(t.left, x.left, x);
      SubtreeSum(t.left, x.left, x);
      SortedParts(Items(t.left), Item(t.node.key, t.node.val), Items(t.right));
      DistanceParts(t, k);
      if k > x.key then GetDistance(x.right, k, t.right, x)
      else
        var own := if x.left != null then x.sum - x.left.sum else x.sum;
        if k == x.key then own else GetDistance(x.left, k, t.left, x) + own
  }

  lemma DistanceParts(t: Tree, k: int)
    requires t.Fork? && Sorted(Items(t))
    ensures k > t.node.key ==> AtLeast(Items(t), k) == AtLeast(Items(t.right), k)
    ensures k == t.node.key ==> Total(AtLeast(Items(t), k)) == Sum(t) - Sum(t.left)
    ensures k < t.node.key ==>
              Total(AtLeast(Items(t), k)) == Total(AtLeast(Items(t.left), k)) + Sum(t) - Sum(t.left)
  {
    var m, a, b := Item(t.node.key, t.node.val), Items(t.left), Items(t.right);
    SortedParts(a, m, b);
    FilterAround(a, m, b, k);
    FilterOne(m, k);
    SumTotal(t.right);
    if k >= m.key {
      FilterBelow(a, k);
    }
    if k <= m.key {
      FilterAbove(b, k);
      TotalConcat(AtLeast(a, k) + [m], b);
      TotalConcat(AtLeast(a, k), [m]);
    }
  }

  lemma RotationApart(t: Tree)
    requires t.Fork? && Apart(t)
    ensures t.left.Fork? ==> Apart(RotateRight(t)) && Nodes(RotateRight(t)) == Nodes(t)
    ensures t.right.Fork? ==> Apart(RotateLeft(t)) && Nodes(RotateLeft(t)) == Nodes(t)
  {
    if t.left.Fork? {
      assert Apart(Fork(t.left.right, t.node, t.right));
    }
    if t.right.Fork? {
      assert Apart(Fork(t.left, t.node, t.right.left));
    }
  }

  lemma SubtreeSum(t: Tree, p: Node?, parent: Node?)
    requires Linked(t, p, parent) && Summed(t)
    ensures SumOf(p) == Sum(t) && SizeOf(p) == Size(t) && (p == null <==> t.Leaf?)
  {
  }

  lemma LinkedRoot(t: Tree, p: Node?, parent: Node?)
    requires Linked(t, p, parent)
    ensures if t.Leaf? then p == null else p == t.node && p in Nodes(t)
  {
  }

  /** Seen from one step further up, the path is shorter and the subtree larger. */
  lemma Climb(c: Path, t: Tree, x: Node?, root: Node?, fp: set<Node>)
    requires !c.Top? && Covers(fp, c, t) && Hung(c, x, root) && Linked(t, x, Above(c)) && SidesSummed(c)
    ensures Covers(fp, c.up, Plug(c, t)) && Hung(c.up, c.node, root) && Linked(Plug(c, t), c.node, Above(c.up))
    ensures SidesSummed(c.up) && Summed(if c.FromLeft? then c.right else c.left)
  {
  }

  /** The relinking of `leftRotate` below the grandparent. */
  method TurnLeft(rt: Node, ghost t: Tree, ghost parent: Node?)
    requires t.Fork? && t.right.Fork? && Apart(t) && Linked(t, rt, parent)
    modifies Nodes(t)`left, Nodes(t)`right, Nodes(t)`parent
    ensures Linked(RotateLeft(t), t.right.node, parent)
  {
    LinkedRoot(t.right, rt.right, rt);
    var pivot := rt.right;
    LinkedRoot(t.right.left, pivot.left, pivot);
    ghost var b := t.right.left;
    assert Apart(t.right) && Apart(b);
    assert Linked(b, pivot.left, pivot) && Linked(t.right.right, pivot.right, pivot);
    rt.right := pivot.left;
    if pivot.left != null {
      rt.right.parent := rt;
    }
    assert Linked(b, rt.right, rt);
    pivot.left := rt;
    pivot.parent := rt.parent;
    rt.parent := pivot;
  }

  method TurnRight(rt: Node, ghost t: Tree, ghost parent: Node?)
    requires t.Fork? && t.left.Fork? && Apart(t) && Linked(t, rt, parent)
    modifies Nodes(t)`left, Nodes(t)`right, Nodes(t)`parent
    ensures Linked(RotateRight(t), t.left.node, parent)
  {
    LinkedRoot(t.left, rt.left, rt);
    var pivot := rt.left;
    LinkedRoot(t.left.right, pivot.right, pivot);
    ghost var b := t.left.right;
    assert Apart(t.left) && Apart(b);
    assert Linked(b, pivot.right, pivot) && Linked(t.left.left, pivot.left, pivot);
    rt.left := pivot.right;
    if pivot.right != null {
      rt.left.parent := rt;
    }
    assert Linked(b, rt.left, rt);
    pivot.right := rt;
    pivot.parent := rt.parent;
    rt.parent := pivot;
  }

  /** `maintain` at a node whose subtrees are summed. */
  method MaintainFork(n: Node, ghost t: Tree, ghost parent: Node?, ghost fp: set<Node>)
    requires Nodes(t) <= fp && t.Fork? && Apart(t) && Linked(t, n, parent) && Summed(t.left) && Summed(t.right)
    modifies n`sum, n`size
    ensures Summed(t)
  {
    LinkedRoot(t.left, n.left, n);
    LinkedRoot(t.right, n.right, n);
    SubtreeSum(t.left, n.left, n);
    SubtreeSum(t.right, n.right, n);
    n.Maintain();
  }

  method RefreshPair(rt: Node, pivot: Node, ghost t: Tree, ghost low: Tree, ghost parent: Node?, ghost fp: set<Node>)
    requires Nodes(t) <= fp && Apart(t) && t.Fork? && Linked(t, pivot, parent)
    requires (low == t.left && Summed(t.right)) || (low == t.right && Summed(t.left))
    requires low.Fork? && low.node == rt && Summed(low.left) && Summed(low.right)
    modifies Nodes(t)`sum, Nodes(t)`size
    ensures Summed(t)
  {
    MaintainFork(rt, low, pivot, fp);
    MaintainFork(pivot, t, parent, fp);
  }

  class Splay {
    var root: Node?
    var sum: int
    var nodeCount: int
    ghost var tree: Tree
    ghost var nodes: set<Node>

    ghost predicate Valid()
      reads this, nodes
    {
      && nodes == Nodes(tree) && At(root, Top, tree, nodes) && Sorted(Items(tree))
      && sum == Sum(tree) && nodeCount == Size(tree)
    }

    /** The contents, in ascending key order. */
    ghost function View(): seq<Item>
      reads this
    {
      Items(tree)
    }

    constructor ()
      ensures Valid() && View() == [] && nodes == {}
    {
      root, sum, nodeCount, tree, nodes := null, 0, 0, Leaf, {};
    }

    /** The part of a rotation that replaces `rt` by the pivot below the grandparent or at the root. */
    method Rehang(rt: Node, pivot: Node, grandPa: Node?, ghost c: Path, ghost t: Tree)
      requires Hung(c, rt, root) && grandPa == Above(c) && PathApart(c) && rt !in PathNodes(c)
      modifies this`root, PathNodes(c)`left, PathNodes(c)`right
      ensures Hung(c, pivot, root)
    {
      if grandPa == null {
        root := pivot;
      } else if grandPa.right == rt {
        if c.FromLeft? { LinkedRoot(c.right, grandPa.right, grandPa); }
        grandPa.right := pivot;
      } else {
        grandPa.left := pivot;
      }
    }

    /** The `maintain` of the grandparent: whatever it stores, the rest stays intact. */
    method MaintainAbove(n: Node, ghost c: Path, ghost p: Node, ghost t: Tree, ghost fp: set<Node>)
      requires Covers(fp, c, t) && !c.Top? && n == c.node && p in Nodes(t)
      requires Hung(c, p, root) && SidesSummed(c) && Summed(t)
      modifies n`sum, n`size
      ensures SidesSummed(c) && Summed(t)
    {
      if c.FromLeft? {
        LinkedRoot(c.right, n.right, n);
      } else {
        LinkedRoot(c.left, n.left, n);
      }
      n.Maintain();
    }

    method RelinkLeft(rt: Node, ghost c: Path, ghost t: Tree, ghost fp: set<Node>) returns (pivot: Node)
      requires Covers(fp, c, t) && t.Fork? && t.right.Fork? && Hung(c, rt, root) && Linked(t, rt, Above(c))
      modifies this`root, fp`left, fp`right, fp`parent
      ensures pivot == t.right.node && Hung(c, pivot, root) && Linked(RotateLeft(t), pivot, Above(c))
    {
      RotationApart(t);
      LinkedRoot(t.right, rt.right, rt);
      pivot := rt.right;
      var grandPa := rt.parent;
      TurnLeft(rt, t, Above(c));
      Rehang(rt, pivot, grandPa, c, t);
    }

    method RelinkRight(rt: Node, ghost c: Path, ghost t: Tree, ghost fp: set<Node>) returns (pivot: Node)
      requires Covers(fp, c, t) && t.Fork? && t.left.Fork? && Hung(c, rt, root) && Linked(t, rt, Above(c))
      modifies this`root, fp`left, fp`right, fp`parent
      ensures pivot == t.left.node && Hung(c, pivot, root) && Linked(RotateRight(t), pivot, Above(c))
    {
      RotationApart(t);
      LinkedRoot(t.left, rt.left, rt);
      pivot := rt.left;
      var grandPa := rt.parent;
      TurnRight(rt, t, Above(c));
      Rehang(rt, pivot, grandPa, c, t);
    }

    /** The `maintain` calls of a rotation: first the node that went down, then the pivot, then the grandparent. */
    method Refresh(rt: Node, pivot: Node, ghost c: Path, ghost t: Tree, ghost low: Tree, ghost fp: set<Node>)
      requires Covers(fp, c, t) && t.Fork? && Hung(c, pivot, root) && Linked(t, pivot, Above(c)) && SidesSummed(c)
      requires (low == t.left && Summed(t.right)) || (low == t.right && Summed(t.left))
      requires low.Fork? && low.node == rt && Summed(low.left) && Summed(low.right)
      modifies fp`sum, fp`size
      ensures SidesSummed(c) && Summed(t)
    {
      RefreshPair(rt, pivot, t, low, Above(c), fp);
      if pivot.parent != null {
        MaintainAbove(pivot.parent, c, pivot, t, fp);
      }
    }

    /** `leftRotate`: the pivot takes the place of `rt`; sums are refreshed at no more than three nodes. */
    method LeftRotate(rt: Node, ghost c: Path, ghost t: Tree, ghost fp: set<Node>) returns (pivot: Node)
      requires Covers(fp, c, t) && t.Fork? && t.right.Fork?
      requires Hung(c, rt, root) && Linked(t, rt, Above(c)) && SidesSummed(c)
      requires Summed(t.left) && Summed(t.right.left) && Summed(t.right.right)
      modifies this`root, fp
      ensures pivot == t.right.node && Covers(fp, c, RotateLeft(t))
      ensures Hung(c, pivot, root) && Linked(RotateLeft(t), pivot, Above(c))
      ensures SidesSummed(c) && Summed(RotateLeft(t))
    {
      hide Linked, Hung, SidesSummed, Summed, Apart, PathApart;
      LinkedRoot(t, rt, Above(c));
      RotationApart(t);
      pivot := RelinkLeft(rt, c, t, fp);
      Refresh(rt, pivot, c, RotateLeft(t), RotateLeft(t).left, fp);
    }

    /** `rightRotate`. */
    method RightRotate(rt: Node, ghost c: Path, ghost t: Tree, ghost fp: set<Node>) returns (pivot: Node)
      requires Covers(fp, c, t) && t.Fork? && t.left.Fork?
      requires Hung(c, rt, root) && Linked(t, rt, Above(c)) && SidesSummed(c)
      requires Summed(t.left.left) && Summed(t.left.right) && Summed(t.right)
      modifies this`root, fp
      ensures pivot == t.left.node && Covers(fp, c, RotateRight(t))
      ensures Hung(c, pivot, root) && Linked(RotateRight(t), pivot, Above(c))
      ensures SidesSummed(c) && Summed(RotateRight(t))
    {
      hide Linked, Hung, SidesSummed, Summed, Apart, PathApart;
      LinkedRoot(t, rt, Above(c));
      RotationApart(t);
      pivot := RelinkRight(rt, c, t, fp);
      Refresh(rt, pivot, c, RotateRight(t), RotateRight(t).right, fp);
    }

    /** The state of the splay loop: `x` is the root of the summed subtree `t` below the path `c`. */
    ghost predicate At(x: Node?, c: Path, t: Tree, fp: set<Node>)
      reads this`root, PathNodes(c), Nodes(t)
    {
      && Covers(fp, c, t) && Hung(c, x, root) && Linked(t, x, Above(c))
      && SidesSummed(c) && Summed(t)
    }

    method ZigLeft(x: Node, ghost c: Path, ghost t: Tree, ghost fp: set<Node>)
      requires At(x, c, t, fp) && t.Fork? && c.FromLeft? && c.up.Top?
      modifies this`root, fp
      ensures At(x, Top, RotateRight(Plug(c, t)), fp)
    {
      var p := RightRotate(x.parent, c.up, Plug(c, t), fp);
    }

    method ZigRight(x: Node, ghost c: Path, ghost t: Tree, ghost fp: set<Node>)
      requires At(x, c, t, fp) && t.Fork? && c.FromRight? && c.up.Top?
      modifies this`root, fp
      ensures At(x, Top, RotateLeft(Plug(c, t)), fp)
    {
      var p := LeftRotate(x.parent, c.up, Plug(c, t), fp);
    }

    method ZigZigLeft(x: Node, ghost c: Path, ghost t: Tree, ghost fp: set<Node>)
      requires At(x, c, t, fp) && t.Fork? && c.FromLeft? && c.up.FromLeft?
      modifies this`root, fp
      ensures At(x, c.up.up, RotateRight(RotateRight(Plug(c.up, Plug(c, t)))), fp)
    {
      ghost var u := Plug(c.up, Plug(c, t));
      Climb(c, t, x, root, fp);
      Climb(c.up, Plug(c, t), x.parent, root, fp);
      var p := RightRotate(x.parent.parent, c.up.up, u, fp);
      var y := RightRotate(x.parent, c.up.up, RotateRight(u), fp);
    }

    method ZigZagLeft(x: Node, ghost c: Path, ghost t: Tree, ghost fp: set<Node>)
      requires At(x, c, t, fp) && t.Fork? && c.FromLeft? && c.up.FromRight?
      modifies this`root, fp
      ensures At(x, c.up.up, RotateLeft(Plug(c.up, RotateRight(Plug(c, t)))), fp)
    {
      hide Hung, SidesSummed, Apart, PathApart;
      ghost var u := Plug(c, t);
      Climb(c, t, x, root, fp);
      var y := RightRotate(x.parent, c.up, u, fp);
      Climb(c.up, RotateRight(u), x, root, fp);
      var z := LeftRotate(x.parent, c.up.up, Plug(c.up, RotateRight(u)), fp);
    }

    method ZigZigRight(x: Node, ghost c: Path, ghost t: Tree, ghost fp: set<Node>)
      requires At(x, c, t, fp) && t.Fork? && c.FromRight? && c.up.FromRight?
      modifies this`root, fp
      ensures At(x, c.up.up, RotateLeft(RotateLeft(Plug(c.up, Plug(c, t)))), fp)
    {
      ghost var u := Plug(c.up, Plug(c, t));
      Climb(c, t, x, root, fp);
      Climb(c.up, Plug(c, t), x.parent, root, fp);
      var p := LeftRotate(x.parent.parent, c.up.up, u, fp);
      var y := LeftRotate(x.parent, c.up.up, RotateLeft(u), fp);
    }

    method ZigZagRight(x: Node, ghost c: Path, ghost t: Tree, ghost fp: set<Node>)
      requires At(x, c, t, fp) && t.Fork? && c.FromRight? && c.up.FromLeft?
      modifies this`root, fp
      ensures At(x, c.up.up, RotateRight(Plug(c.up, RotateLeft(Plug(c, t)))), fp)
    {
      hide Hung, SidesSummed, Apart, PathApart;
      ghost var u := Plug(c, t);
      Climb(c, t, x, root, fp);
      var y := LeftRotate(x.parent, c.up, u, fp);
      Climb(c.up, RotateLeft(u), x, root, fp);
      var z := RightRotate(x.parent, c.up.up, Plug(c.up, RotateLeft(u)), fp);
    }

    /** One round of the loop of `splay`. */
    method Step(x: Node, ghost c: Path, ghost t: Tree, ghost fp: set<Node>)
      requires At(x, c, t, fp) && t.Fork? && !c.Top?
      modifies this`root, fp
      ensures At(x, SplayRest(c), SplayStep(c, t), fp)
    {
      Climb(c, t, x, root, fp);
      Side(c, t, x, root, fp);
      if !c.up.Top? {
        Side(c.up, Plug(c, t), c.node, root, fp);
      }
      var p := x.parent;
      if p.parent == null {
        if x == p.left {
          ZigLeft(x, c, t, fp);
        } else {
          ZigRight(x, c, t, fp);
        }
      } else if x == p.left && p == p.parent.left {
        ZigZigLeft(x, c, t, fp);
      } else if x == p.right && p == p.parent.right {
        ZigZigRight(x, c, t, fp);
      } else if x == p.left && p == p.parent.right {
        ZigZagLeft(x, c, t, fp);
      } else {
        ZigZagRight(x, c, t, fp);
      }
    }

    /** `splay`: afterwards `x` is the root and all sums and sizes of the tree are exact. */
    method SplayNode(x: Node, ghost c: Path, ghost t: Tree, ghost fp: set<Node>) returns (ghost rounds: nat)
      requires At(x, c, t, fp) && t.Fork?
      modifies this`root, fp
      ensures At(x, Top, SplayUp(c, t), fp) && rounds == Rounds(c)
    {
      rounds := 0;
      ghost var d, u := c, t;
      while x.parent != null
        invariant rounds + Rounds(d) == Rounds(c)
        invariant u.Fork? && At(x, d, u, fp) && SplayUp(d, u) == SplayUp(c, t)
        decreases Depth(d)
      {
        SplayUnfolds(d, u);
        Step(x, d, u, fp);
        d, u, rounds := SplayRest(d), SplayStep(d, u), rounds + 1;
      }
    }

    /** The state of a search for `k`: the subtree `t` at `p` is all that can still hold it. */
    ghost predicate Searching(k: int, p: Node?, c: Path, t: Tree, fp: set<Node>)
      reads this`root, PathNodes(c), Nodes(t)
    {
      At(p, c, t, fp) && Sorted(Items(t)) && AllBelow(PathLeft(c), k) && AllAbove(PathRight(c), k)
    }

    lemma AtLeft(x: Node, c: Path, t: Tree, fp: set<Node>)
      requires At(x, c, t, fp) && t.Fork?
      ensures x == t.node && At(x.left, FromLeft(c, t.node, t.right), t.left, fp) && (x.left == null <==> t.left.Leaf?)
    {
      LinkedRoot(t.left, x.left, x);
    }

    lemma AtRight(x: Node, c: Path, t: Tree, fp: set<Node>)
      requires At(x, c, t, fp) && t.Fork?
      ensures x == t.node && At(x.right, FromRight(c, t.node, t.left), t.right, fp) && (x.right == null <==> t.right.Leaf?)
    {
      LinkedRoot(t.right, x.right, x);
    }

    lemma DescendStart(k: int)
      requires Valid()
      ensures Flat(Top, tree) == Items(tree) && AllBelow(PathLeft(Top), k) && AllAbove(PathRight(Top), k)
      ensures root == null <==> tree.Leaf?
    {
    }

    /** The descent shared by `find_` and `insert`: to the node with the key, or to the empty place for it. */
    method Descend(k: int) returns (p: Node?, prev: Node?, ghost c: Path, ghost t: Tree)
      requires Valid()
      ensures Searching(k, p, c, t, nodes) && Flat(c, t) == Items(tree) && prev == Above(c)
      ensures if p == null then t.Leaf? else t.Fork? && p.key == k
    {
      hide At, Items, Flat, Sorted, AllBelow, AllAbove, Summed, Linked;
      DescendStart(k);
      p, prev, c, t := root, null, Top, tree;
      while p != null && p.key != k
        invariant Searching(k, p, c, t, nodes) && Flat(c, t) == Items(tree) && prev == Above(c)
        invariant p == null <==> t.Leaf?
        decreases t
      {
        prev := p;
        if k < p.key {
          AtLeft(p, c, t, nodes);
          DescendLeft(k, c, t);
          p, c, t := p.left, FromLeft(c, t.node, t.right), t.left;
        } else {
          AtRight(p, c, t, nodes);
          DescendRight(k, c, t);
          p, c, t := p.right, FromRight(c, t.node, t.left), t.right;
        }
      }
    }

    /** Splay the node that a search has found. */
    method Raise(n: Node, ghost c: Path, ghost t: Tree)
      requires Valid() && At(n, c, t, nodes) && t.Fork? && Flat(c, t) == Items(tree)
      modifies this`root, this`tree, nodes
      ensures Valid() && View() == old(View()) && n == root && tree.Fork? && tree.node == n
    {
      hide Items, Sorted, Flat, SplayUp, Total, Sum, Size;
      ghost var rounds := SplayNode(n, c, t, nodes);
      SplayItems(c, t);
      SumTotal(tree);
      tree := SplayUp(c, t);
      SumTotal(tree);
    }

    /** `find_`: the node with the key, now at the root, or null. */
    method Find(k: int) returns (n: Node?)
      requires Valid()
      modifies this`root, this`tree, nodes
      ensures Valid() && View() == old(View())
      ensures n != null ==> n == root && tree.Fork? && tree.node == n && n.key == k
      ensures n == null ==> View() == Below(View(), k) + Beyond(View(), k)
    {
      hide Valid, At, Items, Linked, Sorted, PathLeft, PathRight, AllBelow, AllAbove, Below, AtLeast;
      var prev;
      ghost var c, t;
      n, prev, c, t := Descend(k);
      if n != null {
        Raise(n, c, t);
      } else {
        MissingSplits(k, c);
      }
    }

    lemma NewLeaf(n: Node)
      requires n.left == null && n.right == null && n.sum == n.val && n.size == 1
      ensures var t := Fork(Leaf, n, Leaf); Nodes(t) == {n} && Apart(t) && Summed(t) && Linked(t, n, n.parent)
    {
    }

    /** Hanging a new leaf below `prev`; the sums above it are now stale. */
    method Attach(n: Node, prev: Node?, ghost c: Path, ghost fp: set<Node>)
      requires Searching(n.key, null, c, Leaf, fp) && prev == Above(c) && n !in fp
      requires n.left == null && n.right == null && n.sum == n.val && n.size == 1
      modifies this`root, fp, n
      ensures At(n, c, Fork(Leaf, n, Leaf), fp + {n})
    {
      hide Sorted, AllBelow, AllAbove;
      PathSide(n.key, c);
      if prev == null {
        root := n;
      } else if n.key < prev.key {
        prev.left := n;
      } else {
        prev.right := n;
      }
      n.parent := prev;
      NewLeaf(n);
    }

    /** Attach the new leaf and splay it. */
    method Graft(n: Node, prev: Node?, ghost c: Path, ghost fp: set<Node>)
      requires Searching(n.key, null, c, Leaf, fp) && prev == Above(c) && n !in fp
      requires n.left == null && n.right == null && n.sum == n.val && n.size == 1
      modifies this`root, fp, n
      ensures At(n, Top, SplayUp(c, Fork(Leaf, n, Leaf)), fp + {n})
    {
      Attach(n, prev, c, fp);
      ghost var rounds := SplayNode(n, c, Fork(Leaf, n, Leaf), fp + {n});
    }

    /** The search of `insert` when the key is absent. */
    method FindPlace(k: int) returns (prev: Node?, ghost c: Path)
      requires Valid() && View() == Below(View(), k) + Beyond(View(), k)
      ensures Searching(k, null, c, Leaf, nodes) && prev == Above(c)
      ensures PathLeft(c) == Below(View(), k) && PathRight(c) == Beyond(View(), k)
    {
      var p;
      ghost var t;
      p, prev, c, t := Descend(k);
      FoundSplits(k, c, t);
      MissingSplits(k, c);
    }

    /** `insert` of a key that is not in the tree. */
    method Insert(k: int, v: int)
      requires Valid() && View() == Below(View(), k) + Beyond(View(), k)
      modifies this, nodes
      ensures Valid() && fresh(nodes - old(nodes))
      ensures View() == Below(old(View()), k) + [Item(k, v)] + Beyond(old(View()), k)
    {
      var n := new Node(k, v);
      ghost var u := Grow(n);
      Keep(u, nodes + {n}, sum + v, nodeCount + 1);
    }

    method Grow(n: Node) returns (ghost u: Tree)
      requires Valid() && View() == Below(View(), n.key) + Beyond(View(), n.key) && n !in nodes
      requires n.left == null && n.right == null && n.sum == n.val && n.size == 1
      modifies this`root, nodes, n
      ensures At(root, Top, u, nodes + {n}) && Sorted(Items(u)) && Sum(u) == Sum(tree) + n.val && Size(u) == Size(tree) + 1
      ensures Items(u) == Below(View(), n.key) + [Item(n.key, n.val)] + Beyond(View(), n.key)
    {
      var prev, c := FindPlace(n.key);
      u := Grown(tree, c, n);
      Graft(n, prev, c, nodes);
    }

    /** Record the tree that the pointers now spell out. */
    method Keep(ghost t: Tree, ghost fp: set<Node>, total: int, count: int)
      requires At(root, Top, t, fp) && Sorted(Items(t)) && total == Sum(t) && count == Size(t)
      modifies this`sum, this`nodeCount, this`tree, this`nodes
      ensures Valid() && tree == t && nodes == fp
    {
      sum, nodeCount, tree, nodes := total, count, t, fp;
    }

    /** `remove` when one side of the root is empty: the other side becomes the tree. */
    method PromoteChild(child: Node, ghost t: Tree, ghost parent: Node, ghost fp: set<Node>)
      requires t.Fork? && Apart(t) && fp == Nodes(t) && Linked(t, child, parent) && Summed(t)
      modifies this`root, child`parent
      ensures At(root, Top, t, fp)
    {
      root := child;
      child.parent := null;
    }

    /** `subtreeMin` below the right child of the root: the successor of the root. */
    method Successor(n: Node) returns (x: Node, ghost c: Path, ghost t: Tree)
      requires At(root, Top, tree, nodes) && tree.Fork? && root == n && tree.right.Fork?
      ensures At(x, c, t, nodes) && t.Fork? && t.left.Leaf? && ToSuccessor(c, tree.node, tree.left)
      ensures Flat(c, t) == Items(tree)
    {
      LinkedRoot(tree.right, n.right, n);
      x, c, t := n.right, FromRight(Top, tree.node, tree.left), tree.right;
      PlugItems(c, t);
      while x.left != null
        invariant t.Fork? && At(x, c, t, nodes) && ToSuccessor(c, tree.node, tree.left)
        invariant Flat(c, t) == Items(tree)
        decreases t
      {
        AtLeft(x, c, t, nodes);
        PlugItems(FromLeft(c, t.node, t.right), t.left);
        x, c, t := x.left, FromLeft(c, t.node, t.right), t.left;
      }
      LinkedRoot(t.left, x.left, x);
    }

    /** `remove` when the root has two children: splay the successor, then cut the old root out below it. */
    method CutRoot(n: Node) returns (ghost v: Tree)
      requires At(root, Top, tree, nodes) && tree.Fork? && root == n && tree.left.Fork? && tree.right.Fork?
      modifies this`root, nodes
      ensures At(root, Top, v, Nodes(v)) && Nodes(v) <= nodes && Items(v) == Items(tree.left) + Items(tree.right)
    {
      var x, c, t := Successor(n);
      ghost var u := SplayUp(c, t);
      SuccessorSplayed(c, t, tree.node, tree.left);
      SplayItems(c, t);
      ghost var rounds := SplayNode(x, c, t, nodes);
      CutItems(tree, u);
      Bypass(root, u, nodes);
      v := Fork(u.left.left, u.node, u.right);
    }

    /** `remove`, for a node that `find_` has just brought to the root. */
    method RemoveRoot(n: Node)
      requires Valid() && tree.Fork? && root == n
      modifies this, nodes
      ensures Valid() && nodes <= old(nodes)
      ensures View() == Items(old(tree.left)) + Items(old(tree.right))
    {
      hide Items, Sorted, PathNodes, PathApart, Sum;
      var count, total := nodeCount - 1, sum - n.val;
      ghost var a, b, v := tree.left, tree.right, Leaf;
      LinkedRoot(a, n.left, n);
      LinkedRoot(b, n.right, n);
      EmptySide(a, b);
      if count == 0 {
        assert Size(a) == 0 && Size(b) == 0;
        root := null;
      } else if n.left == null {
        PromoteChild(n.right, b, n, Nodes(b));
        v := b;
      } else if n.right == null {
        PromoteChild(n.left, a, n, Nodes(a));
        MaintainFork(root, a, null, Nodes(a));
        v := a;
      } else {
        v := CutRoot(n);
      }
      RemovedItems(tree, v);
      Keep(v, Nodes(v), total, count);
    }

    /** `erase` by key. */
    method Erase(k: int)
      requires Valid()
      modifies this, nodes
      ensures Valid() && nodes <= old(nodes)
      ensures View() == Below(old(View()), k) + Beyond(old(View()), k)
    {
      var n := Find(k);
      if n != null {
        RootSplits(tree);
        RemoveRoot(n);
      }
    }

    /** `getDistance`. */
    method Distance(k: int) returns (d: int)
      requires Valid()
      ensures d == Total(AtLeast(View(), k))
    {
      d := GetDistance(root, k, tree, null);
    }
  }

  lemma RootSplits(t: Tree)
    requires t.Fork? && Sorted(Items(t))
    ensures Below(Items(t), t.node.key) == Items(t.left) && Beyond(Items(t), t.node.key) == Items(t.right)
  {
    var m := Item(t.node.key, t.node.val);
    SortedParts(Items(t.left), m, Items(t.right));
    SplitAt(Items(t.left), m, Items(t.right));
  }

  lemma EmptySide(a: Tree, b: Tree)
    ensures a.Leaf? ==> Items(b) == Items(a) + Items(b)
    ensures b.Leaf? ==> Items(a) == Items(a) + Items(b)
  {
  }

  lemma RemovedItems(t: Tree, v: Tree)
    requires t.Fork? && Sorted(Items(t)) && Items(v) == Items(t.left) + Items(t.right)
    ensures Sorted(Items(v)) && Sum(v) == Sum(t) - t.node.val && Size(v) == Size(t) - 1
  {
    var a, b, m := Items(t.left), Items(t.right), Item(t.node.key, t.node.val);
    SortedParts(a, m, b);
    SortedJoin(a, m, b);
    InsertedTotal(a, m, b);
    SumTotal(t);
    SumTotal(v);
  }

  lemma SortedJoin(a: seq<Item>, m: Item, b: seq<Item>)
    requires Sorted(a) && Sorted(b) && AllBelow(a, m.key) && AllAbove(b, m.key)
    ensures Sorted(a + b)
  {
  }

  lemma BypassApart(u: Tree)
    requires Apart(u) && u.Fork? && u.left.Fork?
    ensures var v := Fork(u.left.left, u.node, u.right); Apart(v) && Nodes(v) <= Nodes(u)
  {
    assert Apart(u.left);
  }

  /** The pointers of the cut: the left child of the root goes and its left subtree moves up. */
  method Unhook(r: Node, ghost u: Tree)
    requires Linked(u, r, null) && Apart(u) && u.Fork? && u.left.Fork? && u.left.left.Fork?
    modifies Nodes(u)`left, Nodes(u)`parent
    ensures Linked(Fork(u.left.left, u.node, u.right), r, null)
  {
    ghost var a := u.left.left;
    LinkedRoot(u.left, r.left, r);
    LinkedRoot(a, r.left.left, r.left);
    assert Apart(u.left) && Apart(a);
    assert Linked(a, r.left.left, r.left) && Linked(u.right, r.right, r);
    r.left := r.left.left;
    r.left.parent := r;
    assert Linked(a, r.left, r);
  }

  /** The left child of the root is cut out, and the sum of the root is refreshed. */
  method Bypass(r: Node, ghost u: Tree, ghost fp: set<Node>)
    requires Nodes(u) == fp && Linked(u, r, null) && Summed(u) && Apart(u)
    requires u.Fork? && u.left.Fork? && u.left.left.Fork?
    modifies fp
    ensures var v := Fork(u.left.left, u.node, u.right);
            Linked(v, r, null) && Summed(v) && Apart(v) && Nodes(v) <= fp
  {
    ghost var v := Fork(u.left.left, u.node, u.right);
    BypassApart(u);
    assert Summed(u.left);
    Unhook(r, u);
    MaintainFork(r, v, null, fp);
  }

  lemma CutItems(t: Tree, u: Tree)
    requires t.Fork? && u.Fork? && u.left == Fork(t.left, t.node, Leaf) && Items(u) == Items(t)
    ensures Items(Fork(t.left, u.node, u.right)) == Items(t.left) + Items(t.right)
  {
    var a, m, x := Items(t.left), Item(t.node.key, t.node.val), Item(u.node.key, u.node.val);
    assert Items(u.left) == a + [m] + [];
    CancelPrefix(a, m, Items(t.right), x, Items(u.right));
  }

  lemma CancelPrefix<T>(a: seq<T>, m: T, b: seq<T>, x: T, c: seq<T>)
    requires a + [m] + b == (a + [m] + []) + [x] + c
    ensures a + [x] + c == a + b
  {
    assert b == (a + [m] + b)[|a| + 1..];
    assert [x] + c == ((a + [m] + []) + [x] + c)[|a| + 1..];
  }

  /** The tree that `insert` builds. */
  lemma Grown(t: Tree, c: Path, n: Node) returns (u: Tree)
    requires AllBelow(PathLeft(c), n.key) && AllAbove(PathRight(c), n.key)
    requires Items(t) == PathLeft(c) + PathRight(c) && Sorted(Items(t))
    ensures u == SplayUp(c, Fork(Leaf, n, Leaf)) && Items(u) == PathLeft(c) + [Item(n.key, n.val)] + PathRight(c)
    ensures Sorted(Items(u)) && Sum(u) == Sum(t) + n.val && Size(u) == Size(t) + 1
  {
    var leaf := Fork(Leaf, n, Leaf);
    u := SplayUp(c, leaf);
    SplayItems(c, leaf);
    assert Items(leaf) == [Item(n.key, n.val)];
    InsertedItems(PathLeft(c), Item(n.key, n.val), PathRight(c), t, u);
  }

  lemma PathSide(k: int, c: Path)
    requires AllBelow(PathLeft(c), k) && AllAbove(PathRight(c), k)
    ensures c.FromLeft? ==> k < c.node.key
    ensures c.FromRight? ==> k > c.node.key
  {
    if c.FromLeft? {
      assert PathRight(c)[0].key == c.node.key;
    } else if c.FromRight? {
      var s := PathLeft(c);
      assert s[|s| - 1].key == c.node.key;
    }
  }

  /** Where a search ends at an empty place, the filters give back what lies on either side. */
  lemma MissingSplits(k: int, c: Path)
    requires AllBelow(PathLeft(c), k) && AllAbove(PathRight(c), k)
    ensures var s := Flat(c, Leaf);
            s == PathLeft(c) + PathRight(c) && Below(s, k) == PathLeft(c) && Beyond(s, k) == PathRight(c)
  {
    SplitBetween(PathLeft(c), PathRight(c), k);
    assert Flat(c, Leaf) == PathLeft(c) + PathRight(c);
  }

  lemma ConcatBounds(a: seq<Item>, b: seq<Item>, k: int)
    ensures AllBelow(a + b, k) <==> AllBelow(a, k) && AllBelow(b, k)
    ensures AllAbove(a + b, k) <==> AllAbove(a, k) && AllAbove(b, k)
  {
    var s := a + b;
    assert forall i :: 0 <= i < |a| ==> a[i] == s[i];
    assert forall i :: 0 <= i < |b| ==> b[i] == s[|a| + i];
  }

  /** Where a search ends at the key, the filters leave out exactly that item. */
  lemma FoundSplits(k: int, c: Path, t: Tree)
    requires AllBelow(PathLeft(c), k) && AllAbove(PathRight(c), k) && Sorted(Items(t))
    ensures t.Fork? && t.node.key == k ==> |Below(Flat(c, t), k)| + |Beyond(Flat(c, t), k)| + 1 == |Flat(c, t)|
  {
    if t.Fork? && t.node.key == k {
      var m := Item(t.node.key, t.node.val);
      SortedParts(Items(t.left), m, Items(t.right));
      var a, b := PathLeft(c) + Items(t.left), Items(t.right) + PathRight(c);
      ConcatBounds(PathLeft(c), Items(t.left), k);
      ConcatBounds(Items(t.right), PathRight(c), k);
      SplitAt(a, m, b);
      FlatFork(PathLeft(c), Items(t.left), m, Items(t.right), PathRight(c));
    }
  }

  lemma FlatFork<T>(l: seq<T>, a: seq<T>, m: T, b: seq<T>, r: seq<T>)
    ensures l + (a + [m] + b) + r == (l + a) + [m] + (b + r)
  {
  }

  lemma InsertedSorted(a: seq<Item>, m: Item, b: seq<Item>)
    requires AllBelow(a, m.key) && AllAbove(b, m.key) && Sorted(a + b)
    ensures Sorted(a + [m] + b)
  {
    var s := a + b;
    assert forall i :: 0 <= i < |a| ==> a[i] == s[i];
    assert forall i :: 0 <= i < |b| ==> b[i] == s[|a| + i];
    SortedParts(a, m, b);
  }

  lemma InsertedTotal(a: seq<Item>, m: Item, b: seq<Item>)
    ensures Total(a + [m] + b) == Total(a + b) + m.val
  {
    TotalConcat(a + [m], b);
    TotalConcat(a, [m]);
    TotalConcat(a, b);
    FilterOne(m, 0);
  }

  lemma InsertedItems(a: seq<Item>, m: Item, b: seq<Item>, before: Tree, after: Tree)
    requires AllBelow(a, m.key) && AllAbove(b, m.key)
    requires Items(before) == a + b && Sorted(a + b) && Items(after) == a + [m] + b
    ensures Sorted(Items(after)) && Sum(after) == Sum(before) + m.val && Size(after) == Size(before) + 1
  {
    InsertedSorted(a, m, b);
    InsertedTotal(a, m, b);
    SumTotal(before);
    SumTotal(after);
  }

  lemma DescendLeft(k: int, c: Path, t: Tree)
    requires t.Fork? && k < t.node.key && Sorted(Items(t)) && AllBelow(PathLeft(c), k) && AllAbove(PathRight(c), k)
    ensures var d := FromLeft(c, t.node, t.right);
            && Flat(d, t.left) == Flat(c, t) && Sorted(Items(t.left))
            && AllBelow(PathLeft(d), k) && AllAbove(PathRight(d), k)
  {
    var d := FromLeft(c, t.node, t.right);
    PlugItems(d, t.left);
    SortedParts(Items(t.left), Item(t.node.key, t.node.val), Items(t.right));
  }

  lemma DescendRight(k: int, c: Path, t: Tree)
    requires t.Fork? && k > t.node.key && Sorted(Items(t)) && AllBelow(PathLeft(c), k) && AllAbove(PathRight(c), k)
    ensures var d := FromRight(c, t.node, t.left);
            && Flat(d, t.right) == Flat(c, t) && Sorted(Items(t.right))
            && AllBelow(PathLeft(d), k) && AllAbove(PathRight(d), k)
  {
    var d := FromRight(c, t.node, t.left);
    PlugItems(d, t.right);
    SortedParts(Items(t.left), Item(t.node.key, t.node.val), Items(t.right));
  }

  /** Which child of its parent a node is. */
  lemma Side(c: Path, t: Tree, x: Node, root: Node?, fp: set<Node>)
    requires !c.Top? && t.Fork? && Covers(fp, c, t) && Hung(c, x, root) && Linked(t, x, Above(c))
    ensures x.parent == c.node && (x == c.node.left <==> c.FromLeft?) && (x == c.node.right <==> c.FromRight?)
  {
    if c.FromLeft? {
      LinkedRoot(c.right, c.node.right, c.node);
    } else {
      LinkedRoot(c.left, c.node.left, c.node);
    }
  }
}
