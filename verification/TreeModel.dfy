/**
 Flattening decision trees for the S4FIFO model file: the exporter compiles each tree into an array
 of internal nodes and an array of leaves, and the evaluator runs on these arrays.
 */
module TreeModel {

  datatype Tree =
    | Leaf(value: real)
    | Split(decision: string, feature: int, threshold: real, left: Tree, right: Tree)

  datatype Node = Node(feature: int, left: int, right: int, threshold: real)

  type Input = int -> real

  // ---------- the trees ----------

  /** The value a tree gives to an input. */
  function Eval(t: Tree, input: Input): real {
    match t
    case Leaf(v) => v
    case Split(_, f, thr, l, r) => if input(f) <= thr then Eval(l, input) else Eval(r, input)
  }

  /** A step down a tree. */
  datatype Side = ToLeft | ToRight

  /** The subtree that a way from the root leads to. */
  function Down(t: Tree, way: seq<Side>): Tree {
    if way == [] || t.Leaf? then t else Down(if way[0] == ToLeft then t.left else t.right, way[1..])
  }

  /** The input leaves a split to the left exactly when its feature is at most the threshold. */
  predicate Decides(t: Tree, input: Input, side: Side) {
    t.Split? && (side == ToLeft <==> input(t.feature) <= t.threshold)
  }

  /** Every decision is of the only supported kind. */
  predicate Supported(t: Tree) {
    t.Leaf? || (t.decision == "<=" && Supported(t.left) && Supported(t.right))
  }

  /** Every step of the way is the one that the input decides on, and the way ends at a leaf. */
  ghost predicate Arrives(t: Tree, way: seq<Side>, input: Input) {
    && (forall n :: 0 <= n < |way| ==> Decides(Down(t, way[..n]), input, way[n]))
    && Down(t, way).Leaf?
  }

  lemma {:induction false} WayOfInput(t: Tree, input: Input) returns (way: seq<Side>)
    ensures Arrives(t, way, input) && Down(t, way).value == Eval(t, input)
  {
    if t.Leaf? {
      way := [];
    } else {
      var side := if input(t.feature) <= t.threshold then ToLeft else ToRight;
      var s := if side == ToLeft then t.left else t.right;
      var rest := WayOfInput(s, input);
      way := [side] + rest;
      assert way[1..] == rest;
      forall n | 0 <= n < |way| ensures Decides(Down(t, way[..n]), input, way[n]) {
        if n > 0 {
          assert way[..n][1..] == rest[..n - 1];
        }
      }
    }
  }

  lemma FirstStep(t: Tree, way: seq<Side>, input: Input)
    requires Arrives(t, way, input)
    ensures way == [] <==> t.Leaf?
    ensures way != [] ==> Decides(t, input, way[0])
  {
    if way != [] {
      assert Decides(Down(t, way[..0]), input, way[0]);
    }
  }

  lemma {:induction false} OneWay(t: Tree, a: seq<Side>, b: seq<Side>, input: Input)
    requires Arrives(t, a, input) && Arrives(t, b, input)
    ensures a == b
    decreases |a|
  {
    FirstStep(t, a, input);
    FirstStep(t, b, input);
    if t.Split? {
      ArrivesBelow(t, a, input);
      ArrivesBelow(t, b, input);
      OneWay(if a[0] == ToLeft then t.left else t.right, a[1..], b[1..], input);
      assert a == [a[0]] + a[1..] && b == [b[0]] + b[1..];
    }
  }

  lemma ArrivesBelow(t: Tree, way: seq<Side>, input: Input)
    requires way != [] && t.Split? && Arrives(t, way, input)
    ensures Arrives(if way[0] == ToLeft then t.left else t.right, way[1..], input)
  {
    var s, rest := if way[0] == ToLeft then t.left else t.right, way[1..];
    forall n | 0 <= n < |rest| ensures Decides(Down(s, rest[..n]), input, rest[n]) {
      assert way[..n + 1][1..] == rest[..n];
      assert Decides(Down(t, way[..n + 1]), input, way[n + 1]);
    }
  }

  /** The value of an input is that of the one leaf to which its decisions lead. */
  lemma EvalIs(t: Tree, input: Input, v: real)
    ensures Eval(t, input) == v <==> exists way :: Arrives(t, way, input) && Down(t, way) == Leaf(v)
  {
    var w := WayOfInput(t, input);
    assert Down(t, w) == Leaf(Eval(t, input));
    forall way | Arrives(t, way, input) && Down(t, way) == Leaf(v) ensures v == Eval(t, input) {
      OneWay(t, way, w, input);
    }
  }

  lemma {:induction false} SupportedDown(t: Tree, way: seq<Side>)
    requires Supported(t) && Down(t, way).Split?
    ensures Down(t, way).decision == "<="
    decreases |way|
  {
    if way != [] {
      SupportedDown(if way[0] == ToLeft then t.left else t.right, way[1..]);
    }
  }

  lemma {:induction false} UnsupportedDown(t: Tree) returns (way: seq<Side>)
    requires !Supported(t)
    ensures Down(t, way).Split? && Down(t, way).decision != "<="
  {
    if t.decision != "<=" {
      way := [];
    } else {
      var side := if Supported(t.left) then ToRight else ToLeft;
      way := UnsupportedDown(if side == ToLeft then t.left else t.right);
      assert ([side] + way)[1..] == way;
      way := [side] + way;
    }
  }

  /** A tree is supported when each split in it decides by "<=". */
  lemma SupportedIs(t: Tree)
    ensures Supported(t) <==> forall way :: Down(t, way).Split? ==> Down(t, way).decision == "<="
  {
    if Supported(t) {
      forall way | Down(t, way).Split? ensures Down(t, way).decision == "<=" {
        SupportedDown(t, way);
      }
    } else {
      var way := UnsupportedDown(t);
    }
  }

  /** The layout of a small tree: nodes from the root down, left before right, and leaves as negative numbers from -1 on. */
  lemma SmallLayout(a: Tree, b: Tree, c: Tree, d: Tree, f: int, thr: real, g: int, low: real, h: int, high: real)
    requires a.Leaf? && b.Leaf? && c.Leaf? && d.Leaf?
    ensures var t := Split("<=", f, thr, Split("<=", g, low, a, b), Split("<=", h, high, c, d));
            && Layout(t, 0, 0) == [Node(f, 1, 2, thr), Node(g, -1, -2, low), Node(h, -3, -4, high)]
            && Leaves(t) == [a.value, b.value, c.value, d.value]
  {
    var l, r := Split("<=", g, low, a, b), Split("<=", h, high, c, d);
    TwoLeaves(l, 1, 0);
    TwoLeaves(r, 2, 2);
    var t := Split("<=", f, thr, l, r);
    assert Layout(t, 0, 0) == [Node(f, 1, 2, thr)] + Layout(l, 1, 0) + Layout(r, 2, 2);
  }

  lemma TwoLeaves(t: Tree, n: nat, l: nat)
    requires t.Split? && t.left.Leaf? && t.right.Leaf?
    ensures Layout(t, n, l) == [Node(t.feature, -(l + 1), -(l + 2), t.threshold)]
    ensures Leaves(t) == [t.left.value, t.right.value] && Internal(t) == 1
  {
    assert Leaves(t.left) == [t.left.value] && Leaves(t.right) == [t.right.value];
    assert Internal(t.left) == 0 && Internal(t.right) == 0;
    assert Layout(t.left, n + 1, l) == [] && Layout(t.right, n + 1, l + 1) == [];
  }

  function Internal(t: Tree): nat {
    if t.Leaf? then 0 else 1 + Internal(t.left) + Internal(t.right)
  }

  /** The leaf values from left to right. */
  function Leaves(t: Tree): seq<real> {
    if t.Leaf? then [t.value] else Leaves(t.left) + Leaves(t.right)
  }

  /** A tree has one leaf more than internal nodes. */
  lemma {:induction false} LeafCount(t: Tree)
    ensures |Leaves(t)| == Internal(t) + 1
  {
    if t.Split? {
      LeafCount(t.left);
      LeafCount(t.right);
    }
  }

  // ---------- the layout ----------

  /** How a subtree that starts at node `n` and leaf `l` is referred to. */
  function Ref(t: Tree, n: nat, l: nat): int {
    if t.Leaf? then -(l + 1) else n
  }

  /** The nodes of a subtree in the order of the traversal. */
  function Layout(t: Tree, n: nat, l: nat): (s: seq<Node>)
    ensures |s| == Internal(t)
  {
    if t.Leaf? then []
    else
      var n', l' := n + 1 + Internal(t.left), l + |Leaves(t.left)|;
      [Node(t.feature, Ref(t.left, n + 1, l), Ref(t.right, n', l'), t.threshold)]
      + Layout(t.left, n + 1, l) + Layout(t.right, n', l')
  }

  /** A list element that is a placeholder until the subtrees have been visited. */
  datatype Slot = Pending | Done(node: Node)

  function Filled(s: seq<Node>): (r: seq<Slot>)
    ensures |r| == |s|
  {
    seq(|s|, i requires 0 <= i < |s| => Done(s[i]))
  }

  lemma FilledConcat(a: seq<Node>, b: seq<Node>)
    ensures Filled(a + b) == Filled(a) + Filled(b)
  {
  }

  class Flattener {
    var nodes: seq<Slot>
    var leaves: seq<real>

    constructor ()
      ensures nodes == [] && leaves == []
    {
      nodes, leaves := [], [];
    }

    /** `visit`: append the subtree; false stands for the error about an unsupported decision. */
    method Visit(t: Tree) returns (ok: bool, ref: int)
      modifies this
      ensures ok <==> Supported(t)
      ensures ok ==> ref == Ref(t, |old(nodes)|, |old(leaves)|)
      ensures ok ==> nodes == old(nodes) + Filled(Layout(t, |old(nodes)|, |old(leaves)|))
      ensures ok ==> leaves == old(leaves) + Leaves(t)
      decreases t
    {
      hide Layout, Leaves, Filled, Ref, Internal;
      LeafPart(t, nodes, |leaves|);
      if t.Leaf? {
        leaves := leaves + [t.value];
        return true, -|leaves|;
      }
      if t.decision != "<=" {
        return false, 0;
      }
      var index := |nodes|;
      Patched(t, nodes, |nodes|, |leaves|);
      nodes := nodes + [Pending];
      var left, right;
      ok, left := Visit(t.left);
      if !ok {
        return false, 0;
      }
      ok, right := Visit(t.right);
      if !ok {
        return false, 0;
      }
      nodes := nodes[index := Done(Node(t.feature, left, right, t.threshold))];
      ref := index;
    }
  }

  lemma LeafPart(t: Tree, before: seq<Slot>, l: nat)
    ensures t.Leaf? ==> Leaves(t) == [t.value] && Ref(t, |before|, l) == -(l + 1)
                        && before + Filled(Layout(t, |before|, l)) == before
    ensures t.Split? ==> Leaves(t) == Leaves(t.left) + Leaves(t.right) && Ref(t, |before|, l) == |before|
  {
    assert t.Leaf? ==> Filled(Layout(t, |before|, l)) == [];
  }

  /** Back-patching the placeholder completes the layout. */
  lemma Patched(t: Tree, before: seq<Slot>, n: nat, l: nat)
    requires t.Split? && n == |before|
    ensures var n', l' := n + 1 + Internal(t.left), l + |Leaves(t.left)|;
            var head := Node(t.feature, Ref(t.left, n + 1, l), Ref(t.right, n', l'), t.threshold);
            (before + [Pending] + Filled(Layout(t.left, n + 1, l)) + Filled(Layout(t.right, n', l')))[n := Done(head)]
            == before + Filled(Layout(t, n, l))
  {
    hide Layout, Filled, Ref, Leaves;
    var head, a, b := LayoutParts(t, n, l);
    FilledParts(head, a, b);
    PatchAt(before, Done(head), Filled(a), Filled(b));
  }

  lemma FilledParts(head: Node, a: seq<Node>, b: seq<Node>)
    ensures Filled([head] + a + b) == [Done(head)] + Filled(a) + Filled(b)
  {
    FilledConcat([head] + a, b);
    FilledConcat([head], a);
    assert Filled([head]) == [Done(head)];
  }

  lemma PatchAt(before: seq<Slot>, x: Slot, a: seq<Slot>, b: seq<Slot>)
    ensures (before + [Pending] + a + b)[|before| := x] == before + ([x] + a + b)
  {
  }

  /** `flatten_tree`. */
  method Flatten(t: Tree) returns (ok: bool, nodes: seq<Node>, leaves: seq<real>)
    ensures ok <==> Supported(t)
    ensures ok ==> nodes == Layout(t, 0, 0) && leaves == Leaves(t)
  {
    var f := new Flattener();
    var ref;
    ok, ref := f.Visit(t);
    nodes, leaves := [], f.leaves;
    if ok {
      var slots := f.nodes;
      nodes := seq(|slots|, i requires 0 <= i < |slots| => if slots[i].Done? then slots[i].node else Node(0, 0, 0, 0.0));
      assert slots == Filled(Layout(t, 0, 0));
    }
  }

  // ---------- evaluation on the arrays ----------

  /** Children come after their parent, and leaf references are in range. */
  ghost predicate Closed(nodes: seq<Node>, leaves: nat) {
    forall i :: 0 <= i < |nodes| ==> Below(nodes[i].left, i, |nodes|, leaves) && Below(nodes[i].right, i, |nodes|, leaves)
  }

  predicate Below(child: int, i: int, n: nat, leaves: nat) {
    if child < 0 then -child - 1 < leaves else i < child < n
  }

  /** The nodes and leaves of a subtree stand at `n` and `l` in the arrays. */
  ghost predicate Placed(t: Tree, nodes: seq<Node>, leaves: seq<real>, n: nat, l: nat) {
    && n + Internal(t) <= |nodes| && nodes[n..n + Internal(t)] == Layout(t, n, l)
    && l + |Leaves(t)| <= |leaves| && leaves[l..l + |Leaves(t)|] == Leaves(t)
  }

  lemma SliceOfSlice<T>(s: seq<T>, lo: nat, hi: nat, a: nat, b: nat)
    requires lo <= hi <= |s| && a <= b <= hi - lo
    ensures s[lo..hi][a..b] == s[lo + a..lo + b]
  {
    var x, y := s[lo..hi][a..b], s[lo + a..lo + b];
    assert forall k :: 0 <= k < |x| ==> x[k] == y[k];
  }

  lemma AtSlice<T>(s: seq<T>, lo: nat, hi: nat, i: nat)
    requires lo + i < hi <= |s|
    ensures s[lo..hi][i] == s[lo + i]
  {
  }

  lemma PlacedNodes(t: Tree, nodes: seq<Node>, n: nat, l: nat)
    requires t.Split? && n + Internal(t) <= |nodes| && nodes[n..n + Internal(t)] == Layout(t, n, l)
    ensures var n', l' := n + 1 + Internal(t.left), l + |Leaves(t.left)|;
            && nodes[n] == Node(t.feature, Ref(t.left, n + 1, l), Ref(t.right, n', l'), t.threshold)
            && nodes[n + 1..n'] == Layout(t.left, n + 1, l) && nodes[n'..n' + Internal(t.right)] == Layout(t.right, n', l')
  {
    hide Layout, Leaves;
    var head, a, b := LayoutParts(t, n, l);
    CutThree(nodes, n, head, a, b);
  }

  /** Where the three parts of a stretch stand. */
  lemma CutThree(nodes: seq<Node>, n: nat, head: Node, a: seq<Node>, b: seq<Node>)
    requires n + 1 + |a| + |b| <= |nodes| && nodes[n..n + 1 + |a| + |b|] == [head] + a + b
    ensures nodes[n] == head && nodes[n + 1..n + 1 + |a|] == a && nodes[n + 1 + |a|..n + 1 + |a| + |b|] == b
  {
    var hi := n + 1 + |a| + |b|;
    AtSlice(nodes, n, hi, 0);
    SliceOfSlice(nodes, n, hi, 1, 1 + |a|);
    SliceOfSlice(nodes, n, hi, 1 + |a|, 1 + |a| + |b|);
    ThreeParts(head, a, b);
  }

  lemma ThreeParts(head: Node, a: seq<Node>, b: seq<Node>)
    ensures var s := [head] + a + b; s[0] == head && s[1..1 + |a|] == a && s[1 + |a|..1 + |a| + |b|] == b
  {
  }

  lemma PlacedParts(t: Tree, nodes: seq<Node>, leaves: seq<real>, n: nat, l: nat)
    requires t.Split? && Placed(t, nodes, leaves, n, l)
    ensures var n', l' := n + 1 + Internal(t.left), l + |Leaves(t.left)|;
            && nodes[n] == Node(t.feature, Ref(t.left, n + 1, l), Ref(t.right, n', l'), t.threshold)
            && Placed(t.left, nodes, leaves, n + 1, l) && Placed(t.right, nodes, leaves, n', l')
  {
    hide Layout, Ref;
    PlacedNodes(t, nodes, n, l);
    var a, b := Leaves(t.left), Leaves(t.right);
    assert (a + b)[0..|a|] == a && (a + b)[|a|..|a| + |b|] == b;
    SliceOfSlice(leaves, l, l + |a + b|, 0, |a|);
    SliceOfSlice(leaves, l, l + |a + b|, |a|, |a| + |b|);
  }

  /** Every reference inside a placed subtree points forward and into range. */
  lemma {:induction false} PlacedCloses(t: Tree, nodes: seq<Node>, leaves: seq<real>, n: nat, l: nat)
    requires Placed(t, nodes, leaves, n, l)
    ensures forall i :: n <= i < n + Internal(t) ==>
              Below(nodes[i].left, i, |nodes|, |leaves|) && Below(nodes[i].right, i, |nodes|, |leaves|)
  {
    hide Layout;
    LeafCount(t);
    if t.Split? {
      PlacedParts(t, nodes, leaves, n, l);
      PlacedCloses(t.left, nodes, leaves, n + 1, l);
      PlacedCloses(t.right, nodes, leaves, n + 1 + Internal(t.left), l + |Leaves(t.left)|);
      LeafCount(t.left);
      LeafCount(t.right);
    }
  }

  /** Following the references from node `i` to a leaf. */
  function Walk(nodes: seq<Node>, leaves: seq<real>, ref: int, input: Input): real
    requires Closed(nodes, |leaves|) && Below(ref, -1, |nodes|, |leaves|)
    decreases if ref < 0 then 0 else |nodes| - ref
  {
    if ref < 0 then leaves[-ref - 1]
    else Walk(nodes, leaves, if input(nodes[ref].feature) <= nodes[ref].threshold then nodes[ref].left else nodes[ref].right, input)
  }

  lemma LeafPlaced(t: Tree, nodes: seq<Node>, leaves: seq<real>, n: nat, l: nat)
    requires t.Leaf? && Placed(t, nodes, leaves, n, l)
    ensures l < |leaves| && leaves[l] == t.value
  {
    AtSlice(leaves, l, l + 1, 0);
  }

  lemma PlacedRef(t: Tree, nodes: seq<Node>, leaves: seq<real>, n: nat, l: nat)
    requires t.Split? && Placed(t, nodes, leaves, n, l)
    ensures n < |nodes|
  {
  }

  /** A placed subtree evaluates to what the tree it stands for evaluates to. */
  lemma {:induction false} WalkIsEval(t: Tree, nodes: seq<Node>, leaves: seq<real>, n: nat, l: nat, input: Input)
    requires Closed(nodes, |leaves|) && Placed(t, nodes, leaves, n, l)
    ensures Below(Ref(t, n, l), -1, |nodes|, |leaves|)
    ensures Walk(nodes, leaves, Ref(t, n, l), input) == Eval(t, input)
  {
    hide Layout, Leaves, Internal, Placed, Closed;
    if t.Leaf? {
      LeafPlaced(t, nodes, leaves, n, l);
    } else {
      PlacedRef(t, nodes, leaves, n, l);
      PlacedParts(t, nodes, leaves, n, l);
      if input(t.feature) <= t.threshold {
        WalkIsEval(t.left, nodes, leaves, n + 1, l, input);
      } else {
        WalkIsEval(t.right, nodes, leaves, n + 1 + Internal(t.left), l + |Leaves(t.left)|, input);
      }
    }
  }

  lemma WholePlaced(t: Tree)
    ensures Placed(t, Layout(t, 0, 0), Leaves(t), 0, 0) && Closed(Layout(t, 0, 0), |Leaves(t)|)
  {
    var nodes, leaves := Layout(t, 0, 0), Leaves(t);
    assert nodes[0..|nodes|] == nodes && leaves[0..|leaves|] == leaves;
    PlacedCloses(t, nodes, leaves, 0, 0);
  }

  // ---------- the model file ----------

  datatype Entry = Entry(nodeOffset: nat, internals: nat, leafOffset: nat)

  datatype Model = Model(trees: seq<Entry>, nodes: seq<Node>, leaves: seq<real>)

  /** The concatenation that the exporter writes. */
  function Export(trees: seq<Tree>): (m: Model)
    ensures |m.trees| == |trees|
  {
    if trees == [] then Model([], [], [])
    else
      var m, t := Export(trees[..|trees| - 1]), trees[|trees| - 1];
      Model(m.trees + [Entry(|m.nodes|, Internal(t), |m.leaves|)], m.nodes + Layout(t, 0, 0), m.leaves + Leaves(t))
  }

  /** The loop over all trees in `main`; false if some tree has an unsupported decision. */
  method WriteModel(trees: seq<Tree>) returns (ok: bool, m: Model)
    ensures ok <==> forall i :: 0 <= i < |trees| ==> Supported(trees[i])
    ensures ok ==> m == Export(trees)
  {
    var table: seq<Entry>, allNodes: seq<Node>, allLeaves: seq<real> := [], [], [];
    var nodeOffset, leafOffset := 0, 0;
    for i := 0 to |trees|
      invariant forall j :: 0 <= j < i ==> Supported(trees[j])
      invariant Model(table, allNodes, allLeaves) == Export(trees[..i])
      invariant nodeOffset == |allNodes| && leafOffset == |allLeaves|
    {
      var nodes, leaves;
      ok, nodes, leaves := Flatten(trees[i]);
      if !ok {
        return false, Model([], [], []);
      }
      assert trees[..i + 1][..i] == trees[..i];
      table := table + [Entry(nodeOffset, |nodes|, leafOffset)];
      allNodes, allLeaves := allNodes + nodes, allLeaves + leaves;
      nodeOffset, leafOffset := nodeOffset + |nodes|, leafOffset + |leaves|;
    }
    assert trees[..|trees|] == trees;
    ok, m := true, Model(table, allNodes, allLeaves);
  }

  /** The stretches of the arrays that belong to tree `i`. */
  ghost predicate Holds(m: Model, i: nat, t: Tree)
    requires i < |m.trees|
  {
    var e := m.trees[i];
    && e.internals == Internal(t)
    && e.nodeOffset + Internal(t) <= |m.nodes| && m.nodes[e.nodeOffset..e.nodeOffset + Internal(t)] == Layout(t, 0, 0)
    && e.leafOffset + |Leaves(t)| <= |m.leaves| && m.leaves[e.leafOffset..e.leafOffset + |Leaves(t)|] == Leaves(t)
  }

  lemma HoldsMore(m: Model, i: nat, t: Tree, e: Entry, nodes: seq<Node>, leaves: seq<real>)
    requires i < |m.trees| && Holds(m, i, t)
    ensures Holds(Model(m.trees + [e], m.nodes + nodes, m.leaves + leaves), i, t)
  {
    hide Layout, Leaves, Internal;
    var x := m.trees[i];
    SliceOfConcat(m.nodes, nodes, x.nodeOffset, x.nodeOffset + Internal(t));
    SliceOfConcat(m.leaves, leaves, x.leafOffset, x.leafOffset + |Leaves(t)|);
  }

  lemma HoldsNew(m: Model, t: Tree)
    ensures Holds(Model(m.trees + [Entry(|m.nodes|, Internal(t), |m.leaves|)], m.nodes + Layout(t, 0, 0), m.leaves + Leaves(t)),
                  |m.trees|, t)
  {
    hide Layout, Leaves, Internal;
    SliceOfTail(m.nodes, Layout(t, 0, 0));
    SliceOfTail(m.leaves, Leaves(t));
  }

  lemma {:induction false} ExportHolds(trees: seq<Tree>, i: nat)
    requires i < |trees|
    ensures Holds(Export(trees), i, trees[i])
  {
    hide Layout, Leaves, Internal, Holds;
    var f, t := trees[..|trees| - 1], trees[|trees| - 1];
    var m := Export(f);
    if i < |f| {
      ExportHolds(f, i);
      HoldsMore(m, i, trees[i], Entry(|m.nodes|, Internal(t), |m.leaves|), Layout(t, 0, 0), Leaves(t));
    } else {
      HoldsNew(m, t);
    }
  }

  lemma SliceOfTail<T>(a: seq<T>, b: seq<T>)
    ensures (a + b)[|a|..|a| + |b|] == b
  {
  }

  lemma SliceOfConcat<T>(a: seq<T>, b: seq<T>, lo: nat, hi: nat)
    requires lo <= hi <= |a|
    ensures (a + b)[lo..hi] == a[lo..hi]
  {
  }

  /** What the reader concludes from the last table entry is the size of the arrays that were written. */
  lemma ReaderCounts(trees: seq<Tree>)
    requires trees != []
    ensures var m := Export(trees);
            var last := m.trees[|trees| - 1];
            last.nodeOffset + last.internals == |m.nodes| && last.leafOffset + last.internals + 1 == |m.leaves|
  {
    LeafCount(trees[|trees| - 1]);
  }

  /** The child of node `i` on the way of an input. */
  function Child(n: Node, input: Input): int {
    if input(n.feature) <= n.threshold then n.left else n.right
  }

  lemma WalkStep(nodes: seq<Node>, leaves: seq<real>, i: int, input: Input)
    requires Closed(nodes, |leaves|) && 0 <= i < |nodes|
    ensures var c := Child(nodes[i], input);
            if c < 0 then -c - 1 < |leaves| && Walk(nodes, leaves, i, input) == leaves[-c - 1]
            else i < c < |nodes| && Walk(nodes, leaves, i, input) == Walk(nodes, leaves, c, input)
  {
    assert Below(nodes[i].left, i, |nodes|, |leaves|) && Below(nodes[i].right, i, |nodes|, |leaves|);
  }

  /** What the arrays of the model say about tree `i`. */
  lemma HeldAt(m: Model, i: nat, t: Tree)
    requires i < |m.trees| && Holds(m, i, t)
    ensures var e := m.trees[i];
            && e.internals == Internal(t) && |Leaves(t)| == Internal(t) + 1
            && e.nodeOffset + Internal(t) <= |m.nodes| && e.leafOffset + |Leaves(t)| <= |m.leaves|
            && (forall j :: 0 <= j < Internal(t) ==> m.nodes[e.nodeOffset + j] == Layout(t, 0, 0)[j])
            && (forall j :: 0 <= j < |Leaves(t)| ==> m.leaves[e.leafOffset + j] == Leaves(t)[j])
  {
    hide Layout, Leaves, Internal;
    var e := m.trees[i];
    LeafCount(t);
    forall j | 0 <= j < Internal(t) ensures m.nodes[e.nodeOffset + j] == Layout(t, 0, 0)[j] {
      AtSlice(m.nodes, e.nodeOffset, e.nodeOffset + Internal(t), j);
    }
    forall j | 0 <= j < |Leaves(t)| ensures m.leaves[e.leafOffset + j] == Leaves(t)[j] {
      AtSlice(m.leaves, e.leafOffset, e.leafOffset + |Leaves(t)|, j);
    }
  }

  /** `eval_tree`: the loop ends, stays in range, and gives the value of the original tree. */
  method EvalTree(m: Model, i: nat, input: Input, ghost t: Tree) returns (v: real)
    requires i < |m.trees| && Holds(m, i, t)
    ensures v == Eval(t, input)
  {
    hide Layout, Leaves, Eval, Placed, Holds, Closed, Walk, Internal;
    var e := m.trees[i];
    ghost var nodes, leaves := Layout(t, 0, 0), Leaves(t);
    HeldAt(m, i, t);
    WholePlaced(t);
    RootRef(t);
    WalkIsEval(t, nodes, leaves, 0, 0, input);
    if e.internals == 0 {
      BareLeaf(t, input);
      return m.leaves[e.leafOffset];
    }
    var local := 0;
    while true
      invariant 0 <= local < |nodes| && Walk(nodes, leaves, local, input) == Eval(t, input)
      decreases |nodes| - local
    {
      WalkStep(nodes, leaves, local, input);
      var child := Child(m.nodes[e.nodeOffset + local], input);
      if child < 0 {
        return m.leaves[e.leafOffset + (-child - 1)];
      }
      local := child;
    }
  }

  lemma BareLeaf(t: Tree, input: Input)
    ensures Internal(t) == 0 ==> |Leaves(t)| == 1 && Leaves(t)[0] == Eval(t, input)
  {
  }

  lemma RootRef(t: Tree)
    ensures Ref(t, 0, 0) == if Internal(t) == 0 then -1 else 0
  {
  }

  // ---------- the width of the file's fields ----------

  /** The conversion to a 16-bit integer with a sign. */
  function ToInt16(x: int): int {
    (x + 0x8000) % 0x1_0000 - 0x8000
  }

  predicate InRange(x: int) {
    -0x8000 <= x < 0x8000
  }

  lemma ToInt16Exact(x: int)
    ensures ToInt16(x) == x <==> InRange(x)
  {
  }

  function Stored(n: Node): Node {
    Node(ToInt16(n.feature), ToInt16(n.left), ToInt16(n.right), n.threshold)
  }

  /** The node array as the file holds it. */
  function StoredNodes(s: seq<Node>): (r: seq<Node>)
    ensures |r| == |s|
  {
    seq(|s|, i requires 0 <= i < |s| => Stored(s[i]))
  }

  predicate NodeFits(n: Node) {
    InRange(n.feature) && InRange(n.left) && InRange(n.right)
  }

  lemma StoredFits(s: seq<Node>)
    ensures StoredNodes(s) == s <==> forall i :: 0 <= i < |s| ==> NodeFits(s[i])
  {
    var r := StoredNodes(s);
    forall i | 0 <= i < |s| ensures r[i] == s[i] <==> NodeFits(s[i]) {
      ToInt16Exact(s[i].feature);
      ToInt16Exact(s[i].left);
      ToInt16Exact(s[i].right);
    }
  }

  predicate FeaturesFit(t: Tree) {
    t.Leaf? || (InRange(t.feature) && FeaturesFit(t.left) && FeaturesFit(t.right))
  }

  /** The tree is small enough for the fields of the file. */
  predicate Fits(t: Tree) {
    FeaturesFit(t) && Internal(t) <= 0x7fff
  }

  predicate FeaturesIn(s: seq<Node>) {
    forall i :: 0 <= i < |s| ==> InRange(s[i].feature)
  }

  lemma {:induction false} FeaturesAre(t: Tree, n: nat, l: nat)
    ensures FeaturesIn(Layout(t, n, l)) <==> FeaturesFit(t)
  {
    if t.Split? {
      FeaturesAre(t.left, n + 1, l);
      FeaturesAre(t.right, n + 1 + Internal(t.left), l + |Leaves(t.left)|);
      var head, a, b := LayoutParts(t, n, l);
      FeaturesParts(head, a, b);
    }
  }

  lemma FeaturesParts(head: Node, a: seq<Node>, b: seq<Node>)
    ensures FeaturesIn([head] + a + b) <==> InRange(head.feature) && FeaturesIn(a) && FeaturesIn(b)
  {
    hide InRange;
    var s := [head] + a + b;
    assert s[0] == head;
    assert forall i :: 0 <= i < |a| ==> s[1 + i] == a[i];
    assert forall i :: 0 <= i < |b| ==> s[1 + |a| + i] == b[i];
  }

  lemma LayoutParts(t: Tree, n: nat, l: nat) returns (head: Node, a: seq<Node>, b: seq<Node>)
    requires t.Split?
    ensures var n', l' := n + 1 + Internal(t.left), l + |Leaves(t.left)|;
            && head == Node(t.feature, Ref(t.left, n + 1, l), Ref(t.right, n', l'), t.threshold)
            && a == Layout(t.left, n + 1, l) && b == Layout(t.right, n', l')
    ensures Layout(t, n, l) == [head] + a + b
  {
    var n', l' := n + 1 + Internal(t.left), l + |Leaves(t.left)|;
    head := Node(t.feature, Ref(t.left, n + 1, l), Ref(t.right, n', l'), t.threshold);
    a, b := Layout(t.left, n + 1, l), Layout(t.right, n', l');
  }

  /** The last leaf of a tree is referred to from somewhere. */
  lemma {:induction false} LastLeafReferred(t: Tree, n: nat, l: nat) returns (i: nat)
    requires t.Split?
    ensures i < Internal(t) && Layout(t, n, l)[i].right == -(l + |Leaves(t)|)
  {
    hide FeaturesFit, Layout;
    var head, a, b := LayoutParts(t, n, l);
    if t.right.Leaf? {
      i := 0;
      ThreeParts(head, a, b);
    } else {
      var j := LastLeafReferred(t.right, n + 1 + Internal(t.left), l + |Leaves(t.left)|);
      i := 1 + |a| + j;
      SliceEnd(head, a, b, j);
    }
  }

  lemma SliceEnd(head: Node, a: seq<Node>, b: seq<Node>, j: nat)
    requires j < |b|
    ensures ([head] + a + b)[1 + |a| + j] == b[j]
  {
  }

  lemma SmallFits(t: Tree, i: nat)
    requires Fits(t) && i < Internal(t)
    ensures NodeFits(Layout(t, 0, 0)[i])
  {
    hide Layout, FeaturesFit;
    var s := Layout(t, 0, 0);
    LeafCount(t);
    WholePlaced(t);
    FeaturesAre(t, 0, 0);
    assert Below(s[i].left, i, |s|, |Leaves(t)|) && Below(s[i].right, i, |s|, |Leaves(t)|);
    assert InRange(s[i].feature);
  }

  lemma FittingIsSmall(t: Tree)
    requires forall i :: 0 <= i < Internal(t) ==> NodeFits(Layout(t, 0, 0)[i])
    ensures Fits(t)
  {
    hide Layout, FeaturesFit;
    LeafCount(t);
    FeaturesAre(t, 0, 0);
    assert FeaturesIn(Layout(t, 0, 0)) by {
      forall i | 0 <= i < Internal(t) ensures InRange(Layout(t, 0, 0)[i].feature) {
        assert NodeFits(Layout(t, 0, 0)[i]);
      }
    }
    if t.Split? {
      var i := LastLeafReferred(t, 0, 0);
      assert NodeFits(Layout(t, 0, 0)[i]);
    }
  }

  /** The file's 16-bit fields hold a tree if and only if it has at most 32767 internal nodes and its features fit. */
  lemma StoredExact(t: Tree)
    ensures StoredNodes(Layout(t, 0, 0)) == Layout(t, 0, 0) <==> Fits(t)
  {
    hide Layout, StoredNodes, Fits, NodeFits;
    StoredFits(Layout(t, 0, 0));
    if Fits(t) {
      forall i | 0 <= i < Internal(t) ensures NodeFits(Layout(t, 0, 0)[i]) {
        SmallFits(t, i);
      }
    }
    if forall i :: 0 <= i < Internal(t) ==> NodeFits(Layout(t, 0, 0)[i]) {
      FittingIsSmall(t);
    }
  }

  /** The model as the file holds it. */
  function FileOf(m: Model): Model {
    m.(nodes := StoredNodes(m.nodes))
  }

  lemma StoredConcat(a: seq<Node>, b: seq<Node>)
    ensures StoredNodes(a + b) == a + b <==> StoredNodes(a) == a && StoredNodes(b) == b
  {
    hide NodeFits;
    StoredFits(a);
    StoredFits(b);
    StoredFits(a + b);
    var s := a + b;
    assert forall i :: 0 <= i < |a| ==> s[i] == a[i];
    assert forall i :: 0 <= i < |b| ==> s[|a| + i] == b[i];
  }

  /** The file holds all trees as they were exported if and only if each of them fits. */
  lemma {:induction false} FileExact(trees: seq<Tree>)
    ensures FileOf(Export(trees)) == Export(trees) <==> forall i :: 0 <= i < |trees| ==> Fits(trees[i])
  {
    hide Layout, Fits, StoredNodes;
    if trees == [] {
      NothingStored();
    } else {
      var f, t := trees[..|trees| - 1], trees[|trees| - 1];
      FileExact(f);
      StoredExact(t);
      StoredConcat(Export(f).nodes, Layout(t, 0, 0));
      assert forall i :: 0 <= i < |f| ==> f[i] == trees[i];
    }
  }

  lemma NothingStored()
    ensures StoredNodes([]) == []
  {
  }

  /**
   Exporting trees and evaluating one of them from the file gives the value of the original, if the
   16-bit fields of the file hold all trees.
   */
  method RoundTrip(trees: seq<Tree>, i: nat, input: Input) returns (ok: bool, intact: bool, v: real)
    requires i < |trees|
    ensures ok <==> forall j :: 0 <= j < |trees| ==> Supported(trees[j])
    ensures ok ==> (intact <==> forall j :: 0 <= j < |trees| ==> Fits(trees[j]))
    ensures ok && intact ==> v == Eval(trees[i], input)
  {
    hide Fits, Holds, Eval, Export;
    var m;
    ok, m := WriteModel(trees);
    v := 0.0;
    var file := FileOf(m);
    intact := file == m;
    if ok {
      FileExact(trees);
      ExportHolds(trees, i);
      if intact {
        v := EvalTree(file, i, input, trees[i]);
      }
    }
  }
}
