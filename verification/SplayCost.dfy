/**
 What splaying from the top down costs. A potential pays for the rounds of the descent loop: a single
 splay can be long, but over a run each costs no more than a few times the logarithm of the size.
 */
module SplayCost {
  import opened SplayTree
  import opened Ranks

  // ---------- the potential ----------

  /** The ranks of all subtrees, added up. */
  function Potential(t: Tree): nat {
    if t.Leaf? then 0 else Potential(t.left) + Potential(t.right) + Rank(Size(t))
  }

  // ---------- the descent as a recursion on the tree ----------

  /** The subtree that the descent goes on with after a round, if the round is not the last. */
  function Onward(k: int, t: Tree): Tree
    requires t.Fork?
  {
    if k < t.node.key then Aimed(k, t).left else if k > t.node.key then Aimed(k, t).right else Leaf
  }

  predicate Ends(k: int, t: Tree)
    requires t.Fork?
  {
    Onward(k, t).Leaf?
  }

  lemma OnwardSmaller(k: int, t: Tree)
    requires t.Fork?
    ensures Size(Onward(k, t)) < Size(t) && Size(Aimed(k, t)) == Size(t)
  {
    RotationSize(t);
  }

  lemma LastHook(hs: seq<Hook>, h: Hook, inner: Tree)
    ensures HangLeft(hs + [h], inner) == HangLeft(hs, Fork(h.sub, h.node, inner))
    ensures HangRight(hs + [h], inner) == HangRight(hs, Fork(inner, h.node, h.sub))
  {
    assert (hs + [h])[..|hs|] == hs;
  }

  /** Whatever has been hung up before stays outside of what the rest of the descent makes. */
  lemma {:induction false} DescendInside(k: int, c: Cut)
    requires c.mid.Fork?
    ensures var s := TopDown(k, c.mid);
            s.Fork? && Reassemble(Descend(k, c)) == Fork(HangLeft(c.ls, s.left), s.node, HangRight(c.rs, s.right))
    decreases Size(c.mid)
  {
    hide HangLeft, HangRight;
    OnwardSmaller(k, c.mid);
    NothingHung();
    if !LastRound(k, c) {
      var d, e := OneRound(k, c), OneRound(k, Cut([], c.mid, []));
      var u := Aimed(k, c.mid);
      DescendInside(k, d);
      DescendInside(k, e);
      var h := if k < c.mid.node.key then Hook(u.right, u.node) else Hook(u.left, u.node);
      assert [] + [h] == [h];
      var s := TopDown(k, d.mid);
      if k < c.mid.node.key {
        LastHook(c.rs, h, s.right);
        LastHook([], h, s.right);
      } else {
        LastHook(c.ls, h, s.left);
        LastHook([], h, s.left);
      }
    }
  }

  lemma NothingHung()
    ensures forall t :: HangLeft([], t) == t && HangRight([], t) == t
  {
  }

  /** Splaying as a recursion: a round hangs the top of the subtree below the splayed rest. */
  lemma TopDownStep(k: int, t: Tree)
    requires t.Fork?
    ensures var u := Aimed(k, t);
            var s := TopDown(k, Onward(k, t));
            TopDown(k, t) ==
            if Ends(k, t) then u
            else if k < t.node.key then Fork(s.left, s.node, Fork(s.right, u.node, u.right))
            else Fork(Fork(u.left, u.node, s.left), s.node, s.right)
    ensures TopDown(k, t).Fork? && (!Ends(k, t) ==> TopDown(k, Onward(k, t)).Fork?)
  {
    hide HangLeft, HangRight;
    var c := Cut([], t, []);
    OnwardSmaller(k, t);
    NothingHung();
    if !Ends(k, t) {
      var u := Aimed(k, t);
      var h := if k < t.node.key then Hook(u.right, u.node) else Hook(u.left, u.node);
      assert [] + [h] == [h];
      var s := TopDown(k, Onward(k, t));
      DescendInside(k, OneRound(k, c));
      if k < t.node.key {
        LastHook([], h, s.right);
      } else {
        LastHook([], h, s.left);
      }
    }
  }

  lemma {:induction false} TopDownSize(k: int, t: Tree)
    ensures Size(TopDown(k, t)) == Size(t)
    decreases Size(t)
  {
    if t.Fork? {
      TopDownStep(k, t);
      OnwardSmaller(k, t);
      TopDownSize(k, Onward(k, t));
    }
  }

  // ---------- the cost of one splay ----------

  /** How many rounds the descent loop takes. */
  function Rounds(k: int, t: Tree): nat
    decreases Size(t)
  {
    if t.Leaf? then 0 else OnwardSmaller(k, t); 1 + Rounds(k, Onward(k, t))
  }

  /** The loop of `splay` takes that many rounds, from the empty cut or any other. */
  lemma {:induction false} RoundsAre(k: int, c: Cut)
    requires c.mid.Fork?
    ensures SplayTree.Rounds(k, c) == Rounds(k, c.mid)
    decreases Size(c.mid)
  {
    OnwardSmaller(k, c.mid);
    assert Rounds(k, Leaf) == 0;
    if !LastRound(k, c) {
      RoundsAre(k, OneRound(k, c));
    }
  }

  /** The rounds and twice the gain of potential, not counting the root. */
  function Cost(k: int, t: Tree): int {
    var s := TopDown(k, t);
    if s.Leaf? then 0 else Rounds(k, t) + 2 * (Potential(s.left) + Potential(s.right)) - 2 * Potential(t)
  }

  /** The round goes two steps in the same direction, and so turns them over. */
  predicate Turns(k: int, t: Tree)
    requires t.Fork?
  {
    || (k < t.node.key && t.left.Fork? && k < t.left.node.key)
    || (k > t.node.key && t.right.Fork? && k > t.right.node.key)
  }

  /** The side tree that the first round feeds, as the splay leaves it. */
  function Fed(k: int, t: Tree): Tree
    requires t.Fork?
  {
    var s := TopDown(k, t);
    if s.Leaf? then Leaf else if k < t.node.key then s.right else s.left
  }

  /** What a round turns over, as it hangs in the side tree. */
  function Turned(k: int, t: Tree): Tree
    requires t.Fork?
  {
    if k < t.node.key then Aimed(k, t).right else Aimed(k, t).left
  }

  function Near(k: int, t: Tree): Tree
    requires t.Fork?
  {
    if k < t.node.key then t.left else t.right
  }

  /** What turning a subtree over does to its potential, its root not counted afterwards. */
  lemma TurnPotential(k: int, t: Tree)
    requires t.Fork?
    ensures var u := Aimed(k, t);
            u.Fork? && Potential(t) == Potential(u.left) + Potential(u.right) + Rank(Size(t))
                                       + if Turns(k, t) then Rank(Size(Near(k, t))) - Rank(Size(Turned(k, t))) else 0
  {
    hide Rank;
    if Turns(k, t) {
      var u, near := Aimed(k, t), Near(k, t);
      assert Potential(near) == Potential(near.left) + Potential(near.right) + Rank(Size(near));
      var low := Turned(k, t);
      assert Potential(low) == Potential(low.left) + Potential(low.right) + Rank(Size(low));
    }
  }

  lemma RoundSizes(k: int, t: Tree)
    requires t.Fork?
    ensures !Ends(k, t) && Turns(k, t) ==> Size(Onward(k, t)) < Size(Near(k, t))
    ensures Size(Near(k, t)) < Size(t) && Size(Aimed(k, t)) == Size(t)
    ensures !Ends(k, t) ==> Size(Onward(k, t)) + Size(Turned(k, t)) < Size(t)
    ensures !Ends(k, t) && !Turns(k, t) ==> Onward(k, t) == Near(k, t)
    ensures Size(Turned(k, t)) < Size(t)
  {
  }

  /** What one round adds to the cost of the rest. */
  lemma RoundCost(k: int, t: Tree)
    requires t.Fork? && !Ends(k, t)
    ensures var rest := Cost(k, Onward(k, t)) + 1 + 2 * Rank(Size(Fed(k, t))) - 2 * Rank(Size(t));
            Cost(k, t) == if Turns(k, t) then rest + 2 * Rank(Size(Turned(k, t))) - 2 * Rank(Size(Near(k, t))) else rest
    ensures Size(Fed(k, t)) < Size(t)
  {
    hide TopDown, Rank, Potential, Aimed;
    TopDownStep(k, t);
    TopDownSize(k, t);
    TurnPotential(k, t);
    var u, s := Aimed(k, t), TopDown(k, Onward(k, t));
    PotentialAt(if k < t.node.key then Fork(s.right, u.node, u.right) else Fork(u.left, u.node, s.left));
  }

  lemma PotentialAt(t: Tree)
    requires t.Fork?
    ensures Potential(t) == Potential(t.left) + Potential(t.right) + Rank(Size(t))
  {
  }

  lemma LastCost(k: int, t: Tree)
    requires t.Fork? && Ends(k, t)
    ensures Cost(k, t) <= 1
  {
    hide TopDown, Rank, Potential, Aimed;
    TopDownStep(k, t);
    RoundSizes(k, t);
    TurnPotential(k, t);
    RankGrows(Size(Turned(k, t)), Size(t));
    assert Rounds(k, Leaf) == 0;
  }

  /** The round takes one step only, and the side it feeds ends up with the rank of the whole. */
  predicate Slow(k: int, t: Tree)
    requires t.Fork?
  {
    !Ends(k, t) && !Turns(k, t) && Rank(Size(Fed(k, t))) == Rank(Size(t))
  }

  /** No two rounds in a row are slow without a loss of rank: they feed different sides. */
  lemma SlowAlone(k: int, t: Tree)
    requires t.Fork? && Slow(k, t) && Rank(Size(Onward(k, t))) == Rank(Size(t))
    ensures Onward(k, t).Fork? && !Slow(k, Onward(k, t))
  {
    hide TopDown, Rank;
    var t1 := Onward(k, t);
    TopDownStep(k, t);
    TopDownSize(k, t);
    if Slow(k, t1) {
      TopDownStep(k, t1);
      var s := TopDown(k, t);
      assert Size(s.left) + 1 + Size(s.right) == Size(t);
      RankPair(Size(s.left), Size(s.right), Size(t));
    }
  }

  /** The cost of a splay is bounded by the rank of the tree. */
  lemma {:induction false} CostBound(k: int, t: Tree)
    requires t.Fork?
    ensures Cost(k, t) <= 5 * Rank(Size(t)) + (if Slow(k, t) then 2 else 1)
    decreases Size(t)
  {
    hide TopDown, Rank, Cost, Rounds, Fed, Turned;
    var t1, n := Onward(k, t), Size(t);
    if Ends(k, t) {
      LastCost(k, t);
    } else {
      OnwardSmaller(k, t);
      CostBound(k, t1);
      RoundCost(k, t);
      RoundSizes(k, t);
      RankGrows(Size(Fed(k, t)), n);
      RankGrows(Size(t1), n);
      if Turns(k, t) {
        RankGrows(Size(Turned(k, t)), n);
        RankGrows(Size(t1), Size(Near(k, t)));
        RankPair(Size(t1), Size(Turned(k, t)), n);
      } else if Slow(k, t) && Rank(Size(t1)) == Rank(n) {
        SlowAlone(k, t);
      }
    }
  }

  /**
   The amortised cost of a splay: the rounds it takes, and what it adds to the potential, are at
   most seven times the rank of the tree and two.
   */
  lemma SplayAmortised(k: int, t: Tree)
    requires t.Fork?
    ensures Rounds(k, t) + 2 * Potential(TopDown(k, t)) <= 2 * Potential(t) + 7 * Rank(Size(t)) + 2
  {
    hide TopDown, Rank, Rounds;
    TopDownStep(k, t);
    TopDownSize(k, t);
    CostBound(k, t);
  }

  // ---------- whole runs ----------

  /** `splay` for a key, `insert` of a node, `splay_delete` of a key. */
  datatype Op = Access(key: int) | Enter(node: Node) | Leave(key: int)

  function After(t: Tree, op: Op): Tree {
    match op
    case Access(k) => TopDown(k, t)
    case Enter(n) => if t.Leaf? then Fork(Leaf, n, Leaf) else Grafted(TopDown(n.key, t), n)
    case Leave(k) => if t.Leaf? then Leaf else Pruned(k, TopDown(k, t))
  }

  /** The rounds of all descents of an operation; deleting a key splays the left side of the tree too. */
  function Effort(t: Tree, op: Op): nat {
    match op
    case Access(k) => Rounds(k, t)
    case Enter(n) => Rounds(n.key, t)
    case Leave(k) =>
      var s := TopDown(k, t);
      Rounds(k, t) + if s.Fork? && s.node.key == k then Rounds(k, s.left) else 0
  }

  /** The old root and the new one count in full, everything below them stays. */
  lemma GraftedPotential(s: Tree, n: Node)
    requires s.Fork?
    ensures var g := Grafted(s, n);
            Size(s) <= Size(g) && Potential(g) <= Potential(s.left) + Potential(s.right) + 2 * Rank(Size(g))
  {
    hide Rank;
    var g := Grafted(s, n);
    assert n.key < s.node.key ==> Size(g) == Size(g.left) + 1 + Size(g.right) == Size(s.left) + 1 + (1 + Size(s.right));
    assert n.key > s.node.key ==> Size(g) == Size(g.left) + 1 + Size(g.right) == (Size(s.left) + 1) + 1 + Size(s.right);
    if n.key < s.node.key {
      RankGrows(Size(g.right), Size(g));
      PotentialAt(g.right);
    } else if n.key > s.node.key {
      RankGrows(Size(g.left), Size(g));
      PotentialAt(g.left);
    }
  }

  lemma EnterCost(t: Tree, n: Node)
    requires t.Fork?
    ensures var g := After(t, Enter(n));
            && Size(t) <= Size(g)
            && Effort(t, Enter(n)) + 2 * Potential(g) <= 2 * Potential(t) + 9 * Rank(Size(g)) + 2
  {
    hide TopDown, Rank, Rounds, Grafted, Potential;
    var s, g := TopDown(n.key, t), After(t, Enter(n));
    TopDownStep(n.key, t);
    TopDownSize(n.key, t);
    CostBound(n.key, t);
    GraftedPotential(s, n);
    RankGrows(Size(t), Size(g));
  }

  lemma LeaveCost(t: Tree, k: int)
    requires t.Fork?
    ensures var g := After(t, Leave(k));
            && Size(g) <= Size(t)
            && Effort(t, Leave(k)) + 2 * Potential(g) <= 2 * Potential(t) + 12 * Rank(Size(t)) + 4
  {
    hide TopDown, Rank, Rounds;
    var s := TopDown(k, t);
    TopDownStep(k, t);
    TopDownSize(k, t);
    CostBound(k, t);
    if s.node.key == k {
      NoRounds(k);
      if s.left.Fork? {
        TopDownStep(k, s.left);
        TopDownSize(k, s.left);
        CostBound(k, s.left);
        RankGrows(Size(s.left), Size(t));
        RankGrows(Size(After(t, Leave(k))), Size(t));
      }
    }
  }

  lemma NoRounds(k: int)
    ensures Rounds(k, Leaf) == 0
  {
  }

  /** One operation on a tree that holds at most `n` nodes before and after it. */
  lemma OpAmortised(t: Tree, op: Op, n: nat)
    requires Size(t) <= n && Size(After(t, op)) <= n
    ensures Effort(t, op) + 2 * Potential(After(t, op)) <= 2 * Potential(t) + 12 * Rank(n) + 4
  {
    hide TopDown, Rank, Rounds, Pruned, Grafted;
    RankGrows(Size(t), n);
    RankGrows(Size(After(t, op)), n);
    if t.Fork? {
      match op
      case Access(k) => SplayAmortised(k, t);
      case Enter(m) => EnterCost(t, m);
      case Leave(k) => LeaveCost(t, k);
    } else {
      LeafEffort(op);
    }
  }

  lemma LeafEffort(op: Op)
    ensures Effort(Leaf, op) == 0 && Potential(After(Leaf, op)) == 0
  {
  }

  /** The tree after a run from the empty tree. */
  function TreeAfter(ops: seq<Op>): Tree {
    if ops == [] then Leaf else After(TreeAfter(ops[..|ops| - 1]), ops[|ops| - 1])
  }

  function RunEffort(ops: seq<Op>): nat {
    if ops == [] then 0 else RunEffort(ops[..|ops| - 1]) + Effort(TreeAfter(ops[..|ops| - 1]), ops[|ops| - 1])
  }

  ghost predicate AtMost(ops: seq<Op>, n: nat) {
    forall i :: 0 <= i <= |ops| ==> Size(TreeAfter(ops[..i])) <= n
  }

  lemma AtMostPrefix(ops: seq<Op>, n: nat)
    requires AtMost(ops, n)
    ensures Size(TreeAfter(ops)) <= n && (ops != [] ==> AtMost(ops[..|ops| - 1], n))
  {
    assert ops[..|ops|] == ops;
    if ops != [] {
      var f := ops[..|ops| - 1];
      forall i | 0 <= i <= |f| ensures Size(TreeAfter(f[..i])) <= n {
        assert f[..i] == ops[..i];
      }
    }
  }

  /**
   Any run of splays, insertions and deletions on a tree that never holds more than `n` nodes takes
   a number of rounds that is logarithmic in `n` per operation, however long a single one may be.
   */
  lemma {:induction false} RunAmortised(ops: seq<Op>, n: nat)
    requires AtMost(ops, n)
    ensures RunEffort(ops) + 2 * Potential(TreeAfter(ops)) <= |ops| * (12 * Rank(n) + 4)
  {
    hide Effort, After, Rank, Potential, AtMost, Size;
    if ops == [] {
      EmptyPotential();
    } else {
      var f, op := ops[..|ops| - 1], ops[|ops| - 1];
      AtMostPrefix(ops, n);
      AtMostPrefix(f, n);
      RunAmortised(f, n);
      OpAmortised(TreeAfter(f), op, n);
      OneMore(|f|, 12 * Rank(n) + 4);
    }
  }

  lemma OneMore(a: nat, b: nat)
    ensures (a + 1) * b == a * b + b
  {
  }

  lemma EmptyPotential()
    ensures Potential(Leaf) == 0
  {
  }
}
