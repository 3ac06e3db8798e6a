/**
 What splaying from the bottom up costs: the climb to the root may take many rounds, but the shape it
 leaves behind pays for them, so that a run costs logarithmically many rounds per splay.
 */
module BottomUpCost {
  import opened BottomUpSplay
  import opened Ranks

  function Potential(t: Tree): nat {
    if t.Leaf? then 0 else Potential(t.left) + Potential(t.right) + Rank(Size(t))
  }

  lemma PotentialAt(t: Tree)
    requires t.Fork?
    ensures Potential(t) == Potential(t.left) + Potential(t.right) + Rank(Size(t))
  {
  }

  /** The tree of which `t` is the subtree below the path. */
  function Whole(c: Path, t: Tree): Tree {
    if c.Top? then t else Whole(c.up, Plug(c, t))
  }

  /** The subtree that a round takes apart. */
  function Grip(c: Path, t: Tree): Tree
    requires !c.Top?
  {
    if c.up.Top? then Plug(c, t) else Plug(c.up, Plug(c, t))
  }

  /** A round does not change the size of the subtree, and every part of the subtree is kept. */
  lemma GripSize(c: Path, t: Tree)
    requires !c.Top? && t.Fork?
    ensures SplayStep(c, t).Fork? && Size(SplayStep(c, t)) == Size(Grip(c, t)) && Size(t) < Size(Grip(c, t))
  {
    hide Size, RotateRight, RotateLeft;
    PlugSize(c, t);
    TurnSize(Plug(c, t));
    if !c.up.Top? {
      PlugSize(c.up, Plug(c, t));
      if c.FromLeft? <==> c.up.FromLeft? {
        TurnSize(Grip(c, t));
        TurnSize(if c.FromLeft? then RotateRight(Grip(c, t)) else RotateLeft(Grip(c, t)));
      } else {
        var w := if c.FromLeft? then RotateRight(Plug(c, t)) else RotateLeft(Plug(c, t));
        SamePlug(c.up, w, Plug(c, t));
        TurnSize(Plug(c.up, w));
      }
    }
  }

  lemma PlugSize(c: Path, t: Tree)
    requires !c.Top?
    ensures Plug(c, t).Fork? && Size(t) < Size(Plug(c, t))
  {
  }

  lemma SamePlug(c: Path, a: Tree, b: Tree)
    requires !c.Top? && Size(a) == Size(b)
    ensures Size(Plug(c, a)) == Size(Plug(c, b))
  {
  }

  lemma TurnSize(t: Tree)
    ensures t.Fork? && t.left.Fork? ==>
              var u := RotateRight(t); u.Fork? && u.right.Fork? && u.left == t.left.left && Size(u) == Size(t)
    ensures t.Fork? && t.right.Fork? ==>
              var u := RotateLeft(t); u.Fork? && u.left.Fork? && u.right == t.right.right && Size(u) == Size(t)
  {
  }

  lemma GripWhole(c: Path, t: Tree)
    requires !c.Top? && t.Fork?
    ensures Whole(c, t) == Whole(SplayRest(c), Grip(c, t))
  {
    assert Whole(c, t) == Whole(c.up, Plug(c, t));
  }

  /** The last round, when the node is a child of the root. */
  lemma ZigCost(c: Path, t: Tree)
    requires !c.Top? && t.Fork? && c.up.Top?
    ensures Potential(SplayStep(c, t)) <= Potential(Grip(c, t)) + Rank(Size(Grip(c, t))) - Rank(Size(t))
  {
    hide Rank;
    var u, v := Grip(c, t), SplayStep(c, t);
    GripSize(c, t);
    var low := if c.FromLeft? then v.right else v.left;
    PotentialAt(low);
    RankGrows(Size(low), Size(u));
  }

  /** A double round on one side: the far half of what it takes apart loses rank, or the node gains some. */
  lemma ZigZigCost(c: Path, t: Tree)
    requires !c.Top? && t.Fork? && !c.up.Top? && (c.FromLeft? <==> c.up.FromLeft?)
    ensures 1 + Potential(SplayStep(c, t)) <= Potential(Grip(c, t)) + 3 * (Rank(Size(Grip(c, t))) - Rank(Size(t)))
  {
    hide Rank;
    var p, u, v := Plug(c, t), Grip(c, t), SplayStep(c, t);
    GripSize(c, t);
    PotentialAt(p);
    PotentialAt(u);
    PotentialAt(t);
    var low := if c.FromLeft? then v.right else v.left;
    var far := if c.FromLeft? then low.right else low.left;
    PotentialAt(low);
    PotentialAt(far);
    PotentialAt(v);
    RankGrows(Size(low), Size(u));
    RankGrows(Size(t), Size(p));
    RankPair(Size(t), Size(far), Size(u));
  }

  /** A double round on both sides: the two nodes above come to stand apart. */
  lemma ZigZagCost(c: Path, t: Tree)
    requires !c.Top? && t.Fork? && !c.up.Top? && !(c.FromLeft? <==> c.up.FromLeft?)
    ensures 1 + Potential(SplayStep(c, t)) <= Potential(Grip(c, t)) + 3 * (Rank(Size(Grip(c, t))) - Rank(Size(t)))
  {
    hide Rank;
    var p, u, v := Plug(c, t), Grip(c, t), SplayStep(c, t);
    GripSize(c, t);
    PotentialAt(p);
    PotentialAt(u);
    PotentialAt(t);
    PotentialAt(v);
    PotentialAt(v.left);
    PotentialAt(v.right);
    RankGrows(Size(t), Size(p));
    RankGrows(Size(t), Size(u));
    RankPair(Size(v.left), Size(v.right), Size(u));
  }

  lemma {:induction false} WholeSize(c: Path, a: Tree, b: Tree)
    requires Size(a) == Size(b)
    ensures Size(Whole(c, a)) == Size(Whole(c, b)) >= Size(a)
    ensures Potential(Whole(c, a)) - Potential(a) == Potential(Whole(c, b)) - Potential(b)
  {
    if !c.Top? {
      WholeSize(c.up, Plug(c, a), Plug(c, b));
      PotentialAt(Plug(c, a));
      PotentialAt(Plug(c, b));
    }
  }

  /**
   The amortised cost of a splay: its rounds, and what it adds to the potential, are at most three
   times what the node gains in rank, and one.
   */
  lemma {:induction false} SplayAmortised(c: Path, t: Tree)
    requires t.Fork?
    ensures Size(SplayUp(c, t)) == Size(Whole(c, t)) >= Size(t)
    ensures Rounds(c) + Potential(SplayUp(c, t))
            <= Potential(Whole(c, t)) + 3 * (Rank(Size(Whole(c, t))) - Rank(Size(t))) + 1
    decreases Depth(c)
  {
    hide Rank, Potential, SplayStep, Size;
    if !c.Top? {
      var u, v, d := Grip(c, t), SplayStep(c, t), SplayRest(c);
      SplayUnfolds(c, t);
      GripSize(c, t);
      GripWhole(c, t);
      SplayAmortised(d, v);
      WholeSize(d, u, v);
      RankGrows(Size(t), Size(u));
      if c.up.Top? {
        ZigCost(c, t);
      } else if c.FromLeft? <==> c.up.FromLeft? {
        ZigZigCost(c, t);
      } else {
        ZigZagCost(c, t);
      }
    }
  }

  // ---------- whole runs ----------

  /** A splay of the subtree at the end of a path. */
  datatype Find = Find(path: Path, found: Tree)

  /** A run of splays: each finds its node in the tree that the one before has left. */
  ghost predicate IsRun(t: Tree, fs: seq<Find>)
    decreases |fs|
  {
    fs == [] || (fs[0].found.Fork? && Whole(fs[0].path, fs[0].found) == t
                 && IsRun(SplayUp(fs[0].path, fs[0].found), fs[1..]))
  }

  function RunRounds(fs: seq<Find>): nat {
    if fs == [] then 0 else Rounds(fs[0].path) + RunRounds(fs[1..])
  }

  lemma {:induction false} PotentialBound(t: Tree)
    ensures Potential(t) <= Size(t) * Rank(Size(t))
  {
    hide Rank;
    if t.Fork? {
      PotentialBound(t.left);
      PotentialBound(t.right);
      RankGrows(Size(t.left), Size(t));
      RankGrows(Size(t.right), Size(t));
      var r := Rank(Size(t));
      AtMostTimes(Size(t.left), Rank(Size(t.left)), r);
      AtMostTimes(Size(t.right), Rank(Size(t.right)), r);
      Distributes(Size(t.left), Size(t.right), r);
    }
  }

  lemma Distributes(a: nat, b: nat, r: nat)
    ensures (a + 1 + b) * r == a * r + r + b * r
  {
  }

  lemma AtMostTimes(n: nat, a: nat, b: nat)
    requires a <= b
    ensures n * a <= n * b
  {
  }

  /** A run of splays on a tree of `n` nodes takes logarithmically many rounds per splay, on top of a cost for the tree. */
  lemma {:induction false} RunAmortised(t: Tree, fs: seq<Find>)
    requires IsRun(t, fs)
    ensures RunRounds(fs) <= |fs| * (3 * Rank(Size(t)) + 1) + Potential(t)
    ensures RunRounds(fs) <= |fs| * (3 * Rank(Size(t)) + 1) + Size(t) * Rank(Size(t))
    decreases |fs|
  {
    hide Rank, Potential, Size, SplayUp, Rounds, Whole;
    PotentialBound(t);
    if fs != [] {
      SplayAmortised(fs[0].path, fs[0].found);
      RunAmortised(SplayUp(fs[0].path, fs[0].found), fs[1..]);
      OneMore(|fs| - 1, 3 * Rank(Size(t)) + 1);
    }
  }

  lemma OneMore(a: nat, b: nat)
    ensures (a + 1) * b == a * b + b
  {
  }
}
