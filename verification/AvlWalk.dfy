/** Walks along the links of an AVL tree: neighbours in order, searches and the balance check. */
module AvlWalk {
  import opened AvlShape
  import opened AvlHeap
  import opened AvlTree

  // ---------------------------------------------------------------- Neighbours

  /** What comes right after position `k`. */
  ghost function After1(s: seq<Node>, k: nat): Node? {
    if k + 1 < |s| then s[k + 1] else null
  }

  /** What comes right before position `k`. */
  ghost function Before1(s: seq<Node>, k: nat): Node?
    requires k <= |s|
  {
    if k == 0 then null else s[k - 1]
  }

  /** The position of the root of a cut subtree in the whole. */
  ghost function Position(c: Context, t: Shape): nat
    requires t.Bin?
  {
    |Before(c)| + |InOrder(t.l)|
  }

  lemma AtPosition(c: Context, t: Shape)
    requires t.Bin?
    ensures var s, k := InOrder(Plug(c, t)), Position(c, t); k < |s| && s[k] == t.n
  {
    PlugInOrder(c, t);
  }

  /** Leftmost node of a cut subtree. */
  method Leftmost(start: Node, ghost c: Context, ghost t: Shape, ghost all: set<Node>)
      returns (node: Node, ghost d: Context, ghost u: Shape)
    requires Zipped(c, t, Capture(all)) && t.Bin? && t.n == start
    ensures Zipped(Append(d, c), u, Capture(all)) && Plug(d, u) == t
    ensures u.Bin? && u.n == node && u.l == Nil && Before(d) == [] && (d.Under? ==> d.side.Left?)
  {
    node, d, u := start, Top, t;
    assert Now(node) == Capture(all)[node];
    while node.left != null
      invariant Zipped(Append(d, c), u, Capture(all)) && Plug(d, u) == t
      invariant u.Bin? && u.n == node && Before(d) == [] && (d.Under? ==> d.side.Left?)
      invariant Now(node) == Capture(all)[node]
      decreases u
    {
      Descend(Append(d, c), Left, u.n, u.b, u.r, u.l, Capture(all));
      d, u := Under(Left, u.n, u.b, u.r, d), u.l;
      node := node.left;
      assert Now(node) == Capture(all)[node];
    }
  }

  /** Rightmost node of a cut subtree. */
  method Rightmost(start: Node, ghost c: Context, ghost t: Shape, ghost all: set<Node>)
      returns (node: Node, ghost d: Context, ghost u: Shape)
    requires Zipped(c, t, Capture(all)) && t.Bin? && t.n == start
    ensures Zipped(Append(d, c), u, Capture(all)) && Plug(d, u) == t
    ensures u.Bin? && u.n == node && u.r == Nil && After(d) == []
  {
    node, d, u := start, Top, t;
    assert Now(node) == Capture(all)[node];
    while node.right != null
      invariant Zipped(Append(d, c), u, Capture(all)) && Plug(d, u) == t
      invariant u.Bin? && u.n == node && After(d) == []
      invariant Now(node) == Capture(all)[node]
      decreases u
    {
      Descend(Append(d, c), Right, u.n, u.b, u.l, u.r, Capture(all));
      d, u := Under(Right, u.n, u.b, u.l, d), u.r;
      node := node.right;
      assert Now(node) == Capture(all)[node];
    }
  }

  lemma LeftmostIsFirst(d: Context, u: Shape)
    requires u.Bin? && u.l == Nil && Before(d) == []
    ensures InOrder(Plug(d, u)) == [u.n] + InOrder(u.r) + After(d)
  {
    PlugInOrder(d, u);
  }

  lemma RightmostIsLast(d: Context, u: Shape)
    requires u.Bin? && u.r == Nil && After(d) == []
    ensures InOrder(Plug(d, u)) == Before(d) + InOrder(u.l) + [u.n]
  {
    PlugInOrder(d, u);
  }

  /** Which child of its parent `node` is. */
  ghost predicate ChildOf(c: Context, t: Shape, h: Snapshot)
    requires t.Bin?
  {
    && t.n in h && h[t.n].parent == ParentIn(c)
    && (c.Under? ==> c.n in h && (h[c.n].left == t.n <==> c.side.Left?) && (h[c.n].right == t.n <==> c.side.Right?))
  }

  lemma WhichChild(c: Context, t: Shape, h: Snapshot)
    requires Zipped(c, t, h) && t.Bin?
    ensures ChildOf(c, t, h)
  {
    assert t.n in Nodes(t);
    assert c.Under? && c.sib.Bin? ==> c.sib.n in Nodes(c.sib);
  }

  /** A climb along right children: `p` is what is not after the subtree reached. */
  ghost predicate RightClimb(c: Context, t: Shape, p: seq<Node>, s: seq<Node>) {
    Before(c) + InOrder(t) == p && s == p + After(c)
  }

  lemma UpFromRight(c: Context, t: Shape, p: seq<Node>, s: seq<Node>, h: Snapshot)
    requires RightClimb(c, t, p, s) && Zipped(c, t, h) && c.Under? && c.side.Right?
    ensures var t' := Fill(c.side, c.n, c.b, c.sib, t);
      RightClimb(c.up, t', p, s) && Zipped(c.up, t', h) && ChildOf(c.up, t', h)
  {
    assert Before(c.up) + (InOrder(c.sib) + [c.n] + InOrder(t)) == Before(c.up) + InOrder(c.sib) + [c.n] + InOrder(t);
    Ascend(c, t, h);
    WhichChild(c.up, Fill(c.side, c.n, c.b, c.sib, t), h);
  }

  lemma RightClimbEnds(c: Context, t: Shape, p: seq<Node>, s: seq<Node>, k: nat)
    requires RightClimb(c, t, p, s) && (c.Top? || c.side.Left?) && |p| == k + 1
    ensures After1(s, k) == ParentIn(c)
  {
  }

  /** A climb along left children: `p` is what is not before the subtree reached. */
  ghost predicate LeftClimb(c: Context, t: Shape, p: seq<Node>, s: seq<Node>) {
    InOrder(t) + After(c) == p && s == Before(c) + p
  }

  lemma UpFromLeft(c: Context, t: Shape, p: seq<Node>, s: seq<Node>, h: Snapshot)
    requires LeftClimb(c, t, p, s) && Zipped(c, t, h) && c.Under? && c.side.Left?
    ensures var t' := Fill(c.side, c.n, c.b, c.sib, t);
      LeftClimb(c.up, t', p, s) && Zipped(c.up, t', h) && ChildOf(c.up, t', h)
  {
    assert InOrder(t) + [c.n] + InOrder(c.sib) + After(c.up) == InOrder(t) + ([c.n] + InOrder(c.sib) + After(c.up));
    Ascend(c, t, h);
    WhichChild(c.up, Fill(c.side, c.n, c.b, c.sib, t), h);
  }

  lemma LeftClimbEnds(c: Context, t: Shape, p: seq<Node>, s: seq<Node>, k: nat)
    requires LeftClimb(c, t, p, s) && (c.Top? || c.side.Right?) && |s| == k + |p|
    ensures Before1(s, k) == ParentIn(c)
  {
  }

  lemma NextBelow(c: Context, t: Shape, d: Context, u: Shape)
    requires t.Bin? && t.r == Plug(d, u) && u.Bin? && u.l == Nil && Before(d) == []
    ensures After1(InOrder(Plug(c, t)), Position(c, t)) == u.n
  {
    PlugInOrder(c, t);
    LeftmostIsFirst(d, u);
  }

  lemma PrevBelow(c: Context, t: Shape, d: Context, u: Shape)
    requires t.Bin? && t.l == Plug(d, u) && u.Bin? && u.r == Nil && After(d) == []
    ensures Position(c, t) <= |InOrder(Plug(c, t))| && Before1(InOrder(Plug(c, t)), Position(c, t)) == u.n
  {
    PlugInOrder(c, t);
    RightmostIsLast(d, u);
  }

  lemma ClimbStarts(c: Context, t: Shape)
    requires t.Bin?
    ensures t.r.Nil? ==> RightClimb(c, t, Before(c) + InOrder(t), InOrder(Plug(c, t)))
    ensures t.r.Nil? ==> |Before(c) + InOrder(t)| == Position(c, t) + 1
    ensures t.l.Nil? ==> LeftClimb(c, t, InOrder(t) + After(c), InOrder(Plug(c, t)))
    ensures t.l.Nil? ==> |InOrder(Plug(c, t))| == Position(c, t) + |InOrder(t) + After(c)|
  {
    PlugInOrder(c, t);
    assert Before(c) + InOrder(t) + After(c) == Before(c) + (InOrder(t) + After(c));
  }

  /** `avl_tree_next`. When the node has a right subtree, also how the next node hangs in it. */
  method Next(node: Node, ghost c: Context, ghost t: Shape, ghost all: set<Node>)
      returns (next: Node?, ghost d: Context, ghost u: Shape)
    requires Zipped(c, t, Capture(all)) && t.Bin? && t.n == node
    ensures next == After1(InOrder(Plug(c, t)), Position(c, t))
    ensures t.r.Bin? ==>
      && Zipped(Append(d, Under(Right, t.n, t.b, t.l, c)), u, Capture(all)) && Plug(d, u) == t.r
      && u.Bin? && u.n == next && u.l == Nil && Before(d) == [] && (d.Under? ==> d.side.Left?)
  {
    ghost var h := Capture(all);
    assert Now(node) == h[node];
    d, u := c, t;
    if node.right != null {
      Descend(c, Right, t.n, t.b, t.l, t.r, h);
      next, d, u := Leftmost(node.right, Under(Right, t.n, t.b, t.l, c), t.r, all);
      NextBelow(c, t, d, u);
    } else {
      next := NextAbove(node, c, t, all);
    }
  }

  method NextAbove(node: Node, ghost c: Context, ghost t: Shape, ghost all: set<Node>) returns (next: Node?)
    requires Zipped(c, t, Capture(all)) && t.Bin? && t.n == node && t.r == Nil
    ensures next == After1(InOrder(Plug(c, t)), Position(c, t))
  {
    var at := node;
    ghost var d, u, h, p, s := c, t, Capture(all), Before(c) + InOrder(t), InOrder(Plug(c, t));
    ClimbStarts(c, t);
    WhichChild(c, t, h);
    while at.parent != null && at.parent.right == at
      invariant Zipped(d, u, h) && u.Bin? && ChildOf(d, u, h) && u.n == at && RightClimb(d, u, p, s)
      invariant Now(at) == h[at] && (d.Under? ==> Now(d.n) == h[d.n])
      decreases d
    {
      UpFromRight(d, u, p, s, h);
      at := at.parent;
      d, u := d.up, Fill(d.side, d.n, d.b, d.sib, u);
    }
    RightClimbEnds(d, u, p, s, Position(c, t));
    next := at.parent;
  }

  method Prev(node: Node, ghost c: Context, ghost t: Shape, ghost all: set<Node>) returns (prev: Node?)
    requires Zipped(c, t, Capture(all)) && t.Bin? && t.n == node
    ensures Position(c, t) <= |InOrder(Plug(c, t))| && prev == Before1(InOrder(Plug(c, t)), Position(c, t))
  {
    ghost var h := Capture(all);
    assert Now(node) == h[node];
    if node.left != null {
      Descend(c, Left, t.n, t.b, t.r, t.l, h);
      ghost var d, u;
      prev, d, u := Rightmost(node.left, Under(Left, t.n, t.b, t.r, c), t.l, all);
      PrevBelow(c, t, d, u);
    } else {
      prev := PrevAbove(node, c, t, all);
    }
  }

  method PrevAbove(node: Node, ghost c: Context, ghost t: Shape, ghost all: set<Node>) returns (prev: Node?)
    requires Zipped(c, t, Capture(all)) && t.Bin? && t.n == node && t.l == Nil
    ensures Position(c, t) <= |InOrder(Plug(c, t))| && prev == Before1(InOrder(Plug(c, t)), Position(c, t))
  {
    var at := node;
    ghost var d, u, h, p, s := c, t, Capture(all), InOrder(t) + After(c), InOrder(Plug(c, t));
    ClimbStarts(c, t);
    WhichChild(c, t, h);
    while at.parent != null && at.parent.left == at
      invariant Zipped(d, u, h) && u.Bin? && ChildOf(d, u, h) && u.n == at && LeftClimb(d, u, p, s)
      invariant Now(at) == h[at] && (d.Under? ==> Now(d.n) == h[d.n])
      decreases d
    {
      UpFromLeft(d, u, p, s, h);
      at := at.parent;
      d, u := d.up, Fill(d.side, d.n, d.b, d.sib, u);
    }
    LeftClimbEnds(d, u, p, s, Position(c, t));
    prev := at.parent;
  }

  // ---------------------------------------------------------------- The balance check

  /** `avl_tree_is_balanced_size`: right for every linked tree, whatever its balance fields say. */
  method IsBalancedSize(node: Node?, ghost t: Shape, ghost all: set<Node>) returns (ret: bool, size: nat)
    requires Rep(t, Capture(all)) && node == RootOf(t)
    ensures size == Height(t) && (ret <==> Balanced(t))
    decreases t
  {
    if node == null {
      return true, 0;
    }
    assert Now(node) == Capture(all)[node];
    var a, b;
    ret, a := IsBalancedSize(node.left, t.l, all);
    var retRight;
    retRight, b := IsBalancedSize(node.right, t.r, all);
    ret := ret && retRight;

    if a < b {
      ret := ret && b - a == 1;
      ret := ret && node.balance == 1;
      size := b;
    } else if a == b {
      ret := ret && node.balance == 0;
      size := a;
    } else {
      ret := ret && a - b == 1;
      ret := ret && node.balance == -1;
      size := a;
    }
    size := size + 1;
  }
}
