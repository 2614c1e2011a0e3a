/** The steps of `avl_tree_delete` on linked nodes. */
module AvlDelete {
  import opened AvlShape
  import opened AvlHeap
  import opened AvlRotate
  import opened AvlTree
  import opened AvlSwap
  import opened AvlHeights
  import opened AvlWalk

  /** The nodes around a trade are different, except that a node between `node` and `next` may be
      both child and parent. */
  ghost predicate Tradable(node: Node, next: Node, pp: Node?, l: Node, x: Node?, r: Node, p: Node) {
    && node != next && pp != node && pp != next && l != node && l != next && x != node && x != next
    && pp != l && x != l && (x != null ==> x != pp)
    && r != node && r != l && r != pp && r != x
    && p != next && p != l && p != pp && p != x
    && (r == next <==> p == node)
  }

  /** `next` takes the place of `node` above and to the left. */
  method LiftNext(node: Node, next: Node)
    requires node.left != null && next.left == null && Attached(node)
    requires node != next && node.parent != next && node.left != node && node.left != next && node.parent != node.left
    modifies next, Only(node.parent), node.left
    ensures Now(next) == old(Now(next)).(left := old(node.left), parent := old(node.parent))
    ensures Repointed(old(node.parent), node, next)
    ensures Now(old(node.left)) == old(Now(node.left)).(parent := next)
  {
    FixupLink(node, next, node.parent);
    FixupLink(next.left, node.left, next);
  }

  /** `node` takes the place of `next`, which hung from `p` and has `x` on the right; `next` takes the
      right subtree of `node`. */
  method LowerNode(node: Node, next: Node, x: Node?, p: Node)
    requires node.right != null && next.left != x && next.right == x
    requires node != next && x != node && x != next && p != next && p != x && node.right != node && node.right != x
    requires (node.right == next <==> p == node) && (node.right != next ==> p.left == next)
    modifies node, next, Only(x), node.right, p
    ensures var r := old(node.right);
      && Now(next) == old(Now(next)).(right := if r == next then node else r)
      && Now(node) == old(Now(node)).(left := null, right := x, parent := if r == next then next else p)
      && (x != null ==> Now(x) == old(Now(x)).(parent := node))
      && (r != next ==> Now(r) == old(Now(r)).(parent := next, left := if p == r then node else old(r.left)))
      && (r != next && p != r ==> Now(p) == old(Now(p)).(left := node))
  {
    if next == node.right {
      next.right := node;
      node.parent := next;
    } else {
      FixupLink(next.right, node.right, next);
      FixupLink(next, node, p);
    }
    node.left := null;
    FixupLink(node.right, x, node);
  }

  /** The trade of places in `avl_tree_delete`, pointer by pointer. */
  method TradePlaces(node: Node, next: Node)
    requires node.left != null && node.right != null && next.left == null && next.parent != null
    requires Tradable(node, next, node.parent, node.left, next.right, node.right, next.parent)
    requires Attached(node) && (next != node.right ==> next.parent.left == next)
    modifies node, next, Only(node.parent), node.left, Only(next.right), node.right, next.parent
    ensures var pp, l, r, x, p := old(node.parent), old(node.left), old(node.right), old(next.right), old(next.parent);
      && Now(next) == Fields(l, if r == next then node else r, pp, old(node.balance))
      && Now(node) == Fields(null, x, if r == next then next else p, old(next.balance))
      && Repointed(pp, node, next)
      && Now(l) == old(Now(l)).(parent := next)
      && (x != null ==> Now(x) == old(Now(x)).(parent := node))
      && (r != next ==> Now(r) == old(Now(r)).(parent := next, left := if p == r then node else old(r.left)))
      && (r != next && p != r ==> Now(p) == old(Now(p)).(left := node))
  {
    var tmpRight, tmpParent, tmpBalance := next.right, next.parent, next.balance;
    LiftNext(node, next);
    LowerNode(node, next, tmpRight, tmpParent);
    next.balance := node.balance;
    node.balance := tmpBalance;
  }

  lemma NearTradable(c: Context, n: Node, b: int, l: Shape, next: Node, bx: int, x: Shape, h: Snapshot)
    requires l.Bin? && Zipped(Under(Right, n, b, l, c), Bin(Nil, next, bx, x), h)
    ensures n in h && h[n] == Fields(l.n, next, ParentIn(c), b)
    ensures next in h && h[next] == Fields(null, RootOf(x), n, bx)
    ensures Tradable(n, next, ParentIn(c), l.n, RootOf(x), next, n)
      && ChildOf(c, Bin(l, n, b, Bin(Nil, next, bx, x)), h)
    ensures l.n in h && (x.Bin? ==> x.n in h)
  {
    var t := Bin(Nil, next, bx, x);
    assert next in Nodes(t) && Nodes(t) == Nodes(x) + {next};
    assert x.Bin? ==> x.n in Nodes(x);
    assert c.Under? ==> c.n in CtxNodes(c);
    assert l.n in Nodes(l);
    Ascend(Under(Right, n, b, l, c), t, h);
    WhichChild(c, Bin(l, n, b, t), h);
  }

  lemma FarTradable(d: Context, c: Context, n: Node, b: int, l: Shape, next: Node, bx: int, x: Shape, h: Snapshot)
    requires d.Under? && d.side.Left? && l.Bin? && Zipped(Append(d, Under(Right, n, b, l, c)), Bin(Nil, next, bx, x), h)
    ensures n in h && h[n] == Fields(l.n, Outer(d), ParentIn(c), b)
    ensures next in h && h[next] == Fields(null, RootOf(x), d.n, bx)
    ensures Tradable(n, next, ParentIn(c), l.n, RootOf(x), Outer(d), d.n)
    ensures c.Under? ==> c.n in h && (h[c.n].left == n || h[c.n].right == n)
    ensures d.n in h && h[d.n].left == next && Outer(d) in h
    ensures l.n in h && (x.Bin? ==> x.n in h)
    ensures d.up.Under? ==> d.n != Outer(d)
  {
    TakeFar(d, c, n, b, l, next, bx, x, h);
    OuterIn(d, h);
    assert d.n in CtxNodes(d);
    assert x.Bin? ==> x.n in Nodes(x);
    assert c.Under? ==> c.n in CtxNodes(c);
    assert l.n in Nodes(l);
  }

  /** `TradePlaces`, as seen in the snapshots before and after. */
  method TradeSeen(node: Node, next: Node, ghost all: set<Node>) returns (ghost h: Snapshot)
    requires node.left != null && node.right != null && next.left == null && next.parent != null
    requires Tradable(node, next, node.parent, node.left, next.right, node.right, next.parent)
    requires Attached(node) && (next != node.right ==> next.parent.left == next)
    requires {node, next, node.left, node.right, next.parent} + Only(node.parent) + Only(next.right) <= all
    modifies all
    ensures h == old(Capture(all))
    ensures var pp, l, r, x, p := old(node.parent), old(node.left), old(node.right), old(next.right), old(next.parent);
      && Traded(node, next, pp, l, x, if r == next then node else r, if r == next then next else p, h, Capture(all))
      && OnlyTraded(node, next, pp, l, x, r, p, h, Capture(all))
      && (r != next ==> EndsRelinked(r, p, node, next, h, Capture(all)))
  {
    h := Capture(all);
    TradePlaces(node, next);
  }

  method TradeAdjacent(node: Node, next: Node, ghost c: Context, ghost b: int, ghost l: Shape,
                       ghost bx: int, ghost x: Shape, ghost all: set<Node>)
    requires l.Bin? && Zipped(Under(Right, node, b, l, c), Bin(Nil, next, bx, x), Capture(all))
    modifies all
    ensures Zipped(Under(Right, next, b, l, c), Bin(Nil, node, bx, x), Capture(all))
  {
    NearTradable(c, node, b, l, next, bx, x, Capture(all));
    assert Now(node) == Capture(all)[node] && Now(next) == Capture(all)[next];
    assert c.Under? ==> Now(c.n) == Capture(all)[c.n];
    ghost var h := TradeSeen(node, next, all);
    TradeNear(c, node, b, l, next, bx, x, h, Capture(all));
  }

  method TradeApart(node: Node, next: Node, ghost d: Context, ghost c: Context, ghost b: int, ghost l: Shape,
                    ghost bx: int, ghost x: Shape, ghost all: set<Node>)
    requires l.Bin? && Zipped(Append(d, Under(Right, node, b, l, c)), Bin(Nil, next, bx, x), Capture(all))
    requires d.Under? && d.side.Left?
    modifies all
    ensures Zipped(Append(d, Under(Right, next, b, l, c)), Bin(Nil, node, bx, x), Capture(all))
  {
    FarTradable(d, c, node, b, l, next, bx, x, Capture(all));
    assert Now(node) == Capture(all)[node] && Now(next) == Capture(all)[next];
    assert c.Under? ==> Now(c.n) == Capture(all)[c.n];
    assert Now(d.n) == Capture(all)[d.n];
    ghost var h := TradeSeen(node, next, all);
    TradeFar(d, c, node, b, l, next, bx, x, h, Capture(all));
  }

  lemma PathIsTop(d: Context, c: Context, t: Shape, u: Shape, h: Snapshot)
    requires t.Bin? && t.r.Bin? && u.Bin? && Plug(d, u) == t.r && u.n == t.r.n
    requires Zipped(Append(d, Under(Right, t.n, t.b, t.l, c)), u, h)
    ensures d == Top
  {
    PlugRoot(d, u);
    AppendNodes(d, Under(Right, t.n, t.b, t.l, c));
    assert u.n in Nodes(u);
  }

  /** With no left subtree, a node of a balanced tree has at most a leaf on the right. */
  ghost predicate Thin(u: Shape) {
    u.Bin? && u.l.Nil? && (u.b == 0 || u.b == 1) && (u.r.Bin? ==> u.r.b == 0 && u.r.l.Nil? && u.r.r.Nil?)
  }

  lemma NextIsThin(t: Shape, d: Context, u: Shape)
    requires Balanced(t) && t.Bin? && Plug(d, u) == t.r && u.Bin? && u.l.Nil?
    ensures Thin(u)
  {
    AvlIsBalanced(t.r, Height(t.r));
    var h := UnplugAvl(d, u, Height(t.r));
    if u.r.Bin? {
      assert Avl(u.r, 1) && Avl(u.r.l, if u.r.b == 1 then -1 else 0) && Avl(u.r.r, if u.r.b == -1 then -1 else 0);
    }
  }

  /** The fields of a thin node in the tree. */
  lemma ThinFields(c: Context, u: Shape, h: Snapshot)
    requires Zipped(c, u, h) && Thin(u) && c.Under?
    ensures u.n in h && h[u.n] == Fields(null, RootOf(u.r), c.n, u.b)
    ensures u.r.Bin? ==> u.r.n in h && h[u.r.n] == Fields(null, null, u.n, 0)
  {
    if u.r.Bin? {
      assert Rep(u, h) && Rep(u.r, h) && Hangs(u.r, u.n, h);
      assert u.r.l == Nil && u.r.r == Nil;
    }
  }

  /** Finds the next node of `node`, which has two children. What the source asserts of the next node
      holds in every balanced tree. */
  method FindNext(node: Node, ghost c: Context, ghost t: Shape, ghost all: set<Node>)
      returns (next: Node, ghost d: Context, ghost u: Shape)
    requires Zipped(c, t, Capture(all)) && t.Bin? && t.n == node && t.l.Bin? && t.r.Bin? && Balanced(t)
    ensures u.Bin? && u.l == Nil && u.n == next && Plug(d, u) == t.r && Before(d) == [] && (d.Under? ==> d.side.Left?)
    ensures Zipped(Append(d, Under(Right, t.n, t.b, t.l, c)), u, Capture(all))
    ensures (next.balance == 0 || next.balance == 1) && next.parent != null
    ensures next.right != null ==> next.right.balance == 0 && next.right.left == null && next.right.right == null
  {
    var found;
    found, d, u := Next(node, c, t, all);
    next := found;
    NextIsThin(t, d, u);
    ghost var e := Append(d, Under(Right, t.n, t.b, t.l, c));
    ThinFields(e, u, Capture(all));
    assert Now(next) == Capture(all)[next];
    assert next.right != null ==> Now(next.right) == Capture(all)[next.right];
  }

  /** Finds the next node of `node`, which has two children, and trades places with it. */
  method TradeWithNext(node: Node, ghost c: Context, ghost t: Shape, ghost all: set<Node>)
      returns (next: Node, ghost d: Context, ghost u: Shape)
    requires Zipped(c, t, Capture(all)) && t.Bin? && t.n == node && t.l.Bin? && t.r.Bin? && Balanced(t)
    modifies all
    ensures u.Bin? && u.l == Nil && u.n == next && Plug(d, u) == t.r && Before(d) == []
    ensures Zipped(Append(d, Under(Right, next, t.b, t.l, c)), Bin(Nil, node, u.b, u.r), Capture(all))
  {
    next, d, u := FindNext(node, c, t, all);
    if next == node.right {
      PathIsTop(d, c, t, u, Capture(all));
      assert Now(node) == Capture(all)[node];
      TradeAdjacent(node, next, c, t.b, t.l, u.b, u.r, all);
    } else {
      assert Now(node) == Capture(all)[node];
      assert d.Under?;
      TradeApart(node, next, d, c, t.b, t.l, u.b, u.r, all);
    }
  }

  /** `t` without its root, which has at most one child. */
  ghost function Rest(t: Shape): Shape
    requires t.Bin?
  {
    if t.l.Nil? then t.r else t.l
  }

  lemma UnlinkedLinks(c: Context, t: Shape, h: Snapshot, h': Snapshot)
    requires Zipped(c, t, h) && t.Bin? && (t.l.Nil? || t.r.Nil?)
    requires OnlyTouched(null, null, ParentIn(c), RootOf(Rest(t)), h, h')
    requires Relinked(ParentIn(c), t.n, RootOf(Rest(t)), h, h') && Reparented(RootOf(Rest(t)), ParentIn(c), h, h')
    ensures Zipped(c, Rest(t), h')
  {
    var k := Rest(t);
    assert t.n in Nodes(t);
    assert Nodes(k) <= Nodes(t);
    assert k.Bin? ==> k.n in Nodes(k);
    assert c.Under? ==> c.n in CtxNodes(c);
    RepMoved(k, ParentIn(c), null, null, ParentIn(c), h, h');
    CtxMoved(c, t.n, RootOf(k), null, null, RootOf(k), h, h');
  }

  /** The only child of `node`, if any, takes its place below its parent. */
  method Bypass(node: Node, ghost all: set<Node>) returns (newRoot: Node?, ghost h: Snapshot)
    requires Attached(node) && (node.left == null || node.right == null) && node.left != node && node.right != node
    requires node.parent != null ==> node.parent != node.left && node.parent != node.right
    requires {node} + Only(node.parent) + Only(node.left) + Only(node.right) <= all
    modifies all
    ensures h == old(Capture(all)) && node.parent == old(node.parent)
    ensures newRoot == if old(node.left) == null then old(node.right) else old(node.left)
    ensures OnlyTouched(null, null, node.parent, newRoot, h, Capture(all))
    ensures Relinked(node.parent, node, newRoot, h, Capture(all)) && Reparented(newRoot, node.parent, h, Capture(all))
  {
    h := Capture(all);
    if node.left == null && node.right == null {
      newRoot := null;
      FixupLink(node, null, node.parent);
    } else if node.left != null && node.right == null {
      newRoot := node.left;
      FixupLink(node, node.left, node.parent);
    } else {
      newRoot := node.right;
      FixupLink(node, node.right, node.parent);
    }
  }

  /** Takes `node`, which has at most one child, out of the links. */
  method Unlink(node: Node, ghost c: Context, ghost t: Shape, ghost all: set<Node>) returns (newRoot: Node?)
    requires Zipped(c, t, Capture(all)) && t.Bin? && t.n == node && (t.l.Nil? || t.r.Nil?)
    modifies all
    ensures Zipped(c, Rest(t), Capture(all)) && newRoot == RootOf(Rest(t))
    ensures node.parent == ParentIn(c)
  {
    ghost var h, k := Capture(all), Rest(t);
    UnlinkFacts(c, t, h);
    assert Now(node) == h[node] && (c.Under? ==> Now(c.n) == h[c.n]);
    newRoot, h := Bypass(node, all);
    UnlinkedLinks(c, t, h, Capture(all));
  }

  lemma UnlinkFacts(c: Context, t: Shape, h: Snapshot)
    requires Zipped(c, t, h) && t.Bin? && (t.l.Nil? || t.r.Nil?)
    ensures ChildOf(c, t, h) && (c.Under? ==> c.n in h && c.n != t.n)
    ensures Rest(t).Bin? ==> Rest(t).n in h && Rest(t).n != t.n && (c.Under? ==> Rest(t).n != c.n)
  {
    var k := Rest(t);
    assert t.n in Nodes(t);
    assert Nodes(k) <= Nodes(t);
    assert k.Bin? ==> k.n in Nodes(k);
    assert c.Under? ==> c.n in CtxNodes(c);
    WhichChild(c, t, h);
  }

  // ---------------------------------------------------------------- What deletion leaves

  /** `s` without its element at `k`. */
  ghost function Drop1(s: seq<Node>, k: nat): seq<Node>
    requires k < |s|
  {
    s[..k] + s[k + 1..]
  }

  lemma DropMiddle(a: seq<Node>, l: seq<Node>, x: Node, r: seq<Node>, z: seq<Node>, s: seq<Node>)
    requires s == a + (l + [x] + r) + z
    ensures var k := |a| + |l|; k < |s| && s[k] == x && Drop1(s, k) == a + l + r + z
  {
    var k := |a| + |l|;
    assert s[..k] == a + l && s[k + 1..] == r + z;
  }

  /** The order of the nodes without the root of a cut subtree. */
  ghost function Without(c: Context, t: Shape): seq<Node>
    requires t.Bin?
  {
    Before(c) + InOrder(t.l) + InOrder(t.r) + After(c)
  }

  lemma WithoutDrops(c: Context, t: Shape)
    requires t.Bin?
    ensures var s, k := InOrder(Plug(c, t)), Position(c, t); k < |s| && s[k] == t.n && Drop1(s, k) == Without(c, t)
  {
    PlugInOrder(c, t);
    var a, l, r, z := Before(c), InOrder(t.l), InOrder(t.r), After(c);
    assert InOrder(t) == l + [t.n] + r;
    DropMiddle(a, l, t.n, r, z, InOrder(Plug(c, t)));
  }

  lemma RestOrder(c: Context, t: Shape)
    requires t.Bin? && (t.l.Nil? || t.r.Nil?)
    ensures InOrder(Plug(c, Rest(t))) == Without(c, t)
  {
    PlugInOrder(c, Rest(t));
  }

  lemma Regroup(a: seq<Node>, l: seq<Node>, x: seq<Node>, y: seq<Node>, d: seq<Node>, z: seq<Node>)
    ensures (a + l + x + []) + y + (d + z) == a + l + (x + y + d) + z
  {
  }

  lemma TradedOrder(c: Context, t: Shape, d: Context, u: Shape)
    requires t.Bin? && u.Bin? && u.l == Nil && Plug(d, u) == t.r && Before(d) == []
    ensures InOrder(Plug(Append(d, Under(Right, u.n, t.b, t.l, c)), u.r)) == Without(c, t)
  {
    var e := Under(Right, u.n, t.b, t.l, c);
    PlugInOrder(Append(d, e), u.r);
    AppendOrder(d, e);
    LeftmostIsFirst(d, u);
    Regroup(Before(c), InOrder(t.l), [u.n], InOrder(u.r), After(d), After(c));
  }

  /** Trading places keeps the tree balanced and its depth. */
  lemma TradedAvl(c: Context, t: Shape, d: Context, u: Shape, n: Node, h: int) returns (h': int)
    requires t.Bin? && u.Bin? && u.l == Nil && Plug(d, u) == t.r && Avl(Plug(c, t), h)
    ensures Avl(Bin(Nil, n, u.b, u.r), h') && CtxAvl(Append(d, Under(Right, u.n, t.b, t.l, c)), h')
    ensures Depth(Append(d, Under(Right, u.n, t.b, t.l, c))) < Height(Plug(c, t))
  {
    var e := Under(Right, t.n, t.b, t.l, c);
    PlugAppend(d, e, u);
    PlugHeight(Append(d, e), u);
    h' := UnplugAvl(Append(d, e), u, h);
    AppendAvl(d, e, Under(Right, u.n, t.b, t.l, c), h');
  }

  lemma RestAvl(t: Shape, h: int)
    requires t.Bin? && (t.l.Nil? || t.r.Nil?) && Avl(t, h)
    ensures Avl(Rest(t), h - 1)
  {
  }

  lemma RestStale(c: Context, t: Shape, h: int)
    requires c.Under? && t.Bin? && (t.l.Nil? || t.r.Nil?) && Avl(t, h) && CtxAvl(c, h)
    ensures Stale(c.up, Fill(c.side, c.n, c.b, c.sib, Rest(t)), c.side, h, -1)
  {
    RestAvl(t, h);
  }

  // ---------------------------------------------------------------- Both cases

  /** Where the node to delete is once it has at most one child. */
  ghost predicate Freed(c: Context, t: Shape, d: Context, u: Shape, c': Context, t': Shape)
    requires t.Bin?
  {
    if t.l.Bin? && t.r.Bin? then
      && u.Bin? && u.l == Nil && Plug(d, u) == t.r && Before(d) == []
      && c' == Append(d, Under(Right, u.n, t.b, t.l, c)) && t' == Bin(Nil, t.n, u.b, u.r)
    else c' == c && t' == t
  }

  lemma FreedAvl(c: Context, t: Shape, d: Context, u: Shape, c': Context, t': Shape) returns (h: int)
    requires t.Bin? && Freed(c, t, d, u, c', t') && Balanced(Plug(c, t))
    ensures Avl(t', h) && CtxAvl(c', h) && Depth(c') < Height(Plug(c, t))
  {
    AvlIsBalanced(Plug(c, t), Height(Plug(c, t)));
    if t.l.Bin? && t.r.Bin? {
      h := TradedAvl(c, t, d, u, t.n, Height(Plug(c, t)));
    } else {
      PlugHeight(c, t);
      h := UnplugAvl(c, t, Height(Plug(c, t)));
    }
  }

  lemma FreedOrder(c: Context, t: Shape, d: Context, u: Shape, c': Context, t': Shape)
    requires t.Bin? && Freed(c, t, d, u, c', t')
    ensures t'.Bin? && t'.n == t.n && (t'.l.Nil? || t'.r.Nil?) && InOrder(Plug(c', Rest(t'))) == Without(c, t)
  {
    if t.l.Bin? && t.r.Bin? {
      TradedOrder(c, t, d, u);
    } else {
      RestOrder(c, t);
    }
  }

  lemma FreedOuter(c: Context, t: Shape, d: Context, u: Shape, c': Context, t': Shape)
    requires t.Bin? && Freed(c, t, d, u, c', t')
    ensures if c.Under? then c'.Under? && Outer(c') == Outer(c)
            else c'.Under? ==> t.l.Bin? && t.r.Bin? && Outer(c') == u.n
    ensures c.Top? && t.l.Bin? && t.r.Bin? ==> c'.Under?
  {
    if t.l.Bin? && t.r.Bin? {
      AppendNodes(d, Under(Right, u.n, t.b, t.l, c));
    }
  }

  /** If `node` has two children, trades its place with the next node; then it has at most one. */
  method FreeNode(node: Node, ghost c: Context, ghost t: Shape, ghost all: set<Node>)
      returns (next: Node?, ghost d: Context, ghost u: Shape, ghost c0: Context, ghost t0: Shape)
    requires Zipped(c, t, Capture(all)) && t.Bin? && t.n == node && Balanced(t)
    modifies all
    ensures Freed(c, t, d, u, c0, t0) && Zipped(c0, t0, Capture(all))
    ensures if t.l.Bin? && t.r.Bin? then u.Bin? && next == u.n else next == null
  {
    assert Now(node) == Capture(all)[node];
    next, d, u, c0, t0 := null, c, t, c, t;
    if node.left != null && node.right != null {
      next, d, u := TradeWithNext(node, c, t, all);
      c0, t0 := Append(d, Under(Right, u.n, t.b, t.l, c)), Bin(Nil, node, u.b, u.r);
    }
  }
}
