/** AVL trees as values: what the linked nodes of `avl_tree` spell out.

A `Shape` names the nodes in tree order together with their balance fields, and a `Context` is a
tree with one subtree cut out, listed from the cut upwards. Climbing parent pointers is moving
from a context to the one above it. */
module AvlShape {

  /** Links of `struct avl_tree_node`. */
  class Node {
    var left: Node?
    var right: Node?
    var parent: Node?
    var balance: int

    constructor ()
      ensures left == null && right == null && parent == null && balance == 0
    {
      left, right, parent, balance := null, null, null, 0;
    }
  }

  datatype Shape = Nil | Bin(l: Shape, n: Node, b: int, r: Shape)

  datatype Side = Left | Right

  /** `Under(side, n, b, sib, up)`: the cut subtree is the `side` child of `n`, whose other child
      is `sib`. */
  datatype Context = Top | Under(side: Side, n: Node, b: int, sib: Shape, up: Context)

  ghost function RootOf(t: Shape): Node? {
    if t.Nil? then null else t.n
  }

  ghost function Nodes(t: Shape): set<Node> {
    match t
    case Nil => {}
    case Bin(l, n, _, r) => Nodes(l) + {n} + Nodes(r)
  }

  ghost function InOrder(t: Shape): seq<Node> {
    match t
    case Nil => []
    case Bin(l, n, _, r) => InOrder(l) + [n] + InOrder(r)
  }

  ghost function Height(t: Shape): nat {
    match t
    case Nil => 0
    case Bin(l, _, _, r) => 1 + Larger(Height(l), Height(r))
  }

  /** Every balance field is right height minus left height, and lies in -1..1. */
  ghost predicate Balanced(t: Shape) {
    match t
    case Nil => true
    case Bin(l, _, b, r) => b == Height(r) - Height(l) && -1 <= b <= 1 && Balanced(l) && Balanced(r)
  }

  // ---------------------------------------------------------------- Contexts

  ghost function Fill(side: Side, n: Node, b: int, sib: Shape, t: Shape): Shape {
    if side.Left? then Bin(t, n, b, sib) else Bin(sib, n, b, t)
  }

  ghost function Plug(c: Context, t: Shape): Shape
    decreases c
  {
    match c
    case Top => t
    case Under(side, n, b, sib, up) => Plug(up, Fill(side, n, b, sib, t))
  }

  ghost function CtxNodes(c: Context): set<Node> {
    match c
    case Top => {}
    case Under(_, n, _, sib, up) => {n} + Nodes(sib) + CtxNodes(up)
  }

  /** The node right above the cut. */
  ghost function ParentIn(c: Context): Node? {
    if c.Top? then null else c.n
  }

  /** The topmost node of a context. */
  ghost function Outer(c: Context): (n: Node)
    requires c.Under?
    ensures n in CtxNodes(c)
  {
    if c.up.Top? then c.n else Outer(c.up)
  }

  /** The nodes that come before and after the cut subtree, in order. */
  ghost function Before(c: Context): seq<Node> {
    match c
    case Top => []
    case Under(side, n, _, sib, up) =>
      if side.Left? then Before(up) else Before(up) + InOrder(sib) + [n]
  }

  ghost function After(c: Context): seq<Node> {
    match c
    case Top => []
    case Under(side, n, _, sib, up) =>
      if side.Left? then [n] + InOrder(sib) + After(up) else After(up)
  }

  /** A balanced tree of height `h`, read off the balance fields alone. */
  ghost predicate Avl(t: Shape, h: int) {
    match t
    case Nil => h == 0
    case Bin(l, _, b, r) =>
      h >= 1 && -1 <= b <= 1 && Avl(l, if b == 1 then h - 2 else h - 1) && Avl(r, if b == -1 then h - 2 else h - 1)
  }

  /** The height of the other child of a node with balance `b` whose `side` child has height `h`. */
  function Beside(side: Side, b: int, h: int): int {
    if side.Left? then h + b else h - b
  }

  /** The context around a cut of height `h` is balanced. */
  ghost predicate CtxAvl(c: Context, h: int) {
    match c
    case Top => true
    case Under(side, _, b, sib, up) =>
      -1 <= b <= 1 && Avl(sib, Beside(side, b, h)) && CtxAvl(up, 1 + Larger(h, Beside(side, b, h)))
  }

  function Larger(a: int, b: int): int { if a < b then b else a }

  ghost function Depth(c: Context): nat {
    if c.Top? then 0 else 1 + Depth(c.up)
  }

  lemma {:induction false} PlugInOrder(c: Context, t: Shape)
    ensures InOrder(Plug(c, t)) == Before(c) + InOrder(t) + After(c)
    decreases c
  {
    if c.Under? {
      PlugInOrder(c.up, Fill(c.side, c.n, c.b, c.sib, t));
    }
  }

  lemma {:induction false} PlugNodes(c: Context, t: Shape)
    ensures Nodes(Plug(c, t)) == CtxNodes(c) + Nodes(t)
    decreases c
  {
    if c.Under? {
      PlugNodes(c.up, Fill(c.side, c.n, c.b, c.sib, t));
    }
  }

  lemma {:induction false} AvlIsBalanced(t: Shape, h: int)
    ensures Avl(t, h) <==> Balanced(t) && Height(t) == h
  {
    if t.Bin? {
      AvlIsBalanced(t.l, if t.b == 1 then h - 2 else h - 1);
      AvlIsBalanced(t.r, if t.b == -1 then h - 2 else h - 1);
    }
  }

  lemma FillAvl(side: Side, n: Node, b: int, sib: Shape, t: Shape, h: int)
    requires -1 <= b <= 1 && Avl(t, h) && Avl(sib, Beside(side, b, h))
    ensures Avl(Fill(side, n, b, sib, t), 1 + Larger(h, Beside(side, b, h)))
  {
  }

  lemma {:induction false} PlugAvl(c: Context, t: Shape, h: int) returns (h': int)
    requires Avl(t, h) && CtxAvl(c, h)
    ensures Avl(Plug(c, t), h')
    decreases c
  {
    h' := h;
    if c.Under? {
      FillAvl(c.side, c.n, c.b, c.sib, t, h);
      h' := PlugAvl(c.up, Fill(c.side, c.n, c.b, c.sib, t), 1 + Larger(h, Beside(c.side, c.b, h)));
    }
  }

  lemma {:induction false} UnplugAvl(c: Context, t: Shape, h': int) returns (h: int)
    requires Avl(Plug(c, t), h')
    ensures Avl(t, h) && CtxAvl(c, h)
    decreases c
  {
    h := h';
    if c.Under? {
      h := UnplugAvl(c.up, Fill(c.side, c.n, c.b, c.sib, t), h');
      h := if c.side.Left? then (if c.b == 1 then h - 2 else h - 1) else (if c.b == -1 then h - 2 else h - 1);
    }
  }

  lemma {:induction false} PlugHeight(c: Context, t: Shape)
    ensures Depth(c) + Height(t) <= Height(Plug(c, t))
    decreases c
  {
    if c.Under? {
      PlugHeight(c.up, Fill(c.side, c.n, c.b, c.sib, t));
    }
  }

  lemma {:induction false} NodesAreInOrder(t: Shape, n: Node)
    ensures n in Nodes(t) <==> n in InOrder(t)
  {
    if t.Bin? {
      NodesAreInOrder(t.l, n);
      NodesAreInOrder(t.r, n);
    }
  }

  lemma {:induction false} PlugRoot(c: Context, t: Shape)
    ensures RootOf(Plug(c, t)) == if c.Top? then RootOf(t) else Outer(c)
    decreases c
  {
    if c.Under? {
      PlugRoot(c.up, Fill(c.side, c.n, c.b, c.sib, t));
    }
  }

  // ---------------------------------------------------------------- Contexts within contexts

  /** Context `d`, whose topmost node hangs at the cut of `e`. */
  ghost function Append(d: Context, e: Context): Context {
    if d.Top? then e else d.(up := Append(d.up, e))
  }

  lemma {:induction false} PlugAppend(d: Context, e: Context, t: Shape)
    ensures Plug(Append(d, e), t) == Plug(e, Plug(d, t))
    decreases d
  {
    if d.Under? {
      PlugAppend(d.up, e, Fill(d.side, d.n, d.b, d.sib, t));
    }
  }

  lemma {:induction false} AppendNodes(d: Context, e: Context)
    ensures CtxNodes(Append(d, e)) == CtxNodes(d) + CtxNodes(e)
    ensures e.Under? ==> Append(d, e).Under? && Outer(Append(d, e)) == Outer(e)
  {
    if d.Under? {
      AppendNodes(d.up, e);
    }
  }

  lemma {:induction false} AppendUnder(d: Context, frame: Context, e: Context)
    requires frame.Under? && frame.up == Top
    ensures Append(Append(d, frame), e) == Append(d, frame.(up := e))
  {
    if d.Under? {
      AppendUnder(d.up, frame, e);
    }
  }

  /** Balance does not depend on which node sits where. */
  lemma {:induction false} AppendAvl(d: Context, e: Context, e': Context, h: int)
    requires e.Under? && e'.Under? && e' == e.(n := e'.n) && CtxAvl(Append(d, e), h)
    ensures CtxAvl(Append(d, e'), h) && Depth(Append(d, e')) == Depth(Append(d, e))
    decreases d
  {
    if d.Under? {
      AppendAvl(d.up, e, e', 1 + Larger(h, Beside(d.side, d.b, h)));
    }
  }

  lemma {:induction false} AppendOrder(d: Context, e: Context)
    ensures Before(Append(d, e)) == Before(e) + Before(d)
    ensures After(Append(d, e)) == After(d) + After(e)
  {
    if d.Under? {
      AppendOrder(d.up, e);
    }
  }

  // ---------------------------------------------------------------- Cutting

  /** Cuts out the subtree rooted at `x`. */
  lemma {:induction false} Focus(c: Context, t: Shape, x: Node) returns (c': Context, t': Shape)
    requires x in Nodes(t)
    ensures Plug(c', t') == Plug(c, t)
    ensures t'.Bin? && t'.n == x
    decreases t
  {
    if t.n == x {
      c', t' := c, t;
    } else if x in Nodes(t.l) {
      c', t' := Focus(Under(Left, t.n, t.b, t.r, c), t.l, x);
    } else {
      c', t' := Focus(Under(Right, t.n, t.b, t.l, c), t.r, x);
    }
  }

  // ---------------------------------------------------------------- Fibonacci bound

  function Fib(k: nat): nat {
    if k < 2 then k else Fib(k - 1) + Fib(k - 2)
  }

  lemma {:induction false} FibMonotone(j: nat, k: nat)
    requires j <= k
    ensures Fib(j) <= Fib(k)
  {
    if j < k {
      FibMonotone(j, k - 1);
      if k == 1 {
        assert Fib(0) <= Fib(1);
      }
    }
  }

  lemma FibSum(h: nat, l: nat, r: nat)
    requires h == 1 + Larger(l, r) && h <= l + 2 && h <= r + 2
    ensures Fib(l + 2) + Fib(r + 2) >= Fib(h + 2)
  {
    FibMonotone(h, l + 2);
    FibMonotone(h, r + 2);
  }

  /** A balanced tree of height h has at least Fib(h + 2) - 1 nodes. */
  lemma {:induction false} BalancedIsShallow(t: Shape)
    requires Balanced(t)
    ensures |InOrder(t)| >= Fib(Height(t) + 2) - 1
  {
    if t.Bin? {
      BalancedIsShallow(t.l);
      BalancedIsShallow(t.r);
      FibSum(Height(t), Height(t.l), Height(t.r));
    }
  }

  /** 2^(h/2) <= Fib(h+2), so a balanced tree with n nodes has height at most 2*log2(n+1). */
  lemma {:induction false} FibGrows(h: nat)
    ensures Pow2(h / 2) <= Fib(h + 2)
  {
    if h >= 2 {
      FibGrows(h - 2);
      FibMonotone(h, h + 1);
      assert (h - 2) / 2 == h / 2 - 1;
    }
  }

  function Pow2(k: nat): nat { if k == 0 then 1 else 2 * Pow2(k - 1) }

  /** The height of a balanced tree, and with it every walk from the root and every number of
      rebalancing turns, is at most twice the logarithm of its size. */
  lemma HeightIsLogarithmic(t: Shape)
    requires Balanced(t)
    ensures Pow2(Height(t) / 2) <= |InOrder(t)| + 1
  {
    BalancedIsShallow(t);
    FibGrows(Height(t));
  }
}
