/** Orders on nodes, and the searches of avl_tree.c as walks down a shape. */
module AvlSearch {
  import opened AvlHeap
  import opened AvlShape
  import opened Basics

  type Order = (Node, Node) -> bool

  /** `cmp` is a total preorder (<=) on `s`. */
  ghost predicate Orders(cmp: Order, s: set<Node>) {
    && (forall a, b :: a in s && b in s ==> cmp(a, b) || cmp(b, a))
    && (forall a, b, c :: a in s && b in s && c in s && cmp(a, b) && cmp(b, c) ==> cmp(a, c))
  }

  ghost predicate Sorted(cmp: Order, s: seq<Node>) {
    forall i, j :: 0 <= i < j < |s| ==> cmp(s[i], s[j])
  }

  lemma {:induction false} RepDistinct(t: Shape, h: Snapshot)
    requires Rep(t, h)
    ensures Distinct(InOrder(t))
  {
    if t.Bin? {
      RepDistinct(t.l, h);
      RepDistinct(t.r, h);
      forall i | 0 <= i < |InOrder(t.l)|
        ensures InOrder(t.l)[i] in Nodes(t.l)
      {
        NodesAreInOrder(t.l, InOrder(t.l)[i]);
      }
      forall i | 0 <= i < |InOrder(t.r)|
        ensures InOrder(t.r)[i] in Nodes(t.r)
      {
        NodesAreInOrder(t.r, InOrder(t.r)[i]);
      }
    }
  }

  /** `k` is the first position of `s` whose element is not smaller than `x`. */
  ghost predicate FirstNotBelow(cmp: Order, s: seq<Node>, k: nat, x: Node) {
    k <= |s| && (forall i :: 0 <= i < k ==> !cmp(x, s[i])) && (k < |s| ==> cmp(x, s[k]))
  }

  // ---------------------------------------------------------------- Lower bound

  /** Once `p` holds along `s`, it keeps holding. */
  ghost predicate Monotone(p: Node -> bool, s: seq<Node>) {
    forall i, j :: 0 <= i < j < |s| && p(s[i]) ==> p(s[j])
  }

  /** `k` is the first position of `s` where `p` holds. */
  ghost predicate FirstWhere(p: Node -> bool, s: seq<Node>, k: nat) {
    k <= |s| && (forall i :: 0 <= i < k ==> !p(s[i])) && (k < |s| ==> p(s[k]))
  }

  /** What is at position `k`, if anything. */
  ghost function At(s: seq<Node>, k: nat): Node? {
    if k < |s| then s[k] else null
  }

  /** Where the search for the first node with `p` stands: `best` is the first one after `t`. */
  ghost predicate Narrowed(p: Node -> bool, s: seq<Node>, c: Context, t: Shape, best: Node?) {
    && s == Before(c) + InOrder(t) + After(c)
    && (forall n :: n in Before(c) ==> !p(n))
    && best == At(After(c), 0) && (best != null ==> p(best))
  }

  lemma NarrowLeft(p: Node -> bool, s: seq<Node>, c: Context, t: Shape, best: Node?)
    requires t.Bin? && Narrowed(p, s, c, t, best) && p(t.n)
    ensures Narrowed(p, s, Under(Left, t.n, t.b, t.r, c), t.l, t.n)
  {
    assert Before(c) + (InOrder(t.l) + [t.n] + InOrder(t.r)) + After(c) ==
           Before(c) + InOrder(t.l) + ([t.n] + InOrder(t.r) + After(c));
  }

  lemma NarrowRight(p: Node -> bool, s: seq<Node>, c: Context, t: Shape, best: Node?)
    requires t.Bin? && Narrowed(p, s, c, t, best) && !p(t.n) && Monotone(p, s)
    ensures Narrowed(p, s, Under(Right, t.n, t.b, t.l, c), t.r, best)
  {
    var k := |Before(c)| + |InOrder(t.l)|;
    assert s[k] == t.n;
    forall n | n in InOrder(t.l)
      ensures !p(n)
    {
      var i :| 0 <= i < |InOrder(t.l)| && InOrder(t.l)[i] == n;
      assert s[|Before(c)| + i] == n;
    }
    assert Before(c) + (InOrder(t.l) + [t.n] + InOrder(t.r)) + After(c) ==
           (Before(c) + InOrder(t.l) + [t.n]) + InOrder(t.r) + After(c);
  }

  lemma NarrowedOut(p: Node -> bool, s: seq<Node>, c: Context, best: Node?)
    requires Narrowed(p, s, c, Nil, best)
    ensures FirstWhere(p, s, |Before(c)|) && best == At(s, |Before(c)|)
  {
  }

  // ---------------------------------------------------------------- Find

  ghost predicate Equal(cmp: Order, x: Node, n: Node) {
    cmp(x, n) && cmp(n, x)
  }

  /** Every node of `s` that equals `x` is in `t`. */
  ghost predicate Confined(cmp: Order, s: seq<Node>, t: Shape, x: Node) {
    forall n :: n in s && Equal(cmp, x, n) ==> n in InOrder(t)
  }

  /** A step to the side of `t` where the equal nodes must be. */
  lemma ConfinedDown(cmp: Order, s: seq<Node>, t: Shape, x: Node)
    requires t.Bin? && Confined(cmp, s, t, x) && Sorted(cmp, InOrder(t)) && Orders(cmp, Nodes(t) + {x})
    requires !Equal(cmp, x, t.n)
    ensures Sorted(cmp, InOrder(t.l)) && Sorted(cmp, InOrder(t.r))
    ensures Confined(cmp, s, if cmp(x, t.n) then t.l else t.r, x)
  {
    var o, k := InOrder(t), |InOrder(t.l)|;
    assert o[k] == t.n && o[..k] == InOrder(t.l) && o[k + 1..] == InOrder(t.r);
    forall n | n in s && Equal(cmp, x, n)
      ensures n in InOrder(if cmp(x, t.n) then t.l else t.r)
    {
      var i :| 0 <= i < |o| && o[i] == n;
      NodesAreInOrder(t, n);
    }
  }
}
