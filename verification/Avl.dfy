/** `struct avl_tree` and its operations. */
module Avl {
  import opened AvlShape
  import opened AvlHeap
  import opened AvlRotate
  import opened AvlTree
  import opened AvlBalance
  import opened AvlHeights
  import opened AvlSearch
  import opened AvlWalk
  import opened Basics
  import opened AvlDelete

  // ---------------------------------------------------------------- Snapshots of more nodes

  lemma ZippedGrows(c: Context, t: Shape, h: Snapshot, h': Snapshot)
    requires Zipped(c, t, h) && forall n :: n in h ==> n in h' && h'[n] == h[n]
    ensures Zipped(c, t, h')
  {
    RepFrame(t, h, h');
    CtxFrame(c, h, h');
  }

  // ---------------------------------------------------------------- Rebalancing

  /** From `node` to its parent, and which child of its parent it is. */
  method Climb(node: Node, ghost c: Context, ghost t: Shape, ghost all: set<Node>) returns (parent: Node, side: Side)
    requires Zipped(c, t, Capture(all)) && t.Bin? && t.n == node && c.Under?
    ensures side == c.side && parent == c.n
    ensures Zipped(c.up, Fill(c.side, c.n, c.b, c.sib, t), Capture(all))
  {
    assert Now(node) == Capture(all)[node] && Now(c.n) == Capture(all)[c.n];
    assert c.sib.Bin? ==> c.sib.n in Nodes(c.sib);
    if node.parent.left == node {
      side := Left;
    } else {
      side := Right;
    }
    parent := node.parent;
    Ascend(c, t, Capture(all));
  }

  /** Where rebalancing stands: the balance field of `t` is stale, and no other. */
  ghost predicate Climbing(c0: Context, t0: Shape, c: Context, t: Shape, side: Side, h: int, d: int,
                           turns: nat, rotations: nat)
  {
    && Stale(c, t, side, h, d) && InOrder(Plug(c, t)) == InOrder(Plug(c0, t0))
    && (c.Under? ==> c0.Under? && Outer(c) == Outer(c0))
    && turns + Depth(c) == Depth(c0) && rotations <= turns && (d == 1 ==> rotations == 0)
  }

  /** Where it ends. */
  ghost predicate Climbed(c0: Context, t0: Shape, c: Context, t: Shape, d: int, turns: nat, rotations: nat) {
    && Balanced(Plug(c, t)) && InOrder(Plug(c, t)) == InOrder(Plug(c0, t0))
    && (c.Under? ==> c0.Under? && Outer(c) == Outer(c0))
    && rotations <= turns <= 1 + Depth(c0) && (d == 1 ==> rotations <= 1)
  }

  lemma ClimbTurn(c0: Context, t0: Shape, c: Context, t: Shape, side: Side, h: int, d: int,
                  turns: nat, rotations: nat, rotations': nat)
    requires Climbing(c0, t0, c, t, side, h, d, turns, rotations)
    requires rotations' == rotations + if Level(Updated(t, side, d)) then 0 else 1
    ensures Steps(t, side, d)
    ensures var t' := Stepped(t, side, d);
      if Climbs(t, side, d) && c.Under? then
        Climbing(c0, t0, c.up, Fill(c.side, c.n, c.b, c.sib, t'), c.side, Former(t, side, h), d, turns + 1, rotations')
      else Climbed(c0, t0, c, t', d, turns + 1, rotations')
  {
    TurnEnds(c, t, side, h, d);
  }

  /** One turn of the loop of `Balance`, and the way up. */
  method BalanceTurn(start: Node, side0: Side, heightIncreased: bool, ghost c0: Context, ghost t0: Shape, ghost d: int,
                     ghost all: set<Node>)
      returns (done: bool, node: Node, side: Side, ghost c: Context, ghost t: Shape)
    requires Zipped(c0, t0, Capture(all)) && Steps(t0, side0, d) && t0.n == start
    requires d == (if heightIncreased then 1 else -1)
    modifies all
    ensures Zipped(c, t, Capture(all)) && t.Bin? && t.n == node
    ensures done <==> !(Climbs(t0, side0, d) && c0.Under?)
    ensures if done then c == c0 && t == Stepped(t0, side0, d)
            else c == c0.up && t == Fill(c0.side, c0.n, c0.b, c0.sib, Stepped(t0, side0, d)) && side == c0.side
  {
    var heightChanged;
    heightChanged, node := BalanceStep(start, side0, heightIncreased, d, c0, t0, all);
    c, t, side := c0, Stepped(t0, side0, d), side0;
    done := !heightChanged || node.parent == null;
    if !done {
      node, side := Climb(node, c, t, all);
      c, t := c.up, Fill(c.side, c.n, c.b, c.sib, t);
    }
  }

  /** Rebalances from `start` upwards after its `side0` child got higher or lower by one. Stops as
      soon as a subtree keeps its height, and returns the root of the subtree it stopped at. */
  method Balance(start: Node, side0: Side, heightIncreased: bool, ghost c0: Context, ghost t0: Shape, ghost h0: int,
                 ghost all: set<Node>)
      returns (node: Node, ghost c: Context, ghost t: Shape, ghost turns: nat, ghost rotations: nat)
    requires Zipped(c0, t0, Capture(all)) && t0.Bin? && t0.n == start
    requires Stale(c0, t0, side0, h0, if heightIncreased then 1 else -1)
    modifies all
    ensures Zipped(c, t, Capture(all)) && t.Bin? && t.n == node
    ensures Balanced(Plug(c, t)) && InOrder(Plug(c, t)) == InOrder(Plug(c0, t0))
    ensures c.Under? ==> c0.Under? && Outer(c) == Outer(c0)
    ensures rotations <= turns <= 1 + Depth(c0)
    ensures heightIncreased ==> rotations <= 1
  {
    ghost var d, h := if heightIncreased then 1 else -1, h0;
    var side := side0;
    node, c, t, turns, rotations := start, c0, t0, 0, 0;
    while true
      invariant Zipped(c, t, Capture(all)) && t.Bin? && t.n == node
      invariant Climbing(c0, t0, c, t, side, h, d, turns, rotations)
      decreases Depth(c)
    {
      ghost var rotations' := rotations + if Level(Updated(t, side, d)) then 0 else 1;
      ClimbTurn(c0, t0, c, t, side, h, d, turns, rotations, rotations');
      turns, rotations, h := turns + 1, rotations', Former(t, side, h);
      var done;
      done, node, side, c, t := BalanceTurn(node, side, heightIncreased, c, t, d, all);
      if done {
        return;
      }
    }
  }

  // ---------------------------------------------------------------- Insertion

  /** `x` goes between the nodes before and after the cut. */
  ghost predicate Splits(cmp: Order, c: Context, x: Node) {
    && (forall n :: n in Before(c) ==> !cmp(x, n))
    && (forall n :: n in After(c) ==> cmp(x, n))
  }

  /** One step of the descent: everything passed lies on the right side of `x`. */
  lemma SplitsDown(cmp: Order, c: Context, t: Shape, x: Node)
    requires t.Bin? && Splits(cmp, c, x) && Sorted(cmp, InOrder(t)) && Orders(cmp, Nodes(t) + {x})
    ensures Sorted(cmp, InOrder(t.l)) && Sorted(cmp, InOrder(t.r))
    ensures if cmp(x, t.n) then Splits(cmp, Under(Left, t.n, t.b, t.r, c), x)
            else Splits(cmp, Under(Right, t.n, t.b, t.l, c), x)
  {
    var s, k := InOrder(t), |InOrder(t.l)|;
    assert s[k] == t.n && s[..k] == InOrder(t.l) && s[k + 1..] == InOrder(t.r);
    if cmp(x, t.n) {
      forall n | n in InOrder(t.r)
        ensures cmp(x, n)
      {
        var j :| 0 <= j < |InOrder(t.r)| && InOrder(t.r)[j] == n;
        assert cmp(s[k], s[k + 1 + j]);
        NodesAreInOrder(t.r, n);
      }
    } else {
      forall n | n in InOrder(t.l)
        ensures !cmp(x, n)
      {
        var j :| 0 <= j < |InOrder(t.l)| && InOrder(t.l)[j] == n;
        assert cmp(s[j], s[k]);
        NodesAreInOrder(t.l, n);
      }
    }
  }

  /** A leaf hung at an empty cut. */
  lemma Graft(c: Context, x: Node, h: Snapshot, h': Snapshot)
    requires c.Under? && Zipped(c, Nil, h) && x in h && x !in CtxNodes(c)
    requires OnlyTouched(x, null, c.n, null, h, h')
    requires h'[c.n] == h[c.n].With(c.side, x) && h'[x] == Fields(null, null, c.n, 0)
    ensures Zipped(c, Bin(Nil, x, 0, Nil), h')
  {
    CtxFrame(c, h, h');
    assert c.n in CtxNodes(c);
  }

  /** Hangs the fresh node `x` at an empty cut. */
  method Hang(x: Node, node: Node, side: Side, ghost c: Context, ghost all: set<Node>)
    requires c.Under? && c.n == node && c.side == side && Zipped(c, Nil, Capture(all))
    requires x in all && x !in CtxNodes(c)
    requires x.left == null && x.right == null && x.balance == 0
    modifies all
    ensures Zipped(c, Bin(Nil, x, 0, Nil), Capture(all))
  {
    ghost var h := Capture(all);
    assert node in CtxNodes(c);
    assert Now(node) == h[node] && Now(x) == h[x];
    if side.Left? {
      node.left := x;
    } else {
      node.right := x;
    }
    x.parent := node;
    assert Now(node) == Capture(all)[node] && Now(x) == Capture(all)[x];
    Graft(c, x, h, Capture(all));
  }

  lemma LeafStale(c: Context, leaf: Shape, h: int)
    requires c.Under? && leaf.Bin? && leaf.l == Nil && leaf.r == Nil && leaf.b == 0
    requires Avl(Plug(c, Nil), h)
    ensures Stale(c.up, Fill(c.side, c.n, c.b, c.sib, leaf), c.side, 0, 1)
  {
    var h0 := UnplugAvl(c, Nil, h);
  }

  /** `x` put at position `k` of `s`. */
  ghost function Put(s: seq<Node>, k: nat, x: Node): seq<Node>
    requires k <= |s|
  {
    s[..k] + [x] + s[k..]
  }

  lemma SplitsPut(cmp: Order, c: Context, x: Node)
    requires Splits(cmp, c, x)
    ensures var s, k := InOrder(Plug(c, Nil)), |Before(c)|;
            FirstNotBelow(cmp, s, k, x) && InOrder(Plug(c, Bin(Nil, x, 0, Nil))) == Put(s, k, x)
  {
    var s, k := InOrder(Plug(c, Nil)), |Before(c)|;
    PlugInOrder(c, Nil);
    PlugInOrder(c, Bin(Nil, x, 0, Nil));
    assert s == Before(c) + After(c);
    assert s[..k] == Before(c) && s[k..] == After(c);
  }

  lemma PutSorted(cmp: Order, c: Context, x: Node)
    requires Splits(cmp, c, x) && Sorted(cmp, Before(c) + After(c))
    requires forall n :: n in Before(c) ==> cmp(x, n) || cmp(n, x)
    ensures Sorted(cmp, Before(c) + [x] + After(c))
  {
    var s, s', k := Before(c) + After(c), Before(c) + [x] + After(c), |Before(c)|;
    forall i, j | 0 <= i < j < |s'|
      ensures cmp(s'[i], s'[j])
    {
      if i != k && j != k {
        var i0, j0 := if i < k then i else i - 1, if j < k then j else j - 1;
        assert s'[i] == s[i0] && s'[j] == s[j0];
      }
    }
  }

  /** A node just inserted is its own lower bound, and deleting it undoes the insertion. */
  lemma InsertedIsLowerBound(cmp: Order, s: seq<Node>, k: nat, x: Node)
    requires FirstNotBelow(cmp, s, k, x) && cmp(x, x)
    ensures FirstNotBelow(cmp, Put(s, k, x), k, x) && At(Put(s, k, x), k) == x
    ensures Drop1(Put(s, k, x), k) == s
  {
    assert Put(s, k, x)[..k] == s[..k] && Put(s, k, x)[k + 1..] == s[k..];
  }

  // ---------------------------------------------------------------- The tree

  lemma SameNodes(t: Shape, t': Shape)
    requires InOrder(t') == InOrder(t)
    ensures Nodes(t') == Nodes(t)
  {
    forall n | n in Nodes(t) + Nodes(t')
      ensures n in Nodes(t') <==> n in Nodes(t)
    {
      NodesAreInOrder(t, n);
      NodesAreInOrder(t', n);
    }
  }

  lemma ZipTop(c: Context, t: Shape, h: Snapshot)
    requires Zipped(c, t, h)
    ensures Zipped(Top, Plug(c, t), h)
  {
    Zip(c, t, h);
    Unzip(Top, Plug(c, t), h);
  }

  lemma InsertedNodes(c: Context, x: Node, t: Shape)
    requires InOrder(t) == InOrder(Plug(c, Bin(Nil, x, 0, Nil)))
    ensures Nodes(t) == Nodes(Plug(c, Nil)) + {x}
  {
    PlugNodes(c, Nil);
    PlugNodes(c, Bin(Nil, x, 0, Nil));
    SameNodes(Plug(c, Bin(Nil, x, 0, Nil)), t);
  }

  lemma InsertedSorted(cmp: Order, c: Context, x: Node, t: Shape)
    requires Splits(cmp, c, x) && Sorted(cmp, InOrder(Plug(c, Nil))) && Orders(cmp, Nodes(Plug(c, Nil)) + {x})
    requires InOrder(t) == InOrder(Plug(c, Bin(Nil, x, 0, Nil)))
    ensures Sorted(cmp, InOrder(t))
  {
    PlugInOrder(c, Nil);
    PlugInOrder(c, Bin(Nil, x, 0, Nil));
    assert Before(c) + [] + After(c) == Before(c) + After(c);
    LeafBalanced(x);
    forall n | n in Before(c)
      ensures cmp(x, n) || cmp(n, x)
    {
      NodesAreInOrder(Plug(c, Nil), n);
    }
    PutSorted(cmp, c, x);
  }

  lemma LeafBalanced(x: Node)
    ensures var leaf := Bin(Nil, x, 0, Nil);
      Balanced(leaf) && InOrder(leaf) == [x] && Nodes(leaf) == {x}
  {
  }

  lemma LeafZipped(x: Node, h: Snapshot)
    requires x in h && h[x] == Fields(null, null, null, 0)
    ensures Zipped(Top, Bin(Nil, x, 0, Nil), h)
  {
  }

  lemma ZippedShrinks(t: Shape, h: Snapshot, h': Snapshot)
    requires Zipped(Top, t, h) && Kept(Nodes(t), null, h, h')
    ensures Zipped(Top, t, h')
  {
    RepFrame(t, h, h');
    assert t.Bin? ==> t.n in Nodes(t);
  }

  lemma WithoutNode(c: Context, t: Shape, h: Snapshot, h': Snapshot)
    requires t.Bin? && Zipped(c, Rest(t), h) && t.n !in Nodes(Rest(t)) && t.n !in CtxNodes(c)
    requires forall n :: n in h && n != t.n ==> n in h' && h'[n] == h[n]
    ensures Zipped(c, Rest(t), h')
  {
    RepFrame(Rest(t), h, h');
    CtxFrame(c, h, h');
    assert Rest(t).Bin? ==> Rest(t).n in Nodes(Rest(t));
  }

  lemma RestBalanced(t: Shape, h: int)
    requires t.Bin? && (t.l.Nil? || t.r.Nil?) && Avl(t, h)
    ensures Balanced(Rest(t))
  {
    RestAvl(t, h);
    AvlIsBalanced(Rest(t), h - 1);
  }

  method UnlinkAndBalance(node: Node, ghost c0: Context, ghost t0: Shape, ghost h: int, ghost all: set<Node>)
      returns (newRoot: Node?, ghost c: Context, ghost t: Shape, ghost turns: nat)
    requires Zipped(c0, t0, Capture(all)) && t0.Bin? && t0.n == node && (t0.l.Nil? || t0.r.Nil?)
    requires Avl(t0, h) && CtxAvl(c0, h)
    modifies all
    ensures Zipped(c, t, Capture(all - {node})) && newRoot == RootOf(t) && Balanced(Plug(c, t))
    ensures InOrder(Plug(c, t)) == InOrder(Plug(c0, Rest(t0)))
    ensures node.parent == ParentIn(c0) && (c0.Top? ==> c.Top?)
    ensures c0.Under? ==> t.Bin? && (c.Under? ==> Outer(c) == Outer(c0))
    ensures turns <= Depth(c0)
  {
    c, t, turns := c0, Rest(t0), 0;
    UnlinkFacts(c0, t0, Capture(all));
    assert node in Nodes(t0) && Nodes(Rest(t0)) <= Nodes(t0);
    assert Now(node) == Capture(all)[node] && (c0.Under? ==> Now(c0.n) == Capture(all)[c0.n]);
    var side := Left;
    if node.parent != null {
      if node.parent.left == node {
        side := Left;
      } else {
        side := Right;
      }
    }

    newRoot := Unlink(node, c0, t0, all);
    ghost var others := all - {node};
    WithoutNode(c0, t0, Capture(all), Capture(others));
    if node.parent != null {
      RestStale(c0, t0, h);
      Ascend(c0, Rest(t0), Capture(others));
      ghost var rotations;
      newRoot, c, t, turns, rotations :=
        Balance(node.parent, side, false, c0.up, Fill(c0.side, c0.n, c0.b, c0.sib, Rest(t0)), h, others);
    } else {
      RestBalanced(t0, h);
    }
  }

  lemma Stands(c: Context, t: Shape, t': Shape, h: Snapshot, h': Snapshot)
    requires Zipped(c, t, h) && InOrder(Plug(c, t)) == InOrder(t') && Kept(Nodes(Plug(c, t)), null, h, h')
    ensures Zipped(Top, Plug(c, t), h') && Nodes(Plug(c, t)) == Nodes(t')
  {
    SameNodes(t', Plug(c, t));
    ZipTop(c, t, h);
    ZippedShrinks(Plug(c, t), h, h');
  }

  lemma DeletedSorted(cmp: Order, s: seq<Node>, k: nat)
    requires k < |s| && Sorted(cmp, s)
    ensures Sorted(cmp, Drop1(s, k))
  {
  }

  lemma DropMembers(s: seq<Node>, k: nat, n: Node)
    requires k < |s| && Distinct(s)
    ensures n in Drop1(s, k) <==> n in s && n != s[k]
  {
    if n in s && n != s[k] {
      var i :| 0 <= i < |s| && s[i] == n;
      assert Drop1(s, k)[if i < k then i else i - 1] == n;
    }
    if n in Drop1(s, k) {
      var i :| 0 <= i < |Drop1(s, k)| && Drop1(s, k)[i] == n;
      assert n == s[if i < k then i else i + 1];
    }
  }

  lemma DeletedNodes(t: Shape, t': Shape, k: nat)
    requires k < |InOrder(t)| && InOrder(t') == Drop1(InOrder(t), k) && Distinct(InOrder(t))
    ensures Nodes(t') == Nodes(t) - {InOrder(t)[k]}
  {
    forall n | n in Nodes(t) + Nodes(t')
      ensures n in Nodes(t') <==> n in Nodes(t) && n != InOrder(t)[k]
    {
      NodesAreInOrder(t, n);
      NodesAreInOrder(t', n);
      DropMembers(InOrder(t), k, n);
    }
  }

  lemma NotBelowMonotone(cmp: Order, t: Shape, x: Node, p: Node -> bool)
    requires Sorted(cmp, InOrder(t)) && Orders(cmp, Nodes(t) + {x}) && forall n :: n in Nodes(t) ==> p(n) == cmp(x, n)
    ensures Monotone(p, InOrder(t))
  {
    var s := InOrder(t);
    forall i, j | 0 <= i < j < |s| && p(s[i])
      ensures p(s[j])
    {
      NodesAreInOrder(t, s[i]);
      NodesAreInOrder(t, s[j]);
    }
  }

  lemma CutBalanced(c: Context, t: Shape)
    requires Balanced(Plug(c, t))
    ensures Balanced(t)
  {
    AvlIsBalanced(Plug(c, t), Height(Plug(c, t)));
    var h := UnplugAvl(c, t, Height(Plug(c, t)));
    AvlIsBalanced(t, h);
  }

  lemma SwapMiddle(a: seq<Node>, l: seq<Node>, x: Node, r: seq<Node>, z: seq<Node>, y: Node, s: seq<Node>)
    requires s == a + (l + [x] + r) + z
    ensures |a| + |l| < |s| && s[|a| + |l|] == x && s[|a| + |l| := y] == a + (l + [y] + r) + z
  {
  }

  lemma SwappedOrder(c: Context, t: Shape, x: Node)
    requires t.Bin?
    ensures var s, k := InOrder(Plug(c, t)), Position(c, t);
      k < |s| && s[k] == t.n && InOrder(Plug(c, t.(n := x))) == s[k := x]
  {
    PlugInOrder(c, t);
    PlugInOrder(c, t.(n := x));
    var a, l, r, z := Before(c), InOrder(t.l), InOrder(t.r), After(c);
    assert InOrder(t) == l + [t.n] + r && InOrder(t.(n := x)) == l + [x] + r;
    SwapMiddle(a, l, t.n, r, z, x, InOrder(Plug(c, t)));
  }

  lemma SwappedBalanced(c: Context, t: Shape, x: Node)
    requires t.Bin? && Balanced(Plug(c, t))
    ensures Balanced(Plug(c, t.(n := x)))
  {
    AvlIsBalanced(Plug(c, t), Height(Plug(c, t)));
    var h := UnplugAvl(c, t, Height(Plug(c, t)));
    var h' := PlugAvl(c, t.(n := x), h);
    AvlIsBalanced(Plug(c, t.(n := x)), h');
  }

  lemma SwappedSorted(cmp: Order, t: Shape, k: nat, x: Node)
    requires k < |InOrder(t)| && Sorted(cmp, InOrder(t)) && Orders(cmp, Nodes(t) + {x}) && Equal(cmp, InOrder(t)[k], x)
    ensures Sorted(cmp, InOrder(t)[k := x])
  {
    var s := InOrder(t);
    forall i | 0 <= i < |s|
      ensures s[i] in Nodes(t)
    {
      NodesAreInOrder(t, s[i]);
    }
  }

  lemma SwappedNodes(t: Shape, t': Shape, k: nat, x: Node)
    requires k < |InOrder(t)| && InOrder(t') == InOrder(t)[k := x] && Distinct(InOrder(t)) && x !in Nodes(t)
    ensures Nodes(t') == Nodes(t) - {InOrder(t)[k]} + {x}
  {
    var s, s' := InOrder(t), InOrder(t');
    forall n | n in Nodes(t) + Nodes(t')
      ensures n in Nodes(t') <==> n == x || (n in Nodes(t) && n != s[k])
    {
      NodesAreInOrder(t, n);
      NodesAreInOrder(t', n);
      if n in s && n != s[k] {
        var i :| 0 <= i < |s| && s[i] == n;
        assert s'[i] == n;
      }
    }
    assert s'[k] == x;
    NodesAreInOrder(t', x);
  }

  /** `x` took over the links of `old0`, which has the given neighbours. */
  ghost predicate TookOver(old0: Node, x: Node, pp: Node?, l: Node?, r: Node?, h: Snapshot, h': Snapshot) {
    && old0 in h && x in h && h'.Keys == h.Keys && h'[x] == Fields(l, r, pp, h[old0].balance)
    && Relinked(pp, old0, x, h, h') && Reparented(l, x, h, h') && Reparented(r, x, h, h')
    && forall n :: n in h && n != x && n != pp && n != l && n != r ==> h'[n] == h[n]
  }

  lemma SwappedLinks(c: Context, t: Shape, x: Node, h: Snapshot, h': Snapshot)
    requires t.Bin? && Zipped(c, t, h) && x !in Nodes(t) && x !in CtxNodes(c)
    requires TookOver(t.n, x, ParentIn(c), RootOf(t.l), RootOf(t.r), h, h')
    ensures Zipped(c, t.(n := x), h')
  {
    assert t.n in Nodes(t);
    assert t.l.Bin? ==> t.l.n in Nodes(t.l);
    assert t.r.Bin? ==> t.r.n in Nodes(t.r);
    assert c.Under? ==> c.n in CtxNodes(c);
    RepFrame(t.l, h, h');
    RepFrame(t.r, h, h');
    if c.Under? {
      WhichChild(c, t, h);
      CtxFrame(c, h, h');
    }
  }

  /** The nodes around `old0` and `x` are different. */
  ghost predicate Around(old0: Node, x: Node, pp: Node?, l: Node?, r: Node?) {
    && x != old0 && x != pp && x != l && x != r && pp != old0 && l != old0 && r != old0
    && (l != null ==> l != r && l != pp) && (r != null ==> r != pp)
  }

  /** The pointer work of `avl_tree_swap_node`. */
  method SwapPointers(oldNode: Node, newNode: Node)
    requires Attached(oldNode) && Around(oldNode, newNode, oldNode.parent, oldNode.left, oldNode.right)
    modifies newNode, Only(oldNode.parent), Only(oldNode.left), Only(oldNode.right)
    ensures Now(newNode) == old(Now(oldNode)) && Repointed(old(oldNode.parent), oldNode, newNode)
    ensures old(oldNode.left) != null ==> Now(old(oldNode.left)) == old(Now(oldNode.left)).(parent := newNode)
    ensures old(oldNode.right) != null ==> Now(old(oldNode.right)) == old(Now(oldNode.right)).(parent := newNode)
  {
    newNode.left, newNode.right, newNode.parent, newNode.balance := null, null, null, 0;
    FixupLink(oldNode, newNode, oldNode.parent);
    Adopt(newNode, Left, oldNode.left);
    Adopt(newNode, Right, oldNode.right);
    newNode.balance := oldNode.balance;
  }

  lemma SwapFacts(c: Context, t: Shape, x: Node, h: Snapshot)
    requires t.Bin? && Zipped(c, t, h) && x !in Nodes(t) && x !in CtxNodes(c)
    ensures t.n in h && h[t.n] == Fields(RootOf(t.l), RootOf(t.r), ParentIn(c), t.b)
    ensures Around(t.n, x, ParentIn(c), RootOf(t.l), RootOf(t.r)) && ChildOf(c, t, h)
    ensures t.l.Bin? ==> t.l.n in h
    ensures t.r.Bin? ==> t.r.n in h
  {
    assert t.n in Nodes(t);
    assert t.l.Bin? ==> t.l.n in Nodes(t.l);
    assert t.r.Bin? ==> t.r.n in Nodes(t.r);
    assert c.Under? ==> c.n in CtxNodes(c);
    WhichChild(c, t, h);
  }

  /** `SwapPointers`, as seen in the snapshots before and after. */
  method SwapSeen(oldNode: Node, newNode: Node, ghost all: set<Node>) returns (ghost h: Snapshot)
    requires Attached(oldNode) && Around(oldNode, newNode, oldNode.parent, oldNode.left, oldNode.right)
    requires {oldNode, newNode} + Only(oldNode.parent) + Only(oldNode.left) + Only(oldNode.right) <= all
    modifies all
    ensures h == old(Capture(all))
    ensures TookOver(oldNode, newNode, old(oldNode.parent), old(oldNode.left), old(oldNode.right), h, Capture(all))
  {
    h := Capture(all);
    SwapPointers(oldNode, newNode);
  }

  method SwapLinks(oldNode: Node, newNode: Node, ghost c: Context, ghost t: Shape, ghost all: set<Node>)
    requires t.Bin? && t.n == oldNode && Zipped(c, t, Capture(all)) && newNode in all
    requires newNode !in Nodes(t) && newNode !in CtxNodes(c)
    modifies all
    ensures Zipped(c, t.(n := newNode), Capture(all))
  {
    SwapFacts(c, t, newNode, Capture(all));
    assert Now(oldNode) == Capture(all)[oldNode] && (c.Under? ==> Now(c.n) == Capture(all)[c.n]);
    ghost var h := SwapSeen(oldNode, newNode, all);
    SwappedLinks(c, t, newNode, h, Capture(all));
  }

  /** Cuts out the subtree rooted at `x`. */
  lemma CutAt(t: Shape, x: Node, h: Snapshot) returns (c': Context, t': Shape)
    requires Zipped(Top, t, h) && x in Nodes(t)
    ensures Zipped(c', t', h) && Plug(c', t') == t && t'.Bin? && t'.n == x
  {
    c', t' := Focus(Top, t, x);
    Zip(Top, t, h);
    Unzip(c', t', h);
  }

  /** Everything about the tree with `x` in place of `old0`. */
  lemma SwapReady(cmp: Order, t0: Shape, old0: Node, x: Node, h: Snapshot, h': Snapshot) returns (c: Context, t: Shape)
    requires Zipped(Top, t0, h) && old0 in Nodes(t0) && x !in Nodes(t0) && Balanced(t0)
    requires forall n :: n in h ==> n in h' && h'[n] == h[n]
    requires Sorted(cmp, InOrder(t0)) && Orders(cmp, Nodes(t0) + {x}) && Equal(cmp, old0, x)
    ensures Zipped(c, t, h') && Plug(c, t) == t0 && t.Bin? && t.n == old0
    ensures x !in Nodes(t) && x !in CtxNodes(c)
    ensures var s, k, t' := InOrder(t0), Position(c, t), Plug(c, t.(n := x));
      && k < |s| && s[k] == t.n && InOrder(t') == s[k := x]
      && Balanced(t') && Sorted(cmp, InOrder(t')) && Nodes(t') == Nodes(t0) - {t.n} + {x}
  {
    c, t := CutAt(t0, old0, h);
    ZippedGrows(c, t, h, h');
    RepDistinct(t0, h);
    SwappedOrder(c, t, x);
    SwappedBalanced(c, t, x);
    SwappedSorted(cmp, t0, Position(c, t), x);
    SwappedNodes(t0, Plug(c, t.(n := x)), Position(c, t), x);
    PlugNodes(c, t);
  }

  /** Whether the root of a cut subtree is the root of the whole. */
  lemma RootIs(c: Context, t: Shape, h: Snapshot)
    requires Zipped(c, t, h) && t.Bin?
    ensures RootOf(Plug(c, t)) == (if c.Top? then t.n else Outer(c)) && (c.Under? ==> Outer(c) != t.n)
  {
    PlugRoot(c, t);
    assert c.Under? ==> Outer(c) in CtxNodes(c) && t.n in Nodes(t);
  }

  /** `next` comes right after `node`. */
  ghost predicate IsNext(s: seq<Node>, node: Node, next: Node?) {
    && (forall k :: 0 <= k < |s| && s[k] == node ==> next == After1(s, k))
    && (forall k :: 0 <= k < |s| && s[k] == next ==> Before1(s, k) == node)
  }

  /** `prev` comes right before `node`. */
  ghost predicate IsPrev(s: seq<Node>, node: Node, prev: Node?) {
    && (forall k :: 0 <= k < |s| && s[k] == node ==> prev == Before1(s, k))
    && (forall k :: 0 <= k < |s| && s[k] == prev ==> After1(s, k) == node)
  }

  lemma Neighbours(s: seq<Node>, k: nat)
    requires Distinct(s) && k < |s|
    ensures IsNext(s, s[k], After1(s, k)) && IsPrev(s, s[k], Before1(s, k))
  {
  }

  class Tree {
    var root: Node?
    const cmp: Order
    ghost var shape: Shape

    constructor (cmp: Order)
      ensures Valid() && shape == Nil && this.cmp == cmp
    {
      root, shape := null, Nil;
      this.cmp := cmp;
    }

    /** Links, balance fields and root agree with `shape`, which is balanced and in order. */
    ghost predicate Valid()
      reads this, Nodes(shape)
    {
      && Zipped(Top, shape, Capture(Nodes(shape))) && root == RootOf(shape)
      && Balanced(shape) && Sorted(cmp, InOrder(shape))
    }

    /** Where the descent of an insertion stands. */
    ghost predicate Descending(x: Node, c: Context, t: Shape, h: Snapshot)
      reads this
    {
      && Zipped(c, t, h) && Plug(c, t) == shape && Splits(cmp, c, x)
      && Sorted(cmp, InOrder(t)) && Nodes(t) <= Nodes(shape)
    }

    lemma DescendingStep(x: Node, c: Context, t: Shape, h: Snapshot)
      requires t.Bin? && Descending(x, c, t, h) && Orders(cmp, Nodes(shape) + {x})
      ensures if cmp(x, t.n) then Descending(x, Under(Left, t.n, t.b, t.r, c), t.l, h)
              else Descending(x, Under(Right, t.n, t.b, t.l, c), t.r, h)
    {
      SplitsDown(cmp, c, t, x);
      if cmp(x, t.n) {
        Descend(c, Left, t.n, t.b, t.r, t.l, h);
      } else {
        Descend(c, Right, t.n, t.b, t.l, t.r, h);
      }
    }

    /** Walks down from the root and hangs `x` below a node without that child. */
    method InsertUnbalanced(x: Node, ghost all: set<Node>) returns (ghost c: Context, ghost steps: nat)
      requires shape.Bin? && root == RootOf(shape) && Zipped(Top, shape, Capture(all))
      requires x in all && x !in Nodes(shape)
      requires x.left == null && x.right == null && x.balance == 0
      requires Sorted(cmp, InOrder(shape)) && Orders(cmp, Nodes(shape) + {x})
      modifies all
      ensures c.Under? && Plug(c, Nil) == shape && Splits(cmp, c, x)
      ensures Zipped(c, Bin(Nil, x, 0, Nil), Capture(all))
      ensures steps == Depth(c)
    {
      var node := root;
      ghost var t, h := shape, Capture(all);
      c, steps := Top, 0;
      while true
        invariant Capture(all) == h && Descending(x, c, t, h) && t.Bin? && t.n == node && steps == Depth(c)
        decreases t
      {
        steps := steps + 1;
        assert Now(node) == h[node];
        DescendingStep(x, c, t, h);
        if cmp(x, node) {
          c, t := Under(Left, t.n, t.b, t.r, c), t.l;
          if node.left == null {
            PlugNodes(c, Nil);
            Hang(x, node, Left, c, all);
            return;
          } else {
            node := node.left;
          }
        } else {
          c, t := Under(Right, t.n, t.b, t.l, c), t.r;
          if node.right == null {
            PlugNodes(c, Nil);
            Hang(x, node, Right, c, all);
            return;
          } else {
            node := node.right;
          }
        }
      }
    }

    /** Puts `x` in front of the first node that is not smaller, so that nodes that compare equal
        stay newest first, and rebalances with at most one rotation. */
    method Insert(x: Node) returns (ghost k: nat, ghost steps: nat, ghost turns: nat, ghost rotations: nat)
      requires Valid() && x !in Nodes(shape) && Orders(cmp, Nodes(shape) + {x})
      modifies this, Nodes(shape), x
      ensures Valid() && Nodes(shape) == old(Nodes(shape)) + {x}
      ensures FirstNotBelow(cmp, old(InOrder(shape)), k, x)
      ensures InOrder(shape) == Put(old(InOrder(shape)), k, x)
      ensures rotations <= 1 && turns <= old(Height(shape)) && steps <= old(Height(shape))
    {
      x.left, x.right, x.parent, x.balance := null, null, null, 0;
      k, steps, turns, rotations := 0, 0, 0, 0;
      if root == null {
        root := x;
        shape := Bin(Nil, x, 0, Nil);
        LeafBalanced(x);
        assert Now(x) == Fields(null, null, null, 0);
        LeafZipped(x, Capture(Nodes(shape)));
        return;
      }
      ghost var all := Nodes(shape) + {x};
      ZippedGrows(Top, shape, Capture(Nodes(shape)), Capture(all));
      ghost var c;
      c, steps := InsertUnbalanced(x, all);
      PlugHeight(c, Nil);
      k := |Before(c)|;
      SplitsPut(cmp, c, x);
      turns, rotations := InsertFixup(x, c, all);
    }

    /** The second half of `Insert`. */
    method InsertFixup(x: Node, ghost c0: Context, ghost all: set<Node>)
        returns (ghost turns: nat, ghost rotations: nat)
      requires c0.Under? && Plug(c0, Nil) == shape && Splits(cmp, c0, x) && root == RootOf(shape) && Balanced(shape)
      requires Zipped(c0, Bin(Nil, x, 0, Nil), Capture(all)) && all == Nodes(shape) + {x}
      requires Sorted(cmp, InOrder(shape)) && Orders(cmp, Nodes(shape) + {x})
      modifies this, all
      ensures Valid() && Nodes(shape) == all && InOrder(shape) == InOrder(Plug(c0, Bin(Nil, x, 0, Nil)))
      ensures rotations <= 1 && turns <= old(Height(shape))
    {
      ghost var leaf := Bin(Nil, x, 0, Nil);
      AvlIsBalanced(shape, Height(shape));
      LeafStale(c0, leaf, Height(shape));
      PlugHeight(c0, Nil);
      PlugRoot(c0, Nil);
      var parent, side := Climb(x, c0, leaf, all);
      ghost var c, t;
      var newRoot;
      newRoot, c, t, turns, rotations :=
        Balance(parent, side, true, c0.up, Fill(c0.side, c0.n, c0.b, c0.sib, leaf), 0, all);

      InsertedNodes(c0, x, Plug(c, t));
      InsertedSorted(cmp, c0, x, Plug(c, t));
      SetRoot(newRoot, c, t, all);
    }

    /** The end of an insertion or deletion: the subtree where rebalancing stopped may be the whole
        tree. */
    method SetRoot(newRoot: Node, ghost c: Context, ghost t: Shape, ghost all: set<Node>)
      requires Zipped(c, t, Capture(all)) && t.Bin? && t.n == newRoot
      requires c.Under? ==> root == Outer(c)
      modifies this
      ensures shape == Plug(c, t) && root == RootOf(shape) && Zipped(Top, shape, Capture(all))
    {
      assert Now(newRoot) == Capture(all)[newRoot];
      PlugRoot(c, t);
      if newRoot.parent == null {
        root := newRoot;
      }
      ZipTop(c, t, Capture(all));
      shape := Plug(c, t);
    }

    /** Takes out `node`: the others keep their order. */
    method Delete(node: Node) returns (ghost k: nat, ghost turns: nat)
      requires Valid() && node in Nodes(shape)
      modifies this, Nodes(shape)
      ensures Valid() && Nodes(shape) == old(Nodes(shape)) - {node}
      ensures k < |old(InOrder(shape))| && old(InOrder(shape))[k] == node
      ensures InOrder(shape) == Drop1(old(InOrder(shape)), k)
      ensures turns < old(Height(shape))
    {
      ghost var all, s := Nodes(shape), InOrder(shape);
      ghost var c, t := CutAt(shape, node, Capture(all));
      WithoutDrops(c, t);
      RepDistinct(shape, Capture(all));
      k := Position(c, t);
      CutBalanced(c, t);
      ghost var d, u, c0, t0 := DeleteTrade(node, c, t, all);
      FreedOrder(c, t, d, u, c0, t0);
      ghost var h := FreedAvl(c, t, d, u, c0, t0);
      DeletedSorted(cmp, s, k);
      DeletedNodes(shape, Plug(c0, Rest(t0)), k);
      turns := DeleteUnlink(node, c0, t0, h, all);
    }

    /** After this, `node` has at most one child. */
    method DeleteTrade(node: Node, ghost c: Context, ghost t: Shape, ghost all: set<Node>)
        returns (ghost d: Context, ghost u: Shape, ghost c0: Context, ghost t0: Shape)
      requires Zipped(c, t, Capture(all)) && t.Bin? && t.n == node && root == RootOf(Plug(c, t)) && Balanced(t)
      modifies this`root, all
      ensures Freed(c, t, d, u, c0, t0) && Zipped(c0, t0, Capture(all))
      ensures root == if c0.Top? then node else Outer(c0)
    {
      RootIs(c, t, Capture(all));
      var next;
      next, d, u, c0, t0 := FreeNode(node, c, t, all);
      FreedOuter(c, t, d, u, c0, t0);
      if next != null && root == node {
        root := next;
      }
    }

    /** Takes `node` out of the links and rebalances. */
    method DeleteUnlink(node: Node, ghost c0: Context, ghost t0: Shape, ghost h: int, ghost all: set<Node>)
        returns (ghost turns: nat)
      requires Zipped(c0, t0, Capture(all)) && t0.Bin? && t0.n == node && (t0.l.Nil? || t0.r.Nil?)
      requires Avl(t0, h) && CtxAvl(c0, h) && Sorted(cmp, InOrder(Plug(c0, Rest(t0))))
      requires root == if c0.Top? then node else Outer(c0)
      modifies this, all
      ensures Valid() && InOrder(shape) == InOrder(Plug(c0, Rest(t0))) && Nodes(shape) == Nodes(Plug(c0, Rest(t0)))
      ensures turns <= Depth(c0)
    {
      ghost var c, t;
      var newRoot;
      newRoot, c, t, turns := UnlinkAndBalance(node, c0, t0, h, all);
      SetRootBelow(newRoot, node, c0, c, t, all - {node});
      Stands(c, t, Plug(c0, Rest(t0)), Capture(all - {node}), Capture(Nodes(shape)));
    }

    method SetRootBelow(newRoot: Node?, node: Node, ghost c0: Context, ghost c: Context, ghost t: Shape,
                        ghost others: set<Node>)
      requires Zipped(c, t, Capture(others)) && newRoot == RootOf(t) && node.parent == ParentIn(c0)
      requires if c0.Top? then c.Top? else t.Bin? && root == Outer(c0) && (c.Under? ==> Outer(c) == Outer(c0))
      modifies this
      ensures shape == Plug(c, t) && root == RootOf(shape)
    {
      assert newRoot != null ==> Now(newRoot) == Capture(others)[newRoot];
      if (newRoot != null && newRoot.parent == null) || node.parent == null {
        root := newRoot;
      }
      shape := Plug(c, t);
      PlugRoot(c, t);
    }

    /** Puts `newNode`, which compares equal, in the place of `oldNode`. */
    method SwapNode(oldNode: Node, newNode: Node) returns (ghost k: nat)
      requires Valid() && oldNode in Nodes(shape) && newNode !in Nodes(shape)
      requires Orders(cmp, Nodes(shape) + {newNode}) && Equal(cmp, oldNode, newNode)
      modifies this, Nodes(shape), newNode
      ensures Valid() && Nodes(shape) == old(Nodes(shape)) - {oldNode} + {newNode}
      ensures k < |old(InOrder(shape))| && old(InOrder(shape))[k] == oldNode
      ensures InOrder(shape) == old(InOrder(shape))[k := newNode]
    {
      ghost var all := Nodes(shape) + {newNode};
      ghost var c, t := SwapReady(cmp, shape, oldNode, newNode, Capture(Nodes(shape)), Capture(all));
      k := Position(c, t);
      SwapLinks(oldNode, newNode, c, t, all);
      ghost var h, t' := Capture(all), t.(n := newNode);
      SwapRoot(oldNode, newNode, c, t);
      Stands(c, t', shape, h, Capture(Nodes(shape)));
    }

    method SwapRoot(oldNode: Node, newNode: Node, ghost c: Context, ghost t: Shape)
      requires t.Bin? && t.n == oldNode && Nodes(t) !! CtxNodes(c) && root == RootOf(Plug(c, t))
      modifies this
      ensures shape == Plug(c, t.(n := newNode)) && root == RootOf(shape)
    {
      PlugRoot(c, t);
      PlugRoot(c, t.(n := newNode));
      assert c.Under? ==> Outer(c) in CtxNodes(c) && oldNode in Nodes(t);
      if root == oldNode {
        root := newNode;
      }
      shape := Plug(c, t.(n := newNode));
    }

    // -------------------------------------------------------------- Queries

    method First() returns (node: Node?)
      requires Valid()
      ensures node == At(InOrder(shape), 0)
    {
      node := root;
      if node == null {
        return;
      }
      ghost var d, u;
      node, d, u := Leftmost(node, Top, shape, Nodes(shape));
      LeftmostIsFirst(d, u);
    }

    method Last() returns (node: Node?)
      requires Valid()
      ensures node == Before1(InOrder(shape), |InOrder(shape)|)
    {
      node := root;
      if node == null {
        return;
      }
      ghost var d, u;
      node, d, u := Rightmost(node, Top, shape, Nodes(shape));
      RightmostIsLast(d, u);
    }

    method NextOf(node: Node) returns (next: Node?)
      requires Valid() && node in Nodes(shape)
      ensures IsNext(InOrder(shape), node, next)
    {
      ghost var c, t := CutAt(shape, node, Capture(Nodes(shape)));
      ghost var d, u;
      next, d, u := Next(node, c, t, Nodes(shape));
      AtPosition(c, t);
      RepDistinct(shape, Capture(Nodes(shape)));
      Neighbours(InOrder(shape), Position(c, t));
    }

    method PrevOf(node: Node) returns (prev: Node?)
      requires Valid() && node in Nodes(shape)
      ensures IsPrev(InOrder(shape), node, prev)
    {
      ghost var c, t := CutAt(shape, node, Capture(Nodes(shape)));
      prev := Prev(node, c, t, Nodes(shape));
      AtPosition(c, t);
      RepDistinct(shape, Capture(Nodes(shape)));
      Neighbours(InOrder(shape), Position(c, t));
    }

    /** The first node for which `p`, which never turns false again in tree order, holds. */
    method LowerBoundFn(p: Node -> bool) returns (ret: Node?, ghost k: nat, ghost steps: nat)
      requires Valid() && Monotone(p, InOrder(shape))
      ensures steps <= Height(shape)
      ensures FirstWhere(p, InOrder(shape), k)
      ensures forall j: nat :: FirstWhere(p, InOrder(shape), j) ==> ret == At(InOrder(shape), j)
    {
      var node := root;
      ret, steps := null, 0;
      ghost var c, t, s := Top, shape, InOrder(shape);
      while node != null
        invariant Rep(t, Capture(Nodes(shape))) && node == RootOf(t)
        invariant Narrowed(p, s, c, t, ret)
        invariant steps + Height(t) <= Height(shape)
        decreases t
      {
        steps := steps + 1;
        assert Now(node) == Capture(Nodes(shape))[node];
        if p(node) {
          NarrowLeft(p, s, c, t, ret);
          c, t := Under(Left, t.n, t.b, t.r, c), t.l;
          ret := node;
          node := node.left;
        } else {
          NarrowRight(p, s, c, t, ret);
          c, t := Under(Right, t.n, t.b, t.l, c), t.r;
          node := node.right;
        }
      }
      NarrowedOut(p, s, c, ret);
      k := |Before(c)|;
    }

    /** The first node that is not smaller than `x`. */
    method LowerBound(x: Node) returns (ret: Node?, ghost k: nat, ghost steps: nat)
      requires Valid() && Orders(cmp, Nodes(shape) + {x})
      ensures steps <= Height(shape)
      ensures FirstNotBelow(cmp, InOrder(shape), k, x)
      ensures forall j: nat :: FirstNotBelow(cmp, InOrder(shape), j, x) ==> ret == At(InOrder(shape), j)
    {
      var order := cmp;
      var p := (n: Node) => order(x, n);
      NotBelowMonotone(cmp, shape, x, p);
      ret, k, steps := LowerBoundFn(p);
    }

    /** A node that compares equal to `x`, or null when there is none. */
    method Find(x: Node) returns (ret: Node?, ghost steps: nat)
      requires Valid() && Orders(cmp, Nodes(shape) + {x})
      ensures steps <= Height(shape)
      ensures ret != null ==> ret in Nodes(shape) && Equal(cmp, x, ret)
      ensures ret == null ==> forall n :: n in Nodes(shape) ==> !Equal(cmp, x, n)
    {
      var node := root;
      ghost var t := shape;
      steps := 0;
      while node != null
        invariant Rep(t, Capture(Nodes(shape))) && node == RootOf(t) && Nodes(t) <= Nodes(shape)
        invariant Confined(cmp, InOrder(shape), t, x) && Sorted(cmp, InOrder(t))
        invariant steps + Height(t) <= Height(shape)
        decreases t
      {
        steps := steps + 1;
        assert Now(node) == Capture(Nodes(shape))[node];
        if !Equal(cmp, x, node) {
          ConfinedDown(cmp, InOrder(shape), t, x);
        }
        if cmp(x, node) {
          if cmp(node, x) {
            ret := node;
            return;
          }
          t := t.l;
          node := node.left;
        } else {
          t := t.r;
          node := node.right;
        }
      }
      forall n | n in Nodes(shape)
        ensures !Equal(cmp, x, n)
      {
        NodesAreInOrder(shape, n);
      }
      ret := null;
    }
  }
}
