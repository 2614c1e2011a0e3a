/** How deletion trades the places of a node with two children and the next node. */
module AvlSwap {
  import opened AvlShape
  import opened AvlHeap
  import opened AvlRotate

  // ---------------------------------------------------------------- Contexts joined and split

  lemma {:induction false} SplitContext(d: Context, e: Context, h: Snapshot)
    requires d.Under? && e.Under? && CtxRep(Append(d, e), h)
    ensures CtxRep(d, h) && CtxRep(e, h) && CtxNodes(d) !! CtxNodes(e)
    ensures e.n in h && h[e.n].Child(e.side) == Outer(d) && Outer(d) in h && h[Outer(d)].parent == e.n
    decreases d
  {
    AppendNodes(d.up, e);
    if d.up.Under? {
      SplitContext(d.up, e, h);
    }
  }

  lemma {:induction false} JoinContext(d: Context, e: Context, h: Snapshot)
    requires d.Under? && e.Under? && CtxRep(d, h) && CtxRep(e, h) && CtxNodes(d) !! CtxNodes(e)
    requires e.n in h && h[e.n].Child(e.side) == Outer(d) && Outer(d) in h && h[Outer(d)].parent == e.n
    ensures CtxRep(Append(d, e), h)
    decreases d
  {
    AppendNodes(d.up, e);
    if d.up.Under? {
      JoinContext(d.up, e, h);
    }
  }

  /** Only the parent of the topmost node and the `side` child at the cut may differ. */
  ghost predicate EndsMoved(d: Context, h: Snapshot, h': Snapshot)
    requires d.Under? && d.n in h && Outer(d) in h
  {
    && (forall n :: n in CtxNodes(d) && n in h && n != d.n && n != Outer(d) ==> n in h' && h'[n] == h[n])
    && d.n in h' && Outer(d) in h'
    && h'[d.n] == h[d.n].With(d.side, h'[d.n].Child(d.side)).(parent := h'[d.n].parent)
    && (d.n != Outer(d) ==>
          && h'[d.n].parent == h[d.n].parent
          && h'[Outer(d)] == h[Outer(d)].(parent := h'[Outer(d)].parent))
  }

  lemma {:induction false} OuterIn(d: Context, h: Snapshot)
    requires d.Under? && CtxRep(d, h)
    ensures Outer(d) in CtxNodes(d) && Outer(d) in h
    ensures d.up.Under? ==> d.n != Outer(d) && Outer(d) == Outer(d.up)
    ensures Outer(d) !in Nodes(d.sib)
    decreases d
  {
    if d.up.Under? {
      OuterIn(d.up, h);
    }
  }

  /** A piece of path survives new links at its two ends. */
  lemma {:induction false} SegmentFrame(d: Context, h: Snapshot, h': Snapshot)
    requires d.Under? && CtxRep(d, h) && Outer(d) in h && EndsMoved(d, h, h')
    ensures CtxRep(d, h')
    decreases d
  {
    OuterIn(d, h);
    RepFrame(d.sib, h, h');
    assert d.sib.Bin? ==> d.sib.n in Nodes(d.sib);
    if d.up.Under? {
      OuterIn(d.up, h);
      SegmentFrame(d.up, h, h');
    }
  }

  // ---------------------------------------------------------------- Trading places

  /** The upper part of the path: `next` took the place of `n` above `l` and below `c`. */
  lemma TradeUpper(c: Context, l: Shape, n: Node, b: int, next: Node, h: Snapshot, h': Snapshot)
    requires l.Bin? && CtxRep(Under(Right, n, b, l, c), h)
    requires next !in Nodes(l) && next !in CtxNodes(c)
    requires next in h' && h'[next].balance == b && h'[next].left == l.n && h'[next].parent == ParentIn(c)
    requires Kept(Nodes(l), l.n, h, h') && Reparented(l.n, next, h, h')
    requires Kept(CtxNodes(c) - (if c.Top? then {} else {c.n}), null, h, h') && Relinked(ParentIn(c), n, next, h, h')
    requires c.Under? ==> Outer(c) in h && h[Outer(c)].parent == null
    ensures CtxRep(Under(Right, next, b, l, c), h')
    ensures c.Under? ==> Outer(c) in h' && h'[Outer(c)].parent == null
  {
    RepFrame(l, h, h');
    if c.Under? {
      OuterIn(c, h);
      assert c.sib.Bin? ==> c.sib.n in Nodes(c.sib);
      assert (h[c.n].left == n) <==> c.side.Left?;
      CtxFrame(c, h, h');
    }
  }

  /** Fields after `n` with left child `l` below `pp`, and `next` with right child `x`, traded
      places. `r` is what `next` now has on the right, `p` is what `n` now hangs from. */
  ghost predicate Traded(n: Node, next: Node, pp: Node?, l: Node, x: Node?, r: Node, p: Node, h: Snapshot,
                         h': Snapshot)
  {
    && n in h && next in h && h'.Keys == h.Keys
    && h'[next] == Fields(l, r, pp, h[n].balance)
    && h'[n] == Fields(null, x, p, h[next].balance)
    && Relinked(pp, n, next, h, h') && Reparented(l, next, h, h') && Reparented(x, n, h, h')
  }

  /** Nothing but the five nodes of a trade, and two more, changed. */
  ghost predicate OnlyTraded(n: Node, next: Node, pp: Node?, l: Node, x: Node?, r: Node?, p: Node?, h: Snapshot,
                             h': Snapshot)
  {
    forall m :: m in h && m != n && m != next && m != pp && m != l && m != x && m != r && m != p ==>
      m in h' && h'[m] == h[m]
  }

  lemma TradeNear(c: Context, n: Node, b: int, l: Shape, next: Node, bx: int, rx: Shape, h: Snapshot, h': Snapshot)
    requires l.Bin? && Zipped(Under(Right, n, b, l, c), Bin(Nil, next, bx, rx), h)
    requires Traded(n, next, ParentIn(c), l.n, RootOf(rx), n, next, h, h')
    requires OnlyTraded(n, next, ParentIn(c), l.n, RootOf(rx), null, null, h, h')
    ensures Zipped(Under(Right, next, b, l, c), Bin(Nil, n, bx, rx), h')
  {
    var t := Bin(Nil, next, bx, rx);
    assert next in Nodes(t) && Nodes(t) == Nodes(rx) + {next};
    assert rx.Bin? ==> rx.n in Nodes(rx);
    assert c.Under? ==> c.n in CtxNodes(c);
    assert l.n in Nodes(l);
    RepFrame(rx, h, h');
    TradeUpper(c, l, n, b, next, h, h');
  }

  /** Two nodes, the subtrees below them and the path between and above them share nothing. */
  ghost predicate FarApart(d: Context, c: Context, n: Node, l: Shape, m: Node, x: Shape) {
    && n != m && n !in CtxNodes(d) && n !in CtxNodes(c) && n !in Nodes(l) && n !in Nodes(x)
    && m !in CtxNodes(d) && m !in CtxNodes(c) && m !in Nodes(l) && m !in Nodes(x)
    && CtxNodes(d) !! CtxNodes(c) && CtxNodes(d) !! Nodes(l) && CtxNodes(d) !! Nodes(x)
    && CtxNodes(c) !! Nodes(l) && CtxNodes(c) !! Nodes(x) && Nodes(l) !! Nodes(x)
  }

  /** `n` above `d` above `m`, which has only a right subtree `x`. */
  ghost predicate FarLinks(d: Context, c: Context, n: Node, b: int, l: Shape, m: Node, bx: int, x: Shape, h: Snapshot)
    requires d.Under?
  {
    && CtxRep(d, h) && CtxRep(Under(Right, n, b, l, c), h)
    && n in h && h[n].right == Outer(d) && Outer(d) in h && h[Outer(d)].parent == n
    && (if c.Under? then Outer(c) in h && h[Outer(c)].parent == null else h[n].parent == null)
    && m in h && h[m] == Fields(null, RootOf(x), d.n, bx) && d.n in h && h[d.n].Child(d.side) == m
    && Rep(x, h) && Hangs(x, m, h)
  }

  lemma TakeFar(d: Context, c: Context, n: Node, b: int, l: Shape, m: Node, bx: int, x: Shape, h: Snapshot)
    requires d.Under? && Zipped(Append(d, Under(Right, n, b, l, c)), Bin(Nil, m, bx, x), h)
    ensures FarApart(d, c, n, l, m, x) && FarLinks(d, c, n, b, l, m, bx, x, h)
  {
    var e, t := Under(Right, n, b, l, c), Bin(Nil, m, bx, x);
    AppendNodes(d, e);
    SplitContext(d, e, h);
    assert CtxNodes(e) == CtxNodes(c) + {n} + Nodes(l) && Nodes(t) == Nodes(x) + {m};
    assert m in Nodes(t);
  }

  lemma MakeFar(d: Context, c: Context, n: Node, b: int, l: Shape, m: Node, bx: int, x: Shape, h: Snapshot)
    requires d.Under? && FarApart(d, c, n, l, m, x) && FarLinks(d, c, n, b, l, m, bx, x, h)
    ensures Zipped(Append(d, Under(Right, n, b, l, c)), Bin(Nil, m, bx, x), h)
  {
    var e, t := Under(Right, n, b, l, c), Bin(Nil, m, bx, x);
    AppendNodes(d, e);
    assert CtxNodes(e) == CtxNodes(c) + {n} + Nodes(l) && Nodes(t) == Nodes(x) + {m};
    JoinContext(d, e, h);
  }

  /** What a trade leaves alone of the subtree `ls` below `n` and of the path `cs` above it. */
  lemma KeptByTrade(ls: set<Node>, cs: set<Node>, n: Node, next: Node, pp: Node?, l: Node, x: Node?, r: Node, p: Node,
                    h: Snapshot, h': Snapshot)
    requires OnlyTraded(n, next, pp, l, x, r, p, h, h') && Reparented(l, next, h, h')
    requires n !in ls + cs && next !in ls + cs && x !in ls + cs && r !in ls + cs && p !in ls + cs
    requires pp !in ls && l !in cs
    ensures Kept(ls, l, h, h') && Kept(cs - Only(pp), null, h, h')
  {
  }

  /** None of the nodes on the path between the two, or below, is above or to the left. */
  lemma FarSides(d: Context, c: Context, n: Node, l: Shape, next: Node, x: Shape, h: Snapshot)
    requires d.Under? && l.Bin? && FarApart(d, c, n, l, next, x) && CtxRep(d, h)
    ensures var ls, cs := Nodes(l), CtxNodes(c);
      && n !in ls + cs && next !in ls + cs && RootOf(x) !in ls + cs && Outer(d) !in ls + cs && d.n !in ls + cs
      && ParentIn(c) !in ls && l.n !in cs
  {
    OuterIn(d, h);
    assert d.n in CtxNodes(d);
    assert x.Bin? ==> x.n in Nodes(x);
    assert c.Under? ==> c.n in CtxNodes(c);
    assert l.n in Nodes(l);
  }

  lemma TradeFarUpper(d: Context, c: Context, n: Node, b: int, l: Shape, next: Node, bx: int, x: Shape, h: Snapshot,
                      h': Snapshot)
    requires d.Under? && l.Bin? && FarApart(d, c, n, l, next, x) && FarLinks(d, c, n, b, l, next, bx, x, h)
    requires Traded(n, next, ParentIn(c), l.n, RootOf(x), Outer(d), d.n, h, h')
    requires OnlyTraded(n, next, ParentIn(c), l.n, RootOf(x), Outer(d), d.n, h, h')
    ensures CtxRep(Under(Right, next, b, l, c), h') && (c.Under? ==> Outer(c) in h' && h'[Outer(c)].parent == null)
  {
    FarSides(d, c, n, l, next, x, h);
    KeptByTrade(Nodes(l), CtxNodes(c), n, next, ParentIn(c), l.n, RootOf(x), Outer(d), d.n, h, h');
    TradeUpper(c, l, n, b, next, h, h');
  }

  lemma TradeFarLower(d: Context, c: Context, n: Node, b: int, l: Shape, next: Node, bx: int, x: Shape, h: Snapshot,
                      h': Snapshot)
    requires d.Under? && l.Bin? && FarApart(d, c, n, l, next, x) && FarLinks(d, c, n, b, l, next, bx, x, h)
    requires Traded(n, next, ParentIn(c), l.n, RootOf(x), Outer(d), d.n, h, h') && EndsMoved(d, h, h')
    requires OnlyTraded(n, next, ParentIn(c), l.n, RootOf(x), Outer(d), d.n, h, h')
    ensures CtxRep(d, h') && Rep(x, h') && Hangs(x, n, h')
  {
    OuterIn(d, h);
    assert d.n in CtxNodes(d);
    assert c.Under? ==> c.n in CtxNodes(c);
    assert l.n in Nodes(l);
    RepFrame(x, h, h');
    SegmentFrame(d, h, h');
  }

  lemma TradeFarLinks(d: Context, c: Context, n: Node, b: int, l: Shape, next: Node, bx: int, x: Shape, h: Snapshot,
                      h': Snapshot)
    requires d.Under? && d.side.Left? && l.Bin?
    requires FarApart(d, c, n, l, next, x) && FarLinks(d, c, n, b, l, next, bx, x, h)
    requires Traded(n, next, ParentIn(c), l.n, RootOf(x), Outer(d), d.n, h, h')
    requires OnlyTraded(n, next, ParentIn(c), l.n, RootOf(x), Outer(d), d.n, h, h')
    requires h'[Outer(d)].parent == next && h'[d.n].left == n && EndsMoved(d, h, h')
    ensures FarLinks(d, c, next, b, l, n, bx, x, h')
  {
    TradeFarUpper(d, c, n, b, l, next, bx, x, h, h');
    TradeFarLower(d, c, n, b, l, next, bx, x, h, h');
  }

  /** The ends of the path between the two nodes point at the new neighbours. */
  ghost predicate EndsRelinked(r: Node, p: Node, n: Node, next: Node, h: Snapshot, h': Snapshot) {
    && r in h && p in h && r in h' && p in h'
    && h'[r] == h[r].(parent := next, left := if p == r then n else h[r].left)
    && (p != r ==> h'[p] == h[p].(left := n))
  }

  lemma EndsAreMoved(d: Context, c: Context, n: Node, b: int, l: Shape, next: Node, bx: int, x: Shape, h: Snapshot,
                     h': Snapshot)
    requires d.Under? && d.side.Left? && l.Bin? && FarApart(d, c, n, l, next, x)
      && FarLinks(d, c, n, b, l, next, bx, x, h)
    requires OnlyTraded(n, next, ParentIn(c), l.n, RootOf(x), Outer(d), d.n, h, h')
      && EndsRelinked(Outer(d), d.n, n, next, h, h')
    ensures EndsMoved(d, h, h') && h'[Outer(d)].parent == next && h'[d.n].left == n
  {
    assert x.Bin? ==> x.n in Nodes(x);
    assert c.Under? ==> c.n in CtxNodes(c);
    assert l.n in Nodes(l);
  }

  lemma TradeFar(d: Context, c: Context, n: Node, b: int, l: Shape, next: Node, bx: int, x: Shape, h: Snapshot,
                 h': Snapshot)
    requires d.Under? && d.side.Left? && l.Bin? && Zipped(Append(d, Under(Right, n, b, l, c)), Bin(Nil, next, bx, x), h)
    requires Traded(n, next, ParentIn(c), l.n, RootOf(x), Outer(d), d.n, h, h')
    requires OnlyTraded(n, next, ParentIn(c), l.n, RootOf(x), Outer(d), d.n, h, h')
    requires EndsRelinked(Outer(d), d.n, n, next, h, h')
    ensures Zipped(Append(d, Under(Right, next, b, l, c)), Bin(Nil, n, bx, x), h')
  {
    TakeFar(d, c, n, b, l, next, bx, x, h);
    EndsAreMoved(d, c, n, b, l, next, bx, x, h, h');
    TradeFarLinks(d, c, n, b, l, next, bx, x, h, h');
    MakeFar(d, c, next, b, l, n, bx, x, h');
  }
}
