/** What the rotations of avl_tree.c do to node fields, and the shapes they turn into each other. */
module AvlRotate {
  import opened AvlShape
  import opened AvlHeap

  // ---------------------------------------------------------------- Changes to a snapshot

  /** `h'` differs from `h` at most in the fields of the four given nodes. */
  ghost predicate OnlyTouched(n1: Node?, n2: Node?, n3: Node?, n4: Node?, h: Snapshot, h': Snapshot) {
    && h'.Keys == h.Keys
    && forall n :: n in h && n != n1 && n != n2 && n != n3 && n != n4 ==> h'[n] == h[n]
  }

  /** `parent`, if any, points at `newNode` where it pointed at `oldNode`. */
  ghost predicate Relinked(parent: Node?, oldNode: Node?, newNode: Node?, h: Snapshot, h': Snapshot) {
    parent != null ==>
      && parent in h && parent in h'
      && h'[parent] == h[parent].With(if h[parent].left == oldNode then Left else Right, newNode)
  }

  /** The parent of `x`, if there is an `x`, is now `p`. */
  ghost predicate Reparented(x: Node?, p: Node?, h: Snapshot, h': Snapshot) {
    x != null ==> x in h && x in h' && h'[x] == h[x].(parent := p)
  }

  lemma RepAway(t: Shape, p: Node?, n1: Node?, n2: Node?, n3: Node?, n4: Node?, h: Snapshot, h': Snapshot)
    requires Rep(t, h) && Hangs(t, p, h) && OnlyTouched(n1, n2, n3, n4, h, h')
    requires n1 !in Nodes(t) && n2 !in Nodes(t) && n3 !in Nodes(t) && n4 !in Nodes(t)
    ensures Rep(t, h') && Hangs(t, p, h')
  {
    RepFrame(t, h, h');
    assert t.Bin? ==> t.n in Nodes(t);
  }

  lemma RepMoved(t: Shape, p: Node?, n1: Node?, n2: Node?, n3: Node?, h: Snapshot, h': Snapshot)
    requires Rep(t, h) && OnlyTouched(n1, n2, n3, RootOf(t), h, h')
    requires n1 !in Nodes(t) && n2 !in Nodes(t) && n3 !in Nodes(t)
    requires Reparented(RootOf(t), p, h, h')
    ensures Rep(t, h') && Hangs(t, p, h')
  {
    RepFrame(t, h, h');
  }

  /** A context whose cut subtree got a new root `y` in place of `x`. */
  lemma CtxMoved(c: Context, x: Node, y: Node?, n1: Node?, n2: Node?, n4: Node?, h: Snapshot, h': Snapshot)
    requires CtxRep(c, h) && Meets(c, x, h) && x !in CtxNodes(c)
    requires OnlyTouched(n1, n2, ParentIn(c), n4, h, h')
    requires n1 !in CtxNodes(c) && n2 !in CtxNodes(c) && n4 !in CtxNodes(c)
    requires Relinked(ParentIn(c), x, y, h, h')
    ensures CtxRep(c, h')
    ensures c.Under? ==> h'[c.n].Child(c.side) == y && Outer(c) in h' && h'[Outer(c)].parent == null
  {
    if c.Under? {
      assert c.sib.Bin? ==> c.sib.n in Nodes(c.sib);
      assert (h[c.n].left == x) <==> c.side.Left?;
      CtxFrame(c, h, h');
    }
  }

  // ---------------------------------------------------------------- One node and its subtrees

  ghost predicate Linked(n: Node, side: Side, b: int, t: Shape, sib: Shape, h: Snapshot) {
    && n in h && h[n].balance == b
    && h[n].Child(side) == RootOf(t) && h[n].Child(Opposite(side)) == RootOf(sib)
    && Hangs(t, n, h) && Hangs(sib, n, h)
  }

  lemma RepFill(side: Side, n: Node, b: int, sib: Shape, t: Shape, h: Snapshot)
    requires Linked(n, side, b, t, sib, h) && Rep(t, h) && Rep(sib, h)
    requires n !in Nodes(t) && n !in Nodes(sib) && Nodes(t) !! Nodes(sib)
    ensures Rep(Fill(side, n, b, sib, t), h) && Nodes(Fill(side, n, b, sib, t)) == Nodes(t) + {n} + Nodes(sib)
  {
  }

  lemma UnFill(side: Side, n: Node, b: int, sib: Shape, t: Shape, h: Snapshot)
    requires Rep(Fill(side, n, b, sib, t), h)
    ensures Linked(n, side, b, t, sib, h) && Rep(t, h) && Rep(sib, h)
    ensures n !in Nodes(t) && n !in Nodes(sib) && Nodes(t) !! Nodes(sib)
    ensures Nodes(Fill(side, n, b, sib, t)) == Nodes(t) + {n} + Nodes(sib)
  {
  }

  // ---------------------------------------------------------------- Single rotations

  /** `q`, the `side` child of `p`, took the place of `p` below `pp`, and `p` took over `y`, which
      `q` had on the other side. */
  ghost predicate Rotated1(side: Side, q: Node, p: Node, pp: Node?, y: Node?, bp: int, bq: int,
                           h: Snapshot, h': Snapshot)
  {
    && p in h && q in h && OnlyTouched(p, q, pp, y, h, h')
    && h'[p] == h[p].With(side, y).(parent := q, balance := bp)
    && h'[q] == h[q].With(Opposite(side), p).(parent := pp, balance := bq)
    && Relinked(pp, p, q, h, h') && Reparented(y, p, h, h')
  }

  ghost function Chain(side: Side, p: Node, bp: int, x: Shape, q: Node, bq: int, y: Shape, z: Shape): Shape {
    Fill(side, p, bp, x, Fill(side, q, bq, y, z))
  }

  /** The parts of a chain share nothing. */
  ghost predicate Apart(c: Context, p: Node, q: Node, x: Shape, y: Shape, z: Shape) {
    && p != q && p !in Nodes(x) && p !in Nodes(y) && p !in Nodes(z) && p !in CtxNodes(c)
    && q !in Nodes(x) && q !in Nodes(y) && q !in Nodes(z) && q !in CtxNodes(c)
    && Nodes(x) !! Nodes(y) && Nodes(y) !! Nodes(z) && Nodes(x) !! Nodes(z)
    && Nodes(x) !! CtxNodes(c) && Nodes(y) !! CtxNodes(c) && Nodes(z) !! CtxNodes(c)
  }

  ghost predicate ChainLinks(c: Context, side: Side, p: Node, bp: int, x: Shape, q: Node, bq: int, y: Shape, z: Shape,
                             h: Snapshot)
  {
    && Rep(x, h) && Rep(y, h) && Rep(z, h) && CtxRep(c, h) && Meets(c, p, h)
    && Linked(p, side, bp, Fill(side, q, bq, y, z), x, h) && Linked(q, side, bq, z, y, h)
  }

  lemma TakeChain(c: Context, side: Side, p: Node, bp: int, x: Shape, q: Node, bq: int, y: Shape, z: Shape, h: Snapshot)
    requires Zipped(c, Chain(side, p, bp, x, q, bq, y, z), h)
    ensures Apart(c, p, q, x, y, z) && ChainLinks(c, side, p, bp, x, q, bq, y, z, h)
  {
    UnFill(side, p, bp, x, Fill(side, q, bq, y, z), h);
    UnFill(side, q, bq, y, z, h);
  }

  lemma MakeChain(c: Context, side: Side, p: Node, bp: int, x: Shape, q: Node, bq: int, y: Shape, z: Shape, h: Snapshot)
    requires Apart(c, p, q, x, y, z) && ChainLinks(c, side, p, bp, x, q, bq, y, z, h)
    ensures Zipped(c, Chain(side, p, bp, x, q, bq, y, z), h)
  {
    RepFill(side, q, bq, y, z, h);
    var t := Fill(side, q, bq, y, z);
    assert Nodes(t) == Nodes(z) + {q} + Nodes(y);
    assert p !in Nodes(t) && Nodes(t) !! Nodes(x) && Nodes(t) !! CtxNodes(c);
    PlaceFill(c, side, p, bp, x, t, h);
  }

  lemma PlaceFill(c: Context, side: Side, n: Node, b: int, sib: Shape, t: Shape, h: Snapshot)
    requires Linked(n, side, b, t, sib, h) && Rep(t, h) && Rep(sib, h) && CtxRep(c, h) && Meets(c, n, h)
    requires n !in Nodes(t) && n !in Nodes(sib) && Nodes(t) !! Nodes(sib)
    requires n !in CtxNodes(c) && Nodes(t) !! CtxNodes(c) && Nodes(sib) !! CtxNodes(c)
    ensures Zipped(c, Fill(side, n, b, sib, t), h)
  {
    RepFill(side, n, b, sib, t, h);
  }

  lemma RotateLinks(c: Context, side: Side, p: Node, bp: int, x: Shape, q: Node, bq: int, y: Shape, z: Shape,
                    bp': int, bq': int, h: Snapshot, h': Snapshot)
    requires Apart(c, p, q, x, y, z) && ChainLinks(c, side, p, bp, x, q, bq, y, z, h)
    requires Rotated1(side, q, p, ParentIn(c), RootOf(y), bp', bq', h, h')
    ensures ChainLinks(c, Opposite(side), q, bq', z, p, bp', y, x, h')
  {
    assert y.Bin? ==> y.n in Nodes(y);
    assert c.Under? ==> c.n in CtxNodes(c);
    var pp, ry := ParentIn(c), RootOf(y);
    RepAway(x, p, p, q, pp, ry, h, h');
    RepAway(z, q, p, q, pp, ry, h, h');
    RepMoved(y, p, p, q, pp, h, h');
    CtxMoved(c, p, q, p, q, ry, h, h');
  }

  lemma RotateChain(c: Context, side: Side, p: Node, bp: int, x: Shape, q: Node, bq: int, y: Shape, z: Shape,
                    bp': int, bq': int, h: Snapshot, h': Snapshot)
    requires Zipped(c, Chain(side, p, bp, x, q, bq, y, z), h)
    requires Rotated1(side, q, p, ParentIn(c), RootOf(y), bp', bq', h, h')
    ensures Zipped(c, Chain(Opposite(side), q, bq', z, p, bp', y, x), h')
  {
    TakeChain(c, side, p, bp, x, q, bq, y, z, h);
    RotateLinks(c, side, p, bp, x, q, bq, y, z, bp', bq', h, h');
    MakeChain(c, Opposite(side), q, bq', z, p, bp', y, x, h');
  }

  /** The nodes around a single rotation are different, and point at each other as they should. */
  lemma ChainNodes(c: Context, side: Side, p: Node, bp: int, x: Shape, q: Node, bq: int, y: Shape, z: Shape,
                   h: Snapshot)
    requires Zipped(c, Chain(side, p, bp, x, q, bq, y, z), h)
    ensures var pp, ry := ParentIn(c), RootOf(y);
      && p in h && q in h && (pp != null ==> pp in h) && (ry != null ==> ry in h)
      && p != q && pp != p && pp != q && ry != p && ry != q && (ry != null ==> ry != pp)
      && h[p].parent == pp && h[p].Child(side) == q && h[p].balance == bp
      && h[q].parent == p && h[q].Child(Opposite(side)) == ry && h[q].balance == bq
      && (pp != null ==> h[pp].left == p || h[pp].right == p)
  {
    TakeChain(c, side, p, bp, x, q, bq, y, z, h);
    assert y.Bin? ==> y.n in Nodes(y);
    assert c.Under? ==> c.n in CtxNodes(c);
  }

  // ---------------------------------------------------------------- Double rotations

  /** `p` has `q` on `side`, which has `r` on the other side; `r` took the place of `p` below `pp`
      with `p` and `q` as its children, and they took over its children `y` and `w`. */
  ghost predicate Rotated2(side: Side, r: Node, q: Node, p: Node, pp: Node?, y: Node?, w: Node?, bp: int, bq: int,
                           h: Snapshot, h': Snapshot)
  {
    && p in h && q in h && r in h && h'.Keys == h.Keys
    && (forall n :: n in h && n != p && n != q && n != r && n != pp && n != y && n != w ==> h'[n] == h[n])
    && h'[p] == h[p].With(side, y).(parent := r, balance := bp)
    && h'[q] == h[q].With(Opposite(side), w).(parent := r, balance := bq)
    && h'[r] == h[r].With(side, q).With(Opposite(side), p).(parent := pp, balance := 0)
    && Relinked(pp, p, r, h, h') && Reparented(y, p, h, h') && Reparented(w, q, h, h')
  }

  /** The snapshot between the two single rotations that make up a double one. */
  ghost function Halfway(side: Side, r: Node, q: Node, p: Node, w: Node?, bq: int, h: Snapshot): Snapshot
    requires p in h && q in h && r in h && (w != null ==> w in h)
  {
    var h1 := h[q := h[q].With(Opposite(side), w).(parent := r, balance := bq)]
               [r := h[r].With(side, q).(parent := p)]
               [p := h[p].With(side, r)];
    if w == null then h1 else h1[w := h[w].(parent := q)]
  }

  predicate AllDifferent(p: Node, q: Node, r: Node, pp: Node?, y: Node?, w: Node?) {
    && p != q && p != r && q != r && pp != p && pp != q && pp != r && y != p && y != q && y != r
    && w != p && w != q && w != r && (pp != null ==> pp != y && pp != w) && (y != null ==> y != w)
  }

  lemma DoubleIsTwoSingles(side: Side, r: Node, q: Node, p: Node, pp: Node?, y: Node?, w: Node?, bp: int, bq: int,
                           h: Snapshot, h': Snapshot)
    requires Rotated2(side, r, q, p, pp, y, w, bp, bq, h, h') && AllDifferent(p, q, r, pp, y, w)
    requires h[p].Child(side) == q && h[p].Child(Opposite(side)) != q
    ensures var h1 := Halfway(side, r, q, p, w, bq, h);
            && Rotated1(Opposite(side), r, q, p, w, bq, h[r].balance, h, h1)
            && Rotated1(side, r, p, pp, y, bp, 0, h1, h')
  {
  }

  ghost function Zigzag(side: Side, p: Node, bp: int, x: Shape, q: Node, bq: int, z: Shape,
                        r: Node, br: int, y: Shape, w: Shape): Shape
  {
    Fill(side, p, bp, x, Fill(Opposite(side), q, bq, z, Fill(side, r, br, y, w)))
  }

  lemma ZigzagNodes(c: Context, side: Side, p: Node, bp: int, x: Shape, q: Node, bq: int, z: Shape,
                    r: Node, br: int, y: Shape, w: Shape, h: Snapshot)
    requires Zipped(c, Zigzag(side, p, bp, x, q, bq, z, r, br, y, w), h)
    ensures var pp, ry, rw := ParentIn(c), RootOf(y), RootOf(w);
      && AllDifferent(p, q, r, pp, ry, rw)
      && p in h && q in h && r in h
      && (pp != null ==> pp in h) && (ry != null ==> ry in h) && (rw != null ==> rw in h)
      && h[p].parent == pp && h[p].Child(side) == q && h[p].Child(Opposite(side)) != q && h[p].balance == bp
      && h[q].parent == p && h[q].Child(Opposite(side)) == r && h[q].balance == bq
      && h[r].parent == q && h[r].Child(side) == rw && h[r].Child(Opposite(side)) == ry && h[r].balance == br
      && (pp != null ==> h[pp].left == p || h[pp].right == p)
  {
    UnFill(side, p, bp, x, Fill(Opposite(side), q, bq, z, Fill(side, r, br, y, w)), h);
    UnFill(Opposite(side), q, bq, z, Fill(side, r, br, y, w), h);
    UnFill(side, r, br, y, w, h);
    assert x.Bin? ==> x.n in Nodes(x);
    assert y.Bin? ==> y.n in Nodes(y);
    assert w.Bin? ==> w.n in Nodes(w);
    assert c.Under? ==> c.n in CtxNodes(c);
  }

  lemma RotateZigzag(c: Context, side: Side, p: Node, bp: int, x: Shape, q: Node, bq: int, z: Shape,
                     r: Node, br: int, y: Shape, w: Shape, bp': int, bq': int, h: Snapshot, h': Snapshot)
    requires Zipped(c, Zigzag(side, p, bp, x, q, bq, z, r, br, y, w), h)
    requires Rotated2(side, r, q, p, ParentIn(c), RootOf(y), RootOf(w), bp', bq', h, h')
    ensures Zipped(c, Fill(Opposite(side), r, 0, Fill(side, q, bq', w, z), Fill(Opposite(side), p, bp', y, x)), h')
  {
    ZigzagNodes(c, side, p, bp, x, q, bq, z, r, br, y, w, h);
    DoubleIsTwoSingles(side, r, q, p, ParentIn(c), RootOf(y), RootOf(w), bp', bq', h, h');
    var h1 := Halfway(side, r, q, p, RootOf(w), bq', h);
    Descend(c, side, p, bp, x, Fill(Opposite(side), q, bq, z, Fill(side, r, br, y, w)), h);
    RotateChain(Under(side, p, bp, x, c), Opposite(side), q, bq, z, r, br, w, y, bq', br, h, h1);
    Ascend(Under(side, p, bp, x, c), Chain(side, r, br, y, q, bq', w, z), h1);
    RotateChain(c, side, p, bp, x, r, br, y, Fill(side, q, bq', w, z), bp', 0, h1, h');
  }
}
