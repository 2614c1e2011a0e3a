/** Linked nodes that spell out a shape, and what survives pointer surgery.

Links are read from a snapshot of the node fields, so that everything here is about values; the
methods of `AvlTree` keep a snapshot in step with the nodes. */
module AvlHeap {
  import opened AvlShape

  datatype Fields = Fields(left: Node?, right: Node?, parent: Node?, balance: int) {

    function Child(side: Side): Node? { if side.Left? then left else right }

    function With(side: Side, x: Node?): Fields {
      if side.Left? then this.(left := x) else this.(right := x)
    }
  }

  type Snapshot = map<Node, Fields>

  function Opposite(side: Side): Side { if side.Left? then Right else Left }

  // ---------------------------------------------------------------- Representation

  /** The nodes of `t` are linked and balanced as `t` says. The parent pointer of the root is left
      open. */
  ghost predicate Rep(t: Shape, h: Snapshot) {
    match t
    case Nil => true
    case Bin(l, n, b, r) =>
      && n in h && h[n].balance == b
      && n !in Nodes(l) && n !in Nodes(r) && Nodes(l) !! Nodes(r)
      && h[n].left == RootOf(l) && h[n].right == RootOf(r)
      && Rep(l, h) && Rep(r, h) && Hangs(l, n, h) && Hangs(r, n, h)
  }

  /** The root of `t`, if any, has parent `p`. */
  ghost predicate Hangs(t: Shape, p: Node?, h: Snapshot) {
    t.Bin? ==> t.n in h && h[t.n].parent == p
  }

  /** The nodes of context `c` are linked and balanced as `c` says. The pointer to the cut subtree
      and the parent pointer of the topmost node are left open. */
  ghost predicate CtxRep(c: Context, h: Snapshot) {
    c.Under? ==>
      && c.n !in Nodes(c.sib) && c.n !in CtxNodes(c.up) && Nodes(c.sib) !! CtxNodes(c.up)
      && c.n in h && h[c.n].balance == c.b && h[c.n].Child(Opposite(c.side)) == RootOf(c.sib)
      && Rep(c.sib, h) && Hangs(c.sib, c.n, h)
      && CtxRep(c.up, h)
      && (c.up.Under? ==> c.up.n in h && h[c.up.n].Child(c.up.side) == c.n && h[c.n].parent == c.up.n)
  }

  /** `x` is the root of the subtree cut out of `c`, and the root of the whole has no parent. */
  ghost predicate Meets(c: Context, x: Node?, h: Snapshot) {
    && (c.Under? ==> c.n in h && h[c.n].Child(c.side) == x && Outer(c) in h && h[Outer(c)].parent == null)
    && (x != null ==> x in h && h[x].parent == ParentIn(c))
  }

  /** Context and subtree make up one whole tree. */
  ghost predicate Zipped(c: Context, t: Shape, h: Snapshot) {
    Rep(t, h) && CtxRep(c, h) && Nodes(t) !! CtxNodes(c) && Meets(c, RootOf(t), h)
  }

  lemma Ascend(c: Context, t: Shape, h: Snapshot)
    requires Zipped(c, t, h) && c.Under?
    ensures Zipped(c.up, Fill(c.side, c.n, c.b, c.sib, t), h)
  {
  }

  lemma Descend(c: Context, side: Side, n: Node, b: int, sib: Shape, t: Shape, h: Snapshot)
    requires Zipped(c, Fill(side, n, b, sib, t), h)
    ensures Zipped(Under(side, n, b, sib, c), t, h)
  {
  }

  /** The nodes of `t` are linked as `t` says, and its root has no parent. */
  ghost predicate Whole(t: Shape, h: Snapshot) {
    Rep(t, h) && Hangs(t, null, h)
  }

  lemma {:induction false} Zip(c: Context, t: Shape, h: Snapshot)
    requires Zipped(c, t, h)
    ensures Whole(Plug(c, t), h)
    decreases c
  {
    if c.Under? {
      Ascend(c, t, h);
      Zip(c.up, Fill(c.side, c.n, c.b, c.sib, t), h);
    }
  }

  lemma {:induction false} Unzip(c: Context, t: Shape, h: Snapshot)
    requires Whole(Plug(c, t), h)
    ensures Zipped(c, t, h)
    decreases c
  {
    if c.Under? {
      Unzip(c.up, Fill(c.side, c.n, c.b, c.sib, t), h);
      Descend(c.up, c.side, c.n, c.b, c.sib, t, h);
    }
  }

  // ---------------------------------------------------------------- Frames

  ghost function Only(n: Node?): set<Node> { if n == null then {} else {n} }

  /** The nodes of `s` kept their fields, `except` at most its parent. */
  ghost predicate Kept(s: set<Node>, except: Node?, h: Snapshot, h': Snapshot) {
    forall n :: n in s && n in h ==>
      n in h' && (h'[n] == h[n] || (n == except && h'[n] == h[n].(parent := h'[n].parent)))
  }

  /** A shape survives changes elsewhere, and a new parent above its root. */
  lemma {:induction false} RepFrame(t: Shape, h: Snapshot, h': Snapshot)
    requires Rep(t, h) && Kept(Nodes(t), RootOf(t), h, h')
    ensures Rep(t, h')
  {
    if t.Bin? {
      RepFrame(t.l, h, h');
      RepFrame(t.r, h, h');
    }
  }

  /** A context survives changes elsewhere and at the cut. */
  lemma {:induction false} CtxFrame(c: Context, h: Snapshot, h': Snapshot)
    requires CtxRep(c, h) && Kept(CtxNodes(c) - (if c.Top? then {} else {c.n}), null, h, h')
    requires c.Under? ==> c.n in h' && h'[c.n] == h[c.n].With(c.side, h'[c.n].Child(c.side))
    ensures CtxRep(c, h')
  {
    if c.Under? {
      RepFrame(c.sib, h, h');
      CtxFrame(c.up, h, h');
    }
  }
}
