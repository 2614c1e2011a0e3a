/** Why the loop of `avl_tree_balance` ends in a balanced tree with the same nodes in order. */
module AvlHeights {
  import opened AvlShape
  import opened AvlTree
  import opened AvlBalance
  import opened AvlHeap

  // ---------------------------------------------------------------- Rotations

  /** A tree of height `h` whose root balance is off by one and whose subtrees are fine. */
  ghost predicate Disturbed(t: Shape, h: int) {
    && t.Bin? && h >= 3 && (t.b == 2 || t.b == -2)
    && Avl(On(t, Heavy(t)), h - 1) && Avl(On(t, Opposite(Heavy(t))), h - 3)
  }

  lemma AvlRoot(t: Shape, h: int)
    requires Avl(t, h) && h >= 1
    ensures Level(t)
    ensures Avl(t.l, if t.b == 1 then h - 2 else h - 1) && Avl(t.r, if t.b == -1 then h - 2 else h - 1)
  {
  }

  lemma DisturbedRotates(t: Shape, h: int)
    requires Disturbed(t, h)
    ensures Rotatable(t)
  {
    var s := Heavy(t);
    var q := On(t, s);
    AvlRoot(q, h - 1);
    if q.b == -Sign(s) {
      AvlRoot(On(q, Opposite(s)), h - 2);
    }
  }

  lemma RebalanceHeight(t: Shape, h: int)
    requires Disturbed(t, h) && Rotatable(t)
    ensures Avl(Rebalance(t), if On(t, Heavy(t)).b == 0 then h else h - 1)
  {
    var q := On(t, Heavy(t));
    AvlRoot(q, h - 1);
    if t.b == 2 && q.b == -1 {
      var r := q.l;
      AvlRoot(r, h - 2);
      assert Avl(Bin(t.l, t.n, if r.b == 1 then -1 else 0, r.l), h - 2);
      assert Avl(Bin(r.r, q.n, if r.b == -1 then 1 else 0, q.r), h - 2);
    } else if t.b == 2 {
      assert Avl(Bin(t.l, t.n, 1 - q.b, q.l), if q.b == 0 then h - 1 else h - 2);
    } else if q.b == 1 {
      var r := q.r;
      AvlRoot(r, h - 2);
      assert Avl(Bin(q.l, q.n, if r.b == 1 then -1 else 0, r.l), h - 2);
      assert Avl(Bin(r.r, t.n, if r.b == -1 then 1 else 0, t.r), h - 2);
    } else {
      assert Avl(Bin(q.r, t.n, -1 - q.b, t.r), if q.b == 0 then h - 1 else h - 2);
    }
  }

  lemma SingleOrder(x: Shape, p: Node, y: Shape, q: Node, z: Shape, b1: int, b2: int, b3: int, b4: int)
    ensures InOrder(Bin(x, p, b1, Bin(y, q, b2, z))) == InOrder(Bin(Bin(x, p, b3, y), q, b4, z))
  {
    var i, j, k := InOrder(x), InOrder(y), InOrder(z);
    assert i + [p] + (j + [q] + k) == (i + [p] + j) + [q] + k;
  }

  lemma DoubleOrder(x: Shape, p: Node, y: Shape, r: Node, w: Shape, q: Node, z: Shape,
                    b1: int, b2: int, b3: int, b4: int, b5: int, b6: int)
    ensures var after := InOrder(Bin(Bin(x, p, b4, y), r, b5, Bin(w, q, b6, z)));
      && InOrder(Bin(x, p, b1, Bin(Bin(y, r, b2, w), q, b3, z))) == after
      && InOrder(Bin(Bin(x, p, b1, Bin(y, r, b2, w)), q, b3, z)) == after
  {
    SingleOrder(y, r, w, q, z, b2, b6, b2, b3);
    SingleOrder(x, p, y, r, Bin(w, q, b6, z), b1, b5, b4, b5);
    SingleOrder(x, p, y, r, w, b1, b2, b4, b2);
    SingleOrder(Bin(x, p, b4, y), r, w, q, z, b5, b6, b2, b3);
    assert InOrder(Bin(x, p, b1, Bin(Bin(y, r, b2, w), q, b3, z)))
        == InOrder(Bin(x, p, b1, Bin(y, r, b5, Bin(w, q, b6, z))));
  }

  lemma RebalanceOrder(t: Shape)
    requires Rotatable(t)
    ensures InOrder(Rebalance(t)) == InOrder(t)
  {
    var q := On(t, Heavy(t));
    if t.b == 2 && q.b != -1 {
      SingleOrder(t.l, t.n, q.l, q.n, q.r, 2, q.b, 1 - q.b, q.b - 1);
    } else if t.b == 2 {
      var r := q.l;
      var bp, bq := if r.b == 1 then -1 else 0, if r.b == -1 then 1 else 0;
      DoubleOrder(t.l, t.n, r.l, r.n, r.r, q.n, q.r, 2, r.b, -1, bp, 0, bq);
    } else if q.b != 1 {
      SingleOrder(q.l, q.n, q.r, t.n, t.r, q.b + 1, -1 - q.b, q.b, -2);
    } else {
      var r := q.r;
      var bp, bq := if r.b == -1 then 1 else 0, if r.b == 1 then -1 else 0;
      DoubleOrder(q.l, q.n, r.l, r.n, r.r, t.n, t.r, 1, r.b, -2, bq, 0, bp);
    }
  }

  /** A rotation repairs a disturbed tree, keeps the order, and lowers the tree by one unless the
      heavy child was level. */
  lemma RebalanceRepairs(t: Shape, h: int)
    requires Disturbed(t, h)
    ensures Rotatable(t) && InOrder(Rebalance(t)) == InOrder(t)
    ensures Avl(Rebalance(t), if On(t, Heavy(t)).b == 0 then h else h - 1)
  {
    DisturbedRotates(t, h);
    RebalanceHeight(t, h);
    RebalanceOrder(t);
  }

  // ---------------------------------------------------------------- The invariant of the loop

  /** The `side` child of `t` had height `h` and now has height `h + d`; the balance field of the
      root does not know yet, and the context still fits the former height of `t`. */
  ghost predicate Stale(c: Context, t: Shape, side: Side, h: int, d: int) {
    && Level(t) && h >= 0 && (d == 1 || d == -1)
    && Avl(On(t, side), h + d) && Avl(On(t, Opposite(side)), Beside(side, t.b, h))
    && CtxAvl(c, Former(t, side, h))
    && (d == 1 && h > 0 ==> On(t, side).Bin? && On(t, side).b != 0)
  }

  /** The height `t` used to have. */
  ghost function Former(t: Shape, side: Side, h: int): int
    requires t.Bin?
  {
    1 + Larger(h, Beside(side, t.b, h))
  }

  lemma AvlNode(t: Shape, l: int, r: int)
    requires t.Bin? && Avl(t.l, l) && Avl(t.r, r) && t.b == r - l && -1 <= t.b <= 1 && (l >= 0 || r >= 0)
    ensures Avl(t, 1 + Larger(l, r))
  {
    AvlHeight(t.l, l);
    AvlHeight(t.r, r);
  }

  lemma AvlHeight(t: Shape, h: int)
    requires Avl(t, h)
    ensures h >= 0
  {
  }

  /** A turn without a rotation. */
  lemma UpdateStep(c: Context, t: Shape, side: Side, h: int, d: int)
    requires Stale(c, t, side, h, d) && Level(Updated(t, side, d))
    ensures var t' := Updated(t, side, d);
      && InOrder(t') == InOrder(t)
      && Avl(t', Former(t, side, h) + (if HeightMoves(t.b, side, d) then d else 0))
      && (d == 1 && HeightMoves(t.b, side, d) ==> t'.b != 0)
  {
    var other := Beside(side, t.b, h);
    var l, r := if side.Left? then h + d else other, if side.Left? then other else h + d;
    AvlNode(Updated(t, side, d), l, r);
  }

  /** A turn with a rotation: after an insertion it always restores the former height. */
  lemma RotateStep(c: Context, t: Shape, side: Side, h: int, d: int)
    requires Stale(c, t, side, h, d) && !Level(Updated(t, side, d))
    ensures var t1 := Updated(t, side, d);
      && Rotatable(t1) && InOrder(Rebalance(t1)) == InOrder(t)
      && Avl(Rebalance(t1), Former(t, side, h) - (if d == -1 && On(t1, Heavy(t1)).b != 0 then 1 else 0))
  {
    RebalanceRepairs(Updated(t, side, d), Former(t, side, h) + (if d == 1 then 1 else 0));
  }

  /** Every turn leaves a balanced subtree with the same nodes in order, whose height changed
      exactly when the loop goes on. */
  lemma Turn(c: Context, t: Shape, side: Side, h: int, d: int)
    requires Stale(c, t, side, h, d)
    ensures Steps(t, side, d) && InOrder(Stepped(t, side, d)) == InOrder(t)
    ensures Avl(Stepped(t, side, d), Former(t, side, h) + (if Climbs(t, side, d) then d else 0))
    ensures d == 1 && Climbs(t, side, d) ==> Stepped(t, side, d).b != 0 && Level(Updated(t, side, d))
  {
    if Level(Updated(t, side, d)) {
      UpdateStep(c, t, side, h, d);
    } else {
      RotateStep(c, t, side, h, d);
    }
  }

  /** Going up from a subtree whose height changed. */
  lemma UpStep(c: Context, t: Shape, h: int, d: int)
    requires c.Under? && h >= 0 && (d == 1 || d == -1) && Avl(t, h + d) && CtxAvl(c, h)
    requires d == 1 ==> t.Bin? && t.b != 0
    ensures Stale(c.up, Fill(c.side, c.n, c.b, c.sib, t), c.side, h, d)
  {
  }

  lemma SameOrder(c: Context, t: Shape, t': Shape)
    requires InOrder(t') == InOrder(t)
    ensures InOrder(Plug(c, t')) == InOrder(Plug(c, t))
  {
    PlugInOrder(c, t);
    PlugInOrder(c, t');
  }

  /** One turn keeps the invariant of the loop, or ends it with a balanced tree. */
  lemma TurnEnds(c: Context, t: Shape, side: Side, h: int, d: int)
    requires Stale(c, t, side, h, d)
    ensures Steps(t, side, d)
    ensures var t' := Stepped(t, side, d);
      && InOrder(Plug(c, t')) == InOrder(Plug(c, t))
      && (d == 1 && Climbs(t, side, d) ==> Level(Updated(t, side, d)))
      && if Climbs(t, side, d) && c.Under? then
           Stale(c.up, Fill(c.side, c.n, c.b, c.sib, t'), c.side, Former(t, side, h), d)
         else Balanced(Plug(c, t'))
  {
    Turn(c, t, side, h, d);
    var t' := Stepped(t, side, d);
    SameOrder(c, t, t');
    AfterTurn(c, t', Former(t, side, h), d, Climbs(t, side, d));
  }

  lemma AfterTurn(c: Context, t: Shape, former: int, d: int, climbs: bool)
    requires (d == 1 || d == -1) && former >= 0 && CtxAvl(c, former)
    requires Avl(t, former + (if climbs then d else 0)) && (d == 1 && climbs ==> t.Bin? && t.b != 0)
    ensures if climbs && c.Under? then Stale(c.up, Fill(c.side, c.n, c.b, c.sib, t), c.side, former, d)
            else Balanced(Plug(c, t))
  {
    if climbs && c.Under? {
      UpStep(c, t, former, d);
    } else {
      WholeBalanced(c, t, former + (if climbs then d else 0), former);
    }
  }

  lemma WholeBalanced(c: Context, t: Shape, h: int, former: int)
    requires Avl(t, h) && CtxAvl(c, former) && (h == former || c.Top?)
    ensures Balanced(Plug(c, t))
  {
    var whole := PlugAvl(c, t, h);
    AvlIsBalanced(Plug(c, t), whole);
  }
}
