/** `avl_tree_do_balance` and `avl_tree_balance`: rebalancing from a changed subtree upwards. */
module AvlBalance {
  import opened AvlShape
  import opened AvlHeap
  import opened AvlRotate
  import opened AvlTree

  ghost function On(t: Shape, side: Side): Shape
    requires t.Bin?
  {
    if side.Left? then t.l else t.r
  }

  // ---------------------------------------------------------------- One rotation

  ghost function Heavy(t: Shape): Side
    requires t.Bin?
  {
    if t.b < 0 then Left else Right
  }

  ghost predicate Level(t: Shape) {
    t.Bin? && -1 <= t.b <= 1
  }

  /** The root balance is off, and the nodes a rotation needs are there. */
  ghost predicate Rotatable(t: Shape) {
    && t.Bin? && (t.b == 2 || t.b == -2)
    && var s := Heavy(t);
       var q := On(t, s);
       Level(q) && (q.b == -Sign(s) ==> Level(On(q, Opposite(s))))
  }

  ghost function Rebalance(t: Shape): Shape
    requires Rotatable(t)
  {
    var s := Heavy(t);
    var q := On(t, s);
    if q.b == -Sign(s) then
      var r := On(q, Opposite(s));
      Fill(Opposite(s), r.n, 0,
           Fill(s, q.n, if r.b == -Sign(s) then Sign(s) else 0, On(r, s), On(q, s)),
           Fill(Opposite(s), t.n, if r.b == Sign(s) then -Sign(s) else 0, On(r, Opposite(s)), On(t, Opposite(s))))
    else
      Chain(Opposite(s), q.n, q.b - Sign(s), On(q, s), t.n, Sign(s) - q.b, On(q, Opposite(s)), On(t, Opposite(s)))
  }

  lemma HeavyChild(c: Context, t: Shape, h: Snapshot)
    requires Rotatable(t) && Zipped(c, t, h)
    ensures var s := Heavy(t);
      var q := On(t, s);
      && t.n in h && q.n in h
      && h[t.n].balance == t.b && h[t.n].Child(s) == q.n && h[q.n].balance == q.b
      && (q.b == -Sign(s) ==> h[q.n].Child(Opposite(s)) == On(q, Opposite(s)).n)
  {
    var s := Heavy(t);
    var q := On(t, s);
    UnFill(s, t.n, t.b, On(t, Opposite(s)), q, h);
    UnFill(Opposite(s), q.n, q.b, On(q, s), On(q, Opposite(s)), h);
  }

  method RotateHeavyLeft(node: Node, ghost c: Context, ghost t: Shape, ghost all: set<Node>)
      returns (changed: bool, newRoot: Node)
    requires Rotatable(t) && t.n == node && t.b == -2 && Zipped(c, t, Capture(all))
    modifies all
    ensures Zipped(c, Rebalance(t), Capture(all)) && newRoot == Rebalance(t).n
    ensures changed <==> t.l.b != 0
  {
    HeavyChild(c, t, Capture(all));
    ghost var q := t.l;
    var child := node.left;
    if child.balance == 1 {
      newRoot := child.right;
      RotateDouble(Left, child.right, child, node, c, t.r, q.l, q.r.b, q.r.r, q.r.l, all);
      changed := true;
    } else {
      newRoot := child;
      changed := child.balance != 0;
      RotateSingle(Left, child, node, c, t.r, q.r, q.l, q.b, all);
    }
  }

  method RotateHeavyRight(node: Node, ghost c: Context, ghost t: Shape, ghost all: set<Node>)
      returns (changed: bool, newRoot: Node)
    requires Rotatable(t) && t.n == node && t.b == 2 && Zipped(c, t, Capture(all))
    modifies all
    ensures Zipped(c, Rebalance(t), Capture(all)) && newRoot == Rebalance(t).n
    ensures changed <==> t.r.b != 0
  {
    HeavyChild(c, t, Capture(all));
    ghost var q := t.r;
    var child := node.right;
    if child.balance >= 0 {
      newRoot := child;
      changed := child.balance != 0;
      RotateSingle(Right, child, node, c, t.l, q.l, q.r, q.b, all);
    } else {
      newRoot := child.left;
      RotateDouble(Right, child.left, child, node, c, t.l, q.r, q.l.b, q.l.l, q.l.r, all);
      changed := true;
    }
  }

  /** Rotates at `node`, whose balance is off, and says whether the subtree might get lower. */
  method DoBalance(node: Node, ghost c: Context, ghost t: Shape, ghost all: set<Node>)
      returns (changed: bool, newRoot: Node)
    requires Rotatable(t) && t.n == node && Zipped(c, t, Capture(all))
    modifies all
    ensures Zipped(c, Rebalance(t), Capture(all)) && newRoot == Rebalance(t).n
    ensures changed <==> On(t, Heavy(t)).b != 0
  {
    HeavyChild(c, t, Capture(all));
    if node.balance < 0 {
      changed, newRoot := RotateHeavyLeft(node, c, t, all);
    } else {
      changed, newRoot := RotateHeavyRight(node, c, t, all);
    }
  }

  // ---------------------------------------------------------------- One turn of the loop

  lemma Reweigh(c: Context, t: Shape, b: int, h: Snapshot, h': Snapshot)
    requires Zipped(c, t, h) && t.Bin?
    requires OnlyTouched(t.n, null, null, null, h, h') && h'[t.n] == h[t.n].(balance := b)
    ensures Zipped(c, t.(b := b), h')
  {
    RepAway(t.l, t.n, t.n, null, null, null, h, h');
    RepAway(t.r, t.n, t.n, null, null, null, h, h');
    CtxFrame(c, h, h');
    assert c.Under? ==> c.n in CtxNodes(c);
  }

  method SetBalance(node: Node, b: int, ghost c: Context, ghost t: Shape, ghost all: set<Node>)
    requires Zipped(c, t, Capture(all)) && t.Bin? && t.n == node
    modifies all
    ensures Zipped(c, t.(b := b), Capture(all)) && node in all && node.balance == b
  {
    ghost var h := Capture(all);
    node.balance := b;
    Reweigh(c, t, b, h, Capture(all));
  }

  /** The root balance of `t` after its `side` child got `d` higher. */
  ghost function Updated(t: Shape, side: Side, d: int): Shape
    requires t.Bin?
  {
    t.(b := if side.Left? then t.b - d else t.b + d)
  }

  /** Did the height of the subtree change, if no rotation is needed? */
  predicate HeightMoves(b: int, side: Side, d: int) {
    if side.Left? then (if d == 1 then b <= 0 else b < 0) else (if d == 1 then b >= 0 else b > 0)
  }

  /** The balance update at the top of the loop of `Balance`. */
  method UpdateBalance(node: Node, side: Side, heightIncreased: bool, ghost d: int, ghost c: Context, ghost t: Shape,
                       ghost all: set<Node>)
      returns (heightChanged: bool)
    requires Zipped(c, t, Capture(all)) && t.Bin? && t.n == node && d == (if heightIncreased then 1 else -1)
    modifies all
    ensures Zipped(c, Updated(t, side, d), Capture(all))
    ensures heightChanged == HeightMoves(t.b, side, d)
    ensures node in all && node.balance == Updated(t, side, d).b
  {
    heightChanged := true;
    assert node in Capture(all) && Now(node) == Capture(all)[node] && node.balance == t.b;
    if side == Left {
      if heightIncreased {
        heightChanged := node.balance <= 0;
        SetBalance(node, node.balance - 1, c, t, all);
      } else {
        heightChanged := node.balance < 0;
        SetBalance(node, node.balance + 1, c, t, all);
      }
    } else {
      if heightIncreased {
        heightChanged := node.balance >= 0;
        SetBalance(node, node.balance + 1, c, t, all);
      } else {
        heightChanged := node.balance > 0;
        SetBalance(node, node.balance - 1, c, t, all);
      }
    }
  }

  ghost predicate Steps(t: Shape, side: Side, d: int) {
    Level(t) && (d == 1 || d == -1) && (Level(Updated(t, side, d)) || Rotatable(Updated(t, side, d)))
  }

  /** The subtree after one turn of the loop. */
  ghost function Stepped(t: Shape, side: Side, d: int): Shape
    requires Steps(t, side, d)
  {
    var t1 := Updated(t, side, d);
    if Level(t1) then t1 else Rebalance(t1)
  }

  /** Whether the loop goes on above this subtree. */
  ghost function Climbs(t: Shape, side: Side, d: int): bool
    requires Steps(t, side, d)
  {
    var t1 := Updated(t, side, d);
    if Level(t1) then HeightMoves(t.b, side, d) else d == -1 && On(t1, Heavy(t1)).b != 0
  }

  /** One turn of the loop of `Balance`. */
  method BalanceStep(node: Node, side: Side, heightIncreased: bool, ghost d: int, ghost c: Context, ghost t: Shape,
                     ghost all: set<Node>)
      returns (heightChanged: bool, top: Node)
    requires Zipped(c, t, Capture(all)) && Steps(t, side, d) && t.n == node
    requires d == (if heightIncreased then 1 else -1)
    modifies all
    ensures Zipped(c, Stepped(t, side, d), Capture(all)) && Stepped(t, side, d).Bin? && top == Stepped(t, side, d).n
    ensures top in all && top.parent == ParentIn(c)
    ensures heightChanged == Climbs(t, side, d)
  {
    top := node;
    heightChanged := UpdateBalance(node, side, heightIncreased, d, c, t, all);
    if node.balance == -2 || node.balance == 2 {
      heightChanged, top := DoBalance(node, c, Updated(t, side, d), all);
      heightChanged := if heightIncreased then false else heightChanged;
    }
    assert Now(top) == Capture(all)[top];
  }
}
