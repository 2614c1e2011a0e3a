/** The functions of avl_tree.c on linked nodes. */
module AvlTree {
  import opened AvlShape
  import opened AvlHeap
  import opened AvlRotate

  /** The fields of a node. */
  ghost function Now(n: Node): Fields
    reads n
  {
    Fields(n.left, n.right, n.parent, n.balance)
  }

  /** The fields of a set of nodes. */
  ghost function Capture(all: set<Node>): (h: Snapshot)
    reads all
    ensures h.Keys == all
  {
    map n | n in all :: Now(n)
  }

  // ---------------------------------------------------------------- Links

  /** Makes `parent`, if any, point at `newNode` where it pointed at `oldNode`, and `newNode`, if
      any, back at `parent`. */
  method FixupLink(oldNode: Node?, newNode: Node?, parent: Node?)
    requires parent != null ==> parent.left == oldNode || parent.right == oldNode
    modifies Only(parent)`left, Only(parent)`right, Only(newNode)`parent
    ensures parent != null ==>
      if old(parent.left) == oldNode then parent.left == newNode && parent.right == old(parent.right)
      else parent.right == newNode && parent.left == old(parent.left)
    ensures newNode != null ==> newNode.parent == parent
  {
    if parent != null {
      if parent.left == oldNode {
        parent.left := newNode;
      } else {
        parent.right := newNode;
      }
    }
    if newNode != null {
      newNode.parent := parent;
    }
  }

  /** Makes `x`, which may be missing, the `side` child of `n`: the two statements that recur in
      the rotations. */
  method Adopt(n: Node, side: Side, x: Node?)
    requires x != n
    modifies n, Only(x)
    ensures Now(n) == old(Now(n)).With(side, x)
    ensures x != null ==> Now(x) == old(Now(x)).(parent := n)
  {
    if side.Left? {
      n.left := x;
    } else {
      n.right := x;
    }
    if x != null {
      x.parent := n;
    }
  }

  /** `n` hangs below its parent, if it has one. */
  ghost predicate Attached(n: Node)
    reads n, Only(n.parent)
  {
    n.parent != null ==> n.parent != n && (n.parent.left == n || n.parent.right == n)
  }

  /** `parent`, if any, points at `newNode` where it pointed at `oldNode`. */
  twostate predicate Repointed(parent: Node?, oldNode: Node, newNode: Node)
    reads Only(parent)
  {
    parent != null ==>
      Now(parent) == old(Now(parent)).With(if old(parent.left) == oldNode then Left else Right, newNode)
  }

  // ---------------------------------------------------------------- Single rotations

  /** Pointers after a single rotation, as in `Rotated1`. */
  twostate predicate Turned1(side: Side, q: Node, p: Node, pp: Node?, y: Node?, bp: int, bq: int)
    reads p, q, Only(pp), Only(y)
  {
    && Now(p) == old(Now(p)).With(side, y).(parent := q, balance := bp)
    && Now(q) == old(Now(q)).With(Opposite(side), p).(parent := pp, balance := bq)
    && Repointed(pp, p, q)
    && (y != null ==> Now(y) == old(Now(y)).(parent := p))
  }

  method Rot1L(q: Node, p: Node)
    requires q.parent == p && p.right == q && p != q && Attached(p) && p.parent != q
    requires q.left != p && q.left != q && (q.left != null ==> q.left != p.parent)
    requires q.balance == 1 || q.balance == 0
    requires p.balance == 2
    modifies p, q, Only(p.parent), Only(q.left)
    ensures Turned1(Right, q, p, old(p.parent), old(q.left), 1 - old(q.balance), old(q.balance) - 1)
  {
    FixupLink(p, q, p.parent);
    Adopt(p, Right, q.left);
    Adopt(q, Left, p);
    if q.balance == 1 {
      p.balance := 0;
      q.balance := 0;
    } else {
      p.balance := 1;
      q.balance := -1;
    }
  }

  method Rot1R(q: Node, p: Node)
    requires q.parent == p && p.left == q && p != q && Attached(p) && p.parent != q
    requires q.right != p && q.right != q && (q.right != null ==> q.right != p.parent)
    requires q.balance == -1 || q.balance == 0
    requires p.balance == -2
    modifies p, q, Only(p.parent), Only(q.right)
    ensures Turned1(Left, q, p, old(p.parent), old(q.right), -1 - old(q.balance), old(q.balance) + 1)
  {
    FixupLink(p, q, p.parent);
    Adopt(p, Left, q.right);
    Adopt(q, Right, p);
    if q.balance == -1 {
      p.balance := 0;
      q.balance := 0;
    } else {
      p.balance := -1;
      q.balance := 1;
    }
  }

  // ---------------------------------------------------------------- Double rotations

  /** Pointers after a double rotation, as in `Rotated2`. */
  twostate predicate Turned2(side: Side, r: Node, q: Node, p: Node, pp: Node?, y: Node?, w: Node?, bp: int, bq: int)
    reads p, q, r, Only(pp), Only(y), Only(w)
  {
    && Now(p) == old(Now(p)).With(side, y).(parent := r, balance := bp)
    && Now(q) == old(Now(q)).With(Opposite(side), w).(parent := r, balance := bq)
    && Now(r) == old(Now(r)).With(side, q).With(Opposite(side), p).(parent := pp, balance := 0)
    && Repointed(pp, p, r)
    && (y != null ==> Now(y) == old(Now(y)).(parent := p))
    && (w != null ==> Now(w) == old(Now(w)).(parent := q))
  }

  /** The end of both double rotations: `r` gets `lo` and `hi` as its children, and the balances
      follow from that of `r`. */
  method Crown(r: Node, lo: Node, hi: Node)
    requires lo != hi && lo != r && hi != r && -1 <= r.balance <= 1
    modifies r, lo, hi
    ensures Now(lo) == old(Now(lo)).(parent := r, balance := if old(r.balance) == 1 then -1 else 0)
    ensures Now(hi) == old(Now(hi)).(parent := r, balance := if old(r.balance) == -1 then 1 else 0)
    ensures Now(r) == old(Now(r)).(left := lo, right := hi, balance := 0)
  {
    r.left := lo;
    lo.parent := r;

    r.right := hi;
    hi.parent := r;

    if r.balance == -1 {
      lo.balance := 0;
      hi.balance := 1;
    } else if r.balance == 0 {
      lo.balance := 0;
      hi.balance := 0;
    } else {
      lo.balance := -1;
      hi.balance := 0;
    }
    r.balance := 0;
  }

  method Rot2RL(r: Node, q: Node, p: Node)
    requires q.parent == p && p.right == q && r.parent == q && q.left == r && Attached(p)
    requires AllDifferent(p, q, r, p.parent, r.left, r.right)
    requires q.balance == -1 && p.balance == 2 && -1 <= r.balance <= 1
    modifies p, q, r, Only(p.parent), Only(r.left), Only(r.right)
    ensures Turned2(Right, r, q, p, old(p.parent), old(r.left), old(r.right),
                    if old(r.balance) == 1 then -1 else 0, if old(r.balance) == -1 then 1 else 0)
  {
    FixupLink(p, r, p.parent);
    Adopt(p, Right, r.left);
    Adopt(q, Left, r.right);
    Crown(r, p, q);
  }

  method Rot2LR(r: Node, q: Node, p: Node)
    requires q.parent == p && p.left == q && r.parent == q && q.right == r && Attached(p)
    requires AllDifferent(p, q, r, p.parent, r.right, r.left)
    requires q.balance == 1 && p.balance == -2 && -1 <= r.balance <= 1
    modifies p, q, r, Only(p.parent), Only(r.left), Only(r.right)
    ensures Turned2(Left, r, q, p, old(p.parent), old(r.right), old(r.left),
                    if old(r.balance) == -1 then 1 else 0, if old(r.balance) == 1 then -1 else 0)
  {
    FixupLink(p, r, p.parent);
    Adopt(q, Right, r.left);
    Adopt(p, Left, r.right);
    Crown(r, q, p);
  }

  // ---------------------------------------------------------------- Rotating within a tree

  function Sign(side: Side): int { if side.Right? then 1 else -1 }

  /** A single rotation, told as the change of a snapshot. */
  method Turn1(side: Side, q: Node, p: Node, ghost pp: Node?, ghost y: Node?, ghost all: set<Node>)
    requires p in all && q in all && Only(pp) <= all && Only(y) <= all
    requires p != q && pp != p && pp != q && y != p && y != q && (y != null ==> y != pp)
    requires p.parent == pp && Now(p).Child(side) == q && q.parent == p && Now(q).Child(Opposite(side)) == y
    requires pp != null ==> pp.left == p || pp.right == p
    requires p.balance == 2 * Sign(side) && (q.balance == 0 || q.balance == Sign(side))
    modifies all
    ensures Rotated1(side, q, p, pp, y, Sign(side) - old(q.balance), old(q.balance) - Sign(side),
                     old(Capture(all)), Capture(all))
  {
    if side.Right? {
      Rot1L(q, p);
    } else {
      Rot1R(q, p);
    }
  }

  method TurnChain(side: Side, q: Node, p: Node, ghost c: Context, ghost x: Shape, ghost y: Shape, ghost z: Shape,
                   ghost bq: int, ghost all: set<Node>)
    requires Zipped(c, Chain(side, p, 2 * Sign(side), x, q, bq, y, z), Capture(all))
    requires bq == 0 || bq == Sign(side)
    modifies all
    ensures Rotated1(side, q, p, ParentIn(c), RootOf(y), Sign(side) - bq, bq - Sign(side),
                     old(Capture(all)), Capture(all))
  {
    ChainNodes(c, side, p, 2 * Sign(side), x, q, bq, y, z, Capture(all));
    Turn1(side, q, p, ParentIn(c), RootOf(y), all);
  }

  method RotateSingle(side: Side, q: Node, p: Node, ghost c: Context, ghost x: Shape, ghost y: Shape, ghost z: Shape,
                      ghost bq: int, ghost all: set<Node>)
    requires Zipped(c, Chain(side, p, 2 * Sign(side), x, q, bq, y, z), Capture(all))
    requires bq == 0 || bq == Sign(side)
    modifies all
    ensures Zipped(c, Chain(Opposite(side), q, bq - Sign(side), z, p, Sign(side) - bq, y, x), Capture(all))
  {
    ghost var h, s := Capture(all), Sign(side);
    TurnChain(side, q, p, c, x, y, z, bq, all);
    RotateChain(c, side, p, 2 * s, x, q, bq, y, z, s - bq, bq - s, h, Capture(all));
  }

  /** A double rotation, told as the change of a snapshot. */
  method Turn2(side: Side, r: Node, q: Node, p: Node, ghost pp: Node?, ghost y: Node?, ghost w: Node?,
               ghost all: set<Node>)
    requires p in all && q in all && r in all && Only(pp) <= all && Only(y) <= all && Only(w) <= all
    requires AllDifferent(p, q, r, pp, y, w)
    requires p.parent == pp && Now(p).Child(side) == q && q.parent == p && Now(q).Child(Opposite(side)) == r
    requires r.parent == q && Now(r).Child(side) == w && Now(r).Child(Opposite(side)) == y
    requires pp != null ==> pp.left == p || pp.right == p
    requires p.balance == 2 * Sign(side) && q.balance == -Sign(side) && -1 <= r.balance <= 1
    modifies all
    ensures Rotated2(side, r, q, p, pp, y, w, if old(r.balance) == Sign(side) then -Sign(side) else 0,
                     if old(r.balance) == -Sign(side) then Sign(side) else 0, old(Capture(all)), Capture(all))
  {
    if side.Right? {
      Rot2RL(r, q, p);
    } else {
      Rot2LR(r, q, p);
    }
  }

  method TurnZigzag(side: Side, r: Node, q: Node, p: Node, ghost c: Context, ghost x: Shape, ghost z: Shape,
                    ghost br: int, ghost y: Shape, ghost w: Shape, ghost all: set<Node>)
    requires Zipped(c, Zigzag(side, p, 2 * Sign(side), x, q, -Sign(side), z, r, br, y, w), Capture(all))
    requires -1 <= br <= 1
    modifies all
    ensures Rotated2(side, r, q, p, ParentIn(c), RootOf(y), RootOf(w), if br == Sign(side) then -Sign(side) else 0,
                     if br == -Sign(side) then Sign(side) else 0, old(Capture(all)), Capture(all))
  {
    ZigzagNodes(c, side, p, 2 * Sign(side), x, q, -Sign(side), z, r, br, y, w, Capture(all));
    Turn2(side, r, q, p, ParentIn(c), RootOf(y), RootOf(w), all);
  }

  method RotateDouble(side: Side, r: Node, q: Node, p: Node, ghost c: Context, ghost x: Shape, ghost z: Shape,
                      ghost br: int, ghost y: Shape, ghost w: Shape, ghost all: set<Node>)
    requires Zipped(c, Zigzag(side, p, 2 * Sign(side), x, q, -Sign(side), z, r, br, y, w), Capture(all))
    requires -1 <= br <= 1
    modifies all
    ensures var bp, bq := if br == Sign(side) then -Sign(side) else 0, if br == -Sign(side) then Sign(side) else 0;
            Zipped(c, Fill(Opposite(side), r, 0, Fill(side, q, bq, w, z), Fill(Opposite(side), p, bp, y, x)),
              Capture(all))
  {
    ghost var h, s := Capture(all), Sign(side);
    ghost var bp, bq := if br == s then -s else 0, if br == -s then s else 0;
    TurnZigzag(side, r, q, p, c, x, z, br, y, w, all);
    RotateZigzag(c, side, p, 2 * s, x, q, -s, z, r, br, y, w, bp, bq, h, Capture(all));
  }
}
