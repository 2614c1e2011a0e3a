/** Circular doubly linked lists with a head pointer, as sequences of their entries. */
module CircularList {
  import opened Basics

  class Entry {
    var next: Entry?
    var prev: Entry?

    constructor ()
      ensures next == null && prev == null
    {
      next, prev := null, null;
    }
  }

  /** Position after `i` on a ring of `n`. */
  function Succ(n: nat, i: nat): nat
    requires i < n
  {
    if i + 1 < n then i + 1 else 0
  }

  ghost predicate Linked(a: Entry, b: Entry)
    reads a, b
  {
    a.next == b && b.prev == a
  }

  /** `next` and `prev` follow `s` around. */
  ghost predicate Ring(s: seq<Entry>)
    reads s
  {
    forall i :: 0 <= i < |s| ==> Linked(s[i], s[Succ(|s|, i)])
  }

  function FirstOf(s: seq<Entry>): Entry? {
    if s == [] then null else s[0]
  }

  /** Puts `x` between `prev` and `next`. */
  method ListAdd(x: Entry, next: Entry, prev: Entry)
    requires x != next && x != prev
    modifies x, next`prev, prev`next
    ensures prev.next == x && next.prev == x && x.next == next && x.prev == prev
  {
    prev.next := x;
    next.prev := x;
    x.next := next;
    x.prev := prev;
  }

  class Head {
    var first: Entry?
    ghost var items: seq<Entry>

    constructor ()
      ensures Valid() && items == []
    {
      first, items := null, [];
    }

    ghost predicate Valid()
      reads this, items
    {
      first == FirstOf(items) && Distinct(items) && Ring(items)
    }

    /** `LISTP_ADD`. */
    method Add(x: Entry)
      requires Valid() && x !in items
      modifies this, x, items
      ensures Valid() && items == [x] + old(items)
    {
      ghost var s := items;
      items := [x] + s;
      if first == null {
        first := x;
        x.next := x;
        x.prev := x;
      } else {
        assert Linked(s[|s| - 1], s[Succ(|s|, |s| - 1)]);
        assert s[0] in s && s[|s| - 1] in s;
        ListAdd(x, first, first.prev);
        first := x;
        forall i | 0 <= i < |items|
          ensures Linked(items[i], items[Succ(|items|, i)])
        {
          if 0 < i < |s| {
            assert old(Linked(s[i - 1], s[Succ(|s|, i - 1)]));
          }
        }
      }
    }

    /** `LISTP_ADD_TAIL`. */
    method AddTail(x: Entry)
      requires Valid() && x !in items
      modifies this, x, items
      ensures Valid() && items == old(items) + [x]
    {
      ghost var s := items;
      items := s + [x];
      if first == null {
        first := x;
        x.next := x;
        x.prev := x;
      } else {
        assert Linked(s[|s| - 1], s[Succ(|s|, |s| - 1)]);
        assert s[0] in s && s[|s| - 1] in s;
        ListAdd(x, first, first.prev);
        forall i | 0 <= i < |items|
          ensures Linked(items[i], items[Succ(|items|, i)])
        {
          if i < |s| - 1 {
            assert old(Linked(s[i], s[Succ(|s|, i)]));
          }
        }
      }
    }

    /** `LISTP_DEL`, of the entry at position `k`. */
    method Delete(x: Entry, ghost k: nat)
      requires Valid() && k < |items| && items[k] == x
      modifies this, items
      ensures Valid() && items == old(items[..k] + items[k + 1..])
    {
      ghost var s := items;
      ghost var n := |s|;
      assert Linked(s[k], s[Succ(n, k)]);
      assert Linked(s[if k == 0 then n - 1 else k - 1], s[Succ(n, if k == 0 then n - 1 else k - 1)]);
      if first == x {
        if x.next == x {
          first := null;
        } else {
          first := x.next;
        }
      }
      x.prev.next := x.next;
      x.next.prev := x.prev;
      items := s[..k] + s[k + 1..];
      forall i | 0 <= i < |items|
        ensures Linked(items[i], items[Succ(|items|, i)])
      {
        ghost var j := if i < k then i else i + 1;
        assert items[i] == s[j];
        assert old(Linked(s[j], s[Succ(n, j)]));
      }
    }

    /** `LISTP_NEXT_ENTRY`, of the entry at position `k`. */
    method NextEntry(x: Entry, ghost k: nat) returns (next: Entry?)
      requires Valid() && k < |items| && items[k] == x
      ensures next == if k + 1 < |items| then items[k + 1] else null
    {
      ghost var n := |items|;
      assert Linked(items[k], items[Succ(n, k)]);
      assert Linked(items[n - 1], items[Succ(n, n - 1)]);
      next := if x == first.prev then null else x.next;
    }

    /** `LISTP_PREV_ENTRY`, of the entry at position `k`. */
    method PrevEntry(x: Entry, ghost k: nat) returns (prev: Entry?)
      requires Valid() && k < |items| && items[k] == x
      ensures prev == if k > 0 then items[k - 1] else null
    {
      if k > 0 {
        assert Linked(items[k - 1], items[Succ(|items|, k - 1)]);
      }
      prev := if x == first then null else x.prev;
    }

    /** `LISTP_SPLICE`: the entries of `more` go in front. */
    method Splice(more: Head)
      requires Valid() && more.Valid() && more != this && forall x :: x in items ==> x !in more.items
      modifies this, items, more.items
      ensures Valid() && items == more.items + old(items)
    {
      DistinctCat(more.items, items);
      if more.first != null {
        if first == null {
          first := more.first;
        } else {
          Join(first, more.first, items, more.items);
          first := more.first;
          Rotate(more.items, items);
        }
      }
      items := more.items + items;
    }

    /** `LISTP_SPLICE_TAIL`: the entries of `more` go to the end. */
    method SpliceTail(more: Head)
      requires Valid() && more.Valid() && more != this && forall x :: x in items ==> x !in more.items
      modifies this, items, more.items
      ensures Valid() && items == old(items) + more.items
    {
      DistinctCat(items, more.items);
      if more.first != null {
        if first == null {
          first := more.first;
        } else {
          Join(first, more.first, items, more.items);
        }
      }
      items := items + more.items;
    }
  }

  lemma DistinctCat(a: seq<Entry>, b: seq<Entry>)
    requires Distinct(a) && Distinct(b) && forall x :: x in a ==> x !in b
    ensures Distinct(a + b)
  {
    forall i, j | 0 <= i < j < |a + b|
      ensures (a + b)[i] != (a + b)[j]
    {
      if i < |a| <= j {
        assert a[i] in a && b[j - |a|] in b;
      }
    }
  }

  /** Opens two rings and closes them into one: `a` and then `b`. */
  method Join(firstA: Entry, firstB: Entry, ghost a: seq<Entry>, ghost b: seq<Entry>)
    requires a != [] && b != [] && a[0] == firstA && b[0] == firstB && Ring(a) && Ring(b)
    requires Distinct(a) && Distinct(b) && forall x :: x in a ==> x !in b
    modifies a, b
    ensures Ring(a + b)
  {
    ghost var m, n := |a|, |b|;
    assert Linked(a[m - 1], a[Succ(m, m - 1)]) && Linked(b[n - 1], b[Succ(n, n - 1)]);
    assert a[0] in a && a[m - 1] in a && b[0] in b && b[n - 1] in b;
    var lastA := firstA.prev;
    lastA.next := firstB;
    firstA.prev := firstB.prev;
    firstB.prev.next := firstA;
    firstB.prev := lastA;
    forall i | 0 <= i < m + n
      ensures Linked((a + b)[i], (a + b)[Succ(m + n, i)])
    {
      if i < m - 1 {
        assert old(Linked(a[i], a[Succ(m, i)]));
        assert a[i] in a && a[i + 1] in a;
      } else if m <= i < m + n - 1 {
        assert old(Linked(b[i - m], b[Succ(n, i - m)]));
        assert b[i - m] in b && b[i - m + 1] in b;
      }
    }
  }

  /** A ring may be read from anywhere. */
  lemma Rotate(a: seq<Entry>, b: seq<Entry>)
    requires Ring(b + a)
    ensures Ring(a + b)
  {
    var s, t := a + b, b + a;
    forall i | 0 <= i < |s|
      ensures Linked(s[i], s[Succ(|s|, i)])
    {
      var j := if i < |a| then |b| + i else i - |a|;
      assert Linked(t[j], t[Succ(|t|, j)]);
    }
  }

  // ---------------------------------------------------------------- Iteration

  /** The entry after position `i` on the ring of what was kept and what is to come. */
  function Following(s: seq<Entry>, i: nat, stay: seq<Entry>): Entry
    requires i < |s|
  {
    if i + 1 < |s| then s[i + 1] else if stay != [] then stay[0] else s[i]
  }

  ghost predicate Within(a: seq<Entry>, s: seq<Entry>) {
    forall k :: 0 <= k < |a| ==> a[k] in s
  }

  /** The list holds the entries kept, `stay`, and those of `s` from `i` on. */
  ghost predicate Left(head: Head, s: seq<Entry>, i: nat, stay: seq<Entry>)
    reads head, head.items
  {
    head.Valid() && i <= |s| && head.items == stay + s[i..] && Distinct(s) && Within(head.items, s)
  }

  /** The state of the loop before a turn, and after the last one. */
  ghost predicate Iterating(head: Head, s: seq<Entry>, i: nat, stay: seq<Entry>, cursor: Entry?, tmp: Entry?,
                            firstIter: bool)
    reads head, head.items
  {
    && Left(head, s, i, stay)
    && if i < |s| then cursor == s[i] && tmp == Following(s, i, stay) && (firstIter <==> stay == [])
       else !firstIter && (head.first == null || cursor == head.first)
  }

  /** The body of the loop: deletes the entry at the cursor, or not. */
  method Visit(head: Head, cursor: Entry, drop: bool, ghost s: seq<Entry>, ghost i: nat, ghost stay: seq<Entry>)
    requires Left(head, s, i, stay) && i < |s| && cursor == s[i]
    modifies head, s
    ensures Left(head, s, i + 1, if drop then stay else stay + [cursor])
  {
    assert head.items[|stay|] == cursor;
    if drop {
      head.Delete(cursor, |stay|);
      assert head.items == stay + s[i + 1..];
    } else {
      assert s[i..] == [cursor] + s[i + 1..];
      assert head.items == (stay + [cursor]) + s[i + 1..];
    }
  }

  /** The end of a turn: moves the cursor on. */
  method MoveOn(head: Head, cursor0: Entry, tmp0: Entry, firstIter0: bool, ghost s: seq<Entry>, ghost i: nat,
                ghost stay0: seq<Entry>, ghost stay: seq<Entry>)
      returns (cursor: Entry, tmp: Entry?, firstIter: bool)
    requires Left(head, s, i + 1, stay) && cursor0 == s[i] && (stay == stay0 || stay == stay0 + [cursor0])
    requires tmp0 == Following(s, i, stay0) && (firstIter0 <==> stay0 == []) && forall x :: x in stay0 ==> x in s[..i]
    ensures Iterating(head, s, i + 1, stay, cursor, tmp, firstIter)
  {
    cursor, tmp := cursor0, tmp0;
    assert stay0 != [] ==> stay0[0] in s[..i];
    firstIter := firstIter0 && tmp != cursor && head.first == tmp;
    if tmp != cursor {
      cursor := tmp;
      if i + 1 < |s| {
        assert head.items[|stay|] == cursor;
        assert Linked(head.items[|stay|], head.items[Succ(|head.items|, |stay|)]);
      } else {
        assert stay[0] == stay0[0];
        assert Linked(head.items[0], head.items[Succ(|head.items|, 0)]);
      }
      tmp := tmp.next;
    }
  }

  /** What was kept of the first `i` entries. */
  function Kept(s: seq<Entry>, i: nat, drop: Entry -> bool): seq<Entry>
    requires i <= |s|
  {
    if i == 0 then [] else Kept(s, i - 1, drop) + if drop(s[i - 1]) then [] else [s[i - 1]]
  }

  lemma {:induction false} KeptMembers(s: seq<Entry>, i: nat, drop: Entry -> bool)
    requires i <= |s|
    ensures forall x :: x in Kept(s, i, drop) ==> x in s[..i]
  {
    if i > 0 {
      KeptMembers(s, i - 1, drop);
      assert s[..i] == s[..i - 1] + [s[i - 1]];
    }
  }

  /** Exactly the entries that are not dropped are kept. */
  lemma {:induction false} KeptExactly(s: seq<Entry>, i: nat, drop: Entry -> bool, x: Entry)
    requires i <= |s|
    ensures x in Kept(s, i, drop) <==> x in s[..i] && !drop(x)
  {
    if i > 0 {
      KeptExactly(s, i - 1, drop, x);
      assert s[..i] == s[..i - 1] + [s[i - 1]];
    }
  }

  /** `x` comes before `y`. */
  ghost predicate Before(s: seq<Entry>, x: Entry, y: Entry) {
    exists a, b :: 0 <= a < b < |s| && s[a] == x && s[b] == y
  }

  lemma BeforeGrows(s: seq<Entry>, z: Entry, x: Entry, y: Entry)
    requires Before(s, x, y) || (x in s && y == z)
    ensures Before(s + [z], x, y)
  {
    var s' := s + [z];
    if Before(s, x, y) {
      var a, b :| 0 <= a < b < |s| && s[a] == x && s[b] == y;
      assert s'[a] == x && s'[b] == y;
    } else {
      var a :| 0 <= a < |s| && s[a] == x;
      assert s'[a] == x && s'[|s|] == y;
    }
  }

  /** What is kept stays in its order. */
  lemma {:induction false} KeptInOrder(s: seq<Entry>, i: nat, drop: Entry -> bool, x: Entry, y: Entry)
    requires i <= |s| && Before(Kept(s, i, drop), x, y)
    ensures Before(s[..i], x, y)
  {
    if i > 0 {
      var k, z := Kept(s, i - 1, drop), s[i - 1];
      assert s[..i] == s[..i - 1] + [z];
      if Before(k, x, y) {
        KeptInOrder(s, i - 1, drop, x, y);
      } else {
        var kept := Kept(s, i, drop);
        var a, b :| 0 <= a < b < |kept| && kept[a] == x && kept[b] == y;
        assert b == |k| && x == k[a];
        KeptExactly(s, i - 1, drop, x);
      }
      BeforeGrows(s[..i - 1], z, x, y);
    }
  }

  /** The condition of the loop holds exactly while entries are left. */
  lemma GoesOn(head: Head, s: seq<Entry>, i: nat, stay: seq<Entry>, cursor: Entry?, tmp: Entry?, firstIter: bool)
    requires Iterating(head, s, i, stay, cursor, tmp, firstIter)
    ensures head.first != null && (firstIter || cursor != head.first) <==> i < |s|
  {
    if i < |s| {
      assert head.items[|stay|] == cursor;
    }
  }

  lemma TakeOneMore(s: seq<Entry>, i: nat)
    requires i < |s|
    ensures s[..i] + [s[i]] == s[..i + 1]
  {
  }

  /** The loop before turn `i`: its condition holds exactly while entries are left. */
  ghost predicate Looping(head: Head, s: seq<Entry>, i: nat,
                          drop: Entry -> bool, cursor: Entry?, tmp: Entry?, firstIter: bool)
    reads head, head.items
  {
    && i <= |s| && Iterating(head, s, i, Kept(s, i, drop), cursor, tmp, firstIter)
    && (head.first != null && (firstIter || cursor != head.first) <==> i < |s|)
  }

  /** One turn of the loop. */
  method Turn(head: Head,
              drop: Entry -> bool, cursor0: Entry?, tmp0: Entry?, firstIter0: bool, ghost s: seq<Entry>, ghost i: nat)
      returns (visited: Entry, cursor: Entry?, tmp: Entry?, firstIter: bool)
    requires i < |s| && Looping(head, s, i, drop, cursor0, tmp0, firstIter0)
    modifies head, s
    ensures visited == s[i] && Looping(head, s, i + 1, drop, cursor, tmp, firstIter)
  {
    KeptMembers(s, i, drop);
    visited := cursor0;
    var dropped := drop(visited);
    Visit(head, visited, dropped, s, i, Kept(s, i, drop));
    cursor, tmp, firstIter := MoveOn(head, visited, tmp0, firstIter0, s, i, Kept(s, i, drop), Kept(s, i + 1, drop));
    GoesOn(head, s, i + 1, Kept(s, i + 1, drop), cursor, tmp, firstIter);
  }

  method Start(head: Head, ghost drop: Entry -> bool) returns (cursor: Entry?, tmp: Entry?, firstIter: bool)
    requires head.Valid()
    ensures Looping(head, head.items, 0, drop, cursor, tmp, firstIter)
  {
    ghost var s := head.items;
    cursor := head.first;
    tmp := if cursor != null then cursor.next else cursor;
    firstIter := head.first != null;
    assert s != [] ==> Linked(s[0], s[Succ(|s|, 0)]);
    GoesOn(head, s, 0, [], cursor, tmp, firstIter);
  }

  /** `LISTP_FOR_EACH_ENTRY_SAFE` with a body that deletes the entries for which `drop` holds: every
      entry is visited once and in order, whatever is deleted. */
  method ForEachSafe(head: Head, drop: Entry -> bool) returns (visited: seq<Entry>)
    requires head.Valid()
    modifies head, head.items
    ensures visited == old(head.items)
    ensures head.Valid() && head.items == Kept(visited, |visited|, drop)
  {
    ghost var s, i := head.items, 0;
    visited := [];
    var cursor, tmp, firstIter := Start(head, drop);
    while head.first != null && (firstIter || cursor != head.first)
      invariant i <= |s| && visited == s[..i]
      invariant Looping(head, s, i, drop, cursor, tmp, firstIter)
      decreases |s| - i
    {
      var x;
      x, cursor, tmp, firstIter := Turn(head, drop, cursor, tmp, firstIter, s, i);
      TakeOneMore(s, i);
      visited := visited + [x];
      i := i + 1;
    }
    LoopEnds(head, s, i, drop, cursor, tmp, firstIter);
  }

  lemma LoopEnds(head: Head, s: seq<Entry>, i: nat, drop: Entry -> bool, cursor: Entry?, tmp: Entry?, firstIter: bool)
    requires Looping(head, s, i, drop, cursor, tmp, firstIter)
    requires !(head.first != null && (firstIter || cursor != head.first))
    ensures head.Valid() && i == |s| && s[..i] == s && head.items == Kept(s, i, drop)
  {
  }
}
