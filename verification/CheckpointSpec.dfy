/** The layout of a checkpoint: entries and out-of-band data, one after the other.

Memory is a sequence of 8-byte words and positions count words, since entries are two words long and
data is padded to whole words. */
module CheckpointSpec {

  /** Kinds of entries. */
  const CP_NULL: nat := 0
  const CP_OOB: nat := 1
  const CP_FUNC_BASE: nat := 4

  /** An entry for the reader, or `size` words of data it must not look at. */
  datatype Item = Entry(kind: nat, val: nat) | Blob(size: nat)

  function Width(item: Item): nat {
    if item.Entry? then 2 else 2 + item.size
  }

  /** The two words at the start of an item. */
  predicate Heads(mem: seq<nat>, at: nat, item: Item) {
    at + Width(item) <= |mem| &&
    match item
    case Entry(kind, val) => mem[at] == kind && mem[at + 1] == val && kind != CP_NULL && kind != CP_OOB
    case Blob(size) => mem[at] == CP_OOB && mem[at + 1] == 8 * size
  }

  /** Where items that start at `at` end. */
  function End(at: nat, items: seq<Item>): nat {
    if items == [] then at else End(at, items[..|items| - 1]) + Width(items[|items| - 1])
  }

  /** Where item `i` starts. */
  function Pos(at: nat, items: seq<Item>, i: nat): nat
    requires i <= |items|
  {
    End(at, items[..i])
  }

  /** The items are in memory from `at` on. */
  ghost predicate Lays(mem: seq<nat>, at: nat, items: seq<Item>) {
    forall i {:trigger Pos(at, items, i)} :: 0 <= i < |items| ==> Heads(mem, Pos(at, items, i), items[i])
  }

  /** What a reader gets to see. */
  function Entries(items: seq<Item>): seq<Item> {
    if items == [] then []
    else (if items[0].Entry? then [items[0]] else []) + Entries(items[1..])
  }

  lemma {:induction false} EndSplit(at: nat, a: seq<Item>, b: seq<Item>)
    ensures End(at, a + b) == End(End(at, a), b) && End(at, a) <= End(at, a + b)
  {
    if b == [] {
      assert a + b == a;
    } else {
      var n := |b| - 1;
      assert (a + b)[..|a + b| - 1] == a + b[..n];
      EndSplit(at, a, b[..n]);
    }
  }

  lemma PosNext(at: nat, items: seq<Item>, i: nat)
    requires i < |items|
    ensures Pos(at, items, i) + Width(items[i]) == Pos(at, items, i + 1)
  {
    assert items[..i + 1][..i] == items[..i];
  }

  lemma PosOrder(at: nat, items: seq<Item>, i: nat, j: nat)
    requires i <= j <= |items|
    ensures Pos(at, items, i) <= Pos(at, items, j) <= End(at, items)
  {
    assert items[..j] == items[..i] + items[i..j];
    EndSplit(at, items[..i], items[i..j]);
    assert items == items[..j] + items[j..];
    EndSplit(at, items[..j], items[j..]);
  }

  lemma LaysAppend(mem: seq<nat>, at: nat, items: seq<Item>, item: Item)
    requires Lays(mem, at, items) && Heads(mem, End(at, items), item)
    ensures Lays(mem, at, items + [item]) && End(at, items + [item]) == End(at, items) + Width(item)
  {
    var items' := items + [item];
    forall i | 0 <= i < |items'|
      ensures Heads(mem, Pos(at, items', i), items'[i])
    {
      assert items'[..i] == items[..i];
      if i < |items| {
        assert Heads(mem, Pos(at, items, i), items[i]);
      } else {
        assert items[..i] == items;
      }
    }
    assert items'[..|items|] == items;
  }

  lemma HeadsFrame(mem: seq<nat>, mem': seq<nat>, at: nat, item: Item)
    requires Heads(mem, at, item) && at + Width(item) <= |mem'| && mem'[at] == mem[at] && mem'[at + 1] == mem[at + 1]
    ensures Heads(mem', at, item)
  {
  }

  ghost predicate SameUpTo(mem: seq<nat>, mem': seq<nat>, n: nat) {
    n <= |mem| && n <= |mem'| && forall i :: 0 <= i < n ==> mem'[i] == mem[i]
  }

  lemma ItemInside(at: nat, items: seq<Item>, i: nat)
    requires i < |items|
    ensures Pos(at, items, i) + Width(items[i]) <= End(at, items)
  {
    PosNext(at, items, i);
    PosOrder(at, items, i + 1, |items|);
  }

  /** Changes behind the end do not matter. */
  lemma LaysFrame(mem: seq<nat>, mem': seq<nat>, at: nat, items: seq<Item>)
    requires Lays(mem, at, items) && SameUpTo(mem, mem', End(at, items))
    ensures Lays(mem', at, items)
  {
    forall i | 0 <= i < |items|
      ensures Heads(mem', Pos(at, items, i), items[i])
    {
      ItemInside(at, items, i);
      HeadsFrame(mem, mem', Pos(at, items, i), items[i]);
    }
  }

  /** Word `w` is data of item `k`. */
  ghost predicate InBlob(at: nat, items: seq<Item>, k: nat, w: nat) {
    k < |items| && items[k].Blob? && Pos(at, items, k) + 2 <= w < Pos(at, items, k) + Width(items[k])
  }

  /** Data may hold anything: words that look like entries change nothing. */
  lemma LaysPoke(mem: seq<nat>, at: nat, items: seq<Item>, k: nat, w: nat, v: nat)
    requires Lays(mem, at, items) && InBlob(at, items, k, w) && w < |mem|
    ensures Lays(mem[w := v], at, items)
  {
    forall i | 0 <= i < |items|
      ensures Heads(mem[w := v], Pos(at, items, i), items[i])
    {
      if i < k {
        PosNext(at, items, i);
        PosOrder(at, items, i + 1, k);
      } else if i > k {
        PosNext(at, items, k);
        PosOrder(at, items, k + 1, i);
      }
      HeadsFrame(mem, mem[w := v], Pos(at, items, i), items[i]);
    }
  }

  lemma PosRest(at: nat, items: seq<Item>, i: nat)
    requires items != [] && i < |items|
    ensures Pos(at, items, i + 1) == Pos(at + Width(items[0]), items[1..], i)
  {
    assert items[..i + 1] == [items[0]] + items[1..][..i];
    EndSplit(at, [items[0]], items[1..][..i]);
  }

  lemma HeadsRest(mem: seq<nat>, at: nat, items: seq<Item>, i: nat)
    requires items != [] && Lays(mem, at, items) && i < |items| - 1
    ensures Heads(mem, Pos(at + Width(items[0]), items[1..], i), items[1..][i])
  {
    PosRest(at, items, i);
    assert Heads(mem, Pos(at, items, i + 1), items[i + 1]);
  }

  lemma HeadsFirst(mem: seq<nat>, at: nat, items: seq<Item>)
    requires items != [] && Lays(mem, at, items)
    ensures Heads(mem, at, items[0]) && End(at, items) == End(at + Width(items[0]), items[1..])
  {
    assert items[..0] == [];
    assert Heads(mem, Pos(at, items, 0), items[0]);
    assert items == [items[0]] + items[1..];
    EndSplit(at, [items[0]], items[1..]);
  }

  /** What follows the first item. */
  lemma LaysRest(mem: seq<nat>, at: nat, items: seq<Item>)
    requires items != [] && Lays(mem, at, items)
    ensures Heads(mem, at, items[0]) && Lays(mem, at + Width(items[0]), items[1..])
    ensures End(at, items) == End(at + Width(items[0]), items[1..])
  {
    HeadsFirst(mem, at, items);
    forall i | 0 <= i < |items[1..]|
      ensures Heads(mem, Pos(at + Width(items[0]), items[1..], i), items[1..][i])
    {
      HeadsRest(mem, at, items, i);
    }
  }
}
