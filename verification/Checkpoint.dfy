/** Writing a checkpoint into a growing store, walking it, and the map of objects already written. */
module Checkpoint {
  import opened Basics
  import opened CheckpointSpec

  /** `struct libos_cp_store`. Its memory grows by doubling, as long as the allocator has room; new
      memory holds anything. */
  class Store {
    var mem: seq<nat>
    var offset: nat
    const room: nat
    const junk: nat -> nat
    ghost var items: seq<Item>

    constructor (bound: nat, room: nat, junk: nat -> nat)
      requires 0 < bound
      ensures Valid() && items == [] && offset == 0 && this.room == room && |mem| == bound
    {
      mem, offset, items := seq(bound, i requires 0 <= i => junk(i)), 0, [];
      this.room, this.junk := room, junk;
    }

    ghost predicate Valid()
      reads this
    {
      0 < |mem| && offset == End(0, items) <= |mem| && Lays(mem, 0, items)
    }

    /** `__ADD_CP_OFFSET`: sets `size` words aside at the end, or fails. */
    method Reserve(size: nat) returns (off: Option<nat>)
      requires 0 < |mem| && offset <= |mem|
      modifies `mem, `offset
      ensures SameUpTo(old(mem), mem, |old(mem)|) && offset <= |mem|
      ensures off.None? ==> mem == old(mem) && offset == old(offset) && room < 2 * (offset + size)
      ensures off.Some? ==> off.value == old(offset) && offset == old(offset) + size
    {
      if offset + size > |mem| {
        var newBound := |mem| * 2;
        while offset + size > newBound
          invariant |mem| * 2 <= newBound < 2 * (offset + size)
        {
          newBound := newBound * 2;
        }
        if newBound > room {
          return None;
        }
        mem := mem + seq(newBound - |mem|, i requires 0 <= i => junk(i));
      }
      off := Some(offset);
      offset := offset + size;
    }

    /** Puts the two words of an entry at the end. */
    method PutEntry(kind: nat, val: nat) returns (off: Option<nat>)
      requires Valid()
      modifies `mem, `offset
      ensures 0 < |mem| && offset <= |mem|
      ensures Lays(mem, 0, items)
      ensures off.None? ==> mem == old(mem) && offset == old(offset) && room < 2 * (offset + 2)
      ensures off.Some? ==>
        && off.value == old(offset) && offset == old(offset) + 2 && SameUpTo(old(mem), mem, old(offset))
        && mem[old(offset)] == kind && mem[old(offset) + 1] == val
    {
      ghost var was := mem;
      off := Reserve(2);
      if off.Some? {
        mem := mem[off.value := kind][off.value + 1 := val];
        LaysFrame(was, mem, 0, items);
      }
    }

    /** `ADD_CP_ENTRY` and `ADD_CP_FUNC_ENTRY`. */
    method AddEntry(kind: nat, val: nat) returns (ok: bool)
      requires Valid() && kind != CP_NULL && kind != CP_OOB
      modifies `mem, `offset, `items
      ensures Valid()
      ensures if ok then items == old(items) + [Entry(kind, val)] && SameUpTo(old(mem), mem, old(offset))
              else items == old(items) && mem == old(mem) && room < 2 * (offset + 2)
    {
      var off := PutEntry(kind, val);
      ok := off.Some?;
      if ok {
        LaysAppend(mem, 0, items, Entry(kind, val));
        items := items + [Entry(kind, val)];
      }
    }

    /** The end of a migration: an entry that ends the walk. */
    method AddNull() returns (ok: bool)
      requires Valid()
      modifies `mem, `offset
      ensures ok ==> Finished() && SameUpTo(old(mem), mem, old(offset))
      ensures !ok ==> Valid() && mem == old(mem) && room < 2 * (offset + 2)
    {
      var off := PutEntry(CP_NULL, 0);
      ok := off.Some?;
    }

    /** All items were written, and the walk ends after them. */
    ghost predicate Finished()
      reads this
    {
      End(0, items) + 2 == offset <= |mem| && Lays(mem, 0, items) && mem[End(0, items)] == CP_NULL
    }

    /** `ADD_CP_OFFSET`: room for `size` bytes of data, never at offset zero. On failure the header of
        the data may be left behind without it. */
    method AddData(size: nat) returns (off: Option<nat>)
      requires Valid()
      modifies `mem, `offset, `items
      ensures off.None? ==> room < 2 * (old(offset) + 2 + (size + 7) / 8)
      ensures off.Some? ==>
        && Valid() && items == old(items) + [Blob((size + 7) / 8)] && off.value == old(offset) + 2
        && off.value + (size + 7) / 8 == offset && SameUpTo(old(mem), mem, old(offset))
    {
      ghost var was, at := mem, offset;
      var n := (size + 7) / 8;
      var head := PutEntry(CP_OOB, 8 * n);
      if head.None? {
        return None;
      }
      ghost var mid := mem;
      off := Reserve(n);
      if off.Some? {
        LaysFrame(mid, mem, 0, items);
        assert mem[at] == mid[at] && mem[at + 1] == mid[at + 1];
        LaysAppend(mem, 0, items, Blob(n));
        items := items + [Blob(n)];
      }
    }

    /** Writing to data that was set aside, at any later time and with any contents. */
    method Poke(w: nat, v: nat, ghost k: nat)
      requires Valid() && InBlob(0, items, k, w) && w < |mem|
      modifies `mem
      ensures Valid() && mem == old(mem)[w := v]
    {
      LaysPoke(mem, 0, items, k, w, v);
      mem := mem[w := v];
    }

    /** Fills the data of item `k`. */
    method PokeAll(w: nat, data: seq<nat>, ghost k: nat)
      requires Valid() && k < |items| && items[k] == Blob(|data|) && w == Pos(0, items, k) + 2
      modifies `mem
      ensures Valid() && |mem| == |old(mem)| && w + |data| <= |mem| && mem[w..w + |data|] == data
        && SameUpTo(old(mem), mem, w)
    {
      ItemInside(0, items, k);
      for i := 0 to |data|
        invariant Valid() && |mem| == |old(mem)| && w + i <= |mem| && SameUpTo(old(mem), mem, w)
        invariant forall j :: w <= j < w + i ==> mem[j] == data[j - w]
      {
        assert InBlob(0, items, k, w + i);
        Poke(w + i, data[i], k);
      }
      assert mem[w..w + |data|] == data;
    }
  }

  // ---------------------------------------------------------------- Walking

  /** The rest of a walk: `items` are in memory from `at` on, and the end is marked. */
  ghost predicate Walkable(mem: seq<nat>, at: nat, items: seq<Item>) {
    Lays(mem, at, items) && End(at, items) < |mem| && mem[End(at, items)] == CP_NULL
  }

  /** `NEXT_CP_ENTRY`: the next entry, past any data in between. */
  method NextEntry(mem: seq<nat>, at0: nat, ghost items: seq<Item>)
      returns (e: Option<Item>, at: nat, ghost rest: seq<Item>)
    requires Walkable(mem, at0, items)
    ensures Walkable(mem, at, rest) && |rest| <= |items|
    ensures e == if Entries(items) == [] then None else Some(Entries(items)[0])
    ensures if e.None? then rest == []
            else e.value.Entry? && [e.value] + Entries(rest) == Entries(items) && |rest| < |items|
  {
    at, rest := at0, items;
    while true
      invariant Walkable(mem, at, rest) && Entries(rest) == Entries(items) && |rest| <= |items|
      decreases |rest|
    {
      if rest != [] {
        LaysRest(mem, at, rest);
      }
      if mem[at] == CP_NULL {
        return None, at, rest;
      }
      var kind, val := mem[at], mem[at + 1];
      at := at + 2;
      if kind == CP_OOB {
        at := at + val / 8;
        rest := rest[1..];
      } else {
        return Some(Entry(kind, val)), at, rest[1..];
      }
    }
  }

  /** A walk that has just read `e`: `todo` is that entry and all that follow. */
  ghost predicate Walking(mem: seq<nat>, at: nat, rest: seq<Item>, e: Option<Item>, todo: seq<Item>) {
    Walkable(mem, at, rest) && if e.Some? then e.value.Entry? && todo == [e.value] + Entries(rest) else todo == []
  }

  method WalkOn(mem: seq<nat>, at0: nat, ghost items: seq<Item>)
      returns (e: Option<Item>, at: nat, ghost rest: seq<Item>, ghost todo: seq<Item>)
    requires Walkable(mem, at0, items)
    ensures todo == Entries(items) && Walking(mem, at, rest, e, todo)
  {
    e, at, rest := NextEntry(mem, at0, items);
    todo := Entries(items);
  }

  /** All entries of a checkpoint, one `NEXT_CP_ENTRY` after the other. */
  method Walk(mem: seq<nat>, start: nat, ghost items: seq<Item>) returns (entries: seq<Item>)
    requires Walkable(mem, start, items)
    ensures entries == Entries(items)
  {
    entries := [];
    var e, at;
    ghost var rest, todo;
    e, at, rest, todo := WalkOn(mem, start, items);
    while e.Some?
      invariant Walking(mem, at, rest, e, todo) && entries + todo == Entries(items)
      decreases |todo|
    {
      ghost var before := entries;
      entries := entries + [e.value];
      assert before + ([e.value] + Entries(rest)) == entries + Entries(rest);
      e, at, rest, todo := WalkOn(mem, at, rest);
    }
  }

  /** Neither the mark of the end nor that of data is used as the kind of an entry. */
  ghost predicate Writable(items: seq<Item>) {
    forall i :: 0 <= i < |items| && items[i].Entry? ==> items[i].kind != CP_NULL && items[i].kind != CP_OOB
  }

  /** Writes a checkpoint of the given items, whose data may hold anything, and ends it. */
  method Write(store: Store, items: seq<Item>, poke: (nat, nat) -> nat) returns (ok: bool)
    requires store.Valid() && store.items == [] && Writable(items)
    modifies store
    ensures ok ==> store.items == items && Walkable(store.mem, 0, items)
    ensures !ok ==> store.room < 2 * (End(0, items) + 2)
  {
    for i := 0 to |items|
      invariant store.Valid() && store.items == items[..i]
    {
      assert items[..i + 1] == items[..i] + [items[i]];
      ItemInside(0, items, i);
      match items[i]
      case Entry(kind, val) =>
        ok := store.AddEntry(kind, val);
        if !ok {
          return;
        }
      case Blob(size) =>
        var off := store.AddData(8 * size);
        if off.None? {
          return false;
        }
        var data := seq(size, j requires 0 <= j => poke(i, j));
        assert store.items[..i] == items[..i];
        store.PokeAll(off.value, data, i);
    }
    assert items[..|items|] == items;
    ok := store.AddNull();
  }

  /** Writes a checkpoint and walks it: the walk gives back exactly the entries, in order. */
  method RoundTrip(store: Store, items: seq<Item>, poke: (nat, nat) -> nat) returns (ok: bool, seen: seq<Item>)
    requires store.Valid() && store.items == [] && Writable(items)
    modifies store
    ensures ok ==> seen == Entries(items)
    ensures !ok ==> store.room < 2 * (End(0, items) + 2)
  {
    seen := [];
    ok := Write(store, items, poke);
    if ok {
      seen := Walk(store.mem, 0, items);
    }
  }

  // ---------------------------------------------------------------- Objects already written

  const CP_HASH_SIZE := 256
  const CP_MAP_ENTRY_NUM := 64

  /** `struct libos_cp_map_entry`. */
  datatype Pair = Pair(addr: nat, off: nat)

  /** Position of the last pair for `addr`, or -1. */
  function Search(bucket: seq<Pair>, addr: nat): (k: int)
    ensures -1 <= k < |bucket| && (k >= 0 ==> bucket[k].addr == addr)
    ensures forall i :: 0 <= i < |bucket| && bucket[i].addr == addr ==> k >= 0
  {
    if bucket == [] then -1
    else if bucket[|bucket| - 1].addr == addr then |bucket| - 1
    else Search(bucket[..|bucket| - 1], addr)
  }

  type Hash = nat -> nat

  /** Bucket `h` holds the addresses that hash to it, each at most once, with their offsets. */
  ghost predicate BucketOk(bucket: seq<Pair>, h: nat, hash: Hash, offsets: map<nat, nat>) {
    && (forall i :: 0 <= i < |bucket| ==> PairOk(bucket[i], h, hash, offsets))
    && (forall i, j :: 0 <= i < j < |bucket| ==> bucket[i].addr != bucket[j].addr)
    && (forall a :: a in offsets && hash(a) % CP_HASH_SIZE == h ==> Search(bucket, a) >= 0)
  }

  ghost predicate PairOk(p: Pair, h: nat, hash: Hash, offsets: map<nat, nat>) {
    hash(p.addr) % CP_HASH_SIZE == h && p.addr in offsets && offsets[p.addr] == p.off
  }

  function BucketPut(bucket: seq<Pair>, addr: nat, off: nat): seq<Pair> {
    var k := Search(bucket, addr);
    if k >= 0 then bucket[k := Pair(addr, off)] else [Pair(addr, off)] + bucket
  }

  lemma BucketUpdateOk(bucket: seq<Pair>, h: nat, hash: Hash, offsets: map<nat, nat>, k: nat, off: nat)
    requires BucketOk(bucket, h, hash, offsets) && k < |bucket|
    ensures BucketOk(bucket[k := Pair(bucket[k].addr, off)], h, hash, offsets[bucket[k].addr := off])
  {
    var addr := bucket[k].addr;
    var bucket', offsets' := bucket[k := Pair(addr, off)], offsets[addr := off];
    assert PairOk(bucket[k], h, hash, offsets);
    forall i | 0 <= i < |bucket'|
      ensures PairOk(bucket'[i], h, hash, offsets')
    {
      assert PairOk(bucket[i], h, hash, offsets);
    }
    forall a | a in offsets' && hash(a) % CP_HASH_SIZE == h
      ensures Search(bucket', a) >= 0
    {
      assert bucket'[Search(bucket, a)].addr == a;
    }
  }

  lemma BucketPrependOk(bucket: seq<Pair>, h: nat, hash: Hash, offsets: map<nat, nat>, addr: nat, off: nat)
    requires BucketOk(bucket, h, hash, offsets) && hash(addr) % CP_HASH_SIZE == h && Search(bucket, addr) < 0
    ensures BucketOk([Pair(addr, off)] + bucket, h, hash, offsets[addr := off])
  {
    var bucket', offsets' := [Pair(addr, off)] + bucket, offsets[addr := off];
    forall i | 0 <= i < |bucket|
      ensures PairOk(bucket[i], h, hash, offsets') && bucket[i].addr != addr
    {
      assert PairOk(bucket[i], h, hash, offsets);
    }
    forall a | a in offsets' && hash(a) % CP_HASH_SIZE == h
      ensures Search(bucket', a) >= 0
    {
      assert bucket'[if a == addr then 0 else Search(bucket, a) + 1].addr == a;
    }
  }

  lemma BucketPutOk(bucket: seq<Pair>, h: nat, hash: Hash, offsets: map<nat, nat>, addr: nat, off: nat)
    requires BucketOk(bucket, h, hash, offsets) && hash(addr) % CP_HASH_SIZE == h
    ensures BucketOk(BucketPut(bucket, addr, off), h, hash, offsets[addr := off])
  {
    var k := Search(bucket, addr);
    if k >= 0 {
      BucketUpdateOk(bucket, h, hash, offsets, k, off);
    } else {
      BucketPrependOk(bucket, h, hash, offsets, addr, off);
    }
  }

  lemma BucketOtherOk(bucket: seq<Pair>, h: nat, hash: Hash, offsets: map<nat, nat>, addr: nat, off: nat)
    requires BucketOk(bucket, h, hash, offsets) && hash(addr) % CP_HASH_SIZE != h
    ensures BucketOk(bucket, h, hash, offsets[addr := off])
  {
    forall i | 0 <= i < |bucket|
      ensures PairOk(bucket[i], h, hash, offsets[addr := off])
    {
      assert PairOk(bucket[i], h, hash, offsets);
    }
  }

  /** `struct cp_map`: hash buckets from addresses to offsets. Any hash function will do. */
  class AddressMap {
    const buckets: array<seq<Pair>>
    const hash: nat -> nat
    /** Entries left in the newest buffer. */
    var spare: nat
    ghost var offsets: map<nat, nat>

    constructor (hash: nat -> nat)
      ensures Valid() && fresh(buckets) && offsets == map[] && spare == CP_MAP_ENTRY_NUM
    {
      buckets := new seq<Pair>[CP_HASH_SIZE](_ => []);
      this.hash, spare, offsets := hash, CP_MAP_ENTRY_NUM, map[];
    }

    ghost predicate Valid()
      reads this, buckets
    {
      && buckets.Length == CP_HASH_SIZE
      && forall h :: 0 <= h < CP_HASH_SIZE ==> BucketOk(buckets[h], h, hash, offsets)
    }

    /** `GET_FROM_CP_MAP`: zero means absent. */
    method Get(addr: nat) returns (off: nat)
      requires Valid()
      ensures off == if addr in offsets then offsets[addr] else 0
    {
      var h := hash(addr) % CP_HASH_SIZE;
      var bucket := buckets[h];
      assert BucketOk(bucket, h, hash, offsets);
      var found := -1;
      for i := 0 to |bucket|
        invariant found == Search(bucket[..i], addr)
      {
        assert bucket[..i + 1][..i] == bucket[..i];
        if bucket[i].addr == addr {
          found := i;
        }
      }
      assert bucket[..|bucket|] == bucket;
      assert found >= 0 ==> PairOk(bucket[found], h, hash, offsets);
      off := if found >= 0 then bucket[found].off else 0;
    }

    /** `ADD_TO_CP_MAP`: a new pair goes to the front of its bucket, in a new buffer if there is none
        left and `grows` says that one can be had. Otherwise the process ends. */
    method Put(addr: nat, off: nat, grows: bool) returns (ok: bool)
      requires Valid()
      modifies this, buckets
      ensures Valid() && (ok <==> addr in old(offsets) || old(spare) > 0 || grows)
      ensures offsets == if ok then old(offsets)[addr := off] else old(offsets)
      ensures !ok || addr in old(offsets) ==> spare == old(spare)
      ensures ok && addr !in old(offsets) ==> spare + 1 == if old(spare) > 0 then old(spare) else CP_MAP_ENTRY_NUM
    {
      var h := hash(addr) % CP_HASH_SIZE;
      var bucket := buckets[h];
      var k := Search(bucket, addr);
      assert BucketOk(bucket, h, hash, offsets);
      assert k >= 0 ==> PairOk(bucket[k], h, hash, offsets);
      if k < 0 {
        if spare == 0 {
          if !grows {
            return false;
          }
          spare := CP_MAP_ENTRY_NUM;
        }
        spare := spare - 1;
      }
      BucketPutOk(bucket, h, hash, offsets, addr, off);
      forall g | 0 <= g < CP_HASH_SIZE && g != h
        ensures BucketOk(buckets[g], g, hash, offsets[addr := off])
      {
        assert BucketOk(buckets[g], g, hash, offsets);
        BucketOtherOk(buckets[g], g, hash, offsets, addr, off);
      }
      if k >= 0 {
        buckets[h] := bucket[k := Pair(addr, off)];
      } else {
        buckets[h] := [Pair(addr, off)] + bucket;
      }
      offsets := offsets[addr := off];
      ok := true;
    }
  }

  /** Every offset in the map is that of data of its own. */
  ghost predicate Tied(items: seq<Item>, offsets: map<nat, nat>) {
    && (forall a :: a in offsets ==> StartsData(items, offsets[a]))
    && (forall a, b :: a in offsets && b in offsets && a != b ==> offsets[a] != offsets[b])
  }

  /** Data starts at byte `off`. */
  ghost predicate StartsData(items: seq<Item>, off: nat) {
    exists k :: 0 <= k < |items| && items[k].Blob? && off == 8 * (Pos(0, items, k) + 2)
  }

  /** Data stays where it is, in front of new data. */
  lemma DataKept(items: seq<Item>, items': seq<Item>, n: nat, off: nat)
    requires StartsData(items, off) && items' == items + [Blob(n)]
    ensures StartsData(items', off) && off < 8 * (End(0, items) + 2)
  {
    var k :| 0 <= k < |items| && items[k].Blob? && off == 8 * (Pos(0, items, k) + 2);
    assert items'[k] == items[k] && items'[..k] == items[..k];
    ItemInside(0, items, k);
    assert Pos(0, items', k) == Pos(0, items, k);
  }

  lemma DataNew(items: seq<Item>, items': seq<Item>, n: nat)
    requires items' == items + [Blob(n)]
    ensures StartsData(items', 8 * (End(0, items) + 2))
  {
    var k := |items|;
    assert items'[..k] == items && items'[k] == Blob(n);
    assert Pos(0, items', k) == End(0, items);
  }

  /** New data lies behind all offsets given out so far. */
  lemma TiedGrows(items: seq<Item>, offsets: map<nat, nat>, addr: nat, n: nat, off: nat, items': seq<Item>,
                  offsets': map<nat, nat>)
    requires Tied(items, offsets) && addr !in offsets && off == 8 * (End(0, items) + 2)
    requires items' == items + [Blob(n)] && offsets' == offsets[addr := off]
    ensures Tied(items', offsets')
  {
    DataNew(items, items', n);
    forall a | a in offsets
      ensures StartsData(items', offsets'[a]) && offsets'[a] < off
    {
      DataKept(items, items', n, offsets[a]);
    }
  }

  ghost predicate HoldsAt(mem: seq<nat>, w: nat, data: seq<nat>) {
    w + |data| <= |mem| && mem[w..w + |data|] == data
  }

  /** Writes an object that is not in the checkpoint yet. */
  method AddObject(store: Store, m: AddressMap, addr: nat, size: nat, data: seq<nat>, grows: bool)
      returns (off: Option<nat>, exited: bool)
    requires store.Valid() && m.Valid() && Tied(store.items, m.offsets)
    requires addr !in m.offsets && |data| == (size + 7) / 8
    modifies store, m, m.buckets
    ensures off.None? ==> m.offsets == old(m.offsets)
    ensures exited ==> off.None? && m.spare == 0 && !grows
    ensures off.None? && !exited ==> store.room < 2 * (old(store.offset) + 2 + |data|)
    ensures off.Some? ==>
      && store.Valid() && m.Valid() && store.items == old(store.items) + [Blob(|data|)]
      && off.value == 8 * (old(store.offset) + 2) && m.offsets == old(m.offsets)[addr := off.value]
      && HoldsAt(store.mem, old(store.offset) + 2, data) && SameUpTo(old(store.mem), store.mem, old(store.offset))
  {
    ghost var k := |store.items|;
    var at := store.AddData(size);
    if at.None? {
      return None, false;
    }
    assert store.items[..k] == old(store.items);
    var ok := m.Put(addr, 8 * at.value, grows);
    if !ok {
      return None, true;
    }
    store.PokeAll(at.value, data, k);
    off, exited := Some(8 * at.value), false;
  }

  /** `cp_str`: writes `size` bytes, given as whole words, unless the object at `addr` is in the
      checkpoint already; either way the object has one offset, which is not zero. It fails if the
      store cannot grow, and ends the process if the map cannot. */
  method CheckpointString(store: Store, m: AddressMap, addr: nat, size: nat, data: seq<nat>, grows: bool)
      returns (off: Option<nat>, exited: bool)
    requires store.Valid() && m.Valid() && Tied(store.items, m.offsets) && |data| == (size + 7) / 8
    modifies store, m, m.buckets
    ensures m.offsets == if off.Some? then old(m.offsets)[addr := off.value] else old(m.offsets)
    ensures exited ==> off.None? && m.spare == 0 && !grows
    ensures off.None? && !exited ==> store.room < 2 * (old(store.offset) + 2 + |data|)
    ensures off.Some? ==> store.Valid() && m.Valid() && Tied(store.items, m.offsets) && off.value > 0
    ensures addr in old(m.offsets) ==>
      off == Some(old(m.offsets)[addr]) && store.items == old(store.items) && store.mem == old(store.mem)
    ensures addr !in old(m.offsets) && off.Some? ==>
      && store.items == old(store.items) + [Blob(|data|)] && off.value == 8 * (old(store.offset) + 2)
      && HoldsAt(store.mem, old(store.offset) + 2, data) && SameUpTo(old(store.mem), store.mem, old(store.offset))
  {
    var found := m.Get(addr);
    if found != 0 {
      KnownKept(m.offsets, addr, found);
      return Some(found), false;
    }
    AbsentIsZero(store.items, m.offsets, addr);
    off, exited := AddTied(store, m, addr, size, data, grows);
  }

  lemma KnownKept(offsets: map<nat, nat>, addr: nat, off: nat)
    requires addr in offsets && offsets[addr] == off
    ensures offsets[addr := off] == offsets
  {
  }

  /** No object has offset zero. */
  lemma AbsentIsZero(items: seq<Item>, offsets: map<nat, nat>, addr: nat)
    requires Tied(items, offsets)
    ensures addr in offsets ==> offsets[addr] > 0
  {
    if addr in offsets {
      assert StartsData(items, offsets[addr]);
    }
  }

  /** Writes a new object; its offset is like no other. */
  method AddTied(store: Store, m: AddressMap, addr: nat, size: nat, data: seq<nat>, grows: bool)
      returns (off: Option<nat>, exited: bool)
    requires store.Valid() && m.Valid() && Tied(store.items, m.offsets)
    requires addr !in m.offsets && |data| == (size + 7) / 8
    modifies store, m, m.buckets
    ensures m.offsets == if off.Some? then old(m.offsets)[addr := off.value] else old(m.offsets)
    ensures exited ==> off.None? && m.spare == 0 && !grows
    ensures off.None? && !exited ==> store.room < 2 * (old(store.offset) + 2 + |data|)
    ensures off.Some? ==>
      && store.Valid() && m.Valid() && Tied(store.items, m.offsets) && off.value == 8 * (old(store.offset) + 2)
      && store.items == old(store.items) + [Blob(|data|)]
      && HoldsAt(store.mem, old(store.offset) + 2, data) && SameUpTo(old(store.mem), store.mem, old(store.offset))
  {
    ghost var items, offsets := store.items, m.offsets;
    assert store.offset == End(0, items);
    off, exited := AddObject(store, m, addr, size, data, grows);
    if off.Some? {
      TiedGrows(items, offsets, addr, |data|, off.value, store.items, m.offsets);
    }
  }
}
