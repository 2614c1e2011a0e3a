/** What holds of the slab allocator after any run, down to the bytes of the buffers. */
module SlabRuns {
  import opened Basics
  import opened Slab

  // ---------------------------------------------------------------- Sizes

  /** Buffer sizes per level, for a header of `hdr` bytes. */
  function BufferSizes(hdr: nat): seq<nat>
    requires hdr <= 64
  {
    [16, 32, 64, 128 - hdr, 256 - hdr, 512 - hdr, 1024 - hdr, 2048 - hdr, 4096 - hdr, 8288 - hdr]
  }

  /** Headers keep buffers aligned. */
  predicate Header(hdr: nat) {
    16 <= hdr <= 64 && hdr % 16 == 0
  }

  /** Slot sizes per level: a buffer and a header. */
  function SlotSizes(hdr: nat): (slots: seq<nat>)
    requires Header(hdr)
    ensures |slots| == |BufferSizes(hdr)|
    ensures forall v :: 0 <= v < |slots| ==> slots[v] == BufferSizes(hdr)[v] + hdr && slots[v] % 16 == 0
  {
    [16 + hdr, 32 + hdr, 64 + hdr, 128, 256, 512, 1024, 2048, 4096, 8288]
  }

  /** Level `v` serves `size` bytes: the first, and so the smallest, that is large enough. */
  ghost predicate LevelFor(hdr: nat, size: nat, v: nat)
    requires Header(hdr)
  {
    && v < |BufferSizes(hdr)| && size <= BufferSizes(hdr)[v]
    && forall w :: 0 <= w < v ==> BufferSizes(hdr)[w] < size
  }

  method FindLevel(hdr: nat, size: nat) returns (level: Option<nat>)
    requires Header(hdr)
    ensures level.Some? ==> LevelFor(hdr, size, level.value)
    ensures level.None? <==> size > 8288 - hdr
  {
    var sizes := BufferSizes(hdr);
    for i := 0 to |sizes|
      invariant forall v :: 0 <= v < i ==> sizes[v] < size
    {
      if size <= sizes[i] {
        return Some(i);
      }
    }
    assert sizes[9] < size;
    return None;
  }

  // ---------------------------------------------------------------- Runs

  /** A manager just created: one area of `size` slots at every level, and nothing handed out. */
  ghost predicate Created(slots: seq<nat>, s: State, size: nat) {
    && size > 0 && |s.levels| == |slots| == |s.grants| && s.live == {}
    && (forall v :: 0 <= v < |slots| ==> FirstArea(s.levels[v], s.grants[v], v, size))
    && Allotted(slots, s)
    && (forall t :: 0 <= t < |s.threads| ==> s.threads[t] == Idle)
  }

  lemma {:induction false} TimesIs(n: nat, slot: nat)
    ensures Times(n, slot) == n * slot
  {
    if n > 0 {
      TimesIs(n - 1, slot);
    }
  }

  lemma {:induction false} TimesAligned(n: nat, slot: nat)
    requires slot % 16 == 0
    ensures Times(n, slot) % 16 == 0
  {
    if n > 0 {
      TimesAligned(n - 1, slot);
    }
  }

  lemma {:induction false} TimesSum(n: nat, a: nat, b: nat)
    ensures Times(n, a + b) == Times(n, a) + Times(n, b)
  {
    if n > 0 {
      TimesSum(n - 1, a, b);
    }
  }

  /** The area of level `v` in a manager just created. */
  predicate FirstArea(l: Level, g: Grant, v: nat, size: nat) {
    l == Level([v], 0, 0, [], size) && g.size == size && g.level == v && g.base % 16 == 0
  }

  lemma BytesAligned(slots: seq<nat>, g: Grant)
    requires g.level < |slots| && slots[g.level] % 16 == 0
    ensures Bytes(slots, g) % 16 == 0
  {
    TimesAligned(g.size, slots[g.level]);
  }

  function Sum(slots: seq<nat>): nat {
    if slots == [] then 0 else Sum(slots[..|slots| - 1]) + slots[|slots| - 1]
  }

  lemma SumSnoc(slots: seq<nat>, slot: nat)
    ensures Sum(slots + [slot]) == Sum(slots) + slot
  {
    assert (slots + [slot])[..|slots|] == slots;
  }

  /** What is asked for at the start: `__INIT_MAX_MEM_SIZE`. */
  function InitBytes(hdr: nat, size: nat): nat
    requires Header(hdr)
  {
    MANAGER + AREA_HEADER * 10 + (16464 - hdr * 7 + hdr * 10) * size
  }

  lemma SumIs(hdr: nat)
    requires Header(hdr)
    ensures Sum(SlotSizes(hdr)) == 16464 - hdr * 7 + hdr * 10
  {
    var a := [16 + hdr, 32 + hdr, 64 + hdr];
    SumOfThree(16 + hdr, 32 + hdr, 64 + hdr);
    SumRest(a);
    assert SlotSizes(hdr) == a + [128, 256, 512, 1024, 2048, 4096, 8288];
  }

  lemma SumOfThree(x: nat, y: nat, z: nat)
    ensures Sum([x, y, z]) == x + y + z
  {
    var none: seq<nat> := [];
    SumSnoc(none, x);
    assert none + [x] == [x] && [x] + [y] == [x, y] && [x, y] + [z] == [x, y, z];
    SumSnoc([x], y);
    SumSnoc([x, y], z);
  }

  lemma SumRest(a: seq<nat>)
    ensures Sum(a + [128, 256, 512, 1024, 2048, 4096, 8288]) == Sum(a) + 16352
  {
    var b := a + [128] + [256] + [512];
    SumSnoc(a, 128);
    SumSnoc(a + [128], 256);
    SumSnoc(a + [128] + [256], 512);
    SumSnoc(b, 1024);
    SumSnoc(b + [1024], 2048);
    SumSnoc(b + [1024] + [2048], 4096);
    SumSnoc(b + [1024] + [2048] + [4096], 8288);
    assert a + [128, 256, 512, 1024, 2048, 4096, 8288] == b + [1024] + [2048] + [4096] + [8288];
  }

  lemma {:induction false} EndIsSum(slots: seq<nat>, mem: nat, size: nat, v: nat)
    requires v <= |slots|
    ensures EndOf(slots, mem, size, v) == mem + MANAGER + AREA_HEADER * v + Times(size, Sum(slots[..v]))
  {
    if v == 0 {
      TimesIs(size, 0);
    } else {
      EndIsSum(slots, mem, size, v - 1);
      assert slots[..v] == slots[..v - 1] + [slots[v - 1]];
      SumSnoc(slots[..v - 1], slots[v - 1]);
      TimesSum(size, Sum(slots[..v - 1]), slots[v - 1]);
    }
  }

  /** All areas end where the memory asked for ends. */
  lemma InitIsEnough(hdr: nat, mem: nat, size: nat)
    requires Header(hdr)
    ensures EndOf(SlotSizes(hdr), mem, size, |SlotSizes(hdr)|) == mem + InitBytes(hdr, size)
  {
    var slots := SlotSizes(hdr);
    SumIs(hdr);
    EndIsSum(slots, mem, size, |slots|);
    TimesIs(size, Sum(slots));
    assert slots[..|slots|] == slots;
  }

  /** Areas up to level `v` lie one after the other from `from` to `addr`. */
  ghost predicate LaidOut(slots: seq<nat>, from: nat, size: nat, levels: seq<Level>, grants: seq<Grant>, v: nat,
                          addr: nat)
  {
    && |levels| == |grants| == v <= |slots| && from <= addr && addr % 16 == 0
    && (forall i :: 0 <= i < v ==> AreaOk(slots, from, size, levels[i], grants[i], i, addr))
    && (forall i, j :: 0 <= i < j < v ==> Apart(slots, grants[i], grants[j]))
  }

  ghost predicate AreaOk(slots: seq<nat>, from: nat, size: nat, l: Level, g: Grant, v: nat, addr: nat) {
    && FirstArea(l, g, v, size) && v < |slots| && from <= g.base && g.base + Bytes(slots, g) <= addr
  }

  /** Where the areas up to level `v` end. */
  function EndOf(slots: seq<nat>, mem: nat, size: nat, v: nat): nat
    requires v <= |slots|
  {
    if v == 0 then mem + MANAGER else EndOf(slots, mem, size, v - 1) + Bytes(slots, Grant(0, size, v - 1))
  }

  lemma NextArea(slots: seq<nat>, from: nat, size: nat, levels: seq<Level>, grants: seq<Grant>, v: nat, addr: nat,
                 g: Grant)
    requires LaidOut(slots, from, size, levels, grants, v, addr) && v < |slots| && g == Grant(addr, size, v)
    requires slots[v] % 16 == 0
    ensures LaidOut(slots, from, size, levels + [Level([v], 0, 0, [], size)], grants + [g], v + 1,
                    addr + Bytes(slots, g))
  {
    BytesAligned(slots, g);
    var l, addr' := Level([v], 0, 0, [], size), addr + Bytes(slots, g);
    assert AreaOk(slots, from, size, l, g, v, addr');
    AddedArea(slots, from, size, levels, grants, v, addr, l, g, addr');
  }

  lemma AddedArea(slots: seq<nat>, from: nat, size: nat, levels: seq<Level>, grants: seq<Grant>, v: nat, addr: nat,
                  l: Level, g: Grant, addr': nat)
    requires LaidOut(slots, from, size, levels, grants, v, addr) && v < |slots| && g.base == addr
    requires AreaOk(slots, from, size, l, g, v, addr') && addr <= addr' && addr' % 16 == 0
    ensures LaidOut(slots, from, size, levels + [l], grants + [g], v + 1, addr')
  {
    var levels', grants' := levels + [l], grants + [g];
    forall i | 0 <= i < v + 1
      ensures AreaOk(slots, from, size, levels'[i], grants'[i], i, addr')
    {
      if i < v {
        AreaStays(slots, from, size, levels[i], grants[i], i, addr, addr');
      }
    }
    forall i, j | 0 <= i < j < v + 1
      ensures Apart(slots, grants'[i], grants'[j])
    {
      assert grants'[i] == grants[i];
      if j < v {
        assert Apart(slots, grants[i], grants[j]);
      } else {
        AreaBelow(slots, from, size, levels[i], grants[i], i, addr, g);
      }
    }
  }

  lemma AreaStays(slots: seq<nat>, from: nat, size: nat, l: Level, g: Grant, v: nat, addr: nat, addr': nat)
    requires AreaOk(slots, from, size, l, g, v, addr) && addr <= addr'
    ensures AreaOk(slots, from, size, l, g, v, addr')
  {
  }

  lemma AreaBelow(slots: seq<nat>, from: nat, size: nat, l: Level, g: Grant, v: nat, addr: nat, next: Grant)
    requires AreaOk(slots, from, size, l, g, v, addr) && next.base == addr && next.level < |slots|
    ensures Apart(slots, g, next)
  {
  }

  /** Areas at all levels, and nothing handed out. */
  lemma LaidOutCreated(slots: seq<nat>, size: nat, s: State, addr: nat)
    requires LaidOut(slots, s.mgr + MANAGER, size, s.levels, s.grants, |slots|, addr) && size > 0
    requires s.live == {} && forall t :: 0 <= t < |s.threads| ==> s.threads[t] == Idle
    ensures Created(slots, s, size)
  {
    forall i | 0 <= i < |s.grants|
      ensures GrantOk(slots, s.mgr, s.grants[i]) && FirstArea(s.levels[i], s.grants[i], i, size)
    {
      assert AreaOk(slots, s.mgr + MANAGER, size, s.levels[i], s.grants[i], i, addr);
    }
  }

  /** Lays out a manager with one area per level in memory at `mem`. */
  method LayOut(slots: seq<nat>, mem: nat, size: nat, threads: seq<PC>) returns (s: State)
    requires mem % 16 == 0 && size > 0 && forall v :: 0 <= v < |slots| ==> slots[v] % 16 == 0
    requires forall t :: 0 <= t < |threads| ==> threads[t] == Idle
    ensures Created(slots, s, size) && s.threads == threads && s.mgr == mem
    ensures LaidOut(slots, mem + MANAGER, size, s.levels, s.grants, |slots|, EndOf(slots, mem, size, |slots|))
  {
    var levels: seq<Level>, grants: seq<Grant> := [], [];
    ghost var from := mem + MANAGER;
    var addr: nat := mem + MANAGER;
    for v := 0 to |slots|
      invariant addr == EndOf(slots, mem, size, v) && LaidOut(slots, from, size, levels, grants, v, addr)
    {
      var g := Grant(addr, size, v);
      NextArea(slots, from, size, levels, grants, v, addr, g);
      levels, grants, addr := levels + [Level([v], 0, 0, [], size)], grants + [g], addr + Bytes(slots, g);
    }
    s := State(mem, levels, grants, {}, threads);
    LaidOutCreated(slots, size, s, addr);
  }

  /** The first number of slots, from `size` downwards by halves, for which there is memory. */
  function FirstServed(hdr: nat, malloc: nat -> Option<nat>, size: nat): Option<nat>
    requires Header(hdr)
  {
    if size == 0 then None
    else if malloc(InitBytes(hdr, size)).Some? then Some(size)
    else FirstServed(hdr, malloc, size / 2)
  }

  /** Asks for memory, less and less of it, and lays out a manager. All of it lies in the memory that
      was asked for. */
  method CreateSlabMgr(hdr: nat, startup: nat, malloc: nat -> Option<nat>, threads: seq<PC>) returns (s: Option<State>)
    requires Header(hdr) && forall n :: malloc(n).Some? ==> malloc(n).value % 16 == 0
    requires forall t :: 0 <= t < |threads| ==> threads[t] == Idle
    ensures s.None? <==> FirstServed(hdr, malloc, startup).None?
    ensures s.Some? ==> var size, slots, s := FirstServed(hdr, malloc, startup).value, SlotSizes(hdr), s.value;
      && Created(slots, s, size) && s.threads == threads && malloc(InitBytes(hdr, size)) == Some(s.mgr)
      && LaidOut(slots, s.mgr + MANAGER, size, s.levels, s.grants, |slots|, s.mgr + InitBytes(hdr, size))
  {
    var size := startup;
    while size > 0
      invariant FirstServed(hdr, malloc, size) == FirstServed(hdr, malloc, startup)
    {
      var mem := malloc(InitBytes(hdr, size));
      if mem.Some? {
        var slots := SlotSizes(hdr);
        var s1 := LayOut(slots, mem.value, size, threads);
        InitIsEnough(hdr, mem.value, size);
        return Some(s1);
      }
      size := size / 2;
    }
    return None;
  }

  datatype Turn = Turn(t: nat, e: Event)

  ghost predicate Legal(slots: seq<nat>, s: State, run: seq<Turn>)
    decreases |run|
  {
    run != [] ==> Enabled(slots, s, run[0].t, run[0].e) && Legal(slots, Advance(slots, s, run[0].t, run[0].e), run[1..])
  }

  ghost function Exec(slots: seq<nat>, s: State, run: seq<Turn>): State
    requires Legal(slots, s, run)
    decreases |run|
  {
    if run == [] then s else Exec(slots, Advance(slots, s, run[0].t, run[0].e), run[1..])
  }

  lemma CreatedInv(slots: seq<nat>, s: State, size: nat)
    requires Created(slots, s, size)
    ensures Inv(slots, s)
  {
    forall v | 0 <= v < |s.levels|
      ensures Tidy(s.grants, s.levels[v], v, s.live)
    {
      var l := s.levels[v];
      assert l.areas[0] == v;
    }
    forall id | 0 <= id < |s.grants|
      ensures Kept(s, id)
    {
      assert s.levels[id].areas[0] == id;
    }
  }

  lemma {:induction false} RunKeepsInv(slots: seq<nat>, s: State, run: seq<Turn>)
    requires Inv(slots, s) && Legal(slots, s, run)
    ensures Inv(slots, Exec(slots, s, run))
    decreases |run|
  {
    if run != [] {
      StepKeepsInv(slots, s, run[0].t, run[0].e);
      RunKeepsInv(slots, Advance(slots, s, run[0].t, run[0].e), run[1..]);
    }
  }

  // ---------------------------------------------------------------- Theorems

  /** Slot `x` is in an area not activated yet, or in the rest of the active one. */
  ghost predicate NotYet(l: Level, x: Slot) {
    exists k :: 0 <= k < |l.areas| && l.areas[k] == x.area && (k < l.active || (k == l.active && x.idx >= l.next))
  }

  /** In every reachable state each slot of each listed area is in exactly one place: not handed out
      yet, on the free list of its level (once), or in use. */
  lemma SlotsAccountedFor(slots: seq<nat>, s0: State, size: nat, run: seq<Turn>, v: nat, x: Slot)
    requires Created(slots, s0, size) && Legal(slots, s0, run)
    ensures var s := Exec(slots, s0, run);
      v < |s.levels| && x.area in s.levels[v].areas && x.area < |s.grants| && x.idx < s.grants[x.area].size ==>
        var l := s.levels[v];
        && (NotYet(l, x) <==> x !in l.free && x !in s.live) && !(x in l.free && x in s.live)
        && (forall i, j :: 0 <= i < j < |l.free| ==> l.free[i] != l.free[j])
  {
    var s := Exec(slots, s0, run);
    CreatedInv(slots, s0, size);
    RunKeepsInv(slots, s0, run);
    if v < |s.levels| && x.area in s.levels[v].areas && x.area < |s.grants| && x.idx < s.grants[x.area].size {
      var l := s.levels[v];
      assert Tidy(s.grants, l, v, s.live);
      NotYetOrHandedOut(s.grants, l, v, x);
    }
  }

  lemma NotYetOrHandedOut(grants: seq<Grant>, l: Level, v: nat, x: Slot)
    requires Sane(grants, l, v) && x.area in l.areas && x.idx < grants[x.area].size
    ensures NotYet(l, x) <==> !HandedOut(grants, l, x)
    ensures grants[x.area].level == v
  {
    var k :| 0 <= k < |l.areas| && l.areas[k] == x.area;
    if HandedOut(grants, l, x) {
      var i: nat :| i < |l.areas| && At(grants, l, x, i);
      assert i == k;
    } else {
      assert !At(grants, l, x, k);
    }
  }

  /** No area is ever lost: each grant is in the list of its level, or on its way there. */
  lemma NoAreaLost(slots: seq<nat>, s0: State, size: nat, run: seq<Turn>, id: nat)
    requires Created(slots, s0, size) && Legal(slots, s0, run)
    ensures var s := Exec(slots, s0, run); id < |s.grants| ==> s.grants[id].level < |s.levels| && Kept(s, id)
  {
    CreatedInv(slots, s0, size);
    RunKeepsInv(slots, s0, run);
  }

  /** What the place of a thread in the code asks for is possible. */
  ghost predicate CanMove(slots: seq<nat>, s: State, t: nat)
    requires t < |s.threads|
  {
    match s.threads[t]
    case Idle => forall v :: 0 <= v < |s.levels| ==> Enabled(slots, s, t, Alloc(v))
    case Asking(_, _) => Enabled(slots, s, t, Refused) && exists base :: Enabled(slots, s, t, Granted(base))
    case Got(_) => Enabled(slots, s, t, Relock)
    case Failed => Enabled(slots, s, t, GiveUp)
  }

  lemma IdleCanAllocate(slots: seq<nat>, s: State, t: nat, v: nat)
    requires Inv(slots, s) && t < |s.threads| && s.threads[t].Idle? && v < |s.levels|
    ensures Enabled(slots, s, t, Alloc(v))
  {
    assert Tidy(s.grants, s.levels[v], v, s.live);
  }

  lemma GotCanRelock(slots: seq<nat>, s: State, t: nat)
    requires Inv(slots, s) && t < |s.threads| && s.threads[t].Got?
    ensures Enabled(slots, s, t, Relock)
  {
    assert ThreadOk(s, s.threads[t]);
    var v := s.grants[s.threads[t].area].level;
    assert Tidy(s.grants, s.levels[v], v, s.live);
  }

  lemma AskingCanGet(slots: seq<nat>, s: State, t: nat) returns (base: nat)
    requires Inv(slots, s) && t < |s.threads| && s.threads[t].Asking?
    ensures Enabled(slots, s, t, Granted(base))
  {
    assert ThreadOk(s, s.threads[t]);
    base := RoomAbove(slots, s, |s.grants|);
  }

  /** No thread is ever stuck. */
  lemma NeverStuck(slots: seq<nat>, s0: State, size: nat, run: seq<Turn>, t: nat)
    requires Created(slots, s0, size) && Legal(slots, s0, run)
    ensures t < |Exec(slots, s0, run).threads| ==> CanMove(slots, Exec(slots, s0, run), t)
  {
    var s := Exec(slots, s0, run);
    CreatedInv(slots, s0, size);
    RunKeepsInv(slots, s0, run);
    if t < |s.threads| {
      match s.threads[t]
      case Idle =>
        forall v | 0 <= v < |s.levels|
          ensures Enabled(slots, s, t, Alloc(v))
        {
          IdleCanAllocate(slots, s, t, v);
        }
      case Asking(_, _) => var base := AskingCanGet(slots, s, t);
      case Got(_) => GotCanRelock(slots, s, t);
      case Failed =>
    }
  }

  /** An address above the manager and the first `n` grants. */
  lemma {:induction false} RoomAbove(slots: seq<nat>, s: State, n: nat) returns (base: nat)
    requires Allotted(slots, s) && n <= |s.grants|
    ensures base % 16 == 0 && s.mgr + MANAGER <= base
    ensures forall i :: 0 <= i < n ==> s.grants[i].base + Bytes(slots, s.grants[i]) <= base
  {
    if n == 0 {
      base := (s.mgr + MANAGER + 15) / 16 * 16;
    } else {
      base := RoomAbove(slots, s, n - 1);
      assert GrantOk(slots, s.mgr, s.grants[n - 1]);
      base := base + (s.grants[n - 1].base + Bytes(slots, s.grants[n - 1])) * 16;
    }
  }

  // ---------------------------------------------------------------- Buffers

  /** Where a slot starts; its buffer starts 16 bytes further. */
  function Address(slots: seq<nat>, grants: seq<Grant>, x: Slot): nat
    requires x.area < |grants| && grants[x.area].level < |slots|
  {
    grants[x.area].base + AREA_HEADER + Times(x.idx, slots[grants[x.area].level])
  }

  lemma {:induction false} SlotInGrant(i: nat, n: nat, slot: nat)
    requires i < n
    ensures Times(i, slot) + slot <= Times(n, slot)
    decreases n
  {
    if i + 1 < n {
      SlotInGrant(i, n - 1, slot);
    }
  }

  /** A slot in use lies inside its grant. */
  lemma InsideGrant(slots: seq<nat>, s: State, x: Slot)
    requires Inv(slots, s) && x in s.live
    ensures x.area < |s.grants| && s.grants[x.area].level < |slots|
    ensures var g := s.grants[x.area];
      g.base + AREA_HEADER <= Address(slots, s.grants, x) &&
      Address(slots, s.grants, x) + slots[g.level] <= g.base + Bytes(slots, g)
  {
    var g := s.grants[x.area];
    assert Tidy(s.grants, s.levels[g.level], g.level, s.live);
    assert InUse(s.grants, s.live, g.level, x);
    HandedOutLevel(s.grants, s.levels[g.level], g.level, x);
    SlotInGrant(x.idx, g.size, slots[g.level]);
  }

  ghost predicate AddressOk(slots: seq<nat>, s: State, x: Slot) {
    x.area < |s.grants| && s.grants[x.area].level < |slots|
  }

  /** Slot `x` ends where `y` starts, or before. */
  ghost predicate EndsBefore(slots: seq<nat>, s: State, x: Slot, y: Slot)
    requires AddressOk(slots, s, x) && AddressOk(slots, s, y)
  {
    Address(slots, s.grants, x) + slots[s.grants[x.area].level] <= Address(slots, s.grants, y)
  }

  lemma SlotsApart(slots: seq<nat>, s: State, x: Slot, y: Slot)
    requires Inv(slots, s) && x in s.live && y in s.live && x != y
    ensures AddressOk(slots, s, x) && AddressOk(slots, s, y)
    ensures EndsBefore(slots, s, x, y) || EndsBefore(slots, s, y, x)
  {
    InsideGrant(slots, s, x);
    InsideGrant(slots, s, y);
    if x.area < y.area {
      assert Apart(slots, s.grants[x.area], s.grants[y.area]);
    } else if y.area < x.area {
      assert Apart(slots, s.grants[y.area], s.grants[x.area]);
    } else {
      var slot := slots[s.grants[x.area].level];
      if x.idx < y.idx {
        SlotInGrant(x.idx, y.idx, slot);
      } else {
        SlotInGrant(y.idx, x.idx, slot);
      }
    }
  }

  lemma SlotAligned(slots: seq<nat>, s: State, x: Slot)
    requires Inv(slots, s) && x in s.live && forall v :: 0 <= v < |slots| ==> slots[v] % 16 == 0
    ensures AddressOk(slots, s, x) && Address(slots, s.grants, x) % 16 == 0
  {
    InsideGrant(slots, s, x);
    TimesAligned(x.idx, slots[s.grants[x.area].level]);
  }

  /** Bytes from `a` and from `b` do not overlap. */
  predicate Disjoint(a: nat, n: nat, b: nat, m: nat) {
    a + n <= b || b + m <= a
  }

  /** The slot of `x` is clear of the manager and of the header of area `id`. */
  lemma OffHeaders(slots: seq<nat>, s: State, x: Slot, id: nat)
    requires Inv(slots, s) && x in s.live && id < |s.grants|
    ensures AddressOk(slots, s, x)
    ensures var a, n := Address(slots, s.grants, x), slots[s.grants[x.area].level];
      Disjoint(a, n, s.mgr, MANAGER) && Disjoint(a, n, s.grants[id].base, AREA_HEADER)
  {
    InsideGrant(slots, s, x);
    assert OffManager(slots, s.mgr, s.grants[x.area]);
    if id < x.area {
      assert Apart(slots, s.grants[id], s.grants[x.area]);
    } else if x.area < id {
      assert Apart(slots, s.grants[x.area], s.grants[id]);
    }
  }

  /** The `n` bytes of the buffer of `x` are aligned, lie in the slot of `x`, and share no byte with
      another slot in use, with the header of an area or with the manager. */
  ghost predicate GoodBuffer(slots: seq<nat>, s: State, x: Slot, n: nat) {
    && AddressOk(slots, s, x)
    && var buffer := Address(slots, s.grants, x) + 16;
    && buffer % 16 == 0 && buffer + n <= Address(slots, s.grants, x) + slots[s.grants[x.area].level]
    && (forall y :: y in s.live && y != x ==>
          && AddressOk(slots, s, y)
          && Disjoint(buffer, n, Address(slots, s.grants, y), slots[s.grants[y.area].level]))
    && (forall id :: 0 <= id < |s.grants| ==> Disjoint(buffer, n, s.grants[id].base, AREA_HEADER))
    && Disjoint(buffer, n, s.mgr, MANAGER)
  }

  lemma LiveBufferGood(hdr: nat, s: State, x: Slot, n: nat)
    requires Header(hdr) && Inv(SlotSizes(hdr), s) && x in s.live
    requires x.area < |s.grants| && LevelFor(hdr, n, s.grants[x.area].level)
    ensures GoodBuffer(SlotSizes(hdr), s, x, n)
  {
    var slots := SlotSizes(hdr);
    SlotAligned(slots, s, x);
    var a, slot := Address(slots, s.grants, x), slots[s.grants[x.area].level];
    assert a + 16 + n <= a + slot;
    OffHeaders(slots, s, x, x.area);
    forall y | y in s.live && y != x
      ensures AddressOk(slots, s, y) && Disjoint(a + 16, n, Address(slots, s.grants, y), slots[s.grants[y.area].level])
    {
      SlotsApart(slots, s, x, y);
    }
    forall id | 0 <= id < |s.grants|
      ensures Disjoint(a + 16, n, s.grants[id].base, AREA_HEADER)
    {
      OffHeaders(slots, s, x, id);
    }
  }

  /** After any run, a slot in use has a good buffer for every request its level serves. */
  lemma BuffersApart(hdr: nat, s0: State, size: nat, run: seq<Turn>, x: Slot, n: nat)
    requires Header(hdr) && Created(SlotSizes(hdr), s0, size) && Legal(SlotSizes(hdr), s0, run)
    requires x in Exec(SlotSizes(hdr), s0, run).live
    ensures var s := Exec(SlotSizes(hdr), s0, run);
      x.area < |s.grants| && (LevelFor(hdr, n, s.grants[x.area].level) ==> GoodBuffer(SlotSizes(hdr), s, x, n))
  {
    var slots, s := SlotSizes(hdr), Exec(SlotSizes(hdr), s0, run);
    CreatedInv(slots, s0, size);
    RunKeepsInv(slots, s0, run);
    if LevelFor(hdr, n, s.grants[x.area].level) {
      LiveBufferGood(hdr, s, x, n);
    }
  }

  // ---------------------------------------------------------------- Requests

  /** One slot of level `v` that was not in use is, and nothing else changed hands. */
  ghost predicate Serves(s: State, s': State, v: nat) {
    exists x :: x !in s.live && s'.live == s.live + {x} && InUse(s'.grants, s'.live, v, x)
  }

  lemma FinishServes(slots: seq<nat>, s: State, t: nat, v: nat)
    requires Inv(slots, s) && t < |s.threads| && v < |s.levels| && Wired(s.grants, s.levels[v])
    ensures var s', l := Finish(s, t, v, s.levels[v]), s.levels[v];
      if Settle(s.grants, l).Some? then s'.threads == s.threads[t := Idle] && Serves(s, s', v)
      else s'.threads == s.threads[t := Asking(v, l.total)] && s'.live == s.live
  {
    SettleTidy(s.grants, s.levels[v], v, s.live);
    var r := Settle(s.grants, s.levels[v]);
    if r.Some? {
      var x := r.value.1;
      assert x !in s.live && InUse(s.grants, s.live + {x}, v, x);
    }
  }

  /** After any run, an allocation either serves its level at once, or goes on to ask for memory. */
  lemma AllocationIsNew(slots: seq<nat>, s0: State, size: nat, run: seq<Turn>, t: nat, v: nat)
    requires Created(slots, s0, size) && Legal(slots, s0, run)
    requires Enabled(slots, Exec(slots, s0, run), t, Alloc(v))
    ensures var s := Exec(slots, s0, run); var s' := Advance(slots, s, t, Alloc(v));
      || (s'.threads == s.threads[t := Idle] && Serves(s, s', v))
      || (PendingAt(s', t) == Some(v) && s'.live == s.live)
  {
    CreatedInv(slots, s0, size);
    RunKeepsInv(slots, s0, run);
    FinishServes(slots, Exec(slots, s0, run), t, v);
  }

  /** The level a thread is getting memory for. */
  ghost function PendingAt(s: State, t: nat): Option<nat> {
    if t >= |s.threads| then None
    else match s.threads[t]
      case Asking(v, _) => Some(v)
      case Got(id) => if id < |s.grants| then Some(s.grants[id].level) else None
      case _ => None
  }

  function Bits(n: nat): nat {
    if n == 0 then 0 else 1 + Bits(n / 2)
  }

  /** Turns a thread needs at most to end its allocation. */
  function TurnsLeft(pc: PC): nat {
    match pc
    case Idle => 0
    case Got(_) => 1
    case Failed => 1
    case Asking(_, n) => 1 + Bits(n)
  }

  /** An allocation that has dropped the lock, whatever others do meanwhile: it stays at its level,
      changes nothing until it ends, needs fewer turns each time, and ends with one new slot of its
      level once the system granted memory, without asking again. */
  ghost predicate GoesOn(s: State, s': State, t: nat, u: nat, v: nat)
    requires t < |s.threads| && t < |s'.threads|
  {
    if u != t then PendingAt(s', t) == Some(v) && s'.threads[t] == s.threads[t]
    else
      && TurnsLeft(s'.threads[t]) < TurnsLeft(s.threads[t])
      && if s.threads[t].Got? then s'.threads[t] == Idle && Serves(s, s', v)
         else s'.live == s.live && (PendingAt(s', t) == Some(v) || s'.threads[t] == Failed)
  }

  lemma RelockServes(slots: seq<nat>, s: State, t: nat)
    requires Inv(slots, s) && Enabled(slots, s, t, Relock)
    ensures var s' := Advance(slots, s, t, Relock);
      s'.threads == s.threads[t := Idle] && Serves(s, s', s.grants[s.threads[t].area].level)
  {
    var v := s.grants[s.threads[t].area].level;
    assert ThreadOk(s, s.threads[t]);
    ListedInv(slots, s, t);
    SameFinish(s, t, v);
    FinishServes(slots, Listed(s, t), t, v);
    assert s.threads[t := Idle][t := Idle] == s.threads[t := Idle];
  }

  lemma StepGoesOn(slots: seq<nat>, s: State, t: nat, v: nat, u: nat, e: Event)
    requires Inv(slots, s) && PendingAt(s, t) == Some(v) && Enabled(slots, s, u, e)
    ensures |Advance(slots, s, u, e).threads| == |s.threads| && GoesOn(s, Advance(slots, s, u, e), t, u, v)
  {
    assert ThreadOk(s, s.threads[t]);
    if u == t && e.Relock? {
      RelockServes(slots, s, t);
    }
  }

  lemma RequestGoesOn(slots: seq<nat>, s0: State, size: nat, run: seq<Turn>, t: nat, v: nat, u: nat, e: Event)
    requires Created(slots, s0, size) && Legal(slots, s0, run) && PendingAt(Exec(slots, s0, run), t) == Some(v)
    requires Enabled(slots, Exec(slots, s0, run), u, e)
    ensures var s := Exec(slots, s0, run); var s' := Advance(slots, s, u, e);
      |s'.threads| == |s.threads| && GoesOn(s, s', t, u, v)
  {
    CreatedInv(slots, s0, size);
    RunKeepsInv(slots, s0, run);
    StepGoesOn(slots, Exec(slots, s0, run), t, v, u, e);
  }

  /** Thread `t` is getting memory all along. */
  ghost predicate PendingThrough(slots: seq<nat>, s: State, run: seq<Turn>, t: nat)
    requires Legal(slots, s, run)
    decreases |run|
  {
    PendingAt(s, t).Some? &&
    (run != [] ==> PendingThrough(slots, Advance(slots, s, run[0].t, run[0].e), run[1..], t))
  }

  function OwnTurns(run: seq<Turn>, t: nat): nat {
    if run == [] then 0 else (if run[0].t == t then 1 else 0) + OwnTurns(run[1..], t)
  }

  /** However long a run, a thread that is getting memory all along has taken at most as many turns as
      the number of slots it asked for has bits, and is still at the same level. */
  lemma {:induction false} RequestIsBounded(slots: seq<nat>, s: State, run: seq<Turn>, t: nat)
    requires Inv(slots, s) && Legal(slots, s, run) && PendingThrough(slots, s, run, t)
    ensures OwnTurns(run, t) < TurnsLeft(s.threads[t])
    ensures PendingAt(Exec(slots, s, run), t) == PendingAt(s, t)
    decreases |run|
  {
    if run != [] {
      var s' := Advance(slots, s, run[0].t, run[0].e);
      StepKeepsInv(slots, s, run[0].t, run[0].e);
      StepGoesOn(slots, s, t, PendingAt(s, t).value, run[0].t, run[0].e);
      RequestIsBounded(slots, s', run[1..], t);
    }
  }

  /** What thread `t` does in a run. */
  function Own(run: seq<Turn>, t: nat): seq<Event> {
    if run == [] then [] else (if run[0].t == t then [run[0].e] else []) + Own(run[1..], t)
  }

  /** The allocation of thread `t` does not return during the run. */
  ghost predicate Unreturned(slots: seq<nat>, s: State, run: seq<Turn>, t: nat)
    requires Legal(slots, s, run)
    decreases |run|
  {
    && t < |s.threads| && !s.threads[t].Idle?
    && (run != [] ==> Unreturned(slots, Advance(slots, s, run[0].t, run[0].e), run[1..], t))
  }

  /** The system refused `n` times, and that is all. */
  predicate Refusals(es: seq<Event>, n: nat) {
    |es| == n && forall i :: 0 <= i < |es| ==> es[i].Refused?
  }

  lemma OthersLeaveAlone(slots: seq<nat>, s: State, t: nat, u: nat, e: Event)
    requires Enabled(slots, s, u, e) && t < |s.threads| && u != t
    ensures var s' := Advance(slots, s, u, e); |s'.threads| == |s.threads| && s'.threads[t] == s.threads[t]
  {
  }

  /** A thread with nothing left to do but return stays as it is. */
  lemma {:induction false} OnlyReturns(slots: seq<nat>, s: State, run: seq<Turn>, t: nat)
    requires Inv(slots, s) && Legal(slots, s, run) && Unreturned(slots, s, run, t)
    requires s.threads[t].Got? || s.threads[t].Failed?
    ensures t < |Exec(slots, s, run).threads| && Exec(slots, s, run).threads[t] == s.threads[t] && Own(run, t) == []
    decreases |run|
  {
    if run != [] {
      var s', u, e := Advance(slots, s, run[0].t, run[0].e), run[0].t, run[0].e;
      StepKeepsInv(slots, s, u, e);
      if u != t {
        OthersLeaveAlone(slots, s, t, u, e);
        OnlyReturns(slots, s', run[1..], t);
      } else if e.Relock? {
        RelockServes(slots, s, t);
        assert false;
      }
    }
  }

  /** However others interleave, an allocation that asked for `n` slots fails if and only if the system
      refused every halving of `n`. */
  lemma {:induction false} FailsExactly(slots: seq<nat>, s: State, run: seq<Turn>, t: nat, v: nat, n: nat)
    requires Inv(slots, s) && Legal(slots, s, run) && Unreturned(slots, s, run, t) && s.threads[t] == Asking(v, n)
    ensures t < |Exec(slots, s, run).threads|
    ensures Exec(slots, s, run).threads[t] == Failed <==> Refusals(Own(run, t), Bits(n))
    decreases |run|, 1
  {
    assert ThreadOk(s, s.threads[t]);
    if run != [] {
      var s', u, e, rest := Advance(slots, s, run[0].t, run[0].e), run[0].t, run[0].e, run[1..];
      StepKeepsInv(slots, s, u, e);
      if u != t {
        OthersLeaveAlone(slots, s, t, u, e);
        FailsExactly(slots, s', rest, t, v, n);
        assert Own(run, t) == Own(rest, t);
      } else if e.Granted? {
        OnlyReturns(slots, s', rest, t);
        assert Own(run, t)[0] == e;
      } else {
        RefusedOnce(slots, s, run, t, v, n);
      }
    }
  }

  lemma RefusedOnce(slots: seq<nat>, s: State, run: seq<Turn>, t: nat, v: nat, n: nat)
    requires Inv(slots, s) && Legal(slots, s, run) && Unreturned(slots, s, run, t) && s.threads[t] == Asking(v, n)
    requires n > 0 && run != [] && run[0] == Turn(t, Refused)
    ensures t < |Exec(slots, s, run).threads|
    ensures Exec(slots, s, run).threads[t] == Failed <==> Refusals(Own(run, t), Bits(n))
    decreases |run|, 0
  {
    var s', rest := Advance(slots, s, t, Refused), run[1..];
    StepKeepsInv(slots, s, t, Refused);
    assert Own(run, t) == [Refused] + Own(rest, t);
    if n / 2 > 0 {
      FailsExactly(slots, s', rest, t, v, n / 2);
      OneMore(Own(rest, t), Bits(n / 2));
    } else {
      OnlyReturns(slots, s', rest, t);
      assert Bits(n) == 1 + Bits(0);
    }
  }

  lemma OneMore(es: seq<Event>, n: nat)
    ensures Refusals([Refused] + es, n + 1) <==> Refusals(es, n)
  {
    var all := [Refused] + es;
    assert forall i :: 0 <= i < |es| ==> all[i + 1] == es[i];
  }

  /** A request of `n` bytes, whether it ends at once or after the lock was dropped: the thread is
      given a slot that was not in use, with a good buffer. */
  lemma RequestIsServed(hdr: nat, s0: State, size: nat, run: seq<Turn>, t: nat, n: nat, v: nat, e: Event)
    requires Header(hdr) && Created(SlotSizes(hdr), s0, size) && Legal(SlotSizes(hdr), s0, run) && LevelFor(hdr, n, v)
    requires Enabled(SlotSizes(hdr), Exec(SlotSizes(hdr), s0, run), t, e)
    requires e == Alloc(v) || (e == Relock && PendingAt(Exec(SlotSizes(hdr), s0, run), t) == Some(v))
    ensures var slots, s := SlotSizes(hdr), Exec(SlotSizes(hdr), s0, run); var s' := Advance(slots, s, t, e);
      && t < |s'.threads| && (e.Relock? ==> s'.threads[t] == Idle)
      && if s'.threads[t] == Idle
         then exists x :: x !in s.live && s'.live == s.live + {x} && GoodBuffer(slots, s', x, n)
         else PendingAt(s', t) == Some(v) && s'.live == s.live
  {
    var slots, s := SlotSizes(hdr), Exec(SlotSizes(hdr), s0, run);
    CreatedInv(slots, s0, size);
    RunKeepsInv(slots, s0, run);
    var s' := Advance(slots, s, t, e);
    StepKeepsInv(slots, s, t, e);
    if e.Relock? {
      RelockServes(slots, s, t);
    } else {
      AllocationIsNew(slots, s0, size, run, t, v);
    }
    if s'.threads[t] == Idle {
      assert Serves(s, s', v);
      var x :| x !in s.live && s'.live == s.live + {x} && InUse(s'.grants, s'.live, v, x);
      LiveBufferGood(hdr, s', x, n);
    }
  }
}
