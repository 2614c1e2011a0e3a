/** Exactly when the slab allocator asks for memory and for how much, which slot it hands out, and what
becomes of a slot that is freed. */
module SlabExact {
  import opened Basics
  import opened Slab
  import opened SlabRuns

  // ---------------------------------------------------------------- How much memory is asked for

  /** Slots of the areas from position `from` of the list on. */
  ghost function SlotsFrom(grants: seq<Grant>, areas: seq<nat>, from: nat): nat
    requires from <= |areas| && forall k :: 0 <= k < |areas| ==> areas[k] < |grants|
    decreases |areas| - from
  {
    if from == |areas| then 0 else grants[areas[from]].size + SlotsFrom(grants, areas, from + 1)
  }

  /** `total` is the number of slots of all areas that were activated. */
  ghost predicate Counted(grants: seq<Grant>, l: Level) {
    Wired(grants, l) && l.total == SlotsFrom(grants, l.areas, l.active)
  }

  lemma {:induction false} SlotsBehind(grants: seq<Grant>, areas: seq<nat>, id: nat, from: nat)
    requires from <= |areas| && id < |grants| && forall k :: 0 <= k < |areas| ==> areas[k] < |grants|
    ensures SlotsFrom(grants, [id] + areas, from + 1) == SlotsFrom(grants, areas, from)
    decreases |areas| - from
  {
    if from < |areas| {
      SlotsBehind(grants, areas, id, from + 1);
    }
  }

  lemma {:induction false} SlotsKept(grants: seq<Grant>, grants': seq<Grant>, areas: seq<nat>, from: nat)
    requires from <= |areas| && grants <= grants' && forall k :: 0 <= k < |areas| ==> areas[k] < |grants|
    ensures SlotsFrom(grants', areas, from) == SlotsFrom(grants, areas, from)
    decreases |areas| - from
  {
    if from < |areas| {
      SlotsKept(grants, grants', areas, from + 1);
    }
  }

  lemma SettleCounted(grants: seq<Grant>, l: Level)
    requires Counted(grants, l)
    ensures Settle(grants, l).Some? ==> Counted(grants, Settle(grants, l).value.0)
  {
  }

  lemma AddAreaCounted(grants: seq<Grant>, l: Level, id: nat)
    requires Counted(grants, l) && id < |grants|
    ensures Counted(grants, AddArea(l, id))
  {
    SlotsBehind(grants, l.areas, id, l.active);
  }

  ghost predicate AllCounted(s: State) {
    forall v :: 0 <= v < |s.levels| ==> Counted(s.grants, s.levels[v])
  }

  lemma FinishCounted(s: State, t: nat, v: nat, l: Level)
    requires AllCounted(s) && t < |s.threads| && v < |s.levels| && Counted(s.grants, l)
    ensures AllCounted(Finish(s, t, v, l))
  {
    SettleCounted(s.grants, l);
  }

  lemma StepCounted(slots: seq<nat>, s: State, t: nat, e: Event)
    requires AllCounted(s) && Enabled(slots, s, t, e)
    ensures AllCounted(Advance(slots, s, t, e))
  {
    match e
    case Alloc(v) => FinishCounted(s, t, v, s.levels[v]);
    case Granted(base) =>
      var s' := Advance(slots, s, t, e);
      forall v | 0 <= v < |s.levels|
        ensures Counted(s'.grants, s'.levels[v])
      {
        SlotsKept(s.grants, s'.grants, s.levels[v].areas, s.levels[v].active);
      }
    case Refused =>
    case Relock =>
      var v := s.grants[s.threads[t].area].level;
      AddAreaCounted(s.grants, s.levels[v], s.threads[t].area);
      FinishCounted(s, t, v, AddArea(s.levels[v], s.threads[t].area));
    case GiveUp =>
    case Free(x) =>
  }

  lemma {:induction false} RunCounted(slots: seq<nat>, s: State, run: seq<Turn>)
    requires AllCounted(s) && Legal(slots, s, run)
    ensures AllCounted(Exec(slots, s, run))
    decreases |run|
  {
    if run != [] {
      StepCounted(slots, s, run[0].t, run[0].e);
      RunCounted(slots, Advance(slots, s, run[0].t, run[0].e), run[1..]);
    }
  }

  lemma CreatedCounted(slots: seq<nat>, s: State, size: nat)
    requires Created(slots, s, size)
    ensures AllCounted(s)
  {
    forall v | 0 <= v < |s.levels|
      ensures Counted(s.grants, s.levels[v])
    {
      assert FirstArea(s.levels[v], s.grants[v], v, size);
      assert SlotsFrom(s.grants, [v], 1) == 0;
    }
  }

  // ---------------------------------------------------------------- When memory is asked for

  /** `x` is a slot of a listed area. */
  ghost predicate IsSlot(grants: seq<Grant>, l: Level, x: Slot) {
    x.area in l.areas && x.area < |grants| && x.idx < grants[x.area].size
  }

  /** Every slot of every listed area is in use. */
  ghost predicate Full(grants: seq<Grant>, l: Level, live: set<Slot>) {
    forall x :: IsSlot(grants, l, x) ==> x in live
  }

  lemma ExhaustedIsFull(grants: seq<Grant>, l: Level, v: nat, live: set<Slot>)
    requires Tidy(grants, l, v, live) && Exhausted(grants, l) && l.active == 0
    ensures Full(grants, l, live)
  {
    forall x | IsSlot(grants, l, x)
      ensures x in live
    {
      var k :| 0 <= k < |l.areas| && l.areas[k] == x.area;
      assert At(grants, l, x, k);
      assert HandedOut(grants, l, x);
    }
  }

  /** The slot that the areas would hand out next. */
  lemma UntouchedIsFree(grants: seq<Grant>, l: Level, v: nat, live: set<Slot>, k: nat, x: Slot)
    requires Tidy(grants, l, v, live) && k <= l.active && x.area == l.areas[k] && x.idx < grants[x.area].size
    requires k == l.active ==> x.idx == l.next
    ensures IsSlot(grants, l, x) && x !in live
  {
    assert !HandedOut(grants, l, x);
  }

  lemma FullIsExhausted(grants: seq<Grant>, l: Level, v: nat, live: set<Slot>)
    requires Tidy(grants, l, v, live) && Full(grants, l, live)
    ensures Exhausted(grants, l) && l.active == 0
  {
    if l.free != [] {
      var x := l.free[0];
      assert x in l.free;
      HandedOutLevel(grants, l, v, x);
      assert IsSlot(grants, l, x);
      assert false;
    }
    if l.next != grants[l.areas[l.active]].size {
      UntouchedIsFree(grants, l, v, live, l.active, Slot(l.areas[l.active], l.next));
      assert false;
    }
    if l.active > 0 {
      UntouchedIsFree(grants, l, v, live, l.active - 1, Slot(l.areas[l.active - 1], 0));
      assert false;
    }
  }

  /** After every run, an allocation goes on to ask for memory if and only if every slot of every listed
      area of its level is in use. Then it asks for as many slots again, and changes nothing else. */
  lemma AsksExactly(slots: seq<nat>, s0: State, size: nat, run: seq<Turn>, t: nat, v: nat)
    requires Created(slots, s0, size) && Legal(slots, s0, run)
    requires Enabled(slots, Exec(slots, s0, run), t, Alloc(v))
    ensures var s := Exec(slots, s0, run); var s' := Advance(slots, s, t, Alloc(v));
      && (s'.threads[t].Asking? <==> Full(s.grants, s.levels[v], s.live))
      && (Full(s.grants, s.levels[v], s.live) ==>
            s' == s.(threads := s.threads[t := Asking(v, SlotsFrom(s.grants, s.levels[v].areas, 0))]))
  {
    var s := Exec(slots, s0, run);
    CreatedInv(slots, s0, size);
    RunKeepsInv(slots, s0, run);
    CreatedCounted(slots, s0, size);
    RunCounted(slots, s0, run);
    AllocAsks(slots, s, t, v);
  }

  lemma AllocAsks(slots: seq<nat>, s: State, t: nat, v: nat)
    requires Inv(slots, s) && AllCounted(s) && Enabled(slots, s, t, Alloc(v))
    ensures var l, s' := s.levels[v], Advance(slots, s, t, Alloc(v));
      && (s'.threads[t].Asking? <==> Full(s.grants, l, s.live))
      && (Full(s.grants, l, s.live) ==>
            s' == s.(threads := s.threads[t := Asking(v, SlotsFrom(s.grants, l.areas, 0))]))
  {
    var l := s.levels[v];
    assert Tidy(s.grants, l, v, s.live) && Counted(s.grants, l);
    if Full(s.grants, l, s.live) {
      FullIsExhausted(s.grants, l, v, s.live);
      assert s.levels[v := l] == s.levels;
    } else if Exhausted(s.grants, l) && l.active == 0 {
      ExhaustedIsFull(s.grants, l, v, s.live);
      assert false;
    }
  }

  // ---------------------------------------------------------------- Which slot is handed out

  /** One slot of level `v` goes from the manager to a user: the first of the free list, or if that is
      empty an untouched one with none of its area in front of it. Nothing else changes. */
  ghost predicate HandsOut(s: State, s': State, v: nat, x: Slot)
    requires v < |s.levels|
  {
    && s'.live == s.live + {x} && x !in s.live && s'.grants == s.grants && s'.mgr == s.mgr
    && |s'.levels| == |s.levels| && (forall w :: 0 <= w < |s.levels| && w != v ==> s'.levels[w] == s.levels[w])
    && s'.levels[v].areas == s.levels[v].areas
    && var l := s.levels[v];
    if l.free != [] then x == l.free[0] && s'.levels[v] == l.(free := l.free[1..])
    else s'.levels[v].free == [] && NotYet(l, x) && forall i :: 0 <= i < x.idx ==> !NotYet(l, Slot(x.area, i))
  }

  lemma NotYetAt(grants: seq<Grant>, l: Level, v: nat, k: nat, x: Slot)
    requires Sane(grants, l, v) && k < |l.areas| && l.areas[k] == x.area
    ensures NotYet(l, x) <==> k < l.active || (k == l.active && x.idx >= l.next)
  {
  }

  lemma SettleHandsOut(grants: seq<Grant>, l: Level, v: nat, live: set<Slot>)
    requires Tidy(grants, l, v, live) && Settle(grants, l).Some?
    ensures var (l', x) := Settle(grants, l).value;
      && l'.areas == l.areas
      && if l.free != [] then x == l.free[0] && l' == l.(free := l.free[1..])
         else l'.free == [] && NotYet(l, x) && forall i :: 0 <= i < x.idx ==> !NotYet(l, Slot(x.area, i))
  {
    var (l', x) := Settle(grants, l).value;
    if l.free == [] {
      var k := if Exhausted(grants, l) then l.active - 1 else l.active;
      assert l.areas[k] == x.area;
      NotYetAt(grants, l, v, k, x);
      forall i | 0 <= i < x.idx
        ensures !NotYet(l, Slot(x.area, i))
      {
        NotYetAt(grants, l, v, k, Slot(x.area, i));
      }
    }
  }

  /** After every run, an allocation that does not ask for memory hands out just that slot. */
  lemma AllocHandsOut(slots: seq<nat>, s0: State, size: nat, run: seq<Turn>, t: nat, v: nat)
    requires Created(slots, s0, size) && Legal(slots, s0, run)
    requires Enabled(slots, Exec(slots, s0, run), t, Alloc(v))
    requires !Full(Exec(slots, s0, run).grants, Exec(slots, s0, run).levels[v], Exec(slots, s0, run).live)
    ensures var s := Exec(slots, s0, run); var s' := Advance(slots, s, t, Alloc(v));
      s'.threads == s.threads && exists x :: HandsOut(s, s', v, x)
  {
    var s := Exec(slots, s0, run);
    CreatedInv(slots, s0, size);
    RunKeepsInv(slots, s0, run);
    CreatedCounted(slots, s0, size);
    RunCounted(slots, s0, run);
    AllocAsks(slots, s, t, v);
    FinishHandsOut(slots, s, t, v);
    assert s.threads[t := Idle] == s.threads;
  }

  lemma FinishHandsOut(slots: seq<nat>, s: State, t: nat, v: nat)
    requires Inv(slots, s) && t < |s.threads| && v < |s.levels| && Wired(s.grants, s.levels[v])
    requires Settle(s.grants, s.levels[v]).Some?
    ensures var s' := Finish(s, t, v, s.levels[v]);
      s'.threads == s.threads[t := Idle] && exists x :: HandsOut(s, s', v, x)
  {
    var l := s.levels[v];
    assert Tidy(s.grants, l, v, s.live);
    SettleTidy(s.grants, l, v, s.live);
    SettleHandsOut(s.grants, l, v, s.live);
    var x := Settle(s.grants, l).value.1;
    assert HandsOut(s, Finish(s, t, v, l), v, x);
  }

  // ---------------------------------------------------------------- Freeing

  /** After every run, a free gives back exactly its slot: it is no longer in use and comes last in the
      free list of its level. Nothing else changes. */
  lemma FreeReturns(slots: seq<nat>, s0: State, size: nat, run: seq<Turn>, t: nat, x: Slot)
    requires Created(slots, s0, size) && Legal(slots, s0, run)
    requires Enabled(slots, Exec(slots, s0, run), t, Free(x))
    ensures var s := Exec(slots, s0, run); var s' := Advance(slots, s, t, Free(x));
      && s'.live == s.live - {x} && x in s.live && s'.threads == s.threads && s'.grants == s.grants && s'.mgr == s.mgr
      && |s'.levels| == |s.levels| && s.grants[x.area].level < |s.levels|
      && var v := s.grants[x.area].level;
      && s'.levels[v] == s.levels[v].(free := s.levels[v].free + [x]) && x !in s.levels[v].free
      && forall w :: 0 <= w < |s.levels| && w != v ==> s'.levels[w] == s.levels[w]
  {
    var s := Exec(slots, s0, run);
    CreatedInv(slots, s0, size);
    RunKeepsInv(slots, s0, run);
    var v := s.grants[x.area].level;
    assert Tidy(s.grants, s.levels[v], v, s.live);
  }

  /** What a step does to a free list with something in it: a slot is added at its end, or its first is
      handed out, or nothing. */
  datatype Change = Added(x: Slot) | Taken | Same

  ghost predicate Changes(f: seq<Slot>, f': seq<Slot>, live': set<Slot>, c: Change)
    requires f != []
  {
    match c
    case Added(x) => f' == f + [x] && x !in live'
    case Taken => f' == f[1..] && f[0] in live'
    case Same => f' == f
  }

  /** The level at which a step ends an allocation. */
  ghost function ServedAt(s: State, t: nat, e: Event): Option<nat> {
    if e.Alloc? then Some(e.level) else if e.Relock? then PendingAt(s, t) else None
  }

  lemma SettleTakesFirst(grants: seq<Grant>, l: Level)
    requires Wired(grants, l) && l.free != []
    ensures Settle(grants, l) == Some((l.(free := l.free[1..]), l.free[0]))
  {
  }

  lemma FinishTakesFirst(s: State, t: nat, w: nat, l: Level, v: nat)
    requires t < |s.threads| && w < |s.levels| && v < |s.levels| && Wired(s.grants, l)
    requires s.levels[v].free != [] && l.free == s.levels[w].free
    ensures var s', f := Finish(s, t, w, l), s.levels[v].free;
      |s'.levels| == |s.levels| && Changes(f, s'.levels[v].free, s'.live, if w == v then Taken else Same)
  {
    if w == v {
      SettleTakesFirst(s.grants, l);
    }
  }

  lemma QueueStep(slots: seq<nat>, s: State, t: nat, e: Event, v: nat) returns (c: Change)
    requires Enabled(slots, s, t, e) && v < |s.levels| && s.levels[v].free != []
    ensures |Advance(slots, s, t, e).levels| == |s.levels|
    ensures var s' := Advance(slots, s, t, e); Changes(s.levels[v].free, s'.levels[v].free, s'.live, c)
    ensures c.Taken? <==> ServedAt(s, t, e) == Some(v)
    ensures c.Added? ==> e == Free(c.x)
  {
    c := Same;
    match e
    case Free(x) =>
      if s.grants[x.area].level == v {
        c := Added(x);
      }
    case Alloc(w) =>
      FinishTakesFirst(s, t, w, s.levels[w], v);
      c := if w == v then Taken else Same;
    case Relock =>
      var w := s.grants[s.threads[t].area].level;
      FinishTakesFirst(s, t, w, AddArea(s.levels[w], s.threads[t].area), v);
      c := if w == v then Taken else Same;
    case _ =>
  }

  /** How many allocations at level `v` end in a run. */
  ghost function Served(slots: seq<nat>, s: State, run: seq<Turn>, v: nat): nat
    requires Legal(slots, s, run)
    decreases |run|
  {
    if run == [] then 0
    else (if ServedAt(s, run[0].t, run[0].e) == Some(v) then 1 else 0)
         + Served(slots, Advance(slots, s, run[0].t, run[0].e), run[1..], v)
  }

  /** `x` is at position `i` of the free list of level `v`. */
  ghost predicate Queued(s: State, v: nat, i: int, x: Slot) {
    v < |s.levels| && 0 <= i < |s.levels[v].free| && s.levels[v].free[i] == x
  }

  lemma MovesUp(slots: seq<nat>, s: State, t: nat, e: Event, v: nat, i: nat, x: Slot)
    requires Enabled(slots, s, t, e) && Queued(s, v, i, x)
    requires ServedAt(s, t, e) == Some(v) ==> i > 0
    ensures Queued(Advance(slots, s, t, e), v, if ServedAt(s, t, e) == Some(v) then i - 1 else i, x)
  {
    var c := QueueStep(slots, s, t, e, v);
  }

  /** The first turn of a run. */
  lemma QueueTurn(slots: seq<nat>, s: State, run: seq<Turn>, v: nat, i: nat, x: Slot, j: nat)
      returns (s': State, i': nat)
    requires Legal(slots, s, run) && run != [] && Queued(s, v, i, x) && j == i - Served(slots, s, run, v)
    ensures Legal(slots, s', run[1..]) && Queued(s', v, i', x) && Exec(slots, s, run) == Exec(slots, s', run[1..])
    ensures j == i' - Served(slots, s', run[1..], v)
  {
    var t, e := run[0].t, run[0].e;
    MovesUp(slots, s, t, e, v, i, x);
    s', i' := Advance(slots, s, t, e), if ServedAt(s, t, e) == Some(v) then i - 1 else i;
  }

  /** The free list is a queue, whatever threads do: a slot in it moves up by one with each allocation
      that ends at its level, and with nothing else. */
  lemma {:induction false} FreeListIsQueue(slots: seq<nat>, s: State, run: seq<Turn>, v: nat, i: nat, x: Slot, j: nat)
    requires Legal(slots, s, run) && Queued(s, v, i, x) && j == i - Served(slots, s, run, v)
    ensures Queued(Exec(slots, s, run), v, j, x)
    decreases |run|
  {
    if run != [] {
      var s', i' := QueueTurn(slots, s, run, v, i, x, j);
      FreeListIsQueue(slots, s', run[1..], v, i', x, j);
    }
  }

  /** A slot that is freed is handed out again: by the allocation at its level that comes after as many
      others as there were slots in the free list. */
  lemma FreedIsServedAgain(slots: seq<nat>, s0: State, size: nat, run: seq<Turn>, t: nat, x: Slot, more: seq<Turn>,
                           u: nat, e: Event)
    requires Created(slots, s0, size) && Legal(slots, s0, run)
    requires Enabled(slots, Exec(slots, s0, run), t, Free(x))
    requires var s := Advance(slots, Exec(slots, s0, run), t, Free(x));
      && x.area < |s.grants| && s.grants[x.area].level < |s.levels|
      && var v := s.grants[x.area].level;
      && Legal(slots, s, more) && Served(slots, s, more, v) == |s.levels[v].free| - 1
      && Enabled(slots, Exec(slots, s, more), u, e) && ServedAt(Exec(slots, s, more), u, e) == Some(v)
    ensures var s := Exec(slots, Advance(slots, Exec(slots, s0, run), t, Free(x)), more);
      x in Advance(slots, s, u, e).live
  {
    var s1 := AfterFree(slots, s0, size, run, t, x);
    var v := s1.grants[x.area].level;
    FreeListIsQueue(slots, s1, more, v, |s1.levels[v].free| - 1, x, 0);
    var c := QueueStep(slots, Exec(slots, s1, more), u, e, v);
  }

  lemma AfterFree(slots: seq<nat>, s0: State, size: nat, run: seq<Turn>, t: nat, x: Slot) returns (s: State)
    requires Created(slots, s0, size) && Legal(slots, s0, run)
    requires Enabled(slots, Exec(slots, s0, run), t, Free(x))
    ensures s == Advance(slots, Exec(slots, s0, run), t, Free(x))
    ensures x.area < |s.grants| && s.grants[x.area].level < |s.levels|
    ensures var v := s.grants[x.area].level; Queued(s, v, |s.levels[v].free| - 1, x)
  {
    FreeReturns(slots, s0, size, run, t, x);
    s := Advance(slots, Exec(slots, s0, run), t, Free(x));
  }
}
