/** The slab allocator, with many threads allocating and freeing, and growth that drops the lock
around `system_malloc`.

A critical section of the lock is one step. Areas are named by the number of the grant of system
memory they live in, and slots by their area and position in it. */
module Slab {
  import opened Basics

  /** A slot of an area. */
  datatype Slot = Slot(area: nat, idx: nat)

  /** Memory obtained from the system for `size` slots of a level. */
  datatype Grant = Grant(base: nat, size: nat, level: nat)

  /** What the manager keeps for a level: areas with the newest first, the one handed out from, how
      many of its slots were handed out, the free list, and the size of all areas activated. */
  datatype Level = Level(areas: seq<nat>, active: nat, next: nat, free: seq<Slot>, total: nat)

  /** Where a thread is: outside, in `system_malloc` for some number of slots, or back from it and
      waiting for the lock, with an area or without. */
  datatype PC = Idle | Asking(level: nat, size: nat) | Got(area: nat) | Failed

  /** The manager at address `mgr`, what the system granted, the slots in use, and the threads. */
  datatype State = State(mgr: nat, levels: seq<Level>, grants: seq<Grant>, live: set<Slot>, threads: seq<PC>)

  // ---------------------------------------------------------------- One level

  /** The active area exists. */
  predicate Wired(grants: seq<Grant>, l: Level) {
    l.active < |l.areas| && forall k :: 0 <= k < |l.areas| ==> l.areas[k] < |grants|
  }

  /** All slots of the active area were handed out, and none came back. */
  predicate Exhausted(grants: seq<Grant>, l: Level)
    requires Wired(grants, l)
  {
    l.next == grants[l.areas[l.active]].size && l.free == []
  }

  /** Takes a slot: the first of the free list if it has any, else the next of the active area. */
  function Serve(l: Level): (Level, Slot)
    requires l.active < |l.areas|
  {
    if l.free != [] then (l.(free := l.free[1..]), l.free[0])
    else (l.(next := l.next + 1), Slot(l.areas[l.active], l.next))
  }

  /** Starts handing out from the area in front of the active one. */
  function Activate(grants: seq<Grant>, l: Level): Level
    requires Wired(grants, l) && l.active > 0
  {
    l.(active := l.active - 1, next := 0, total := l.total + grants[l.areas[l.active - 1]].size)
  }

  /** A new area goes to the front of the list. */
  function AddArea(l: Level, id: nat): Level {
    l.(areas := [id] + l.areas, active := l.active + 1)
  }

  /** What an allocation does while it holds the lock: hand out a slot, or find that more memory is
      needed. */
  function Settle(grants: seq<Grant>, l: Level): Option<(Level, Slot)>
    requires Wired(grants, l)
  {
    if !Exhausted(grants, l) then Some(Serve(l))
    else if l.active > 0 then Some(Serve(Activate(grants, l)))
    else None
  }

  // ---------------------------------------------------------------- Invariant of a level

  /** Slot `x` lies in an area behind the active one, or in the part of the active one that was
      handed out. */
  ghost predicate HandedOut(grants: seq<Grant>, l: Level, x: Slot) {
    exists k :: 0 <= k < |l.areas| && At(grants, l, x, k)
  }

  ghost predicate At(grants: seq<Grant>, l: Level, x: Slot, k: nat)
    requires k < |l.areas|
  {
    l.areas[k] == x.area && x.area < |grants| &&
    if k > l.active then x.idx < grants[x.area].size else k == l.active && x.idx < l.next
  }

  ghost predicate Sane(grants: seq<Grant>, l: Level, v: nat) {
    && Wired(grants, l) && l.total > 0 && l.next <= grants[l.areas[l.active]].size
    && (forall k :: 0 <= k < |l.areas| ==> grants[l.areas[k]].level == v && grants[l.areas[k]].size > 0)
    && (forall i, j :: 0 <= i < j < |l.areas| ==> l.areas[i] != l.areas[j])
  }

  /** A slot of this level that is in use. */
  ghost predicate InUse(grants: seq<Grant>, live: set<Slot>, v: nat, x: Slot) {
    x in live && x.area < |grants| && grants[x.area].level == v
  }

  /** Slots handed out are either free or in use, and not both. */
  ghost predicate Tidy(grants: seq<Grant>, l: Level, v: nat, live: set<Slot>) {
    && Sane(grants, l, v) && Distinct(l.free)
    && (forall x :: x in l.free ==> HandedOut(grants, l, x) && x !in live)
    && (forall x :: InUse(grants, live, v, x) ==> HandedOut(grants, l, x))
    && (forall x :: HandedOut(grants, l, x) ==> x in l.free || x in live)
  }

  lemma HandedOutLevel(grants: seq<Grant>, l: Level, v: nat, x: Slot)
    requires Sane(grants, l, v) && HandedOut(grants, l, x)
    ensures x.area < |grants| && grants[x.area].level == v && x.idx < grants[x.area].size && x.area in l.areas
  {
    var k: nat :| k < |l.areas| && At(grants, l, x, k);
  }

  lemma BumpHandsOut(grants: seq<Grant>, l: Level, v: nat, x: Slot)
    requires Sane(grants, l, v) && l.next < grants[l.areas[l.active]].size
    ensures var l' := l.(next := l.next + 1); var taken := Slot(l.areas[l.active], l.next);
      && Sane(grants, l', v) && !HandedOut(grants, l, taken)
      && (HandedOut(grants, l', x) <==> HandedOut(grants, l, x) || x == taken)
  {
    var l', taken := l.(next := l.next + 1), Slot(l.areas[l.active], l.next);
    if HandedOut(grants, l', x) {
      var k: nat :| k < |l'.areas| && At(grants, l', x, k);
      assert x != taken ==> At(grants, l, x, k);
    }
    if HandedOut(grants, l, x) {
      var k: nat :| k < |l.areas| && At(grants, l, x, k);
      assert At(grants, l', x, k);
    }
    assert At(grants, l', taken, l.active);
  }

  lemma ActivateHandsOut(grants: seq<Grant>, l: Level, v: nat, x: Slot)
    requires Sane(grants, l, v) && Exhausted(grants, l) && l.active > 0
    ensures Sane(grants, Activate(grants, l), v)
    ensures HandedOut(grants, Activate(grants, l), x) <==> HandedOut(grants, l, x)
  {
    var l' := Activate(grants, l);
    if HandedOut(grants, l', x) {
      var k: nat :| k < |l'.areas| && At(grants, l', x, k);
      assert At(grants, l, x, k);
    }
    if HandedOut(grants, l, x) {
      var k: nat :| k < |l.areas| && At(grants, l, x, k);
      assert At(grants, l', x, k);
    }
  }

  lemma AddAreaHandsOut(grants: seq<Grant>, l: Level, v: nat, id: nat, x: Slot)
    requires Sane(grants, l, v) && id < |grants| && grants[id].level == v && grants[id].size > 0 && id !in l.areas
    ensures Sane(grants, AddArea(l, id), v)
    ensures HandedOut(grants, AddArea(l, id), x) <==> HandedOut(grants, l, x)
  {
    var l' := AddArea(l, id);
    if HandedOut(grants, l', x) {
      var k: nat :| k < |l'.areas| && At(grants, l', x, k);
      assert k > 0 && l'.areas[k] == l.areas[k - 1];
      assert At(grants, l, x, k - 1);
    }
    if HandedOut(grants, l, x) {
      var k: nat :| k < |l.areas| && At(grants, l, x, k);
      assert l'.areas[k + 1] == l.areas[k];
      assert At(grants, l', x, k + 1);
    }
  }

  lemma FreeListApart(grants: seq<Grant>, l: Level, free: seq<Slot>, x: Slot)
    ensures HandedOut(grants, l.(free := free), x) <==> HandedOut(grants, l, x)
  {
    var l' := l.(free := free);
    if HandedOut(grants, l', x) {
      var k: nat :| k < |l'.areas| && At(grants, l', x, k);
      assert At(grants, l, x, k);
    }
    if HandedOut(grants, l, x) {
      var k: nat :| k < |l.areas| && At(grants, l, x, k);
      assert At(grants, l', x, k);
    }
  }

  lemma ReuseTidy(grants: seq<Grant>, l: Level, v: nat, live: set<Slot>)
    requires Tidy(grants, l, v, live) && l.free != []
    ensures Tidy(grants, l.(free := l.free[1..]), v, live + {l.free[0]}) && l.free[0] !in live
  {
    forall x
      ensures HandedOut(grants, l.(free := l.free[1..]), x) <==> HandedOut(grants, l, x)
    {
      FreeListApart(grants, l, l.free[1..], x);
    }
    assert l.free == [l.free[0]] + l.free[1..];
    assert l.free[0] in l.free;
  }

  lemma BumpTidy(grants: seq<Grant>, l: Level, v: nat, live: set<Slot>)
    requires Tidy(grants, l, v, live) && l.next < grants[l.areas[l.active]].size
    ensures var x := Slot(l.areas[l.active], l.next); Tidy(grants, l.(next := l.next + 1), v, live + {x}) && x !in live
  {
    var l', taken := l.(next := l.next + 1), Slot(l.areas[l.active], l.next);
    forall x
      ensures HandedOut(grants, l', x) <==> HandedOut(grants, l, x) || x == taken
    {
      BumpHandsOut(grants, l, v, x);
    }
    BumpHandsOut(grants, l, v, taken);
    assert InUse(grants, live, v, taken) ==> HandedOut(grants, l, taken);
  }

  /** Slots taken are new to their user. */
  lemma ServeTidy(grants: seq<Grant>, l: Level, v: nat, live: set<Slot>)
    requires Tidy(grants, l, v, live) && !Exhausted(grants, l)
    ensures var (l', x) := Serve(l);
      && Tidy(grants, l', v, live + {x}) && x !in live && x.area < |grants| && grants[x.area].level == v
      && x.idx < grants[x.area].size
  {
    var (l', taken) := Serve(l);
    if l.free != [] {
      ReuseTidy(grants, l, v, live);
      assert taken in l.free;
      HandedOutLevel(grants, l, v, taken);
    } else {
      BumpTidy(grants, l, v, live);
    }
  }

  lemma ActivateTidy(grants: seq<Grant>, l: Level, v: nat, live: set<Slot>)
    requires Tidy(grants, l, v, live) && Exhausted(grants, l) && l.active > 0
    ensures Tidy(grants, Activate(grants, l), v, live) && !Exhausted(grants, Activate(grants, l))
  {
    forall x
      ensures HandedOut(grants, Activate(grants, l), x) <==> HandedOut(grants, l, x)
    {
      ActivateHandsOut(grants, l, v, x);
    }
    ActivateHandsOut(grants, l, v, Slot(0, 0));
  }

  lemma SettleTidy(grants: seq<Grant>, l: Level, v: nat, live: set<Slot>)
    requires Tidy(grants, l, v, live)
    ensures var r := Settle(grants, l);
      r.Some? ==> var (l', x) := r.value;
        && Tidy(grants, l', v, live + {x}) && x !in live && x.area < |grants| && grants[x.area].level == v
        && x.idx < grants[x.area].size
  {
    if !Exhausted(grants, l) {
      ServeTidy(grants, l, v, live);
    } else if l.active > 0 {
      ActivateTidy(grants, l, v, live);
      ServeTidy(grants, Activate(grants, l), v, live);
    }
  }

  lemma AddAreaTidy(grants: seq<Grant>, l: Level, v: nat, live: set<Slot>, id: nat)
    requires Tidy(grants, l, v, live)
    requires id < |grants| && grants[id].level == v && grants[id].size > 0 && id !in l.areas
    ensures Tidy(grants, AddArea(l, id), v, live)
  {
    forall x
      ensures HandedOut(grants, AddArea(l, id), x) <==> HandedOut(grants, l, x)
    {
      AddAreaHandsOut(grants, l, v, id, x);
    }
    AddAreaHandsOut(grants, l, v, id, Slot(0, 0));
  }

  lemma FreeTidy(grants: seq<Grant>, l: Level, v: nat, live: set<Slot>, x: Slot)
    requires Tidy(grants, l, v, live) && InUse(grants, live, v, x)
    ensures Tidy(grants, l.(free := l.free + [x]), v, live - {x})
  {
    forall y
      ensures HandedOut(grants, l.(free := l.free + [x]), y) <==> HandedOut(grants, l, y)
    {
      FreeListApart(grants, l, l.free + [x], y);
    }
    assert x !in l.free;
  }

  /** Changes at other levels, and new grants, do not matter. */
  lemma OtherTidy(grants: seq<Grant>, grants': seq<Grant>, l: Level, v: nat, live: set<Slot>, live': set<Slot>)
    requires Tidy(grants, l, v, live) && grants <= grants'
    requires forall x :: x in live + live' ==> x.area < |grants|
    requires forall x :: x in live + live' && grants[x.area].level == v ==> (x in live <==> x in live')
    ensures Tidy(grants', l, v, live')
  {
    forall x
      ensures HandedOut(grants', l, x) <==> HandedOut(grants, l, x)
    {
      if HandedOut(grants', l, x) {
        var k: nat :| k < |l.areas| && At(grants', l, x, k);
        assert At(grants, l, x, k);
      }
      if HandedOut(grants, l, x) {
        var k: nat :| k < |l.areas| && At(grants, l, x, k);
        assert At(grants', l, x, k);
      }
    }
    forall x | HandedOut(grants, l, x)
      ensures x.area < |grants| && grants[x.area].level == v
    {
      HandedOutLevel(grants, l, v, x);
    }
  }

  // ---------------------------------------------------------------- Steps

  /** What a thread does next: start an allocation, hear back from `system_malloc`, take the lock
      again, or free a slot it uses. */
  datatype Event = Alloc(level: nat) | Granted(base: nat) | Refused | Relock | GiveUp | Free(x: Slot)

  /** Size of the header of an area. */
  const AREA_HEADER := 32

  /** Size of the manager itself, which sits in front of the first areas. */
  const MANAGER := 480

  /** `n` times `slot`, by addition. */
  function Times(n: nat, slot: nat): nat {
    if n == 0 then 0 else Times(n - 1, slot) + slot
  }

  function Bytes(slots: seq<nat>, g: Grant): nat
    requires g.level < |slots|
  {
    AREA_HEADER + Times(g.size, slots[g.level])
  }

  /** Memory of a grant, for slots of the given sizes per level. */
  ghost predicate Apart(slots: seq<nat>, g: Grant, h: Grant)
    requires g.level < |slots| && h.level < |slots|
  {
    g.base + Bytes(slots, g) <= h.base || h.base + Bytes(slots, h) <= g.base
  }

  /** Memory of a grant is not the manager's. */
  ghost predicate OffManager(slots: seq<nat>, mgr: nat, g: Grant)
    requires g.level < |slots|
  {
    g.base + Bytes(slots, g) <= mgr || mgr + MANAGER <= g.base
  }

  /** The system grants aligned memory that overlaps neither the manager nor another grant. */
  ghost predicate Grantable(slots: seq<nat>, s: State, g: Grant) {
    && g.level < |slots| && g.base % 16 == 0 && OffManager(slots, s.mgr, g)
    && forall i :: 0 <= i < |s.grants| ==> s.grants[i].level < |slots| && Apart(slots, s.grants[i], g)
  }

  ghost predicate Enabled(slots: seq<nat>, s: State, t: nat, e: Event) {
    t < |s.threads| &&
    match e
    case Alloc(v) => s.threads[t].Idle? && v < |s.levels| && Wired(s.grants, s.levels[v])
    case Granted(base) =>
      s.threads[t].Asking? && Grantable(slots, s, Grant(base, s.threads[t].size, s.threads[t].level))
    case Refused => s.threads[t].Asking?
    case Relock => s.threads[t].Got? && s.threads[t].area < |s.grants| && s.grants[s.threads[t].area].level < |s.levels|
      && Wired(s.grants, AddArea(s.levels[s.grants[s.threads[t].area].level], s.threads[t].area))
    case GiveUp => s.threads[t].Failed?
    case Free(x) => s.threads[t].Idle? && x in s.live && x.area < |s.grants| && s.grants[x.area].level < |s.levels|
  }

  /** The rest of an allocation at level `v`, which now looks like `l`. */
  function Finish(s: State, t: nat, v: nat, l: Level): State
    requires t < |s.threads| && v < |s.levels| && Wired(s.grants, l)
  {
    match Settle(s.grants, l)
    case None => s.(levels := s.levels[v := l], threads := s.threads[t := Asking(v, l.total)])
    case Some((l', x)) => s.(levels := s.levels[v := l'], live := s.live + {x}, threads := s.threads[t := Idle])
  }

  ghost function Advance(slots: seq<nat>, s: State, t: nat, e: Event): State
    requires Enabled(slots, s, t, e)
  {
    match e
    case Alloc(v) => Finish(s, t, v, s.levels[v])
    case Granted(base) =>
      var pc := s.threads[t];
      s.(grants := s.grants + [Grant(base, pc.size, pc.level)], threads := s.threads[t := Got(|s.grants|)])
    case Refused =>
      var pc := s.threads[t];
      s.(threads := s.threads[t := if pc.size / 2 > 0 then pc.(size := pc.size / 2) else Failed])
    case Relock =>
      var id := s.threads[t].area;
      var v := s.grants[id].level;
      Finish(s, t, v, AddArea(s.levels[v], id))
    case GiveUp => s.(threads := s.threads[t := Idle])
    case Free(x) =>
      var v := s.grants[x.area].level;
      s.(levels := s.levels[v := s.levels[v].(free := s.levels[v].free + [x])], live := s.live - {x})
  }

  // ---------------------------------------------------------------- Invariant

  ghost predicate GrantOk(slots: seq<nat>, mgr: nat, g: Grant) {
    g.level < |slots| && g.base % 16 == 0 && OffManager(slots, mgr, g)
  }

  ghost predicate Allotted(slots: seq<nat>, s: State) {
    && |slots| == |s.levels|
    && (forall i :: 0 <= i < |s.grants| ==> GrantOk(slots, s.mgr, s.grants[i]))
    && (forall i, j :: 0 <= i < j < |s.grants| ==> Apart(slots, s.grants[i], s.grants[j]))
  }

  /** A thread asks for at least one slot, and what it got is not listed yet. */
  ghost predicate ThreadOk(s: State, pc: PC) {
    && (pc.Asking? ==> pc.level < |s.levels| && pc.size > 0)
    && (pc.Got? ==>
          && pc.area < |s.grants| && s.grants[pc.area].size > 0 && s.grants[pc.area].level < |s.levels|
          && pc.area !in s.levels[s.grants[pc.area].level].areas)
  }

  /** An area is in the list of its level, or a thread is about to put it there. */
  ghost predicate Kept(s: State, id: nat)
    requires id < |s.grants| && s.grants[id].level < |s.levels|
  {
    id in s.levels[s.grants[id].level].areas || exists t :: 0 <= t < |s.threads| && s.threads[t] == Got(id)
  }

  ghost predicate Inv(slots: seq<nat>, s: State) {
    && Allotted(slots, s)
    && (forall v :: 0 <= v < |s.levels| ==> Tidy(s.grants, s.levels[v], v, s.live))
    && (forall x :: x in s.live ==> x.area < |s.grants|)
    && (forall t :: 0 <= t < |s.threads| ==> ThreadOk(s, s.threads[t]))
    && (forall t, u :: 0 <= t < u < |s.threads| && s.threads[t].Got? ==> s.threads[u] != s.threads[t])
    && (forall id :: 0 <= id < |s.grants| ==> Kept(s, id))
  }

  // ---------------------------------------------------------------- Preservation

  lemma SettleAreas(grants: seq<Grant>, l: Level)
    requires Wired(grants, l)
    ensures Settle(grants, l).Some? ==> Settle(grants, l).value.0.areas == l.areas
  {
  }

  /** Thread `t` moves on, keeping nothing it got. */
  lemma MovesOn(slots: seq<nat>, s: State, t: nat, pc: PC)
    requires Inv(slots, s) && t < |s.threads| && !s.threads[t].Got? && !pc.Got? && ThreadOk(s, pc)
    ensures Inv(slots, s.(threads := s.threads[t := pc]))
  {
    var s' := s.(threads := s.threads[t := pc]);
    forall id | 0 <= id < |s.grants|
      ensures Kept(s', id)
    {
      assert Kept(s, id);
      if id !in s.levels[s.grants[id].level].areas {
        var u :| 0 <= u < |s.threads| && s.threads[u] == Got(id);
        assert s'.threads[u] == Got(id);
      }
    }
    forall u | 0 <= u < |s'.threads|
      ensures ThreadOk(s', s'.threads[u])
    {
      assert ThreadOk(s, s.threads[u]);
    }
  }

  /** Level `v` changes without a change to its areas, and so do the slots in use. */
  lemma LevelChanges(slots: seq<nat>, s: State, v: nat, l: Level, live: set<Slot>)
    requires Inv(slots, s) && v < |s.levels| && l.areas == s.levels[v].areas && Tidy(s.grants, l, v, live)
    requires forall x :: x in live ==> x.area < |s.grants|
    requires forall x :: x in s.live + live && s.grants[x.area].level != v ==> (x in s.live <==> x in live)
    ensures Inv(slots, s.(levels := s.levels[v := l], live := live))
  {
    var s' := s.(levels := s.levels[v := l], live := live);
    forall w | 0 <= w < |s.levels| && w != v
      ensures Tidy(s.grants, s.levels[w], w, live)
    {
      OtherTidy(s.grants, s.grants, s.levels[w], w, s.live, live);
    }
    forall id | 0 <= id < |s.grants|
      ensures Kept(s', id)
    {
      assert Kept(s, id);
    }
    forall u | 0 <= u < |s'.threads|
      ensures ThreadOk(s', s'.threads[u])
    {
      assert ThreadOk(s, s.threads[u]);
    }
  }

  lemma AllocInv(slots: seq<nat>, s: State, t: nat, v: nat)
    requires Inv(slots, s) && t < |s.threads| && s.threads[t].Idle? && v < |s.levels|
    ensures Wired(s.grants, s.levels[v]) && Inv(slots, Finish(s, t, v, s.levels[v]))
  {
    var l := s.levels[v];
    SettleTidy(s.grants, l, v, s.live);
    SettleAreas(s.grants, l);
    match Settle(s.grants, l)
    case None =>
      MovesOn(slots, s, t, Asking(v, l.total));
      assert s.levels[v := l] == s.levels;
    case Some((l', x)) =>
      LevelChanges(slots, s, v, l', s.live + {x});
      assert s.threads[t := Idle] == s.threads;
  }

  lemma GrantedInv(slots: seq<nat>, s: State, t: nat, base: nat)
    requires Inv(slots, s) && Enabled(slots, s, t, Granted(base))
    ensures Inv(slots, Advance(slots, s, t, Granted(base)))
  {
    var s' := Advance(slots, s, t, Granted(base));
    assert ThreadOk(s, s.threads[t]);
    forall w | 0 <= w < |s.levels|
      ensures Tidy(s'.grants, s.levels[w], w, s.live)
    {
      OtherTidy(s.grants, s'.grants, s.levels[w], w, s.live, s.live);
    }
    forall id | 0 <= id < |s'.grants|
      ensures Kept(s', id)
    {
      if id < |s.grants| {
        assert Kept(s, id);
        if id !in s.levels[s.grants[id].level].areas {
          var u :| 0 <= u < |s.threads| && s.threads[u] == Got(id);
          assert s'.threads[u] == Got(id);
        }
      } else {
        assert s'.threads[t] == Got(id);
      }
    }
    forall u | 0 <= u < |s'.threads|
      ensures ThreadOk(s', s'.threads[u])
    {
      assert ThreadOk(s, s.threads[u]);
    }
  }

  /** The state after a thread has put the area it got at the front of the list. */
  function Listed(s: State, t: nat): State
    requires t < |s.threads| && s.threads[t].Got?
    requires s.threads[t].area < |s.grants| && s.grants[s.threads[t].area].level < |s.levels|
  {
    var id := s.threads[t].area;
    var v := s.grants[id].level;
    s.(levels := s.levels[v := AddArea(s.levels[v], id)], threads := s.threads[t := Idle])
  }

  lemma ListedInv(slots: seq<nat>, s: State, t: nat)
    requires Inv(slots, s) && t < |s.threads| && s.threads[t].Got? && ThreadOk(s, s.threads[t])
    ensures Inv(slots, Listed(s, t))
  {
    var s' := Listed(s, t);
    var id := s.threads[t].area;
    var v := s.grants[id].level;
    AddAreaTidy(s.grants, s.levels[v], v, s.live, id);
    forall i | 0 <= i < |s.grants|
      ensures Kept(s', i)
    {
      assert Kept(s, i);
      if i in s.levels[s.grants[i].level].areas {
        assert i in s'.levels[s.grants[i].level].areas;
      } else if i != id {
        var u :| 0 <= u < |s.threads| && s.threads[u] == Got(i);
        assert s'.threads[u] == Got(i);
      } else {
        assert s'.levels[v].areas[0] == id;
      }
    }
    forall u | 0 <= u < |s'.threads|
      ensures ThreadOk(s', s'.threads[u])
    {
      assert ThreadOk(s, s.threads[u]);
      if u != t && s.threads[u].Got? {
        assert s.threads[u] != s.threads[t];
      }
    }
  }

  lemma FreeInv(slots: seq<nat>, s: State, t: nat, x: Slot)
    requires Inv(slots, s) && Enabled(slots, s, t, Free(x))
    ensures Inv(slots, Advance(slots, s, t, Free(x)))
  {
    var v := s.grants[x.area].level;
    FreeTidy(s.grants, s.levels[v], v, s.live, x);
    LevelChanges(slots, s, v, s.levels[v].(free := s.levels[v].free + [x]), s.live - {x});
  }

  lemma StepKeepsInv(slots: seq<nat>, s: State, t: nat, e: Event)
    requires Inv(slots, s) && Enabled(slots, s, t, e)
    ensures Inv(slots, Advance(slots, s, t, e))
  {
    assert ThreadOk(s, s.threads[t]);
    match e
    case Alloc(v) => AllocInv(slots, s, t, v);
    case Granted(base) => GrantedInv(slots, s, t, base);
    case Refused =>
      var pc := s.threads[t];
      MovesOn(slots, s, t, if pc.size / 2 > 0 then pc.(size := pc.size / 2) else Failed);
    case Relock =>
      ListedInv(slots, s, t);
      var s', v := Listed(s, t), s.grants[s.threads[t].area].level;
      AllocInv(slots, s', t, v);
      SameFinish(s, t, v);
    case GiveUp => MovesOn(slots, s, t, Idle);
    case Free(x) => FreeInv(slots, s, t, x);
  }

  /** Relocking is listing the area and then allocating as if for the first time. */
  lemma SameFinish(s: State, t: nat, v: nat)
    requires t < |s.threads| && s.threads[t].Got? && s.threads[t].area < |s.grants|
    requires v == s.grants[s.threads[t].area].level < |s.levels|
    requires Wired(s.grants, AddArea(s.levels[v], s.threads[t].area))
    ensures Finish(s, t, v, AddArea(s.levels[v], s.threads[t].area)) ==
            Finish(Listed(s, t), t, v, Listed(s, t).levels[v])
  {
    var l := AddArea(s.levels[v], s.threads[t].area);
    var (l', x) := Settle(s.grants, l).value;
    assert s.levels[v := l][v := l'] == s.levels[v := l'];
    assert s.threads[t := Idle][t := Idle] == s.threads[t := Idle];
  }
}
