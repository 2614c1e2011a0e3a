/** In which order threads get the reader-writer lock. */
module RwLockFairness {
  import opened RwLock
  import opened RwLockProgress

  /** States one step apart, from a reachable one on. */
  ghost predicate IsSegment(seg: seq<State>) {
    |seg| > 0 && Reachable(seg[0]) && forall k :: 0 < k < |seg| ==> Step(seg[k - 1], seg[k])
  }

  /** `t` is a thread in all states. */
  ghost predicate HasThread(seg: seq<State>, t: nat) {
    forall k :: 0 <= k < |seg| ==> t < |seg[k].pcs|
  }

  lemma {:induction false} SegmentReachable(seg: seq<State>, k: nat)
    requires IsSegment(seg) && k < |seg|
    ensures Reachable(seg[k])
  {
    if k > 0 {
      SegmentReachable(seg, k - 1);
      assert Step(seg[k - 1], seg[k]);
      StepReachable(seg[k - 1], seg[k]);
    }
  }

  lemma StepReachable(s: State, s': State)
    requires Reachable(s) && Step(s, s')
    ensures Reachable(s')
  {
    if s' != s {
      var t: nat, write: bool :| Enabled(s, t) && s' == Advance(s, t, write);
      ReachableStep(s, t, write);
    }
  }

  // ---------------------------------------------------------------- Writers are not overtaken

  /** A writer has claimed the lock, and has not released it. */
  predicate HasClaim(pc: PC) {
    pc.WDepart? || pc.WWait? || pc.WLoad? || pc.Writing?
  }

  /** While a writer has its claim, no thread gets past its last wait. */
  lemma ClaimBars(s: State, h: int, t: nat, u: nat, write: bool)
    requires InvAt(s, h) && h >= 0 && HasClaim(s.pcs[h]) && t < |s.pcs| && !Inside(s.pcs[t]) && Enabled(s, u)
    ensures t < |Advance(s, u, write).pcs| && !Inside(Advance(s, u, write).pcs[t])
  {
    StepMovesOne(s, u, write);
    TallySensible(s.pcs);
  }

  lemma StepBars(s: State, s': State, w: nat, t: nat)
    requires Reachable(s) && Step(s, s') && w < |s.pcs| && HasClaim(s.pcs[w]) && t < |s.pcs| && !Inside(s.pcs[t])
    ensures t < |s'.pcs| && !Inside(s'.pcs[t])
  {
    if s' != s {
      var u: nat, write: bool :| Enabled(s, u) && s' == Advance(s, u, write);
      var h := ReachableInv(s);
      assert HoldsMutex(s.pcs[w]);
      ClaimBars(s, h, t, u, write);
    }
  }

  /** From a writer's claim until it releases the lock, no thread that did not hold the lock at the
      claim gets it for reading, or even past its last wait, however many come. */
  lemma {:induction false} NoOvertaking(seg: seq<State>, w: nat, t: nat, k: nat)
    requires IsSegment(seg) && HasThread(seg, w) && HasThread(seg, t) && k < |seg|
    requires forall i :: 0 <= i < |seg| ==> HasClaim(seg[i].pcs[w])
    requires !Inside(seg[0].pcs[t])
    ensures !Inside(seg[k].pcs[t])
  {
    if k > 0 {
      NoOvertaking(seg, w, t, k - 1);
      SegmentReachable(seg, k - 1);
      assert Step(seg[k - 1], seg[k]);
      StepBars(seg[k - 1], seg[k], w, t);
    }
  }

  // ---------------------------------------------------------------- Writers are not starved

  /** A writer has claimed the lock and does not write yet. */
  predicate Waits(pc: PC) {
    pc.WDepart? || pc.WWait? || pc.WLoad?
  }

  /** Steps until a thread no longer stands between a claim and the lock. */
  function Due(pc: PC): nat {
    if Drains(pc) then Left(pc) else 0
  }

  ghost function TotalDue(pcs: seq<PC>): nat {
    if pcs == [] then 0 else Due(pcs[0]) + TotalDue(pcs[1..])
  }

  lemma {:induction false} DueMove(pcs: seq<PC>, t: nat, pc: PC)
    requires t < |pcs|
    ensures TotalDue(pcs[t := pc]) == TotalDue(pcs) - Due(pcs[t]) + Due(pc)
  {
    if t == 0 {
      assert pcs[0 := pc][1..] == pcs[1..];
    } else {
      assert pcs[t := pc][1..] == pcs[1..][t - 1 := pc];
      DueMove(pcs[1..], t - 1, pc);
    }
  }

  /** While a writer waits, only threads that stand between it and the lock, and newcomers, can move. */
  lemma WhoMoves(s: State, h: int, u: nat)
    requires InvAt(s, h) && h >= 0 && Waits(s.pcs[h]) && Enabled(s, u)
    ensures Drains(s.pcs[u]) || (s.pcs[u].Idle? && s.state < 0)
  {
    TallySensible(s.pcs);
    NumPositive(s.pcs, u);
    assert HoldsMutex(s.pcs[u]) ==> u == h;
  }

  lemma DueAfter(s: State, u: nat, write: bool)
    requires Enabled(s, u) && (Drains(s.pcs[u]) || (s.pcs[u].Idle? && s.state < 0))
    ensures u < |Advance(s, u, write).pcs|
    ensures var due, due' := Due(s.pcs[u]), Due(Advance(s, u, write).pcs[u]);
      if Drains(s.pcs[u]) then due' < due else due' == due
  {
  }

  datatype Move = Move(t: nat, write: bool)

  /** Writer `w` has its claim and waits, all along any moves, newcomers' included. */
  ghost predicate WaitsThrough(s: State, w: nat, moves: seq<Move>)
    decreases |moves|
  {
    && w < |s.pcs| && Waits(s.pcs[w])
    && (moves != [] ==>
          && Enabled(s, moves[0].t)
          && WaitsThrough(Advance(s, moves[0].t, moves[0].write), w, moves[1..]))
  }

  ghost function AfterMoves(s: State, w: nat, moves: seq<Move>): State
    requires WaitsThrough(s, w, moves)
    decreases |moves|
  {
    if moves == [] then s else AfterMoves(Advance(s, moves[0].t, moves[0].write), w, moves[1..])
  }

  /** Moves of threads that stand between the claim and the lock. */
  ghost function Drained(s: State, w: nat, moves: seq<Move>): nat
    requires WaitsThrough(s, w, moves)
    decreases |moves|
  {
    if moves == [] then 0
    else (if Drains(s.pcs[moves[0].t]) then 1 else 0)
         + Drained(Advance(s, moves[0].t, moves[0].write), w, moves[1..])
  }

  lemma StepDrains(s: State, w: nat, u: nat, write: bool)
    requires Reachable(s) && w < |s.pcs| && Waits(s.pcs[w]) && Enabled(s, u)
    ensures Reachable(Advance(s, u, write))
    ensures TotalDue(Advance(s, u, write).pcs) + (if Drains(s.pcs[u]) then 1 else 0) <= TotalDue(s.pcs)
  {
    var h := ReachableInv(s);
    assert HoldsMutex(s.pcs[w]);
    WhoMoves(s, h, u);
    DueAfter(s, u, write);
    StepMovesOne(s, u, write);
    DueMove(s.pcs, u, Advance(s, u, write).pcs[u]);
    ReachableStep(s, u, write);
  }

  lemma DrainingGoesOn(s: State, w: nat) returns (u: nat)
    requires Reachable(s) && w < |s.pcs| && Waits(s.pcs[w])
    ensures Enabled(s, u) && Drains(s.pcs[u])
  {
    var h := ReachableInv(s);
    assert HoldsMutex(s.pcs[w]);
    if s.pcs[w].WWait? {
      u := DrainingMoves(s, h);
    } else {
      u := w;
    }
  }

  /** However many threads come, a writer waits after its claim for boundedly many moves of the threads
      that stand between it and the lock, and one of them can always move. */
  lemma {:induction false} ClaimIsServed(s: State, w: nat, moves: seq<Move>) returns (u: nat)
    requires Reachable(s) && WaitsThrough(s, w, moves)
    ensures Drained(s, w, moves) + TotalDue(AfterMoves(s, w, moves).pcs) <= TotalDue(s.pcs)
    ensures Enabled(AfterMoves(s, w, moves), u) && Drains(AfterMoves(s, w, moves).pcs[u])
    decreases |moves|
  {
    if moves == [] {
      u := DrainingGoesOn(s, w);
    } else {
      StepDrains(s, w, moves[0].t, moves[0].write);
      u := ClaimIsServed(Advance(s, moves[0].t, moves[0].write), w, moves[1..]);
    }
  }

  // ---------------------------------------------------------------- Readers are not starved

  /** The mutex holder wakes readers, and has not yet been told that all of them are through. */
  predicate Admits(pc: PC) {
    pc.UStore? || pc.UWake? || pc.UWait?
  }

  predicate Enters(pc: PC) {
    pc.RWait? || pc.RWoken? || pc.RWakeWriter? || pc.RLoad?
  }

  /** Reader `t`, who was waiting when the lock was released, is on its way in; `h` holds the mutex. */
  ghost predicate Admitted(s: State, h: int, t: nat) {
    && t < |s.pcs| && Enters(s.pcs[t])
    && (s.pcs[t].RWait? ==> 0 <= h < |s.pcs| && Admits(s.pcs[h]))
  }

  lemma AdmittedExcludesWriters(s: State, h: int, t: nat, u: nat)
    requires InvAt(s, h) && Admitted(s, h, t) && u < |s.pcs|
    ensures !s.pcs[u].Writing?
  {
    NumPositive(s.pcs, t);
    TallySensible(s.pcs);
    assert HoldsMutex(s.pcs[u]) ==> u == h;
  }

  lemma ReleaseAdmits(s: State, h: int, t: nat)
    requires InvAt(s, h) && h >= 0 && s.pcs[h].Writing? && t < |s.pcs| && s.pcs[t].RWait?
    ensures Enabled(s, h) && Admitted(Advance(s, h, false), h, t)
  {
    StepMovesOne(s, h, false);
    TallySensible(s.pcs);
    NumPositive(s.pcs, t);
  }

  /** The holder does not go on while `t` still waits. */
  lemma HolderStays(s: State, h: int, t: nat, u: nat)
    requires InvAt(s, h) && Admitted(s, h, t) && s.pcs[t].RWait? && Enabled(s, u)
    ensures NextHolder(s, h, u) == h && !(u == h && s.pcs[h].UWait?)
  {
    NumPositive(s.pcs, t);
    TallySensible(s.pcs);
    assert HoldsMutex(s.pcs[u]) ==> u == h;
  }

  lemma OwnMove(s: State, t: nat, write: bool)
    requires Enabled(s, t) && Enters(s.pcs[t])
    ensures t < |Advance(s, t, write).pcs| && Inside(Advance(s, t, write).pcs[t])
  {
  }

  lemma HolderMove(s: State, h: nat, write: bool)
    requires Enabled(s, h) && (s.pcs[h].UStore? || s.pcs[h].UWake?)
    ensures h < |Advance(s, h, write).pcs| && Admits(Advance(s, h, write).pcs[h])
  {
  }

  lemma StepAdmits(s: State, h: int, t: nat, u: nat, s': State)
    requires InvAt(s, h) && Admitted(s, h, t) && Enabled(s, u) && |s'.pcs| == |s.pcs| && s'.pcs == s.pcs[u := s'.pcs[u]]
    requires u == t ==> Inside(s'.pcs[u]) && !s'.pcs[u].Reading?
    requires u == h && (s.pcs[u].UStore? || s.pcs[u].UWake?) ==> Admits(s'.pcs[u])
    ensures Admitted(s', h, t)
  {
    if s.pcs[t].RWait? {
      HolderStays(s, h, t, u);
    }
  }

  /** Reader `t` is on its way in. */
  ghost predicate OnTheWay(s: State, t: nat) {
    exists h: int :: Admitted(s, h, t) && (s.pcs[t].RWait? ==> HoldsMutex(s.pcs[h]))
  }

  lemma StepOnTheWay(s: State, s': State, t: nat)
    requires Reachable(s) && Step(s, s') && OnTheWay(s, t) && t < |s'.pcs| && !s'.pcs[t].Reading?
    ensures OnTheWay(s', t)
  {
    if s' != s {
      var u: nat, write: bool :| Enabled(s, u) && s' == Advance(s, u, write);
      var h := ReachableInv(s);
      StepMovesOne(s, u, write);
      if u == t {
        OwnMove(s, t, write);
      } else if s.pcs[u].UStore? || s.pcs[u].UWake? {
        HolderMove(s, u, write);
      }
      StepAdmits(s, h, t, u, s');
    }
  }

  lemma {:induction false} StaysOnTheWay(seg: seq<State>, t: nat, k: nat)
    requires IsSegment(seg) && HasThread(seg, t) && k < |seg| && OnTheWay(seg[0], t)
    requires forall i :: 0 <= i < |seg| ==> !seg[i].pcs[t].Reading?
    ensures OnTheWay(seg[k], t)
  {
    if k > 0 {
      StaysOnTheWay(seg, t, k - 1);
      SegmentReachable(seg, k - 1);
      assert Step(seg[k - 1], seg[k]);
      StepOnTheWay(seg[k - 1], seg[k], t);
    }
  }

  lemma OnTheWayExcludesWriters(s: State, t: nat, u: nat)
    requires Reachable(s) && OnTheWay(s, t) && u < |s.pcs|
    ensures !s.pcs[u].Writing?
  {
    var h := ReachableInv(s);
    AdmittedExcludesWriters(s, h, t, u);
  }

  /** A reader that waits when a writer releases the lock gets it before any thread writes again:
      after the release, as long as the reader has not held the lock, nobody writes. */
  lemma WaitingReadersGoFirst(s: State, w: nat, seg: seq<State>, t: nat, k: nat, u: nat)
    requires Reachable(s) && w < |s.pcs| && s.pcs[w].Writing? && t < |s.pcs| && s.pcs[t].RWait?
    requires IsSegment(seg) && seg[0] == Advance(s, w, false) && HasThread(seg, t)
    requires forall i :: 0 <= i < |seg| ==> !seg[i].pcs[t].Reading?
    requires k < |seg| && u < |seg[k].pcs|
    ensures !seg[k].pcs[u].Writing?
  {
    var h := ReachableInv(s);
    assert HoldsMutex(s.pcs[w]);
    ReleaseAdmits(s, h, t);
    StaysOnTheWay(seg, t, k);
    SegmentReachable(seg, k);
    OnTheWayExcludesWriters(seg[k], t, u);
  }

  // ---------------------------------------------------------------- Every operation gets the lock

  /** On the way to the lock, for writing or for reading. */
  predicate Seeks(pc: PC, write: bool) {
    if write then pc.WMutex? || pc.WOwner? || pc.WClaim? || pc.WDepart? || pc.WWait? || pc.WLoad?
    else pc.RWait? || pc.RWoken? || pc.RWakeWriter? || pc.RLoad?
  }

  function Held(write: bool): PC {
    if write then Writing else Reading
  }

  /** A thread that seeks the lock goes on until it has it. */
  lemma MoveSeeks(s: State, t: nat, arg: bool, write: bool)
    requires Enabled(s, t) && Seeks(s.pcs[t], write)
    ensures t < |Advance(s, t, arg).pcs|
    ensures Seeks(Advance(s, t, arg).pcs[t], write) || Advance(s, t, arg).pcs[t] == Held(write)
  {
  }

  lemma StepSeeks(s: State, s': State, t: nat, write: bool)
    requires Step(s, s') && t < |s.pcs| && Seeks(s.pcs[t], write)
    ensures t < |s'.pcs| && (Seeks(s'.pcs[t], write) || s'.pcs[t] == Held(write))
  {
    if s' != s {
      var u: nat, arg: bool :| Enabled(s, u) && s' == Advance(s, u, arg);
      StepMovesOne(s, u, arg);
      if u == t {
        MoveSeeks(s, t, arg, write);
      }
    }
  }

  /** A thread that seeks the lock has it at some moment `j` up to `k`, or still seeks it at `k`. */
  lemma {:induction false} GoesOnSeeking(seg: seq<State>, t: nat, k: nat, write: bool) returns (j: int)
    requires IsSegment(seg) && HasThread(seg, t) && k < |seg| && Seeks(seg[0].pcs[t], write)
    ensures j <= k && if j < 0 then Seeks(seg[k].pcs[t], write) else seg[j].pcs[t] == Held(write)
  {
    j := -1;
    if k > 0 {
      j := GoesOnSeeking(seg, t, k - 1, write);
      if j < 0 {
        assert Step(seg[k - 1], seg[k]);
        StepSeeks(seg[k - 1], seg[k], t, write);
        j := if seg[k].pcs[t] == Held(write) then k else -1;
      }
    }
  }

  /** A thread that calls write lock, and is idle again later, has held the lock for writing between. */
  lemma WriterGetsLock(seg: seq<State>, t: nat, k: nat)
    requires IsSegment(seg) && HasThread(seg, t) && k < |seg|
    requires seg[0].pcs[t].WMutex? && seg[k].pcs[t].Idle?
    ensures exists j :: 0 < j < k && seg[j].pcs[t].Writing?
  {
    var j := GoesOnSeeking(seg, t, k, true);
    assert seg[j].pcs[t].Writing?;
  }

  /** A thread that has to wait for read lock, and is idle again later, has held the lock for reading
      between. */
  lemma ReaderGetsLock(seg: seq<State>, t: nat, k: nat)
    requires IsSegment(seg) && HasThread(seg, t) && k < |seg|
    requires seg[0].pcs[t].RWait? && seg[k].pcs[t].Idle?
    ensures exists j :: 0 < j < k && seg[j].pcs[t].Reading?
  {
    var j := GoesOnSeeking(seg, t, k, false);
    assert seg[j].pcs[t].Reading?;
  }

  /** The state is negative exactly while a writer has a claim. */
  lemma StateTellsClaim(s: State)
    requires Reachable(s)
    ensures s.state < 0 <==> exists w :: 0 <= w < |s.pcs| && HasClaim(s.pcs[w])
  {
    var h := ReachableInv(s);
    StateTellsHolder(s, h);
    forall w | 0 <= w < |s.pcs| && HasClaim(s.pcs[w])
      ensures w == h
    {
      assert HoldsMutex(s.pcs[w]);
    }
  }

  lemma StateTellsHolder(s: State, h: int)
    requires InvAt(s, h)
    ensures s.state < 0 <==> h >= 0 && HasClaim(s.pcs[h])
  {
    TallySensible(s.pcs);
  }

  /** What a call does first: a writer goes for the mutex; a reader has the lock at once if and only if
      no writer has a claim, and else waits. */
  lemma CallStarts(s: State, t: nat, write: bool)
    requires Reachable(s) && t < |s.pcs| && s.pcs[t].Idle?
    ensures Enabled(s, t) && t < |Advance(s, t, write).pcs|
    ensures var pc := Advance(s, t, write).pcs[t];
      if write then pc == WMutex
      else if exists w :: 0 <= w < |s.pcs| && HasClaim(s.pcs[w]) then pc == RWait
      else pc == Reading
  {
    StateTellsClaim(s);
  }

  /** With the mutex and without a claim, the state is the number of readers inside. */
  lemma StateCountsReaders(s: State, t: nat)
    requires Reachable(s) && t < |s.pcs| && s.pcs[t].WClaim?
    ensures s.state == Num(s.pcs, RLoad) + Num(s.pcs, Reading)
  {
    var h := ReachableInv(s);
    TallySensible(s.pcs);
    assert HoldsMutex(s.pcs[t]);
  }

  /** Once it has the mutex, a writer has the lock at once if and only if no reader is inside; else it
      waits for exactly the readers that are. */
  lemma ClaimStarts(s: State, t: nat)
    requires Reachable(s) && t < |s.pcs| && s.pcs[t].WClaim?
    ensures Enabled(s, t) && t < |Advance(s, t, false).pcs|
    ensures var n, pc := Num(s.pcs, RLoad) + Num(s.pcs, Reading), Advance(s, t, false).pcs[t];
      pc == if n == 0 then Writing else WDepart(n)
  {
    StateCountsReaders(s, t);
  }
}
