/** The readers-writer lock never gets stuck, and refines the lock a client has in mind. */
module RwLockProgress {
  import opened RwLock

  // ---------------------------------------------------------------- Deadlock freedom

  predicate Busy(s: State, t: nat) {
    t < |s.pcs| && !s.pcs[t].Idle?
  }

  /** A reader that is inside or leaves, or a writer that has claimed the lock and does not write yet. */
  predicate Drains(pc: PC) {
    pc.RLoad? || pc.Reading? || pc.RDepart? || pc.RSignal? || pc.WDepart? || pc.WWait? || pc.WLoad?
  }

  /** If the writer waits for departing readers, one of them can move or the signal is there. */
  lemma DrainingMoves(s: State, h: int) returns (u: nat)
    requires InvAt(s, h) && h >= 0 && s.pcs[h].WWait?
    ensures Busy(s, u) && Enabled(s, u) && Drains(s.pcs[u])
  {
    if s.writerWait.signaled {
      u := h;
    } else if Num(s.pcs, RSignal) > 0 {
      u := NumWitness(s.pcs, RSignal);
    } else if Num(s.pcs, RDepart) > 0 {
      u := NumWitness(s.pcs, RDepart);
    } else if Num(s.pcs, Reading) > 0 {
      u := NumWitness(s.pcs, Reading);
    } else {
      u := NumWitness(s.pcs, RLoad);
    }
  }

  /** If the writer waits for woken readers, one of them can move or the signal is there. */
  lemma PassingMoves(s: State, h: int) returns (u: nat)
    requires InvAt(s, h) && h >= 0 && s.pcs[h].UWait?
    ensures Busy(s, u) && Enabled(s, u)
  {
    if s.writerWait.signaled {
      u := h;
    } else if Num(s.pcs, RWakeWriter) > 0 {
      u := NumWitness(s.pcs, RWakeWriter);
    } else if Num(s.pcs, RWoken) > 0 {
      u := NumWitness(s.pcs, RWoken);
    } else {
      u := NumWitness(s.pcs, RWait);
    }
  }

  lemma SomeoneMoves(s: State, h: int, t: nat) returns (u: nat)
    requires InvAt(s, h) && Busy(s, t)
    ensures Busy(s, u) && Enabled(s, u)
  {
    if h >= 0 && s.pcs[h].WWait? {
      u := DrainingMoves(s, h);
    } else if h >= 0 && s.pcs[h].UWait? {
      u := PassingMoves(s, h);
    } else if h >= 0 {
      u := h;
    } else {
      u := t;
      NumPositive(s.pcs, t);
    }
  }

  /** Whenever some thread is inside an operation or holds the lock, a thread that is inside an
      operation or holds the lock can move. */
  lemma NoDeadlock(s: State, t: nat) returns (u: nat)
    requires Reachable(s) && Busy(s, t)
    ensures Busy(s, u) && Enabled(s, u)
  {
    var h := ReachableInv(s);
    u := SomeoneMoves(s, h, t);
  }

  // ---------------------------------------------------------------- Draining

  /** Steps a thread needs at most until it is idle again. */
  function Left(pc: PC): nat {
    match pc
    case Idle => 0
    case RSignal => 1
    case RDepart => 2
    case Reading => 3
    case RLoad => 4
    case RWakeWriter => 5
    case RWoken => 6
    case RWait => 7
    case UMutex => 1
    case UOwner => 2
    case UClear => 3
    case UWait => 4
    case UWake => 5
    case UStore(_) => 6
    case Writing => 7
    case WLoad => 8
    case WWait => 9
    case WDepart(_) => 10
    case WClaim => 11
    case WOwner => 12
    case WMutex => 13
  }

  ghost function Work(pcs: seq<PC>): nat {
    if pcs == [] then 0 else Left(pcs[0]) + Work(pcs[1..])
  }

  lemma {:induction false} WorkMove(pcs: seq<PC>, t: nat, pc: PC)
    requires t < |pcs|
    ensures Work(pcs[t := pc]) == Work(pcs) - Left(pcs[t]) + Left(pc)
  {
    if t == 0 {
      assert pcs[0 := pc][1..] == pcs[1..];
    } else {
      assert pcs[t := pc][1..] == pcs[1..][t - 1 := pc];
      WorkMove(pcs[1..], t - 1, pc);
    }
  }

  lemma StepWorks(s: State, t: nat)
    requires Busy(s, t) && Enabled(s, t)
    ensures Work(Advance(s, t, false).pcs) < Work(s.pcs)
  {
    StepMovesOne(s, t, false);
    WorkMove(s.pcs, t, Advance(s, t, false).pcs[t]);
  }

  /** The threads of `schedule` move in turn, and none of them starts a new operation. */
  ghost predicate Winds(s: State, schedule: seq<nat>)
    decreases |schedule|
  {
    schedule == [] ||
    (Busy(s, schedule[0]) && Enabled(s, schedule[0])
     && Winds(Advance(s, schedule[0], false), schedule[1..]))
  }

  ghost function After(s: State, schedule: seq<nat>): State
    requires Winds(s, schedule)
    decreases |schedule|
  {
    if schedule == [] then s else After(Advance(s, schedule[0], false), schedule[1..])
  }

  lemma ReachableStep(s: State, t: nat, write: bool)
    requires Reachable(s) && Enabled(s, t)
    ensures Reachable(Advance(s, t, write))
  {
    var run: seq<State> :| IsRun(run) && run[|run| - 1] == s;
    var s' := Advance(s, t, write);
    var run' := run + [s'];
    assert run'[0] == run[0];
    assert Step(s, s');
    forall k | 0 < k < |run'|
      ensures Step(run'[k - 1], run'[k])
    {
      if k < |run| {
        assert Step(run[k - 1], run[k]);
      }
    }
    assert IsRun(run') && run'[|run'| - 1] == s';
  }

  /** The state a step leads to. */
  lemma TakeStep(s: State, t: nat, write: bool) returns (s': State)
    requires Reachable(s) && Enabled(s, t)
    ensures Reachable(s') && s' == Advance(s, t, write)
  {
    ReachableStep(s, t, write);
    s' := Advance(s, t, write);
  }

  lemma FreshReachable(s: State)
    requires Fresh(s) && |s.pcs| < WRITER_WEIGHT
    ensures Reachable(s)
  {
    var run := [s];
    assert IsRun(run) && run[|run| - 1] == s;
  }

  lemma OneClaims() returns (s: State)
    ensures Reachable(s) && s.pcs == [WClaim, Idle] && s.state == 0
  {
    s := State(0, 0, 0, Event(false, false), Event(false, true), Event(true, true), 0, [Idle, Idle]);
    FreshReachable(s);
    s := TakeStep(s, 0, true);
    assert s.pcs[0] == WMutex && s.mutex.signaled;
    s := TakeStep(s, 0, true);
    assert s.pcs[0] == WOwner;
    s := TakeStep(s, 0, true);
  }

  /** The theorems are not about nothing: in some reachable state one thread writes and another one
      waits to read. */
  lemma WriterAndWaitingReader() returns (s: State)
    ensures Reachable(s) && s.pcs == [Writing, RWait]
  {
    s := OneClaims();
    s := TakeStep(s, 0, true);
    assert s.pcs == [Writing, Idle];
    s := TakeStep(s, 1, false);
  }

  /** Once no new operation starts, the lock winds down: every schedule is shorter than the work
      left, and one that nobody can extend leaves the lock as created. */
  lemma {:induction false} WindsDown(s: State, schedule: seq<nat>)
    requires Reachable(s) && Winds(s, schedule)
    ensures |schedule| <= Work(s.pcs)
    ensures Reachable(After(s, schedule))
    ensures (forall t :: Busy(After(s, schedule), t) ==> !Enabled(After(s, schedule), t)) ==>
              Fresh(After(s, schedule))
    decreases |schedule|
  {
    if schedule == [] {
      if forall t :: Busy(s, t) ==> !Enabled(s, t) {
        if t: nat :| Busy(s, t) {
          var u := NoDeadlock(s, t);
        }
        forall t | 0 <= t < |s.pcs|
          ensures s.pcs[t] == Idle
        {
          assert !Busy(s, t);
        }
        QuiescentIsFresh(s);
      }
    } else {
      ReachableStep(s, schedule[0], false);
      StepWorks(s, schedule[0]);
      WindsDown(Advance(s, schedule[0], false), schedule[1..]);
    }
  }

  // ---------------------------------------------------------------- Refinement

  /** The lock a client has in mind. */
  datatype Spec = Spec(readers: set<nat>, writers: set<nat>)

  ghost predicate SpecStep(a: Spec, a': Spec) {
    || a' == a
    || (exists t :: t !in a.readers && a.writers == {} && a' == a.(readers := a.readers + {t}))
    || (exists t :: t in a.readers && a' == a.(readers := a.readers - {t}))
    || (exists t :: a.readers == {} && a.writers == {} && a' == a.(writers := {t}))
    || (exists t :: a.writers == {t} && a' == a.(writers := {}))
  }

  ghost function Abstract(s: State): Spec {
    Spec(set t: nat | t < |s.pcs| && s.pcs[t].Reading?, set t: nat | t < |s.pcs| && s.pcs[t].Writing?)
  }

  lemma AbstractMove(s: State, t: nat, write: bool)
    requires Enabled(s, t)
    ensures var a, a', pc := Abstract(s), Abstract(Advance(s, t, write)), Advance(s, t, write).pcs[t];
      && a'.readers == (if pc.Reading? then a.readers + {t} else a.readers - {t})
      && a'.writers == (if pc.Writing? then a.writers + {t} else a.writers - {t})
  {
    StepMovesOne(s, t, write);
  }

  lemma ReachableAbstract(s: State)
    requires Reachable(s)
    ensures var a := Abstract(s); forall t :: t in a.writers ==> a.readers == {} && a.writers == {t}
  {
    var a := Abstract(s);
    forall t | t in a.writers
      ensures a.readers == {} && a.writers == {t}
    {
      forall u: nat | u < |s.pcs| && u != t
        ensures u !in a.readers && u !in a.writers
      {
        WriterExcludesEveryone(s, t, u);
      }
    }
  }

  lemma AdvanceRefines(s: State, t: nat, write: bool)
    requires Reachable(s) && Enabled(s, t)
    ensures SpecStep(Abstract(s), Abstract(Advance(s, t, write)))
  {
    var a, a' := Abstract(s), Abstract(Advance(s, t, write));
    ReachableStep(s, t, write);
    ReachableAbstract(s);
    ReachableAbstract(Advance(s, t, write));
    AbstractMove(s, t, write);
    var from, to := s.pcs[t], Advance(s, t, write).pcs[t];
    assert t in a.readers <==> from.Reading?;
    assert t in a.writers <==> from.Writing?;
    assert from.Reading? || from.Writing? ==> !to.Reading? && !to.Writing?;
    if to.Reading? {
      assert a'.readers != {} && a.writers == {};
    } else if to.Writing? {
      assert a'.writers == {t};
      assert a.writers == {};
    } else if from.Reading? {
      assert a'.writers == a.writers;
    } else if from.Writing? {
      assert a'.readers == a.readers;
    } else {
      assert a' == a;
    }
  }

  /** Every step of the implementation is a step of that lock, or invisible. */
  lemma StepRefines(s: State, s': State)
    requires Reachable(s) && Step(s, s')
    ensures SpecStep(Abstract(s), Abstract(s'))
  {
    if s' != s {
      var t: nat, write: bool :| Enabled(s, t) && s' == Advance(s, t, write);
      AdvanceRefines(s, t, write);
    }
  }
}
