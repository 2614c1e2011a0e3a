/** The LibOS readers-writer lock as a transition system.

Every thread runs `rwlock_read_lock`, `rwlock_read_unlock`, `rwlock_write_lock` and
`rwlock_write_unlock` any number of times, and one transition is one atomic operation or one
event operation of one thread. The program counter of a thread says which operation comes next. */
module RwLock {

  const WRITER_WEIGHT: int := 0x1000_0000_0000_0000

  /** A PAL event: a wait succeeds only while it is signaled and, on an auto-clear event, takes
      the signal with it. */
  datatype Event = Event(signaled: bool, autoClear: bool) {
    function Set(): Event { this.(signaled := true) }
    function Clear(): Event { this.(signaled := false) }
    function AfterWait(): Event { if autoClear then Clear() else this }
  }

  /** The `int64_t` value of a sum or difference of two `int64_t` values. */
  function Int64(x: int): int {
    if x >= 0x8000_0000_0000_0000 then x - 0x1_0000_0000_0000_0000
    else if x < -0x8000_0000_0000_0000 then x + 0x1_0000_0000_0000_0000
    else x
  }

  /** The `size_t` value of a sum or difference of two `size_t` values. */
  function Size(x: int): int {
    if x >= 0x1_0000_0000_0000_0000 then x - 0x1_0000_0000_0000_0000
    else if x < 0 then x + 0x1_0000_0000_0000_0000
    else x
  }

  datatype PC =
    | Idle
    // Readers.
    | RWait           // wait on readers_wait
    | RWoken          // decrement waiting_readers
    | RWakeWriter     // set writer_wait, woken readers are all through
    | RLoad           // final acquire load of state
    | Reading         // holds the lock for reading
    | RDepart         // decrement departing_readers
    | RSignal         // set writer_wait, the last departing reader is gone
    // Writers.
    | WMutex          // wait on the mutex event
    | WOwner          // record the mutex owner
    | WClaim          // subtract WRITER_WEIGHT from state
    | WDepart(n: int) // add n readers to departing_readers
    | WWait           // wait on writer_wait for departing readers
    | WLoad           // final acquire load of state
    | Writing         // holds the lock for writing
    | UStore(n: int)  // store n in waiting_readers
    | UWake           // set readers_wait
    | UWait           // wait on writer_wait for woken readers
    | UClear          // clear readers_wait
    | UOwner          // forget the mutex owner
    | UMutex          // set the mutex event

  /** Thread `t` has the thread id `t + 1`; owner 0 means nobody. */
  datatype State = State(
    state: int,
    departing: int,
    waiting: int,
    readersWait: Event,
    writerWait: Event,
    mutex: Event,
    owner: nat,
    pcs: seq<PC>)
  {
    function Goto(t: nat, pc: PC): State
      requires t < |pcs|
    {
      this.(pcs := pcs[t := pc])
    }
  }

  predicate AllIdle(pcs: seq<PC>) {
    forall t :: 0 <= t < |pcs| ==> pcs[t] == Idle
  }

  /** What `rwlock_create` leaves behind, with every thread idle. */
  predicate Fresh(s: State) {
    && s.state == 0 && s.departing == 0 && s.waiting == 0 && s.owner == 0
    && !s.readersWait.signaled && !s.readersWait.autoClear
    && !s.writerWait.signaled && s.writerWait.autoClear
    && s.mutex.signaled && s.mutex.autoClear
    && AllIdle(s.pcs)
  }

  /** The event a thread is about to wait on, if any, is signaled. */
  predicate Enabled(s: State, t: nat) {
    t < |s.pcs| &&
    match s.pcs[t]
    case RWait => s.readersWait.signaled
    case WMutex => s.mutex.signaled
    case WWait | UWait => s.writerWait.signaled
    case _ => true
  }

  /** One atomic operation of thread `t`; an idle thread starts the operation `write` selects. */
  function Advance(s: State, t: nat, write: bool): State
    requires Enabled(s, t)
  {
    match s.pcs[t]
    case Idle =>
      if write then s.Goto(t, WMutex) else
      s.(state := Int64(s.state + 1)).Goto(t, if s.state < 0 then RWait else Reading)
    case RWait =>
      s.(readersWait := s.readersWait.AfterWait()).Goto(t, RWoken)
    case RWoken =>
      var w := Size(s.waiting - 1);
      s.(waiting := w).Goto(t, if w == 0 then RWakeWriter else RLoad)
    case RWakeWriter =>
      s.(writerWait := s.writerWait.Set()).Goto(t, RLoad)
    case RLoad =>
      s.Goto(t, Reading)
    case Reading =>
      var st := Int64(s.state - 1);
      s.(state := st).Goto(t, if st < 0 then RDepart else Idle)
    case RDepart =>
      var d := Int64(s.departing - 1);
      s.(departing := d).Goto(t, if d == 0 then RSignal else Idle)
    case RSignal =>
      s.(writerWait := s.writerWait.Set()).Goto(t, Idle)
    case WMutex =>
      s.(mutex := s.mutex.AfterWait()).Goto(t, WOwner)
    case WOwner =>
      s.(owner := t + 1).Goto(t, WClaim)
    case WClaim =>
      s.(state := Int64(s.state - WRITER_WEIGHT)).Goto(t, if s.state > 0 then WDepart(s.state) else Writing)
    case WDepart(n) =>
      var d := Int64(s.departing + n);
      s.(departing := d).Goto(t, if d != 0 then WWait else WLoad)
    case WWait =>
      s.(writerWait := s.writerWait.AfterWait()).Goto(t, WLoad)
    case WLoad =>
      s.Goto(t, Writing)
    case Writing =>
      var st := Int64(s.state + WRITER_WEIGHT);
      s.(state := st).Goto(t, if st != 0 then UStore(st) else UOwner)
    case UStore(n) =>
      s.(waiting := Size(n)).Goto(t, UWake)
    case UWake =>
      s.(readersWait := s.readersWait.Set()).Goto(t, UWait)
    case UWait =>
      s.(writerWait := s.writerWait.AfterWait()).Goto(t, UClear)
    case UClear =>
      s.(readersWait := s.readersWait.Clear()).Goto(t, UOwner)
    case UOwner =>
      s.(owner := 0).Goto(t, UMutex)
    case UMutex =>
      s.(mutex := s.mutex.Set()).Goto(t, Idle)
  }

  /** A thread moves, or a wait fails and is retried, which changes nothing. */
  ghost predicate Step(s: State, s': State) {
    s' == s || exists t: nat, write: bool :: Enabled(s, t) && s' == Advance(s, t, write)
  }

  ghost predicate IsRun(run: seq<State>) {
    |run| > 0
    && |run[0].pcs| < WRITER_WEIGHT
    && Fresh(run[0])
    && forall k :: 0 < k < |run| ==> Step(run[k - 1], run[k])
  }

  ghost predicate Reachable(s: State) {
    exists run: seq<State> :: IsRun(run) && run[|run| - 1] == s
  }

  // ---------------------------------------------------------------- The invariant

  /** How many readers are where: on their way in, and holding the lock or leaving it. */
  datatype Entering = Entering(waiting: int, woken: int, waking: int)
  datatype Leaving = Leaving(active: int, departing: int, signaling: int)
  datatype Census = Census(enter: Entering, leave: Leaving) {

    /** Readers counted in `state`. */
    function Counted(): int { enter.waiting + enter.woken + enter.waking + leave.active }

    /** Non-negative counts of fewer than 2^60 readers. */
    predicate Sensible() {
      && enter.waiting >= 0 && enter.woken >= 0 && enter.waking >= 0
      && leave.active >= 0 && leave.departing >= 0 && leave.signaling >= 0
      && Counted() + leave.departing + leave.signaling < WRITER_WEIGHT
    }

    predicate NoneWoken() { enter.woken == 0 && enter.waking == 0 }

    predicate NoneDeparting() { leave.departing == 0 && leave.signaling == 0 }
  }

  function Bit(b: bool): nat { if b then 1 else 0 }

  /** How many threads are at `pc`. */
  ghost function Num(pcs: seq<PC>, pc: PC): nat {
    if pcs == [] then 0 else Bit(pcs[0] == pc) + Num(pcs[1..], pc)
  }

  ghost function Tally(pcs: seq<PC>): Census {
    Census(Entering(Num(pcs, RWait), Num(pcs, RWoken), Num(pcs, RWakeWriter)),
           Leaving(Num(pcs, RLoad) + Num(pcs, Reading), Num(pcs, RDepart), Num(pcs, RSignal)))
  }

  /** The thread is between taking and releasing the writers' mutex. */
  predicate HoldsMutex(pc: PC) {
    Claims(pc) || Releases(pc)
  }

  predicate Claims(pc: PC) {
    pc.WOwner? || pc.WClaim? || pc.WDepart? || pc.WWait? || pc.WLoad?
  }

  predicate Releases(pc: PC) {
    pc.Writing? || pc.UStore? || pc.UWake? || pc.UWait? || pc.UClear? || pc.UOwner? || pc.UMutex?
  }

  /** What the mutex holder means to the readers. */
  datatype Regime =
    | Open             // readers come and go
    | Claiming(n: int) // claimed while n readers were active, their share not yet added
    | Draining         // claimed, active readers leave one by one
    | Exclusive        // claimed, no active reader
    | Storing(n: int)  // given back while n readers wait
    | Waking           // given back, waiting_readers is set
    | Passing          // waiting readers pass one by one
    | Passed           // waiting readers are all through

  /** The regime while the mutex holder is at `w`, `Idle` standing for a free mutex. */
  function RegimeOf(w: PC): Regime {
    match w
    case WDepart(n) => Claiming(n)
    case WWait => Draining
    case WLoad | Writing => Exclusive
    case UStore(n) => Storing(n)
    case UWake => Waking
    case UWait => Passing
    case UClear => Passed
    case _ => Open
  }

  predicate Claimed(g: Regime) {
    g.Claiming? || g.Draining? || g.Exclusive?
  }

  /** What the counters and events hold under regime `g` when the readers are spread as `c`. */
  predicate Shared(s: State, c: Census, g: Regime) {
    && !s.readersWait.autoClear && s.writerWait.autoClear && s.mutex.autoClear
    && s.state == c.Counted() - (if Claimed(g) then WRITER_WEIGHT else 0)
    && (s.readersWait.signaled <==> g.Passing? || g.Passed?)
    && (!g.Draining? && !g.Passing? ==> !s.writerWait.signaled)
    && (!g.Passing? ==> c.NoneWoken())
    && (!g.Claiming? && !g.Draining? ==> s.departing == 0 && c.NoneDeparting())
    && (!g.Waking? && !g.Passing? ==> s.waiting == 0)
    && match g
       case Open | Passed => c.enter.waiting == 0
       case Claiming(n) =>
         && 0 < n < WRITER_WEIGHT && -WRITER_WEIGHT < s.departing <= 0 && c.leave.signaling == 0
         && c.leave.active + c.leave.departing == n + s.departing
       case Draining =>
         && s.departing == c.leave.active + c.leave.departing
         && c.leave.signaling + Bit(s.writerWait.signaled) == Bit(s.departing == 0)
       case Exclusive => c.leave.active == 0
       case Storing(n) => n == c.enter.waiting > 0
       case Waking => s.waiting == c.enter.waiting > 0
       case Passing =>
         && s.waiting == c.enter.waiting + c.enter.woken
         && c.enter.waking + Bit(s.writerWait.signaled) == Bit(s.waiting == 0)
  }

  /** Thread `h` is the only one holding the writers' mutex; nobody does when `h` is -1. */
  ghost predicate Holder(s: State, h: int) {
    && -1 <= h < |s.pcs|
    && (forall t :: 0 <= t < |s.pcs| ==> (HoldsMutex(s.pcs[t]) <==> t == h))
    && s.mutex.signaled == (h == -1)
    && s.owner == (if h == -1 || s.pcs[h].WOwner? || s.pcs[h].UMutex? then 0 else h + 1)
  }

  function HolderPC(s: State, h: int): PC
    requires -1 <= h < |s.pcs|
  {
    if h == -1 then Idle else s.pcs[h]
  }

  ghost predicate InvAt(s: State, h: int) {
    && |s.pcs| < WRITER_WEIGHT
    && Holder(s, h)
    && Shared(s, Tally(s.pcs), RegimeOf(HolderPC(s, h)))
  }

  // ---------------------------------------------------------------- Counting threads

  lemma {:induction false} TallySensible(pcs: seq<PC>)
    requires |pcs| < WRITER_WEIGHT
    ensures Tally(pcs).Sensible()
    ensures var c := Tally(pcs); c.Counted() + c.leave.departing + c.leave.signaling <= |pcs|
  {
    if pcs != [] {
      TallySensible(pcs[1..]);
    }
  }

  lemma {:induction false} NumMove(pcs: seq<PC>, t: nat, pc: PC, q: PC)
    requires t < |pcs|
    ensures Num(pcs[t := pc], q) == Num(pcs, q) - Bit(pcs[t] == q) + Bit(pc == q)
  {
    if t == 0 {
      assert pcs[0 := pc][1..] == pcs[1..];
    } else {
      assert pcs[t := pc][1..] == pcs[1..][t - 1 := pc];
      NumMove(pcs[1..], t - 1, pc, q);
    }
  }

  /** One reader went from phase `from` to phase `to`. */
  predicate Moved(c: Census, from: PC, to: PC, c': Census) {
    && c'.enter.waiting == c.enter.waiting - Bit(from.RWait?) + Bit(to.RWait?)
    && c'.enter.woken == c.enter.woken - Bit(from.RWoken?) + Bit(to.RWoken?)
    && c'.enter.waking == c.enter.waking - Bit(from.RWakeWriter?) + Bit(to.RWakeWriter?)
    && c'.leave.active == c.leave.active - Bit(from.RLoad? || from.Reading?) + Bit(to.RLoad? || to.Reading?)
    && c'.leave.departing == c.leave.departing - Bit(from.RDepart?) + Bit(to.RDepart?)
    && c'.leave.signaling == c.leave.signaling - Bit(from.RSignal?) + Bit(to.RSignal?)
  }

  lemma TallyMove(pcs: seq<PC>, t: nat, pc: PC)
    requires t < |pcs|
    ensures Moved(Tally(pcs), pcs[t], pc, Tally(pcs[t := pc]))
  {
    NumMove(pcs, t, pc, RWait);
    NumMove(pcs, t, pc, RWoken);
    NumMove(pcs, t, pc, RWakeWriter);
    NumMove(pcs, t, pc, RLoad);
    NumMove(pcs, t, pc, Reading);
    NumMove(pcs, t, pc, RDepart);
    NumMove(pcs, t, pc, RSignal);
  }

  lemma {:induction false} NumPositive(pcs: seq<PC>, t: nat)
    requires t < |pcs|
    ensures Num(pcs, pcs[t]) > 0
  {
    if t > 0 {
      NumPositive(pcs[1..], t - 1);
    }
  }

  lemma {:induction false} NumWitness(pcs: seq<PC>, q: PC) returns (t: nat)
    requires Num(pcs, q) > 0
    ensures t < |pcs| && pcs[t] == q
  {
    if pcs[0] == q {
      t := 0;
    } else {
      t := NumWitness(pcs[1..], q);
      t := t + 1;
    }
  }

  lemma {:induction false} NumUnique(pcs: seq<PC>, t: nat, u: nat)
    requires t < u < |pcs| && pcs[t] == pcs[u]
    ensures Num(pcs, pcs[t]) >= 2
  {
    if t == 0 {
      NumPositive(pcs[1..], u - 1);
    } else {
      NumUnique(pcs[1..], t - 1, u - 1);
    }
  }

  lemma {:induction false} NumOfIdle(pcs: seq<PC>, q: PC)
    requires AllIdle(pcs) && !q.Idle?
    ensures Num(pcs, q) == 0
  {
    if pcs != [] {
      NumOfIdle(pcs[1..], q);
    }
  }

  lemma TallyOfIdle(pcs: seq<PC>)
    requires AllIdle(pcs)
    ensures Tally(pcs) == Census(Entering(0, 0, 0), Leaving(0, 0, 0))
  {
    NumOfIdle(pcs, RWait);
    NumOfIdle(pcs, RWoken);
    NumOfIdle(pcs, RWakeWriter);
    NumOfIdle(pcs, RLoad);
    NumOfIdle(pcs, Reading);
    NumOfIdle(pcs, RDepart);
    NumOfIdle(pcs, RSignal);
  }

  // ---------------------------------------------------------------- Preservation

  lemma FreshInv(s: State)
    requires Fresh(s) && |s.pcs| < WRITER_WEIGHT
    ensures InvAt(s, -1)
  {
    TallyOfIdle(s.pcs);
  }

  predicate EntersOrLeaves(pc: PC) {
    pc.Idle? || pc.RLoad? || pc.Reading? || pc.RDepart? || pc.RSignal?
  }

  predicate Wakes(pc: PC) {
    pc.RWait? || pc.RWoken? || pc.RWakeWriter?
  }

  lemma EntryOrExitShared(s: State, c: Census, c': Census, g: Regime, t: nat)
    requires Enabled(s, t) && EntersOrLeaves(s.pcs[t])
    requires Shared(s, c, g) && c.Sensible() && c'.Sensible()
    requires Moved(c, s.pcs[t], Advance(s, t, false).pcs[t], c')
    ensures Shared(Advance(s, t, false), c', g)
  {
  }

  lemma WakeShared(s: State, c: Census, c': Census, g: Regime, t: nat)
    requires Enabled(s, t) && Wakes(s.pcs[t])
    requires Shared(s, c, g) && c.Sensible() && c'.Sensible()
    requires Moved(c, s.pcs[t], Advance(s, t, false).pcs[t], c')
    ensures Shared(Advance(s, t, false), c', g)
  {
  }

  lemma ClaimShared(s: State, c: Census, t: nat, write: bool)
    requires Enabled(s, t) && Claims(s.pcs[t])
    requires Shared(s, c, RegimeOf(s.pcs[t])) && c.Sensible()
    ensures Shared(Advance(s, t, write), c, RegimeOf(Advance(s, t, write).pcs[t]))
  {
  }

  lemma ReleaseShared(s: State, c: Census, t: nat, write: bool)
    requires Enabled(s, t) && Releases(s.pcs[t])
    requires Shared(s, c, RegimeOf(s.pcs[t])) && c.Sensible()
    ensures Shared(Advance(s, t, write), c, RegimeOf(Advance(s, t, write).pcs[t]))
  {
  }

  /** The holder of the mutex after thread `t` moves. */
  function NextHolder(s: State, h: int, t: nat): int
    requires t < |s.pcs|
  {
    if s.pcs[t].WMutex? then t else if s.pcs[t].UMutex? then -1 else h
  }

  lemma StepHolder(s: State, h: int, t: nat, write: bool)
    requires Holder(s, h) && Enabled(s, t) && s.mutex.autoClear
    ensures Holder(Advance(s, t, write), NextHolder(s, h, t))
  {
    var s', h' := Advance(s, t, write), NextHolder(s, h, t);
    assert HoldsMutex(s'.pcs[t]) <==> t == h';
    forall u | 0 <= u < |s'.pcs| && u != t
      ensures HoldsMutex(s'.pcs[u]) <==> u == h'
    {
      assert s'.pcs[u] == s.pcs[u];
    }
  }

  /** Only the mutex holder changes the regime. */
  lemma StepRegime(s: State, h: int, t: nat, write: bool)
    requires Holder(s, h) && Enabled(s, t) && -1 <= NextHolder(s, h, t) < |s.pcs|
    ensures var s' := Advance(s, t, write);
            RegimeOf(HolderPC(s', NextHolder(s, h, t))) ==
            RegimeOf(if t == h then s'.pcs[t] else HolderPC(s, h))
  {
  }

  lemma StepShared(s: State, g: Regime, t: nat, write: bool, c: Census, c': Census)
    requires Enabled(s, t) && c.Sensible() && c'.Sensible() && Shared(s, c, g)
    requires Moved(c, s.pcs[t], Advance(s, t, write).pcs[t], c')
    requires !HoldsMutex(s.pcs[t])
    ensures Shared(Advance(s, t, write), c', g)
  {
    if Wakes(s.pcs[t]) {
      WakeShared(s, c, c', g, t);
    } else if s.pcs[t].WMutex? || (s.pcs[t].Idle? && write) {
      assert c' == c;
    } else {
      EntryOrExitShared(s, c, c', g, t);
    }
  }

  lemma StepMovesOne(s: State, t: nat, write: bool)
    requires Enabled(s, t)
    ensures var s' := Advance(s, t, write);
            |s'.pcs| == |s.pcs| && s'.pcs == s.pcs[t := s'.pcs[t]]
  {
  }

  lemma StepTally(s: State, t: nat, write: bool)
    requires Enabled(s, t) && |s.pcs| < WRITER_WEIGHT
    ensures var s' := Advance(s, t, write);
      && Tally(s.pcs).Sensible() && Tally(s'.pcs).Sensible()
      && Moved(Tally(s.pcs), s.pcs[t], s'.pcs[t], Tally(s'.pcs))
  {
    var pc' := Advance(s, t, write).pcs[t];
    StepMovesOne(s, t, write);
    TallyMove(s.pcs, t, pc');
    TallySensible(s.pcs);
    TallySensible(s.pcs[t := pc']);
  }

  lemma HolderNext(s: State, t: nat, write: bool) returns (pc': PC)
    requires Enabled(s, t) && HoldsMutex(s.pcs[t])
    ensures Advance(s, t, write).pcs == s.pcs[t := pc'] && (HoldsMutex(pc') || pc'.Idle?)
  {
    pc' := Advance(s, t, write).pcs[t];
    StepMovesOne(s, t, write);
  }

  lemma HolderMovesNoReader(s: State, t: nat, write: bool)
    requires Enabled(s, t) && HoldsMutex(s.pcs[t])
    ensures Tally(Advance(s, t, write).pcs) == Tally(s.pcs)
  {
    var pc' := HolderNext(s, t, write);
    TallyMove(s.pcs, t, pc');
  }

  lemma HolderStepShared(s: State, t: nat, write: bool)
    requires Enabled(s, t) && HoldsMutex(s.pcs[t]) && |s.pcs| < WRITER_WEIGHT
    requires Shared(s, Tally(s.pcs), RegimeOf(s.pcs[t]))
    ensures var s' := Advance(s, t, write); Shared(s', Tally(s'.pcs), RegimeOf(s'.pcs[t]))
  {
    HolderMovesNoReader(s, t, write);
    TallySensible(s.pcs);
    if Claims(s.pcs[t]) {
      ClaimShared(s, Tally(s.pcs), t, write);
    } else {
      ReleaseShared(s, Tally(s.pcs), t, write);
    }
  }

  lemma StepInvShared(s: State, h: int, t: nat, write: bool)
    requires InvAt(s, h) && Enabled(s, t)
    ensures var s' := Advance(s, t, write);
            Shared(s', Tally(s'.pcs), RegimeOf(if t == h then s'.pcs[t] else HolderPC(s, h)))
  {
    if t == h {
      HolderStepShared(s, t, write);
    } else {
      StepTally(s, t, write);
      StepShared(s, RegimeOf(HolderPC(s, h)), t, write, Tally(s.pcs), Tally(Advance(s, t, write).pcs));
    }
  }

  lemma StepKeepsInv(s: State, h: int, t: nat, write: bool)
    requires InvAt(s, h) && Enabled(s, t)
    ensures InvAt(Advance(s, t, write), NextHolder(s, h, t))
  {
    StepHolder(s, h, t, write);
    StepRegime(s, h, t, write);
    StepInvShared(s, h, t, write);
  }

  lemma {:induction false} RunKeepsInv(run: seq<State>) returns (h: int)
    requires IsRun(run)
    ensures InvAt(run[|run| - 1], h)
  {
    if |run| == 1 {
      FreshInv(run[0]);
      h := -1;
    } else {
      var n := |run| - 1;
      h := RunKeepsInv(run[..n]);
      var s, s' := run[n - 1], run[n];
      assert Step(s, s');
      if s' != s {
        var t: nat, write: bool :| Enabled(s, t) && s' == Advance(s, t, write);
        StepKeepsInv(s, h, t, write);
        h := NextHolder(s, h, t);
      }
    }
  }

  lemma ReachableInv(s: State) returns (h: int)
    requires Reachable(s)
    ensures InvAt(s, h)
  {
    var run: seq<State> :| IsRun(run) && run[|run| - 1] == s;
    h := RunKeepsInv(run);
  }

  // ---------------------------------------------------------------- Safety

  /** The reader is past its last wait, or holds the lock. */
  predicate Inside(pc: PC) {
    pc.RWoken? || pc.RWakeWriter? || pc.RLoad? || pc.Reading?
  }

  /** While a thread holds the lock for writing, no other thread holds it at all, and no reader
      is even past its last wait. */
  lemma WriterExcludesEveryone(s: State, t: nat, u: nat)
    requires Reachable(s) && t < |s.pcs| && u < |s.pcs| && t != u
    requires s.pcs[t].Writing?
    ensures !s.pcs[u].Writing? && !Inside(s.pcs[u])
  {
    var h := ReachableInv(s);
    assert t == h;
    NumPositive(s.pcs, u);
  }

  /** No atomic operation of thread `t` overflows, and the source's assertions hold. */
  predicate CountersExact(s: State, t: nat)
    requires t < |s.pcs|
  {
    match s.pcs[t]
    case Idle => Int64(s.state + 1) == s.state + 1
    case RWoken => s.waiting >= 1 && Size(s.waiting - 1) == s.waiting - 1
    case Reading => Int64(s.state - 1) == s.state - 1
    case RDepart => Int64(s.departing - 1) == s.departing - 1
    case WClaim => s.state >= 0 && Int64(s.state - WRITER_WEIGHT) == s.state - WRITER_WEIGHT
    case WDepart(n) => n > 0 && s.departing + n >= 0 && Int64(s.departing + n) == s.departing + n
    case Writing => s.state + WRITER_WEIGHT >= 0 && Int64(s.state + WRITER_WEIGHT) == s.state + WRITER_WEIGHT
    case UStore(n) => n > 0 && Size(n) == n
    case _ => true
  }

  lemma CountersStayExact(s: State, t: nat)
    requires Reachable(s) && t < |s.pcs|
    ensures CountersExact(s, t)
  {
    var h := ReachableInv(s);
    TallySensible(s.pcs);
    NumPositive(s.pcs, t);
    ExactFromShared(s, h, Tally(s.pcs), t);
  }

  lemma ExactFromShared(s: State, h: int, c: Census, t: nat)
    requires Holder(s, h) && t < |s.pcs| && c.Sensible()
    requires Shared(s, c, RegimeOf(HolderPC(s, h)))
    requires s.pcs[t].RWoken? ==> c.enter.woken > 0
    ensures CountersExact(s, t)
  {
    assert HoldsMutex(s.pcs[t]) ==> t == h;
  }

  /** If thread `t` is about to set `writer_wait`, the holder is at the wait that is meant; if it is at
      such a wait, it is the holder. */
  ghost predicate SignalMeant(s: State, h: int, t: nat)
    requires t < |s.pcs| && -1 <= h < |s.pcs|
  {
    && (s.pcs[t].RSignal? ==> !s.writerWait.signaled && h >= 0 && s.pcs[h].WWait? && s.departing == 0)
    && (s.pcs[t].RWakeWriter? ==> !s.writerWait.signaled && h >= 0 && s.pcs[h].UWait? && s.waiting == 0)
    && (s.pcs[t].WWait? || s.pcs[t].UWait? ==> t == h)
  }

  lemma SignalIsMeant(s: State, h: int, t: nat)
    requires InvAt(s, h) && t < |s.pcs|
    ensures SignalMeant(s, h, t)
  {
    NumPositive(s.pcs, t);
    TallySensible(s.pcs);
    assert HoldsMutex(s.pcs[t]) ==> t == h;
  }

  lemma SignalIsUnique(s: State, h: int, t: nat, u: nat)
    requires InvAt(s, h) && t < u < |s.pcs| && (s.pcs[t].RSignal? || s.pcs[t].RWakeWriter?)
    ensures s.pcs[u] != s.pcs[t]
  {
    if s.pcs[u] == s.pcs[t] {
      NumUnique(s.pcs, t, u);
      TallySensible(s.pcs);
      assert false;
    }
  }

  /** A thread about to set `writer_wait` is the only one, finds the event clear, and the mutex
      holder is at the wait this signal is meant for; the event is signaled only while the mutex
      holder is at one of its two waits. So every signal is consumed by exactly one wait. */
  lemma WriterSignalsAreNeverLostNorStale(s: State) returns (h: int)
    requires Reachable(s)
    ensures -1 <= h < |s.pcs|
    ensures s.writerWait.signaled ==> h >= 0 && (s.pcs[h].WWait? || s.pcs[h].UWait?)
    ensures forall t :: 0 <= t < |s.pcs| ==> SignalMeant(s, h, t)
    ensures forall t, u :: 0 <= t < u < |s.pcs| && (s.pcs[t].RSignal? || s.pcs[t].RWakeWriter?) ==>
              s.pcs[u] != s.pcs[t]
  {
    h := ReachableInv(s);
    forall t | 0 <= t < |s.pcs|
      ensures SignalMeant(s, h, t)
    {
      SignalIsMeant(s, h, t);
    }
    forall t, u | 0 <= t < u < |s.pcs| && (s.pcs[t].RSignal? || s.pcs[t].RWakeWriter?)
      ensures s.pcs[u] != s.pcs[t]
    {
      SignalIsUnique(s, h, t, u);
    }
  }

  /** When nobody is inside an operation or holds the lock, the lock is as `rwlock_create` left
      it; in particular the assertions of `rwlock_destroy` hold. */
  lemma QuiescentIsFresh(s: State)
    requires Reachable(s) && AllIdle(s.pcs)
    ensures Fresh(s)
  {
    var h := ReachableInv(s);
    TallyOfIdle(s.pcs);
  }

  /** The DEBUG checks `rwlock_is_read_locked` and `rwlock_is_write_locked` have no false
      negatives. */
  lemma DebugChecksHaveNoFalseNegatives(s: State, t: nat)
    requires Reachable(s) && t < |s.pcs|
    ensures s.pcs[t].Reading? ==> s.state != 0
    ensures s.pcs[t].Writing? ==> s.owner == t + 1 && s.state < 0
  {
    var h := ReachableInv(s);
    TallySensible(s.pcs);
    NumPositive(s.pcs, t);
  }
}
