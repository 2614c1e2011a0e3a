/** The seqlock: lock-free readers that detect writers, and writers that exclude each other.

Every atomic operation is a step of its own, and any number of threads take steps in any order. */
module Seqlock {
  import opened Basics

  /** The sequence is a 32-bit counter. */
  const WRAP: nat := 0x1_0000_0000

  /** Write sections after which the sequence looks the same again. */
  const PERIOD: nat := 0x8000_0000

  /** Word `w` was read and held `v`. */
  datatype Sight = Sight(w: nat, v: int)

  /** What a read section has seen so far: the sequence it started with, all reads of words in order,
      and the version that was current at its start. */
  datatype Read = Read(start: nat, seen: seq<Sight>, from: nat)

  /** Where a thread is. A read section ends with the verdict of `read_seqretry`, given when version
      `to` was current. */
  datatype PC =
    | Idle
    | Exchange | Spin | CompareExchange | Begin | Writing | Unlock
    | Load | Reading(r: Read) | Done(r: Read, retry: bool, to: nat)

  /** Shared memory, and which thread owns the spinlock. `versions` lists the protected words as each
      completed write section left them. */
  datatype Shared = Shared(sequence: nat, locked: bool, words: seq<int>, versions: seq<seq<int>>, owner: Option<nat>)

  datatype State = State(m: Shared, threads: seq<PC>)

  datatype Action =
    | StartWrite | StartRead | Go
    | Write(w: nat, v: int) | EndWrite
    | ReadWord(w: nat) | Check | Leave

  ghost predicate Fresh(s: State) {
    && s.m.sequence == 0 && !s.m.locked && s.m.versions == [s.m.words] && s.m.owner == None
    && forall t :: 0 <= t < |s.threads| ==> s.threads[t] == Idle
  }

  // ---------------------------------------------------------------- Steps

  predicate Allowed(m: Shared, pc: PC, a: Action) {
    match pc
    case Idle => a == StartWrite || a == StartRead
    case Writing => (a.Write? && a.w < |m.words|) || a == EndWrite
    case Reading(_) => (a.ReadWord? && a.w < |m.words|) || a == Check
    case Done(_, _, _) => a == Leave
    case _ => a == Go
  }

  predicate Enabled(s: State, t: nat, a: Action) {
    t < |s.threads| && Allowed(s.m, s.threads[t], a)
  }

  function Bump(n: nat): nat { (n + 1) % WRAP }

  /** Both ways to take the spinlock: an exchange, and a compare-and-exchange after it was seen
      free. */
  function Take(m: Shared, t: nat): (Shared, PC) {
    if m.locked then (m, Spin) else (m.(locked := true, owner := Some(t)), Begin)
  }

  function Effect(m: Shared, pc: PC, t: nat, a: Action): (Shared, PC)
    requires Allowed(m, pc, a)
  {
    match pc
    case Idle => (m, if a == StartWrite then Exchange else Load)
    case Exchange => Take(m, t)
    case Spin => (m, if m.locked then Spin else CompareExchange)
    case CompareExchange => Take(m, t)
    case Begin => (m.(sequence := Bump(m.sequence)), Writing)
    case Writing =>
      if a.Write? then (m.(words := m.words[a.w := a.v]), Writing)
      else (m.(sequence := Bump(m.sequence), versions := m.versions + [m.words]), Unlock)
    case Unlock => (m.(locked := false, owner := None), Idle)
    case Load => (m, if m.sequence % 2 == 0 then Reading(Read(m.sequence, [], Current(m))) else Load)
    case Reading(r) =>
      if a.ReadWord? then (m, Reading(r.(seen := r.seen + [Sight(a.w, m.words[a.w])])))
      else (m, Done(r, r.start != m.sequence, Current(m)))
    case Done(_, _, _) => (m, Idle)
  }

  function Current(m: Shared): nat {
    if m.versions == [] then 0 else |m.versions| - 1
  }

  function Advance(s: State, t: nat, a: Action): State
    requires Enabled(s, t, a)
  {
    var (m, pc) := Effect(s.m, s.threads[t], t, a);
    State(m, s.threads[t := pc])
  }

  /** A schedule: which thread steps, and how. */
  datatype Turn = Turn(t: nat, a: Action)

  predicate Legal(s: State, run: seq<Turn>)
    decreases |run|
  {
    run != [] ==> Enabled(s, run[0].t, run[0].a) && Legal(Advance(s, run[0].t, run[0].a), run[1..])
  }

  function Exec(s: State, run: seq<Turn>): State
    requires Legal(s, run)
    decreases |run|
  {
    if run == [] then s else Exec(Advance(s, run[0].t, run[0].a), run[1..])
  }

  // ---------------------------------------------------------------- Invariant

  predicate Holds(pc: PC) { pc.Begin? || pc.Writing? || pc.Unlock? }

  /** A write section is open. */
  predicate Open(s: State) {
    s.m.owner.Some? && s.m.owner.value < |s.threads| && s.threads[s.m.owner.value] == Writing
  }

  /** How often the sequence was bumped. */
  function Bumps(s: State): nat {
    2 * Current(s.m) + if Open(s) then 1 else 0
  }

  ghost predicate Agrees(seen: seq<Sight>, version: seq<int>) {
    forall i :: 0 <= i < |seen| ==> seen[i].w < |version| && seen[i].v == version[seen[i].w]
  }

  /** A read section whose version is still current has seen only that version. */
  ghost predicate ReadOk(r: Read, m: Shared, open: bool) {
    && m.versions != [] && r.from <= Current(m) && r.start == 2 * r.from % WRAP
    && (r.from == Current(m) && !open ==> Agrees(r.seen, m.versions[r.from]))
  }

  /** A read section that ended: it must retry unless the sequence came back to its start. */
  ghost predicate DoneOk(r: Read, retry: bool, to: nat, m: Shared) {
    && m.versions != [] && r.from <= to <= Current(m)
    && (!retry ==> (to - r.from) % PERIOD == 0)
    && (!retry && to == r.from ==> Agrees(r.seen, m.versions[r.from]))
  }

  ghost predicate ThreadOk(pc: PC, t: nat, m: Shared, open: bool) {
    && (Holds(pc) <==> m.owner == Some(t))
    && (pc.Reading? ==> ReadOk(pc.r, m, open))
    && (pc.Done? ==> DoneOk(pc.r, pc.retry, pc.to, m))
  }

  ghost predicate SharedOk(m: Shared, open: bool, bumps: nat) {
    && m.versions != [] && (m.locked <==> m.owner.Some?) && m.sequence == bumps % WRAP
    && (!open ==> m.words == m.versions[Current(m)])
    && (forall i :: 0 <= i < |m.versions| ==> |m.versions[i]| == |m.words|)
  }

  ghost predicate Inv(s: State) {
    && SharedOk(s.m, Open(s), Bumps(s)) && (s.m.owner.Some? ==> s.m.owner.value < |s.threads|)
    && forall t :: 0 <= t < |s.threads| ==> ThreadOk(s.threads[t], t, s.m, Open(s))
  }

  lemma FreshInv(s: State)
    requires Fresh(s)
    ensures Inv(s)
  {
  }

  // ---------------------------------------------------------------- Arithmetic of the counter

  lemma BumpCounts(n: nat)
    ensures Bump(n % WRAP) == (n + 1) % WRAP
  {
  }

  /** The sequence is odd exactly for an odd number of bumps. */
  lemma WrapParity(n: nat)
    ensures n % WRAP % 2 == n % 2
  {
    var q := n / WRAP;
    assert n == q * WRAP + n % WRAP;
  }

  /** Two even counts look the same exactly when they are whole periods apart. */
  lemma WrapPeriod(a: nat, b: nat)
    requires a <= b
    ensures 2 * a % WRAP == 2 * b % WRAP <==> (b - a) % PERIOD == 0
  {
    HalfWrap(a);
    HalfWrap(b);
    SameRemainder(a, b);
  }

  lemma HalfWrap(a: nat)
    ensures 2 * a % WRAP == 2 * (a % PERIOD)
  {
    var q := a / PERIOD;
    assert a == q * PERIOD + a % PERIOD;
    assert 2 * a == q * WRAP + 2 * (a % PERIOD);
  }

  lemma SameRemainder(a: nat, b: nat)
    requires a <= b
    ensures a % PERIOD == b % PERIOD <==> (b - a) % PERIOD == 0
  {
    var p, q, d := a / PERIOD, b / PERIOD, (b - a) / PERIOD;
    assert a == p * PERIOD + a % PERIOD && b == q * PERIOD + b % PERIOD && b - a == d * PERIOD + (b - a) % PERIOD;
  }

  // ---------------------------------------------------------------- Preservation

  /** Steps only append versions, and a write section closes only by completing a version. */
  ghost predicate Evolves(m: Shared, open: bool, m': Shared, open': bool) {
    && m.versions != [] && m.versions <= m'.versions
    && (m'.versions == m.versions && !open' ==> !open)
  }

  /** The spinlock changes hands only through thread `t`. */
  predicate HandsOver(o: Option<nat>, o': Option<nat>, t: nat) {
    o' == o || (o == None && o' == Some(t)) || (o == Some(t) && o' == None)
  }

  lemma OtherOk(pc: PC, u: nat, t: nat, m: Shared, open: bool, m': Shared, open': bool)
    requires ThreadOk(pc, u, m, open) && u != t && HandsOver(m.owner, m'.owner, t) && Evolves(m, open, m', open')
    ensures ThreadOk(pc, u, m', open')
  {
    if pc.Reading? {
      assert m'.versions[pc.r.from] == m.versions[pc.r.from];
    } else if pc.Done? {
      assert m'.versions[pc.r.from] == m.versions[pc.r.from];
    }
  }

  lemma OpenIsWriting(s: State, t: nat)
    requires Inv(s) && t < |s.threads|
    ensures s.threads[t].Writing? ==> Open(s) && s.m.owner == Some(t)
    ensures Holds(s.threads[t]) && !s.threads[t].Writing? ==> !Open(s) && s.m.owner == Some(t)
    ensures !Holds(s.threads[t]) ==> s.m.owner != Some(t)
  {
    assert ThreadOk(s.threads[t], t, s.m, Open(s));
  }

  lemma StepShared(s: State, t: nat, a: Action)
    requires Inv(s) && Enabled(s, t, a)
    ensures var s' := Advance(s, t, a);
      && SharedOk(s'.m, Open(s'), Bumps(s')) && HandsOver(s.m.owner, s'.m.owner, t)
      && Evolves(s.m, Open(s), s'.m, Open(s'))
  {
    var s' := Advance(s, t, a);
    OpenIsWriting(s, t);
    BumpCounts(Bumps(s));
    var pc := s.threads[t];
    if pc.Begin? {
      assert Open(s') && Bumps(s') == Bumps(s) + 1;
    } else if pc.Writing? && a == EndWrite {
      assert !Open(s') && Bumps(s') == Bumps(s) + 1;
    } else {
      assert Open(s') == Open(s);
    }
  }

  lemma StepOwn(s: State, t: nat, a: Action)
    requires Inv(s) && Enabled(s, t, a)
    ensures var s' := Advance(s, t, a); ThreadOk(s'.threads[t], t, s'.m, Open(s'))
  {
    var s' := Advance(s, t, a);
    OpenIsWriting(s, t);
    assert ThreadOk(s.threads[t], t, s.m, Open(s));
    match s.threads[t]
    case Load =>
      WrapParity(Bumps(s));
      assert Open(s') == Open(s);
    case Reading(r) =>
      assert Open(s') == Open(s);
      if a == Check {
        WrapParity(Bumps(s));
        WrapParity(2 * r.from);
        WrapPeriod(r.from, Current(s.m));
      }
    case _ =>
  }

  lemma StepKeepsInv(s: State, t: nat, a: Action)
    requires Inv(s) && Enabled(s, t, a)
    ensures Inv(Advance(s, t, a))
  {
    var s' := Advance(s, t, a);
    StepShared(s, t, a);
    StepOwn(s, t, a);
    forall u | 0 <= u < |s'.threads|
      ensures ThreadOk(s'.threads[u], u, s'.m, Open(s'))
    {
      if u != t {
        assert ThreadOk(s.threads[u], u, s.m, Open(s));
        OtherOk(s.threads[u], u, t, s.m, Open(s), s'.m, Open(s'));
      }
    }
  }

  lemma {:induction false} RunKeepsInv(s: State, run: seq<Turn>)
    requires Inv(s) && Legal(s, run)
    ensures Inv(Exec(s, run))
    decreases |run|
  {
    if run != [] {
      StepKeepsInv(s, run[0].t, run[0].a);
      RunKeepsInv(Advance(s, run[0].t, run[0].a), run[1..]);
    }
  }

  // ---------------------------------------------------------------- Theorems

  /** In every reachable state at most one thread is inside the spinlock, and the sequence is odd
      exactly while a thread is inside a write section. */
  lemma WritersExcludeEachOther(s0: State, run: seq<Turn>, t: nat, u: nat)
    requires Fresh(s0) && Legal(s0, run) && t < |s0.threads| && u < |s0.threads|
    ensures var s := Exec(s0, run);
      && |s.threads| == |s0.threads|
      && (Holds(s.threads[t]) && Holds(s.threads[u]) ==> t == u)
      && (s.threads[t] == Writing ==> s.m.sequence % 2 == 1)
      && (s.m.sequence % 2 == 1 ==> Open(s))
  {
    var s := Exec(s0, run);
    FreshInv(s0);
    RunKeepsInv(s0, run);
    SameThreads(s0, run);
    OpenIsWriting(s, t);
    OpenIsWriting(s, u);
    WrapParity(Bumps(s));
  }

  lemma {:induction false} SameThreads(s: State, run: seq<Turn>)
    requires Legal(s, run)
    ensures |Exec(s, run).threads| == |s.threads|
    decreases |run|
  {
    if run != [] {
      SameThreads(Advance(s, run[0].t, run[0].a), run[1..]);
    }
  }

  /** A read section that need not retry, and during which fewer than `PERIOD` write sections
      completed, has read every word from the one version that was current at its start. */
  lemma ConsistentReads(s0: State, run: seq<Turn>, t: nat)
    requires Fresh(s0) && Legal(s0, run) && t < |Exec(s0, run).threads|
    ensures var s := Exec(s0, run); var pc := s.threads[t];
      pc.Done? && !pc.retry && pc.to - pc.r.from < PERIOD ==>
        pc.r.from == pc.to < |s.m.versions| && Agrees(pc.r.seen, s.m.versions[pc.r.from])
  {
    var s := Exec(s0, run);
    FreshInv(s0);
    RunKeepsInv(s0, run);
    assert ThreadOk(s.threads[t], t, s.m, Open(s));
  }

  /** The verdict, exactly: no retry if and only if no write section is open and a multiple of
      `PERIOD` of them, usually none, completed since the read section began. */
  lemma VerdictIsExact(s0: State, run: seq<Turn>, t: nat)
    requires Fresh(s0) && Legal(s0, run) && t < |Exec(s0, run).threads| && Exec(s0, run).threads[t].Reading?
    ensures var s := Exec(s0, run); var r := s.threads[t].r; var pc := Advance(s, t, Check).threads[t];
      && pc.Done? && r.from <= Current(s.m)
      && (!pc.retry <==> !Open(s) && (Current(s.m) - r.from) % PERIOD == 0)
  {
    var s := Exec(s0, run);
    FreshInv(s0);
    RunKeepsInv(s0, run);
    var r := s.threads[t].r;
    assert ThreadOk(s.threads[t], t, s.m, Open(s));
    WrapParity(Bumps(s));
    WrapParity(2 * r.from);
    WrapPeriod(r.from, Current(s.m));
  }

  // ---------------------------------------------------------------- Getting in

  predicate SeeksLock(pc: PC) { pc.Exchange? || pc.Spin? || pc.CompareExchange? }

  /** A thread that seeks the spinlock while it is free, and is left alone, has it after one turn, or two
      if it was spinning. */
  lemma FreeLockIsTaken(s: State, t: nat)
    requires Inv(s) && t < |s.threads| && SeeksLock(s.threads[t]) && !s.m.locked
    ensures var run := if s.threads[t].Spin? then [Turn(t, Go), Turn(t, Go)] else [Turn(t, Go)];
      && Legal(s, run)
      && Exec(s, run) == State(s.m.(locked := true, owner := Some(t)), s.threads[t := Begin])
  {
    if s.threads[t].Spin? {
      var s1 := Advance(s, t, Go);
      var rest := [Turn(t, Go)];
      assert [Turn(t, Go), Turn(t, Go)][1..] == rest && rest[1..] == [];
      assert s1.threads[t] == CompareExchange;
      assert s.threads[t := CompareExchange][t := Begin] == s.threads[t := Begin];
      assert Exec(s1, rest) == Advance(s1, t, Go);
    } else {
      assert [Turn(t, Go)][1..] == [];
    }
  }

  /** A reader gets in if and only if no write section is open, and then at the current version. */
  lemma ReaderGetsIn(s0: State, run: seq<Turn>, t: nat)
    requires Fresh(s0) && Legal(s0, run) && t < |Exec(s0, run).threads| && Exec(s0, run).threads[t] == Load
    ensures var s := Exec(s0, run); var pc := Advance(s, t, Go).threads[t];
      if Open(s) then pc == Load else pc == Reading(Read(s.m.sequence, [], Current(s.m)))
  {
    var s := Exec(s0, run);
    FreshInv(s0);
    RunKeepsInv(s0, run);
    WrapParity(Bumps(s));
  }

  // ---------------------------------------------------------------- What a write section publishes

  /** What thread `t` wrote last to word `w` in a run, if anything. */
  function LastWrite(run: seq<Turn>, t: nat, w: nat): Option<int>
    decreases |run|
  {
    if run == [] then None
    else
      var n := |run| - 1;
      if run[n].t == t && run[n].a.Write? && run[n].a.w == w then Some(run[n].a.v) else LastWrite(run[..n], t, w)
  }

  function Written(run: seq<Turn>, t: nat, w: nat, old0: int): int {
    var last := LastWrite(run, t, w);
    if last.Some? then last.value else old0
  }

  /** Thread `t` does not end its write section in the run. */
  ghost predicate StaysOpen(run: seq<Turn>, t: nat) {
    forall i :: 0 <= i < |run| && run[i].t == t ==> run[i].a != EndWrite
  }

  lemma {:induction false} LastTurn(s: State, run: seq<Turn>)
    requires Legal(s, run) && run != []
    ensures var n := |run| - 1;
      && Legal(s, run[..n]) && Enabled(Exec(s, run[..n]), run[n].t, run[n].a)
      && Exec(s, run) == Advance(Exec(s, run[..n]), run[n].t, run[n].a)
    decreases |run|
  {
    var n := |run| - 1;
    if n > 0 {
      var s1 := Advance(s, run[0].t, run[0].a);
      LastTurn(s1, run[1..]);
      assert run[1..][..n - 1] == run[..n][1..];
    }
  }

  /** Only the writer changes the words while its section is open. */
  lemma OneTurnWrites(s: State, t: nat, u: nat, a: Action)
    requires Inv(s) && t < |s.threads| && s.threads[t] == Writing && Enabled(s, u, a) && !(u == t && a == EndWrite)
    ensures var s' := Advance(s, u, a);
      && |s'.threads| == |s.threads| && s'.threads[t] == Writing && s'.m.versions == s.m.versions
      && s'.m.words == if u == t then s.m.words[a.w := a.v] else s.m.words
  {
    OpenIsWriting(s, t);
    OpenIsWriting(s, u);
  }

  /** While its section is open, each word holds what the writer wrote to it last, whatever others do. */
  lemma {:induction false} WordsHoldWrites(s: State, t: nat, run: seq<Turn>)
    requires Inv(s) && t < |s.threads| && s.threads[t] == Writing && Legal(s, run) && StaysOpen(run, t)
    ensures var s' := Exec(s, run);
      && |s'.threads| == |s.threads| && s'.threads[t] == Writing && s'.m.versions == s.m.versions
      && |s'.m.words| == |s.m.words|
      && forall w :: 0 <= w < |s.m.words| ==> s'.m.words[w] == Written(run, t, w, s.m.words[w])
    decreases |run|
  {
    if run != [] {
      var n := |run| - 1;
      LastTurn(s, run);
      WordsHoldWrites(s, t, run[..n]);
      RunKeepsInv(s, run[..n]);
      OneTurnWrites(Exec(s, run[..n]), t, run[n].t, run[n].a);
    }
  }

  /** A write section publishes one version, in which each word holds what was written to it last, or its
      value before; nothing is published before the section ends. */
  lemma SectionPublishes(s0: State, before: seq<Turn>, t: nat, run: seq<Turn>)
    requires Fresh(s0) && Legal(s0, before) && t < |Exec(s0, before).threads|
    requires Exec(s0, before).threads[t] == Writing
    requires Legal(Exec(s0, before), run) && StaysOpen(run, t)
    ensures var s := Exec(s0, before); var s' := Exec(s, run);
      && Enabled(s', t, EndWrite)
      && var published := Advance(s', t, EndWrite).m.versions;
      && |published| == |s.m.versions| + 1 && published[..|s.m.versions|] == s.m.versions
      && var version := published[|s.m.versions|];
      && |version| == |s.m.words|
      && forall w :: 0 <= w < |version| ==> version[w] == Written(run, t, w, s.m.words[w])
  {
    FreshInv(s0);
    RunKeepsInv(s0, before);
    WordsHoldWrites(Exec(s0, before), t, run);
  }

  // ---------------------------------------------------------------- The bound is needed

  lemma {:induction false} Concatenate(s: State, a: seq<Turn>, b: seq<Turn>)
    requires Legal(s, a) && Legal(Exec(s, a), b)
    ensures Legal(s, a + b) && Exec(s, a + b) == Exec(Exec(s, a), b)
    decreases |a|
  {
    if a == [] {
      assert a + b == b;
    } else {
      assert (a + b)[1..] == a[1..] + b;
      Concatenate(Advance(s, a[0].t, a[0].a), a[1..], b);
    }
  }

  /** A writer, thread 0, is idle; a reader, thread 1, is somewhere in its read section. */
  ghost predicate Paused(s: State, reader: PC, n: nat) {
    && s.threads == [Idle, reader] && !s.m.locked && s.m.owner == None && |s.m.words| == 2
    && s.m.sequence == 2 * n % WRAP && |s.m.versions| == n + 1 && s.m.versions[0] == [0, 0]
    && (forall i :: 1 <= i <= n ==> s.m.versions[i] == [1, 1]) && (n > 0 ==> s.m.words == [1, 1])
  }

  lemma Prepend(s: State, turn: Turn, rest: seq<Turn>) returns (run: seq<Turn>)
    requires Enabled(s, turn.t, turn.a) && Legal(Advance(s, turn.t, turn.a), rest)
    ensures Legal(s, run) && Exec(s, run) == Exec(Advance(s, turn.t, turn.a), rest)
  {
    run := [turn] + rest;
    assert run[1..] == rest;
  }

  lemma OpenSection(m: Shared, reader: PC) returns (run: seq<Turn>)
    requires !m.locked
    ensures Legal(State(m, [Idle, reader]), run)
    ensures Exec(State(m, [Idle, reader]), run) ==
      State(m.(locked := true, owner := Some(0), sequence := Bump(m.sequence)), [Writing, reader])
  {
    var s := State(m, [Idle, reader]);
    var s1 := Advance(s, 0, StartWrite);
    assert s1.threads == [Exchange, reader];
    var s2 := Advance(s1, 0, Go);
    assert s2.threads == [Begin, reader];
    run := Prepend(s2, Turn(0, Go), []);
    run := Prepend(s1, Turn(0, Go), run);
    run := Prepend(s, Turn(0, StartWrite), run);
  }

  lemma FillSection(m: Shared, reader: PC) returns (run: seq<Turn>)
    requires |m.words| == 2
    ensures Legal(State(m, [Writing, reader]), run)
    ensures Exec(State(m, [Writing, reader]), run) == State(m.(words := [1, 1]), [Writing, reader])
  {
    var s := State(m, [Writing, reader]);
    var s1 := Advance(s, 0, Write(0, 1));
    assert s1 == State(m.(words := m.words[0 := 1]), [Writing, reader]);
    assert m.words[0 := 1][1 := 1] == [1, 1];
    run := Prepend(s1, Turn(0, Write(1, 1)), []);
    run := Prepend(s, Turn(0, Write(0, 1)), run);
  }

  lemma CloseSection(m: Shared, reader: PC) returns (run: seq<Turn>)
    ensures Legal(State(m, [Writing, reader]), run)
    ensures Exec(State(m, [Writing, reader]), run) ==
      State(m.(locked := false, owner := None, sequence := Bump(m.sequence), versions := m.versions + [m.words]),
            [Idle, reader])
  {
    var s := State(m, [Writing, reader]);
    var s1 := Advance(s, 0, EndWrite);
    assert s1.threads == [Unlock, reader];
    run := Prepend(s1, Turn(0, Go), []);
    run := Prepend(s, Turn(0, EndWrite), run);
  }

  /** One write section that leaves both words at 1. */
  lemma Section(s: State, reader: PC, n: nat) returns (run: seq<Turn>)
    requires Paused(s, reader, n)
    ensures Legal(s, run) && Paused(Exec(s, run), reader, n + 1)
  {
    var a := OpenSection(s.m, reader);
    var s1 := Exec(s, a);
    var b := FillSection(s1.m, reader);
    var s2 := Exec(s1, b);
    var c := CloseSection(s2.m, reader);
    Concatenate(s1, b, c);
    Concatenate(s, a, b + c);
    run := a + (b + c);
    BumpCounts(2 * n);
    BumpCounts(2 * n + 1);
  }

  lemma {:induction false} Sections(s: State, reader: PC, n: nat, k: nat) returns (run: seq<Turn>)
    requires Paused(s, reader, n)
    ensures Legal(s, run) && Paused(Exec(s, run), reader, n + k)
    decreases k
  {
    run := [];
    if k > 0 {
      var first := Section(s, reader, n);
      var rest := Sections(Exec(s, first), reader, n + 1, k - 1);
      Concatenate(s, first, rest);
      run := first + rest;
    }
  }

  lemma ReadFirst() returns (s0: State, s: State, run: seq<Turn>)
    ensures Fresh(s0) && Legal(s0, run) && Exec(s0, run) == s && Paused(s, Reading(Read(0, [Sight(0, 0)], 0)), 0)
  {
    s0 := State(Shared(0, false, [0, 0], [[0, 0]], None), [Idle, Idle]);
    var s1 := Advance(s0, 1, StartRead);
    assert s1.threads == [Idle, Load];
    var s2 := Advance(s1, 1, Go);
    assert s2.threads == [Idle, Reading(Read(0, [], 0))];
    s := Advance(s2, 1, ReadWord(0));
    var none: seq<Sight> := [];
    assert none + [Sight(0, 0)] == [Sight(0, 0)];
    assert s.threads == [Idle, Reading(Read(0, [Sight(0, 0)], 0))];
    run := Prepend(s2, Turn(1, ReadWord(0)), []);
    run := Prepend(s1, Turn(1, Go), run);
    run := Prepend(s0, Turn(1, StartRead), run);
  }

  lemma ReadSecond(s: State, k: nat) returns (run: seq<Turn>)
    requires Paused(s, Reading(Read(0, [Sight(0, 0)], 0)), k) && k > 0 && k % PERIOD == 0
    ensures Legal(s, run) && Exec(s, run) == State(s.m, [Idle, Done(Read(0, [Sight(0, 0), Sight(1, 1)], 0), false, k)])
  {
    var s1 := Advance(s, 1, ReadWord(1));
    assert [Sight(0, 0)] + [Sight(1, 1)] == [Sight(0, 0), Sight(1, 1)];
    assert s1.threads == [Idle, Reading(Read(0, [Sight(0, 0), Sight(1, 1)], 0))];
    WrapPeriod(0, k);
    run := Prepend(s1, Turn(1, Check), []);
    run := Prepend(s, Turn(1, ReadWord(1)), run);
  }

  /** After the run, thread `t` has ended a read section with `k` completed write sections inside, was
      told not to retry, and has seen words that no version agrees with. */
  ghost predicate AcceptsTorn(s0: State, run: seq<Turn>, t: nat, k: nat) {
    Fresh(s0) && Legal(s0, run) &&
    var s := Exec(s0, run);
    && t < |s.threads| && s.threads[t].Done? && !s.threads[t].retry && s.threads[t].to - s.threads[t].r.from == k
    && forall i :: 0 <= i < |s.m.versions| ==> !Agrees(s.threads[t].r.seen, s.m.versions[i])
  }

  /** With any positive multiple of `PERIOD` write sections inside, the verdict can be wrong: here the
      reader keeps one word of the first version and one of a later one. */
  lemma WrappedReadIsTorn(k: nat) returns (s0: State, run: seq<Turn>)
    requires k > 0 && k % PERIOD == 0
    ensures AcceptsTorn(s0, run, 1, k)
  {
    var s, a, b, c;
    s0, s, a := ReadFirst();
    b := Sections(s, Reading(Read(0, [Sight(0, 0)], 0)), 0, k);
    var s' := Exec(s, b);
    c := ReadSecond(s', k);
    Concatenate(s, b, c);
    Concatenate(s0, a, b + c);
    run := a + (b + c);
    var seen := [Sight(0, 0), Sight(1, 1)];
    forall i | 0 <= i < |s'.m.versions|
      ensures !Agrees(seen, s'.m.versions[i])
    {
      assert s'.m.versions[i] == [0, 0] || s'.m.versions[i] == [1, 1];
      assert seen[0] == Sight(0, 0) && seen[1] == Sight(1, 1);
    }
  }

  /** Whether any accepted read with `k` completed write sections inside is torn, for every `k`. */
  lemma TornExactly(k: nat)
    ensures (exists s0: State, run: seq<Turn>, t: nat :: AcceptsTorn(s0, run, t, k)) <==> k > 0 && k % PERIOD == 0
  {
    if k > 0 && k % PERIOD == 0 {
      var s0, run := WrappedReadIsTorn(k);
    }
    forall s0: State, run: seq<Turn>, t: nat | AcceptsTorn(s0, run, t, k)
      ensures k > 0 && k % PERIOD == 0
    {
      FreshInv(s0);
      RunKeepsInv(s0, run);
      var s := Exec(s0, run);
      assert ThreadOk(s.threads[t], t, s.m, Open(s));
    }
  }
}
