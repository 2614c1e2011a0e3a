/** Runs of the early allocator, from the start, in which it does not do what one would expect. */
module EarlyFailures {
  import opened EarlyRanges
  import opened EarlySearch
  import opened EarlyRuns

  /** A run goes on. */
  lemma {:induction false} RunSnoc(e: Env, st: State, run: seq<Event>, ev: Event)
    requires ValidEnv(e) && ValidState(e, st) && IsRun(e, st, run)
    requires ValidState(e, Final(st, run)) && Does(e, Final(st, run), ev.q, ev.r, ev.after)
    ensures IsRun(e, st, run + [ev]) && Final(st, run + [ev]) == ev.after && ValidState(e, ev.after)
    decreases |run|
  {
    DoesSound(e, Final(st, run), ev.q, ev.r, ev.after);
    var run' := run + [ev];
    if run == [] {
      assert run' == [ev];
      assert [ev][1..] == [];
    } else {
      var first := run[0];
      DoesSound(e, st, first.q, first.r, first.after);
      assert Final(first.after, run[1..]) == Final(st, run);
      RunSnoc(e, first.after, run[1..], ev);
      assert run'[0] == first && run'[1..] == run[1..] + [ev];
    }
  }

  // ---------------------------------------------------------------- The whole address space

  /** All memory is added and freed, and then no request is served. */
  lemma WholeSpaceRun(e: Env, size: nat) returns (run: seq<Event>)
    requires ValidEnv(e) && 0 < size <= ADDR_MAX
    ensures IsRun(e, START, run) && |run| == 3
    ensures run[0].q == Add(0, ADDR_MAX, PROT_READ_WRITE) && run[0].r == Success(0)
    ensures run[1].q == Free(0, ADDR_MAX) && run[1].r == Success(0)
    ensures run[2].q == Alloc(size) && run[2].r == OutOfMemory
  {
    var used := Used(0, ADDR_MAX, PROT_READ_WRITE);
    var s0: seq<Range> := [];
    var s1 := Insert(s0, 0, used);
    assert s1 == [used] && Slot(s0, 0, 0);
    var first := Event(Add(0, ADDR_MAX, PROT_READ_WRITE), Success(0), START.(ranges := s1));
    run := [];
    RunSnoc(e, START, run, first);
    run := run + [first];

    assert Exactly(s1[0], 0, ADDR_MAX);
    var s2 := MarkFree(s1, 0);
    assert s2 == [used.(free := true)];
    var second := Event(Free(0, ADDR_MAX), Success(0), START.(ranges := s2));
    assert FreesAt(first.after, 0, ADDR_MAX, 0, second.after);
    RunSnoc(e, START, run, second);
    run := run + [second];

    var st := second.after;
    WholeSpaceBlocks(e, s2, 0, TopOf(e, st), size, 0);
    var found := TopDown(s2, e.reserved, e.lo, 0, TopOf(e, st), size);
    var third := Event(Alloc(size), OutOfMemory, State(s2, TopOf(e, st), found.pos));
    assert Allocates(e, st, size, OutOfMemory, third.after);
    RunSnoc(e, START, run, third);
    run := run + [third];
  }

  // ---------------------------------------------------------------- A full array

  /** `n` used ranges of eight bytes with gaps between them. */
  function Column(n: nat): (s: seq<Range>)
    requires n <= CAPACITY
    ensures |s| == n && forall i :: 0 <= i < n ==> s[i] == Used(16 * (CAPACITY - 1 - i), 8, PROT_READ_WRITE)
  {
    if n == 0 then [] else Column(n - 1) + [Used(16 * (CAPACITY - n), 8, PROT_READ_WRITE)]
  }

  lemma GrowColumn(e: Env, n: nat) returns (ev: Event)
    requires ValidEnv(e) && n < CAPACITY && ValidState(e, START.(ranges := Column(n)))
    ensures Does(e, START.(ranges := Column(n)), ev.q, ev.r, ev.after) && ev.after == START.(ranges := Column(n + 1))
  {
    var s, s', addr := Column(n), Column(n + 1), 16 * (CAPACITY - n - 1);
    assert Slot(s, n, addr);
    assert Insert(s, n, Used(addr, 8, PROT_READ_WRITE)) == s';
    ev := Event(Add(addr, 8, PROT_READ_WRITE), Success(addr), START.(ranges := s'));
  }

  lemma {:induction false} FillRun(e: Env, n: nat) returns (run: seq<Event>)
    requires ValidEnv(e) && n <= CAPACITY
    ensures IsRun(e, START, run) && Final(START, run) == START.(ranges := Column(n))
    ensures ValidState(e, Final(START, run))
  {
    run := [];
    if n > 0 {
      run := FillRun(e, n - 1);
      var ev := GrowColumn(e, n - 1);
      RunSnoc(e, START, run, ev);
      run := run + [ev];
    }
  }

  /** The full array with its first range freed. */
  function Loosened(): (s: seq<Range>)
    ensures |s| == CAPACITY && s == Column(CAPACITY)[0 := s[0]] && s[0] == Column(CAPACITY)[0].(free := true)
  {
    var s := Column(CAPACITY);
    s[0 := s[0].(free := true)]
  }

  lemma FreeFirst(e: Env) returns (ev: Event)
    requires ValidEnv(e) && ValidState(e, START.(ranges := Column(CAPACITY)))
    ensures Does(e, START.(ranges := Column(CAPACITY)), ev.q, ev.r, ev.after)
    ensures var addr := 16 * (CAPACITY - 1); ev == Event(Free(addr, 8), Success(addr), START.(ranges := Loosened()))
  {
    var s, addr := Column(CAPACITY), 16 * (CAPACITY - 1);
    assert Exactly(s[0], addr, 8);
    assert MarkFree(s, 0) == Loosened();
    ev := Event(Free(addr, 8), Success(addr), START.(ranges := Loosened()));
    assert FreesAt(START.(ranges := s), addr, 8, 0, ev.after);
  }

  lemma AllocFails(e: Env) returns (ev: Event)
    requires ValidEnv(e) && ValidState(e, START.(ranges := Loosened()))
    ensures Does(e, START.(ranges := Loosened()), ev.q, ev.r, ev.after) && ev.q == Alloc(4) && ev.r == OutOfMemory
    ensures forall a, free :: Holds(ev.after.ranges, a, free) <==>
      Holds(Loosened(), a, free) && !(Loosened()[0].end - 4 <= a < Loosened()[0].end)
  {
    var st := START.(ranges := Loosened());
    assert BestFit(st.ranges, 0, 4);
    var st' := State(Take(st.ranges, 0, 4), TopOf(e, st), 0);
    assert Reuses(e, st, 0, 4, OutOfMemory, st');
    FullArrayLosesBytes(e, st, 4, OutOfMemory, st', 0);
    ev := Event(Alloc(4), OutOfMemory, st');
  }

  lemma FirstIsFree(a: int)
    requires Loosened()[0].start <= a < Loosened()[0].end
    ensures Holds(Loosened(), a, true) && (forall i :: 0 <= i < CAPACITY ==> Loosened()[i].free == (i == 0))
  {
    assert In(Loosened()[0], a);
  }

  /** The array is full, one range of eight bytes was freed, and a request for four bytes fails; the
      upper four bytes are neither free nor used afterwards. */
  lemma FullArrayRun(e: Env) returns (run: seq<Event>, addr: nat)
    requires ValidEnv(e)
    ensures IsRun(e, START, run) && |run| >= 2
    ensures var before, last := run[|run| - 2], run[|run| - 1];
      && before.q == Free(addr, 8) && before.r == Success(addr)
      && last.q == Alloc(4) && last.r == OutOfMemory
      && forall a :: addr + 4 <= a < addr + 8 ==>
        Holds(before.after.ranges, a, true) && forall free :: !Holds(last.after.ranges, a, free)
  {
    run := FillRun(e, CAPACITY);
    addr := 16 * (CAPACITY - 1);
    var first := FreeFirst(e);
    RunSnoc(e, START, run, first);
    run := run + [first];
    var second := AllocFails(e);
    RunSnoc(e, START, run, second);
    run := run + [second];
    forall a | addr + 4 <= a < addr + 8
      ensures Holds(first.after.ranges, a, true) && forall free :: !Holds(second.after.ranges, a, free)
    {
      FirstIsFree(a);
    }
  }

  // ---------------------------------------------------------------- A failed search

  /** A request fails; made again, it is given a reserved range. */
  lemma RetryRun() returns (e: Env, run: seq<Event>)
    ensures ValidEnv(e) && IsRun(e, START, run) && |run| == 2
    ensures run[0].q == run[1].q == Alloc(0x8000) && run[0].r == OutOfMemory
    ensures run[1].r.Success? && !Avoids(e.reserved, run[1].r.addr, 0x8000)
  {
    e := Env(0x4000, 0x10000, [Span(0x8000, 0x9000)]);
    RetryAfterNoMem();
    var size := 0x8000;
    var pos := TopDown([], e.reserved, e.lo, 0, e.hi, size).pos;
    var none: seq<Range> := [];
    var st1 := State(none, e.hi, pos);
    var first := Event(Alloc(size), OutOfMemory, st1);
    assert Allocates(e, START, size, OutOfMemory, st1);
    run := [];
    RunSnoc(e, START, run, first);
    run := run + [first];

    var s2 := Insert(none, 0, Used(0x8000, size, PROT_READ_WRITE));
    assert Slot(none, 0, 0x8000);
    var again := TopDown([], e.reserved, e.lo, pos, e.hi, size);
    var st2 := State(s2, 0x8000, again.pos);
    assert Allocates(e, st1, size, Success(0x8000), st2);
    var second := Event(Alloc(size), Success(0x8000), st2);
    RunSnoc(e, START, run, second);
    run := run + [second];
  }

  // ---------------------------------------------------------------- The range left to LibOS

  /** Before anything is allocated, the range left to LibOS is the top of the address space. */
  lemma LibosRangeAtStart(e: Env, size: nat)
    requires ValidEnv(e) && e.reserved == [] && e.hi < ADDR_MAX && 0 < size && e.lo + size <= ADDR_MAX
    ensures TopDown(START.ranges, e.reserved, e.lo, START.pos, START.last, size).out == Ok(ADDR_MAX - size)
    ensures RoomAbove(e, START.ranges, size)
  {
    assert Sink([], 1, ADDR_MAX - size, size) == Search(Ok(ADDR_MAX - size), 1);
    assert Suitable(START.ranges, e.reserved, e.lo, ADDR_MAX, size, ADDR_MAX - size);
  }
}
