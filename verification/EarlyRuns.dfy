/** What each operation of the early allocator does, and what holds after any run of them. */
module EarlyRuns {
  import opened EarlyRanges
  import opened EarlySearch

  /** Number of entries of the range array. */
  const CAPACITY := 0x100

  const PROT_READ_WRITE := 3

  datatype Result = Success(addr: nat) | Invalid | OutOfMemory

  /** What the host fixes: the bounds of the memory that may be used, and the reserved ranges. */
  datatype Env = Env(lo: nat, hi: nat, reserved: seq<Span>)

  /** The range array, the last address found by a search, and how far the feed was read. */
  datatype State = State(ranges: seq<Range>, last: nat, pos: nat)

  ghost predicate ValidEnv(e: Env) {
    Feed(e.reserved) && e.hi <= ADDR_MAX
  }

  ghost predicate ValidState(e: Env, st: State) {
    && |st.ranges| <= CAPACITY && Sound(st.ranges)
    && st.pos <= |e.reserved| + 1 && (st.last == ADDR_MAX || st.last <= e.hi)
  }

  const START := State([], ADDR_MAX, 0)

  /** Where the next search starts. */
  function TopOf(e: Env, st: State): nat {
    if st.last == ADDR_MAX then e.hi else st.last
  }

  function Used(addr: nat, size: nat, prot: int): Range {
    Range(addr, addr + size, prot, false)
  }

  predicate Exactly(r: Range, addr: nat, size: nat) {
    r.start == addr && r.end == addr + size
  }

  /** `s` has a free range that may serve `size` bytes. */
  ghost predicate Reusable(s: seq<Range>, size: nat) {
    exists i :: 0 <= i < |s| && Fits(s[i], size)
  }

  ghost predicate Known(s: seq<Range>, addr: nat, size: nat) {
    exists i :: 0 <= i < |s| && Exactly(s[i], addr, size)
  }

  // ---------------------------------------------------------------- Operations

  /** A range is added at the place where it keeps the array sorted, unless the array is full. */
  ghost predicate Adds(s: seq<Range>, addr: nat, size: nat, prot: int, ok: bool, s': seq<Range>) {
    if |s| < CAPACITY then ok && exists k: nat :: Slot(s, k, addr) && s' == Insert(s, k, Used(addr, size, prot))
    else !ok && s' == s
  }

  /** The end of an allocation: `out` is added when something was found. */
  ghost predicate Books(s: seq<Range>, out: Outcome, size: nat, r: Result, s': seq<Range>) {
    match out
    case NoMem => r == OutOfMemory && s' == s
    case Ok(addr) =>
      && Adds(s, addr, size, PROT_READ_WRITE, r == Success(addr), s')
      && (r == Success(addr) || r == OutOfMemory)
  }

  /** An allocation served from the best fitting free range `k`. */
  ghost predicate Reuses(e: Env, st: State, k: nat, size: nat, r: Result, st': State) {
    && BestFit(st.ranges, k, size) && st'.last == TopOf(e, st) && st'.pos == st.pos
    && Books(Take(st.ranges, k, size), Ok(st.ranges[k].end - size), size, r, st'.ranges)
  }

  /** An allocation from unused addresses. */
  ghost predicate Searches(e: Env, st: State, size: nat, r: Result, st': State) {
    st.pos <= |e.reserved| + 1 && size > 0 &&
    var found := TopDown(st.ranges, e.reserved, e.lo, st.pos, TopOf(e, st), size);
    && st'.pos == found.pos && st'.last == (if found.out.Ok? then found.out.addr else TopOf(e, st))
    && Books(st.ranges, found.out, size, r, st'.ranges)
  }

  ghost predicate Allocates(e: Env, st: State, size: nat, r: Result, st': State) {
    if Reusable(st.ranges, size) then exists k: nat :: Reuses(e, st, k, size, r, st')
    else Searches(e, st, size, r, st')
  }

  /** The first half of an allocation: room was looked for, in free range `k` if one fits. */
  ghost predicate Rooms(e: Env, st: State, size: nat, k: nat, out: Outcome, st': State) {
    if Reusable(st.ranges, size) then
      && BestFit(st.ranges, k, size) && out == Ok(st.ranges[k].end - size)
      && st' == State(Take(st.ranges, k, size), TopOf(e, st), st.pos)
    else
      && st.pos <= |e.reserved| + 1 && size > 0
      && Search(out, st'.pos) == TopDown(st.ranges, e.reserved, e.lo, st.pos, TopOf(e, st), size)
      && st'.ranges == st.ranges && st'.last == if out.Ok? then out.addr else TopOf(e, st)
  }

  lemma RoomReused(e: Env, st: State, size: nat, k: nat, addr: nat, st': State)
    requires BestFit(st.ranges, k, size) && addr == st.ranges[k].end - size
    requires st' == State(Take(st.ranges, k, size), TopOf(e, st), st.pos)
    ensures Rooms(e, st, size, k, Ok(addr), st')
  {
  }

  lemma RoomSearched(e: Env, st: State, size: nat, k: nat, out: Outcome, st': State)
    requires !Reusable(st.ranges, size) && size > 0 && st.pos <= |e.reserved| + 1 && st'.ranges == st.ranges
    requires Search(out, st'.pos) == TopDown(st.ranges, e.reserved, e.lo, st.pos, TopOf(e, st), size)
    requires st'.last == if out.Ok? then out.addr else TopOf(e, st)
    ensures Rooms(e, st, size, k, out, st')
  {
  }

  lemma RoomsAllocate(e: Env, st: State, size: nat, k: nat, out: Outcome, st1: State, r: Result, s': seq<Range>)
    requires Rooms(e, st, size, k, out, st1) && Books(st1.ranges, out, size, r, s')
    ensures Allocates(e, st, size, r, State(s', st1.last, st1.pos))
  {
    if Reusable(st.ranges, size) {
      assert Reuses(e, st, k, size, r, State(s', st1.last, st1.pos));
    }
  }

  ghost predicate FreesAt(st: State, addr: nat, size: nat, k: nat, st': State) {
    k < |st.ranges| && Exactly(st.ranges[k], addr, size) && st' == st.(ranges := MarkFree(st.ranges, k))
  }

  ghost predicate Frees(st: State, addr: nat, size: nat, r: Result, st': State) {
    if Known(st.ranges, addr, size) then
      && r == Success(addr)
      && exists k: nat :: FreesAt(st, addr, size, k, st')
    else r == Invalid && st' == st
  }

  datatype Request = Add(addr: nat, size: nat, prot: int) | Alloc(size: nat) | Free(addr: nat, size: nat)

  /** One operation, called as its callers must. */
  ghost predicate Does(e: Env, st: State, q: Request, r: Result, st': State)
    requires ValidState(e, st)
  {
    match q
    case Add(addr, size, prot) =>
      && addr + size <= ADDR_MAX && Vacant(st.ranges, addr, size) && st'.last == st.last && st'.pos == st.pos
      && Adds(st.ranges, addr, size, prot, r == Success(addr), st'.ranges) && (r == Success(addr) || r == OutOfMemory)
    case Alloc(size) => Allocates(e, st, size, r, st')
    case Free(addr, size) => Frees(st, addr, size, r, st')
  }

  // ---------------------------------------------------------------- One operation

  lemma AddsSound(s: seq<Range>, addr: nat, size: nat, prot: int, ok: bool, s': seq<Range>)
    requires Sound(s) && |s| <= CAPACITY && addr + size <= ADDR_MAX && Vacant(s, addr, size)
    requires Adds(s, addr, size, prot, ok, s')
    ensures Sound(s') && |s'| <= CAPACITY
  {
    if ok {
      var k: nat :| Slot(s, k, addr) && s' == Insert(s, k, Used(addr, size, prot));
      InsertSound(s, k, Used(addr, size, prot));
    }
  }

  /** Room for an allocation: what it leaves of the array, and the place it takes. */
  lemma ReuseRoom(s: seq<Range>, k: nat, size: nat)
    requires Sound(s) && |s| <= CAPACITY && BestFit(s, k, size)
    ensures var s1, addr := Take(s, k, size), s[k].end - size;
      Sound(s1) && |s1| <= CAPACITY && addr + size <= ADDR_MAX && Vacant(s1, addr, size)
  {
    TakeSound(s, k, size);
  }

  lemma AllocSound(e: Env, st: State, size: nat, r: Result, st': State)
    requires ValidEnv(e) && ValidState(e, st) && Allocates(e, st, size, r, st')
    ensures ValidState(e, st')
  {
    if Reusable(st.ranges, size) {
      var k: nat :| Reuses(e, st, k, size, r, st');
      ReuseRoom(st.ranges, k, size);
      var addr := st.ranges[k].end - size;
      AddsSound(Take(st.ranges, k, size), addr, size, PROT_READ_WRITE, r == Success(addr), st'.ranges);
    } else {
      TopDownIsSuitable(st.ranges, e.reserved, e.lo, st.pos, TopOf(e, st), size);
      var found := TopDown(st.ranges, e.reserved, e.lo, st.pos, TopOf(e, st), size);
      if found.out.Ok? {
        AddsSound(st.ranges, found.out.addr, size, PROT_READ_WRITE, r == Success(found.out.addr), st'.ranges);
      }
    }
  }

  /** Every operation keeps the ranges disjoint, sorted and coalesced. */
  lemma DoesSound(e: Env, st: State, q: Request, r: Result, st': State)
    requires ValidEnv(e) && ValidState(e, st) && Does(e, st, q, r, st')
    ensures ValidState(e, st')
  {
    match q
    case Add(addr, size, prot) =>
      AddsSound(st.ranges, addr, size, prot, r == Success(addr), st'.ranges);
    case Alloc(size) =>
      AllocSound(e, st, size, r, st');
    case Free(addr, size) =>
      if Known(st.ranges, addr, size) {
        var k: nat :| FreesAt(st, addr, size, k, st');
        MarkFreeSound(st.ranges, k);
      }
  }

  // ---------------------------------------------------------------- Conservation

  /** Between `s` and `s'` the bytes from `addr` became used, and no other address changed. */
  ghost predicate BecameUsed(s: seq<Range>, s': seq<Range>, addr: nat, size: nat, wasFree: bool) {
    forall a, free ::
      if addr <= a < addr + size then (Holds(s, a, free) <==> wasFree && free) && (Holds(s', a, free) <==> !free)
      else (Holds(s', a, free) <==> Holds(s, a, free))
  }

  lemma AddsHolds(s: seq<Range>, addr: nat, size: nat, prot: int, s': seq<Range>)
    requires Vacant(s, addr, size) && Adds(s, addr, size, prot, true, s')
    ensures BecameUsed(s, s', addr, size, false)
  {
    var r := Used(addr, size, prot);
    var k: nat :| Slot(s, k, addr) && s' == Insert(s, k, r);
    forall a, free
      ensures if addr <= a < addr + size then !Holds(s, a, free) && (Holds(s', a, free) <==> !free)
              else (Holds(s', a, free) <==> Holds(s, a, free))
    {
      InsertHolds(s, k, r, a, free);
      if Holds(s, a, free) {
        var i :| 0 <= i < |s| && In(s[i], a) && s[i].free == free;
        assert !Overlaps(s[i], addr, size);
      }
    }
  }

  /** Serving a request from a free range moves exactly its bytes from free to used; serving it by
      search adds exactly its bytes. */
  lemma AllocConserves(e: Env, st: State, size: nat, addr: nat, st': State)
    requires ValidEnv(e) && ValidState(e, st) && Allocates(e, st, size, Success(addr), st')
    ensures BecameUsed(st.ranges, st'.ranges, addr, size, Reusable(st.ranges, size))
  {
    var s, s' := st.ranges, st'.ranges;
    if Reusable(s, size) {
      var k: nat :| Reuses(e, st, k, size, Success(addr), st');
      ReuseRoom(s, k, size);
      AddsHolds(Take(s, k, size), addr, size, PROT_READ_WRITE, s');
      forall a, free
        ensures if addr <= a < addr + size then Holds(s, a, free) <==> free
                else Holds(Take(s, k, size), a, free) <==> Holds(s, a, free)
      {
        TakeHolds(s, k, size, a, free);
        if addr <= a < addr + size {
          OneKind(s, k, a);
        }
      }
    } else {
      TopDownIsSuitable(s, e.reserved, e.lo, st.pos, TopOf(e, st), size);
      AddsHolds(s, addr, size, PROT_READ_WRITE, s');
    }
  }

  /** `addr` is where the top `size` bytes of free range `k` start, and no other free range that is large
      enough is smaller, the one of the whole address space aside. */
  ghost predicate TopOfSmallest(s: seq<Range>, k: int, size: nat, addr: nat) {
    && 0 <= k < |s| && s[k].free && s[k].start <= addr && addr + size == s[k].end
    && forall j :: 0 <= j < |s| && s[j].free && size <= s[j].end - s[j].start < ADDR_MAX ==>
         s[k].end - s[k].start <= s[j].end - s[j].start
  }

  /** A request served from a free range gets the top of a smallest one. */
  lemma ReusedIsSmallest(e: Env, st: State, size: nat, addr: nat, st': State)
    requires Reusable(st.ranges, size) && Allocates(e, st, size, Success(addr), st')
    ensures exists k :: TopOfSmallest(st.ranges, k, size, addr)
  {
    var k: nat :| Reuses(e, st, k, size, Success(addr), st');
    assert TopOfSmallest(st.ranges, k, size, addr);
  }

  /** A request that could be served from a free range fails exactly when the array is full and the
      best fit is not used up; then the bytes cut off it are lost. */
  lemma FullArrayLosesBytes(e: Env, st: State, size: nat, r: Result, st': State, k: nat)
    requires ValidEnv(e) && ValidState(e, st) && Reuses(e, st, k, size, r, st')
    ensures r == OutOfMemory <==> |st.ranges| == CAPACITY && st.ranges[k].Size() != size
    ensures r == OutOfMemory ==>
      forall a, free :: Holds(st'.ranges, a, free) <==>
        Holds(st.ranges, a, free) && !(st.ranges[k].end - size <= a < st.ranges[k].end)
  {
    forall a, free
      ensures Holds(Take(st.ranges, k, size), a, free) <==>
        Holds(st.ranges, a, free) && !(st.ranges[k].end - size <= a < st.ranges[k].end)
    {
      TakeHolds(st.ranges, k, size, a, free);
    }
  }

  /** Freeing makes exactly the bytes of the range free. */
  lemma FreeConserves(e: Env, st: State, addr: nat, size: nat, st': State)
    requires ValidState(e, st) && Frees(st, addr, size, Success(addr), st')
    ensures forall a, free ::
      if addr <= a < addr + size then Holds(st'.ranges, a, free) <==> free
      else Holds(st'.ranges, a, free) <==> Holds(st.ranges, a, free)
  {
    var k: nat :| FreesAt(st, addr, size, k, st');
    forall a, free
      ensures if addr <= a < addr + size then Holds(st'.ranges, a, free) <==> free
              else Holds(st'.ranges, a, free) <==> Holds(st.ranges, a, free)
    {
      MarkFreeHolds(st.ranges, k, a);
    }
  }

  predicate WholeSpace(r: Range) {
    r.start == 0 && r.end == ADDR_MAX
  }

  lemma WholeSpaceBlocks(e: Env, s: seq<Range>, pos: nat, top: nat, size: nat, k: nat)
    requires ValidEnv(e) && pos <= |e.reserved| + 1 && top <= ADDR_MAX && size > 0 && k < |s| && WholeSpace(s[k])
    ensures TopDown(s, e.reserved, e.lo, pos, top, size).out == NoMem
  {
    TopDownIsSuitable(s, e.reserved, e.lo, pos, top, size);
    var found := TopDown(s, e.reserved, e.lo, pos, top, size);
    assert found.out.Ok? ==> Overlaps(s[k], found.out.addr, size);
  }

  lemma ReusedFits(e: Env, st: State, k: nat, size: nat, r: Result, st': State)
    requires Reuses(e, st, k, size, r, st')
    ensures Reusable(st.ranges, size)
  {
  }

  /** Although free range `k` is large enough, none is reused: exactly when it is the only such range
      and spans the whole address space. Then the request fails. */
  lemma WholeSpaceIsNotReused(e: Env, st: State, size: nat, r: Result, st': State, k: nat)
    requires ValidEnv(e) && ValidState(e, st) && Allocates(e, st, size, r, st')
    requires k < |st.ranges| && st.ranges[k].free && size <= st.ranges[k].Size()
    ensures (forall j: nat :: !Reuses(e, st, j, size, r, st')) <==>
      WholeSpace(st.ranges[k]) && forall j :: 0 <= j < |st.ranges| && j != k ==>
        !(st.ranges[j].free && size <= st.ranges[j].Size())
    ensures (forall j: nat :: !Reuses(e, st, j, size, r, st')) ==> r == OutOfMemory && st'.ranges == st.ranges
  {
    var s := st.ranges;
    if !Reusable(s, size) {
      assert !Fits(s[k], size);
      forall j | 0 <= j < |s| && j != k
        ensures !(s[j].free && size <= s[j].Size())
      {
        assert !Fits(s[j], size);
        assert j < k ==> s[k].end <= s[j].start;
        assert k < j ==> s[j].end <= s[k].start;
      }
      WholeSpaceBlocks(e, s, st.pos, TopOf(e, st), size, k);
      forall j: nat
        ensures !Reuses(e, st, j, size, r, st')
      {
        if Reuses(e, st, j, size, r, st') {
          ReusedFits(e, st, j, size, r, st');
          assert false;
        }
      }
    } else {
      var i: nat :| Reuses(e, st, i, size, r, st');
      assert Fits(s[i], size);
    }
  }

  // ---------------------------------------------------------------- Live blocks

  datatype Block = Block(addr: nat, size: nat)

  /** `b` is a used range of its own. */
  ghost predicate Backs(s: seq<Range>, b: Block) {
    exists i :: 0 <= i < |s| && Exactly(s[i], b.addr, b.size) && !s[i].free
  }

  /** The blocks handed out and not freed since. */
  function Lives(live: set<Block>, q: Request, r: Result): set<Block> {
    match q
    case Add(addr, size, _) => if r.Success? then live + {Block(addr, size)} else live
    case Alloc(size) => if r.Success? then live + {Block(r.addr, size)} else live
    case Free(addr, size) => if r.Success? then live - {Block(addr, size)} else live
  }

  lemma AddsBacks(s: seq<Range>, addr: nat, size: nat, prot: int, ok: bool, s': seq<Range>, b: Block)
    requires Adds(s, addr, size, prot, ok, s') && (Backs(s, b) || (ok && b == Block(addr, size)))
    ensures Backs(s', b)
  {
    if ok {
      var k: nat :| Slot(s, k, addr) && s' == Insert(s, k, Used(addr, size, prot));
      assert s'[k] == Used(addr, size, prot);
      if Backs(s, b) {
        var i :| 0 <= i < |s| && Exactly(s[i], b.addr, b.size) && !s[i].free;
        assert s'[if i < k then i else i + 1] == s[i];
      }
    }
  }

  lemma TakeBacks(s: seq<Range>, k: nat, size: nat, b: Block)
    requires k < |s| && s[k].free && size <= s[k].Size() && Backs(s, b)
    ensures Backs(Take(s, k, size), b)
  {
    var i :| 0 <= i < |s| && Exactly(s[i], b.addr, b.size) && !s[i].free;
    assert Take(s, k, size)[if s[k].Size() == size && i > k then i - 1 else i] == s[i];
  }

  lemma MergeIfBacks(s: seq<Range>, k: int, b: Block)
    requires Backs(s, b)
    ensures Backs(MergeIf(s, k), b)
  {
    if TouchingAt(s, k) {
      var i :| 0 <= i < |s| && Exactly(s[i], b.addr, b.size) && !s[i].free;
      assert i != k && i != k + 1;
      assert Merge(s, k)[if i < k then i else i - 1] == s[i];
    }
  }

  lemma MarkFreeBacks(s: seq<Range>, k: nat, b: Block)
    requires k < |s| && Backs(s, b) && !Exactly(s[k], b.addr, b.size)
    ensures Backs(MarkFree(s, k), b)
  {
    var s0 := s[k := s[k].(free := true)];
    var i :| 0 <= i < |s| && Exactly(s[i], b.addr, b.size) && !s[i].free;
    assert s0[i] == s[i];
    MergeIfBacks(s0, k, b);
    MergeIfBacks(MergeIf(s0, k), k - 1, b);
  }

  lemma AllocBacks(e: Env, st: State, size: nat, r: Result, st': State, b: Block)
    requires Allocates(e, st, size, r, st') && (Backs(st.ranges, b) || (r.Success? && b == Block(r.addr, size)))
    ensures Backs(st'.ranges, b)
  {
    if Reusable(st.ranges, size) {
      var k: nat :| Reuses(e, st, k, size, r, st');
      var addr := st.ranges[k].end - size;
      if Backs(st.ranges, b) {
        TakeBacks(st.ranges, k, size, b);
      }
      AddsBacks(Take(st.ranges, k, size), addr, size, PROT_READ_WRITE, r == Success(addr), st'.ranges, b);
    } else {
      var found := TopDown(st.ranges, e.reserved, e.lo, st.pos, TopOf(e, st), size);
      if found.out.Ok? {
        AddsBacks(st.ranges, found.out.addr, size, PROT_READ_WRITE, r == Success(found.out.addr), st'.ranges, b);
      }
    }
  }

  lemma FreeBacks(st: State, addr: nat, size: nat, r: Result, st': State, b: Block)
    requires Frees(st, addr, size, r, st') && Backs(st.ranges, b) && (r.Success? ==> b != Block(addr, size))
    ensures Backs(st'.ranges, b)
  {
    if Known(st.ranges, addr, size) {
      var k: nat :| FreesAt(st, addr, size, k, st');
      MarkFreeBacks(st.ranges, k, b);
    }
  }

  lemma DoesBacks(e: Env, st: State, q: Request, r: Result, st': State, live: set<Block>, b: Block)
    requires ValidState(e, st) && Does(e, st, q, r, st') && b in Lives(live, q, r)
    requires forall b :: b in live ==> Backs(st.ranges, b)
    ensures Backs(st'.ranges, b)
  {
    match q
    case Add(addr, size, prot) =>
      AddsBacks(st.ranges, addr, size, prot, r == Success(addr), st'.ranges, b);
    case Alloc(size) =>
      AllocBacks(e, st, size, r, st', b);
    case Free(addr, size) =>
      FreeBacks(st, addr, size, r, st', b);
  }

  /** Different live blocks share no byte. */
  lemma BackedBlocksApart(s: seq<Range>, b: Block, c: Block)
    requires Descending(s) && Backs(s, b) && Backs(s, c) && b != c
    ensures b.addr + b.size <= c.addr || c.addr + c.size <= b.addr
  {
    var i :| 0 <= i < |s| && Exactly(s[i], b.addr, b.size) && !s[i].free;
    var j :| 0 <= j < |s| && Exactly(s[j], c.addr, c.size) && !s[j].free;
    assert i != j;
    if i < j {
      assert s[j].end <= s[i].start;
    } else {
      assert s[i].end <= s[j].start;
    }
  }

  // ---------------------------------------------------------------- Bounds and protection

  /** The ranges handed out and not freed since, with their protection. */
  function Gives(given: set<Range>, q: Request, r: Result): set<Range> {
    if !r.Success? then given
    else match q
      case Add(addr, size, prot) => given + {Range(addr, addr + size, prot, false)}
      case Alloc(size) => given + {Range(r.addr, r.addr + size, 3, false)}
      case Free(addr, size) => set x | x in given && !(x.start == addr && x.end == addr + size)
  }

  /** `x` is a used range with at least one byte. */
  predicate Occupied(x: Range) { !x.free && x.start < x.end }

  lemma AddsUsed(s: seq<Range>, addr: nat, size: nat, prot: int, ok: bool, s': seq<Range>, x: Range)
    requires Adds(s, addr, size, prot, ok, s')
    ensures x in s' <==> x in s || (ok && x == Range(addr, addr + size, prot, false))
  {
    if ok {
      var k: nat :| Slot(s, k, addr) && s' == Insert(s, k, Used(addr, size, prot));
      assert s == s[..k] + s[k..];
      assert s' == s[..k] + [Used(addr, size, prot)] + s[k..];
    }
  }

  lemma TakeUsed(s: seq<Range>, k: nat, size: nat, x: Range)
    requires k < |s| && s[k].free && size <= s[k].Size() && !x.free
    ensures x in Take(s, k, size) <==> x in s
  {
    assert s == s[..k] + [s[k]] + s[k + 1..];
    var cut := s[k].(end := s[k].end - size);
    assert s[k := cut] == s[..k] + [cut] + s[k + 1..];
  }

  lemma MergeIfUsed(s: seq<Range>, k: int, x: Range)
    requires !x.free
    ensures x in MergeIf(s, k) <==> x in s
  {
    if TouchingAt(s, k) {
      assert s == s[..k] + [s[k], s[k + 1]] + s[k + 2..];
      assert Merge(s, k)[k].free && Merge(s, k) == s[..k] + [Merge(s, k)[k]] + s[k + 2..];
    }
  }

  lemma MarkFreeUsed(s: seq<Range>, k: nat, x: Range)
    requires Descending(s) && k < |s| && Occupied(x)
    ensures x in MarkFree(s, k) <==> x in s && !(x.start == s[k].start && x.end == s[k].end)
  {
    var marked := s[k].(free := true);
    var s0 := s[k := marked];
    MergeIfUsed(s0, k, x);
    MergeIfUsed(MergeIf(s0, k), k - 1, x);
    assert s == s[..k] + [s[k]] + s[k + 1..] && s0 == s[..k] + [marked] + s[k + 1..];
    if x in s0 {
      var i :| 0 <= i < |s0| && s0[i] == x;
      assert i < k ==> s[k].end <= s[i].start;
      assert k < i ==> s[i].end <= s[k].start;
    }
  }

  lemma AllocUsed(e: Env, st: State, size: nat, r: Result, st': State, x: Range)
    requires Allocates(e, st, size, r, st') && !x.free
    ensures x in st'.ranges <==> x in st.ranges || (r.Success? && x == Range(r.addr, r.addr + size, 3, false))
  {
    if Reusable(st.ranges, size) {
      var k: nat :| Reuses(e, st, k, size, r, st');
      var addr := st.ranges[k].end - size;
      TakeUsed(st.ranges, k, size, x);
      AddsUsed(Take(st.ranges, k, size), addr, size, 3, r == Success(addr), st'.ranges, x);
    } else {
      var found := TopDown(st.ranges, e.reserved, e.lo, st.pos, TopOf(e, st), size);
      if found.out.Ok? {
        AddsUsed(st.ranges, found.out.addr, size, 3, r == Success(found.out.addr), st'.ranges, x);
      }
    }
  }

  lemma FreeUsed(st: State, addr: nat, size: nat, r: Result, st': State, x: Range)
    requires Descending(st.ranges) && Frees(st, addr, size, r, st') && Occupied(x)
    ensures x in st'.ranges <==> x in st.ranges && !(r.Success? && x.start == addr && x.end == addr + size)
  {
    if Known(st.ranges, addr, size) {
      var k: nat :| FreesAt(st, addr, size, k, st');
      MarkFreeUsed(st.ranges, k, x);
    }
  }

  /** One operation changes the used ranges by the range it hands out or takes back, and no other. */
  lemma DoesUsed(e: Env, st: State, q: Request, r: Result, st': State, given: set<Range>, x: Range)
    requires ValidState(e, st) && Does(e, st, q, r, st') && Occupied(x)
    requires x in given <==> x in st.ranges
    ensures x in Gives(given, q, r) <==> x in st'.ranges
  {
    match q
    case Add(addr, size, prot) =>
      AddsUsed(st.ranges, addr, size, prot, r == Success(addr), st'.ranges, x);
    case Alloc(size) =>
      AllocUsed(e, st, size, r, st', x);
    case Free(addr, size) =>
      FreeUsed(st, addr, size, r, st', x);
  }

  // ---------------------------------------------------------------- Reserved ranges

  /** Every reserved range behind the cursor is out of reach of the next search. */
  ghost predicate Synced(e: Env, st: State) {
    InSync(e.reserved, st.pos, TopOf(e, st))
  }

  /** The request is not served from a free range, and there is no other room for it. */
  ghost predicate SearchFails(e: Env, st: State, q: Request) {
    q.Alloc? && q.size > 0 && !Reusable(st.ranges, q.size) && st.pos <= |e.reserved| + 1
    && TopDown(st.ranges, e.reserved, e.lo, st.pos, TopOf(e, st), q.size).out.NoMem?
  }

  /** From a state in sync, a successful search stays inside the bounds and clear of reserved
      ranges, and the state stays in sync unless a search fails. */
  lemma DoesSynced(e: Env, st: State, q: Request, r: Result, st': State)
    requires ValidEnv(e) && ValidState(e, st) && Synced(e, st) && Does(e, st, q, r, st')
    ensures !SearchFails(e, st, q) ==> Synced(e, st')
    ensures q.Alloc? && r.Success? && !Reusable(st.ranges, q.size) ==>
      e.lo <= r.addr && r.addr + q.size <= e.hi && Avoids(e.reserved, r.addr, q.size)
  {
    if q.Alloc? && !Reusable(st.ranges, q.size) {
      TopDownIsSuitable(st.ranges, e.reserved, e.lo, st.pos, TopOf(e, st), q.size);
    }
  }

  // ---------------------------------------------------------------- Runs

  datatype Event = Event(q: Request, r: Result, after: State)

  ghost predicate IsRun(e: Env, st: State, run: seq<Event>)
    requires ValidEnv(e) && ValidState(e, st)
    decreases |run|
  {
    run != [] ==>
    && Does(e, st, run[0].q, run[0].r, run[0].after)
    && (DoesSound(e, st, run[0].q, run[0].r, run[0].after); IsRun(e, run[0].after, run[1..]))
  }

  function Final(st: State, run: seq<Event>): State {
    if run == [] then st else run[|run| - 1].after
  }

  function LiveAfter(live: set<Block>, run: seq<Event>): set<Block>
    decreases |run|
  {
    if run == [] then live else LiveAfter(Lives(live, run[0].q, run[0].r), run[1..])
  }

  /** After any run the ranges are disjoint, sorted and coalesced, every live block is a used range
      of its own, and freeing it will succeed. */
  lemma {:induction false} RunIsSound(e: Env, st: State, run: seq<Event>, live: set<Block>)
    requires ValidEnv(e) && ValidState(e, st) && IsRun(e, st, run) && forall b :: b in live ==> Backs(st.ranges, b)
    ensures ValidState(e, Final(st, run))
    ensures forall b :: b in LiveAfter(live, run) ==>
      Backs(Final(st, run).ranges, b) && Known(Final(st, run).ranges, b.addr, b.size)
    decreases |run|
  {
    if run == [] {
      forall b | b in live
        ensures Known(st.ranges, b.addr, b.size)
      {
        var i :| 0 <= i < |st.ranges| && Exactly(st.ranges[i], b.addr, b.size) && !st.ranges[i].free;
      }
    } else {
      var ev := run[0];
      DoesSound(e, st, ev.q, ev.r, ev.after);
      forall b | b in Lives(live, ev.q, ev.r)
        ensures Backs(ev.after.ranges, b)
      {
        DoesBacks(e, st, ev.q, ev.r, ev.after, live, b);
      }
      RunIsSound(e, ev.after, run[1..], Lives(live, ev.q, ev.r));
    }
  }

  function GivenAfter(given: set<Range>, run: seq<Event>): set<Range>
    decreases |run|
  {
    if run == [] then given else GivenAfter(Gives(given, run[0].q, run[0].r), run[1..])
  }

  lemma {:induction false} RunUsed(e: Env, st: State, run: seq<Event>, given: set<Range>, x: Range)
    requires ValidEnv(e) && ValidState(e, st) && IsRun(e, st, run) && Occupied(x)
    requires x in given <==> x in st.ranges
    ensures x in GivenAfter(given, run) <==> x in Final(st, run).ranges
    decreases |run|
  {
    if run != [] {
      var ev := run[0];
      DoesSound(e, st, ev.q, ev.r, ev.after);
      DoesUsed(e, st, ev.q, ev.r, ev.after, given, x);
      RunUsed(e, ev.after, run[1..], Gives(given, ev.q, ev.r), x);
    }
  }

  /** After any run from the start, the used ranges with at least one byte are exactly those handed out
      and not freed since: with the bounds and the protection given, or readable and writable if allocated. */
  lemma UsedAreGiven(e: Env, run: seq<Event>, x: Range)
    requires ValidEnv(e) && IsRun(e, START, run) && Occupied(x)
    ensures x in Final(START, run).ranges <==> x in GivenAfter({}, run)
  {
    RunUsed(e, START, run, {}, x);
  }

  /** A live block can be freed. */
  lemma LiveBlockCanBeFreed(e: Env, run: seq<Event>, b: Block, r: Result, st': State)
    requires ValidEnv(e) && IsRun(e, START, run) && b in LiveAfter({}, run) && ValidState(e, Final(START, run))
    requires Does(e, Final(START, run), Free(b.addr, b.size), r, st')
    ensures r == Success(b.addr)
  {
    RunIsSound(e, START, run, {});
  }

  /** In every run from the start, live blocks share no byte. */
  lemma LiveBlocksApart(e: Env, run: seq<Event>, b: Block, c: Block)
    requires ValidEnv(e) && IsRun(e, START, run) && b in LiveAfter({}, run) && c in LiveAfter({}, run) && b != c
    ensures b.addr + b.size <= c.addr || c.addr + c.size <= b.addr
  {
    RunIsSound(e, START, run, {});
    BackedBlocksApart(Final(START, run).ranges, b, c);
  }

  /** No search of the run failed. */
  ghost predicate Served(e: Env, st: State, run: seq<Event>)
    decreases |run|
  {
    run != [] ==> !SearchFails(e, st, run[0].q) && Served(e, run[0].after, run[1..])
  }

  lemma {:induction false} RunIsSynced(e: Env, st: State, run: seq<Event>)
    requires ValidEnv(e) && ValidState(e, st) && IsRun(e, st, run) && Synced(e, st) && Served(e, st, run)
    ensures ValidState(e, Final(st, run)) && Synced(e, Final(st, run))
    decreases |run|
  {
    if run != [] {
      var ev := run[0];
      DoesSound(e, st, ev.q, ev.r, ev.after);
      DoesSynced(e, st, ev.q, ev.r, ev.after);
      RunIsSynced(e, ev.after, run[1..]);
    }
  }

  /** As long as no search failed, the next search that succeeds gives addresses inside the bounds,
      outside all PAL ranges and outside all reserved ranges, and the highest such. */
  lemma SearchAfterGoodRun(e: Env, run: seq<Event>, size: nat, addr: nat, st': State)
    requires ValidEnv(e) && IsRun(e, START, run) && Served(e, START, run)
    requires !Reusable(Final(START, run).ranges, size)
    requires Allocates(e, Final(START, run), size, Success(addr), st')
    ensures var st := Final(START, run);
      && Suitable(st.ranges, e.reserved, e.lo, TopOf(e, st), size, addr) && addr + size <= e.hi
      && (forall c: nat :: Suitable(st.ranges, e.reserved, e.lo, TopOf(e, st), size, c) ==> c <= addr)
  {
    var st := Final(START, run);
    RunIsSynced(e, START, run);
    TopDownIsExact(st.ranges, e.reserved, e.lo, st.pos, TopOf(e, st), size);
  }

  /** As long as no search failed, the next request that no free range can serve succeeds if and only if
      the array has room and some place is clear of everything. */
  lemma SearchSucceedsExactly(e: Env, run: seq<Event>, size: nat, r: Result, st': State)
    requires ValidEnv(e) && IsRun(e, START, run) && Served(e, START, run)
    requires !Reusable(Final(START, run).ranges, size) && Allocates(e, Final(START, run), size, r, st')
    ensures var st := Final(START, run);
      r.Success? <==>
        |st.ranges| < 256 && exists c: nat :: Suitable(st.ranges, e.reserved, e.lo, TopOf(e, st), size, c)
  {
    var st := Final(START, run);
    RunIsSynced(e, START, run);
    TopDownIsSuitable(st.ranges, e.reserved, e.lo, st.pos, TopOf(e, st), size);
    TopDownIsExact(st.ranges, e.reserved, e.lo, st.pos, TopOf(e, st), size);
  }

  // ---------------------------------------------------------------- The range left to LibOS

  predicate TriedAlloc(run: seq<Event>)
    decreases |run|
  {
    run != [] && (run[0].q.Alloc? || TriedAlloc(run[1..]))
  }

  /** The first allocation, served or not, brings the start of searches down to `hi`. */
  lemma DoesTop(e: Env, st: State, q: Request, r: Result, st': State)
    requires ValidEnv(e) && ValidState(e, st) && Does(e, st, q, r, st')
    ensures if q.Alloc? then st'.last <= e.hi else st'.last == st.last && st'.pos == st.pos
  {
    if q.Alloc? && !Reusable(st.ranges, q.size) {
      TopDownIsSuitable(st.ranges, e.reserved, e.lo, st.pos, TopOf(e, st), q.size);
    }
  }

  lemma {:induction false} RunTop(e: Env, st: State, run: seq<Event>)
    requires ValidEnv(e) && ValidState(e, st) && IsRun(e, st, run)
    ensures ValidState(e, Final(st, run))
    ensures TriedAlloc(run) || st.last <= e.hi ==> Final(st, run).last <= e.hi
    ensures !TriedAlloc(run) ==> Final(st, run).last == st.last && Final(st, run).pos == st.pos
    decreases |run|
  {
    if run != [] {
      var ev, rest := run[0], run[1..];
      DoesSound(e, st, ev.q, ev.r, ev.after);
      DoesTop(e, st, ev.q, ev.r, ev.after);
      RunTop(e, ev.after, rest);
    }
  }

  predicate EndsBelow(out: Outcome, size: nat, hi: nat) {
    out.Ok? ==> out.addr + size <= hi
  }

  /** Some place clear of everything ends above `hi`. */
  ghost predicate RoomAbove(e: Env, s: seq<Range>, size: nat) {
    exists c: nat :: Suitable(s, e.reserved, e.lo, ADDR_MAX, size, c) && c + size > e.hi
  }

  /** After any run, a range left to LibOS lies above `lo` and overlaps no PAL range; as long as no
      search failed it also overlaps no reserved range, and no place clear of everything below the
      start of the search is higher. */
  lemma LibosRangeIsClear(e: Env, run: seq<Event>, size: nat)
    requires ValidEnv(e) && IsRun(e, START, run) && size > 0
    ensures var st := Final(START, run);
      st.pos <= |e.reserved| + 1 &&
      var out := TopDown(st.ranges, e.reserved, e.lo, st.pos, st.last, size).out;
      && (out.Ok? ==> e.lo <= out.addr && out.addr + size <= st.last && Vacant(st.ranges, out.addr, size))
      && (Served(e, START, run) ==>
            && (out.Ok? ==> Avoids(e.reserved, out.addr, size))
            && forall c: nat :: Suitable(st.ranges, e.reserved, e.lo, st.last, size, c) ==> out.Ok? && c <= out.addr)
  {
    var st := Final(START, run);
    RunTop(e, START, run);
    TopDownIsSuitable(st.ranges, e.reserved, e.lo, st.pos, st.last, size);
    if Served(e, START, run) {
      RunIsSynced(e, START, run);
      if st.last == ADDR_MAX {
        assert InSync(e.reserved, st.pos, st.last) by { TopSynced(e, run); }
      }
      TopDownIsExact(st.ranges, e.reserved, e.lo, st.pos, st.last, size);
    }
  }

  /** If the start of searches is still the top of the address space, the cursor is in sync with it. */
  lemma TopSynced(e: Env, run: seq<Event>)
    requires ValidEnv(e) && IsRun(e, START, run) && Served(e, START, run) && Final(START, run).last == ADDR_MAX
    ensures ValidState(e, Final(START, run)) && InSync(e.reserved, Final(START, run).pos, ADDR_MAX)
  {
    RunTop(e, START, run);
    RunIsSynced(e, START, run);
    var st := Final(START, run);
    if TriedAlloc(run) {
      assert TopOf(e, st) == ADDR_MAX;
    }
  }

  /** After any run, the range left to LibOS ends at or below `hi` if and only if an allocation was
      tried or there is no room above `hi`: before the first allocation the search for it starts at
      the top of the address space. */
  lemma LibosRangeBound(e: Env, run: seq<Event>, size: nat)
    requires ValidEnv(e) && IsRun(e, START, run) && size > 0
    ensures var st := Final(START, run);
      st.pos <= |e.reserved| + 1 &&
      (EndsBelow(TopDown(st.ranges, e.reserved, e.lo, st.pos, st.last, size).out, size, e.hi) <==>
        TriedAlloc(run) || !RoomAbove(e, st.ranges, size))
  {
    var st := Final(START, run);
    RunTop(e, START, run);
    var out := TopDown(st.ranges, e.reserved, e.lo, st.pos, st.last, size).out;
    if TriedAlloc(run) {
      TopDownIsSuitable(st.ranges, e.reserved, e.lo, st.pos, st.last, size);
    } else {
      TopDownIsExact(st.ranges, e.reserved, e.lo, st.pos, st.last, size);
      if RoomAbove(e, st.ranges, size) {
        var c: nat :| Suitable(st.ranges, e.reserved, e.lo, ADDR_MAX, size, c) && c + size > e.hi;
        assert out.Ok? && c <= out.addr;
      } else if out.Ok? {
        assert Suitable(st.ranges, e.reserved, e.lo, ADDR_MAX, size, out.addr);
      }
    }
  }
}
