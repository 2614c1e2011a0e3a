/** The top-down search for unused addresses, with its one-pass cursor over reserved ranges. */
module EarlySearch {
  import opened Basics
  import opened EarlyRanges

  datatype Span = Span(start: nat, end: nat)

  /** What the host feeds: ranges in the address space, each below the previous one. */
  ghost predicate Feed(reserved: seq<Span>) {
    && (forall i :: 0 <= i < |reserved| ==> reserved[i].start <= reserved[i].end <= ADDR_MAX)
    && (forall i, j :: 0 <= i < j < |reserved| ==> reserved[j].end <= reserved[i].start)
  }

  /** The last range read after `pos` reads: at first the top of the address space, at the end an
      empty range at zero. */
  function Cursor(reserved: seq<Span>, pos: nat): Span {
    if pos == 0 then Span(ADDR_MAX, ADDR_MAX)
    else if pos <= |reserved| then reserved[pos - 1]
    else Span(0, 0)
  }

  ghost predicate Avoids(reserved: seq<Span>, addr: nat, size: nat) {
    forall i :: 0 <= i < |reserved| ==> Misses(reserved[i], addr, size)
  }

  predicate Misses(p: Span, addr: nat, size: nat) {
    p.end <= addr || addr + size <= p.start
  }

  datatype Outcome = Ok(addr: nat) | NoMem

  datatype Search = Search(out: Outcome, pos: nat)

  // ---------------------------------------------------------------- Below the reserved ranges

  /** The loop of `find_non_reserved_range_below`. */
  function Sink(reserved: seq<Span>, pos: nat, candidate: nat, size: nat): (r: Search)
    requires pos <= |reserved| + 1
    ensures pos <= r.pos <= |reserved| + 1 && (r.out.Ok? ==> r.out.addr <= candidate)
    decreases |reserved| + 1 - pos
  {
    var p := Cursor(reserved, pos);
    if candidate >= p.end then Search(Ok(candidate), pos)
    else if p.start < size then Search(NoMem, pos)
    else Sink(reserved, pos + 1, if candidate <= p.start - size then candidate else p.start - size, size)
  }

  function FindBelow(reserved: seq<Span>, pos: nat, addr: nat, size: nat): (r: Search)
    requires pos <= |reserved| + 1
    ensures pos <= r.pos <= |reserved| + 1 && (r.out.Ok? ==> r.out.addr + size <= addr)
  {
    if addr < size then Search(NoMem, pos) else Sink(reserved, pos, addr - size, size)
  }

  /** Every reserved range the cursor has left behind is out of reach below `addr`. */
  ghost predicate InSync(reserved: seq<Span>, pos: nat, addr: nat) {
    forall i :: 0 <= i < pos - 1 && i < |reserved| ==>
      reserved[i].start >= addr || reserved[i].end <= Cursor(reserved, pos).end
  }

  /** What the cursor passed lies above the place found, the rest below. */
  lemma {:induction false} SinkPasses(reserved: seq<Span>, pos: nat, candidate: nat, size: nat)
    requires Feed(reserved) && pos <= |reserved| + 1
    ensures var r := Sink(reserved, pos, candidate, size);
      r.out.Ok? ==>
        && Cursor(reserved, r.pos).end <= r.out.addr
        && (forall i :: 0 <= i < |reserved| && pos - 1 <= i < r.pos - 1 ==> reserved[i].start >= r.out.addr + size)
        && (forall i :: 0 <= i < |reserved| && r.pos - 1 <= i ==> reserved[i].end <= r.out.addr)
    decreases |reserved| + 1 - pos
  {
    var p := Cursor(reserved, pos);
    if candidate >= p.end {
      forall i | 0 <= i < |reserved| && pos - 1 <= i
        ensures reserved[i].end <= candidate
      {
        if i != pos - 1 && 0 < pos {
          assert reserved[i].end <= reserved[pos - 1].start;
        }
      }
    } else if p.start >= size {
      SinkPasses(reserved, pos + 1, if candidate <= p.start - size then candidate else p.start - size, size);
    }
  }

  /** From a cursor in sync, the place found touches no reserved range, and the cursor stays in sync
      with it. */
  lemma FindAvoids(reserved: seq<Span>, pos: nat, addr: nat, size: nat)
    requires Feed(reserved) && pos <= |reserved| + 1 && InSync(reserved, pos, addr)
    ensures var r := FindBelow(reserved, pos, addr, size);
      r.out.Ok? ==>
        && Avoids(reserved, r.out.addr, size)
        && (forall below: nat :: below <= r.out.addr + size ==> InSync(reserved, r.pos, below))
  {
    var r := FindBelow(reserved, pos, addr, size);
    if r.out.Ok? {
      SinkPasses(reserved, pos, addr - size, size);
    }
  }

  /** Being in sync is exactly what the search needs: from any other cursor some request is given
      addresses inside a reserved range. */
  lemma SyncIsNeeded(reserved: seq<Span>, pos: nat, addr: nat)
    requires Feed(reserved) && pos <= |reserved| + 1
    ensures InSync(reserved, pos, addr) <==>
      forall size: nat :: FindBelow(reserved, pos, addr, size).out.Ok? ==>
        Avoids(reserved, FindBelow(reserved, pos, addr, size).out.addr, size)
  {
    if InSync(reserved, pos, addr) {
      forall size: nat | FindBelow(reserved, pos, addr, size).out.Ok?
        ensures Avoids(reserved, FindBelow(reserved, pos, addr, size).out.addr, size)
      {
        FindAvoids(reserved, pos, addr, size);
      }
    } else {
      var i :| 0 <= i < pos - 1 && i < |reserved| && reserved[i].start < addr
        && reserved[i].end > Cursor(reserved, pos).end;
      var p, q := Cursor(reserved, pos), reserved[i];
      if pos <= |reserved| {
        assert reserved[pos - 1].end <= reserved[i].start;
      }
      var size := addr - (if q.start < q.end then q.start else q.start - 1);
      assert FindBelow(reserved, pos, addr, size) == Search(Ok(addr - size), pos);
      assert !Misses(q, addr - size, size);
    }
  }

  /** The search never skips a place that is clear of all reserved ranges. */
  lemma {:induction false} SinkHighest(reserved: seq<Span>, pos: nat, candidate: nat, size: nat, c: nat)
    requires pos <= |reserved| + 1 && c <= candidate && c + size <= ADDR_MAX && Avoids(reserved, c, size)
    ensures var r := Sink(reserved, pos, candidate, size); r.out.Ok? && c <= r.out.addr
    decreases |reserved| + 1 - pos
  {
    var p := Cursor(reserved, pos);
    if candidate < p.end {
      assert 0 < pos ==> Misses(reserved[pos - 1], c, size);
      SinkHighest(reserved, pos + 1, if candidate <= p.start - size then candidate else p.start - size, size, c);
    }
  }

  // ---------------------------------------------------------------- Below the PAL ranges too

  /** Where the first range from `i` on that overlaps starts. */
  function HitFrom(s: seq<Range>, addr: nat, size: nat, i: nat): (r: Option<nat>)
    requires i <= |s|
    ensures r.None? <==> forall j :: i <= j < |s| ==> !Overlaps(s[j], addr, size)
    ensures r.Some? ==> exists j :: i <= j < |s| && Overlaps(s[j], addr, size) && s[j].start == r.value
    decreases |s| - i
  {
    if i == |s| then None
    else if Overlaps(s[i], addr, size) then Some(s[i].start)
    else HitFrom(s, addr, size, i + 1)
  }

  function FirstHit(s: seq<Range>, addr: nat, size: nat): (r: Option<nat>)
    ensures r.None? <==> Vacant(s, addr, size)
    ensures r.Some? ==> exists i :: 0 <= i < |s| && Overlaps(s[i], addr, size) && s[i].start == r.value
  {
    HitFrom(s, addr, size, 0)
  }

  /** The loop of `initial_mem_bkeep` and of `pal_disable_early_memory_bookkeeping`. */
  function TopDown(s: seq<Range>, reserved: seq<Span>, lo: nat, pos: nat, addr: nat, size: nat): (r: Search)
    requires pos <= |reserved| + 1 && size > 0
    ensures pos <= r.pos <= |reserved| + 1
    decreases addr
  {
    var f := FindBelow(reserved, pos, addr, size);
    if f.out.NoMem? || f.out.addr < lo then Search(NoMem, f.pos)
    else match FirstHit(s, f.out.addr, size)
      case None => f
      case Some(start) => TopDown(s, reserved, lo, f.pos, start, size)
  }

  /** A place for `size` bytes between `lo` and `hi`, clear of everything. */
  ghost predicate Suitable(s: seq<Range>, reserved: seq<Span>, lo: nat, hi: nat, size: nat, c: nat) {
    lo <= c && c + size <= hi && Vacant(s, c, size) && Avoids(reserved, c, size)
  }

  /** The place found is inside the bounds and overlaps no PAL range; from a cursor in sync it also
      overlaps no reserved range, and the cursor is in sync with it afterwards. */
  lemma {:induction false} TopDownIsSuitable(s: seq<Range>, reserved: seq<Span>, lo: nat, pos: nat, addr: nat,
                                             size: nat)
    requires Feed(reserved) && pos <= |reserved| + 1 && size > 0
    ensures var r := TopDown(s, reserved, lo, pos, addr, size);
      r.out.Ok? ==>
        && lo <= r.out.addr && r.out.addr + size <= addr && Vacant(s, r.out.addr, size)
        && (InSync(reserved, pos, addr) ==> Avoids(reserved, r.out.addr, size) && InSync(reserved, r.pos, r.out.addr))
    decreases addr
  {
    var f := FindBelow(reserved, pos, addr, size);
    if InSync(reserved, pos, addr) {
      FindAvoids(reserved, pos, addr, size);
    }
    if f.out.Ok? && f.out.addr >= lo {
      match FirstHit(s, f.out.addr, size)
      case None =>
      case Some(start) =>
        TopDownIsSuitable(s, reserved, lo, f.pos, start, size);
    }
  }

  /** If there is any suitable place, the search succeeds, and no suitable place is higher. */
  lemma {:induction false} TopDownIsHighest(s: seq<Range>, reserved: seq<Span>, lo: nat, pos: nat, addr: nat,
                                            size: nat, c: nat)
    requires pos <= |reserved| + 1 && size > 0 && addr <= ADDR_MAX && Suitable(s, reserved, lo, addr, size, c)
    ensures var r := TopDown(s, reserved, lo, pos, addr, size); r.out.Ok? && c <= r.out.addr
    decreases addr
  {
    SinkHighest(reserved, pos, addr - size, size, c);
    var f := FindBelow(reserved, pos, addr, size);
    match FirstHit(s, f.out.addr, size)
    case None =>
    case Some(start) =>
      var i :| 0 <= i < |s| && Overlaps(s[i], f.out.addr, size) && s[i].start == start;
      assert !Overlaps(s[i], c, size);
      TopDownIsHighest(s, reserved, lo, f.pos, start, size, c);
  }

  /** From a cursor in sync the search is exact: it finds the highest suitable place, and fails only
      when there is none. */
  lemma TopDownIsExact(s: seq<Range>, reserved: seq<Span>, lo: nat, pos: nat, addr: nat, size: nat)
    requires Feed(reserved) && pos <= |reserved| + 1 && size > 0 && addr <= ADDR_MAX && InSync(reserved, pos, addr)
    ensures var r := TopDown(s, reserved, lo, pos, addr, size);
      && (r.out.Ok? <==> exists c: nat :: Suitable(s, reserved, lo, addr, size, c))
      && (r.out.Ok? ==> Suitable(s, reserved, lo, addr, size, r.out.addr))
      && (forall c: nat :: Suitable(s, reserved, lo, addr, size, c) ==> r.out.Ok? && c <= r.out.addr)
  {
    TopDownIsSuitable(s, reserved, lo, pos, addr, size);
    var r := TopDown(s, reserved, lo, pos, addr, size);
    assert r.out.Ok? ==> Suitable(s, reserved, lo, addr, size, r.out.addr);
    forall c: nat | Suitable(s, reserved, lo, addr, size, c)
      ensures var r := TopDown(s, reserved, lo, pos, addr, size); r.out.Ok? && c <= r.out.addr
    {
      TopDownIsHighest(s, reserved, lo, pos, addr, size, c);
    }
  }

  /** A request that fails after the cursor passed a reserved range leaves them out of sync: the
      same request made again is given addresses in that range. */
  lemma RetryAfterNoMem()
    ensures var reserved, lo, hi, size := [Span(0x8000, 0x9000)], 0x4000, 0x10000, 0x8000;
      var first := TopDown([], reserved, lo, 0, hi, size);
      var again := TopDown([], reserved, lo, first.pos, hi, size);
      && InSync(reserved, 0, hi) && first.out.NoMem? && !InSync(reserved, first.pos, hi)
      && again.out == Ok(0x8000) && !Avoids(reserved, again.out.addr, size)
  {
    var reserved := [Span(0x8000, 0x9000)];
    assert Sink(reserved, 2, 0, 0x8000) == Search(Ok(0), 2);
    assert Sink(reserved, 1, 0x8000, 0x8000) == Search(Ok(0), 2);
    assert Sink(reserved, 0, 0x8000, 0x8000) == Search(Ok(0), 2);
    assert TopDown([], reserved, 0x4000, 0, 0x10000, 0x8000) == Search(NoMem, 2);
    assert Sink(reserved, 2, 0x8000, 0x8000) == Search(Ok(0x8000), 2);
    assert reserved[0].start < 0x10000 && !Misses(reserved[0], 0x8000, 0x8000);
  }
}
