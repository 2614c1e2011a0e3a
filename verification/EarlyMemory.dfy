/** The allocator for PAL memory before LibOS does the bookkeeping. */
module EarlyMemory {
  import opened Basics
  import opened EarlyRanges
  import opened EarlySearch
  import opened EarlyRuns

  /** The most that is left to LibOS. */
  const LIBOS_RANGE_MAX := 1024 * 1024

  lemma SlotUnique(s: seq<Range>, k: nat, addr: nat)
    requires Descending(s) && k < |s| && s[k].end <= addr
    ensures forall i :: k <= i < |s| ==> s[i].end <= addr
  {
  }

  class Bookkeeper {
    const ranges: array<Range>
    var len: nat
    var lastAlloc: nat
    var disabled: bool

    // The static cursor of `find_non_reserved_range_below`, and how far the host's feed was read.
    var reservedStart: nat
    var reservedEnd: nat
    var fed: nat
    const reserved: seq<Span>

    // Bounds of the memory that may be used, and what is left for LibOS.
    const lo: nat
    const hi: nat
    var libosStart: nat
    var libosEnd: nat

    constructor (lo: nat, hi: nat, reserved: seq<Span>)
      requires Feed(reserved) && hi <= ADDR_MAX
      ensures Valid() && fresh(ranges) && Now() == START && Around() == Env(lo, hi, reserved)
      ensures !disabled && libosStart == 0 && libosEnd == 0
    {
      ranges := new Range[CAPACITY](_ => Range(0, 0, 0, false));
      len, lastAlloc, disabled := 0, ADDR_MAX, false;
      reservedStart, reservedEnd, fed := ADDR_MAX, ADDR_MAX, 0;
      libosStart, libosEnd := 0, 0;
      this.lo, this.hi, this.reserved := lo, hi, reserved;
    }

    ghost function Contents(): seq<Range>
      requires len <= ranges.Length
      reads this, ranges
    {
      ranges[..len]
    }

    ghost function Around(): Env
      reads this
    {
      Env(lo, hi, reserved)
    }

    ghost function Now(): State
      requires len <= ranges.Length
      reads this, ranges
    {
      State(Contents(), lastAlloc, fed)
    }

    ghost predicate Valid()
      reads this, ranges
    {
      ranges.Length == CAPACITY && len <= CAPACITY && ValidCursor() && ValidState(Around(), Now())
    }

    ghost predicate ValidCursor()
      reads this
    {
      ValidEnv(Around()) && fed <= |reserved| + 1 && Span(reservedStart, reservedEnd) == Cursor(reserved, fed)
    }

    // -------------------------------------------------------------- The array

    method InsertRangeAt(idx: nat, addr: nat, size: nat, prot: int)
      requires idx <= len < ranges.Length
      modifies `len, ranges
      ensures len == old(len) + 1
      ensures Contents() == Insert(old(Contents()), idx, Used(addr, size, prot))
    {
      forall i | idx < i <= len {
        ranges[i] := ranges[i - 1];
      }
      ranges[idx] := Range(addr, addr + size, prot, false);
      len := len + 1;
    }

    /** Adds a range; the array stays valid if it overlaps no other. */
    method AddInitialRange(addr: nat, size: nat, prot: int) returns (ok: bool)
      requires Valid() && addr + size <= ADDR_MAX
      modifies `len, ranges
      ensures len <= ranges.Length && Adds(old(Contents()), addr, size, prot, ok, Contents())
      ensures !ok || Vacant(old(Contents()), addr, size) ==> Valid()
    {
      if len >= ranges.Length {
        return false;
      }
      ghost var s := Contents();
      var i := 0;
      while i < len
        invariant 0 <= i <= len && Contents() == s
        invariant forall j :: 0 <= j < i ==> s[j].end > addr
      {
        if ranges[i].end <= addr {
          break;
        }
        i := i + 1;
      }
      assert Slot(s, i, addr);
      if Vacant(s, addr, size) {
        InsertSound(s, i, Used(addr, size, prot));
      }
      InsertRangeAt(i, addr, size, prot);
      ok := true;
    }

    /** Closes the gap of `count` ranges from `from`. */
    method RemoveRanges(from: nat, count: nat)
      requires from + count <= len <= ranges.Length
      modifies `len, ranges
      ensures len == old(len) - count && Contents() == old(Contents()[..from] + Contents()[from + count..])
    {
      forall i | from <= i < len - count {
        ranges[i] := ranges[i + count];
      }
      len := len - count;
    }

    /** Marks a range free and takes over the next one if they touch. */
    method TakeOverNext(idx: nat) returns (merged: bool)
      requires idx < len <= ranges.Length
      modifies ranges
      ensures var s := old(Contents());
        && (merged <==> idx + 1 < |s| && s[idx + 1].free && s[idx].start == s[idx + 1].end)
        && Contents() == s[idx := s[idx].(free := true, start := if merged then s[idx + 1].start else s[idx].start)]
    {
      ranges[idx] := ranges[idx].(free := true);
      merged := idx + 1 < len && ranges[idx + 1].free && ranges[idx].start == ranges[idx + 1].end;
      if merged {
        ranges[idx] := ranges[idx].(start := ranges[idx + 1].start);
      }
    }

    method MarkRangeFree(idx: nat)
      requires idx < len <= ranges.Length
      modifies `len, ranges
      ensures len <= old(len) && Contents() == MarkFree(old(Contents()), idx)
    {
      ghost var s := Contents();
      var count, from := 0, 0;
      var below := TakeOverNext(idx);
      if below {
        from := idx + 1;
        count := count + 1;
      }
      ghost var s1 := Contents();
      var above := idx > 0 && ranges[idx - 1].free && ranges[idx - 1].start == ranges[idx].end;
      if above {
        ranges[idx - 1] := ranges[idx - 1].(start := ranges[idx].start);
        from := idx;
        count := count + 1;
      }
      MarkFreeInPlace(s, idx, below, above, s1, Contents());
      if count != 0 {
        RemoveRanges(from, count);
      }
    }

    /** Frees a range that is in the array, and nothing else. */
    method RemoveInitialRange(addr: nat, size: nat) returns (ok: bool, ghost k: nat)
      requires Valid()
      modifies `len, ranges
      ensures Valid()
      ensures ok <==> Known(old(Contents()), addr, size)
      ensures !ok ==> Contents() == old(Contents())
      ensures ok ==> FreesAt(old(Now()), addr, size, k, Now())
    {
      ghost var s := Contents();
      k := 0;
      var i := 0;
      while i < len
        invariant 0 <= i <= len && Contents() == s
        invariant forall j :: 0 <= j < i ==> !Exactly(s[j], addr, size)
      {
        if ranges[i].start == addr && ranges[i].end == addr + size {
          assert Exactly(s[i], addr, size);
          k := i;
          MarkFreeSound(s, i);
          MarkRangeFree(i);
          return true, k;
        }
        if ranges[i].end <= addr {
          SlotUnique(s, i, addr);
          break;
        }
        i := i + 1;
      }
      ok := false;
    }

    // -------------------------------------------------------------- Reuse

    /** The scan of `find_free_range`. */
    method BestFitting(size: nat) returns (best: nat)
      requires Valid()
      ensures best < len ==> BestFit(Contents(), best, size)
      ensures best >= len ==> forall i :: 0 <= i < |Contents()| ==> !Fits(Contents()[i], size)
    {
      ghost var s := Contents();
      var bestSize: int;
      best, bestSize := len, ADDR_MAX;
      var i := 0;
      while i < len
        invariant 0 <= i <= len && best <= len
        invariant best == len ==> bestSize == ADDR_MAX && forall j :: 0 <= j < i ==> !Fits(s[j], size)
        invariant best < len ==>
          && best < i && Fits(s[best], size) && bestSize == s[best].Size()
          && (forall j :: 0 <= j < i && Fits(s[j], size) ==> bestSize <= s[j].Size())
          && (forall j :: 0 <= j < best && Fits(s[j], size) ==> bestSize < s[j].Size())
      {
        if ranges[i].free {
          var rangeSize := ranges[i].end - ranges[i].start;
          if rangeSize >= size && rangeSize < bestSize {
            bestSize := rangeSize;
            best := i;
            if rangeSize == size {
              break;
            }
          }
        }
        i := i + 1;
      }
    }

    /** Cuts `size` bytes off the best fitting free range. */
    method FindFreeRange(size: nat) returns (found: bool, addr: nat, ghost k: nat)
      requires Valid()
      modifies `len, ranges
      ensures Valid()
      ensures found <==> Reusable(old(Contents()), size)
      ensures !found ==> Contents() == old(Contents())
      ensures found ==>
        && BestFit(old(Contents()), k, size) && addr == old(Contents())[k].end - size
        && Contents() == Take(old(Contents()), k, size)
    {
      ghost var s := Contents();
      var best := BestFitting(size);
      k, addr := best, 0;
      if best >= len {
        return false, addr, k;
      }

      TakeSound(s, best, size);
      addr := CutRange(best, size);
      found := true;
    }

    method CutRange(idx: nat, size: nat) returns (addr: nat)
      requires idx < len <= ranges.Length && size <= ranges[idx].Size()
      modifies `len, ranges
      ensures len <= old(len) && addr == old(ranges[idx].end) - size
      ensures Contents() == Take(old(Contents()), idx, size)
    {
      ranges[idx] := ranges[idx].(end := ranges[idx].end - size);
      addr := ranges[idx].end;
      if ranges[idx].start == ranges[idx].end {
        RemoveRanges(idx, 1);
      }
    }

    // -------------------------------------------------------------- Search

    /** The host's `pal_read_next_reserved_range`. */
    method ReadNextReserved()
      requires ValidCursor() && fed <= |reserved|
      modifies `reservedStart, `reservedEnd, `fed
      ensures ValidCursor() && fed == old(fed) + 1
    {
      if fed < |reserved| {
        reservedStart, reservedEnd := reserved[fed].start, reserved[fed].end;
      } else {
        reservedStart, reservedEnd := 0, 0;
      }
      fed := fed + 1;
    }

    method FindNonReservedBelow(addr: nat, size: nat) returns (r: Outcome)
      requires ValidCursor()
      modifies `reservedStart, `reservedEnd, `fed
      ensures ValidCursor() && Search(r, fed) == FindBelow(reserved, old(fed), addr, size)
    {
      if addr < size {
        return NoMem;
      }
      var candidate: nat := addr - size;
      while candidate < reservedEnd
        invariant ValidCursor() && Sink(reserved, fed, candidate, size) == FindBelow(reserved, old(fed), addr, size)
        decreases |reserved| + 1 - fed
      {
        if reservedStart < size {
          return NoMem;
        }
        candidate := if candidate <= reservedStart - size then candidate else reservedStart - size;
        ReadNextReserved();
      }
      r := Ok(candidate);
    }

    /** Whether a range overlaps, and where the first such range starts. */
    method OverlapsExistingRange(addr: nat, size: nat) returns (hit: bool, start: nat)
      requires Valid() && size > 0
      ensures FirstHit(Contents(), addr, size) == if hit then Some(start) else None
    {
      ghost var s := Contents();
      var i := 0;
      while i < len
        invariant 0 <= i <= len && FirstHit(s, addr, size) == HitFrom(s, addr, size, i)
      {
        if !(ranges[i].end <= addr || addr + size <= ranges[i].start) {
          return true, ranges[i].start;
        }
        if ranges[i].end <= addr {
          SlotUnique(s, i, addr);
          return false, 0;
        }
        i := i + 1;
      }
      return false, 0;
    }

    /** The search loop, from `top` down. */
    method SearchBelow(top: nat, size: nat) returns (r: Outcome)
      requires Valid() && size > 0
      modifies `reservedStart, `reservedEnd, `fed
      ensures Valid() && Search(r, fed) == TopDown(Contents(), reserved, lo, old(fed), top, size)
    {
      var addr := top;
      while true
        invariant Valid()
        invariant TopDown(Contents(), reserved, lo, fed, addr, size) ==
                  TopDown(Contents(), reserved, lo, old(fed), top, size)
        decreases addr
      {
        r := FindNonReservedBelow(addr, size);
        if r.NoMem? || r.addr < lo {
          return NoMem;
        }
        var hit, start := OverlapsExistingRange(r.addr, size);
        if !hit {
          return;
        }
        addr := start;
      }
    }

    // -------------------------------------------------------------- Operations

    /** Finds room for `size` bytes: in a free range if one fits, else at unused addresses. */
    method FindRoom(size: nat) returns (out: Outcome, ghost k: nat)
      requires Valid() && (size > 0 || Reusable(Contents(), size))
      modifies `len, `lastAlloc, `reservedStart, `reservedEnd, `fed, ranges
      ensures Valid() && Rooms(Around(), old(Now()), size, k, out, Now())
      ensures out.Ok? ==> out.addr + size <= ADDR_MAX && Vacant(Contents(), out.addr, size)
    {
      ghost var e, st := Around(), Now();
      if lastAlloc == ADDR_MAX {
        lastAlloc := hi;
      }
      var found, addr;
      found, addr, k := FindFreeRange(size);
      if found {
        TakeSound(st.ranges, k, size);
        out := Ok(addr);
        RoomReused(e, st, size, k, addr, Now());
      } else {
        out := SearchFromLast(size);
        RoomSearched(e, st, size, k, out, Now());
      }
    }

    method SearchFromLast(size: nat) returns (out: Outcome)
      requires Valid() && size > 0 && lastAlloc <= hi
      modifies `lastAlloc, `reservedStart, `reservedEnd, `fed
      ensures Valid() && Search(out, fed) == TopDown(Contents(), reserved, lo, old(fed), old(lastAlloc), size)
      ensures lastAlloc == if out.Ok? then out.addr else old(lastAlloc)
      ensures out.Ok? ==> out.addr + size <= ADDR_MAX && Vacant(Contents(), out.addr, size)
    {
      TopDownIsSuitable(Contents(), reserved, lo, fed, lastAlloc, size);
      out := SearchBelow(lastAlloc, size);
      if out.Ok? {
        lastAlloc := out.addr;
      }
    }

    /** Books `size` bytes; a search asserts that there are any. */
    method Bkeep(size: nat) returns (r: Result)
      requires Valid() && (size > 0 || disabled || Reusable(Contents(), size))
      modifies `len, `lastAlloc, `reservedStart, `reservedEnd, `fed, ranges
      ensures Valid()
      ensures if disabled then r == Invalid && Now() == old(Now()) else Allocates(Around(), old(Now()), size, r, Now())
    {
      if disabled {
        return Invalid;
      }
      ghost var st := Now();
      var out;
      ghost var k;
      out, k := FindRoom(size);
      ghost var st1 := Now();
      if out.NoMem? {
        r := OutOfMemory;
      } else {
        var ok := AddInitialRange(out.addr, size, PROT_READ_WRITE);
        r := if ok then Success(out.addr) else OutOfMemory;
      }
      RoomsAllocate(Around(), st, size, k, out, st1, r, Contents());
    }

    /** Frees bytes that were booked as one range. */
    method MemFree(addr: nat, size: nat) returns (r: Result)
      requires Valid()
      modifies `len, ranges
      ensures Valid()
      ensures if disabled then r == Invalid && Now() == old(Now()) else Frees(old(Now()), addr, size, r, Now())
    {
      if disabled {
        return Invalid;
      }
      var ok;
      ghost var k;
      ok, k := RemoveInitialRange(addr, size);
      r := if ok then Success(addr) else Invalid;
    }

    /** Ends early bookkeeping and looks for a range to leave to LibOS. */
    method Disable(memTotal: nat)
      requires Valid() && memTotal >= 20
      modifies `disabled, `reservedStart, `reservedEnd, `fed, `libosStart, `libosEnd
      ensures Valid() && disabled && Contents() == old(Contents())
      ensures var size := if memTotal / 20 <= LIBOS_RANGE_MAX then memTotal / 20 else LIBOS_RANGE_MAX;
        var found := TopDown(Contents(), reserved, lo, old(fed), lastAlloc, size);
        if found.out.Ok? then libosStart == found.out.addr && libosEnd == libosStart + size
        else libosStart == old(libosStart) && libosEnd == old(libosEnd)
    {
      disabled := true;
      var size := if memTotal / 20 <= LIBOS_RANGE_MAX then memTotal / 20 else LIBOS_RANGE_MAX;
      var out := SearchBelow(lastAlloc, size);
      if out.NoMem? {
        return;
      }
      libosStart := out.addr;
      libosEnd := out.addr + size;
    }
  }
}
