/** The sorted array of PAL memory ranges, as a sequence of values. */
module EarlyRanges {

  const ADDR_MAX: nat := 0xFFFF_FFFF_FFFF_FFFF

  /** `struct pal_initial_mem_range`, without its comment. */
  datatype Range = Range(start: nat, end: nat, prot: int, free: bool) {
    function Size(): int { end - start }
  }

  /** Ranges lie in the address space and below all earlier ones. */
  ghost predicate Descending(s: seq<Range>) {
    && (forall i :: 0 <= i < |s| ==> s[i].start <= s[i].end <= ADDR_MAX)
    && (forall i, j :: 0 <= i < j < |s| ==> s[j].end <= s[i].start)
  }

  ghost predicate Touching(a: Range, b: Range) {
    a.free && b.free && a.start == b.end
  }

  /** No two free neighbours touch. */
  ghost predicate Coalesced(s: seq<Range>) {
    forall i, j :: 0 <= i && j == i + 1 && j < |s| ==> !Touching(s[i], s[j])
  }

  ghost predicate Sound(s: seq<Range>) {
    Descending(s) && Coalesced(s)
  }

  predicate Overlaps(r: Range, addr: nat, size: nat) {
    !(r.end <= addr || addr + size <= r.start)
  }

  ghost predicate Vacant(s: seq<Range>, addr: nat, size: nat) {
    forall i :: 0 <= i < |s| ==> !Overlaps(s[i], addr, size)
  }

  predicate In(r: Range, a: int) { r.start <= a < r.end }

  /** Address `a` belongs to a range of the given kind. */
  ghost predicate Holds(s: seq<Range>, a: int, free: bool) {
    exists i :: 0 <= i < |s| && In(s[i], a) && s[i].free == free
  }

  // ---------------------------------------------------------------- Insertion

  function Insert(s: seq<Range>, k: nat, r: Range): seq<Range>
    requires k <= |s|
  {
    s[..k] + [r] + s[k..]
  }

  /** `k` is the first range that ends at or below `addr`. */
  ghost predicate Slot(s: seq<Range>, k: nat, addr: nat) {
    k <= |s| && (forall i :: 0 <= i < k ==> s[i].end > addr) && (k < |s| ==> s[k].end <= addr)
  }

  lemma InsertSound(s: seq<Range>, k: nat, r: Range)
    requires Sound(s) && Slot(s, k, r.start) && r.start <= r.end <= ADDR_MAX && !r.free
    requires Vacant(s, r.start, r.end - r.start)
    ensures Sound(Insert(s, k, r))
  {
    var s' := Insert(s, k, r);
    forall i, j | 0 <= i < j < |s'|
      ensures s'[j].end <= s'[i].start
    {
      assert i < k ==> s'[i] == s[i] && !Overlaps(s[i], r.start, r.end - r.start);
      assert j > k ==> s'[j] == s[j - 1];
      if j > k && k < |s| && j - 1 > k {
        assert s[j - 1].end <= s[k].start;
      }
    }
  }

  lemma HoldsCat(s: seq<Range>, t: seq<Range>, a: int, free: bool)
    ensures Holds(s + t, a, free) <==> Holds(s, a, free) || Holds(t, a, free)
  {
    if Holds(s + t, a, free) {
      var i :| 0 <= i < |s + t| && In((s + t)[i], a) && (s + t)[i].free == free;
      assert (s + t)[i] == if i < |s| then s[i] else t[i - |s|];
    }
    if Holds(s, a, free) {
      var i :| 0 <= i < |s| && In(s[i], a) && s[i].free == free;
      assert (s + t)[i] == s[i];
    }
    if Holds(t, a, free) {
      var i :| 0 <= i < |t| && In(t[i], a) && t[i].free == free;
      assert (s + t)[|s| + i] == t[i];
    }
  }

  lemma HoldsAround(s: seq<Range>, r: Range, t: seq<Range>, a: int, free: bool)
    ensures Holds(s + [r] + t, a, free) <==> Holds(s, a, free) || (In(r, a) && r.free == free) || Holds(t, a, free)
  {
    HoldsCat(s + [r], t, a, free);
    HoldsCat(s, [r], a, free);
    assert Holds([r], a, free) <==> In([r][0], a) && [r][0].free == free;
  }

  lemma InsertHolds(s: seq<Range>, k: nat, r: Range, a: int, free: bool)
    requires k <= |s|
    ensures Holds(Insert(s, k, r), a, free) <==> Holds(s, a, free) || (In(r, a) && r.free == free)
  {
    HoldsAround(s[..k], r, s[k..], a, free);
    HoldsCat(s[..k], s[k..], a, free);
    assert s[..k] + s[k..] == s;
  }

  // ---------------------------------------------------------------- Best fit

  /** A free range that `find_free_range` considers: its size must be below SIZE_MAX. */
  predicate Fits(r: Range, size: nat) {
    r.free && size <= r.Size() < ADDR_MAX
  }

  /** The first of the smallest free ranges that are large enough. */
  ghost predicate BestFit(s: seq<Range>, k: nat, size: nat) {
    && k < |s| && Fits(s[k], size)
    && (forall j :: 0 <= j < |s| && Fits(s[j], size) ==> s[k].Size() <= s[j].Size())
    && (forall j :: 0 <= j < k && Fits(s[j], size) ==> s[k].Size() < s[j].Size())
  }

  function Remove(s: seq<Range>, k: nat): seq<Range>
    requires k < |s|
  {
    s[..k] + s[k + 1..]
  }

  /** `size` bytes cut off the top of range `k`. */
  function Take(s: seq<Range>, k: nat, size: nat): seq<Range>
    requires k < |s| && size <= s[k].Size()
  {
    if s[k].Size() == size then Remove(s, k) else s[k := s[k].(end := s[k].end - size)]
  }

  lemma RemoveSound(s: seq<Range>, k: nat)
    requires Sound(s) && k < |s| && (s[k].start < s[k].end || s[k].free)
    ensures Sound(Remove(s, k))
  {
    var s' := Remove(s, k);
    forall i, j | 0 <= i && j == i + 1 && j < |s'|
      ensures !Touching(s'[i], s'[j])
    {
      if j < k {
        assert s'[i] == s[i] && s'[j] == s[j];
      } else if i >= k {
        assert s'[i] == s[i + 1] && s'[j] == s[j + 1];
      } else {
        assert s'[i] == s[k - 1] && s'[j] == s[k + 1];
        assert s[k + 1].end <= s[k].start && s[k].end <= s[k - 1].start;
        assert !Touching(s[k - 1], s[k]);
      }
    }
  }

  lemma ShrinkSound(s: seq<Range>, k: nat, size: nat)
    requires Sound(s) && k < |s| && size < s[k].Size()
    ensures Sound(s[k := s[k].(end := s[k].end - size)])
  {
    var s' := s[k := s[k].(end := s[k].end - size)];
    forall i, j | 0 <= i && j == i + 1 && j < |s'|
      ensures !Touching(s'[i], s'[j])
    {
      assert !Touching(s[i], s[j]);
      if j == k {
        assert s[k].end <= s[i].start;
      }
    }
  }

  /** After a cut from a free range, the bytes cut off belong to no range. */
  lemma TakeSound(s: seq<Range>, k: nat, size: nat)
    requires Sound(s) && k < |s| && size <= s[k].Size() && s[k].free
    ensures Sound(Take(s, k, size)) && Vacant(Take(s, k, size), s[k].end - size, size)
  {
    var s' := Take(s, k, size);
    if s[k].Size() == size {
      RemoveSound(s, k);
      forall i | 0 <= i < |s'|
        ensures !Overlaps(s'[i], s[k].end - size, size)
      {
        assert s'[i] == s[if i < k then i else i + 1];
      }
    } else {
      ShrinkSound(s, k, size);
    }
  }

  /** The addresses of one range are in no other. */
  lemma OthersMiss(s: seq<Range>, k: nat, a: int, free: bool)
    requires Descending(s) && k < |s| && In(s[k], a)
    ensures !Holds(s[..k], a, free) && !Holds(s[k + 1..], a, free)
  {
    forall i | 0 <= i < k
      ensures !In(s[..k][i], a)
    {
      assert s[k].end <= s[i].start;
    }
    var t := s[k + 1..];
    forall i | 0 <= i < |t|
      ensures !In(t[i], a)
    {
      assert s[k + 1 + i].end <= s[k].start;
    }
  }

  lemma TakeHolds(s: seq<Range>, k: nat, size: nat, a: int, free: bool)
    requires Sound(s) && k < |s| && size <= s[k].Size()
    ensures Holds(Take(s, k, size), a, free) <==>
            Holds(s, a, free) && !(s[k].end - size <= a < s[k].end)
  {
    if In(s[k], a) {
      OthersMiss(s, k, a, free);
    }
    assert s == s[..k] + [s[k]] + s[k + 1..];
    HoldsAround(s[..k], s[k], s[k + 1..], a, free);
    if s[k].Size() == size {
      HoldsCat(s[..k], s[k + 1..], a, free);
    } else {
      var r := s[k].(end := s[k].end - size);
      assert Take(s, k, size) == s[..k] + [r] + s[k + 1..];
      HoldsAround(s[..k], r, s[k + 1..], a, free);
    }
  }

  /** An address is in at most one range. */
  lemma OneKind(s: seq<Range>, k: nat, a: int)
    requires Descending(s) && k < |s| && In(s[k], a)
    ensures forall free :: Holds(s, a, free) <==> s[k].free == free
  {
    forall free
      ensures Holds(s, a, free) <==> s[k].free == free
    {
      OthersMiss(s, k, a, free);
      assert s == s[..k] + [s[k]] + s[k + 1..];
      HoldsAround(s[..k], s[k], s[k + 1..], a, free);
    }
  }

  // ---------------------------------------------------------------- Freeing

  /** Two neighbours `k` and `k + 1` merged into the place of `k`. */
  function Merge(s: seq<Range>, k: nat): seq<Range>
    requires k + 1 < |s|
  {
    s[..k] + [s[k].(start := s[k + 1].start)] + s[k + 2..]
  }

  predicate TouchingAt(s: seq<Range>, k: int) {
    0 <= k && k + 1 < |s| && s[k].free && s[k + 1].free && s[k].start == s[k + 1].end
  }

  /** Merges `k` with the next range when they touch and both are free. */
  function MergeIf(s: seq<Range>, k: int): seq<Range> {
    if TouchingAt(s, k) then Merge(s, k) else s
  }

  /** Range `k` marked free, merged with the next one and then into the previous one. */
  function MarkFree(s: seq<Range>, k: nat): seq<Range>
    requires k < |s|
  {
    MergeIf(MergeIf(s[k := s[k].(free := true)], k), k - 1)
  }

  /** Both merges done in place before any range is taken out: `below` says that range `k` took over
      the next one, `above` that the previous one took over range `k`. */
  lemma MarkFreeInPlace(s: seq<Range>, k: nat, below: bool, above: bool, s1: seq<Range>, s2: seq<Range>)
    requires k < |s| && (below <==> k + 1 < |s| && s[k + 1].free && s[k].start == s[k + 1].end)
    requires above <==> 0 < k && s[k - 1].free && s[k - 1].start == s[k].end
    requires s1 == s[k := s[k].(free := true, start := if below then s[k + 1].start else s[k].start)]
    requires s2 == if above then s1[k - 1 := s1[k - 1].(start := s1[k].start)] else s1
    ensures var from, count := if above then k else k + 1, (if below then 1 else 0) + (if above then 1 else 0);
      MarkFree(s, k) == s2[..from] + s2[from + count..]
  {
    var s0 := s[k := s[k].(free := true)];
    var m := MergeIf(s0, k);
    assert below <==> TouchingAt(s0, k);
    if below {
      assert m == s[..k] + [s1[k]] + s[k + 2..];
      if above {
        assert TouchingAt(m, k - 1) && m[k + 1..] == s[k + 2..] && m[..k - 1] == s[..k - 1];
        assert MarkFree(s, k) == s[..k - 1] + [s2[k - 1]] + s[k + 2..];
        assert s2[..k] == s[..k - 1] + [s2[k - 1]] && s2[k + 2..] == s[k + 2..];
      } else {
        assert !TouchingAt(m, k - 1);
        assert s2[..k + 1] == s[..k] + [s1[k]] && s2[k + 2..] == s[k + 2..];
      }
    } else if above {
      assert m == s0 == s1 && TouchingAt(m, k - 1);
      assert MarkFree(s, k) == s[..k - 1] + [s2[k - 1]] + s[k + 1..];
      assert s2[..k] == s[..k - 1] + [s2[k - 1]] && s2[k + 1..] == s[k + 1..];
    } else {
      assert m == s0 == s1 == s2 && !TouchingAt(m, k - 1);
      assert s2[..k + 1] + s2[k + 1..] == s2;
    }
  }

  lemma MergeDescending(s: seq<Range>, k: nat)
    requires Descending(s) && k + 1 < |s|
    ensures Descending(Merge(s, k))
  {
    var s' := Merge(s, k);
    forall i | 0 <= i < |s'|
      ensures s'[i].start <= s'[i].end <= ADDR_MAX
    {
      assert s[k + 1].end <= s[k].start;
      assert s'[i] == if i < k then s[i] else if i == k then s[k].(start := s[k + 1].start) else s[i + 1];
    }
  }

  lemma MergeHolds(s: seq<Range>, k: nat, a: int, free: bool)
    requires Descending(s) && TouchingAt(s, k)
    ensures Holds(Merge(s, k), a, free) <==> Holds(s, a, free)
  {
    var l, r := s[..k], s[k + 2..];
    assert s == l + [s[k]] + ([s[k + 1]] + r);
    HoldsAround(l, s[k], [s[k + 1]] + r, a, free);
    HoldsAround([], s[k + 1], r, a, free);
    assert [] + [s[k + 1]] + r == [s[k + 1]] + r;
    HoldsAround(l, s[k].(start := s[k + 1].start), r, a, free);
  }

  lemma MergeIfHolds(s: seq<Range>, k: int, a: int, free: bool)
    requires Descending(s)
    ensures Descending(MergeIf(s, k)) && (Holds(MergeIf(s, k), a, free) <==> Holds(s, a, free))
  {
    if TouchingAt(s, k) {
      MergeDescending(s, k);
      MergeHolds(s, k, a, free);
    }
  }

  /** No two free neighbours touch, except perhaps the ranges right after positions `x` and `y`. */
  ghost predicate CoalescedBut(s: seq<Range>, x: int, y: int) {
    forall i, j :: 0 <= i && j == i + 1 && j < |s| && i != x && i != y ==> !Touching(s[i], s[j])
  }

  lemma MergeCoalesces(s: seq<Range>, k: int, x: int)
    requires CoalescedBut(s, k, x) && x < k
    ensures CoalescedBut(MergeIf(s, k), x, x)
  {
    var s' := MergeIf(s, k);
    if TouchingAt(s, k) {
      forall i, j | 0 <= i && j == i + 1 && j < |s'| && i != x
        ensures !Touching(s'[i], s'[j])
      {
        if i < k {
          assert !Touching(s[i], s[i + 1]) && s'[i] == s[i];
          assert s'[j].end == s[j].end && s'[j].free == s[j].free;
        } else {
          assert !Touching(s[i + 1], s[i + 2]) && s'[j] == s[i + 2];
          assert s'[i].start == s[i + 1].start;
        }
      }
    }
  }

  /** Freeing a range keeps the array sorted and coalesced. */
  lemma MarkFreeSound(s: seq<Range>, k: nat)
    requires Sound(s) && k < |s|
    ensures Sound(MarkFree(s, k))
  {
    var s0 := s[k := s[k].(free := true)];
    var s1 := MergeIf(s0, k);
    assert CoalescedBut(s0, k, k - 1) by {
      forall i, j | 0 <= i && j == i + 1 && j < |s0| && i != k && i != k - 1
        ensures !Touching(s0[i], s0[j])
      {
        assert !Touching(s[i], s[j]);
      }
    }
    MergeCoalesces(s0, k, k - 1);
    MergeCoalesces(s1, k - 1, -2);
    MergeIfHolds(s0, k, 0, true);
    MergeIfHolds(s1, k - 1, 0, true);
  }

  /** Freeing range `k` moves exactly its addresses to the free ones. */
  lemma MarkFreeHolds(s: seq<Range>, k: nat, a: int)
    requires Sound(s) && k < |s|
    ensures var s' := MarkFree(s, k);
      if In(s[k], a) then Holds(s', a, true) && !Holds(s', a, false)
      else (Holds(s', a, true) <==> Holds(s, a, true)) && (Holds(s', a, false) <==> Holds(s, a, false))
  {
    var s0 := s[k := s[k].(free := true)];
    var s1 := MergeIf(s0, k);
    forall free
      ensures Holds(MarkFree(s, k), a, free) <==> Holds(s0, a, free)
    {
      MergeIfHolds(s0, k, a, free);
      MergeIfHolds(s1, k - 1, a, free);
    }
    MarkedHolds(s, k, a);
  }

  lemma MarkedHolds(s: seq<Range>, k: nat, a: int)
    requires Descending(s) && k < |s|
    ensures var s' := s[k := s[k].(free := true)];
      if In(s[k], a) then Holds(s', a, true) && !Holds(s', a, false)
      else (Holds(s', a, true) <==> Holds(s, a, true)) && (Holds(s', a, false) <==> Holds(s, a, false))
  {
    var s' := s[k := s[k].(free := true)];
    if In(s[k], a) {
      OneKind(s', k, a);
    } else {
      assert s == s[..k] + [s[k]] + s[k + 1..] && s' == s[..k] + [s'[k]] + s[k + 1..];
      forall free
        ensures Holds(s', a, free) <==> Holds(s, a, free)
      {
        HoldsAround(s[..k], s[k], s[k + 1..], a, free);
        HoldsAround(s[..k], s'[k], s[k + 1..], a, free);
      }
    }
  }
}
