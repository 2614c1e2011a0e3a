/** AddressSanitizer's shadow memory: one shadow byte for eight bytes of memory.

Memory is the addresses from 0 to eight times the number of shadow bytes. */
module Asan {

  const ALIGN: nat := 8

  const ALLOCA_REDZONE: nat := 32

  const POISON_ALLOCA_LEFT: nat := 0xca
  const POISON_ALLOCA_RIGHT: nat := 0xcb

  /** A shadow byte from here on poisons all eight bytes. */
  const POISON: nat := 0x80

  /** Whether the shadow byte poisons byte `i` of its eight: `asan_check`. */
  predicate Poisons(val: nat, i: nat) {
    val != 0 && (val >= POISON || val <= i)
  }

  predicate Bad(shadow: seq<nat>, a: nat)
    requires a < ALIGN * |shadow|
  {
    Poisons(shadow[a / ALIGN], a % ALIGN)
  }

  /** Some byte of the region is poisoned. */
  ghost predicate BadRegion(shadow: seq<nat>, addr: nat, size: nat)
    requires addr + size <= ALIGN * |shadow|
  {
    exists a :: addr <= a < addr + size && Bad(shadow, a)
  }

  /** `asan_check_region`: looks at the first byte, the last byte and the shadow bytes in between. */
  predicate CheckRegion(shadow: seq<nat>, addr: nat, size: nat)
    requires addr + size <= ALIGN * |shadow|
  {
    size != 0 &&
    (|| Bad(shadow, addr)
     || (size > 1 && Bad(shadow, addr + size - 1))
     || (size > ALIGN && exists g :: addr / ALIGN + 1 <= g < (addr + size - 1) / ALIGN && shadow[g] != 0))
  }

  /** The loop over shadow bytes. */
  method CheckRegionLoop(shadow: array<nat>, addr: nat, size: nat) returns (bad: bool)
    requires addr + size <= ALIGN * shadow.Length
    ensures bad == CheckRegion(shadow[..], addr, size)
  {
    if size == 0 {
      return false;
    }
    var end := addr + size;
    if Poisons(shadow[addr / ALIGN], addr % ALIGN) {
      return true;
    }
    if size > 1 && Poisons(shadow[(end - 1) / ALIGN], (end - 1) % ALIGN) {
      return true;
    }
    if size > ALIGN {
      var g, last := addr / ALIGN + 1, (end - 1) / ALIGN;
      while g < last
        invariant addr / ALIGN + 1 <= g && forall i :: addr / ALIGN + 1 <= i < g && i < last ==> shadow[i] == 0
      {
        if shadow[g] != 0 {
          assert shadow[..][g] != 0;
          return true;
        }
        g := g + 1;
      }
    }
    return false;
  }

  // ---------------------------------------------------------------- When the fast check is exact

  /** The byte in front of granule `g` can be used. */
  predicate OpenBefore(shadow: seq<nat>, g: nat)
    requires g <= |shadow|
  {
    g > 0 && !Poisons(shadow[g - 1], ALIGN - 1)
  }

  /** The first byte of granule `g` can be used. */
  predicate OpenAt(shadow: seq<nat>, g: nat) {
    g < |shadow| && !Poisons(shadow[g], 0)
  }

  /** After a partly poisoned granule comes a poisoned one, and a value with no meaning is not between
      bytes that can be used. */
  predicate GranuleOk(shadow: seq<nat>, g: nat)
    requires g < |shadow|
  {
    && (1 <= shadow[g] < ALIGN ==> !OpenAt(shadow, g + 1))
    && (ALIGN <= shadow[g] < POISON ==> !(OpenBefore(shadow, g) && OpenAt(shadow, g + 1)))
  }

  ghost predicate Regular(shadow: seq<nat>) {
    forall g :: 0 <= g < |shadow| ==> GranuleOk(shadow, g)
  }

  /** In one granule, poison extends upwards. */
  lemma PoisonExtends(val: nat, i: nat, j: nat)
    requires Poisons(val, i) && i <= j
    ensures Poisons(val, j)
  {
  }

  lemma ByteOf(shadow: seq<nat>, g: nat, i: nat)
    requires g < |shadow| && i < ALIGN
    ensures ALIGN * g + i < ALIGN * |shadow| && (ALIGN * g + i) / ALIGN == g && (ALIGN * g + i) % ALIGN == i
  {
  }

  lemma CheckFindsPoison(shadow: seq<nat>, addr: nat, size: nat, a: nat)
    requires Regular(shadow) && addr + size <= ALIGN * |shadow| && addr <= a < addr + size && Bad(shadow, a)
    ensures CheckRegion(shadow, addr, size)
  {
    var last := addr + size - 1;
    var s, g, e := addr / ALIGN, a / ALIGN, last / ALIGN;
    if g == e {
      PoisonExtends(shadow[g], a % ALIGN, last % ALIGN);
    } else if g > s {
      assert shadow[g] != 0;
    } else if !Bad(shadow, addr) {
      assert 1 <= shadow[g] < ALIGN;
      assert GranuleOk(shadow, g);
      assert Poisons(shadow[g + 1], 0);
      if g + 1 == e {
        PoisonExtends(shadow[e], 0, last % ALIGN);
      } else {
        assert shadow[g + 1] != 0;
      }
    }
  }

  lemma CheckIsNoFalseAlarm(shadow: seq<nat>, addr: nat, size: nat)
    requires Regular(shadow) && addr + size <= ALIGN * |shadow| && CheckRegion(shadow, addr, size)
    ensures BadRegion(shadow, addr, size)
  {
    var last := addr + size - 1;
    if !Bad(shadow, addr) && !Bad(shadow, last) {
      var g :| addr / ALIGN + 1 <= g < last / ALIGN && shadow[g] != 0;
      assert GranuleOk(shadow, g);
      if shadow[g] < ALIGN || shadow[g] >= POISON {
        ByteOf(shadow, g, ALIGN - 1);
        assert Bad(shadow, ALIGN * g + (ALIGN - 1));
      } else if Poisons(shadow[g - 1], ALIGN - 1) {
        ByteOf(shadow, g - 1, ALIGN - 1);
        assert Bad(shadow, ALIGN * (g - 1) + (ALIGN - 1));
      } else {
        ByteOf(shadow, g + 1, 0);
        assert Bad(shadow, ALIGN * (g + 1) + 0);
      }
    }
  }

  /** A partly poisoned granule in front of usable bytes is overlooked. */
  lemma PartialIsOverlooked(shadow: seq<nat>, g: nat)
    requires g < |shadow| && 1 <= shadow[g] < ALIGN && OpenAt(shadow, g + 1)
    ensures var addr, size := ALIGN * g + shadow[g] - 1, ALIGN - shadow[g] + 2;
      addr + size <= ALIGN * |shadow| && BadRegion(shadow, addr, size) && !CheckRegion(shadow, addr, size)
  {
    ByteOf(shadow, g, shadow[g] - 1);
    ByteOf(shadow, g, shadow[g]);
    ByteOf(shadow, g + 1, 0);
    assert Bad(shadow, ALIGN * g + shadow[g]);
  }

  /** A value with no meaning between usable bytes raises a false alarm. */
  lemma NonsenseIsAlarming(shadow: seq<nat>, g: nat)
    requires g < |shadow| && ALIGN <= shadow[g] < POISON && OpenBefore(shadow, g) && OpenAt(shadow, g + 1)
    ensures var addr, size := ALIGN * g - 1, ALIGN + 2;
      addr + size <= ALIGN * |shadow| && !BadRegion(shadow, addr, size) && CheckRegion(shadow, addr, size)
  {
    ByteOf(shadow, g - 1, ALIGN - 1);
    ByteOf(shadow, g + 1, 0);
    assert shadow[g] != 0;
  }

  /** The fast check finds poison exactly where there is some, for every region, if and only if the
      shadow is regular. */
  lemma CheckRegionIsExact(shadow: seq<nat>)
    ensures Regular(shadow) <==>
      forall addr: nat, size: nat | addr + size <= ALIGN * |shadow| ::
        CheckRegion(shadow, addr, size) == BadRegion(shadow, addr, size)
  {
    if Regular(shadow) {
      forall addr: nat, size: nat | addr + size <= ALIGN * |shadow|
        ensures CheckRegion(shadow, addr, size) == BadRegion(shadow, addr, size)
      {
        if CheckRegion(shadow, addr, size) {
          CheckIsNoFalseAlarm(shadow, addr, size);
        }
        if BadRegion(shadow, addr, size) {
          var a :| addr <= a < addr + size && Bad(shadow, a);
          CheckFindsPoison(shadow, addr, size, a);
        }
      }
    } else {
      var g :| 0 <= g < |shadow| && !GranuleOk(shadow, g);
      if 1 <= shadow[g] < ALIGN {
        PartialIsOverlooked(shadow, g);
      } else {
        NonsenseIsAlarming(shadow, g);
      }
    }
  }

  // ---------------------------------------------------------------- Poisoning

  /** `n` rounded up to a multiple of the given number of granules. */
  function AlignUp(n: nat, granules: nat): (r: nat)
    requires granules == 1 || granules == 4
    ensures n <= r < n + ALIGN * granules && r % ALIGN == 0
  {
    if granules == 1 then (n + 7) / 8 * 8 else (n + 31) / 32 * 32
  }

  /** The array with its right redzone. */
  function WithRedzone(size: nat): (total: nat)
    ensures size + ALLOCA_REDZONE <= total && total % ALIGN == 0
  {
    AlignUp(size, 4) + ALLOCA_REDZONE
  }

  /** Fills `count` shadow bytes from `from`. */
  method Fill(shadow: array<nat>, from: nat, count: nat, value: nat)
    requires from + count <= shadow.Length
    modifies shadow
    ensures forall g :: 0 <= g < shadow.Length ==>
      shadow[g] == if from <= g < from + count then value else old(shadow[g])
  {
    forall g | from <= g < from + count {
      shadow[g] := value;
    }
  }

  /** `asan_poison_region`. */
  method PoisonRegion(shadow: array<nat>, addr: nat, size: nat, value: nat)
    requires addr % ALIGN == 0 && addr + AlignUp(size, 1) <= ALIGN * shadow.Length
    modifies shadow
    ensures forall g :: 0 <= g < shadow.Length ==>
      shadow[g] == if addr <= ALIGN * g < addr + AlignUp(size, 1) then value else old(shadow[g])
  {
    Fill(shadow, addr / ALIGN, AlignUp(size, 1) / ALIGN, value);
  }

  /** `asan_unpoison_region`: exactly the bytes of the region can be used; what is left of its last
      granule cannot, and no other granule changes. */
  method UnpoisonRegion(shadow: array<nat>, addr: nat, size: nat)
    requires addr % ALIGN == 0 && addr + AlignUp(size, 1) <= ALIGN * shadow.Length
    modifies shadow
    ensures forall g :: 0 <= g < shadow.Length && (ALIGN * g < addr || addr + size <= ALIGN * g) ==>
      shadow[g] == old(shadow[g])
    ensures forall a :: addr <= a < addr + AlignUp(size, 1) ==> (Bad(shadow[..], a) <==> addr + size <= a)
  {
    var full := size / ALIGN;
    Fill(shadow, addr / ALIGN, full, 0);
    if size % ALIGN != 0 {
      shadow[addr / ALIGN + full] := size % ALIGN;
    }
  }

  /** A partial granule, if `part` is not zero, and `count` poisoned ones behind it. */
  method PutRedzone(shadow: array<nat>, at: nat, part: nat, count: nat, value: nat)
    requires at + (if part != 0 then 1 else 0) + count <= shadow.Length
    modifies shadow
    ensures var from := at + if part != 0 then 1 else 0;
      forall g :: 0 <= g < shadow.Length ==>
        shadow[g] == if from <= g < from + count then value
                     else if part != 0 && g == from - 1 then part
                     else old(shadow[g])
  {
    var from := at;
    if part != 0 {
      shadow[from] := part;
      from := from + 1;
    }
    Fill(shadow, from, count, value);
  }

  /** `asan_poison_right_redzone`: poisons from `addr + size`, which need not be aligned, up to
      `addr + total`. */
  method PoisonRightRedzone(shadow: array<nat>, addr: nat, size: nat, total: nat, value: nat)
    requires addr % ALIGN == 0 && size <= total && total % ALIGN == 0 && addr + total <= ALIGN * shadow.Length
    modifies shadow
    ensures forall g :: 0 <= g < shadow.Length ==>
      shadow[g] == if addr + size <= ALIGN * g < addr + total then value
                   else if ALIGN * g < addr + size < ALIGN * g + ALIGN then (addr + size) % ALIGN
                   else old(shadow[g])
  {
    ghost var end, top := addr + size, addr + total;
    RedzoneFits(end, top, total - size);
    PutRedzone(shadow, (addr + size) / ALIGN, (addr + size) % ALIGN, (total - size) / ALIGN, value);
    forall g | 0 <= g < shadow.Length
      ensures shadow[g] == if end <= ALIGN * g < top then value
                           else if ALIGN * g < end < ALIGN * g + ALIGN then end % ALIGN
                           else old(shadow[g])
    {
      RedzoneGranule(end, top, total - size, g);
    }
  }

  /** The granules from `end` to `top`. */
  lemma RedzoneFits(end: nat, top: nat, n: nat)
    requires top % ALIGN == 0 && n == top - end
    ensures (end + ALIGN - 1) / ALIGN + n / ALIGN == top / ALIGN
    ensures (end + ALIGN - 1) / ALIGN == end / ALIGN + if end % ALIGN != 0 then 1 else 0
  {
  }

  lemma RedzoneGranule(end: nat, top: nat, n: nat, g: nat)
    requires top % ALIGN == 0 && n == top - end
    ensures var from := end / ALIGN + if end % ALIGN != 0 then 1 else 0;
      && (from <= g < from + n / ALIGN <==> end <= ALIGN * g < top)
      && (end % ALIGN != 0 && g == from - 1 <==> ALIGN * g < end < ALIGN * g + ALIGN)
  {
    RedzoneFits(end, top, n);
  }

  /** `__asan_alloca_poison`. */
  method AllocaPoison(shadow: array<nat>, addr: nat, size: nat)
    requires addr % ALLOCA_REDZONE == 0 && addr >= ALLOCA_REDZONE
    requires addr + WithRedzone(size) <= ALIGN * shadow.Length
    modifies shadow
    ensures forall g :: 0 <= g < shadow.Length ==>
      shadow[g] == Alloca(old(shadow[g]), ALIGN * g, addr, size)
  {
    PoisonLeftRedzone(shadow, addr);
    var total := WithRedzone(size);
    PutRight(shadow, addr, size, total);
  }

  /** The right redzone, after the left one. */
  method PutRight(shadow: array<nat>, addr: nat, size: nat, total: nat)
    requires addr % ALIGN == 0 && size <= total && total % ALIGN == 0 && addr + total <= ALIGN * shadow.Length
    modifies shadow
    ensures forall g :: 0 <= g < shadow.Length ==>
      if addr <= ALIGN * g + ALLOCA_REDZONE && ALIGN * g < addr then shadow[g] == old(shadow[g])
      else shadow[g] == Between(old(shadow[g]), ALIGN * g, addr, addr + size, addr + total)
  {
    PoisonRightRedzone(shadow, addr, size, total, POISON_ALLOCA_RIGHT);
  }

  /** The bytes in front of an array at `addr`. */
  method PoisonLeftRedzone(shadow: array<nat>, addr: nat)
    requires addr % ALLOCA_REDZONE == 0 && ALLOCA_REDZONE <= addr <= ALIGN * shadow.Length
    modifies shadow
    ensures addr % ALIGN == 0
    ensures forall g :: 0 <= g < shadow.Length ==>
      shadow[g] == if addr <= ALIGN * g + ALLOCA_REDZONE && ALIGN * g < addr then POISON_ALLOCA_LEFT else old(shadow[g])
  {
    ghost var q := addr / ALLOCA_REDZONE;
    assert addr == ALIGN * (4 * q) && addr - ALLOCA_REDZONE == ALIGN * (4 * q - 4);
    assert AlignUp(ALLOCA_REDZONE, 1) == ALLOCA_REDZONE;
    PoisonRegion(shadow, addr - ALLOCA_REDZONE, ALLOCA_REDZONE, POISON_ALLOCA_LEFT);
  }

  /** The shadow byte for the eight bytes at `a` once an array of `size` bytes is put at `addr`. */
  function Alloca(val: nat, a: nat, addr: nat, size: nat): nat {
    Between(val, a, addr, addr + size, addr + WithRedzone(size))
  }

  /** The same, for an array up to `end` and its right redzone up to `top`. */
  function Between(val: nat, a: nat, addr: nat, end: nat, top: nat): nat {
    if addr <= a + ALLOCA_REDZONE && a < addr then POISON_ALLOCA_LEFT
    else if end <= a < top then POISON_ALLOCA_RIGHT
    else if a < end < a + ALIGN then end % ALIGN
    else val
  }

  /** Byte `i` of granule `q`, for an array from granule `first` on and a redzone up to granule `last`. */
  lemma BetweenByte(val: nat, q: nat, i: nat, first: nat, end: nat, last: nat)
    requires i < ALIGN && first >= 4 && ALIGN * first <= end && end + ALIGN <= ALIGN * last
    requires first <= q && ALIGN * q < end ==> val == 0
    ensures Poisons(Between(val, ALIGN * q, ALIGN * first, end, ALIGN * last), i) ==
      if first <= q && ALIGN * q + i < end then false
      else if first - 4 <= q < last then true
      else Poisons(val, i)
  {
    if ALIGN * q < end < ALIGN * q + ALIGN {
      assert end % ALIGN == end - ALIGN * q;
    }
  }

  /** `shadow'` is `shadow` after an array of `size` bytes, so far all usable, was put at `addr`. */
  ghost predicate Allocated(shadow: seq<nat>, shadow': seq<nat>, addr: nat, size: nat) {
    && addr % ALLOCA_REDZONE == 0 && addr >= ALLOCA_REDZONE && |shadow'| == |shadow|
    && addr + WithRedzone(size) <= ALIGN * |shadow|
    && (forall g :: 0 <= g < |shadow| ==> shadow'[g] == Alloca(shadow[g], ALIGN * g, addr, size))
    && (forall g :: 0 <= g < |shadow| && addr <= ALIGN * g < addr + size ==> shadow[g] == 0)
  }

  /** Byte `i` of granule `g`. */
  lemma AllocaByte(val: nat, g: nat, i: nat, addr: nat, size: nat)
    requires i < ALIGN && addr % ALIGN == 0 && addr >= ALLOCA_REDZONE
    requires addr <= ALIGN * g < addr + size ==> val == 0
    ensures var a := ALIGN * g + i;
      Poisons(Alloca(val, ALIGN * g, addr, size), i) ==
        if addr <= a < addr + size then false
        else if addr - ALLOCA_REDZONE <= a < addr + WithRedzone(size) then true
        else Poisons(val, i)
  {
    var first, last := addr / ALIGN, (addr + WithRedzone(size)) / ALIGN;
    assert addr == ALIGN * first && addr + WithRedzone(size) == ALIGN * last;
    BetweenByte(val, g, i, first, addr + size, last);
  }

  /** Between its redzones the array, and nothing else, can be used; all other bytes are as they
      were. */
  lemma AllocaIsExact(shadow: seq<nat>, shadow': seq<nat>, addr: nat, size: nat)
    requires Allocated(shadow, shadow', addr, size)
    ensures forall a :: 0 <= a < ALIGN * |shadow| ==>
      Bad(shadow', a) == if addr <= a < addr + size then false
                         else if addr - ALLOCA_REDZONE <= a < addr + WithRedzone(size) then true
                         else Bad(shadow, a)
  {
    forall a | 0 <= a < ALIGN * |shadow|
      ensures Bad(shadow', a) == if addr <= a < addr + size then false
                                 else if addr - ALLOCA_REDZONE <= a < addr + WithRedzone(size) then true
                                 else Bad(shadow, a)
    {
      var g, i := a / ALIGN, a % ALIGN;
      assert shadow'[g] == Alloca(shadow[g], ALIGN * g, addr, size);
      AllocaByte(shadow[g], g, i, addr, size);
    }
  }

  /** A regular shadow stays regular, so the fast check stays exact. */
  lemma AllocaKeepsRegular(shadow: seq<nat>, shadow': seq<nat>, addr: nat, size: nat)
    requires Allocated(shadow, shadow', addr, size) && Regular(shadow)
    ensures Regular(shadow')
  {
    forall g | 0 <= g < |shadow|
      ensures GranuleOk(shadow', g)
    {
      assert GranuleOk(shadow, g);
      assert g + 1 < |shadow| ==> shadow'[g + 1] == Alloca(shadow[g + 1], ALIGN * (g + 1), addr, size);
      assert g > 0 ==> shadow'[g - 1] == Alloca(shadow[g - 1], ALIGN * (g - 1), addr, size);
    }
  }
}
