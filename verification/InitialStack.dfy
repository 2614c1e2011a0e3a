/** The initial stack of a process, built from both ends of its memory.

Addresses are absolute and memory starts at address `stack`. A cell of memory is a byte of a string,
or one of the eight bytes of a word. */
module InitialStack {

  datatype Cell = Char(c: nat) | Part(word: nat, k: nat)

  type Text = seq<Cell>

  const NUL := Char(0)

  /** Space for the auxiliary vectors: 14 of 16 bytes each, and 16 more bytes. */
  const AUXV: nat := 14 * 16 + 16

  // ---------------------------------------------------------------- Words and strings in memory

  /** The eight bytes from `p` on are those of word `w`. */
  ghost predicate WordAt(mem: Text, p: nat, w: nat) {
    p + 8 <= |mem| && forall j :: p <= j < p + 8 ==> mem[j] == Part(w, j - p)
  }

  /** String `s` and its terminator are at `p`. */
  ghost predicate StringAt(mem: Text, p: nat, s: Text) {
    p + |s| < |mem| && mem[p + |s|] == NUL && forall j :: p <= j < p + |s| ==> mem[j] == s[j - p]
  }

  /** Cells from `lo` to `hi` are as they were. */
  ghost predicate Kept(was: Text, now: Text, lo: nat, hi: nat) {
    |was| == |now| && forall j :: lo <= j < hi && j < |was| ==> now[j] == was[j]
  }

  lemma KeptPart(a: Text, b: Text, lo: nat, hi: nat, lo': nat, hi': nat)
    requires Kept(a, b, lo, hi) && lo <= lo' && hi' <= hi
    ensures Kept(a, b, lo', hi')
  {
  }

  method PutWord(mem: array<Cell>, p: nat, w: nat)
    requires p + 8 <= mem.Length
    modifies mem
    ensures WordAt(mem[..], p, w)
    ensures Kept(old(mem[..]), mem[..], 0, p) && Kept(old(mem[..]), mem[..], p + 8, mem.Length)
  {
    forall j | p <= j < p + 8 {
      mem[j] := Part(w, j - p);
    }
  }

  method PutString(mem: array<Cell>, p: nat, s: Text)
    requires p + |s| < mem.Length
    modifies mem
    ensures StringAt(mem[..], p, s)
    ensures Kept(old(mem[..]), mem[..], 0, p) && Kept(old(mem[..]), mem[..], p + |s| + 1, mem.Length)
  {
    forall j | p <= j < p + |s| {
      mem[j] := s[j - p];
    }
    mem[p + |s|] := NUL;
  }

  // ---------------------------------------------------------------- Arrays of strings

  /** Space for the first `i` strings and their terminators. */
  function Offset(ss: seq<Text>, i: nat): nat
    requires i <= |ss|
  {
    if i == 0 then 0 else Offset(ss, i - 1) + |ss[i - 1]| + 1
  }

  function Size(ss: seq<Text>): nat {
    Offset(ss, |ss|)
  }

  lemma {:induction false} OffsetGrows(ss: seq<Text>, i: nat, j: nat)
    requires i < j <= |ss|
    ensures Offset(ss, i) + |ss[i]| + 1 <= Offset(ss, j)
    decreases j
  {
    if i + 1 < j {
      OffsetGrows(ss, i, j - 1);
    }
  }

  /** Word `i` from position `at` on is the address of string `i`, which follows the ones before it
      from position `high` on: strings are compact and in increasing order. */
  ghost predicate PointerOk(mem: Text, stack: nat, at: nat, ss: seq<Text>, high: nat, i: nat)
    requires i < |ss|
  {
    WordAt(mem, at + 8 * i, stack + high + Offset(ss, i)) && StringAt(mem, high + Offset(ss, i), ss[i])
  }

  ghost predicate PointersOk(mem: Text, stack: nat, at: nat, ss: seq<Text>, high: nat, n: nat) {
    n <= |ss| && forall i :: 0 <= i < n ==> PointerOk(mem, stack, at, ss, high, i)
  }

  /** From position `at` on there are the addresses of the given strings, and a null. */
  ghost predicate PointsAt(mem: Text, stack: nat, at: nat, ss: seq<Text>, high: nat) {
    PointersOk(mem, stack, at, ss, high, |ss|) && WordAt(mem, at + 8 * |ss|, 0)
  }

  lemma PointerKept(was: Text, now: Text, stack: nat, at: nat, ss: seq<Text>, high: nat, i: nat, low: nat, str: nat)
    requires i < |ss| && PointerOk(was, stack, at, ss, high, i)
    requires Kept(was, now, at, low) && at + 8 * i + 8 <= low
    requires Kept(was, now, high, str) && high + Offset(ss, i) + |ss[i]| + 1 <= str
    ensures PointerOk(now, stack, at, ss, high, i)
  {
  }

  lemma PointersKept(was: Text, now: Text, stack: nat, at: nat, ss: seq<Text>, high: nat, n: nat)
    requires PointersOk(was, stack, at, ss, high, n)
    requires Kept(was, now, at, at + 8 * n) && Kept(was, now, high, high + Offset(ss, n))
    ensures PointersOk(now, stack, at, ss, high, n)
  {
    forall i | 0 <= i < n
      ensures PointerOk(now, stack, at, ss, high, i)
    {
      OffsetGrows(ss, i, n);
      PointerKept(was, now, stack, at, ss, high, i, at + 8 * n, high + Offset(ss, n));
    }
  }

  lemma PointsKept(was: Text, now: Text, stack: nat, at: nat, ss: seq<Text>, high: nat)
    requires PointsAt(was, stack, at, ss, high)
    requires Kept(was, now, at, at + 8 * |ss| + 8) && Kept(was, now, high, high + Size(ss))
    ensures PointsAt(now, stack, at, ss, high)
  {
    PointersKept(was, now, stack, at, ss, high, |ss|);
  }

  // ---------------------------------------------------------------- Copying strings

  /** Nothing below `lo` and nothing from `hi` on changed. */
  ghost predicate Outside(was: Text, now: Text, lo: nat, hi: nat) {
    Kept(was, now, 0, lo) && Kept(was, now, hi, |was|)
  }

  /** One string and its address. */
  method CopyOne(mem: array<Cell>, stack: nat, low0: nat, high: nat, ss: seq<Text>, i: nat, low: nat, str: nat)
    requires i < |ss| && low == low0 + 8 * i && low + 8 <= high && str == high + Offset(ss, i)
    requires high + Size(ss) <= mem.Length && PointersOk(mem[..], stack, low0, ss, high, i)
    modifies mem
    ensures PointersOk(mem[..], stack, low0, ss, high, i + 1)
    ensures Outside(old(mem[..]), mem[..], low0, high + Size(ss))
  {
    ghost var was := mem[..];
    OffsetGrows(ss, i, |ss|);
    PutString(mem, str, ss[i]);
    ghost var mid := mem[..];
    PointersKept(was, mid, stack, low0, ss, high, i);
    PutWord(mem, low, stack + str);
    PointersKept(mid, mem[..], stack, low0, ss, high, i);
  }

  /** Copies strings to `high` and their addresses to `low0`, as long as the two do not meet. */
  method CopyStrings(mem: array<Cell>, stack: nat, low0: nat, high: nat, ss: seq<Text>) returns (ok: bool, low: nat)
    requires low0 <= high && high + Size(ss) <= mem.Length
    modifies mem
    ensures ok <==> low0 + 8 * |ss| <= high
    ensures ok ==> low == low0 + 8 * |ss| && PointersOk(mem[..], stack, low0, ss, high, |ss|)
    ensures Outside(old(mem[..]), mem[..], low0, high + Size(ss))
  {
    low := low0;
    var str := high;
    for i := 0 to |ss|
      invariant low == low0 + 8 * i <= high && str == high + Offset(ss, i)
      invariant PointersOk(mem[..], stack, low0, ss, high, i)
      invariant Outside(old(mem[..]), mem[..], low0, high + Size(ss))
    {
      if low + 8 > high {
        return false, low;
      }
      CopyOne(mem, stack, low0, high, ss, i, low, str);
      low := low + 8;
      str := str + |ss[i]| + 1;
    }
    ok := true;
  }

  /** Space for strings and their terminators. */
  method SizeOf(ss: seq<Text>) returns (n: nat)
    ensures n == Size(ss)
  {
    n := 0;
    for i := 0 to |ss|
      invariant n == Offset(ss, i)
    {
      n := n + |ss[i]| + 1;
    }
  }

  /** A null-terminated array of addresses at `low0`, and the strings they point at in front of
      `high0`. */
  method PutArray(mem: array<Cell>, stack: nat, low0: nat, high0: nat, ss: seq<Text>)
      returns (ok: bool, low: nat, high: nat)
    requires low0 <= high0 <= mem.Length
    modifies mem
    ensures ok <==> low0 + 8 * (|ss| + 1) + Size(ss) <= high0
    ensures ok ==>
      && low == low0 + 8 * (|ss| + 1) && high == high0 - Size(ss)
      && PointsAt(mem[..], stack, low0, ss, high) && Outside(old(mem[..]), mem[..], low0, high0)
  {
    low, high := low0, high0;
    var size := SizeOf(ss);
    if high < size + low {
      return false, low, high;
    }
    high := high - size;
    ok, low := CopyStrings(mem, stack, low, high, ss);
    if !ok || low + 8 > high {
      return false, low, high;
    }
    ghost var was := mem[..];
    PutWord(mem, low, 0);
    PointersKept(was, mem[..], stack, low0, ss, high, |ss|);
    low := low + 8;
  }

  // ---------------------------------------------------------------- The whole stack

  /** All the space that is needed. */
  function Needed(argv: seq<Text>, envp: seq<Text>): nat {
    8 * (|argv| + |envp| + 3) + AUXV + Size(argv) + Size(envp)
  }

  /** Position of envp, behind argc, argv and its null. */
  function EnvpAt(at: nat, argc: nat): nat {
    at + 8 * (argc + 2)
  }

  /** What a program finds at the position it is given: argc, argv with strings at position `args`, and
      envp with strings at position `env`. */
  ghost predicate Loads(mem: Text, stack: nat, at: nat, argv: seq<Text>, args: nat, envp: seq<Text>, env: nat) {
    && WordAt(mem, at, |argv|)
    && PointsAt(mem, stack, at + 8, argv, args)
    && PointsAt(mem, stack, EnvpAt(at, |argv|), envp, env)
  }

  /** Fills both ends. */
  method PutFrame(mem: array<Cell>, stack: nat, argv: seq<Text>, envp: seq<Text>)
      returns (ok: bool, low: nat, high: nat, ghost args: nat)
    modifies mem
    ensures ok <==> Needed(argv, envp) <= mem.Length + AUXV
    ensures ok ==>
      && low == 8 * (|argv| + |envp| + 3) && args == mem.Length - Size(argv) && high == args - Size(envp)
      && Loads(mem[..], stack, 0, argv, args, envp, high)
  {
    low, high, args := 8, mem.Length, 0;
    if low > high {
      return false, low, high, args;
    }
    PutWord(mem, 0, |argv|);
    ok, low, high := PutArray(mem, stack, low, high, argv);
    if !ok {
      return;
    }
    args := high;
    ghost var was := mem[..];
    ok, low, high := PutArray(mem, stack, low, high, envp);
    if ok {
      PointsKept(was, mem[..], stack, 8, argv, args);
    }
  }

  // ---------------------------------------------------------------- Moving the low part up

  /** The first `size` cells are now at `at`. */
  ghost predicate Moved(was: Text, now: Text, size: nat, at: nat) {
    |was| == |now| && at + size <= |now| && forall j :: at <= j < at + size ==> now[j] == was[j - at]
  }

  lemma WordMoved(was: Text, now: Text, size: nat, at: nat, p: nat, w: nat)
    requires Moved(was, now, size, at) && WordAt(was, p, w) && p + 8 <= size
    ensures WordAt(now, at + p, w)
  {
    forall j | at + p <= j < at + p + 8
      ensures now[j] == Part(w, j - (at + p))
    {
      assert was[j - at] == Part(w, j - at - p);
    }
  }

  lemma PointerMoved(was: Text, now: Text, size: nat, at: nat, stack: nat, p: nat, ss: seq<Text>, high: nat, i: nat)
    requires Moved(was, now, size, at) && i < |ss| && PointerOk(was, stack, p, ss, high, i)
    requires p + 8 * i + 8 <= size <= high && Kept(was, now, high, |was|)
    ensures PointerOk(now, stack, at + p, ss, high, i)
  {
    WordMoved(was, now, size, at, p + 8 * i, stack + high + Offset(ss, i));
  }

  lemma PointsMoved(was: Text, now: Text, size: nat, at: nat, stack: nat, p: nat, ss: seq<Text>, high: nat)
    requires Moved(was, now, size, at) && PointsAt(was, stack, p, ss, high)
    requires p + 8 * |ss| + 8 <= size <= high && Kept(was, now, high, |was|)
    ensures PointsAt(now, stack, at + p, ss, high)
  {
    var q := at + p;
    forall i | 0 <= i < |ss|
      ensures PointerOk(now, stack, q, ss, high, i)
    {
      PointerMoved(was, now, size, at, stack, p, ss, high, i);
    }
    WordMoved(was, now, size, at, p + 8 * |ss|, 0);
  }

  /** What loads from the low part loads from its new place. */
  lemma LoadsMoved(was: Text, now: Text, size: nat, at: nat, stack: nat, argv: seq<Text>, args: nat, envp: seq<Text>,
                   env: nat)
    requires Moved(was, now, size, at) && Loads(was, stack, 0, argv, args, envp, env)
    requires 8 * (|argv| + |envp| + 3) <= size <= env <= args && Kept(was, now, env, |was|)
    ensures Loads(now, stack, at, argv, args, envp, env)
  {
    WordMoved(was, now, size, at, 0, |argv|);
    KeptPart(was, now, env, |was|, args, |was|);
    PointsMoved(was, now, size, at, stack, 8, argv, args);
    PointsMoved(was, now, size, at, stack, EnvpAt(0, |argv|), envp, env);
  }

  /** Moves the low part up to the high part, to an aligned address, and clears what it leaves. */
  method Pack(mem: array<Cell>, stack: nat, size: nat, high: nat) returns (at: nat)
    requires size <= high <= mem.Length && stack % 16 == 0
    modifies mem
    ensures at + size <= high < at + size + 16 && (stack + at) % 16 == 0
    ensures Moved(old(mem[..]), mem[..], size, at) && Kept(old(mem[..]), mem[..], high, mem.Length)
    ensures forall i :: 0 <= i < at ==> mem[i] == Char(0)
  {
    at := (stack + high - size) / 16 * 16 - stack;
    forall j | 0 <= j < size {
      mem[at + j] := mem[j];
    }
    forall j | 0 <= j < at {
      mem[j] := Char(0);
    }
  }

  /** `populate_stack`: succeeds exactly when everything fits; then the program finds its arguments
      and environment at an address aligned to 16 bytes, and space for auxiliary vectors behind. */
  method PopulateStack(mem: array<Cell>, stack: nat, argv: seq<Text>, envp: seq<Text>)
      returns (ok: bool, argp: nat, auxv: nat, ghost at: nat, ghost args: nat, ghost env: nat)
    requires stack % 16 == 0
    modifies mem
    ensures ok <==> Needed(argv, envp) <= mem.Length
    ensures ok ==>
      && argp == stack + at && argp % 16 == 0 && auxv == argp + 8 * (|argv| + |envp| + 3)
      && args == mem.Length - Size(argv) && env == args - Size(envp)
      && auxv + AUXV <= stack + env < auxv + AUXV + 16
      && Loads(mem[..], stack, at, argv, args, envp, env)
      && forall i :: 0 <= i < at ==> mem[i] == Char(0)
  {
    argp, auxv, at := 0, 0, 0;
    var low, high;
    ok, low, high, args := PutFrame(mem, stack, argv, envp);
    env := high;
    if !ok || low + AUXV > high {
      ok := false;
      return;
    }
    ghost var was := mem[..];
    var newLow := Pack(mem, stack, low + AUXV, high);
    LoadsMoved(was, mem[..], low + AUXV, newLow, stack, argv, args, envp, env);
    at := newLow;
    argp := stack + newLow;
    auxv := argp + low;
  }

  // ---------------------------------------------------------------- Reading the stack

  lemma WordsAgree(mem: Text, p: nat, v: nat, w: nat)
    requires WordAt(mem, p, v) && WordAt(mem, p, w)
    ensures v == w
  {
    assert mem[p] == Part(v, 0) && mem[p] == Part(w, 0);
  }

  lemma StringsAgree(mem: Text, p: nat, s: Text, s': Text)
    requires StringAt(mem, p, s) && StringAt(mem, p, s') && NUL !in s && NUL !in s'
    ensures s == s'
  {
    NulIsEnd(mem, p, s);
    NulIsEnd(mem, p, s');
    assert forall i :: 0 <= i < |s| && i < |s'| ==> s[i] == mem[p + i] == s'[i];
  }

  lemma NulIsEnd(mem: Text, p: nat, s: Text)
    requires StringAt(mem, p, s) && NUL !in s
    ensures mem[p + |s|] == NUL && forall j :: p <= j < p + |s| ==> mem[j] != NUL
  {
    forall j | p <= j < p + |s|
      ensures mem[j] != NUL
    {
      assert mem[j] == s[j - p];
    }
  }

  ghost predicate Proper(ss: seq<Text>) {
    forall i :: 0 <= i < |ss| ==> NUL !in ss[i]
  }

  /** An array has no null before its end. */
  lemma LengthsAgree(mem: Text, stack: nat, at: nat, ss: seq<Text>, high: nat, ss': seq<Text>, high': nat)
    requires PointsAt(mem, stack, at, ss, high) && PointsAt(mem, stack, at, ss', high') && stack > 0
    ensures |ss| >= |ss'|
  {
    var n := |ss|;
    if n < |ss'| {
      assert PointerOk(mem, stack, at, ss', high', n);
      WordsAgree(mem, at + 8 * n, 0, stack + high' + Offset(ss', n));
    }
  }

  lemma PointersAgree(mem: Text, stack: nat, at: nat, ss: seq<Text>, high: nat, ss': seq<Text>, high': nat, i: nat)
    requires i < |ss| && i < |ss'| && NUL !in ss[i] && NUL !in ss'[i]
    requires PointerOk(mem, stack, at, ss, high, i) && PointerOk(mem, stack, at, ss', high', i)
    ensures ss[i] == ss'[i]
  {
    WordsAgree(mem, at + 8 * i, stack + high + Offset(ss, i), stack + high' + Offset(ss', i));
    StringsAgree(mem, high + Offset(ss, i), ss[i], ss'[i]);
  }

  lemma PointsAgree(mem: Text, stack: nat, at: nat, ss: seq<Text>, high: nat, ss': seq<Text>, high': nat)
    requires PointsAt(mem, stack, at, ss, high) && PointsAt(mem, stack, at, ss', high') && stack > 0
    requires Proper(ss) && Proper(ss')
    ensures ss == ss'
  {
    LengthsAgree(mem, stack, at, ss, high, ss', high');
    LengthsAgree(mem, stack, at, ss', high', ss, high);
    forall i | 0 <= i < |ss|
      ensures ss[i] == ss'[i]
    {
      assert PointerOk(mem, stack, at, ss, high, i) && PointerOk(mem, stack, at, ss', high', i);
      PointersAgree(mem, stack, at, ss, high, ss', high', i);
    }
  }

  /** What a program reads off the stack is determined: no other arguments and environment load from
      the same memory. */
  lemma LoadsIsUnique(mem: Text, stack: nat, at: nat, argv: seq<Text>, args: nat, envp: seq<Text>, env: nat,
                      argv': seq<Text>, args': nat, envp': seq<Text>, env': nat)
    requires Loads(mem, stack, at, argv, args, envp, env) && Loads(mem, stack, at, argv', args', envp', env')
    requires stack > 0 && Proper(argv) && Proper(envp) && Proper(argv') && Proper(envp')
    ensures argv' == argv && envp' == envp
  {
    WordsAgree(mem, at, |argv|, |argv'|);
    PointsAgree(mem, stack, at + 8, argv, args, argv', args');
    PointsAgree(mem, stack, EnvpAt(at, |argv|), envp, env, envp', env');
  }
}
