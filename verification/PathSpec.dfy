/** What normalising a path means: a fold over its components, and walking directories. */
module PathSpec {

  const SLASH: char := '/'

  /** Index of the first slash from `i` on, or the length if there is none. */
  function SlashFrom(s: string, i: nat): (k: nat)
    requires i <= |s|
    ensures i <= k <= |s|
    decreases |s| - i
  {
    if i == |s| || s[i] == SLASH then i else SlashFrom(s, i + 1)
  }

  function FirstSlash(s: string): (k: nat)
    ensures k <= |s|
  {
    SlashFrom(s, 0)
  }

  /** `k` is the first slash from `i` on, or the end. */
  ghost predicate NextSlash(s: string, i: nat, k: nat) {
    i <= k <= |s| && (k < |s| ==> s[k] == SLASH) && forall j :: i <= j < k ==> s[j] != SLASH
  }

  lemma {:induction false} SlashFromIs(s: string, i: nat, k: nat)
    requires i <= |s|
    ensures NextSlash(s, i, k) <==> SlashFrom(s, i) == k
    decreases |s| - i
  {
    if i < |s| && s[i] != SLASH {
      SlashFromIs(s, i + 1, k);
    }
  }

  lemma FirstSlashIs(s: string, k: nat)
    ensures NextSlash(s, 0, k) <==> FirstSlash(s) == k
  {
    SlashFromIs(s, 0, k);
  }

  /** The components between slashes: always at least one, possibly empty. */
  function Split(s: string): (parts: seq<string>)
    ensures parts != []
    decreases |s|
  {
    var k := FirstSlash(s);
    if k == |s| then [s] else [s[..k]] + Split(s[k + 1..])
  }

  lemma {:induction false} SplitSlashFree(s: string)
    ensures forall c :: c in Split(s) ==> SLASH !in c
    decreases |s|
  {
    var k := FirstSlash(s);
    FirstSlashIs(s, k);
    if k < |s| {
      SplitSlashFree(s[k + 1..]);
    } else {
      assert s[..k] == s;
    }
  }

  /** Components with single slashes between them. */
  function Join(parts: seq<string>): string {
    if parts == [] then ""
    else if |parts| == 1 then parts[0]
    else Join(parts[..|parts| - 1]) + [SLASH] + parts[|parts| - 1]
  }

  // ---------------------------------------------------------------- Normalisation

  /** Parent steps that nothing cancels, then names. */
  datatype State = State(ups: nat, names: seq<string>)

  const START := State(0, [])

  predicate Ignored(c: string) { c == "" || c == "." }

  predicate Named(c: string) { !Ignored(c) && c != ".." }

  function Step(abs: bool, st: State, c: string): State {
    if c == ".." then
      if st.names != [] then st.(names := st.names[..|st.names| - 1])
      else if !abs then st.(ups := st.ups + 1)
      else st
    else if Ignored(c) then st
    else st.(names := st.names + [c])
  }

  function Fold(abs: bool, st: State, parts: seq<string>): State
    decreases |parts|
  {
    if parts == [] then st else Fold(abs, Step(abs, st, parts[0]), parts[1..])
  }

  function Dots(n: nat): seq<string> {
    if n == 0 then [] else Dots(n - 1) + [".."]
  }

  function Parts(st: State): seq<string> {
    Dots(st.ups) + st.names
  }

  function Lead(abs: bool): string { if abs then [SLASH] else "" }

  function Render(abs: bool, st: State): string {
    Lead(abs) + Join(Parts(st))
  }

  predicate IsAbsolute(path: string) {
    path != "" && path[0] == SLASH
  }

  /** The components that are processed: all of them, without the leading slash. */
  function Tokens(path: string): seq<string> {
    Split(if IsAbsolute(path) then path[1..] else path)
  }

  function Normal(path: string): State {
    Fold(IsAbsolute(path), START, Tokens(path))
  }

  function Norm(path: string): string {
    Render(IsAbsolute(path), Normal(path))
  }

  /** Names only, and parent steps only in relative paths. */
  ghost predicate Clean(abs: bool, st: State) {
    && (forall c :: c in st.names ==> Named(c) && SLASH !in c)
    && (abs ==> st.ups == 0)
  }

  lemma StepClean(abs: bool, st: State, c: string)
    requires Clean(abs, st) && SLASH !in c
    ensures Clean(abs, Step(abs, st, c))
  {
  }

  lemma {:induction false} FoldClean(abs: bool, st: State, parts: seq<string>)
    requires Clean(abs, st) && forall c :: c in parts ==> SLASH !in c
    ensures Clean(abs, Fold(abs, st, parts))
    decreases |parts|
  {
    if parts != [] {
      StepClean(abs, st, parts[0]);
      FoldClean(abs, Step(abs, st, parts[0]), parts[1..]);
    }
  }

  // ---------------------------------------------------------------- Reading a rendering back

  lemma SplitSolid(b: string)
    requires SLASH !in b
    ensures Split(b) == [b]
  {
    FirstSlashIs(b, |b|);
  }

  lemma SplitAtSlash(s: string, k: nat)
    requires FirstSlash(s) == k < |s|
    ensures Split(s) == [s[..k]] + Split(s[k + 1..])
  {
  }

  lemma SplitFirst(a: string, b: string)
    requires SLASH !in a
    ensures Split(a + [SLASH] + b) == [a] + Split(b)
  {
    var s := a + [SLASH] + b;
    FirstSlashIs(s, |a|);
    SplitAtSlash(s, |a|);
    assert s[..|a|] == a && s[|a| + 1..] == b;
  }

  lemma CutAtSlash(a: string) returns (x: string, y: string)
    requires SLASH in a
    ensures a == x + [SLASH] + y && SLASH !in x && |y| < |a|
  {
    var k := FirstSlash(a);
    FirstSlashIs(a, k);
    x, y := a[..k], a[k + 1..];
  }

  lemma Regroup(x: string, y: string, b: string)
    ensures (x + [SLASH] + y) + [SLASH] + b == x + [SLASH] + (y + [SLASH] + b)
  {
  }

  lemma SplitBehind(x: string, y: string, b: string)
    requires SLASH !in x && Split(y + [SLASH] + b) == Split(y) + [b]
    ensures Split((x + [SLASH] + y) + [SLASH] + b) == Split(x + [SLASH] + y) + [b]
  {
    Regroup(x, y, b);
    SplitFirst(x, y);
    SplitFirst(x, y + [SLASH] + b);
    var parts := Split(y);
    assert [x] + (parts + [b]) == ([x] + parts) + [b];
  }

  lemma {:induction false} SplitAppend(a: string, b: string)
    requires SLASH !in b
    ensures Split(a + [SLASH] + b) == Split(a) + [b]
    decreases |a|
  {
    if SLASH in a {
      var x, y := CutAtSlash(a);
      SplitAppend(y, b);
      SplitBehind(x, y, b);
    } else {
      SplitFirst(a, b);
      SplitSolid(a);
      SplitSolid(b);
    }
  }

  lemma JoinSnoc(init: seq<string>, c: string)
    requires init != []
    ensures Join(init + [c]) == Join(init) + [SLASH] + c
  {
    assert (init + [c])[..|init|] == init;
  }

  lemma {:induction false} SplitJoin(parts: seq<string>)
    requires parts != [] && forall c :: c in parts ==> SLASH !in c
    ensures Split(Join(parts)) == parts
  {
    var init, c := parts[..|parts| - 1], parts[|parts| - 1];
    assert parts == init + [c];
    if init == [] {
      SplitSolid(c);
    } else {
      SplitJoin(init);
      SplitAppend(Join(init), c);
      JoinSnoc(init, c);
    }
  }

  lemma {:induction false} DotsAre(n: nat)
    ensures |Dots(n)| == n && forall i :: 0 <= i < n ==> Dots(n)[i] == ".."
  {
    if n > 0 {
      DotsAre(n - 1);
    }
  }

  lemma {:induction false} FoldAppend(abs: bool, st: State, a: seq<string>, b: seq<string>)
    ensures Fold(abs, st, a + b) == Fold(abs, Fold(abs, st, a), b)
    decreases |a|
  {
    if a == [] {
      assert a + b == b;
    } else {
      assert (a + b)[1..] == a[1..] + b;
      FoldAppend(abs, Step(abs, st, a[0]), a[1..], b);
    }
  }

  lemma {:induction false} FoldDots(n: nat)
    ensures Fold(false, START, Dots(n)) == State(n, [])
  {
    if n > 0 {
      FoldDots(n - 1);
      FoldAppend(false, START, Dots(n - 1), [".."]);
    }
  }

  lemma {:induction false} FoldNames(abs: bool, ups: nat, names: seq<string>)
    requires forall c :: c in names ==> Named(c)
    ensures Fold(abs, State(ups, []), names) == State(ups, names)
    decreases |names|
  {
    var n := |names| - 1;
    if n >= 0 {
      FoldNames(abs, ups, names[..n]);
      FoldAppend(abs, State(ups, []), names[..n], [names[n]]);
      assert names[..n] + [names[n]] == names && names[n] in names;
    }
  }

  /** A clean state is what folding over its own components gives. */
  lemma FoldParts(abs: bool, st: State)
    requires Clean(abs, st)
    ensures Fold(abs, START, Parts(st)) == st
  {
    FoldAppend(abs, START, Dots(st.ups), st.names);
    if !abs {
      FoldDots(st.ups);
    }
    FoldNames(abs, st.ups, st.names);
  }

  lemma PartsSlashFree(abs: bool, st: State)
    requires Clean(abs, st)
    ensures forall c :: c in Parts(st) ==> Solid(c) && !Ignored(c)
  {
    DotsAre(st.ups);
  }

  predicate Solid(c: string) { c != "" && SLASH !in c }

  lemma {:induction false} JoinStart(parts: seq<string>)
    requires forall c :: c in parts ==> Solid(c)
    ensures !IsAbsolute(Join(parts)) && (Join(parts) == "" <==> parts == [])
  {
    if |parts| > 1 {
      JoinStart(parts[..|parts| - 1]);
      assert Join(parts)[0] == Join(parts[..|parts| - 1])[0];
    } else if |parts| == 1 {
      assert parts[0] in parts && parts[0][0] in parts[0];
    }
  }

  /** A rendering has the same kind and, read as a path, exactly the components it was made of. */
  lemma RenderTokens(abs: bool, st: State)
    requires Clean(abs, st)
    ensures IsAbsolute(Render(abs, st)) == abs
    ensures Tokens(Render(abs, st)) == if Parts(st) == [] then [""] else Parts(st)
  {
    PartsSlashFree(abs, st);
    JoinStart(Parts(st));
    if abs {
      assert Render(abs, st)[1..] == Join(Parts(st));
    } else {
      assert Render(abs, st) == Join(Parts(st));
    }
    if Parts(st) != [] {
      SplitJoin(Parts(st));
    }
  }

  // ---------------------------------------------------------------- Theorems

  /** The components of a normal path: none is empty or "." or has a slash, and ".." is only in front
      of a relative one. */
  ghost predicate Canonical(abs: bool, parts: seq<string>, ups: nat) {
    && (abs ==> ups == 0) && ups <= |parts|
    && forall i :: 0 <= i < |parts| ==>
      parts[i] != "" && parts[i] != "." && '/' !in parts[i] && (parts[i] == ".." <==> i < ups)
  }

  /** A normal path is absolute exactly if the path is, and read as a path has canonical components. */
  lemma NormShape(path: string)
    ensures var st := Normal(path);
      && Clean(IsAbsolute(path), st) && ("/" <= Norm(path) <==> "/" <= path)
      && Tokens(Norm(path)) == (if Parts(st) == [] then [""] else Parts(st))
      && Canonical("/" <= path, Parts(st), st.ups)
  {
    var abs, st := IsAbsolute(path), Normal(path);
    SplitSlashFree(if abs then path[1..] else path);
    FoldClean(abs, START, Tokens(path));
    RenderTokens(abs, st);
    DotsAre(st.ups);
    forall i | st.ups <= i < |Parts(st)|
      ensures Named(Parts(st)[i])
    {
      assert Parts(st)[i] in st.names;
    }
    PartsSlashFree(abs, st);
  }

  /** Normalising again changes nothing. */
  lemma NormIdempotent(path: string)
    ensures Norm(Norm(path)) == Norm(path)
  {
    var abs, st := IsAbsolute(path), Normal(path);
    NormShape(path);
    FoldParts(abs, st);
    assert Parts(st) == [] ==> st == START;
  }

  /** One component walked from directory `d`: the parent of the root is the root, an empty component
      and "." lead nowhere, and any other one is a directory in `d`. */
  function Walk1(d: seq<string>, c: string): seq<string> {
    match c
    case "" => d
    case "." => d
    case ".." => if d == [] then [] else d[..|d| - 1]
    case _ => d + [c]
  }

  function WalkParts(d: seq<string>, parts: seq<string>): seq<string>
    decreases |parts|
  {
    if parts == [] then d else WalkParts(Walk1(d, parts[0]), parts[1..])
  }

  /** Where `path` leads from directory `d`. */
  function Walk(d: seq<string>, path: string): seq<string> {
    WalkParts(if IsAbsolute(path) then [] else d, Tokens(path))
  }

  lemma {:induction false} WalkAppend(d: seq<string>, a: seq<string>, b: seq<string>)
    ensures WalkParts(d, a + b) == WalkParts(WalkParts(d, a), b)
    decreases |a|
  {
    if a == [] {
      assert a + b == b;
    } else {
      assert (a + b)[1..] == a[1..] + b;
      WalkAppend(Walk1(d, a[0]), a[1..], b);
    }
  }

  /** Walking the components kept leads where walking one more component does. */
  lemma StepWalks(abs: bool, d: seq<string>, st: State, c: string)
    requires Clean(abs, st) && (abs ==> d == [])
    ensures WalkParts(d, Parts(Step(abs, st, c))) == Walk1(WalkParts(d, Parts(st)), c)
  {
    var st' := Step(abs, st, c);
    if c == ".." {
      if st.names != [] {
        var n := |st.names| - 1;
        assert Parts(st) == Parts(st') + [st.names[n]];
        assert st.names[n] in st.names;
        WalkAppend(d, Parts(st'), [st.names[n]]);
        var at := WalkParts(d, Parts(st'));
        assert (at + [st.names[n]])[..|at|] == at;
      } else if !abs {
        assert Parts(st') == Parts(st) + [".."];
        WalkAppend(d, Parts(st), [".."]);
      }
    } else if !Ignored(c) {
      assert Parts(st') == Parts(st) + [c];
      WalkAppend(d, Parts(st), [c]);
    }
  }

  lemma {:induction false} FoldWalks(abs: bool, d: seq<string>, st: State, parts: seq<string>)
    requires Clean(abs, st) && (abs ==> d == []) && forall c :: c in parts ==> SLASH !in c
    ensures WalkParts(d, Parts(Fold(abs, st, parts))) == WalkParts(WalkParts(d, Parts(st)), parts)
    decreases |parts|
  {
    if parts != [] {
      StepWalks(abs, d, st, parts[0]);
      StepClean(abs, st, parts[0]);
      FoldWalks(abs, d, Step(abs, st, parts[0]), parts[1..]);
    }
  }

  /** From every directory, the normal path leads where the path leads. */
  lemma NormWalks(d: seq<string>, path: string)
    ensures Walk(d, Norm(path)) == Walk(d, path)
  {
    var abs, st := IsAbsolute(path), Normal(path);
    var from := if abs then [] else d;
    NormShape(path);
    SplitSlashFree(if abs then path[1..] else path);
    FoldWalks(abs, from, START, Tokens(path));
    assert WalkParts(from, [""]) == from == WalkParts(from, []);
  }

  // ---------------------------------------------------------------- Lengths

  /** The length of the components with a slash after each. */
  function Weight(parts: seq<string>): nat {
    if parts == [] then 0 else Weight(parts[..|parts| - 1]) + |parts[|parts| - 1]| + 1
  }

  lemma {:induction false} WeightAppend(a: seq<string>, b: seq<string>)
    ensures Weight(a + b) == Weight(a) + Weight(b)
  {
    if b == [] {
      assert a + b == a;
    } else {
      var n := |b| - 1;
      assert (a + b)[..|a + b| - 1] == a + b[..n];
      WeightAppend(a, b[..n]);
    }
  }

  lemma {:induction false} JoinWeight(parts: seq<string>)
    ensures parts != [] ==> |Join(parts)| == Weight(parts) - 1
  {
    if |parts| > 1 {
      JoinWeight(parts[..|parts| - 1]);
    }
  }

  lemma {:induction false} SplitWeight(s: string)
    ensures Weight(Split(s)) == |s| + 1
    decreases |s|
  {
    var k := FirstSlash(s);
    if k < |s| {
      SplitWeight(s[k + 1..]);
      WeightAppend([s[..k]], Split(s[k + 1..]));
    }
  }

  lemma StepWeight(abs: bool, st: State, c: string)
    ensures Weight(Parts(Step(abs, st, c))) <= Weight(Parts(st)) + |c| + 1
  {
    var st' := Step(abs, st, c);
    if c == ".." {
      if st.names != [] {
        assert Parts(st') == Parts(st)[..|Parts(st)| - 1];
      } else if !abs {
        assert Parts(st') == Parts(st) + [".."];
        WeightAppend(Parts(st), [".."]);
      }
    } else if !Ignored(c) {
      assert Parts(st') == Parts(st) + [c];
      WeightAppend(Parts(st), [c]);
    }
  }

  /** Every rendering on the way, with its terminator, fits in `cap` bytes. */
  ghost predicate Fits(abs: bool, st: State, parts: seq<string>, cap: nat)
    decreases |parts|
  {
    |Render(abs, st)| < cap && (parts != [] ==> Fits(abs, Step(abs, st, parts[0]), parts[1..], cap))
  }

  lemma {:induction false} FitsByWeight(abs: bool, st: State, parts: seq<string>, cap: nat)
    requires |Lead(abs)| < cap && |Lead(abs)| + Weight(Parts(st)) + Weight(parts) <= cap
    ensures Fits(abs, st, parts, cap) && |Render(abs, Fold(abs, st, parts))| < cap
    decreases |parts|
  {
    JoinWeight(Parts(st));
    if parts != [] {
      StepWeight(abs, st, parts[0]);
      WeightAppend([parts[0]], parts[1..]);
      assert [parts[0]] + parts[1..] == parts;
      FitsByWeight(abs, Step(abs, st, parts[0]), parts[1..], cap);
    }
  }

  /** A buffer as large as the path, with its terminator, is always enough; the result is no longer
      than the path. */
  lemma NormFits(path: string, cap: nat)
    requires |path| + 1 <= cap
    ensures Fits(IsAbsolute(path), START, Tokens(path), cap) && |Norm(path)| <= |path|
  {
    SplitWeight(if IsAbsolute(path) then path[1..] else path);
    FitsByWeight(IsAbsolute(path), START, Tokens(path), cap);
    FitsByWeight(IsAbsolute(path), START, Tokens(path), |path| + 1);
  }

  lemma OneName(c: string)
    ensures Render(false, State(0, [c])) == c && Render(false, START) == ""
  {
    assert Parts(State(0, [c])) == [c] && Parts(START) == [];
  }

  lemma NameAndBack(c: string)
    requires Named(c)
    ensures Step(false, START, c) == State(0, [c]) && Step(false, State(0, [c]), "..") == START
  {
  }

  lemma FoldTwo(st: State, parts: seq<string>)
    requires |parts| == 2
    ensures Fold(false, st, parts) == Step(false, Step(false, st, parts[0]), parts[1])
  {
    var st1, rest := Step(false, st, parts[0]), parts[1..];
    assert Fold(false, st, parts) == Fold(false, st1, rest);
    assert Fold(false, st1, rest) == Fold(false, Step(false, st1, rest[0]), rest[1..]);
    assert rest[1..] == [];
  }

  lemma FitsFirst(st: State, parts: seq<string>, cap: nat)
    requires parts != [] && Fits(false, st, parts, cap)
    ensures |Render(false, Step(false, st, parts[0]))| < cap
  {
    assert Fits(false, Step(false, st, parts[0]), parts[1..], cap);
  }

  /** A short result is not enough: a name and ".." come to nothing, but the name has to fit. */
  lemma ShortResultMayNotFit(c: string, cap: nat)
    requires Named(c) && SLASH !in c && 0 < cap <= |c|
    ensures var path := c + [SLASH] + "..";
      |Norm(path)| < cap && !Fits(IsAbsolute(path), START, Tokens(path), cap)
  {
    var up := "..";
    var path := c + [SLASH] + up;
    assert path[0] == c[0];
    SplitFirst(c, up);
    SplitSolid(up);
    assert Tokens(path) == [c, up];
    NameAndBack(c);
    OneName(c);
    FoldTwo(START, Tokens(path));
    if Fits(false, START, Tokens(path), cap) {
      FitsFirst(START, Tokens(path), cap);
    }
  }

  // ---------------------------------------------------------------- One normal form per meaning

  /** Walking names adds them. */
  lemma {:induction false} WalkNames(d: seq<string>, names: seq<string>)
    requires forall c :: c in names ==> Named(c)
    ensures WalkParts(d, names) == d + names
    decreases |names|
  {
    if names == [] {
      assert d + names == d;
    } else {
      var c := names[0];
      assert c in names && Walk1(d, c) == d + [c];
      WalkNames(d + [c], names[1..]);
      assert d + [c] + names[1..] == d + names;
    }
  }

  /** Walking up from a directory deep enough drops its last components. */
  lemma {:induction false} WalkDots(d: seq<string>, n: nat)
    requires n <= |d|
    ensures WalkParts(d, Dots(n)) == d[..|d| - n]
  {
    if n > 0 {
      WalkDots(d, n - 1);
      WalkAppend(d, Dots(n - 1), [".."]);
      var e := d[..|d| - (n - 1)];
      assert WalkParts(e, [".."]) == Walk1(e, "..") == e[..|e| - 1];
    } else {
      assert d[..|d|] == d;
    }
  }

  lemma WalkState(d: seq<string>, abs: bool, st: State)
    requires Clean(abs, st) && st.ups <= |d|
    ensures WalkParts(d, Parts(st)) == d[..|d| - st.ups] + st.names
  {
    WalkDots(d, st.ups);
    WalkAppend(d, Dots(st.ups), st.names);
    WalkNames(d[..|d| - st.ups], st.names);
  }

  /** A directory of `n` components, none of them `c`. */
  function Without(n: nat, c: string): (d: seq<string>)
    ensures |d| == n && forall i :: 0 <= i < n ==> d[i] != c
  {
    if n == 0 then [] else Without(n - 1, c) + [c + "/"]
  }

  /** More steps up are seen from a directory whose components do not occur in the path. */
  lemma UpsAreSeen(st: State, st': State, d: seq<string>)
    requires Clean(false, st) && Clean(false, st') && st.ups < st'.ups && |d| == st'.ups
    requires st'.names != [] ==> forall i :: 0 <= i < |d| ==> d[i] != st'.names[0]
    ensures WalkParts(d, Parts(st)) != WalkParts(d, Parts(st'))
  {
    WalkState(d, false, st);
    WalkState(d, false, st');
    var w, w' := d[..|d| - st.ups] + st.names, d[..|d| - st'.ups] + st'.names;
    assert w' == st'.names && w[0] == d[0];
    assert w' != [] ==> w'[0] != d[0];
  }

  lemma StatesDiffer(st: State, st': State) returns (d: seq<string>)
    requires Clean(false, st) && Clean(false, st') && st != st'
    ensures WalkParts(d, Parts(st)) != WalkParts(d, Parts(st'))
  {
    if st.ups < st'.ups {
      d := Without(st'.ups, if st'.names == [] then "" else st'.names[0]);
      UpsAreSeen(st, st', d);
    } else if st'.ups < st.ups {
      d := Without(st.ups, if st.names == [] then "" else st.names[0]);
      UpsAreSeen(st', st, d);
    } else {
      d := Without(st.ups, "");
      WalkState(d, false, st);
      WalkState(d, false, st');
      assert d[..|d| - st.ups] == [];
      assert [] + st.names == st.names && [] + st'.names == st'.names;
    }
  }

  lemma NormalClean(path: string)
    ensures Clean(IsAbsolute(path), Normal(path))
    ensures forall d :: Walk(d, path) == WalkParts(if IsAbsolute(path) then [] else d, Parts(Normal(path)))
  {
    NormShape(path);
    var abs := IsAbsolute(path);
    SplitSlashFree(if abs then path[1..] else path);
    forall d
      ensures Walk(d, path) == WalkParts(if abs then [] else d, Parts(Normal(path)))
    {
      var from := if abs then [] else d;
      FoldWalks(abs, from, START, Tokens(path));
      assert WalkParts(from, Parts(START)) == from;
    }
  }

  /** Two paths of one kind have the same normal path if and only if from every directory they lead to
      the same place. */
  lemma NormDecides(path: string, path': string)
    requires "/" <= path <==> "/" <= path'
    ensures Norm(path) == Norm(path') <==> forall d :: Walk(d, path) == Walk(d, path')
  {
    var abs, st, st' := IsAbsolute(path), Normal(path), Normal(path');
    NormalClean(path);
    NormalClean(path');
    if Norm(path) == Norm(path') {
      forall d
        ensures Walk(d, path) == Walk(d, path')
      {
        NormWalks(d, path);
        NormWalks(d, path');
      }
    } else if abs {
      WalkState([], true, st);
      WalkState([], true, st');
      assert [] + st.names == st.names && [] + st'.names == st'.names;
      assert Walk([], path) != Walk([], path');
    } else {
      var d := StatesDiffer(st, st');
      assert Walk(d, path) != Walk(d, path');
    }
  }

  // ---------------------------------------------------------------- Components of a path

  /** The components with slashes between them are the path. */
  lemma {:induction false} JoinSplit(s: string)
    ensures Join(Split(s)) == s
    decreases |s|
  {
    var k := FirstSlash(s);
    FirstSlashIs(s, k);
    if k < |s| {
      var rest := s[k + 1..];
      JoinSplit(rest);
      JoinCons(s[..k], Split(rest));
      assert s == s[..k] + [SLASH] + rest;
    }
  }

  lemma {:induction false} JoinCons(c: string, parts: seq<string>)
    requires parts != []
    ensures Join([c] + parts) == c + [SLASH] + Join(parts)
  {
    var all, n := [c] + parts, |parts| - 1;
    if n == 0 {
      assert all == [c] + [parts[0]];
      JoinSnoc([c], parts[0]);
    } else {
      var init := parts[..n];
      JoinCons(c, init);
      assert all == ([c] + init) + [parts[n]] && parts == init + [parts[n]];
      JoinSnoc([c] + init, parts[n]);
      JoinSnoc(init, parts[n]);
      assert c + [SLASH] + Join(init) + [SLASH] + parts[n] == c + [SLASH] + (Join(init) + [SLASH] + parts[n]);
    }
  }
}
