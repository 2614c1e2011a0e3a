/** The path functions, working in a caller's buffer. */
module PathUtils {
  import opened PathSpec

  const NUL: char := '\0'

  /** Position of the next slash in `path`, or its end. */
  method FindNextSlash(path: string) returns (end: nat)
    ensures end == FirstSlash(path)
  {
    end := 0;
    while end < |path| && path[end] != SLASH
      invariant end <= |path| && forall j :: 0 <= j < end ==> path[j] != SLASH
    {
      end := end + 1;
    }
    FirstSlashIs(path, end);
  }

  // ---------------------------------------------------------------- Dropping the last name

  /** `off` is the last slash of `d`, not counting one at its very end, or its start. */
  ghost predicate PrevSlash(d: string, off: nat, found: bool) {
    && off < |d| && (found <==> d[off] == SLASH) && (off == 0 || found)
    && forall i :: off < i < |d| && !(i == |d| - 1 && d[i] == SLASH) ==> d[i] != SLASH
  }

  method FindPrevSlashOffset(buf: array<char>, base: nat, offset: nat) returns (found: bool, off: nat)
    requires base + offset <= buf.Length
    ensures if offset == 0 then !found && off == 0 else PrevSlash(buf[base..base + offset], off, found)
  {
    ghost var d := buf[base..base + offset];
    off := offset;
    if off == 0 {
      return false, 0;
    }
    off := off - 1;
    if off != 0 && buf[base + off] == SLASH {
      off := off - 1;
    }
    while off != 0 && buf[base + off] != SLASH
      invariant off < offset
      invariant forall i :: off < i < offset && !(i == offset - 1 && d[i] == SLASH) ==> d[i] != SLASH
    {
      assert d[off] == buf[base + off];
      off := off - 1;
    }
    found := buf[base + off] == SLASH;
  }

  /** Looking back over a name finds the slash before it, if any. */
  lemma PrevSlashBeforeName(x: string, name: string, slash: bool, off: nat, found: bool)
    requires Solid(name) && (slash || x == "")
    requires PrevSlash(x + (if slash then [SLASH] else "") + name, off, found)
    ensures off == |x| && found == slash
  {
    var sep := if slash then [SLASH] else "";
    var d := x + sep + name;
    assert forall i :: 0 <= i < |name| ==> d[|x| + |sep| + i] == name[i] && name[i] != SLASH;
    assert slash ==> d[|x|] == SLASH;
  }

  // ---------------------------------------------------------------- Renderings in the buffer

  function Sep(st: State): string { if Parts(st) == [] then "" else [SLASH] }

  lemma RenderAppend(abs: bool, st: State, st': State, c: string)
    requires Parts(st') == Parts(st) + [c]
    ensures Render(abs, st') == Render(abs, st) + Sep(st) + c
  {
    var parts := Parts(st);
    if parts == [] {
      assert Parts(st') == [c];
    } else {
      JoinSnoc(parts, c);
    }
  }

  lemma RenderName(abs: bool, st: State, c: string)
    ensures Render(abs, st.(names := st.names + [c])) == Render(abs, st) + Sep(st) + c
  {
    var st' := st.(names := st.names + [c]);
    assert Parts(st') == Parts(st) + [c];
    RenderAppend(abs, st, st', c);
  }

  lemma RenderUp(abs: bool, st: State)
    requires st.names == []
    ensures Render(abs, st.(ups := st.ups + 1)) == Render(abs, st) + Sep(st) + ".."
  {
    var st', up := st.(ups := st.ups + 1), "..";
    assert Parts(st') == Parts(st) + [up];
    RenderAppend(abs, st, st', up);
  }

  /** The part of a rendering that no ".." can take away. */
  function Floor(abs: bool, ups: nat): string {
    Render(abs, State(ups, []))
  }

  lemma {:induction false} FloorIsPrefix(abs: bool, ups: nat, names: seq<string>)
    ensures Floor(abs, ups) <= Render(abs, State(ups, names))
    decreases |names|
  {
    var n := |names| - 1;
    if n >= 0 {
      FloorIsPrefix(abs, ups, names[..n]);
      RenderName(abs, State(ups, names[..n]), names[n]);
      assert names[..n] + [names[n]] == names;
    }
  }

  /** Looking back over a name that was appended to `r`, no further than `floor`. */
  lemma CutBack(r: string, name: string, slash: bool, floor: nat, off: nat, found: bool)
    requires Solid(name) && floor <= |r| && (slash || floor == |r|)
    requires PrevSlash((r + (if slash then [SLASH] else "") + name)[floor..], off, found)
    ensures floor + off == |r| && found == slash
  {
    var sep := if slash then [SLASH] else "";
    assert (r + sep + name)[floor..] == r[floor..] + sep + name;
    PrevSlashBeforeName(r[floor..], name, slash, off, found);
  }

  /** What appending a name does to the rendering. */
  lemma NameStep(abs: bool, st: State, c: string)
    requires Named(c)
    ensures var st' := Step(abs, st, c);
      && Render(abs, st') == Render(abs, st) + Sep(st) + c && st'.ups == st.ups && Parts(st') != []
  {
    RenderName(abs, st, c);
  }

  /** What a ".." that nothing cancels does to the rendering. */
  lemma UpStep(st: State)
    requires st.names == []
    ensures var st' := Step(false, st, "..");
      && Render(false, st') == Render(false, st) + Sep(st) + ".." && Parts(st') != []
      && Render(false, st') == Floor(false, st'.ups)
  {
    RenderUp(false, st);
  }

  /** What a ".." that takes a name away does to the rendering. */
  lemma DropStep(abs: bool, st: State) returns (name: string)
    requires Clean(abs, st) && st.names != []
    ensures var st' := Step(abs, st, "..");
      && Solid(name) && Render(abs, st) == Render(abs, st') + Sep(st') + name && st'.ups == st.ups
      && |Floor(abs, st.ups)| <= |Render(abs, st')|
      && (Parts(st') == [] ==> |Render(abs, st')| == |Floor(abs, st.ups)|)
  {
    var st', n := Step(abs, st, ".."), |st.names| - 1;
    name := st.names[n];
    assert name in st.names;
    assert st == st'.(names := st'.names + [name]);
    RenderName(abs, st', name);
    FloorIsPrefix(abs, st.ups, st'.names);
    assert Parts(st') == [] ==> st' == State(st.ups, []);
  }

  /** The bytes above the floor are gone exactly when there are no names. */
  lemma NamesAboveFloor(abs: bool, st: State)
    requires Clean(abs, st)
    ensures |Floor(abs, st.ups)| <= |Render(abs, st)| && (st.names == [] <==> |Render(abs, st)| == |Floor(abs, st.ups)|)
  {
    if st.names == [] {
      assert st == State(st.ups, []);
    } else {
      var name := DropStep(abs, st);
    }
  }

  /** Copies `c` to position `at`. */
  method Copy(buf: array<char>, at: nat, c: string)
    requires at + |c| <= buf.Length
    modifies buf
    ensures buf[at..at + |c|] == c
    ensures forall i :: 0 <= i < buf.Length && !(at <= i < at + |c|) ==> buf[i] == old(buf[i])
  {
    forall i | 0 <= i < |c| {
      buf[at + i] := c[i];
    }
  }

  /** Appends a component at position `at`, after a slash if one is needed. */
  method Append(buf: array<char>, at: nat, needSlash: bool, c: string)
    requires at + (if needSlash then 1 else 0) + |c| <= buf.Length
    modifies buf
    ensures var text := (if needSlash then [SLASH] else "") + c;
      && buf[..at + |text|] == old(buf[..at]) + text
      && forall i :: at + |text| <= i < buf.Length ==> buf[i] == old(buf[i])
  {
    ghost var was := buf[..at];
    var to := at;
    if needSlash {
      buf[to] := SLASH;
      to := to + 1;
    }
    assert buf[..to] == was + if needSlash then [SLASH] else "";
    Copy(buf, to, c);
    assert buf[..to + |c|] == buf[..to] + c;
  }

  /** What the buffer and the counters of `get_norm_path` stand for: `floor` bytes that stay and
      `offset` bytes that a ".." may take away. */
  ghost predicate Written(abs: bool, st: State, buf: array<char>, floor: nat, offset: nat, needSlash: bool, size: nat)
    reads buf
  {
    && Clean(abs, st) && floor + offset < size <= buf.Length
    && buf[..floor + offset] == Render(abs, st) && floor == |Floor(abs, st.ups)|
    && (needSlash <==> Parts(st) != [])
  }

  /** Turns rendering `r` into `r'` by appending, if there is room for it and the terminator. */
  method Extend(buf: array<char>, needSlash: bool, c: string, at: nat, size: nat, ghost r: string, ghost r': string)
      returns (ok: bool)
    requires at < size <= buf.Length && buf[..at] == r && r' == r + (if needSlash then [SLASH] else "") + c
    modifies buf
    ensures ok <==> |r'| < size
    ensures ok ==> buf[..|r'|] == r'
    ensures forall i :: size <= i < buf.Length ==> buf[i] == old(buf[i])
  {
    var slash := if needSlash then 1 else 0;
    if slash + |c| > size - 1 - at {
      return false;
    }
    Append(buf, at, needSlash, c);
    ok := true;
  }

  /** Takes from rendering `r` the name that turned `r'` into it. */
  method CutLast(buf: array<char>, floor: nat, offset0: nat, ghost r: string, ghost r': string, ghost slash: bool,
                 ghost name: string)
      returns (offset: nat, needSlash: bool)
    requires floor + offset0 <= buf.Length && buf[..floor + offset0] == r
    requires r == r' + (if slash then [SLASH] else "") + name && Solid(name)
    requires floor <= |r'| && (slash || floor == |r'|)
    ensures floor + offset == |r'| && needSlash == slash && buf[..floor + offset] == r'
  {
    needSlash, offset := FindPrevSlashOffset(buf, floor, offset0);
    assert buf[floor..floor + offset0] == r[floor..];
    CutBack(r', name, slash, floor, offset, needSlash);
    assert buf[..floor + offset] == r[..floor + offset];
  }

  method DropLast(buf: array<char>, abs: bool, floor: nat, offset0: nat, size: nat, ghost st: State)
      returns (offset: nat, needSlash: bool)
    requires Written(abs, st, buf, floor, offset0, Parts(st) != [], size) && offset0 != 0
    ensures Written(abs, Step(abs, st, ".."), buf, floor, offset, needSlash, size)
  {
    NamesAboveFloor(abs, st);
    ghost var name := DropStep(abs, st);
    StepClean(abs, st, "..");
    ghost var r, st' := Render(abs, st), Step(abs, st, "..");
    offset, needSlash := CutLast(buf, floor, offset0, r, Render(abs, st'), Parts(st') != [], name);
  }

  method AddUp(buf: array<char>, floor0: nat, needSlash: bool, size: nat, ghost st: State)
      returns (ok: bool, floor: nat)
    requires Written(false, st, buf, floor0, 0, needSlash, size) && st.names == []
    modifies buf
    ensures ok <==> |Render(false, Step(false, st, ".."))| < size
    ensures ok ==> Written(false, Step(false, st, ".."), buf, floor, 0, true, size)
    ensures forall i :: size <= i < buf.Length ==> buf[i] == old(buf[i])
  {
    UpStep(st);
    ghost var st' := Step(false, st, "..");
    ok := Extend(buf, needSlash, "..", floor0, size, Render(false, st), Render(false, st'));
    floor := floor0 + (if needSlash then 1 else 0) + 2;
  }

  method AddName(buf: array<char>, c: string, abs: bool, floor: nat, offset0: nat, needSlash: bool, size: nat,
                 ghost st: State)
      returns (ok: bool, offset: nat)
    requires Written(abs, st, buf, floor, offset0, needSlash, size) && SLASH !in c && Named(c)
    modifies buf
    ensures ok <==> |Render(abs, Step(abs, st, c))| < size
    ensures ok ==> Written(abs, Step(abs, st, c), buf, floor, offset, true, size)
    ensures forall i :: size <= i < buf.Length ==> buf[i] == old(buf[i])
  {
    NameStep(abs, st, c);
    StepClean(abs, st, c);
    ghost var st' := Step(abs, st, c);
    ok := Extend(buf, needSlash, c, floor + offset0, size, Render(abs, st), Render(abs, st'));
    offset := offset0 + (if needSlash then 1 else 0) + |c|;
  }

  /** One turn of the loop: component `c` of the path. */
  method Token(buf: array<char>, c: string, abs: bool, floor0: nat, offset0: nat, needSlash0: bool, size: nat,
               ghost st: State)
      returns (ok: bool, floor: nat, offset: nat, needSlash: bool)
    requires Written(abs, st, buf, floor0, offset0, needSlash0, size) && SLASH !in c
    modifies buf
    ensures ok <==> |Render(abs, Step(abs, st, c))| < size
    ensures ok ==> Written(abs, Step(abs, st, c), buf, floor, offset, needSlash, size)
    ensures forall i :: size <= i < buf.Length ==> buf[i] == old(buf[i])
  {
    ok, floor, offset, needSlash := true, floor0, offset0, needSlash0;
    NamesAboveFloor(abs, st);
    if c == ".." {
      if offset != 0 {
        offset, needSlash := DropLast(buf, abs, floor, offset, size, st);
      } else if !abs {
        ok, floor := AddUp(buf, floor, needSlash, size, st);
        needSlash := true;
      }
    } else if c != "" && c != "." {
      ok, offset := AddName(buf, c, abs, floor, offset, needSlash, size, st);
      needSlash := true;
    }
  }

  /** The components of `rest` are still to come: they decide whether everything fits and what is
      left in the end. */
  ghost predicate Pending(abs: bool, rest: string, st: State, size: nat, fits: bool, goal: State) {
    (Fits(abs, st, Split(rest), size) <==> fits) && Fold(abs, st, Split(rest)) == goal
  }

  lemma NextToken(path: string, end: nat)
    requires end == FirstSlash(path)
    ensures SLASH !in path[..end]
    ensures if end < |path| then Split(path) == [path[..end]] + Split(path[end + 1..]) else Split(path) == [path[..end]]
  {
    FirstSlashIs(path, end);
    if end < |path| {
      SplitAtSlash(path, end);
    } else {
      assert path[..end] == path;
      SplitSolid(path);
    }
  }

  /** `c` is the first component, and `rest` follows unless it is the last one. */
  ghost predicate First(path: string, c: string, last: bool, rest: string) {
    if last then Split(path) == [c] else Split(path) == [c] + Split(rest)
  }

  /** The component `c` leads to `st`, and `rest`, if there is one, follows. */
  ghost predicate Remains(abs: bool, rest: string, last: bool, st: State, size: nat, fits: bool, goal: State) {
    if |Render(abs, st)| >= size then !fits
    else if last then fits && st == goal
    else Pending(abs, rest, st, size, fits, goal)
  }

  lemma PendingStep(abs: bool, path: string, c: string, last: bool, rest: string, st: State, size: nat,
                    fits: bool, goal: State)
    requires Pending(abs, path, st, size, fits, goal) && |Render(abs, st)| < size
    requires First(path, c, last, rest)
    ensures Remains(abs, rest, last, Step(abs, st, c), size, fits, goal)
  {
    var parts := Split(path);
    var st' := Step(abs, st, c);
    assert parts[0] == c && parts[1..] == if last then [] else Split(rest);
    assert Fits(abs, st, parts, size) <==> Fits(abs, st', parts[1..], size);
    assert Fold(abs, st, parts) == Fold(abs, st', parts[1..]);
  }

  /** The loop before a turn. */
  ghost predicate Going(abs: bool, rest: string, buf: array<char>, floor: nat, offset: nat, needSlash: bool, size: nat,
                        st: State, fits: bool, goal: State)
    reads buf
  {
    Written(abs, st, buf, floor, offset, needSlash, size) && Pending(abs, rest, st, size, fits, goal)
  }

  /** What there is to do with the component in front. */
  method NextComponent(path: string) returns (c: string, last: bool, rest: string)
    ensures SLASH !in c && First(path, c, last, rest)
    ensures !last ==> |rest| < |path|
  {
    var end := FindNextSlash(path);
    NextToken(path, end);
    c, last := path[..end], end == |path|;
    rest := if last then "" else path[end + 1..];
  }

  /** One turn of the loop: the component in front. */
  method Turn(path: string, buf: array<char>, abs: bool, floor0: nat, offset0: nat, needSlash0: bool, size: nat,
              ghost st0: State, ghost fits: bool, ghost goal: State)
      returns (ok: bool, last: bool, rest: string, floor: nat, offset: nat, needSlash: bool, ghost st: State)
    requires Going(abs, path, buf, floor0, offset0, needSlash0, size, st0, fits, goal)
    modifies buf
    ensures Remains(abs, rest, last, st, size, fits, goal) && (ok <==> |Render(abs, st)| < size)
    ensures ok ==> Written(abs, st, buf, floor, offset, needSlash, size)
    ensures !last ==> |rest| < |path|
    ensures forall i :: size <= i < buf.Length ==> buf[i] == old(buf[i])
  {
    var c;
    c, last, rest := NextComponent(path);
    PendingStep(abs, path, c, last, rest, st0, size, fits, goal);
    st := Step(abs, st0, c);
    ok, floor, offset, needSlash := Token(buf, c, abs, floor0, offset0, needSlash0, size, st0);
  }

  lemma RemainsCases(abs: bool, rest: string, last: bool, st: State, size: nat, fits: bool, goal: State, ok: bool)
    requires Remains(abs, rest, last, st, size, fits, goal) && (ok <==> |Render(abs, st)| < size)
    ensures !ok ==> !fits
    ensures ok && last ==> fits && st == goal
    ensures ok && !last ==> Pending(abs, rest, st, size, fits, goal)
  {
  }

  /** The loop of `get_norm_path`. */
  method Loop(path: string, buf: array<char>, abs: bool, floor0: nat, size: nat,
              ghost start: State, ghost fits: bool, ghost goal: State)
      returns (ok: bool, written: nat)
    requires Going(abs, path, buf, floor0, 0, false, size, start, fits, goal)
    modifies buf
    ensures ok <==> fits
    ensures ok ==> written < size && buf[..written] == Render(abs, goal)
    ensures forall i :: size <= i < buf.Length ==> buf[i] == old(buf[i])
  {
    var rest, last, floor, offset, needSlash := path, false, floor0, 0, false;
    ghost var st := start;
    while true
      invariant Going(abs, rest, buf, floor, offset, needSlash, size, st, fits, goal)
      invariant forall i :: size <= i < buf.Length ==> buf[i] == old(buf[i])
      decreases |rest|
    {
      ok, last, rest, floor, offset, needSlash, st :=
        Turn(rest, buf, abs, floor, offset, needSlash, size, st, fits, goal);
      RemainsCases(abs, rest, last, st, size, fits, goal, ok);
      if !ok || last {
        break;
      }
    }
    written := if ok then floor + offset else 0;
  }

  lemma StartFacts(abs: bool)
    ensures Clean(abs, START) && Render(abs, START) == Floor(abs, 0) == Lead(abs) && Parts(START) == []
  {
  }

  /** All components are still to come. */
  lemma AllPending(path: string, abs: bool, rest: string, size: nat, fits: bool, goal: State)
    requires abs == IsAbsolute(path) && rest == (if abs then path[1..] else path)
    requires fits == Fits(abs, START, Tokens(path), size) && goal == Normal(path)
    ensures Pending(abs, rest, START, size, fits, goal) && Render(abs, goal) == Norm(path)
    ensures fits ==> |Lead(abs)| < size
  {
    StartFacts(abs);
  }

  /** Writes the normal form of `path` into `buf`, if at all times what is kept of the components so
      far fits in `size` bytes. */
  method GetNormPath(path: string, buf: array<char>, size: nat) returns (ok: bool, outSize: nat)
    requires size <= buf.Length
    modifies buf
    ensures ok <==> size > 0 && Fits(IsAbsolute(path), START, Tokens(path), size)
    ensures ok ==> outSize == |Norm(path)| + 1 <= size && buf[..outSize] == Norm(path) + [NUL]
    ensures !ok ==> outSize == size
    ensures forall i :: size <= i < buf.Length ==> buf[i] == old(buf[i])
  {
    outSize := size;
    if size == 0 {
      return false, outSize;
    }
    var abs := IsAbsolute(path);
    var floor, rest := 0, path;
    ghost var fits, goal := Fits(abs, START, Tokens(path), size), Normal(path);
    StartFacts(abs);
    AllPending(path, abs, if abs then path[1..] else path, size, fits, goal);
    if abs {
      if size - 1 < 1 {
        return false, outSize;
      }
      buf[0] := SLASH;
      floor, rest := 1, path[1..];
    }
    var written;
    ok, written := Loop(rest, buf, abs, floor, size, START, fits, goal);
    if ok {
      buf[written] := NUL;
      outSize := written + 1;
    }
  }

  // ---------------------------------------------------------------- The last component

  function BaseName(path: string): string {
    var parts := Split(path);
    parts[|parts| - 1]
  }

  /** The last component has no slash, and is the path or what follows a slash at its end. */
  lemma BaseNameIs(path: string)
    ensures var name := BaseName(path);
      && '/' !in name && |name| <= |path| && path[|path| - |name|..] == name
      && (|name| < |path| ==> path[|path| - |name| - 1] == '/')
  {
    var parts, n := Split(path), |Split(path)| - 1;
    SplitSlashFree(path);
    JoinSplit(path);
    assert parts[n] in parts;
    if n > 0 {
      assert parts == parts[..n] + [parts[n]];
      JoinSnoc(parts[..n], parts[n]);
    }
  }

  method LastComponent(path: string) returns (rest: string)
    ensures rest == BaseName(path)
  {
    rest := path;
    var end := FindNextSlash(rest);
    while end < |rest|
      invariant end == FirstSlash(rest) && BaseName(rest) == BaseName(path)
      decreases |rest|
    {
      NextToken(rest, end);
      rest := rest[end + 1..];
      end := FindNextSlash(rest);
    }
  }

  /** Writes the part of `path` after its last slash. */
  method GetBaseName(path: string, buf: array<char>, size: nat) returns (ok: bool, outSize: nat)
    requires size <= buf.Length
    modifies buf
    ensures ok <==> |BaseName(path)| + 1 <= size
    ensures if ok then outSize == |BaseName(path)| + 1 && buf[..outSize] == BaseName(path) + [NUL]
            else outSize == size && buf[..] == old(buf[..])
    ensures forall i :: size <= i < buf.Length ==> buf[i] == old(buf[i])
  {
    outSize := size;
    var name := LastComponent(path);
    if |name| + 1 > size {
      return false, outSize;
    }
    Copy(buf, 0, name);
    buf[|name|] := NUL;
    return true, |name| + 1;
  }
}
