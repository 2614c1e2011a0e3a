/** Restoring a checkpoint: which restore functions are called, and with which of the entries that
follow. */
module CheckpointRestore {
  import opened Basics
  import opened Checkpoint
  import opened CheckpointSpec

  // ---------------------------------------------------------------- What a restore function reads

  /** The value of the first entry of the given kind, and what follows it. */
  function Find(entries: seq<Item>, kind: nat): (r: Option<(nat, seq<Item>)>)
    ensures r.Some? ==> |r.value.1| < |entries|
  {
    if entries == [] then None
    else if entries[0].Entry? && entries[0].kind == kind then Some((entries[0].val, entries[1..]))
    else Find(entries[1..], kind)
  }

  /** A restore function called for an entry, with the values it read. */
  datatype Call = Call(e: Item, args: seq<nat>)

  /** All went well, a restore function failed, or one did not find what it looked for and ended the
      process. */
  datatype Outcome = Done | Failed | Aborted

  datatype Replay = Replay(calls: seq<Call>, out: Outcome) {
    function After(before: seq<Call>): Replay {
      Replay(before + calls, out)
    }
  }

  /** The kind of entry that the restore function called for an entry looks for next, given the values
      it has read so far, if it looks for any; and whether a call works. */
  type Wants = (Item, seq<nat>) -> Option<nat>
  type Works = Call -> bool

  /** The values that the restore function called for `e` reads after `vals`, and what follows them. */
  function Collect(entries: seq<Item>, e: Item, vals: seq<nat>, wants: Wants): (r: Option<(seq<nat>, seq<Item>)>)
    ensures r.Some? ==> vals <= r.value.0 && |r.value.1| <= |entries|
    decreases |entries|
  {
    match wants(e, vals)
    case None => Some((vals, entries))
    case Some(kind) =>
      match Find(entries, kind)
      case None => None
      case Some((val, rest)) => Collect(rest, e, vals + [val], wants)
  }

  /** What restoring the given entries does. */
  function Restored(entries: seq<Item>, wants: Wants, works: Works): Replay
    decreases |entries|
  {
    if entries == [] then Replay([], Done)
    else if !entries[0].Entry? || entries[0].kind < CP_FUNC_BASE then Restored(entries[1..], wants, works)
    else match Collect(entries[1..], entries[0], [], wants)
      case None => Replay([], Aborted)
      case Some((args, rest)) =>
        var call := Call(entries[0], args);
        if works(call) then Restored(rest, wants, works).After([call]) else Replay([call], Failed)
  }

  // ---------------------------------------------------------------- Records

  /** The restore function called for the entry would read just these arguments. */
  ghost predicate Recordable(call: Call, wants: Wants) {
    && call.e.Entry? && call.e.kind >= CP_FUNC_BASE && wants(call.e, call.args).None?
    && forall i :: 0 <= i < |call.args| ==> wants(call.e, call.args[..i]).Some?
  }

  /** Entries with the arguments of a call from the `i`-th on. */
  function Arguments(call: Call, wants: Wants, i: nat): seq<Item>
    requires Recordable(call, wants) && i <= |call.args|
    decreases |call.args| - i
  {
    if i == |call.args| then []
    else [Entry(wants(call.e, call.args[..i]).value, call.args[i])] + Arguments(call, wants, i + 1)
  }

  /** What is written for a call: its entry, and entries with its arguments. */
  function Record(call: Call, wants: Wants): seq<Item>
    requires Recordable(call, wants)
  {
    [call.e] + Arguments(call, wants, 0)
  }

  function Records(calls: seq<Call>, wants: Wants): seq<Item>
    requires forall i :: 0 <= i < |calls| ==> Recordable(calls[i], wants)
  {
    if calls == [] then []
    else assert Recordable(calls[0], wants); Record(calls[0], wants) + Records(calls[1..], wants)
  }

  /** Arguments are found again, whatever follows. */
  lemma {:induction false} CollectsArguments(call: Call, wants: Wants, i: nat, rest: seq<Item>)
    requires Recordable(call, wants) && i <= |call.args|
    ensures Collect(Arguments(call, wants, i) + rest, call.e, call.args[..i], wants) == Some((call.args, rest))
    decreases |call.args| - i
  {
    var all := Arguments(call, wants, i) + rest;
    if i == |call.args| {
      assert all == rest && call.args[..i] == call.args;
    } else {
      var vals := call.args[..i];
      assert wants(call.e, vals).Some?;
      assert all[0] == Entry(wants(call.e, vals).value, call.args[i]);
      assert all[1..] == Arguments(call, wants, i + 1) + rest;
      assert vals + [call.args[i]] == call.args[..i + 1];
      CollectsArguments(call, wants, i + 1, rest);
    }
  }

  lemma RestoresRecord(call: Call, rest: seq<Item>, wants: Wants, works: Works)
    requires Recordable(call, wants) && works(call)
    ensures Restored(Record(call, wants) + rest, wants, works) == Restored(rest, wants, works).After([call])
  {
    var all := Record(call, wants) + rest;
    assert all[0] == call.e && all[1..] == Arguments(call, wants, 0) + rest;
    assert call.args[..0] == [];
    CollectsArguments(call, wants, 0, rest);
  }

  /** What was written for calls is restored by the same calls with the same arguments. */
  lemma {:induction false} RestoresRecords(calls: seq<Call>, wants: Wants, works: Works)
    requires forall i :: 0 <= i < |calls| ==> Recordable(calls[i], wants) && works(calls[i])
    ensures Restored(Records(calls, wants), wants, works) == Replay(calls, Done)
    decreases |calls|
  {
    if calls != [] {
      RestoresRecords(calls[1..], wants, works);
      RestoresRecord(calls[0], Records(calls[1..], wants), wants, works);
      assert [calls[0]] + calls[1..] == calls;
    }
  }

  // ---------------------------------------------------------------- Reading memory

  /** `GET_CP_ENTRY`: the value of the next entry of the given kind. */
  method GetEntry(mem: seq<nat>, at0: nat, kind: nat, ghost items: seq<Item>)
      returns (val: Option<nat>, at: nat, ghost rest: seq<Item>)
    requires Walkable(mem, at0, items)
    ensures Walkable(mem, at, rest)
    ensures match Find(Entries(items), kind)
            case None => val == None
            case Some((v, more)) => val == Some(v) && Entries(rest) == more
  {
    var e;
    ghost var todo;
    e, at, rest, todo := WalkOn(mem, at0, items);
    while e.Some? && e.value.kind != kind
      invariant Walking(mem, at, rest, e, todo) && Find(todo, kind) == Find(Entries(items), kind)
      decreases |todo|
    {
      assert todo[1..] == Entries(rest);
      e, at, rest, todo := WalkOn(mem, at, rest);
    }
    if e.Some? {
      assert todo[1..] == Entries(rest);
      val := Some(e.value.val);
    } else {
      val := None;
    }
  }

  /** What the restore function called for `e` reads. */
  method GetEntries(mem: seq<nat>, at0: nat, e: Item, wants: Wants, ghost items: seq<Item>)
      returns (vals: Option<seq<nat>>, at: nat, ghost rest: seq<Item>)
    requires Walkable(mem, at0, items)
    ensures Walkable(mem, at, rest)
    ensures match Collect(Entries(items), e, [], wants)
            case None => vals == None
            case Some((vs, more)) => vals == Some(vs) && Entries(rest) == more
  {
    at, rest := at0, items;
    var read: seq<nat> := [];
    var kind := wants(e, read);
    while kind.Some?
      invariant Walkable(mem, at, rest) && kind == wants(e, read)
      invariant Collect(Entries(rest), e, read, wants) == Collect(Entries(items), e, [], wants)
      decreases |Entries(rest)|
    {
      var val;
      val, at, rest := GetEntry(mem, at, kind.value, rest);
      if val.None? {
        return None, at, rest;
      }
      read := read + [val.value];
      kind := wants(e, read);
    }
    vals := Some(read);
  }

  lemma AfterTwice(a: seq<Call>, b: seq<Call>, r: Replay)
    ensures r.After(b).After(a) == r.After(a + b)
  {
    assert a + (b + r.calls) == a + b + r.calls;
  }

  lemma AfterNone(r: Replay)
    ensures r.After([]) == r
  {
  }

  /** What restoring starts with, when `e` comes first. */
  lemma RestoredFirst(e: Item, more: seq<Item>, wants: Wants, works: Works)
    requires e.Entry?
    ensures Restored([e] + more, wants, works) ==
      if e.kind < CP_FUNC_BASE then Restored(more, wants, works)
      else match Collect(more, e, [], wants)
        case None => Replay([], Aborted)
        case Some((args, rest)) =>
          if works(Call(e, args)) then Restored(rest, wants, works).After([Call(e, args)])
          else Replay([Call(e, args)], Failed)
  {
    assert ([e] + more)[1..] == more;
  }

  /** One turn of the loop of `restore_checkpoint`. */
  method Turn(mem: seq<nat>, at0: nat, e: Item, wants: Wants, works: Works, ghost items: seq<Item>)
      returns (stop: Option<Outcome>, calls: seq<Call>, at: nat, ghost rest: seq<Item>)
    requires Walkable(mem, at0, items) && e.Entry?
    ensures Walkable(mem, at, rest)
    ensures var all := Restored([e] + Entries(items), wants, works);
      if stop.Some? then all == Replay(calls, stop.value)
      else all == Restored(Entries(rest), wants, works).After(calls) && |Entries(rest)| <= |Entries(items)|
  {
    RestoredFirst(e, Entries(items), wants, works);
    stop, calls, at, rest := None, [], at0, items;
    if e.kind < CP_FUNC_BASE {
      AfterNone(Restored(Entries(items), wants, works));
      return;
    }
    var args;
    args, at, rest := GetEntries(mem, at0, e, wants, items);
    if args.None? {
      stop := Some(Aborted);
      return;
    }
    var call := Call(e, args.value);
    calls, stop := [call], if works(call) then None else Some(Failed);
  }

  /** `restore_checkpoint`: calls the restore functions of the entries that have one, in order, and
      stops at the first that fails or that does not find what it looks for. */
  method Restore(mem: seq<nat>, start: nat, wants: Wants, works: Works, ghost items: seq<Item>)
      returns (calls: seq<Call>, out: Outcome)
    requires Walkable(mem, start, items)
    ensures Replay(calls, out) == Restored(Entries(items), wants, works)
  {
    calls, out := [], Done;
    var e, at;
    ghost var rest, todo;
    e, at, rest, todo := WalkOn(mem, start, items);
    ghost var all := Restored(todo, wants, works);
    AfterNone(all);
    while e.Some?
      invariant Walking(mem, at, rest, e, todo) && all == Restored(todo, wants, works).After(calls)
      decreases |todo|
    {
      var stop, more;
      stop, more, at, rest := Turn(mem, at, e.value, wants, works, rest);
      if stop.Some? {
        return calls + more, stop.value;
      }
      AfterTwice(calls, more, Restored(Entries(rest), wants, works));
      calls := calls + more;
      e, at, rest, todo := WalkOn(mem, at, rest);
    }
  }

  /** Writes a checkpoint of records, with any data anywhere between the entries, and restores it:
      exactly the calls it was written for are made, in order and with their arguments. */
  method SaveAndRestore(store: Store, items: seq<Item>, poke: (nat, nat) -> nat, wants: Wants, works: Works,
                        ghost calls: seq<Call>)
      returns (ok: bool, made: seq<Call>, out: Outcome)
    requires store.Valid() && store.items == [] && Writable(items)
    requires forall i :: 0 <= i < |calls| ==> Recordable(calls[i], wants) && works(calls[i])
    requires Entries(items) == Records(calls, wants)
    modifies store
    ensures ok ==> made == calls && out == Done
    ensures !ok ==> store.room < 2 * (End(0, items) + 2)
  {
    made, out := [], Done;
    ok := Write(store, items, poke);
    if ok {
      RestoresRecords(calls, wants, works);
      made, out := Restore(store.mem, 0, wants, works, items);
    }
  }

  // ---------------------------------------------------------------- What was found and called

  /** Entry `i` is the first of the given kind. */
  ghost predicate FirstOfKind(entries: seq<Item>, kind: nat, i: int) {
    && 0 <= i < |entries| && entries[i].Entry? && entries[i].kind == kind
    && forall j :: 0 <= j < i ==> !(entries[j].Entry? && entries[j].kind == kind)
  }

  /** `r` is the value of the first entry of the kind and what follows it, or none as there is no such entry. */
  ghost predicate Found(entries: seq<Item>, kind: nat, r: Option<(nat, seq<Item>)>) {
    match r
    case None => forall j :: 0 <= j < |entries| ==> !(entries[j].Entry? && entries[j].kind == kind)
    case Some((val, rest)) =>
      exists i :: FirstOfKind(entries, kind, i) && val == entries[i].val && rest == entries[i + 1..]
  }

  /** What a lookup gives, entry by entry. */
  lemma {:induction false} FindIsFirst(entries: seq<Item>, kind: nat)
    ensures Found(entries, kind, Find(entries, kind))
  {
    if entries != [] {
      if entries[0].Entry? && entries[0].kind == kind {
        assert FirstOfKind(entries, kind, 0);
      } else {
        FindIsFirst(entries[1..], kind);
        FoundBehind(entries, kind, entries[1..], Find(entries[1..], kind));
      }
    }
  }

  lemma FoundBehind(entries: seq<Item>, kind: nat, tail: seq<Item>, r: Option<(nat, seq<Item>)>)
    requires entries != [] && tail == entries[1..] && !(entries[0].Entry? && entries[0].kind == kind)
    requires Found(tail, kind, r)
    ensures Found(entries, kind, r)
  {
    assert forall j :: 1 <= j < |entries| ==> entries[j] == tail[j - 1];
    if r.Some? {
      var (val, rest) := r.value;
      var i :| FirstOfKind(tail, kind, i) && val == tail[i].val && rest == tail[i + 1..];
      assert FirstOfKind(entries, kind, i + 1) && rest == entries[i + 2..];
    }
  }

  /** How restoring ends: all calls but the last work, and the last one does unless restoring failed. */
  lemma {:induction false} RestoreStops(entries: seq<Item>, wants: Wants, works: Works)
    ensures var r := Restored(entries, wants, works);
      && (forall i :: 0 <= i < |r.calls| - 1 ==> works(r.calls[i]))
      && (r.out == Failed <==> r.calls != [] && !works(r.calls[|r.calls| - 1]))
    decreases |entries|
  {
    if entries != [] {
      if !entries[0].Entry? || entries[0].kind < CP_FUNC_BASE {
        RestoreStops(entries[1..], wants, works);
      } else {
        var c := Collect(entries[1..], entries[0], [], wants);
        if c.Some? && works(Call(entries[0], c.value.0)) {
          RestoreStops(c.value.1, wants, works);
        }
      }
    }
  }

  function CalledFor(calls: seq<Call>): seq<Item> {
    if calls == [] then [] else [calls[0].e] + CalledFor(calls[1..])
  }

  function WithFunction(entries: seq<Item>): seq<Item> {
    if entries == [] then []
    else
      var rest := WithFunction(entries[1..]);
      if entries[0].Entry? && entries[0].kind >= CP_FUNC_BASE then [entries[0]] + rest else rest
  }

  /** With functions that read nothing, restoring that is done called the function of every entry that has
      one, once and in order. */
  lemma {:induction false} CallsAreForEntries(entries: seq<Item>, wants: Wants, works: Works)
    requires forall e :: wants(e, []) == None
    requires Restored(entries, wants, works).out == Done
    ensures CalledFor(Restored(entries, wants, works).calls) == WithFunction(entries)
    decreases |entries|
  {
    if entries != [] {
      var rest := entries[1..];
      if !entries[0].Entry? || entries[0].kind < CP_FUNC_BASE {
        CallsAreForEntries(rest, wants, works);
      } else {
        var call, r := Call(entries[0], []), Restored(rest, wants, works);
        CallsAreForEntries(rest, wants, works);
        assert ([call] + r.calls)[1..] == r.calls;
      }
    }
  }
}
