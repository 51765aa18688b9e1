/** The value table over a whole run is a map from (key id, name) to what the
    last successful set of that pair stored, unless the pair or its key was
    deleted since. */
module ValueMap {
  import opened Text
  import opened Paths
  import opened Selection
  import opened Tables
  import opened Runs

  datatype Event =
    | Wrote(id: int, name: CText, stored: Stored)
    | Erased(id: int, name: CText)
    | KeysGone(ids: set<int>)
    | Quiet

  /** What one step does, told without the value table. */
  ghost function EventOf(w: World, op: Op): Event
    requires Allowed(w, op)
  {
    var (u, status) := Step(w, op);
    if status != Success then Quiet
    else match op
      case Set(target, name, kind, data, size, _, _, _) =>
        Wrote(TargetKey(w, target).value.keyId, NameOf(name), Stored(kind, data, size))
      case Unset(target, name, _) => Erased(TargetKey(w, target).value.keyId, NameOf(name))
      case Delete(_, _, _, _) => KeysGone(set k | k in w.t.keys && k !in u.t.keys :: k.id)
      case DeleteSubtree(_, _, _) => KeysGone(set k | k in w.t.keys && k !in u.t.keys :: k.id)
      case _ => Quiet
  }

  ghost function Trace(w: World, ops: seq<Op>): seq<Event>
    requires Feasible(w, ops)
    decreases |ops|
  {
    if ops == [] then [] else [EventOf(w, ops[0])] + Trace(Step(w, ops[0]).0, ops[1..])
  }

  /** Reading the events backwards: the last one about this pair decides. */
  function LastWrite(events: seq<Event>, id: int, name: CText, before: Option<Stored>): Option<Stored> {
    if events == [] then before
    else
      var last, rest := events[|events| - 1], events[..|events| - 1];
      match last
      case Wrote(i, n, stored) => if i == id && n == name then Some(stored) else LastWrite(rest, id, name, before)
      case Erased(i, n) => if i == id && n == name then None else LastWrite(rest, id, name, before)
      case KeysGone(ids) => if id in ids then None else LastWrite(rest, id, name, before)
      case Quiet => LastWrite(rest, id, name, before)
  }

  lemma {:induction false} LastWriteOfFirst(e: Event, events: seq<Event>, id: int, name: CText, before: Option<Stored>)
    ensures LastWrite([e] + events, id, name, before) ==
            LastWrite(events, id, name, LastWrite([e], id, name, before))
  {
    if events == [] {
      assert [e] + events == [e];
    } else {
      var n := |events| - 1;
      assert ([e] + events)[..n + 1] == [e] + events[..n];
      LastWriteOfFirst(e, events[..n], id, name, before);
    }
  }

  /** The same rows for a pair look up the same. */
  lemma SameLookup(t: Tables, u: Tables, id: int, name: CText)
    requires UniqueNames(t) && UniqueNames(u)
    requires forall v: ValueRow :: v.keyId == id && v.name == name ==> (v in t.vals <==> v in u.vals)
    ensures Lookup(t, id, name) == Lookup(u, id, name)
  {
  }

  lemma RemovalLookup(t: Tables, gone: set<KeyRow>, id: int, name: CText)
    requires Inv(t) && gone <= t.keys
    ensures Lookup(RemoveKeys(t, gone), id, name) ==
            if exists k :: k in gone && k.id == id then None else Lookup(t, id, name)
  {
  }

  /** A set that succeeds is seen by a look-up of its pair and by no other. */
  lemma SetLookup(t: Tables, row: ValueRow, now: int, touch: Outcome, id: int, name: CText)
    requires Inv(t) && HasId(t, row.keyId)
    ensures Lookup(SetValue(t, row, now, Ran, touch).0, id, name) ==
            if row.keyId == id && row.name == name then Some(Stored(row.kind, row.data, row.size))
            else Lookup(t, id, name)
  {
  }

  lemma UnsetLookup(t: Tables, i: int, n: CText, id: int, name: CText)
    requires Inv(t)
    ensures Lookup(DeleteValue(t, i, n, Ran).0, id, name) ==
            if i == id && n == name then None else Lookup(t, id, name)
  {
  }

  lemma RemovedIds(t: Tables, u: Tables, gone: set<KeyRow>, id: int)
    requires gone <= t.keys && u.keys == t.keys - gone
    ensures (exists k :: k in gone && k.id == id) <==> id in (set k | k in t.keys && k !in u.keys :: k.id)
  {
  }

  lemma LastWriteOfOne(e: Event, id: int, name: CText, before: Option<Stored>)
    ensures LastWrite([e], id, name, before) ==
            match e
            case Wrote(i, n, stored) => if i == id && n == name then Some(stored) else before
            case Erased(i, n) => if i == id && n == name then None else before
            case KeysGone(ids) => if id in ids then None else before
            case Quiet => before
  {
  }

  lemma QuietStepKeepsValues(w: World, op: Op)
    requires Allowed(w, op) && EventOf(w, op).Quiet?
    ensures Step(w, op).0.t.vals == w.t.vals
  {
  }

  lemma DeletionLookup(w: World, op: Op, id: int, name: CText)
    requires WorldInv(w) && Allowed(w, op) && (op.Delete? || op.DeleteSubtree?) && Step(w, op).1 == Success
    ensures Lookup(Step(w, op).0.t, id, name) ==
            if id in EventOf(w, op).ids then None else Lookup(w.t, id, name)
  {
    var path := FullPath(BasePath(w, op.h).value, op.sub);
    var gone := if op.Delete? then set k | k in w.t.keys && k.path == path
                else set k | k in w.t.keys && TreeSelects(path, k.path);
    assert Step(w, op).0.t == RemoveKeys(w.t, gone);
    RemovalLookup(w.t, gone, id, name);
    RemovedIds(w.t, Step(w, op).0.t, gone, id);
  }

  lemma StepLookup(w: World, op: Op, id: int, name: CText)
    requires WorldInv(w) && Allowed(w, op)
    ensures Lookup(Step(w, op).0.t, id, name) == LastWrite([EventOf(w, op)], id, name, Lookup(w.t, id, name))
  {
    LastWriteOfOne(EventOf(w, op), id, name, Lookup(w.t, id, name));
    match EventOf(w, op)
    case Quiet =>
      QuietStepKeepsValues(w, op);
      SameLookup(w.t, Step(w, op).0.t, id, name);
    case KeysGone(_) => DeletionLookup(w, op, id, name);
    case Erased(i, n) => UnsetLookup(w.t, i, n, id, name);
    case Wrote(i, n, stored) =>
      SetLookup(w.t, ValueRow(i, n, stored.kind, stored.data, stored.size), op.now, op.touch, id, name);
  }

  /** The value table refines the map of last writes, through any run. */
  lemma {:induction false} ValuesAreLastWrites(w: World, ops: seq<Op>, id: int, name: CText)
    requires WorldInv(w) && Feasible(w, ops)
    ensures Lookup(Run(w, ops).t, id, name) == LastWrite(Trace(w, ops), id, name, Lookup(w.t, id, name))
    decreases |ops|
  {
    if ops == [] {
    } else {
      var next := Step(w, ops[0]).0;
      StepKeepsInv(w, ops[0]);
      StepLookup(w, ops[0], id, name);
      ValuesAreLastWrites(next, ops[1..], id, name);
      LastWriteOfFirst(EventOf(w, ops[0]), Trace(next, ops[1..]), id, name, Lookup(w.t, id, name));
    }
  }

  /** From an empty store, a query with room for the value succeeds exactly when
      the pair was set and not deleted since; it then has the last bytes set. */
  lemma QueryReturnsLastWrite(ops: seq<Op>, id: int, name: Option<CText>, capacity: DWord)
    requires Feasible(START, ops)
    ensures var last := LastWrite(Trace(START, ops), id, NameOf(name), None);
            var t := Run(START, ops).t;
            && Lookup(t, id, NameOf(name)) == last
            && QueryValue(t, id, NameOf(name), Ran, true, capacity) ==
                 if last.None? then FileNotFound else if capacity < last.value.size then MoreData else Success
  {
    assert Lookup(START.t, id, NameOf(name)) == None;
    ValuesAreLastWrites(START, ops, id, NameOf(name));
  }
}
