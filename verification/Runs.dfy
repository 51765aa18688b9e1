/** Whole runs of the library: every critical section of the API as one step over
    the tables, the open handles and the key ids threads hold between sections.

    A pointer that is no open handle is answered as get_registry_key answers a
    record without its magic number; reading freed memory is not modelled. */
module Runs {
  import opened Text
  import opened Paths
  import opened Tables

  /** The record behind an open handle, and equally the key a thread looked up
      for a predefined handle: a key id, and the path it was found under. */
  datatype Handle = Handle(keyId: int, path: CText)

  datatype World = World(t: Tables, handles: map<HKey, Handle>, looked: map<nat, Handle>)

  const START := World(EMPTY, map[], map[])

  datatype Target = ByHandle(h: HKey) | ByThread(thread: nat)

  /** ptr is what malloc returned for a new record, 0 when it failed. */
  datatype Op =
    | Restart
    | CreateRoot(i: nat, now: int, select: Outcome, insert: Outcome)
    | Open(h: HKey, sub: Option<CText>, ptr: HKey, select: Outcome)
    | Create(h: HKey, sub: Option<CText>, options: DWord, now: int, ptr: HKey, select: Outcome, insert: Outcome)
    | Close(h: HKey)
    | Delete(h: HKey, sub: Option<CText>, count: Outcome, delete: Outcome)
    | DeleteSubtree(h: HKey, sub: Option<CText>, delete: Outcome)
    | LookUpRoot(h: HKey, thread: nat, select: Outcome)
    | Set(target: Target, name: Option<CText>, kind: DWord, data: Option<Blob>, size: DWord,
          now: int, insert: Outcome, touch: Outcome)
    | Unset(target: Target, name: Option<CText>, delete: Outcome)

  /** Where build_full_path starts from. */
  function BasePath(w: World, h: HKey): Option<CText> {
    if PredefinedKeyName(h).Some? then PredefinedKeyName(h)
    else if h in w.handles then Some(w.handles[h].path)
    else None
  }

  function TargetKey(w: World, target: Target): Option<Handle> {
    match target
    case ByHandle(h) => if h in w.handles then Some(w.handles[h]) else None
    case ByThread(th) => if th in w.looked then Some(w.looked[th]) else None
  }

  /** malloc returns a block no live record occupies. */
  predicate IsFresh(w: World, ptr: HKey) {
    ptr == 0 || (ptr !in w.handles && PredefinedKeyName(ptr).None?)
  }

  /** What the environment and the caller owe: fresh blocks, and a data pointer
      that covers the size given with it. */
  predicate Allowed(w: World, op: Op) {
    match op
    case CreateRoot(i, _, _, _) => i < |ROOTS|
    case Open(_, _, ptr, _) => IsFresh(w, ptr)
    case Create(_, _, _, _, ptr, _, _) => IsFresh(w, ptr)
    case Set(_, _, _, data, size, _, _, _) => size < 0x8000_0000 && (data.Some? ==> |data.value| == size)
    case _ => true
  }

  /** db_open_key or db_create_key gave a key; wrap it in a record. */
  function Grant(w: World, t: Tables, status: Status, id: int, path: CText, ptr: HKey): (World, Status) {
    if status != Success then (w.(t := t), status)
    else if ptr == 0 then (w.(t := t), NotEnoughMemory)
    else (w.(t := t, handles := w.handles[ptr := Handle(id, path)]), Success)
  }

  ghost function Step(w: World, op: Op): (World, Status)
    requires Allowed(w, op)
  {
    match op
    case Restart => (w.(handles := map[], looked := map[]), Success)
    case CreateRoot(i, now, select, insert) =>
      var r := CreateKey(w.t, ROOTS[i], 0, now, select, insert);
      (w.(t := r.t), r.status)
    case Open(h, sub, ptr, select) =>
      if BasePath(w, h).None? then (w, InvalidHandle)
      else
        var path := FullPath(BasePath(w, h).value, sub);
        var r := OpenKey(w.t, path, select);
        Grant(w, r.t, r.status, r.id, path, ptr)
    case Create(h, sub, options, now, ptr, select, insert) =>
      if BasePath(w, h).None? then (w, InvalidHandle)
      else
        var path := FullPath(BasePath(w, h).value, sub);
        var r := CreateKey(w.t, path, options, now, select, insert);
        Grant(w, r.t, r.status, r.id, path, ptr)
    case Close(h) =>
      if h == 0 then (w, InvalidHandle) else (w.(handles := w.handles - {h}), Success)
    case Delete(h, sub, count, delete) =>
      if BasePath(w, h).None? then (w, InvalidHandle)
      else
        var r := DeleteKey(w.t, FullPath(BasePath(w, h).value, sub), count, delete);
        (w.(t := r.0), r.1)
    case DeleteSubtree(h, sub, delete) =>
      if BasePath(w, h).None? then (w, InvalidHandle)
      else
        var r := DeleteTree(w.t, FullPath(BasePath(w, h).value, sub), delete);
        (w.(t := r.0), r.1)
    case LookUpRoot(h, thread, select) =>
      if PredefinedKeyName(h).None? then (w, InvalidHandle)
      else
        var root := PredefinedKeyName(h).value;
        var r := OpenKey(w.t, root, select);
        (if r.status == Success then w.(looked := w.looked[thread := Handle(r.id, root)]) else w, r.status)
    case Set(target, name, kind, data, size, now, insert, touch) =>
      if TargetKey(w, target).None? then (w, InvalidHandle)
      else
        var row := ValueRow(TargetKey(w, target).value.keyId, NameOf(name), kind, data, size);
        var r := SetValue(w.t, row, now, insert, touch);
        (w.(t := r.0), r.1)
    case Unset(target, name, delete) =>
      if TargetKey(w, target).None? then (w, InvalidHandle)
      else
        var r := DeleteValue(w.t, TargetKey(w, target).value.keyId, NameOf(name), delete);
        (w.(t := r.0), r.1)
  }

  ghost predicate Feasible(w: World, ops: seq<Op>)
    decreases |ops|
  {
    ops == [] || (Allowed(w, ops[0]) && Feasible(Step(w, ops[0]).0, ops[1..]))
  }

  ghost function Run(w: World, ops: seq<Op>): World
    requires Feasible(w, ops)
    decreases |ops|
  {
    if ops == [] then w else Run(Step(w, ops[0]).0, ops[1..])
  }

  ghost predicate Reachable(w: World) {
    exists ops :: Feasible(START, ops) && w == Run(START, ops)
  }

  // ---- How the key table evolves --------------------------------------------

  /** Old ids keep their paths and never come back; new ids are larger. */
  ghost predicate Evolves(t: Tables, u: Tables) {
    && t.nextId <= u.nextId
    && forall k :: k in u.keys && k.id < t.nextId ==> HasKey(t, k.id, k.path)
  }

  lemma EvolvesTransitive(t: Tables, u: Tables, v: Tables)
    requires Evolves(t, u) && Evolves(u, v)
    ensures Evolves(t, v)
  {
  }

  lemma StepEvolves(w: World, op: Op)
    requires Allowed(w, op)
    ensures Evolves(w.t, Step(w, op).0.t)
  {
    match op
    case Set(target, name, kind, data, size, now, insert, touch) =>
      if TargetKey(w, target).Some? {
        SetRows(w.t, ValueRow(TargetKey(w, target).value.keyId, NameOf(name), kind, data, size), now, insert, touch);
      }
    case _ =>
  }

  lemma {:induction false} RunEvolves(w: World, ops: seq<Op>)
    requires Feasible(w, ops)
    ensures Evolves(w.t, Run(w, ops).t)
    decreases |ops|
  {
    if ops == [] {
    } else {
      var next := Step(w, ops[0]).0;
      StepEvolves(w, ops[0]);
      RunEvolves(next, ops[1..]);
      EvolvesTransitive(w.t, next.t, Run(w, ops).t);
    }
  }

  // ---- The invariant of every reachable world -------------------------------

  /** The row behind a handle, if there still is one, has the handle's path, and
      no row at that path is older than the handle. */
  ghost predicate Coherent(t: Tables, h: Handle) {
    && 0 < h.keyId < t.nextId
    && Rooted(h.path)
    && (forall k :: k in t.keys && k.id == h.keyId ==> k.path == h.path)
    && (forall k :: k in t.keys && k.path == h.path ==> k.id >= h.keyId)
  }

  ghost predicate WorldInv(w: World) {
    && Inv(w.t)
    && (forall h :: h in w.handles ==> PredefinedKeyName(h).None? && h != 0 && Coherent(w.t, w.handles[h]))
    && (forall th :: th in w.looked ==> Coherent(w.t, w.looked[th]))
  }

  lemma CoherenceLasts(t: Tables, u: Tables, h: Handle)
    requires Coherent(t, h) && Evolves(t, u)
    ensures Coherent(u, h)
  {
  }

  lemma FullPathIsRooted(base: CText, sub: Option<CText>)
    requires Rooted(base)
    ensures Rooted(FullPath(base, sub))
  {
  }

  lemma RootPathIsRooted(r: CText)
    requires r in ROOTS
    ensures Rooted(r)
  {
  }

  lemma BasePathIsRooted(w: World, h: HKey)
    requires WorldInv(w)
    ensures BasePath(w, h).Some? ==> Rooted(BasePath(w, h).value)
  {
  }

  lemma CreateAtKeepsInv(t: Tables, base: CText, sub: Option<CText>, options: DWord, now: int,
                         select: Outcome, insert: Outcome)
    requires Inv(t) && Rooted(base)
    ensures Inv(CreateKey(t, FullPath(base, sub), options, now, select, insert).t)
  {
    FullPathIsRooted(base, sub);
    CreateKeyKeepsInv(t, FullPath(base, sub), options, now, select, insert);
  }

  lemma CreateRootKeepsInv(t: Tables, i: nat, now: int, select: Outcome, insert: Outcome)
    requires Inv(t) && i < |ROOTS|
    ensures Inv(CreateKey(t, ROOTS[i], 0, now, select, insert).t)
  {
    RootPathIsRooted(ROOTS[i]);
    CreateKeyKeepsInv(t, ROOTS[i], 0, now, select, insert);
  }

  lemma OpenedIsCoherent(t: Tables, path: CText, select: Outcome)
    requires Inv(t)
    ensures var r := OpenKey(t, path, select); r.t == t && (r.status == Success ==> Coherent(t, Handle(r.id, path)))
  {
  }

  lemma CreatedIsCoherent(t: Tables, path: CText, options: DWord, now: int, select: Outcome, insert: Outcome)
    requires Inv(CreateKey(t, path, options, now, select, insert).t)
    ensures var r := CreateKey(t, path, options, now, select, insert);
            r.status == Success ==> Coherent(r.t, Handle(r.id, path))
  {
  }

  lemma CreationKeepsInv(w: World, op: Op)
    requires WorldInv(w) && Allowed(w, op) && (op.Create? || op.CreateRoot?)
    ensures Inv(Step(w, op).0.t)
  {
    if op.CreateRoot? {
      CreateRootKeepsInv(w.t, op.i, op.now, op.select, op.insert);
    } else if BasePath(w, op.h).Some? {
      BasePathIsRooted(w, op.h);
      CreateAtKeepsInv(w.t, BasePath(w, op.h).value, op.sub, op.options, op.now, op.select, op.insert);
    }
  }

  lemma DeletionKeepsInv(w: World, op: Op)
    requires WorldInv(w) && Allowed(w, op) && (op.Delete? || op.DeleteSubtree?)
    ensures Inv(Step(w, op).0.t)
  {
    if BasePath(w, op.h).Some? {
      var path := FullPath(BasePath(w, op.h).value, op.sub);
      if op.Delete? {
        DeleteKeyKeepsInv(w.t, path, op.count, op.delete);
      } else {
        DeleteTreeKeepsInv(w.t, path, op.delete);
      }
    }
  }

  lemma ValueCallKeepsInv(w: World, op: Op)
    requires WorldInv(w) && Allowed(w, op) && (op.Set? || op.Unset?)
    ensures Inv(Step(w, op).0.t)
  {
    if TargetKey(w, op.target).Some? {
      var id := TargetKey(w, op.target).value.keyId;
      if op.Set? {
        var row := ValueRow(id, NameOf(op.name), op.kind, op.data, op.size);
        SetValueKeepsInv(w.t, row, op.now, op.insert, op.touch);
      } else {
        DeleteValueKeepsInv(w.t, id, NameOf(op.name), op.delete);
      }
    }
  }

  lemma TablesInvKept(w: World, op: Op)
    requires WorldInv(w) && Allowed(w, op)
    ensures Inv(Step(w, op).0.t)
  {
    if op.Create? || op.CreateRoot? {
      CreationKeepsInv(w, op);
    } else if op.Delete? || op.DeleteSubtree? {
      DeletionKeepsInv(w, op);
    } else if op.Set? || op.Unset? {
      ValueCallKeepsInv(w, op);
    }
  }

  /** The records of u that w does not have cohere with the tables of u. */
  ghost predicate NewRecordsCohere(w: World, u: World) {
    && (forall h :: h in u.handles && (h !in w.handles || u.handles[h] != w.handles[h]) ==>
          PredefinedKeyName(h).None? && h != 0 && Coherent(u.t, u.handles[h]))
    && (forall th :: th in u.looked && (th !in w.looked || u.looked[th] != w.looked[th]) ==>
          Coherent(u.t, u.looked[th]))
  }

  lemma GrantCoheres(w: World, t: Tables, status: Status, id: int, path: CText, ptr: HKey)
    requires IsFresh(w, ptr) && (status == Success ==> Coherent(t, Handle(id, path)))
    ensures NewRecordsCohere(w, Grant(w, t, status, id, path, ptr).0)
  {
  }

  lemma CreatedHandleCoheres(w: World, op: Op)
    requires WorldInv(w) && Allowed(w, op) && op.Create?
    ensures NewRecordsCohere(w, Step(w, op).0)
  {
    if BasePath(w, op.h).Some? {
      var path := FullPath(BasePath(w, op.h).value, op.sub);
      var r := CreateKey(w.t, path, op.options, op.now, op.select, op.insert);
      CreationKeepsInv(w, op);
      CreatedIsCoherent(w.t, path, op.options, op.now, op.select, op.insert);
      GrantCoheres(w, r.t, r.status, r.id, path, op.ptr);
    }
  }

  lemma OpenedRecordCoheres(w: World, op: Op)
    requires WorldInv(w) && Allowed(w, op) && (op.Open? || op.LookUpRoot?)
    ensures NewRecordsCohere(w, Step(w, op).0)
  {
    if op.LookUpRoot? {
      if PredefinedKeyName(op.h).Some? { OpenedIsCoherent(w.t, PredefinedKeyName(op.h).value, op.select); }
    } else if BasePath(w, op.h).Some? {
      var path := FullPath(BasePath(w, op.h).value, op.sub);
      var r := OpenKey(w.t, path, op.select);
      OpenedIsCoherent(w.t, path, op.select);
      GrantCoheres(w, r.t, r.status, r.id, path, op.ptr);
    }
  }

  lemma NewRecordsAreCoherent(w: World, op: Op)
    requires WorldInv(w) && Allowed(w, op)
    ensures NewRecordsCohere(w, Step(w, op).0)
  {
    if op.Create? {
      CreatedHandleCoheres(w, op);
    } else if op.Open? || op.LookUpRoot? {
      OpenedRecordCoheres(w, op);
    }
  }

  lemma StepKeepsInv(w: World, op: Op)
    requires WorldInv(w) && Allowed(w, op)
    ensures WorldInv(Step(w, op).0)
  {
    var u := Step(w, op).0;
    TablesInvKept(w, op);
    NewRecordsAreCoherent(w, op);
    StepEvolves(w, op);
    forall h | h in u.handles
      ensures PredefinedKeyName(h).None? && h != 0 && Coherent(u.t, u.handles[h])
    {
      if h in w.handles && u.handles[h] == w.handles[h] { CoherenceLasts(w.t, u.t, w.handles[h]); }
    }
    forall th | th in u.looked ensures Coherent(u.t, u.looked[th]) {
      if th in w.looked && u.looked[th] == w.looked[th] { CoherenceLasts(w.t, u.t, w.looked[th]); }
    }
  }

  /** Table constraints and handle coherence hold after any run. */
  lemma {:induction false} RunKeepsInv(w: World, ops: seq<Op>)
    requires WorldInv(w) && Feasible(w, ops)
    ensures WorldInv(Run(w, ops))
    decreases |ops|
  {
    if ops == [] {
    } else {
      StepKeepsInv(w, ops[0]);
      RunKeepsInv(Step(w, ops[0]).0, ops[1..]);
    }
  }

  lemma ReachableInv(w: World)
    requires Reachable(w)
    ensures WorldInv(w)
  {
    var ops :| Feasible(START, ops) && w == Run(START, ops);
    RunKeepsInv(START, ops);
  }

  /** A run goes on from where it ended. */
  lemma {:induction false} RunAppend(w: World, ops: seq<Op>, op: Op)
    requires Feasible(w, ops) && Allowed(Run(w, ops), op)
    ensures Feasible(w, ops + [op]) && Run(w, ops + [op]) == Step(Run(w, ops), op).0
    decreases |ops|
  {
    var all := ops + [op];
    if ops == [] {
      assert all == [op] && all[1..] == [];
      var next := Step(w, op).0;
      assert Feasible(next, all[1..]) && Run(next, all[1..]) == next;
    } else {
      assert all[1..] == ops[1..] + [op];
      RunAppend(Step(w, ops[0]).0, ops[1..], op);
    }
  }
}
