/** Worlds a program can bring about: the store as the first call makes it, and
    rows added to it by calls that succeed. */
module Worlds {
  import opened Text
  import opened Paths
  import opened Tables
  import opened Runs
  import opened Boot

  /** SQLite does all it is asked. */
  function WorkingEnv(): (e: InitEnv)
    ensures IsInitEnv(e) && AllRan(e)
  {
    InitEnv(true, true, 0, seq(|ROOTS|, _ => Ran), seq(|ROOTS|, _ => Ran))
  }

  lemma StepIsReachable(w: World, op: Op)
    requires Reachable(w) && Allowed(w, op)
    ensures Reachable(Step(w, op).0)
  {
    var ops :| Feasible(START, ops) && w == Run(START, ops);
    RunAppend(START, ops, op);
  }

  /** The empty store once the library is initialised: the roots and nothing else. */
  lemma Initialised() returns (w: World)
    ensures Reachable(w) && w.handles == map[] && w.t.vals == {} && w.t.nextId <= 1 + |ROOTS|
    ensures forall path :: HasPath(w.t, path) <==> path in ROOTS
  {
    var e := WorkingEnv();
    var n := |ROOTS|;
    BootIsARun(START, n, e);
    w := Run(START, RootOps(n, e));
    BootMakesRoots(EMPTY, n, e);
    forall path ensures HasPath(w.t, path) <==> path in ROOTS {
      if HasPath(w.t, path) { BootMakesOnlyRoots(EMPTY, n, e, path); }
    }
  }

  lemma PredefinedHandle(r: CText) returns (h: HKey)
    requires r in ROOTS
    ensures PredefinedKeyName(h) == Some(r)
  {
    h := if r == CLASSES_ROOT then HKEY_CLASSES_ROOT
         else if r == CURRENT_USER then HKEY_CURRENT_USER
         else if r == LOCAL_MACHINE then HKEY_LOCAL_MACHINE
         else if r == USERS then HKEY_USERS
         else HKEY_CURRENT_CONFIG;
  }

  /** build_full_path makes every path under a root from that root's handle. */
  lemma PathFromRoot(r: CText, q: CText) returns (sub: Option<CText>)
    requires UnderRoot(r, q)
    ensures FullPath(r, sub) == q
  {
    if q == r {
      sub := None;
    } else {
      sub := Some(q[|r| + 1..]);
      assert q == q[..|r|] + [BACKSLASH] + q[|r| + 1..];
    }
  }

  lemma CreatedPaths(t: Tables, q: CText)
    requires t.nextId <= MAX_ROWID
    ensures var r := CreateKey(t, q, 0, 0, Ran, Ran);
            && r.status == Success && r.t.nextId <= t.nextId + 1 && r.t.vals == t.vals
            && HasKey(r.t, r.id, q)
            && forall path :: HasPath(r.t, path) <==> HasPath(t, path) || path == q
  {
    var u := CreateKey(t, q, 0, 0, Ran, Ran).t;
    assert forall k :: k in t.keys ==> k in u.keys;
    if HasPath(t, q) {
      assert KeyAt(t, q) in u.keys;
    } else {
      assert KeyRow(t.nextId, q, 0, 0) in u.keys;
    }
  }

  /** A call that creates any path under a root, its parents there or not. */
  lemma Add(w: World, r: CText, q: CText, ptr: HKey) returns (u: World)
    requires Reachable(w) && w.t.nextId <= MAX_ROWID
    requires ptr != 0 && IsFresh(w, ptr)
    requires r in ROOTS && UnderRoot(r, q)
    ensures Reachable(u) && u.t.nextId <= w.t.nextId + 1 && u.handles.Keys == w.handles.Keys + {ptr}
    ensures u.t.vals == w.t.vals && HasKey(u.t, u.handles[ptr].keyId, q)
    ensures forall path :: HasPath(u.t, path) <==> HasPath(w.t, path) || path == q
  {
    var h := PredefinedHandle(r);
    var sub := PathFromRoot(r, q);
    var op := Create(h, sub, 0, 0, ptr, Ran, Ran);
    CreatedPaths(w.t, q);
    StepIsReachable(w, op);
    u := Step(w, op).0;
  }

  /** A store that holds the roots, p and q. */
  lemma Holding(r: CText, p: CText, q: CText) returns (w: World)
    requires r in ROOTS && UnderRoot(r, p) && UnderRoot(r, q)
    ensures Reachable(w)
    ensures forall path :: HasPath(w.t, path) <==> path in ROOTS || path == p || path == q
  {
    var bare := Initialised();
    var one := Add(bare, r, p, 1);
    w := Add(one, r, q, 2);
  }

  lemma TouchKeepsPaths(t: Tables, id: int, now: int)
    ensures forall path :: HasPath(Touch(t, id, now), path) <==> HasPath(t, path)
  {
    forall k | k in t.keys ensures HasPath(Touch(t, id, now), k.path) {
      assert Touched(k, id, now) in Touch(t, id, now).keys;
    }
  }

  lemma FirstValue(t: Tables, l: KeyRow, v: ValueRow)
    requires t.vals == {} && l in t.keys && v.keyId == l.id
    ensures var u := SetValue(t, v, 0, Ran, Ran).0;
            && u.vals == {v} && Touched(l, l.id, 0) in u.keys
            && forall path :: HasPath(u, path) <==> HasPath(t, path)
  {
    TouchKeepsPaths(Replace(t, v), l.id, 0);
  }

  /** A call that gives the key behind an open handle a value without data. */
  lemma AddValue(w: World, ptr: HKey, q: CText, name: CText) returns (u: World, k: KeyRow, v: ValueRow)
    requires Reachable(w) && ptr in w.handles && HasKey(w.t, w.handles[ptr].keyId, q) && w.t.vals == {}
    ensures Reachable(u) && k in u.t.keys && k.path == q
    ensures u.t.vals == {v} && v.keyId == k.id && v.name == name
    ensures forall path :: HasPath(u.t, path) <==> HasPath(w.t, path)
  {
    var id := w.handles[ptr].keyId;
    var op := Set(ByHandle(ptr), Some(name), 0, None, 0, 0, Ran, Ran);
    StepIsReachable(w, op);
    u := Step(w, op).0;
    v := ValueRow(id, name, 0, None, 0);
    var l :| l in w.t.keys && l.id == id && l.path == q;
    k := Touched(l, id, 0);
    FirstValue(w.t, l, v);
  }

  /** A store that holds the roots, p, q and one value of q. */
  lemma HoldingValue(r: CText, p: CText, q: CText, name: CText) returns (w: World, k: KeyRow, v: ValueRow)
    requires r in ROOTS && UnderRoot(r, p) && UnderRoot(r, q)
    ensures Reachable(w) && k in w.t.keys && k.path == q
    ensures w.t.vals == {v} && v.keyId == k.id && v.name == name
    ensures forall path :: HasPath(w.t, path) <==> path in ROOTS || path == p || path == q
  {
    var bare := Initialised();
    var one := Add(bare, r, p, 1);
    var two := Add(one, r, q, 2);
    w, k, v := AddValue(two, 2, q, name);
  }

  /** Any rooted path can be made a row, whether its parents exist or not. */
  lemma RootedPathIsReachable(r: CText, q: CText) returns (w: World)
    requires r in ROOTS && UnderRoot(r, q)
    ensures Reachable(w)
    ensures forall path :: HasPath(w.t, path) <==> path in ROOTS || path == q
  {
    var bare := Initialised();
    w := Add(bare, r, q, 1);
  }
}
