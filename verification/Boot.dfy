/** ensure_initialized and db_init: what the first call leaves behind, and the loop
    over the root keys as part of a run. */
module Boot {
  import opened Text
  import opened Paths
  import opened Tables
  import opened Runs

  /** What the first call finds when it initialises the library. */
  datatype InitEnv = InitEnv(opens: bool, schemaRuns: bool, now: int, selects: seq<Outcome>, inserts: seq<Outcome>)

  predicate IsInitEnv(e: InitEnv) {
    |e.selects| == |e.inserts| == |ROOTS|
  }

  /** The tables after the first n root keys were attempted. */
  ghost function RootsMade(t: Tables, n: nat, now: int, selects: seq<Outcome>, inserts: seq<Outcome>): Tables
    requires n <= |ROOTS| && n <= |selects| && n <= |inserts|
  {
    if n == 0 then t
    else CreateKey(RootsMade(t, n - 1, now, selects, inserts), ROOTS[n - 1], 0, now, selects[n - 1], inserts[n - 1]).t
  }

  /** The tables and the status ensure_initialized leaves. */
  ghost function Booted(t: Tables, initialized: bool, e: InitEnv): (Tables, Status)
    requires IsInitEnv(e)
  {
    if initialized then (t, Success)
    else if !e.opens then (t, CantOpen)
    else if !e.schemaRuns then (t, BadDb)
    else (RootsMade(t, |ROOTS|, e.now, e.selects, e.inserts), Success)
  }

  /** The world and the status after ensure_initialized. */
  ghost function Ready(w: World, initialized: bool, e: InitEnv): (World, Status)
    requires IsInitEnv(e)
  {
    var (t, status) := Booted(w.t, initialized, e);
    (w.(t := t), status)
  }

  /** Tables that evolve keep the open handles coherent; a thread's look-up is
      local to the call that made it. */
  lemma EvolvedWorld(w: World, u: Tables)
    requires WorldInv(w) && Inv(u) && Evolves(w.t, u)
    ensures WorldInv(w.(t := u)) && WorldInv(w.(t := u, looked := map[]))
  {
    forall h | h in w.handles ensures Coherent(u, w.handles[h]) { CoherenceLasts(w.t, u, w.handles[h]); }
    forall th | th in w.looked ensures Coherent(u, w.looked[th]) { CoherenceLasts(w.t, u, w.looked[th]); }
  }

  lemma OneRootMore(t: Tables, before: Tables, path: CText, now: int, select: Outcome, insert: Outcome)
    requires Inv(before) && Evolves(t, before) && Rooted(path)
    ensures var u := CreateKey(before, path, 0, now, select, insert).t; Inv(u) && Evolves(t, u)
  {
    CreateKeyKeepsInv(before, path, 0, now, select, insert);
    EvolvesTransitive(t, before, CreateKey(before, path, 0, now, select, insert).t);
  }

  lemma {:induction false} BootEvolves(t: Tables, n: nat, now: int, selects: seq<Outcome>, inserts: seq<Outcome>)
    requires Inv(t) && n <= |ROOTS| && n <= |selects| && n <= |inserts|
    ensures Inv(RootsMade(t, n, now, selects, inserts)) && Evolves(t, RootsMade(t, n, now, selects, inserts))
  {
    if n > 0 {
      BootEvolves(t, n - 1, now, selects, inserts);
      RootPathIsRooted(ROOTS[n - 1]);
      OneRootMore(t, RootsMade(t, n - 1, now, selects, inserts), ROOTS[n - 1], now, selects[n - 1], inserts[n - 1]);
    } else {
      EvolvesToItself(t);
    }
  }

  lemma EvolvesToItself(t: Tables)
    ensures Evolves(t, t)
  {
  }

  lemma BootKeepsInv(w: World, e: InitEnv)
    requires WorldInv(w) && IsInitEnv(e)
    ensures WorldInv(w.(t := Booted(w.t, false, e).0))
  {
    BootEvolves(w.t, |ROOTS|, e.now, e.selects, e.inserts);
    EvolvesToItself(w.t);
    EvolvedWorld(w, Booted(w.t, false, e).0);
  }

  // ---- Initialisation as part of a run --------------------------------------

  function RootOps(n: nat, e: InitEnv): (ops: seq<Op>)
    requires IsInitEnv(e) && n <= |ROOTS|
  {
    if n == 0 then [] else RootOps(n - 1, e) + [CreateRoot(n - 1, e.now, e.selects[n - 1], e.inserts[n - 1])]
  }

  /** Making the roots is a run of the machine. */
  lemma {:induction false} BootIsARun(w: World, n: nat, e: InitEnv)
    requires IsInitEnv(e) && n <= |ROOTS|
    ensures Feasible(w, RootOps(n, e))
    ensures Run(w, RootOps(n, e)) == w.(t := RootsMade(w.t, n, e.now, e.selects, e.inserts))
  {
    if n == 0 {
    } else {
      BootIsARun(w, n - 1, e);
      RunAppend(w, RootOps(n - 1, e), CreateRoot(n - 1, e.now, e.selects[n - 1], e.inserts[n - 1]));
    }
  }

  predicate AllRan(e: InitEnv)
    requires IsInitEnv(e)
  {
    forall i :: 0 <= i < |ROOTS| ==> e.selects[i].Ran? && e.inserts[i].Ran?
  }

  lemma RootIsThere(t: Tables, path: CText, now: int)
    requires t.nextId <= MAX_ROWID
    ensures var r := CreateKey(t, path, 0, now, Ran, Ran);
            HasPath(r.t, path) && t.keys <= r.t.keys && r.t.vals == t.vals && r.t.nextId <= t.nextId + 1
  {
  }

  /** When SQLite does its part every root exists afterwards, and nothing is lost. */
  lemma {:induction false} BootMakesRoots(t: Tables, n: nat, e: InitEnv)
    requires IsInitEnv(e) && AllRan(e) && n <= |ROOTS|
    requires t.nextId + n <= MAX_ROWID
    ensures var u := RootsMade(t, n, e.now, e.selects, e.inserts);
            && t.keys <= u.keys && u.vals == t.vals && u.nextId <= t.nextId + n
            && forall i :: 0 <= i < n ==> HasPath(u, ROOTS[i])
  {
    if n == 0 {
    } else {
      BootMakesRoots(t, n - 1, e);
      var before := RootsMade(t, n - 1, e.now, e.selects, e.inserts);
      var u := RootsMade(t, n, e.now, e.selects, e.inserts);
      RootIsThere(before, ROOTS[n - 1], e.now);
      forall i | 0 <= i < n - 1 ensures HasPath(u, ROOTS[i]) {
        assert KeyAt(before, ROOTS[i]) in u.keys;
      }
    }
  }

  /** It makes no other key. */
  lemma {:induction false} BootMakesOnlyRoots(t: Tables, n: nat, e: InitEnv, path: CText)
    requires IsInitEnv(e) && n <= |ROOTS|
    requires HasPath(RootsMade(t, n, e.now, e.selects, e.inserts), path)
    ensures HasPath(t, path) || path in ROOTS
  {
    if n == 0 {
    } else {
      var before := RootsMade(t, n - 1, e.now, e.selects, e.inserts);
      if HasPath(before, path) {
        BootMakesOnlyRoots(t, n - 1, e, path);
      } else {
        assert path == ROOTS[n - 1];
      }
    }
  }

  // ---- What a program may rely on -------------------------------------------

  /** Once initialised nothing happens any more. A failure leaves the tables alone.
      Success may add roots and nothing else, and leaves all five there when the
      statements run and ids are left. */
  ghost predicate BootLaw(w: World, initialized: bool, e: InitEnv, u: World, status: Status)
    requires IsInitEnv(e)
  {
    && u == w.(t := u.t) && u.t.vals == w.t.vals && w.t.keys <= u.t.keys
    && status == (if initialized then Success else if !e.opens then CantOpen
                  else if !e.schemaRuns then BadDb else Success)
    && (initialized || status != Success ==> u == w)
    && (forall k :: k in u.t.keys ==> k in w.t.keys || (k.path in ROOTS && k.options == 0 && k.mtime == e.now))
    && (!initialized && status == Success && AllRan(e) && w.t.nextId + |ROOTS| <= MAX_ROWID ==>
          forall root :: root in ROOTS ==> exists k :: k in u.t.keys && k.path == root)
  }

  lemma {:induction false} BootAdds(t: Tables, n: nat, e: InitEnv)
    requires IsInitEnv(e) && n <= |ROOTS|
    ensures var u := RootsMade(t, n, e.now, e.selects, e.inserts);
            && u.vals == t.vals && t.keys <= u.keys
            && forall k :: k in u.keys ==> k in t.keys || (k.path in ROOTS && k.options == 0 && k.mtime == e.now)
  {
    if n == 0 {
    } else {
      BootAdds(t, n - 1, e);
      assert ROOTS[n - 1] in ROOTS;
    }
  }

  lemma BootLawHolds(w: World, initialized: bool, e: InitEnv)
    requires IsInitEnv(e)
    ensures var (u, status) := Ready(w, initialized, e); BootLaw(w, initialized, e, u, status)
  {
    var n := |ROOTS|;
    BootAdds(w.t, n, e);
    var u := RootsMade(w.t, n, e.now, e.selects, e.inserts);
    if AllRan(e) && w.t.nextId + n <= MAX_ROWID {
      BootMakesRoots(w.t, n, e);
      forall root | root in ROOTS ensures exists k :: k in u.keys && k.path == root {
        var i :| 0 <= i < n && ROOTS[i] == root;
        assert HasPath(u, ROOTS[i]);
      }
    }
  }
}
