/** What holds over whole runs: stale handles, isolation of the roots, the
    effect of tree deletion, and opening in steps. */
module RunTheorems {
  import opened Text
  import opened Like
  import opened Paths
  import opened Selection
  import opened Tables
  import opened Runs
  import opened Enumeration
  import opened Worlds

  // ---- Stale handles --------------------------------------------------------

  /** An id that has no row gets none again. */
  lemma GoneStaysGone(w: World, ops: seq<Op>, id: int)
    requires Feasible(w, ops)
    requires id < w.t.nextId && !HasId(w.t, id)
    ensures !HasId(Run(w, ops).t, id)
  {
    RunEvolves(w, ops);
    forall k | k in Run(w, ops).t.keys ensures k.id != id {
      if k.id < w.t.nextId { assert HasKey(w.t, k.id, k.path); }
    }
  }

  /** After its key is deleted a record, that of an open handle or that of a
      thread's look-up, never reaches another key: whatever is re-created at its
      path has a larger id, the id has no values, and no value call through it
      changes anything. */
  lemma StaleHandleIsInert(w: World, ops: seq<Op>, key: Handle)
    requires WorldInv(w) && Feasible(w, ops)
    requires Coherent(w.t, key) && !HasId(w.t, key.keyId)
    ensures var t, id := Run(w, ops).t, key.keyId;
            && (forall k :: k in t.keys && k.path == key.path ==> k.id > id)
            && (forall name :: !HasValue(t, id, name))
            && (forall name, hasBuffer, capacity :: QueryValue(t, id, name, Ran, hasBuffer, capacity) == FileNotFound)
            && (forall row: ValueRow, now, insert, touch :: row.keyId == id ==>
                  SetValue(t, row, now, insert, touch) == (t, if insert.NotPrepared? then BadDb else CantWrite))
            && (forall name :: DeleteValue(t, id, name, Ran) == (t, FileNotFound))
  {
    var t := Run(w, ops).t;
    GoneStaysGone(w, ops, key.keyId);
    RunKeepsInv(w, ops);
    RunEvolves(w, ops);
    CoherenceLasts(w.t, t, key);
  }

  /** Setting or deleting a value through such a record fails and leaves the world
      as it is, after any run: also between the two sections of a call on a
      predefined root, when the root was deleted and made again meanwhile. */
  lemma StaleStepIsInert(w: World, ops: seq<Op>, op: Op, key: Handle)
    requires WorldInv(w) && Feasible(w, ops)
    requires Coherent(w.t, key) && !HasId(w.t, key.keyId)
    requires (op.Set? || op.Unset?) && Allowed(Run(w, ops), op) && TargetKey(Run(w, ops), op.target) == Some(key)
    ensures Step(Run(w, ops), op).0 == Run(w, ops) && Step(Run(w, ops), op).1 != Success
  {
    StaleHandleIsInert(w, ops, key);
    GoneStaysGone(w, ops, key.keyId);
  }

  /** Deleting a key is what makes its handles stale. */
  lemma DeletedIdIsGone(t: Tables, path: CText, count: Outcome, delete: Outcome)
    requires Inv(t)
    ensures var (u, status) := DeleteKey(t, path, count, delete);
            if status == Success then HasPath(t, path) && !HasPath(u, path) && !HasId(u, KeyAt(t, path).id) else u == t
  {
  }

  /** A key created is the key opened; all other paths open as before. */
  lemma OpenAfterCreate(t: Tables, path: CText, options: DWord, now: int, select: Outcome, insert: Outcome,
                        other: CText)
    requires Inv(t) && Rooted(path) && CreateKey(t, path, options, now, select, insert).status == Success
    ensures var r := CreateKey(t, path, options, now, select, insert);
            && OpenKey(r.t, path, Ran).status == Success && OpenKey(r.t, path, Ran).id == r.id
            && (r.created <==> OpenKey(t, path, Ran).status == FileNotFound)
            && (r.created ==> KeyRow(r.id, path, options, now) in r.t.keys && !HasId(t, r.id)
                              && !exists v :: v in r.t.vals && v.keyId == r.id)
            && (other != path ==> OpenKey(r.t, other, Ran).status == OpenKey(t, other, Ran).status
                                  && OpenKey(r.t, other, Ran).id == OpenKey(t, other, Ran).id)
  {
  }

  // ---- Isolation of the roots -----------------------------------------------

  /** Keys outside r, and their values, are the same in t and u. */
  ghost predicate SameOutside(r: CText, t: Tables, u: Tables) {
    && (forall k: KeyRow :: !UnderRoot(r, k.path) ==> (k in t.keys <==> k in u.keys))
    && (forall k: KeyRow, v: ValueRow :: k in t.keys && !UnderRoot(r, k.path) && v.keyId == k.id ==>
          (v in t.vals <==> v in u.vals))
  }

  /** The path a call works on. */
  function Addressed(w: World, op: Op): Option<CText>
    requires Allowed(w, op)
  {
    match op
    case CreateRoot(i, _, _, _) => Some(ROOTS[i])
    case Open(h, sub, _, _) => At(w, h, sub)
    case Create(h, sub, _, _, _, _, _) => At(w, h, sub)
    case Delete(h, sub, _, _) => At(w, h, sub)
    case DeleteSubtree(h, sub, _) => At(w, h, sub)
    case Set(target, _, _, _, _, _, _, _) => Behind(w, target)
    case Unset(target, _, _) => Behind(w, target)
    case _ => None
  }

  function Behind(w: World, target: Target): Option<CText> {
    if TargetKey(w, target).Some? then Some(TargetKey(w, target).value.path) else None
  }

  function At(w: World, h: HKey, sub: Option<CText>): Option<CText> {
    if BasePath(w, h).None? then None else Some(FullPath(BasePath(w, h).value, sub))
  }

  lemma RemovalStaysUnderRoot(t: Tables, gone: set<KeyRow>, r: CText)
    requires Inv(t) && gone <= t.keys
    requires forall k :: k in gone ==> UnderRoot(r, k.path)
    ensures SameOutside(r, t, RemoveKeys(t, gone))
  {
  }

  lemma TreeRowsAreUnderRoot(t: Tables, p: CText, r: CText)
    requires Inv(t) && r in ROOTS && UnderRoot(r, p)
    ensures forall k :: k in t.keys && TreeSelects(p, k.path) ==> UnderRoot(r, k.path)
  {
    forall k | k in t.keys && TreeSelects(p, k.path) ensures UnderRoot(r, k.path) {
      var s :| s in ROOTS && UnderRoot(s, k.path);
      RootNames(r, s);
      TreeStaysUnderRoot(r, p, s, k.path);
    }
  }

  lemma SetStaysUnderRoot(t: Tables, h: Handle, row: ValueRow, now: int, insert: Outcome, touch: Outcome, r: CText)
    requires Inv(t) && Coherent(t, h) && UnderRoot(r, h.path) && row.keyId == h.keyId
    ensures SameOutside(r, t, SetValue(t, row, now, insert, touch).0)
  {
  }

  lemma CreateStaysUnderRoot(t: Tables, p: CText, options: DWord, now: int, select: Outcome, insert: Outcome, r: CText)
    requires UnderRoot(r, p)
    ensures SameOutside(r, t, CreateKey(t, p, options, now, select, insert).t)
  {
  }

  lemma DeleteStaysUnderRoot(t: Tables, p: CText, count: Outcome, delete: Outcome, r: CText)
    requires Inv(t) && UnderRoot(r, p)
    ensures SameOutside(r, t, DeleteKey(t, p, count, delete).0)
  {
    RemovalStaysUnderRoot(t, (set k | k in t.keys && k.path == p), r);
  }

  /** Whatever the path holds, deleting its tree stays under its root. */
  lemma TreeDeletionStaysUnderRoot(t: Tables, p: CText, delete: Outcome, r: CText)
    requires Inv(t) && r in ROOTS && UnderRoot(r, p)
    ensures SameOutside(r, t, DeleteTree(t, p, delete).0)
  {
    TreeRowsAreUnderRoot(t, p, r);
    RemovalStaysUnderRoot(t, (set k | k in t.keys && TreeSelects(p, k.path)), r);
  }

  lemma UnsetStaysUnderRoot(t: Tables, h: Handle, name: CText, delete: Outcome, r: CText)
    requires Coherent(t, h) && UnderRoot(r, h.path)
    ensures SameOutside(r, t, DeleteValue(t, h.keyId, name, delete).0)
  {
  }

  lemma ValueCallStaysUnderRoot(w: World, op: Op, r: CText)
    requires WorldInv(w) && Allowed(w, op) && (op.Set? || op.Unset?)
    requires Addressed(w, op).Some? && UnderRoot(r, Addressed(w, op).value)
    ensures SameOutside(r, w.t, Step(w, op).0.t)
  {
    var key := TargetKey(w, op.target).value;
    if op.Set? {
      var row := ValueRow(key.keyId, NameOf(op.name), op.kind, op.data, op.size);
      SetStaysUnderRoot(w.t, key, row, op.now, op.insert, op.touch, r);
    } else {
      UnsetStaysUnderRoot(w.t, key, NameOf(op.name), op.delete, r);
    }
  }

  lemma KeyCallStaysUnderRoot(w: World, op: Op, r: CText)
    requires WorldInv(w) && Allowed(w, op) && (op.CreateRoot? || op.Create? || op.Delete? || op.DeleteSubtree?)
    requires r in ROOTS && Addressed(w, op).Some? && UnderRoot(r, Addressed(w, op).value)
    ensures SameOutside(r, w.t, Step(w, op).0.t)
  {
    var p := Addressed(w, op).value;
    if op.CreateRoot? {
      CreateStaysUnderRoot(w.t, p, 0, op.now, op.select, op.insert, r);
    } else if op.Create? {
      CreateStaysUnderRoot(w.t, p, op.options, op.now, op.select, op.insert, r);
    } else if op.Delete? {
      DeleteStaysUnderRoot(w.t, p, op.count, op.delete, r);
    } else {
      TreeDeletionStaysUnderRoot(w.t, p, op.delete, r);
    }
  }

  /** A call that works on a path under r leaves every other root alone: their
      keys, their values, and also which keys exist there. */
  lemma StepStaysUnderRoot(w: World, op: Op, r: CText)
    requires WorldInv(w) && Allowed(w, op) && r in ROOTS
    requires Addressed(w, op).Some? ==> UnderRoot(r, Addressed(w, op).value)
    ensures SameOutside(r, w.t, Step(w, op).0.t)
  {
    if Addressed(w, op).None? || op.Open? {
      assert Step(w, op).0.t == w.t;
    } else if op.Set? || op.Unset? {
      ValueCallStaysUnderRoot(w, op, r);
    } else {
      KeyCallStaysUnderRoot(w, op, r);
    }
  }

  /** Every call of a run works on a path under r, if on any. */
  ghost predicate StaysUnder(w: World, ops: seq<Op>, r: CText)
    requires Feasible(w, ops)
    decreases |ops|
  {
    ops == [] ||
    (&& (Addressed(w, ops[0]).Some? ==> UnderRoot(r, Addressed(w, ops[0]).value))
     && StaysUnder(Step(w, ops[0]).0, ops[1..], r))
  }

  lemma SameOutsideChains(r: CText, t: Tables, u: Tables, v: Tables)
    requires SameOutside(r, t, u) && SameOutside(r, u, v)
    ensures SameOutside(r, t, v)
  {
  }

  /** A program that works under one root never changes another. */
  lemma {:induction false} RunStaysUnderRoot(w: World, ops: seq<Op>, r: CText)
    requires WorldInv(w) && Feasible(w, ops) && r in ROOTS && StaysUnder(w, ops, r)
    ensures SameOutside(r, w.t, Run(w, ops).t)
    decreases |ops|
  {
    if ops == [] {
    } else {
      var next := Step(w, ops[0]).0;
      StepKeepsInv(w, ops[0]);
      StepStaysUnderRoot(w, ops[0], r);
      RunStaysUnderRoot(next, ops[1..], r);
      SameOutsideChains(r, w.t, next.t, Run(w, ops).t);
    }
  }

  // ---- Tree deletion --------------------------------------------------------

  ghost function AfterTree(t: Tables, p: CText): Tables {
    DeleteTree(t, p, Ran).0
  }

  /** Values go exactly with their keys. */
  lemma ValuesFollowKeys(t: Tables, p: CText)
    requires Inv(t)
    ensures AfterTree(t, p).keys <= t.keys && AfterTree(t, p).vals <= t.vals
    ensures forall v :: v in t.vals ==> (v in AfterTree(t, p).vals <==> HasId(AfterTree(t, p), v.keyId))
  {
  }

  lemma UnselectedRowsStay(t: Tables, p: CText)
    ensures AfterTree(t, p).keys <= t.keys
    ensures forall k :: k in t.keys ==> (k in AfterTree(t, p).keys <==> !TreeSelects(p, k.path))
  {
  }

  lemma SelectedWithValues(t: Tables, p: CText, k: KeyRow)
    requires k in t.keys && TreeSelects(p, k.path)
    ensures k !in AfterTree(t, p).keys
    ensures forall v: ValueRow :: v.keyId == k.id ==> v !in AfterTree(t, p).vals
  {
  }

  /** The rows tree deletion removes, for a path without wildcards after its root. */
  lemma TreeDeletionFootprint(t: Tables, r: CText, p: CText)
    requires Inv(t) && r in ROOTS && UnderRoot(r, p)
    requires HasNoWildcard(p[|r|..]) && |p| <= 1022
    ensures forall k :: k in t.keys ==> (k in AfterTree(t, p).keys <==> !FoldPrefix(Chars(p), Chars(k.path)))
  {
    UnselectedRowsStay(t, p);
    forall k | k in t.keys ensures k in AfterTree(t, p).keys <==> !FoldPrefix(Chars(p), Chars(k.path)) {
      TreeFootprint(r, p, k.path);
    }
  }

  /** The rows removed are those that continue p up to case. */
  ghost predicate RemovesContinuations(t: Tables, p: CText) {
    forall k :: k in t.keys ==> (k in AfterTree(t, p).keys <==> !FoldPrefix(Chars(p), Chars(k.path)))
  }

  /** In every reachable world, exactly for paths that fit and hold no wildcard
      after their root. */
  lemma TreeDeletionFootprintIff(r: CText, p: CText)
    requires r in ROOTS && UnderRoot(r, p)
    ensures (forall w :: Reachable(w) ==> RemovesContinuations(w.t, p)) <==>
            HasNoWildcard(p[|r|..]) && |p| <= 1022
  {
    if HasNoWildcard(p[|r|..]) && |p| <= 1022 {
      forall w | Reachable(w) ensures RemovesContinuations(w.t, p) {
        ReachableInv(w);
        TreeDeletionFootprint(w.t, r, p);
      }
    } else {
      RootIsPlain(r);
      var q := WrongFootprint(r, p);
      var w := RootedPathIsReachable(r, q);
      UnselectedRowsStay(w.t, p);
      assert KeyAt(w.t, q) in w.t.keys;
    }
  }

  /** A wildcard of P's own takes a key that does not continue P at all, and that
      key's values: a reachable store in which it does. */
  lemma TreeDeletionTakesStrangers(r: CText, p: CText) returns (w: World, k: KeyRow, v: ValueRow)
    requires r in ROOTS && UnderRoot(r, p) && TreeFits(p)
    requires !(HasNoWildcard(p[|r|..]) && |p| <= 1022)
    ensures Reachable(w) && HasPath(w.t, p)
    ensures k in w.t.keys && !FoldPrefix(Chars(p), Chars(k.path)) && v in w.t.vals && v.keyId == k.id
    ensures k !in AfterTree(w.t, p).keys && v !in AfterTree(w.t, p).vals
  {
    RootIsPlain(r);
    var q := Stranger(r, p);
    w, k, v := HoldingValue(r, p, q, []);
    SelectedWithValues(w.t, p, k);
  }

  /** Neither a key at or below p is left nor a value of one. */
  ghost predicate SubtreeGone(t: Tables, p: CText) {
    && (forall k :: k in AfterTree(t, p).keys ==> !InSubtree(p, k.path))
    && (forall k, v: ValueRow :: k in t.keys && InSubtree(p, k.path) && v.keyId == k.id ==> v !in AfterTree(t, p).vals)
  }

  /** Nothing of the subtree is left, whatever characters the path holds. */
  lemma TreeDeletionIsComplete(t: Tables, p: CText)
    requires Inv(t) && TreeFits(p)
    ensures SubtreeGone(t, p)
  {
    forall k | k in t.keys && InSubtree(p, k.path) ensures TreeSelects(p, k.path) {
      TreeIsComplete(p, k.path);
    }
  }

  /** In every reachable world, exactly then. */
  lemma TreeDeletionIsCompleteIff(r: CText, p: CText)
    requires r in ROOTS && UnderRoot(r, p)
    ensures (forall w :: Reachable(w) ==> SubtreeGone(w.t, p)) <==> TreeFits(p)
  {
    if TreeFits(p) {
      forall w | Reachable(w) ensures SubtreeGone(w.t, p) {
        ReachableInv(w);
        TreeDeletionIsComplete(w.t, p);
      }
    } else {
      var q := ClosedCutMisses(p);
      var w := RootedPathIsReachable(r, q);
      assert KeyAt(w.t, q) in AfterTree(w.t, p).keys;
    }
  }

  /** The rows removed are p and its descendants and no others. */
  ghost predicate RemovesSubtree(t: Tables, p: CText) {
    forall k :: k in t.keys ==> (k in AfterTree(t, p).keys <==> !InSubtree(p, k.path))
  }

  /** For one store, and a path that fits and holds no wildcard after its root:
      exactly when no stored path continues P, up to case, other than by P itself
      and a backslash. */
  lemma TreeDeletionIsSubtreeIff(t: Tables, r: CText, p: CText)
    requires Inv(t) && r in ROOTS && UnderRoot(r, p)
    requires HasNoWildcard(p[|r|..]) && |p| <= 1022
    ensures RemovesSubtree(t, p) <==>
            (forall k :: k in t.keys && FoldPrefix(Chars(p), Chars(k.path)) ==> InSubtree(p, k.path))
  {
    TreeDeletionFootprint(t, r, p);
    forall k | k in t.keys && InSubtree(p, k.path) ensures FoldPrefix(Chars(p), Chars(k.path)) {
      BelowContinues(p, k.path);
    }
    CoincidesIff(t, p);
  }

  lemma CoincidesIff(t: Tables, p: CText)
    requires RemovesContinuations(t, p)
    requires forall k :: k in t.keys && InSubtree(p, k.path) ==> FoldPrefix(Chars(p), Chars(k.path))
    ensures RemovesSubtree(t, p) <==>
            (forall k :: k in t.keys && FoldPrefix(Chars(p), Chars(k.path)) ==> InSubtree(p, k.path))
  {
  }

  lemma RootRemovesSubtree(t: Tables, r: CText)
    requires Inv(t) && r in ROOTS
    ensures RemovesSubtree(t, r)
  {
    RootIsPlain(r);
    TreeRowsAreUnderRoot(t, r, r);
    UnselectedRowsStay(t, r);
    TreeDeletionIsComplete(t, r);
    assert SubtreeGone(t, r);
    assert forall k :: k in t.keys && UnderRoot(r, k.path) ==> InSubtree(r, k.path);
  }

  /** In every reachable world, and for any path: only for a root as a whole. */
  lemma TreeDeletionIsExactIff(r: CText, p: CText)
    requires r in ROOTS && UnderRoot(r, p)
    ensures (forall w :: Reachable(w) ==> RemovesSubtree(w.t, p)) <==> p == r
  {
    if p == r {
      forall w | Reachable(w) ensures RemovesSubtree(w.t, p) {
        ReachableInv(w);
        RootRemovesSubtree(w.t, r);
      }
    } else {
      RootIsPlain(r);
      var q := WrongSubtree(r, p);
      var w := RootedPathIsReachable(r, q);
      UnselectedRowsStay(w.t, p);
      assert KeyAt(w.t, q) in w.t.keys;
    }
  }

  /** It also removes every key that continues P up to case, with its values,
      even when P holds wildcards. */
  lemma TreeDeletionTakesVariants(t: Tables, p: CText, k: KeyRow)
    requires Inv(t) && |p| <= 1022
    requires k in t.keys && FoldPrefix(Chars(p), Chars(k.path))
    ensures k !in AfterTree(t, p).keys
    ensures forall v: ValueRow :: v.keyId == k.id ==> v !in AfterTree(t, p).vals
  {
    TreeSelectsExtensions(p, k.path);
    SelectedWithValues(t, p, k);
  }

  /** So every sibling whose name goes on after P's last component is removed,
      though it is not below P, and that sibling's values. */
  lemma TreeDeletionTakesSiblings(t: Tables, p: CText, more: CText)
    requires Inv(t) && |p| <= 1022 && HasPath(t, p + more)
    requires more != [] && more[0] != BACKSLASH && !IsContinuation(more[0])
    ensures !InSubtree(p, p + more) && !HasPath(AfterTree(t, p), p + more)
    ensures forall v: ValueRow :: v.keyId == KeyAt(t, p + more).id ==> v !in AfterTree(t, p).vals
  {
    TreeTakesSiblings(p, more);
    SelectedWithValues(t, p, KeyAt(t, p + more));
    UnselectedRowsStay(t, p);
  }

  // ---- Advertised sizes ------------------------------------------------------

  lemma OnlyValueIsListed(t: Tables, v: ValueRow)
    requires ValuesOf(t, v.keyId) == {v}
    ensures FetchRow(t, v.keyId, 0, Ran) == (Success, Some(v))
  {
    var s := ValueListing(t, v.keyId);
    assert |s| == 1 && s[0] in s;
  }

  /** A reachable store with a value whose first enumeration, through buffers of
      the sizes that db_query_key_info advertises for its key, asks for more. */
  lemma AdvertisedSizesFail() returns (w: World, k: KeyRow, v: ValueRow)
    ensures Reachable(w) && k in w.t.keys && v in w.t.vals && v.keyId == k.id
    ensures FetchRow(w.t, k.id, 0, Ran) == (Success, Some(v))
    ensures EnumSizes(v, MaxNameChars(w.t, k.id) + 1, true, Some(MaxValueSize(w.t, k.id))).0 == MoreData
  {
    var r := ROOTS[0];
    w, k, v := HoldingValue(r, r, r, [0xC3, 0xA9]);
    assert ValuesOf(w.t, k.id) == {v};
    OnlyValueIsListed(w.t, v);
    InfoBoundsFailForWideName(w.t, v);
  }

  // ---- Opening in two steps or in one ---------------------------------------

  /** op opens or creates sub under h, into the record ptr. */
  predicate Reaches(op: Op, h: HKey, sub: CText, ptr: HKey) {
    (op.Open? || op.Create?) && op.h == h && op.sub == Some(sub) && op.ptr == ptr
  }

  lemma GrantedHandle(w: World, op: Op, h: HKey, sub: CText, ptr: HKey)
    requires Allowed(w, op) && Reaches(op, h, sub, ptr) && Step(w, op).1 == Success
    ensures var u := Step(w, op).0;
            && BasePath(w, h).Some? && ptr != 0 && ptr in u.handles
            && u.handles[ptr].path == FullPath(BasePath(w, h).value, Some(sub))
            && u.handles == w.handles[ptr := u.handles[ptr]]
            && HasKey(u.t, u.handles[ptr].keyId, u.handles[ptr].path)
  {
  }

  lemma OpeningKeepsKeys(w: World, op: Op, id: int, path: CText)
    requires Allowed(w, op) && (op.Open? || op.Create?) && HasKey(w.t, id, path)
    ensures HasKey(Step(w, op).0.t, id, path)
  {
  }

  lemma BaseSurvives(w: World, op: Op, h: HKey)
    requires Allowed(w, op) && (op.Open? || op.Create?) && BasePath(w, h).Some?
    ensures BasePath(Step(w, op).0, h) == BasePath(w, h)
  {
  }

  lemma KeyIsUnique(t: Tables, i: int, j: int, path: CText)
    requires Inv(t) && HasKey(t, i, path) && HasKey(t, j, path)
    ensures i == j
  {
  }

  /** Reaching a path some live handle already names gives the same record. */
  lemma SamePathSameKey(w: World, op: Op, h: HKey, sub: CText, q: HKey, r: HKey)
    requires WorldInv(w) && Reaches(op, h, sub, r) && Allowed(w, op) && Step(w, op).1 == Success
    requires q in w.handles && HasKey(w.t, w.handles[q].keyId, w.handles[q].path)
    requires BasePath(w, h).Some? ==> w.handles[q].path == FullPath(BasePath(w, h).value, Some(sub))
    ensures var u := Step(w, op).0;
            q in u.handles && r in u.handles && u.handles[q] == w.handles[q] && u.handles[r] == u.handles[q]
  {
    var u := Step(w, op).0;
    StepKeepsInv(w, op);
    GrantedHandle(w, op, h, sub, r);
    OpeningKeepsKeys(w, op, w.handles[q].keyId, w.handles[q].path);
    KeyIsUnique(u.t, w.handles[q].keyId, u.handles[r].keyId, u.handles[r].path);
  }

  /** Three calls, one after the other, all succeed. */
  ghost predicate AllSucceed(w: World, first: Op, second: Op, third: Op) {
    && Allowed(w, first) && Step(w, first).1 == Success
    && var w1 := Step(w, first).0;
       && Allowed(w1, second) && Step(w1, second).1 == Success
       && var w2 := Step(w1, second).0;
          Allowed(w2, third) && Step(w2, third).1 == Success
  }

  /** a and then b through the new handle is a\b in one call: same path, same key. */
  lemma TwoStepsAreOne(w: World, first: Op, second: Op, joined: Op,
                       h: HKey, a: CText, b: CText, p: HKey, q: HKey, r: HKey)
    requires WorldInv(w) && a != [] && b != []
    requires Reaches(first, h, a, p) && Reaches(second, p, b, q) && Reaches(joined, h, a + [BACKSLASH] + b, r)
    ensures AllSucceed(w, first, second, joined) ==>
              var w3 := Step(Step(Step(w, first).0, second).0, joined).0;
              q in w3.handles && r in w3.handles && w3.handles[r] == w3.handles[q]
  {
    if AllSucceed(w, first, second, joined) {
      var w1, w2 := Step(w, first).0, Step(Step(w, first).0, second).0;
      StepKeepsInv(w, first);
      StepKeepsInv(w1, second);
      GrantedHandle(w, first, h, a, p);
      GrantedHandle(w1, second, p, b, q);
      BaseSurvives(w, first, h);
      BaseSurvives(w1, second, h);
      assert w2.handles[q].path == FullPath(FullPath(BasePath(w, h).value, Some(a)), Some(b));
      FullPathComposes(BasePath(w, h).value, a, b);
      SamePathSameKey(w2, joined, h, a + [BACKSLASH] + b, q, r);
    }
  }
}
