/** What a program may rely on when it opens, creates, closes and deletes keys: told
    over the rows and handles before and after the call and over the path spelled
    out, without the functions the calls are defined by. */
module KeyLaws {
  import opened Text
  import opened Like
  import opened Paths
  import opened Selection
  import opened ChildPatterns
  import opened Tables
  import opened Runs
  import opened RunTheorems

  // ---- Which path a call is about -------------------------------------------

  /** The path of a handle: the name in its place for a predefined one, the path
      it was opened at for an open one. */
  ghost predicate IsBase(w: World, h: HKey, base: CText) {
    if h in HANDLES then exists i :: 0 <= i < |HANDLES| && i < |ROOTS| && HANDLES[i] == h && ROOTS[i] == base
    else h in w.handles && w.handles[h].path == base
  }

  /** The base itself, or the base, a backslash and the sub key. */
  predicate IsJoined(base: CText, sub: Option<CText>, q: CText) {
    if sub == None || sub == Some([]) then q == base else q == base + [BACKSLASH] + sub.value
  }

  ghost predicate Names(w: World, h: HKey, sub: Option<CText>, q: CText) {
    exists base :: IsBase(w, h, base) && IsJoined(base, sub, q)
  }

  /** A handle a path can start from. */
  predicate IsUsable(w: World, h: HKey) {
    h in HANDLES || h in w.handles
  }

  lemma BaseIff(w: World, h: HKey, base: CText)
    ensures IsBase(w, h, base) <==> BasePath(w, h) == Some(base)
    ensures IsUsable(w, h) <==> BasePath(w, h).Some?
  {
    PredefinedNames(h);
  }

  /** A usable handle and a sub key name one path, and it is the one the calls use. */
  lemma NamesIff(w: World, h: HKey, sub: Option<CText>, q: CText)
    ensures Names(w, h, sub, q) <==> BasePath(w, h).Some? && q == FullPath(BasePath(w, h).value, sub)
    ensures IsUsable(w, h) <==> BasePath(w, h).Some?
  {
    forall base ensures IsBase(w, h, base) <==> BasePath(w, h) == Some(base) {
      BaseIff(w, h, base);
    }
    BaseIff(w, h, q);
    if BasePath(w, h).Some? {
      var base := BasePath(w, h).value;
      assert IsBase(w, h, base);
      assert IsJoined(base, sub, FullPath(base, sub));
    }
  }

  /** Every usable handle names some path, and only one. */
  lemma NamesOne(w: World, h: HKey, sub: Option<CText>, p: CText, q: CText)
    ensures IsUsable(w, h) <==> exists x :: Names(w, h, sub, x)
    ensures Names(w, h, sub, p) && Names(w, h, sub, q) ==> p == q
  {
    NamesIff(w, h, sub, p);
    NamesIff(w, h, sub, q);
    if BasePath(w, h).Some? { NamesIff(w, h, sub, FullPath(BasePath(w, h).value, sub)); }
    forall x | Names(w, h, sub, x) ensures IsUsable(w, h) { NamesIff(w, h, sub, x); }
  }

  // ---- Opening, creating, closing -------------------------------------------

  /** The open handles are those of w, but for what ptr stands for. */
  ghost predicate OthersKept(w: World, u: World, ptr: HKey) {
    forall h :: h != ptr ==> (h in u.handles <==> h in w.handles) && (h in w.handles ==> u.handles[h] == w.handles[h])
  }

  /** ptr is a handle on the key at q. */
  ghost predicate StandsFor(u: World, ptr: HKey, q: CText) {
    && ptr in u.handles && u.handles[ptr].path == q
    && exists k :: k in u.t.keys && k.path == q && k.id == u.handles[ptr].keyId
  }

  ghost predicate OpenLaw(w: World, h: HKey, sub: Option<CText>, ptr: HKey, select: Outcome, u: World, status: Status) {
    && u.t == w.t
    && (status != Success ==> u == w)
    && (!IsUsable(w, h) ==> status == InvalidHandle)
    && forall q :: Names(w, h, sub, q) ==>
         && status == (if select.NotPrepared? then BadDb
                       else if select.StepFailed? || !HasPath(w.t, q) then FileNotFound
                       else if ptr == 0 then NotEnoughMemory else Success)
         && (status == Success ==> StandsFor(u, ptr, q) && OthersKept(w, u, ptr))
  }

  lemma OpenLawHolds(w: World, h: HKey, sub: Option<CText>, ptr: HKey, select: Outcome)
    requires IsFresh(w, ptr)
    ensures var (u, status) := Step(w, Open(h, sub, ptr, select)); OpenLaw(w, h, sub, ptr, select, u, status)
  {
    var (u, status) := Step(w, Open(h, sub, ptr, select));
    NamesIff(w, h, sub, []);
    forall q | Names(w, h, sub, q)
      ensures status == (if select.NotPrepared? then BadDb
                         else if select.StepFailed? || !HasPath(w.t, q) then FileNotFound
                         else if ptr == 0 then NotEnoughMemory else Success)
      ensures status == Success ==> StandsFor(u, ptr, q) && OthersKept(w, u, ptr)
    {
      NamesIff(w, h, sub, q);
      if status == Success { assert KeyAt(w.t, q) in u.t.keys; }
    }
  }

  /** The key at q is there afterwards, with its old row or with a new one under an
      id no row has had, and every other row and all values are as before. */
  ghost predicate IsMade(t: Tables, u: Tables, q: CText, options: DWord, now: int) {
    && u.vals == t.vals
    && if HasPath(t, q) then u == t
       else exists k: KeyRow ::
              && k.path == q && k.options == options && k.mtime == now
              && t.nextId <= k.id < u.nextId && (forall l :: l in u.keys <==> l in t.keys || l == k)
  }

  ghost predicate CreateLaw(w: World, h: HKey, sub: Option<CText>, options: DWord, now: int, ptr: HKey,
                            select: Outcome, insert: Outcome, u: World, status: Status)
  {
    && (status != Success && status != NotEnoughMemory ==> u == w)
    && (!IsUsable(w, h) ==> status == InvalidHandle)
    && forall q :: Names(w, h, sub, q) ==>
         && status == (if select.NotPrepared? then BadDb
                       else if select.Ran? && HasPath(w.t, q) then (if ptr == 0 then NotEnoughMemory else Success)
                       else if insert.NotPrepared? then BadDb
                       else if insert.StepFailed? || HasPath(w.t, q) || w.t.nextId > MAX_ROWID then CantWrite
                       else if ptr == 0 then NotEnoughMemory else Success)
         && (status == NotEnoughMemory ==> IsMade(w.t, u.t, q, options, now) && u.handles == w.handles)
         && (status == Success ==>
               IsMade(w.t, u.t, q, options, now) && StandsFor(u, ptr, q) && OthersKept(w, u, ptr))
  }

  lemma CreatedRow(t: Tables, q: CText, options: DWord, now: int, select: Outcome, insert: Outcome)
    ensures var r := CreateKey(t, q, options, now, select, insert);
            r.status == Success ==>
              IsMade(t, r.t, q, options, now) && exists k :: k in r.t.keys && k.path == q && k.id == r.id
  {
    var r := CreateKey(t, q, options, now, select, insert);
    if r.status == Success {
      if HasPath(t, q) {
        assert KeyAt(t, q) in r.t.keys;
      } else {
        var k := KeyRow(t.nextId, q, options, now);
        assert k in r.t.keys && forall l :: l in r.t.keys <==> l in t.keys || l == k;
      }
    }
  }

  lemma CreatedAt(t: Tables, q: CText, options: DWord, now: int, select: Outcome, insert: Outcome)
    ensures var r := CreateKey(t, q, options, now, select, insert);
            && (r.status != Success ==> r.t == t)
            && r.status == (if select.NotPrepared? then BadDb
                            else if select.Ran? && HasPath(t, q) then Success
                            else if insert.NotPrepared? then BadDb
                            else if insert.StepFailed? || HasPath(t, q) || t.nextId > MAX_ROWID then CantWrite
                            else Success)
  {
  }

  lemma GrantedAt(w: World, t: Tables, status: Status, id: int, q: CText, ptr: HKey)
    requires status == Success && exists k :: k in t.keys && k.path == q && k.id == id
    ensures var (u, answer) := Grant(w, t, status, id, q, ptr);
            && u.t == t && answer == (if ptr == 0 then NotEnoughMemory else Success)
            && (ptr == 0 ==> u.handles == w.handles)
            && (ptr != 0 ==> StandsFor(u, ptr, q) && OthersKept(w, u, ptr))
  {
  }

  lemma CreateLawHolds(w: World, h: HKey, sub: Option<CText>, options: DWord, now: int, ptr: HKey,
                       select: Outcome, insert: Outcome)
    requires IsFresh(w, ptr)
    ensures var (u, status) := Step(w, Create(h, sub, options, now, ptr, select, insert));
            CreateLaw(w, h, sub, options, now, ptr, select, insert, u, status)
  {
    NamesIff(w, h, sub, []);
    if BasePath(w, h).Some? {
      var q := FullPath(BasePath(w, h).value, sub);
      var r := CreateKey(w.t, q, options, now, select, insert);
      CreatedAt(w.t, q, options, now, select, insert);
      CreatedRow(w.t, q, options, now, select, insert);
      if r.status == Success { GrantedAt(w, r.t, r.status, r.id, q, ptr); }
      forall p | Names(w, h, sub, p) ensures p == q { NamesIff(w, h, sub, p); }
    }
  }

  /** Only the handle closed is gone. */
  ghost predicate CloseLaw(w: World, h: HKey, u: World, status: Status) {
    && u.t == w.t
    && (status == Success <==> h != 0) && (status != Success ==> status == InvalidHandle && u == w)
    && (h != 0 ==> h !in u.handles && OthersKept(w, u, h))
  }

  lemma CloseLawHolds(w: World, h: HKey)
    ensures var (u, status) := Step(w, Close(h)); CloseLaw(w, h, u, status)
  {
  }

  lemma StoredKeyOpens(w: World, h: HKey, sub: CText, ptr: HKey, q: CText)
    requires Names(w, h, Some(sub), q) && HasPath(w.t, q) && ptr != 0 && IsFresh(w, ptr)
    ensures var (u, status) := Step(w, Open(h, Some(sub), ptr, Ran));
            && status == Success && u.t == w.t && OthersKept(w, u, ptr)
            && BasePath(u, ptr) == Some(q) && forall g :: g != ptr ==> BasePath(u, g) == BasePath(w, g)
  {
    OpenLawHolds(w, h, Some(sub), ptr, Ran);
  }

  /** Stored keys open, one component after the other and at once, and both ways
      give the same record. */
  lemma StoredKeysOpen(w: World, h: HKey, a: CText, b: CText, p: HKey, q: HKey, r: HKey, pa: CText, pb: CText)
    requires WorldInv(w) && a != [] && b != [] && 0 !in {p, q, r} && p != q && p != r && q != r && h !in {p, q, r}
    requires IsFresh(w, p) && IsFresh(w, q) && IsFresh(w, r)
    requires Names(w, h, Some(a), pa) && Names(w, h, Some(a + [BACKSLASH] + b), pb)
    requires HasPath(w.t, pa) && HasPath(w.t, pb)
    ensures var first, second := Open(h, Some(a), p, Ran), Open(p, Some(b), q, Ran);
            var joined := Open(h, Some(a + [BACKSLASH] + b), r, Ran);
            && AllSucceed(w, first, second, joined)
            && var w3 := Step(Step(Step(w, first).0, second).0, joined).0;
               q in w3.handles && r in w3.handles && w3.handles[q] == w3.handles[r]
  {
    var ab := a + [BACKSLASH] + b;
    var first, second, joined := Open(h, Some(a), p, Ran), Open(p, Some(b), q, Ran), Open(h, Some(ab), r, Ran);
    StoredKeyOpens(w, h, a, p, pa);
    var w1 := Step(w, first).0;
    StepInto(w, w1, h, p, a, b, pa, pb);
    StoredKeyOpens(w1, p, b, q, pb);
    var w2 := Step(w1, second).0;
    SameName(w, w2, h, ab, pb);
    StoredKeyOpens(w2, h, ab, r, pb);
    TwoStepsAreOne(w, first, second, joined, h, a, b, p, q, r);
  }

  lemma SameName(w: World, u: World, h: HKey, sub: CText, q: CText)
    requires BasePath(u, h) == BasePath(w, h) && Names(w, h, Some(sub), q)
    ensures Names(u, h, Some(sub), q)
  {
    NamesIff(w, h, Some(sub), q);
    NamesIff(u, h, Some(sub), q);
  }

  lemma StepInto(w: World, u: World, h: HKey, p: HKey, a: CText, b: CText, pa: CText, pb: CText)
    requires a != [] && b != [] && Names(w, h, Some(a), pa) && Names(w, h, Some(a + [BACKSLASH] + b), pb)
    requires BasePath(u, p) == Some(pa)
    ensures Names(u, p, Some(b), pb)
  {
    NamesIff(w, h, Some(a), pa);
    NamesIff(w, h, Some(a + [BACKSLASH] + b), pb);
    NamesIff(u, p, Some(b), pb);
    FullPathComposes(BasePath(w, h).value, a, b);
  }

  /** A restart keeps the store and forgets the handles and the look-ups. */
  lemma RestartLaw(w: World)
    ensures var (u, status) := Step(w, Restart);
            u.t == w.t && status == Success && |u.handles| == 0 && |u.looked| == 0
  {
  }

  // ---- Deleting one key -----------------------------------------------------

  /** The rows of u are those of t without the key at q and its values. */
  ghost predicate OnlyKeyGone(t: Tables, u: Tables, q: CText) {
    && u.nextId == t.nextId
    && (forall k :: k in u.keys <==> k in t.keys && k.path != q)
    && (forall v :: v in u.vals <==> v in t.vals && !(exists k :: k in t.keys && k.path == q && k.id == v.keyId))
  }

  /** Some row is selected by the child pattern of q. */
  ghost predicate IsGuarded(t: Tables, q: CText) {
    exists k :: k in t.keys && IsLike(ChildPattern(q), k.path, Some(BACKSLASH))
  }

  ghost predicate DeleteLaw(w: World, h: HKey, sub: Option<CText>, count: Outcome, delete: Outcome,
                            u: World, status: Status)
  {
    && u.handles == w.handles && u.looked == w.looked
    && (status != Success ==> u == w)
    && (!IsUsable(w, h) ==> status == InvalidHandle)
    && forall q :: Names(w, h, sub, q) ==>
         && status == (if count.NotPrepared? then BadDb
                       else if count.Ran? && IsGuarded(w.t, q) then KeyHasChildren
                       else if delete.NotPrepared? then BadDb
                       else if delete.StepFailed? then CantWrite
                       else if !HasPath(w.t, q) then FileNotFound else Success)
         && (status == Success ==> HasPath(w.t, q) && OnlyKeyGone(w.t, u.t, q))
  }

  lemma DeletedRows(t: Tables, q: CText, count: Outcome, delete: Outcome)
    ensures var (u, status) := DeleteKey(t, q, count, delete);
            (status != Success ==> u == t) && (status == Success ==> HasPath(t, q) && OnlyKeyGone(t, u, q))
  {
  }

  lemma DeleteLawHolds(w: World, h: HKey, sub: Option<CText>, count: Outcome, delete: Outcome)
    ensures var (u, status) := Step(w, Delete(h, sub, count, delete)); DeleteLaw(w, h, sub, count, delete, u, status)
  {
    NamesIff(w, h, sub, []);
    if BasePath(w, h).Some? {
      var q := FullPath(BasePath(w, h).value, sub);
      DeletedRows(w.t, q, count, delete);
      assert SeesChild(w.t, q) <==> IsGuarded(w.t, q);
      forall p | Names(w, h, sub, p) ensures p == q { NamesIff(w, h, sub, p); }
    }
  }

  // ---- Deleting a tree ------------------------------------------------------

  /** Values go with their keys and only with them; nothing is added. */
  ghost predicate RowsGone(t: Tables, u: Tables) {
    && u.nextId == t.nextId && u.keys <= t.keys && u.vals <= t.vals
    && forall v :: v in t.vals ==> (v in u.vals <==> exists k :: k in u.keys && k.id == v.keyId)
  }

  ghost predicate TreeGone(t: Tables, u: Tables, q: CText) {
    && RowsGone(t, u)
    && (TreeFits(q) ==> forall k :: k in u.keys ==> !InSubtree(q, k.path))
    && (forall r :: r in ROOTS && UnderRoot(r, q) ==> SameOutside(r, t, u))
    && (forall r :: r in ROOTS && UnderRoot(r, q) && HasNoWildcard(q[|r|..]) && |q| <= 1022 ==>
          forall k :: k in t.keys ==> (k in u.keys <==> !FoldPrefix(Chars(q), Chars(k.path))))
  }

  ghost predicate TreeLaw(w: World, h: HKey, sub: Option<CText>, delete: Outcome, u: World, status: Status) {
    && u.handles == w.handles && u.looked == w.looked
    && (status != Success ==> u == w)
    && (!IsUsable(w, h) ==> status == InvalidHandle)
    && forall q :: Names(w, h, sub, q) ==>
         && status == (if delete.NotPrepared? then BadDb else if delete.StepFailed? then CantWrite else Success)
         && (status == Success ==> TreeGone(w.t, u.t, q))
  }

  lemma TreeIsGone(t: Tables, q: CText)
    requires Inv(t)
    ensures TreeGone(t, AfterTree(t, q), q)
  {
    ValuesFollowKeys(t, q);
    if TreeFits(q) { TreeDeletionIsComplete(t, q); }
    forall r | r in ROOTS && UnderRoot(r, q) ensures SameOutside(r, t, AfterTree(t, q)) {
      TreeDeletionStaysUnderRoot(t, q, Ran, r);
    }
    forall r | r in ROOTS && UnderRoot(r, q) && HasNoWildcard(q[|r|..]) && |q| <= 1022
      ensures RemovesContinuations(t, q)
    {
      TreeDeletionFootprint(t, r, q);
    }
  }

  lemma TreeLawHolds(w: World, h: HKey, sub: Option<CText>, delete: Outcome)
    requires WorldInv(w)
    ensures var (u, status) := Step(w, DeleteSubtree(h, sub, delete)); TreeLaw(w, h, sub, delete, u, status)
  {
    NamesIff(w, h, sub, []);
    if BasePath(w, h).Some? {
      var q := FullPath(BasePath(w, h).value, sub);
      TreeIsGone(w.t, q);
      forall p | Names(w, h, sub, p) ensures p == q { NamesIff(w, h, sub, p); }
    }
  }
}
