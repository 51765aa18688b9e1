/** What a program may rely on when it sets, deletes, queries and enumerates values,
    enumerates keys and asks for information: told over the rows, the buffers of the
    caller and the arguments, without the functions the calls are defined by. */
module ValueLaws {
  import opened Text
  import opened Like
  import opened Paths
  import opened Selection
  import opened Tables
  import opened Runs
  import opened Enumeration
  import opened FileTimes
  import opened Answers
  import opened Calls
  import opened KeyLaws

  // ---- Which key a by-id call is about --------------------------------------

  /** The id of the row that has the root's name, or the id an open handle was
      given; a root is looked up by a statement that has to run. */
  ghost predicate WorksOn(w: World, h: HKey, select: Outcome, id: int) {
    if h in HANDLES then
      select.Ran? && exists k :: k in w.t.keys && k.id == id && IsBase(w, h, k.path)
    else h in w.handles && w.handles[h].keyId == id
  }

  /** Why there is no such id. */
  ghost predicate IsRefusal(w: World, h: HKey, select: Outcome, status: Status) {
    status == if h !in HANDLES then InvalidHandle else if select.NotPrepared? then BadDb else FileNotFound
  }

  /** The calls work on that id, and refuse exactly when there is none. */
  ghost predicate IsResolution(w: World, h: HKey, select: Outcome, status: Status, id: int) {
    if status == Success then
      WorksOn(w, h, select, id) && forall i :: WorksOn(w, h, select, i) ==> i == id
    else IsRefusal(w, h, select, status) && forall i :: !WorksOn(w, h, select, i)
  }

  lemma RootIsBase(w: World, h: HKey)
    requires h in HANDLES
    ensures PredefinedKeyName(h).Some? && forall base :: IsBase(w, h, base) <==> PredefinedKeyName(h) == Some(base)
  {
    PredefinedNames(h);
    forall base ensures IsBase(w, h, base) <==> PredefinedKeyName(h) == Some(base) { BaseIff(w, h, base); }
  }

  lemma ResolvedRoot(w: World, h: HKey, select: Outcome)
    requires UniquePaths(w.t) && h in HANDLES
    ensures var (status, id) := ResolvedKey(w, h, select); IsResolution(w, h, select, status, id)
  {
    RootIsBase(w, h);
    var root := PredefinedKeyName(h).value;
    if HasPath(w.t, root) {
      var k := KeyAt(w.t, root);
      assert IsBase(w, h, root);
      assert select.Ran? ==> WorksOn(w, h, select, k.id);
    }
  }

  lemma Resolved(w: World, h: HKey, select: Outcome)
    requires UniquePaths(w.t)
    ensures var (status, id) := ResolvedKey(w, h, select); IsResolution(w, h, select, status, id)
  {
    PredefinedNames(h);
    if h in HANDLES { ResolvedRoot(w, h, select); }
  }

  /** The name a value call is about; a NULL name is the empty one. */
  predicate IsValueName(name: Option<CText>, n: CText) {
    name == Some(n) || (name == None && n == [])
  }

  lemma ValueNameIff(name: Option<CText>, n: CText)
    ensures IsValueName(name, n) <==> n == NameOf(name)
  {
  }

  // ---- Setting and deleting a value -----------------------------------------

  /** The rows of u are those of t with this one for its pair and the time of its key. */
  ghost predicate IsSet(t: Tables, u: Tables, row: ValueRow, now: int, touch: Outcome) {
    && u.nextId == t.nextId
    && (forall v :: v in u.vals <==> v == row || (v in t.vals && !(v.keyId == row.keyId && v.name == row.name)))
    && (forall k :: k in t.keys ==> (if touch.Ran? && k.id == row.keyId then k.(mtime := now) else k) in u.keys)
    && (forall l :: l in u.keys ==>
          exists k :: k in t.keys && l == if touch.Ran? && k.id == row.keyId then k.(mtime := now) else k)
  }

  ghost predicate SetsAt(t: Tables, id: int, name: Option<CText>, kind: DWord, data: Option<Blob>, size: DWord,
                         now: int, insert: Outcome, touch: Outcome, u: Tables, status: Status)
  {
    && status == (if insert.NotPrepared? then BadDb
                  else if insert.StepFailed? || !(exists k :: k in t.keys && k.id == id) then CantWrite else Success)
    && (status != Success ==> u == t)
    && (status == Success ==>
          forall n :: IsValueName(name, n) ==> IsSet(t, u, ValueRow(id, n, kind, data, size), now, touch))
  }

  lemma SetsAtHolds(t: Tables, id: int, name: Option<CText>, kind: DWord, data: Option<Blob>, size: DWord,
                    now: int, insert: Outcome, touch: Outcome)
    ensures var (u, status) := SetValue(t, ValueRow(id, NameOf(name), kind, data, size), now, insert, touch);
            SetsAt(t, id, name, kind, data, size, now, insert, touch, u, status)
  {
  }

  ghost predicate SetLaw(w: World, h: HKey, select: Outcome, name: Option<CText>, kind: DWord, data: Option<Blob>,
                         size: DWord, now: int, insert: Outcome, touch: Outcome, u: Tables, status: Status)
  {
    && (forall id :: WorksOn(w, h, select, id) ==>
          SetsAt(w.t, id, name, kind, data, size, now, insert, touch, u, status))
    && ((forall id :: !WorksOn(w, h, select, id)) ==> IsRefusal(w, h, select, status) && u == w.t)
  }

  lemma SetLawHolds(w: World, h: HKey, select: Outcome, name: Option<CText>, kind: DWord, data: Option<Blob>,
                    size: DWord, now: int, insert: Outcome, touch: Outcome)
    requires UniquePaths(w.t) && size < 0x8000_0000 && (data.Some? ==> |data.value| == size)
    ensures var (u, status) := SetCall(w, h, select, name, kind, data, size, now, insert, touch);
            SetLaw(w, h, select, name, kind, data, size, now, insert, touch, u, status)
  {
    Resolved(w, h, select);
    SetCallResolves(w, h, select, name, kind, data, size, now, insert, touch);
    SetsAtHolds(w.t, ResolvedKey(w, h, select).1, name, kind, data, size, now, insert, touch);
  }

  ghost predicate UnsetsAt(t: Tables, id: int, name: Option<CText>, delete: Outcome, u: Tables, status: Status) {
    && (status != Success ==> u == t)
    && forall n :: IsValueName(name, n) ==>
         && status == (if delete.NotPrepared? then BadDb else if delete.StepFailed? then CantWrite
                       else if exists v :: v in t.vals && v.keyId == id && v.name == n then Success else FileNotFound)
         && (status == Success ==>
               && u.keys == t.keys && u.nextId == t.nextId
               && forall v :: v in u.vals <==> v in t.vals && !(v.keyId == id && v.name == n))
  }

  ghost predicate UnsetLaw(w: World, h: HKey, select: Outcome, name: Option<CText>, delete: Outcome,
                           u: Tables, status: Status)
  {
    && (forall id :: WorksOn(w, h, select, id) ==> UnsetsAt(w.t, id, name, delete, u, status))
    && ((forall id :: !WorksOn(w, h, select, id)) ==> IsRefusal(w, h, select, status) && u == w.t)
  }

  lemma UnsetsAtHolds(t: Tables, id: int, name: Option<CText>, delete: Outcome)
    ensures var (u, status) := DeleteValue(t, id, NameOf(name), delete); UnsetsAt(t, id, name, delete, u, status)
  {
  }

  lemma UnsetLawHolds(w: World, h: HKey, select: Outcome, name: Option<CText>, delete: Outcome)
    requires UniquePaths(w.t)
    ensures var (u, status) := UnsetCall(w, h, select, name, delete); UnsetLaw(w, h, select, name, delete, u, status)
  {
    Resolved(w, h, select);
    UnsetCallResolves(w, h, select, name, delete);
    UnsetsAtHolds(w.t, ResolvedKey(w, h, select).1, name, delete);
  }

  // ---- Steps of several threads ---------------------------------------------

  /** The id a step works on: that of an open handle, or what the thread looked up. */
  predicate IsTarget(w: World, target: Target, id: int) {
    match target
    case ByHandle(h) => h in w.handles && w.handles[h].keyId == id
    case ByThread(th) => th in w.looked && w.looked[th].keyId == id
  }

  /** A thread's look-up of a root changes nothing but what it has looked up. */
  lemma LookUpLaw(w: World, h: HKey, thread: nat, select: Outcome)
    requires UniquePaths(w.t)
    ensures var (u, status) := Step(w, LookUpRoot(h, thread, select));
            && u.t == w.t && u.handles == w.handles
            && (forall th :: th != thread ==> (th in u.looked <==> th in w.looked) &&
                                              (th in w.looked ==> u.looked[th] == w.looked[th]))
            && (status != Success ==> u == w)
            && (status == Success <==> exists id :: h in HANDLES && WorksOn(w, h, select, id))
            && (status == Success ==> h in HANDLES && thread in u.looked &&
                                      WorksOn(w, h, select, u.looked[thread].keyId))
  {
    Resolved(w, h, select);
    PredefinedNames(h);
    assert ResolvedKey(w, h, select).0 == Success ==> WorksOn(w, h, select, ResolvedKey(w, h, select).1);
  }

  /** A set or a deletion as a step works on its target's id and touches the tables only. */
  lemma StepSets(w: World, target: Target, name: Option<CText>, kind: DWord, data: Option<Blob>, size: DWord,
                 now: int, insert: Outcome, touch: Outcome, id: int)
    requires IsTarget(w, target, id) && size < 0x8000_0000 && (data.Some? ==> |data.value| == size)
    ensures var (u, status) := Step(w, Set(target, name, kind, data, size, now, insert, touch));
            && u.handles == w.handles && u.looked == w.looked
            && SetsAt(w.t, id, name, kind, data, size, now, insert, touch, u.t, status)
  {
    SetsAtHolds(w.t, id, name, kind, data, size, now, insert, touch);
  }

  lemma StepUnsets(w: World, target: Target, name: Option<CText>, delete: Outcome, id: int)
    requires IsTarget(w, target, id)
    ensures var (u, status) := Step(w, Unset(target, name, delete));
            && u.handles == w.handles && u.looked == w.looked
            && UnsetsAt(w.t, id, name, delete, u.t, status)
  {
    UnsetsAtHolds(w.t, id, name, delete);
  }

  // ---- Querying a value -----------------------------------------------------

  /** A buffer that was given bytes at its start, if any, and is otherwise as before. */
  predicate IsFilled(before: seq<Octet>, after: seq<Octet>, data: Option<Blob>) {
    && |after| == |before|
    && (data.Some? ==> |data.value| <= |after| && after[..|data.value|] == data.value)
    && forall i :: (if data.Some? then |data.value| else 0) <= i < |after| ==> after[i] == before[i]
  }

  lemma FilledIsFilled(before: seq<Octet>, data: Option<Blob>)
    requires data.Some? ==> |data.value| <= |before|
    ensures IsFilled(before, Filled(before, data), data)
  {
  }

  /** What a query finds for the row v of the pair. */
  predicate FindsRow(v: ValueRow, hasBuffer: bool, capacity: DWord, status: Status, kind: Option<DWord>, size: DWord,
                     before: seq<Octet>, after: seq<Octet>)
  {
    && kind == Some(v.kind) && size == v.size
    && status == (if hasBuffer && v.size <= capacity then Success else MoreData)
    && if status == Success then IsFilled(before, after, v.data) else after == before
  }

  ghost predicate FindsAt(t: Tables, id: int, n: CText, hasBuffer: bool, capacity: DWord, query: Outcome,
                          status: Status, kind: Option<DWord>, size: DWord, before: seq<Octet>, after: seq<Octet>)
  {
    if query.Ran? && exists v :: v in t.vals && v.keyId == id && v.name == n then
      forall v :: v in t.vals && v.keyId == id && v.name == n ==>
        FindsRow(v, hasBuffer, capacity, status, kind, size, before, after)
    else
      && status == (if query.NotPrepared? then BadDb else FileNotFound)
      && kind == None && size == capacity && after == before
  }

  /** before and after are the caller's buffer, empty when there is none. */
  ghost predicate QueryLaw(w: World, h: HKey, select: Outcome, name: Option<CText>, hasBuffer: bool, capacity: DWord,
                           query: Outcome, status: Status, kind: Option<DWord>, size: DWord,
                           before: seq<Octet>, after: seq<Octet>)
  {
    && (forall id, n :: WorksOn(w, h, select, id) && IsValueName(name, n) ==>
          FindsAt(w.t, id, n, hasBuffer, capacity, query, status, kind, size, before, after))
    && ((forall id :: !WorksOn(w, h, select, id)) ==>
          IsRefusal(w, h, select, status) && kind == None && size == capacity && after == before)
  }

  lemma FindsAtHolds(t: Tables, id: int, n: CText, hasBuffer: bool, capacity: DWord, query: Outcome, before: seq<Octet>)
    requires UniqueNames(t) && SizedBlobs(t) && (hasBuffer ==> capacity <= |before|)
    ensures var (status, kind, size) := QueryAnswer(t, id, n, query, hasBuffer, capacity);
            FindsAt(t, id, n, hasBuffer, capacity, query, status, kind, size, before,
                    if status == Success then Filled(before, FoundData(t, id, n)) else before)
  {
    if HasValue(t, id, n) {
      var v := ValueAt(t, id, n);
      if v.size <= |before| { FilledIsFilled(before, v.data); }
    }
  }

  lemma QueryLawHolds(w: World, h: HKey, select: Outcome, name: Option<CText>, hasBuffer: bool, capacity: DWord,
                      query: Outcome, before: seq<Octet>)
    requires UniquePaths(w.t) && UniqueNames(w.t) && SizedBlobs(w.t) && (hasBuffer ==> capacity <= |before|)
    ensures var ((status, kind, size), found) := Asked(w, h, select, query, NameOf(name), hasBuffer, capacity);
            QueryLaw(w, h, select, name, hasBuffer, capacity, query, status, kind, size, before,
                     if status == Success then Filled(before, found) else before)
  {
    Resolved(w, h, select);
    FindsAtHolds(w.t, ResolvedKey(w, h, select).1, NameOf(name), hasBuffer, capacity, query, before);
  }
}
