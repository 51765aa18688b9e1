/** The two tables and the row-level meaning of every statement that changes them.

    A statement either runs, cannot be prepared, or fails when stepped; the last
    two leave the tables alone. */
module Tables {
  import opened Text
  import opened Paths
  import opened Selection

  type Blob = seq<Octet>

  datatype KeyRow = KeyRow(id: int, path: CText, options: DWord, mtime: int)
  datatype ValueRow = ValueRow(keyId: int, name: CText, kind: DWord, data: Option<Blob>, size: DWord)

  /** nextId is what AUTOINCREMENT hands out next; it survives deletions. */
  datatype Tables = Tables(keys: set<KeyRow>, vals: set<ValueRow>, nextId: int)

  const EMPTY := Tables({}, {}, 1)
  const MAX_ROWID := 0x7FFF_FFFF_FFFF_FFFF

  datatype Outcome = Ran | NotPrepared | StepFailed

  datatype Status =
    | Success | FileNotFound | InvalidHandle | NotEnoughMemory | InvalidParameter
    | MoreData | NoMoreItems | BadDb | CantOpen | CantWrite | KeyHasChildren

  ghost predicate HasPath(t: Tables, path: CText) {
    exists k :: k in t.keys && k.path == path
  }

  ghost predicate HasId(t: Tables, id: int) {
    exists k :: k in t.keys && k.id == id
  }

  ghost predicate HasKey(t: Tables, id: int, path: CText) {
    exists k :: k in t.keys && k.id == id && k.path == path
  }

  ghost predicate HasValue(t: Tables, id: int, name: CText) {
    exists v :: v in t.vals && v.keyId == id && v.name == name
  }

  ghost function KeyAt(t: Tables, path: CText): (k: KeyRow)
    requires HasPath(t, path)
    ensures k in t.keys && k.path == path
  {
    var k :| k in t.keys && k.path == path;
    k
  }

  ghost function KeyById(t: Tables, id: int): (k: KeyRow)
    requires HasId(t, id)
    ensures k in t.keys && k.id == id
  {
    var k :| k in t.keys && k.id == id;
    k
  }

  ghost function ValueAt(t: Tables, id: int, name: CText): (v: ValueRow)
    requires HasValue(t, id, name)
    ensures v in t.vals && v.keyId == id && v.name == name
  {
    var v :| v in t.vals && v.keyId == id && v.name == name;
    v
  }

  /** A NULL value name is the empty name. */
  function NameOf(name: Option<CText>): CText {
    if name.None? then [] else name.value
  }

  // ---- Invariant ------------------------------------------------------------

  ghost predicate UniquePaths(t: Tables) {
    forall k, l :: k in t.keys && l in t.keys && k.path == l.path ==> k == l
  }

  ghost predicate UniqueIds(t: Tables) {
    && (forall k, l :: k in t.keys && l in t.keys && k.id == l.id ==> k == l)
    && (forall k :: k in t.keys ==> 0 < k.id < t.nextId)
  }

  ghost predicate UniqueNames(t: Tables) {
    forall v, w :: v in t.vals && w in t.vals && v.keyId == w.keyId && v.name == w.name ==> v == w
  }

  ghost predicate ForeignKeys(t: Tables) {
    forall v :: v in t.vals ==> HasId(t, v.keyId)
  }

  ghost predicate RootedPaths(t: Tables) {
    forall k :: k in t.keys ==> Rooted(k.path)
  }

  /** A stored blob has its declared size; only a NULL blob may not. */
  ghost predicate SizedBlobs(t: Tables) {
    forall v :: v in t.vals ==> v.size < 0x8000_0000 && (v.data.Some? ==> |v.data.value| == v.size)
  }

  ghost predicate Inv(t: Tables) {
    && 0 < t.nextId
    && UniquePaths(t) && UniqueIds(t) && UniqueNames(t)
    && ForeignKeys(t) && RootedPaths(t) && SizedBlobs(t)
  }

  // ---- Statements -----------------------------------------------------------

  /** DELETE FROM registry_keys, with ON DELETE CASCADE. */
  ghost function RemoveKeys(t: Tables, gone: set<KeyRow>): Tables {
    t.(keys := t.keys - gone,
       vals := set v | v in t.vals && !(exists k :: k in gone && k.id == v.keyId))
  }

  /** UPDATE registry_keys SET modified_time = now WHERE id = id. */
  function Touch(t: Tables, id: int, now: int): Tables {
    t.(keys := set k | k in t.keys :: Touched(k, id, now))
  }

  function Touched(k: KeyRow, id: int, now: int): KeyRow {
    if k.id == id then k.(mtime := now) else k
  }

  /** INSERT OR REPLACE under UNIQUE(key_id, name). */
  function Replace(t: Tables, row: ValueRow): Tables {
    t.(vals := (set v | v in t.vals && !(v.keyId == row.keyId && v.name == row.name)) + {row})
  }

  // ---- Backend calls --------------------------------------------------------

  datatype KeyResult = KeyResult(t: Tables, status: Status, id: int, created: bool)

  ghost function CreateKey(t: Tables, path: CText, options: DWord, now: int,
                           select: Outcome, insert: Outcome): KeyResult
  {
    if select.NotPrepared? then KeyResult(t, BadDb, 0, false)
    else if select.Ran? && HasPath(t, path) then KeyResult(t, Success, KeyAt(t, path).id, false)
    else if insert.NotPrepared? then KeyResult(t, BadDb, 0, false)
    else if insert.StepFailed? || HasPath(t, path) || t.nextId > MAX_ROWID then KeyResult(t, CantWrite, 0, false)
    else
      var row := KeyRow(t.nextId, path, options, now);
      KeyResult(t.(keys := t.keys + {row}, nextId := t.nextId + 1), Success, t.nextId, true)
  }

  ghost function OpenKey(t: Tables, path: CText, select: Outcome): KeyResult {
    if select.NotPrepared? then KeyResult(t, BadDb, 0, false)
    else if select.Ran? && HasPath(t, path) then KeyResult(t, Success, KeyAt(t, path).id, false)
    else KeyResult(t, FileNotFound, 0, false)
  }

  /** The has-children count of db_delete_key is positive. */
  ghost predicate SeesChild(t: Tables, path: CText) {
    exists k :: k in t.keys && HasChildSelects(path, k.path)
  }

  ghost function DeleteKey(t: Tables, path: CText, count: Outcome, delete: Outcome): (Tables, Status) {
    if count.NotPrepared? then (t, BadDb)
    else if count.Ran? && SeesChild(t, path) then (t, KeyHasChildren)
    else if delete.NotPrepared? then (t, BadDb)
    else if delete.StepFailed? then (t, CantWrite)
    else if !HasPath(t, path) then (t, FileNotFound)
    else (RemoveKeys(t, set k | k in t.keys && k.path == path), Success)
  }

  ghost function DeleteTree(t: Tables, path: CText, delete: Outcome): (Tables, Status) {
    if delete.NotPrepared? then (t, BadDb)
    else if delete.StepFailed? then (t, CantWrite)
    else (RemoveKeys(t, set k | k in t.keys && TreeSelects(path, k.path)), Success)
  }

  ghost function SetValue(t: Tables, row: ValueRow, now: int, insert: Outcome, touch: Outcome): (Tables, Status) {
    if insert.NotPrepared? then (t, BadDb)
    else if insert.StepFailed? || !HasId(t, row.keyId) then (t, CantWrite)
    else (if touch.Ran? then Touch(Replace(t, row), row.keyId, now) else Replace(t, row), Success)
  }

  ghost function DeleteValue(t: Tables, id: int, name: CText, delete: Outcome): (Tables, Status) {
    if delete.NotPrepared? then (t, BadDb)
    else if delete.StepFailed? then (t, CantWrite)
    else if !HasValue(t, id, name) then (t, FileNotFound)
    else (t.(vals := set v | v in t.vals && !(v.keyId == id && v.name == name)), Success)
  }

  /** What a value row holds for its (key, name). */
  datatype Stored = Stored(kind: DWord, data: Option<Blob>, size: DWord)

  ghost function Lookup(t: Tables, id: int, name: CText): Option<Stored> {
    if HasValue(t, id, name) then
      var v := ValueAt(t, id, name);
      Some(Stored(v.kind, v.data, v.size))
    else None
  }

  /** db_query_value: its status for a buffer of that capacity. */
  ghost function QueryValue(t: Tables, id: int, name: CText, select: Outcome,
                            hasBuffer: bool, capacity: DWord): Status
  {
    if select.NotPrepared? then BadDb
    else if select.StepFailed? || Lookup(t, id, name).None? then FileNotFound
    else if !hasBuffer || capacity < Lookup(t, id, name).value.size then MoreData
    else Success
  }

  // ---- Every call keeps the invariant ---------------------------------------

  lemma RemoveKeysKeepsInv(t: Tables, gone: set<KeyRow>)
    requires Inv(t)
    ensures Inv(RemoveKeys(t, gone))
  {
  }

  lemma TouchRows(t: Tables, id: int, now: int)
    ensures forall l :: l in Touch(t, id, now).keys ==> HasKey(t, l.id, l.path)
    ensures forall k :: k in t.keys ==> HasKey(Touch(t, id, now), k.id, k.path)
    ensures forall k :: k in t.keys && k.id != id ==> k in Touch(t, id, now).keys
    ensures forall l :: l in Touch(t, id, now).keys && l.id != id ==> l in t.keys
  {
  }

  /** Setting a value changes the row of its key only in the time, and no other
      key and no other key's values. */
  lemma SetRows(t: Tables, row: ValueRow, now: int, insert: Outcome, touch: Outcome)
    ensures var u := SetValue(t, row, now, insert, touch).0;
            && u.nextId == t.nextId
            && (forall k :: k in u.keys ==> HasKey(t, k.id, k.path))
            && (forall k: KeyRow :: k.id != row.keyId ==> (k in t.keys <==> k in u.keys))
            && (forall v: ValueRow :: v.keyId != row.keyId ==> (v in t.vals <==> v in u.vals))
  {
  }

  /** A successful set stamps the time of its key, and changes nothing else in it. */
  lemma SetStampsKey(t: Tables, row: ValueRow, now: int, k: KeyRow)
    requires UniqueIds(t) && k in t.keys && k.id == row.keyId
    ensures SetValue(t, row, now, Ran, Ran).1 == Success
    ensures forall l :: l in SetValue(t, row, now, Ran, Ran).0.keys && l.id == row.keyId ==> l == k.(mtime := now)
  {
  }

  lemma TouchKeepsKeysUnique(t: Tables, id: int, now: int)
    requires UniquePaths(t) && UniqueIds(t)
    ensures UniquePaths(Touch(t, id, now)) && UniqueIds(Touch(t, id, now))
  {
  }

  lemma TouchKeepsReferences(t: Tables, id: int, now: int)
    requires ForeignKeys(t)
    ensures ForeignKeys(Touch(t, id, now))
  {
    var u := Touch(t, id, now);
    TouchRows(t, id, now);
    forall v | v in u.vals ensures HasId(u, v.keyId) {
      var k :| k in t.keys && k.id == v.keyId;
      assert HasKey(u, k.id, k.path);
    }
  }

  lemma TouchKeepsPathsRooted(t: Tables, id: int, now: int)
    requires RootedPaths(t)
    ensures RootedPaths(Touch(t, id, now))
  {
    TouchRows(t, id, now);
    forall l | l in Touch(t, id, now).keys ensures Rooted(l.path) {
      assert HasKey(t, l.id, l.path);
    }
  }

  lemma TouchKeepsInv(t: Tables, id: int, now: int)
    requires Inv(t)
    ensures Inv(Touch(t, id, now))
  {
    TouchKeepsKeysUnique(t, id, now);
    TouchKeepsReferences(t, id, now);
    TouchKeepsPathsRooted(t, id, now);
  }

  lemma ReplaceKeepsInv(t: Tables, row: ValueRow)
    requires Inv(t) && HasId(t, row.keyId)
    requires row.size < 0x8000_0000 && (row.data.Some? ==> |row.data.value| == row.size)
    ensures Inv(Replace(t, row))
  {
  }

  lemma CreateKeyKeepsInv(t: Tables, path: CText, options: DWord, now: int, select: Outcome, insert: Outcome)
    requires Inv(t) && Rooted(path)
    ensures Inv(CreateKey(t, path, options, now, select, insert).t)
  {
    var u := CreateKey(t, path, options, now, select, insert).t;
    forall v | v in u.vals ensures HasId(u, v.keyId) {
      var k :| k in t.keys && k.id == v.keyId;
      assert k in u.keys;
    }
  }

  lemma DeleteKeyKeepsInv(t: Tables, path: CText, count: Outcome, delete: Outcome)
    requires Inv(t)
    ensures Inv(DeleteKey(t, path, count, delete).0)
  {
  }

  lemma DeleteTreeKeepsInv(t: Tables, path: CText, delete: Outcome)
    requires Inv(t)
    ensures Inv(DeleteTree(t, path, delete).0)
  {
  }

  lemma SetValueKeepsInv(t: Tables, row: ValueRow, now: int, insert: Outcome, touch: Outcome)
    requires Inv(t)
    requires row.size < 0x8000_0000 && (row.data.Some? ==> |row.data.value| == row.size)
    ensures Inv(SetValue(t, row, now, insert, touch).0)
  {
    if insert.Ran? && HasId(t, row.keyId) {
      ReplaceKeepsInv(t, row);
      TouchKeepsInv(Replace(t, row), row.keyId, now);
    }
  }

  lemma DeleteValueKeepsInv(t: Tables, id: int, name: CText, delete: Outcome)
    requires Inv(t)
    ensures Inv(DeleteValue(t, id, name, delete).0)
  {
  }
}
