/** db_backend.c: the open database with its two tables, changed in place. Each
    method runs in one critical section of the backend's mutex. */
module Backend {
  import opened Text
  import opened Paths
  import opened Selection
  import opened Tables
  import opened Enumeration
  import opened FileTimes
  import opened Boot
  import opened Answers

  /** A value as an enumerating caller sees it. */
  datatype Entry = Entry(name: CText, kind: DWord, bytes: Blob)

  predicate IsCopy(e: Entry, v: ValueRow) {
    e.name == v.name && e.kind == v.kind && |e.bytes| == v.size && (v.data.Some? ==> e.bytes == v.data.value)
  }

  /** The entries are copies of the first rows, in their order. */
  ghost predicate AreCopies(entries: seq<Entry>, rows: seq<ValueRow>) {
    |entries| <= |rows| && forall i :: 0 <= i < |entries| ==> IsCopy(entries[i], rows[i])
  }

  lemma OneMoreCopy(entries: seq<Entry>, rows: seq<ValueRow>, e: Entry)
    requires AreCopies(entries, rows) && |entries| < |rows| && IsCopy(e, rows[|entries|])
    ensures AreCopies(entries + [e], rows)
  {
  }

  /** The largest of finitely many numbers, as SQL's MAX computes it. */
  method Maximum(xs: set<nat>) returns (m: nat)
    ensures m == MaxOf(xs)
  {
    m := 0;
    var rest := xs;
    while rest != {}
      invariant rest <= xs
      invariant forall x :: x in xs && x !in rest ==> x <= m
      invariant if xs == rest then m == 0 else m in xs
    {
      var x :| x in rest;
      m := if m < x || xs == rest then x else m;
      rest := rest - {x};
    }
  }

  /** memcpy of a blob to the start of a buffer. */
  method CopyBlob(dst: array<Octet>, blob: Blob)
    requires |blob| <= dst.Length
    modifies dst
    ensures dst[..] == blob + old(dst[|blob|..])
  {
    for i := 0 to |blob|
      invariant dst[..i] == blob[..i]
      invariant dst[i..] == old(dst[i..])
    {
      dst[i] := blob[i];
    }
  }

  /** db_enumerate_values once it has its row. The name is written as soon as it
      fits, also when the data then does not. */
  method WriteValue(row: ValueRow, name: array<Octet>, nameLen: DWord, data: array?<Octet>, dataSize: Option<DWord>)
    returns (status: Status, nameOut: nat, kind: Option<DWord>, sizeOut: Option<nat>)
    requires nameLen <= name.Length && name != data
    requires data != null && dataSize.Some? ==> dataSize.value <= data.Length
    requires row.data.Some? ==> |row.data.value| == row.size
    modifies name, data
    ensures (status, nameOut, kind, sizeOut) == ValueAnswer((Success, Some(row)), nameLen, data != null, dataSize)
    ensures name[..] == NameBuffer(old(name[..]), Some(row.name), nameLen)
    ensures data != null ==>
              data[..] == DataBuffer(old(data[..]), Some(row), status == Success && dataSize.Some?)
  {
    kind, sizeOut := None, dataSize;
    var len := |row.name|;
    if len >= nameLen {
      return MoreData, len + 1, kind, sizeOut;
    }
    StrCpy(name, row.name);
    nameOut := len;
    kind := Some(row.kind);
    if data != null && dataSize.Some? {
      if dataSize.value < row.size {
        return MoreData, nameOut, kind, Some(row.size);
      }
      if row.data.Some? {
        CopyBlob(data, row.data.value);
      }
      sizeOut := Some(row.size);
    } else if dataSize.Some? {
      sizeOut := Some(row.size);
    }
    status := Success;
  }

  /** The class outputs of a row without a class. */
  method EmptyClass(cls: array?<Octet>, classLen: Option<DWord>) returns (classOut: Option<DWord>)
    requires cls != null && classLen.Some? ==> classLen.value <= cls.Length
    modifies cls
    ensures classOut == ClassLength(cls != null, classLen, Success)
    ensures cls != null ==> cls[..] == ClassBuffer(old(cls[..]), classLen, Success)
  {
    classOut := classLen;
    if cls != null && classLen.Some? {
      if classLen.value > 0 {
        cls[0] := 0;
      }
      classOut := Some(0);
    }
  }

  /** db_enumerate_keys once it has the name and the time. */
  method WriteSubkey(keyName: CText, mtime: int, name: array<Octet>, nameLen: DWord,
                     cls: array?<Octet>, classLen: Option<DWord>)
    returns (status: Status, nameOut: nat, classOut: Option<DWord>, lastWrite: Option<FileTime>)
    requires nameLen <= name.Length && name != cls
    requires cls != null && classLen.Some? ==> classLen.value <= cls.Length
    modifies name, cls
    ensures (status, nameOut, lastWrite) == NamedAnswer(keyName, mtime, nameLen)
    ensures name[..] == NameBuffer(old(name[..]), Some(keyName), nameLen)
    ensures classOut == ClassLength(cls != null, classLen, status)
    ensures cls != null ==> cls[..] == ClassBuffer(old(cls[..]), classLen, status)
  {
    var len := |keyName|;
    if len >= nameLen {
      return MoreData, len + 1, classLen, None;
    }
    StrCpy(name, keyName);
    classOut := EmptyClass(cls, classLen);
    status, nameOut, lastWrite := Success, len, Some(Convert(mtime));
  }

  /** What a caller reads out of the buffers after a successful enumeration. */
  method MakeEntry(name: array<Octet>, nameLen: nat, kind: DWord, data: array<Octet>, size: nat, ghost v: ValueRow)
    returns (entry: Entry)
    requires Holds(name, v.name) && nameLen == |v.name| && kind == v.kind && size == v.size <= data.Length
    requires v.data.Some? ==> |v.data.value| == size && v.data.value <= data[..]
    ensures IsCopy(entry, v)
  {
    var text := CString(name, nameLen, v.name);
    entry := Entry(text, kind, data[..size]);
  }

  class Database {
    var isOpen: bool
    var keys: set<KeyRow>
    var vals: set<ValueRow>
    var nextId: int

    ghost function State(): Tables
      reads this
    {
      Tables(keys, vals, nextId)
    }

    ghost predicate Valid()
      reads this
    {
      Inv(State())
    }

    /** A closed database over what the file holds. */
    constructor (stored: Tables)
      requires Inv(stored)
      ensures !isOpen && State() == stored
    {
      isOpen, keys, vals, nextId := false, stored.keys, stored.vals, stored.nextId;
    }

    /** db_init: a failure leaves the database closed; the roots are attempted in
        order, and their failures are not reported. */
    method Init(opens: bool, schemaRuns: bool, now: int, selects: seq<Outcome>, inserts: seq<Outcome>)
      returns (status: Status)
      requires Valid()
      requires |selects| == |inserts| == |ROOTS|
      modifies this
      ensures Valid()
      ensures old(isOpen) || !opens || !schemaRuns ==> State() == old(State())
      ensures status == if old(isOpen) then Success else if !opens then CantOpen
                        else if !schemaRuns then BadDb else Success
      ensures isOpen == (status == Success)
      ensures !old(isOpen) && status == Success ==> State() == RootsMade(old(State()), |ROOTS|, now, selects, inserts)
    {
      if isOpen {
        return Success;
      }
      if !opens {
        return CantOpen;
      }
      isOpen := true;
      if !schemaRuns {
        isOpen := false;
        return BadDb;
      }
      for i := 0 to |ROOTS|
        invariant Valid() && isOpen
        invariant State() == RootsMade(old(State()), i, now, selects, inserts)
      {
        assert UnderRoot(ROOTS[i], ROOTS[i]);
        var dummyStatus, dummyId, dummyDisposition := DbCreateKey(ROOTS[i], 0, now, selects[i], inserts[i]);
      }
      status := Success;
    }

    method DbCreateKey(path: CText, options: DWord, now: int, select: Outcome, insert: Outcome)
      returns (status: Status, keyId: int, created: bool)
      requires Valid() && Rooted(path)
      modifies this
      ensures Valid() && isOpen == old(isOpen)
      ensures !isOpen ==> status == InvalidParameter && State() == old(State())
      ensures isOpen ==> KeyResult(State(), status, keyId, created) ==
                         CreateKey(old(State()), path, options, now, select, insert)
    {
      keyId, created := 0, false;
      if !isOpen {
        return InvalidParameter, keyId, created;
      }
      CreateKeyKeepsInv(State(), path, options, now, select, insert);
      if select.NotPrepared? {
        return BadDb, keyId, created;
      }
      if select.Ran? && exists k :: k in keys && k.path == path {
        var k :| k in keys && k.path == path;
        return Success, k.id, created;
      }
      if insert.NotPrepared? {
        return BadDb, keyId, created;
      }
      if insert.StepFailed? || nextId > MAX_ROWID || exists k :: k in keys && k.path == path {
        return CantWrite, keyId, created;
      }
      keyId := nextId;
      keys := keys + {KeyRow(nextId, path, options, now)};
      nextId := nextId + 1;
      status, created := Success, true;
    }

    method DbOpenKey(path: CText, select: Outcome) returns (status: Status, keyId: int)
      requires Valid()
      ensures !isOpen ==> status == InvalidParameter
      ensures isOpen ==> KeyResult(State(), status, keyId, false) == OpenKey(State(), path, select)
    {
      keyId := 0;
      if !isOpen {
        return InvalidParameter, keyId;
      }
      if select.NotPrepared? {
        return BadDb, keyId;
      }
      if select.Ran? && exists k :: k in keys && k.path == path {
        var k :| k in keys && k.path == path;
        return Success, k.id;
      }
      status := FileNotFound;
    }

    /** DELETE FROM registry_keys for these rows, cascading to their values. */
    method RemoveRows(gone: set<KeyRow>)
      requires Valid()
      modifies this
      ensures Valid() && isOpen == old(isOpen)
      ensures State() == RemoveKeys(old(State()), gone)
    {
      RemoveKeysKeepsInv(State(), gone);
      ghost var target := RemoveKeys(State(), gone);
      keys := keys - gone;
      vals := set v | v in vals && !(exists k :: k in gone && k.id == v.keyId);
      assert vals == target.vals;
    }

    /** SELECT COUNT(*) with the child pattern. */
    method CountChildren(path: CText) returns (count: nat)
      ensures count > 0 <==> SeesChild(State(), path)
    {
      var rows := set k | k in keys && HasChildSelects(path, k.path);
      count := |rows|;
      if SeesChild(State(), path) {
        var k :| k in keys && HasChildSelects(path, k.path);
        assert k in rows;
      }
      assert count > 0 <==> rows != {};
    }

    /** DELETE ... WHERE path = path; changes is what sqlite3_changes reports. */
    method DeletePath(path: CText) returns (changes: nat)
      requires Valid()
      modifies this
      ensures Valid() && isOpen == old(isOpen)
      ensures changes > 0 <==> old(HasPath(State(), path))
      ensures State() == if changes > 0 then RemoveKeys(old(State()), set k | k in old(keys) && k.path == path)
                         else old(State())
    {
      var gone := set k | k in keys && k.path == path;
      changes := |gone|;
      assert changes > 0 <==> gone != {};
      assert HasPath(State(), path) ==> KeyAt(State(), path) in gone;
      ghost var before := State();
      RemoveRows(gone);
      if changes == 0 {
        assert keys == before.keys && vals == before.vals;
      }
    }

    method DbDeleteKey(path: CText, count: Outcome, delete: Outcome) returns (status: Status)
      requires Valid()
      modifies this
      ensures Valid() && isOpen == old(isOpen)
      ensures !isOpen ==> status == InvalidParameter && State() == old(State())
      ensures isOpen ==> (State(), status) == DeleteKey(old(State()), path, count, delete)
    {
      if !isOpen {
        return InvalidParameter;
      }
      if count.NotPrepared? {
        return BadDb;
      }
      var children := 0;
      if count.Ran? {
        children := CountChildren(path);
      }
      if children > 0 {
        return KeyHasChildren;
      }
      if delete.NotPrepared? {
        return BadDb;
      }
      if delete.StepFailed? {
        return CantWrite;
      }
      var changes := DeletePath(path);
      if changes == 0 {
        return FileNotFound;
      }
      assert (set k | k in old(keys) && k.path == path) == (set k | k in old(State()).keys && k.path == path);
      status := Success;
    }

    method DbDeleteKeyTree(path: CText, delete: Outcome) returns (status: Status)
      requires Valid()
      modifies this
      ensures Valid() && isOpen == old(isOpen)
      ensures !isOpen ==> status == InvalidParameter && State() == old(State())
      ensures isOpen ==> (State(), status) == DeleteTree(old(State()), path, delete)
    {
      if !isOpen {
        return InvalidParameter;
      }
      if delete.NotPrepared? {
        return BadDb;
      }
      if delete.StepFailed? {
        return CantWrite;
      }
      var gone := set k | k in keys && TreeSelects(path, k.path);
      assert gone == set k | k in State().keys && TreeSelects(path, k.path);
      RemoveRows(gone);
      status := Success;
    }

    /** INSERT OR REPLACE. */
    method ReplaceRow(row: ValueRow)
      modifies this`vals
      ensures State() == Replace(old(State()), row)
    {
      ghost var target := Replace(State(), row);
      vals := (set v | v in vals && !(v.keyId == row.keyId && v.name == row.name)) + {row};
      assert vals == target.vals;
    }

    /** UPDATE ... SET modified_time. */
    method TouchRow(keyId: int, now: int)
      modifies this`keys
      ensures State() == Touch(old(State()), keyId, now)
    {
      ghost var target := Touch(State(), keyId, now);
      keys := set k | k in keys :: Touched(k, keyId, now);
      assert keys == target.keys;
    }

    /** data and size as the caller gave them; a NULL name is the empty name. */
    method DbSetValue(keyId: int, name: Option<CText>, kind: DWord, data: Option<Blob>, size: DWord,
                      now: int, insert: Outcome, touch: Outcome) returns (status: Status)
      requires Valid()
      requires size < 0x8000_0000 && (data.Some? ==> |data.value| == size)
      modifies this
      ensures Valid() && isOpen == old(isOpen)
      ensures !isOpen ==> status == InvalidParameter && State() == old(State())
      ensures var row := ValueRow(keyId, NameOf(name), kind, data, size);
              isOpen ==> (State(), status) == SetValue(old(State()), row, now, insert, touch)
    {
      if !isOpen {
        return InvalidParameter;
      }
      var row := ValueRow(keyId, NameOf(name), kind, data, size);
      SetValueKeepsInv(State(), row, now, insert, touch);
      ghost var target := SetValue(State(), row, now, insert, touch).0;
      if insert.NotPrepared? {
        return BadDb;
      }
      if insert.StepFailed? || !exists k :: k in keys && k.id == keyId {
        return CantWrite;
      }
      ReplaceRow(row);
      if touch.Ran? {
        TouchRow(keyId, now);
      }
      assert State() == target;
      status := Success;
    }

    /** On success the value's bytes are at the start of the buffer; on MORE_DATA
        only the size and the kind are reported. */
    method DbQueryValue(keyId: int, name: Option<CText>, data: array?<Octet>, capacity: DWord, select: Outcome)
      returns (status: Status, kind: Option<DWord>, size: DWord)
      requires Valid()
      requires data != null ==> capacity <= data.Length
      modifies data
      ensures (status, kind, size) ==
              if isOpen then QueryAnswer(State(), keyId, NameOf(name), select, data != null, capacity)
              else (InvalidParameter, None, capacity)
      ensures data != null ==>
                data[..] == if status == Success then Filled(old(data[..]), FoundData(State(), keyId, NameOf(name)))
                            else old(data[..])
    {
      kind, size := None, capacity;
      if !isOpen {
        return InvalidParameter, kind, size;
      }
      if select.NotPrepared? {
        return BadDb, kind, size;
      }
      var wanted := NameOf(name);
      if select.StepFailed? || !exists v :: v in vals && v.keyId == keyId && v.name == wanted {
        return FileNotFound, kind, size;
      }
      var row :| row in vals && row.keyId == keyId && row.name == wanted;
      assert ValueAt(State(), keyId, wanted) == row;
      kind := Some(row.kind);
      size := row.size;
      if data == null || capacity < row.size {
        return MoreData, kind, size;
      }
      if row.data.Some? {
        CopyBlob(data, row.data.value);
      }
      status := Success;
    }

    method DbDeleteValue(keyId: int, name: Option<CText>, delete: Outcome) returns (status: Status)
      requires Valid()
      modifies this
      ensures Valid() && isOpen == old(isOpen)
      ensures !isOpen ==> status == InvalidParameter && State() == old(State())
      ensures isOpen ==> (State(), status) == DeleteValue(old(State()), keyId, NameOf(name), delete)
    {
      if !isOpen {
        return InvalidParameter;
      }
      var wanted := NameOf(name);
      DeleteValueKeepsInv(State(), keyId, wanted, delete);
      ghost var before, target := State(), DeleteValue(State(), keyId, wanted, delete).0;
      if delete.NotPrepared? {
        return BadDb;
      }
      if delete.StepFailed? {
        return CantWrite;
      }
      var gone := set v | v in vals && v.keyId == keyId && v.name == wanted;
      var changes := |gone|;
      assert changes > 0 <==> gone != {};
      assert HasValue(before, keyId, wanted) ==> ValueAt(before, keyId, wanted) in gone;
      assert HasValue(before, keyId, wanted) <==> changes > 0;
      vals := vals - gone;
      assert vals == target.vals;
      if changes == 0 {
        return FileNotFound;
      }
      status := Success;
    }

    method SelectValue(keyId: int, index: nat) returns (row: Option<ValueRow>)
      requires UniqueNames(State())
      ensures row == ValueAtIndex(State(), keyId, index)
      ensures row.Some? ==> row.value in vals && row.value.keyId == keyId
    {
      var rows := ValuesOf(Tables(keys, vals, nextId), keyId);
      if index >= |rows| {
        return None;
      }
      ValueNamesAreKeys(State(), keyId);
      RankIsIndex(rows, NameOfRow, index);
      var v :| v in rows && Rank(rows, NameOfRow, v) == index;
      RankDetermines(rows, NameOfRow, v);
      row := Some(v);
    }

    method SelectSubkey(path: CText, index: nat) returns (row: Option<KeyRow>)
      requires UniquePaths(State())
      ensures row == SubkeyAtIndex(State(), path, index)
    {
      var rows := SubkeysOf(Tables(keys, vals, nextId), path);
      if index >= |rows| {
        return None;
      }
      SubkeyPathsAreKeys(State(), path);
      RankIsIndex(rows, PathOfRow, index);
      var k :| k in rows && Rank(rows, PathOfRow, k) == index;
      RankDetermines(rows, PathOfRow, k);
      row := Some(k);
    }

    method SelectRow(keyId: int, index: nat, select: Outcome) returns (status: Status, row: Option<ValueRow>)
      requires UniqueNames(State())
      ensures (status, row) == FetchRow(State(), keyId, index, select)
      ensures row.Some? <==> status == Success
      ensures row.Some? ==> row.value in vals && row.value.keyId == keyId
    {
      row := None;
      if select.NotPrepared? {
        return BadDb, row;
      }
      if select.StepFailed? {
        return NoMoreItems, row;
      }
      row := SelectValue(keyId, index);
      status := if row.None? then NoMoreItems else Success;
    }

    method DbEnumerateValues(keyId: int, index: nat, name: array?<Octet>, nameLen: DWord,
                             data: array?<Octet>, dataSize: Option<DWord>, select: Outcome)
      returns (status: Status, nameOut: nat, kind: Option<DWord>, sizeOut: Option<nat>)
      requires UniqueNames(State()) && SizedBlobs(State()) && index < 0x8000_0000
      requires name != null ==> nameLen <= name.Length && name != data
      requires data != null && dataSize.Some? ==> dataSize.value <= data.Length
      modifies name, data
      ensures var fetched := if isOpen && name != null then FetchRow(State(), keyId, index, select)
                             else (InvalidParameter, None);
              && (status, nameOut, kind, sizeOut) == ValueAnswer(fetched, nameLen, data != null, dataSize)
              && (name != null ==> name[..] == NameBuffer(old(name[..]), RowName(fetched.1), nameLen))
              && (data != null ==>
                    data[..] == DataBuffer(old(data[..]), fetched.1, status == Success && dataSize.Some?))
    {
      if !isOpen || name == null {
        return InvalidParameter, nameLen, None, dataSize;
      }
      var row;
      status, row := SelectRow(keyId, index, select);
      if row.None? {
        return status, nameLen, None, dataSize;
      }
      status, nameOut, kind, sizeOut := WriteValue(row.value, name, nameLen, data, dataSize);
    }

    /** The parent is found by id; its path as stored makes the patterns. */
    method SelectChild(parentId: int, index: nat, find: Outcome, select: Outcome, ghost t: Tables)
      returns (status: Status, row: Option<KeyRow>)
      requires t == State() && UniquePaths(t) && UniqueIds(t)
      ensures (status, row) == FetchSubkey(t, parentId, index, find, select)
      ensures row.Some? <==> status == Success
    {
      row := None;
      if find.NotPrepared? {
        return BadDb, row;
      }
      if find.StepFailed? || !exists k :: k in keys && k.id == parentId {
        return InvalidHandle, row;
      }
      var parent :| parent in keys && parent.id == parentId;
      assert parent == KeyById(State(), parentId);
      if select.NotPrepared? {
        return BadDb, row;
      }
      if select.StepFailed? {
        return NoMoreItems, row;
      }
      row := SelectSubkey(parent.path, index);
      status := if row.None? then NoMoreItems else Success;
    }

    /** db_enumerate_keys behind its checks. */
    method EnumerateKeys(parentId: int, index: nat, name: array<Octet>, nameLen: DWord,
                         cls: array?<Octet>, classLen: Option<DWord>, find: Outcome, select: Outcome, ghost t: Tables)
      returns (status: Status, nameOut: nat, classOut: Option<DWord>, lastWrite: Option<FileTime>)
      requires t == State() && UniquePaths(t) && UniqueIds(t)
      requires nameLen <= name.Length && name != cls
      requires cls != null && classLen.Some? ==> classLen.value <= cls.Length
      modifies name, cls
      ensures var fetched := FetchSubkey(t, parentId, index, find, select);
              && (status, nameOut, lastWrite) == SubkeyAnswer(fetched, nameLen)
              && name[..] == NameBuffer(old(name[..]), SubkeyName(fetched.1), nameLen)
      ensures classOut == ClassLength(cls != null, classLen, status)
      ensures cls != null ==> cls[..] == ClassBuffer(old(cls[..]), classLen, status)
    {
      var row;
      status, row := SelectChild(parentId, index, find, select, t);
      if row.None? {
        return status, nameLen, classLen, None;
      }
      var keyName := LastComponent(row.value.path);
      status, nameOut, classOut, lastWrite := WriteSubkey(keyName, row.value.mtime, name, nameLen, cls, classLen);
    }

    method DbEnumerateKeys(parentId: int, index: nat, name: array?<Octet>, nameLen: DWord,
                           cls: array?<Octet>, classLen: Option<DWord>, find: Outcome, select: Outcome)
      returns (status: Status, nameOut: nat, classOut: Option<DWord>, lastWrite: Option<FileTime>)
      requires Valid() && index < 0x8000_0000
      requires name != null ==> nameLen <= name.Length && name != cls
      requires cls != null && classLen.Some? ==> classLen.value <= cls.Length
      modifies name, cls
      ensures var fetched := if isOpen && name != null then FetchSubkey(State(), parentId, index, find, select)
                             else (InvalidParameter, None);
              && (status, nameOut, lastWrite) == SubkeyAnswer(fetched, nameLen)
              && (name != null ==> name[..] == NameBuffer(old(name[..]), SubkeyName(fetched.1), nameLen))
      ensures classOut == ClassLength(cls != null, classLen, status)
      ensures cls != null ==> cls[..] == ClassBuffer(old(cls[..]), classLen, status)
    {
      if !isOpen || name == null {
        return InvalidParameter, nameLen, classLen, None;
      }
      status, nameOut, classOut, lastWrite :=
        EnumerateKeys(parentId, index, name, nameLen, cls, classLen, find, select, State());
    }

    /** COUNT(*) and MAX(LENGTH(SUBSTR(...))) over the subkeys. */
    method CountSubkeys(path: CText) returns (count: nat, longest: nat)
      ensures count == |SubkeysOf(State(), path)| && longest == MaxOf(SubkeyLengths(State(), path))
    {
      var rows := SubkeysOf(Tables(keys, vals, nextId), path);
      var lengths := set k | k in rows :: SubkeyLength(path, k.path);
      assert lengths == SubkeyLengths(State(), path);
      count := |rows|;
      longest := Maximum(lengths);
    }

    /** COUNT(*), MAX(LENGTH(name)) and MAX(data_size) over the values. */
    method CountValues(keyId: int) returns (count: nat, longest: nat, largest: nat)
      ensures count == |ValuesOf(State(), keyId)|
      ensures longest == MaxNameChars(State(), keyId) && largest == MaxValueSize(State(), keyId)
    {
      var rows := ValuesOf(Tables(keys, vals, nextId), keyId);
      var names := set v | v in rows :: |Chars(v.name)|;
      var sizes := set v | v in rows :: v.size as nat;
      assert names == NameLengths(State(), keyId);
      assert sizes == DataSizes(State(), keyId);
      count := |rows|;
      longest := Maximum(names);
      largest := Maximum(sizes);
    }

    method DbQueryKeyInfo(keyId: int, find: Outcome, subkeys: Outcome, classes: Outcome, values: Outcome)
      returns (status: Status, info: Option<Info>)
      requires Valid()
      ensures (status, info) == if isOpen then InfoAnswer(State(), keyId, find, subkeys, classes, values)
                                else (InvalidParameter, None)
    {
      info := None;
      if !isOpen {
        return InvalidParameter, info;
      }
      if find.NotPrepared? {
        return BadDb, info;
      }
      if find.StepFailed? || !exists k :: k in keys && k.id == keyId {
        return InvalidHandle, info;
      }
      var key :| key in keys && key.id == keyId;
      assert key == KeyById(State(), keyId);
      var sub, val := None, None;
      if subkeys.Ran? {
        var count, longest := CountSubkeys(key.path);
        sub := Some((count, longest));
      }
      if values.Ran? {
        var count, longest, largest := CountValues(keyId);
        val := Some((count, longest, largest));
      }
      info := Some(Info(sub, if classes.Ran? then Some(0) else None, val, Convert(key.mtime)));
      status := Success;
    }

    // ---- Callers' loops -----------------------------------------------------

    /** One call with buffers large enough, and what the caller reads out of them. */
    method ReadEntry(keyId: int, index: nat, name: array<Octet>, data: array<Octet>) returns (entry: Option<Entry>)
      requires UniqueNames(State()) && SizedBlobs(State()) && isOpen && index < 0x8000_0000
      requires name != data && name.Length < 0x1_0000_0000 && data.Length < 0x1_0000_0000
      requires Fit(State(), keyId, name.Length, data.Length)
      modifies name, data
      ensures entry.None? <==> index >= |ValueListing(State(), keyId)|
      ensures entry.Some? ==> IsCopy(entry.value, ValueListing(State(), keyId)[index])
    {
      ghost var before := name[..];
      FittingAnswer(State(), keyId, index, name.Length, data.Length);
      var status, nameLen, kind, size :=
        DbEnumerateValues(keyId, index, name, name.Length, data, Some(data.Length), Ran);
      if status == NoMoreItems {
        return None;
      }
      ghost var v := ValueListing(State(), keyId)[index];
      WrittenIsHeld(name, before, v.name);
      var made := MakeEntry(name, nameLen, kind.value, data, size.value, v);
      entry := Some(made);
    }

    /** Index 0, 1, 2, ... until NO_MORE_ITEMS, with buffers large enough for every
        value: all values of the key, once each, in order. */
    method EnumerateAll(keyId: int, nameRoom: DWord, dataRoom: DWord) returns (listing: seq<Entry>)
      requires UniqueNames(State()) && SizedBlobs(State()) && isOpen
      requires |ValueListing(State(), keyId)| < 0x7FFF_FFFF
      requires Fit(State(), keyId, nameRoom, dataRoom)
      ensures |listing| == |ValuesOf(State(), keyId)|
      ensures AreCopies(listing, ValueListing(State(), keyId))
    {
      listing := [];
      var name := new Octet[nameRoom];
      var data := new Octet[dataRoom];
      ghost var t := State();
      ghost var rows := ValueListing(t, keyId);
      while true
        invariant State() == t
        invariant AreCopies(listing, rows)
        decreases |rows| - |listing|
      {
        var entry := ReadEntry(keyId, |listing|, name, data);
        if entry.None? {
          return;
        }
        OneMoreCopy(listing, rows, entry.value);
        listing := listing + [entry.value];
      }
    }

    /** A caller who allocates what the last call asked for and calls again: done
        after exactly CallsNeeded calls, at most four. */
    method EnumerateWithRetry(keyId: int, index: nat, nameRoom: DWord, dataRoom: DWord)
      returns (name: array<Octet>, data: array<Octet>, calls: nat)
      requires UniqueNames(State()) && SizedBlobs(State()) && isOpen && index < 0x8000_0000
      requires index < |ValueListing(State(), keyId)| && |ValueListing(State(), keyId)[index].name| < 0xFFFF_FFFF
      ensures var v := ValueListing(State(), keyId)[index];
              && calls == CallsNeeded(v, nameRoom, true, Some(dataRoom)) <= 4
              && Holds(name, v.name)
              && (v.data.Some? ==> v.data.value <= data[..])
    {
      ghost var v := ValueListing(State(), keyId)[index];
      ListedValue(State(), keyId, index);
      assert FetchRow(State(), keyId, index, Ran) == (Success, Some(v));
      var nameLen: DWord, dataSize: DWord := nameRoom, dataRoom;
      calls := 0;
      while true
        invariant calls + CallsNeeded(v, nameLen, true, Some(dataSize)) ==
                  CallsNeeded(v, nameRoom, true, Some(dataRoom))
        decreases CallsNeeded(v, nameLen, true, Some(dataSize))
      {
        name := new Octet[nameLen];
        data := new Octet[dataSize];
        ghost var before := name[..];
        RetryProgress(v, nameLen, true, Some(dataSize));
        var status, nameOut, kind, sizeOut := DbEnumerateValues(keyId, index, name, nameLen, data, Some(dataSize), Ran);
        calls := calls + 1;
        if status == Success {
          WrittenIsHeld(name, before, v.name);
          return;
        }
        nameLen, dataSize := nameOut, sizeOut.value;
      }
    }
  }
}
