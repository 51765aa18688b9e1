/** winreg.c: the calls a program makes, each a sequence of backend calls over
    the handle records. */
module Api {
  import opened Text
  import opened Paths
  import opened Tables
  import opened Runs
  import opened Enumeration
  import opened FileTimes
  import opened Boot
  import opened Answers
  import opened Calls
  import opened KeyLaws
  import opened ValueLaws
  import opened ListLaws
  import opened Backend
  import opened Wide

  /** utf8_to_wchar and wcsncpy, as the wide enumerations use them. */
  method Widen(name: CText, wideName: array<Wchar>, room: nat, iconvOpens: bool)
    requires |name| < room <= wideName.Length
    modifies wideName
    ensures IsWidened(wideName, room, name, iconvOpens)
  {
    var wide := Utf8ToWchar(name, iconvOpens);
    Wcsncpy(wideName, wide, room, WideOf(name, iconvOpens));
  }

  /** The buffer holds the decoded name and its terminator within room. */
  ghost predicate IsWidened(wideName: array<Wchar>, room: nat, name: CText, iconvOpens: bool)
    reads wideName
  {
    var w := WideOf(name, iconvOpens);
    |w| < room <= wideName.Length && wideName[..|w|] == w && wideName[|w|] == 0
  }

  /** A call that succeeds had its row, and room for its name. */
  lemma FetchedRowFits(fetched: (Status, Option<ValueRow>), nameLen: nat, hasData: bool, dataSize: Option<nat>)
    requires fetched.1.Some? ==> fetched.0 == Success
    requires fetched.1.None? ==> fetched.0 != Success
    ensures ValueAnswer(fetched, nameLen, hasData, dataSize).0 == Success ==>
              && fetched.1.Some? && |fetched.1.value.name| < nameLen
              && ValueAnswer(fetched, nameLen, hasData, dataSize).1 == |fetched.1.value.name|
  {
  }

  /** The bytes of a buffer, none when there is no buffer. */
  ghost function Bytes(buffer: array?<Octet>): seq<Octet>
    reads buffer
  {
    if buffer == null then [] else buffer[..]
  }

  class Registry {
    const db: Database
    var initialized: bool
    var handles: map<HKey, Handle>

    ghost function View(): World
      reads this, db
    {
      World(db.State(), handles, map[])
    }

    ghost predicate Valid()
      reads this, db
    {
      && db.Valid()
      && initialized == db.isOpen
      && WorldInv(View())
    }

    constructor (stored: Tables)
      requires Inv(stored)
      ensures Valid() && fresh(db) && View() == World(stored, map[], map[]) && !initialized
    {
      db := new Database(stored);
      initialized, handles := false, map[];
    }

    method EnsureInitialized(e: InitEnv) returns (status: Status)
      requires Valid() && IsInitEnv(e)
      modifies this, db
      ensures Valid() && handles == old(handles)
      ensures (View(), status) == Ready(old(View()), old(initialized), e)
      ensures BootLaw(old(View()), old(initialized), e, View(), status)
      ensures initialized == (status == Success)
    {
      BootLawHolds(View(), initialized, e);
      if initialized {
        return Success;
      }
      ghost var before := View();
      status := db.Init(e.opens, e.schemaRuns, e.now, e.selects, e.inserts);
      if status == Success {
        initialized := true;
      }
      BootKeepsInv(before, e);
    }

    /** build_full_path: through a buffer of exactly the right size. */
    method BuildPath(h: HKey, sub: Option<CText>) returns (path: Option<CText>)
      ensures path == if BasePath(View(), h).None? then None else Some(FullPath(BasePath(View(), h).value, sub))
    {
      var rootName;
      if PredefinedKeyName(h).Some? {
        rootName := PredefinedKeyName(h).value;
      } else if h in handles {
        rootName := handles[h].path;
      } else {
        return None;
      }
      var buffer := BuildFullPath(rootName, sub);
      var text := CString(buffer, buffer.Length - 1, FullPath(rootName, sub));
      path := Some(text);
    }

    /** create_registry_handle and the store through phkResult. */
    method GrantHandle(id: int, path: CText, ptr: HKey) returns (status: Status, result: Option<HKey>)
      modifies this`handles
      ensures handles == if ptr == 0 then old(handles) else old(handles)[ptr := Handle(id, path)]
      ensures status == (if ptr == 0 then NotEnoughMemory else Success)
      ensures result == if ptr == 0 then None else Some(ptr)
    {
      if ptr == 0 {
        return NotEnoughMemory, None;
      }
      handles := handles[ptr := Handle(id, path)];
      status, result := Success, Some(ptr);
    }

    /** RegOpenKeyExA once the library is initialised. */
    method OpenAt(h: HKey, sub: Option<CText>, ptr: HKey, select: Outcome)
      returns (status: Status, result: Option<HKey>)
      requires Valid() && initialized && IsFresh(View(), ptr)
      modifies this, db
      ensures Valid() && initialized
      ensures (View(), status) == Step(old(View()), Open(h, sub, ptr, select))
      ensures result == if status == Success then Some(ptr) else None
    {
      result := None;
      StepKeepsInv(View(), Open(h, sub, ptr, select));
      var path := BuildPath(h, sub);
      if path.None? {
        return InvalidHandle, result;
      }
      var keyId;
      status, keyId := db.DbOpenKey(path.value, select);
      if status == Success {
        status, result := GrantHandle(keyId, path.value, ptr);
      }
    }

    method RegOpenKeyExA(h: HKey, sub: Option<CText>, wantsResult: bool, ptr: HKey, select: Outcome, e: InitEnv)
      returns (status: Status, result: Option<HKey>)
      requires Valid() && IsInitEnv(e) && IsFresh(View(), ptr)
      modifies this, db
      ensures Valid() && (old(initialized) ==> initialized)
      ensures !wantsResult ==> status == InvalidParameter && View() == old(View())
      ensures wantsResult ==> (View(), status) == CallStep(old(View()), old(initialized), e, Open(h, sub, ptr, select))
      ensures wantsResult ==>
                var (b, ready) := Ready(old(View()), old(initialized), e);
                if ready != Success then (View(), status) == (b, ready)
                else OpenLaw(b, h, sub, ptr, select, View(), status)
      ensures result == if status == Success then Some(ptr) else None
    {
      if !wantsResult {
        return InvalidParameter, None;
      }
      status := EnsureInitialized(e);
      if status != Success {
        return status, None;
      }
      OpenLawHolds(View(), h, sub, ptr, select);
      status, result := OpenAt(h, sub, ptr, select);
    }

    /** RegCreateKeyExA once the library is initialised. */
    method CreateAt(h: HKey, sub: Option<CText>, options: DWord, now: int, ptr: HKey, select: Outcome, insert: Outcome)
      returns (status: Status, result: Option<HKey>, created: bool)
      requires Valid() && initialized && IsFresh(View(), ptr)
      modifies this, db
      ensures Valid() && initialized
      ensures (View(), status) == Step(old(View()), Create(h, sub, options, now, ptr, select, insert))
      ensures result == if status == Success then Some(ptr) else None
      ensures status == Success ==>
                BasePath(old(View()), h).Some? &&
                (created <==> !HasPath(old(db.State()), FullPath(BasePath(old(View()), h).value, sub)))
    {
      result, created := None, false;
      StepKeepsInv(View(), Create(h, sub, options, now, ptr, select, insert));
      BasePathIsRooted(View(), h);
      var path := BuildPath(h, sub);
      if path.None? {
        return InvalidHandle, result, created;
      }
      FullPathIsRooted(BasePath(View(), h).value, sub);
      var keyId, disposition;
      status, keyId, disposition := db.DbCreateKey(path.value, options, now, select, insert);
      if status == Success {
        status, result := GrantHandle(keyId, path.value, ptr);
        created := result.Some? && disposition;
      }
    }

    method RegCreateKeyExA(h: HKey, sub: Option<CText>, options: DWord, wantsResult: bool, now: int, ptr: HKey,
                           select: Outcome, insert: Outcome, e: InitEnv)
      returns (status: Status, result: Option<HKey>, created: bool)
      requires Valid() && IsInitEnv(e) && IsFresh(View(), ptr)
      modifies this, db
      ensures Valid() && (old(initialized) ==> initialized)
      ensures !wantsResult ==> status == InvalidParameter && View() == old(View())
      ensures wantsResult ==>
                (View(), status) ==
                CallStep(old(View()), old(initialized), e, Create(h, sub, options, now, ptr, select, insert))
      ensures wantsResult ==>
                var (b, ready) := Ready(old(View()), old(initialized), e);
                if ready != Success then (View(), status) == (b, ready)
                else
                  && CreateLaw(b, h, sub, options, now, ptr, select, insert, View(), status)
                  && (status == Success ==> forall q :: Names(b, h, sub, q) ==> (created <==> !HasPath(b.t, q)))
      ensures result == if status == Success then Some(ptr) else None
    {
      if !wantsResult {
        return InvalidParameter, None, false;
      }
      status := EnsureInitialized(e);
      if status != Success {
        return status, None, false;
      }
      ghost var b := View();
      CreateLawHolds(b, h, sub, options, now, ptr, select, insert);
      status, result, created := CreateAt(h, sub, options, now, ptr, select, insert);
      forall q | Names(b, h, sub, q) ensures status == Success ==> (created <==> !HasPath(b.t, q)) {
        NamesIff(b, h, sub, q);
      }
    }

    method RegCloseKey(h: HKey) returns (status: Status)
      requires Valid()
      modifies this`handles
      ensures Valid()
      ensures (View(), status) == Step(old(View()), Close(h))
      ensures CloseLaw(old(View()), h, View(), status)
    {
      StepKeepsInv(View(), Close(h));
      CloseLawHolds(View(), h);
      if h == 0 {
        return InvalidHandle;
      }
      if PredefinedKeyName(h).Some? {
        assert handles - {h} == handles;
        return Success;
      }
      handles := handles - {h};
      status := Success;
    }

    /** RegDeleteKeyA once the library is initialised. */
    method DeleteAt(h: HKey, sub: Option<CText>, count: Outcome, delete: Outcome) returns (status: Status)
      requires Valid() && initialized
      modifies db
      ensures Valid() && initialized
      ensures (View(), status) == Step(old(View()), Delete(h, sub, count, delete))
    {
      StepKeepsInv(View(), Delete(h, sub, count, delete));
      var path := BuildPath(h, sub);
      if path.None? {
        return InvalidHandle;
      }
      status := db.DbDeleteKey(path.value, count, delete);
    }

    method RegDeleteKeyA(h: HKey, sub: Option<CText>, count: Outcome, delete: Outcome, e: InitEnv)
      returns (status: Status)
      requires Valid() && IsInitEnv(e)
      modifies this, db
      ensures Valid() && (old(initialized) ==> initialized)
      ensures (View(), status) == CallStep(old(View()), old(initialized), e, Delete(h, sub, count, delete))
      ensures var (b, ready) := Ready(old(View()), old(initialized), e);
              if ready != Success then (View(), status) == (b, ready)
              else DeleteLaw(b, h, sub, count, delete, View(), status)
    {
      status := EnsureInitialized(e);
      if status != Success {
        return status;
      }
      DeleteLawHolds(View(), h, sub, count, delete);
      status := DeleteAt(h, sub, count, delete);
    }

    /** RegDeleteTreeA once the library is initialised. */
    method DeleteTreeAt(h: HKey, sub: Option<CText>, delete: Outcome) returns (status: Status)
      requires Valid() && initialized
      modifies db
      ensures Valid() && initialized
      ensures (View(), status) == Step(old(View()), DeleteSubtree(h, sub, delete))
    {
      StepKeepsInv(View(), DeleteSubtree(h, sub, delete));
      var path := BuildPath(h, sub);
      if path.None? {
        return InvalidHandle;
      }
      status := db.DbDeleteKeyTree(path.value, delete);
    }

    method RegDeleteTreeA(h: HKey, sub: Option<CText>, delete: Outcome, e: InitEnv) returns (status: Status)
      requires Valid() && IsInitEnv(e)
      modifies this, db
      ensures Valid() && (old(initialized) ==> initialized)
      ensures (View(), status) == CallStep(old(View()), old(initialized), e, DeleteSubtree(h, sub, delete))
      ensures var (b, ready) := Ready(old(View()), old(initialized), e);
              if ready != Success then (View(), status) == (b, ready)
              else TreeLaw(b, h, sub, delete, View(), status)
    {
      status := EnsureInitialized(e);
      if status != Success {
        return status;
      }
      TreeLawHolds(View(), h, sub, delete);
      status := DeleteTreeAt(h, sub, delete);
    }

    /** The key id behind a handle; a predefined one is opened by its name. */
    method ResolveKey(h: HKey, select: Outcome) returns (status: Status, keyId: int)
      requires Valid() && initialized
      ensures (status, keyId) == ResolvedKey(View(), h, select)
    {
      keyId := 0;
      if PredefinedKeyName(h).Some? {
        status, keyId := db.DbOpenKey(PredefinedKeyName(h).value, select);
      } else if h in handles {
        status, keyId := Success, handles[h].keyId;
      } else {
        status := InvalidHandle;
      }
    }

    /** RegSetValueExA once the library is initialised. */
    method SetAt(h: HKey, name: Option<CText>, kind: DWord, data: Option<Blob>, size: DWord, now: int,
                 select: Outcome, insert: Outcome, touch: Outcome) returns (status: Status)
      requires Valid() && initialized
      requires size < 0x8000_0000 && (data.Some? ==> |data.value| == size)
      modifies db
      ensures Valid() && initialized
      ensures (db.State(), status) ==
              SetCall(old(View()), h, select, name, kind, data, size, now, insert, touch)
    {
      ghost var w := View();
      SetCallKeepsInv(w, h, select, name, kind, data, size, now, insert, touch);
      SetCallResolves(w, h, select, name, kind, data, size, now, insert, touch);
      ghost var after := SetCall(w, h, select, name, kind, data, size, now, insert, touch);
      var keyId;
      status, keyId := ResolveKey(h, select);
      if status == Success {
        status := db.DbSetValue(keyId, name, kind, data, size, now, insert, touch);
      }
      assert (db.State(), status) == after;
    }

    method RegSetValueExA(h: HKey, name: Option<CText>, kind: DWord, data: Option<Blob>, size: DWord, now: int,
                          select: Outcome, insert: Outcome, touch: Outcome, e: InitEnv) returns (status: Status)
      requires Valid() && IsInitEnv(e)
      requires size < 0x8000_0000 && (data.Some? ==> |data.value| == size)
      modifies this, db
      ensures Valid() && (old(initialized) ==> initialized) && handles == old(handles)
      ensures var (b, ready) := Ready(old(View()), old(initialized), e);
              if ready != Success then (View(), status) == (b, ready)
              else
                && (db.State(), status) == SetCall(b, h, select, name, kind, data, size, now, insert, touch)
                && SetLaw(b, h, select, name, kind, data, size, now, insert, touch, db.State(), status)
    {
      status := EnsureInitialized(e);
      if status != Success {
        return status;
      }
      SetLawHolds(View(), h, select, name, kind, data, size, now, insert, touch);
      status := SetAt(h, name, kind, data, size, now, select, insert, touch);
    }

    /** RegDeleteValueA once the library is initialised. */
    method UnsetAt(h: HKey, name: Option<CText>, select: Outcome, delete: Outcome) returns (status: Status)
      requires Valid() && initialized
      modifies db
      ensures Valid() && initialized
      ensures (db.State(), status) == UnsetCall(old(View()), h, select, name, delete)
    {
      ghost var w := View();
      UnsetCallKeepsInv(w, h, select, name, delete);
      UnsetCallResolves(w, h, select, name, delete);
      ghost var after := UnsetCall(w, h, select, name, delete);
      var keyId;
      status, keyId := ResolveKey(h, select);
      if status == Success {
        status := db.DbDeleteValue(keyId, name, delete);
      }
      assert (db.State(), status) == after;
    }

    method RegDeleteValueA(h: HKey, name: Option<CText>, select: Outcome, delete: Outcome, e: InitEnv)
      returns (status: Status)
      requires Valid() && IsInitEnv(e)
      modifies this, db
      ensures Valid() && (old(initialized) ==> initialized) && handles == old(handles)
      ensures var (b, ready) := Ready(old(View()), old(initialized), e);
              if ready != Success then (View(), status) == (b, ready)
              else
                && (db.State(), status) == UnsetCall(b, h, select, name, delete)
                && UnsetLaw(b, h, select, name, delete, db.State(), status)
    {
      status := EnsureInitialized(e);
      if status != Success {
        return status;
      }
      UnsetLawHolds(View(), h, select, name, delete);
      status := UnsetAt(h, name, select, delete);
    }

    /** RegQueryValueExA once the library is initialised. */
    method QueryAt(h: HKey, name: Option<CText>, data: array?<Octet>, capacity: DWord, select: Outcome, query: Outcome)
      returns (status: Status, kind: Option<DWord>, size: DWord)
      requires Valid() && initialized
      requires data != null ==> capacity <= data.Length
      modifies data
      ensures var (answer, found) := Asked(View(), h, select, query, NameOf(name), data != null, capacity);
              && (status, kind, size) == answer
              && Bytes(data) == if status == Success then Filled(old(Bytes(data)), found) else old(Bytes(data))
    {
      var keyId;
      status, keyId := ResolveKey(h, select);
      if status != Success {
        return status, None, capacity;
      }
      status, kind, size := db.DbQueryValue(keyId, name, data, capacity, query);
    }

    /** A NULL size pointer is refused; capacity is what it points to. */
    method RegQueryValueExA(h: HKey, name: Option<CText>, data: array?<Octet>, capacity: Option<DWord>,
                            select: Outcome, query: Outcome, e: InitEnv)
      returns (status: Status, kind: Option<DWord>, size: DWord)
      requires Valid() && IsInitEnv(e)
      requires data != null && capacity.Some? ==> capacity.value <= data.Length
      modifies this, db, data
      ensures Valid() && (old(initialized) ==> initialized) && handles == old(handles)
      ensures capacity.None? ==>
                && status == InvalidParameter && View() == old(View())
                && kind == None && size == 0 && Bytes(data) == old(Bytes(data))
      ensures capacity.Some? ==>
                var (b, ready) := Ready(old(View()), old(initialized), e);
                && View() == b
                && if ready != Success then
                     status == ready && kind == None && size == capacity.value && Bytes(data) == old(Bytes(data))
                   else
                     QueryLaw(b, h, select, name, data != null, capacity.value, query, status, kind, size,
                              old(Bytes(data)), Bytes(data))
    {
      if capacity.None? {
        return InvalidParameter, None, 0;
      }
      status := EnsureInitialized(e);
      if status != Success {
        return status, None, capacity.value;
      }
      QueryLawHolds(View(), h, select, name, data != null, capacity.value, query, Bytes(data));
      status, kind, size := QueryAt(h, name, data, capacity.value, select, query);
    }

    /** RegEnumValueA once the library is initialised. */
    method EnumValueAt(h: HKey, index: nat, name: array<Octet>, nameLen: DWord, data: array?<Octet>,
                       dataSize: Option<DWord>, select: Outcome, fetch: Outcome)
      returns (status: Status, nameOut: nat, kind: Option<DWord>, sizeOut: Option<nat>)
      requires Valid() && initialized && index < 0x8000_0000
      requires nameLen <= name.Length && name != data
      requires data != null && dataSize.Some? ==> dataSize.value <= data.Length
      modifies name, data
      ensures var fetched := FetchedValue(View(), h, select, fetch, index);
              && (status, nameOut, kind, sizeOut) == ValueAnswer(fetched, nameLen, data != null, dataSize)
              && name[..] == NameBuffer(old(name[..]), RowName(fetched.1), nameLen)
              && Bytes(data) == DataBuffer(old(Bytes(data)), fetched.1,
                                           data != null && status == Success && dataSize.Some?)
    {
      var keyId;
      status, keyId := ResolveKey(h, select);
      if status != Success {
        return status, nameLen, None, dataSize;
      }
      status, nameOut, kind, sizeOut := db.DbEnumerateValues(keyId, index, name, nameLen, data, dataSize, fetch);
    }

    method RegEnumValueA(h: HKey, index: nat, name: array?<Octet>, nameLen: Option<DWord>, data: array?<Octet>,
                         dataSize: Option<DWord>, select: Outcome, fetch: Outcome, e: InitEnv)
      returns (status: Status, nameOut: nat, kind: Option<DWord>, sizeOut: Option<nat>)
      requires Valid() && IsInitEnv(e) && index < 0x8000_0000
      requires name != null && nameLen.Some? ==> nameLen.value <= name.Length && name != data
      requires data != null && dataSize.Some? ==> dataSize.value <= data.Length
      modifies this, db, name, data
      ensures Valid() && (old(initialized) ==> initialized) && handles == old(handles)
      ensures name == null || nameLen.None? ==>
                && status == InvalidParameter && View() == old(View()) && kind == None && sizeOut == dataSize
                && Bytes(name) == old(Bytes(name)) && Bytes(data) == old(Bytes(data))
      ensures name != null && nameLen.Some? ==>
                var (b, ready) := Ready(old(View()), old(initialized), e);
                && View() == b
                && if ready != Success then
                     && status == ready && nameOut == nameLen.value && kind == None && sizeOut == dataSize
                     && Bytes(name) == old(Bytes(name)) && Bytes(data) == old(Bytes(data))
                   else
                     && EnumValueLaw(b, h, index, select, fetch, nameLen.value, data != null, dataSize,
                                     status, nameOut, kind, sizeOut, old(Bytes(data)), Bytes(data))
                     && NameLaw(b, h, index, select, fetch, nameLen.value, old(Bytes(name)), Bytes(name))
    {
      if name == null || nameLen.None? {
        return InvalidParameter, if nameLen.Some? then nameLen.value else 0, None, dataSize;
      }
      status := EnsureInitialized(e);
      if status != Success {
        return status, nameLen.value, None, dataSize;
      }
      EnumValueLawHolds(View(), h, index, select, fetch, nameLen.value, data != null, dataSize, Bytes(data));
      NameLawHolds(View(), h, index, select, fetch, nameLen.value, name[..]);
      status, nameOut, kind, sizeOut := EnumValueAt(h, index, name, nameLen.value, data, dataSize, select, fetch);
    }

    /** RegEnumValueW once the library is initialised: the byte call through a buffer
        of as many bytes as the caller has wide characters, and the name in it; the
        length written back counts bytes. */
    method EnumValueText(h: HKey, index: nat, nameLen: DWord, data: array?<Octet>, dataSize: Option<DWord>,
                         select: Outcome, fetch: Outcome)
      returns (status: Status, text: CText, nameOut: nat, kind: Option<DWord>, sizeOut: Option<nat>)
      requires Valid() && initialized && index < 0x8000_0000
      requires data != null && dataSize.Some? ==> dataSize.value <= data.Length
      modifies data
      ensures var fetched := FetchedValue(View(), h, select, fetch, index);
              && (status, nameOut, kind, sizeOut) == ValueAnswer(fetched, nameLen, data != null, dataSize)
              && (status == Success ==> fetched.1.Some? && text == fetched.1.value.name && |text| < nameLen)
              && Bytes(data) == DataBuffer(old(Bytes(data)), fetched.1,
                                           data != null && status == Success && dataSize.Some?)
    {
      text := [];
      ghost var fetched := FetchedValue(View(), h, select, fetch, index);
      var nameBuffer := new Octet[nameLen];
      ghost var before := nameBuffer[..];
      status, nameOut, kind, sizeOut := EnumValueAt(h, index, nameBuffer, nameLen, data, dataSize, select, fetch);
      if status == Success {
        FetchedRowFits(fetched, nameLen, data != null, dataSize);
        WrittenIsHeld(nameBuffer, before, fetched.1.value.name);
        text := CString(nameBuffer, nameOut, fetched.1.value.name);
      }
    }

    /** The name goes through a byte buffer; what is in the wide one afterwards is the
        decoded name and its terminator, or what was there before. */
    method RegEnumValueW(h: HKey, index: nat, wideName: array?<Wchar>, nameLen: Option<DWord>, data: array?<Octet>,
                         dataSize: Option<DWord>, select: Outcome, fetch: Outcome, iconvOpens: bool, e: InitEnv)
      returns (status: Status, nameOut: nat, kind: Option<DWord>, sizeOut: Option<nat>)
      requires Valid() && IsInitEnv(e) && index < 0x8000_0000
      requires wideName != null && nameLen.Some? ==> nameLen.value <= wideName.Length
      requires data != null && dataSize.Some? ==> dataSize.value <= data.Length
      modifies this, db, wideName, data
      ensures Valid() && (old(initialized) ==> initialized) && handles == old(handles)
      ensures wideName == null || nameLen.None? ==>
                && status == InvalidParameter && View() == old(View()) && kind == None && sizeOut == dataSize
                && Bytes(data) == old(Bytes(data))
      ensures wideName != null && nameLen.Some? ==>
                var (b, ready) := Ready(old(View()), old(initialized), e);
                && View() == b
                && if ready != Success then
                     && status == ready && nameOut == nameLen.value && kind == None && sizeOut == dataSize
                     && Bytes(data) == old(Bytes(data))
                   else
                     && EnumValueLaw(b, h, index, select, fetch, nameLen.value, data != null, dataSize,
                                     status, nameOut, kind, sizeOut, old(Bytes(data)), Bytes(data))
                     && (status == Success ==>
                           exists id, v :: && WorksOn(b, h, select, id) && IsValueAt(b.t, id, index, v)
                                           && IsWidened(wideName, nameLen.value, v.name, iconvOpens))
      ensures status != Success && wideName != null ==> wideName[..] == old(wideName[..])
    {
      if wideName == null || nameLen.None? {
        return InvalidParameter, if nameLen.Some? then nameLen.value else 0, None, dataSize;
      }
      status := EnsureInitialized(e);
      if status != Success {
        return status, nameLen.value, None, dataSize;
      }
      ghost var b := View();
      EnumValueLawHolds(b, h, index, select, fetch, nameLen.value, data != null, dataSize, Bytes(data));
      var text;
      status, text, nameOut, kind, sizeOut := EnumValueText(h, index, nameLen.value, data, dataSize, select, fetch);
      if status == Success {
        Widen(text, wideName, nameLen.value, iconvOpens);
        FetchedIsAt(b, h, index, select, fetch);
      }
    }

    /** RegEnumKeyExA once the library is initialised. */
    method EnumKeyAt(h: HKey, index: nat, name: array<Octet>, nameLen: DWord, cls: array?<Octet>,
                     classLen: Option<DWord>, select: Outcome, find: Outcome, fetch: Outcome)
      returns (status: Status, nameOut: nat, classOut: Option<DWord>, lastWrite: Option<FileTime>)
      requires Valid() && initialized && index < 0x8000_0000
      requires nameLen <= name.Length && name != cls
      requires cls != null && classLen.Some? ==> classLen.value <= cls.Length
      modifies name, cls
      ensures var fetched := FetchedKey(View(), h, select, find, fetch, index);
              && (status, nameOut, lastWrite) == SubkeyAnswer(fetched, nameLen)
              && name[..] == NameBuffer(old(name[..]), SubkeyName(fetched.1), nameLen)
      ensures classOut == ClassLength(cls != null, classLen, status)
      ensures Bytes(cls) == ClassBuffer(old(Bytes(cls)), classLen, status)
    {
      var keyId;
      status, keyId := ResolveKey(h, select);
      if status != Success {
        return status, nameLen, classLen, None;
      }
      status, nameOut, classOut, lastWrite :=
        db.DbEnumerateKeys(keyId, index, name, nameLen, cls, classLen, find, fetch);
    }

    method RegEnumKeyExA(h: HKey, index: nat, name: array?<Octet>, nameLen: Option<DWord>, cls: array?<Octet>,
                         classLen: Option<DWord>, select: Outcome, find: Outcome, fetch: Outcome, e: InitEnv)
      returns (status: Status, nameOut: nat, classOut: Option<DWord>, lastWrite: Option<FileTime>)
      requires Valid() && IsInitEnv(e) && index < 0x8000_0000
      requires name != null && nameLen.Some? ==> nameLen.value <= name.Length && name != cls
      requires cls != null && classLen.Some? ==> classLen.value <= cls.Length
      modifies this, db, name, cls
      ensures Valid() && (old(initialized) ==> initialized) && handles == old(handles)
      ensures name == null || nameLen.None? ==>
                && status == InvalidParameter && View() == old(View()) && classOut == classLen && lastWrite == None
                && Bytes(name) == old(Bytes(name)) && Bytes(cls) == old(Bytes(cls))
      ensures name != null && nameLen.Some? ==>
                var (b, ready) := Ready(old(View()), old(initialized), e);
                && View() == b
                && if ready != Success then
                     && status == ready
                     && GivesNothing(nameLen.value, classLen, nameOut, classOut, lastWrite,
                                     old(Bytes(name)), Bytes(name), old(Bytes(cls)), Bytes(cls))
                   else
                     EnumKeyLaw(b, h, index, select, find, fetch, nameLen.value, cls != null, classLen, status, nameOut,
                                classOut, lastWrite, old(Bytes(name)), Bytes(name), old(Bytes(cls)), Bytes(cls))
    {
      if name == null || nameLen.None? {
        return InvalidParameter, if nameLen.Some? then nameLen.value else 0, classLen, None;
      }
      status := EnsureInitialized(e);
      if status != Success {
        return status, nameLen.value, classLen, None;
      }
      EnumKeyLawHolds(View(), h, index, select, find, fetch, nameLen.value, cls != null, classLen, name[..],
                      Bytes(cls));
      status, nameOut, classOut, lastWrite :=
        EnumKeyAt(h, index, name, nameLen.value, cls, classLen, select, find, fetch);
    }

    /** RegQueryInfoKeyA once the library is initialised. */
    method InfoAt(h: HKey, select: Outcome, find: Outcome, subkeys: Outcome, classes: Outcome, values: Outcome)
      returns (status: Status, info: Option<Info>)
      requires Valid() && initialized
      ensures (status, info) == Informed(View(), h, select, find, subkeys, classes, values)
    {
      var keyId;
      status, keyId := ResolveKey(h, select);
      if status != Success {
        return status, None;
      }
      status, info := db.DbQueryKeyInfo(keyId, find, subkeys, classes, values);
    }

    method RegQueryInfoKeyA(h: HKey, select: Outcome, find: Outcome, subkeys: Outcome, classes: Outcome,
                            values: Outcome, e: InitEnv) returns (status: Status, info: Option<Info>)
      requires Valid() && IsInitEnv(e)
      modifies this, db
      ensures Valid() && (old(initialized) ==> initialized) && handles == old(handles)
      ensures var (b, ready) := Ready(old(View()), old(initialized), e);
              && View() == b
              && if ready != Success then status == ready && info == None
                 else InfoLaw(b, h, select, find, subkeys, classes, values, status, info)
    {
      status := EnsureInitialized(e);
      if status != Success {
        return status, None;
      }
      InfoLawHolds(View(), h, select, find, subkeys, classes, values);
      status, info := InfoAt(h, select, find, subkeys, classes, values);
    }
  }

  /** What is fetched is the value at the index of the key of the handle. */
  lemma FetchedIsAt(w: World, h: HKey, index: nat, select: Outcome, fetch: Outcome)
    requires UniquePaths(w.t) && UniqueNames(w.t)
    ensures var v := FetchedValue(w, h, select, fetch, index).1;
            v.Some? ==> exists id :: WorksOn(w, h, select, id) && IsValueAt(w.t, id, index, v.value)
  {
    Resolved(w, h, select);
    ValueAtIff(w.t, ResolvedKey(w, h, select).1, index);
  }
}
