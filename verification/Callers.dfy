/** Programs over the API: what a query gives after any run, and listing all values
    of a key with the sizes the library advertises. */
module Callers {
  import opened Text
  import opened Paths
  import opened Tables
  import opened Runs
  import opened ValueMap
  import opened Boot
  import opened Answers
  import opened KeyLaws
  import opened ValueLaws
  import opened ListLaws
  import opened Backend
  import opened Api

  // ---- Querying after a run -------------------------------------------------

  /** What a query answers for the last thing written, or for nothing. */
  predicate AnswersWith(last: Option<Stored>, hasBuffer: bool, capacity: DWord, status: Status, kind: Option<DWord>,
                        size: DWord, before: seq<Octet>, after: seq<Octet>)
  {
    match last
    case None => status == FileNotFound && kind == None && size == capacity && after == before
    case Some(stored) =>
      && kind == Some(stored.kind) && size == stored.size
      && status == (if hasBuffer && stored.size <= capacity then Success else MoreData)
      && if status == Success then IsFilled(before, after, stored.data) else after == before
  }

  lemma FoundIsLookedUp(t: Tables, id: int, n: CText, hasBuffer: bool, capacity: DWord, status: Status,
                        kind: Option<DWord>, size: DWord, before: seq<Octet>, after: seq<Octet>)
    requires FindsAt(t, id, n, hasBuffer, capacity, Ran, status, kind, size, before, after)
    ensures AnswersWith(Lookup(t, id, n), hasBuffer, capacity, status, kind, size, before, after)
  {
    if HasValue(t, id, n) {
      var v := ValueAt(t, id, n);
      assert FindsRow(v, hasBuffer, capacity, status, kind, size, before, after);
    }
  }

  /** What the call finds in the tables after a run is what was last written. */
  lemma FoundIsLastWrite(ops: seq<Op>, id: int, n: CText, hasBuffer: bool, capacity: DWord, status: Status,
                         kind: Option<DWord>, size: DWord, before: seq<Octet>, after: seq<Octet>)
    requires Feasible(START, ops)
    requires FindsAt(Run(START, ops).t, id, n, hasBuffer, capacity, Ran, status, kind, size, before, after)
    ensures AnswersWith(LastWrite(Trace(START, ops), id, n, None), hasBuffer, capacity, status, kind, size,
                        before, after)
  {
    FoundIsLookedUp(Run(START, ops).t, id, n, hasBuffer, capacity, status, kind, size, before, after);
    assert Lookup(START.t, id, n) == None;
    ValuesAreLastWrites(START, ops, id, n);
  }

  /** Whatever the run was, a query through a handle or a root answers with what was
      last set for the key and the name, unless it or the key was deleted since. */
  method QueryAfterRun(reg: Registry, ghost ops: seq<Op>, h: HKey, name: Option<CText>, data: array?<Octet>,
                       capacity: DWord, e: InitEnv) returns (status: Status, kind: Option<DWord>, size: DWord)
    requires reg.Valid() && reg.initialized && IsInitEnv(e)
    requires Feasible(START, ops) && Run(START, ops).t == reg.db.State()
    requires data != null ==> capacity <= data.Length
    modifies reg, reg.db, data
    ensures reg.Valid() && reg.View() == old(reg.View())
    ensures forall id, n :: WorksOn(reg.View(), h, Ran, id) && IsValueName(name, n) ==>
              AnswersWith(LastWrite(Trace(START, ops), id, n, None), data != null, capacity, status, kind, size,
                          old(Bytes(data)), Bytes(data))
  {
    ghost var before := Bytes(data);
    status, kind, size := reg.RegQueryValueExA(h, name, data, Some(capacity), Ran, Ran, e);
    ghost var w, after := reg.View(), Bytes(data);
    forall id, n | WorksOn(w, h, Ran, id) && IsValueName(name, n)
      ensures AnswersWith(LastWrite(Trace(START, ops), id, n, None), data != null, capacity, status, kind, size,
                          before, after)
    {
      FoundIsLastWrite(ops, id, n, data != null, capacity, status, kind, size, before, after);
    }
  }

  // ---- Listing all values ---------------------------------------------------

  /** The names of the key's values are ASCII and short enough to be measured. */
  ghost predicate HasPlainNames(t: Tables, id: int) {
    forall v :: v in t.vals && v.keyId == id ==> IsAscii(v.name) && |v.name| < 0xFFFF_FFFF
  }

  /** The advertised sizes are numbers the calls take, and hold every value of the key. */
  lemma AdvertisedSizesFit(t: Tables, id: int, count: nat, longest: nat, largest: nat)
    requires CountsValues(t, id, count, longest, largest) && HasPlainNames(t, id)
    ensures longest < 0xFFFF_FFFF && largest < 0x1_0000_0000
    ensures forall v :: v in t.vals && v.keyId == id ==> |v.name| < longest + 1 && v.size <= largest
  {
    forall v | v in t.vals && v.keyId == id ensures |v.name| < longest + 1 && v.size <= largest {
      CharsOfAscii(v.name);
    }
  }

  /** The first values of the key, each a copy of the row at its index. */
  ghost predicate AreValues(t: Tables, id: int, entries: seq<Entry>) {
    forall i :: 0 <= i < |entries| ==> IsValueCopy(t, id, i, entries[i])
  }

  ghost predicate IsValueCopy(t: Tables, id: int, index: nat, entry: Entry) {
    exists v :: IsValueAt(t, id, index, v) && IsCopy(entry, v)
  }

  /** A call gave the value v whole. */
  ghost predicate IsGiven(t: Tables, id: int, index: nat, v: ValueRow, room: nat, nameOut: nat, kind: Option<DWord>,
                          sizeOut: Option<nat>, name: seq<Octet>, data: seq<Octet>)
  {
    && IsValueAt(t, id, index, v)
    && nameOut == |v.name| < room && kind == Some(v.kind) && sizeOut == Some(v.size as nat) && v.size <= |data|
    && |v.name| < |name| && name[..|v.name|] == v.name && name[|v.name|] == 0
    && (v.data.Some? ==> |v.data.value| == v.size && v.data.value <= data)
  }

  lemma GivenNameIsThere(name: CText, nameLen: nat, before: seq<Octet>, after: seq<Octet>)
    requires |name| < nameLen && GivesName(name, nameLen, before, after)
    ensures |name| < |after| && after[..|name|] == name && after[|name|] == 0
  {
    var bytes: Blob := name;
    assert after[..|name| + 1] == bytes + [0];
    assert after[..|name|] == after[..|name| + 1][..|name|];
    assert after[|name|] == after[..|name| + 1][|name|];
  }

  lemma GivenWhole(t: Tables, id: int, index: nat, v: ValueRow, room: nat, largest: nat, status: Status,
                   nameOut: nat, kind: Option<DWord>, sizeOut: Option<nat>, before: seq<Octet>, after: seq<Octet>,
                   name: seq<Octet>, newName: seq<Octet>)
    requires IsValueAt(t, id, index, v) && |v.name| < room && v.size <= largest <= |after| && SizedBlobs(t)
    requires GivesValue(v, room, true, Some(largest), status, nameOut, kind, sizeOut, before, after)
    requires GivesName(v.name, room, name, newName)
    ensures status == Success && IsGiven(t, id, index, v, room, nameOut, kind, sizeOut, newName, after)
  {
    GivenNameIsThere(v.name, room, name, newName);
  }

  /** What the call at one index gives a caller with room for every value. */
  lemma RoomyCall(t: Tables, id: int, count: nat, room: nat, largest: nat, index: nat, status: Status,
                  nameOut: nat, kind: Option<DWord>, sizeOut: Option<nat>, before: seq<Octet>, after: seq<Octet>,
                  name: seq<Octet>, newName: seq<Octet>)
    requires UniqueNames(t) && SizedBlobs(t) && largest <= |after|
    requires count == |set v | v in t.vals && v.keyId == id|
    requires forall v :: v in t.vals && v.keyId == id ==> |v.name| < room && v.size <= largest
    requires ListsAt(t, id, index, Ran, room, true, Some(largest), status, nameOut, kind, sizeOut, before, after)
    requires NamesAt(t, id, index, Ran, room, name, newName)
    ensures status == if index < count then Success else NoMoreItems
    ensures index < count ==>
              exists v :: IsGiven(t, id, index, v, room, nameOut, kind, sizeOut, newName, after)
  {
    ValueAtIff(t, id, index);
    if index < count {
      var v :| IsValueAt(t, id, index, v);
      GivenWhole(t, id, index, v, room, largest, status, nameOut, kind, sizeOut, before, after, name, newName);
    }
  }

  /** The laws of the call, for the one key the handle is about. */
  lemma LawsFor(w: World, h: HKey, id: int, index: nat, room: nat, dataSize: Option<nat>, status: Status,
                nameOut: nat, kind: Option<DWord>, sizeOut: Option<nat>, before: seq<Octet>, after: seq<Octet>,
                name: seq<Octet>, newName: seq<Octet>)
    requires WorksOn(w, h, Ran, id)
    requires EnumValueLaw(w, h, index, Ran, Ran, room, true, dataSize, status, nameOut, kind, sizeOut, before, after)
    requires NameLaw(w, h, index, Ran, Ran, room, name, newName)
    ensures ListsAt(w.t, id, index, Ran, room, true, dataSize, status, nameOut, kind, sizeOut, before, after)
    ensures NamesAt(w.t, id, index, Ran, room, name, newName)
  {
  }

  /** The call at one index, its answer told for the key. */
  method CallAt(reg: Registry, h: HKey, e: InitEnv, name: array<Octet>, data: array<Octet>, index: nat, ghost id: int)
    returns (status: Status, nameOut: nat, kind: Option<DWord>, sizeOut: Option<nat>)
    requires reg.Valid() && reg.initialized && IsInitEnv(e) && index < 0x8000_0000
    requires name != data && name.Length < 0x1_0000_0000 && data.Length < 0x1_0000_0000
    requires WorksOn(reg.View(), h, Ran, id)
    modifies reg, reg.db, name, data
    ensures reg.Valid() && reg.initialized && reg.View() == old(reg.View())
    ensures ListsAt(reg.db.State(), id, index, Ran, name.Length, true, Some(data.Length), status, nameOut, kind,
                    sizeOut, old(data[..]), data[..])
    ensures NamesAt(reg.db.State(), id, index, Ran, name.Length, old(name[..]), name[..])
  {
    ghost var w, oldName, oldData := reg.View(), name[..], data[..];
    status, nameOut, kind, sizeOut :=
      reg.RegEnumValueA(h, index, name, Some(name.Length), data, Some(data.Length), Ran, Ran, e);
    LawsFor(w, h, id, index, name.Length, Some(data.Length), status, nameOut, kind, sizeOut,
            oldData, data[..], oldName, name[..]);
  }

  /** One call of the loop below. */
  method CallNext(reg: Registry, h: HKey, e: InitEnv, name: array<Octet>, data: array<Octet>, index: nat,
                  ghost count: nat, ghost id: int)
    returns (status: Status, nameOut: nat, kind: Option<DWord>, sizeOut: Option<nat>)
    requires reg.Valid() && reg.initialized && IsInitEnv(e) && index < 0x8000_0000
    requires name != data && 0 < name.Length < 0x1_0000_0000 && data.Length < 0x1_0000_0000
    requires WorksOn(reg.View(), h, Ran, id) && HasPlainNames(reg.db.State(), id)
    requires CountsValues(reg.db.State(), id, count, name.Length - 1, data.Length)
    modifies reg, reg.db, name, data
    ensures reg.Valid() && reg.initialized && reg.View() == old(reg.View())
    ensures status == if index < count then Success else NoMoreItems
    ensures index < count ==>
              exists v :: IsGiven(reg.db.State(), id, index, v, name.Length, nameOut, kind, sizeOut, name[..], data[..])
  {
    ghost var t, oldName, oldData := reg.db.State(), name[..], data[..];
    AdvertisedSizesFit(t, id, count, name.Length - 1, data.Length);
    status, nameOut, kind, sizeOut := CallAt(reg, h, e, name, data, index, id);
    RoomyCall(t, id, count, name.Length, data.Length, index, status, nameOut, kind, sizeOut,
              oldData, data[..], oldName, name[..]);
  }

  /** And what the caller reads out of the buffers. */
  method NextValue(reg: Registry, h: HKey, e: InitEnv, name: array<Octet>, data: array<Octet>, index: nat,
                   ghost count: nat, ghost id: int) returns (more: bool, entry: Entry)
    requires reg.Valid() && reg.initialized && IsInitEnv(e) && index < 0x8000_0000
    requires name != data && 0 < name.Length < 0x1_0000_0000 && data.Length < 0x1_0000_0000
    requires WorksOn(reg.View(), h, Ran, id) && HasPlainNames(reg.db.State(), id)
    requires CountsValues(reg.db.State(), id, count, name.Length - 1, data.Length)
    modifies reg, reg.db, name, data
    ensures reg.Valid() && reg.initialized && reg.View() == old(reg.View())
    ensures more <==> index < count
    ensures more ==> IsValueCopy(reg.db.State(), id, index, entry)
  {
    var status, nameOut, kind, sizeOut := CallNext(reg, h, e, name, data, index, count, id);
    more := status == Success;
    entry := Entry([], 0, []);
    if more {
      ghost var v :| IsGiven(reg.db.State(), id, index, v, name.Length, nameOut, kind, sizeOut, name[..], data[..]);
      assert name[..|v.name|] == name[..][..|v.name|];
      entry := MakeEntry(name, nameOut, kind.value, data, sizeOut.value, v);
    }
  }

  /** Asking for the sizes first. */
  method AskSizes(reg: Registry, h: HKey, e: InitEnv, ghost id: int)
    returns (status: Status, count: nat, longest: nat, largest: nat)
    requires reg.Valid() && reg.initialized && IsInitEnv(e) && WorksOn(reg.View(), h, Ran, id)
    modifies reg, reg.db
    ensures reg.Valid() && reg.initialized && reg.View() == old(reg.View())
    ensures status == if exists k :: k in reg.db.State().keys && k.id == id then Success else InvalidHandle
    ensures status == Success ==> CountsValues(reg.db.State(), id, count, longest, largest)
  {
    var info;
    status, info := reg.RegQueryInfoKeyA(h, Ran, Ran, Ran, Ran, Ran, e);
    count, longest, largest := 0, 0, 0;
    if status == Success {
      ghost var l :| l in reg.db.State().keys && l.id == id;
      assert Informs(reg.db.State(), l, Ran, Ran, Ran, info.value);
      count, longest, largest := info.value.values.value.0, info.value.values.value.1, info.value.values.value.2;
    }
  }

  lemma OneMoreValue(t: Tables, id: int, entries: seq<Entry>, entry: Entry)
    requires AreValues(t, id, entries) && IsValueCopy(t, id, |entries|, entry)
    ensures AreValues(t, id, entries + [entry])
  {
  }

  /** Index 0, 1, 2, ... until NO_MORE_ITEMS. */
  method ListWith(reg: Registry, h: HKey, e: InitEnv, name: array<Octet>, data: array<Octet>,
                  ghost count: nat, ghost id: int) returns (listing: seq<Entry>)
    requires reg.Valid() && reg.initialized && IsInitEnv(e) && count < 0x7FFF_FFFF
    requires name != data && 0 < name.Length < 0x1_0000_0000 && data.Length < 0x1_0000_0000
    requires WorksOn(reg.View(), h, Ran, id) && HasPlainNames(reg.db.State(), id)
    requires CountsValues(reg.db.State(), id, count, name.Length - 1, data.Length)
    modifies reg, reg.db, name, data
    ensures reg.Valid() && reg.initialized && reg.View() == old(reg.View())
    ensures |listing| == count && AreValues(reg.db.State(), id, listing)
  {
    listing := [];
    ghost var w, t := reg.View(), reg.db.State();
    while true
      invariant reg.Valid() && reg.initialized && reg.View() == w
      invariant |listing| <= count && AreValues(t, id, listing)
      decreases count - |listing|
    {
      var more, entry := NextValue(reg, h, e, name, data, |listing|, count, id);
      if !more {
        return;
      }
      OneMoreValue(t, id, listing, entry);
      listing := listing + [entry];
    }
  }

  /** A program that asks for the sizes and then lists the values with them never
      meets MORE_DATA, and gets as many values as it was told, each once and in
      ascending order of names. */
  method ListValues(reg: Registry, h: HKey, e: InitEnv, ghost id: int)
    returns (status: Status, listing: seq<Entry>, count: nat)
    requires reg.Valid() && reg.initialized && IsInitEnv(e)
    requires WorksOn(reg.View(), h, Ran, id) && HasPlainNames(reg.db.State(), id)
    requires |set v | v in reg.db.State().vals && v.keyId == id| < 0x7FFF_FFFF
    modifies reg, reg.db
    ensures reg.Valid() && reg.View() == old(reg.View())
    ensures status == if exists k :: k in reg.db.State().keys && k.id == id then Success else InvalidHandle
    ensures status == Success ==>
              && |listing| == count == |set v | v in reg.db.State().vals && v.keyId == id|
              && AreValues(reg.db.State(), id, listing)
  {
    listing := [];
    var longest, largest;
    status, count, longest, largest := AskSizes(reg, h, e, id);
    if status == Success {
      AdvertisedSizesFit(reg.db.State(), id, count, longest, largest);
      var name := new Octet[longest + 1];
      var data := new Octet[largest];
      listing := ListWith(reg, h, e, name, data, count, id);
    }
  }
}
