/** What each call of winreg.c comes down to: initialisation and one step, or the
    key id of a handle and one query of the backend on it. */
module Calls {
  import opened Text
  import opened Paths
  import opened Tables
  import opened Runs
  import opened Enumeration
  import opened Boot
  import opened Answers

  /** The key id a by-id call works on: a predefined handle is looked up by its
      name, in a critical section of its own. */
  ghost function ResolvedKey(w: World, h: HKey, select: Outcome): (Status, int) {
    if PredefinedKeyName(h).Some? then
      var r := OpenKey(w.t, PredefinedKeyName(h).value, select);
      (r.status, if r.status == Success then r.id else 0)
    else if h in w.handles then (Success, w.handles[h].keyId)
    else (InvalidHandle, 0)
  }

  /** The world and the status after ensure_initialized and then one step. */
  ghost function CallStep(w: World, initialized: bool, e: InitEnv, op: Op): (World, Status)
    requires IsInitEnv(e) && Allowed(w, op)
  {
    var (b, status) := Ready(w, initialized, e);
    if status != Success then (b, status) else Step(b, op)
  }

  /** Setting a value: through a handle one step, on a predefined root two. */
  ghost function SetCall(w: World, h: HKey, select: Outcome, name: Option<CText>, kind: DWord, data: Option<Blob>,
                         size: DWord, now: int, insert: Outcome, touch: Outcome): (Tables, Status)
    requires size < 0x8000_0000 && (data.Some? ==> |data.value| == size)
  {
    if PredefinedKeyName(h).Some? then
      var (w1, found) := Step(w, LookUpRoot(h, 0, select));
      if found != Success then (w1.t, found)
      else
        var (w2, status) := Step(w1, Set(ByThread(0), name, kind, data, size, now, insert, touch));
        (w2.t, status)
    else
      var (w2, status) := Step(w, Set(ByHandle(h), name, kind, data, size, now, insert, touch));
      (w2.t, status)
  }

  ghost function UnsetCall(w: World, h: HKey, select: Outcome, name: Option<CText>, delete: Outcome): (Tables, Status) {
    if PredefinedKeyName(h).Some? then
      var (w1, found) := Step(w, LookUpRoot(h, 0, select));
      if found != Success then (w1.t, found)
      else
        var (w2, status) := Step(w1, Unset(ByThread(0), name, delete));
        (w2.t, status)
    else
      var (w2, status) := Step(w, Unset(ByHandle(h), name, delete));
      (w2.t, status)
  }

  /** The row a value enumeration fetches, or why there is none. */
  ghost function FetchedValue(w: World, h: HKey, select: Outcome, fetch: Outcome, index: nat):
    (Status, Option<ValueRow>)
  {
    var (status, id) := ResolvedKey(w, h, select);
    if status != Success then (status, None) else FetchRow(w.t, id, index, fetch)
  }

  /** The row a key enumeration fetches, or why there is none. */
  ghost function FetchedKey(w: World, h: HKey, select: Outcome, find: Outcome, fetch: Outcome, index: nat):
    (Status, Option<KeyRow>)
  {
    var (status, id) := ResolvedKey(w, h, select);
    if status != Success then (status, None) else FetchSubkey(w.t, id, index, find, fetch)
  }

  /** What a value query answers, and the bytes it finds. */
  ghost function Asked(w: World, h: HKey, select: Outcome, query: Outcome, name: CText, hasBuffer: bool,
                       capacity: DWord): ((Status, Option<DWord>, DWord), Option<Blob>)
  {
    var (status, id) := ResolvedKey(w, h, select);
    if status != Success then ((status, None, capacity), None)
    else (QueryAnswer(w.t, id, name, query, hasBuffer, capacity), FoundData(w.t, id, name))
  }

  /** What db_query_key_info answers for a handle. */
  ghost function Informed(w: World, h: HKey, select: Outcome, find: Outcome, subkeys: Outcome, classes: Outcome,
                          values: Outcome): (Status, Option<Info>)
  {
    var (status, id) := ResolvedKey(w, h, select);
    if status != Success then (status, None) else InfoAnswer(w.t, id, find, subkeys, classes, values)
  }

  /** The steps of a value call come down to one backend call on the resolved id. */
  lemma SetCallResolves(w: World, h: HKey, select: Outcome, name: Option<CText>, kind: DWord, data: Option<Blob>,
                        size: DWord, now: int, insert: Outcome, touch: Outcome)
    requires size < 0x8000_0000 && (data.Some? ==> |data.value| == size)
    ensures var (found, id) := ResolvedKey(w, h, select);
            SetCall(w, h, select, name, kind, data, size, now, insert, touch) ==
            if found != Success then (w.t, found)
            else SetValue(w.t, ValueRow(id, NameOf(name), kind, data, size), now, insert, touch)
  {
  }

  lemma UnsetCallResolves(w: World, h: HKey, select: Outcome, name: Option<CText>, delete: Outcome)
    ensures var (found, id) := ResolvedKey(w, h, select);
            UnsetCall(w, h, select, name, delete) ==
            if found != Success then (w.t, found) else DeleteValue(w.t, id, NameOf(name), delete)
  {
  }

  lemma SetCallKeepsInv(w: World, h: HKey, select: Outcome, name: Option<CText>, kind: DWord, data: Option<Blob>,
                        size: DWord, now: int, insert: Outcome, touch: Outcome)
    requires WorldInv(w) && size < 0x8000_0000 && (data.Some? ==> |data.value| == size)
    ensures WorldInv(w.(t := SetCall(w, h, select, name, kind, data, size, now, insert, touch).0, looked := map[]))
  {
    var row := ValueRow(ResolvedKey(w, h, select).1, NameOf(name), kind, data, size);
    SetCallResolves(w, h, select, name, kind, data, size, now, insert, touch);
    SetValueKeepsInv(w.t, row, now, insert, touch);
    SetRows(w.t, row, now, insert, touch);
    EvolvesToItself(w.t);
    EvolvedWorld(w, SetCall(w, h, select, name, kind, data, size, now, insert, touch).0);
  }

  lemma UnsetCallKeepsInv(w: World, h: HKey, select: Outcome, name: Option<CText>, delete: Outcome)
    requires WorldInv(w)
    ensures WorldInv(w.(t := UnsetCall(w, h, select, name, delete).0, looked := map[]))
  {
    UnsetCallResolves(w, h, select, name, delete);
    DeleteValueKeepsInv(w.t, ResolvedKey(w, h, select).1, NameOf(name), delete);
    EvolvesToItself(w.t);
    EvolvedWorld(w, UnsetCall(w, h, select, name, delete).0);
  }
}
