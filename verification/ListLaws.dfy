/** What a program may rely on when it enumerates values and keys and asks for
    information: which row is found at an index, what is written where, and what
    the aggregates are, told over the rows themselves. */
module ListLaws {
  import opened Text
  import opened Like
  import opened Escape
  import opened Paths
  import opened Selection
  import opened Tables
  import opened Runs
  import opened Enumeration
  import opened FileTimes
  import opened Answers
  import opened Calls
  import opened ValueLaws

  // ---- The value at an index ------------------------------------------------

  /** v is a value of the key, and index names of that key come before its own. */
  ghost predicate IsValueAt(t: Tables, id: int, index: nat, v: ValueRow) {
    && v in t.vals && v.keyId == id
    && |set o | o in t.vals && o.keyId == id && LexLess(o.name, v.name)| == index
  }

  lemma RankCounts<T(!new)>(rows: set<T>, key: T -> CText, row: T, before: set<T>)
    requires forall o :: o in before <==> o in rows && LexLess(key(o), key(row))
    ensures Rank(rows, key, row) == |before|
  {
    assert before == set other | other in rows && LexLess(key(other), key(row));
  }

  lemma ValueRank(t: Tables, id: int, v: ValueRow)
    requires v in t.vals && v.keyId == id
    ensures IsValueAt(t, id, Rank(ValuesOf(t, id), NameOfRow, v), v)
  {
    RankCounts(ValuesOf(t, id), NameOfRow, v, set o | o in t.vals && o.keyId == id && LexLess(o.name, v.name));
  }

  /** There is such a value exactly for the indices below the number of values, and
      then only one: the one fetched. */
  lemma ValueAtIff(t: Tables, id: int, index: nat)
    requires UniqueNames(t)
    ensures (exists v :: IsValueAt(t, id, index, v)) <==> index < |set v | v in t.vals && v.keyId == id|
    ensures forall v :: IsValueAt(t, id, index, v) <==> ValueAtIndex(t, id, index) == Some(v)
  {
    ValueNamesAreKeys(t, id);
    forall v ensures IsValueAt(t, id, index, v) <==> ValueAtIndex(t, id, index) == Some(v) {
      ValueAtIs(t, id, index, v);
    }
    assert ValuesOf(t, id) == set v | v in t.vals && v.keyId == id;
    if index < |ValuesOf(t, id)| { assert IsValueAt(t, id, index, ValueListing(t, id)[index]); }
  }

  lemma ValueAtIs(t: Tables, id: int, index: nat, v: ValueRow)
    requires UniqueNames(t)
    ensures IsValueAt(t, id, index, v) <==> ValueAtIndex(t, id, index) == Some(v)
  {
    var rows := ValuesOf(t, id);
    ValueNamesAreKeys(t, id);
    if v in rows {
      ValueRank(t, id, v);
      RankDetermines(rows, NameOfRow, v);
    }
    if ValueAtIndex(t, id, index) == Some(v) {
      assert v in ValueListing(t, id);
      RankIsIndex(rows, NameOfRow, index);
    }
  }

  /** The status, the sizes, the kind and the data a value enumeration gives for v. */
  predicate GivesValue(v: ValueRow, nameLen: nat, hasData: bool, dataSize: Option<nat>,
                       status: Status, nameOut: nat, kind: Option<DWord>, sizeOut: Option<nat>,
                       before: seq<Octet>, after: seq<Octet>)
  {
    if |v.name| >= nameLen then
      status == MoreData && nameOut == |v.name| + 1 && kind == None && sizeOut == dataSize && after == before
    else
      && nameOut == |v.name| && kind == Some(v.kind)
      && if hasData && dataSize.Some? && dataSize.value < v.size then
           status == MoreData && sizeOut == Some(v.size) && after == before
         else
           && status == Success
           && sizeOut == (if dataSize.Some? then Some(v.size) else None)
           && IsFilled(before, after, if hasData && dataSize.Some? then v.data else None)
  }

  /** A name and its terminator, when they fit. */
  predicate GivesName(name: CText, nameLen: nat, before: seq<Octet>, after: seq<Octet>) {
    var bytes: Blob := name;
    IsFilled(before, after, if |name| < nameLen then Some(bytes + [0]) else None)
  }

  /** before and after are the caller's data buffer, empty when there is none. */
  ghost predicate ListsAt(t: Tables, id: int, index: nat, fetch: Outcome, nameLen: nat, hasData: bool,
                          dataSize: Option<nat>, status: Status, nameOut: nat, kind: Option<DWord>,
                          sizeOut: Option<nat>, before: seq<Octet>, after: seq<Octet>)
  {
    if fetch.Ran? && exists v :: IsValueAt(t, id, index, v) then
      forall v :: IsValueAt(t, id, index, v) ==>
        GivesValue(v, nameLen, hasData, dataSize, status, nameOut, kind, sizeOut, before, after)
    else
      && status == (if fetch.NotPrepared? then BadDb else NoMoreItems)
      && nameOut == nameLen && kind == None && sizeOut == dataSize && after == before
  }

  ghost predicate EnumValueLaw(w: World, h: HKey, index: nat, select: Outcome, fetch: Outcome, nameLen: nat,
                               hasData: bool, dataSize: Option<nat>, status: Status, nameOut: nat,
                               kind: Option<DWord>, sizeOut: Option<nat>, before: seq<Octet>, after: seq<Octet>)
  {
    && (forall id :: WorksOn(w, h, select, id) ==>
          ListsAt(w.t, id, index, fetch, nameLen, hasData, dataSize, status, nameOut, kind, sizeOut, before, after))
    && ((forall id :: !WorksOn(w, h, select, id)) ==>
          && IsRefusal(w, h, select, status)
          && nameOut == nameLen && kind == None && sizeOut == dataSize && after == before)
  }

  ghost predicate NamesAt(t: Tables, id: int, index: nat, fetch: Outcome, nameLen: nat,
                          before: seq<Octet>, after: seq<Octet>)
  {
    if fetch.Ran? && exists v :: IsValueAt(t, id, index, v) then
      forall v :: IsValueAt(t, id, index, v) ==> GivesName(v.name, nameLen, before, after)
    else after == before
  }

  /** The same for the name buffer. */
  ghost predicate NameLaw(w: World, h: HKey, index: nat, select: Outcome, fetch: Outcome, nameLen: nat,
                          before: seq<Octet>, after: seq<Octet>)
  {
    && (forall id :: WorksOn(w, h, select, id) ==> NamesAt(w.t, id, index, fetch, nameLen, before, after))
    && ((forall id :: !WorksOn(w, h, select, id)) ==> after == before)
  }

  lemma AnswerGivesValue(v: ValueRow, nameLen: nat, hasData: bool, dataSize: Option<nat>, before: seq<Octet>)
    requires hasData && dataSize.Some? ==> dataSize.value <= |before|
    requires v.data.Some? ==> |v.data.value| == v.size
    ensures var (status, nameOut, kind, sizeOut) := ValueAnswer((Success, Some(v)), nameLen, hasData, dataSize);
            GivesValue(v, nameLen, hasData, dataSize, status, nameOut, kind, sizeOut, before,
                       DataBuffer(before, Some(v), hasData && status == Success && dataSize.Some?))
  {
    if hasData && dataSize.Some? && v.size <= dataSize.value { FilledIsFilled(before, v.data); }
  }

  lemma ListsAtHolds(t: Tables, id: int, index: nat, fetch: Outcome, nameLen: nat, hasData: bool,
                     dataSize: Option<nat>, before: seq<Octet>)
    requires UniqueNames(t) && SizedBlobs(t)
    requires hasData && dataSize.Some? ==> dataSize.value <= |before|
    ensures var row := FetchRow(t, id, index, fetch);
            var (status, nameOut, kind, sizeOut) := ValueAnswer(row, nameLen, hasData, dataSize);
            ListsAt(t, id, index, fetch, nameLen, hasData, dataSize, status, nameOut, kind, sizeOut, before,
                    DataBuffer(before, row.1, hasData && status == Success && dataSize.Some?))
  {
    ValueAtIff(t, id, index);
    var row := ValueAtIndex(t, id, index);
    if fetch.Ran? && row.Some? {
      ListedValue(t, id, index);
      AnswerGivesValue(row.value, nameLen, hasData, dataSize, before);
    }
  }

  lemma EnumValueLawHolds(w: World, h: HKey, index: nat, select: Outcome, fetch: Outcome, nameLen: nat,
                          hasData: bool, dataSize: Option<nat>, before: seq<Octet>)
    requires UniquePaths(w.t) && UniqueNames(w.t) && SizedBlobs(w.t)
    requires hasData && dataSize.Some? ==> dataSize.value <= |before|
    ensures var fetched := FetchedValue(w, h, select, fetch, index);
            var (status, nameOut, kind, sizeOut) := ValueAnswer(fetched, nameLen, hasData, dataSize);
            EnumValueLaw(w, h, index, select, fetch, nameLen, hasData, dataSize, status, nameOut, kind, sizeOut,
                         before, DataBuffer(before, fetched.1, hasData && status == Success && dataSize.Some?))
  {
    Resolved(w, h, select);
    ListsAtHolds(w.t, ResolvedKey(w, h, select).1, index, fetch, nameLen, hasData, dataSize, before);
  }

  lemma NameBufferGivesName(name: CText, nameLen: nat, before: seq<Octet>)
    requires nameLen <= |before|
    ensures GivesName(name, nameLen, before, NameBuffer(before, Some(name), nameLen))
  {
  }

  lemma NamesAtHolds(t: Tables, id: int, index: nat, fetch: Outcome, nameLen: nat, before: seq<Octet>)
    requires UniqueNames(t) && nameLen <= |before|
    ensures NamesAt(t, id, index, fetch, nameLen, before,
                    NameBuffer(before, RowName(FetchRow(t, id, index, fetch).1), nameLen))
  {
    ValueAtIff(t, id, index);
    var row := ValueAtIndex(t, id, index);
    if row.Some? { NameBufferGivesName(row.value.name, nameLen, before); }
  }

  lemma NameLawHolds(w: World, h: HKey, index: nat, select: Outcome, fetch: Outcome, nameLen: nat, before: seq<Octet>)
    requires UniquePaths(w.t) && UniqueNames(w.t) && nameLen <= |before|
    ensures NameLaw(w, h, index, select, fetch, nameLen, before,
                    NameBuffer(before, RowName(FetchedValue(w, h, select, fetch, index).1), nameLen))
  {
    Resolved(w, h, select);
    NamesAtHolds(w.t, ResolvedKey(w, h, select).1, index, fetch, nameLen, before);
  }

  // ---- The key at an index --------------------------------------------------

  /** Selected by the two patterns as they are printed. */
  predicate IsListed(path: CText, q: CText) {
    IsLike(ChildPattern(path), q, ESCAPE) && !IsLike(GrandchildPattern(path), q, ESCAPE)
  }

  /** k is listed, and index of the paths listed come before its own. */
  ghost predicate IsSubkeyAt(t: Tables, path: CText, index: nat, k: KeyRow) {
    && k in t.keys && IsListed(path, k.path)
    && |set o | o in t.keys && IsListed(path, o.path) && LexLess(o.path, k.path)| == index
  }

  lemma ListedRows(t: Tables, path: CText)
    ensures SubkeysOf(t, path) == set k | k in t.keys && IsListed(path, k.path)
  {
  }

  lemma SubkeyRank(t: Tables, path: CText, k: KeyRow)
    requires k in SubkeysOf(t, path)
    ensures IsSubkeyAt(t, path, Rank(SubkeysOf(t, path), PathOfRow, k), k)
  {
    ListedRows(t, path);
    var before := set o | o in t.keys && IsListed(path, o.path) && LexLess(o.path, k.path);
    forall o: KeyRow ensures o in before <==> o in SubkeysOf(t, path) && LexLess(o.path, k.path) {
      assert o in SubkeysOf(t, path) <==> o in t.keys && IsListed(path, o.path);
    }
    RankCounts(SubkeysOf(t, path), PathOfRow, k, before);
  }

  lemma SubkeyAtIs(t: Tables, path: CText, index: nat, k: KeyRow)
    requires UniquePaths(t)
    ensures IsSubkeyAt(t, path, index, k) <==> SubkeyAtIndex(t, path, index) == Some(k)
  {
    var rows := SubkeysOf(t, path);
    ListedRows(t, path);
    SubkeyPathsAreKeys(t, path);
    if k in rows {
      SubkeyRank(t, path, k);
      RankDetermines(rows, PathOfRow, k);
    }
    if SubkeyAtIndex(t, path, index) == Some(k) {
      assert k in SubkeyListing(t, path);
      RankIsIndex(rows, PathOfRow, index);
    }
  }

  lemma SubkeyAtIff(t: Tables, path: CText, index: nat)
    requires UniquePaths(t)
    ensures (exists k :: IsSubkeyAt(t, path, index, k)) <==> index < |set k | k in t.keys && IsListed(path, k.path)|
    ensures forall k :: IsSubkeyAt(t, path, index, k) <==> SubkeyAtIndex(t, path, index) == Some(k)
  {
    forall k ensures IsSubkeyAt(t, path, index, k) <==> SubkeyAtIndex(t, path, index) == Some(k) {
      SubkeyAtIs(t, path, index, k);
    }
    ListedRows(t, path);
    if index < |SubkeysOf(t, path)| { assert IsSubkeyAt(t, path, index, SubkeyListing(t, path)[index]); }
  }

  /** The part behind the last backslash, or the whole. */
  predicate IsLastPart(path: CText, part: CText) {
    && BACKSLASH !in part && |part| <= |path| && path[|path| - |part|..] == part
    && (|part| < |path| ==> path[|path| - |part| - 1] == BACKSLASH)
  }

  lemma TailBytes(path: CText, part: CText)
    requires |part| <= |path| && path[|path| - |part|..] == part
    ensures forall j :: |path| - |part| <= j < |path| ==> path[j] in part
  {
    forall j | |path| - |part| <= j < |path| ensures path[j] in part {
      assert path[j] == part[j - (|path| - |part|)];
    }
  }

  lemma LastPartIff(path: CText, part: CText)
    ensures IsLastPart(path, part) <==> part == LastComponent(path)
  {
    var last := LastComponent(path);
    TailBytes(path, last);
    if IsLastPart(path, part) { TailBytes(path, part); }
  }

  /** What a key enumeration gives for the row k: the part of its path, the time and
      the class, which no row has; the class outputs only on success. */
  ghost predicate GivesKey(k: KeyRow, nameLen: nat, hasClass: bool, classLen: Option<DWord>, status: Status,
                           nameOut: nat, classOut: Option<DWord>, lastWrite: Option<FileTime>,
                           name: seq<Octet>, newName: seq<Octet>, cls: seq<Octet>, newCls: seq<Octet>)
  {
    forall part :: IsLastPart(k.path, part) ==>
      && GivesName(part, nameLen, name, newName)
      && if |part| >= nameLen then
           && status == MoreData && nameOut == |part| + 1 && lastWrite == None
           && classOut == classLen && newCls == cls
         else
           && status == Success && nameOut == |part| && lastWrite.Some?
           && (IsConvertible(k.mtime) ==> Seconds(lastWrite.value) == k.mtime)
           && classOut == (if hasClass && classLen.Some? then Some(0) else classLen)
           && IsFilled(cls, newCls, if hasClass && classLen.Some? && classLen.value > 0 then Some([0]) else None)
  }

  /** Nothing written. */
  predicate GivesNothing(nameLen: nat, classLen: Option<DWord>, nameOut: nat, classOut: Option<DWord>,
                         lastWrite: Option<FileTime>, name: seq<Octet>, newName: seq<Octet>,
                         cls: seq<Octet>, newCls: seq<Octet>)
  {
    nameOut == nameLen && classOut == classLen && lastWrite == None && newName == name && newCls == cls
  }

  /** For the key at this path. */
  ghost predicate ListsBelow(t: Tables, path: CText, index: nat, fetch: Outcome, nameLen: nat, hasClass: bool,
                             classLen: Option<DWord>, status: Status, nameOut: nat, classOut: Option<DWord>,
                             lastWrite: Option<FileTime>, name: seq<Octet>, newName: seq<Octet>,
                             cls: seq<Octet>, newCls: seq<Octet>)
  {
    if fetch.Ran? && exists k :: IsSubkeyAt(t, path, index, k) then
      forall k :: IsSubkeyAt(t, path, index, k) ==>
        GivesKey(k, nameLen, hasClass, classLen, status, nameOut, classOut, lastWrite, name, newName, cls, newCls)
    else
      && status == (if fetch.NotPrepared? then BadDb else NoMoreItems)
      && GivesNothing(nameLen, classLen, nameOut, classOut, lastWrite, name, newName, cls, newCls)
  }

  ghost predicate ListsKeyAt(t: Tables, id: int, index: nat, find: Outcome, fetch: Outcome, nameLen: nat,
                             hasClass: bool, classLen: Option<DWord>, status: Status, nameOut: nat,
                             classOut: Option<DWord>, lastWrite: Option<FileTime>, name: seq<Octet>,
                             newName: seq<Octet>, cls: seq<Octet>, newCls: seq<Octet>)
  {
    if find.Ran? && exists l :: l in t.keys && l.id == id then
      forall l :: l in t.keys && l.id == id ==>
        ListsBelow(t, l.path, index, fetch, nameLen, hasClass, classLen, status, nameOut, classOut, lastWrite,
                   name, newName, cls, newCls)
    else
      && status == (if find.NotPrepared? then BadDb else InvalidHandle)
      && GivesNothing(nameLen, classLen, nameOut, classOut, lastWrite, name, newName, cls, newCls)
  }

  ghost predicate EnumKeyLaw(w: World, h: HKey, index: nat, select: Outcome, find: Outcome, fetch: Outcome,
                             nameLen: nat, hasClass: bool, classLen: Option<DWord>, status: Status, nameOut: nat,
                             classOut: Option<DWord>, lastWrite: Option<FileTime>, name: seq<Octet>,
                             newName: seq<Octet>, cls: seq<Octet>, newCls: seq<Octet>)
  {
    && (forall id :: WorksOn(w, h, select, id) ==>
          ListsKeyAt(w.t, id, index, find, fetch, nameLen, hasClass, classLen, status, nameOut, classOut, lastWrite,
                     name, newName, cls, newCls))
    && ((forall id :: !WorksOn(w, h, select, id)) ==>
          && IsRefusal(w, h, select, status)
          && GivesNothing(nameLen, classLen, nameOut, classOut, lastWrite, name, newName, cls, newCls))
  }

  lemma AnswerGivesKey(k: KeyRow, nameLen: nat, hasClass: bool, classLen: Option<DWord>,
                       name: seq<Octet>, cls: seq<Octet>)
    requires nameLen <= |name| && (hasClass && classLen.Some? ==> classLen.value <= |cls|)
    requires !hasClass ==> cls == []
    ensures var (status, nameOut, lastWrite) := SubkeyAnswer((Success, Some(k)), nameLen);
            GivesKey(k, nameLen, hasClass, classLen, status, nameOut, ClassLength(hasClass, classLen, status),
                     lastWrite, name, NameBuffer(name, SubkeyName(Some(k)), nameLen),
                     cls, ClassBuffer(cls, classLen, status))
  {
    var (status, nameOut, lastWrite) := SubkeyAnswer((Success, Some(k)), nameLen);
    var last := LastComponent(k.path);
    NameBufferGivesName(last, nameLen, name);
    if IsConvertible(k.mtime) { ConversionIsExact(k.mtime); }
    ClassBufferIsFilled(hasClass, classLen, cls);
    forall part | IsLastPart(k.path, part) ensures part == last { LastPartIff(k.path, part); }
  }

  lemma ClassBufferIsFilled(hasClass: bool, classLen: Option<DWord>, cls: seq<Octet>)
    requires hasClass && classLen.Some? ==> classLen.value <= |cls|
    requires !hasClass ==> cls == []
    ensures IsFilled(cls, ClassBuffer(cls, classLen, Success),
                     if hasClass && classLen.Some? && classLen.value > 0 then Some([0]) else None)
  {
  }

  lemma ListsFound(t: Tables, path: CText, index: nat, k: KeyRow, nameLen: nat, hasClass: bool,
                   classLen: Option<DWord>, status: Status, nameOut: nat, classOut: Option<DWord>,
                   lastWrite: Option<FileTime>, name: seq<Octet>, newName: seq<Octet>, cls: seq<Octet>,
                   newCls: seq<Octet>)
    requires UniquePaths(t) && SubkeyAtIndex(t, path, index) == Some(k)
    requires GivesKey(k, nameLen, hasClass, classLen, status, nameOut, classOut, lastWrite, name, newName, cls, newCls)
    ensures ListsBelow(t, path, index, Ran, nameLen, hasClass, classLen, status, nameOut, classOut, lastWrite,
                       name, newName, cls, newCls)
  {
    SubkeyAtIff(t, path, index);
  }

  lemma ListsBelowHolds(t: Tables, path: CText, index: nat, fetch: Outcome, nameLen: nat,
                        hasClass: bool, classLen: Option<DWord>, name: seq<Octet>, cls: seq<Octet>)
    requires UniquePaths(t)
    requires nameLen <= |name| && (hasClass && classLen.Some? ==> classLen.value <= |cls|)
    requires !hasClass ==> cls == []
    ensures var row := if fetch.NotPrepared? then (BadDb, None)
                       else if fetch.StepFailed? || SubkeyAtIndex(t, path, index).None? then (NoMoreItems, None)
                       else (Success, SubkeyAtIndex(t, path, index));
            var (status, nameOut, lastWrite) := SubkeyAnswer(row, nameLen);
            ListsBelow(t, path, index, fetch, nameLen, hasClass, classLen, status, nameOut,
                       ClassLength(hasClass, classLen, status), lastWrite, name,
                       NameBuffer(name, SubkeyName(row.1), nameLen), cls, ClassBuffer(cls, classLen, status))
  {
    var row := SubkeyAtIndex(t, path, index);
    if fetch.Ran? && row.Some? {
      var k := row.value;
      var (status, nameOut, lastWrite) := SubkeyAnswer((Success, Some(k)), nameLen);
      AnswerGivesKey(k, nameLen, hasClass, classLen, name, cls);
      ListsFound(t, path, index, k, nameLen, hasClass, classLen, status, nameOut,
                 ClassLength(hasClass, classLen, status), lastWrite, name,
                 NameBuffer(name, SubkeyName(Some(k)), nameLen), cls, ClassBuffer(cls, classLen, status));
    } else {
      NoneIsListed(t, path, index, fetch);
    }
  }

  lemma NoneIsListed(t: Tables, path: CText, index: nat, fetch: Outcome)
    requires UniquePaths(t) && !(fetch.Ran? && SubkeyAtIndex(t, path, index).Some?)
    ensures !(fetch.Ran? && exists k :: IsSubkeyAt(t, path, index, k))
  {
    SubkeyAtIff(t, path, index);
  }

  lemma ListsKeyAtHolds(t: Tables, id: int, index: nat, find: Outcome, fetch: Outcome, nameLen: nat,
                        hasClass: bool, classLen: Option<DWord>, name: seq<Octet>, cls: seq<Octet>)
    requires UniquePaths(t) && UniqueIds(t)
    requires nameLen <= |name| && (hasClass && classLen.Some? ==> classLen.value <= |cls|)
    requires !hasClass ==> cls == []
    ensures var row := FetchSubkey(t, id, index, find, fetch);
            var (status, nameOut, lastWrite) := SubkeyAnswer(row, nameLen);
            ListsKeyAt(t, id, index, find, fetch, nameLen, hasClass, classLen, status, nameOut,
                       ClassLength(hasClass, classLen, status), lastWrite, name,
                       NameBuffer(name, SubkeyName(row.1), nameLen), cls, ClassBuffer(cls, classLen, status))
  {
    if HasId(t, id) {
      ListsBelowHolds(t, KeyById(t, id).path, index, fetch, nameLen, hasClass, classLen, name, cls);
    }
  }

  lemma EnumKeyLawHolds(w: World, h: HKey, index: nat, select: Outcome, find: Outcome, fetch: Outcome, nameLen: nat,
                        hasClass: bool, classLen: Option<DWord>, name: seq<Octet>, cls: seq<Octet>)
    requires UniquePaths(w.t) && UniqueIds(w.t)
    requires nameLen <= |name| && (hasClass && classLen.Some? ==> classLen.value <= |cls|)
    requires !hasClass ==> cls == []
    ensures var fetched := FetchedKey(w, h, select, find, fetch, index);
            var (status, nameOut, lastWrite) := SubkeyAnswer(fetched, nameLen);
            EnumKeyLaw(w, h, index, select, find, fetch, nameLen, hasClass, classLen, status, nameOut,
                       ClassLength(hasClass, classLen, status), lastWrite, name,
                       NameBuffer(name, SubkeyName(fetched.1), nameLen), cls, ClassBuffer(cls, classLen, status))
  {
    Resolved(w, h, select);
    ListsKeyAtHolds(w.t, ResolvedKey(w, h, select).1, index, find, fetch, nameLen, hasClass, classLen, name, cls);
  }

  // ---- Information ----------------------------------------------------------

  /** What is left of a text behind its first n characters. */
  function CharsBehind(s: CText, n: nat): seq<int> {
    if |Chars(s)| <= n then [] else Chars(s)[n..]
  }

  /** The subkeys counted are the rows listed for the path, and the maximum is that
      of what they have behind the path and a separator, in characters; it is 0
      when there is none. */
  ghost predicate CountsSubkeys(t: Tables, path: CText, count: nat, longest: nat) {
    && count == |set k | k in t.keys && IsListed(path, k.path)|
    && (forall k :: k in t.keys && IsListed(path, k.path) ==> |CharsBehind(k.path, |Chars(path)| + 1)| <= longest)
    && if count == 0 then longest == 0
       else exists k :: k in t.keys && IsListed(path, k.path) && |CharsBehind(k.path, |Chars(path)| + 1)| == longest
  }

  /** The values counted are those of the id; the first maximum is that of the
      characters of their names, the second that of their sizes. */
  ghost predicate CountsValues(t: Tables, id: int, count: nat, longest: nat, largest: nat) {
    && count == |set v | v in t.vals && v.keyId == id|
    && (forall v :: v in t.vals && v.keyId == id ==> |Chars(v.name)| <= longest && v.size <= largest)
    && if count == 0 then longest == 0 && largest == 0
       else
         && (exists v :: v in t.vals && v.keyId == id && |Chars(v.name)| == longest)
         && (exists v :: v in t.vals && v.keyId == id && v.size == largest)
  }

  ghost predicate Informs(t: Tables, l: KeyRow, subkeys: Outcome, classes: Outcome, values: Outcome, info: Info) {
    && (subkeys.Ran? <==> info.subkeys.Some?)
    && (subkeys.Ran? ==> CountsSubkeys(t, l.path, info.subkeys.value.0, info.subkeys.value.1))
    && info.maxClassLen == (if classes.Ran? then Some(0) else None)
    && (values.Ran? <==> info.values.Some?)
    && (values.Ran? ==> CountsValues(t, l.id, info.values.value.0, info.values.value.1, info.values.value.2))
    && (IsConvertible(l.mtime) ==> Seconds(info.lastWrite) == l.mtime)
  }

  ghost predicate InformsAt(t: Tables, id: int, find: Outcome, subkeys: Outcome, classes: Outcome, values: Outcome,
                            status: Status, info: Option<Info>)
  {
    && status == (if find.NotPrepared? then BadDb
                  else if find.StepFailed? || !(exists l :: l in t.keys && l.id == id) then InvalidHandle else Success)
    && (info.Some? <==> status == Success)
    && (info.Some? ==> forall l :: l in t.keys && l.id == id ==> Informs(t, l, subkeys, classes, values, info.value))
  }

  ghost predicate InfoLaw(w: World, h: HKey, select: Outcome, find: Outcome, subkeys: Outcome, classes: Outcome,
                          values: Outcome, status: Status, info: Option<Info>)
  {
    && (forall id :: WorksOn(w, h, select, id) ==> InformsAt(w.t, id, find, subkeys, classes, values, status, info))
    && ((forall id :: !WorksOn(w, h, select, id)) ==> IsRefusal(w, h, select, status) && info == None)
  }

  lemma SubkeysAreCounted(t: Tables, path: CText)
    ensures CountsSubkeys(t, path, |SubkeysOf(t, path)|, MaxOf(SubkeyLengths(t, path)))
  {
    ListedRows(t, path);
    var rows, longest := SubkeysOf(t, path), MaxOf(SubkeyLengths(t, path));
    forall k: KeyRow ensures SubkeyLength(path, k.path) == |CharsBehind(k.path, |Chars(path)| + 1)| {}
    forall k | k in t.keys && IsListed(path, k.path) ensures SubkeyLength(path, k.path) <= longest {
      assert k in rows && SubkeyLength(path, k.path) in SubkeyLengths(t, path);
    }
    if rows != {} {
      var k :| k in rows;
      assert SubkeyLength(path, k.path) in SubkeyLengths(t, path);
    }
  }

  lemma ValuesAreCounted(t: Tables, id: int)
    ensures CountsValues(t, id, |ValuesOf(t, id)|, MaxNameChars(t, id), MaxValueSize(t, id))
  {
    assert ValuesOf(t, id) == set v | v in t.vals && v.keyId == id;
    forall v | v in t.vals && v.keyId == id
      ensures |Chars(v.name)| <= MaxNameChars(t, id) && v.size <= MaxValueSize(t, id)
    {
      RowIsCounted(t, v);
    }
    if ValuesOf(t, id) != {} {
      var v :| v in ValuesOf(t, id);
      assert |Chars(v.name)| in NameLengths(t, id) && v.size as nat in DataSizes(t, id);
    }
  }

  lemma InfoInforms(t: Tables, l: KeyRow, subkeys: Outcome, classes: Outcome, values: Outcome)
    requires UniqueIds(t) && l in t.keys
    ensures Informs(t, l, subkeys, classes, values, InfoOf(t, l.id, subkeys, classes, values))
  {
    assert KeyById(t, l.id) == l;
    SubkeysAreCounted(t, l.path);
    ValuesAreCounted(t, l.id);
    if IsConvertible(l.mtime) { ConversionIsExact(l.mtime); }
  }

  lemma InformsAtHolds(t: Tables, id: int, find: Outcome, subkeys: Outcome, classes: Outcome, values: Outcome)
    requires UniqueIds(t) && find.Ran? && HasId(t, id)
    ensures InformsAt(t, id, find, subkeys, classes, values, Success, Some(InfoOf(t, id, subkeys, classes, values)))
  {
    InfoInforms(t, KeyById(t, id), subkeys, classes, values);
  }

  lemma InfoLawHolds(w: World, h: HKey, select: Outcome, find: Outcome, subkeys: Outcome, classes: Outcome,
                     values: Outcome)
    requires UniquePaths(w.t) && UniqueIds(w.t)
    ensures var (status, info) := Informed(w, h, select, find, subkeys, classes, values);
            InfoLaw(w, h, select, find, subkeys, classes, values, status, info)
  {
    Resolved(w, h, select);
    var id := ResolvedKey(w, h, select).1;
    if find.Ran? && HasId(w.t, id) { InformsAtHolds(w.t, id, find, subkeys, classes, values); }
  }
}
