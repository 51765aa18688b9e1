/** ORDER BY ... LIMIT 1 OFFSET n, the sizes db_enumerate_values writes back, and
    the aggregates of db_query_key_info. */
module Enumeration {
  import opened Text
  import opened Paths
  import opened Selection
  import opened Tables

  // ---- ORDER BY -------------------------------------------------------------

  ghost predicate IsLeast<T(!new)>(row: T, rows: set<T>, key: T -> CText) {
    row in rows && forall other :: other in rows ==> LexLe(key(row), key(other))
  }

  lemma {:induction false} LeastExists<T(!new)>(rows: set<T>, key: T -> CText)
    requires rows != {}
    ensures exists row :: IsLeast(row, rows, key)
    decreases |rows|
  {
    var x :| x in rows;
    if rows == {x} {
      LexTotal(key(x), key(x));
      assert IsLeast(x, rows, key);
    } else {
      var rest := rows - {x};
      assert rows == rest + {x};
      LeastExists(rest, key);
      var y :| IsLeast(y, rest, key);
      LexTotal(key(x), key(y));
      LexTotal(key(x), key(x));
      if LexLe(key(y), key(x)) {
        assert IsLeast(y, rows, key);
      } else {
        forall z | z in rows ensures LexLe(key(x), key(z)) {
          if z != x { LexTransitive(key(x), key(y), key(z)); }
        }
        assert IsLeast(x, rows, key);
      }
    }
  }

  /** The rows in ascending order of their key. */
  ghost function OrderedBy<T(!new)>(rows: set<T>, key: T -> CText): (s: seq<T>)
    ensures |s| == |rows|
    ensures forall row :: row in s <==> row in rows
    decreases |rows|
  {
    if rows == {} then []
    else
      LeastExists(rows, key);
      var row :| IsLeast(row, rows, key);
      [row] + OrderedBy(rows - {row}, key)
  }

  /** They are in order, and each is there once. */
  lemma {:induction false} OrderIsAscending<T(!new)>(rows: set<T>, key: T -> CText)
    ensures var s := OrderedBy(rows, key);
            && (forall i, j :: 0 <= i < j < |s| ==> LexLe(key(s[i]), key(s[j])) && s[i] != s[j])
            && (forall row :: row in s <==> row in rows)
    decreases |rows|
  {
    if rows == {} {
    } else {
      var s := OrderedBy(rows, key);
      var rest := rows - {s[0]};
      OrderIsAscending(rest, key);
      assert s[1..] == OrderedBy(rest, key);
      forall i, j | 0 <= i < j < |s| ensures LexLe(key(s[i]), key(s[j])) && s[i] != s[j] {
        assert s[j] == s[1..][j - 1];
        assert s[j] in rest;
        if i > 0 { assert s[i] == s[1..][i - 1]; }
      }
    }
  }

  ghost predicate IsAscending<T(!new)>(s: seq<T>, key: T -> CText) {
    forall i, j :: 0 <= i < j < |s| ==> LexLess(key(s[i]), key(s[j]))
  }

  ghost predicate HasUniqueKeys<T(!new)>(rows: set<T>, key: T -> CText) {
    forall x, y :: x in rows && y in rows && key(x) == key(y) ==> x == y
  }

  /** With a unique key the order is strict, so every row has one place. */
  lemma {:induction false} OrderIsStrict<T(!new)>(rows: set<T>, key: T -> CText)
    requires HasUniqueKeys(rows, key)
    ensures IsAscending(OrderedBy(rows, key), key)
    decreases |rows|
  {
    if rows == {} {
    } else {
      var s := OrderedBy(rows, key);
      var rest := rows - {s[0]};
      OrderIsStrict(rest, key);
      assert s[1..] == OrderedBy(rest, key);
      forall i, j | 0 <= i < j < |s| ensures LexLess(key(s[i]), key(s[j])) {
        if i == 0 {
          assert s[j] == s[1..][j - 1];
          assert s[j] in rest;
        } else {
          assert s[i] == s[1..][i - 1] && s[j] == s[1..][j - 1];
        }
      }
    }
  }

  /** How many rows come before row: the OFFSET that finds it. */
  function Rank<T(!new)>(rows: set<T>, key: T -> CText, row: T): nat {
    |set other | other in rows && LexLess(key(other), key(row))|
  }

  ghost function Elements<T>(s: seq<T>): set<T> {
    set x | x in s
  }

  ghost predicate HasNoRepeats<T>(s: seq<T>) {
    forall i, j :: 0 <= i < j < |s| ==> s[i] != s[j]
  }

  lemma {:induction false} PrefixCardinality<T>(s: seq<T>, n: nat)
    requires n <= |s| && HasNoRepeats(s)
    ensures |Elements(s[..n])| == n
  {
    if n == 0 {
      assert Elements(s[..0]) == {};
    } else {
      PrefixCardinality(s, n - 1);
      assert s[..n] == s[..n - 1] + [s[n - 1]];
      assert Elements(s[..n]) == Elements(s[..n - 1]) + {s[n - 1]};
      assert s[n - 1] !in s[..n - 1];
    }
  }

  lemma AscendingHasNoRepeats<T(!new)>(s: seq<T>, key: T -> CText)
    requires IsAscending(s, key)
    ensures HasNoRepeats(s)
  {
  }

  lemma PrefixIsBelow<T(!new)>(s: seq<T>, key: T -> CText, n: nat, x: T)
    requires IsAscending(s, key) && n < |s| && x in s
    ensures LexLess(key(x), key(s[n])) <==> x in s[..n]
  {
    AscendingHasNoRepeats(s, key);
    var i :| 0 <= i < |s| && s[i] == x;
    if i < n {
      assert s[..n][i] == x;
      assert LexLess(key(s[i]), key(s[n]));
    } else {
      assert x !in s[..n];
      if i > n && LexLess(key(x), key(s[n])) {
        assert LexLess(key(s[n]), key(s[i]));
        LexAntisymmetric(key(x), key(s[n]));
      }
    }
  }

  lemma RankInAscending<T(!new)>(rows: set<T>, key: T -> CText, s: seq<T>, n: nat)
    requires forall x :: x in s <==> x in rows
    requires IsAscending(s, key) && n < |s|
    ensures Rank(rows, key, s[n]) == n
  {
    forall x | x in s ensures LexLess(key(x), key(s[n])) <==> x in s[..n] {
      PrefixIsBelow(s, key, n, x);
    }
    AscendingHasNoRepeats(s, key);
    PrefixCardinality(s, n);
    assert (set other | other in rows && LexLess(key(other), key(s[n]))) == Elements(s[..n]);
  }

  /** The row at an index of the listing is the one with that many rows before it. */
  lemma RankIsIndex<T(!new)>(rows: set<T>, key: T -> CText, n: nat)
    requires HasUniqueKeys(rows, key) && n < |rows|
    ensures Rank(rows, key, OrderedBy(rows, key)[n]) == n
  {
    OrderIsStrict(rows, key);
    RankInAscending(rows, key, OrderedBy(rows, key), n);
  }

  lemma RankDetermines<T(!new)>(rows: set<T>, key: T -> CText, row: T)
    requires HasUniqueKeys(rows, key) && row in rows
    ensures Rank(rows, key, row) < |rows| && OrderedBy(rows, key)[Rank(rows, key, row)] == row
  {
    var s := OrderedBy(rows, key);
    var n :| 0 <= n < |s| && s[n] == row;
    RankIsIndex(rows, key, n);
  }

  // ---- Values of a key ------------------------------------------------------

  function NameOfRow(v: ValueRow): CText { v.name }
  function PathOfRow(k: KeyRow): CText { k.path }

  function ValuesOf(t: Tables, id: int): set<ValueRow> {
    set v | v in t.vals && v.keyId == id
  }

  /** The rows index 0, 1, 2, ... of an enumeration visits. */
  ghost function ValueListing(t: Tables, id: int): seq<ValueRow> {
    OrderedBy(ValuesOf(t, id), NameOfRow)
  }

  /** ORDER BY name LIMIT 1 OFFSET index. */
  ghost function ValueAtIndex(t: Tables, id: int, index: nat): Option<ValueRow> {
    if index < |ValueListing(t, id)| then Some(ValueListing(t, id)[index]) else None
  }

  /** The row a value enumeration fetches, or why there is none. */
  ghost function FetchRow(t: Tables, id: int, index: nat, select: Outcome): (Status, Option<ValueRow>) {
    if select.NotPrepared? then (BadDb, None)
    else if select.StepFailed? || ValueAtIndex(t, id, index).None? then (NoMoreItems, None)
    else (Success, ValueAtIndex(t, id, index))
  }

  lemma ListedValue(t: Tables, id: int, index: nat)
    requires SizedBlobs(t)
    ensures var row := ValueAtIndex(t, id, index);
            row.Some? ==>
              && row.value in ValuesOf(t, id) && row.value in t.vals
              && (row.value.data.Some? ==> |row.value.data.value| == row.value.size)
  {
  }

  /** The listing has every value of the key once, in ascending order of names. */
  lemma ListingIsComplete(t: Tables, id: int)
    requires Inv(t)
    ensures var s := ValueListing(t, id);
            && |s| == |ValuesOf(t, id)|
            && (forall v: ValueRow :: v in s <==> v in t.vals && v.keyId == id)
            && (forall i, j :: 0 <= i < j < |s| ==> LexLess(s[i].name, s[j].name))
  {
    var key: ValueRow -> CText := NameOfRow;
    OrderIsStrict(ValuesOf(t, id), key);
    var s := ValueListing(t, id);
    assert s == OrderedBy(ValuesOf(t, id), key);
    forall i, j | 0 <= i < j < |s| ensures LexLess(s[i].name, s[j].name) {
      assert LexLess(key(s[i]), key(s[j]));
    }
  }

  lemma ValueNamesAreKeys(t: Tables, id: int)
    requires UniqueNames(t)
    ensures HasUniqueKeys(ValuesOf(t, id), NameOfRow)
  {
  }

  // ---- Subkeys of a key -----------------------------------------------------

  /** The rows of the enumeration and count queries, as they are written. */
  function SubkeysOf(t: Tables, path: CText): set<KeyRow> {
    set k | k in t.keys && ChildSelectsAsWritten(path, k.path)
  }

  ghost function SubkeyListing(t: Tables, path: CText): seq<KeyRow> {
    OrderedBy(SubkeysOf(t, path), PathOfRow)
  }

  ghost function SubkeyAtIndex(t: Tables, path: CText, index: nat): Option<KeyRow> {
    if index < |SubkeyListing(t, path)| then Some(SubkeyListing(t, path)[index]) else None
  }

  /** The row a subkey enumeration fetches, or why there is none: the parent is
      found by its id and its path makes the patterns. */
  ghost function FetchSubkey(t: Tables, parentId: int, index: nat, find: Outcome, select: Outcome):
    (Status, Option<KeyRow>)
  {
    if find.NotPrepared? then (BadDb, None)
    else if find.StepFailed? || !HasId(t, parentId) then (InvalidHandle, None)
    else if select.NotPrepared? then (BadDb, None)
    else
      var row := SubkeyAtIndex(t, KeyById(t, parentId).path, index);
      if select.StepFailed? || row.None? then (NoMoreItems, None) else (Success, row)
  }

  lemma SubkeyPathsAreKeys(t: Tables, path: CText)
    requires UniquePaths(t)
    ensures HasUniqueKeys(SubkeysOf(t, path), PathOfRow)
  {
  }

  /** The index behind the last backslash among the first n bytes. */
  function BehindLast(path: CText, n: nat): (i: nat)
    requires n <= |path|
    ensures i <= n && forall j :: i <= j < n ==> path[j] != BACKSLASH
    ensures i > 0 ==> path[i - 1] == BACKSLASH
  {
    if n == 0 || path[n - 1] == BACKSLASH then n else BehindLast(path, n - 1)
  }

  /** What strrchr leaves: the part after the last backslash. */
  function LastComponent(path: CText): (name: CText)
    ensures BACKSLASH !in name
    ensures |name| <= |path| && path[|path| - |name|..] == name
    ensures |name| < |path| ==> path[|path| - |name| - 1] == BACKSLASH
  {
    path[BehindLast(path, |path|)..]
  }

  /** LENGTH(SUBSTR(path, LENGTH(parent) + 2)). */
  function SubkeyLength(parent: CText, path: CText): nat {
    if |Chars(path)| <= |Chars(parent)| + 1 then 0 else |Chars(path)| - |Chars(parent)| - 1
  }

  ghost function SubkeyLengths(t: Tables, path: CText): set<nat> {
    set k | k in SubkeysOf(t, path) :: SubkeyLength(path, k.path)
  }

  /** For a child the component enumerated is the rest of its path. */
  lemma ChildComponent(p: CText, q: CText)
    requires IsChild(p, q)
    ensures LastComponent(q) == q[|p| + 1..]
  {
    var rest := q[|p| + 1..];
    assert forall i :: |p| + 1 <= i < |q| ==> q[i] == rest[i - |p| - 1];
  }

  // ---- Sizes and retries ----------------------------------------------------

  /** What db_enumerate_values writes back for a row: a short name buffer asks for
      one byte more than the name, a short data buffer leaves the name length at
      the name's own, one byte too little for the next call. */
  function EnumSizes(v: ValueRow, nameLen: nat, hasData: bool, dataSize: Option<nat>): (Status, nat, Option<nat>) {
    if |v.name| >= nameLen then (MoreData, |v.name| + 1, dataSize)
    else if hasData && dataSize.Some? && dataSize.value < v.size then (MoreData, |v.name|, Some(v.size))
    else (Success, |v.name|, if dataSize.Some? then Some(v.size) else None)
  }

  /** How many calls a caller makes who feeds the sizes back. */
  function CallsNeeded(v: ValueRow, nameLen: nat, hasData: bool, dataSize: Option<nat>): (n: nat)
    ensures 1 <= n <= 4
  {
    1 + (if |v.name| >= nameLen then 1 else 0)
      + (if hasData && dataSize.Some? && dataSize.value < v.size then 2 else 0)
  }

  /** Each unsuccessful call brings success one call nearer. */
  lemma RetryProgress(v: ValueRow, nameLen: nat, hasData: bool, dataSize: Option<nat>)
    ensures var (status, nextLen, nextSize) := EnumSizes(v, nameLen, hasData, dataSize);
            && (status == Success <==> CallsNeeded(v, nameLen, hasData, dataSize) == 1)
            && (status != Success ==> CallsNeeded(v, nextLen, hasData, nextSize) ==
                                      CallsNeeded(v, nameLen, hasData, dataSize) - 1)
  {
  }

  // ---- Aggregates -----------------------------------------------------------

  /** MAX over a column, 0 when there is no row. */
  ghost function MaxOf(xs: set<nat>): (m: nat)
    ensures forall x :: x in xs ==> x <= m
    ensures if xs == {} then m == 0 else m in xs
    decreases |xs|
  {
    if xs == {} then 0
    else
      var x :| x in xs;
      var m := MaxOf(xs - {x});
      assert forall y :: y in xs ==> y == x || y in xs - {x};
      if m < x || xs == {x} then x else m
  }

  ghost function NameLengths(t: Tables, id: int): set<nat> {
    set v | v in ValuesOf(t, id) :: |Chars(v.name)|
  }

  ghost function DataSizes(t: Tables, id: int): set<nat> {
    set v | v in ValuesOf(t, id) :: v.size as nat
  }

  ghost function MaxNameChars(t: Tables, id: int): nat {
    MaxOf(NameLengths(t, id))
  }

  ghost function MaxValueSize(t: Tables, id: int): nat {
    MaxOf(DataSizes(t, id))
  }

  lemma RowIsCounted(t: Tables, v: ValueRow)
    requires v in t.vals
    ensures |Chars(v.name)| <= MaxNameChars(t, v.keyId) && v.size <= MaxValueSize(t, v.keyId)
  {
    assert v in ValuesOf(t, v.keyId);
    assert |Chars(v.name)| in NameLengths(t, v.keyId);
    assert (v.size as nat) in DataSizes(t, v.keyId);
  }

  /** max_value_name_len counts characters where the name buffer counts bytes:
      buffers of the advertised sizes suffice for every value exactly when no
      name has more bytes than the longest has characters. */
  lemma InfoBoundsSufficeIff(t: Tables, id: int)
    ensures (forall v :: v in ValuesOf(t, id) ==>
               EnumSizes(v, MaxNameChars(t, id) + 1, true, Some(MaxValueSize(t, id))).0 == Success) <==>
            (forall v :: v in ValuesOf(t, id) ==> |v.name| <= MaxNameChars(t, id))
  {
    forall v | v in ValuesOf(t, id) ensures v.size <= MaxValueSize(t, id) {
      RowIsCounted(t, v);
    }
  }

  /** ASCII names meet that. */
  lemma InfoBoundsSufficeForAscii(t: Tables, id: int)
    requires forall v :: v in ValuesOf(t, id) ==> IsAscii(v.name)
    ensures forall v :: v in ValuesOf(t, id) ==> |v.name| <= MaxNameChars(t, id)
  {
    forall v | v in ValuesOf(t, id) ensures |v.name| <= MaxNameChars(t, id) {
      CharsOfAscii(v.name);
      RowIsCounted(t, v);
    }
  }

  /** A name of one two-byte character does not. */
  lemma InfoBoundsFailForWideName(t: Tables, v: ValueRow)
    requires ValuesOf(t, v.keyId) == {v} && v.name == [0xC3, 0xA9]
    ensures EnumSizes(v, MaxNameChars(t, v.keyId) + 1, true, Some(MaxValueSize(t, v.keyId))).0 == MoreData
  {
  }

  /** Data bounds always suffice: a query with max_value_len never asks for more. */
  lemma InfoBoundsSufficeForQuery(t: Tables, id: int, name: CText, capacity: DWord)
    requires capacity >= MaxValueSize(t, id)
    ensures QueryValue(t, id, name, Ran, true, capacity) != MoreData
  {
    if HasValue(t, id, name) {
      RowIsCounted(t, ValueAt(t, id, name));
    }
  }
}
