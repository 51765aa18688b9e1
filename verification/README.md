# A model of the registry store

The library keeps a Windows-style registry in two SQL tables: key rows with a
full path each, and value rows that refer to a key row by its id. There is no
parent column; "child of" and "below" exist only as `LIKE` patterns printed into
1024-byte buffers. Handles pair a key id with the path it was found under, so
some calls address a key by path (open, create, delete) and others by id (values,
enumeration, information).

The project follows those layers.

| file | what it holds |
|---|---|
| Text.dfy | C strings as NUL-free bytes, the characters SQLite reads out of them, BINARY order |
| Like.dfy | `LIKE` with and without an escape character |
| Escape.dfy | patterns read with `ESCAPE '\'` |
| Paths.dfy | root names, build_full_path, C buffers, snprintf truncation |
| Selection.dfy | what the tree pattern selects among rooted paths, and the child patterns as intended |
| ChildPattern.dfy | what the child patterns select as written |
| Tables.dfy | the rows, their constraints, the row-level meaning of each statement |
| Runs.dfy | one step per critical section, runs, the invariant of every reachable world |
| Worlds.dfy | stores a program can bring about, as witnesses |
| RunTheorems.dfy | stale handles, isolation of roots, tree deletion, path algebra |
| ChildTheorems.dfy | the has-children test, key enumeration and the subkey count |
| ValueMap.dfy | the value table as a map of last writes |
| Boot.dfy | ensure_initialized and db_init, and the root loop as a run |
| Answers.dfy, Calls.dfy | what each query and each call comes down to, as functions |
| KeyLaws.dfy, ValueLaws.dfy, ListLaws.dfy | what a program may rely on: each call told over rows, handles, buffers and spelled-out paths, without those functions |
| Enumeration.dfy | ORDER BY with OFFSET, sizes written back, aggregates |
| Database.dfy | db_backend.c as a class that changes its tables in place |
| Registry.dfy | winreg.c as a class over the backend and the handle records |
| Callers.dfy | programs over the API: a query after any run, listing all values with the advertised sizes |
| InitRace.dfy | ensure_initialized under any number of threads |
| Utf8.dfy, Wide.dfy | UTF-8 (section 3 of RFC 3629) and the wide conversions |
| FileTime.dfy | Unix seconds to FILETIME (section 2.3.3 of MS-DTYP) |

The methods of the backend and the steps of a run are tied to the functions of
Tables.dfy, Answers.dfy and Calls.dfy; what the library is for is then proved about
those. Each method of Registry.dfy also ensures its law from KeyLaws.dfy,
ValueLaws.dfy or ListLaws.dfy, which names the path as base, backslash and sub key,
the key by its row, the value by its name and the enumerated row by how many come
before it, on every exit.

Every statement is given an outcome by its caller: it runs, cannot be prepared,
or fails when stepped, in which case it changes nothing. The clock, the block
malloc returns and whether iconv opens are parameters too. "Reachable" means
reachable from an empty store by any sequence of calls, restarts and failures.

## Where the code does not do what its documentation says

* The child queries put the pattern `P\%` next to `ESCAPE '\'`, so their
  separators escape the character after them. For every key whose part after the
  root does not begin with a backslash they select no row in any reachable state:
  deleting a key that has subkeys succeeds and leaves the subkeys without a
  parent, key enumeration ends at index 0, and the subkey count is 0
  (`ChildTheorems.NoChildIsSeen`, `ChildTheorems.DeletionOrphansChildren`;
  `ChildTheorems.OrphanIsReachable` gives a reachable store and the call). What
  the same patterns select with the backslash as an ordinary character is proved
  separately (`ChildTheorems.IntendedChildrenAreSeen`).
* When the code does meet its promise is stated exactly. The test can fire at all
  if and only if the part after the root begins with a backslash and the cut to
  1023 bytes leaves no escape character dangling
  (`ChildTheorems.GuardNeverFiresIff`); up to 1021 bytes nothing is cut
  (`ChildTheorems.ShortGuardNeverFiresIff`). As long as the statements run, a key
  without wildcards after its root is never deleted while it has children if and
  only if that part is an odd run of backslashes and the key has at most 1021 bytes
  (`ChildTheorems.PlainParentIsKeptIff`); such a key is not deleted as a leaf
  either (`ChildTheorems.OddRunIsNeverDeleted`). For any key the condition is
  that its pattern selects the key itself, or ends in a `%` followed only by `_`
  and takes the shortest path below (`ChildTheorems.ParentIsKeptIff`). The test
  as a whole, and the enumeration with the count, are right for no key: each key
  has a reachable store in which they are wrong
  (`ChildTheorems.GuardIsRightForNoKey`, `ChildTheorems.CountIsRightForNoKey`).
* Tree deletion uses `P%`. Over all reachable states it removes P's subtree and
  nothing else if and only if P is a whole root
  (`RunTheorems.TreeDeletionIsExactIff`). What goes wrong for every other P:
  * Up to 1022 bytes it also removes case variants and siblings whose names go on
    after the last component, with their values
    (`RunTheorems.TreeDeletionTakesVariants`, `RunTheorems.TreeDeletionTakesSiblings`).
  * A `%` or `_` after P's root acts as a wildcard and takes keys that do not
    continue P at all, with their values (`RunTheorems.TreeDeletionTakesStrangers`):
    the rows removed are those that continue P up to case if and only if P has no
    wildcard after its root and at most 1022 bytes
    (`RunTheorems.TreeDeletionFootprintIff`). For such P and one store it removes
    exactly the subtree if and only if no stored path continues P, up to case, in
    another way (`RunTheorems.TreeDeletionIsSubtreeIff`).
  * Past 1022 bytes the `%` is cut off, and it removes the whole subtree in every
    reachable state if and only if P fits or its first 1023 bytes end in a `%` of
    its own followed only by `_` (`RunTheorems.TreeDeletionIsCompleteIff`).

  It never leaves its root (`RunTheorems.TreeDeletionStaysUnderRoot`).
* `max_value_name_len` counts characters, name buffers count bytes; the advertised
  sizes suffice exactly when no name has more bytes than the longest has
  characters (`Enumeration.InfoBoundsSufficeIff`); a reachable store in which they
  do not is `RunTheorems.AdvertisedSizesFail`.
* The wide enumeration writes back the length of the name in bytes of UTF-8, which
  is its length in wide characters if and only if the name is ASCII or the
  byte-wise fallback made one wide character of each byte
  (`Wide.ReportedLengthIsWideIff`).

## Model

| member | source | states |
|---|---|---|
| Selection.RootIsPinned | src/db_backend.c:284-297 | a pattern that starts with a root name matches only paths under that very root although root names hold the wildcard `_`, and is decided by what follows the root; with and without ESCAPE |
| Selection.TreeStaysUnderRoot | src/db_backend.c:284-299 | P = path OR path LIKE 'P%' never selects a path of another root, for any wildcard in P and any cut by the buffer |
| Selection.TreeFootprint | src/db_backend.c:284-299 | for at most 1022 bytes and no wildcard after the root, selected if and only if the characters start with P's up to ASCII case |
| Selection.TreeFootprintIff | src/db_backend.c:284-299 | for every P, "starts with P's characters up to ASCII case" describes the selection among rooted paths if and only if P has no wildcard after its root and at most 1022 bytes |
| Selection.TreeSelectsCovered | src/db_backend.c:284-299 | for at most 1022 bytes, whatever P's characters cover is selected, `%` and `_` standing for any character |
| Selection.TreeSelectsExtensions | src/db_backend.c:284-299 | for at most 1022 bytes, whatever continues P's characters up to ASCII case is selected, even when P holds `%` or `_` |
| Selection.Stranger | src/db_backend.c:284-299 | a P with a wildcard after its root that still reaches its subtree selects a path of its root that does not continue P |
| Selection.WrongSubtree | src/db_backend.c:284-299 | every P other than a root has a path of its root that is selected and not at or below P, or at or below P and not selected |
| Selection.TreeIsComplete | src/db_backend.c:284-299 | P and every path P\... is selected for at most 1022 bytes, and beyond when the first 1023 end in a `%` followed only by `_` |
| Selection.TreeTakesSiblings | src/db_backend.c:284-299 | for at most 1022 bytes, a path that continues P with a byte that is neither a separator nor a UTF-8 continuation byte is selected though it is not below P |
| Selection.LongTreeMissesDescendants | src/db_backend.c:285-297 | past 1022 bytes the pattern has lost its `%`; with none of its own left in the first 1023 it selects nothing below P |
| Selection.TreeCompleteIff | src/db_backend.c:285-297 | for every P, everything at or below P is selected if and only if P has at most 1022 bytes or its first 1023 end in a `%` followed only by `_` |
| Selection.IntendedChildrenUnder | src/db_backend.c:366-391 | with the backslash an ordinary character, for P without wildcards after its root and at most 1019 bytes, LIKE 'P\%' AND NOT LIKE 'P\%\%' is "P up to case, a separator and one component" |
| Selection.ChildrenBelow | src/db_backend.c:366-391 | among the paths below P that is exactly being a child of P |
| Selection.IntendedChildrenBelowIff | src/db_backend.c:366-391 | so read, for any P, wildcards included, the two patterns select among the paths below P exactly its children if and only if P has at most 1019 bytes |
| Selection.IntendedPatternTakesAllIff | src/db_backend.c:222-247 | so read, for any P, the has-children pattern takes all that is below P if and only if what is printed of it ends in a `%` followed only by `_`; up to 1021 bytes it does |
| ChildPatterns.AsWrittenSelectsNothing | src/db_backend.c:222-247 | with ESCAPE '\' the child pattern matches no rooted path, unless the part of P after the root begins with a backslash |
| ChildPatterns.AsWrittenCanSelect | src/db_backend.c:222-247 | when it does begin so and the cut leaves no escape dangling, some rooted path matches |
| ChildPatterns.AsWrittenSelectsNothingIff | src/db_backend.c:222-247 | the two together, as an equivalence over all rooted paths and every P |
| ChildPatterns.SelectsBelowIff | src/db_backend.c:222-247 | for P without wildcards after the root, each path below P is selected if and only if that part is an odd run of backslashes and P has at most 1021 bytes |
| ChildPatterns.SeesEveryChildIff | src/db_backend.c:222-247 | for every P, all children are selected if and only if the pattern ends in a `%` followed only by `_` and takes the shortest text below P |
| ChildPatterns.OddRunSelectsItself | src/db_backend.c:222-247 | an odd run of backslashes after the root makes the key its own child |
| ChildPatterns.GuardIsNeverExact | src/db_backend.c:222-247 | every P has a rooted path that is below it and not selected, or selected and not below it |
| ChildPatterns.ListingIsNeverExact | src/db_backend.c:366-391 | every P has a rooted path that is a child and not listed, or listed and no child |
| Escape.ParseSplits | src/db_backend.c:227 | under ESCAPE '\' a part of a pattern hands on to the next at most a dangling escape character |
| Escape.PairsMatchIff | src/db_backend.c:227 | a text that repeats a wildcard-free pattern matches it under ESCAPE '\' only as pairs of backslashes |
| Like.MatchFixedPrefix | src/db_backend.c:227 | a stretch of literals and `_` takes exactly as many characters, one each |
| Like.MatchFixedSuffix | src/db_backend.c:227 | so does such a stretch at the end |
| Like.MissesSome | src/db_backend.c:286 | a pattern whose last token other than `_` is no `%` misses every long enough row of some letter behind any text |
| Like.RunReaches | src/db_backend.c:286 | any other pattern takes every extension of a text it takes |
| Like.MatchesOwnExtensions | src/db_backend.c:286 | a pattern read plainly and followed by `%` matches every extension of its own text, in any case and with any characters for its wildcards |
| Paths.PredefinedNames | src/registry_utils.c:18-38 | each of the five handles has the name of its place in the list of roots, and no other handle has a name |
| Paths.FullPath | src/registry_utils.c:58-74 | without a sub key the path is the base; with one it is the base, a separator and the sub key |
| Paths.FullPathComposes | src/registry_utils.c:58-74 | appending a, then b, is appending a\b |
| Paths.FullPathStaysUnderRoot | src/registry_utils.c:41-77 | the path built has the root of its base |
| Paths.RootIsUnique | src/registry_utils.c:18-33 | a path has at most one root |
| Paths.StrCat | src/registry_utils.c:71-74 | the buffer's string is followed by the appended one and its terminator |
| Paths.BuildFullPath | src/registry_utils.c:41-77 | the allocation holds the path and its terminator and not a byte more |
| Tables.CreateKeyKeepsInv | src/db_backend.c:121-180 | unique paths, unique ids below the counter, unique names, foreign keys and rooted paths survive creation, on every exit |
| Tables.DeleteKeyKeepsInv | src/db_backend.c:215-273 | the same for deleting a key |
| Tables.DeleteTreeKeepsInv | src/db_backend.c:276-309 | the same for deleting a tree, with the cascade to values |
| Tables.SetValueKeepsInv | src/db_backend.c:448-492 | the same for setting a value, the foreign key failure included |
| Tables.DeleteValueKeepsInv | src/db_backend.c:549-583 | the same for deleting a value |
| Tables.SetRows | src/db_backend.c:457-488 | setting a value leaves other keys, their values, all ids and all paths alone |
| Tables.SetStampsKey | src/db_backend.c:481-488 | a successful set gives its key the current time and keeps the rest of that row |
| KeyLaws.NamesOne | src/registry_utils.c:41-77 | a usable handle and a sub key name exactly one path: the root's name or the handle's path, alone or followed by a backslash and the sub key |
| KeyLaws.OpenLawHolds | src/winreg.c:32-59 | opening succeeds if and only if a row has that path and a record is allocated; the record stands for it, other handles and the tables stay |
| KeyLaws.CreateLawHolds | src/winreg.c:80-113 | creating leaves the old row or adds one under an unused id with the given options and time, and nothing else changes in the tables; the status on every exit |
| KeyLaws.StoredKeysOpen | src/winreg.c:32-59 | two stored keys open one after the other and at once, always, and to the same record |
| KeyLaws.CloseLawHolds | src/winreg.c:143-155 | closing forgets that handle and no other |
| KeyLaws.DeleteLawHolds | src/winreg.c:234-248 | deleting removes exactly the row at that path and its values, or refuses or fails and changes nothing; the status on every exit |
| KeyLaws.TreeLawHolds | src/winreg.c:468-482 | deleting a tree leaves nothing at or below that path, takes values exactly with their keys, stays under its root, and without wildcards keeps every key that does not continue the path |
| KeyLaws.RestartLaw | src/winreg.c:7-7 | a restart keeps the store and forgets the handles |
| ValueLaws.Resolved | src/winreg.c:166-184 | a by-id call works on the id of the root's row or of the open handle, or is refused with the reason |
| ValueLaws.SetLawHolds | src/winreg.c:198-222 | setting writes exactly one row for the key and the name given, replaces the old one, and changes one key's time |
| ValueLaws.UnsetLawHolds | src/winreg.c:259-282 | deleting removes exactly the row of the key and the name |
| ValueLaws.LookUpLaw | src/winreg.c:207-212 | a thread's look-up finds the root's row and changes nothing else |
| ValueLaws.StepSets | src/winreg.c:221-221 | a set step writes under the id of its target, an open handle or a look-up |
| ValueLaws.StepUnsets | src/winreg.c:281-281 | a deletion step likewise |
| ValueLaws.QueryLawHolds | src/winreg.c:158-186 | a query answers with the row of the key and the name given: status for the capacity, kind, size, and its bytes at the start of the buffer on success only |
| ListLaws.ValueAtIff | src/db_backend.c:595-607 | a value is at an index if and only if the index is below their number, and it is the one with that many names before it |
| ListLaws.EnumValueLawHolds | src/winreg.c:370-398 | enumeration answers with that value or NO_MORE_ITEMS: status, sizes, kind and data |
| ListLaws.NameLawHolds | src/winreg.c:370-398 | and its name, terminated, when it fits |
| ListLaws.SubkeyAtIff | src/db_backend.c:366-388 | a key is at an index if and only if the index is below the number of rows the printed patterns select, and that many paths come before it |
| ListLaws.EnumKeyLawHolds | src/winreg.c:293-322 | key enumeration answers with that row: the part behind its last backslash, the time, the class emptied |
| ListLaws.InfoLawHolds | src/winreg.c:428-455 | the value count, the maximum of name characters, the maximum of sizes, the subkey count and maximum, and the time, each for what it is |
| Boot.BootLawHolds | src/winreg.c:11-29 | initialisation adds roots and nothing else, failures leave the tables alone, and with statements that run all five roots are there |
| Callers.QueryAfterRun | src/winreg.c:158-186 | after any run a query through a handle or a root answers with the last value set for the key and the name: status, kind, size and bytes |
| Callers.ListValues | src/db_backend.c:738-760 | for ASCII names a program that allocates the advertised sizes lists as many values as it was told, each once in ascending order, and never meets MORE_DATA |
| Runs.StepEvolves | src/db_backend.c:13-36 | no call changes a path, and an id without a row gets none again |
| Runs.StepKeepsInv | src/winreg.c:32-482 | every call keeps the table constraints and the coherence of every handle record and every looked-up id |
| Runs.RunKeepsInv | src/winreg.c:32-482 | any run does |
| Runs.ReachableInv | src/winreg.c:97-108 | in every reachable world the row behind a handle, if there is one, has the handle's path, and no row at that path is older than the handle |
| RunTheorems.GoneStaysGone | src/db_backend.c:15-16 | a deleted key's id never comes back, through any run |
| RunTheorems.StaleHandleIsInert | src/db_backend.c:458-479 | through a record whose key was deleted, a handle's or a look-up's, sets fail, queries and deletes report not found, nothing changes, and a key re-created at the path has a larger id |
| RunTheorems.StaleStepIsInert | src/winreg.c:205-221 | so a set or a deletion whose root was deleted and made again between its two sections fails and changes nothing |
| RunTheorems.DeletedIdIsGone | src/db_backend.c:249-272 | a successful deletion leaves no row with the path or the id of the key that was there; any other exit changes nothing |
| RunTheorems.OpenAfterCreate | src/db_backend.c:121-212 | the key created is the key opened, a new one has a new id and no values, and other paths open as before |
| RunTheorems.TreeDeletionStaysUnderRoot | src/db_backend.c:276-309 | deleting a tree leaves keys and values of the other roots alone |
| RunTheorems.StepStaysUnderRoot | src/winreg.c:32-482 | so does every call that works on a path under one root, by path or by id |
| RunTheorems.RunStaysUnderRoot | src/winreg.c:32-482 | and every run of such calls |
| RunTheorems.ValuesFollowKeys | src/db_backend.c:30-30 | after a tree deletion the values left are exactly those of the keys left |
| RunTheorems.TreeDeletionFootprint | src/db_backend.c:276-309 | exactly which rows go, for a path of at most 1022 bytes without wildcards after its root: those that continue it up to case |
| RunTheorems.TreeDeletionFootprintIff | src/db_backend.c:276-309 | those rows are the ones removed in every reachable world exactly for such paths |
| RunTheorems.TreeDeletionTakesStrangers | src/db_backend.c:276-309 | otherwise, when the pattern still reaches the subtree, a reachable store holds a key that does not continue P and loses it with its value |
| RunTheorems.TreeDeletionIsExactIff | src/db_backend.c:276-309 | for every P, tree deletion removes P's subtree and no other key in every reachable world if and only if P is a root |
| RunTheorems.TreeDeletionIsComplete | src/db_backend.c:276-309 | no key at or below P is left, nor any of its values, for any P whose pattern still reaches them |
| RunTheorems.TreeDeletionIsCompleteIff | src/db_backend.c:276-309 | that holds in every reachable world if and only if P has at most 1022 bytes or its first 1023 end in a `%` followed only by `_` |
| RunTheorems.TreeDeletionIsSubtreeIff | src/db_backend.c:276-309 | for one store and a P of at most 1022 bytes without wildcards after its root, it removes P's subtree and nothing else if and only if no stored path continues P, up to case, in another way |
| RunTheorems.TreeDeletionTakesVariants | src/db_backend.c:276-309 | for P of at most 1022 bytes, every key that continues P up to case goes, with its values |
| RunTheorems.TreeDeletionTakesSiblings | src/db_backend.c:276-309 | so does a stored sibling whose name goes on after P's last component with a byte that is neither a separator nor a UTF-8 continuation byte, with its values, though it is not below P |
| ChildTheorems.NoChildIsSeen | src/db_backend.c:222-247 | as written, neither the has-children test nor the child selection finds a row, for ordinary paths |
| ChildTheorems.NoSubkeyIsListed | src/db_backend.c:366-397 | so for an ordinary key enumeration answers NO_MORE_ITEMS at every index, and the subkey count and maximum are 0 |
| ChildTheorems.IntendedChildrenAreSeen | src/db_backend.c:366-391 | as intended, for P of at most 1019 bytes the selection among the rows below P is exactly its children, and without wildcards after the root the selection among all rows is the children up to case |
| ChildTheorems.IntendedGuardSeesBelow | src/db_backend.c:222-247 | as intended, the has-children test sees whatever lies below a key of at most 1021 bytes |
| ChildTheorems.DeletionOrphansChildren | src/db_backend.c:215-273 | deleting an ordinary key succeeds whatever lies below it, and leaves that behind |
| ChildTheorems.OrphanIsReachable | src/db_backend.c:215-273 | a reachable store with a key and its child, and the call that deletes the key and leaves the child, whenever the pattern selects neither |
| ChildTheorems.ParentIsKeptIff | src/db_backend.c:215-246 | in every reachable world a key with a child is refused deletion if and only if the pattern selects the key itself or takes all that is below it |
| ChildTheorems.PlainParentIsKeptIff | src/db_backend.c:215-246 | without wildcards after the root: if and only if that part is an odd run of backslashes and the key has at most 1021 bytes |
| ChildTheorems.OddRunIsNeverDeleted | src/db_backend.c:215-246 | such a key is refused even without children |
| ChildTheorems.GuardIsRightForNoKey | src/db_backend.c:222-246 | every key has a reachable world that holds it in which the has-children test is wrong |
| ChildTheorems.CountIsRightForNoKey | src/db_backend.c:366-391 | every key has a reachable world that holds it in which the rows listed and counted are more or fewer than its children |
| ChildTheorems.GuardNeverFiresIff | src/db_backend.c:222-247 | ERROR_KEY_HAS_CHILDREN is impossible in every reachable world if and only if the part after the root does not begin with a backslash or the cut leaves an escape dangling |
| ChildTheorems.ShortGuardNeverFiresIff | src/db_backend.c:222-247 | for a key of at most 1021 bytes: if and only if the part after the root does not begin with a backslash |
| Worlds.RootedPathIsReachable | src/db_backend.c:154-166 | any rooted path can be made a row of an initialised store without its parents |
| RunTheorems.SamePathSameKey | src/winreg.c:42-52 | reaching the path of a live handle gives the same key id and path |
| RunTheorems.TwoStepsAreOne | src/winreg.c:32-113 | opening or creating a and then b through the new handle gives the record that a\b gives in one call |
| ValueMap.SetLookup | src/db_backend.c:448-492 | a successful set is what a look-up of its pair finds, and no other look-up changes |
| ValueMap.UnsetLookup | src/db_backend.c:549-583 | a deletion removes its pair and no other |
| ValueMap.RemovalLookup | src/db_backend.c:30-30 | deleting keys removes exactly the pairs of those keys |
| ValueMap.ValuesAreLastWrites | src/db_backend.c:448-583 | over any run, a pair holds what the last set of it stored, unless it or its key was deleted since |
| ValueMap.QueryReturnsLastWrite | src/db_backend.c:495-546 | a query succeeds exactly when there is such a value and the buffer has room; a NULL name is the empty name |
| Enumeration.OrderIsAscending | src/db_backend.c:595-596 | the ordered rows are the selected rows, each once, in ascending order |
| Enumeration.OrderIsStrict | src/db_backend.c:595-596 | with unique names the order is strict |
| Enumeration.RankIsIndex | src/db_backend.c:595-607 | the row at OFFSET n is the row with exactly n rows before it |
| Enumeration.ListingIsComplete | src/db_backend.c:586-613 | indices 0, 1, 2, ... visit every value of the key once, in strictly ascending order of names |
| Enumeration.RetryProgress | src/db_backend.c:616-646 | a call that asks for more brings a caller who feeds the sizes back one call nearer to success |
| Enumeration.InfoBoundsSufficeIff | src/db_backend.c:738-760 | when buffers of the advertised sizes suffice for every value |
| Enumeration.InfoBoundsSufficeForAscii | src/db_backend.c:738-760 | they do for ASCII names |
| Enumeration.InfoBoundsFailForWideName | src/db_backend.c:738-760 | they do not for a key whose only value is named by one two-byte character |
| RunTheorems.AdvertisedSizesFail | src/db_backend.c:738-760 | a reachable store in which enumerating a key's only value through buffers of the advertised sizes asks for more |
| Enumeration.InfoBoundsSufficeForQuery | src/db_backend.c:738-760 | a query with max_value_len bytes never asks for more |
| Enumeration.LastComponent | src/db_backend.c:399-401 | what strrchr leaves: a suffix without a backslash, preceded by one or whole |
| Enumeration.ChildComponent | src/db_backend.c:399-401 | for a child of P that is the rest of its path |
| Backend.Database.Init | src/db_backend.c:59-105 | a failure leaves the database closed and the tables alone; success attempts the five roots in order |
| Backend.Database.DbCreateKey | src/db_backend.c:121-180 | the new tables, status, id and disposition are those of Tables.CreateKey |
| Backend.Database.DbOpenKey | src/db_backend.c:183-212 | status and id are those of Tables.OpenKey |
| Backend.Database.DbDeleteKey | src/db_backend.c:215-273 | tables and status are those of Tables.DeleteKey |
| Backend.Database.DbDeleteKeyTree | src/db_backend.c:276-309 | tables and status are those of Tables.DeleteTree |
| Backend.Database.DbSetValue | src/db_backend.c:448-492 | tables and status are those of Tables.SetValue |
| Backend.Database.DbQueryValue | src/db_backend.c:495-546 | status, kind and size are those of the look-up, the bytes are copied on success only, and the rest of the buffer stays |
| Backend.Database.DbDeleteValue | src/db_backend.c:549-583 | tables and status are those of Tables.DeleteValue |
| Backend.Database.DbEnumerateValues | src/db_backend.c:586-654 | the row at the index in the listing: status, sizes and kind on every exit, and all bytes of both buffers |
| Backend.Database.DbEnumerateKeys | src/db_backend.c:339-445 | the row at the index among the rows selected as written: status, length and time on every exit, the last component in the name buffer, the class emptied on success |
| Backend.Database.DbQueryKeyInfo | src/db_backend.c:657-771 | counts, maxima and time over the rows selected as written and over the values |
| Backend.Database.EnumerateAll | src/db_backend.c:586-654 | a caller's loop over indices ends after exactly as many steps as there are values, with a copy of each in order |
| Backend.Database.EnumerateWithRetry | src/db_backend.c:616-646 | a caller's retry loop succeeds after exactly CallsNeeded calls, at most four, from any sizes |
| Api.Registry.EnsureInitialized | src/winreg.c:11-29 | the law of initialisation: later calls do nothing, a failed one leaves the library uninitialised and the tables alone |
| Api.Registry.RegOpenKeyExA | src/winreg.c:32-59 | initialisation and then the step Open, with its law |
| Api.Registry.RegCreateKeyExA | src/winreg.c:80-113 | initialisation and then the step Create, with its law; the disposition says whether the path was absent |
| Api.Registry.RegCloseKey | src/winreg.c:143-155 | the step Close, with its law |
| Api.Registry.RegQueryValueExA | src/winreg.c:158-186 | the law of querying, on every exit, in place in the caller's buffer |
| Api.Registry.RegSetValueExA | src/winreg.c:198-222 | one step through a handle, two on a predefined root, with the law of setting |
| Api.Registry.RegDeleteKeyA | src/winreg.c:234-248 | initialisation and then the step Delete, with its law |
| Api.Registry.RegDeleteValueA | src/winreg.c:259-282 | one step through a handle, two on a predefined root, with the law of deleting a value |
| Api.Registry.RegEnumKeyExA | src/winreg.c:293-322 | the law of enumerating keys, class outputs included, on every exit |
| Api.Registry.RegEnumValueA | src/winreg.c:370-398 | the laws of enumerating values and of the name buffer, on every exit |
| Api.Registry.RegEnumValueW | src/winreg.c:401-425 | a NULL name or length pointer is refused; on success the wide buffer holds the decoded name and its terminator, otherwise it is untouched; the length reported counts bytes; status, sizes, kind and data follow the law of enumerating values |
| Api.Registry.RegQueryInfoKeyA | src/winreg.c:428-455 | the law of the information, on every exit |
| Api.Registry.RegDeleteTreeA | src/winreg.c:468-482 | initialisation and then the step DeleteSubtree, with its law |
| Calls.SetCallResolves | src/winreg.c:205-221 | looking the root up and then setting comes down to one backend call on the id found |
| Boot.BootIsARun | src/db_backend.c:89-102 | the loop over the root keys is a run of the machine |
| Boot.BootMakesRoots | src/db_backend.c:89-102 | when the statements run, every root exists afterwards and no key is lost |
| Boot.BootMakesOnlyRoots | src/db_backend.c:89-102 | and no other key is made |
| InitRace.InitialisationIsSafe | src/winreg.c:11-29 | under any interleaving success is returned only after one db_init attempted all roots and ran to its end, no second one does, and one thread at a time is past the mutex |
| InitRace.InitialisedIsFast | src/winreg.c:12-15 | once initialised a call returns success after its first check, whoever holds the mutex |
| InitRace.RunsAlone | src/winreg.c:11-29 | a thread that has the mutex or finds it free returns when it runs alone |
| InitRace.AlwaysRecoverable | src/winreg.c:11-29 | after any interleaving, failed attempts included, any thread can still get its success |
| Utf8.DecodeEncode | src/registry_utils.c:138-221 | decoding an encoding gives the code points back |
| Utf8.EncodeDecode | src/registry_utils.c:181-221 | text that decodes is the encoding of what it decodes to |
| Utf8.Encode | src/registry_utils.c:143-144 | the encoding has between one and four bytes per code point |
| Utf8.Decode | src/registry_utils.c:186-187 | decoding gives scalar values, at most one per byte |
| Utf8.LengthCountsCodePoints | src/db_backend.c:740-741 | LENGTH of well-formed text is its number of code points |
| Utf8.CharsOfEncoding | src/db_backend.c:740-741 | on well-formed text SQLite reads the code points, U+FFFE and U+FFFF replaced |
| Text.LexLessIff | src/db_backend.c:595-596 | BINARY order: the first byte that differs decides, and a proper prefix comes first |
| Like.SameLetterIff | src/db_backend.c:286-286 | LIKE takes a character for itself or for the other case of an ASCII letter |
| Wide.FallbackRoundTrip | src/registry_utils.c:170-221 | bytes iconv refuses become one wide character each and come back as they were |
| Wide.IconvToUtf8 | src/registry_utils.c:160-166 | four bytes per wide character are room enough; it fails exactly on a value that is no scalar |
| Wide.WcharToUtf8 | src/registry_utils.c:138-178 | the encoding and its terminator, or the low bytes when iconv fails |
| Wide.IconvToWide | src/registry_utils.c:203-209 | one wide character per byte is room enough; what is left over is the room less the code points |
| Wide.Utf8ToWchar | src/registry_utils.c:181-221 | the decoded string with its terminator at the index computed from outbytesleft, or the sign-extended bytes |
| Wide.Wcsncpy | src/winreg.c:416-418 | a string shorter than the room is copied whole and padded with NULs |
| Wide.WideRoundTrip | src/registry_utils.c:138-221 | wide to UTF-8 to wide is the identity on scalar values |
| Wide.ReportedLengthIsWideIff | src/winreg.c:411-421 | for every name the length reported is the wide length if and only if the name is ASCII or iconv does not open or cannot decode it |
| FileTimes.ProductFitsIff | src/db_backend.c:764 | the signed 64-bit product is in range and not negative exactly for these times |
| FileTimes.ConversionIsExact | src/db_backend.c:764-766 | recombining the two words gives the time back |
| FileTimes.ConversionKeepsOrder | src/db_backend.c:764-766 | (high, low) order is the order of times |
| FileTimes.EpochDifferenceIsCalendar | src/db_backend.c:437 | the constant is the number of seconds from 1601 to 1970 in the Gregorian calendar |

## Left out

- Enumeration.RetryProgress: about an unchanged row; a caller racing with writers is not modelled.
- FileTimes.ConversionIsExact: about the times whose product stays in the signed 64-bit range; outside it C leaves the result undefined.
- SQLite itself, its file, HOME, the directory and PRAGMA foreign_keys: a statement runs, cannot be prepared, or fails and changes nothing; foreign keys are taken to be on.
- Row ids of values, created_time and the class column: nothing reads the first two, and no statement writes a class, so key enumeration always finds it NULL and the class maximum is 0.
- The storage of DWORDs as signed 32-bit integers: kinds and options come back as they were bound, since the cast and its reverse cancel; sizes and indices of 2^31 and above are excluded by preconditions.
- The 32-bit truncation of lengths and counts: names stay below SQLite's own length limit, so lengths are natural numbers.
- Handle records are values in a map from pointers, not heap objects; a pointer that is no open handle gets the answer a record without its magic number gets, and reading freed memory is not modelled.
- malloc failure, except for the handle record, where it leaves the key created and returns ERROR_NOT_ENOUGH_MEMORY.
- Access rights, security attributes and RegFlushKey: nothing depends on them.
- The A forms without Ex, RegEnumKeyExW, RegQueryInfoKeyW and the W forms that only convert one argument.
- Optional outputs of RegQueryInfoKeyA: all of them are taken to be asked for.
- db_key_exists, db_get_connection, db_cleanup, registry_lock and registry_unlock: no API call uses them.
- The pointer lifetime of a path read from a finalised statement: the path is a copied value.
- Weak-memory effects of the unlocked read of the initialisation flag: interleavings are sequentially consistent.
- Concurrency inside one backend call: each is one critical section of the backend's mutex, so runs interleave whole calls; the two sections of a by-id call on a predefined root are separate steps.
- Conversions by iconv beyond RFC 3629: anything that is no scalar value or no well-formed UTF-8 makes iconv fail.
