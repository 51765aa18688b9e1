/** What the child queries mean for the tables of a run: the has-children test of
    db_delete_key, key enumeration and the subkey count. */
module ChildTheorems {
  import opened Text
  import opened Like
  import opened Paths
  import opened Selection
  import opened ChildPatterns
  import opened Tables
  import opened Runs
  import opened Enumeration
  import opened Worlds

  ghost predicate HasChild(t: Tables, p: CText) {
    exists k :: k in t.keys && IsChild(p, k.path)
  }

  ghost predicate HasBelow(t: Tables, p: CText) {
    exists k :: k in t.keys && InSubtree(p, k.path) && k.path != p
  }

  function ChildrenOf(t: Tables, p: CText): set<KeyRow> {
    set k | k in t.keys && IsChild(p, k.path)
  }

  // ---- Ordinary keys --------------------------------------------------------

  /** As written, the queries see no child in any table of rooted paths. */
  lemma NoChildIsSeen(t: Tables, r: CText, p: CText)
    requires Inv(t) && r in ROOTS && UnderRoot(r, p) && IsOrdinary(r, p)
    ensures !SeesChild(t, p)
    ensures SubkeysOf(t, p) == {}
  {
    forall k | k in t.keys ensures !HasChildSelects(p, k.path) {
      var s :| s in ROOTS && UnderRoot(s, k.path);
      RootNames(r, s);
      AsWrittenSelectsNothing(r, p, s, k.path);
    }
  }

  lemma EmptyListing(t: Tables, id: int, index: nat)
    requires HasId(t, id) && SubkeysOf(t, KeyById(t, id).path) == {}
    ensures FetchSubkey(t, id, index, Ran, Ran) == (NoMoreItems, None)
    ensures SubkeyLengths(t, KeyById(t, id).path) == {}
  {
  }

  /** So enumerating an ordinary key ends at once, and its subkey count is 0. */
  lemma NoSubkeyIsListed(t: Tables, r: CText, id: int, index: nat)
    requires Inv(t) && HasId(t, id) && r in ROOTS
    requires UnderRoot(r, KeyById(t, id).path) && IsOrdinary(r, KeyById(t, id).path)
    ensures FetchSubkey(t, id, index, Ran, Ran) == (NoMoreItems, None)
    ensures |SubkeysOf(t, KeyById(t, id).path)| == 0 && MaxOf(SubkeyLengths(t, KeyById(t, id).path)) == 0
  {
    NoChildIsSeen(t, r, KeyById(t, id).path);
    EmptyListing(t, id, index);
  }

  /** As intended, they see among the rows below a key exactly its children, and
      without wildcards in its path the children up to case and nothing else. */
  lemma IntendedChildrenAreSeen(t: Tables, r: CText, p: CText)
    requires Inv(t) && r in ROOTS && UnderRoot(r, p) && |p| + 4 < PATTERN_SIZE
    ensures forall k :: k in t.keys && InSubtree(p, k.path) && k.path != p ==>
              (ChildSelectsIntended(p, k.path) <==> IsChild(p, k.path))
    ensures HasNoWildcard(p[|r|..]) ==>
              forall k :: k in t.keys ==> (ChildSelectsIntended(p, k.path) <==> IsChildUpToCase(p, k.path))
  {
    forall k | k in t.keys && InSubtree(p, k.path) && k.path != p
      ensures ChildSelectsIntended(p, k.path) <==> IsChild(p, k.path)
    {
      IntendedChildrenBelow(p, k.path);
    }
    if HasNoWildcard(p[|r|..]) {
      forall k | k in t.keys ensures ChildSelectsIntended(p, k.path) <==> IsChildUpToCase(p, k.path) {
        var s :| s in ROOTS && UnderRoot(s, k.path);
        RootNames(r, s);
        IntendedChildrenUnder(r, p, s, k.path);
      }
    }
  }

  /** So leaf-only deletion deletes inner keys too: the children stay behind
      without a parent. */
  lemma DeletionOrphansChildren(t: Tables, r: CText, p: CText)
    requires Inv(t) && r in ROOTS && UnderRoot(r, p) && IsOrdinary(r, p) && HasPath(t, p)
    ensures var (u, status) := DeleteKey(t, p, Ran, Ran);
            && status == Success && !HasPath(u, p)
            && forall k :: k in t.keys && k.path != p ==> k in u.keys
  {
    NoChildIsSeen(t, r, p);
  }

  /** The has-children count with the backslash an ordinary character is positive. */
  ghost predicate SeesChildIntended(t: Tables, p: CText) {
    exists k :: k in t.keys && IsLike(ChildPattern(p), k.path, None)
  }

  /** As intended, the has-children test sees whatever lies below a key of at most
      1021 bytes. */
  lemma IntendedGuardSeesBelow(t: Tables, p: CText)
    requires HasBelow(t, p) && |p| <= 1021
    ensures SeesChildIntended(t, p)
  {
    var k :| k in t.keys && InSubtree(p, k.path) && k.path != p;
    IntendedPatternTakesBelow(p, k.path);
  }

  // ---- Stores of three kinds of rows ----------------------------------------

  /** The roots, p and q, and nothing else. */
  ghost predicate HoldsOnly(t: Tables, p: CText, q: CText) {
    forall path :: HasPath(t, path) <==> path in ROOTS || path == p || path == q
  }

  /** A row of such a store that is no root is that of p or q. */
  lemma MarkedRow(t: Tables, p: CText, q: CText, marked: iset<CText>)
    requires HoldsOnly(t, p, q) && forall s :: s in ROOTS ==> s !in marked
    ensures (exists k :: k in t.keys && k.path in marked) <==> p in marked || q in marked
  {
    assert forall k :: k in t.keys ==> HasPath(t, k.path);
    assert KeyAt(t, p) in t.keys && KeyAt(t, q) in t.keys;
  }

  lemma NoRootIsSelected(r: CText, p: CText)
    requires r in ROOTS && UnderRoot(r, p)
    ensures forall s :: s in ROOTS ==> !HasChildSelects(p, s)
  {
    forall s | s in ROOTS ensures !HasChildSelects(p, s) {
      RootNames(r, s);
      RootIsNotSelected(r, p, s);
    }
  }

  lemma NoRootIsBelow(p: CText)
    ensures forall s :: s in ROOTS ==> !IsChild(p, s) && !(InSubtree(p, s) && s != p)
  {
    forall s | s in ROOTS ensures !IsChild(p, s) && !(InSubtree(p, s) && s != p) {
      RootIsPlain(s);
    }
  }

  /** What the has-children test sees in such a store. */
  lemma SeenInStore(t: Tables, r: CText, p: CText, q: CText)
    requires r in ROOTS && UnderRoot(r, p) && HoldsOnly(t, p, q)
    ensures SeesChild(t, p) <==> HasChildSelects(p, p) || HasChildSelects(p, q)
  {
    NoRootIsSelected(r, p);
    MarkedRow(t, p, q, iset path | HasChildSelects(p, path));
  }

  /** What there is to be seen. */
  lemma BelowInStore(t: Tables, p: CText, q: CText)
    requires HoldsOnly(t, p, q)
    ensures HasBelow(t, p) <==> InSubtree(p, q) && q != p
    ensures HasChild(t, p) <==> IsChild(p, q)
    ensures ChildrenOf(t, p) == {} <==> !IsChild(p, q)
  {
    NoRootIsBelow(p);
    MarkedRow(t, p, q, iset path | InSubtree(p, path) && path != p);
    MarkedRow(t, p, q, iset path | IsChild(p, path));
    if HasChild(t, p) {
      var k :| k in t.keys && IsChild(p, k.path);
      assert k in ChildrenOf(t, p);
    }
  }

  /** What the enumeration and the count see in it. */
  lemma ListedInStore(t: Tables, r: CText, p: CText, q: CText)
    requires r in ROOTS && UnderRoot(r, p) && HoldsOnly(t, p, q)
    ensures SubkeysOf(t, p) == {} <==> !ChildSelectsAsWritten(p, p) && !ChildSelectsAsWritten(p, q)
  {
    NoRootIsSelected(r, p);
    var marked := iset path | ChildSelectsAsWritten(p, path);
    MarkedRow(t, p, q, marked);
    assert SubkeysOf(t, p) == {} <==> !exists k :: k in t.keys && k.path in marked by {
      assert forall k :: k in SubkeysOf(t, p) <==> k in t.keys && k.path in marked;
    }
  }

  // ---- When a key with children is kept -------------------------------------

  /** A reachable store with p and its child q, in which a call deletes p and
      leaves q. */
  lemma OrphanIsReachable(r: CText, p: CText, q: CText) returns (w: World, op: Op)
    requires r in ROOTS && UnderRoot(r, p) && UnderRoot(r, q) && IsChild(p, q)
    requires !HasChildSelects(p, p) && !HasChildSelects(p, q)
    ensures Reachable(w) && HasPath(w.t, p) && HasChild(w.t, p)
    ensures op.Delete? && op.count.Ran? && op.delete.Ran? && Allowed(w, op) && Step(w, op).1 == Success
    ensures Step(w, op).0.t == DeleteKey(w.t, p, Ran, Ran).0 && DeleteKey(w.t, p, Ran, Ran).1 == Success
    ensures !HasPath(Step(w, op).0.t, p) && HasPath(Step(w, op).0.t, q)
  {
    w := Holding(r, p, q);
    SeenInStore(w.t, r, p, q);
    BelowInStore(w.t, p, q);
    op := DeletionOf(w, r, p);
    UnseenIsDeleted(w.t, p, q);
  }

  lemma DeletionOf(w: World, r: CText, p: CText) returns (op: Op)
    requires r in ROOTS && UnderRoot(r, p)
    ensures op.Delete? && op.count.Ran? && op.delete.Ran? && Allowed(w, op)
    ensures (Step(w, op).0.t, Step(w, op).1) == DeleteKey(w.t, p, Ran, Ran)
  {
    var h := PredefinedHandle(r);
    var sub := PathFromRoot(r, p);
    op := Delete(h, sub, Ran, Ran);
  }

  lemma UnseenIsDeleted(t: Tables, p: CText, q: CText)
    requires !SeesChild(t, p) && HasPath(t, p) && HasPath(t, q) && q != p
    ensures var (u, status) := DeleteKey(t, p, Ran, Ran); status == Success && !HasPath(u, p) && HasPath(u, q)
  {
    assert KeyAt(t, q) in DeleteKey(t, p, Ran, Ran).0.keys;
  }

  /** The test keeps p whenever p has a child and the statements run: in every
      reachable world that holds both, the deletion is refused and changes nothing. */
  ghost predicate KeepsParent(p: CText) {
    forall w :: Reachable(w) && HasPath(w.t, p) && HasChild(w.t, p) ==>
      DeleteKey(w.t, p, Ran, Ran) == (w.t, KeyHasChildren)
  }

  /** For any path: exactly when it selects itself or the pattern takes all that
      is below it. */
  lemma ParentIsKeptIff(r: CText, p: CText)
    requires r in ROOTS && PlainName(r) && UnderRoot(r, p)
    ensures KeepsParent(p) <==> HasChildSelects(p, p) || TakesAllBelow(r, p)
  {
    if HasChildSelects(p, p) || TakesAllBelow(r, p) {
      SeesEveryChildIff(r, p);
      SeeingKeepsParent(p);
    } else {
      var q := UnseenChild(r, p);
      var w, op := OrphanIsReachable(r, p, q);
    }
  }

  lemma SeeingKeepsParent(p: CText)
    requires HasChildSelects(p, p) || forall q :: IsChild(p, q) ==> HasChildSelects(p, q)
    ensures KeepsParent(p)
  {
    forall w | Reachable(w) && HasPath(w.t, p) && HasChild(w.t, p) ensures SeesChild(w.t, p) {
      var k :| k in w.t.keys && IsChild(p, k.path);
      assert KeyAt(w.t, p) in w.t.keys;
    }
  }

  /** Without wildcards after the root: exactly when that part is an odd run of
      backslashes and the pattern fits its buffer. */
  lemma PlainParentIsKeptIff(r: CText, p: CText)
    requires r in ROOTS && UnderRoot(r, p) && HasNoWildcard(p[|r|..])
    ensures KeepsParent(p) <==> IsOddRun(p[|r|..]) && |p| <= 1021
  {
    RootIsPlain(r);
    ParentIsKeptIff(r, p);
    SeesEveryChildIff(r, p);
    SeesEveryPlainChildIff(r, p);
    if !(IsOddRun(p[|r|..]) && |p| <= 1021) {
      OthersDoNotSelectThemselves(r, p);
    }
  }

  /** And such a key is refused even as a leaf. */
  lemma OddRunIsNeverDeleted(t: Tables, r: CText, p: CText)
    requires r in ROOTS && UnderRoot(r, p) && IsOddRun(p[|r|..]) && |p| <= 1021
    requires HasPath(t, p)
    ensures DeleteKey(t, p, Ran, Ran) == (t, KeyHasChildren)
  {
    RootIsPlain(r);
    OddRunSelectsItself(r, p);
    assert KeyAt(t, p) in t.keys;
  }

  /** For no key is the test right in all worlds: some reachable one holds p and
      the test sees a child there if and only if nothing is below p. */
  lemma GuardIsRightForNoKey(r: CText, p: CText) returns (w: World)
    requires r in ROOTS && UnderRoot(r, p)
    ensures Reachable(w) && HasPath(w.t, p)
    ensures SeesChild(w.t, p) <==> !HasBelow(w.t, p)
  {
    RootIsPlain(r);
    var q := p;
    if !HasChildSelects(p, p) {
      q := GuardIsNeverExact(r, p);
    }
    w := Holding(r, p, q);
    SeenInStore(w.t, r, p, q);
    BelowInStore(w.t, p, q);
  }

  /** Nor is the subkey count, and with it the enumeration. */
  lemma CountIsRightForNoKey(r: CText, p: CText) returns (w: World)
    requires r in ROOTS && UnderRoot(r, p)
    ensures Reachable(w) && HasPath(w.t, p)
    ensures |SubkeysOf(w.t, p)| != |ChildrenOf(w.t, p)|
  {
    RootIsPlain(r);
    var q := p;
    if !ChildSelectsAsWritten(p, p) {
      q := ListingIsNeverExact(r, p);
    }
    w := Holding(r, p, q);
    ListedInStore(w.t, r, p, q);
    BelowInStore(w.t, p, q);
  }

  /** The test can fire in some reachable world exactly for the paths whose part
      after the root begins with a backslash and whose pattern is not cut within
      an escape. */
  lemma GuardNeverFiresIff(r: CText, p: CText)
    requires r in ROOTS && PlainName(r) && UnderRoot(r, p)
    ensures (forall w :: Reachable(w) ==> !SeesChild(w.t, p)) <==> IsOrdinary(r, p) || Never in ChildTokens(r, p)
  {
    AsWrittenSelectsNothingIff(r, p);
    if IsOrdinary(r, p) || Never in ChildTokens(r, p) {
      forall w | Reachable(w) ensures !SeesChild(w.t, p) {
        ReachableInv(w);
      }
    } else {
      var q := AsWrittenCanSelect(r, p);
      var w := RootedPathIsReachable(r, q);
      assert KeyAt(w.t, q) in w.t.keys;
    }
  }

  /** For a key of at most 1021 bytes no escape is cut: exactly the ordinary ones. */
  lemma ShortGuardNeverFiresIff(r: CText, p: CText)
    requires r in ROOTS && UnderRoot(r, p) && |p| <= 1021
    ensures (forall w :: Reachable(w) ==> !SeesChild(w.t, p)) <==> IsOrdinary(r, p)
  {
    RootIsPlain(r);
    GuardNeverFiresIff(r, p);
    FittingHasNoNever(r, p);
  }
}
