/** What the three LIKE patterns of db_backend.c select among rooted paths.

    Tree deletion uses P%, without an escape character. The child queries use
    P\% with ESCAPE '\', which turns their separators into escapes; the queries
    as written (AsWritten) are kept apart from the reading they were meant to
    have (Intended), which is the one treated here. */
module Selection {
  import opened Text
  import opened Like
  import opened Paths

  /** Selected by `path = P OR path LIKE 'P%'`. */
  predicate TreeSelects(p: CText, q: CText) {
    q == p || IsLike(TreePattern(p), q, None)
  }

  /** Selected by `path LIKE 'P\%' ESCAPE '\'`, the has-children test. */
  predicate HasChildSelects(p: CText, q: CText) {
    IsLike(ChildPattern(p), q, Some(BACKSLASH))
  }

  /** Selected by the enumeration and count queries as written. */
  predicate ChildSelectsAsWritten(p: CText, q: CText) {
    HasChildSelects(p, q) && !IsLike(GrandchildPattern(p), q, Some(BACKSLASH))
  }

  /** Selected by the same queries with the backslash an ordinary character. */
  predicate ChildSelectsIntended(p: CText, q: CText) {
    IsLike(ChildPattern(p), q, None) && !IsLike(GrandchildPattern(p), q, None)
  }

  // ---- Reduction to the part after the root ---------------------------------

  lemma RootedChars(r: CText, p: CText)
    requires PlainName(r) && UnderRoot(r, p)
    ensures Chars(p) == r + Chars(p[|r|..])
    ensures p[|r|..] != [] ==> Chars(p[|r|..]) == [BACKSLASH] + Chars(p[|r| + 1..])
  {
    assert p == r + p[|r|..];
    CharsAsciiPrefix(r, p[|r|..]);
    if p[|r|..] != [] {
      assert p[|r|..] == [BACKSLASH] + p[|r| + 1..];
      CharsAsciiPrefix([BACKSLASH], p[|r| + 1..]);
    }
  }

  lemma RootTokens(r: CText)
    requires PlainName(r)
    ensures |Parse(r, None)| == |r| && IsFixed(Parse(r, None))
    ensures forall i :: 0 <= i < |r| ==> Parse(r, None)[i] == PlainToken(r[i])
  {
  }

  /** A pattern that starts with a root name, split behind that name. */
  lemma RootedPattern(r: CText, pattern: CText, text: seq<int>, escape: Option<int>)
    requires PlainName(r) && r <= pattern
    requires escape.None? || escape.value == BACKSLASH
    ensures Match(Parse(Chars(pattern), escape), text) <==>
            |r| <= |text| && TakesPrefix(Parse(r, None), text) &&
            Match(Parse(Chars(pattern[|r|..]), escape), text[|r|..])
  {
    RootTokens(r);
    assert pattern == r + pattern[|r|..];
    CharsAsciiPrefix(r, pattern[|r|..]);
    ParseConcat(r, Chars(pattern[|r|..]), escape);
    MatchFixedPrefix(Parse(r, None), Parse(Chars(pattern[|r|..]), escape), text);
  }

  lemma OwnRootIsTaken(r: CText, rest: seq<int>)
    requires PlainName(r)
    ensures TakesPrefix(Parse(r, None), r + rest) && (r + rest)[|r|..] == rest
  {
    RootTokens(r);
  }

  lemma OtherRootIsRefused(r: CText, s: CText, rest: seq<int>)
    requires PlainName(r) && Apart(r, s)
    ensures !TakesPrefix(Parse(r, None), s + rest)
  {
    RootTokens(r);
    var i :| 0 <= i < |r| && i < |s| && r[i] != UNDERSCORE && !SameLetter(r[i], s[i]);
    assert (s + rest)[i] == s[i];
    assert !Takes(Parse(r, None)[i], (s + rest)[i]);
  }

  /** The root names hold `_`, a wildcard; a pattern that starts with a root
      still matches only paths under that very root, and the rest of the pattern
      is matched against the rest of the path. */
  lemma RootIsPinned(r: CText, pattern: CText, s: CText, q: CText, escape: Option<int>)
    requires SameOrApart(r, s) && UnderRoot(s, q)
    requires r <= pattern
    requires escape.None? || escape.value == BACKSLASH
    ensures IsLike(pattern, q, escape) <==>
            r == s && Match(Parse(Chars(pattern[|r|..]), escape), Chars(q[|r|..]))
  {
    RootedPattern(r, pattern, Chars(q), escape);
    RootedChars(s, q);
    if r == s {
      OwnRootIsTaken(r, Chars(q[|r|..]));
    } else {
      OtherRootIsRefused(r, s, Chars(q[|s|..]));
    }
  }

  /** Literal text takes its own letters. */
  lemma LiteralTokens(a: seq<int>, s: seq<int>)
    requires HasNoWildcard(a)
    ensures IsFixed(Parse(a, None))
    ensures TakesPrefix(Parse(a, None), s) <==> FoldPrefix(a, s)
  {
    ParsePlain(a);
  }

  lemma WildcardsAreCharacters(x: CText)
    ensures HasNoWildcard(x) <==> HasNoWildcard(Chars(x))
  {
  }

  /** Plain text followed by `%` takes what starts with that text. */
  lemma PlainThenRun(c: seq<int>, s: seq<int>)
    requires HasNoWildcard(c)
    ensures Match(Parse(c + [PERCENT], None), s) <==> FoldPrefix(c, s)
  {
    ParseConcat(c, [PERCENT], None);
    assert Parse([PERCENT], None) == [AnyRun];
    LiteralTokens(c, s);
    ParsePlain(c);
    MatchFixedPrefix(Parse(c, None), [AnyRun], s);
    if |c| <= |s| { RunMatchesAll(s[|c|..]); }
  }

  /** `%\%` asks for a backslash. */
  lemma RunSeparatorRun(s: seq<int>)
    ensures Match(Parse([PERCENT, BACKSLASH, PERCENT], None), s) <==> BACKSLASH in s
  {
    ParsePlain([PERCENT, BACKSLASH, PERCENT]);
    assert Parse([PERCENT, BACKSLASH, PERCENT], None) == [AnyRun, Literal(BACKSLASH), AnyRun];
    MatchContains(BACKSLASH, s);
    assert forall i :: 0 <= i < |s| ==> (SameLetter(BACKSLASH, s[i]) <==> s[i] == BACKSLASH);
  }

  /** Plain text followed by `%\%` asks for a backslash behind that text. */
  lemma PlainThenContains(c: seq<int>, s: seq<int>)
    requires HasNoWildcard(c)
    ensures Match(Parse(c + [PERCENT, BACKSLASH, PERCENT], None), s) <==>
            FoldPrefix(c, s) && BACKSLASH in s[|c|..]
  {
    var tail := [PERCENT, BACKSLASH, PERCENT];
    ParseConcat(c, tail, None);
    LiteralTokens(c, s);
    ParsePlain(c);
    MatchFixedPrefix(Parse(c, None), Parse(tail, None), s);
    if |c| <= |s| { RunSeparatorRun(s[|c|..]); }
  }

  lemma FoldPrefixReflexive(a: seq<int>)
    ensures FoldPrefix(a, a)
  {
  }

  lemma FoldPrefixOfOwn(a: seq<int>, b: seq<int>)
    requires |a| <= |b| && b[..|a|] == a
    ensures FoldPrefix(a, b)
  {
  }

  lemma FoldPrefixCancels(r: seq<int>, a: seq<int>, b: seq<int>)
    ensures FoldPrefix(r + a, r + b) <==> FoldPrefix(a, b)
  {
    if FoldPrefix(r + a, r + b) {
      forall i | 0 <= i < |a| ensures SameLetter(a[i], b[i]) {
        assert SameLetter((r + a)[|r| + i], (r + b)[|r| + i]);
      }
    }
    if FoldPrefix(a, b) {
      forall i | 0 <= i < |r + a| ensures SameLetter((r + a)[i], (r + b)[i]) {
        assert i >= |r| ==> SameLetter(a[i - |r|], b[i - |r|]);
      }
    }
  }

  lemma ApartIsNoFoldPrefix(r: CText, a: seq<int>, s: CText, b: seq<int>)
    requires Apart(r, s)
    ensures !FoldPrefix(r + a, s + b)
  {
    var i :| 0 <= i < |r| && i < |s| && r[i] != UNDERSCORE && !SameLetter(r[i], s[i]);
    assert (r + a)[i] == r[i] && (s + b)[i] == s[i];
  }

  lemma FoldPrefixAfterRoot(r: CText, p: CText, s: CText, q: CText)
    requires SameOrApart(r, s) && UnderRoot(r, p) && UnderRoot(s, q)
    ensures FoldPrefix(Chars(p), Chars(q)) <==>
            r == s && FoldPrefix(Chars(p[|r|..]), Chars(q[|r|..]))
  {
    RootedChars(r, p);
    RootedChars(s, q);
    if r == s {
      FoldPrefixCancels(r, Chars(p[|r|..]), Chars(q[|r|..]));
    } else {
      ApartIsNoFoldPrefix(r, Chars(p[|r|..]), s, Chars(q[|s|..]));
    }
  }

  // ---- Tree deletion --------------------------------------------------------

  /** Deleting under one root never selects a path under another, whatever
      wildcards the path holds and wherever the buffer cuts it. */
  lemma TreeStaysUnderRoot(r: CText, p: CText, s: CText, q: CText)
    requires SameOrApart(r, s) && UnderRoot(r, p) && UnderRoot(s, q)
    requires TreeSelects(p, q)
    ensures r == s
  {
    if q == p {
      RootIsUnique(r, s, q);
    } else {
      assert r <= p + [PERCENT];
      assert r <= TreePattern(p);
      RootIsPinned(r, TreePattern(p), s, q, None);
    }
  }

  /** A pattern printed from a rooted path, against a path under the same root. */
  lemma PlainPattern(r: CText, p: CText, suffix: CText, q: CText)
    requires PlainName(r) && UnderRoot(r, p) && UnderRoot(r, q) && IsAscii(suffix)
    ensures IsLike(p + suffix, q, None) <==> Match(Parse(Chars(p[|r|..]) + suffix, None), Chars(q[|r|..]))
  {
    var pattern := p + suffix;
    assert r <= pattern && pattern[|r|..] == p[|r|..] + suffix;
    RootIsPinned(r, pattern, r, q, None);
    CharsAppendAscii(p[|r|..], suffix);
  }

  /** Without wildcards after the root, P% is "starts with P, up to case". */
  lemma TreeFootprintUnder(r: CText, p: CText, s: CText, q: CText)
    requires SameOrApart(r, s) && UnderRoot(r, p) && UnderRoot(s, q)
    requires HasNoWildcard(p[|r|..]) && |p| <= 1022
    ensures TreeSelects(p, q) <==> FoldPrefix(Chars(p), Chars(q))
  {
    FoldPrefixAfterRoot(r, p, s, q);
    if q == p { FoldPrefixReflexive(Chars(p)); }
    if r == s {
      PlainPattern(r, p, [PERCENT], q);
      WildcardsAreCharacters(p[|r|..]);
      PlainThenRun(Chars(p[|r|..]), Chars(q[|r|..]));
    } else if TreeSelects(p, q) {
      TreeStaysUnderRoot(r, p, s, q);
    }
  }

  lemma TreeFootprint(r: CText, p: CText, q: CText)
    requires r in ROOTS && UnderRoot(r, p) && Rooted(q)
    requires HasNoWildcard(p[|r|..]) && |p| <= 1022
    ensures TreeSelects(p, q) <==> FoldPrefix(Chars(p), Chars(q))
  {
    var s :| s in ROOTS && UnderRoot(s, q);
    RootNames(r, s);
    TreeFootprintUnder(r, p, s, q);
  }

  /** A path below p reads as p's characters, a backslash and more. */
  lemma SubtreeChars(p: CText, q: CText)
    requires InSubtree(p, q) && q != p
    ensures |Chars(q)| > |Chars(p)| && Chars(q)[..|Chars(p)| + 1] == Chars(p) + [BACKSLASH]
  {
    assert q == p + q[|p|..];
    CharsConcat(p, q[|p|..]);
    assert q[|p|..] == [BACKSLASH] + q[|p| + 1..];
    CharsAsciiPrefix([BACKSLASH], q[|p| + 1..]);
  }

  /** P% selects whatever P covers, its wildcards taking any characters. */
  lemma TreeSelectsCovered(p: CText, q: CText)
    requires |p| <= 1022 && Covers(Chars(p), Chars(q))
    ensures TreeSelects(p, q)
  {
    CharsAppendAscii(p, [PERCENT]);
    ParseConcat(Chars(p), [PERCENT], None);
    assert Parse([PERCENT], None) == [AnyRun];
    MatchesOwnExtensions(Chars(p), Chars(q));
  }

  /** P% selects whatever continues P up to case, even when P holds wildcards. */
  lemma TreeSelectsExtensions(p: CText, q: CText)
    requires |p| <= 1022 && FoldPrefix(Chars(p), Chars(q))
    ensures TreeSelects(p, q)
  {
    TreeSelectsCovered(p, q);
  }

  /** A sibling whose name goes on after P's does not survive either. */
  lemma TreeTakesSiblings(p: CText, more: CText)
    requires |p| <= 1022
    requires more != [] && more[0] != BACKSLASH && !IsContinuation(more[0])
    ensures TreeSelects(p, p + more) && !InSubtree(p, p + more)
  {
    CharsConcat(p, more);
    TreeSelectsExtensions(p, p + more);
  }

  /** s ends in a `%` followed only by `_`. */
  predicate EndsOpen(s: seq<int>) {
    s != [] &&
    var last := s[|s| - 1];
    last == PERCENT || (last == UNDERSCORE && EndsOpen(s[..|s| - 1]))
  }

  lemma {:induction false} OpenTokens(c: seq<int>)
    ensures EndsInRun(Parse(c, None)) <==> EndsOpen(c)
  {
    ParsePlain(c);
    if c == [] {
    } else {
      var n := |c| - 1;
      ParsePlain(c[..n]);
      assert Parse(c, None)[..n] == Parse(c[..n], None);
      OpenTokens(c[..n]);
    }
  }

  lemma {:induction false} OpenText(s: CText)
    ensures EndsOpen(Chars(s)) <==> EndsOpen(s)
  {
    if s == [] {
    } else if s[|s| - 1] >= 0x80 {
      LastCharacter(s);
    } else {
      var a := s[..|s| - 1];
      assert s == a + [s[|s| - 1]];
      CharsAppendAscii(a, [s[|s| - 1]]);
      assert Chars(s)[..|Chars(s)| - 1] == Chars(a);
      OpenText(a);
    }
  }

  /** Past 1022 bytes the `%` is cut off; if the rest ends in one of its own, the
      pattern still reaches all that goes on behind it. */
  lemma OpenCutReaches(p: CText, q: CText)
    requires |p| > 1022 && p <= q && EndsOpen(p[..1023])
    ensures TreeSelects(p, q)
  {
    var cut, rest := p[..1023], q[1023..];
    assert TreePattern(p) == cut;
    var a, x := cut[..1022], cut[1022];
    assert cut == a + [x] && q == a + [x] + rest;
    CharsAroundAscii(a, x, rest);
    CharsAppendAscii(a, [x]);
    var tokens := Parse(Chars(cut), None);
    MatchesItself(Chars(cut), [], Chars(cut));
    assert tokens + [] == tokens;
    OpenTokens(Chars(cut));
    OpenText(cut);
    RunReaches(tokens, Chars(cut), Chars(rest));
  }

  /** Otherwise it misses a child of P. */
  lemma ClosedCutMisses(p: CText) returns (q: CText)
    requires |p| > 1022 && !EndsOpen(p[..1023])
    ensures IsChild(p, q) && !TreeSelects(p, q)
  {
    var cut := p[..1023];
    assert TreePattern(p) == cut;
    OpenTokens(Chars(cut));
    OpenText(cut);
    var z, n := MissesSome(Parse(Chars(cut), None), Chars(p) + [BACKSLASH]);
    q := LetterChild(p, z, n + 1);
  }

  /** The child of p whose name is a row of the letter z. */
  lemma LetterChild(p: CText, z: Byte, n: nat) returns (q: CText)
    requires z == 97 || z == 98
    ensures q == p + [BACKSLASH] + Repeat(z, n) && IsChild(p, q)
    ensures q[|p| + 1..] == Repeat(z, n)
    ensures Chars(q) == Chars(p) + [BACKSLASH] + Repeat(z, n)
  {
    var name: CText := Repeat(z, n);
    q := p + [BACKSLASH] + name;
    CharsAroundAscii(p, BACKSLASH, name);
    CharsOfAscii(name);
    assert q[|p| + 1..] == name;
  }

  /** The printed pattern reaches all of the subtree. */
  predicate TreeFits(p: CText) {
    |p| <= 1022 || EndsOpen(p[..1023])
  }

  /** Nothing at or below P survives. */
  lemma TreeIsComplete(p: CText, q: CText)
    requires InSubtree(p, q) && TreeFits(p)
    ensures TreeSelects(p, q)
  {
    if q == p {
    } else if |p| <= 1022 {
      SubtreeChars(p, q);
      TreeSelectsExtensions(p, q);
    } else {
      OpenCutReaches(p, q);
    }
  }

  /** Tree deletion is complete exactly for paths that fit the buffer, and for
      those whose first 1023 bytes end in a `%` followed only by `_`. */
  lemma TreeCompleteIff(p: CText)
    ensures (forall q :: InSubtree(p, q) ==> TreeSelects(p, q)) <==> TreeFits(p)
  {
    if TreeFits(p) {
      forall q | InSubtree(p, q) ensures TreeSelects(p, q) { TreeIsComplete(p, q); }
    } else {
      var q := ClosedCutMisses(p);
      assert InSubtree(p, q);
    }
  }

  /** Without a `%` of its own a path past 1022 bytes loses all that is below it. */
  lemma LongTreeMissesDescendants(p: CText, q: CText)
    requires InSubtree(p, q) && q != p
    requires |p| > 1022 && PERCENT !in p[..1023]
    ensures !TreeSelects(p, q)
  {
    var cut := p[..1023];
    assert TreePattern(p) == cut;
    SubtreeChars(p, q);
    CharsTake(p, 1023);
    AsciiByteIsCharacter(cut, PERCENT);
    var tokens := Parse(Chars(cut), None);
    ParsePlain(Chars(cut));
    MatchFixedPrefix(tokens, [], Chars(q));
    assert tokens + [] == tokens;
  }

  // ---- What tree deletion takes besides -------------------------------------

  /** A letter in the place of a wildcard is covered by it, but is not it. */
  lemma LetterIsCovered(a: seq<int>, x: int, b: seq<int>)
    requires IsWildcard(x)
    ensures Covers(a + [x] + b, a + [97] + b)
  {
  }

  lemma LetterIsAnother(a: seq<int>, x: int, b: seq<int>, c: seq<int>)
    requires IsWildcard(x)
    ensures !FoldPrefix(a + [x] + b, a + [97] + c)
  {
    var n := |a|;
    assert (a + [x] + b)[n] == x && (a + [97] + c)[n] == 97;
    assert !SameLetter((a + [x] + b)[n], (a + [97] + c)[n]);
  }

  lemma LetterForWildcard(p: CText, i: nat)
    requires i < |p| && IsWildcard(p[i])
    ensures Covers(Chars(p), Chars(p[i := 97])) && !FoldPrefix(Chars(p), Chars(p[i := 97]))
  {
    var a, b := p[..i], p[i + 1..];
    assert p == a + [p[i]] + b && p[i := 97] == a + [97] + b;
    CharsAroundAscii(a, p[i], b);
    CharsAroundAscii(a, 97, b);
    LetterIsCovered(Chars(a), p[i], Chars(b));
    LetterIsAnother(Chars(a), p[i], Chars(b), Chars(b));
  }

  /** Past 1022 bytes the text of the pattern itself, with a letter for its last byte. */
  lemma CutTreeCovers(p: CText, a: CText, x: Byte)
    requires |p| > 1022 && p[..1023] == a + [x] && IsWildcard(x)
    ensures TreeSelects(p, a + [97])
  {
    assert TreePattern(p) == a + [x];
    CharsAppendAscii(a, [x]);
    CharsAppendAscii(a, [97]);
    LetterIsCovered(Chars(a), x, []);
    var c, text := Chars(a) + [x], Chars(a) + [97];
    assert c + [] == c && text + [] == text;
    MatchesItself(c, [], text);
    assert Parse(c, None) + [] == Parse(c, None);
  }

  lemma CutIsNoPrefix(a: CText, x: Byte, rest: CText)
    requires IsWildcard(x)
    ensures !FoldPrefix(Chars(a + [x] + rest), Chars(a + [97]))
  {
    CharsAroundAscii(a, x, rest);
    CharsAppendAscii(a, [97]);
    LetterIsAnother(Chars(a), x, Chars(rest), []);
    assert Chars(a) + [97] + [] == Chars(a) + [97];
  }

  lemma ReplacedIsUnderRoot(r: CText, p: CText, i: nat)
    requires PlainName(r) && UnderRoot(r, p) && |r| <= i < |p| && IsWildcard(p[i])
    ensures UnderRoot(r, p[i := 97])
  {
    assert p[i := 97][..|r|] == p[..|r|];
  }

  /** Past 1022 bytes: what the cut pattern selects with a letter for its last byte. */
  lemma CutStranger(r: CText, p: CText) returns (q: CText)
    requires PlainName(r) && UnderRoot(r, p) && |p| > 1022 && EndsOpen(p[..1023])
    ensures UnderRoot(r, q) && TreeSelects(p, q) && !FoldPrefix(Chars(p), Chars(q))
  {
    var a, x, rest := p[..1022], p[1022], p[1023..];
    assert p[..1023] == a + [x] && p == a + [x] + rest;
    q := a + [97];
    CutTreeCovers(p, a, x);
    CutIsNoPrefix(a, x, rest);
    assert q[..|r|] == p[..|r|];
  }

  /** A wildcard of P's own makes the pattern select a path that does not continue
      P at all, under the same root. */
  lemma Stranger(r: CText, p: CText) returns (q: CText)
    requires PlainName(r) && UnderRoot(r, p) && TreeFits(p)
    requires !(HasNoWildcard(p[|r|..]) && |p| <= 1022)
    ensures UnderRoot(r, q) && TreeSelects(p, q) && !FoldPrefix(Chars(p), Chars(q))
  {
    if |p| > 1022 {
      q := CutStranger(r, p);
    } else {
      var j :| 0 <= j < |p[|r|..]| && IsWildcard(p[|r|..][j]);
      var i := |r| + j;
      q := p[i := 97];
      LetterForWildcard(p, i);
      TreeSelectsCovered(p, q);
      ReplacedIsUnderRoot(r, p, i);
    }
  }

  /** "Starts with P, up to case" describes the selection exactly for paths that
      fit and hold no wildcard after their root. */
  lemma TreeFootprintIff(r: CText, p: CText)
    requires r in ROOTS && UnderRoot(r, p)
    ensures (forall q :: Rooted(q) ==> (TreeSelects(p, q) <==> FoldPrefix(Chars(p), Chars(q)))) <==>
            HasNoWildcard(p[|r|..]) && |p| <= 1022
  {
    if HasNoWildcard(p[|r|..]) && |p| <= 1022 {
      forall q | Rooted(q) ensures TreeSelects(p, q) <==> FoldPrefix(Chars(p), Chars(q)) {
        TreeFootprint(r, p, q);
      }
    } else {
      RootIsPlain(r);
      var q := WrongFootprint(r, p);
      assert Rooted(q);
    }
  }

  lemma WrongFootprint(r: CText, p: CText) returns (q: CText)
    requires PlainName(r) && UnderRoot(r, p)
    requires !(HasNoWildcard(p[|r|..]) && |p| <= 1022)
    ensures UnderRoot(r, q) && (TreeSelects(p, q) <==> !FoldPrefix(Chars(p), Chars(q)))
  {
    if TreeFits(p) {
      q := Stranger(r, p);
    } else {
      q := ClosedCutMisses(p);
      BelowContinues(p, q);
    }
  }

  lemma BelowContinues(p: CText, q: CText)
    requires InSubtree(p, q)
    ensures FoldPrefix(Chars(p), Chars(q))
  {
    if q == p {
      FoldPrefixReflexive(Chars(p));
    } else {
      SubtreeChars(p, q);
      FoldPrefixOfOwn(Chars(p), Chars(q));
    }
  }

  /** Below a root there is always a path that is selected and not in the subtree,
      or in it and not selected. */
  lemma WrongSubtree(r: CText, p: CText) returns (q: CText)
    requires PlainName(r) && UnderRoot(r, p) && p != r
    ensures UnderRoot(r, q) && (TreeSelects(p, q) <==> !InSubtree(p, q))
  {
    if TreeFits(p) {
      q := p + [97];
      if |p| <= 1022 {
        TreeTakesSiblings(p, [97]);
      } else {
        OpenCutReaches(p, q);
      }
    } else {
      q := ClosedCutMisses(p);
    }
  }

  // ---- Child selection, as intended -----------------------------------------

  /** b is a up to case, a backslash, and one component. */
  predicate ExtendsByOne(a: seq<int>, b: seq<int>) {
    FoldPrefix(a + [BACKSLASH], b) && BACKSLASH !in b[|a| + 1..]
  }

  predicate IsChildUpToCase(p: CText, q: CText) {
    ExtendsByOne(Chars(p), Chars(q))
  }

  lemma ExtendsByOneCancels(r: seq<int>, a: seq<int>, b: seq<int>)
    ensures ExtendsByOne(r + a, r + b) <==> ExtendsByOne(a, b)
  {
    assert (r + a) + [BACKSLASH] == r + (a + [BACKSLASH]);
    FoldPrefixCancels(r, a + [BACKSLASH], b);
    if |a| < |b| { assert (r + b)[|r + a| + 1..] == b[|a| + 1..]; }
  }

  lemma PlainChildPatterns(c: seq<int>, s: seq<int>)
    requires HasNoWildcard(c)
    ensures (Match(Parse(c + [BACKSLASH, PERCENT], None), s) &&
             !Match(Parse(c + [BACKSLASH, PERCENT, BACKSLASH, PERCENT], None), s))
            <==> ExtendsByOne(c, s)
  {
    var d := c + [BACKSLASH];
    assert c + [BACKSLASH, PERCENT] == d + [PERCENT];
    assert c + [BACKSLASH, PERCENT, BACKSLASH, PERCENT] == d + [PERCENT, BACKSLASH, PERCENT];
    PlainThenRun(d, s);
    PlainThenContains(d, s);
  }

  lemma IntendedChildrenAfterRoot(r: CText, p: CText, q: CText)
    requires PlainName(r) && UnderRoot(r, p) && UnderRoot(r, q)
    requires HasNoWildcard(p[|r|..]) && |p| + 4 < PATTERN_SIZE
    ensures ChildSelectsIntended(p, q) <==> ExtendsByOne(Chars(p[|r|..]), Chars(q[|r|..]))
  {
    PlainPattern(r, p, [BACKSLASH, PERCENT], q);
    PlainPattern(r, p, [BACKSLASH, PERCENT, BACKSLASH, PERCENT], q);
    WildcardsAreCharacters(p[|r|..]);
    PlainChildPatterns(Chars(p[|r|..]), Chars(q[|r|..]));
  }

  /** With the backslash an ordinary character, the two patterns select exactly
      the one-component extensions. */
  lemma IntendedChildrenUnder(r: CText, p: CText, s: CText, q: CText)
    requires SameOrApart(r, s) && UnderRoot(r, p) && UnderRoot(s, q)
    requires HasNoWildcard(p[|r|..]) && |p| + 4 < PATTERN_SIZE
    ensures ChildSelectsIntended(p, q) <==> IsChildUpToCase(p, q)
  {
    RootedChars(r, p);
    RootedChars(s, q);
    if r == s {
      IntendedChildrenAfterRoot(r, p, q);
      ExtendsByOneCancels(r, Chars(p[|r|..]), Chars(q[|r|..]));
    } else {
      assert r <= ChildPattern(p);
      RootIsPinned(r, ChildPattern(p), s, q, None);
      ApartIsNoFoldPrefix(r, Chars(p[|r|..]) + [BACKSLASH], s, Chars(q[|s|..]));
      assert Chars(p) + [BACKSLASH] == r + (Chars(p[|r|..]) + [BACKSLASH]);
    }
  }

  /** Below P itself, "child up to case" is being a child. */
  lemma ChildrenBelow(p: CText, q: CText)
    requires InSubtree(p, q) && q != p
    ensures IsChildUpToCase(p, q) <==> IsChild(p, q)
  {
    var rest := q[|p| + 1..];
    assert q == (p + [BACKSLASH]) + rest;
    SubtreeChars(p, q);
    FoldPrefixOfOwn(Chars(p) + [BACKSLASH], Chars(q));
    SubtreeRest(p, q);
    AsciiByteIsCharacter(rest, BACKSLASH);
  }

  lemma SubtreeRest(p: CText, q: CText)
    requires InSubtree(p, q) && q != p
    ensures |Chars(p)| < |Chars(q)| && Chars(q)[|Chars(p)| + 1..] == Chars(q[|p| + 1..])
  {
    assert q == p + q[|p|..];
    CharsConcat(p, q[|p|..]);
    assert q[|p|..] == [BACKSLASH] + q[|p| + 1..];
    CharsAsciiPrefix([BACKSLASH], q[|p| + 1..]);
  }

  // ---- Below P, whatever wildcards it holds ---------------------------------

  lemma BelowSplits(p: CText, q: CText)
    requires InSubtree(p, q) && q != p
    ensures Chars(q) == (Chars(p) + [BACKSLASH]) + Chars(q[|p| + 1..])
  {
    assert q == p + [BACKSLASH] + q[|p| + 1..];
    CharsAroundAscii(p, BACKSLASH, q[|p| + 1..]);
  }

  /** The printed patterns, split behind the separator that follows P. */
  lemma PlainChildTokens(p: CText, tail: CText)
    requires IsAscii(tail)
    ensures Parse(Chars(p + [BACKSLASH] + tail), None) ==
            Parse(Chars(p) + [BACKSLASH], None) + Parse(tail, None)
  {
    CharsAroundAscii(p, BACKSLASH, tail);
    CharsOfAscii(tail);
    ParseConcat(Chars(p) + [BACKSLASH], tail, None);
  }

  lemma OwnTextIsCovered(d: seq<int>, w: seq<int>)
    ensures Covers(d, d + w) && (d + w)[|d|..] == w
  {
  }

  /** The first pattern takes all that is below P. */
  lemma IntendedPatternTakesBelow(p: CText, q: CText)
    requires InSubtree(p, q) && q != p && |p| <= 1021
    ensures IsLike(ChildPattern(p), q, None)
  {
    var d, w := Chars(p) + [BACKSLASH], Chars(q[|p| + 1..]);
    assert ChildPattern(p) == p + [BACKSLASH] + [PERCENT];
    PlainChildTokens(p, [PERCENT]);
    assert Parse([PERCENT], None) == [AnyRun];
    BelowSplits(p, q);
    OwnTextIsCovered(d, w);
    MatchesOwnExtensions(d, d + w);
  }

  /** The second takes it exactly when another separator follows. */
  lemma SecondPatternIff(d: seq<int>, w: seq<int>)
    ensures Match(Parse(d, None) + Parse([PERCENT, BACKSLASH, PERCENT], None), d + w) <==> BACKSLASH in w
  {
    var tail := Parse([PERCENT, BACKSLASH, PERCENT], None);
    if BACKSLASH in w {
      RunSeparatorRun(w);
      OwnTextIsCovered(d, w);
      MatchesItself(d, tail, d + w);
    }
    if Match(Parse(d, None) + tail, d + w) {
      MatchHasBackslashes(Parse(d, None) + tail, d + w);
      ParsedBackslashes(d);
      ParsedBackslashes([PERCENT, BACKSLASH, PERCENT]);
      assert multiset(w)[BACKSLASH] > 0;
    }
  }

  lemma IntendedGrandchildIff(p: CText, q: CText)
    requires InSubtree(p, q) && q != p && |p| + 4 < PATTERN_SIZE
    ensures IsLike(GrandchildPattern(p), q, None) <==> BACKSLASH in q[|p| + 1..]
  {
    var tail: CText := [PERCENT, BACKSLASH, PERCENT];
    assert GrandchildPattern(p) == p + [BACKSLASH] + tail;
    PlainChildTokens(p, tail);
    BelowSplits(p, q);
    SecondPatternIff(Chars(p) + [BACKSLASH], Chars(q[|p| + 1..]));
    AsciiByteIsCharacter(q[|p| + 1..], BACKSLASH);
  }

  /** Below P the two patterns select exactly the children, even when P holds
      wildcards. */
  lemma IntendedChildrenBelow(p: CText, q: CText)
    requires InSubtree(p, q) && q != p && |p| + 4 < PATTERN_SIZE
    ensures ChildSelectsIntended(p, q) <==> IsChild(p, q)
  {
    IntendedPatternTakesBelow(p, q);
    IntendedGrandchildIff(p, q);
  }

  lemma PatternsCoincide(p: CText)
    requires |p| >= 1021
    ensures ChildPattern(p) == GrandchildPattern(p)
  {
  }

  /** With its last byte cut off the second pattern asks for a separator at the end. */
  lemma CutSecondPatternMisses(p: CText, q: CText)
    requires |p| == 1020 && Chars(q) != [] && Chars(q)[|Chars(q)| - 1] != BACKSLASH
    ensures !IsLike(GrandchildPattern(p), q, None)
  {
    var tail: CText := [PERCENT, BACKSLASH];
    assert GrandchildPattern(p) == p + [BACKSLASH] + tail;
    PlainChildTokens(p, tail);
    ParsePlain(tail);
    var d := Parse(Chars(p) + [BACKSLASH], None);
    assert Parse(tail, None) == [AnyRun] + [Literal(BACKSLASH)];
    assert d + Parse(tail, None) == (d + [AnyRun]) + [Literal(BACKSLASH)];
    MatchFixedSuffix(d + [AnyRun], [Literal(BACKSLASH)], Chars(q));
    assert !Takes(Literal(BACKSLASH), Chars(q)[|Chars(q)| - 1]);
  }

  /** A path below P that the two patterns get wrong once the second is cut. */
  lemma WrongIntendedChild(p: CText) returns (q: CText)
    requires |p| >= 1020
    ensures InSubtree(p, q) && q != p && (ChildSelectsIntended(p, q) <==> !IsChild(p, q))
  {
    if |p| == 1020 {
      q := p + [BACKSLASH, 97, BACKSLASH, 97];
      IntendedPatternTakesBelow(p, q);
      CharsAppendAscii(p, [BACKSLASH, 97, BACKSLASH, 97]);
      CutSecondPatternMisses(p, q);
      assert q[|p| + 1..][1] == BACKSLASH;
    } else {
      q := LetterChild(p, 97, 1);
      PatternsCoincide(p);
    }
  }

  /** That holds exactly for paths that leave both patterns whole. */
  lemma IntendedChildrenBelowIff(p: CText)
    ensures (forall q :: InSubtree(p, q) && q != p ==> (ChildSelectsIntended(p, q) <==> IsChild(p, q))) <==>
            |p| + 4 < PATTERN_SIZE
  {
    if |p| + 4 < PATTERN_SIZE {
      forall q | InSubtree(p, q) && q != p ensures ChildSelectsIntended(p, q) <==> IsChild(p, q) {
        IntendedChildrenBelow(p, q);
      }
    } else {
      var q := WrongIntendedChild(p);
    }
  }

  /** Which part of P is printed, and how it ends. */
  lemma PrintedChildPattern(p: CText)
    ensures |p| <= 1021 ==> EndsOpen(ChildPattern(p))
    ensures |p| == 1022 ==> !EndsOpen(ChildPattern(p))
    ensures |p| > 1022 ==> ChildPattern(p) == p[..1023] == TreePattern(p)
  {
  }

  lemma OpenPatternTakesBelow(p: CText, q: CText)
    requires InSubtree(p, q) && q != p && EndsOpen(ChildPattern(p))
    ensures IsLike(ChildPattern(p), q, None)
  {
    PrintedChildPattern(p);
    if |p| <= 1021 {
      IntendedPatternTakesBelow(p, q);
    } else {
      OpenCutReaches(p, q);
    }
  }

  lemma IntendedPatternMissesChild(p: CText) returns (q: CText)
    requires !EndsOpen(ChildPattern(p))
    ensures IsChild(p, q) && !IsLike(ChildPattern(p), q, None)
  {
    OpenTokens(Chars(ChildPattern(p)));
    OpenText(ChildPattern(p));
    var z, n := MissesSome(Parse(Chars(ChildPattern(p)), None), Chars(p) + [BACKSLASH]);
    q := LetterChild(p, z, n);
  }

  ghost predicate TakesAllBelowIntended(p: CText) {
    forall q :: InSubtree(p, q) && q != p ==> IsLike(ChildPattern(p), q, None)
  }

  /** The first pattern alone, which is the has-children test, takes all that is
      below P exactly when what is printed of it ends in a `%` followed only by
      `_`; up to 1021 bytes it always does. */
  lemma IntendedPatternTakesAllIff(p: CText)
    ensures TakesAllBelowIntended(p) <==> EndsOpen(ChildPattern(p))
    ensures |p| <= 1021 ==> EndsOpen(ChildPattern(p))
  {
    PrintedChildPattern(p);
    if EndsOpen(ChildPattern(p)) {
      forall q | InSubtree(p, q) && q != p ensures IsLike(ChildPattern(p), q, None) {
        OpenPatternTakesBelow(p, q);
      }
    } else {
      var q := IntendedPatternMissesChild(p);
      assert InSubtree(p, q) && q != p;
    }
  }
}
