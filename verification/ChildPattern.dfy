/** What the child patterns select as written, with ESCAPE '\': the separators
    become escapes, and an escape character at the end of the path escapes the
    separator in its turn. */
module ChildPatterns {
  import opened Text
  import opened Like
  import opened Escape
  import opened Paths
  import opened Selection

  /** The part after the root does not begin with a backslash. */
  predicate IsOrdinary(r: CText, p: CText)
    requires UnderRoot(r, p)
  {
    p == r || p[|r| + 1] != BACKSLASH
  }

  /** The first child pattern behind its root. */
  function ChildTokens(r: CText, p: CText): seq<Token>
    requires PlainName(r) && UnderRoot(r, p)
  {
    Parse(Chars(ChildPattern(p)[|r|..]), ESCAPE)
  }

  // ---- From paths to tokens -------------------------------------------------

  lemma PatternsKeepRoot(r: CText, p: CText)
    requires PlainName(r) && UnderRoot(r, p)
    ensures r <= ChildPattern(p) && r <= GrandchildPattern(p)
    ensures |r| + 2 <= |ChildPattern(p)| && ChildPattern(p)[|r|] == BACKSLASH
    ensures p != r ==> |r| + 3 <= |ChildPattern(p)| && ChildPattern(p)[|r| + 1] == p[|r| + 1]
  {
    assert r <= p + [BACKSLASH, PERCENT];
    assert r <= p + [BACKSLASH, PERCENT, BACKSLASH, PERCENT];
  }

  lemma SelectedByTokens(r: CText, p: CText, s: CText, q: CText)
    requires SameOrApart(r, s) && UnderRoot(r, p) && UnderRoot(s, q)
    ensures HasChildSelects(p, q) <==> r == s && Match(ChildTokens(r, p), Chars(q[|r|..]))
  {
    PatternsKeepRoot(r, p);
    RootIsPinned(r, ChildPattern(p), s, q, ESCAPE);
  }

  /** The tokens begin with an escaped character, so no root is selected. */
  lemma TokensBegin(r: CText, p: CText)
    requires PlainName(r) && UnderRoot(r, p)
    ensures ChildTokens(r, p) != [] && !Match(ChildTokens(r, p), [])
    ensures ChildTokens(r, p)[0].Literal? || ChildTokens(r, p)[0].Never?
  {
    PatternsKeepRoot(r, p);
    var pattern := ChildPattern(p)[|r|..];
    assert pattern == [BACKSLASH] + pattern[1..];
    CharsAsciiPrefix([BACKSLASH], pattern[1..]);
    EscapedFirst(Chars(pattern));
  }

  lemma RootIsNotSelected(r: CText, p: CText, s: CText)
    requires SameOrApart(r, s) && UnderRoot(r, p)
    ensures !HasChildSelects(p, s)
  {
    TokensBegin(r, p);
    SelectedByTokens(r, p, s, s);
    assert s[|s|..] == [];
  }

  /** Behind the root, a path below p is p, a backslash and the rest. */
  lemma TextBelow(r: CText, p: CText, q: CText)
    requires PlainName(r) && UnderRoot(r, p) && InSubtree(p, q) && q != p
    ensures Chars(q[|r|..]) == Chars(p[|r|..]) + [BACKSLASH] + Chars(q[|p| + 1..])
  {
    assert q[|r|..] == p[|r|..] + [BACKSLASH] + q[|p| + 1..];
    CharsAroundAscii(p[|r|..], BACKSLASH, q[|p| + 1..]);
  }

  lemma FittingPattern(r: CText, p: CText)
    requires PlainName(r) && UnderRoot(r, p) && |p| <= 1021
    ensures ChildTokens(r, p) == Parse(Chars(p[|r|..]) + [BACKSLASH, PERCENT], ESCAPE)
  {
    assert ChildPattern(p)[|r|..] == p[|r|..] + [BACKSLASH, PERCENT];
    CharsAppendAscii(p[|r|..], [BACKSLASH, PERCENT]);
  }

  /** The pattern of a path that fits its buffer. */
  lemma FittingTokens(r: CText, p: CText)
    requires PlainName(r) && UnderRoot(r, p) && |p| <= 1021
    ensures ChildTokens(r, p) ==
            Closed(Chars(p[|r|..])) +
            if Dangles(Chars(p[|r|..])) then [Literal(BACKSLASH), AnyRun] else [Literal(PERCENT)]
  {
    FittingPattern(r, p);
    SeparatorThenRun(Chars(p[|r|..]));
  }

  /** A fitting pattern is not cut inside an escape. */
  lemma FittingHasNoNever(r: CText, p: CText)
    requires PlainName(r) && UnderRoot(r, p) && |p| <= 1021
    ensures Never !in ChildTokens(r, p)
  {
    FittingTokens(r, p);
  }

  lemma AtLeastTwoCharacters(r: CText, p: CText)
    requires PlainName(r) && UnderRoot(r, p) && p != r
    ensures |Chars(p[|r|..])| >= 2 && Chars(p[|r|..])[0] == BACKSLASH
  {
    RootedChars(r, p);
    assert p[|r| + 1..] != [];
  }

  /** The `%` alone is cut off. */
  lemma TokensWithoutRun(r: CText, p: CText)
    requires PlainName(r) && UnderRoot(r, p) && |p| == 1022
    ensures Never in ChildTokens(r, p) || |ChildTokens(r, p)| < |Chars(p[|r|..])|
  {
    var s := p[|r|..];
    assert ChildPattern(p)[|r|..] == s + [BACKSLASH];
    CharsAppendAscii(s, [BACKSLASH]);
    AtLeastTwoCharacters(r, p);
    CutTokens(Chars(s));
  }

  /** The separator is cut off too. */
  lemma TokensOfCutPath(r: CText, p: CText)
    requires PlainName(r) && UnderRoot(r, p) && |p| > 1022
    ensures |ChildTokens(r, p)| < |Chars(p[|r|..])|
  {
    var cut := p[..1023];
    assert ChildPattern(p) == cut;
    AtLeastTwoCharacters(r, cut);
    EscapedFirst(Chars(cut[|r|..]));
    CutIsShorter(r, p);
  }

  lemma CutIsShorter(r: CText, p: CText)
    requires |r| <= 1023 <= |p|
    ensures |Chars(p[..1023][|r|..])| <= |Chars(p[|r|..])|
  {
    CutBehind(p, |r|, 1023);
    CharsTake(p[|r|..], 1023 - |r|);
  }

  lemma CutBehind(s: CText, i: nat, n: nat)
    requires i <= n <= |s|
    ensures s[..n][i..] == s[i..][..n - i]
  {
  }

  /** A cut pattern has fewer tokens than the path has characters. */
  lemma LongTokens(r: CText, p: CText)
    requires PlainName(r) && UnderRoot(r, p) && |p| >= 1022
    ensures Never in ChildTokens(r, p) || |ChildTokens(r, p)| < |Chars(p[|r|..])|
  {
    if |p| == 1022 {
      TokensWithoutRun(r, p);
    } else {
      TokensOfCutPath(r, p);
    }
  }

  lemma CutTokens(c: seq<int>)
    requires |c| >= 2 && c[0] == BACKSLASH
    ensures Never in Parse(c + [BACKSLASH], ESCAPE) || |Parse(c + [BACKSLASH], ESCAPE)| < |c|
  {
    ParseSplits(c, [BACKSLASH]);
    if Dangles(c) {
      ParseEscaped([], BACKSLASH);
      assert Behind(c, [BACKSLASH]) == [BACKSLASH, BACKSLASH] + [];
    } else {
      assert Parse([BACKSLASH], ESCAPE) == [Never];
    }
  }

  lemma TokensAreFew(r: CText, p: CText)
    requires PlainName(r) && UnderRoot(r, p) && p != r
    ensures Never in ChildTokens(r, p) || |ChildTokens(r, p)| <= |Chars(p[|r|..])|
  {
    AtLeastTwoCharacters(r, p);
    if |p| <= 1021 {
      FittingTokens(r, p);
    } else {
      LongTokens(r, p);
    }
  }

  // ---- When the has-children test can fire at all ---------------------------

  /** Under ESCAPE '\' the separator right after the root swallows the character
      behind it, so no separator is left to match. */
  lemma AsWrittenSelectsNothing(r: CText, p: CText, s: CText, q: CText)
    requires SameOrApart(r, s) && UnderRoot(r, p) && UnderRoot(s, q)
    requires IsOrdinary(r, p)
    ensures !HasChildSelects(p, q)
  {
    SelectedByTokens(r, p, s, q);
    if r == s {
      PatternsKeepRoot(r, p);
      var pattern := ChildPattern(p)[|r|..];
      assert pattern == [BACKSLASH] + pattern[1..];
      RootedChars(r, q);
      EscapedSeparatorMatchesNothing(pattern[1..], Chars(q[|r|..]));
    }
  }

  /** An escaped character that is no backslash meets a separator or the end. */
  lemma EscapedSeparatorMatchesNothing(rest: CText, s: seq<int>)
    requires rest != [] && rest[0] != BACKSLASH
    requires s != [] ==> s[0] == BACKSLASH
    ensures !Match(Parse(Chars([BACKSLASH] + rest), ESCAPE), s)
  {
  }

  /** A path that spells out the pattern, `x` for each wildcard. */
  lemma SpelledInstance(r: CText, p: CText) returns (q: CText)
    requires PlainName(r) && UnderRoot(r, p) && Never !in ChildTokens(r, p)
    requires ChildTokens(r, p)[0] == Literal(BACKSLASH) && |ChildTokens(r, p)| >= 2
    ensures UnderRoot(r, q) && q != r && HasChildSelects(p, q)
    ensures |Chars(q[|r|..])| == |ChildTokens(r, p)|
  {
    var pattern, tokens := ChildPattern(p)[|r|..], ChildTokens(r, p);
    var text := Instance(tokens);
    ParseLiterals(Chars(pattern));
    CharsAreReadable(pattern);
    MatchesInstance(tokens);
    CharsOfSpelling(text);
    var y := Spell(text);
    assert y[0] == BACKSLASH;
    q := r + y;
    assert q[|r|..] == y;
    SelectedByTokens(r, p, r, q);
  }

  /** When the part after the root begins with a backslash and the cut spares the
      escapes, some path matches. */
  lemma AsWrittenCanSelect(r: CText, p: CText) returns (q: CText)
    requires PlainName(r) && UnderRoot(r, p)
    requires !IsOrdinary(r, p) && Never !in ChildTokens(r, p)
    ensures UnderRoot(r, q) && HasChildSelects(p, q)
  {
    PatternsKeepRoot(r, p);
    var pattern := ChildPattern(p)[|r|..];
    assert pattern == [BACKSLASH, BACKSLASH] + pattern[2..];
    CharsAsciiPrefix([BACKSLASH, BACKSLASH], pattern[2..]);
    var c := Chars(pattern);
    assert c[2..] == Chars(pattern[2..]) && c[2..] != [];
    q := SpelledInstance(r, p);
  }

  /** Exactly which paths the has-children test can never see anything for. */
  lemma AsWrittenSelectsNothingIff(r: CText, p: CText)
    requires r in ROOTS && PlainName(r) && UnderRoot(r, p)
    ensures (forall q :: Rooted(q) ==> !HasChildSelects(p, q)) <==> IsOrdinary(r, p) || Never in ChildTokens(r, p)
  {
    if IsOrdinary(r, p) || Never in ChildTokens(r, p) {
      forall q | Rooted(q) ensures !HasChildSelects(p, q) {
        var s :| s in ROOTS && UnderRoot(s, q);
        RootNames(r, s);
        if IsOrdinary(r, p) {
          AsWrittenSelectsNothing(r, p, s, q);
        } else {
          SelectedByTokens(r, p, s, q);
          NeverMatchesNothing(ChildTokens(r, p), Chars(q[|s|..]));
        }
      }
    } else {
      var q := AsWrittenCanSelect(r, p);
      assert Rooted(q);
    }
  }

  // ---- When it sees every child ---------------------------------------------

  /** An odd number of backslashes and nothing else. */
  predicate IsOddRun(s: CText) {
    |s| % 2 == 1 && IsRun(s)
  }

  lemma OddRunIsPairs(s: CText)
    ensures IsPairs(Chars(s) + [BACKSLASH]) <==> IsOddRun(s)
  {
    var u := Chars(s) + [BACKSLASH];
    if IsOddRun(s) {
      CharsOfAscii(s);
    }
    if IsPairs(u) {
      assert forall i :: 0 <= i < |Chars(s)| ==> Chars(s)[i] == u[i];
      AsciiCharactersAreAscii(s);
    }
  }

  lemma FittingSelectsBelowIff(r: CText, p: CText, q: CText)
    requires PlainName(r) && UnderRoot(r, p) && UnderRoot(r, q) && InSubtree(p, q) && q != p
    requires HasNoWildcard(p[|r|..]) && |p| <= 1021
    ensures HasChildSelects(p, q) <==> IsOddRun(p[|r|..])
  {
    SelectedByTokens(r, p, r, q);
    TextBelow(r, p, q);
    FittingPattern(r, p);
    WildcardsAreCharacters(p[|r|..]);
    if p != r { AtLeastTwoCharacters(r, p); }
    OwnPatternIff(Chars(p[|r|..]), Chars(q[|p| + 1..]));
    OddRunIsPairs(p[|r|..]);
  }

  lemma LongSelectsNothingBelow(r: CText, p: CText, q: CText)
    requires PlainName(r) && UnderRoot(r, p) && UnderRoot(r, q) && InSubtree(p, q) && q != p
    requires HasNoWildcard(p[|r|..]) && |p| >= 1022
    ensures !HasChildSelects(p, q)
  {
    var tokens, text := ChildTokens(r, p), Chars(q[|r|..]);
    SelectedByTokens(r, p, r, q);
    LongTokens(r, p);
    TextBelow(r, p, q);
    LongTokensAreFixed(r, p);
    if Never in tokens {
      NeverMatchesNothing(tokens, text);
    } else {
      MatchFixedPrefix(tokens, [], text);
      assert tokens + [] == tokens;
    }
  }

  lemma LongTokensAreFixed(r: CText, p: CText)
    requires PlainName(r) && UnderRoot(r, p) && HasNoWildcard(p[|r|..]) && |p| >= 1022
    ensures Never in ChildTokens(r, p) || IsFixed(ChildTokens(r, p))
  {
    var pattern := ChildPattern(p)[|r|..];
    assert pattern <= p[|r|..] + [BACKSLASH];
    WildcardsAreCharacters(pattern);
    WildcardFreeTokens(Chars(pattern));
  }

  /** Without wildcards, a path below p is seen exactly when the part of p after
      the root is an odd run of backslashes and the pattern fits: all or none. */
  lemma SelectsBelowIff(r: CText, p: CText, q: CText)
    requires PlainName(r) && UnderRoot(r, p) && UnderRoot(r, q) && InSubtree(p, q) && q != p
    requires HasNoWildcard(p[|r|..])
    ensures HasChildSelects(p, q) <==> IsOddRun(p[|r|..]) && |p| <= 1021
  {
    if |p| <= 1021 {
      FittingSelectsBelowIff(r, p, q);
    } else {
      LongSelectsNothingBelow(r, p, q);
    }
  }

  /** The pattern ends in a run and takes the shortest text below the path. */
  predicate TakesAllBelow(r: CText, p: CText)
    requires PlainName(r) && UnderRoot(r, p)
  {
    EndsInRun(ChildTokens(r, p)) && Match(ChildTokens(r, p), Chars(p[|r|..]) + [BACKSLASH])
  }

  /** For any path: every child is seen exactly when the pattern takes all that is
      below the path. */
  lemma SeesEveryChildIff(r: CText, p: CText)
    requires PlainName(r) && UnderRoot(r, p)
    ensures (forall q :: IsChild(p, q) ==> HasChildSelects(p, q)) <==> TakesAllBelow(r, p)
  {
    var tokens, base := ChildTokens(r, p), Chars(p[|r|..]) + [BACKSLASH];
    if TakesAllBelow(r, p) {
      RootTokensAreClosed(r);
      forall q | IsChild(p, q) ensures HasChildSelects(p, q) {
        SelectedByTokens(r, p, r, q);
        TextBelow(r, p, q);
        RunReaches(tokens, base, Chars(q[|p| + 1..]));
      }
    } else {
      var q := UnseenChild(r, p);
    }
  }

  lemma RootTokensAreClosed(r: CText)
    requires PlainName(r)
    ensures !EndsInRun(ChildTokens(r, r))
  {
    FittingTokens(r, r);
    assert r[|r|..] == [];
  }

  /** A letter child is rooted, and its text behind the root. */
  lemma RootedLetterChild(r: CText, p: CText, z: Byte, n: nat) returns (q: CText)
    requires PlainName(r) && UnderRoot(r, p) && (z == 97 || z == 98) && n > 0
    ensures UnderRoot(r, q) && IsChild(p, q)
    ensures Chars(q[|r|..]) == Chars(p[|r|..]) + [BACKSLASH] + Repeat(z, n)
  {
    q := LetterChild(p, z, n);
    LetterChildText(r, p, z, n, q);
  }

  lemma LetterChildText(r: CText, p: CText, z: Byte, n: nat, q: CText)
    requires PlainName(r) && UnderRoot(r, p) && (z == 97 || z == 98) && n > 0
    requires IsChild(p, q) && q[|p| + 1..] == Repeat(z, n)
    ensures UnderRoot(r, q)
    ensures Chars(q[|r|..]) == Chars(p[|r|..]) + [BACKSLASH] + Repeat(z, n)
  {
    var name: CText := q[|p| + 1..];
    BelowIsUnderRoot(r, p, q);
    TextBelow(r, p, q);
    assert forall i :: 0 <= i < n ==> name[i] == Repeat(z, n)[i] == z;
    CharsOfAscii(name);
  }

  lemma BelowIsUnderRoot(r: CText, p: CText, q: CText)
    requires UnderRoot(r, p) && InSubtree(p, q) && (p != r || |p| + 1 < |q|)
    ensures UnderRoot(r, q)
  {
  }

  lemma EmptyNamedChild(r: CText, p: CText)
    requires PlainName(r) && UnderRoot(r, p) && p != r
    ensures UnderRoot(r, p + [BACKSLASH]) && IsChild(p, p + [BACKSLASH])
    ensures Chars((p + [BACKSLASH])[|r|..]) == Chars(p[|r|..]) + [BACKSLASH]
  {
    var q := p + [BACKSLASH];
    assert UnderRoot(r, q) && IsChild(p, q);
    TextBelow(r, p, q);
    assert q[|p| + 1..] == [];
  }

  /** A rooted child that is not seen, unless all are. */
  lemma UnseenChild(r: CText, p: CText) returns (q: CText)
    requires PlainName(r) && UnderRoot(r, p)
    requires !TakesAllBelow(r, p)
    ensures UnderRoot(r, q) && IsChild(p, q) && !HasChildSelects(p, q)
  {
    var tokens, base := ChildTokens(r, p), Chars(p[|r|..]) + [BACKSLASH];
    if !EndsInRun(tokens) {
      var z, n := MissesSome(tokens, base);
      q := RootedLetterChild(r, p, z, n + 1);
    } else {
      RootTokensAreClosed(r);
      EmptyNamedChild(r, p);
      q := p + [BACKSLASH];
    }
    SelectedByTokens(r, p, r, q);
  }

  /** Without wildcards that comes down to an odd run of backslashes. */
  lemma SeesEveryPlainChildIff(r: CText, p: CText)
    requires PlainName(r) && UnderRoot(r, p) && HasNoWildcard(p[|r|..])
    ensures (forall q :: IsChild(p, q) ==> HasChildSelects(p, q)) <==> IsOddRun(p[|r|..]) && |p| <= 1021
  {
    if IsOddRun(p[|r|..]) && |p| <= 1021 {
      forall q | IsChild(p, q) ensures HasChildSelects(p, q) {
        SelectsBelowIff(r, p, q);
      }
    } else {
      var q := RootedLetterChild(r, p, 97, 1);
      SelectsBelowIff(r, p, q);
    }
  }

  // ---- A key that selects itself --------------------------------------------

  lemma OddRunSelectsItself(r: CText, p: CText)
    requires PlainName(r) && UnderRoot(r, p) && IsOddRun(p[|r|..]) && |p| <= 1021
    ensures HasChildSelects(p, p)
  {
    CharsOfAscii(p[|r|..]);
    FittingPattern(r, p);
    OddRunTakesItself(p[|r|..]);
    SelectedByTokens(r, p, r, p);
  }

  lemma OthersDoNotSelectThemselves(r: CText, p: CText)
    requires PlainName(r) && UnderRoot(r, p) && HasNoWildcard(p[|r|..])
    requires !(IsOddRun(p[|r|..]) && |p| <= 1021)
    ensures !HasChildSelects(p, p)
  {
    if p == r {
      RootIsNotSelected(r, p, r);
    } else {
      SelectedByTokens(r, p, r, p);
      if |p| <= 1021 {
        FittingDoesNotMatchItself(r, p);
      } else {
        LongDoesNotMatchItself(r, p);
      }
    }
  }

  lemma FittingDoesNotMatchItself(r: CText, p: CText)
    requires PlainName(r) && UnderRoot(r, p) && p != r && HasNoWildcard(p[|r|..])
    requires !IsOddRun(p[|r|..]) && |p| <= 1021
    ensures !Match(ChildTokens(r, p), Chars(p[|r|..]))
  {
    var tokens, c := ChildTokens(r, p), Chars(p[|r|..]);
    FittingTokens(r, p);
    if Dangles(c) {
      if Match(tokens, c) {
        RunReaches(tokens, c, [BACKSLASH]);
        EmptyNamedChild(r, p);
        SelectedByTokens(r, p, r, p + [BACKSLASH]);
        SelectsBelowIff(r, p, p + [BACKSLASH]);
      }
    } else {
      WildcardsAreCharacters(p[|r|..]);
      AtLeastTwoCharacters(r, p);
      MatchFixedSuffix(Closed(c), [Literal(PERCENT)], c);
      assert c[|c| - 1] in c;
      assert !Takes(Literal(PERCENT), c[|c| - 1]);
    }
  }

  lemma LongDoesNotMatchItself(r: CText, p: CText)
    requires PlainName(r) && UnderRoot(r, p) && HasNoWildcard(p[|r|..]) && |p| >= 1022
    ensures !Match(ChildTokens(r, p), Chars(p[|r|..]))
  {
    var tokens, c := ChildTokens(r, p), Chars(p[|r|..]);
    LongTokens(r, p);
    LongTokensAreFixed(r, p);
    if Never in tokens {
      NeverMatchesNothing(tokens, c);
    } else {
      MatchFixedPrefix(tokens, [], c);
      assert tokens + [] == tokens;
    }
  }

  // ---- Right for no key -----------------------------------------------------

  /** What a pattern must look like that selects a child named `a`. */
  lemma SelectingTokens(r: CText, p: CText)
    requires PlainName(r) && UnderRoot(r, p)
    requires Match(ChildTokens(r, p), Chars(p[|r|..]) + [BACKSLASH] + Repeat(97, 1))
    ensures p != r && Never !in ChildTokens(r, p)
    ensures |ChildTokens(r, p)| >= 2 && ChildTokens(r, p)[0] == Literal(BACKSLASH)
  {
    var tokens, text := ChildTokens(r, p), Chars(p[|r|..]) + [BACKSLASH] + Repeat(97, 1);
    TokensBegin(r, p);
    if Never in tokens { NeverMatchesNothing(tokens, text); }
    if p == r {
      assert p[|r|..] == [];
      FittingTokens(r, p);
    } else {
      AtLeastTwoCharacters(r, p);
    }
  }

  /** Every path has some rooted path that the has-children test gets wrong:
      one below it and not selected, or one selected and not below it. */
  lemma GuardIsNeverExact(r: CText, p: CText) returns (q: CText)
    requires PlainName(r) && UnderRoot(r, p)
    ensures UnderRoot(r, q) && q != r
    ensures HasChildSelects(p, q) <==> !(InSubtree(p, q) && q != p)
  {
    q := RootedLetterChild(r, p, 97, 1);
    SelectedByTokens(r, p, r, q);
    if HasChildSelects(p, q) {
      SelectingTokens(r, p);
      TokensAreFew(r, p);
      q := SpelledInstance(r, p);
      if InSubtree(p, q) && q != p { TextBelow(r, p, q); }
    }
  }

  lemma WholeGrandchildPattern(r: CText, p: CText)
    requires PlainName(r) && UnderRoot(r, p) && |p| <= 1019
    ensures |r| <= |GrandchildPattern(p)|
    ensures Chars(GrandchildPattern(p)[|r|..]) == Chars(p[|r|..]) + [BACKSLASH, PERCENT, BACKSLASH, PERCENT]
  {
    assert GrandchildPattern(p)[|r|..] == p[|r|..] + [BACKSLASH, PERCENT, BACKSLASH, PERCENT];
    CharsAppendAscii(p[|r|..], [BACKSLASH, PERCENT, BACKSLASH, PERCENT]);
  }

  /** The whole second pattern ends in a literal `%`. */
  lemma WholeGrandchildMisses(r: CText, p: CText, text: seq<int>)
    requires PlainName(r) && UnderRoot(r, p) && |p| <= 1019
    requires text != [] && text[|text| - 1] == 97
    ensures |r| <= |GrandchildPattern(p)|
    ensures !Match(Parse(Chars(GrandchildPattern(p)[|r|..]), ESCAPE), text)
  {
    WholeGrandchildPattern(r, p);
    TwoSeparatorsMiss(Chars(p[|r|..]), text);
  }

  /** Cut by one byte it dangles. */
  lemma CutGrandchildMisses(r: CText, p: CText, text: seq<int>)
    requires PlainName(r) && UnderRoot(r, p) && |p| == 1020
    ensures |r| <= |GrandchildPattern(p)|
    ensures !Match(Parse(Chars(GrandchildPattern(p)[|r|..]), ESCAPE), text)
  {
    var cut := [BACKSLASH, PERCENT, BACKSLASH];
    assert GrandchildPattern(p)[|r|..] == p[|r|..] + cut;
    CharsAppendAscii(p[|r|..], cut);
    TwoSeparatorsCut(Chars(p[|r|..]));
    NeverMatchesNothing(Parse(Chars(p[|r|..]) + cut, ESCAPE), text);
  }

  /** The second pattern asks for a `%` at the end, or for nothing that exists. */
  lemma GrandchildMissesLetter(r: CText, p: CText, q: CText)
    requires PlainName(r) && UnderRoot(r, p) && UnderRoot(r, q) && |p| <= 1020
    requires var text := Chars(q[|r|..]); text != [] && text[|text| - 1] == 97
    ensures !IsLike(GrandchildPattern(p), q, ESCAPE)
  {
    PatternsKeepRoot(r, p);
    RootIsPinned(r, GrandchildPattern(p), r, q, ESCAPE);
    if |p| <= 1019 {
      WholeGrandchildMisses(r, p, Chars(q[|r|..]));
    } else {
      CutGrandchildMisses(r, p, Chars(q[|r|..]));
    }
  }

  /** A fitting pattern that selects a child named `a` goes on to what is below it. */
  lemma SelectsGrandchild(r: CText, p: CText, more: seq<int>)
    requires PlainName(r) && UnderRoot(r, p) && |p| <= 1021
    requires Match(ChildTokens(r, p), Chars(p[|r|..]) + [BACKSLASH] + Repeat(97, 1))
    ensures Match(ChildTokens(r, p), Chars(p[|r|..]) + [BACKSLASH] + Repeat(97, 1) + more)
  {
    var c, text := Chars(p[|r|..]), Chars(p[|r|..]) + [BACKSLASH] + Repeat(97, 1);
    FittingTokens(r, p);
    if !Dangles(c) {
      MatchFixedSuffix(Closed(c), [Literal(PERCENT)], text);
    }
    RunReaches(ChildTokens(r, p), text, more);
  }

  lemma TextExtends(r: CText, child: CText, below: CText)
    requires UnderRoot(r, child) && child != r && IsAscii(below)
    ensures UnderRoot(r, child + below)
    ensures Chars((child + below)[|r|..]) == Chars(child[|r|..]) + below
  {
    assert (child + below)[|r|..] == child[|r|..] + below;
    CharsAppendAscii(child[|r|..], below);
  }

  /** What is listed along with a child named `a`: the path `a` below it. */
  lemma ListedGrandchild(r: CText, p: CText, child: CText) returns (q: CText)
    requires PlainName(r) && UnderRoot(r, p) && UnderRoot(r, child) && child != r && |p| <= 1020
    requires Chars(child[|r|..]) == Chars(p[|r|..]) + [BACKSLASH] + Repeat(97, 1)
    requires HasChildSelects(p, child)
    ensures q == child + [BACKSLASH, 97] && UnderRoot(r, q) && ChildSelectsAsWritten(p, q)
  {
    var below: CText := [BACKSLASH, 97];
    q := child + below;
    TextExtends(r, child, below);
    SelectedByTokens(r, p, r, child);
    SelectsGrandchild(r, p, below);
    SelectedByTokens(r, p, r, q);
    GrandchildMissesLetter(r, p, q);
  }

  /** Every path has some rooted path that the enumeration and the count get
      wrong: a child not selected, or a path selected that is no child. */
  lemma ListingIsNeverExact(r: CText, p: CText) returns (q: CText)
    requires PlainName(r) && UnderRoot(r, p)
    ensures UnderRoot(r, q) && q != r
    ensures ChildSelectsAsWritten(p, q) <==> !IsChild(p, q)
  {
    var child := RootedLetterChild(r, p, 97, 1);
    q := child;
    if ChildSelectsAsWritten(p, child) {
      if |p| >= 1021 { PatternsCoincide(p); }
      q := ListedGrandchild(r, p, child);
      assert q[|p| + 1..][|child| - |p| - 1] == BACKSLASH;
    }
  }
}
