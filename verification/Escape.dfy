/** Patterns read with ESCAPE '\'. */
module Escape {
  import opened Text
  import opened Like

  const ESCAPE: Option<int> := Some(BACKSLASH)

  /** c ends in an escape character that has nothing left to escape. */
  predicate Dangles(c: seq<int>) {
    c != [] &&
    if c[0] != BACKSLASH then Dangles(c[1..]) else |c| == 1 || Dangles(c[2..])
  }

  /** The tokens of c but for such an escape character. */
  function Closed(c: seq<int>): (tokens: seq<Token>)
    ensures Never !in tokens
    ensures |tokens| + (if Dangles(c) then 1 else 0) <= |c|
    ensures |c| >= 2 && c[0] == BACKSLASH ==> |tokens| + (if Dangles(c) then 2 else 1) <= |c|
  {
    if c == [] then []
    else if c[0] != BACKSLASH then [PlainToken(c[0])] + Closed(c[1..])
    else if |c| == 1 then []
    else [Literal(c[1])] + Closed(c[2..])
  }

  /** What d is read as behind c. */
  function Behind(c: seq<int>, d: seq<int>): seq<int> {
    if Dangles(c) then [BACKSLASH] + d else d
  }

  lemma ParseOne(p: seq<int>, x: int)
    requires x != BACKSLASH
    ensures Parse([x] + p, ESCAPE) == [PlainToken(x)] + Parse(p, ESCAPE)
  {
    assert ([x] + p)[1..] == p;
  }

  lemma ParseEscaped(p: seq<int>, x: int)
    ensures Parse([BACKSLASH, x] + p, ESCAPE) == [Literal(x)] + Parse(p, ESCAPE)
  {
    assert ([BACKSLASH, x] + p)[2..] == p;
  }

  lemma Regroup(x: Token, a: seq<Token>, b: seq<Token>)
    ensures [x] + (a + b) == ([x] + a) + b
  {
  }

  /** The only thing one part of a pattern hands on to the next is an escape
      character at its end. */
  lemma {:induction false} ParseSplits(c: seq<int>, d: seq<int>)
    ensures Parse(c + d, ESCAPE) == Closed(c) + Parse(Behind(c, d), ESCAPE)
    decreases |c|
  {
    if c == [] {
      assert c + d == d;
    } else if c[0] != BACKSLASH {
      var rest := c[1..];
      assert c + d == [c[0]] + (rest + d);
      ParseOne(rest + d, c[0]);
      ParseSplits(rest, d);
      Regroup(PlainToken(c[0]), Closed(rest), Parse(Behind(rest, d), ESCAPE));
    } else if |c| == 1 {
      assert c + d == [BACKSLASH] + d;
    } else {
      var rest := c[2..];
      assert c + d == [BACKSLASH, c[1]] + (rest + d);
      ParseEscaped(rest + d, c[1]);
      ParseSplits(rest, d);
      Regroup(Literal(c[1]), Closed(rest), Parse(Behind(rest, d), ESCAPE));
    }
  }

  lemma {:induction false} ParseLiterals(p: seq<int>)
    ensures forall i :: 0 <= i < |Parse(p, ESCAPE)| && Parse(p, ESCAPE)[i].Literal? ==> Parse(p, ESCAPE)[i].c in p
    decreases |p|
  {
    if p == [] {
    } else if p[0] == BACKSLASH {
      if |p| > 1 { ParseLiterals(p[2..]); }
    } else {
      ParseLiterals(p[1..]);
    }
  }

  /** Without wildcards a pattern is fixed, or it dangles. */
  lemma {:induction false} WildcardFreeTokens(p: seq<int>)
    requires HasNoWildcard(p)
    ensures Never in Parse(p, ESCAPE) || IsFixed(Parse(p, ESCAPE))
    decreases |p|
  {
    if p == [] {
    } else if p[0] == BACKSLASH {
      if |p| > 1 { WildcardFreeTokens(p[2..]); }
    } else {
      WildcardFreeTokens(p[1..]);
    }
  }

  /** A pattern that begins with the escape character does not match the empty text. */
  lemma EscapedFirst(p: seq<int>)
    requires p != [] && p[0] == BACKSLASH
    ensures Parse(p, ESCAPE) != [] && !Match(Parse(p, ESCAPE), [])
    ensures Parse(p, ESCAPE)[0] == if |p| == 1 then Never else Literal(p[1])
    ensures |p| >= 2 ==> |Parse(p, ESCAPE)| < |p|
  {
  }

  /** What becomes of the separator and the `%` of the child pattern. */
  lemma SeparatorThenRun(c: seq<int>)
    ensures Parse(c + [BACKSLASH, PERCENT], ESCAPE) ==
            Closed(c) + if Dangles(c) then [Literal(BACKSLASH), AnyRun] else [Literal(PERCENT)]
  {
    ParseSplits(c, [BACKSLASH, PERCENT]);
    if Dangles(c) {
      assert ([BACKSLASH] + [BACKSLASH, PERCENT])[2..] == [PERCENT];
      assert Parse([PERCENT], ESCAPE) == [AnyRun];
    } else {
      assert Parse([BACKSLASH, PERCENT], ESCAPE) == [Literal(PERCENT)];
    }
  }

  // ---- Pairs of backslashes -------------------------------------------------

  /** Backslashes and nothing else. */
  predicate IsRun(s: seq<int>) {
    forall i :: 0 <= i < |s| ==> s[i] == BACKSLASH
  }

  predicate IsPairs(u: seq<int>) {
    |u| % 2 == 0 && IsRun(u)
  }

  /** In a text that repeats the pattern the escapes leave the text a backslash
      ahead, so beyond pairs of backslashes the two never meet again. */
  lemma {:induction false} PairsMatchIff(u: seq<int>, ahead: nat, more: seq<int>)
    requires HasNoWildcard(u)
    requires u == [] || ahead > 0 || u[0] == BACKSLASH
    ensures Match(Parse(u + [PERCENT], ESCAPE), Repeat(BACKSLASH, ahead) + u + more) <==> IsPairs(u)
    decreases |u|
  {
    var p, s := u + [PERCENT], Repeat(BACKSLASH, ahead) + u + more;
    if u == [] {
      assert Parse(p, ESCAPE) == [AnyRun];
      RunMatchesAll(s);
    } else if u[0] != BACKSLASH || |u| == 1 || u[1] != BACKSLASH {
      assert s[0] == BACKSLASH;
      assert Parse(p, ESCAPE)[0] == Literal(if u[0] == BACKSLASH then p[1] else u[0]);
    } else {
      assert p[2..] == u[2..] + [PERCENT];
      assert s[1..] == Repeat(BACKSLASH, ahead + 1) + u[2..] + more;
      PairsMatchIff(u[2..], ahead + 1, more);
      assert IsRun(u) <==> IsRun(u[2..]) by {
        assert forall i :: 2 <= i < |u| ==> u[i] == u[2..][i - 2];
      }
    }
  }

  /** The child pattern of c against c, a separator and more. */
  lemma OwnPatternIff(c: seq<int>, more: seq<int>)
    requires HasNoWildcard(c) && (c == [] || c[0] == BACKSLASH)
    ensures Match(Parse(c + [BACKSLASH, PERCENT], ESCAPE), c + [BACKSLASH] + more) <==> IsPairs(c + [BACKSLASH])
  {
    var u := c + [BACKSLASH];
    assert c + [BACKSLASH, PERCENT] == u + [PERCENT];
    assert Repeat(BACKSLASH, 0) + u == u;
    PairsMatchIff(u, 0, more);
  }

  /** The second child pattern ends in a literal `%`, which is no letter. */
  lemma TwoSeparatorsMiss(c: seq<int>, text: seq<int>)
    requires text != [] && text[|text| - 1] != PERCENT
    ensures !Match(Parse(c + [BACKSLASH, PERCENT, BACKSLASH, PERCENT], ESCAPE), text)
  {
    var d := c + [BACKSLASH, PERCENT];
    assert c + [BACKSLASH, PERCENT, BACKSLASH, PERCENT] == d + [BACKSLASH, PERCENT];
    ClosesWithPercent(c);
    SeparatorThenRun(d);
    MatchFixedSuffix(Closed(d), [Literal(PERCENT)], text);
    assert !Takes(Literal(PERCENT), text[|text| - 1]);
  }

  /** Cut by one byte it dangles. */
  lemma TwoSeparatorsCut(c: seq<int>)
    ensures Never in Parse(c + [BACKSLASH, PERCENT, BACKSLASH], ESCAPE)
  {
    var d := c + [BACKSLASH, PERCENT];
    assert c + [BACKSLASH, PERCENT, BACKSLASH] == d + [BACKSLASH];
    ClosesWithPercent(c);
    ParseSplits(d, [BACKSLASH]);
    assert Parse([BACKSLASH], ESCAPE) == [Never];
  }

  /** A `%` at the end leaves no escape character open. */
  lemma {:induction false} ClosesWithPercent(c: seq<int>)
    ensures !Dangles(c + [BACKSLASH, PERCENT])
    decreases |c|
  {
    var d := c + [BACKSLASH, PERCENT];
    if c == [] {
      assert d[2..] == [];
    } else if c[0] != BACKSLASH {
      assert d[1..] == c[1..] + [BACKSLASH, PERCENT];
      ClosesWithPercent(c[1..]);
    } else if |c| == 1 {
      assert d[2..] == [PERCENT] && [PERCENT][1..] == [];
      assert !Dangles([PERCENT]);
    } else {
      assert d[2..] == c[2..] + [BACKSLASH, PERCENT];
      ClosesWithPercent(c[2..]);
    }
  }

  /** Pairs of backslashes take half as many and more. */
  lemma {:induction false} PairsTakeHalf(u: seq<int>, n: nat)
    requires IsPairs(u) && |u| <= 2 * n
    ensures Match(Parse(u + [PERCENT], ESCAPE), Repeat(BACKSLASH, n))
    decreases |u|
  {
    if u == [] {
      assert Parse(u + [PERCENT], ESCAPE) == [AnyRun];
      RunMatchesAll(Repeat(BACKSLASH, n));
    } else {
      assert u + [PERCENT] == [BACKSLASH, BACKSLASH] + (u[2..] + [PERCENT]);
      ParseEscaped(u[2..] + [PERCENT], BACKSLASH);
      PairsTakeHalf(u[2..], n - 1);
      assert Repeat(BACKSLASH, n)[1..] == Repeat(BACKSLASH, n - 1);
    }
  }

  lemma RunIsRepeat(s: seq<int>)
    requires IsRun(s)
    ensures s == Repeat(BACKSLASH, |s|)
  {
  }

  /** The child pattern of an odd run of backslashes takes that run. */
  lemma OddRunTakesItself(s: seq<int>)
    requires IsRun(s) && |s| % 2 == 1
    ensures Match(Parse(s + [BACKSLASH, PERCENT], ESCAPE), s)
  {
    var u := s + [BACKSLASH];
    assert s + [BACKSLASH, PERCENT] == u + [PERCENT];
    RunIsRepeat(s);
    PairsTakeHalf(u, |s|);
  }
}
