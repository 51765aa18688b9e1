/** SQL's LIKE operator, with an optional escape character.

    `%` matches any run of characters, `_` any one character, every other
    character itself up to the case of ASCII letters. With an escape character
    the character after it is matched as itself, and a pattern that ends in the
    escape character matches nothing. */
module Like {
  import opened Text

  datatype Token = Literal(c: int) | AnyOne | AnyRun | Never

  function Fold(c: int): int {
    if 65 <= c <= 90 then c + 32 else c
  }

  predicate SameLetter(c: int, d: int) {
    Fold(c) == Fold(d)
  }

  /** The same character, or the two cases of an ASCII letter. */
  lemma SameLetterIff(c: int, d: int)
    ensures SameLetter(c, d) <==>
            c == d || ('A' as int <= c <= 'Z' as int && d - c == 'a' as int - 'A' as int)
                   || ('A' as int <= d <= 'Z' as int && c - d == 'a' as int - 'A' as int)
  {
  }

  /** a is a prefix of b up to the case of ASCII letters. */
  predicate FoldPrefix(a: seq<int>, b: seq<int>) {
    |a| <= |b| && forall i :: 0 <= i < |a| ==> SameLetter(a[i], b[i])
  }

  /** s is at least as long as p, and each character of p is a wildcard or the
      character of s at its place up to case. */
  predicate Covers(p: seq<int>, s: seq<int>) {
    |p| <= |s| && forall i :: 0 <= i < |p| ==> IsWildcard(p[i]) || SameLetter(p[i], s[i])
  }

  predicate IsWildcard(c: int) {
    c == PERCENT || c == UNDERSCORE
  }

  predicate HasNoWildcard(s: seq<int>) {
    PERCENT !in s && UNDERSCORE !in s
  }

  function PlainToken(c: int): Token {
    if c == PERCENT then AnyRun else if c == UNDERSCORE then AnyOne else Literal(c)
  }

  function Parse(pattern: seq<int>, escape: Option<int>): (tokens: seq<Token>)
    ensures |tokens| <= |pattern|
    ensures pattern != [] ==> tokens != []
  {
    if pattern == [] then []
    else if escape == Some(pattern[0]) then
      if |pattern| == 1 then [Never] else [Literal(pattern[1])] + Parse(pattern[2..], escape)
    else [PlainToken(pattern[0])] + Parse(pattern[1..], escape)
  }

  predicate Match(tokens: seq<Token>, s: seq<int>)
    decreases |tokens| + |s|
  {
    if tokens == [] then s == []
    else match tokens[0]
      case AnyRun => Match(tokens[1..], s) || (s != [] && Match(tokens, s[1..]))
      case AnyOne => s != [] && Match(tokens[1..], s[1..])
      case Literal(c) => s != [] && SameLetter(c, s[0]) && Match(tokens[1..], s[1..])
      case Never => false
  }

  /** `s LIKE pattern` or `s LIKE pattern ESCAPE escape`. */
  predicate IsLike(pattern: CText, s: CText, escape: Option<int>) {
    Match(Parse(Chars(pattern), escape), Chars(s))
  }

  /** Tokens that take exactly one character each. */
  predicate IsFixed(tokens: seq<Token>) {
    forall i :: 0 <= i < |tokens| ==> tokens[i].Literal? || tokens[i].AnyOne?
  }

  predicate Takes(token: Token, c: int) {
    token.AnyOne? || (token.Literal? && SameLetter(token.c, c))
  }

  predicate TakesPrefix(tokens: seq<Token>, s: seq<int>) {
    |tokens| <= |s| && forall i :: 0 <= i < |tokens| ==> Takes(tokens[i], s[i])
  }

  // ---- Parsing --------------------------------------------------------------

  lemma {:induction false} ParsePlain(p: seq<int>)
    ensures |Parse(p, None)| == |p|
    ensures forall i :: 0 <= i < |p| ==> Parse(p, None)[i] == PlainToken(p[i])
  {
    if p == [] {
    } else {
      ParsePlain(p[1..]);
    }
  }

  /** A stretch without the escape character parses on its own. */
  lemma {:induction false} ParseConcat(p: seq<int>, q: seq<int>, escape: Option<int>)
    requires escape.None? || escape.value !in p
    ensures Parse(p + q, escape) == Parse(p, None) + Parse(q, escape)
  {
    if p == [] {
      assert p + q == q;
    } else {
      assert (p + q)[1..] == p[1..] + q;
      ParseConcat(p[1..], q, escape);
    }
  }

  // ---- Matching -------------------------------------------------------------

  /** A fixed stretch of the pattern takes exactly as many characters. */
  lemma {:induction false} MatchFixedPrefix(a: seq<Token>, b: seq<Token>, s: seq<int>)
    requires IsFixed(a)
    ensures Match(a + b, s) <==> TakesPrefix(a, s) && Match(b, s[|a|..])
  {
    if a == [] {
      assert a + b == b;
    } else {
      assert (a + b)[1..] == a[1..] + b;
      assert IsFixed(a[1..]);
      if s != [] {
        MatchFixedPrefix(a[1..], b, s[1..]);
        if |a| <= |s| { assert s[1..][|a| - 1..] == s[|a|..]; }
        assert TakesPrefix(a, s) <==> Takes(a[0], s[0]) && TakesPrefix(a[1..], s[1..]) by {
          if Takes(a[0], s[0]) && TakesPrefix(a[1..], s[1..]) {
            forall i | 0 <= i < |a| ensures Takes(a[i], s[i]) {
              if i > 0 { assert Takes(a[1..][i - 1], s[1..][i - 1]); }
            }
          }
          if TakesPrefix(a, s) {
            forall i | 0 <= i < |a| - 1 ensures Takes(a[1..][i], s[1..][i]) {
              assert Takes(a[i + 1], s[i + 1]);
            }
          }
        }
      }
    }
  }

  lemma {:induction false} RunMatchesAll(s: seq<int>)
    ensures Match([AnyRun], s)
  {
    if s == [] {
    } else {
      RunMatchesAll(s[1..]);
    }
  }

  lemma MatchDropsRun(tokens: seq<Token>, s: seq<int>)
    requires tokens != [] && tokens[0].AnyRun? && s != []
    requires Match(tokens[1..], s[1..])
    ensures Match(tokens, s)
  {
  }

  /** Read plainly, a pattern matches its own text in any case of its letters and
      with any characters for its wildcards. */
  lemma {:induction false} MatchesItself(p: seq<int>, rest: seq<Token>, s: seq<int>)
    requires Covers(p, s) && Match(rest, s[|p|..])
    ensures Match(Parse(p, None) + rest, s)
  {
    if p == [] {
      assert Parse(p, None) + rest == rest;
    } else {
      assert s[1..][|p| - 1..] == s[|p|..];
      forall i | 0 <= i < |p| - 1 ensures IsWildcard(p[1..][i]) || SameLetter(p[1..][i], s[1..][i]) {
        assert IsWildcard(p[i + 1]) || SameLetter(p[i + 1], s[i + 1]);
      }
      MatchesItself(p[1..], rest, s[1..]);
      var tokens := Parse(p, None) + rest;
      assert tokens[1..] == Parse(p[1..], None) + rest;
      if tokens[0].AnyRun? { MatchDropsRun(tokens, s); }
    }
  }

  /** Followed by `%` it matches every extension of its own text. */
  lemma MatchesOwnExtensions(p: seq<int>, s: seq<int>)
    requires Covers(p, s)
    ensures Match(Parse(p, None) + [AnyRun], s)
  {
    RunMatchesAll(s[|p|..]);
    MatchesItself(p, [AnyRun], s);
  }

  /** `%c%` finds the character c anywhere, up to case. */
  lemma {:induction false} MatchContains(c: int, s: seq<int>)
    ensures Match([AnyRun, Literal(c), AnyRun], s) <==> exists i :: 0 <= i < |s| && SameLetter(c, s[i])
  {
    var tokens := [AnyRun, Literal(c), AnyRun];
    assert tokens[1..] == [Literal(c), AnyRun];
    assert tokens[1..][1..] == [AnyRun];
    if s == [] {
    } else {
      MatchContains(c, s[1..]);
      RunMatchesAll(s[1..]);
      assert forall i :: 0 < i < |s| ==> s[i] == s[1..][i - 1];
    }
  }

  /** So does a fixed stretch at its end. */
  lemma {:induction false} MatchFixedSuffix(a: seq<Token>, b: seq<Token>, s: seq<int>)
    requires IsFixed(b)
    ensures Match(a + b, s) <==>
            |b| <= |s| && Match(a, s[..|s| - |b|]) && TakesPrefix(b, s[|s| - |b|..])
    decreases |a| + |s|
  {
    if a == [] {
      assert a + b == b && b + [] == b;
      MatchFixedPrefix(b, [], s);
    } else {
      assert (a + b)[1..] == a[1..] + b;
      if a[0].AnyRun? { MatchFixedSuffix(a[1..], b, s); }
      if s == [] {
      } else {
        MatchFixedSuffix(if a[0].AnyRun? then a else a[1..], b, s[1..]);
        if |b| < |s| {
          assert s[..|s| - |b|][1..] == s[1..][..|s| - 1 - |b|];
        } else if |b| == |s| {
          assert s[..|s| - |b|] == [];
        }
      }
    }
  }

  lemma {:induction false} NeverMatchesNothing(tokens: seq<Token>, s: seq<int>)
    requires Never in tokens
    ensures !Match(tokens, s)
    decreases |tokens| + |s|
  {
    if tokens[0].AnyRun? { NeverMatchesNothing(tokens[1..], s); }
    if s == [] {
    } else if tokens[0].AnyRun? {
      NeverMatchesNothing(tokens, s[1..]);
    } else if !tokens[0].Never? {
      NeverMatchesNothing(tokens[1..], s[1..]);
    }
  }

  /** What ends in `%` matches every extension of what it matches. */
  lemma {:induction false} MatchExtends(a: seq<Token>, s: seq<int>, more: seq<int>)
    requires Match(a + [AnyRun], s)
    ensures Match(a + [AnyRun], s + more)
    decreases |a| + |s|
  {
    var tokens := a + [AnyRun];
    if a == [] {
      assert tokens == [AnyRun];
      RunMatchesAll(s + more);
    } else {
      assert tokens[1..] == a[1..] + [AnyRun];
      if s != [] { assert (s + more)[1..] == s[1..] + more; }
      if a[0].AnyRun? && Match(tokens[1..], s) {
        MatchExtends(a[1..], s, more);
      } else if a[0].AnyRun? {
        MatchExtends(a, s[1..], more);
      } else {
        MatchExtends(a[1..], s[1..], more);
      }
    }
  }

  // ---- How far a pattern reaches --------------------------------------------

  /** The last token that is no `_` is a `%`: the pattern takes texts of every
      length that is large enough. */
  predicate EndsInRun(tokens: seq<Token>) {
    tokens != [] &&
    var last := tokens[|tokens| - 1];
    last.AnyRun? || (last.AnyOne? && EndsInRun(tokens[..|tokens| - 1]))
  }

  function Repeat(c: int, n: nat): (s: seq<int>)
    ensures |s| == n
  {
    seq(n, _ => c)
  }

  /** A letter that is not c. */
  function OtherLetter(c: int): (z: Byte)
    ensures !SameLetter(c, z) && (z == 97 || z == 98)
  {
    if Fold(c) == 97 then 98 else 97
  }

  /** A pattern that ends otherwise misses every long enough row of some letter
      behind any text. */
  lemma {:induction false} MissesSome(tokens: seq<Token>, base: seq<int>) returns (z: Byte, n: nat)
    requires !EndsInRun(tokens)
    ensures z == 97 || z == 98
    ensures forall m :: n <= m ==> !Match(tokens, base + Repeat(z, m))
    decreases |tokens|
  {
    if tokens == [] {
      z, n := 97, 1;
    } else {
      var a, last := tokens[..|tokens| - 1], tokens[|tokens| - 1];
      assert tokens == a + [last];
      if last.AnyOne? {
        z, n := MissesSome(a, base);
        n := n + 1;
      } else {
        z, n := OtherLetter(if last.Literal? then last.c else 0), 1;
      }
      forall m | n <= m ensures !Match(tokens, base + Repeat(z, m)) {
        var s := base + Repeat(z, m);
        if last.Never? {
          NeverMatchesNothing(tokens, s);
        } else {
          MatchFixedSuffix(a, [last], s);
          assert s[..|s| - 1] == base + Repeat(z, m - 1);
        }
      }
    }
  }

  /** A pattern that ends so takes every extension of a text it takes. */
  lemma {:induction false} RunReaches(tokens: seq<Token>, s: seq<int>, more: seq<int>)
    requires EndsInRun(tokens) && Match(tokens, s)
    ensures Match(tokens, s + more)
    decreases |tokens|
  {
    var a, last := tokens[..|tokens| - 1], tokens[|tokens| - 1];
    assert tokens == a + [last];
    if last.AnyRun? {
      MatchExtends(a, s, more);
    } else {
      MatchFixedSuffix(a, [last], s);
      MatchFixedSuffix(a, [last], s + more);
      var t := s + more;
      RunReaches(a, s[..|s| - 1], t[|s| - 1..|t| - 1]);
      assert t[..|t| - 1] == s[..|s| - 1] + t[|s| - 1..|t| - 1];
    }
  }

  // ---- Backslashes in pattern and text --------------------------------------

  /** Every literal backslash of a pattern takes one of the text. */
  lemma {:induction false} MatchHasBackslashes(tokens: seq<Token>, s: seq<int>)
    requires Match(tokens, s)
    ensures multiset(tokens)[Literal(BACKSLASH)] <= multiset(s)[BACKSLASH]
    decreases |tokens| + |s|
  {
    if tokens == [] {
    } else {
      assert tokens == [tokens[0]] + tokens[1..];
      if s != [] { assert s == [s[0]] + s[1..]; }
      if tokens[0].AnyRun? && Match(tokens[1..], s) {
        MatchHasBackslashes(tokens[1..], s);
      } else if tokens[0].AnyRun? {
        MatchHasBackslashes(tokens, s[1..]);
      } else {
        MatchHasBackslashes(tokens[1..], s[1..]);
      }
    }
  }

  lemma OneMore<T>(x: T, s: seq<T>, y: T)
    ensures multiset([x] + s)[y] == multiset(s)[y] + if x == y then 1 else 0
  {
  }

  lemma ParsedStep(x: int, rest: seq<int>)
    ensures Parse([x] + rest, None) == [PlainToken(x)] + Parse(rest, None)
  {
    assert ([x] + rest)[1..] == rest;
  }

  lemma {:induction false} ParsedBackslashes(p: seq<int>)
    ensures multiset(Parse(p, None))[Literal(BACKSLASH)] == multiset(p)[BACKSLASH]
  {
    if p == [] {
    } else {
      var x, rest := p[0], p[1..];
      assert p == [x] + rest;
      ParsedBackslashes(rest);
      ParsedStep(x, rest);
      OneMore(x, rest, BACKSLASH);
      OneMore(PlainToken(x), Parse(rest, None), Literal(BACKSLASH));
    }
  }

  /** A text the tokens match: `x` stands in for the wildcards. */
  function Instance(tokens: seq<Token>): (s: seq<int>)
    ensures |s| == |tokens|
  {
    seq(|tokens|, i requires 0 <= i < |tokens| => if tokens[i].Literal? then tokens[i].c else 120)
  }

  lemma {:induction false} MatchesInstance(tokens: seq<Token>)
    requires Never !in tokens
    ensures Match(tokens, Instance(tokens))
  {
    if tokens == [] {
    } else {
      MatchesInstance(tokens[1..]);
      var s := Instance(tokens);
      assert s[1..] == Instance(tokens[1..]);
      assert tokens == [tokens[0]] + tokens[1..];
      if tokens[0].AnyRun? { MatchDropsRun(tokens, s); }
    }
  }
}
