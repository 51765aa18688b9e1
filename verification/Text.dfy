/** Text as the library and SQLite see it.

    A C string is a sequence of non-zero bytes. SQLite reads such a string as
    characters: a byte of 0xC0 or more opens a character and takes every
    continuation byte (0x80..0xBF) after it; any other byte stands alone. LIKE
    and LENGTH work on those characters, `=` and ORDER BY on the bytes. */
module Text {
  type Byte = x: int | 0 < x < 256 witness 1
  type CText = seq<Byte>

  /** An unsigned 32-bit word. */
  type DWord = x: int | 0 <= x < 0x1_0000_0000

  const BACKSLASH: Byte := 92
  const PERCENT: Byte := 37
  const UNDERSCORE: Byte := 95

  datatype Option<+T> = None | Some(value: T)

  predicate IsAscii(s: CText) {
    forall i :: 0 <= i < |s| ==> s[i] < 0x80
  }

  predicate IsContinuation(b: int) {
    0x80 <= b < 0xC0
  }

  /** How many continuation bytes s starts with. */
  function ContinuationRun(s: CText): (n: nat)
    ensures n <= |s|
    ensures forall i :: 0 <= i < n ==> IsContinuation(s[i])
  {
    if s == [] || !IsContinuation(s[0]) then 0 else 1 + ContinuationRun(s[1..])
  }

  /** The bytes of the first character. */
  function UnitLength(s: CText): (n: nat)
    requires s != []
    ensures 1 <= n <= |s|
  {
    if s[0] < 0xC0 then 1 else 1 + ContinuationRun(s[1..])
  }

  /** The payload bits of an opening byte (SQLite's table sqlite3Utf8Trans1). */
  function LeadBits(b: Byte): (v: int)
    requires 0xC0 <= b
    ensures 0 <= v < 32
  {
    if b < 0xE0 then b - 0xC0
    else if b < 0xF0 then b - 0xE0
    else if b < 0xF8 then b - 0xF0
    else if b < 0xFC then b - 0xF8
    else if b < 0xFE then b - 0xFC
    else 0
  }

  function LowBits(b: int): (v: int)
    ensures 0 <= v < 64
  {
    b % 64
  }

  /** Continuation bytes shifted into a 32-bit accumulator. */
  function Accumulate(acc: int, tail: CText): (v: int)
    requires 0 <= acc < 0x1_0000_0000
    ensures 0 <= v < 0x1_0000_0000
    decreases |tail|
  {
    if tail == [] then acc
    else
      var n := |tail| - 1;
      (Accumulate(acc, tail[..n]) * 64 + LowBits(tail[n])) % 0x1_0000_0000
  }

  /** A decoded value SQLite keeps; all others become U+FFFD. */
  predicate IsKept(v: int) {
    0x80 <= v < 0x1_0000_0000 && !(0xD800 <= v < 0xE000) && v != 0xFFFE && v != 0xFFFF
  }

  function ReadCharacter(unit: CText): (c: int)
    requires unit != []
    ensures unit[0] < 0x80 ==> c == unit[0]
    ensures unit[0] >= 0x80 ==> IsKept(c)
  {
    if unit[0] < 0xC0 then unit[0]
    else
      var v := Accumulate(LeadBits(unit[0]), unit[1..]);
      if IsKept(v) then v else 0xFFFD
  }

  /** The characters of s. */
  function Chars(s: CText): (cs: seq<int>)
    ensures |cs| <= |s|
    ensures s != [] ==> cs != []
    decreases |s|
  {
    if s == [] then []
    else
      var n := UnitLength(s);
      [ReadCharacter(s[..n])] + Chars(s[n..])
  }

  /** A value some byte string reads as. */
  predicate IsReadable(c: int) {
    0 < c < 0x80 || IsKept(c)
  }

  lemma {:induction false} CharsAreReadable(s: CText)
    ensures forall i :: 0 <= i < |Chars(s)| ==> IsReadable(Chars(s)[i])
    decreases |s|
  {
    if s == [] {
    } else {
      CharsAreReadable(s[UnitLength(s)..]);
    }
  }

  lemma {:induction false} ContinuationRunExtends(a: CText, b: CText)
    requires b == [] || !IsContinuation(b[0])
    ensures ContinuationRun(a + b) == ContinuationRun(a)
  {
    if a == [] {
      assert a + b == b;
    } else {
      assert (a + b)[1..] == a[1..] + b;
      ContinuationRunExtends(a[1..], b);
    }
  }

  /** Text after a complete first character does not change that character. */
  lemma FirstCharacterExtends(a: CText, b: CText)
    requires a != []
    requires b == [] || !IsContinuation(b[0])
    ensures UnitLength(a + b) == UnitLength(a)
    ensures (a + b)[..UnitLength(a)] == a[..UnitLength(a)]
    ensures (a + b)[UnitLength(a)..] == a[UnitLength(a)..] + b
  {
    var n := UnitLength(a);
    assert (a + b)[1..] == a[1..] + b;
    ContinuationRunExtends(a[1..], b);
    assert UnitLength(a + b) == n;
    assert (a + b)[..n] == a[..n];
    assert (a + b)[n..] == a[n..] + b;
  }

  /** Characters do not straddle a byte that is not a continuation. */
  lemma {:induction false} CharsConcat(a: CText, b: CText)
    requires b == [] || !IsContinuation(b[0])
    ensures Chars(a + b) == Chars(a) + Chars(b)
    decreases |a|
  {
    if a == [] {
      assert a + b == b;
    } else {
      FirstCharacterExtends(a, b);
      CharsConcat(a[UnitLength(a)..], b);
    }
  }

  lemma {:induction false} ContinuationRunTake(s: CText, n: nat)
    requires n <= |s|
    ensures ContinuationRun(s[..n]) == if n < ContinuationRun(s) then n else ContinuationRun(s)
  {
    if n == 0 {
    } else {
      assert s[..n][1..] == s[1..][..n - 1];
      ContinuationRunTake(s[1..], n - 1);
    }
  }

  lemma UnitLengthTake(s: CText, n: nat)
    requires 0 < n <= |s|
    ensures UnitLength(s[..n]) == if n < UnitLength(s) then n else UnitLength(s)
  {
    assert s[..n][1..] == s[1..][..n - 1];
    ContinuationRunTake(s[1..], n - 1);
  }

  lemma CharsCount(s: CText)
    requires s != []
    ensures |Chars(s)| == 1 + |Chars(s[UnitLength(s)..])|
  {
  }

  /** Text cut within its first character is one character. */
  lemma CharsTakeFirst(s: CText, n: nat)
    requires 0 < n <= |s| && n <= UnitLength(s)
    ensures |Chars(s[..n])| == 1
  {
    UnitLengthTake(s, n);
    CharsCount(s[..n]);
    assert s[..n][n..] == [];
  }

  /** Cut further behind, it keeps that character. */
  lemma CharsTakeMore(s: CText, n: nat, m: nat, rest: CText)
    requires s != [] && m == UnitLength(s) < n <= |s| && rest == s[m..]
    ensures |Chars(s)| == 1 + |Chars(rest)| && |Chars(s[..n])| == 1 + |Chars(rest[..n - m])|
  {
    UnitLengthTake(s, n);
    CharsCount(s);
    CharsCount(s[..n]);
    assert s[..n][m..] == rest[..n - m];
  }

  /** Cutting text short never gives more characters. */
  lemma {:induction false} CharsTake(s: CText, n: nat)
    requires n <= |s|
    ensures |Chars(s[..n])| <= |Chars(s)|
    decreases |s|
  {
    if n == 0 {
      assert s[..n] == [];
    } else {
      var m := UnitLength(s);
      if n <= m {
        CharsTakeFirst(s, n);
        CharsCount(s);
      } else {
        var rest := s[m..];
        CharsTakeMore(s, n, m, rest);
        CharsTake(rest, n - m);
      }
    }
  }

  /** A continuation byte that no opening byte takes stands alone. */
  lemma StrayByteStandsAlone(b: Byte, s: CText)
    requires IsContinuation(b)
    ensures Chars([b] + s) == [b as int] + Chars(s)
  {
    var u := [b] + s;
    assert u[..1] == [b] && u[1..] == s;
  }

  /** ASCII text reads as itself, whatever follows. */
  lemma {:induction false} CharsAsciiPrefix(a: CText, b: CText)
    requires IsAscii(a)
    ensures Chars(a + b) == a + Chars(b)
  {
    if a == [] {
      assert a + b == b;
    } else {
      assert (a + b)[1..] == a[1..] + b;
      assert (a + b)[..1] == [a[0]];
      CharsAsciiPrefix(a[1..], b);
    }
  }

  /** An ASCII byte ends a character and is one. */
  lemma CharsAroundAscii(a: CText, x: Byte, rest: CText)
    requires x < 0x80
    ensures Chars(a + [x] + rest) == Chars(a) + [x] + Chars(rest)
  {
    assert a + [x] + rest == a + ([x] + rest);
    CharsConcat(a, [x] + rest);
    CharsAsciiPrefix([x], rest);
  }

  /** What ends in another byte ends in another character. */
  lemma {:induction false} LastCharacter(s: CText)
    requires s != [] && s[|s| - 1] >= 0x80
    ensures Chars(s) != [] && Chars(s)[|Chars(s)| - 1] >= 0x80
    decreases |s|
  {
    var n := UnitLength(s);
    CharsCount(s);
    if n == |s| {
      assert s[n..] == [];
    } else {
      LastCharacter(s[n..]);
    }
  }

  lemma CharsAppendAscii(s: CText, t: CText)
    requires IsAscii(t)
    ensures Chars(s + t) == Chars(s) + t
  {
    CharsConcat(s, t);
    CharsOfAscii(t);
  }

  lemma CharsOfAscii(a: CText)
    requires IsAscii(a)
    ensures Chars(a) == a
  {
  }

  /** An ASCII byte occurs in the bytes exactly when it occurs as a character. */
  lemma {:induction false} AsciiByteIsCharacter(s: CText, b: Byte)
    requires b < 0x80
    ensures b in Chars(s) <==> b in s
    decreases |s|
  {
    if s == [] {
    } else {
      var n := UnitLength(s);
      AsciiByteIsCharacter(s[n..], b);
      assert s == s[..n] + s[n..];
      assert b in s[..n] <==> s[0] == b;
    }
  }

  lemma {:induction false} AsciiCharactersAreAscii(s: CText)
    requires forall i :: 0 <= i < |Chars(s)| ==> Chars(s)[i] < 0x80
    ensures IsAscii(s) && Chars(s) == s
  {
    if s == [] {
    } else {
      var cs := Chars(s);
      assert cs[0] < 0x80;
      assert cs[1..] == Chars(s[UnitLength(s)..]);
      assert forall i :: 0 <= i < |cs| - 1 ==> cs[1..][i] == cs[i + 1];
      AsciiCharactersAreAscii(s[UnitLength(s)..]);
      assert s == [s[0]] + s[1..];
    }
  }

  // ---- Spelling a character -------------------------------------------------

  function Power64(k: nat): (p: int)
    ensures p > 0
  {
    if k == 0 then 1 else 64 * Power64(k - 1)
  }

  function Digit(v: int): (b: Byte)
    requires 0 <= v
    ensures IsContinuation(b) && b - 0x80 == v % 64 && LowBits(b) == v % 64
  {
    0x80 + v % 64
  }

  function Digits(v: int, k: nat): (s: CText)
    requires 0 <= v
    ensures |s| == k
    ensures forall i :: 0 <= i < k ==> IsContinuation(s[i])
  {
    if k == 0 then [] else Digits(v / 64, k - 1) + [Digit(v)]
  }

  lemma AccumulateAppend(acc: int, tail: CText, b: Byte)
    requires 0 <= acc < 0x1_0000_0000
    ensures Accumulate(acc, tail + [b]) == (Accumulate(acc, tail) * 64 + LowBits(b)) % 0x1_0000_0000
  {
  }

  lemma {:induction false} DigitsAccumulate(v: int, k: nat)
    requires 0 <= v < 0x1_0000_0000 && v < Power64(k)
    ensures Accumulate(0, Digits(v, k)) == v
  {
    if k == 0 {
    } else {
      DigitsAccumulate(v / 64, k - 1);
      AccumulateAppend(0, Digits(v / 64, k - 1), Digit(v));
    }
  }

  /** Bytes that read as the single character c. */
  function SpellCharacter(c: int): (s: CText)
    requires IsReadable(c)
    ensures s != [] && !IsContinuation(s[0])
  {
    if c < 0x80 then [c] else [0xC0] + Digits(c, 6)
  }

  /** Bytes that read as the characters cs. */
  function Spell(cs: seq<int>): (s: CText)
    requires forall i :: 0 <= i < |cs| ==> IsReadable(cs[i])
    ensures |s| >= |cs|
    ensures s != [] ==> !IsContinuation(s[0])
  {
    if cs == [] then [] else SpellCharacter(cs[0]) + Spell(cs[1..])
  }

  lemma RunOfContinuations(s: CText)
    requires forall i :: 0 <= i < |s| ==> IsContinuation(s[i])
    ensures ContinuationRun(s) == |s|
  {
  }

  lemma CharsOfSpelledCharacter(c: int)
    requires IsReadable(c)
    ensures Chars(SpellCharacter(c)) == [c]
  {
    var u := SpellCharacter(c);
    if c >= 0x80 {
      var d := Digits(c, 6);
      assert u[1..] == d;
      RunOfContinuations(d);
      assert Power64(3) == 0x4_0000;
      assert Power64(6) == 0x10_0000_0000;
      DigitsAccumulate(c, 6);
      assert LeadBits(u[0]) == 0;
      assert ReadCharacter(u) == c;
    }
    assert UnitLength(u) == |u|;
    assert u[..|u|] == u && u[|u|..] == [];
    assert Chars(u) == [ReadCharacter(u[..|u|])] + Chars(u[|u|..]);
  }

  lemma {:induction false} CharsOfSpelling(cs: seq<int>)
    requires forall i :: 0 <= i < |cs| ==> IsReadable(cs[i])
    ensures Chars(Spell(cs)) == cs
  {
    if cs == [] {
    } else {
      CharsOfSpelling(cs[1..]);
      CharsOfSpelledCharacter(cs[0]);
      CharsConcat(SpellCharacter(cs[0]), Spell(cs[1..]));
    }
  }

  // ---- Order ----------------------------------------------------------------

  /** SQLite's BINARY collation: memcmp, a proper prefix first. */
  predicate LexLe(a: CText, b: CText) {
    a == [] || (b != [] && (a[0] < b[0] || (a[0] == b[0] && LexLe(a[1..], b[1..]))))
  }

  predicate LexLess(a: CText, b: CText) {
    LexLe(a, b) && a != b
  }

  /** The first byte that differs decides; a proper prefix comes first. */
  lemma {:induction false} LexLessIff(a: CText, b: CText)
    ensures LexLess(a, b) <==>
            a < b || exists i :: 0 <= i < |a| && i < |b| && a[..i] == b[..i] && a[i] < b[i]
  {
    if a == [] || b == [] {
    } else if a[0] != b[0] {
      assert a[..0] == b[..0];
      assert forall i :: 0 < i < |a| && i < |b| && a[..i] == b[..i] ==> a[..i][0] == b[..i][0];
    } else {
      LexLessIff(a[1..], b[1..]);
      assert a == [a[0]] + a[1..] && b == [b[0]] + b[1..];
      FirstDifference(a, b);
    }
  }

  lemma FirstDifference(a: CText, b: CText)
    requires a != [] && b != [] && a[0] == b[0]
    ensures a < b <==> a[1..] < b[1..]
    ensures (exists i :: 0 <= i < |a| && i < |b| && a[..i] == b[..i] && a[i] < b[i]) <==>
            (exists i :: 0 <= i < |a[1..]| && i < |b[1..]| && a[1..][..i] == b[1..][..i] && a[1..][i] < b[1..][i])
  {
    assert a == [a[0]] + a[1..] && b == [b[0]] + b[1..];
    if i :| 0 <= i < |a| && i < |b| && a[..i] == b[..i] && a[i] < b[i] {
      assert a[1..][..i - 1] == a[..i][1..] && b[1..][..i - 1] == b[..i][1..];
      assert a[1..][i - 1] < b[1..][i - 1];
    }
    if i :| 0 <= i < |a[1..]| && i < |b[1..]| && a[1..][..i] == b[1..][..i] && a[1..][i] < b[1..][i] {
      assert a[..i + 1] == [a[0]] + a[1..][..i] && b[..i + 1] == [b[0]] + b[1..][..i];
      assert a[i + 1] < b[i + 1];
    }
  }

  lemma {:induction false} LexTotal(a: CText, b: CText)
    ensures LexLe(a, b) || LexLe(b, a)
  {
    if a == [] || b == [] || a[0] != b[0] {
    } else {
      LexTotal(a[1..], b[1..]);
    }
  }

  lemma {:induction false} LexAntisymmetric(a: CText, b: CText)
    requires LexLe(a, b) && LexLe(b, a)
    ensures a == b
  {
    if a == [] {
    } else {
      LexAntisymmetric(a[1..], b[1..]);
      assert a == [a[0]] + a[1..];
      assert b == [b[0]] + b[1..];
    }
  }

  lemma {:induction false} LexTransitive(a: CText, b: CText, c: CText)
    requires LexLe(a, b) && LexLe(b, c)
    ensures LexLe(a, c)
  {
    if a == [] || a[0] != b[0] || b[0] != c[0] {
    } else {
      LexTransitive(a[1..], b[1..], c[1..]);
    }
  }
}
