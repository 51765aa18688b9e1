/** UTF-8 as section 3 of RFC 3629 defines it, on NUL-free text. */
module Utf8 {
  import opened Text

  /** A Unicode scalar value other than NUL. */
  predicate IsScalar(c: int) {
    0 < c < 0x11_0000 && !(0xD800 <= c < 0xE000)
  }

  predicate AllScalars(cs: seq<int>) {
    forall i :: 0 <= i < |cs| ==> IsScalar(cs[i])
  }

  /** Six more bits below v; EncodeOne takes them off again. */
  function Shift(v: int, b: int): (r: int)
    requires 0 <= v && IsContinuation(b)
    ensures r >= 0 && r / 64 == v && Digit(r) == b
    ensures r == 64 * v + b - 0x80
  {
    64 * v + (b - 0x80)
  }

  function Lead(b: int, base: int): int {
    b - base
  }

  function EncodeOne(c: int): (u: CText)
    requires IsScalar(c)
    ensures 1 <= |u| <= 4
    ensures !IsContinuation(u[0])
    ensures |u| == 1 <==> c < 0x80
  {
    if c < 0x80 then [c]
    else if c < 0x800 then [0xC0 + c / 64, Digit(c)]
    else if c < 0x1_0000 then [0xE0 + c / 64 / 64, Digit(c / 64), Digit(c)]
    else [0xF0 + c / 64 / 64 / 64, Digit(c / 64 / 64), Digit(c / 64), Digit(c)]
  }

  function Encode(cs: seq<int>): (s: CText)
    requires AllScalars(cs)
    ensures |cs| <= |s| <= 4 * |cs|
    ensures s != [] ==> !IsContinuation(s[0])
  {
    if cs == [] then [] else EncodeOne(cs[0]) + Encode(cs[1..])
  }

  /** The first code point of s and the number of its bytes; overlong forms,
      surrogates and values past U+10FFFF are refused. */
  function DecodeOne(s: CText): (r: Option<(int, nat)>)
    requires s != []
    ensures r.Some? ==> IsScalar(r.value.0) && 1 <= r.value.1 <= 4 && r.value.1 <= |s|
  {
    if s[0] < 0x80 then Some((s[0] as int, 1))
    else if s[0] < 0xC0 then None
    else if s[0] < 0xE0 then
      if |s| < 2 || !IsContinuation(s[1]) then None
      else
        var v := Shift(Lead(s[0], 0xC0), s[1]);
        if v < 0x80 then None else Some((v, 2))
    else if s[0] < 0xF0 then
      if |s| < 3 || !IsContinuation(s[1]) || !IsContinuation(s[2]) then None
      else
        var v := Shift(Shift(Lead(s[0], 0xE0), s[1]), s[2]);
        if v < 0x800 || 0xD800 <= v < 0xE000 then None else Some((v, 3))
    else if s[0] < 0xF8 then
      if |s| < 4 || !IsContinuation(s[1]) || !IsContinuation(s[2]) || !IsContinuation(s[3]) then None
      else
        var v := Shift(Shift(Shift(Lead(s[0], 0xF0), s[1]), s[2]), s[3]);
        if v < 0x1_0000 || v >= 0x11_0000 then None else Some((v, 4))
    else None
  }

  function Decode(s: CText): (r: Option<seq<int>>)
    ensures r.Some? ==> AllScalars(r.value) && |r.value| <= |s|
    decreases |s|
  {
    if s == [] then Some([])
    else match DecodeOne(s)
      case None => None
      case Some((c, n)) =>
        match Decode(s[n..])
        case None => None
        case Some(cs) => Some([c] + cs)
  }

  lemma DecodesItsEncoding(c: int, rest: CText)
    requires IsScalar(c)
    ensures DecodeOne(EncodeOne(c) + rest) == Some((c, |EncodeOne(c)|))
  {
    var u := EncodeOne(c);
    var s := u + rest;
    assert forall i :: 0 <= i < |u| ==> s[i] == u[i];
  }

  lemma EncodesItsDecoding(s: CText)
    requires s != [] && DecodeOne(s).Some?
    ensures var (c, n) := DecodeOne(s).value; s[..n] == EncodeOne(c)
  {
  }

  /** Encoding then decoding is the identity. */
  lemma {:induction false} DecodeEncode(cs: seq<int>)
    requires AllScalars(cs)
    ensures Decode(Encode(cs)) == Some(cs)
  {
    if cs == [] {
    } else {
      var u, rest := EncodeOne(cs[0]), Encode(cs[1..]);
      DecodesItsEncoding(cs[0], rest);
      DecodeEncode(cs[1..]);
      assert (u + rest)[|u|..] == rest;
      assert cs == [cs[0]] + cs[1..];
    }
  }

  lemma EncodeCons(c: int, cs: seq<int>)
    requires IsScalar(c) && AllScalars(cs)
    ensures AllScalars([c] + cs) && Encode([c] + cs) == EncodeOne(c) + Encode(cs)
  {
  }

  lemma DecodeSplits(s: CText) returns (c: int, cs: seq<int>, rest: CText)
    requires s != [] && Decode(s).Some?
    ensures IsScalar(c) && s == EncodeOne(c) + rest && |rest| < |s|
    ensures Decode(rest) == Some(cs) && Decode(s) == Some([c] + cs)
  {
    var (d, n) := DecodeOne(s).value;
    EncodesItsDecoding(s);
    c, cs, rest := d, Decode(s[n..]).value, s[n..];
    assert s == s[..n] + s[n..];
  }

  /** Text that decodes is the encoding of what it decodes to, and of nothing else. */
  lemma {:induction false} EncodeDecode(s: CText)
    requires Decode(s).Some?
    ensures Encode(Decode(s).value) == s
    decreases |s|
  {
    if s == [] {
    } else {
      var c, cs, rest := DecodeSplits(s);
      EncodeDecode(rest);
      EncodeCons(c, cs);
    }
  }

  /** There are as many code points as bytes exactly in ASCII text. */
  lemma {:induction false} AsciiIffSameLength(cs: seq<int>)
    requires AllScalars(cs)
    ensures |Encode(cs)| == |cs| <==> IsAscii(Encode(cs))
  {
    if cs == [] {
    } else {
      var u, rest := EncodeOne(cs[0]), Encode(cs[1..]);
      AsciiIffSameLength(cs[1..]);
      assert IsAscii(u + rest) <==> IsAscii(u) && IsAscii(rest) by {
        if IsAscii(u + rest) {
          assert forall i :: 0 <= i < |u| ==> u[i] == (u + rest)[i];
          assert forall i :: 0 <= i < |rest| ==> rest[i] == (u + rest)[|u| + i];
        }
      }
      assert IsAscii(u) <==> |u| == 1;
    }
  }

  lemma UnitOfEncoding(c: int)
    requires IsScalar(c)
    ensures |Chars(EncodeOne(c))| == 1 && Chars(EncodeOne(c)) == [ReadCharacter(EncodeOne(c))]
  {
    var u := EncodeOne(c);
    assert u[0] >= 0xC0 ==> ContinuationRun(u[1..]) == |u| - 1 by {
      assert forall i :: 0 <= i < |u[1..]| ==> IsContinuation(u[1..][i]);
      RunOfContinuations(u[1..]);
    }
    assert UnitLength(u) == |u|;
    assert u[|u|..] == [] && u[..|u|] == u;
    CharsCount(u);
  }

  /** On well-formed text SQLite's LENGTH counts the code points. */
  lemma {:induction false} LengthCountsCodePoints(cs: seq<int>)
    requires AllScalars(cs)
    ensures |Chars(Encode(cs))| == |cs|
  {
    if cs == [] {
    } else {
      LengthCountsCodePoints(cs[1..]);
      UnitOfEncoding(cs[0]);
      CharsConcat(EncodeOne(cs[0]), Encode(cs[1..]));
    }
  }

  /** What SQLite reads a code point as: two of them are replaced. */
  function AsRead(c: int): int {
    if c == 0xFFFE || c == 0xFFFF then 0xFFFD else c
  }

  lemma AccumulateMore(acc: int, tail: CText, b: Byte, v: int)
    requires 0 <= acc < 0x1_0000_0000 && Accumulate(acc, tail) == v < 0x400_0000
    ensures Accumulate(acc, tail + [b]) == v * 64 + LowBits(b)
  {
    AccumulateAppend(acc, tail, b);
  }

  lemma AccumulateOne(acc: int, x: Byte)
    requires 0 <= acc < 0x20
    ensures Accumulate(acc, [x]) == acc * 64 + LowBits(x)
  {
    assert [] + [x] == [x];
    AccumulateMore(acc, [], x, acc);
  }

  lemma AccumulateTwo(acc: int, x: Byte, y: Byte)
    requires 0 <= acc < 0x20
    ensures Accumulate(acc, [x, y]) == (acc * 64 + LowBits(x)) * 64 + LowBits(y)
  {
    AccumulateOne(acc, x);
    assert [x] + [y] == [x, y];
    AccumulateMore(acc, [x], y, acc * 64 + LowBits(x));
  }

  lemma AccumulateThree(acc: int, x: Byte, y: Byte, z: Byte)
    requires 0 <= acc < 0x20
    ensures Accumulate(acc, [x, y, z]) == ((acc * 64 + LowBits(x)) * 64 + LowBits(y)) * 64 + LowBits(z)
  {
    AccumulateTwo(acc, x, y);
    assert [x, y] + [z] == [x, y, z];
    AccumulateMore(acc, [x, y], z, (acc * 64 + LowBits(x)) * 64 + LowBits(y));
  }

  lemma ReadsEncoding(c: int)
    requires IsScalar(c)
    ensures ReadCharacter(EncodeOne(c)) == AsRead(c)
  {
    var u := EncodeOne(c);
    if 0x80 <= c < 0x800 {
      assert u[1..] == [Digit(c)];
      AccumulateOne(LeadBits(u[0]), u[1]);
    } else if 0x800 <= c < 0x1_0000 {
      assert u[1..] == [Digit(c / 64), Digit(c)];
      AccumulateTwo(LeadBits(u[0]), u[1], u[2]);
    } else if 0x1_0000 <= c {
      assert u[1..] == [Digit(c / 64 / 64), Digit(c / 64), Digit(c)];
      AccumulateThree(LeadBits(u[0]), u[1], u[2], u[3]);
    }
  }

  /** On well-formed text SQLite reads the code points. */
  lemma {:induction false} CharsOfEncoding(cs: seq<int>)
    requires AllScalars(cs)
    ensures Chars(Encode(cs)) == seq(|cs|, i requires 0 <= i < |cs| => AsRead(cs[i]))
  {
    if cs == [] {
    } else {
      var u := EncodeOne(cs[0]);
      CharsOfEncoding(cs[1..]);
      UnitOfEncoding(cs[0]);
      ReadsEncoding(cs[0]);
      CharsConcat(u, Encode(cs[1..]));
    }
  }
}
