/** The conversions between wide strings and UTF-8: exact allocations, iconv
    writing through a moving pointer, and the byte-wise fallback. wchar_t is the
    32-bit signed type of Linux. */
module Wide {
  import opened Text
  import opened Paths
  import opened Utf8

  type Wchar = x: int | -0x8000_0000 <= x < 0x8000_0000

  /** A wide string: no NUL before its terminator. */
  predicate IsWideString(w: seq<Wchar>) {
    0 !in w
  }

  /** The cast (char)wc, read as an octet. */
  function LowByte(wc: Wchar): Octet {
    wc % 256
  }

  /** The cast (wchar_t)c of a signed char. */
  function SignExtended(b: Octet): Wchar {
    if b < 0x80 then b else b - 0x100
  }

  /** Both casts keep the value modulo 256; the first gives an octet back, the
      second a signed char. */
  lemma CastsKeepTheByte(wc: Wchar, b: Octet)
    ensures (LowByte(wc) - wc) % 256 == 0 && (SignExtended(b) - b) % 256 == 0
    ensures -128 <= SignExtended(b) < 128 && LowByte(SignExtended(b)) == b
  {
  }

  /** What utf8_to_wchar makes of str. */
  function WideOf(str: CText, iconvOpens: bool): (w: seq<Wchar>)
    ensures |w| <= |str|
    ensures IsWideString(w)
  {
    if iconvOpens && Decode(str).Some? then ScalarsAreWide(Decode(str).value); Decode(str).value
    else seq(|str|, i requires 0 <= i < |str| => SignExtended(str[i]))
  }

  lemma ScalarsAreWide(cs: seq<int>)
    requires AllScalars(cs)
    ensures forall i :: 0 <= i < |cs| ==> -0x8000_0000 <= cs[i] < 0x8000_0000
    ensures 0 !in cs
  {
  }

  lemma EncodeAppend(cs: seq<int>, c: int)
    requires AllScalars(cs) && IsScalar(c)
    ensures AllScalars(cs + [c]) && Encode(cs + [c]) == Encode(cs) + EncodeOne(c)
  {
    if cs == [] {
      assert [c][1..] == [];
      assert cs + [c] == [c];
      assert EncodeOne(c) + [] == EncodeOne(c);
    } else {
      assert (cs + [c])[1..] == cs[1..] + [c];
      EncodeAppend(cs[1..], c);
      assert (cs + [c])[0] == cs[0];
    }
  }

  /** Append one encoded character at the output pointer. */
  method Emit(unit: CText, out: array<Octet>, at: nat)
    requires at + |unit| <= out.Length
    modifies out
    ensures out[..at + |unit|] == old(out[..at]) + unit
  {
    for j := 0 to |unit|
      invariant out[..at + j] == old(out[..at]) + unit[..j]
    {
      out[at + j] := unit[j];
    }
    assert unit[..|unit|] == unit;
  }

  /** iconv from WCHAR_T to UTF-8 into room octets. */
  method IconvToUtf8(w: seq<Wchar>, out: array<Octet>, room: nat) returns (ok: bool, written: nat)
    requires 4 * |w| <= room <= out.Length
    modifies out
    ensures ok <==> AllScalars(w)
    ensures ok ==> written == |Encode(w)| <= room && out[..written] == Encode(w)
  {
    written := 0;
    for i := 0 to |w|
      invariant AllScalars(w[..i])
      invariant written == |Encode(w[..i])| <= 4 * i
      invariant out[..written] == Encode(w[..i])
    {
      if !IsScalar(w[i]) {
        return false, written;
      }
      var unit := EncodeOne(w[i]);
      EncodeAppend(w[..i], w[i]);
      assert w[..i + 1] == w[..i] + [w[i]];
      Emit(unit, out, written);
      written := written + |unit|;
    }
    assert w[..|w|] == w;
    ok := true;
  }

  /** wchar_to_utf8: wlen * 4 + 1 bytes hold the encoding and its terminator. */
  method WcharToUtf8(w: seq<Wchar>, iconvOpens: bool) returns (result: array<Octet>)
    requires IsWideString(w)
    ensures fresh(result) && result.Length == 4 * |w| + 1
    ensures iconvOpens && AllScalars(w) ==> Holds(result, Encode(w))
    ensures !(iconvOpens && AllScalars(w)) ==>
              result[|w|] == 0 && forall i :: 0 <= i < |w| ==> result[i] == LowByte(w[i])
  {
    var maxLen := |w| * 4 + 1;
    result := new Octet[maxLen];
    var ok, written := false, 0;
    if iconvOpens {
      ok, written := IconvToUtf8(w, result, maxLen - 1);
    }
    if ok {
      result[written] := 0;
    } else {
      for i := 0 to |w|
        invariant forall k :: 0 <= k < i ==> result[k] == LowByte(w[k])
      {
        result[i] := LowByte(w[i]);
      }
      result[|w|] := 0;
    }
  }

  lemma {:induction false} DecodeSuffix(str: CText, i: nat, done: seq<int>)
    requires i < |str|
    requires AllScalars(done) && Encode(done) == str[..i]
    ensures Decode(str).Some? ==> DecodeOne(str[i..]).Some?
    ensures DecodeOne(str[i..]).Some? ==>
              var (c, n) := DecodeOne(str[i..]).value;
              AllScalars(done + [c]) && Encode(done + [c]) == str[..i + n]
  {
    if DecodeOne(str[i..]).Some? {
      var (c, n) := DecodeOne(str[i..]).value;
      EncodesItsDecoding(str[i..]);
      EncodeAppend(done, c);
      assert str[..i + n] == str[..i] + str[i..][..n];
    }
    if Decode(str).Some? {
      DecodeAfter(done, str[i..]);
      assert str == str[..i] + str[i..];
    }
  }

  lemma {:induction false} DecodeAfter(done: seq<int>, rest: CText)
    requires AllScalars(done)
    ensures Decode(Encode(done) + rest).Some? ==> Decode(rest).Some?
  {
    if done == [] {
      assert Encode(done) + rest == rest;
    } else {
      var u, more := EncodeOne(done[0]), Encode(done[1..]);
      DecodesItsEncoding(done[0], more + rest);
      assert Encode(done) + rest == u + (more + rest);
      assert (u + (more + rest))[|u|..] == more + rest;
      DecodeAfter(done[1..], rest);
    }
  }

  /** iconv from UTF-8 to WCHAR_T into room wide characters; left is what
      outbytesleft says, divided by sizeof(wchar_t). */
  method IconvToWide(str: CText, out: array<Wchar>, room: nat) returns (ok: bool, left: nat)
    requires |str| <= room <= out.Length
    modifies out
    ensures ok <==> Decode(str).Some?
    ensures ok ==> left == room - |Decode(str).value| && out[..room - left] == Decode(str).value
  {
    var i, count := 0, 0;
    ghost var done: seq<int> := [];
    while i < |str|
      invariant i <= |str| && count == |done| <= i
      invariant AllScalars(done) && Encode(done) == str[..i]
      invariant out[..count] == done
      decreases |str| - i
    {
      DecodeSuffix(str, i, done);
      var next := DecodeOne(str[i..]);
      if next.None? {
        return false, room - count;
      }
      out[count] := next.value.0;
      done := done + [next.value.0];
      count := count + 1;
      i := i + next.value.1;
    }
    assert str[..i] == str;
    DecodeEncode(done);
    ok, left := true, room - count;
  }

  /** utf8_to_wchar: strlen + 1 wide characters suffice, and the terminator index
      computed from what is left is the number of code points. */
  method Utf8ToWchar(str: CText, iconvOpens: bool) returns (result: array<Wchar>)
    ensures fresh(result) && result.Length == |str| + 1
    ensures var w := WideOf(str, iconvOpens); result[..|w|] == w && result[|w|] == 0
  {
    var maxLen := |str| + 1;
    result := new Wchar[maxLen];
    var ok, left := false, 0;
    if iconvOpens {
      ok, left := IconvToWide(str, result, maxLen - 1);
    }
    if ok {
      result[maxLen - 1 - left] := 0;
    } else {
      for i := 0 to |str|
        invariant forall k :: 0 <= k < i ==> result[k] == SignExtended(str[k])
      {
        result[i] := SignExtended(str[i]);
      }
      result[|str|] := 0;
    }
  }

  /** wcsncpy of a string shorter than n: the copy and NULs up to n. */
  method Wcsncpy(dst: array<Wchar>, src: array<Wchar>, n: nat, ghost held: seq<Wchar>)
    requires n <= dst.Length && src != dst
    requires IsWideString(held) && |held| < src.Length && |held| < n
    requires src[..|held|] == held && src[|held|] == 0
    modifies dst
    ensures dst[..|held|] == held
    ensures forall i :: |held| <= i < n ==> dst[i] == 0
    ensures dst[n..] == old(dst[n..])
  {
    assert forall k :: 0 <= k < |held| ==> src[k] == src[..|held|][k] == held[k];
    var i := 0;
    while i < n && src[i] != 0
      invariant i <= |held|
      invariant forall k :: 0 <= k < i ==> dst[k] == held[k]
      invariant dst[n..] == old(dst[n..])
      decreases n - i
    {
      dst[i] := src[i];
      i := i + 1;
    }
    while i < n
      invariant |held| <= i <= n
      invariant forall k :: 0 <= k < |held| ==> dst[k] == held[k]
      invariant forall k :: |held| <= k < i ==> dst[k] == 0
      invariant dst[n..] == old(dst[n..])
    {
      dst[i] := 0;
      i := i + 1;
    }
  }

  /** A wide string of scalar values survives the way to UTF-8 and back. */
  lemma WideRoundTrip(w: seq<Wchar>)
    requires AllScalars(w)
    ensures WideOf(Encode(w), true) == w
  {
    DecodeEncode(w);
  }

  /** Bytes that iconv refuses survive the way to wide characters and back, one for
      one and as signed chars. */
  lemma FallbackRoundTrip(str: CText, iconvOpens: bool)
    requires !(iconvOpens && Decode(str).Some?)
    ensures var w := WideOf(str, iconvOpens);
            |w| == |str| && forall i :: 0 <= i < |w| ==> LowByte(w[i]) == str[i] && -128 <= w[i] < 128
  {
  }

  /** The length a wide enumeration reports, in bytes of UTF-8, is the length of
      the wide name exactly for ASCII names and where iconv fails: the byte-wise
      fallback makes one wide character of each byte. */
  lemma ReportedLengthIsWideIff(name: CText, iconvOpens: bool)
    ensures |name| == |WideOf(name, iconvOpens)| <==> !iconvOpens || Decode(name).None? || IsAscii(name)
  {
    if iconvOpens && Decode(name).Some? {
      EncodeDecode(name);
      AsciiIffSameLength(Decode(name).value);
    }
  }
}
