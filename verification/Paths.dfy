/** Key paths: the predefined root names, build_full_path and the LIKE patterns
    that db_backend.c prints into 1024-byte buffers. */
module Paths {
  import opened Text
  import opened Like

  predicate IsAsciiString(s: string) {
    forall i :: 0 <= i < |s| ==> 0 < s[i] as int < 0x80
  }

  function Ascii(s: string): (t: CText)
    requires IsAsciiString(s)
    ensures |t| == |s| && IsAscii(t)
    ensures forall i :: 0 <= i < |s| ==> t[i] == s[i] as int
  {
    seq(|s|, i requires 0 <= i < |s| && IsAsciiString(s) => s[i] as int)
  }

  // ---- Predefined roots -----------------------------------------------------

  const CLASSES_ROOT: CText := Ascii("HKEY_CLASSES_ROOT")
  const CURRENT_USER: CText := Ascii("HKEY_CURRENT_USER")
  const LOCAL_MACHINE: CText := Ascii("HKEY_LOCAL_MACHINE")
  const USERS: CText := Ascii("HKEY_USERS")
  const CURRENT_CONFIG: CText := Ascii("HKEY_CURRENT_CONFIG")

  /** The order in which db_init creates them. */
  const ROOTS: seq<CText> := [CLASSES_ROOT, CURRENT_USER, LOCAL_MACHINE, USERS, CURRENT_CONFIG]

  /** A handle as the caller holds it: a pointer-sized number. The predefined
      ones are sign-extended from 32 bits. */
  type HKey = x: int | 0 <= x < 0x1_0000_0000_0000_0000

  const HKEY_CLASSES_ROOT: HKey := 0xFFFF_FFFF_8000_0000
  const HKEY_CURRENT_USER: HKey := 0xFFFF_FFFF_8000_0001
  const HKEY_LOCAL_MACHINE: HKey := 0xFFFF_FFFF_8000_0002
  const HKEY_USERS: HKey := 0xFFFF_FFFF_8000_0003
  const HKEY_CURRENT_CONFIG: HKey := 0xFFFF_FFFF_8000_0005

  function PredefinedKeyName(h: HKey): (name: Option<CText>)
    ensures name.Some? ==> name.value in ROOTS
  {
    if h == HKEY_CLASSES_ROOT then assert ROOTS[0] == CLASSES_ROOT; Some(CLASSES_ROOT)
    else if h == HKEY_CURRENT_USER then assert ROOTS[1] == CURRENT_USER; Some(CURRENT_USER)
    else if h == HKEY_LOCAL_MACHINE then assert ROOTS[2] == LOCAL_MACHINE; Some(LOCAL_MACHINE)
    else if h == HKEY_USERS then assert ROOTS[3] == USERS; Some(USERS)
    else if h == HKEY_CURRENT_CONFIG then assert ROOTS[4] == CURRENT_CONFIG; Some(CURRENT_CONFIG)
    else None
  }

  const HANDLES: seq<HKey> :=
    [HKEY_CLASSES_ROOT, HKEY_CURRENT_USER, HKEY_LOCAL_MACHINE, HKEY_USERS, HKEY_CURRENT_CONFIG]

  lemma NamesDiffer()
    ensures CLASSES_ROOT != CURRENT_USER && CLASSES_ROOT != LOCAL_MACHINE && CLASSES_ROOT != USERS
    ensures CLASSES_ROOT != CURRENT_CONFIG && CURRENT_USER != LOCAL_MACHINE && CURRENT_USER != USERS
    ensures CURRENT_USER != CURRENT_CONFIG && LOCAL_MACHINE != USERS && LOCAL_MACHINE != CURRENT_CONFIG
    ensures USERS != CURRENT_CONFIG
  {
    assert CLASSES_ROOT[6] != CURRENT_USER[6];
  }

  /** Handles and names pair off one to one, and nothing else has a name. */
  lemma PredefinedNames(h: HKey)
    ensures |HANDLES| == |ROOTS|
    ensures forall i :: 0 <= i < |ROOTS| ==> (PredefinedKeyName(h) == Some(ROOTS[i]) <==> h == HANDLES[i])
    ensures PredefinedKeyName(h).None? <==> h !in HANDLES
  {
    NamesDiffer();
    assert HANDLES[0] == HKEY_CLASSES_ROOT && HANDLES[1] == HKEY_CURRENT_USER && HANDLES[2] == HKEY_LOCAL_MACHINE;
    assert HANDLES[3] == HKEY_USERS && HANDLES[4] == HKEY_CURRENT_CONFIG;
  }

  /** What the proofs need of a root name: ASCII, short, and no character with a
      meaning in a pattern except `_`. */
  predicate PlainName(r: CText) {
    IsAscii(r) && |r| <= 19 && BACKSLASH !in r && PERCENT !in r
  }

  /** Two names differ at a letter that is no wildcard. */
  predicate Apart(r: CText, s: CText) {
    exists i :: 0 <= i < |r| && i < |s| && r[i] != UNDERSCORE && !SameLetter(r[i], s[i])
  }

  predicate SameOrApart(r: CText, s: CText) {
    PlainName(r) && PlainName(s) && (r == s || Apart(r, s))
  }

  lemma PlainLetters(s: string)
    requires IsAsciiString(s) && |s| <= 19 && '\\' !in s && '%' !in s
    ensures PlainName(Ascii(s))
  {
  }

  lemma RootIsPlain(r: CText)
    requires r in ROOTS
    ensures PlainName(r)
  {
    PlainLetters("HKEY_CLASSES_ROOT");
    PlainLetters("HKEY_CURRENT_USER");
    PlainLetters("HKEY_LOCAL_MACHINE");
    PlainLetters("HKEY_USERS");
    PlainLetters("HKEY_CURRENT_CONFIG");
  }

  lemma RootsAreApart(r: CText, s: CText)
    requires r in ROOTS && s in ROOTS && r != s
    ensures Apart(r, s)
  {
    var i := if !SameLetter(r[5], s[5]) then 5 else if !SameLetter(r[6], s[6]) then 6 else 13;
    assert r[i] != UNDERSCORE && !SameLetter(r[i], s[i]);
  }

  lemma RootNames(r: CText, s: CText)
    requires r in ROOTS && s in ROOTS
    ensures SameOrApart(r, s)
  {
    RootIsPlain(r);
    RootIsPlain(s);
    if r != s { RootsAreApart(r, s); }
  }

  // ---- Rooted paths ---------------------------------------------------------

  /** r itself, or r, a backslash and something more. */
  predicate UnderRoot(r: CText, p: CText) {
    p == r || (|r| + 1 < |p| && p[..|r|] == r && p[|r|] == BACKSLASH)
  }

  predicate Rooted(p: CText) {
    exists r :: r in ROOTS && UnderRoot(r, p)
  }

  /** p or something under it in the key tree. */
  predicate InSubtree(p: CText, q: CText) {
    q == p || (|p| < |q| && q[..|p|] == p && q[|p|] == BACKSLASH)
  }

  /** q is p, a backslash and one component. */
  predicate IsChild(p: CText, q: CText) {
    |p| < |q| && q[..|p|] == p && q[|p|] == BACKSLASH && BACKSLASH !in q[|p| + 1..]
  }

  function FullPath(base: CText, sub: Option<CText>): (p: CText)
    ensures InSubtree(base, p)
    ensures sub.None? || sub.value == [] ==> p == base
    ensures sub.Some? && sub.value != [] ==> |p| == |base| + 1 + |sub.value| && p[|base| + 1..] == sub.value
  {
    if sub.None? || sub.value == [] then base else base + [BACKSLASH] + sub.value
  }

  lemma FullPathStaysUnderRoot(r: CText, base: CText, sub: Option<CText>)
    requires UnderRoot(r, base)
    ensures UnderRoot(r, FullPath(base, sub))
  {
  }

  /** One step down a then b is one step down a\b. */
  lemma FullPathComposes(base: CText, a: CText, b: CText)
    requires a != [] && b != []
    ensures FullPath(FullPath(base, Some(a)), Some(b)) == FullPath(base, Some(a + [BACKSLASH] + b))
  {
    var s := [BACKSLASH];
    assert FullPath(base, Some(a)) == base + s + a;
    assert (base + s + a) + s + b == base + s + (a + s + b);
  }

  /** A path has at most one root. */
  lemma RootIsUnique(r: CText, s: CText, p: CText)
    requires SameOrApart(r, s)
    requires UnderRoot(r, p) && UnderRoot(s, p)
    ensures r == s
  {
  }

  // ---- C buffers ------------------------------------------------------------

  type Octet = x: int | 0 <= x < 256

  /** buf holds the C string t. */
  predicate Holds(buf: array<Octet>, t: CText)
    reads buf
  {
    |t| < buf.Length && buf[..|t|] == t && buf[|t|] == 0
  }

  /** The bytes of a buffer after t and its terminator were written to its start. */
  ghost function Written(before: seq<Octet>, t: CText): seq<Octet>
    requires |t| < |before|
  {
    var text: seq<Octet> := t;
    text + [0] + before[|t| + 1..]
  }

  lemma WrittenIsHeld(buf: array<Octet>, before: seq<Octet>, t: CText)
    requires |t| < |before| && buf[..] == Written(before, t)
    ensures Holds(buf, t)
  {
    assert buf[..|t|] == buf[..][..|t|];
    assert buf[|t|] == buf[..][|t|];
  }

  method StrCpy(dst: array<Octet>, src: CText)
    requires |src| < dst.Length
    modifies dst
    ensures Holds(dst, src)
    ensures dst[..] == Written(old(dst[..]), src)
  {
    for i := 0 to |src|
      invariant dst[..i] == src[..i]
      invariant dst[|src| + 1..] == old(dst[|src| + 1..])
    {
      dst[i] := src[i];
    }
    dst[|src|] := 0;
    assert dst[..] == dst[..|src|] + [dst[|src|]] + dst[|src| + 1..];
    assert old(dst[..])[|src| + 1..] == old(dst[|src| + 1..]);
  }

  method StrCat(dst: array<Octet>, src: CText, ghost held: CText)
    requires Holds(dst, held) && |held| + |src| < dst.Length
    modifies dst
    ensures Holds(dst, held + src)
  {
    assert forall i :: 0 <= i < |held| ==> dst[i] == dst[..|held|][i] == held[i];
    var end := 0;
    while dst[end] != 0
      invariant end <= |held|
      decreases |held| - end
    {
      end := end + 1;
    }
    for i := 0 to |src|
      invariant dst[..end + i] == held + src[..i]
    {
      dst[end + i] := src[i];
    }
    assert src[..|src|] == src;
    dst[end + |src|] := 0;
  }

  /** The allocation holds the path and its terminator, and not a byte more. */
  method BuildFullPath(rootName: CText, subKey: Option<CText>) returns (fullPath: array<Octet>)
    ensures fresh(fullPath)
    ensures fullPath.Length == |FullPath(rootName, subKey)| + 1
    ensures Holds(fullPath, FullPath(rootName, subKey))
  {
    var totalLen := |rootName|;
    if subKey.Some? && subKey.value != [] {
      totalLen := totalLen + |subKey.value| + 1;
    }
    fullPath := new Octet[totalLen + 1];
    StrCpy(fullPath, rootName);
    if subKey.Some? && subKey.value != [] {
      StrCat(fullPath, [BACKSLASH], rootName);
      StrCat(fullPath, subKey.value, rootName + [BACKSLASH]);
    }
  }

  /** The string a caller reads out of a buffer. */
  method CString(buf: array<Octet>, n: nat, ghost held: CText) returns (t: CText)
    requires Holds(buf, held) && n == |held|
    ensures t == held
  {
    assert forall i :: 0 <= i < n ==> buf[i] == buf[..n][i] == held[i];
    t := [];
    for i := 0 to n
      invariant t == held[..i]
    {
      t := t + [buf[i]];
    }
  }

  // ---- Patterns -------------------------------------------------------------

  const PATTERN_SIZE := 1024

  /** What snprintf leaves of s in a pattern buffer. */
  function Truncate(s: CText): (t: CText)
    ensures |t| < PATTERN_SIZE && t <= s
    ensures |s| < PATTERN_SIZE ==> t == s
  {
    if |s| < PATTERN_SIZE then s else s[..PATTERN_SIZE - 1]
  }

  function TreePattern(p: CText): CText {
    Truncate(p + [PERCENT])
  }

  function ChildPattern(p: CText): CText {
    Truncate(p + [BACKSLASH, PERCENT])
  }

  function GrandchildPattern(p: CText): CText {
    Truncate(p + [BACKSLASH, PERCENT, BACKSLASH, PERCENT])
  }
}
