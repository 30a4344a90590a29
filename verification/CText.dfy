/** NUL-terminated text and the C library operations the two HTTP parsers use on it.
    Each operation is defined by its meaning on the C string that starts at a position. */
module CText {

  const NUL: char := '\0'

  function Min(a: int, b: int): int { if a < b then a else b }

  /** The part of s before its first NUL, or all of s. */
  function CString(s: string): (t: string)
    ensures t <= s && NUL !in t
    ensures |t| < |s| ==> s[|t|] == NUL
  {
    if s == [] || s[0] == NUL then [] else [s[0]] + CString(s[1..])
  }

  /** The C string a `char*` at position p of a buffer denotes. */
  function StringAt(b: seq<char>, p: nat): (t: string)
    requires p <= |b|
    ensures p + |t| <= |b| && t == b[p..p + |t|]
  {
    CString(b[p..])
  }

  predicate IsBlank(c: char) { c == ' ' || c == '\t' }

  predicate AllBlank(s: string) { forall c <- s :: IsBlank(c) }

  predicate NoBlank(s: string) { forall c <- s :: !IsBlank(c) }

  /** strpbrk(s, " \t") as an offset; |s| stands for NULL. */
  function FirstBlank(s: string): (k: nat)
    ensures k <= |s| && NoBlank(s[..k])
    ensures k < |s| ==> IsBlank(s[k])
  {
    if s == [] || IsBlank(s[0]) then 0 else 1 + FirstBlank(s[1..])
  }

  /** strspn(s, " \t"). */
  function BlankSpan(s: string): (k: nat)
    ensures k <= |s| && AllBlank(s[..k])
    ensures k < |s| ==> !IsBlank(s[k])
  {
    if s == [] || !IsBlank(s[0]) then 0 else 1 + BlankSpan(s[1..])
  }

  function ToLower(c: char): char
  {
    if 'A' <= c <= 'Z' then c - 'A' + 'a' else c
  }

  /** strcasecmp(a, b) == 0. */
  predicate EqualFold(a: string, b: string)
  {
    |a| == |b| && forall i | 0 <= i < |a| :: ToLower(a[i]) == ToLower(b[i])
  }

  /** strncasecmp(s, p, strlen(p)) == 0. */
  predicate HasPrefixFold(s: string, p: string)
  {
    |p| <= |s| && EqualFold(s[..|p|], p)
  }

  /** Two texts are equal up to case exactly when they differ only in letters that stand in
      both cases. */
  lemma EqualFoldMeans(a: string, b: string)
    ensures EqualFold(a, b) <==>
      && |a| == |b|
      && forall i | 0 <= i < |a| ::
           || a[i] == b[i]
           || ('a' <= a[i] <= 'z' && b[i] as int == a[i] as int - 32)
           || ('A' <= a[i] <= 'Z' && b[i] as int == a[i] as int + 32)
  {
  }

  /** Blanks are spaces and tabs. */
  lemma BlankMeans(s: string)
    ensures AllBlank(s) <==> forall i | 0 <= i < |s| :: s[i] == ' ' || s[i] == '\t'
    ensures NoBlank(s) <==> forall i | 0 <= i < |s| :: s[i] != ' ' && s[i] != '\t'
  {
    assert forall i | 0 <= i < |s| :: s[i] in s;
  }

  /** The blanks of two texts that are equal up to case stand at the same places. */
  lemma {:induction false} SameBlanks(a: string, b: string)
    requires EqualFold(a, b)
    ensures FirstBlank(a) == FirstBlank(b) && BlankSpan(a) == BlankSpan(b)
  {
    if a != [] {
      assert ToLower(a[0]) == ToLower(b[0]);
      assert forall i | 0 <= i < |a| - 1 :: a[1..][i] == a[i + 1] && b[1..][i] == b[i + 1];
      SameBlanks(a[1..], b[1..]);
    }
  }

  lemma FoldSlice(a: string, b: string, i: nat, j: nat)
    requires EqualFold(a, b) && i <= j <= |a|
    ensures EqualFold(a[i..j], b[i..j])
  {
    assert forall k | 0 <= k < j - i :: a[i..j][k] == a[i + k] && b[i..j][k] == b[i + k];
  }

  lemma FoldTail(a: string, b: string, i: nat)
    requires EqualFold(a, b) && i <= |a|
    ensures EqualFold(a[i..], b[i..])
  {
    assert a[i..] == a[i..|a|] && b[i..] == b[i..|b|];
    FoldSlice(a, b, i, |a|);
  }

  /** CString stops at the first NUL, whatever follows it. */
  lemma {:induction false} CStringOf(t: string, rest: string)
    requires NUL !in t && (rest == [] || rest[0] == NUL)
    ensures CString(t + rest) == t
  {
    if t == [] {
      assert t + rest == rest;
    } else {
      assert (t + rest)[1..] == t[1..] + rest;
      CStringOf(t[1..], rest);
    }
  }

  /** Writing a NUL at offset k of a C string splits it into two C strings. */
  lemma SplitString(b: seq<char>, b': seq<char>, p: nat, k: nat)
    requires p <= |b| && k < |StringAt(b, p)|
    requires b' == b[p + k := NUL]
    ensures StringAt(b', p) == StringAt(b, p)[..k]
    ensures StringAt(b', p + k + 1) == StringAt(b, p)[k + 1..]
  {
    var t := StringAt(b, p);
    assert b'[p..] == t[..k] + b'[p + k..];
    CStringOf(t[..k], b'[p + k..]);
    SuffixString(b, p, k + 1);
    assert b'[p + k + 1..] == b[p + k + 1..];
  }

  /** Advancing a pointer inside a C string denotes the rest of that string. */
  lemma SuffixString(b: seq<char>, p: nat, k: nat)
    requires p <= |b| && k <= |StringAt(b, p)|
    ensures StringAt(b, p + k) == StringAt(b, p)[k..]
  {
    var t := StringAt(b, p);
    var rest := b[p + |t|..];
    assert b[p + k..] == t[k..] + rest;
    assert |t| < |b[p..]| ==> b[p..][|t|] == NUL;
    CStringOf(t[k..], rest);
  }

  /** The first blank of a text made of a blank-free part and a blank. */
  lemma {:induction false} FirstBlankOf(a: string, rest: string)
    requires NoBlank(a) && (rest == [] || IsBlank(rest[0]))
    ensures FirstBlank(a + rest) == |a|
  {
    if a == [] {
      assert a + rest == rest;
    } else {
      assert (a + rest)[1..] == a[1..] + rest;
      FirstBlankOf(a[1..], rest);
    }
  }

  /** The blank span of a text made of blanks and a non-blank. */
  lemma {:induction false} BlankSpanOf(g: string, rest: string)
    requires AllBlank(g) && (rest == [] || !IsBlank(rest[0]))
    ensures BlankSpan(g + rest) == |g|
  {
    if g == [] {
      assert g + rest == rest;
    } else {
      assert (g + rest)[1..] == g[1..] + rest;
      BlankSpanOf(g[1..], rest);
    }
  }

  // ---------- the same operations on pointers into a buffer ----------

  datatype Pointer = Null | At(pos: nat)

  /** strpbrk(p, " \t"). */
  function Strpbrk(b: seq<char>, p: nat): Pointer
    requires p <= |b|
  {
    var t := StringAt(b, p);
    var k := FirstBlank(t);
    if k < |t| then At(p + k) else Null
  }

  /** p + strspn(p, " \t"). */
  function PastBlanks(b: seq<char>, p: nat): nat
    requires p <= |b|
  {
    p + BlankSpan(StringAt(b, p))
  }

  function FirstOf(t: string, c: char): (k: nat)
    ensures k <= |t| && c !in t[..k]
    ensures k < |t| ==> t[k] == c
  {
    if t == [] || t[0] == c then 0 else 1 + FirstOf(t[1..], c)
  }

  /** strchr(p, c) for a c other than NUL. */
  function Strchr(b: seq<char>, p: nat, c: char): Pointer
    requires p <= |b|
  {
    var t := StringAt(b, p);
    var k := FirstOf(t, c);
    if k < |t| then At(p + k) else Null
  }
}
