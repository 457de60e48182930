/**
 * The few C library string primitives the router relies on, with their C
 * semantics: a C string is the characters before the first NUL, and reading
 * past the end of a sequence reads the terminating NUL.
 */
module CStrings {

  datatype Option<T> = None | Some(value: T)

  const NUL: char := '\0'

  function Min(a: int, b: int): int { if a < b then a else b }

  /** True when `s` is a proper C string content: no embedded terminator. */
  predicate NoNul(s: string) {
    forall i :: 0 <= i < |s| ==> s[i] != NUL
  }

  /** `s[i]` as C reads it: the terminator beyond the end. */
  function CharAt(s: string, i: nat): char {
    if i < |s| then s[i] else NUL
  }

  /** `strnlen(s, n)`: the number of characters before the first NUL, at most `n`. */
  function StrNLen(s: string, n: nat): (r: nat)
    ensures r <= n && r <= |s|
    ensures forall i :: 0 <= i < r ==> s[i] != NUL
    ensures r < n ==> CharAt(s, r) == NUL
    decreases |s|
  {
    if n == 0 || CharAt(s, 0) == NUL then 0 else 1 + StrNLen(s[1..], n - 1)
  }

  /** `0 == strncmp(a, b, n)`: the first `n` characters agree, up to a common terminator. */
  predicate StrNEq(a: string, b: string, n: int)
    decreases |a|
  {
    n <= 0 ||
    (CharAt(a, 0) == CharAt(b, 0) && (CharAt(a, 0) == NUL || StrNEq(a[1..], b[1..], n - 1)))
  }

  /** `s + k` on a C string: the suffix from `k`, or the empty string past the end. */
  function Offset(s: string, k: int): (r: string)
    ensures 0 <= k <= |s| ==> r == s[k..]
  {
    if 0 <= k <= |s| then s[k..] else []
  }

  /** Comparing against a literal without terminator is a prefix test. */
  lemma {:induction false} StrNEqLiteral(a: string, lit: string, n: nat)
    requires n <= |lit| && NoNul(lit)
    ensures StrNEq(a, lit, n) <==> n <= |a| && a[..n] == lit[..n]
  {
    if n > 0 {
      if CharAt(a, 0) == lit[0] {
        StrNEqLiteral(a[1..], lit[1..], n - 1);
        if n <= |a| {
          assert a[..n] == [a[0]] + a[1..][..n - 1];
          assert lit[..n] == [lit[0]] + lit[1..][..n - 1];
        }
      } else if n <= |a| {
        assert a[..n][0] != lit[..n][0];
      }
    }
  }

  /** `strnlen` reaches its bound exactly when the first `n` characters hold no terminator. */
  lemma {:induction false} StrNLenBound(a: string, n: nat)
    ensures StrNLen(a, n) >= n <==> n <= |a| && NoNul(a[..n])
  {
    if n > 0 && n <= |a| && NoNul(a[..n]) {
      assert a[0] == a[..n][0];
      assert a[1..][..n - 1] == a[..n][1..];
      StrNLenBound(a[1..], n - 1);
    }
  }

  /** Comparing the first `|lit|` characters with a literal is a prefix test. */
  lemma HasPrefixTest(p: string, lit: string)
    requires NoNul(lit)
    ensures StrNEq(p, lit, |lit|) <==> |lit| <= |p| && p[..|lit|] == lit
  {
    StrNEqLiteral(p, lit, |lit|);
  }

  /** `strnlen(p, n) >= n && 0 == strncmp(p, lit, n)` with `n == |lit|` is a prefix test too. */
  lemma GuardedPrefixTest(p: string, lit: string)
    requires NoNul(lit)
    ensures (StrNLen(p, |lit|) >= |lit| && StrNEq(p, lit, |lit|)) <==> |lit| <= |p| && p[..|lit|] == lit
  {
    HasPrefixTest(p, lit);
    StrNLenBound(p, |lit|);
  }

  lemma NoNulConcat(a: string, b: string)
    requires NoNul(a) && NoNul(b)
    ensures NoNul(a + b)
  {
  }

  /** A prefix made of two parts matches part by part. */
  lemma SplitPrefix(p: string, a: string, b: string)
    requires |a| + |b| <= |p|
    ensures p[..|a| + |b|] == a + b <==> p[..|a|] == a && p[|a|..|a| + |b|] == b
  {
    if p[..|a|] == a && p[|a|..|a| + |b|] == b {
      assert p[..|a| + |b|] == p[..|a|] + p[|a|..|a| + |b|];
    }
    if p[..|a| + |b|] == a + b {
      assert p[..|a|] == (a + b)[..|a|];
      assert p[|a|..|a| + |b|] == (a + b)[|a|..];
    }
  }

  /** `needle` occurs in `hay` at index `i`. */
  predicate OccursAt(hay: string, needle: string, i: nat) {
    i + |needle| <= |hay| && hay[i..i + |needle|] == needle
  }

  /** `strstr(hay, needle)`: the index of the first occurrence of `needle`,
      if any (see `FindSpec`). */
  function Find(hay: string, needle: string): Option<nat> {
    FindFrom(hay, needle, 0)
  }

  function FindFrom(hay: string, needle: string, k: nat): Option<nat>
    decreases |hay| - k
  {
    if k + |needle| > |hay| then None
    else if hay[k..k + |needle|] == needle then Some(k)
    else FindFrom(hay, needle, k + 1)
  }

  lemma {:induction false} FindFromSpec(hay: string, needle: string, k: nat)
    requires forall j :: 0 <= j < k ==> !OccursAt(hay, needle, j)
    ensures var r := FindFrom(hay, needle, k);
      (r.Some? ==> k <= r.value && OccursAt(hay, needle, r.value)
                   && forall j :: 0 <= j < r.value ==> !OccursAt(hay, needle, j))
      && (r.None? ==> forall j :: 0 <= j ==> !OccursAt(hay, needle, j))
    decreases |hay| - k
  {
    if k + |needle| <= |hay| && hay[k..k + |needle|] != needle {
      FindFromSpec(hay, needle, k + 1);
    }
  }

  /** `strstr` reports an occurrence, and it is the first one; it reports
      none only when there is none. */
  lemma FindSpec(hay: string, needle: string)
    ensures var r := Find(hay, needle);
      (r.Some? ==> OccursAt(hay, needle, r.value)
                   && forall j :: 0 <= j < r.value ==> !OccursAt(hay, needle, j))
      && (r.None? ==> forall j :: 0 <= j ==> !OccursAt(hay, needle, j))
  {
    FindFromSpec(hay, needle, 0);
  }

  /** The C string held in a buffer: everything before the first NUL. */
  function CStr(a: seq<char>): (r: string)
    ensures NoNul(r) && |r| <= |a| && r == a[..|r|]
    ensures |r| < |a| ==> a[|r|] == NUL
  {
    if a == [] || a[0] == NUL then [] else [a[0]] + CStr(a[1..])
  }

  /** A buffer whose first NUL is at `k` holds the C string `a[..k]`. */
  lemma {:induction false} CStrAt(a: seq<char>, k: nat)
    requires k < |a| && a[k] == NUL && NoNul(a[..k])
    ensures CStr(a) == a[..k]
  {
    if k > 0 {
      assert a[0] == a[..k][0];
      CStrAt(a[1..], k - 1);
      assert a[1..][..k - 1] == a[..k][1..];
    }
  }

  /** The path with every trailing '/' removed. */
  function TrimTrailingSlashes(s: string): (r: string)
    ensures |r| <= |s| && r == s[..|r|]
    ensures r == [] || r[|r| - 1] != '/'
    ensures forall i :: |r| <= i < |s| ==> s[i] == '/'
  {
    if s != [] && s[|s| - 1] == '/' then TrimTrailingSlashes(s[..|s| - 1]) else s
  }

  /** Dropping one trailing '/' does not change the trimmed path. */
  lemma TrimDrop(s: string, k: nat)
    requires 1 <= k <= |s| && s[k - 1] == '/'
    ensures TrimTrailingSlashes(s[..k]) == TrimTrailingSlashes(s[..k - 1])
  {
    assert s[..k][..k - 1] == s[..k - 1];
  }

  /** A path that does not end with '/' is its own trimmed form. */
  lemma TrimDone(s: string, k: nat)
    requires 1 <= k <= |s| && s[k - 1] != '/'
    ensures TrimTrailingSlashes(s[..k]) == s[..k]
  {
  }

  /** A buffer holding `t`, then '/', then the terminator, holds the C string `t` + "/". */
  lemma SlashTerminated(a: seq<char>, t: string)
    requires |t| + 2 <= |a| && NoNul(t) && a[..|t|] == t && a[|t|] == '/' && a[|t| + 1] == NUL
    ensures CStr(a) == t + "/"
  {
    assert a[..|t| + 1] == t + "/";
    CStrAt(a, |t| + 1);
  }

  /** A path whose characters from `n` on are all '/', and whose character
      before `n` is not, trims to its first `n` characters. */
  lemma {:induction false} TrimIs(s: string, n: nat)
    requires 1 <= n <= |s| && s[n - 1] != '/'
    requires forall i :: n <= i < |s| ==> s[i] == '/'
    ensures TrimTrailingSlashes(s) == s[..n]
    decreases |s|
  {
    if n < |s| {
      var t := s[..|s| - 1];
      TrimIs(t, n);
      assert t[..n] == s[..n];
    }
  }

  /** Reading a terminated buffer prefix the C way reads the buffer. */
  lemma CharAtPrefix(a: seq<char>, n: nat, i: nat)
    requires i <= n < |a| && a[n] == NUL
    ensures CharAt(a[..n], i) == a[i]
  {
  }

  /** The first occurrence is the one `Find` reports. */
  lemma FindIsFirst(hay: string, needle: string, k: nat)
    requires OccursAt(hay, needle, k)
    requires forall j :: 0 <= j < k ==> !OccursAt(hay, needle, j)
    ensures Find(hay, needle) == Some(k)
  {
    FindSpec(hay, needle);
  }

  // ----- The same primitives on a character buffer -----

  /** `strlen(a)`: the index of the first NUL of the buffer. */
  method StrLen(a: array<char>) returns (n: nat)
    requires |CStr(a[..])| < a.Length
    ensures n == |CStr(a[..])| && a[n] == NUL && a[..n] == CStr(a[..])
  {
    n := 0;
    while a[n] != NUL
      invariant n <= |CStr(a[..])|
      invariant a[..n] == CStr(a[..])[..n]
      decreases |CStr(a[..])| - n
    {
      n := n + 1;
    }
  }

  /** `strstr` on the first `n` characters of the buffer. */
  method StrStr(a: array<char>, n: nat, needle: string) returns (r: Option<nat>)
    requires n <= a.Length
    ensures r == Find(a[..n], needle)
  {
    var k := 0;
    while k + |needle| <= n
      invariant forall j :: 0 <= j < k ==> !OccursAt(a[..n], needle, j)
      decreases n - k
    {
      if a[k..k + |needle|] == needle {
        assert a[..n][k..k + |needle|] == a[k..k + |needle|];
        FindIsFirst(a[..n], needle, k);
        return Some(k);
      }
      assert a[..n][k..k + |needle|] == a[k..k + |needle|];
      k := k + 1;
    }
    FindSpec(a[..n], needle);
    return None;
  }
}
