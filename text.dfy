/**
 * The few pieces of Rust's `str` API that the pipeline relies on, written out
 * over `seq<char>`: character classes, prefix and suffix tests, searching,
 * `trim`, `replace` with an empty replacement and `replacen(.., 1)`.
 */
module Text {
  import opened Wrappers

  /** Unicode `White_Space`: what the regex class `\s` and `str::trim` treat as space. */
  predicate IsWhitespace(c: char) {
    || c == ' '
    || ('\t' <= c <= '\r')
    || c == '\U{0085}' || c == '\U{00A0}' || c == '\U{1680}'
    || ('\U{2000}' <= c <= '\U{200A}')
    || c == '\U{2028}' || c == '\U{2029}' || c == '\U{202F}' || c == '\U{205F}'
    || c == '\U{3000}'
  }

  /** ASCII whitespace as `split_ascii_whitespace` uses it: no vertical tab. */
  predicate IsAsciiWhitespace(c: char) {
    c == ' ' || c == '\t' || c == '\n' || c == '\U{000C}' || c == '\r'
  }

  predicate StartsWith(s: string, prefix: string) {
    |prefix| <= |s| && s[..|prefix|] == prefix
  }

  predicate EndsWith(s: string, suffix: string) {
    |suffix| <= |s| && s[|s| - |suffix|..] == suffix
  }

  lemma StartsWithPrepend(p: string, s: string, x: string)
    requires StartsWith(s, x)
    ensures StartsWith(p + s, p + x)
  {
    assert (p + s)[..|p + x|] == p + s[..|x|];
  }

  /** Cutting `p + s` after `p` and `k` more characters keeps `p` and the first `k` of `s`. */
  lemma PrependPrefix(p: string, s: string, k: nat)
    requires k <= |s|
    ensures (p + s)[..|p| + k] == p + s[..k]
  {
  }

  /** `s` cut at `n` and put back together. */
  lemma SplitAt(s: string, n: nat)
    requires n <= |s|
    ensures s[..n] + s[n..] == s
  {
  }

  /** A prefix of `s` followed by the rest of `s` is `s`. */
  lemma PrefixThenRest(s: string, x: string, rest: string)
    requires StartsWith(s, x) && rest == s[|x|..]
    ensures x + rest == s
  {
    assert s == s[..|x|] + s[|x|..];
  }

  /** `s.contains(pattern)`. */
  predicate Contains(s: string, pattern: string)
    decreases |s|
  {
    StartsWith(s, pattern) || (s != [] && Contains(s[1..], pattern))
  }

  /** Length of the longest prefix of `s` whose characters all satisfy `p`. */
  function Leading(s: string, p: char -> bool): (n: nat)
    ensures n <= |s|
    ensures forall k :: 0 <= k < n ==> p(s[k])
    ensures n < |s| ==> !p(s[n])
  {
    if s == [] || !p(s[0]) then 0 else 1 + Leading(s[1..], p)
  }

  /** A run of `p`-characters followed by a character outside `p` (or nothing) is exactly what `Leading` measures. */
  lemma {:induction false} LeadingOf(a: string, b: string, p: char -> bool)
    requires forall k :: 0 <= k < |a| ==> p(a[k])
    requires b != [] ==> !p(b[0])
    ensures Leading(a + b, p) == |a|
  {
    if a != [] {
      assert (a + b)[0] == a[0];
      assert (a + b)[1..] == a[1..] + b;
      LeadingOf(a[1..], b, p);
    }
  }

  /** A run of `p`-characters in front of `s` lengthens its leading run by its own length. */
  lemma {:induction false} LeadingAppend(a: string, s: string, p: char -> bool)
    requires forall k :: 0 <= k < |a| ==> p(a[k])
    ensures Leading(a + s, p) == |a| + Leading(s, p)
    decreases |a|
  {
    if a != [] {
      assert (a + s)[0] == a[0];
      assert (a + s)[1..] == a[1..] + s;
      LeadingAppend(a[1..], s, p);
    } else {
      assert a + s == s;
    }
  }

  /** The first position of `c` in `s`, if any. */
  function IndexOf(s: string, c: char): (r: Option<nat>)
    ensures r.Some? ==> r.value < |s| && s[r.value] == c && c !in s[..r.value]
    ensures r.None? ==> c !in s
  {
    if s == [] then None
    else if s[0] == c then Some(0)
    else match IndexOf(s[1..], c)
      case None => None
      case Some(k) =>
        assert s[..k + 1] == [s[0]] + s[1..][..k];
        Some(k + 1)
  }

  /** The last position of `c` in `s`, if any. */
  function LastIndexOf(s: string, c: char): (r: Option<nat>)
    ensures r.Some? ==> r.value < |s| && s[r.value] == c && c !in s[r.value + 1..]
    ensures r.None? ==> c !in s
  {
    if s == [] then None
    else if s[|s| - 1] == c then Some(|s| - 1)
    else
      var r := LastIndexOf(s[..|s| - 1], c);
      if r.Some? then
        assert s[r.value + 1..] == s[..|s| - 1][r.value + 1..] + [s[|s| - 1]];
        r
      else
        assert s == s[..|s| - 1] + [s[|s| - 1]];
        r
  }

  lemma IndexOfFirst(a: string, c: char, b: string)
    requires c !in a
    ensures IndexOf(a + [c] + b, c) == Some(|a|)
  {
    var s := a + [c] + b;
    assert s[|a|] == c;
  }

  lemma LastIndexOfLast(a: string, c: char, b: string)
    requires c !in b
    ensures LastIndexOf(a + [c] + b, c) == Some(|a|)
  {
    var s := a + [c] + b;
    assert s[|a|] == c;
  }

  /** `str::trim_start`: drop leading Unicode whitespace. */
  function TrimStart(s: string): (r: string)
    ensures |r| <= |s| && r == s[|s| - |r|..]
    ensures forall k :: 0 <= k < |s| - |r| ==> IsWhitespace(s[k])
    ensures r != [] ==> !IsWhitespace(r[0])
  {
    s[Leading(s, IsWhitespace)..]
  }

  /** `str::trim_end`: drop trailing Unicode whitespace. */
  function TrimEnd(s: string): (r: string)
    ensures |r| <= |s| && r == s[..|r|]
    ensures forall k :: |r| <= k < |s| ==> IsWhitespace(s[k])
    ensures r != [] ==> !IsWhitespace(r[|r| - 1])
    decreases |s|
  {
    if s != [] && IsWhitespace(s[|s| - 1]) then TrimEnd(s[..|s| - 1]) else s
  }

  /** `str::trim`: the text between the leading and the trailing whitespace. */
  function Trim(s: string): (r: string)
    ensures exists i :: Surrounded(s, i, r)
    ensures r != [] ==> !IsWhitespace(r[0]) && !IsWhitespace(r[|r| - 1])
    ensures r == [] <==> forall k :: 0 <= k < |s| ==> IsWhitespace(s[k])
  {
    var t := TrimStart(s);
    var r := TrimEnd(t);
    assert r != [] ==> r[0] == t[0];
    TrimmedSlice(s, t, r);
    r
  }

  /** A prefix `r` of a suffix `t` of `s`, with whitespace cut off on both sides, sits in `s` between whitespace. */
  lemma TrimmedSlice(s: string, t: string, r: string)
    requires |t| <= |s| && t == s[|s| - |t|..] && forall k :: 0 <= k < |s| - |t| ==> IsWhitespace(s[k])
    requires |r| <= |t| && r == t[..|r|] && forall k :: |r| <= k < |t| ==> IsWhitespace(t[k])
    ensures Surrounded(s, |s| - |t|, r)
  {
    var i := |s| - |t|;
    assert r == s[i..i + |r|];
    assert forall k :: i + |r| <= k < |s| ==> s[k] == t[k - i];
  }

  /** `r` sits in `s` at `i`, with nothing but whitespace before and after it. */
  predicate Surrounded(s: string, i: nat, r: string) {
    && i + |r| <= |s| && r == s[i..i + |r|]
    && (forall k :: 0 <= k < i ==> IsWhitespace(s[k]))
    && (forall k :: i + |r| <= k < |s| ==> IsWhitespace(s[k]))
  }

  /** A text without surrounding whitespace is its own trim. */
  lemma TrimUnchanged(s: string)
    requires s != [] ==> !IsWhitespace(s[0]) && !IsWhitespace(s[|s| - 1])
    ensures Trim(s) == s
  {
    if s != [] {
      assert Leading(s, IsWhitespace) == 0;
      assert TrimStart(s) == s;
    }
  }

  /** `s.replace(pattern, "")`: every leftmost, non-overlapping occurrence deleted. */
  function RemoveAll(s: string, pattern: string): (r: string)
    requires pattern != []
    ensures |r| <= |s|
    ensures !Contains(s, pattern) ==> r == s
    decreases |s|
  {
    if s == [] then []
    else if StartsWith(s, pattern) then RemoveAll(s[|pattern|..], pattern)
    else [s[0]] + RemoveAll(s[1..], pattern)
  }

  /**
   * Text in front of the leftmost occurrence is kept, that occurrence is deleted,
   * and the deleting goes on behind it.
   */
  lemma {:induction false} RemoveAllFirst(a: string, pattern: string, b: string)
    requires pattern != []
    requires forall i :: 0 <= i < |a| ==> !StartsWith((a + pattern + b)[i..], pattern)
    ensures RemoveAll(a + pattern + b, pattern) == a + RemoveAll(b, pattern)
    decreases |a|
  {
    if a == [] {
      assert a + pattern + b == pattern + b;
      RemoveAllPrefix(pattern, b);
    } else {
      var s := a + pattern + b;
      calc {
        RemoveAll(s, pattern);
        { assert !StartsWith(s[0..], pattern); assert s[0..] == s; RemoveAllKeep(s, pattern); }
        [s[0]] + RemoveAll(s[1..], pattern);
        { assert s[1..] == a[1..] + pattern + b; }
        [a[0]] + RemoveAll(a[1..] + pattern + b, pattern);
        { TailHasNoOccurrence(a, pattern, b); RemoveAllFirst(a[1..], pattern, b); }
        [a[0]] + (a[1..] + RemoveAll(b, pattern));
        { assert [a[0]] + a[1..] == a; }
        a + RemoveAll(b, pattern);
      }
    }
  }

  /** Without an occurrence at the front, the first character is kept. */
  lemma RemoveAllKeep(s: string, pattern: string)
    requires pattern != [] && s != [] && !StartsWith(s, pattern)
    ensures RemoveAll(s, pattern) == [s[0]] + RemoveAll(s[1..], pattern)
  {
  }

  /** No occurrence starting inside `a` means none starting inside `a[1..]`. */
  lemma TailHasNoOccurrence(a: string, pattern: string, b: string)
    requires a != []
    requires forall i :: 0 <= i < |a| ==> !StartsWith((a + pattern + b)[i..], pattern)
    ensures forall i :: 0 <= i < |a[1..]| ==> !StartsWith((a[1..] + pattern + b)[i..], pattern)
  {
    forall i | 0 <= i < |a[1..]|
      ensures !StartsWith((a[1..] + pattern + b)[i..], pattern)
    {
      assert (a[1..] + pattern + b)[i..] == (a + pattern + b)[i + 1..];
    }
  }

  /** An occurrence at the front is deleted and the deleting goes on behind it. */
  lemma RemoveAllPrefix(pattern: string, s: string)
    requires pattern != []
    ensures RemoveAll(pattern + s, pattern) == RemoveAll(s, pattern)
  {
    assert StartsWith(pattern + s, pattern);
    assert (pattern + s)[|pattern|..] == s;
  }

  /** `s.replacen(pattern, "", 1)`: the first occurrence deleted. */
  function RemoveFirst(s: string, pattern: string): (r: string)
    requires pattern != []
    ensures Contains(s, pattern) ==> |r| == |s| - |pattern|
    ensures !Contains(s, pattern) ==> r == s
    decreases |s|
  {
    if s == [] then []
    else if StartsWith(s, pattern) then s[|pattern|..]
    else [s[0]] + RemoveFirst(s[1..], pattern)
  }

  /**
   * Text in front of the leftmost occurrence is kept, that occurrence is deleted,
   * and the text behind it is kept as it is.
   */
  lemma {:induction false} RemoveFirstOccurrence(a: string, pattern: string, b: string)
    requires pattern != []
    requires forall i :: 0 <= i < |a| ==> !StartsWith((a + pattern + b)[i..], pattern)
    ensures RemoveFirst(a + pattern + b, pattern) == a + b
    decreases |a|
  {
    if a == [] {
      assert a + pattern + b == pattern + b;
      RemoveFirstOfPrefix(pattern + b, pattern);
      assert (pattern + b)[|pattern|..] == b;
    } else {
      var s := a + pattern + b;
      calc {
        RemoveFirst(s, pattern);
        { assert !StartsWith(s[0..], pattern); assert s[0..] == s; RemoveFirstKeep(s, pattern); }
        [s[0]] + RemoveFirst(s[1..], pattern);
        { assert s[1..] == a[1..] + pattern + b; }
        [a[0]] + RemoveFirst(a[1..] + pattern + b, pattern);
        { TailHasNoOccurrence(a, pattern, b); RemoveFirstOccurrence(a[1..], pattern, b); }
        [a[0]] + (a[1..] + b);
        { assert [a[0]] + a[1..] == a; }
        a + b;
      }
    }
  }

  /** Without an occurrence at the front, the first character is kept. */
  lemma RemoveFirstKeep(s: string, pattern: string)
    requires pattern != [] && s != [] && !StartsWith(s, pattern)
    ensures RemoveFirst(s, pattern) == [s[0]] + RemoveFirst(s[1..], pattern)
  {
  }

  /** A pattern that is a prefix is the first occurrence, so `replacen` strips exactly that prefix. */
  lemma RemoveFirstOfPrefix(s: string, pattern: string)
    requires pattern != [] && StartsWith(s, pattern)
    ensures RemoveFirst(s, pattern) == s[|pattern|..]
    ensures s == pattern + RemoveFirst(s, pattern)
  {
  }
}
