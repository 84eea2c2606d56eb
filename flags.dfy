/**
 * `get_env_flags`: a configuration value looked up by name and cut into
 * compiler flags at ASCII whitespace, as `str::split_ascii_whitespace` does.
 */
module Flags {
  import opened Wrappers
  import opened Text

  predicate IsTokenChar(c: char) {
    !IsAsciiWhitespace(c)
  }

  /** No character of `t` is ASCII whitespace. */
  predicate IsToken(t: string) {
    forall k :: 0 <= k < |t| ==> IsTokenChar(t[k])
  }

  /** `s.split_ascii_whitespace()`: the maximal runs of non-whitespace characters, in order. */
  function SplitAsciiWhitespace(s: string): (ts: seq<string>)
    ensures forall i :: 0 <= i < |ts| ==> ts[i] != [] && IsToken(ts[i])
    decreases |s|
  {
    var n := Leading(s, IsAsciiWhitespace);
    if n == |s| then []
    else
      var rest := s[n..];
      var m := Leading(rest, IsTokenChar);
      assert m > 0 by {
        assert IsTokenChar(rest[0]);
      }
      assert IsToken(rest[..m]) by {
        assert forall k :: 0 <= k < m ==> rest[..m][k] == rest[k];
      }
      [rest[..m]] + SplitAsciiWhitespace(rest[m..])
  }

  /** The tokens written back one after another. */
  function Concat(ts: seq<string>): string {
    if ts == [] then [] else ts[0] + Concat(ts[1..])
  }

  /** The tokens written back with one space between neighbours. */
  function JoinWithSpaces(ts: seq<string>): string {
    if |ts| == 0 then []
    else if |ts| == 1 then ts[0]
    else ts[0] + " " + JoinWithSpaces(ts[1..])
  }

  /** `s` with every ASCII whitespace character deleted. */
  function RemoveAsciiWhitespace(s: string): (r: string)
    ensures IsToken(r)
  {
    if s == [] then []
    else if IsAsciiWhitespace(s[0]) then RemoveAsciiWhitespace(s[1..])
    else [s[0]] + RemoveAsciiWhitespace(s[1..])
  }

  lemma {:induction false} RemoveAsciiWhitespaceAppend(a: string, b: string)
    ensures RemoveAsciiWhitespace(a + b) == RemoveAsciiWhitespace(a) + RemoveAsciiWhitespace(b)
    decreases |a|
  {
    if a != [] {
      assert (a + b)[0] == a[0];
      assert (a + b)[1..] == a[1..] + b;
      RemoveAsciiWhitespaceAppend(a[1..], b);
    } else {
      assert a + b == b;
    }
  }

  lemma {:induction false} RemoveAsciiWhitespaceOfSpace(w: string)
    requires forall k :: 0 <= k < |w| ==> IsAsciiWhitespace(w[k])
    ensures RemoveAsciiWhitespace(w) == []
    decreases |w|
  {
    if w != [] {
      RemoveAsciiWhitespaceOfSpace(w[1..]);
    }
  }

  lemma {:induction false} RemoveAsciiWhitespaceOfToken(t: string)
    requires IsToken(t)
    ensures RemoveAsciiWhitespace(t) == t
    decreases |t|
  {
    if t != [] {
      assert IsTokenChar(t[0]);
      RemoveAsciiWhitespaceOfToken(t[1..]);
      assert t == [t[0]] + t[1..];
    }
  }

  /** Leading whitespace contributes nothing once whitespace is removed. */
  lemma RemoveLeadingSpace(s: string, n: nat)
    requires n <= |s| && forall k :: 0 <= k < n ==> IsAsciiWhitespace(s[k])
    ensures RemoveAsciiWhitespace(s) == RemoveAsciiWhitespace(s[n..])
  {
    var w, rest := s[..n], s[n..];
    calc {
      RemoveAsciiWhitespace(s);
      { SplitAt(s, n); }
      RemoveAsciiWhitespace(w + rest);
      { RemoveAsciiWhitespaceAppend(w, rest); }
      RemoveAsciiWhitespace(w) + RemoveAsciiWhitespace(rest);
      { assert forall k :: 0 <= k < |w| ==> w[k] == s[k];
        RemoveAsciiWhitespaceOfSpace(w); }
      RemoveAsciiWhitespace(rest);
    }
  }

  /** A leading token survives whitespace removal as it is. */
  lemma RemoveLeadingToken(s: string, m: nat)
    requires m <= |s| && IsToken(s[..m])
    ensures RemoveAsciiWhitespace(s) == s[..m] + RemoveAsciiWhitespace(s[m..])
  {
    var t, rest := s[..m], s[m..];
    calc {
      RemoveAsciiWhitespace(s);
      { SplitAt(s, m); }
      RemoveAsciiWhitespace(t + rest);
      { RemoveAsciiWhitespaceAppend(t, rest); }
      RemoveAsciiWhitespace(t) + RemoveAsciiWhitespace(rest);
      { RemoveAsciiWhitespaceOfToken(t); }
      t + RemoveAsciiWhitespace(rest);
    }
  }

  lemma ConcatCons(t: string, ts: seq<string>)
    ensures Concat([t] + ts) == t + Concat(ts)
  {
    assert ([t] + ts)[1..] == ts;
  }

  /** Splitting loses only whitespace: the tokens put back together are the value without its whitespace. */
  lemma {:induction false} SplitKeepsText(s: string)
    ensures Concat(SplitAsciiWhitespace(s)) == RemoveAsciiWhitespace(s)
    decreases |s|
  {
    var n := Leading(s, IsAsciiWhitespace);
    RemoveLeadingSpace(s, n);
    if n < |s| {
      var rest := s[n..];
      var m := Leading(rest, IsTokenChar);
      SplitKeepsText(rest[m..]);
      RemoveLeadingToken(rest, m);
      ConcatCons(rest[..m], SplitAsciiWhitespace(rest[m..]));
    } else {
      assert s[n..] == [];
    }
  }

  /** Whitespace in front of the text yields no token. */
  lemma SplitSkipsLeadingSpace(w: string, s: string)
    requires forall k :: 0 <= k < |w| ==> IsAsciiWhitespace(w[k])
    ensures SplitAsciiWhitespace(w + s) == SplitAsciiWhitespace(s)
  {
    var n := Leading(s, IsAsciiWhitespace);
    LeadingAppend(w, s, IsAsciiWhitespace);
    assert (w + s)[|w| + n..] == s[n..];
  }

  /** The two halves of a split at a whitespace boundary: one token, then the rest. */
  lemma SplitToken(t: string, s: string)
    requires t != [] && IsToken(t)
    requires s != [] ==> IsAsciiWhitespace(s[0])
    ensures SplitAsciiWhitespace(t + s) == [t] + SplitAsciiWhitespace(s)
  {
    var x := t + s;
    assert x[0] == t[0];
    assert IsTokenChar(t[0]);
    assert Leading(x, IsAsciiWhitespace) == 0;
    assert x[0..] == x;
    LeadingOf(t, s, IsTokenChar);
    assert x[..|t|] == t;
    assert x[|t|..] == s;
  }

  /** Splitting undoes joining with spaces, for tokens without whitespace. */
  lemma {:induction false} SplitJoin(ts: seq<string>)
    requires forall i :: 0 <= i < |ts| ==> ts[i] != [] && IsToken(ts[i])
    ensures SplitAsciiWhitespace(JoinWithSpaces(ts)) == ts
    decreases |ts|
  {
    if |ts| == 0 {
    } else if |ts| == 1 {
      SplitToken(ts[0], []);
      assert ts[0] + [] == ts[0];
      assert [ts[0]] == ts;
    } else {
      SplitJoinCons(ts[0], JoinWithSpaces(ts[1..]));
      SplitJoin(ts[1..]);
      assert ts == [ts[0]] + ts[1..];
    }
  }

  lemma SplitJoinCons(t: string, tail: string)
    requires t != [] && IsToken(t)
    ensures SplitAsciiWhitespace(t + " " + tail) == [t] + SplitAsciiWhitespace(tail)
  {
    assert t + " " + tail == t + (" " + tail);
    SplitToken(t, " " + tail);
    SplitSkipsLeadingSpace(" ", tail);
  }

  /** `env::var(name)` over an environment given as its list of entries: the last entry with that name. */
  function EnvVar(environ: seq<(string, string)>, name: string): (r: Option<string>)
    ensures r.Some? <==> exists j :: 0 <= j < |environ| && environ[j].0 == name
  {
    if environ == [] then None
    else if environ[|environ| - 1].0 == name then Some(environ[|environ| - 1].1)
    else
      var r := EnvVar(environ[..|environ| - 1], name);
      assert forall j :: 0 <= j < |environ| - 1 ==> environ[..|environ| - 1][j] == environ[j];
      r
  }

  /**
   * `get_env_flags`: the value stored under `name`, split at ASCII whitespace.
   * When `name` is missing, `ok_or_else` keeps `env::var(name)` (here `ambient`)
   * as an error that `unwrap_or_default` then replaces by the empty string.
   */
  function GetEnvFlags(variables: map<string, string>, ambient: Option<string>, name: string): (flags: seq<string>)
    ensures name !in variables ==> flags == []
    ensures name in variables ==> Concat(flags) == RemoveAsciiWhitespace(variables[name])
    ensures forall i :: 0 <= i < |flags| ==> flags[i] != [] && IsToken(flags[i])
  {
    var lookup: Result<string, Option<string>> :=
      if name in variables then Ok(variables[name]) else Err(ambient);
    var value := if lookup.Ok? then lookup.value else "";
    SplitKeepsText(value);
    SplitAsciiWhitespace(value)
  }

  /** The ambient environment never reaches the result. */
  lemma AmbientIgnored(variables: map<string, string>, a: Option<string>, b: Option<string>, name: string)
    ensures GetEnvFlags(variables, a, name) == GetEnvFlags(variables, b, name)
  {
  }

  /** A value written as space-separated flags comes back as exactly those flags. */
  lemma GetEnvFlagsOfJoined(variables: map<string, string>, ambient: Option<string>, name: string, ts: seq<string>)
    requires forall i :: 0 <= i < |ts| ==> ts[i] != [] && IsToken(ts[i])
    requires name in variables && variables[name] == JoinWithSpaces(ts)
    ensures GetEnvFlags(variables, ambient, name) == ts
  {
    SplitJoin(ts);
  }
}
