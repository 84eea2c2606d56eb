/**
 * The include derivation of `run`: the `-I` flags among the C flags, the
 * targets of `#include "..."` lines in the program, and each target joined
 * onto the first include directory.
 */
module Includes {
  import opened Wrappers
  import opened Text
  import Paths

  /** The literal text of the include pattern in front of its capture group. */
  const IncludeMarker: string := "#include \""

  /** The flags that name an include directory, in their original order. */
  function IncludePaths(cflags: seq<string>): (r: seq<string>)
    ensures forall x :: x in r <==> x in cflags && StartsWith(x, "-I")
    ensures |r| <= |cflags|
  {
    if cflags == [] then []
    else (if StartsWith(cflags[0], "-I") then [cflags[0]] else []) + IncludePaths(cflags[1..])
  }

  /** Filtering a concatenation filters each part: the order of the flags is kept. */
  lemma {:induction false} IncludePathsAppend(a: seq<string>, b: seq<string>)
    ensures IncludePaths(a + b) == IncludePaths(a) + IncludePaths(b)
    decreases |a|
  {
    if a == [] {
      assert a + b == b;
    } else {
      assert (a + b)[0] == a[0];
      assert (a + b)[1..] == a[1..] + b;
      IncludePathsAppend(a[1..], b);
    }
  }

  /** The first include directory is the first `-I` flag. */
  lemma FirstIncludePath(a: seq<string>, f: string, b: seq<string>)
    requires forall x :: x in a ==> !StartsWith(x, "-I")
    requires StartsWith(f, "-I")
    ensures IncludePaths(a + [f] + b) != [] && IncludePaths(a + [f] + b)[0] == f
  {
    IncludePathsAppend(a, [f] + b);
    assert a + [f] + b == a + ([f] + b);
    NoIncludePaths(a);
    assert ([f] + b)[1..] == b;
  }

  lemma {:induction false} NoIncludePaths(a: seq<string>)
    requires forall x :: x in a ==> !StartsWith(x, "-I")
    ensures IncludePaths(a) == []
    decreases |a|
  {
    if a != [] {
      assert a[0] in a;
      assert forall x :: x in a[1..] ==> x in a;
      NoIncludePaths(a[1..]);
    }
  }

  /** The rest of the current line: everything before the first newline. */
  function LineOf(s: string): (r: string)
    ensures StartsWith(s, r) && '\n' !in r
    ensures r == s || s[|r|] == '\n'
  {
    match IndexOf(s, '\n')
    case None => s
    case Some(k) => s[..k]
  }

  /**
   * The match of `#include "(.*)"` that starts at the beginning of `s`, if any:
   * `.` stops at a newline and is greedy, so the capture runs to the last `"` on
   * the line. The result is the capture and the length of the whole match.
   */
  function IncludeAt(s: string): (r: Option<(string, nat)>)
    ensures r.Some? ==> r.value.1 <= |s| && s[..r.value.1] == IncludeMarker + r.value.0 + "\""
    ensures r.Some? ==> '\n' !in r.value.0 && '"' !in LineOf(s[r.value.1..])
  {
    if !StartsWith(s, IncludeMarker) then None
    else
      var rest := s[|IncludeMarker|..];
      var line := LineOf(rest);
      match LastIndexOf(line, '"')
      case None => None
      case Some(q) =>
        var n := |IncludeMarker| + q + 1;
        IncludeAtShape(IncludeMarker, s, q);
        Some((line[..q], n))
  }

  /** The match found by `IncludeAt` behind any literal `marker`: the marker, the capture, the closing quote, and no later quote on the line. */
  lemma IncludeAtShape(marker: string, s: string, q: nat)
    requires StartsWith(s, marker)
    requires LastIndexOf(LineOf(s[|marker|..]), '"') == Some(q)
    ensures var n := |marker| + q + 1; var line := LineOf(s[|marker|..]);
      n <= |s| && s[..n] == marker + line[..q] + "\"" && '"' !in LineOf(s[n..]) && '\n' !in line[..q]
  {
    var rest := s[|marker|..];
    var line := LineOf(rest);
    ShapeMatch(marker, s, rest, line, q);
    ShapeAfter(marker, s, rest, line, q);
    assert forall k :: 0 <= k < q ==> line[..q][k] == line[k];
  }

  /** The match is the marker, the line up to its last quote, and that quote. */
  lemma ShapeMatch(marker: string, s: string, rest: string, line: string, q: nat)
    requires StartsWith(s, marker) && rest == s[|marker|..]
    requires line == LineOf(rest) && LastIndexOf(line, '"') == Some(q)
    ensures |marker| + q + 1 <= |s| && s[..|marker| + q + 1] == marker + line[..q] + "\""
  {
    ClosingQuote(rest, line, q);
    calc {
      s[..|marker| + q + 1];
      { PrefixThenRest(s, marker, rest); }
      (marker + rest)[..|marker| + (q + 1)];
      { PrependPrefix(marker, rest, q + 1); }
      marker + rest[..q + 1];
      marker + (line[..q] + "\"");
      marker + line[..q] + "\"";
    }
  }

  /** No quote is left on the line after the match. */
  lemma ShapeAfter(marker: string, s: string, rest: string, line: string, q: nat)
    requires StartsWith(s, marker) && rest == s[|marker|..]
    requires line == LineOf(rest) && LastIndexOf(line, '"') == Some(q)
    ensures |marker| + q + 1 <= |s| && '"' !in LineOf(s[|marker| + q + 1..])
  {
    ClosingQuote(rest, line, q);
    assert s[|marker| + q + 1..] == rest[q + 1..];
    LineAfter(rest, line, q + 1);
  }

  /** The line up to its last quote, that quote included, is where the text begins. */
  lemma ClosingQuote(rest: string, line: string, q: nat)
    requires line == LineOf(rest) && LastIndexOf(line, '"') == Some(q)
    ensures q + 1 <= |line| && rest[..q + 1] == line[..q] + "\""
  {
    assert line == rest[..|line|];
    assert rest[..q + 1] == line[..q + 1];
    assert line[..q + 1] == line[..q] + [line[q]];
  }

  /** The line that goes on after a position inside the current line is the rest of that line. */
  lemma LineAfter(s: string, line: string, k: nat)
    requires line == LineOf(s) && k <= |line|
    ensures LineOf(s[k..]) == line[k..]
  {
    if line == s {
      assert '\n' !in s[k..];
    } else {
      var i := |line|;
      assert s[k..][i - k] == '\n';
      assert s[k..][..i - k] == line[k..];
      IndexOfFirst(line[k..], '\n', s[i + 1..]);
      assert s[k..] == line[k..] + ['\n'] + s[i + 1..];
    }
  }

  /** The capture groups of `captures_iter` over the program: leftmost matches, none overlapping. */
  function IncludeTargets(s: string): (targets: seq<string>)
    ensures forall t :: t in targets ==> '\n' !in t
    decreases |s|
  {
    if s == [] then []
    else
      match IncludeAt(s)
      case Some((t, n)) => [t] + IncludeTargets(s[n..])
      case None => IncludeTargets(s[1..])
  }

  /**
   * A position where no match starts, such as the `#` of `#include <stdio.h>` or
   * of `#define`, yields nothing, and the scan moves on by one character.
   */
  lemma IncludeSkip(s: string)
    requires s != [] && IncludeAt(s).None?
    ensures IncludeTargets(s) == IncludeTargets(s[1..])
  {
  }

  /** Text in front in which no match starts, at any position, adds no target. */
  lemma {:induction false} IncludeSkipPrefix(a: string, s: string)
    requires forall i :: 0 <= i < |a| ==> IncludeAt((a + s)[i..]).None?
    ensures IncludeTargets(a + s) == IncludeTargets(s)
    decreases |a|
  {
    if a != [] {
      assert (a + s)[0..] == a + s;
      IncludeSkip(a + s);
      assert (a + s)[1..] == a[1..] + s;
      forall i | 0 <= i < |a[1..]|
        ensures IncludeAt((a[1..] + s)[i..]).None?
      {
        assert (a[1..] + s)[i..] == (a + s)[i + 1..];
      }
      IncludeSkipPrefix(a[1..], s);
    } else {
      assert a + s == s;
    }
  }

  /** A system include such as `#include <stdio.h>` yields no target. */
  lemma AngleIncludeSkipped(h: string, rest: string)
    requires '#' !in h
    ensures IncludeTargets("#include <" + h + ">\n" + rest) == IncludeTargets(rest)
  {
    var a := "#include <" + h + ">\n";
    assert "#include <" + h + ">\n" + rest == a + rest;
    forall i | 0 <= i < |a|
      ensures IncludeAt((a + rest)[i..]).None?
    {
      if i == 0 {
        AngleNotMarker(a + rest, h);
      } else {
        HashOnlyInFront(h, i);
        NoHashNoMatch(a, rest, i);
      }
    }
    IncludeSkipPrefix(a, rest);
  }

  /** `#include <` is not the start of a match. */
  lemma AngleNotMarker(s: string, h: string)
    requires StartsWith(s, "#include <" + h)
    ensures IncludeAt(s).None?
  {
    assert s[9] == '<' && IncludeMarker[9] == '"';
    IncludeAtComplete(s);
  }

  /** In `#include <h>` followed by a newline, only the first character is a `#`. */
  lemma HashOnlyInFront(h: string, i: nat)
    requires '#' !in h && 0 < i < |"#include <" + h + ">\n"|
    ensures ("#include <" + h + ">\n")[i] != '#'
  {
    var p, q := "#include <", ">\n";
    assert "#include <" + h + ">\n" == p + h + q;
    if i < |p| {
      assert (p + h + q)[i] == p[i];
    } else if i < |p| + |h| {
      assert (p + h + q)[i] == h[i - |p|];
    } else {
      assert (p + h + q)[i] == q[i - |p| - |h|];
    }
  }

  /** No match starts at a character other than `#`. */
  lemma NoHashNoMatch(a: string, rest: string, i: nat)
    requires i < |a| && a[i] != '#'
    ensures IncludeAt((a + rest)[i..]).None?
  {
    var x := (a + rest)[i..];
    assert x[0] == a[i];
    assert !StartsWith(x, IncludeMarker) by {
      assert IncludeMarker[0] == '#';
    }
    IncludeAtComplete(x);
  }

  /** A match starts exactly where the marker is followed by a quote later on the same line. */
  lemma IncludeAtComplete(s: string)
    ensures IncludeAt(s).Some? <==> StartsWith(s, IncludeMarker) && '"' in LineOf(s[|IncludeMarker|..])
  {
  }

  /**
   * An include line gives its target up to the last quote on the line, quotes
   * inside the target included, whatever else follows on that line.
   */
  lemma IncludeLine(t: string, rest: string)
    requires '\n' !in t
    requires '"' !in LineOf(rest)
    ensures IncludeTargets(IncludeMarker + t + "\"" + rest) == [t] + IncludeTargets(rest)
  {
    var s := IncludeMarker + t + "\"" + rest;
    QuotedLine(IncludeMarker, t, rest);
    assert IncludeAt(s) == Some((t, |IncludeMarker| + |t| + 1));
  }

  /** The pieces `IncludeAt` sees in `marker`, a quoted target and the rest of the text. */
  lemma QuotedLine(marker: string, t: string, rest: string)
    requires '\n' !in t
    requires '"' !in LineOf(rest)
    ensures var s := marker + t + "\"" + rest; var line := LineOf(s[|marker|..]);
      StartsWith(s, marker) && LastIndexOf(line, '"') == Some(|t|) && line[..|t|] == t &&
      s[|marker| + |t| + 1..] == rest
  {
    var body := t + "\"" + rest;
    assert marker + t + "\"" + rest == marker + body;
    AfterMarker(marker, body, |t| + 1);
    QuotedBody(t, rest);
  }

  /** `marker + body` starts with `marker`, and goes on as `body` does. */
  lemma AfterMarker(marker: string, body: string, k: nat)
    requires k <= |body|
    ensures StartsWith(marker + body, marker)
    ensures (marker + body)[|marker|..] == body && (marker + body)[|marker| + k..] == body[k..]
  {
  }

  /** In a quoted target followed by a line without quotes, the last quote of the line closes the target. */
  lemma QuotedBody(t: string, rest: string)
    requires '\n' !in t
    requires '"' !in LineOf(rest)
    ensures var body := t + "\"" + rest; var line := LineOf(body);
      LastIndexOf(line, '"') == Some(|t|) && line[..|t|] == t && body[|t| + 1..] == rest
  {
    var line := t + ['"'] + LineOf(rest);
    assert LineOf(t + "\"" + rest) == line by {
      LineOfQuoted(t, rest);
    }
    LastIndexOfLast(t, '"', LineOf(rest));
    assert line[..|t|] == t;
    assert (t + "\"" + rest)[|t| + 1..] == rest;
  }

  /** The line of a quoted target runs on into the line of what follows the quote. */
  lemma LineOfQuoted(t: string, rest: string)
    requires '\n' !in t
    ensures LineOf(t + "\"" + rest) == t + "\"" + LineOf(rest)
  {
    LineOfAppend(t + "\"", rest);
  }

  /** Text without a newline in front does not end the line. */
  lemma LineOfAppend(a: string, rest: string)
    requires '\n' !in a
    ensures LineOf(a + rest) == a + LineOf(rest)
  {
    match IndexOf(rest, '\n')
    case None =>
      assert '\n' !in a + rest;
    case Some(k) =>
      assert rest == rest[..k] + ['\n'] + rest[k + 1..];
      assert a + rest == (a + rest[..k]) + ['\n'] + rest[k + 1..];
      IndexOfFirst(a + rest[..k], '\n', rest[k + 1..]);
      assert (a + rest)[..|a| + k] == a + rest[..k];
  }

  /** Text without a `#` starts no include line. */
  lemma {:induction false} IncludeTargetsPlainText(a: string, s: string)
    requires '#' !in a
    ensures IncludeTargets(a + s) == IncludeTargets(s)
    decreases |a|
  {
    if a != [] {
      var x := a + s;
      assert x[0] == a[0];
      assert IncludeAt(x).None? by {
        assert IncludeMarker[0] == '#';
        assert |x| < |IncludeMarker| || x[..|IncludeMarker|][0] != IncludeMarker[0];
      }
      assert x[1..] == a[1..] + s;
      IncludeTargetsPlainText(a[1..], s);
    } else {
      assert a + s == s;
    }
  }

  /**
   * The paths `run` hands to the symlink fix-up: each target joined onto the
   * first include directory with its `-I` removed. `None` is the panic of
   * `include_paths.first().unwrap()`, which happens only when there is a target
   * to join and no include directory.
   */
  function JoinedFilepaths(includePaths: seq<string>, targets: seq<string>): (r: Option<seq<string>>)
    ensures r.None? <==> targets != [] && includePaths == []
    ensures r.Some? ==> |r.value| == |targets|
  {
    if targets == [] then Some([])
    else if includePaths == [] then None
    else
      var dir := RemoveFirst(includePaths[0], "-I");
      Some(seq(|targets|, i requires 0 <= i < |targets| => Paths.Join(dir, targets[i])))
  }

  /** With `-I` flags as include paths, every target lands under the first flag's directory, that flag's `-I` removed. */
  lemma JoinedOntoFirst(cflags: seq<string>, targets: seq<string>)
    requires IncludePaths(cflags) != []
    ensures var paths := IncludePaths(cflags); var r := JoinedFilepaths(paths, targets);
      StartsWith(paths[0], "-I") && r.Some? &&
      forall i :: 0 <= i < |targets| ==> r.value[i] == Paths.Join(paths[0][2..], targets[i])
  {
    var paths := IncludePaths(cflags);
    assert paths[0] in paths;
    RemoveFirstOfPrefix(paths[0], "-I");
  }
}
