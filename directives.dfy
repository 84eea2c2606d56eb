/**
 * The directive extractor, `collect_environment_variables`.
 *
 * A program may carry lines such as `#inline_c_rs CFLAGS: "-DFOO=1"`. They
 * are found by the pattern
 *     #inline_c_rs (?P<variable_name>[^:]+):\s*"(?P<variable_value>[^"]+)"\r?\n
 * which this module replaces by a hand-written scanner: from any position the
 * pattern has at most one match (the name runs to the first `:`, the spaces
 * to the first non-space, the value to the first `"`), so scanning left to
 * right and taking a match wherever one starts gives exactly the leftmost,
 * non-overlapping matches that `captures_iter` and `replace_all` see.
 */
module Directives {
  import opened Wrappers
  import opened Text

  const Marker: string := "#inline_c_rs "
  const EnvVarPrefix: string := "INLINE_C_RS_"

  /** `\r?\n`, the end of a directive line. */
  function Terminator(crlf: bool): string {
    if crlf then "\r\n" else "\n"
  }

  /**
   * One match of the directive pattern: the raw name capture (before `trim`),
   * the spaces matched by `\s*`, the value capture, and whether the line ended
   * in `\r\n` rather than `\n`.
   */
  datatype Directive = Directive(rawName: string, spacing: string, value: string, crlf: bool)
  {
    /** The key the directive sets: the name capture, trimmed. */
    function Name(): string {
      Trim(rawName)
    }

    /** What the pattern demands of each capture. */
    predicate WellFormed() {
      && rawName != [] && ':' !in rawName
      && (forall k :: 0 <= k < |spacing| ==> IsWhitespace(spacing[k]))
      && value != [] && '"' !in value
    }

    /** The directive's text after the marker up to its closing quote, followed by `t`. */
    function Body(t: string): string {
      rawName + (":" + (spacing + ("\"" + (value + ("\"" + t)))))
    }

    /** The directive's text up to its closing quote, followed by `t`. */
    function Open(t: string): string {
      Marker + Body(t)
    }

    /** The whole matched span, line terminator included. */
    function Render(): string {
      Open(Terminator(crlf))
    }
  }

  lemma RenderAppend(d: Directive, t: string)
    ensures d.Render() + t == d.Open(Terminator(d.crlf) + t)
  {
  }

  /** After the opening quote: the value up to the first `"`, then `"` and a line terminator. */
  function MatchValue(body: string): (r: Option<(string, bool)>)
    ensures r.Some? ==> r.value.0 != [] && '"' !in r.value.0
    ensures r.Some? ==> StartsWith(body, r.value.0 + ("\"" + Terminator(r.value.1)))
  {
    match IndexOf(body, '"')
    case None => None
    case Some(q) =>
      if q == 0 then None
      else
        var tail := body[q + 1..];
        assert body == body[..q] + ("\"" + tail);
        if StartsWith(tail, "\r\n") then
          assert tail == "\r\n" + tail[2..];
          Some((body[..q], true))
        else if StartsWith(tail, "\n") then
          assert tail == "\n" + tail[1..];
          Some((body[..q], false))
        else None
  }

  /** After the colon: `\s*`, the opening quote, then what `MatchValue` accepts. */
  function MatchTail(afterColon: string): (r: Option<(string, string, bool)>)
    ensures r.Some? ==> forall k :: 0 <= k < |r.value.0| ==> IsWhitespace(r.value.0[k])
    ensures r.Some? ==> r.value.1 != [] && '"' !in r.value.1
    ensures r.Some? ==> StartsWith(afterColon, r.value.0 + ("\"" + (r.value.1 + ("\"" + Terminator(r.value.2)))))
  {
    var w := Leading(afterColon, IsWhitespace);
    var spacing := afterColon[..w];
    var rest := afterColon[w..];
    if rest == [] || rest[0] != '"' then None
    else
      match MatchValue(rest[1..])
      case None => None
      case Some((value, crlf)) =>
        assert forall k :: 0 <= k < |spacing| ==> IsWhitespace(spacing[k]) by {
          forall k | 0 <= k < |spacing| ensures IsWhitespace(spacing[k]) {
            assert spacing[k] == afterColon[k];
          }
        }
        SpacingThenQuote(afterColon, w, value + ("\"" + Terminator(crlf)));
        Some((spacing, value, crlf))
  }

  lemma SpacingThenQuote(s: string, w: nat, x: string)
    requires w < |s| && s[w] == '"' && StartsWith(s[w + 1..], x)
    ensures StartsWith(s, s[..w] + ("\"" + x))
  {
    StartsWithPrepend("\"", s[w + 1..], x);
    assert s[w..] == "\"" + s[w + 1..];
    StartsWithPrepend(s[..w], s[w..], "\"" + x);
    assert s == s[..w] + s[w..];
  }

  /** After `#inline_c_rs `: the name up to the first `:`, then what `MatchTail` accepts. */
  function MatchAfterMarker(rest: string): (r: Option<Directive>)
    ensures r.Some? ==> r.value.WellFormed()
    ensures r.Some? ==> StartsWith(rest, r.value.Body(Terminator(r.value.crlf)))
  {
    match IndexOf(rest, ':')
    case None => None
    case Some(colon) =>
      if colon == 0 then None
      else
        match MatchTail(rest[colon + 1..])
        case None => None
        case Some((spacing, value, crlf)) =>
          NameThenColon(rest, colon, spacing + ("\"" + (value + ("\"" + Terminator(crlf)))));
          Some(Directive(rest[..colon], spacing, value, crlf))
  }

  lemma NameThenColon(s: string, colon: nat, x: string)
    requires colon < |s| && s[colon] == ':' && StartsWith(s[colon + 1..], x)
    ensures StartsWith(s, s[..colon] + (":" + x))
  {
    StartsWithPrepend(":", s[colon + 1..], x);
    assert s[colon..] == ":" + s[colon + 1..];
    StartsWithPrepend(s[..colon], s[colon..], ":" + x);
    assert s == s[..colon] + s[colon..];
  }

  /**
   * The match of the directive pattern that starts at the beginning of `s`, if
   * there is one: the literal `#inline_c_rs ` first, then the rest of the pattern.
   */
  function MatchPrefix(s: string): (r: Option<Directive>)
    ensures r.Some? ==> r.value.WellFormed() && StartsWith(s, r.value.Render())
  {
    if !StartsWith(s, Marker) then None
    else
      var r := MatchAfterMarker(s[|Marker|..]);
      if r.None? then None
      else
        StartsWithPrepend(Marker, s[|Marker|..], r.value.Body(Terminator(r.value.crlf)));
        assert s == Marker + s[|Marker|..];
        r
  }

  lemma MatchValueComplete(value: string, t: string)
    requires value != [] && '"' !in value
    ensures !StartsWith(t, "\n") && !StartsWith(t, "\r\n") ==> MatchValue(value + ("\"" + t)) == None
    ensures forall crlf: bool, u: string :: t == Terminator(crlf) + u ==> MatchValue(value + ("\"" + t)) == Some((value, crlf))
  {
    var body := value + ("\"" + t);
    IndexOfFirst(value, '"', t);
    assert value + ['"'] + t == body;
    assert body[..|value|] == value;
    assert body[|value| + 1..] == t;
  }

  lemma MatchTailComplete(spacing: string, body: string)
    requires forall k :: 0 <= k < |spacing| ==> IsWhitespace(spacing[k])
    ensures MatchTail(spacing + ("\"" + body)) ==
      match MatchValue(body) case None => None case Some((value, crlf)) => Some((spacing, value, crlf))
  {
    var afterColon := spacing + ("\"" + body);
    LeadingOf(spacing, "\"" + body, IsWhitespace);
    assert afterColon[..|spacing|] == spacing;
    assert afterColon[|spacing|..] == "\"" + body;
  }

  lemma MatchPrefixOf(d: Directive, t: string)
    requires d.WellFormed()
    ensures MatchPrefix(d.Open(t)) ==
      match MatchValue(d.value + ("\"" + t))
      case None => None
      case Some((value, crlf)) => Some(Directive(d.rawName, d.spacing, value, crlf))
  {
    var s := d.Open(t);
    var afterColon := d.spacing + ("\"" + (d.value + ("\"" + t)));
    var rest := d.Body(t);
    assert s == Marker + rest;
    assert s[..|Marker|] == Marker;
    assert s[|Marker|..] == rest;
    IndexOfFirst(d.rawName, ':', afterColon);
    assert d.rawName + [':'] + afterColon == rest;
    assert rest[..|d.rawName|] == d.rawName;
    assert rest[|d.rawName| + 1..] == afterColon;
    MatchTailComplete(d.spacing, d.value + ("\"" + t));
  }

  /** Every well-formed directive is recognised wherever its text stands, whatever follows it. */
  lemma MatchPrefixComplete(d: Directive, t: string)
    requires d.WellFormed()
    ensures MatchPrefix(d.Render() + t) == Some(d)
  {
    RenderAppend(d, t);
    MatchPrefixOf(d, Terminator(d.crlf) + t);
    MatchValueComplete(d.value, Terminator(d.crlf) + t);
  }

  /** A closing quote not followed by `\n` or `\r\n` is no match: the terminator is part of the pattern. */
  lemma MatchNeedsTerminator(d: Directive, t: string)
    requires d.WellFormed()
    requires !StartsWith(t, "\n") && !StartsWith(t, "\r\n")
    ensures MatchPrefix(d.Open(t)) == None
  {
    MatchPrefixOf(d, t);
    MatchValueComplete(d.value, t);
  }

  /** The scan of a program: characters kept, and directive matches. */
  datatype Piece = Kept(c: char) | Matched(d: Directive)

  /** The text a piece stands for. */
  function PieceText(p: Piece): string {
    match p
    case Kept(c) => [c]
    case Matched(d) => d.Render()
  }

  /** The piece the scan takes at the start of a non-empty text: a match if one starts there, else one character. */
  function Step(s: string): (p: Piece)
    requires s != []
    ensures StartsWith(s, PieceText(p)) && PieceText(p) != []
    ensures p.Matched? ==> p.d.WellFormed()
  {
    match MatchPrefix(s)
    case Some(d) => Matched(d)
    case None => Kept(s[0])
  }

  /** Leftmost, non-overlapping scan for directives, as `captures_iter` and `replace_all` do it. */
  function Scan(s: string): seq<Piece>
    decreases |s|
  {
    if s == [] then []
    else
      var p := Step(s);
      [p] + Scan(s[|PieceText(p)|..])
  }

  /** The text the pieces stand for. */
  function Source(ps: seq<Piece>): string {
    if ps == [] then [] else PieceText(ps[0]) + Source(ps[1..])
  }

  /** The text with every matched span left out. */
  function KeptText(ps: seq<Piece>): string {
    if ps == [] then []
    else (if ps[0].Kept? then [ps[0].c] else []) + KeptText(ps[1..])
  }

  /** The matched directives, in program order. */
  function MatchedDirectives(ps: seq<Piece>): seq<Directive> {
    if ps == [] then []
    else (if ps[0].Matched? then [ps[0].d] else []) + MatchedDirectives(ps[1..])
  }

  /** `REGEX.replace_all(program, "")`. */
  function Strip(program: string): string {
    KeptText(Scan(program))
  }

  /** `REGEX.captures_iter(program)`. */
  function Captures(program: string): seq<Directive> {
    MatchedDirectives(Scan(program))
  }

  lemma PiecesCons(p: Piece, ps: seq<Piece>)
    ensures Source([p] + ps) == PieceText(p) + Source(ps)
    ensures KeptText([p] + ps) == (if p.Kept? then [p.c] else []) + KeptText(ps)
    ensures MatchedDirectives([p] + ps) == (if p.Matched? then [p.d] else []) + MatchedDirectives(ps)
  {
    assert ([p] + ps)[0] == p;
    assert ([p] + ps)[1..] == ps;
  }

  /** One step of the scan. */
  lemma ScanStep(s: string)
    requires s != []
    ensures Scan(s) == [Step(s)] + Scan(s[|PieceText(Step(s))|..])
  {
  }

  /** The scan loses and invents nothing: its pieces spell out the program exactly. */
  lemma {:induction false} ScanCovers(s: string)
    ensures Source(Scan(s)) == s
    decreases |s|
  {
    if s != [] {
      var p := Step(s);
      var rest := s[|PieceText(p)|..];
      ScanStep(s);
      ScanCovers(rest);
      CoversStep(s, p, Scan(rest));
    }
  }

  /** A piece at the front of `s` followed by pieces that spell out the remainder spell out `s`. */
  lemma CoversStep(s: string, p: Piece, ps: seq<Piece>)
    requires StartsWith(s, PieceText(p)) && Source(ps) == s[|PieceText(p)|..]
    ensures Source([p] + ps) == s
  {
    PiecesCons(p, ps);
    PrefixThenRest(s, PieceText(p), Source(ps));
  }

  /** Every captured directive has the shape the pattern demands: a non-empty value without `"`, a name without `:`. */
  lemma {:induction false} CapturesWellFormed(s: string)
    ensures forall d :: d in Captures(s) ==> d.WellFormed()
    decreases |s|
  {
    if s != [] {
      var p := Step(s);
      var n := |PieceText(p)|;
      ScanStep(s);
      PiecesCons(p, Scan(s[n..]));
      CapturesWellFormed(s[n..]);
    }
  }

  /** A directive's whole span, terminator included, goes to the captures and none of it to the stripped text. */
  lemma ScanDirective(d: Directive, t: string)
    requires d.WellFormed()
    ensures Captures(d.Render() + t) == [d] + Captures(t)
    ensures Strip(d.Render() + t) == Strip(t)
  {
    var s := d.Render() + t;
    MatchPrefixComplete(d, t);
    assert Step(s) == Matched(d);
    assert s[|d.Render()|..] == t;
    ScanStep(s);
    PiecesCons(Matched(d), Scan(t));
  }

  /** A position where the pattern does not match contributes its character to the stripped text and nothing to the captures. */
  lemma KeptStep(s: string)
    requires s != [] && MatchPrefix(s).None?
    ensures Strip(s) == [s[0]] + Strip(s[1..])
    ensures Captures(s) == Captures(s[1..])
  {
    assert Step(s) == Kept(s[0]);
    ScanStep(s);
    PiecesCons(Kept(s[0]), Scan(s[1..]));
  }

  /** The pattern cannot match where there is no `#`. */
  lemma NoMatchWithoutHash(s: string)
    requires s != [] && s[0] != '#'
    ensures MatchPrefix(s).None?
  {
    assert Marker[0] == '#';
  }

  /** Text without a `#` holds no directive and is kept as it is. */
  lemma {:induction false} ScanPlainText(a: string, t: string)
    requires '#' !in a
    ensures Captures(a + t) == Captures(t)
    ensures Strip(a + t) == a + Strip(t)
    decreases |a|
  {
    if a != [] {
      var s := a + t;
      assert s[0] == a[0];
      NoMatchWithoutHash(s);
      KeptStep(s);
      assert s[1..] == a[1..] + t;
      ScanPlainText(a[1..], t);
      assert a == [a[0]] + a[1..];
    } else {
      assert a + t == t;
    }
  }

  /** The pattern is not anchored to the start of a line: a directive is found after any `#`-free text. */
  lemma DirectiveAnywhere(a: string, d: Directive, t: string)
    requires '#' !in a && d.WellFormed()
    ensures Captures(a + d.Render() + t) == [d] + Captures(t)
    ensures Strip(a + d.Render() + t) == a + Strip(t)
  {
    assert a + d.Render() + t == a + (d.Render() + t);
    ScanPlainText(a, d.Render() + t);
    ScanDirective(d, t);
  }

  /** The pattern matches at no position of `s`: not at its start, and nowhere after it. */
  predicate MatchesNowhere(s: string)
    decreases |s|
  {
    MatchPrefix(s).None? && (s != [] ==> MatchesNowhere(s[1..]))
  }

  /** `MatchesNowhere` is the same as no match at any position. */
  lemma {:induction false} MatchesNowhereAt(s: string, i: nat)
    requires MatchesNowhere(s) && i <= |s|
    ensures MatchPrefix(s[i..]).None?
    decreases i
  {
    if i == 0 {
      assert s[0..] == s;
    } else {
      MatchesNowhereAt(s[1..], i - 1);
      assert s[1..][i - 1..] == s[i..];
    }
  }

  /** A program in which the pattern matches nowhere is left unchanged and yields no directive. */
  lemma {:induction false} NoMatchNoChange(s: string)
    requires MatchesNowhere(s)
    ensures Strip(s) == s
    ensures Captures(s) == []
    decreases |s|
  {
    if s != [] {
      KeptStep(s);
      NoMatchNoChange(s[1..]);
      PrefixThenRest(s, [s[0]], s[1..]);
    }
  }

  /** The map seeded from the environment: `INLINE_C_RS_<NAME>` entries, prefix stripped, later entries winning. */
  function EnvSeed(environ: seq<(string, string)>): map<string, string> {
    if environ == [] then map[]
    else
      var (name, value) := environ[|environ| - 1];
      var m := EnvSeed(environ[..|environ| - 1]);
      if StartsWith(name, EnvVarPrefix) then m[name[|EnvVarPrefix|..] := value] else m
  }

  /** `HashMap::insert` of each entry in turn: later entries overwrite earlier ones. */
  function Insert(m: map<string, string>, entries: seq<(string, string)>): map<string, string> {
    if entries == [] then m
    else
      var (k, v) := entries[|entries| - 1];
      Insert(m, entries[..|entries| - 1])[k := v]
  }

  /** The map entry each captured directive inserts: trimmed name, value verbatim. */
  function DirectiveEntries(ds: seq<Directive>): (es: seq<(string, string)>)
    ensures |es| == |ds|
    ensures forall i :: 0 <= i < |ds| ==> es[i] == (ds[i].Name(), ds[i].value)
  {
    seq(|ds|, i requires 0 <= i < |ds| => (ds[i].Name(), ds[i].value))
  }

  /** The configuration map `collect_environment_variables` returns. */
  function Configuration(environ: seq<(string, string)>, program: string): map<string, string> {
    Insert(EnvSeed(environ), DirectiveEntries(Captures(program)))
  }

  /** The first loop of `collect_environment_variables`: copy the prefixed environment entries, prefix stripped. */
  method SeedFromEnvironment(environ: seq<(string, string)>) returns (variables: map<string, string>)
    ensures variables == EnvSeed(environ)
  {
    variables := map[];
    var i := 0;
    while i < |environ|
      invariant 0 <= i <= |environ|
      invariant variables == EnvSeed(environ[..i])
    {
      var (name, value) := environ[i];
      assert environ[..i + 1][..i] == environ[..i];
      assert environ[..i + 1][i] == (name, value);
      if StartsWith(name, EnvVarPrefix) {
        variables := variables[name[|EnvVarPrefix|..] := value];
      }
      i := i + 1;
    }
    assert environ[..i] == environ;
  }

  /** The second loop: insert each captured directive, trimmed name to value, in program order. */
  method InsertDirectives(seed: map<string, string>, captures: seq<Directive>) returns (variables: map<string, string>)
    ensures variables == Insert(seed, DirectiveEntries(captures))
  {
    variables := seed;
    ghost var entries := DirectiveEntries(captures);
    var j := 0;
    while j < |captures|
      invariant 0 <= j <= |captures|
      invariant variables == Insert(seed, entries[..j])
    {
      var name, value := captures[j].Name(), captures[j].value;
      InsertSnoc(seed, entries, j);
      variables := variables[name := value];
      j := j + 1;
    }
    assert entries[..j] == entries;
  }

  /** Inserting one more entry of a list updates the map by that entry. */
  lemma InsertSnoc(m: map<string, string>, entries: seq<(string, string)>, j: nat)
    requires j < |entries|
    ensures Insert(m, entries[..j + 1]) == Insert(m, entries[..j])[entries[j].0 := entries[j].1]
  {
    assert entries[..j + 1][..j] == entries[..j];
  }

  /**
   * `collect_environment_variables`, with the process environment passed in as
   * `environ` (in `env::vars()` order): the program with every directive removed,
   * and the environment's prefixed entries overwritten by the program's directives.
   */
  method CollectEnvironmentVariables(program: string, environ: seq<(string, string)>)
    returns (stripped: string, variables: map<string, string>)
    ensures stripped == Strip(program)
    ensures variables == Configuration(environ, program)
  {
    var seed := SeedFromEnvironment(environ);
    variables := InsertDirectives(seed, Captures(program));
    stripped := Strip(program);
  }

  lemma {:induction false} EnvSeedKeys(environ: seq<(string, string)>, k: string)
    ensures k in EnvSeed(environ) <==> exists j :: 0 <= j < |environ| && environ[j].0 == EnvVarPrefix + k
    decreases |environ|
  {
    if environ != [] {
      var n := |environ| - 1;
      var init := environ[..n];
      EnvSeedKeys(init, k);
      var name := environ[n].0;
      assert StartsWith(name, EnvVarPrefix) && name[|EnvVarPrefix|..] == k <==> name == EnvVarPrefix + k by {
        if name == EnvVarPrefix + k {
          assert name[..|EnvVarPrefix|] == EnvVarPrefix;
        }
        if StartsWith(name, EnvVarPrefix) {
          assert name == name[..|EnvVarPrefix|] + name[|EnvVarPrefix|..];
        }
      }
      if exists j :: 0 <= j < |init| && init[j].0 == EnvVarPrefix + k {
        var j :| 0 <= j < |init| && init[j].0 == EnvVarPrefix + k;
        assert environ[j] == init[j];
      }
      if exists j :: 0 <= j < |environ| && environ[j].0 == EnvVarPrefix + k {
        var j :| 0 <= j < |environ| && environ[j].0 == EnvVarPrefix + k;
        if j < n {
          assert init[j] == environ[j];
        }
      }
    }
  }

  /** The value of a seeded key comes from the last environment entry that carries it. */
  lemma {:induction false} EnvSeedValue(environ: seq<(string, string)>, j: nat, k: string)
    requires j < |environ| && environ[j].0 == EnvVarPrefix + k
    requires forall j' :: j < j' < |environ| ==> environ[j'].0 != EnvVarPrefix + k
    ensures k in EnvSeed(environ) && EnvSeed(environ)[k] == environ[j].1
    decreases |environ|
  {
    var n := |environ| - 1;
    var name := environ[n].0;
    var init := environ[..n];
    if j < n {
      assert init[j] == environ[j];
      EnvSeedValue(init, j, k);
      assert StartsWith(name, EnvVarPrefix) ==> name[|EnvVarPrefix|..] != k by {
        if StartsWith(name, EnvVarPrefix) {
          assert name == name[..|EnvVarPrefix|] + name[|EnvVarPrefix|..];
        }
      }
    } else {
      assert (EnvVarPrefix + k)[..|EnvVarPrefix|] == EnvVarPrefix;
      assert (EnvVarPrefix + k)[|EnvVarPrefix|..] == k;
    }
  }

  lemma {:induction false} InsertKeys(m: map<string, string>, es: seq<(string, string)>, k: string)
    ensures k in Insert(m, es) <==> k in m || exists j :: 0 <= j < |es| && es[j].0 == k
    decreases |es|
  {
    if es != [] {
      var n := |es| - 1;
      var init := es[..n];
      InsertKeys(m, init, k);
      if exists j :: 0 <= j < |init| && init[j].0 == k {
        var j :| 0 <= j < |init| && init[j].0 == k;
        assert es[j] == init[j];
      }
      if exists j :: 0 <= j < |es| && es[j].0 == k {
        var j :| 0 <= j < |es| && es[j].0 == k;
        if j < n {
          assert init[j] == es[j];
        }
      }
    }
  }

  /** A key takes the value of the last entry that carries it, whatever the map held before. */
  lemma {:induction false} InsertLastWins(m: map<string, string>, es: seq<(string, string)>, j: nat)
    requires j < |es|
    requires forall j' :: j < j' < |es| ==> es[j'].0 != es[j].0
    ensures es[j].0 in Insert(m, es) && Insert(m, es)[es[j].0] == es[j].1
    decreases |es|
  {
    var n := |es| - 1;
    if j < n {
      var init := es[..n];
      assert init[j] == es[j];
      InsertLastWins(m, init, j);
    }
  }

  /** A key no entry carries keeps the value it had. */
  lemma {:induction false} InsertKeeps(m: map<string, string>, es: seq<(string, string)>, k: string)
    requires forall j :: 0 <= j < |es| ==> es[j].0 != k
    ensures k in Insert(m, es) <==> k in m
    ensures k in m ==> Insert(m, es)[k] == m[k]
    decreases |es|
  {
    if es != [] {
      var n := |es| - 1;
      var init := es[..n];
      forall j | 0 <= j < |init| ensures init[j].0 != k {
        assert init[j] == es[j];
      }
      InsertKeeps(m, init, k);
    }
  }

  lemma EntryNames(ds: seq<Directive>, k: string)
    ensures (exists j :: 0 <= j < |DirectiveEntries(ds)| && DirectiveEntries(ds)[j].0 == k) <==>
            (exists d :: d in ds && d.Name() == k)
  {
    var es := DirectiveEntries(ds);
    if exists d :: d in ds && d.Name() == k {
      var d :| d in ds && d.Name() == k;
      var j :| 0 <= j < |ds| && ds[j] == d;
      assert es[j].0 == k;
    }
  }

  lemma EnvNames(environ: seq<(string, string)>, name: string)
    ensures (exists j :: 0 <= j < |environ| && environ[j].0 == name) <==> (exists e :: e in environ && e.0 == name)
  {
    if exists e :: e in environ && e.0 == name {
      var e :| e in environ && e.0 == name;
      var j :| 0 <= j < |environ| && environ[j] == e;
    }
  }

  /**
   * The keys of the configuration: names set by a directive of the program, and
   * names `NAME` for which the environment holds `INLINE_C_RS_NAME`; no other.
   */
  lemma ConfigurationKeys(environ: seq<(string, string)>, program: string, k: string)
    ensures k in Configuration(environ, program) <==>
      || (exists d :: d in Captures(program) && d.Name() == k)
      || (exists e :: e in environ && e.0 == EnvVarPrefix + k)
  {
    InsertKeys(EnvSeed(environ), DirectiveEntries(Captures(program)), k);
    EntryNames(Captures(program), k);
    EnvSeedKeys(environ, k);
    EnvNames(environ, EnvVarPrefix + k);
  }

  /** A directive overrides the environment, and a later directive overrides an earlier one. */
  lemma DirectiveWins(environ: seq<(string, string)>, program: string, j: nat)
    requires j < |Captures(program)|
    requires forall j' :: j < j' < |Captures(program)| ==> Captures(program)[j'].Name() != Captures(program)[j].Name()
    ensures Captures(program)[j].Name() in Configuration(environ, program)
    ensures Configuration(environ, program)[Captures(program)[j].Name()] == Captures(program)[j].value
  {
    var es := DirectiveEntries(Captures(program));
    InsertLastWins(EnvSeed(environ), es, j);
  }

  /** A name no directive sets keeps the value of the last environment entry carrying it. */
  lemma EnvironmentValue(environ: seq<(string, string)>, program: string, j: nat, k: string)
    requires j < |environ| && environ[j].0 == EnvVarPrefix + k
    requires forall j' :: j < j' < |environ| ==> environ[j'].0 != EnvVarPrefix + k
    requires forall d :: d in Captures(program) ==> d.Name() != k
    ensures k in Configuration(environ, program) && Configuration(environ, program)[k] == environ[j].1
  {
    var ds := Captures(program);
    var es := DirectiveEntries(ds);
    forall i | 0 <= i < |es| ensures es[i].0 != k {
      assert ds[i] in ds;
    }
    EnvSeedValue(environ, j, k);
    InsertKeeps(EnvSeed(environ), es, k);
  }

  /** A program without directives: the text is unchanged and the map is the environment's alone. */
  lemma NoDirectivesNoChange(environ: seq<(string, string)>, program: string)
    requires MatchesNowhere(program)
    ensures Strip(program) == program
    ensures Configuration(environ, program) == EnvSeed(environ)
  {
    NoMatchNoChange(program);
  }
}
