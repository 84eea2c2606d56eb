/**
 * The two `std::path` operations the pipeline applies to paths, on plain
 * strings with Windows separators: `Path::join` and `PathBuf::set_extension`.
 */
module Paths {
  import opened Wrappers
  import opened Text

  predicate IsSeparator(c: char) {
    c == '\\' || c == '/'
  }

  predicate NoSeparator(s: string) {
    forall k :: 0 <= k < |s| ==> !IsSeparator(s[k])
  }

  /** A path that replaces the base when joined: rooted at a separator, or with a drive prefix such as `C:`. */
  predicate IsAbsolute(p: string) {
    (p != [] && IsSeparator(p[0])) || (|p| >= 2 && p[1] == ':')
  }

  /** `Path::new(dir).join(name)`, shown with `display()`. */
  function Join(dir: string, name: string): (r: string)
    ensures IsAbsolute(name) ==> r == name
    ensures !IsAbsolute(name) ==> StartsWith(r, dir) && EndsWith(r, name)
    ensures !IsAbsolute(name) ==> |r| == |dir| + |name| || |r| == |dir| + 1 + |name|
    ensures !IsAbsolute(name) && (dir == [] || IsSeparator(dir[|dir| - 1])) ==> r == dir + name
    ensures !IsAbsolute(name) && dir != [] && !IsSeparator(dir[|dir| - 1]) ==> r == dir + "\\" + name
  {
    if IsAbsolute(name) then name
    else if dir == [] || IsSeparator(dir[|dir| - 1]) then dir + name
    else dir + "\\" + name
  }

  /** Where the last component of `p` begins: just after its last separator. */
  function FileNameStart(p: string): (i: nat)
    ensures i <= |p|
    ensures NoSeparator(p[i..])
    ensures i > 0 ==> IsSeparator(p[i - 1])
  {
    if p == [] then 0
    else if IsSeparator(p[|p| - 1]) then |p|
    else
      var i := FileNameStart(p[..|p| - 1]);
      assert p[i..] == p[..|p| - 1][i..] + [p[|p| - 1]];
      i
  }

  /** The last component of `p`. */
  function FileName(p: string): string {
    p[FileNameStart(p)..]
  }

  /** Text without separators after a separator-terminated prefix is the whole last component. */
  lemma {:induction false} FileNameStartAfter(a: string, b: string)
    requires a == [] || IsSeparator(a[|a| - 1])
    requires NoSeparator(b)
    ensures FileNameStart(a + b) == |a|
    decreases |b|
  {
    if b == [] {
      assert a + b == a;
    } else {
      var p := a + b;
      assert p[|p| - 1] == b[|b| - 1];
      assert p[..|p| - 1] == a + b[..|b| - 1];
      FileNameStartAfter(a, b[..|b| - 1]);
    }
  }

  /** How long the stem of a file name is: up to its last `.`, unless that dot is its first character. */
  function StemLength(name: string): (n: nat)
    requires name != []
    ensures 0 < n <= |name|
    ensures n < |name| ==> name[n] == '.' && '.' !in name[n + 1..]
  {
    match LastIndexOf(name, '.')
    case None => |name|
    case Some(k) => if k == 0 then |name| else k
  }

  /** The last component `name` after `dir` given the extension `ext`; `..` and the empty name have none to change. */
  function WithExtension(dir: string, name: string, ext: string): string {
    if name == [] || name == ".." then dir + name
    else dir + name[..StemLength(name)] + (if ext == [] then [] else "." + ext)
  }

  /**
   * `PathBuf::set_extension(ext)`: the last component loses its former extension
   * and gains `.ext`; a path without a last component is left alone.
   */
  function SetExtension(p: string, ext: string): string {
    var i := FileNameStart(p);
    WithExtension(p[..i], p[i..], ext)
  }

  /** `set_extension` on a last component `name` written after a directory. */
  lemma SetExtensionOf(dir: string, name: string, ext: string)
    requires dir == [] || IsSeparator(dir[|dir| - 1])
    requires NoSeparator(name)
    ensures SetExtension(dir + name, ext) == WithExtension(dir, name, ext)
  {
    var p := dir + name;
    FileNameStartAfter(dir, name);
    assert p[..|dir|] == dir;
    assert p[|dir|..] == name;
  }

  /** Setting an extension keeps the rest of the path. */
  lemma SetExtensionKeepsPath(p: string, ext: string)
    ensures StartsWith(SetExtension(p, ext), p[..FileNameStart(p)])
  {
  }

  /** The stem of `stem.former` is `stem` when `former` has no dot. */
  lemma StemLengthOf(stem: string, former: string)
    requires stem != [] && '.' !in former
    ensures StemLength(stem + "." + former) == |stem|
  {
    LastIndexOfLast(stem, '.', former);
    assert stem + ['.'] + former == stem + "." + former;
  }

  lemma NoSeparatorConcat(a: string, b: string)
    requires NoSeparator(a) && NoSeparator(b)
    ensures NoSeparator(a + b)
  {
    assert forall k :: 0 <= k < |a + b| ==> (a + b)[k] == (if k < |a| then a[k] else b[k - |a|]);
  }

  lemma NoSeparatorPrefix(s: string, n: nat)
    requires n <= |s| && NoSeparator(s)
    ensures NoSeparator(s[..n])
  {
    assert forall k :: 0 <= k < n ==> s[..n][k] == s[k];
  }

  /** `stem.former` with a non-empty `former` is a name `set_extension` works on. */
  lemma DottedName(stem: string, former: string)
    requires stem != [] && NoSeparator(stem) && NoSeparator(former) && former != []
    ensures var name := stem + "." + former; name != [] && name != ".." && NoSeparator(name)
  {
    NoSeparatorConcat(stem, ".");
    NoSeparatorConcat(stem + ".", former);
  }

  /** A file name `stem.former` in a directory becomes `stem.ext` in the same directory. */
  lemma SetExtensionReplaces(dir: string, stem: string, former: string, ext: string)
    requires dir == [] || IsSeparator(dir[|dir| - 1])
    requires stem != [] && NoSeparator(stem) && former != [] && NoSeparator(former) && '.' !in former && ext != []
    ensures SetExtension(dir + stem + "." + former, ext) == dir + stem + "." + ext
  {
    var name := stem + "." + former;
    calc {
      SetExtension(dir + stem + "." + former, ext);
      { assert dir + stem + "." + former == dir + name; }
      SetExtension(dir + name, ext);
      { DottedName(stem, former); SetExtensionOf(dir, name, ext); }
      WithExtension(dir, name, ext);
      { DottedName(stem, former); StemLengthOf(stem, former); }
      dir + name[..|stem|] + ("." + ext);
      { assert name[..|stem|] == stem; }
      dir + stem + "." + ext;
    }
  }

  /** Setting the same extension twice is setting it once. */
  lemma SetExtensionIdempotent(p: string, ext: string)
    requires ext != [] && NoSeparator(ext) && '.' !in ext
    ensures SetExtension(SetExtension(p, ext), ext) == SetExtension(p, ext)
  {
    var i := FileNameStart(p);
    var dir, name := p[..i], p[i..];
    if name != [] && name != ".." {
      var n := StemLength(name);
      var stem := name[..n];
      calc {
        SetExtension(SetExtension(p, ext), ext);
        SetExtension(dir + stem + ("." + ext), ext);
        { assert dir + stem + ("." + ext) == dir + stem + "." + ext;
          NoSeparatorPrefix(name, n);
          SetExtensionReplaces(dir, stem, ext, ext); }
        dir + stem + "." + ext;
        dir + stem + ("." + ext);
        SetExtension(p, ext);
      }
    } else {
      assert p == dir + name;
    }
  }

  /** A relative file name joined onto a directory is the last component of the result. */
  lemma JoinFileName(dir: string, name: string)
    requires name != [] && NoSeparator(name) && !IsAbsolute(name)
    ensures FileName(Join(dir, name)) == name
  {
    if dir == [] || IsSeparator(dir[|dir| - 1]) {
      FileNameStartAfter(dir, name);
    } else {
      FileNameStartAfter(dir + "\\", name);
      assert dir + "\\" + name == (dir + "\\") + name;
    }
  }
}
