/**
 * `Assert` and its `Drop`: the handle `run` returns, which deletes the files the
 * run created once it goes out of scope.
 */
module Assertion {
  import opened Wrappers
  import Process

  /** The files on disk, as the cleanup sees them. */
  class FileSystem {
    var files: set<string>
    /** The paths whose removal fails even though they exist (a directory, a file without permission). */
    const locked: set<string>

    constructor (files: set<string>, locked: set<string>)
      ensures this.files == files && this.locked == locked
    {
      this.files := files;
      this.locked := locked;
    }

    /** `fs::metadata(path).is_ok()`. */
    predicate Exists(path: string)
      reads this
    {
      path in files
    }

    /** `fs::remove_file(path)`: it fails when the path is missing or locked, and then removes nothing. */
    method RemoveFile(path: string) returns (ok: bool)
      modifies this
      ensures ok <==> path in old(files) && path !in locked
      ensures files == if ok then old(files) - {path} else old(files)
    {
      ok := path in files && path !in locked;
      if ok {
        files := files - {path};
      }
    }
  }

  /** The state `drop` leaves behind: the files still there, and the path whose removal panicked, if any. */
  datatype Cleaned = Cleaned(remaining: set<string>, failed: Option<string>)

  /** The cleanup loop over `paths`: skip what does not exist, remove what does, stop at the first removal that fails. */
  function Cleanup(files: set<string>, locked: set<string>, paths: seq<string>): Cleaned
    decreases |paths|
  {
    if paths == [] then Cleaned(files, None)
    else if paths[0] !in files then Cleanup(files, locked, paths[1..])
    else if paths[0] in locked then Cleaned(files, Some(paths[0]))
    else Cleanup(files - {paths[0]}, locked, paths[1..])
  }

  /** Paths that are not listed are left as they were, whether or not the cleanup panics. */
  lemma {:induction false} CleanupKeepsOthers(files: set<string>, locked: set<string>, paths: seq<string>, p: string)
    requires p !in paths
    ensures p in Cleanup(files, locked, paths).remaining <==> p in files
    decreases |paths|
  {
    if paths != [] {
      assert p != paths[0];
      assert p !in paths[1..];
      CleanupKeepsOthers(files, locked, paths[1..], p);
      CleanupKeepsOthers(files - {paths[0]}, locked, paths[1..], p);
    }
  }

  /** A cleanup that does not panic leaves none of the listed paths and every other path as it was. */
  lemma {:induction false} CleanupRemovesListed(files: set<string>, locked: set<string>, paths: seq<string>, p: string)
    requires Cleanup(files, locked, paths).failed.None?
    ensures p in Cleanup(files, locked, paths).remaining <==> p in files && p !in paths
    decreases |paths|
  {
    if paths != [] {
      var q := paths[0];
      assert p in paths <==> p == q || p in paths[1..];
      if q !in files {
        CleanupRemovesListed(files, locked, paths[1..], p);
      } else {
        CleanupRemovesListed(files - {q}, locked, paths[1..], p);
      }
    }
  }

  /** A path that exists and cannot be removed. */
  predicate Stuck(files: set<string>, locked: set<string>, p: string) {
    p in files && p in locked
  }

  /**
   * The cleanup panics exactly when a listed path exists and cannot be removed,
   * and then at the first such path.
   */
  lemma {:induction false} CleanupFails(files: set<string>, locked: set<string>, paths: seq<string>)
    ensures var c := Cleanup(files, locked, paths);
      c.failed.Some? <==> exists i :: 0 <= i < |paths| && Stuck(files, locked, paths[i])
    ensures var c := Cleanup(files, locked, paths);
      c.failed.Some? ==> exists i :: (0 <= i < |paths| && paths[i] == c.failed.value &&
        Stuck(files, locked, paths[i]) && forall j :: 0 <= j < i ==> !Stuck(files, locked, paths[j]))
    decreases |paths|
  {
    if paths != [] {
      var q, rest := paths[0], paths[1..];
      if Stuck(files, locked, q) {
        assert Stuck(files, locked, paths[0]);
      } else {
        var after := if q in files then files - {q} else files;
        assert Cleanup(files, locked, paths) == Cleanup(after, locked, rest);
        CleanupFails(after, locked, rest);
        SameStuck(files, after, locked, q);
        ShiftIndex(files, locked, paths);
        var c := Cleanup(after, locked, rest);
        if c.failed.Some? {
          var k :| 0 <= k < |rest| && rest[k] == c.failed.value &&
            Stuck(after, locked, rest[k]) && forall j :: 0 <= j < k ==> !Stuck(after, locked, rest[j]);
          assert paths[k + 1] == rest[k];
          forall j | 0 <= j < k + 1
            ensures !Stuck(files, locked, paths[j])
          {
            if j > 0 {
              assert paths[j] == rest[j - 1];
            }
          }
        }
      }
    }
  }

  /** Removing a path that is not stuck leaves every path as stuck as it was. */
  lemma SameStuck(files: set<string>, after: set<string>, locked: set<string>, q: string)
    requires !Stuck(files, locked, q)
    requires after == files || after == files - {q}
    ensures forall p :: Stuck(after, locked, p) <==> Stuck(files, locked, p)
  {
  }

  /** With a first path that is not stuck, some path is stuck exactly when some path of the tail is. */
  lemma ShiftIndex(files: set<string>, locked: set<string>, paths: seq<string>)
    requires paths != [] && !Stuck(files, locked, paths[0])
    ensures (exists i :: 0 <= i < |paths| && Stuck(files, locked, paths[i])) <==>
      (exists i :: 0 <= i < |paths| - 1 && Stuck(files, locked, paths[1..][i]))
  {
    if exists i :: 0 <= i < |paths| && Stuck(files, locked, paths[i]) {
      var i :| 0 <= i < |paths| && Stuck(files, locked, paths[i]);
      assert paths[1..][i - 1] == paths[i];
    }
    if exists i :: 0 <= i < |paths| - 1 && Stuck(files, locked, paths[1..][i]) {
      var i :| 0 <= i < |paths| - 1 && Stuck(files, locked, paths[1..][i]);
      assert paths[i + 1] == paths[1..][i];
    }
  }

  /** Running the cleanup again after it succeeded changes nothing and does not panic. */
  lemma CleanupIdempotent(files: set<string>, locked: set<string>, paths: seq<string>)
    requires Cleanup(files, locked, paths).failed.None?
    ensures var c := Cleanup(files, locked, paths); Cleanup(c.remaining, locked, paths) == c
  {
    var c := Cleanup(files, locked, paths);
    forall p | p in paths
      ensures p !in c.remaining
    {
      CleanupRemovesListed(files, locked, paths, p);
    }
    CleanupAbsent(c.remaining, locked, paths);
  }

  /** A cleanup over paths none of which exist does nothing. */
  lemma {:induction false} CleanupAbsent(files: set<string>, locked: set<string>, paths: seq<string>)
    requires forall p :: p in paths ==> p !in files
    ensures Cleanup(files, locked, paths) == Cleaned(files, None)
    decreases |paths|
  {
    if paths != [] {
      assert paths[0] in paths;
      assert forall p :: p in paths[1..] ==> p in paths;
      CleanupAbsent(files, locked, paths[1..]);
    }
  }

  /** `Assert`: the command of a run and the files to delete when it is dropped. */
  class Assert {
    const command: Process.Command
    var filesToRemove: Option<seq<string>>

    constructor (command: Process.Command, filesToRemove: Option<seq<string>>)
      ensures this.command == command && this.filesToRemove == filesToRemove
    {
      this.command := command;
      this.filesToRemove := filesToRemove;
    }

    /**
     * `Drop for Assert`: each listed path that exists is removed, in order; the
     * first removal that fails panics, and `panic` names its path.
     */
    method Drop(fs: FileSystem) returns (panic: Option<string>)
      modifies fs
      ensures filesToRemove.None? ==> fs.files == old(fs.files) && panic.None?
      ensures filesToRemove.Some? ==>
        Cleaned(fs.files, panic) == Cleanup(old(fs.files), fs.locked, filesToRemove.value)
    {
      panic := None;
      if filesToRemove.Some? {
        var paths := filesToRemove.value;
        var i := 0;
        while i < |paths|
          invariant 0 <= i <= |paths|
          invariant Cleanup(fs.files, fs.locked, paths[i..]) == Cleanup(old(fs.files), fs.locked, paths)
        {
          var file := paths[i];
          assert paths[i..][1..] == paths[i + 1..];
          if fs.Exists(file) {
            var ok := fs.RemoveFile(file);
            if !ok {
              panic := Some(file);
              return;
            }
          }
          i := i + 1;
        }
      }
    }
  }
}
