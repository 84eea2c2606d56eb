/**
 * `run`: from a program text to the compiler command, its arguments and
 * environment, and the list of files the returned `Assert` deletes.
 */
module Invocation {
  import opened Wrappers
  import opened Text
  import Directives
  import Flags
  import Includes
  import Paths
  import Process
  import Assertion

  /** The language of the program; its name is the extension of the file the program is written to. */
  datatype Language = C | Cxx {
    /** `Language::to_string`. */
    function ToString(): (s: string)
      ensures s != [] && '.' !in s
      ensures this == C <==> s == "c"
      ensures this == Cxx <==> s == "cpp"
    {
      match this
      case C => "c"
      case Cxx => "cpp"
    }
  }

  /** The panics `run` can reach once the program file is written. */
  datatype Panic =
    | NotMsvc        // the host triple does not name MSVC
    | NoIncludePath  // an `#include "..."` target but no `-I` flag
    | NoLinkPath     // no LDFLAGS token at all
    | NoDll          // a single LDFLAGS token

  /** What `cc` hands out for the compiler it found: the command's program, arguments and environment. */
  datatype Compiler = Compiler(path: string, args: seq<string>, env: map<string, string>, isLikeClang: bool)

  /** The arguments `command_add_output_file` appends: MSVC's `-Fo`/`-Fe` pair, or `-o` and the path. */
  function OutputFileArgs(output: string, msvc: bool, clang: bool): (r: seq<string>)
    ensures msvc && !clang ==> |r| == 2 && r[0] == "-Fo" + Paths.SetExtension(output, "obj") && r[1] == "-Fe" + output
    ensures !(msvc && !clang) ==> r == ["-o", output]
  {
    if msvc && !clang then ["-Fo" + Paths.SetExtension(output, "obj"), "-Fe" + output]
    else ["-o", output]
  }

  /** `command_add_output_file`. */
  method CommandAddOutputFile(command: Process.Command, output: string, msvc: bool, clang: bool)
    modifies command
    ensures command.args == old(command.args) + OutputFileArgs(output, msvc, clang)
    ensures command.envs == old(command.envs)
  {
    if msvc && !clang {
      var intermediate := Paths.SetExtension(output, "obj");
      command.Arg("-Fo" + intermediate);
      command.Arg("-Fe" + output);
    } else {
      command.Arg("-o");
      command.Arg(output);
    }
  }

  /** The link directory: the first LDFLAGS token with every `-rpath,` deleted. */
  function LinkPath(flag: string): (r: string)
    ensures |r| <= |flag|
    ensures !Contains(flag, "-rpath,") ==> r == flag
  {
    RemoveAll(flag, "-rpath,")
  }

  /** `-rpath,<dir>` names `<dir>`. */
  lemma LinkPathOfRpath(dir: string)
    requires !Contains(dir, "-rpath,")
    ensures LinkPath("-rpath," + dir) == dir
  {
    RemoveAllPrefix("-rpath,", dir);
  }

  /**
   * Only `-rpath,` occurrences go: the text in front of the leftmost one is
   * kept, and the removal goes on behind it.
   */
  lemma LinkPathFirst(a: string, b: string)
    requires forall i :: 0 <= i < |a| ==> !StartsWith((a + "-rpath," + b)[i..], "-rpath,")
    ensures LinkPath(a + "-rpath," + b) == a + LinkPath(b)
  {
    RemoveAllFirst(a, "-rpath,", b);
  }

  /** The library to link: the second LDFLAGS token, with `.lib` appended when it names a `.dll`. */
  function LibraryName(dll: string): (r: string)
    ensures StartsWith(r, dll)
    ensures r != dll <==> EndsWith(dll, ".dll")
    ensures r != dll ==> r == dll + ".lib"
  {
    if EndsWith(dll, ".dll") then dll + ".lib" else dll
  }

  /** The flags `run` reads from the configuration map, with the process environment given to `env::var`. */
  function CFlags(variables: map<string, string>, environ: seq<(string, string)>): seq<string> {
    Flags.GetEnvFlags(variables, Flags.EnvVar(environ, "CFLAGS"), "CFLAGS")
  }

  function LdFlags(variables: map<string, string>, environ: seq<(string, string)>): seq<string> {
    Flags.GetEnvFlags(variables, Flags.EnvVar(environ, "LDFLAGS"), "LDFLAGS")
  }

  /** What `run` sets up before it returns: the command's arguments and environment, and the files to delete. */
  datatype Plan = Plan(args: seq<string>, envs: map<string, string>, filesToRemove: seq<string>)

  /**
   * `run` on an MSVC host, from the CFLAGS tokens, the include targets of the
   * stripped program and the LDFLAGS tokens on, with the panics in the order the
   * code reaches them.
   */
  function Assemble(cflags: seq<string>, targets: seq<string>, ldflags: seq<string>, variables: map<string, string>,
                    input: string, output: string, compiler: Compiler): Result<Plan, Panic>
  {
    if Includes.JoinedFilepaths(Includes.IncludePaths(cflags), targets).None? then Err(NoIncludePath)
    else if |ldflags| == 0 then Err(NoLinkPath)
    else if |ldflags| == 1 then Err(NoDll)
    else Ok(Launch(cflags, ldflags[0], ldflags[1], variables, input, output, compiler))
  }

  /** The plan once both LDFLAGS tokens are there: the link directory token and the library token. */
  function Launch(cflags: seq<string>, linkFlag: string, dll: string, variables: map<string, string>,
                  input: string, output: string, compiler: Compiler): Plan
  {
    var args := compiler.args + cflags + OutputFileArgs(output, true, compiler.isLikeClang)
      + [input, "/link", LibraryName(dll), "/LIBPATH:" + LinkPath(linkFlag)];
    Plan(args, compiler.env + variables, [input, output, Paths.SetExtension(output, "obj")])
  }

  /** `run` on a program text, the process environment and the host triple. */
  function RunPlan(program: string, environ: seq<(string, string)>, host: string, input: string, output: string,
                   compiler: Compiler): Result<Plan, Panic>
  {
    if !Contains(host, "msvc") then Err(NotMsvc)
    else
      var variables := Directives.Configuration(environ, program);
      Assemble(CFlags(variables, environ), Includes.IncludeTargets(Directives.Strip(program)),
               LdFlags(variables, environ), variables, input, output, compiler)
  }

  /** Past the host check, the plan fails exactly in these cases, and names the first one the code reaches. */
  lemma AssemblePanics(cflags: seq<string>, targets: seq<string>, ldflags: seq<string>, variables: map<string, string>,
                       input: string, output: string, compiler: Compiler)
    ensures var r := Assemble(cflags, targets, ldflags, variables, input, output, compiler);
      var noInclude := targets != [] && forall f :: f in cflags ==> !StartsWith(f, "-I");
      && (r == Err(NoIncludePath) <==> noInclude)
      && (r == Err(NoLinkPath) <==> !noInclude && |ldflags| == 0)
      && (r == Err(NoDll) <==> !noInclude && |ldflags| == 1)
      && (r.Ok? <==> !noInclude && |ldflags| >= 2)
  {
    var paths := Includes.IncludePaths(cflags);
    if paths != [] {
      assert paths[0] in paths;
    }
  }

  /**
   * The order of the arguments: the compiler's own, all CFLAGS tokens, the
   * output flags, the input file, `/link`, the library and `/LIBPATH:` with the
   * link directory.
   */
  lemma AssembleArguments(cflags: seq<string>, targets: seq<string>, ldflags: seq<string>, variables: map<string, string>,
                          input: string, output: string, compiler: Compiler)
    requires Assemble(cflags, targets, ldflags, variables, input, output, compiler).Ok?
    ensures var args := Assemble(cflags, targets, ldflags, variables, input, output, compiler).value.args;
      var n, m := |compiler.args|, |cflags|;
      var out := OutputFileArgs(output, true, compiler.isLikeClang);
      && |ldflags| >= 2
      && |args| == n + m + |out| + 4
      && args[..n] == compiler.args
      && args[n..n + m] == cflags
      && args[n + m..n + m + |out|] == out
      && args[|args| - 4..] == [input, "/link", LibraryName(ldflags[1]), "/LIBPATH:" + LinkPath(ldflags[0])]
  {
    var args := Assemble(cflags, targets, ldflags, variables, input, output, compiler).value.args;
    var out := OutputFileArgs(output, true, compiler.isLikeClang);
    var tail := [input, "/link", LibraryName(ldflags[1]), "/LIBPATH:" + LinkPath(ldflags[0])];
    assert args == compiler.args + cflags + out + tail;
  }

  /**
   * Every file the compiler is told to write is on the cleanup list: the
   * executable, the object file MSVC's `-Fo` names, and the program file itself.
   */
  lemma AssembleCleansOutputs(cflags: seq<string>, targets: seq<string>, ldflags: seq<string>, variables: map<string, string>,
                              input: string, output: string, compiler: Compiler)
    requires Assemble(cflags, targets, ldflags, variables, input, output, compiler).Ok?
    ensures var plan := Assemble(cflags, targets, ldflags, variables, input, output, compiler).value;
      var obj := Paths.SetExtension(output, "obj");
      && plan.filesToRemove == [input, output, obj]
      && input in plan.args
      && (compiler.isLikeClang ==> "-o" in plan.args && output in plan.args)
      && (!compiler.isLikeClang ==> "-Fo" + obj in plan.args && "-Fe" + output in plan.args)
  {
    var plan := Assemble(cflags, targets, ldflags, variables, input, output, compiler).value;
    AssembleArguments(cflags, targets, ldflags, variables, input, output, compiler);
    var n := |compiler.args| + |cflags|;
    var out := OutputFileArgs(output, true, compiler.isLikeClang);
    assert plan.args[|plan.args| - 4] == input;
    assert plan.args[n] == out[0] && plan.args[n + 1] == out[1];
  }

  /** The configuration map reaches the compiler's environment and wins over the compiler's own entries. */
  lemma AssembleEnvironment(cflags: seq<string>, targets: seq<string>, ldflags: seq<string>, variables: map<string, string>,
                            input: string, output: string, compiler: Compiler, k: string)
    requires Assemble(cflags, targets, ldflags, variables, input, output, compiler).Ok?
    ensures var envs := Assemble(cflags, targets, ldflags, variables, input, output, compiler).value.envs;
      && (k in envs <==> k in variables || k in compiler.env)
      && (k in variables ==> envs[k] == variables[k])
      && (k !in variables && k in compiler.env ==> envs[k] == compiler.env[k])
  {
  }

  /**
   * `run`: collect the directives, check the host, read the flags and the
   * include targets, then build the command and the `Assert` that cleans up
   * after it, or stop at a panic.
   */
  method Run(program: string, environ: seq<(string, string)>, host: string, input: string, output: string,
             compiler: Compiler) returns (r: Result<Assertion.Assert, Panic>)
    ensures var plan := RunPlan(program, environ, host, input, output, compiler);
      && (plan.Err? ==> r.Err? && r.error == plan.error)
      && (plan.Ok? ==> r.Ok? && fresh(r.value) && fresh(r.value.command)
                       && r.value.command.program == compiler.path
                       && r.value.command.args == plan.value.args
                       && r.value.command.envs == plan.value.envs
                       && r.value.filesToRemove == Some(plan.value.filesToRemove))
  {
    var stripped, variables := Directives.CollectEnvironmentVariables(program, environ);
    var msvc := Contains(host, "msvc");
    if !msvc {
      return Err(NotMsvc);
    }
    var cflags := Flags.GetEnvFlags(variables, Flags.EnvVar(environ, "CFLAGS"), "CFLAGS");
    var targets := Includes.IncludeTargets(stripped);
    var ldflags := Flags.GetEnvFlags(variables, Flags.EnvVar(environ, "LDFLAGS"), "LDFLAGS");
    r := Build(cflags, targets, ldflags, variables, input, output, compiler);
  }

  /**
   * The rest of `run` on an MSVC host: the include join, the LDFLAGS checks, and
   * the command filled step by step.
   */
  method Build(cflags: seq<string>, targets: seq<string>, ldflags: seq<string>, variables: map<string, string>,
               input: string, output: string, compiler: Compiler) returns (r: Result<Assertion.Assert, Panic>)
    ensures var plan := Assemble(cflags, targets, ldflags, variables, input, output, compiler);
      && (plan.Err? ==> r.Err? && r.error == plan.error)
      && (plan.Ok? ==> r.Ok? && fresh(r.value) && fresh(r.value.command)
                       && r.value.command.program == compiler.path
                       && r.value.command.args == plan.value.args
                       && r.value.command.envs == plan.value.envs
                       && r.value.filesToRemove == Some(plan.value.filesToRemove))
  {
    var includePaths := Includes.IncludePaths(cflags);
    var joined := Includes.JoinedFilepaths(includePaths, targets);
    if joined.None? {
      return Err(NoIncludePath);
    }
    if |ldflags| < 1 {
      return Err(NoLinkPath);
    }
    if |ldflags| < 2 {
      return Err(NoDll);
    }
    var a := Launched(cflags, ldflags[0], ldflags[1], variables, input, output, compiler);
    return Ok(a);
  }

  /**
   * The command filled step by step once every check has passed: the CFLAGS
   * tokens, the output flags, the input, the library and the link directory,
   * then the configuration map as environment.
   */
  method Launched(cflags: seq<string>, linkFlag: string, dll: string, variables: map<string, string>,
                  input: string, output: string, compiler: Compiler) returns (a: Assertion.Assert)
    ensures var plan := Launch(cflags, linkFlag, dll, variables, input, output, compiler);
      && fresh(a) && fresh(a.command)
      && a.command.program == compiler.path
      && a.command.args == plan.args
      && a.command.envs == plan.envs
      && a.filesToRemove == Some(plan.filesToRemove)
  {
    var command := new Process.Command(compiler.path, compiler.args, compiler.env);
    command.Args(cflags);
    var linkPath := RemoveAll(linkFlag, "-rpath,");
    var dllPath := dll;
    if EndsWith(dllPath, ".dll") {
      dllPath := dllPath + ".lib";
    }
    CommandAddOutputFile(command, output, true, compiler.isLikeClang);
    ghost var prefix := command.args;
    command.Arg(input);
    command.Arg("/link");
    command.Arg(dllPath);
    command.Arg("/LIBPATH:" + linkPath);
    assert command.args == prefix + [input, "/link", LibraryName(dll), "/LIBPATH:" + LinkPath(linkFlag)];
    command.Envs(variables);

    var filesToRemove := [input, output];
    var intermediate := Paths.SetExtension(output, "obj");
    filesToRemove := filesToRemove + [intermediate];
    ghost var plan := Launch(cflags, linkFlag, dll, variables, input, output, compiler);
    assert plan.filesToRemove == filesToRemove;
    assert plan.args == command.args;
    a := new Assertion.Assert(command, Some(filesToRemove));
  }
}
