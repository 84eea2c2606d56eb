/**
 * The part of `std::process::Command` that `run` drives: the program to start,
 * its argument list and the environment variables set for it.
 */
module Process {

  class Command {
    const program: string
    var args: seq<string>
    var envs: map<string, string>

    /** The command `cc` hands out for the compiler it found. */
    constructor (program: string, args: seq<string>, envs: map<string, string>)
      ensures this.program == program && this.args == args && this.envs == envs
    {
      this.program := program;
      this.args := args;
      this.envs := envs;
    }

    /** `Command::arg`: one more argument at the end. */
    method Arg(a: string)
      modifies this
      ensures args == old(args) + [a]
      ensures envs == old(envs)
    {
      args := args + [a];
    }

    /** `Command::args`: each argument appended in turn. */
    method Args(xs: seq<string>)
      modifies this
      ensures args == old(args) + xs
      ensures envs == old(envs)
    {
      var i := 0;
      while i < |xs|
        invariant 0 <= i <= |xs|
        invariant args == old(args) + xs[..i]
        invariant envs == old(envs)
      {
        Arg(xs[i]);
        assert xs[..i + 1] == xs[..i] + [xs[i]];
        i := i + 1;
      }
      assert xs[..i] == xs;
    }

    /** `Command::envs`: every pair set, replacing a value set earlier under the same name. */
    method Envs(vars: map<string, string>)
      modifies this
      ensures envs == old(envs) + vars
      ensures args == old(args)
    {
      envs := envs + vars;
    }
  }
}
