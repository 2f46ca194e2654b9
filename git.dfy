/** The git side of the backend, as an oracle: which refs exist, which
    command lines fail, whether the repository opens at all, and the log of
    the commands issued against it. The working tree is not modelled. */
module Git {
  /** A command the backend issues: a `show-ref --verify` of one ref, or a
      `git` invocation with these arguments in the repository directory. */
  datatype Command = ShowRefVerify(ref: string) | Run(args: seq<string>)

  class Repository {
    /** The full ref names (`refs/heads/main`, ...) that exist. */
    const refs: set<string>
    /** The argument lists whose `git` run exits with an error. */
    const failing: set<seq<string>>
    /** Whether opening the repository on disk succeeds. */
    const openable: bool
    /** Every command issued so far, oldest first. */
    var log: seq<Command>

    constructor (refs: set<string>, failing: set<seq<string>>, openable: bool)
      ensures this.refs == refs && this.failing == failing && this.openable == openable
      ensures log == []
    {
      this.refs := refs;
      this.failing := failing;
      this.openable := openable;
      log := [];
    }

    /** `ShowRefVerify`: succeeds exactly when the ref exists. */
    method ShowRefVerify(ref: string) returns (ok: bool)
      modifies this`log
      ensures ok <==> ref in refs
      ensures log == old(log) + [Command.ShowRefVerify(ref)]
    {
      ok := ref in refs;
      log := log + [Command.ShowRefVerify(ref)];
    }

    /** `git.NewCommand(args...).RunInDir(path)`: succeeds exactly when this
        argument list is not one that fails. */
    method Run(args: seq<string>) returns (ok: bool)
      modifies this`log
      ensures ok <==> args !in failing
      ensures log == old(log) + [Command.Run(args)]
    {
      ok := args !in failing;
      log := log + [Command.Run(args)];
    }
  }
}
