/** The external systems behind both scripts, made abstract, and the command loop that both
    copies of `run_terraform` share: run the commands in order and stop at the first one that
    exits non-zero, reporting its stderr. */
module Terraform {
  import opened PyStr

  /** What `subprocess.run(cmd, capture_output=True, text=True)` reports about one command. */
  datatype ProcessResult = ProcessResult(returncode: int, stdout: string, stderr: string)

  /** The chat-completion service and the Terraform CLI as oracles. A completion depends on
      how many completions were asked for before it (`n`) and on the system and user prompts.
      A command's outcome depends on how many calls of `run_terraform` came before the one
      that runs it (`n`), on the `main.tf` it finds on disk and on the command line. */
  datatype Oracles = Oracles(
    complete: (nat, string, string) -> string,
    terraform: (nat, string, string) -> ProcessResult)

  /** The CLI as seen by the `n`-th call of `run_terraform`, with `mainTf` on disk. */
  function RunOf(o: Oracles, n: nat, mainTf: string): (exec: string -> ProcessResult)
    ensures forall cmd :: exec(cmd) == o.terraform(n, mainTf, cmd)
  {
    cmd => o.terraform(n, mainTf, cmd)
  }

  /** Python truthiness of what `run_terraform` returns: `None` and `""` are both false. */
  predicate Truthy(error: Option<string>) {
    error.Some? && error.value != ""
  }

  /** The commands a run started, in order, and what it returned. */
  datatype PlanRun = PlanRun(ran: seq<string>, error: Option<string>)

  /** Reference definition of a run over `cmds`. */
  function RunAll(cmds: seq<string>, exec: string -> ProcessResult): PlanRun
    decreases |cmds|
  {
    if |cmds| == 0 then PlanRun([], None)
    else if exec(cmds[0]).returncode != 0 then PlanRun([cmds[0]], Some(exec(cmds[0]).stderr))
    else
      var rest := RunAll(cmds[1..], exec);
      PlanRun([cmds[0]] + rest.ran, rest.error)
  }

  /** `ran` is the prefix of `cmds` up to and including the first command that exits non-zero,
      and `error` is that command's stderr; with no such command every command ran and
      `error` is `None`. */
  predicate StopsAtFirstFailure(cmds: seq<string>, exec: string -> ProcessResult,
                                ran: seq<string>, error: Option<string>)
  {
    |ran| <= |cmds| && ran == cmds[..|ran|]
    && (forall k :: 0 <= k < |ran| - 1 ==> exec(ran[k]).returncode == 0)
    && match error
       case None =>
         ran == cmds && forall k :: 0 <= k < |cmds| ==> exec(cmds[k]).returncode == 0
       case Some(e) =>
         |ran| > 0 && exec(ran[|ran| - 1]).returncode != 0 && e == exec(ran[|ran| - 1]).stderr
  }

  lemma {:induction false} RunAllStopsAtFirstFailure(cmds: seq<string>, exec: string -> ProcessResult)
    ensures StopsAtFirstFailure(cmds, exec, RunAll(cmds, exec).ran, RunAll(cmds, exec).error)
    decreases |cmds|
  {
    if |cmds| > 0 && exec(cmds[0]).returncode == 0 {
      RunAllStopsAtFirstFailure(cmds[1..], exec);
      var rest := RunAll(cmds[1..], exec);
      assert cmds == [cmds[0]] + cmds[1..];
      assert forall k :: 1 <= k < |cmds| ==> cmds[k] == cmds[1..][k - 1];
    }
  }

  /** The first-failure description fixes both the commands run and the result. */
  lemma {:induction false} FirstFailureDetermines(cmds: seq<string>, exec: string -> ProcessResult,
                                                  ran: seq<string>, error: Option<string>)
    requires StopsAtFirstFailure(cmds, exec, ran, error)
    ensures PlanRun(ran, error) == RunAll(cmds, exec)
    decreases |cmds|
  {
    if |cmds| > 0 {
      assert |ran| > 0;
      assert ran[0] == cmds[0];
      if exec(cmds[0]).returncode == 0 {
        assert ran[1..] == cmds[1..][..|ran| - 1];
        assert forall k :: 0 <= k < |cmds| - 1 ==> cmds[1..][k] == cmds[k + 1];
        FirstFailureDetermines(cmds[1..], exec, ran[1..], error);
        assert ran == [cmds[0]] + ran[1..];
      } else {
        assert |ran| == 1;
      }
    }
  }

  /** The body of `run_terraform`: each command runs to completion before the next; the first
      non-zero exit returns that command's stderr and later commands do not run. */
  method RunCommands(cmds: seq<string>, exec: string -> ProcessResult)
    returns (error: Option<string>, ran: seq<string>)
    ensures StopsAtFirstFailure(cmds, exec, ran, error)
    ensures PlanRun(ran, error) == RunAll(cmds, exec)
  {
    ran := [];
    for i := 0 to |cmds|
      invariant ran == cmds[..i]
      invariant forall k :: 0 <= k < i ==> exec(cmds[k]).returncode == 0
    {
      var process := exec(cmds[i]);
      ran := ran + [cmds[i]];
      if process.returncode != 0 {
        error := Some(process.stderr);
        FirstFailureDetermines(cmds, exec, ran, error);
        return;
      }
    }
    error := None;
    FirstFailureDetermines(cmds, exec, ran, error);
  }
}
