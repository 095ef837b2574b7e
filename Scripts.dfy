/** scripts/prompt_terraform.py: the one-shot variant. One generation, cleaned and saved; the
    init/plan/apply runner; and, when that fails, a single fix request whose answer is saved
    as it comes and run once more, with the outcome of that last run thrown away. */
module Scripts {
  import opened PyStr
  import opened Terraform
  import Agent

  // ---------- run_terraform ----------

  const Commands := ["terraform init", "terraform plan", "terraform apply -auto-approve"]

  /** What `run_terraform` returns when the CLI behaves as `exec`. */
  function ApplyError(exec: string -> ProcessResult): Option<string> {
    RunAll(Commands, exec).error
  }

  /** `run_terraform` reports the stderr of the first of `init`, `plan` and
      `apply -auto-approve` that exits non-zero, and `None` when all three succeed. */
  lemma {:induction false} ApplyErrorCases(exec: string -> ProcessResult)
    ensures ApplyError(exec) ==
      if exec("terraform init").returncode != 0 then Some(exec("terraform init").stderr)
      else if exec("terraform plan").returncode != 0 then Some(exec("terraform plan").stderr)
      else if exec("terraform apply -auto-approve").returncode != 0
        then Some(exec("terraform apply -auto-approve").stderr)
      else None
  {
    assert Commands[1..] == ["terraform plan", "terraform apply -auto-approve"];
    assert Commands[1..][1..] == ["terraform apply -auto-approve"];
    assert Commands[1..][1..][1..] == [];
  }

  /** `run_terraform`: `init`, `plan` and `apply -auto-approve` in order, stopping at the
      first failure. */
  method RunTerraform(exec: string -> ProcessResult) returns (error: Option<string>)
    ensures error == ApplyError(exec)
  {
    var ran;
    error, ran := RunCommands(Commands, exec);
  }

  // ---------- prompts ----------

  /** The fixed system message of every request. */
  const SystemPrompt := "You are a DevOps expert. "
    + "Generate ONLY valid Terraform code for Azure. "
    + "Always include a terraform { required_providers { azurerm } } block "
    + "with source and version, and a provider azurerm { features {} }. "
    + "Do not include explanations or markdown formatting."

  /** The request of the first generation. */
  const UserPrompt := "Create Terraform code to provision an Azure Resource Group "
    + "in East US with tags for dev environment"

  const FixHead := "The following Terraform error occurred:\n"
  const FixTail := "\nFix the code."

  /** The fix request: the error between a fixed header and a fixed closing line. */
  function FixPrompt(error: string): string {
    FixHead + error + FixTail
  }

  /** The fix request holds the exact error, after the header and before the closing line. */
  lemma FixPromptLayout(error: string)
    ensures var r := FixPrompt(error);
      |r| == |FixHead| + |error| + |FixTail|
      && r[..|FixHead|] == FixHead
      && r[|FixHead|..|FixHead| + |error|] == error
      && r[|FixHead| + |error|..] == FixTail
  {
    var r := FixPrompt(error);
    assert r == (FixHead + error) + FixTail;
    assert r[..|FixHead| + |error|] == FixHead + error;
  }

  // ---------- the nested clean_code ----------

  /** The copy of `clean_code` defined inside `__main__`. */
  function CleanCode(content: string): (r: Result<string>)
    ensures r.Ok? ==> Stripped(r.value)
  {
    if Contains(content, Agent.Fence) then
      var piece := Split(content, Agent.Fence)[1];
      if StartsWith(Strip(piece), Agent.HclTag) then
        var lines := SplitOnce(piece, Agent.Newline);
        if |lines| < 2 then Err(IndexError) else Ok(Strip(lines[1]))
      else Ok(Strip(piece))
    else Ok(Strip(content))
  }

  /** The nested copy behaves exactly as the agent's `clean_code`. */
  lemma {:induction false} CleanCodeAsAgent(content: string)
    ensures CleanCode(content) == Agent.CleanCode(content)
  {
    if Contains(content, Agent.Fence) {
      var piece := Split(content, Agent.Fence)[1];
      assert CleanCode(content) == Agent.CleanPiece(piece);
      assert Agent.CleanCode(content) == Agent.CleanPiece(piece);
    } else {
      assert CleanCode(content) == Ok(Strip(content));
    }
  }

  /** Without a fence, the nested copy only strips. */
  lemma {:induction false} CleanCodeUnfenced(content: string)
    requires !Contains(content, Agent.Fence)
    ensures CleanCode(content) == Ok(Strip(content))
  {
    CleanCodeAsAgent(content);
    Agent.CleanCodeUnfenced(content);
  }

  /** With a fence, the nested copy cleans the text after the first fence, up to the next. */
  lemma {:induction false} CleanCodeFenced(content: string)
    requires Contains(content, Agent.Fence)
    ensures CleanCode(content) == Agent.CleanPiece(Agent.FencedPiece(content))
  {
    CleanCodeAsAgent(content);
    Agent.CleanCodeFenced(content);
  }

  /** The nested copy raises `IndexError` exactly when the fenced piece, stripped, starts with
      `hcl` and the piece has no newline. */
  lemma {:induction false} CleanCodeRaises(content: string)
    ensures CleanCode(content).Err? <==>
      Contains(content, Agent.Fence) && StartsWith(Strip(Agent.FencedPiece(content)), Agent.HclTag)
      && !Contains(Agent.FencedPiece(content), Agent.Newline)
  {
    CleanCodeAsAgent(content);
    Agent.CleanCodeRaises(content);
  }

  /** What the nested copy returns has no fence and is left as it is by a second pass. */
  lemma {:induction false} CleanCodeIdempotent(content: string)
    requires CleanCode(content).Ok?
    ensures !Contains(CleanCode(content).value, Agent.Fence)
    ensures CleanCode(CleanCode(content).value) == CleanCode(content)
  {
    CleanCodeAsAgent(content);
    Agent.CleanCodeLeavesNoFence(content);
    Agent.CleanCodeIdempotent(content);
    CleanCodeAsAgent(CleanCode(content).value);
  }

  // ---------- __main__ ----------

  /** How the script ends: an `IndexError` from `clean_code`, or the code saved first, the
      error of the first run, and the fix saved after it when there was one. */
  datatype OneShot =
    | Crashed
    | Finished(tfCode: string, error: Option<string>, fixCode: Option<string>)

  /** The CLI's verdict on run `n` with `code` in `main.tf`. */
  function RunApply(o: Oracles, n: nat, code: string): Option<string> {
    ApplyError(RunOf(o, n, code))
  }

  /** The whole `__main__` block. */
  function OneShotRun(o: Oracles): OneShot {
    match CleanCode(o.complete(0, SystemPrompt, UserPrompt))
    case Err(_) => Crashed
    case Ok(tfCode) =>
      var error := RunApply(o, 0, tfCode);
      if Truthy(error) then Finished(tfCode, error, Some(o.complete(1, SystemPrompt, FixPrompt(error.value))))
      else Finished(tfCode, error, None)
  }

  /** What `main.tf` holds at the end, starting from `before`. */
  function FinalMainTf(r: OneShot, before: string): string {
    match r
    case Crashed => before
    case Finished(code, _, fix) => if fix.Some? then fix.value else code
  }

  /** The script crashes exactly when `clean_code` raises on the first completion. */
  lemma OneShotCrashes(o: Oracles)
    ensures OneShotRun(o).Crashed? <==> CleanCode(o.complete(0, SystemPrompt, UserPrompt)).Err?
  {
  }

  /** The code saved first is the cleaned completion: no fence, no surrounding whitespace. */
  lemma OneShotSavesCleaned(o: Oracles)
    requires OneShotRun(o).Finished?
    ensures var code := OneShotRun(o).tfCode;
      CleanCode(o.complete(0, SystemPrompt, UserPrompt)) == Ok(code)
      && !Contains(code, Agent.Fence) && Stripped(code)
  {
    CleanCodeIdempotent(o.complete(0, SystemPrompt, UserPrompt));
  }

  /** The error is the verdict of the first run on the saved code; a fix is asked for exactly
      when that error is truthy, and the fix is the completion of the fix request for that
      exact error, unchanged. */
  lemma OneShotFixes(o: Oracles)
    requires OneShotRun(o).Finished?
    ensures var r := OneShotRun(o);
      r.error == RunApply(o, 0, r.tfCode)
      && (r.fixCode.Some? <==> Truthy(r.error))
      && (r.fixCode.Some? ==>
            r.fixCode.value == o.complete(1, SystemPrompt, FixPrompt(r.error.value)))
  {
    var code := CleanCode(o.complete(0, SystemPrompt, UserPrompt)).value;
    var error := RunApply(o, 0, code);
    if Truthy(error) {
      assert OneShotRun(o) == Finished(code, error, Some(o.complete(1, SystemPrompt, FixPrompt(error.value))));
    } else {
      assert OneShotRun(o) == Finished(code, error, None);
    }
  }

  /** The first code is saved without `enforce_best_practices`: an unfenced completion with no
      surrounding whitespace reaches `main.tf` unchanged, deprecated plan resource and all. */
  lemma InitialNotEnforced(o: Oracles)
    requires var raw := o.complete(0, SystemPrompt, UserPrompt);
      !Contains(raw, Agent.Fence) && Stripped(raw)
    ensures OneShotRun(o).Finished?
    ensures OneShotRun(o).tfCode == o.complete(0, SystemPrompt, UserPrompt)
  {
    var raw := o.complete(0, SystemPrompt, UserPrompt);
    CleanCodeUnfenced(raw);
    StrippedFixpoint(raw);
  }

  /** The fix is saved without `clean_code`: a fix that comes wrapped in a fence ends up in
      `main.tf` with the fence. */
  lemma FixNotCleaned(o: Oracles)
    requires OneShotRun(o).Finished? && Truthy(OneShotRun(o).error)
    requires Contains(o.complete(1, SystemPrompt, FixPrompt(OneShotRun(o).error.value)), Agent.Fence)
    ensures Contains(FinalMainTf(OneShotRun(o), ""), Agent.Fence)
  {
  }

  /** The second run's results are thrown away: CLIs that agree on the first run give the same
      outcome. */
  lemma SecondRunIgnored(o1: Oracles, o2: Oracles)
    requires o1.complete == o2.complete
    requires forall code, cmd :: o1.terraform(0, code, cmd) == o2.terraform(0, code, cmd)
    ensures OneShotRun(o1) == OneShotRun(o2)
  {
    var raw := o1.complete(0, SystemPrompt, UserPrompt);
    if CleanCode(raw).Ok? {
      var code := CleanCode(raw).value;
      ApplyErrorCases(RunOf(o1, 0, code));
      ApplyErrorCases(RunOf(o2, 0, code));
    }
  }

  /** The working directory: `main.tf`. */
  class Workspace {
    var mainTf: string

    constructor(mainTf0: string)
      ensures mainTf == mainTf0
    {
      mainTf := mainTf0;
    }

    /** `save_file("main.tf", content)`. */
    method SaveMainTf(content: string)
      modifies this
      ensures mainTf == content
    {
      mainTf := content;
    }

    /** The `__main__` block: generate, clean, save and run; on a truthy error, ask once for
        a fix, save it as it is and run again, ignoring what that run returns. */
    method Run(o: Oracles) returns (r: OneShot)
      modifies this
      ensures r == OneShotRun(o)
      ensures mainTf == FinalMainTf(r, old(mainTf))
    {
      var raw := o.complete(0, SystemPrompt, UserPrompt);
      var cleaned := CleanCode(raw);
      if cleaned.Err? {
        return Crashed;
      }
      var tfCode := cleaned.value;
      SaveMainTf(tfCode);
      var error := RunTerraform(RunOf(o, 0, mainTf));
      if Truthy(error) {
        var fixPrompt := FixPrompt(error.value);
        var fixCode := o.complete(1, SystemPrompt, fixPrompt);
        SaveMainTf(fixCode);
        var ignored := RunTerraform(RunOf(o, 1, mainTf));
        return Finished(tfCode, error, Some(fixCode));
      }
      return Finished(tfCode, error, None);
    }
  }
}
