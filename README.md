# ai-terraform-poc in Dafny

A model of the two Terraform-generation scripts of ai-terraform-poc, with proofs about them.

**`agent/prompt_terraform.py`** works in these steps:
1. It asks a chat-completion service for Terraform code.
2. It strips markdown fences from the answer (`clean_code`).
3. It rewrites known-deprecated patterns (`enforce_best_practices`).
4. It saves the result to `modules/main.tf` and runs `terraform init`, `validate` and `plan`.
5. While the last run reported a truthy error and fewer than three fixes were tried, it sends the error and the code back for a fix, then post-processes, saves and plans again.
6. If the final error is still truthy, it writes a diagnostic report.

**`scripts/prompt_terraform.py`** is the one-shot variant:
- one generation, cleaned but not enforced;
- one run of `init`, `plan` and `apply -auto-approve`;
- on a truthy error, one fix request, whose answer is saved raw and run again. The result of that run is ignored.

The model has four modules.

- **`PyStr`** covers the Python `str` operations the scripts use, on `seq<char>`:
  - `isspace` with Python's whitespace table;
  - `strip`, `startswith`, `in`, `find`, `split`, `split(sep, 1)` and `replace`;
  - `Substitute`, the left-to-right non-overlapping scan shared by `str.replace` and `re.sub`.
- **`Terraform`** covers the outside world, written as oracles:
  - `complete(n, system, user)` is completion number `n`;
  - `terraform(n, mainTf, cmd)` is what `cmd` reports during call number `n` of `run_terraform`, with `mainTf` on disk;
  - `RunCommands` is the stop-at-first-failure loop that both copies of `run_terraform` share.
- **`Agent`** covers the agent script:
  - `clean_code` and `enforce_best_practices`. The regular expression `data\s*=\s*filebase64\([^\)]*\)` becomes a hand-written matcher, `CertMatchLen`, which is proved equal to a declarative reading of the pattern.
  - `run_terraform`.
  - The retry loop, as the function `FixLoop` and as the class `Workspace`. The class's methods save `main.tf`, run the CLI on what was saved and write the report, and they are proved to compute `Pipeline`.
- **`Scripts`** covers the one-shot script: its nested `clean_code`, its `run_terraform`, and its `__main__` as a `Workspace` method proved equal to `OneShotRun`.

`enforce_best_practices` is not idempotent:
- On `data=filebase64()ata=filebase64()`, the Key Vault reference that replaces the first assignment ends in `d`.
- That `d` and the `ata=filebase64()` after it form a new assignment, which survives the pass, and a second pass rewrites it.
- `Agent.EnforceNotIdempotent` proves this on that input.
- `Agent.EnforceIdempotentWhenNoMatch` proves idempotence when no assignment is left.

The one-shot script's fix prompt holds only the error, not the previous code (`Scripts.FixPrompt`).

## Model

| member | source | states |
|---|---|---|
| PyStr.LStrip | agent/prompt_terraform.py:45 | a suffix of the input, cut after a run of whitespace, not starting with whitespace |
| PyStr.RStrip | agent/prompt_terraform.py:45 | a prefix of the input, cut before a run of whitespace, not ending with whitespace |
| PyStr.Strip | agent/prompt_terraform.py:45 | the result of `strip()` starts and ends with non-whitespace (or is empty) |
| PyStr.StripCut | agent/prompt_terraform.py:45 | the input is the stripped text framed by two all-whitespace runs |
| PyStr.StripUnique | agent/prompt_terraform.py:45 | stripping whitespace + r + whitespace gives r whenever r has no whitespace at either end |
| PyStr.StrippedFixpoint | agent/prompt_terraform.py:45 | stripping already stripped text changes nothing |
| PyStr.IsSpace | agent/prompt_terraform.py:45 | the whitespace set of `strip()` and of `\s`; no ensures, it is Python's `str.isspace` table, used by LStrip, RStrip and SkipSpace |
| PyStr.Contains | agent/prompt_terraform.py:41 | Python's `p in s`; no ensures. ContainsAt, ContainsWitness and IndexOf (None exactly when Contains fails) state its meaning |
| PyStr.IndexOf | agent/prompt_terraform.py:41-42 | `find`: None exactly when the pattern is absent; otherwise an occurrence with none before it |
| PyStr.ContainsAt | agent/prompt_terraform.py:41 | an occurrence at any index makes `p in s` true |
| PyStr.StripKeepsAbsent | agent/prompt_terraform.py:45 | stripping cannot create an occurrence |
| PyStr.Split | agent/prompt_terraform.py:42 | `split(sep)`: at least one piece, two or more exactly when sep occurs, no piece holds sep, joining gives the input, and the first piece ends at the leftmost sep |
| PyStr.SplitAfterLeftmost | agent/prompt_terraform.py:42 | after the first piece, `split` goes on from right after the leftmost sep, which with `Split` fixes every piece |
| PyStr.SplitOnce | agent/prompt_terraform.py:44 | `split(sep, 1)`: one or two pieces, two exactly when sep occurs, the first has no sep, joining gives the input |
| PyStr.SplitOnceAfter | agent/prompt_terraform.py:44 | the second piece of `split(sep, 1)` is the text after the first occurrence |
| PyStr.IndexOfAt | agent/prompt_terraform.py:41-42 | an occurrence at k with none before it is what `find` returns |
| PyStr.LiteralMatcher | agent/prompt_terraform.py:49 | the literal matcher matches exactly where the pattern starts, with the pattern's length |
| PyStr.SubstituteCopies | agent/prompt_terraform.py:49-57 | a prefix in which no match starts is copied unchanged |
| PyStr.SubstituteKeepsPrefix | agent/prompt_terraform.py:49-57 | text before the leftmost match is kept and the scan continues from there |
| PyStr.SubstituteNoMatch | agent/prompt_terraform.py:53-57 | without a match anywhere the substitution returns its input |
| PyStr.SubstituteAtLeftmost | agent/prompt_terraform.py:53-57 | the leftmost match is replaced and the scan resumes right after it |
| PyStr.ReplaceAbsent | agent/prompt_terraform.py:49 | `replace` of an absent pattern returns the input |
| PyStr.ReplaceSingle | agent/prompt_terraform.py:49 | one occurrence between text without its first character is replaced and the rest kept |
| PyStr.SubstituteRemoves | agent/prompt_terraform.py:49 | with no overlap between pattern and replacement, every occurrence the matcher covers is gone |
| PyStr.ReplaceRemovesAll | agent/prompt_terraform.py:49 | `replace` leaves no occurrence when the replacement cannot meet the pattern |
| PyStr.SubstituteKeepsAbsent | agent/prompt_terraform.py:53-57 | a substitution whose replacement cannot form the pattern does not introduce it |
| PyStr.Substitute | agent/prompt_terraform.py:49-57 | the scan of `replace` and `re.sub`; no ensures. SubstituteNoMatch, SubstituteKeepsPrefix, SubstituteAtLeftmost and SubstituteCopies state it leaves text without a match, keeps text before the leftmost match and resumes after each match |
| PyStr.Replace | agent/prompt_terraform.py:49 | `str.replace`; no ensures. ReplaceAbsent, ReplaceSingle and ReplaceRemovesAll state what it returns |
| Terraform.RunAllStopsAtFirstFailure | agent/prompt_terraform.py:64-72 | the reference run is the prefix of the commands up to the first failure, with that command's stderr, or all of them and None |
| Terraform.FirstFailureDetermines | agent/prompt_terraform.py:64-72 | the stop-at-first-failure description fixes the commands run and the result |
| Terraform.RunCommands | agent/prompt_terraform.py:64-72 | the loop runs commands in order, stops at the first non-zero exit with its stderr, and returns None when all succeed |
| Terraform.RunAll | agent/prompt_terraform.py:64-72 | the reference run; no ensures. RunAllStopsAtFirstFailure and FirstFailureDetermines prove it equals the stop-at-first-failure description |
| Agent.FirstFence | agent/prompt_terraform.py:41-42 | the index of the leftmost fence |
| Agent.UpToFence | agent/prompt_terraform.py:42 | a prefix of its input with no fence starting inside it, followed by a fence or the end |
| Agent.FencedPiece | agent/prompt_terraform.py:42 | the piece has no fence, follows the first fence, and is followed by a fence or the end. No fence starts inside it, so it ends at the leftmost fence after the first |
| Agent.SplitGivesFencedPiece | agent/prompt_terraform.py:42 | `content.split("```")[1]` exists and is the fenced piece |
| Agent.CleanPiece | agent/prompt_terraform.py:43-45 | every result of cleaning a piece has no whitespace at either end |
| Agent.CleanCode | agent/prompt_terraform.py:39-45 | every result of `clean_code` has no whitespace at either end |
| Agent.CleanPieceUntagged | agent/prompt_terraform.py:43-45 | a piece whose stripped text does not start with `hcl` is only stripped |
| Agent.CleanPieceTagged | agent/prompt_terraform.py:43-45 | a tagged piece with a newline becomes the text after its first newline, stripped |
| Agent.CleanPieceRaises | agent/prompt_terraform.py:43-44 | a tagged piece without a newline raises IndexError |
| Agent.CleanCodeUnfenced | agent/prompt_terraform.py:41-45 | with no fence the output is the stripped input |
| Agent.CleanCodeFenced | agent/prompt_terraform.py:41-45 | with a fence the output is the cleaned text between the first fence and the next |
| Agent.CleanCodeRaises | agent/prompt_terraform.py:41-44 | raises exactly when there is a fence, the fenced piece stripped starts with `hcl`, and the piece has no newline |
| Agent.CleanCodeLeavesNoFence | agent/prompt_terraform.py:39-45 | what `clean_code` returns holds no fence |
| Agent.CleanCodeIdempotent | agent/prompt_terraform.py:39-45 | cleaning a cleaned result returns it unchanged |
| Agent.FencedPieceOf | agent/prompt_terraform.py:42 | with no backquote before or inside, the piece between the first two fences is found |
| Agent.CleanPieceTagLine | agent/prompt_terraform.py:43-45 | a piece `hcl\n` + body comes out as the stripped body |
| Agent.CleanCodeTaggedBlock | agent/prompt_terraform.py:39-45 | a fenced block tagged `hcl` comes out as its stripped body, without fences or tag line |
| Agent.SkipSpace | agent/prompt_terraform.py:54 | `\s*` stops at the end or at a non-whitespace character |
| Agent.SkipSpaceSkipsSpace | agent/prompt_terraform.py:54 | all that `\s*` consumes is whitespace |
| Agent.NextCloseParen | agent/prompt_terraform.py:54 | `[^\)]*` stops at the end or at a `)` |
| Agent.NextCloseParenSkips | agent/prompt_terraform.py:54 | `[^\)]*` passes no `)` |
| Agent.CertMatchLen | agent/prompt_terraform.py:54 | a match never claims more than its input |
| Agent.CertMatchShape | agent/prompt_terraform.py:54 | a reported match is `data`, whitespace, `=`, whitespace, `filebase64(`, text without `)`, and `)` at the found positions |
| Agent.CertMatchSound | agent/prompt_terraform.py:54 | every reported match is an instance of the pattern |
| Agent.CertMatchComplete | agent/prompt_terraform.py:54 | every instance of the pattern at the start of a text is the match found there, whatever follows |
| Agent.CertMatcherFits | agent/prompt_terraform.py:53-57 | the certificate matcher is a valid matcher for the substitution scan |
| Agent.ReplaceCerts | agent/prompt_terraform.py:53-57 | the `re.sub` call; no ensures. ReplaceCertsAtLeftmost and ReplaceCertsNoMatch state what it does |
| Agent.EnforceBestPractices | agent/prompt_terraform.py:47-58 | `enforce_best_practices`; no ensures. EnforceNoDeprecatedPlan, EnforceUnchanged, EnforceKeepsUnmatched, EnforceRewritesFirstCertMatch and EnforceNotIdempotent state its meaning |
| Agent.PlanRenameOverlaps | agent/prompt_terraform.py:49 | the new name cannot overlap the deprecated one |
| Agent.PlaceholderOverlaps | agent/prompt_terraform.py:49-55 | the Key Vault reference cannot overlap the deprecated name |
| Agent.EnforceNoDeprecatedPlan | agent/prompt_terraform.py:47-58 | the output never contains `azurerm_app_service_plan` |
| Agent.EnforceUnchanged | agent/prompt_terraform.py:47-58 | code without the deprecated name and without `filebase64` is returned as it is |
| Agent.EnforceKeepsUnmatched | agent/prompt_terraform.py:47-58 | after the rename, code with no certificate assignment is kept, `filebase64` or not |
| Agent.CertMatchHasFileBase64 | agent/prompt_terraform.py:51-54 | every certificate assignment makes the `filebase64` guard true |
| Agent.ReplaceCertsAtLeftmost | agent/prompt_terraform.py:53-57 | the leftmost assignment becomes the Key Vault reference and the scan resumes after it |
| Agent.ReplaceCertsNoMatch | agent/prompt_terraform.py:53-57 | `re.sub` with no match returns its input |
| Agent.EnforceRewritesFirstCertMatch | agent/prompt_terraform.py:47-58 | the leftmost assignment after the rename is replaced, the text before it is kept and the rest is scanned |
| Agent.EnforceIdempotentWhenNoMatch | agent/prompt_terraform.py:47-58 | enforcing twice equals enforcing once when the output holds no assignment |
| Agent.EnforceWithoutFileBase64 | agent/prompt_terraform.py:49-58 | when the renamed code has no `filebase64`, the output is the renamed code |
| Agent.EnforceWithFileBase64 | agent/prompt_terraform.py:49-57 | when the renamed code has `filebase64`, the output is the substitution of the renamed code |
| Agent.EnforceRenamesPlan | agent/prompt_terraform.py:49 | the deprecated name between text without `a` or `f` is renamed and nothing else changes |
| Agent.EnforceRenamesExample | agent/prompt_terraform.py:49 | `resource "azurerm_app_service_plan" "x" {}` becomes `resource "azurerm_service_plan" "x" {}` |
| Agent.CleanCodeFencedLine | agent/prompt_terraform.py:39-45 | a stripped line without backquotes, fenced as `hcl` with newlines around it, comes out as that line |
| Agent.CleanCodeExample | agent/prompt_terraform.py:39-45 | the fenced `hcl` example cleans to `resource "azurerm_app_service_plan" "x" {}` |
| Agent.PostProcessOk | agent/prompt_terraform.py:78-79 | post-processing is cleaning followed by enforcing |
| Agent.PostProcessExample | agent/prompt_terraform.py:78-79 | the fenced `hcl` example post-processes to `resource "azurerm_service_plan" "x" {}` |
| Agent.BareCertMatches | agent/prompt_terraform.py:54 | `data=filebase64()` matches as a whole, whatever follows |
| Agent.NoCertWithoutD | agent/prompt_terraform.py:54 | a text without `d` holds no assignment |
| Agent.DoubledCerts | agent/prompt_terraform.py:53-57 | on `data=filebase64()ata=filebase64()` the substitution replaces only the leading assignment |
| Agent.EnforceLeavesTail | agent/prompt_terraform.py:47-58 | enforcing `data=filebase64()ata=filebase64()` gives the reference followed by `ata=filebase64()` |
| Agent.ReenforceChanges | agent/prompt_terraform.py:53-57 | that output holds a new assignment, and enforcing it again changes it |
| Agent.EnforceNotIdempotent | agent/prompt_terraform.py:47-58 | enforcement is not idempotent, and an assignment can remain after it |
| Agent.PlanErrorCases | agent/prompt_terraform.py:61-72 | the result is the stderr of the first failing of init, validate and plan, or None |
| Agent.RunTerraform | agent/prompt_terraform.py:61-72 | the runner returns exactly the reference result over init, validate and plan |
| Agent.ScriptPrompts | agent/prompt_terraform.py:98-106 | the fix request's system prompt starts with the standard one and is longer |
| Agent.PostProcess | agent/prompt_terraform.py:78-79 | code that survives cleaning and enforcing never mentions the deprecated plan |
| Agent.AgentStepsSafe | agent/prompt_terraform.py:107-108 | the agent's post-processing is safe: it never produces the deprecated name |
| Agent.FixLoop | agent/prompt_terraform.py:87-114 | the retry loop as a function; no ensures. FixLoopFacts, FixLoopSafe and FixLoopFinishes state its meaning, and Workspace.RetryLoop is proved to compute it |
| Agent.Pipeline | agent/prompt_terraform.py:75-114 | the run up to the report; no ensures. PipelineFacts, PipelineSafe, PipelineFinishes, FailTwiceThenSucceed and AlwaysFail state its meaning, and Workspace.Run is proved to compute it |
| Agent.FinalReport | agent/prompt_terraform.py:116-125 | the report, if any; no ensures. PipelineFacts states it is written exactly when the last error is truthy, and AlwaysFail that it holds the exact last error and code |
| Agent.FixLoopFacts | agent/prompt_terraform.py:87-114 | the loop stays within 3 attempts, tries one only after a truthy error, ends normally only with a falsy error or a spent budget, and then its error is the CLI's verdict on the last code |
| Agent.FixLoopSafe | agent/prompt_terraform.py:87-114 | with safe post-processing, no code the loop saves mentions the deprecated plan |
| Agent.PipelineFacts | agent/prompt_terraform.py:75-125 | a crash on the first generation saves nothing. The counter ends in 0..3. The last error is the verdict on the last code. The report is written exactly when the final error is truthy |
| Agent.PipelineSafe | agent/prompt_terraform.py:77-111 | no code saved by the agent script mentions the deprecated plan |
| Agent.AgentNeverRaises | agent/prompt_terraform.py:39-45 | if `clean_code` accepts every completion, post-processing never raises |
| Agent.FixLoopFinishes | agent/prompt_terraform.py:87-114 | without raising, the loop always reaches its normal exit |
| Agent.PipelineFinishes | agent/prompt_terraform.py:75-114 | without raising, the run always reaches the loop's normal exit |
| Agent.FailTwiceThenSucceed | agent/prompt_terraform.py:84-117 | a CLI that fails twice then succeeds ends with counter 2, a falsy error and no report |
| Agent.AlwaysFail | agent/prompt_terraform.py:84-125 | a CLI that always fails ends at counter 3, and the report holds the exact last error and code |
| Agent.Report | agent/prompt_terraform.py:120-125 | the report text; no ensures. ReportLayout states its layout, and Workspace.WriteReport is proved to write it |
| Agent.ReportLayout | agent/prompt_terraform.py:120-125 | the report is the header, the exact error, the code heading and the exact code, in order |
| Agent.Workspace.constructor | agent/prompt_terraform.py:75 | the workspace starts with the given main.tf and report |
| Agent.Workspace.SaveMainTf | agent/prompt_terraform.py:33-37 | main.tf holds exactly the content and the report is untouched |
| Agent.Workspace.WriteReport | agent/prompt_terraform.py:117-125 | the report file holds the report text and main.tf is untouched |
| Agent.Workspace.Start | agent/prompt_terraform.py:77-84 | the first generation is post-processed and saved, and the CLI runs on what was saved. Nothing is saved when `clean_code` raises |
| Agent.Workspace.Retry | agent/prompt_terraform.py:90-114 | one fix attempt asks with the fix system prompt and the formatted error and code, then post-processes, saves and plans in the next run |
| Agent.Workspace.RetryLoop | agent/prompt_terraform.py:87-114 | the while loop computes `FixLoop`, and main.tf holds the last code saved |
| Agent.Workspace.Run | agent/prompt_terraform.py:75-126 | the whole `__main__` computes `Pipeline`, writes the report exactly when `FinalReport` has one, and leaves main.tf with the last code saved |
| Agent.FixLoopCrashes | agent/prompt_terraform.py:98-107 | a fix completion that makes `clean_code` raise ends the run with the previous code saved |
| Agent.FixLoopGoesOn | agent/prompt_terraform.py:89-114 | a successful fix attempt moves the loop to the next counter, code and error |
| Scripts.ApplyErrorCases | scripts/prompt_terraform.py:25-34 | the result is the stderr of the first failing of init, plan and `apply -auto-approve`, or None |
| Scripts.RunTerraform | scripts/prompt_terraform.py:25-34 | the runner returns exactly the reference result over those three commands |
| Scripts.FixPromptLayout | scripts/prompt_terraform.py:61 | the fix request is the fixed header, the exact error and the fixed closing line |
| Scripts.FixPrompt | scripts/prompt_terraform.py:61 | the fix request; no ensures. FixPromptLayout states its layout |
| Scripts.CleanCode | scripts/prompt_terraform.py:41-47 | every result of the nested `clean_code` has no whitespace at either end |
| Scripts.CleanCodeAsAgent | scripts/prompt_terraform.py:41-47 | the nested copy equals the agent's `clean_code` on every input |
| Scripts.CleanCodeUnfenced | scripts/prompt_terraform.py:43-47 | with no fence the output is the stripped input |
| Scripts.CleanCodeFenced | scripts/prompt_terraform.py:43-47 | with a fence the output is the cleaned first fenced piece |
| Scripts.CleanCodeRaises | scripts/prompt_terraform.py:43-46 | raises exactly when the fenced piece is tagged `hcl` and has no newline |
| Scripts.CleanCodeIdempotent | scripts/prompt_terraform.py:41-47 | the output has no fence, and cleaning it again changes nothing |
| Scripts.OneShotRun | scripts/prompt_terraform.py:36-65 | the one-shot `__main__` as a function; no ensures. OneShotCrashes, OneShotSavesCleaned, OneShotFixes, InitialNotEnforced, FixNotCleaned and SecondRunIgnored state its meaning, and Workspace.Run is proved to compute it |
| Scripts.OneShotCrashes | scripts/prompt_terraform.py:50-51 | the script crashes exactly when `clean_code` raises on the first completion |
| Scripts.OneShotSavesCleaned | scripts/prompt_terraform.py:50-52 | the code saved first is the cleaned completion, without fences or surrounding whitespace |
| Scripts.OneShotFixes | scripts/prompt_terraform.py:56-63 | the error is the verdict on the saved code. A fix is asked for exactly when that error is truthy, and it is the unchanged completion of the fix request |
| Scripts.InitialNotEnforced | scripts/prompt_terraform.py:50-52 | an unfenced, already stripped completion is saved verbatim, since no enforcement happens |
| Scripts.FixNotCleaned | scripts/prompt_terraform.py:62-63 | a fenced fix completion reaches main.tf with its fence |
| Scripts.SecondRunIgnored | scripts/prompt_terraform.py:63-65 | CLIs that agree on the first run give the same outcome, whatever the second run does |
| Scripts.Workspace.constructor | scripts/prompt_terraform.py:36 | the workspace starts with the given main.tf |
| Scripts.Workspace.SaveMainTf | scripts/prompt_terraform.py:20-23 | main.tf holds exactly the content |
| Scripts.Workspace.Run | scripts/prompt_terraform.py:36-65 | the `__main__` block computes `OneShotRun` and leaves main.tf as `FinalMainTf` says |

## Left out

- The chat-completion call (the network, the API key, model and temperature) is the oracle `complete`, indexed by the number of earlier completions. A completion whose content is `None` is not covered.
- `subprocess.run` is the oracle `terraform`. A run's stdout is not modelled because the scripts only print it. The working directory `modules` and `shell=True` are not modelled.
- All `print` output and the warning `enforce_best_practices` prints are left out.
- File I/O is left out:
  - `main.tf` and the report are fields of `Workspace`;
  - `os.makedirs` is left out;
  - failures to open or write a file are not modelled.
- `load_prompt` reads files, so it is left out. The system and user prompts are parameters holding its result, the file text after `strip()`.
- `FIX_PROMPT_TEMPLATE.format` is an opaque parameter `fixFormat(error, code)`. The template file's text is not part of this model, and neither are `format` errors from stray braces.
- Agent.ScriptPrompts: the fix request's system prompt is built once instead of on every attempt. The built value is the same on every attempt.
- The whitespace `strip()` and `\s` use is Python's `str.isspace` table as characters; there is no Unicode database lookup beyond it.
- Agent.EnforceIdempotentWhenNoMatch: idempotence holds only when no certificate assignment is left, because in general it is false (see Agent.EnforceNotIdempotent).
- Scripts.Workspace.Run: the result of the second `run_terraform` call is discarded, as in the source, so no later state depends on it.
- Exceptions other than the `IndexError` of `clean_code` are not modelled. This covers network errors and `KeyboardInterrupt`: such an exception ends the process there.
