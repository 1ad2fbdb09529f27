# Scorecard packaging check and dependency gate, in Dafny

This project models four decision components of the scorecard repository and
proves properties about them.

- **The Packaging check** (`checks/packaging.go`). It lists the repository's
  files whose path starts with `.github/workflows` (compared without regard
  to case, so `.github/workflows-old/ci.yml` is listed too). For each
  such file it fetches and parses the workflow, then classifies it against a
  fixed, ordered catalog of ten job matchers, trying jobs first and matchers
  second. The first publishing workflow with a successful run gives the
  maximum score. A fetch, parse or run-lookup failure gives a runtime error.
  If neither happens, the result is inconclusive.

  A matcher keeps two working lists: the action prefixes (each optionally with
  one `with` parameter) and the command patterns still outstanding. It
  consumes them while scanning the job's steps in order. A job satisfies the
  matcher when both lists end up empty.

  Modules: `Packaging` (`packaging.dfy`) and `PackagingAliasing`
  (`packaging_aliasing.dfy`). The latter holds the shared-slice behaviour of
  the code as written; see "Findings".

- **The dependency policy gate** (`cicd/score_deps.go`, module `DepPolicy`).
  It reads the policy, then picks the first manifest parser that supports the
  manifest path, then reads the dependencies. It skips every dependency
  whose repository URL is not a valid GitHub URL. For every other dependency
  it appends these violations, in order:
  - a violation for a score below the minimum;
  - one violation per failed result of each required check, in
    configuration order and then result order.

- **The go.sum parser and filter** (`cicd/parse_go_mod.go`, module `GoMod`).
  - A path is supported when its base name is `go.sum`.
  - A module is ignored when its name equals an ignore-list entry exactly.
  - Every remaining module whose repository lookup succeeds becomes a
    dependency. The Go code collects them from concurrent goroutines, so
    their order is unspecified.

- **The exit-code contract** (`cicd/main/main.go`, module `CiGate`):
  - exit 2 on an error;
  - otherwise exit 1 when there are failures, printing a header line and
    then one line per failure;
  - otherwise exit 0.

Shared pieces:
- `Text`: `strings.HasPrefix`, ASCII `strings.ToLower`, `path.Base`,
  `strings.Join`, `strings.Split`, the `%d` verb, and the `A.*B` command
  patterns.
- `Seqs`: first-index and remove-at on sequences.
- `Deps`: the records passed between the cicd parts.
- `Wrappers`: `Option`.

Every external effect is an input of the model:
- `Packaging` takes the file listing (`None` when listing fails), a
  per-file read result, and a per-base-name successful-run count (`None`
  when the lookup fails).
- `ScoreDeps` takes the policy (`None` when it cannot be read), the parser
  list, and an `Env` value. `Env` holds URL setting, GitHub-URL validation and
  the scorecard run as functions.
- `GetDependencies` takes the manifest read result and the module-to-repository
  lookup.

Each loop of the source is a Dafny method with loop invariants. The method is
proved equal to a specification function, and the properties are proved as
lemmas about that function.

## Model

| member | source | states |
|---|---|---|
| Packaging.IsGithubWorkflowFileIff | checks/packaging.go:37-39 | a file is listed exactly when its lower-cased name starts with `.github/workflows` |
| Packaging.WorkflowFileAnyCase | checks/packaging.go:38 | the test ignores case: `.GitHub/Workflows/release.yml` is listed |
| Packaging.WorkflowFileSiblingDir | checks/packaging.go:38 | the test is a plain prefix test, so a sibling directory `.github/workflows-old/` is listed too |
| Packaging.WorkflowFileOtherName | checks/packaging.go:38 | `.github/workflow.yml` is not listed |
| Packaging.WorkflowFiles | checks/packaging.go:43 | the listed files are exactly the repository files that pass the workflow-file test |
| Packaging.Packaging | checks/packaging.go:42-94 | the check loop returns the outcome `PackagingOutcome` defines: a listing failure, or the verdict of the first file that forces one, or inconclusive |
| Packaging.RuntimeErrorIff | checks/packaging.go:43-69 | a runtime error is returned exactly when the first file forcing a verdict had a failed fetch, a parse with errors and no workflow, or a failed run lookup |
| Packaging.MaxScoreIff | checks/packaging.go:61-79 | the maximum score is returned exactly when some publishing workflow with at least one successful run is reached before any other verdict; the reported file is such a workflow |
| Packaging.MaxScoreOnlyIfPublishes | checks/packaging.go:61-79 | a maximum score names the first file that publishes and has a successful run |
| Packaging.MaxScoreIfPublishes | checks/packaging.go:61-79 | the first such file, with no earlier verdict, gives the maximum score for that file |
| Packaging.ScanFilesInconclusive | checks/packaging.go:49-93 | the outcome is inconclusive exactly when no file forces a verdict |
| Packaging.ScanFilesFirstStop | checks/packaging.go:49-86 | the outcome is the verdict of the first file that forces one |
| Packaging.UnusedWorkflowSkipped | checks/packaging.go:70-86 | a publishing workflow with zero successful runs is passed over: removing it from the list changes nothing |
| Packaging.NoWorkflowFilesInconclusive | checks/packaging.go:88-93 | with no workflow file listed, the outcome is inconclusive |
| Packaging.Matches | checks/packaging.go:103-128 | the matcher loop returns true exactly when the scan of the job's steps leaves both working lists empty |
| Packaging.RemoveFirstUses | checks/packaging.go:110-125 | an action step removes the first outstanding action pattern it fulfils and leaves the others in order; it removes none if it fulfils none |
| Packaging.RemoveFirstRun | checks/packaging.go:104-106 | a run step removes the first outstanding command pattern its script matches |
| Packaging.ConsumeAtMostOne | checks/packaging.go:110-125 | one step removes at most one pattern, and only from the list of its own kind |
| Packaging.ActionStepConsumes | checks/packaging.go:110-125 | an action step shortens the action list exactly when it fulfils some outstanding pattern, and then removes one pattern whose prefix, followed by `@`, starts its `uses` value |
| Packaging.RunStepConsumes | checks/packaging.go:104-106 | a run step shortens the command list exactly when its script matches an outstanding pattern, and by one pattern at most |
| Packaging.ParamRequired | checks/packaging.go:116-121 | a pattern that demands a `with` parameter is not fulfilled by a step without that key and value |
| Packaging.PrefixNeedsAt | checks/packaging.go:112 | the prefix must be followed by `@`: `actions/setup-node-x@v1` does not fulfil `actions/setup-node` |
| Packaging.ScanAppend | checks/packaging.go:108-127 | scanning two step lists one after the other is scanning their concatenation |
| Packaging.ScanShrinks | checks/packaging.go:123 | scanning only ever removes patterns: both outstanding lists are sub-multisets of the starting ones |
| Packaging.NeverReinstated | checks/packaging.go:123 | a pattern consumed by a prefix of the steps is never outstanding again later |
| Packaging.DoneIsFinal | checks/packaging.go:108-127 | once both lists are empty, further steps change nothing |
| Packaging.SatisfiedNeedsSteps | checks/packaging.go:108-127 | a satisfied matcher needs at least as many steps as it has patterns |
| Packaging.CatalogShape | checks/packaging.go:132-207 | the catalog has ten matchers, none with more than one command pattern |
| Packaging.NodeJobSatisfied | checks/packaging.go:133-143 | setup-node with the npm registry, a build step, then `npm publish` satisfies the npm matcher |
| Packaging.NodeJobWithoutRegistryNotSatisfied | checks/packaging.go:137-139 | the same job without the `registry-url` parameter does not |
| Packaging.NpmBuildDoesNotMatch | checks/packaging.go:141 | `npm run build` does not match `npm.*publish` |
| Packaging.FirstSatisfied | checks/packaging.go:210-225 | the inner catalog loop yields nothing exactly when no matcher is satisfied, and otherwise the log text of the first satisfied one |
| Packaging.FirstMatching | checks/packaging.go:210-225 | the inner loop over the catalog returns what `FirstSatisfied` specifies |
| Packaging.IsPackagingWorkflow | checks/packaging.go:131-226 | the job-major, catalog-minor loop returns `Classify` of the workflow's jobs |
| Packaging.ClassifyNone | checks/packaging.go:209-226 | a workflow is not classified exactly when no (job, matcher) pair is satisfied |
| Packaging.ClassifyFirstHit | checks/packaging.go:209-226 | the first satisfied pair in job-major, catalog-minor order determines the reported log text |
| Packaging.ClassifySomeHit | checks/packaging.go:209-226 | every classification comes from such a first pair |
| PackagingAliasing.AppendRemove | checks/packaging.go:123 | `append(s[:i], s[i+1:]...)` shows `s` without element `i` but shifts the shared backing array in place |
| PackagingAliasing.AliasedScanView | checks/packaging.go:105-125 | within one evaluation, the shared slice shows exactly the patterns the value-semantics scan leaves outstanding |
| PackagingAliasing.FirstJobAsIntended | checks/packaging.go:105-125 | as written, for a matcher without command patterns, the first job of a workflow is still matched as intended |
| PackagingAliasing.SetupOnlyJobCorrupts | checks/packaging.go:123 | as written, a setup-only job leaves the python entry's backing array as [publish, publish] |
| PackagingAliasing.SharedBackingRejectsPublishJob | checks/packaging.go:105-123 | as written, the python entry rejects a publishing job that follows a setup-only job, though that job satisfies it |
| PackagingAliasing.PublishJobClassified | checks/packaging.go:209-226 | with per-evaluation working lists, that workflow is classified as python publishing |
| DepPolicy.ScoreDeps | cicd/score_deps.go:33-114 | the gate returns exactly `Gate`: a fatal error with no failures, or the ordered violations of the parsed dependencies |
| DepPolicy.Gate | cicd/score_deps.go:33-60 | an unreadable policy, or a failure to read the dependencies, is a fatal error with no failures; with no supporting parser, the result is no failures and no error; otherwise the failures are those of the dependencies the parser read |
| DepPolicy.GateErrorIgnoresEnv | cicd/score_deps.go:36-60 | on a policy or manifest error no dependency is evaluated: the answer is the same for every scoring environment |
| DepPolicy.SelectParser | cicd/score_deps.go:45-51 | the selected parser is the first one that supports the path; none is selected when no parser does |
| DepPolicy.GoModParserSelected | cicd/score_deps.go:35-51 | the go.sum parser is selected for the hard-coded manifest path |
| DepPolicy.ScoreDependencies | cicd/score_deps.go:62-111 | the loop over dependencies returns their violations, in dependency order |
| DepPolicy.ScoreDependency | cicd/score_deps.go:65-110 | one dependency appends its violations: none when its URL is invalid, otherwise the score violation followed by the required-check violations |
| DepPolicy.AppendRequiredFailures | cicd/score_deps.go:97-110 | the nested loops append the required-check violations in configuration order, each in result order |
| DepPolicy.ViolationsAppend | cicd/score_deps.go:62-111 | violations only accumulate: those of later dependencies follow those of earlier ones |
| DepPolicy.InvalidRepoSkipped | cicd/score_deps.go:70-72 | a dependency whose URL is not a valid GitHub URL contributes nothing, wherever it appears |
| DepPolicy.SetErrorIgnored | cicd/score_deps.go:65-69 | an error from setting the URL does not change the result |
| DepPolicy.BelowMinimumIff | cicd/score_deps.go:91-96 | a scored dependency has a below-minimum violation exactly when its score is below the minimum, and that violation comes first |
| DepPolicy.CheckViolationsMembers | cicd/score_deps.go:97-109 | a required-check violation is reported exactly for a result with the check's name, confidence not above the configured one, and no pass |
| DepPolicy.CheckViolationsCount | cicd/score_deps.go:98-108 | one violation is reported per failing result, so duplicates are reported twice |
| DepPolicy.RequiredCheckAbsent | cicd/score_deps.go:99-101 | a required check absent from the results yields no violation |
| DepPolicy.RequiredViolationsAppend | cicd/score_deps.go:97-110 | required checks are reported in configuration order |
| DepPolicy.RequiredViolationsAreRequiredFailures | cicd/score_deps.go:97-110 | the required-check loops report only required-check failures |
| DepPolicy.LowConfidenceResultEnforced | cicd/score_deps.go:102-104 | a failed result with confidence below the configured one is still a violation |
| DepPolicy.HighConfidenceResultSkipped | cicd/score_deps.go:102-104 | a failed result with confidence above the configured one is skipped |
| DepPolicy.MessageOneLine | cicd/score_deps.go:92-107 | a failure message is one line when the names in it are |
| GoMod.IsSupportedIff | cicd/parse_go_mod.go:17-19 | a path not ending in `/` is supported exactly when it is `go.sum` or ends in `/go.sum` |
| GoMod.BackupRejected | cicd/parse_go_mod.go:18 | `a/go.sum.bak` is not supported |
| GoMod.NestedManifestAccepted | cicd/parse_go_mod.go:18 | `cmd/tool/go.sum` is supported |
| GoMod.TrailingSlashAccepted | cicd/parse_go_mod.go:18 | `x/go.sum/` is supported, because `path.Base` drops trailing slashes |
| GoMod.DoIgnoreDependency | cicd/parse_go_mod.go:66-73 | a module is ignored exactly when its name equals an entry of the ignore list |
| GoMod.GetRepoInfo | cicd/parse_go_mod.go:40-64 | the collected dependencies are, as a multiset, the modules that are not ignored and whose lookup succeeds |
| GoMod.ResolvedEntries | cicd/parse_go_mod.go:42-60 | a dependency is produced exactly for a listed, non-ignored module whose lookup gives its repository |
| GoMod.ResolvedExcludes | cicd/parse_go_mod.go:43-55 | an ignored module, or one whose lookup fails, yields no dependency |
| GoMod.ResolvedLength | cicd/parse_go_mod.go:42-61 | there are never more dependencies than modules |
| GoMod.IgnoredNeverLookedUp | cicd/parse_go_mod.go:43-51 | ignored modules are never looked up: lookups for them do not affect the result |
| GoMod.OneOfThreeIgnored | cicd/parse_go_mod.go:42-60 | of three resolvable modules with the middle one ignored, the other two are produced |
| GoMod.GetDependencies | cicd/parse_go_mod.go:21-38 | an open or parse error is returned with no dependencies; otherwise the resolved dependencies, with no error |
| Text.BaseIsName | cicd/parse_go_mod.go:18 | for a path not ending in `/`, `path.Base` is `name` exactly when the path is `name` or ends in `/` + `name` |
| CiGate.Decide | cicd/main/main.go:12-24 | exit 2 exactly on an error; otherwise 1 exactly when there are failures, printing the report; otherwise 0 |
| CiGate.RunGate | cicd/main/main.go:12-24 | the process exit code and report follow from the gate's answer |
| CiGate.ReportLines | cicd/main/main.go:19 | the report splits into the header, then exactly the failures in order, then an empty last field |
| CiGate.ViolationReportLines | cicd/main/main.go:19 | with newline-free names, every violation is printed on its own line, in the order the gate found it |

## Left out

- `Packaging.Matches` as written does not finish. The Go function never
  handles run steps. Its parameter check is a dangling `val, ok := ...`. It
  has no `return`. The model follows the evident intent:
  - a run step removes the first outstanding command pattern it matches,
    mirroring the action loop's `break`;
  - a pattern's `with` parameter must be present with the given value;
  - the job matches when both lists are empty.
- `m.with[i]["key"]` cannot work with the catalog's
  `{"registry-url": url}` literal. `with[i]` also loses alignment with
  `uses` once a pattern is removed. Each action pattern is therefore
  modelled as a pair (prefix, optional (key, value)), so both problems
  disappear.
- `Packaging.Matches` cannot fail in the model, so `isPackagingWorkflow`'s
  propagation of a matcher error (checks/packaging.go:211-214) is not
  modelled. The call site at checks/packaging.go:61 uses a single result.
- Command patterns such as `npm.*publish` are never compiled or applied by
  the structured matcher in the source (checks/packaging.go:103-128). The
  model chooses to read each one as the regular expression `A.*B` without
  the `(?s)` flag: the first literal occurs, then the second occurs later,
  with no newline between them, so `.` does not cross a newline. No other
  regular-expression syntax is modelled.
- The older text-based classifiers at checks/packaging.go:229-365 are not
  part of this model.
- `Text.ToLower` folds ASCII letters only. Go's `strings.ToLower` folds all
  of Unicode.
- Logging is not modelled: the detail logger, `fmt.Println` of options and
  dependencies, and zap logger construction. Neither is the URL text in the
  "used in run" message.
- I/O and the network are inputs: file listing, file content, workflow
  parsing (actionlint), successful-run listing, reading the policy
  (`cicd/config.go` is not part of this model), opening and parsing go.sum,
  `cmd.FetchGitRepositoryFromGoMod`, and `pkg.RunScorecards`.
- `log.Fatalf` on a failed logger construction is not modelled.
- The hard-coded manifest path `/home/chris/code/ossf/aqua-dep/go.sum` is
  kept as a constant.
- `GoMod.GetRepoInfo`: the goroutines and channel are modelled as a
  sequential loop. Its contract states only multiset equality with the
  sequential result, because the source gives no order.
- `CiGate.RunGate`: on an error, the Go program prints it to standard output
  with `fmt.Println`. The model records that the error was printed but not
  its text.
- A publishing workflow with zero successful runs does not end the scan. The
  final result is inconclusive, not a low score. Read as "a publishing
  workflow that never ran scores low", the check would stop at such a
  file; the code moves on to the next file, and the model follows the code
  (`Packaging.UnusedWorkflowSkipped`).
- The confidence test of the required checks is modelled literally:
  `requiredCheck.Confidence < checkResult.Confidence` skips the result. So a
  failed result with lower confidence than configured is still reported
  (`DepPolicy.LowConfidenceResultEnforced`). Read as a minimum-confidence
  threshold, the test would skip the lower-confidence result; the code
  skips the higher-confidence one (`DepPolicy.HighConfidenceResultSkipped`),
  and the model follows the code.
- `checks/security_audit.go` is not part of this model.
- `Packaging.IsPackagingWorkflow`: actionlint keeps a workflow's jobs in a
  map, and `range workflow.Jobs` visits them in Go's unspecified, randomised
  order. The model's job sequence stands for the order of one run's map
  iteration. Whether a workflow is classified does not depend on it
  (`Packaging.ClassifyNone`), but the logged matcher text does, and so does
  whether the shared-backing-array finding shows (it needs the setup-only
  job visited first).

## Findings

| source | as written | input that shows it | evidently intended | confidence | as-written member | corrected member |
|---|---|---|---|---|---|---|
| checks/packaging.go:123 | `usesNeedingMatch := m.uses` shares the catalog entry's backing array, and `append(usesNeedingMatch[:i], usesNeedingMatch[i+1:]...)` shifts that array in place, so the next job of the same workflow is matched against corrupted patterns | when Go's map iteration over the workflow's jobs visits the setup-only job first: a workflow whose first job has only `actions/setup-python@v5` and whose second job has `actions/setup-python@v5` then `pypa/gh-action-pypi-publish@release/v1`; the python entry becomes [publish, publish] after the first job and rejects the second | every evaluation starts from the matcher's own patterns, and the workflow is classified as python publishing by its second job | not executed | PackagingAliasing.SharedBackingRejectsPublishJob | PackagingAliasing.PublishJobClassified |
