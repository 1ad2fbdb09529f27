/**
 * The Packaging check: does a repository have a GitHub Actions workflow that
 * publishes a package, and has it ever run successfully?
 *
 * A workflow file is classified by running a fixed, ordered catalog of job
 * matchers over each of its jobs. A matcher keeps two working lists, the
 * action prefixes and the command patterns still outstanding, and consumes
 * them while it scans the job's steps in order; the job satisfies the matcher
 * when both lists are empty at the end of the scan.
 */
module Packaging {
  import opened Wrappers
  import opened Seqs
  import opened Text

  // ---------------------------------------------------------------------
  // The parsed workflow, as the workflow parser delivers it
  // ---------------------------------------------------------------------

  /** A step either references an action (its `uses` value and, when present, its `with` block) or runs a command. */
  datatype Step =
    | ActionStep(uses: string, with: Option<map<string, string>>)
    | RunStep(run: string)

  datatype Job = Job(steps: seq<Step>)

  datatype Workflow = Workflow(jobs: seq<Job>)

  // ---------------------------------------------------------------------
  // Matchers and the catalog
  // ---------------------------------------------------------------------

  /** An action prefix, optionally with the one `with` parameter (key, value) it demands. */
  datatype UsesPattern = UsesPattern(prefix: string, param: Option<(string, string)>)

  /** The regular expression `first.*last`. */
  datatype RunPattern = RunPattern(first: string, last: string)

  datatype JobMatcher = JobMatcher(uses: seq<UsesPattern>, runs: seq<RunPattern>, logText: string)

  const NpmRegistry := "https://registry.npmjs.org"

  const NodeMatcher := JobMatcher(
    [UsesPattern("actions/setup-node", Some(("registry-url", NpmRegistry)))],
    [RunPattern("npm", "publish")],
    "candidate node publishing workflow using npm")

  const PythonMatcher := JobMatcher(
    [UsesPattern("actions/setup-python", None), UsesPattern("pypa/gh-action-pypi-publish", None)],
    [],
    "candidate python publishing workflow using pypi")

  /** The publishing signatures, in the order they are tried. */
  const Catalog: seq<JobMatcher> := [
    NodeMatcher,
    JobMatcher([UsesPattern("actions/setup-java", None)], [RunPattern("mvn", "deploy")],
      "candidate java publishing workflow using maven"),
    JobMatcher([UsesPattern("actions/setup-java", None)], [RunPattern("gradle", "publish")],
      "candidate java publishing workflow using gradle"),
    JobMatcher([], [RunPattern("gem", "push")], "candidate ruby publishing workflow using gem"),
    JobMatcher([], [RunPattern("nuget", "push")], "candidate nuget publishing workflow"),
    JobMatcher([], [RunPattern("docker", "push")], "candidate docker publishing workflow"),
    JobMatcher([UsesPattern("docker/build-push-action", None)], [], "candidate docker publishing workflow"),
    PythonMatcher,
    JobMatcher([UsesPattern("actions/setup-go", None), UsesPattern("goreleaser/goreleaser-action", None)], [],
      "candidate golang publishing workflow"),
    JobMatcher([], [RunPattern("cargo", "publish")], "candidate rust publishing workflow using cargo")
  ]

  /** Ten signatures, none with more than one command pattern. */
  lemma CatalogShape()
    ensures |Catalog| == 10
    ensures forall k :: 0 <= k < |Catalog| ==> |Catalog[k].runs| <= 1
  {
  }

  // ---------------------------------------------------------------------
  // What one step consumes
  // ---------------------------------------------------------------------

  /**
   * A step referencing `uses` with parameters `with` fulfils pattern `p` when
   * `uses` starts with the prefix followed by '@' and, if `p` demands a
   * parameter, the step has a `with` block holding exactly that key and value.
   */
  predicate UsesAccepts(p: UsesPattern, uses: string, with: Option<map<string, string>>)
  {
    HasPrefix(uses, p.prefix + "@") &&
    match p.param
    case None => true
    case Some(kv) => with.Some? && kv.0 in with.value && with.value[kv.0] == kv.1
  }

  predicate RunAccepts(p: RunPattern, run: string)
  {
    LineMatch(run, p.first, p.last)
  }

  function UsesAcceptor(uses: string, with: Option<map<string, string>>): UsesPattern -> bool
  {
    p => UsesAccepts(p, uses, with)
  }

  function RunAcceptor(run: string): RunPattern -> bool
  {
    p => RunAccepts(p, run)
  }

  /** The two working lists of one matcher evaluation. */
  datatype Outstanding = Outstanding(uses: seq<UsesPattern>, runs: seq<RunPattern>)

  /** Each evaluation starts from the matcher's own, unmodified patterns. */
  function Start(m: JobMatcher): Outstanding
  {
    Outstanding(m.uses, m.runs)
  }

  predicate Done(o: Outstanding)
  {
    o.uses == [] && o.runs == []
  }

  /**
   * One step removes the first outstanding pattern of its kind that it
   * fulfils, if any: an action step from the action list, a run step from
   * the command list.
   */
  function Consume(o: Outstanding, step: Step): Outstanding
  {
    match step
    case ActionStep(u, w) => o.(uses := RemoveAt(o.uses, FirstIndex(o.uses, UsesAcceptor(u, w))))
    case RunStep(c) => o.(runs := RemoveAt(o.runs, FirstIndex(o.runs, RunAcceptor(c))))
  }

  /** The working lists after scanning `steps` in order. */
  function Scan(o: Outstanding, steps: seq<Step>): Outstanding
    decreases |steps|
  {
    if steps == [] then o else Scan(Consume(o, steps[0]), steps[1..])
  }

  /** The job satisfies the matcher when the scan leaves both lists empty. */
  predicate Satisfied(m: JobMatcher, job: Job)
  {
    Done(Scan(Start(m), job.steps))
  }

  // ---------------------------------------------------------------------
  // Properties of consumption
  // ---------------------------------------------------------------------

  /**
   * One step removes at most one pattern, only from the list of its own
   * kind, and never adds one.
   */
  lemma ConsumeAtMostOne(o: Outstanding, step: Step)
    ensures var o' := Consume(o, step);
      && multiset(o'.uses) <= multiset(o.uses) && |o.uses| - 1 <= |o'.uses|
      && multiset(o'.runs) <= multiset(o.runs) && |o.runs| - 1 <= |o'.runs|
      && (step.ActionStep? ==> o'.runs == o.runs)
      && (step.RunStep? ==> o'.uses == o.uses)
  {
  }

  /**
   * An action step consumes an outstanding pattern exactly when it fulfils
   * one, and the pattern it consumes is one it fulfils: its `uses` value
   * starts with that prefix followed by '@'.
   */
  lemma ActionStepConsumes(o: Outstanding, uses: string, with: Option<map<string, string>>)
    ensures var o' := Consume(o, ActionStep(uses, with));
      (|o'.uses| < |o.uses| <==> exists k :: 0 <= k < |o.uses| && UsesAccepts(o.uses[k], uses, with))
    ensures var o' := Consume(o, ActionStep(uses, with));
      |o'.uses| < |o.uses| ==>
        exists p :: p in o.uses && HasPrefix(uses, p.prefix + "@") && multiset(o'.uses) + multiset{p} == multiset(o.uses)
  {
    var i := FirstIndex(o.uses, UsesAcceptor(uses, with));
    if i < |o.uses| {
      assert UsesAcceptor(uses, with)(o.uses[i]);
    } else {
      forall k | 0 <= k < |o.uses| ensures !UsesAccepts(o.uses[k], uses, with) {
        assert !UsesAcceptor(uses, with)(o.uses[k]);
      }
    }
  }

  /** A run step consumes one command pattern exactly when it matches one, never more. */
  lemma RunStepConsumes(o: Outstanding, run: string)
    ensures var o' := Consume(o, RunStep(run));
      && (|o'.runs| < |o.runs| <==> exists k :: 0 <= k < |o.runs| && RunAccepts(o.runs[k], run))
      && |o.runs| - 1 <= |o'.runs|
  {
    var i := FirstIndex(o.runs, RunAcceptor(run));
    if i < |o.runs| {
      assert RunAcceptor(run)(o.runs[i]);
    } else {
      forall k | 0 <= k < |o.runs| ensures !RunAccepts(o.runs[k], run) {
        assert !RunAcceptor(run)(o.runs[k]);
      }
    }
  }

  /**
   * A pattern that demands a parameter is not fulfilled by a step without a
   * `with` block, nor by one whose block lacks the key or holds another value.
   */
  lemma ParamRequired(p: UsesPattern, uses: string, with: Option<map<string, string>>)
    requires p.param.Some?
    requires with.None? || p.param.value.0 !in with.value || with.value[p.param.value.0] != p.param.value.1
    ensures !UsesAccepts(p, uses, with)
  {
  }

  /** The prefix must be followed by '@': "actions/setup-node-x@v1" is not "actions/setup-node". */
  lemma PrefixNeedsAt(with: Option<map<string, string>>)
    ensures !UsesAccepts(UsesPattern("actions/setup-node", None), "actions/setup-node-x@v1", with)
  {
    var s := "actions/setup-node-x@v1";
    assert s[18] == '-';
  }

  lemma {:induction false} ScanAppend(o: Outstanding, s1: seq<Step>, s2: seq<Step>)
    ensures Scan(o, s1 + s2) == Scan(Scan(o, s1), s2)
    decreases |s1|
  {
    if s1 != [] {
      assert (s1 + s2)[0] == s1[0];
      assert (s1 + s2)[1..] == s1[1..] + s2;
      ScanAppend(Consume(o, s1[0]), s1[1..], s2);
    } else {
      assert s1 + s2 == s2;
    }
  }

  /** Within one scan the outstanding lists only shrink, by at most one pattern per step. */
  lemma {:induction false} ScanShrinks(o: Outstanding, steps: seq<Step>)
    ensures var o' := Scan(o, steps);
      && multiset(o'.uses) <= multiset(o.uses) && multiset(o'.runs) <= multiset(o.runs)
      && |o.uses| + |o.runs| <= |o'.uses| + |o'.runs| + |steps|
    decreases |steps|
  {
    if steps != [] {
      ConsumeAtMostOne(o, steps[0]);
      ScanShrinks(Consume(o, steps[0]), steps[1..]);
    }
  }

  /**
   * A pattern consumed by the first k steps is never reinstated by the ones
   * after: what is outstanding at the end is contained in what was
   * outstanding after any prefix of the steps.
   */
  lemma NeverReinstated(o: Outstanding, steps: seq<Step>, k: nat)
    requires k <= |steps|
    ensures multiset(Scan(o, steps).uses) <= multiset(Scan(o, steps[..k]).uses)
    ensures multiset(Scan(o, steps).runs) <= multiset(Scan(o, steps[..k]).runs)
  {
    assert steps == steps[..k] + steps[k..];
    ScanAppend(o, steps[..k], steps[k..]);
    ScanShrinks(Scan(o, steps[..k]), steps[k..]);
  }

  /** Once both lists are empty the rest of the job changes nothing, so the scan may stop early. */
  lemma {:induction false} DoneIsFinal(o: Outstanding, steps: seq<Step>)
    requires Done(o)
    ensures Scan(o, steps) == o
    decreases |steps|
  {
    if steps != [] {
      DoneIsFinal(Consume(o, steps[0]), steps[1..]);
    }
  }

  /** A job satisfies a matcher only if it has at least as many steps as the matcher has patterns. */
  lemma SatisfiedNeedsSteps(m: JobMatcher, job: Job)
    requires Satisfied(m, job)
    ensures |m.uses| + |m.runs| <= |job.steps|
  {
    ScanShrinks(Start(m), job.steps);
  }

  // ---------------------------------------------------------------------
  // The matcher, as an imperative scan over working copies
  // ---------------------------------------------------------------------

  /** Scans the job's steps, consuming outstanding patterns; true when none is left. */
  method Matches(m: JobMatcher, job: Job) returns (ok: bool)
    ensures ok <==> Satisfied(m, job)
  {
    var usesNeedingMatch := m.uses;
    var runsNeedingMatch := m.runs;
    for k := 0 to |job.steps|
      invariant Scan(Start(m), job.steps) == Scan(Outstanding(usesNeedingMatch, runsNeedingMatch), job.steps[k..])
    {
      ghost var before := Outstanding(usesNeedingMatch, runsNeedingMatch);
      match job.steps[k] {
        case ActionStep(uses, with) =>
          usesNeedingMatch := RemoveFirstUses(usesNeedingMatch, uses, with);
        case RunStep(run) =>
          runsNeedingMatch := RemoveFirstRun(runsNeedingMatch, run);
      }
      ScanSuffixStep(before, job.steps, k);
    }
    ok := usesNeedingMatch == [] && runsNeedingMatch == [];
  }

  /** The action-step half of one iteration: drop the first pattern the step fulfils. */
  method RemoveFirstUses(usesNeedingMatch: seq<UsesPattern>, uses: string, with: Option<map<string, string>>)
    returns (rest: seq<UsesPattern>)
    ensures rest == RemoveAt(usesNeedingMatch, FirstIndex(usesNeedingMatch, UsesAcceptor(uses, with)))
  {
    rest := usesNeedingMatch;
    var i := 0;
    while i < |usesNeedingMatch|
      invariant 0 <= i <= |usesNeedingMatch|
      invariant forall j :: 0 <= j < i ==> !UsesAcceptor(uses, with)(usesNeedingMatch[j])
    {
      var needingMatch := usesNeedingMatch[i];
      if !HasPrefix(uses, needingMatch.prefix + "@") {
        i := i + 1;
        continue;
      }
      if needingMatch.param.Some? {
        if with.None? {
          i := i + 1;
          continue;
        }
        var (key, value) := needingMatch.param.value;
        if key !in with.value || with.value[key] != value {
          i := i + 1;
          continue;
        }
      }
      rest := usesNeedingMatch[..i] + usesNeedingMatch[i + 1..];
      return;
    }
  }

  /** The run-step half of one iteration: drop the first command pattern the script matches. */
  method RemoveFirstRun(runsNeedingMatch: seq<RunPattern>, run: string) returns (rest: seq<RunPattern>)
    ensures rest == RemoveAt(runsNeedingMatch, FirstIndex(runsNeedingMatch, RunAcceptor(run)))
  {
    rest := runsNeedingMatch;
    for i := 0 to |runsNeedingMatch|
      invariant forall j :: 0 <= j < i ==> !RunAcceptor(run)(runsNeedingMatch[j])
    {
      if RunAccepts(runsNeedingMatch[i], run) {
        rest := runsNeedingMatch[..i] + runsNeedingMatch[i + 1..];
        return;
      }
    }
  }

  /** Scanning from step `k` is consuming step `k` and scanning from the next one. */
  lemma ScanSuffixStep(o: Outstanding, steps: seq<Step>, k: nat)
    requires k < |steps|
    ensures Scan(o, steps[k..]) == Scan(Consume(o, steps[k]), steps[k + 1..])
  {
    assert steps[k..][1..] == steps[k + 1..];
  }

  // ---------------------------------------------------------------------
  // Two scenarios for the npm signature
  // ---------------------------------------------------------------------

  const NodeJob := Job([
    ActionStep("actions/setup-node@v4", Some(map["registry-url" := NpmRegistry])),
    RunStep("npm run build"),
    RunStep("npm publish")])

  lemma SetupNodeWithRegistryAccepted()
    ensures UsesAccepts(NodeMatcher.uses[0], NodeJob.steps[0].uses, NodeJob.steps[0].with)
  {
    assert "actions/setup-node@v4"[..19] == "actions/setup-node" + "@";
  }

  lemma NpmPublishMatches()
    ensures RunAccepts(NodeMatcher.runs[0], "npm publish")
  {
    assert OccursAt("npm publish", "npm", 0) && OccursAt("npm publish", "publish", 4);
    assert "npm publish"[3..4] == " ";
  }

  lemma NpmBuildDoesNotMatch()
    ensures !RunAccepts(NodeMatcher.runs[0], "npm run build")
  {
    var s := "npm run build";
    forall j | 0 <= j && j + 7 <= |s| ensures !OccursAt(s, "publish", j) {
      assert s[j..j + 7][0] == s[j] && s[j..j + 7][1] == s[j + 1];
    }
  }

  /** A three-step job is scanned by consuming its steps in order. */
  lemma ScanThree(o: Outstanding, steps: seq<Step>)
    requires |steps| == 3
    ensures Scan(o, steps) == Consume(Consume(Consume(o, steps[0]), steps[1]), steps[2])
  {
    var o1 := Consume(o, steps[0]);
    var o2 := Consume(o1, steps[1]);
    ScanSuffixStep(o, steps, 0);
    ScanSuffixStep(o1, steps, 1);
    ScanSuffixStep(o2, steps, 2);
    assert steps[0..] == steps && steps[3..] == [];
  }

  /** setup-node with the npm registry, then "npm publish": the npm signature is satisfied. */
  lemma NodeJobSatisfied()
    ensures Satisfied(NodeMatcher, NodeJob)
  {
    ScanThree(Start(NodeMatcher), NodeJob.steps);
    NodeSetupConsumed();
    NodeBuildSkipped();
    NodePublishConsumed();
  }

  lemma NodeSetupConsumed()
    ensures Consume(Start(NodeMatcher), NodeJob.steps[0]) == Outstanding([], NodeMatcher.runs)
  {
    SetupNodeWithRegistryAccepted();
    assert UsesAcceptor(NodeJob.steps[0].uses, NodeJob.steps[0].with)(NodeMatcher.uses[0]);
  }

  lemma NodeBuildSkipped()
    ensures Consume(Outstanding([], NodeMatcher.runs), NodeJob.steps[1]) == Outstanding([], NodeMatcher.runs)
  {
    NpmBuildDoesNotMatch();
    assert !RunAcceptor(NodeJob.steps[1].run)(NodeMatcher.runs[0]);
  }

  lemma NodePublishConsumed()
    ensures Consume(Outstanding([], NodeMatcher.runs), NodeJob.steps[2]) == Outstanding([], [])
  {
    NpmPublishMatches();
    assert RunAcceptor(NodeJob.steps[2].run)(NodeMatcher.runs[0]);
  }

  /** The same job without the registry-url parameter does not satisfy it. */
  lemma NodeJobWithoutRegistryNotSatisfied()
    ensures !Satisfied(NodeMatcher, NodeJob.(steps := [ActionStep("actions/setup-node@v4", None)] + NodeJob.steps[1..]))
  {
    var steps := [ActionStep("actions/setup-node@v4", None)] + NodeJob.steps[1..];
    var o0 := Start(NodeMatcher);
    ScanThree(o0, steps);
    ParamRequired(o0.uses[0], steps[0].uses, None);
    assert !UsesAcceptor(steps[0].uses, None)(o0.uses[0]);
    assert Consume(o0, steps[0]).uses == o0.uses;
  }

  // ---------------------------------------------------------------------
  // Classifying a workflow: jobs first, catalog second, first hit wins
  // ---------------------------------------------------------------------

  /** `ms[k]` is the first matcher of `ms` that `job` satisfies. */
  ghost predicate FirstMatcherHit(ms: seq<JobMatcher>, job: Job, k: int)
  {
    0 <= k < |ms| && Satisfied(ms[k], job) && forall k' :: 0 <= k' < k ==> !Satisfied(ms[k'], job)
  }

  /** (jobs[j], ms[k]) is the first satisfied pair in job-major, catalog-minor order. */
  ghost predicate FirstHit(jobs: seq<Job>, ms: seq<JobMatcher>, j: int, k: int)
  {
    && 0 <= j < |jobs|
    && FirstMatcherHit(ms, jobs[j], k)
    && forall j', k' :: 0 <= j' < j && 0 <= k' < |ms| ==> !Satisfied(ms[k'], jobs[j'])
  }

  /** The log text of the first matcher that `job` satisfies. */
  function FirstSatisfied(ms: seq<JobMatcher>, job: Job): (r: Option<string>)
    ensures r.None? <==> forall k :: 0 <= k < |ms| ==> !Satisfied(ms[k], job)
    ensures r.Some? ==> exists k :: FirstMatcherHit(ms, job, k) && r.value == ms[k].logText
  {
    if ms == [] then None
    else if Satisfied(ms[0], job) then
      assert FirstMatcherHit(ms, job, 0);
      Some(ms[0].logText)
    else
      var r := FirstSatisfied(ms[1..], job);
      assert forall k :: 1 <= k < |ms| ==> ms[k] == ms[1..][k - 1];
      assert r.Some? ==> exists k :: FirstMatcherHit(ms, job, k) && r.value == ms[k].logText by {
        if r.Some? {
          var k :| FirstMatcherHit(ms[1..], job, k) && r.value == ms[1..][k].logText;
          assert FirstMatcherHit(ms, job, k + 1);
        }
      }
      r
  }

  /** The log text of the first (job, matcher) pair that matches. */
  function Classify(jobs: seq<Job>, ms: seq<JobMatcher>): Option<string>
  {
    if jobs == [] then None
    else match FirstSatisfied(ms, jobs[0])
      case Some(t) => Some(t)
      case None => Classify(jobs[1..], ms)
  }

  /** Classification is negative exactly when no job satisfies any matcher. */
  lemma {:induction false} ClassifyNone(jobs: seq<Job>, ms: seq<JobMatcher>)
    ensures Classify(jobs, ms).None? <==>
      forall j, k :: 0 <= j < |jobs| && 0 <= k < |ms| ==> !Satisfied(ms[k], jobs[j])
  {
    if jobs != [] {
      ClassifyNone(jobs[1..], ms);
      assert forall j :: 1 <= j < |jobs| ==> jobs[j] == jobs[1..][j - 1];
    }
  }

  /** The first satisfied pair decides the classification and its log text. */
  lemma {:induction false} ClassifyFirstHit(jobs: seq<Job>, ms: seq<JobMatcher>, j: int, k: int)
    requires FirstHit(jobs, ms, j, k)
    ensures Classify(jobs, ms) == Some(ms[k].logText)
  {
    if j == 0 {
      var r := FirstSatisfied(ms, jobs[0]);
      var k' :| FirstMatcherHit(ms, jobs[0], k') && r.value == ms[k'].logText;
      assert k' == k;
    } else {
      assert FirstSatisfied(ms, jobs[0]).None?;
      assert forall j' :: 1 <= j' < |jobs| ==> jobs[j'] == jobs[1..][j' - 1];
      ClassifyFirstHit(jobs[1..], ms, j - 1, k);
    }
  }

  /** A positive classification always comes from a first satisfied pair. */
  lemma {:induction false} ClassifySomeHit(jobs: seq<Job>, ms: seq<JobMatcher>)
    requires Classify(jobs, ms).Some?
    ensures exists j, k :: FirstHit(jobs, ms, j, k) && Classify(jobs, ms) == Some(ms[k].logText)
  {
    var r := FirstSatisfied(ms, jobs[0]);
    if r.Some? {
      var k :| FirstMatcherHit(ms, jobs[0], k) && r.value == ms[k].logText;
      assert FirstHit(jobs, ms, 0, k);
    } else {
      ClassifySomeHit(jobs[1..], ms);
      var j, k :| FirstHit(jobs[1..], ms, j, k) && Classify(jobs[1..], ms) == Some(ms[k].logText);
      assert forall j' :: 1 <= j' < |jobs| ==> jobs[j'] == jobs[1..][j' - 1];
      assert FirstHit(jobs, ms, j + 1, k);
    }
  }

  /**
   * Tries every catalog matcher on every job, jobs first; answers the log
   * text of the first matcher that a job satisfies, or None.
   */
  method IsPackagingWorkflow(workflow: Workflow) returns (found: Option<string>)
    ensures found == Classify(workflow.jobs, Catalog)
  {
    var jobs := workflow.jobs;
    for j := 0 to |jobs|
      invariant Classify(jobs, Catalog) == Classify(jobs[j..], Catalog)
    {
      ClassifySuffixStep(jobs, j, Catalog);
      found := FirstMatching(Catalog, jobs[j]);
      if found.Some? {
        return;
      }
    }
    ClassifyEnd(jobs, Catalog);
    return None;
  }

  /** The inner loop of the classifier: the first matcher, in order, that the job satisfies. */
  method FirstMatching(ms: seq<JobMatcher>, job: Job) returns (found: Option<string>)
    ensures found == FirstSatisfied(ms, job)
  {
    for k := 0 to |ms|
      invariant FirstSatisfied(ms, job) == FirstSatisfied(ms[k..], job)
    {
      var matcher := ms[k];
      FirstSatisfiedSuffixStep(ms, k, job);
      var isMatch := Matches(matcher, job);
      if isMatch {
        return Some(matcher.logText);
      }
    }
    FirstSatisfiedEnd(ms, job);
    return None;
  }

  lemma ClassifySuffixStep(jobs: seq<Job>, j: nat, ms: seq<JobMatcher>)
    requires j < |jobs|
    ensures Classify(jobs[j..], ms) == if FirstSatisfied(ms, jobs[j]).Some? then FirstSatisfied(ms, jobs[j]) else Classify(jobs[j + 1..], ms)
  {
    assert jobs[j..][0] == jobs[j] && jobs[j..][1..] == jobs[j + 1..];
  }

  lemma ClassifyEnd(jobs: seq<Job>, ms: seq<JobMatcher>)
    ensures Classify(jobs[|jobs|..], ms) == None
  {
    assert jobs[|jobs|..] == [];
  }

  lemma FirstSatisfiedSuffixStep(ms: seq<JobMatcher>, k: nat, job: Job)
    requires k < |ms|
    ensures FirstSatisfied(ms[k..], job) == if Satisfied(ms[k], job) then Some(ms[k].logText) else FirstSatisfied(ms[k + 1..], job)
  {
    assert ms[k..][0] == ms[k] && ms[k..][1..] == ms[k + 1..];
  }

  lemma FirstSatisfiedEnd(ms: seq<JobMatcher>, job: Job)
    ensures FirstSatisfied(ms[|ms|..], job) == None
  {
    assert ms[|ms|..] == [];
  }


  // ---------------------------------------------------------------------
  // The check over the repository's workflow files
  // ---------------------------------------------------------------------

  const WorkflowDir := ".github/workflows"

  /** Whether a repository path is listed as a workflow file: a case-insensitive prefix test. */
  function IsGithubWorkflowFile(filename: string): bool
  {
    HasPrefix(ToLower(filename), WorkflowDir)
  }

  /** The test compares the first 17 characters, letter case aside, and nothing more. */
  lemma IsGithubWorkflowFileIff(filename: string)
    ensures IsGithubWorkflowFile(filename) <==>
      |filename| >= |WorkflowDir| && forall k :: 0 <= k < |WorkflowDir| ==> LowerChar(filename[k]) == WorkflowDir[k]
  {
    var low := ToLower(filename);
    if |filename| >= |WorkflowDir| && forall k :: 0 <= k < |WorkflowDir| ==> LowerChar(filename[k]) == WorkflowDir[k] {
      assert low[..|WorkflowDir|] == WorkflowDir;
    }
    if IsGithubWorkflowFile(filename) {
      forall k | 0 <= k < |WorkflowDir| ensures LowerChar(filename[k]) == WorkflowDir[k] {
        assert low[k] == low[..|WorkflowDir|][k];
      }
    }
  }

  /** No trailing slash is needed: the directory name itself passes. */
  lemma WorkflowDirItself()
    ensures IsGithubWorkflowFile(".github/workflows")
  {
    IsGithubWorkflowFileIff(".github/workflows");
  }

  /** Letter case does not matter. */
  lemma WorkflowFileAnyCase()
    ensures IsGithubWorkflowFile(".GitHub/Workflows/release.yml")
  {
    IsGithubWorkflowFileIff(".GitHub/Workflows/release.yml");
  }

  /** Only the prefix is compared, so a sibling directory such as ".github/workflows-old" passes too. */
  lemma WorkflowFileSiblingDir()
    ensures IsGithubWorkflowFile(".github/workflows-old/ci.yml")
  {
    IsGithubWorkflowFileIff(".github/workflows-old/ci.yml");
  }

  lemma WorkflowFileOtherName()
    ensures !IsGithubWorkflowFile(".github/workflow.yml")
  {
    IsGithubWorkflowFileIff(".github/workflow.yml");
    assert LowerChar(".github/workflow.yml"[16]) != WorkflowDir[16];
  }

  /** The files the repository client lists for the workflow-file predicate, in listing order. */
  function WorkflowFiles(files: seq<string>): (r: seq<string>)
    ensures forall f :: f in r <==> f in files && IsGithubWorkflowFile(f)
  {
    if files == [] then []
    else (if IsGithubWorkflowFile(files[0]) then [files[0]] else []) + WorkflowFiles(files[1..])
  }

  /** What reading and parsing one workflow file gives. */
  datatype FileRead =
    | ContentError           // the file's content could not be fetched
    | Unparsable             // the parser reported errors and produced no workflow
    | Parsed(workflow: Workflow)

  datatype Cause = ListFilesFailed | ContentFailed(path: string) | ParseFailed(path: string) | RunsLookupFailed(path: string)

  datatype CheckOutcome =
    | RuntimeError(cause: Cause)
    | MaxScore(path: string)   // "publishing workflow detected", with the file whose runs show it in use
    | Inconclusive             // "no published package detected"

  /** Whether a workflow satisfies some catalog matcher in some job. */
  predicate IsPublishing(w: Workflow)
  {
    Classify(w.jobs, Catalog).Some?
  }

  /**
   * The verdict one file forces, or None when the scan goes on to the next
   * file: a file that is not a publishing workflow, or one that is but has
   * no successful run. Runs are looked up by the file's base name. The
   * check classifies workflows with `IsPublishing`; the scan is stated for
   * any classifier so that its properties do not depend on the catalog.
   */
  function FileVerdict(fp: string, read: FileRead, runs: string -> Option<nat>, publishing: Workflow -> bool): Option<CheckOutcome>
  {
    match read
    case ContentError => Some(RuntimeError(ContentFailed(fp)))
    case Unparsable => Some(RuntimeError(ParseFailed(fp)))
    case Parsed(w) =>
      if !publishing(w) then None
      else match runs(Base(fp))
        case None => Some(RuntimeError(RunsLookupFailed(fp)))
        case Some(n) => if n > 0 then Some(MaxScore(fp)) else None
  }

  function ScanFiles(fps: seq<string>, fetch: string -> FileRead, runs: string -> Option<nat>, publishing: Workflow -> bool): CheckOutcome
  {
    if fps == [] then Inconclusive
    else match FileVerdict(fps[0], fetch(fps[0]), runs, publishing)
      case Some(v) => v
      case None => ScanFiles(fps[1..], fetch, runs, publishing)
  }

  /** The check's outcome; `listing` is None when listing the repository's files fails. */
  function PackagingOutcome(listing: Option<seq<string>>, fetch: string -> FileRead, runs: string -> Option<nat>): CheckOutcome
  {
    match listing
    case None => RuntimeError(ListFilesFailed)
    case Some(files) => ScanFiles(WorkflowFiles(files), fetch, runs, IsPublishing)
  }

  /** `fps[k]` is the first file that forces a verdict. */
  ghost predicate FirstStop(fps: seq<string>, fetch: string -> FileRead, runs: string -> Option<nat>, publishing: Workflow -> bool, k: int)
  {
    && 0 <= k < |fps|
    && FileVerdict(fps[k], fetch(fps[k]), runs, publishing).Some?
    && forall i :: 0 <= i < k ==> FileVerdict(fps[i], fetch(fps[i]), runs, publishing).None?
  }

  lemma {:induction false} ScanFilesFirstStop(fps: seq<string>, fetch: string -> FileRead, runs: string -> Option<nat>, publishing: Workflow -> bool, k: int)
    requires FirstStop(fps, fetch, runs, publishing, k)
    ensures ScanFiles(fps, fetch, runs, publishing) == FileVerdict(fps[k], fetch(fps[k]), runs, publishing).value
  {
    if k > 0 {
      assert forall i :: 1 <= i < |fps| ==> fps[i] == fps[1..][i - 1];
      ScanFilesFirstStop(fps[1..], fetch, runs, publishing, k - 1);
    }
  }

  /** The outcome is inconclusive exactly when no file forces a verdict. */
  lemma {:induction false} ScanFilesInconclusive(fps: seq<string>, fetch: string -> FileRead, runs: string -> Option<nat>, publishing: Workflow -> bool)
    ensures ScanFiles(fps, fetch, runs, publishing) == Inconclusive <==>
      forall i :: 0 <= i < |fps| ==> FileVerdict(fps[i], fetch(fps[i]), runs, publishing).None?
  {
    if fps != [] {
      ScanFilesInconclusive(fps[1..], fetch, runs, publishing);
      assert forall i :: 1 <= i < |fps| ==> fps[i] == fps[1..][i - 1];
    }
  }

  /** When the outcome is not inconclusive, some file is the first to force it. */
  lemma {:induction false} ScanFilesStops(fps: seq<string>, fetch: string -> FileRead, runs: string -> Option<nat>, publishing: Workflow -> bool)
    requires ScanFiles(fps, fetch, runs, publishing) != Inconclusive
    ensures exists k :: FirstStop(fps, fetch, runs, publishing, k) && ScanFiles(fps, fetch, runs, publishing) == FileVerdict(fps[k], fetch(fps[k]), runs, publishing).value
  {
    if FileVerdict(fps[0], fetch(fps[0]), runs, publishing).Some? {
      assert FirstStop(fps, fetch, runs, publishing, 0);
    } else {
      ScanFilesStops(fps[1..], fetch, runs, publishing);
      var k :| FirstStop(fps[1..], fetch, runs, publishing, k) && ScanFiles(fps[1..], fetch, runs, publishing) == FileVerdict(fps[1..][k], fetch(fps[1..][k]), runs, publishing).value;
      assert forall i :: 1 <= i < |fps| ==> fps[i] == fps[1..][i - 1];
      assert FirstStop(fps, fetch, runs, publishing, k + 1);
    }
  }

  /** A file that parses, is a publishing workflow and has at least one successful run. */
  ghost predicate PublishesWithRuns(fp: string, fetch: string -> FileRead, runs: string -> Option<nat>, publishing: Workflow -> bool)
  {
    fetch(fp).Parsed? && publishing(fetch(fp).workflow) && runs(Base(fp)).Some? && runs(Base(fp)).value > 0
  }

  /** `fps[k]` publishes with a successful run, and no file before it forces a verdict. */
  ghost predicate FirstPublishes(fps: seq<string>, fetch: string -> FileRead, runs: string -> Option<nat>, publishing: Workflow -> bool, k: int)
  {
    && 0 <= k < |fps|
    && PublishesWithRuns(fps[k], fetch, runs, publishing)
    && forall i :: 0 <= i < k ==> FileVerdict(fps[i], fetch(fps[i]), runs, publishing).None?
  }

  /** A file's verdict is the maximum score exactly when it publishes with a successful run. */
  lemma MaxScoreVerdict(fp: string, fetch: string -> FileRead, runs: string -> Option<nat>, publishing: Workflow -> bool)
    ensures PublishesWithRuns(fp, fetch, runs, publishing) <==> FileVerdict(fp, fetch(fp), runs, publishing) == Some(MaxScore(fp))
    ensures FileVerdict(fp, fetch(fp), runs, publishing).Some? && FileVerdict(fp, fetch(fp), runs, publishing).value.MaxScore? ==>
      FileVerdict(fp, fetch(fp), runs, publishing) == Some(MaxScore(fp))
  {
  }

  lemma MaxScoreOnlyIfPublishes(fps: seq<string>, fetch: string -> FileRead, runs: string -> Option<nat>, publishing: Workflow -> bool)
    requires ScanFiles(fps, fetch, runs, publishing).MaxScore?
    ensures exists k :: FirstPublishes(fps, fetch, runs, publishing, k) && ScanFiles(fps, fetch, runs, publishing) == MaxScore(fps[k])
  {
    ScanFilesStops(fps, fetch, runs, publishing);
    var k :| FirstStop(fps, fetch, runs, publishing, k) && ScanFiles(fps, fetch, runs, publishing) == FileVerdict(fps[k], fetch(fps[k]), runs, publishing).value;
    MaxScoreVerdict(fps[k], fetch, runs, publishing);
    assert FirstPublishes(fps, fetch, runs, publishing, k);
  }

  lemma MaxScoreIfPublishes(fps: seq<string>, fetch: string -> FileRead, runs: string -> Option<nat>, publishing: Workflow -> bool, k: int)
    requires FirstPublishes(fps, fetch, runs, publishing, k)
    ensures ScanFiles(fps, fetch, runs, publishing) == MaxScore(fps[k])
  {
    MaxScoreVerdict(fps[k], fetch, runs, publishing);
    assert FirstStop(fps, fetch, runs, publishing, k);
    ScanFilesFirstStop(fps, fetch, runs, publishing, k);
  }

  /**
   * The maximum score is given exactly when some publishing workflow file
   * with a successful run is reached before any file forces another verdict,
   * and it names that file.
   */
  lemma MaxScoreIff(fps: seq<string>, fetch: string -> FileRead, runs: string -> Option<nat>, publishing: Workflow -> bool)
    ensures ScanFiles(fps, fetch, runs, publishing).MaxScore? <==> exists k :: FirstPublishes(fps, fetch, runs, publishing, k)
    ensures ScanFiles(fps, fetch, runs, publishing).MaxScore? ==> PublishesWithRuns(ScanFiles(fps, fetch, runs, publishing).path, fetch, runs, publishing)
  {
    if ScanFiles(fps, fetch, runs, publishing).MaxScore? {
      MaxScoreOnlyIfPublishes(fps, fetch, runs, publishing);
    }
    if exists k :: FirstPublishes(fps, fetch, runs, publishing, k) {
      var k :| FirstPublishes(fps, fetch, runs, publishing, k);
      MaxScoreIfPublishes(fps, fetch, runs, publishing, k);
    }
  }

  /**
   * A runtime error is reported exactly when the first file that forces a
   * verdict is one whose content, parse or run lookup failed.
   */
  lemma RuntimeErrorIff(fps: seq<string>, fetch: string -> FileRead, runs: string -> Option<nat>, publishing: Workflow -> bool)
    ensures ScanFiles(fps, fetch, runs, publishing).RuntimeError? <==>
      exists k :: FirstStop(fps, fetch, runs, publishing, k) &&
        (fetch(fps[k]).ContentError? || fetch(fps[k]).Unparsable? || runs(Base(fps[k])).None?)
  {
    if ScanFiles(fps, fetch, runs, publishing).RuntimeError? {
      ScanFilesStops(fps, fetch, runs, publishing);
    }
    if exists k :: FirstStop(fps, fetch, runs, publishing, k) &&
        (fetch(fps[k]).ContentError? || fetch(fps[k]).Unparsable? || runs(Base(fps[k])).None?) {
      var k :| FirstStop(fps, fetch, runs, publishing, k) &&
        (fetch(fps[k]).ContentError? || fetch(fps[k]).Unparsable? || runs(Base(fps[k])).None?);
      ScanFilesFirstStop(fps, fetch, runs, publishing, k);
    }
  }

  /**
   * A publishing workflow with no successful run does not end the scan: the
   * outcome is the one the remaining files give without it.
   */
  lemma {:induction false} UnusedWorkflowSkipped(pre: seq<string>, fp: string, post: seq<string>,
                                                 fetch: string -> FileRead, runs: string -> Option<nat>, publishing: Workflow -> bool)
    requires fetch(fp).Parsed? && publishing(fetch(fp).workflow) && runs(Base(fp)) == Some(0)
    ensures ScanFiles(pre + [fp] + post, fetch, runs, publishing) == ScanFiles(pre + post, fetch, runs, publishing)
  {
    if pre == [] {
      assert pre + [fp] + post == [fp] + post;
      assert ([fp] + post)[1..] == post;
      assert pre + post == post;
    } else {
      assert (pre + [fp] + post)[0] == pre[0] && (pre + [fp] + post)[1..] == pre[1..] + [fp] + post;
      assert (pre + post)[0] == pre[0] && (pre + post)[1..] == pre[1..] + post;
      UnusedWorkflowSkipped(pre[1..], fp, post, fetch, runs, publishing);
    }
  }

  lemma {:induction false} NoWorkflowFilesListed(files: seq<string>)
    requires forall k :: 0 <= k < |files| ==> !IsGithubWorkflowFile(files[k])
    ensures WorkflowFiles(files) == []
  {
    if files != [] {
      NoWorkflowFilesListed(files[1..]);
    }
  }

  /** A repository without workflow files is inconclusive, not an error and not a score. */
  lemma NoWorkflowFilesInconclusive(files: seq<string>, fetch: string -> FileRead, runs: string -> Option<nat>)
    requires forall k :: 0 <= k < |files| ==> !IsGithubWorkflowFile(files[k])
    ensures PackagingOutcome(Some(files), fetch, runs) == Inconclusive
  {
    NoWorkflowFilesListed(files);
  }

  /**
   * Lists the workflow files and scans them in order: an error ends the
   * check, a publishing workflow with a successful run gives the maximum
   * score, and when no file decides the outcome is inconclusive.
   */
  method Packaging(listing: Option<seq<string>>, fetch: string -> FileRead, runs: string -> Option<nat>)
    returns (result: CheckOutcome)
    ensures result == PackagingOutcome(listing, fetch, runs)
  {
    if listing.None? {
      return RuntimeError(ListFilesFailed);
    }
    var matchedFiles := WorkflowFiles(listing.value);
    var n := 0;
    while n < |matchedFiles|
      invariant 0 <= n <= |matchedFiles|
      invariant PackagingOutcome(listing, fetch, runs) == ScanFiles(matchedFiles[n..], fetch, runs, IsPublishing)
    {
      var fp := matchedFiles[n];
      assert matchedFiles[n..][0] == fp && matchedFiles[n..][1..] == matchedFiles[n + 1..];
      var fc := fetch(fp);
      if fc.ContentError? {
        return RuntimeError(ContentFailed(fp));
      }
      if fc.Unparsable? {
        return RuntimeError(ParseFailed(fp));
      }
      var found := IsPackagingWorkflow(fc.workflow);
      if found.None? {
        n := n + 1;
        continue;
      }
      var count := runs(Base(fp));
      if count.None? {
        return RuntimeError(RunsLookupFailed(fp));
      }
      if count.value > 0 {
        return MaxScore(fp);
      }
      n := n + 1;
    }
    return Inconclusive;
  }
}
