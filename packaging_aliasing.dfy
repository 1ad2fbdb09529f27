/**
 * The matcher's action list as the Go code keeps it: a slice over a backing
 * array it shares with the catalog entry, shrunk with
 * `append(s[:i], s[i+1:]...)`. That call shifts the later cells one place to
 * the left inside the shared array. Within one evaluation the slice shows
 * exactly the outstanding patterns, but the catalog entry keeps its full
 * length over the shifted array, so the next job of the same workflow is
 * matched against corrupted patterns.
 *
 * The model of `Packaging.Matches` works on values and has no such sharing;
 * this module states the discrepancy and the outcome the value semantics
 * restores.
 */
module PackagingAliasing {
  import opened Wrappers
  import opened Seqs
  import opened Packaging

  // ---------------------------------------------------------------------
  // Slices over a shared backing array
  // ---------------------------------------------------------------------

  /** The first `len` cells of a backing array that others may hold too. */
  datatype Slice = Slice(backing: seq<UsesPattern>, len: nat)

  predicate ValidSlice(s: Slice)
  {
    s.len <= |s.backing|
  }

  /** The elements the slice shows. */
  function View(s: Slice): seq<UsesPattern>
    requires ValidSlice(s)
  {
    s.backing[..s.len]
  }

  /**
   * `append(s[:i], s[i+1:]...)`: the slice shrinks by one and shows `s`
   * without its element `i`, because the cells after `i` were copied one to
   * the left in the backing array itself. The last shown cell keeps its old
   * value, so the array now holds it twice.
   */
  function AppendRemove(s: Slice, i: nat): (r: Slice)
    requires ValidSlice(s) && i < s.len
    ensures ValidSlice(r) && |r.backing| == |s.backing| && r.len == s.len - 1
    ensures View(r) == RemoveAt(View(s), i)
    ensures r.backing[s.len - 1..] == s.backing[s.len - 1..]
  {
    var r := Slice(s.backing[..i] + s.backing[i + 1..s.len] + s.backing[s.len - 1..], s.len - 1);
    assert |View(r)| == |RemoveAt(View(s), i)|;
    r
  }

  // ---------------------------------------------------------------------
  // One evaluation, as written
  // ---------------------------------------------------------------------

  /**
   * One step of the action loop as written: an action step removes the first
   * shown pattern it fulfils by shifting the backing array; a run step leaves
   * the action list alone.
   */
  function AliasedConsume(s: Slice, step: Step): (r: Slice)
    requires ValidSlice(s)
    ensures ValidSlice(r) && |r.backing| == |s.backing|
    ensures Consume(Outstanding(View(s), []), step) == Outstanding(View(r), [])
  {
    match step
    case RunStep(_) => s
    case ActionStep(uses, with) =>
      var i := FirstIndex(View(s), UsesAcceptor(uses, with));
      if i < s.len then AppendRemove(s, i) else s
  }

  function AliasedScan(s: Slice, steps: seq<Step>): (r: Slice)
    requires ValidSlice(s)
    ensures ValidSlice(r) && |r.backing| == |s.backing|
    decreases |steps|
  {
    if steps == [] then s else AliasedScan(AliasedConsume(s, steps[0]), steps[1..])
  }

  /**
   * Within one evaluation the sharing is invisible: the slice shows exactly
   * the action patterns the value-semantics scan leaves outstanding.
   */
  lemma {:induction false} AliasedScanView(s: Slice, steps: seq<Step>)
    requires ValidSlice(s)
    ensures Scan(Outstanding(View(s), []), steps) == Outstanding(View(AliasedScan(s, steps)), [])
    decreases |steps|
  {
    if steps != [] {
      AliasedScanView(AliasedConsume(s, steps[0]), steps[1..]);
    }
  }

  /**
   * One evaluation of a matcher that has no command patterns, starting from
   * the catalog entry's backing array: whether the job matches, and the
   * backing array the entry holds afterwards.
   */
  function AliasedMatches(backing: seq<UsesPattern>, job: Job): (r: (bool, seq<UsesPattern>))
    ensures |r.1| == |backing|
  {
    var s := AliasedScan(Slice(backing, |backing|), job.steps);
    (s.len == 0, s.backing)
  }

  /** The same catalog entry evaluated on the jobs of one workflow in order, its backing array carried over. */
  function AliasedJobs(backing: seq<UsesPattern>, jobs: seq<Job>): (r: seq<bool>)
    ensures |r| == |jobs|
    decreases |jobs|
  {
    if jobs == [] then []
    else
      var (ok, after) := AliasedMatches(backing, jobs[0]);
      [ok] + AliasedJobs(after, jobs[1..])
  }

  /** The first job of a workflow is still matched as intended. */
  lemma FirstJobAsIntended(m: JobMatcher, jobs: seq<Job>)
    requires m.runs == [] && jobs != []
    ensures AliasedJobs(m.uses, jobs)[0] == Satisfied(m, jobs[0])
  {
    var s := Slice(m.uses, |m.uses|);
    assert View(s) == m.uses;
    AliasedScanView(s, jobs[0].steps);
  }

  // ---------------------------------------------------------------------
  // The discrepancy: a setup-only job, then a publishing job
  // ---------------------------------------------------------------------

  const SetupPython := UsesPattern("actions/setup-python", None)
  const PypiPublish := UsesPattern("pypa/gh-action-pypi-publish", None)

  const SetupStep := ActionStep("actions/setup-python@v5", None)
  const PublishStep := ActionStep("pypa/gh-action-pypi-publish@release/v1", None)

  /** A job that only sets up Python. */
  const SetupOnlyJob := Job([SetupStep])

  /** A job that sets up Python and publishes to PyPI. */
  const PublishJob := Job([SetupStep, PublishStep])

  lemma SetupStepAcceptsSetup()
    ensures UsesAccepts(SetupPython, SetupStep.uses, None)
  {
    assert SetupStep.uses[..21] == SetupPython.prefix + "@";
  }

  lemma PublishStepAcceptsPublish()
    ensures UsesAccepts(PypiPublish, PublishStep.uses, None)
  {
    assert PublishStep.uses[..28] == PypiPublish.prefix + "@";
  }

  lemma SetupStepRejectsPublish()
    ensures !UsesAccepts(PypiPublish, SetupStep.uses, None)
  {
  }

  /** As written, the setup-only job leaves the publish pattern in both cells of the python entry. */
  lemma SetupOnlyJobCorrupts()
    ensures AliasedMatches(PythonMatcher.uses, SetupOnlyJob) == (false, [PypiPublish, PypiPublish])
  {
    var s := Slice([SetupPython, PypiPublish], 2);
    SetupStepAcceptsSetup();
    assert UsesAcceptor(SetupStep.uses, None)(View(s)[0]);
    var s1 := AliasedConsume(s, SetupStep);
    assert s1 == Slice([PypiPublish, PypiPublish], 1);
    assert AliasedScan(s, SetupOnlyJob.steps) == AliasedScan(s1, []);
  }

  /** As written, the publishing job is then matched against the corrupted entry and rejected. */
  lemma PublishJobRejectedAfterCorruption()
    ensures AliasedMatches([PypiPublish, PypiPublish], PublishJob) == (false, [PypiPublish, PypiPublish])
  {
    var s := Slice([PypiPublish, PypiPublish], 2);
    SetupStepRejectsPublish();
    var s1 := AliasedConsume(s, SetupStep);
    assert s1 == s;
    PublishStepAcceptsPublish();
    assert UsesAcceptor(PublishStep.uses, None)(View(s)[0]);
    var s2 := AliasedConsume(s1, PublishStep);
    assert s2 == Slice([PypiPublish, PypiPublish], 1);
    assert PublishJob.steps[1..] == [PublishStep];
    assert AliasedScan(s, PublishJob.steps) == AliasedScan(s1, [PublishStep]);
    assert AliasedScan(s1, [PublishStep]) == AliasedScan(s2, []);
  }

  /**
   * The counterexample: as written, the python entry rejects both jobs,
   * although the second one fulfils it.
   */
  lemma SharedBackingRejectsPublishJob()
    ensures AliasedJobs(PythonMatcher.uses, [SetupOnlyJob, PublishJob]) == [false, false]
    ensures Satisfied(PythonMatcher, PublishJob)
  {
    AliasedJobsTwo(PythonMatcher.uses, SetupOnlyJob, PublishJob);
    SetupOnlyJobCorrupts();
    PublishJobRejectedAfterCorruption();
    PublishJobSatisfiesPython();
  }

  /** Two jobs in a row: the second is evaluated over the backing array the first left behind. */
  lemma AliasedJobsTwo(backing: seq<UsesPattern>, first: Job, second: Job)
    ensures AliasedJobs(backing, [first, second]) ==
      [AliasedMatches(backing, first).0, AliasedMatches(AliasedMatches(backing, first).1, second).0]
  {
    assert [first, second][1..] == [second];
    assert [second][1..] == [];
  }

  // ---------------------------------------------------------------------
  // The intended outcome, on the value-semantics model
  // ---------------------------------------------------------------------

  lemma PublishJobSatisfiesPython()
    ensures Satisfied(PythonMatcher, PublishJob)
  {
    ScanTwo(Start(PythonMatcher), PublishJob.steps);
    PythonSetupConsumed();
    PythonPublishConsumed();
  }

  /** A two-step job is scanned by consuming its steps in order. */
  lemma ScanTwo(o: Outstanding, steps: seq<Step>)
    requires |steps| == 2
    ensures Scan(o, steps) == Consume(Consume(o, steps[0]), steps[1])
  {
    var o1 := Consume(o, steps[0]);
    ScanSuffixStep(o, steps, 0);
    ScanSuffixStep(o1, steps, 1);
    assert steps[0..] == steps && steps[2..] == [];
  }

  lemma PythonSetupConsumed()
    ensures Consume(Start(PythonMatcher), SetupStep) == Outstanding([PypiPublish], [])
  {
    SetupStepAcceptsSetup();
    assert UsesAcceptor(SetupStep.uses, None)(PythonMatcher.uses[0]);
  }

  lemma PythonPublishConsumed()
    ensures Consume(Outstanding([PypiPublish], []), PublishStep) == Outstanding([], [])
  {
    PublishStepAcceptsPublish();
    assert UsesAcceptor(PublishStep.uses, None)([PypiPublish][0]);
  }

  lemma SetupOnlyJobLeavesPublish()
    ensures !Satisfied(PythonMatcher, SetupOnlyJob)
  {
    var o0 := Start(PythonMatcher);
    SetupStepAcceptsSetup();
    assert UsesAcceptor(SetupStep.uses, None)(o0.uses[0]);
    ScanSuffixStep(o0, SetupOnlyJob.steps, 0);
    assert SetupOnlyJob.steps[0..] == SetupOnlyJob.steps && SetupOnlyJob.steps[1..] == [];
  }

  /** A job made only of action steps leaves the command patterns outstanding. */
  lemma {:induction false} ActionStepsKeepRuns(o: Outstanding, steps: seq<Step>)
    requires forall i :: 0 <= i < |steps| ==> steps[i].ActionStep?
    ensures Scan(o, steps).runs == o.runs
    decreases |steps|
  {
    if steps != [] {
      assert forall i :: 0 <= i < |steps[1..]| ==> steps[1..][i] == steps[i + 1];
      ActionStepsKeepRuns(Consume(o, steps[0]), steps[1..]);
    }
  }

  /** A step that fulfils none of the outstanding action patterns removes none of them. */
  lemma ConsumeUnaccepted(o: Outstanding, step: Step)
    requires step.ActionStep?
    requires forall j :: 0 <= j < |o.uses| ==> !UsesAccepts(o.uses[j], step.uses, step.with)
    ensures Consume(o, step).uses == o.uses
  {
    var i := FirstIndex(o.uses, UsesAcceptor(step.uses, step.with));
    assert i == |o.uses|;
  }

  /** A job none of whose action steps fulfils an outstanding action pattern leaves them all outstanding. */
  lemma {:induction false} UnacceptedKeepsUses(o: Outstanding, steps: seq<Step>)
    requires forall i :: 0 <= i < |steps| ==> steps[i].ActionStep?
    requires forall i, j :: 0 <= i < |steps| && 0 <= j < |o.uses| ==> !UsesAccepts(o.uses[j], steps[i].uses, steps[i].with)
    ensures Scan(o, steps).uses == o.uses
    decreases |steps|
  {
    if steps != [] {
      ConsumeUnaccepted(o, steps[0]);
      assert forall i :: 0 <= i < |steps[1..]| ==> steps[1..][i] == steps[i + 1];
      UnacceptedKeepsUses(Consume(o, steps[0]), steps[1..]);
    }
  }

  /** A matcher with a command pattern is not satisfied by a job with no run step. */
  lemma NoRunStepNoRunMatcher(m: JobMatcher, job: Job)
    requires m.runs != []
    requires forall i :: 0 <= i < |job.steps| ==> job.steps[i].ActionStep?
    ensures !Satisfied(m, job)
  {
    ActionStepsKeepRuns(Start(m), job.steps);
  }

  /** A matcher with an action pattern that no step of the job fulfils is not satisfied. */
  lemma UnacceptedMatcher(m: JobMatcher, job: Job)
    requires m.uses != []
    requires forall i :: 0 <= i < |job.steps| ==> job.steps[i].ActionStep?
    requires forall i, j :: 0 <= i < |job.steps| && 0 <= j < |m.uses| ==> !UsesAccepts(m.uses[j], job.steps[i].uses, job.steps[i].with)
    ensures !Satisfied(m, job)
  {
    UnacceptedKeepsUses(Start(m), job.steps);
  }

  /** Neither job fulfils the docker build-push entry. */
  lemma DockerBuildPushUnmatched(job: Job)
    requires job == SetupOnlyJob || job == PublishJob
    ensures !Satisfied(Catalog[6], job)
  {
    assert Catalog[6].uses == [UsesPattern("docker/build-push-action", None)];
    assert !UsesAccepts(Catalog[6].uses[0], PublishStep.uses, None) by {
      assert PublishStep.uses[0] != "docker/build-push-action@"[0];
    }
    UnacceptedMatcher(Catalog[6], job);
  }

  /** The setup-only job does not fulfil the Go entry's setup-go prefix. */
  lemma SetupOnlyJobNotGo()
    ensures !Satisfied(Catalog[8], SetupOnlyJob)
  {
    var m := Catalog[8];
    assert m.uses == [UsesPattern("actions/setup-go", None), UsesPattern("goreleaser/goreleaser-action", None)];
    assert !UsesAccepts(m.uses[0], SetupStep.uses, None) by {
      assert SetupStep.uses[14] != "actions/setup-go@"[14];
    }
    assert !UsesAccepts(m.uses[1], SetupStep.uses, None) by {
      assert SetupStep.uses[0] != "goreleaser/goreleaser-action@"[0];
    }
    UnacceptedMatcher(m, SetupOnlyJob);
  }

  /** Every catalog entry with a command pattern rejects both jobs, which have no run step. */
  lemma RunEntriesUnmatched(k: int, job: Job)
    requires k in {0, 1, 2, 3, 4, 5, 9}
    requires job == SetupOnlyJob || job == PublishJob
    ensures 0 <= k < |Catalog| && !Satisfied(Catalog[k], job)
  {
    CatalogShape();
    assert Catalog[k].runs != [];
    NoRunStepNoRunMatcher(Catalog[k], job);
  }

  /** No catalog entry matches the setup-only job. */
  lemma SetupOnlyJobUnmatched(k: int)
    requires 0 <= k < |Catalog|
    ensures !Satisfied(Catalog[k], SetupOnlyJob)
  {
    CatalogShape();
    if k == 6 {
      DockerBuildPushUnmatched(SetupOnlyJob);
    } else if k == 7 {
      SetupOnlyJobLeavesPublish();
    } else if k == 8 {
      SetupOnlyJobNotGo();
    } else {
      RunEntriesUnmatched(k, SetupOnlyJob);
    }
  }

  /** No catalog entry before the python one matches the publishing job. */
  lemma PublishJobUnmatchedBefore(k: int)
    requires 0 <= k < 7
    ensures !Satisfied(Catalog[k], PublishJob)
  {
    CatalogShape();
    if k == 6 {
      DockerBuildPushUnmatched(PublishJob);
    } else {
      RunEntriesUnmatched(k, PublishJob);
    }
  }

  /**
   * With per-evaluation working lists, the workflow of the two jobs is
   * classified as a python publishing workflow, by the second job.
   */
  lemma PublishJobClassified()
    ensures Classify([SetupOnlyJob, PublishJob], Catalog) == Some(PythonMatcher.logText)
  {
    var jobs := [SetupOnlyJob, PublishJob];
    forall k | 0 <= k < |Catalog| ensures !Satisfied(Catalog[k], jobs[0]) {
      SetupOnlyJobUnmatched(k);
    }
    forall k | 0 <= k < 7 ensures !Satisfied(Catalog[k], jobs[1]) {
      PublishJobUnmatchedBefore(k);
    }
    PublishJobSatisfiesPython();
    assert Catalog[7] == PythonMatcher;
    assert FirstHit(jobs, Catalog, 1, 7);
    ClassifyFirstHit(jobs, Catalog, 1, 7);
  }
}
