/**
 * The dependency policy gate: read the policy, pick the manifest parser,
 * read the dependencies, score every dependency whose repository URL is a
 * valid GitHub URL, and collect the policy violations in order.
 *
 * Scoring a repository (the scorecard run with all registered checks), the
 * URL parsing and its GitHub validation are collaborators this model does
 * not look inside; they are passed in as functions.
 */
module DepPolicy {
  import opened Wrappers
  import opened Text
  import opened Deps
  import GoMod
  import Seqs

  /** The manifest the gate reads; the path is fixed. */
  const ManifestPath := "/home/chris/code/ossf/aqua-dep/go.sum"

  /** What a parser's getDependencies answers: the dependencies, or the error that stopped it. */
  datatype ParseOutcome = ParsedDeps(deps: seq<Dependency>) | ParseError(err: DepsError)

  /** A manifest parser: which paths it handles, and what it reads from one given the ignore list. */
  datatype DepParser = DepParser(isSupported: string -> bool, getDependencies: (string, seq<string>) -> ParseOutcome)

  /** A repository location as the URL parser splits it. */
  datatype RepoURL = RepoURL(host: string, owner: string, repo: string)

  /** What setting a RepoURL from a string leaves: the URL as far as it was set, and whether an error was reported. */
  datatype SetOutcome = SetOutcome(url: RepoURL, failed: bool)

  /** One check's result within a repository's scorecard. */
  datatype CheckResult = CheckResult(name: string, confidence: int, pass: bool)

  /** A repository's scorecard: its aggregate score and its checks' results, in order. */
  datatype RepoResult = RepoResult(score: int, checks: seq<CheckResult>)

  /** The collaborators: URL parsing, GitHub validation, and the scorecard run. */
  datatype Env = Env(setURL: string -> SetOutcome, validGitHub: RepoURL -> bool, runScorecards: RepoURL -> RepoResult)

  /** A policy violation, one line of the failure report each. */
  datatype Violation =
    | BelowMinScore(score: int, dependency: string, minScore: int)
    | RequiredCheckFailed(check: string, dependency: string, confidence: int)

  /** The report line of a violation. */
  function Message(v: Violation): string
  {
    match v
    case BelowMinScore(score, dep, min) =>
      "Score of " + IntToString(score) + " for " + dep + " is below the minimum score of " + IntToString(min) + "."
    case RequiredCheckFailed(check, dep, confidence) =>
      "Required check " + check + " did not pass for " + dep + " (confidence " + IntToString(confidence) + ")."
  }

  /** The fixed parts of the report lines hold no newline. */
  lemma ScorePartsOneLine()
    ensures '\n' !in "Score of " && '\n' !in " for " && '\n' !in "."
  {
  }

  lemma BelowPartOneLine()
    ensures '\n' !in " is below the minimum score of "
  {
  }

  lemma RequiredPartsOneLine()
    ensures '\n' !in "Required check " && '\n' !in " did not pass for "
  {
  }

  lemma ConfidencePartsOneLine()
    ensures '\n' !in " (confidence " && '\n' !in ")."
  {
  }

  /** A violation's line holds no newline when the names in it hold none. */
  lemma MessageOneLine(v: Violation)
    requires '\n' !in v.dependency
    requires v.RequiredCheckFailed? ==> '\n' !in v.check
    ensures '\n' !in Message(v)
  {
    match v
    case BelowMinScore(score, dep, min) =>
      ScorePartsOneLine();
      BelowPartOneLine();
      var a, b := IntToString(score), IntToString(min);
      assert '\n' !in "Score of " + a + " for " + dep;
      assert Message(v) == "Score of " + a + " for " + dep + " is below the minimum score of " + b + ".";
    case RequiredCheckFailed(check, dep, confidence) =>
      RequiredPartsOneLine();
      ConfidencePartsOneLine();
      var c := IntToString(confidence);
      assert '\n' !in "Required check " + check + " did not pass for " + dep;
      assert Message(v) == "Required check " + check + " did not pass for " + dep + " (confidence " + c + ").";
  }

  // ---------------------------------------------------------------------
  // Parser selection
  // ---------------------------------------------------------------------

  /** The index of the first parser in list order that supports `path`. */
  function SelectParser(parsers: seq<DepParser>, path: string): (r: Option<nat>)
    ensures r.None? <==> forall k :: 0 <= k < |parsers| ==> !parsers[k].isSupported(path)
    ensures r.Some? ==>
      && r.value < |parsers| && parsers[r.value].isSupported(path)
      && forall k :: 0 <= k < r.value ==> !parsers[k].isSupported(path)
  {
    if parsers == [] then None
    else if parsers[0].isSupported(path) then Some(0)
    else
      assert forall k :: 1 <= k < |parsers| ==> parsers[k] == parsers[1..][k - 1];
      match SelectParser(parsers[1..], path)
      case None => None
      case Some(k) => Some(k + 1)
  }

  /**
   * The go.sum parser, reading manifests with `read` and resolving modules
   * with `lookup`. The dependencies come in module order, which is one of
   * the orders in which the source's channel may deliver them.
   */
  function GoModDepParser(read: string -> GoMod.ManifestRead, lookup: string -> Option<string>): DepParser
  {
    DepParser(
      GoMod.IsSupported,
      (path, ignore) =>
        match read(path)
        case OpenFailed => ParseError(ManifestOpenFailed)
        case ParseFailed => ParseError(ManifestParseFailed)
        case Parsed(modules) => ParsedDeps(GoMod.Resolved(modules, ignore, lookup)))
  }

  /** The gate's fixed manifest path is a go.sum, so its one parser is the one used. */
  lemma GoModParserSelected(read: string -> GoMod.ManifestRead, lookup: string -> Option<string>)
    ensures SelectParser([GoModDepParser(read, lookup)], ManifestPath) == Some(0)
  {
    BaseOfName("/home/chris/code/ossf/aqua-dep/", GoMod.GoSum);
    assert "/home/chris/code/ossf/aqua-dep/" + GoMod.GoSum == ManifestPath;
  }

  // ---------------------------------------------------------------------
  // Violations, as a function of the inputs
  // ---------------------------------------------------------------------

  /**
   * Whether `c` fails required check `req`. The comparison is the one the
   * gate makes: a result whose confidence is strictly greater than the
   * configured confidence is skipped.
   */
  predicate FailsRequired(req: RequiredCheck, c: CheckResult)
  {
    req.name == c.name && !(req.confidence < c.confidence) && !c.pass
  }

  function CheckFailure(req: RequiredCheck, c: CheckResult, dep: string): seq<Violation>
  {
    if FailsRequired(req, c) then [RequiredCheckFailed(c.name, dep, c.confidence)] else []
  }

  /** The violations of one required check, in the order of the results. */
  function CheckViolations(req: RequiredCheck, checks: seq<CheckResult>, dep: string): seq<Violation>
    decreases |checks|
  {
    if checks == [] then []
    else CheckViolations(req, checks[..|checks| - 1], dep) + CheckFailure(req, checks[|checks| - 1], dep)
  }

  /** The required-check violations: in configuration order, each in result order. */
  function RequiredViolations(reqs: seq<RequiredCheck>, checks: seq<CheckResult>, dep: string): seq<Violation>
    decreases |reqs|
  {
    if reqs == [] then []
    else RequiredViolations(reqs[..|reqs| - 1], checks, dep) + CheckViolations(reqs[|reqs| - 1], checks, dep)
  }

  function ScoreViolation(r: RepoResult, dep: string, minScore: int): seq<Violation>
  {
    if r.score < minScore then [BelowMinScore(r.score, dep, minScore)] else []
  }

  /** Whether a dependency is scored at all: its repository must be a valid GitHub URL. */
  predicate Scored(d: Dependency, env: Env)
  {
    env.validGitHub(env.setURL(d.repo).url)
  }

  /** One dependency's violations: the score violation first, then the required checks'. */
  function DependencyViolations(d: Dependency, env: Env, opts: ConfigOptions): seq<Violation>
  {
    if !Scored(d, env) then []
    else
      var r := env.runScorecards(env.setURL(d.repo).url);
      ScoreViolation(r, d.name, opts.minScore) + RequiredViolations(opts.requiredChecks, r.checks, d.name)
  }

  /** All dependencies' violations, in dependency order. */
  function Violations(deps: seq<Dependency>, env: Env, opts: ConfigOptions): seq<Violation>
    decreases |deps|
  {
    if deps == [] then []
    else Violations(deps[..|deps| - 1], env, opts) + DependencyViolations(deps[|deps| - 1], env, opts)
  }

  /**
   * The gate's answer: the violations and the fatal error, if any. A fatal
   * error comes with no violations; with no supported parser the answer is
   * no violations and no error.
   */
  function Gate(config: Option<ConfigOptions>, path: string, parsers: seq<DepParser>, env: Env): (r: (seq<Violation>, Option<DepsError>))
    ensures r.1.Some? ==> r.0 == []
    ensures config.None? ==> r.1 == Some(ConfigUnreadable)
    ensures config.Some? && SelectParser(parsers, path).None? ==> r == ([], None)
    ensures config.Some? && SelectParser(parsers, path).Some? && parsers[SelectParser(parsers, path).value].getDependencies(path, config.value.ignoreDependencies).ParseError?
      ==> r.1 == Some(parsers[SelectParser(parsers, path).value].getDependencies(path, config.value.ignoreDependencies).err)
    ensures config.Some? && SelectParser(parsers, path).Some? && parsers[SelectParser(parsers, path).value].getDependencies(path, config.value.ignoreDependencies).ParsedDeps?
      ==> r == (Violations(parsers[SelectParser(parsers, path).value].getDependencies(path, config.value.ignoreDependencies).deps, env, config.value), None)
  {
    match config
    case None => ([], Some(ConfigUnreadable))
    case Some(opts) =>
      match SelectParser(parsers, path)
      case None => ([], None)
      case Some(k) =>
        match parsers[k].getDependencies(path, opts.ignoreDependencies)
        case ParseError(e) => ([], Some(e))
        case ParsedDeps(ds) => (Violations(ds, env, opts), None)
  }

  /**
   * A fatal error is reached before any dependency is scored: the answer is
   * the same whatever the scoring environment does.
   */
  lemma GateErrorIgnoresEnv(config: Option<ConfigOptions>, path: string, parsers: seq<DepParser>, env: Env, env': Env)
    requires Gate(config, path, parsers, env).1.Some?
    ensures Gate(config, path, parsers, env') == Gate(config, path, parsers, env)
  {
  }

  // ---------------------------------------------------------------------
  // Properties of the violation list
  // ---------------------------------------------------------------------

  /** The next dependency's violations are appended after those of the ones before it. */
  lemma ViolationsSnoc(ds: seq<Dependency>, d: Dependency, env: Env, opts: ConfigOptions)
    ensures Violations(ds + [d], env, opts) == Violations(ds, env, opts) + DependencyViolations(d, env, opts)
  {
    Seqs.ButLast(ds, d);
  }

  lemma ViolationsPrefixStep(deps: seq<Dependency>, i: nat, env: Env, opts: ConfigOptions)
    requires i < |deps|
    ensures Violations(deps[..i + 1], env, opts) == Violations(deps[..i], env, opts) + DependencyViolations(deps[i], env, opts)
  {
    Seqs.PrefixSnoc(deps, i);
    ViolationsSnoc(deps[..i], deps[i], env, opts);
  }

  lemma ViolationsWhole(deps: seq<Dependency>, env: Env, opts: ConfigOptions)
    ensures Violations(deps[..|deps|], env, opts) == Violations(deps, env, opts)
  {
    assert deps[..|deps|] == deps;
  }

  /** Violations only accumulate: those of later dependencies follow those of earlier ones. */
  lemma {:induction false} ViolationsAppend(d1: seq<Dependency>, d2: seq<Dependency>, env: Env, opts: ConfigOptions)
    ensures Violations(d1 + d2, env, opts) == Violations(d1, env, opts) + Violations(d2, env, opts)
    decreases |d2|
  {
    if d2 == [] {
      assert d1 + d2 == d1;
    } else {
      var d2', last := d2[..|d2| - 1], d2[|d2| - 1];
      assert d2 == d2' + [last];
      ViolationsAppend(d1, d2', env, opts);
      ViolationsAppendStep(d1, d2', last, env, opts);
    }
  }

  lemma ViolationsAppendStep(d1: seq<Dependency>, d2: seq<Dependency>, last: Dependency, env: Env, opts: ConfigOptions)
    requires Violations(d1 + d2, env, opts) == Violations(d1, env, opts) + Violations(d2, env, opts)
    ensures Violations(d1 + (d2 + [last]), env, opts) == Violations(d1, env, opts) + Violations(d2 + [last], env, opts)
  {
    Seqs.AppendAssoc(d1, d2, [last]);
    ViolationsSnoc(d1 + d2, last, env, opts);
    ViolationsSnoc(d2, last, env, opts);
    Seqs.AppendAssoc(Violations(d1, env, opts), Violations(d2, env, opts), DependencyViolations(last, env, opts));
  }

  /** A dependency whose repository URL is not a valid GitHub URL contributes nothing, wherever it stands. */
  lemma InvalidRepoSkipped(pre: seq<Dependency>, d: Dependency, post: seq<Dependency>, env: Env, opts: ConfigOptions)
    requires !Scored(d, env)
    ensures Violations(pre + [d] + post, env, opts) == Violations(pre + post, env, opts)
  {
    var vPre, vPost := Violations(pre, env, opts), Violations(post, env, opts);
    ViolationsSnoc(pre, d, env, opts);
    assert Violations(pre + [d], env, opts) == vPre + [];
    ViolationsAppend(pre + [d], post, env, opts);
    ViolationsAppend(pre, post, env, opts);
    assert vPre + [] + vPost == vPre + vPost;
  }

  /** An error reported while setting the URL does not by itself skip the dependency. */
  lemma SetErrorIgnored(d: Dependency, env: Env, opts: ConfigOptions, failed: bool)
    ensures DependencyViolations(d, env.(setURL := s => SetOutcome(env.setURL(s).url, failed)), opts)
         == DependencyViolations(d, env, opts)
  {
  }

  lemma {:induction false} CheckViolationsAreRequiredFailures(req: RequiredCheck, checks: seq<CheckResult>, dep: string)
    ensures forall v :: v in CheckViolations(req, checks, dep) ==> v.RequiredCheckFailed?
    decreases |checks|
  {
    if checks != [] {
      CheckViolationsAreRequiredFailures(req, checks[..|checks| - 1], dep);
    }
  }

  lemma {:induction false} RequiredViolationsAreRequiredFailures(reqs: seq<RequiredCheck>, checks: seq<CheckResult>, dep: string)
    ensures forall v :: v in RequiredViolations(reqs, checks, dep) ==> v.RequiredCheckFailed?
    decreases |reqs|
  {
    if reqs != [] {
      RequiredViolationsAreRequiredFailures(reqs[..|reqs| - 1], checks, dep);
      CheckViolationsAreRequiredFailures(reqs[|reqs| - 1], checks, dep);
    }
  }

  /**
   * A scored dependency has a below-minimum violation exactly when its score
   * is strictly below the minimum (a score equal to the minimum passes), and
   * that violation comes first.
   */
  lemma BelowMinimumIff(d: Dependency, env: Env, opts: ConfigOptions)
    requires Scored(d, env)
    ensures var r := env.runScorecards(env.setURL(d.repo).url);
      && ((exists v :: v in DependencyViolations(d, env, opts) && v.BelowMinScore?) <==> r.score < opts.minScore)
      && (r.score < opts.minScore ==> DependencyViolations(d, env, opts)[0] == BelowMinScore(r.score, d.name, opts.minScore))
  {
    var r := env.runScorecards(env.setURL(d.repo).url);
    RequiredViolationsAreRequiredFailures(opts.requiredChecks, r.checks, d.name);
    if r.score < opts.minScore {
      assert DependencyViolations(d, env, opts)[0] == BelowMinScore(r.score, d.name, opts.minScore);
    }
  }

  /**
   * The violations of required check `req` are exactly one per failing
   * result: a result with the same name, not passed, and a confidence not
   * above the configured one.
   */
  lemma {:induction false} CheckViolationsMembers(req: RequiredCheck, checks: seq<CheckResult>, dep: string, v: Violation)
    ensures v in CheckViolations(req, checks, dep) <==>
      exists k :: 0 <= k < |checks| && FailsRequired(req, checks[k]) && v == RequiredCheckFailed(checks[k].name, dep, checks[k].confidence)
    decreases |checks|
  {
    if checks != [] {
      var init := checks[..|checks| - 1];
      CheckViolationsMembers(req, init, dep, v);
      assert forall k :: 0 <= k < |init| ==> init[k] == checks[k];
      if exists k :: 0 <= k < |checks| && FailsRequired(req, checks[k]) && v == RequiredCheckFailed(checks[k].name, dep, checks[k].confidence) {
        var k :| 0 <= k < |checks| && FailsRequired(req, checks[k]) && v == RequiredCheckFailed(checks[k].name, dep, checks[k].confidence);
        if k < |init| {
          assert init[k] == checks[k];
        }
      }
    }
  }

  /** The indices of the results that fail `req`. */
  function FailingResults(req: RequiredCheck, checks: seq<CheckResult>): set<nat>
  {
    set k: nat | k < |checks| && FailsRequired(req, checks[k])
  }

  /** One violation per failing result: the count of violations is the count of failing results. */
  lemma {:induction false} CheckViolationsCount(req: RequiredCheck, checks: seq<CheckResult>, dep: string)
    ensures |CheckViolations(req, checks, dep)| == |FailingResults(req, checks)|
    decreases |checks|
  {
    if checks == [] {
      assert FailingResults(req, checks) == {};
    } else {
      var n := |checks| - 1;
      var init := checks[..n];
      CheckViolationsCount(req, init, dep);
      if FailsRequired(req, checks[n]) {
        assert FailingResults(req, checks) == FailingResults(req, init) + {n};
        assert n !in FailingResults(req, init);
      } else {
        assert FailingResults(req, checks) == FailingResults(req, init);
      }
    }
  }

  /** A required check that no result carries the name of produces no violation. */
  lemma RequiredCheckAbsent(req: RequiredCheck, checks: seq<CheckResult>, dep: string)
    requires forall k :: 0 <= k < |checks| ==> checks[k].name != req.name
    ensures CheckViolations(req, checks, dep) == []
  {
    if CheckViolations(req, checks, dep) != [] {
      var v := CheckViolations(req, checks, dep)[0];
      CheckViolationsMembers(req, checks, dep, v);
    }
  }

  lemma RequiredViolationsSnoc(reqs: seq<RequiredCheck>, req: RequiredCheck, checks: seq<CheckResult>, dep: string)
    ensures RequiredViolations(reqs + [req], checks, dep) == RequiredViolations(reqs, checks, dep) + CheckViolations(req, checks, dep)
  {
    Seqs.ButLast(reqs, req);
  }

  /** Required checks are reported in configuration order. */
  lemma {:induction false} RequiredViolationsAppend(r1: seq<RequiredCheck>, r2: seq<RequiredCheck>, checks: seq<CheckResult>, dep: string)
    ensures RequiredViolations(r1 + r2, checks, dep) == RequiredViolations(r1, checks, dep) + RequiredViolations(r2, checks, dep)
    decreases |r2|
  {
    if r2 == [] {
      assert r1 + r2 == r1;
    } else {
      var r2', last := r2[..|r2| - 1], r2[|r2| - 1];
      assert r2 == r2' + [last];
      RequiredViolationsAppend(r1, r2', checks, dep);
      RequiredViolationsAppendStep(r1, r2', last, checks, dep);
    }
  }

  lemma RequiredViolationsAppendStep(r1: seq<RequiredCheck>, r2: seq<RequiredCheck>, last: RequiredCheck, checks: seq<CheckResult>, dep: string)
    requires RequiredViolations(r1 + r2, checks, dep) == RequiredViolations(r1, checks, dep) + RequiredViolations(r2, checks, dep)
    ensures RequiredViolations(r1 + (r2 + [last]), checks, dep) == RequiredViolations(r1, checks, dep) + RequiredViolations(r2 + [last], checks, dep)
  {
    Seqs.AppendAssoc(r1, r2, [last]);
    RequiredViolationsSnoc(r1 + r2, last, checks, dep);
    RequiredViolationsSnoc(r2, last, checks, dep);
    Seqs.AppendAssoc(RequiredViolations(r1, checks, dep), RequiredViolations(r2, checks, dep), CheckViolations(last, checks, dep));
  }

  lemma CheckViolationsSnoc(req: RequiredCheck, checks: seq<CheckResult>, c: CheckResult, dep: string)
    ensures CheckViolations(req, checks + [c], dep) == CheckViolations(req, checks, dep) + CheckFailure(req, c, dep)
  {
    Seqs.ButLast(checks, c);
  }

  lemma CheckViolationsPrefixStep(req: RequiredCheck, checks: seq<CheckResult>, j: nat, dep: string)
    requires j < |checks|
    ensures CheckViolations(req, checks[..j + 1], dep) == CheckViolations(req, checks[..j], dep) + CheckFailure(req, checks[j], dep)
  {
    Seqs.PrefixSnoc(checks, j);
    CheckViolationsSnoc(req, checks[..j], checks[j], dep);
  }

  lemma RequiredViolationsPrefixStep(reqs: seq<RequiredCheck>, i: nat, checks: seq<CheckResult>, dep: string)
    requires i < |reqs|
    ensures RequiredViolations(reqs[..i + 1], checks, dep) == RequiredViolations(reqs[..i], checks, dep) + CheckViolations(reqs[i], checks, dep)
  {
    Seqs.PrefixSnoc(reqs, i);
    RequiredViolationsSnoc(reqs[..i], reqs[i], checks, dep);
  }

  /**
   * The confidence test is taken literally: a failed result whose confidence
   * is below the configured one is still a violation ...
   */
  lemma LowConfidenceResultEnforced()
    ensures CheckViolations(RequiredCheck("X", 8), [CheckResult("X", 5, false)], "dep")
         == [RequiredCheckFailed("X", "dep", 5)]
  {
    var checks := [CheckResult("X", 5, false)];
    assert checks[..0] == [];
  }

  /** ... while a failed result whose confidence is above it is skipped. */
  lemma HighConfidenceResultSkipped()
    ensures CheckViolations(RequiredCheck("X", 5), [CheckResult("X", 8, false)], "dep") == []
  {
    var checks := [CheckResult("X", 8, false)];
    assert checks[..0] == [];
  }

  // ---------------------------------------------------------------------
  // The gate, as the loops that compute it
  // ---------------------------------------------------------------------

  /** The violations of one scored dependency's required checks, appended result by result. */
  method AppendRequiredFailures(failures: seq<Violation>, reqs: seq<RequiredCheck>, checks: seq<CheckResult>, dep: string)
    returns (out: seq<Violation>)
    ensures out == failures + RequiredViolations(reqs, checks, dep)
  {
    out := failures;
    for i := 0 to |reqs|
      invariant out == failures + RequiredViolations(reqs[..i], checks, dep)
    {
      var requiredCheck := reqs[i];
      RequiredViolationsPrefixStep(reqs, i, checks, dep);
      ghost var before := out;
      for j := 0 to |checks|
        invariant out == before + CheckViolations(requiredCheck, checks[..j], dep)
      {
        var checkResult := checks[j];
        CheckViolationsPrefixStep(requiredCheck, checks, j, dep);
        Seqs.AppendAssoc(before, CheckViolations(requiredCheck, checks[..j], dep), CheckFailure(requiredCheck, checkResult, dep));
        if requiredCheck.name != checkResult.name {
          continue;
        }
        if requiredCheck.confidence < checkResult.confidence {
          continue;
        }
        if !checkResult.pass {
          out := out + [RequiredCheckFailed(checkResult.name, dep, checkResult.confidence)];
        }
      }
      assert checks[..|checks|] == checks;
      Seqs.AppendAssoc(failures, RequiredViolations(reqs[..i], checks, dep), CheckViolations(requiredCheck, checks, dep));
    }
    assert reqs[..|reqs|] == reqs;
  }

  /** Scores one dependency and appends its violations. */
  method ScoreDependency(failures: seq<Violation>, dependency: Dependency, env: Env, options: ConfigOptions)
    returns (out: seq<Violation>)
    ensures out == failures + DependencyViolations(dependency, env, options)
  {
    out := failures;
    var repoURL := env.setURL(dependency.repo).url;
    if !env.validGitHub(repoURL) {
      return;
    }
    var repoResult := env.runScorecards(repoURL);
    if repoResult.score < options.minScore {
      out := out + [BelowMinScore(repoResult.score, dependency.name, options.minScore)];
    }
    assert out == failures + ScoreViolation(repoResult, dependency.name, options.minScore);
    out := AppendRequiredFailures(out, options.requiredChecks, repoResult.checks, dependency.name);
  }

  /** Scores the dependencies in order and appends each one's violations. */
  method ScoreDependencies(deps: seq<Dependency>, env: Env, options: ConfigOptions) returns (failures: seq<Violation>)
    ensures failures == Violations(deps, env, options)
  {
    failures := [];
    for i := 0 to |deps|
      invariant failures == Violations(deps[..i], env, options)
    {
      ViolationsPrefixStep(deps, i, env, options);
      failures := ScoreDependency(failures, deps[i], env, options);
    }
    ViolationsWhole(deps, env, options);
  }

  /**
   * Reads the policy, selects the first parser that supports the manifest
   * path, reads the dependencies and collects the violations of every
   * dependency whose repository is a valid GitHub URL.
   */
  method ScoreDeps(config: Option<ConfigOptions>, parsers: seq<DepParser>, env: Env)
    returns (failures: seq<Violation>, err: Option<DepsError>)
    ensures (failures, err) == Gate(config, ManifestPath, parsers, env)
  {
    failures := [];
    var path := ManifestPath;
    if config.None? {
      return failures, Some(ConfigUnreadable);
    }
    var options := config.value;

    var depParser: Option<DepParser> := None;
    ghost var selected: nat := 0;
    for i := 0 to |parsers|
      invariant depParser.None?
      invariant forall k :: 0 <= k < i ==> !parsers[k].isSupported(path)
    {
      if parsers[i].isSupported(path) {
        depParser := Some(parsers[i]);
        selected := i;
        break;
      }
    }
    if depParser.None? {
      return failures, None;
    }
    assert SelectParser(parsers, path) == Some(selected) && depParser.value == parsers[selected];

    var dependencies := depParser.value.getDependencies(path, options.ignoreDependencies);
    if dependencies.ParseError? {
      return failures, Some(dependencies.err);
    }
    failures := ScoreDependencies(dependencies.deps, env, options);
    err := None;
  }
}
