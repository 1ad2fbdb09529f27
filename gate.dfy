/**
 * The command-line entry point of the dependency gate: run the gate and turn
 * its answer into an exit code and the text printed before exiting.
 */
module CiGate {
  import opened Wrappers
  import opened Text
  import opened Deps
  import opened DepPolicy

  /** How the process ends: its exit code and what it printed on standard output. */
  datatype Exit = Exit(code: int, printed: Printed)

  datatype Printed =
    | ErrorLine(err: DepsError)   // the error, printed on a line of its own
    | FailureReport(text: string)
    | Nothing

  const ReportHeader := "Checks for dependencies failed:"

  /** The failure report: a header line, then one line per failure, in order. */
  function Report(failures: seq<string>): string
  {
    ReportHeader + "\n" + Join(failures, "\n") + "\n"
  }

  /**
   * The exit decision: 2 on a fatal error whatever the failures, otherwise 1
   * when some failure was reported and 0 when none was.
   */
  function Decide(failures: seq<string>, err: Option<DepsError>): (r: Exit)
    ensures r.code == 2 <==> err.Some?
    ensures r.code == 1 <==> err.None? && failures != []
    ensures r.code == 0 <==> err.None? && failures == []
    ensures r.code == 1 ==> r.printed == FailureReport(Report(failures))
    ensures r.code == 2 ==> r.printed == ErrorLine(err.value)
  {
    if err.Some? then Exit(2, ErrorLine(err.value))
    else if |failures| > 0 then Exit(1, FailureReport(Report(failures)))
    else Exit(0, Nothing)
  }

  /**
   * The report's lines are the header, then exactly the failures in list
   * order, when no failure spans two lines.
   */
  lemma ReportLines(failures: seq<string>)
    requires failures != []
    requires forall k :: 0 <= k < |failures| ==> '\n' !in failures[k]
    ensures Split(Report(failures), '\n') == [ReportHeader] + failures + [""]
  {
    var lines := [ReportHeader] + failures + [""];
    assert '\n' !in ReportHeader;
    forall k | 0 <= k < |lines| ensures '\n' !in lines[k] {
      if 0 < k < |lines| - 1 {
        assert lines[k] == failures[k - 1];
      }
    }
    JoinAppend([ReportHeader], failures + [""], "\n");
    JoinAppend(failures, [""], "\n");
    assert [ReportHeader] + (failures + [""]) == lines;
    assert Join(lines, "\n") == Report(failures);
    SplitJoin(lines, '\n');
  }

  /** Runs the gate and decides how the process exits. */
  method RunGate(config: Option<ConfigOptions>, parsers: seq<DepParser>, env: Env) returns (exit: Exit)
    ensures var (vs, err) := Gate(config, ManifestPath, parsers, env);
      && (exit.code == 2 <==> err.Some?)
      && (exit.code == 1 <==> err.None? && vs != [])
      && (exit.code == 0 <==> err.None? && vs == [])
      && (exit.code == 1 ==> exit.printed == FailureReport(Report(Messages(vs))))
  {
    var violations, err := ScoreDeps(config, parsers, env);
    exit := Decide(Messages(violations), err);
  }

  /** The report lines of the violations, one each, in order. */
  function Messages(vs: seq<Violation>): (r: seq<string>)
    ensures |r| == |vs|
    ensures forall k :: 0 <= k < |vs| ==> r[k] == Message(vs[k])
  {
    seq(|vs|, k requires 0 <= k < |vs| => Message(vs[k]))
  }

  /**
   * With names free of newlines, the printed report lists every violation
   * on its own line, in the order the gate found them.
   */
  lemma ViolationReportLines(vs: seq<Violation>)
    requires vs != []
    requires forall k :: 0 <= k < |vs| ==> '\n' !in vs[k].dependency
    requires forall k :: 0 <= k < |vs| ==> vs[k].RequiredCheckFailed? ==> '\n' !in vs[k].check
    ensures Split(Report(Messages(vs)), '\n') == [ReportHeader] + Messages(vs) + [""]
  {
    var ms := Messages(vs);
    forall k | 0 <= k < |ms| ensures '\n' !in ms[k] {
      MessageOneLine(vs[k]);
    }
    ReportLines(ms);
  }
}
