/** The records the cicd package passes between its parts. */
module Deps {

  /** A declared dependency: its canonical name and where its source repository lives. */
  datatype Dependency = Dependency(name: string, repo: string)

  /** One module entry of a parsed go.sum. */
  datatype Library = Library(name: string, version: string)

  /** A required check of the policy: the check's name and its configured confidence. */
  datatype RequiredCheck = RequiredCheck(name: string, confidence: int)

  /** The policy file's content (min_score, required_checks, ignore_dependencies). */
  datatype ConfigOptions = ConfigOptions(minScore: int, requiredChecks: seq<RequiredCheck>, ignoreDependencies: seq<string>)

  /** The fatal errors of the gate. */
  datatype DepsError = ConfigUnreadable | ManifestOpenFailed | ManifestParseFailed
}
