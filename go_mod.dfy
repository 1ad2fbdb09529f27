/**
 * The go.sum manifest parser: which paths it handles, which modules it
 * skips, and what the concurrent resolution of the rest yields.
 */
module GoMod {
  import opened Wrappers
  import opened Text
  import opened Deps

  const GoSum := "go.sum"

  /** The parser handles a path whose last element is "go.sum". */
  function IsSupported(filePath: string): bool
  {
    Base(filePath) == GoSum
  }

  /** For a path not ending in '/': it is "go.sum" itself or ends in "/go.sum". */
  lemma IsSupportedIff(filePath: string)
    requires filePath != [] && filePath[|filePath| - 1] != '/'
    ensures IsSupported(filePath) <==> filePath == GoSum || HasSuffix(filePath, "/" + GoSum)
  {
    BaseIsName(filePath, GoSum);
  }

  /** A backup copy is not a manifest. */
  lemma BackupRejected()
    ensures !IsSupported("a/go.sum.bak")
  {
    var p := "a/go.sum.bak";
    assert p[|p| - 7..] != "/" + GoSum by {
      assert p[|p| - 7..][0] == 's';
    }
    BaseIsName(p, GoSum);
  }

  lemma NestedManifestAccepted()
    ensures IsSupported("cmd/tool/go.sum")
  {
    BaseOfName("cmd/tool/", GoSum);
    assert "cmd/tool/" + GoSum == "cmd/tool/go.sum";
  }

  /** The base-name rule drops trailing slashes, so "x/go.sum/" is accepted too. */
  lemma TrailingSlashAccepted()
    ensures IsSupported("x/go.sum/")
  {
    var p := "x/go.sum/";
    assert p[..|p| - 1] == "x/go.sum";
    assert TrimTrailingSlashes(p) == TrimTrailingSlashes("x/go.sum") == "x/go.sum";
    BaseOfName("x/", GoSum);
    assert "x/" + GoSum == "x/go.sum";
  }

  /** Whether `moduleName` is on the ignore list: an exact, case-sensitive search. */
  method DoIgnoreDependency(moduleName: string, dependenciesToIgnore: seq<string>) returns (ignored: bool)
    ensures ignored <==> moduleName in dependenciesToIgnore
  {
    for k := 0 to |dependenciesToIgnore|
      invariant moduleName !in dependenciesToIgnore[..k]
    {
      if moduleName == dependenciesToIgnore[k] {
        return true;
      }
    }
    assert dependenciesToIgnore[..|dependenciesToIgnore|] == dependenciesToIgnore;
    return false;
  }

  /**
   * The dependencies resolution yields, in module order: ignored modules are
   * not looked up, and modules whose repository lookup fails are dropped.
   */
  function Resolved(modules: seq<Library>, ignore: seq<string>, lookup: string -> Option<string>): seq<Dependency>
  {
    if modules == [] then []
    else ResolveOne(modules[0].name, ignore, lookup) + Resolved(modules[1..], ignore, lookup)
  }

  /** What one module contributes: nothing when ignored or unresolvable, else its dependency. */
  function ResolveOne(name: string, ignore: seq<string>, lookup: string -> Option<string>): seq<Dependency>
  {
    if name in ignore then []
    else match lookup(name)
      case None => []
      case Some(repo) => [Dependency(name, repo)]
  }

  /**
   * A dependency is produced exactly for a module that is not ignored and
   * whose lookup succeeds, with the lookup's answer as its repository.
   */
  lemma {:induction false} ResolvedEntries(modules: seq<Library>, ignore: seq<string>, lookup: string -> Option<string>, d: Dependency)
    ensures d in Resolved(modules, ignore, lookup) <==>
      (exists i :: 0 <= i < |modules| && modules[i].name == d.name) && d.name !in ignore && lookup(d.name) == Some(d.repo)
  {
    if modules != [] {
      ResolvedEntries(modules[1..], ignore, lookup, d);
      assert forall i :: 1 <= i < |modules| ==> modules[i] == modules[1..][i - 1];
      if (exists i :: 0 <= i < |modules| && modules[i].name == d.name) && d.name !in ignore && lookup(d.name) == Some(d.repo) {
        var i :| 0 <= i < |modules| && modules[i].name == d.name;
        if i > 0 {
          assert modules[1..][i - 1].name == d.name;
        }
      }
    }
  }

  /** Ignored modules and modules whose lookup fails never appear. */
  lemma ResolvedExcludes(modules: seq<Library>, ignore: seq<string>, lookup: string -> Option<string>, name: string)
    requires name in ignore || lookup(name).None?
    ensures forall d :: d in Resolved(modules, ignore, lookup) ==> d.name != name
  {
    forall d | d in Resolved(modules, ignore, lookup) ensures d.name != name {
      ResolvedEntries(modules, ignore, lookup, d);
    }
  }

  lemma {:induction false} ResolvedLength(modules: seq<Library>, ignore: seq<string>, lookup: string -> Option<string>)
    ensures |Resolved(modules, ignore, lookup)| <= |modules|
  {
    if modules != [] {
      ResolvedLength(modules[1..], ignore, lookup);
    }
  }

  /** Resolution never consults the lookup for an ignored module. */
  lemma {:induction false} IgnoredNeverLookedUp(modules: seq<Library>, ignore: seq<string>,
                                                l1: string -> Option<string>, l2: string -> Option<string>)
    requires forall n :: n !in ignore ==> l1(n) == l2(n)
    ensures Resolved(modules, ignore, l1) == Resolved(modules, ignore, l2)
  {
    if modules != [] {
      IgnoredNeverLookedUp(modules[1..], ignore, l1, l2);
    }
  }

  /** Three modules, one ignored, all resolvable: exactly two dependencies. */
  lemma OneOfThreeIgnored(a: string, b: string, c: string, lookup: string -> Option<string>)
    requires a != b && c != b
    requires lookup(a).Some? && lookup(c).Some?
    ensures Resolved([Library(a, "v1"), Library(b, "v1"), Library(c, "v1")], [b], lookup)
         == [Dependency(a, lookup(a).value), Dependency(c, lookup(c).value)]
  {
    var ms := [Library(a, "v1"), Library(b, "v1"), Library(c, "v1")];
    assert ResolveOne(a, [b], lookup) == [Dependency(a, lookup(a).value)];
    assert ResolveOne(b, [b], lookup) == [];
    assert ResolveOne(c, [b], lookup) == [Dependency(c, lookup(c).value)];
    assert ms[1..][1..][1..] == [];
    assert Resolved(ms[1..][1..], [b], lookup) == [Dependency(c, lookup(c).value)];
  }

  /** Resolving one more module appends what that module contributes. */
  lemma {:induction false} ResolvedSnoc(modules: seq<Library>, lib: Library, ignore: seq<string>, lookup: string -> Option<string>)
    ensures Resolved(modules + [lib], ignore, lookup) == Resolved(modules, ignore, lookup) + ResolveOne(lib.name, ignore, lookup)
  {
    if modules == [] {
      assert modules + [lib] == [lib];
      assert [lib][1..] == [];
    } else {
      assert (modules + [lib])[1..] == modules[1..] + [lib];
      ResolvedSnoc(modules[1..], lib, ignore, lookup);
    }
  }

  /**
   * The fan-out: one lookup per module that is not ignored, each delivering
   * its dependency unless the lookup fails. Results arrive in whatever
   * order the lookups finish, so only the multiset of results is promised.
   */
  method GetRepoInfo(modules: seq<Library>, dependenciesToIgnore: seq<string>, lookup: string -> Option<string>)
    returns (dependencies: seq<Dependency>)
    ensures multiset(dependencies) == multiset(Resolved(modules, dependenciesToIgnore, lookup))
  {
    dependencies := [];
    for i := 0 to |modules|
      invariant dependencies == Resolved(modules[..i], dependenciesToIgnore, lookup)
    {
      var lib := modules[i];
      assert modules[..i + 1] == modules[..i] + [lib];
      ResolvedSnoc(modules[..i], lib, dependenciesToIgnore, lookup);
      var ignored := DoIgnoreDependency(lib.name, dependenciesToIgnore);
      if !ignored {
        var repo := lookup(lib.name);
        if repo.Some? {
          dependencies := dependencies + [Dependency(lib.name, repo.value)];
        }
      }
    }
    assert modules[..|modules|] == modules;
  }

  /** What opening and parsing a manifest path gives. */
  datatype ManifestRead = OpenFailed | ParseFailed | Parsed(modules: seq<Library>)

  /**
   * Reads the manifest at `filePath` and resolves its modules; an open or
   * parse error is returned with no dependencies.
   */
  method GetDependencies(filePath: string, dependenciesToIgnore: seq<string>, read: string -> ManifestRead,
                         lookup: string -> Option<string>)
    returns (dependencies: seq<Dependency>, err: Option<DepsError>)
    ensures read(filePath).OpenFailed? ==> dependencies == [] && err == Some(ManifestOpenFailed)
    ensures read(filePath).ParseFailed? ==> dependencies == [] && err == Some(ManifestParseFailed)
    ensures read(filePath).Parsed? ==>
      err.None? && multiset(dependencies) == multiset(Resolved(read(filePath).modules, dependenciesToIgnore, lookup))
  {
    var f := read(filePath);
    match f {
      case OpenFailed => return [], Some(ManifestOpenFailed);
      case ParseFailed => return [], Some(ManifestParseFailed);
      case Parsed(modules) =>
        dependencies := GetRepoInfo(modules, dependenciesToIgnore, lookup);
        return dependencies, None;
    }
  }
}
