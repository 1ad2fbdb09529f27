/**
 * The string functions of Go's standard library that the core relies on
 * (strings.HasPrefix, strings.ToLower, strings.Join, strings.Split,
 * path.Base / filepath.Base and the `%d` verb), restated on `seq<char>`,
 * plus the meaning of the two-literal regular expressions `A.*B` of the
 * publishing catalog.
 */
module Text {
  import Seqs

  /** strings.HasPrefix. */
  predicate HasPrefix(s: string, prefix: string)
  {
    prefix <= s
  }

  predicate HasSuffix(s: string, suffix: string)
  {
    |suffix| <= |s| && s[|s| - |suffix|..] == suffix
  }

  /** Lower-casing of one character; only the ASCII letters are mapped. */
  function LowerChar(c: char): char
  {
    if 'A' <= c <= 'Z' then (c as int - 'A' as int + 'a' as int) as char else c
  }

  /** strings.ToLower, restricted to ASCII letters. */
  function ToLower(s: string): (r: string)
    ensures |r| == |s|
    ensures forall k :: 0 <= k < |s| ==> r[k] == LowerChar(s[k])
  {
    seq(|s|, k requires 0 <= k < |s| => LowerChar(s[k]))
  }

  // ---------------------------------------------------------------------
  // path.Base (filepath.Base behaves the same on '/'-separated paths)
  // ---------------------------------------------------------------------

  /** The path with every trailing '/' removed. */
  function TrimTrailingSlashes(s: string): (r: string)
    ensures r <= s
    ensures r == [] || r[|r| - 1] != '/'
    ensures forall k :: |r| <= k < |s| ==> s[k] == '/'
  {
    if s != [] && s[|s| - 1] == '/' then TrimTrailingSlashes(s[..|s| - 1]) else s
  }

  /** The longest suffix of `s` that holds no '/'. */
  function AfterLastSlash(s: string): (r: string)
    ensures HasSuffix(s, r)
    ensures '/' !in r
    ensures |r| < |s| ==> s[|s| - |r| - 1] == '/'
  {
    if s == [] || s[|s| - 1] == '/' then []
    else AfterLastSlash(s[..|s| - 1]) + [s[|s| - 1]]
  }

  /**
   * path.Base: "." for the empty path, "/" for a path made only of
   * slashes, otherwise the last element once trailing slashes are removed.
   */
  function Base(path: string): string
  {
    if path == [] then "."
    else
      var t := TrimTrailingSlashes(path);
      if t == [] then "/" else AfterLastSlash(t)
  }

  lemma {:induction false} AfterLastSlashAppend(x: string, n: string)
    requires '/' !in n
    ensures AfterLastSlash(x + n) == AfterLastSlash(x) + n
    decreases |n|
  {
    if n == [] {
      assert x + n == x;
    } else {
      var m, c := n[..|n| - 1], n[|n| - 1];
      Seqs.SplitLast(n);
      Seqs.NotInPrefix(n, |n| - 1, '/');
      AfterLastSlashAppend(x, m);
      Seqs.AppendAssoc(x, m, [c]);
      AfterLastSlashSnoc(x + m, c);
      Seqs.AppendAssoc(AfterLastSlash(x), m, [c]);
    }
  }

  lemma AfterLastSlashSnoc(x: string, c: char)
    requires c != '/'
    ensures AfterLastSlash(x + [c]) == AfterLastSlash(x) + [c]
  {
    Seqs.ButLast(x, c);
  }

  /** The base name of a path ending in `name` right after a '/' (or of `name` alone) is `name`. */
  lemma BaseOfName(dir: string, name: string)
    requires dir == [] || dir[|dir| - 1] == '/'
    requires name != [] && '/' !in name
    ensures Base(dir + name) == name
  {
    var path := dir + name;
    assert path[|path| - 1] == name[|name| - 1];
    assert TrimTrailingSlashes(path) == path;
    assert AfterLastSlash(dir) == [];
    AfterLastSlashAppend(dir, name);
    assert [] + name == name;
  }

  /** A path whose base name is `name` (and that does not end in '/') is `name` or ends in "/" + `name`. */
  lemma BaseIsNameOnly(path: string, name: string)
    requires path != [] && path[|path| - 1] != '/'
    requires Base(path) == name
    ensures path == name || HasSuffix(path, "/" + name)
  {
    assert TrimTrailingSlashes(path) == path;
    var r := AfterLastSlash(path);
    assert r == name;
    if |r| < |path| {
      assert path[|path| - |r| - 1] == '/';
      assert path[|path| - |r| - 1..] == "/" + name by {
        assert path[|path| - |r|..] == r;
      }
    } else {
      assert path[|path| - |r|..] == path;
    }
  }

  /**
   * For a path that does not end in '/', its base name is `name` exactly
   * when the path is `name` itself or ends in "/" + `name`.
   */
  lemma BaseIsName(path: string, name: string)
    requires path != [] && path[|path| - 1] != '/'
    requires name != [] && '/' !in name
    ensures Base(path) == name <==> path == name || HasSuffix(path, "/" + name)
  {
    if Base(path) == name {
      BaseIsNameOnly(path, name);
    }
    if path == name || HasSuffix(path, "/" + name) {
      BaseOfSuffix(path, name);
    }
  }

  /** `name` itself, and any path ending in "/" + `name`, has base name `name`. */
  lemma BaseOfSuffix(path: string, name: string)
    requires name != [] && '/' !in name
    requires path == name || HasSuffix(path, "/" + name)
    ensures Base(path) == name
  {
    var dir := path[..|path| - |name|];
    assert dir == [] || dir[|dir| - 1] == '/' by {
      if path != name {
        assert path[|path| - |name| - 1..][0] == '/';
      }
    }
    assert dir + name == path by {
      if path != name {
        assert path[|path| - |name|..] == name;
      }
    }
    BaseOfName(dir, name);
  }

  // ---------------------------------------------------------------------
  // strings.Join and strings.Split
  // ---------------------------------------------------------------------

  /** strings.Join. */
  function Join(xs: seq<string>, sep: string): string
  {
    if |xs| == 0 then ""
    else if |xs| == 1 then xs[0]
    else xs[0] + sep + Join(xs[1..], sep)
  }

  /** strings.Split with a one-character separator. */
  function Split(s: string, sep: char): (r: seq<string>)
    ensures |r| >= 1
  {
    if s == [] then [""]
    else if s[0] == sep then [""] + Split(s[1..], sep)
    else
      var rest := Split(s[1..], sep);
      [[s[0]] + rest[0]] + rest[1..]
  }

  lemma {:induction false} SplitFree(x: string, sep: char)
    requires sep !in x
    ensures Split(x, sep) == [x]
  {
    if x != [] {
      SplitFree(x[1..], sep);
      assert [x[0]] + x[1..] == x;
    }
  }

  lemma {:induction false} SplitAfterField(x: string, sep: char, y: string)
    requires sep !in x
    ensures Split(x + [sep] + y, sep) == [x] + Split(y, sep)
  {
    if x == [] {
      assert x + [sep] + y == [sep] + y;
      assert ([sep] + y)[1..] == y;
    } else {
      assert (x + [sep] + y)[1..] == x[1..] + [sep] + y;
      SplitAfterField(x[1..], sep, y);
      assert [x[0]] + x[1..] == x;
    }
  }

  /** Splitting a join recovers the fields when no field holds the separator. */
  lemma {:induction false} SplitJoin(xs: seq<string>, sep: char)
    requires xs != []
    requires forall k :: 0 <= k < |xs| ==> sep !in xs[k]
    ensures Split(Join(xs, [sep]), sep) == xs
  {
    if |xs| == 1 {
      SplitFree(xs[0], sep);
    } else {
      SplitJoin(xs[1..], sep);
      SplitAfterField(xs[0], sep, Join(xs[1..], [sep]));
      assert xs == [xs[0]] + xs[1..];
    }
  }

  lemma {:induction false} JoinAppend(xs: seq<string>, ys: seq<string>, sep: string)
    requires xs != [] && ys != []
    ensures Join(xs + ys, sep) == Join(xs, sep) + sep + Join(ys, sep)
  {
    if |xs| == 1 {
      assert (xs + ys)[1..] == ys;
    } else {
      assert (xs + ys)[1..] == xs[1..] + ys;
      JoinAppend(xs[1..], ys, sep);
    }
  }

  // ---------------------------------------------------------------------
  // The `%d` verb
  // ---------------------------------------------------------------------

  function DigitChar(d: nat): (c: char)
    requires d < 10
    ensures '0' <= c <= '9'
  {
    "0123456789"[d]
  }

  function NatToString(n: nat): (r: string)
    ensures r != []
    ensures forall k :: 0 <= k < |r| ==> '0' <= r[k] <= '9'
  {
    if n < 10 then [DigitChar(n)] else NatToString(n / 10) + [DigitChar(n % 10)]
  }

  /** Decimal rendering of an integer, as fmt's `%d`. */
  function IntToString(i: int): (r: string)
    ensures '\n' !in r
  {
    if i < 0 then "-" + NatToString(-i) else NatToString(i)
  }

  // ---------------------------------------------------------------------
  // Two-literal regular expressions
  // ---------------------------------------------------------------------

  predicate OccursAt(s: string, t: string, i: int)
  {
    0 <= i && i + |t| <= |s| && s[i..i + |t|] == t
  }

  /**
   * Go's regexp.MatchString for the pattern `first.*last` (first and last
   * free of metacharacters, no `(?s)` flag): `first` occurs, `last` occurs
   * at or after its end, and no newline lies between them, since `.` does
   * not match '\n'.
   */
  predicate LineMatch(s: string, first: string, last: string)
  {
    exists i, j | 0 <= i <= j <= |s| ::
      OccursAt(s, first, i) && i + |first| <= j && OccursAt(s, last, j) && '\n' !in s[i + |first|..j]
  }
}
