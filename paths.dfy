/**
 * Path handling in detect.js: the separator normalisation
 * `convertToUnixPath` (all paths are compared with forward slashes) and
 * the two ways in which a dependency-manager (`node_modules`) path is
 * recognised: `indexOf` on a raw path and a regular expression on a
 * normalised one.
 */
module Paths {
  import opened JsString

  const NODE_MODULES: string := "node_modules"

  predicate HasNoBackslash(s: string)
  {
    forall i :: 0 <= i < |s| ==> s[i] != '\\'
  }

  /** A run of `n` backslashes. */
  function Backslashes(n: nat): (r: string)
    ensures |r| == n && forall i :: 0 <= i < n ==> r[i] == '\\'
  {
    if n == 0 then [] else ['\\'] + Backslashes(n - 1)
  }

  /**
   * The scan behind `convertToUnixPath`: `inRun` says whether the previous
   * character was a backslash, in which case a further backslash belongs to
   * the same run and produces nothing.
   */
  function ReplaceRuns(path: string, inRun: bool): (r: string)
    ensures |r| <= |path|
    ensures HasNoBackslash(r)
  {
    if path == [] then []
    else if path[0] != '\\' then [path[0]] + ReplaceRuns(path[1..], false)
    else if inRun then ReplaceRuns(path[1..], true)
    else "/" + ReplaceRuns(path[1..], true)
  }

  /**
   * `convertToUnixPath` (detect.js:165-167), that is `path.replace(/\\+/g, "/")`:
   * every maximal run of backslashes is replaced by a single `/` and every
   * other character is copied.
   */
  function ToUnixPath(path: string): (r: string)
    ensures |r| <= |path|
    ensures HasNoBackslash(r)
  {
    ReplaceRuns(path, false)
  }

  /** A path without backslashes is already a Unix path. */
  lemma {:induction false} ToUnixPathIdentity(path: string)
    requires HasNoBackslash(path)
    ensures ToUnixPath(path) == path
  {
    if path != [] {
      ToUnixPathIdentity(path[1..]);
    }
  }

  /** Normalising twice is normalising once. */
  lemma ToUnixPathIdempotent(path: string)
    ensures ToUnixPath(ToUnixPath(path)) == ToUnixPath(path)
  {
    ToUnixPathIdentity(ToUnixPath(path));
  }

  /** The scan of a concatenation resumes on the second part in the state the first part left. */
  lemma {:induction false} ReplaceRunsConcat(a: string, b: string, inRun: bool)
    ensures ReplaceRuns(a + b, inRun) == ReplaceRuns(a, inRun) + ReplaceRuns(b, if a == [] then inRun else a[|a| - 1] == '\\')
  {
    if a == [] {
      assert a + b == b;
    } else {
      assert (a + b)[0] == a[0];
      assert (a + b)[1..] == a[1..] + b;
      ReplaceRunsConcat(a[1..], b, a[0] == '\\');
    }
  }

  /** Outside a run of backslashes the scan state is irrelevant. */
  lemma ReplaceRunsOutsideRun(s: string, inRun: bool)
    requires s == [] || s[0] != '\\'
    ensures ReplaceRuns(s, inRun) == ToUnixPath(s)
  {
  }

  /** Inside a run, further backslashes produce nothing. */
  lemma {:induction false} ReplaceRunsInRun(n: nat, rest: string)
    ensures ReplaceRuns(Backslashes(n) + rest, true) == ReplaceRuns(rest, true)
  {
    if n > 0 {
      assert (Backslashes(n) + rest)[1..] == Backslashes(n - 1) + rest;
      ReplaceRunsInRun(n - 1, rest);
    } else {
      assert Backslashes(n) + rest == rest;
    }
  }

  /**
   * Each maximal run of backslashes becomes exactly one `/`: a run of `n >= 1`
   * backslashes followed by anything that does not continue the run turns
   * into a single `/` followed by the normalised rest.
   */
  lemma ToUnixPathRun(n: nat, rest: string)
    requires n >= 1
    requires rest == [] || rest[0] != '\\'
    ensures ToUnixPath(Backslashes(n) + rest) == "/" + ToUnixPath(rest)
  {
    assert (Backslashes(n) + rest)[1..] == Backslashes(n - 1) + rest;
    ReplaceRunsInRun(n - 1, rest);
    ReplaceRunsOutsideRun(rest, true);
  }

  /**
   * Normalisation works piece by piece: it distributes over a concatenation
   * whenever the cut does not split a run of backslashes.
   */
  lemma ToUnixPathConcat(a: string, b: string)
    requires a == [] || b == [] || a[|a| - 1] != '\\' || b[0] != '\\'
    ensures ToUnixPath(a + b) == ToUnixPath(a) + ToUnixPath(b)
  {
    ReplaceRunsConcat(a, b, false);
    if a != [] && b != [] && a[|a| - 1] == '\\' {
      ReplaceRunsOutsideRun(b, true);
    }
  }

  /** JavaScript's line terminators, which the regular-expression `.` does not match. */
  predicate IsLineTerminator(c: char)
  {
    c == '\n' || c == '\r' || c == '\U{2028}' || c == '\U{2029}'
  }

  /**
   * `/^((?!(node_modules)).)*$/.test(path)` (detect.js:53): the starred group
   * must consume every character, and it consumes one only when it is not a
   * line terminator and `node_modules` does not begin there.
   */
  predicate OutsideNodeModules(path: string)
  {
    path == [] || (!OccursAt(path, NODE_MODULES, 0) && !IsLineTerminator(path[0]) && OutsideNodeModules(path[1..]))
  }

  /** The regular expression accepts exactly the paths without `node_modules` and without line terminators. */
  lemma {:induction false} OutsideNodeModulesIff(path: string)
    ensures OutsideNodeModules(path) <==>
              !Contains(path, NODE_MODULES) && forall i :: 0 <= i < |path| ==> !IsLineTerminator(path[i])
  {
    if path == [] {
      assert forall i :: !OccursAt(path, NODE_MODULES, i);
    } else {
      ContainsCons(path, NODE_MODULES);
      OutsideNodeModulesIff(path[1..]);
      assert forall i :: 1 <= i < |path| ==> path[i] == path[1..][i - 1];
    }
  }
}
