/**
 * The file-level half of detect.js: the compiled-file list
 * (`getWebpackAssets`), the membership dictionaries built from file lists
 * (`convertFilesToDict`), the glob pattern list (`getPattern`) and the
 * unused-file filter of `detectDeadCode` (line 17).
 */
module FileSets {
  import opened JsArray
  import opened JsString
  import opened Paths
  import opened Webpack

  /** A plain JavaScript object used as a set of paths: every stored value is `true`. */
  type FileDict = map<string, bool>

  /** `dict[key]` is truthy; a key that is absent reads as `undefined`. */
  predicate Truthy(dict: FileDict, key: string)
  {
    key in dict && dict[key]
  }

  function ExistsAt(asset: Asset): string
  {
    asset.existsAt
  }

  /**
   * The list `getWebpackAssets` returns (detect.js:91-100): every file
   * dependency in order, then the `existsAt` path of every asset in key order.
   */
  function WebpackAssets(compilation: Compilation): (r: seq<string>)
    ensures |r| == |compilation.fileDependencies| + |compilation.assets|
    ensures r[..|compilation.fileDependencies|] == compilation.fileDependencies
    ensures forall k :: 0 <= k < |compilation.assets| ==>
              r[|compilation.fileDependencies| + k] == compilation.assets[k].existsAt
  {
    compilation.fileDependencies + Map(ExistsAt, compilation.assets)
  }

  /** `getWebpackAssets`: copies the file dependencies, then pushes each asset's `existsAt`. */
  method GetWebpackAssets(compilation: Compilation) returns (assets: seq<string>)
    ensures assets == WebpackAssets(compilation)
  {
    var deps := compilation.fileDependencies;
    assets := deps;
    var i := 0;
    while i < |compilation.assets|
      invariant 0 <= i <= |compilation.assets|
      invariant |assets| == |deps| + i
      invariant assets[..|deps|] == deps
      invariant forall k :: 0 <= k < i ==> assets[|deps| + k] == compilation.assets[k].existsAt
    {
      assets := assets + [compilation.assets[i].existsAt];
      i := i + 1;
    }
  }

  /** The filter of `convertFilesToDict`: `file.indexOf("node_modules") === -1`. */
  predicate OutsideDependencies(file: string)
  {
    IndexOf(file, NODE_MODULES) == -1
  }

  /** The reduce of `convertFilesToDict`: the normalised path of every file is set to `true`. */
  function MarkFiles(files: seq<string>): (d: FileDict)
    ensures forall k :: k in d <==> exists f :: f in files && ToUnixPath(f) == k
    ensures forall k :: k in d ==> d[k]
  {
    if files == [] then map[]
    else
      var init := files[..|files| - 1];
      assert files == init + [files[|files| - 1]];
      MarkFiles(init)[ToUnixPath(files[|files| - 1]) := true]
  }

  /**
   * The dictionary `convertFilesToDict` returns (detect.js:102-111): a key is
   * present, and `true`, exactly when it is the normalised form of an input
   * path that does not contain `node_modules` before normalisation.
   */
  function FilesToDict(files: seq<string>): (d: FileDict)
    ensures forall k :: k in d <==> exists f :: f in files && !Contains(f, NODE_MODULES) && ToUnixPath(f) == k
    ensures forall k :: k in d ==> d[k]
    ensures forall k :: Truthy(d, k) <==> k in d
  {
    MarkFiles(Filter(OutsideDependencies, files))
  }

  /** `convertFilesToDict`: filters the list, then fills the accumulator object one path at a time. */
  method ConvertFilesToDict(files: seq<string>) returns (dict: FileDict)
    ensures dict == FilesToDict(files)
  {
    var kept := Filter(OutsideDependencies, files);
    dict := map[];
    var i := 0;
    while i < |kept|
      invariant 0 <= i <= |kept|
      invariant dict == MarkFiles(kept[..i])
    {
      var unixFile := ToUnixPath(kept[i]);
      dict := dict[unixFile := true];
      assert kept[..i + 1][..i] == kept[..i];
      i := i + 1;
    }
    assert kept[..|kept|] == kept;
  }

  /** The same path, with backslashes in it, is never found among the keys of a dictionary. */
  lemma DictKeysHaveNoBackslash(files: seq<string>, k: string)
    requires !HasNoBackslash(k)
    ensures k !in FilesToDict(files)
  {
  }

  function Negate(pattern: string): string
  {
    "!" + pattern
  }

  /** fast-glob treats a pattern that starts with `!` as an exclusion. */
  predicate IsNegated(pattern: string)
  {
    |pattern| > 0 && pattern[0] == '!'
  }

  function StripNegation(pattern: string): string
  {
    if IsNegated(pattern) then pattern[1..] else pattern
  }

  /**
   * `getPattern` (detect.js:36-38): the include patterns resolved against
   * `context`, in order, followed by every exclude pattern prefixed with `!`,
   * in order and not resolved. `resolve` stands for `path.resolve`.
   */
  function GetPattern(options: Options, resolve: (string, string) -> string): (r: seq<string>)
    ensures |r| == |options.patterns| + |options.exclude|
    ensures forall i :: 0 <= i < |options.patterns| ==> r[i] == resolve(options.context, options.patterns[i])
    ensures forall j :: 0 <= j < |options.exclude| ==> r[|options.patterns| + j] == "!" + options.exclude[j]
  {
    Map((pattern: string) => resolve(options.context, pattern), options.patterns) + Map(Negate, options.exclude)
  }

  /**
   * When no resolved include pattern starts with `!`, the patterns fast-glob
   * reads as exclusions are exactly the exclude patterns, in order.
   */
  lemma NegatedPatternsAreExcludes(options: Options, resolve: (string, string) -> string)
    requires forall i :: 0 <= i < |options.patterns| ==> !IsNegated(resolve(options.context, options.patterns[i]))
    ensures Map(StripNegation, Filter(IsNegated, GetPattern(options, resolve))) == options.exclude
  {
    var r := GetPattern(options, resolve);
    var n := |options.patterns|;
    assert r == r[..n] + r[n..];
    assert r[n..] == Map(Negate, options.exclude);
    assert forall i :: 0 <= i < n ==> !IsNegated(r[..n][i]);
    FilterNone(IsNegated, r[..n]);
    FilterConcat(IsNegated, r[..n], r[n..]);
    NegateInverse(options.exclude);
  }

  /** Negated patterns are all recognised as negated, and stripping the `!` gives the originals back. */
  lemma NegateInverse(exclude: seq<string>)
    ensures Map(StripNegation, Filter(IsNegated, Map(Negate, exclude))) == exclude
  {
    var negated := Map(Negate, exclude);
    assert forall j :: 0 <= j < |negated| ==> IsNegated(negated[j]);
    var stripped := Map(StripNegation, negated);
    forall j | 0 <= j < |stripped|
      ensures stripped[j] == exclude[j]
    {
      assert negated[j] == "!" + exclude[j];
      assert ("!" + exclude[j])[1..] == exclude[j];
    }
  }

  /**
   * The unused files (detect.js:17), `includedFiles.filter(file => !compiledFiles[file])`:
   * the included files, in glob order and with their multiplicities, whose raw
   * path is not a truthy key of `compiledFiles`.
   */
  function UnusedFiles(includedFiles: seq<string>, compiledFiles: FileDict): (r: seq<string>)
    ensures IsSubsequence(r, includedFiles)
    ensures forall f :: f in r <==> f in includedFiles && !Truthy(compiledFiles, f)
    ensures forall f :: multiset(r)[f] == if Truthy(compiledFiles, f) then 0 else multiset(includedFiles)[f]
    ensures compiledFiles == map[] ==> r == includedFiles
  {
    var keep := (file: string) => !Truthy(compiledFiles, file);
    FilterIsSubsequence(keep, includedFiles);
    FilterMultiset(keep, includedFiles);
    Filter(keep, includedFiles)
  }

  /** Filtering the unused files again changes nothing. */
  lemma UnusedFilesIdempotent(includedFiles: seq<string>, compiledFiles: FileDict)
    ensures UnusedFiles(UnusedFiles(includedFiles, compiledFiles), compiledFiles) == UnusedFiles(includedFiles, compiledFiles)
  {
    var once := UnusedFiles(includedFiles, compiledFiles);
    assert forall i :: 0 <= i < |once| ==> once[i] in once;
  }

  /**
   * Against the compiled-file dictionary, an included file is unused exactly
   * when no compiled path outside `node_modules` normalises to its raw path;
   * in particular an included path that still has a backslash is always unused.
   */
  lemma UnusedAgainstCompiled(includedFiles: seq<string>, compiled: seq<string>, f: string)
    ensures f in UnusedFiles(includedFiles, FilesToDict(compiled)) <==>
              f in includedFiles && !exists c :: c in compiled && !Contains(c, NODE_MODULES) && ToUnixPath(c) == f
    ensures f in includedFiles && !HasNoBackslash(f) ==> f in UnusedFiles(includedFiles, FilesToDict(compiled))
  {
  }
}
