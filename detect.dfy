/**
 * `detectDeadCode` (detect.js:8-34): computes the compiled-file dictionary
 * and the included files, then the unused files and the unused exports as
 * the options ask, and decides whether the process exits with status 2.
 * Glob expansion (`fg.sync`) and `path.resolve` are parameters.
 */
module Detect {
  import opened JsArray
  import opened JsString
  import opened Paths
  import opened Webpack
  import opened FileSets
  import opened ExportUsage

  /**
   * The value of `unusedExportMap` in `detectDeadCode`: the empty array it is
   * initialised to (line 14), or the plain object `getUsedExportMap` returns
   * (line 25).
   */
  datatype ExportReport = EmptyArray | PlainObject(entries: ExportMap)

  /** `unusedExportMap.length`: 0 for the array, `undefined` for a plain object. */
  function Length(report: ExportReport): Option<nat>
  {
    match report
    case EmptyArray => Some(0)
    case PlainObject(_) => None
  }

  /** `n > 0`, where `undefined > 0` is `false`. */
  predicate IsPositive(n: Option<nat>)
  {
    n.Some? && n.value > 0
  }

  /**
   * The exit condition of detect.js:29-31. Because a plain object has no
   * `length`, unused exports never contribute: the process exits with status
   * 2 exactly when `failOnHint` is set and some file is unused.
   */
  function ExitsWithCodeTwo(failOnHint: bool, unusedFiles: seq<string>, report: ExportReport): (exit: bool)
    ensures exit <==> failOnHint && unusedFiles != []
  {
    (|unusedFiles| > 0 || IsPositive(Length(report))) && failOnHint
  }

  /**
   * `logUnusedExportMap` (detect.js:73-89) throws: it calls
   * `unusedExports.join(", ")` (line 82) on every entry, and a falsy entry
   * (`undefined`, `null`, `false`) has no `join`, so the call raises a
   * TypeError. List entries are joined without error.
   */
  predicate LoggingThrows(entries: ExportMap)
  {
    exists path :: path in entries && entries[path].ProvidedFalsy?
  }

  /** `fg.sync(getPattern(options))` (detect.js:11), with `glob` standing for `fg.sync`. */
  function IncludedFiles(options: Options, resolve: (string, string) -> string, glob: seq<string> -> seq<string>): seq<string>
  {
    glob(GetPattern(options, resolve))
  }

  /**
   * One run of `detectDeadCode`: the unused files and the unused-export report
   * it computes, whether logging the report throws (line 26, which then ends
   * the call before the exit test), and whether it calls `process.exit(2)`.
   * The delayed file logging and the interactive prompt are not part of the
   * result.
   */
  method DetectDeadCode(
    compilation: Compilation,
    options: Options,
    resolve: (string, string) -> string,
    glob: seq<string> -> seq<string>)
    returns (unusedFiles: seq<string>, unusedExportMap: ExportReport, throwsTypeError: bool, exitCodeTwo: bool)
    ensures var includedFiles := IncludedFiles(options, resolve, glob);
            && unusedFiles == (if options.detectUnusedFiles
                               then UnusedFiles(includedFiles, FilesToDict(WebpackAssets(compilation)))
                               else [])
            && unusedExportMap == (if options.detectUnusedExport
                                   then PlainObject(UnusedExportsOf(FilesToDict(includedFiles), compilation))
                                   else EmptyArray)
    ensures throwsTypeError <==> options.detectUnusedExport && LoggingThrows(unusedExportMap.entries)
    ensures exitCodeTwo <==>
              !throwsTypeError && options.failOnHint && options.detectUnusedFiles && unusedFiles != []
  {
    var assets := GetWebpackAssets(compilation);
    var compiledFiles := ConvertFilesToDict(assets);
    var includedFiles := glob(GetPattern(options, resolve));
    unusedFiles := [];
    unusedExportMap := EmptyArray;
    throwsTypeError := false;
    if options.detectUnusedFiles {
      unusedFiles := UnusedFiles(includedFiles, compiledFiles);
    }
    if options.detectUnusedExport {
      var includedFileMap := ConvertFilesToDict(includedFiles);
      var exportMap := GetUsedExportMap(includedFileMap, compilation);
      unusedExportMap := PlainObject(exportMap);
      if LoggingThrows(exportMap) {
        throwsTypeError := true;
        exitCodeTwo := false;
        return;
      }
    }
    exitCodeTwo := ExitsWithCodeTwo(options.failOnHint, unusedFiles, unusedExportMap);
  }

  /** A path that is already in Unix form and passes both `node_modules` checks. */
  predicate IsPlainPath(path: string)
  {
    && HasNoBackslash(path)
    && !Contains(path, NODE_MODULES)
    && forall i :: 0 <= i < |path| ==> !IsLineTerminator(path[i])
  }

  /** A plain path is its own Unix form and the regular expression accepts it. */
  lemma PlainPath(path: string)
    requires IsPlainPath(path)
    ensures ToUnixPath(path) == path
    ensures OutsideNodeModules(path)
  {
    ToUnixPathIdentity(path);
    OutsideNodeModulesIff(path);
  }

  /** The dictionary of a single plain path holds that path and nothing else. */
  lemma SinglePathDict(path: string)
    requires IsPlainPath(path)
    ensures FilesToDict([path]) == map[path := true]
  {
    PlainPath(path);
    assert OutsideDependencies(path);
    assert Filter(OutsideDependencies, [path]) == [path];
    assert MarkFiles([path]) == MarkFiles([])[path := true] by {
      assert [path][..0] == [];
    }
  }

  /**
   * Included files `a` and `b`, compiled `a` only: `b` is the one unused file,
   * and with `failOnHint` the process exits with status 2.
   */
  lemma UnusedFileScenario(a: string, b: string)
    requires IsPlainPath(a) && a != b
    ensures UnusedFiles([a, b], FilesToDict([a])) == [b]
    ensures ExitsWithCodeTwo(true, UnusedFiles([a, b], FilesToDict([a])), EmptyArray)
  {
    SinglePathDict(a);
    var r := UnusedFiles([a, b], FilesToDict([a]));
    assert b in r && a !in r;
    assert |r| <= 2 by {
      assert multiset(r)[a] == 0;
      assert multiset(r)[b] == multiset([a, b])[b];
      assert multiset([a, b])[b] == 1;
    }
    assert r == [b] by {
      assert forall f :: f in r ==> f == b;
      assert multiset(r)[b] == 1;
      assert multiset(r) == multiset{b};
    }
  }

  function SingleModule(m: Module): Compilation
  {
    Compilation([], [], [Chunk([m])])
  }

  /** The report of a one-module compilation is what that module writes. */
  lemma SingleModuleReport(includedFileMap: FileDict, m: Module)
    ensures UnusedExportsOf(includedFileMap, SingleModule(m)) == Visit(includedFileMap, map[], m)
  {
    assert SingleModule(m).chunks[..0] == [];
    assert ModulesOf(SingleModule(m).chunks) == [m];
    RecordSnoc(includedFileMap, map[], [], m);
  }

  /** `usedExports === false` with provided `a`, `b`: the entry is `["a", "b"]`. */
  lemma NoneUsedScenario(path: string)
    requires IsPlainPath(path) && path != ""
    ensures var m := Module(Some(path), UsedNone, ProvidedList(["a", "b"]), ProvidedFalsy);
            UnusedExportsOf(FilesToDict([path]), SingleModule(m)) == map[path := ProvidedList(["a", "b"])]
  {
    var m := Module(Some(path), UsedNone, ProvidedList(["a", "b"]), ProvidedFalsy);
    SinglePathDict(path);
    PlainPath(path);
    SingleModuleReport(FilesToDict([path]), m);
    EligibleModuleWrites(FilesToDict([path]), m);
  }

  /** Provided `a`, `b`, `c` and used `a`, `c`: the entry is `["b"]`. */
  lemma PartialUseScenario(path: string)
    requires IsPlainPath(path) && path != ""
    ensures var m := Module(Some(path), UsedList(["a", "c"]), ProvidedList(["a", "b", "c"]), ProvidedFalsy);
            UnusedExportsOf(FilesToDict([path]), SingleModule(m)) == map[path := ProvidedList(["b"])]
  {
    var m := Module(Some(path), UsedList(["a", "c"]), ProvidedList(["a", "b", "c"]), ProvidedFalsy);
    SinglePathDict(path);
    PlainPath(path);
    SingleModuleReport(FilesToDict([path]), m);
    var unused := UnusedNames(["a", "b", "c"], UsedList(["a", "c"]));
    assert unused == ["b"] by {
      assert "a" != "b" && "c" != "b" && "a" != "c";
      assert ["a", "b", "c"][1..] == ["b", "c"];
      assert ["b", "c"][1..] == ["c"];
    }
  }

  /**
   * A module under `node_modules` is skipped even when the included-file map
   * holds its path and none of its exports is used.
   */
  lemma NodeModulesScenario(path: string)
    requires Contains(ToUnixPath(path), NODE_MODULES)
    ensures var m := Module(Some(path), UsedNone, ProvidedList(["a"]), ProvidedFalsy);
            UnusedExportsOf(map[ToUnixPath(path) := true], SingleModule(m)) == map[]
  {
    var m := Module(Some(path), UsedNone, ProvidedList(["a"]), ProvidedFalsy);
    SingleModuleReport(map[ToUnixPath(path) := true], m);
    SkippedModules(map[ToUnixPath(path) := true], m);
  }

  /**
   * A module with `usedExports === false` whose `providedExports` and
   * `buildMeta.providedExports` are both falsy records that falsy value, and
   * logging the report then throws.
   */
  lemma FalsyEntryScenario(path: string)
    requires IsPlainPath(path) && path != ""
    ensures var m := Module(Some(path), UsedNone, ProvidedFalsy, ProvidedFalsy);
            var report := UnusedExportsOf(FilesToDict([path]), SingleModule(m));
            report == map[path := ProvidedFalsy] && LoggingThrows(report)
  {
    var m := Module(Some(path), UsedNone, ProvidedFalsy, ProvidedFalsy);
    SinglePathDict(path);
    PlainPath(path);
    SingleModuleReport(FilesToDict([path]), m);
    EligibleModuleWrites(FilesToDict([path]), m);
    assert path in map[path := ProvidedFalsy];
  }

  /**
   * The module that last assigns to `path` has `usedExports === false` and
   * both `providedExports` and `buildMeta.providedExports` falsy.
   */
  ghost predicate FalsyWriter(includedFileMap: FileDict, modules: seq<Module>, path: string)
  {
    var i := LastWriter(includedFileMap, modules, path);
    && i >= 0
    && modules[i].usedExports.UsedNone?
    && modules[i].providedExports.ProvidedFalsy?
    && modules[i].buildMetaProvidedExports.ProvidedFalsy?
  }

  /**
   * Logging the export report throws exactly when some recorded path was last
   * assigned by a module with `usedExports === false` and no provided exports
   * at all.
   */
  lemma LoggingThrowsIff(includedFileMap: FileDict, compilation: Compilation)
    ensures var r := UnusedExportsOf(includedFileMap, compilation);
            LoggingThrows(r) <==>
              exists path :: path in r && FalsyWriter(includedFileMap, ModulesOf(compilation.chunks), path)
  {
    var r := UnusedExportsOf(includedFileMap, compilation);
    var modules := ModulesOf(compilation.chunks);
    forall path | path in r
      ensures r[path].ProvidedFalsy? <==> FalsyWriter(includedFileMap, modules, path)
    {
      RecordIsLastWrite(includedFileMap, map[], modules, path);
      WrittenEntry(includedFileMap, modules[LastWriter(includedFileMap, modules, path)]);
    }
  }

  /** With unused exports but no unused file, `failOnHint` does not stop the process. */
  lemma UnusedExportsDoNotExit(entries: ExportMap)
    requires entries != map[]
    ensures !ExitsWithCodeTwo(true, [], PlainObject(entries))
  {
  }
}
