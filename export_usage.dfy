/**
 * The export-level half of detect.js: `getUsedExportMap`, which walks
 * every module of every chunk and records, per normalised included path,
 * the exports that webpack's usage metadata reports as unused.
 */
module ExportUsage {
  import opened JsArray
  import opened JsString
  import opened Paths
  import opened Webpack
  import opened FileSets

  /** The object `getUsedExportMap` fills: a path maps to the value assigned to it. */
  type ExportMap = map<string, ProvidedExports>

  /** `module.resource` is truthy: present and not the empty string. */
  predicate HasResource(m: Module)
  {
    m.resource.Some? && m.resource.value != ""
  }

  /** `module.providedExports || module.buildMeta.providedExports` (detect.js:47). */
  function EffectiveProvidedExports(m: Module): ProvidedExports
  {
    if m.providedExports.ProvidedFalsy? then m.buildMetaProvidedExports else m.providedExports
  }

  /** `convertToUnixPath(module.resource)` (detect.js:48). */
  function ModulePath(m: Module): string
    requires HasResource(m)
  {
    ToUnixPath(m.resource.value)
  }

  /**
   * The guard of detect.js:50-55, with the regular expression replaced by
   * what it accepts (OutsideNodeModulesIff).
   */
  predicate Eligible(includedFileMap: FileDict, m: Module)
  {
    && HasResource(m)
    && !m.usedExports.UsedAll?
    && !EffectiveProvidedExports(m).ProvidedAll?
    && !Contains(ModulePath(m), NODE_MODULES)
    && (forall i :: 0 <= i < |ModulePath(m)| ==> !IsLineTerminator(ModulePath(m)[i]))
    && Truthy(includedFileMap, ModulePath(m))
  }

  /**
   * `provided.filter(x => used instanceof Array && !used.includes(x))`
   * (detect.js:59-61): the provided names, in provided order, that a list of
   * used names does not mention; nothing when `used` is not a list.
   */
  function UnusedNames(provided: seq<string>, used: UsedExports): (r: seq<string>)
    ensures IsSubsequence(r, provided)
    ensures forall x :: x in r <==> x in provided && used.UsedList? && x !in used.names
    ensures forall x :: multiset(r)[x] == if used.UsedList? && x !in used.names then multiset(provided)[x] else 0
    ensures !used.UsedList? ==> r == []
  {
    var keep := (x: string) => used.UsedList? && x !in used.names;
    FilterIsSubsequence(keep, provided);
    FilterMultiset(keep, provided);
    if used.UsedList? then Filter(keep, provided)
    else
      FilterNone(keep, provided);
      Filter(keep, provided)
  }

  /** The assignment `unusedExportMap[path] = exports` that one module performs. */
  datatype Write = Write(path: string, exports: ProvidedExports)

  /**
   * The body of the inner loop of `getUsedExportMap` (detect.js:45-66) for one
   * module: the assignment it performs, if any.
   */
  function ModuleWrite(includedFileMap: FileDict, m: Module): Option<Write>
  {
    if !HasResource(m) then None
    else
      var providedExports := EffectiveProvidedExports(m);
      var path := ToUnixPath(m.resource.value);
      if m.usedExports.UsedAll? || providedExports.ProvidedAll? || !OutsideNodeModules(path)
         || !Truthy(includedFileMap, path) then None
      else if m.usedExports.UsedNone? then Some(Write(path, providedExports))
      else if providedExports.ProvidedList? then
        var unusedExports := UnusedNames(providedExports.names, m.usedExports);
        if |unusedExports| > 0 then Some(Write(path, ProvidedList(unusedExports))) else None
      else None
  }

  /** The module `m` assigns to key `path`. */
  predicate WritesTo(includedFileMap: FileDict, m: Module, path: string)
  {
    ModuleWrite(includedFileMap, m).Some? && ModuleWrite(includedFileMap, m).value.path == path
  }

  /** `acc` after visiting module `m`. */
  function Visit(includedFileMap: FileDict, acc: ExportMap, m: Module): ExportMap
  {
    match ModuleWrite(includedFileMap, m)
    case None => acc
    case Some(w) => acc[w.path := w.exports]
  }

  /** `acc` after visiting `modules` in order. */
  function Record(includedFileMap: FileDict, acc: ExportMap, modules: seq<Module>): ExportMap
    decreases |modules|
  {
    if modules == [] then acc
    else Visit(includedFileMap, Record(includedFileMap, acc, modules[..|modules| - 1]), modules[|modules| - 1])
  }

  lemma RecordSnoc(includedFileMap: FileDict, acc: ExportMap, modules: seq<Module>, m: Module)
    ensures Record(includedFileMap, acc, modules + [m]) == Visit(includedFileMap, Record(includedFileMap, acc, modules), m)
  {
    assert (modules + [m])[..|modules|] == modules;
  }

  /** The modules in the order the two loops visit them: chunk by chunk, each in iteration order. */
  function ModulesOf(chunks: seq<Chunk>): seq<Module>
    decreases |chunks|
  {
    if chunks == [] then [] else ModulesOf(chunks[..|chunks| - 1]) + chunks[|chunks| - 1].modules
  }

  /** The map `getUsedExportMap` returns. */
  function UnusedExportsOf(includedFileMap: FileDict, compilation: Compilation): ExportMap
  {
    Record(includedFileMap, map[], ModulesOf(compilation.chunks))
  }

  /**
   * One iteration of the inner loop of `getUsedExportMap` (detect.js:45-66):
   * the checks on module `m` and the assignment, if any, into the map.
   */
  method AssignModule(includedFileMap: FileDict, acc: ExportMap, m: Module) returns (unusedExportMap: ExportMap)
    ensures unusedExportMap == Visit(includedFileMap, acc, m)
  {
    unusedExportMap := acc;
    if !HasResource(m) {
      return;
    }
    var providedExports := EffectiveProvidedExports(m);
    var path := ToUnixPath(m.resource.value);
    if !m.usedExports.UsedAll? && !providedExports.ProvidedAll? && OutsideNodeModules(path)
       && Truthy(includedFileMap, path) {
      if m.usedExports.UsedNone? {
        unusedExportMap := unusedExportMap[path := providedExports];
      } else if providedExports.ProvidedList? {
        var unusedExports := UnusedNames(providedExports.names, m.usedExports);
        if |unusedExports| > 0 {
          unusedExportMap := unusedExportMap[path := ProvidedList(unusedExports)];
        }
      }
    }
  }

  /**
   * `getUsedExportMap` (detect.js:40-71): `forEach` over the chunks, `for…of`
   * over each chunk's modules, assigning into one mutable map.
   */
  method GetUsedExportMap(includedFileMap: FileDict, compilation: Compilation) returns (unusedExportMap: ExportMap)
    ensures unusedExportMap == UnusedExportsOf(includedFileMap, compilation)
  {
    unusedExportMap := map[];
    var chunks := compilation.chunks;
    var c := 0;
    while c < |chunks|
      invariant 0 <= c <= |chunks|
      invariant unusedExportMap == Record(includedFileMap, map[], ModulesOf(chunks[..c]))
    {
      var visited := ModulesOf(chunks[..c]);
      var modules := chunks[c].modules;
      var i := 0;
      assert visited + modules[..0] == visited;
      while i < |modules|
        invariant 0 <= i <= |modules|
        invariant unusedExportMap == Record(includedFileMap, map[], visited + modules[..i])
      {
        var m := modules[i];
        unusedExportMap := AssignModule(includedFileMap, unusedExportMap, m);
        assert visited + modules[..i + 1] == (visited + modules[..i]) + [m];
        RecordSnoc(includedFileMap, map[], visited + modules[..i], m);
        i := i + 1;
      }
      assert modules[..|modules|] == modules;
      assert chunks[..c + 1][..c] == chunks[..c];
      c := c + 1;
    }
    assert chunks[..|chunks|] == chunks;
  }

  /** The modules for which `getUsedExportMap` assigns nothing. */
  lemma SkippedModules(includedFileMap: FileDict, m: Module)
    ensures !HasResource(m) ==> ModuleWrite(includedFileMap, m).None?
    ensures m.usedExports.UsedAll? ==> ModuleWrite(includedFileMap, m).None?
    ensures EffectiveProvidedExports(m).ProvidedAll? ==> ModuleWrite(includedFileMap, m).None?
    ensures HasResource(m) && Contains(ModulePath(m), NODE_MODULES) ==> ModuleWrite(includedFileMap, m).None?
    ensures HasResource(m) && ModulePath(m) !in includedFileMap ==> ModuleWrite(includedFileMap, m).None?
    ensures m.usedExports.UsedOther? ==> ModuleWrite(includedFileMap, m).None?
    ensures !m.usedExports.UsedNone? && !EffectiveProvidedExports(m).ProvidedList? ==> ModuleWrite(includedFileMap, m).None?
  {
    if HasResource(m) {
      OutsideNodeModulesIff(ModulePath(m));
    }
  }

  /**
   * What a module that assigns writes: under its normalised path, either its
   * whole effective `providedExports` (when `usedExports === false`), or the
   * non-empty list of provided names, in provided order and with their
   * multiplicities, that its list of used names leaves out. `true` is never
   * written.
   */
  lemma WrittenEntry(includedFileMap: FileDict, m: Module)
    requires ModuleWrite(includedFileMap, m).Some?
    ensures Eligible(includedFileMap, m)
    ensures ModuleWrite(includedFileMap, m).value.path == ModulePath(m)
    ensures !ModuleWrite(includedFileMap, m).value.exports.ProvidedAll?
    ensures m.usedExports.UsedNone? ==> ModuleWrite(includedFileMap, m).value.exports == EffectiveProvidedExports(m)
    ensures !m.usedExports.UsedNone? ==>
              var provided := EffectiveProvidedExports(m);
              var written := ModuleWrite(includedFileMap, m).value.exports;
              && m.usedExports.UsedList? && provided.ProvidedList? && written.ProvidedList?
              && written.names != [] && IsSubsequence(written.names, provided.names)
              && (forall x :: x in written.names <==> x in provided.names && x !in m.usedExports.names)
              && forall x :: multiset(written.names)[x] ==
                               if x in m.usedExports.names then 0 else multiset(provided.names)[x]
  {
    OutsideNodeModulesIff(ModulePath(m));
  }

  /**
   * A module that passes the guard: with `usedExports === false` it records
   * its effective `providedExports` even when that is empty; with a list of
   * used names and a list of provided names it records something exactly
   * when some provided name is not used.
   */
  lemma EligibleModuleWrites(includedFileMap: FileDict, m: Module)
    requires Eligible(includedFileMap, m)
    ensures m.usedExports.UsedNone? ==>
              ModuleWrite(includedFileMap, m) == Some(Write(ModulePath(m), EffectiveProvidedExports(m)))
    ensures m.usedExports.UsedList? && EffectiveProvidedExports(m).ProvidedList? ==>
              (ModuleWrite(includedFileMap, m).Some? <==>
                 exists x :: x in EffectiveProvidedExports(m).names && x !in m.usedExports.names)
  {
    OutsideNodeModulesIff(ModulePath(m));
    if m.usedExports.UsedList? && EffectiveProvidedExports(m).ProvidedList? {
      var unused := UnusedNames(EffectiveProvidedExports(m).names, m.usedExports);
      if unused != [] {
        assert unused[0] in unused;
      }
    }
  }

  /** The index of the last module in `modules` that assigns to `path`, or -1 when none does. */
  ghost function LastWriter(includedFileMap: FileDict, modules: seq<Module>, path: string): (i: int)
    decreases |modules|
    ensures -1 <= i < |modules|
    ensures i >= 0 ==> WritesTo(includedFileMap, modules[i], path)
    ensures forall j :: i < j < |modules| ==> !WritesTo(includedFileMap, modules[j], path)
  {
    if modules == [] then -1
    else if WritesTo(includedFileMap, modules[|modules| - 1], path) then |modules| - 1
    else LastWriter(includedFileMap, modules[..|modules| - 1], path)
  }

  /**
   * Overwrite by key: after visiting `modules`, `path` holds what the last
   * module that assigns to it wrote; when none does, the starting value is
   * left in place (or the key stays absent).
   */
  lemma {:induction false} RecordIsLastWrite(includedFileMap: FileDict, acc: ExportMap, modules: seq<Module>, path: string)
    decreases |modules|
    ensures var r := Record(includedFileMap, acc, modules);
            var i := LastWriter(includedFileMap, modules, path);
            && (path in r <==> i >= 0 || path in acc)
            && (i >= 0 ==> r[path] == ModuleWrite(includedFileMap, modules[i]).value.exports)
            && (i < 0 && path in acc ==> r[path] == acc[path])
  {
    if modules != [] {
      var init := modules[..|modules| - 1];
      RecordIsLastWrite(includedFileMap, acc, init, path);
    }
  }

  /** Visiting `a` then `b` is visiting `a + b`. */
  lemma {:induction false} RecordConcat(includedFileMap: FileDict, acc: ExportMap, a: seq<Module>, b: seq<Module>)
    decreases |b|
    ensures Record(includedFileMap, acc, a + b) == Record(includedFileMap, Record(includedFileMap, acc, a), b)
  {
    if b == [] {
      assert a + b == a;
    } else {
      var init := b[..|b| - 1];
      assert (a + b)[..|a + b| - 1] == a + init;
      assert (a + b)[|a + b| - 1] == b[|b| - 1];
      RecordConcat(includedFileMap, acc, a, init);
    }
  }

  /** Later modules that assign nothing to a path leave its earlier entry in place. */
  lemma LaterModulesKeepEntry(includedFileMap: FileDict, earlier: seq<Module>, later: seq<Module>, path: string)
    requires path in Record(includedFileMap, map[], earlier)
    requires forall j :: 0 <= j < |later| ==> !WritesTo(includedFileMap, later[j], path)
    ensures path in Record(includedFileMap, map[], earlier + later)
    ensures Record(includedFileMap, map[], earlier + later)[path] == Record(includedFileMap, map[], earlier)[path]
  {
    RecordConcat(includedFileMap, map[], earlier, later);
    RecordIsLastWrite(includedFileMap, Record(includedFileMap, map[], earlier), later, path);
  }

  /**
   * Every key of the returned map is the normalised form of an included file
   * outside `node_modules`, and every entry is the one its last writer
   * recorded: never `true`, and when a list, only names that writer provides.
   */
  lemma UnusedExportEntries(includedFiles: seq<string>, compilation: Compilation, path: string)
    requires path in UnusedExportsOf(FilesToDict(includedFiles), compilation)
    ensures exists f :: f in includedFiles && !Contains(f, NODE_MODULES) && ToUnixPath(f) == path
    ensures !Contains(path, NODE_MODULES) && HasNoBackslash(path)
    ensures var entry := UnusedExportsOf(FilesToDict(includedFiles), compilation)[path];
            var modules := ModulesOf(compilation.chunks);
            var i := LastWriter(FilesToDict(includedFiles), modules, path);
            && 0 <= i < |modules| && HasResource(modules[i]) && ModulePath(modules[i]) == path
            && !entry.ProvidedAll?
            && (entry.ProvidedList? ==>
                  EffectiveProvidedExports(modules[i]).ProvidedList?
                  && forall x :: x in entry.names ==> x in EffectiveProvidedExports(modules[i]).names)
  {
    var includedFileMap := FilesToDict(includedFiles);
    var modules := ModulesOf(compilation.chunks);
    RecordIsLastWrite(includedFileMap, map[], modules, path);
    var i := LastWriter(includedFileMap, modules, path);
    WrittenEntry(includedFileMap, modules[i]);
  }
}
