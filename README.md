# webpack-deadcode-plugin: the detector, in Dafny

This project models `src/detect.js` of webpack-deadcode-plugin. That file
runs once webpack has finished a compilation. It does four things:

- It collects every file the compilation used.
- It expands the user's glob patterns into the set of files that should be used.
- It reports the included files the compilation never touched.
- It reports, per included module, the exports webpack's usage metadata marks
  as unused.

With `failOnHint` it stops the process with status 2.

Modules:

- `JsArray`, `JsString`: the JavaScript built-ins the detector relies on.
  These are `Array.prototype.filter` and `map` (with subsequence, multiset and
  concatenation lemmas) and `String.prototype.indexOf`.
- `Paths`: `convertToUnixPath` and the `node_modules` regular expression.
- `Webpack`: the compilation, module, chunk and asset data the detector reads,
  plus the plugin options. Sentinel-overloaded JavaScript values become tagged
  variants: `usedExports` is `true`, `false`, an array or anything else, and
  `providedExports` is `true`, an array or falsy.
- `FileSets`: `getWebpackAssets`, `convertFilesToDict`, `getPattern` and the
  unused-file filter.
- `ExportUsage`: `getUsedExportMap`.
- `Detect`: `detectDeadCode` and its exit decision, with small worked
  scenarios.

The parts of the source that loop and mutate become methods with loops:
`getWebpackAssets`, the `reduce` of `convertFilesToDict`, and the nested
`forEach`/`for…of` of `getUsedExportMap`. Each method is proved equal to a
pure function, and the properties are proved as lemmas about those functions.
`fg.sync` becomes the parameter `glob` and `path.resolve` the parameter
`resolve`.

Behaviour of the code that the model keeps:

- **Unused exports never cause exit status 2.** The report object does not
  decide the exit. The exit test at detect.js:29 reads `unusedExportMap.length`.
  That value is `0` for the initial array and `undefined` for the plain object
  `getUsedExportMap` returns (the object has no `length` key; see
  "Left out"), so it is never `> 0`. The process exits with status 2 exactly
  when `failOnHint` is set, some file is unused, and logging the export
  report did not throw first (next point). A
  description of the plugin that has exports also trigger the exit does not
  match the code, and the model follows the code
  (`Detect.ExitsWithCodeTwo`, `Detect.UnusedExportsDoNotExit`).
- **A report entry need not name at least one export.** With
  `usedExports === false` the entry is the module's effective
  `providedExports` as is. That value may be an empty array, or falsy when
  both `providedExports` and `buildMeta.providedExports` are falsy. A
  statement that every entry lists at least one symbol holds only for the
  used-list branch, which the model proves in `ExportUsage.WrittenEntry`.
  A falsy entry also makes `logUnusedExportMap` throw a TypeError at
  `unusedExports.join(", ")` (detect.js:82). The throw happens at line 26,
  before the exit test, so `detectDeadCode` then never calls
  `process.exit(2)` (`Detect.LoggingThrows`, `Detect.DetectDeadCode`,
  `Detect.LoggingThrowsIff`).
- **Two different `node_modules` checks.** `convertFilesToDict` tests the raw
  path with `indexOf`. `getUsedExportMap` tests the normalised path with
  `/^((?!(node_modules)).)*$/`. That expression also rejects any path
  holding a line terminator, because `.` does not match one. The model keeps
  both checks exactly as written.
- **Raw paths against normalised keys.** The unused-file filter looks up
  raw glob paths among normalised keys. An included path that still holds a
  backslash is therefore always reported unused.

## Model

| member | source | states |
|---|---|---|
| JsString.IndexOf | src/detect.js:104 | the result is -1 exactly when the pattern does not occur; otherwise the pattern occurs there and at no earlier index |
| Paths.ToUnixPath | src/detect.js:165-167 | the normalised path has no backslash and is no longer than the input |
| Paths.ToUnixPathIdentity | src/detect.js:165-167 | a path without backslashes is returned unchanged |
| Paths.ToUnixPathIdempotent | src/detect.js:165-167 | normalising twice gives the same as normalising once |
| Paths.ToUnixPathRun | src/detect.js:166 | a maximal run of n >= 1 backslashes becomes exactly one `/` in front of the normalised rest |
| Paths.ToUnixPathConcat | src/detect.js:166 | normalisation distributes over concatenation when the cut does not split a backslash run |
| Paths.OutsideNodeModulesIff | src/detect.js:53 | the regular expression accepts a path exactly when `node_modules` does not occur in it and it has no line terminator |
| FileSets.WebpackAssets | src/detect.js:91-100 | the list is the file dependencies in order, then each asset's `existsAt` in key order |
| FileSets.GetWebpackAssets | src/detect.js:91-100 | the loop that pushes each asset path returns exactly `WebpackAssets` |
| FileSets.MarkFiles | src/detect.js:105-110 | the reduce holds a key exactly when it is the normalised form of some listed file, always with value `true` |
| FileSets.FilesToDict | src/detect.js:102-111 | a key is present (and truthy) exactly when it is the normalised form of an input path whose raw form has no `node_modules` |
| FileSets.ConvertFilesToDict | src/detect.js:102-111 | the filter-then-reduce returns exactly `FilesToDict` |
| FileSets.DictKeysHaveNoBackslash | src/detect.js:106-108 | no key of the dictionary holds a backslash |
| FileSets.GetPattern | src/detect.js:36-38 | include patterns resolved against `context` come first, in order, then each exclude pattern prefixed with `!`, in order |
| FileSets.NegatedPatternsAreExcludes | src/detect.js:37 | when no resolved include starts with `!`, the patterns read as exclusions, with the `!` removed, are exactly the exclude list |
| FileSets.NegateInverse | src/detect.js:37 | every prefixed exclude is negated, and removing the `!` gives the exclude list back |
| FileSets.UnusedFiles | src/detect.js:17 | the unused files are a subsequence of the included files; a file is in it exactly when included and not a truthy key of the compiled map; multiplicities are kept; with an empty map the result is all the included files |
| FileSets.UnusedFilesIdempotent | src/detect.js:17 | filtering the unused files again changes nothing |
| FileSets.UnusedAgainstCompiled | src/detect.js:9-17 | an included file is unused exactly when no compiled path outside `node_modules` normalises to it; an included path with a backslash is always unused |
| ExportUsage.UnusedNames | src/detect.js:59-61 | the unused names are a subsequence of the provided names; a name is in it exactly when provided and missing from a used list, as often as it is provided; the result is empty when `usedExports` is not an array |
| ExportUsage.AssignModule | src/detect.js:45-66 | one inner-loop iteration updates the map exactly as `Visit` prescribes for that module |
| ExportUsage.GetUsedExportMap | src/detect.js:40-71 | the nested loops over chunks and modules return exactly `UnusedExportsOf`, the left-to-right fold of the modules in chunk order |
| ExportUsage.SkippedModules | src/detect.js:45-55 | no write happens without a truthy resource, with `usedExports === true`, with effective `providedExports === true`, under `node_modules`, for a path not in the included map, for a non-boolean non-array `usedExports`, or with used names but non-array provided exports |
| ExportUsage.WrittenEntry | src/detect.js:50-66 | a write passes the guard, goes to the module's normalised path and is never `true`; with `usedExports === false` it is the effective `providedExports`; otherwise it is a non-empty ordered subsequence of the provided names holding exactly those not used, each as often as it is provided |
| ExportUsage.EligibleModuleWrites | src/detect.js:56-65 | a module past the guard with `usedExports === false` always writes its effective `providedExports`; with used and provided lists it writes exactly when some provided name is not used |
| ExportUsage.LastWriter | src/detect.js:43-69 | the index is -1 or a module that writes the path, and no later module writes it |
| ExportUsage.RecordIsLastWrite | src/detect.js:43-69 | a key is present exactly when some module writes it, and its value is what the last such module wrote |
| ExportUsage.RecordConcat | src/detect.js:43-69 | visiting two module lists in turn is visiting their concatenation |
| ExportUsage.LaterModulesKeepEntry | src/detect.js:43-69 | later modules that do not write a path leave its earlier entry in place |
| ExportUsage.UnusedExportEntries | src/detect.js:25 | every key is the normalised form of an included file outside `node_modules` and holds no backslash; its last writer's path is that key; the entry is never `true`, and a list entry names only exports that writer provides |
| Detect.ExitsWithCodeTwo | src/detect.js:29-33 | the process exits with status 2 exactly when `failOnHint` is set and some file is unused |
| Detect.DetectDeadCode | src/detect.js:8-34 | the unused files are `UnusedFiles` of the globbed files against the compiled dictionary when `detectUnusedFiles`, else empty; the report is the export map when `detectUnusedExport`, else the empty array; logging throws exactly when `detectUnusedExport` and some report entry is falsy; exit status 2 exactly when there was no throw, `failOnHint`, `detectUnusedFiles` and some file is unused |
| Detect.LoggingThrowsIff | src/detect.js:82 | logging the report throws exactly when some recorded path was last assigned by a module with `usedExports === false` whose `providedExports` and `buildMeta.providedExports` are both falsy |
| Detect.FalsyEntryScenario | src/detect.js:47-57 | such a module records the falsy value under its path, and logging the report then throws |
| Detect.UnusedFileScenario | src/detect.js:17 | with files `a`, `b` included and only `a` compiled, `b` alone is unused and `failOnHint` exits with status 2 |
| Detect.NoneUsedScenario | src/detect.js:56-57 | a module with `usedExports === false` providing `a`, `b` records `["a", "b"]` under its path |
| Detect.PartialUseScenario | src/detect.js:58-64 | a module providing `a`, `b`, `c` with `a`, `c` used records `["b"]` |
| Detect.NodeModulesScenario | src/detect.js:53 | a module under `node_modules` is not recorded even when its path is in the included map |
| Detect.UnusedExportsDoNotExit | src/detect.js:29 | a non-empty export report with no unused file does not exit with status 2 |

## Left out

- `fg.sync` (detect.js:11) is the `glob` parameter. fast-glob's matching, ordering and de-duplication are not modelled.
- `path.resolve` (detect.js:37) is the `resolve` parameter.
- The console output of `logUnusedExportMap` and `logUnusedFiles` (detect.js:73-89, 151-163) is left out, including the export count at lines 76-83. The one effect of the logging that is modelled is the TypeError at line 82 on a falsy entry (`Detect.LoggingThrows`).
- `handleUnusedFiles` (detect.js:113-149) is left out: the interactive prompts, the deletion of only `unusedFiles.slice(0, 2)`, the JSON output file and the final `process.exit()`. It depends on user input and the file system.
- `src/utils.js` (`deleteFiles`, `writeFile`) is file-system I/O and is not part of this model.
- The `setTimeout` at detect.js:18-21 and the actual `process.exit(2)` are left out. `DetectDeadCode` returns the exit decision as a boolean.
- Detect.DetectDeadCode: does not model the `TypeError` thrown when an asset has no `existsAt` or a module with falsy `providedExports` has no `buildMeta`. Every asset is given an `existsAt` string, and `buildMeta.providedExports` is always a value.
- Keys inherited from `Object.prototype` (`__proto__`, `constructor`, and so on), which make `compiledFiles[file]` and `includedFileMap[path]` behave in special ways, are not modelled. Plain objects are finite maps. That includes a report key spelled `length`: with it, `unusedExportMap.length` at detect.js:29 would be that entry rather than `undefined`, and `["1"] > 0` is true. Absolute resource paths never produce that key, but the `glob` and `resolve` parameters are unconstrained.
- JavaScript object key order is taken to be insertion order. JavaScript in fact lists integer-like keys first, in numeric order. `compilation.assets` is given as a sequence in `Object.keys` order.
- `usedExports` values that are truthy non-arrays (for example a `Set`) are all `UsedOther`. The source treats them like `null` or `undefined`: they are neither `true`, `false` nor an `Array`.
- Strings are sequences of Dafny characters (Unicode scalar values), not UTF-16 code units. Lone surrogates are not modelled.
