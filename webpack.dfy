/**
 * What the detector reads from one webpack compilation, and the plugin's
 * options. JavaScript's sentinel-overloaded fields become tagged variants.
 */
module Webpack {

  datatype Option<T> = None | Some(value: T)

  /**
   * `module.usedExports`: `true` (every export is used), `false` (none is),
   * an array of used names, or any other value (`null`, `undefined`, a
   * non-array object), which is neither `true`, `false` nor an array.
   */
  datatype UsedExports = UsedAll | UsedNone | UsedList(names: seq<string>) | UsedOther

  /**
   * `providedExports`: `true` (exports not known statically), an array of
   * exported names (possibly empty, which is still truthy), or a falsy
   * value (`null`, `undefined`, `false`).
   */
  datatype ProvidedExports = ProvidedAll | ProvidedList(names: seq<string>) | ProvidedFalsy

  /**
   * A module of the module graph. `resource` is its file on disk (`None`
   * for `undefined`); `buildMetaProvidedExports` is
   * `module.buildMeta.providedExports`.
   */
  datatype Module = Module(
    resource: Option<string>,
    usedExports: UsedExports,
    providedExports: ProvidedExports,
    buildMetaProvidedExports: ProvidedExports)

  /** A chunk, with the modules of `chunk.modulesIterable` in iteration order. */
  datatype Chunk = Chunk(modules: seq<Module>)

  /** An emitted asset: its key in `compilation.assets` and its `existsAt` disk path. */
  datatype Asset = Asset(name: string, existsAt: string)

  /**
   * A compilation: `fileDependencies` in iteration order, `assets` in the
   * order of `Object.keys(compilation.assets)`, and `chunks`.
   */
  datatype Compilation = Compilation(fileDependencies: seq<string>, assets: seq<Asset>, chunks: seq<Chunk>)

  /** The plugin options that `detectDeadCode` reads. */
  datatype Options = Options(
    context: string,
    patterns: seq<string>,
    exclude: seq<string>,
    detectUnusedFiles: bool,
    detectUnusedExport: bool,
    failOnHint: bool,
    outputFile: string)
}
