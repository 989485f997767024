/** `MapArgs`: the descriptor the extraction loops hand to the `filter` and `map` callbacks.
    The filter's `FilterArgs` is not part of this model; it is taken to be the same record. */
module HookArgs {
  import opened Paths
  import RelPaths

  /** The entry's `RelPath`, the absolute path it would be written to, and the absolute
      output directory. */
  datatype MapArgs = MapArgs(relPath: RelPaths.RelPath, path: string, outputDir: string)

  /** What `new`'s two assertions guarantee of every descriptor. */
  predicate Valid(p: Platform, a: MapArgs) {
    IsAbsolute(p, a.path) && IsAbsolute(p, a.outputDir)
  }

  /** `MapArgs::new`: it panics unless both paths are absolute, so its callers must make
      sure they are; the accessors then give back exactly what was passed. */
  function New(p: Platform, relPath: RelPaths.RelPath, path: string, outputDir: string): (a: MapArgs)
    requires IsAbsolute(p, path)
    requires IsAbsolute(p, outputDir)
    ensures Valid(p, a)
    ensures RelPath(a) == relPath && Path(a) == path && OutputDir(a) == outputDir
  {
    MapArgs(relPath, path, outputDir)
  }

  /** `rel_path()`. */
  function RelPath(a: MapArgs): RelPaths.RelPath {
    a.relPath
  }

  /** `path()`. */
  function Path(a: MapArgs): string {
    a.path
  }

  /** `output_dir()`. */
  function OutputDir(a: MapArgs): string {
    a.outputDir
  }
}
