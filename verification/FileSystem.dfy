/**
 The two collaborators the server consults about a path, as abstract parameters:
 the filesystem (what `fsp.access` and `fsp.lstat` report) and the `mime-types`
 lookup (an uninterpreted function from a path to a type or `false`).
 */
module FileSystem {
  import opened Wrappers

  /** What the server can learn about an existing path: whether
      `fsp.access(path, F_OK | R_OK)` resolves, and whether
      `fsp.lstat(path).isDirectory()` is true. */
  datatype Entry = Entry(accessible: bool, isDirectory: bool)

  /** A path that is not a key does not exist, so `access` rejects for it. */
  type FileSystem = map<string, Entry>

  /** `mime.lookup`: `None` stands for the `false` it returns for an unknown extension. */
  type MimeLookup = string -> Option<string>

  /** What probing `p` reports: `None` when the path does not exist. */
  function Probe(fs: FileSystem, p: string): Option<Entry>
  {
    if p in fs then Some(fs[p]) else None
  }

  /** `fsp.access(p, F_OK | R_OK)` resolves: the path exists and is readable. */
  predicate AccessOk(fs: FileSystem, p: string)
  {
    p in fs && fs[p].accessible
  }

  /** `access` resolves and `lstat` does not report a directory: the check that
      both the startup guard and the request handler apply before using a path. */
  predicate AccessibleNonDirectory(fs: FileSystem, p: string)
  {
    AccessOk(fs, p) && !fs[p].isDirectory
  }

  /** JavaScript truthiness of a lookup result: `false` and the empty string are
      both falsy, so `if (!mimeType)` takes the error branch for either. */
  predicate Truthy(t: Option<string>)
  {
    t.Some? && t.value != ""
  }
}
