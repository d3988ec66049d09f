/**
 The resolution policy of the `'stream'` handler: which file, if any, a request
 path is answered with, decided from the root directory, the path, the
 filesystem and the MIME lookup alone.
 */
module Resolver {
  import opened Wrappers
  import opened FileSystem
  import opened PathGuard

  /** The decision taken for one request. */
  datatype Outcome =
    | Reject                                        // 403, no body
    | ServeFile(path: string, mimeType: string)     // 200, the requested file
    | ServeFallback(path: string, mimeType: string) // 200, the index document
    | FallbackError                                 // the index document has no MIME type: the handler throws

  /** The fallback document, `${dir}/index.html`. */
  function IndexFilePath(dir: string): string
  {
    dir + "/index.html"
  }

  /** The candidate, `${dir}${path}`: plain concatenation, nothing decoded or normalised. */
  function CandidatePath(dir: string, path: string): string
  {
    dir + path
  }

  /** The candidate can be answered directly: `access` resolves, `lstat` does
      not see a directory, and the lookup yields a truthy type. */
  predicate Servable(fs: FileSystem, lookup: MimeLookup, p: string)
  {
    AccessibleNonDirectory(fs, p) && Truthy(lookup(p))
  }

  /** The `catch` branch: serve the index document under its own MIME type, or
      throw when it has none. The index file is not probed again here. */
  function Fallback(dir: string, lookup: MimeLookup): (o: Outcome)
    ensures o.ServeFallback? || o.FallbackError?
    ensures o.FallbackError? <==> !Truthy(lookup(IndexFilePath(dir)))
    ensures o.ServeFallback? ==>
      o.path == IndexFilePath(dir) && lookup(o.path) == Some(o.mimeType) && o.mimeType != ""
  {
    var index := IndexFilePath(dir);
    var t := lookup(index);
    if Truthy(t) then ServeFallback(index, t.value) else FallbackError
  }

  /** The whole handler decision, with the checks in the order the source makes them. */
  function Resolve(dir: string, path: string, fs: FileSystem, lookup: MimeLookup): (o: Outcome)
    ensures o.Reject? ==> ContainsSubstring(path, "..")
    ensures o.ServeFile? ==>
      && o.path == CandidatePath(dir, path)
      && AccessibleNonDirectory(fs, o.path)
      && lookup(o.path) == Some(o.mimeType) && o.mimeType != ""
    ensures o.ServeFallback? ==>
      && !Servable(fs, lookup, CandidatePath(dir, path))
      && o.path == IndexFilePath(dir)
      && lookup(o.path) == Some(o.mimeType) && o.mimeType != ""
    ensures o.FallbackError? ==>
      !Servable(fs, lookup, CandidatePath(dir, path)) && !Truthy(lookup(IndexFilePath(dir)))
  {
    MatchDotDotIff(path);
    if MatchDotDot(path).Some? then Reject
    else
      var fullPath := CandidatePath(dir, path);
      if !AccessOk(fs, fullPath) then Fallback(dir, lookup)
      else if fs[fullPath].isDirectory then Fallback(dir, lookup)
      else
        var t := lookup(fullPath);
        if !Truthy(t) then Fallback(dir, lookup)
        else ServeFile(fullPath, t.value)
  }

  /** A request is rejected exactly when its path contains `..`. */
  lemma RejectIff(dir: string, path: string, fs: FileSystem, lookup: MimeLookup)
    ensures Resolve(dir, path, fs, lookup) == Reject <==> ContainsSubstring(path, "..")
  {
    MatchDotDotIff(path);
  }

  /** For a path containing `..` neither the filesystem nor the MIME table is
      consulted: any two of them give the same outcome. */
  lemma RejectIgnoresCollaborators(dir: string, path: string,
                                   fs1: FileSystem, lookup1: MimeLookup,
                                   fs2: FileSystem, lookup2: MimeLookup)
    requires ContainsSubstring(path, "..")
    ensures Resolve(dir, path, fs1, lookup1) == Resolve(dir, path, fs2, lookup2)
  {
    MatchDotDotIff(path);
  }

  /** The requested file itself is served, under type `m`, exactly when the
      path has no `..`, the served path is `dir + path`, `access` accepts it,
      `lstat` does not report it as a directory, and its lookup gives the
      non-empty type `m`. */
  lemma ServeFileIff(dir: string, path: string, fs: FileSystem, lookup: MimeLookup, p: string, m: string)
    ensures Resolve(dir, path, fs, lookup) == ServeFile(p, m) <==>
      && !ContainsSubstring(path, "..")
      && p == CandidatePath(dir, path)
      && AccessibleNonDirectory(fs, p)
      && lookup(p) == Some(m) && m != ""
  {
    MatchDotDotIff(path);
  }

  /** Every other request without `..` gets the index document, under the
      index document's own type, provided that type is known. This covers a
      readable file whose extension has no MIME mapping. */
  lemma ServeFallbackIff(dir: string, path: string, fs: FileSystem, lookup: MimeLookup, p: string, m: string)
    ensures Resolve(dir, path, fs, lookup) == ServeFallback(p, m) <==>
      && !ContainsSubstring(path, "..")
      && !Servable(fs, lookup, CandidatePath(dir, path))
      && p == IndexFilePath(dir)
      && lookup(p) == Some(m) && m != ""
  {
    MatchDotDotIff(path);
  }

  /** The handler fails, sending nothing, exactly when it has to fall back and
      the index document has no MIME type. */
  lemma FallbackErrorIff(dir: string, path: string, fs: FileSystem, lookup: MimeLookup)
    ensures Resolve(dir, path, fs, lookup) == FallbackError <==>
      && !ContainsSubstring(path, "..")
      && !Servable(fs, lookup, CandidatePath(dir, path))
      && !Truthy(lookup(IndexFilePath(dir)))
  {
    MatchDotDotIff(path);
  }

  /** The decision reads nothing but the probe of the candidate and the MIME
      types of the candidate and of the index document: two environments that
      agree there give the same outcome. In particular the index file's
      filesystem entry is never consulted per request. */
  lemma ResolveLocality(dir: string, path: string,
                        fs1: FileSystem, lookup1: MimeLookup,
                        fs2: FileSystem, lookup2: MimeLookup)
    requires Probe(fs1, CandidatePath(dir, path)) == Probe(fs2, CandidatePath(dir, path))
    requires lookup1(CandidatePath(dir, path)) == lookup2(CandidatePath(dir, path))
    requires lookup1(IndexFilePath(dir)) == lookup2(IndexFilePath(dir))
    ensures Resolve(dir, path, fs1, lookup1) == Resolve(dir, path, fs2, lookup2)
  {
  }
}
