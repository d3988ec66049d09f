# servant: request resolution and startup guard

`servant` is a small HTTPS/HTTP2 static file server for single-page
applications. It serves a file from a root directory when the request names a
path that `access` accepts, that `lstat` does not report as a directory, and
that has a known MIME type. Any other request gets the
directory's `index.html` (the "history fallback"). Any path containing `..` is
refused with 403. At startup the server refuses to listen unless the
directory, certificate and key arguments are all given and `index.html` passes
the same `access` and `lstat` checks.

This project models those two decisions as pure functions. Each function takes
two abstract collaborators as parameters:

- **the filesystem**: a map from path strings to an `Entry`. The entry records
  whether `fsp.access(path, F_OK | R_OK)` resolves and whether
  `fsp.lstat(path).isDirectory()` is true. A path that is not a key does not
  exist.
- **the MIME lookup**: an uninterpreted `string -> Option<string>` standing
  for `mime.lookup`. `None` is its `false`. The source tests the result with
  `!mimeType`, so an empty string counts as "no type" too (`Truthy`).

Modules:

- `Wrappers`: `Option` and `Result`.
- `FileSystem`: `Entry`, the probes, `AccessibleNonDirectory` and `Truthy`.
- `PathGuard`: the `path.match(/\.\./)` search (`MatchFrom`, `MatchDotDot`).
  It returns the leftmost match index. It is proved equal to a reference
  "contains the substring `..`" predicate.
- `Resolver`: the tagged `Outcome`, `Resolve`, and one if-and-only-if lemma
  per outcome, plus a locality lemma.
- `Handler`: the response sent for an outcome (status, headers, which file is
  piped), or the error thrown instead.
- `Startup`: destructuring of `process.argv` and the index-file guard.
- `Server`: the per-request loop and `main` end to end.
- `Scenarios`: concrete requests against a small example tree.

Two points about `main.js` shape the model:

- `main.js` has no compression, so none is modelled.
- The throw at main.js:62 happens inside the async `handle`, which is not
  awaited (main.js:70). Its promise rejects and nothing handles the rejection.
  The model records this as `Failed("index.html does not exist.")` with no
  response sent. What the runtime then does with the rejection is outside the
  model.

## Model

| member | source | states |
|---|---|---|
| PathGuard.MatchFrom | main.js:37 | the regular-expression search returns the leftmost index at or after the start where two consecutive dots begin, or `None` (the `null` match) when no such index exists |
| PathGuard.MatchDotDotIff | main.js:37 | the traversal guard fires if and only if the request path contains the literal substring `..` anywhere |
| PathGuard.MatchDotDot | main.js:37 | the guard's match is the leftmost occurrence of `..` in the whole path, and `None` (the `null` match) means `..` occurs nowhere |
| Resolver.Fallback | main.js:59-66 | the `catch` branch either serves `dir + "/index.html"` under that path's non-empty MIME type or fails, and it fails exactly when that type is falsy |
| Resolver.Resolve | main.js:37-67 | a rejected path contains `..`; a served file is `dir + path`, passes `access`, is no directory per `lstat` and has the non-empty type sent; a fallback or a fallback error happens only when the candidate is not servable, and a fallback names `dir + "/index.html"` under its own type |
| Resolver.RejectIff | main.js:37-41 | the outcome is `Reject` exactly when the path contains `..` |
| Resolver.RejectIgnoresCollaborators | main.js:37-46 | for a path with `..` any two filesystems and MIME tables give the same outcome, so neither is consulted |
| Resolver.ServeFileIff | main.js:45-55 | the outcome is `ServeFile(p, m)` exactly when the path has no `..`, `p` is `dir + path` verbatim, `p` passes `access` and is no directory per `lstat`, and `lookup(p)` is the non-empty `m` |
| Resolver.ServeFallbackIff | main.js:46-64 | the outcome is `ServeFallback(p, m)` exactly when the path has no `..`, the candidate is not servable (missing, unreadable, a directory, or without a MIME type), `p` is `dir + "/index.html"` and `lookup(p)` is the non-empty `m` |
| Resolver.FallbackErrorIff | main.js:59-63 | the outcome is the fallback error exactly when the path has no `..`, the candidate is not servable, and the index document has no truthy MIME type |
| Resolver.ResolveLocality | main.js:35-67 | the outcome depends only on the candidate's filesystem entry and on the MIME types of the candidate and the index path; the index file's entry is not re-checked per request |
| Handler.Respond | main.js:38-66 | the reply fails exactly for the fallback error; a 403 is sent exactly for a rejection, with no header passed to `stream.respond` and no body; a 200 is sent exactly for a served file or fallback, and it streams that outcome's path with exactly its MIME type passed as `Content-Type` |
| Handler.Handle | main.js:35-67 | only 403 or 200 is sent; with a 403 the handler passes `stream.respond` no header and sends no body; with a 200 it passes exactly a `Content-Type`, non-empty and equal to the lookup of the very file streamed, and that file is `dir + path` or `dir + "/index.html"` |
| Handler.ForbiddenIff | main.js:37-40 | the bare 403 with empty body is the reply exactly for paths containing `..` |
| Handler.FailedIff | main.js:59-63 | no response is sent exactly when the request must fall back and the index document has no MIME type; the failure carries the message `index.html does not exist.` |
| Handler.OkBodyChoice | main.js:51-66 | for a path without `..`, a servable candidate is streamed under its own type; otherwise the index document is streamed under its own type when it has one |
| Startup.Start | main.js:11-27 | the guard passes exactly when at least five argv entries exist (directory, certificate and key present) and `dir + "/index.html"` is readable and not a directory; otherwise it gives the missing-arguments error or the cannot-access error naming that path; on success the configuration holds those arguments, and the port is 8443 exactly when `argv[5]` (the fourth argument after the script name) is absent, else that raw argument |
| Server.ServedPathIsAccessible | main.js:17-66 | once startup has passed on a filesystem, every 200 sent against that same filesystem names a path `access` accepts and `lstat` does not report as a directory |
| Server.StaleIndex | main.js:17-27 | the index document is checked only at startup: once it is removed, a request that falls back still gets a 200 naming it, though `access` now rejects it |
| Server.HandleRequests | main.js:35-71 | answering a sequence of requests gives each one the reply `Handle` gives its path alone, and equal paths get equal replies; this holds by construction, since `Handle` takes no state |
| Server.Run | main.js:10-80 | nothing is answered unless the startup guard passes; after it passes, each request is handled against the configured directory and each 200 names a path `access` accepts and `lstat` does not report as a directory |
| Scenarios.StylesheetServed | main.js:45-58 | `/style.css` under root `/srv` streams `/srv/style.css` with the stylesheet's own MIME type |
| Scenarios.TraversalRefused | main.js:37-40 | `/../../etc/passwd` gets a bare 403 on any filesystem |
| Scenarios.DotsInFileNameRefused | main.js:37-40 | a file name with two dots inside, `/app..min.js`, is refused as well |
| Scenarios.MissingFileFallsBack | main.js:46-66 | a missing file gets `/srv/index.html` under the index document's type |
| Scenarios.DirectoryFallsBack | main.js:47-66 | `/`, the root directory, gets the index document rather than a listing |
| Scenarios.UnknownTypeFallsBack | main.js:51-66 | a readable file with no MIME mapping gets the index document, not a generic type |
| Scenarios.QueryStringFallsBack | main.js:45-66 | a query string stays part of the candidate path, so `/style.css?v=1` names no file and falls back |
| Scenarios.UntypedIndexFails | main.js:59-63 | when the index document has no type, a fallback request fails with the thrown message |

## Left out

- Reading the certificate and key files and `http2.createSecureServer` (main.js:30-33) are I/O. `Startup.Start` stops at the guard, and a failed read is not modelled.
- The body bytes are not modelled. `fs.createReadStream(...).pipe(stream)` (main.js:57-58, 65-66) is reduced to the name of the file piped. Backpressure and stream errors are not modelled either.
- The contents of the `mime-types` extension table are a foreign library. The lookup stays an uninterpreted parameter.
- The `'error'` handler, which calls `server.listen(port)` again on `ECONNRESET`, and all `console.error` logging (main.js:72-78) are transport behaviour.
- How `server.listen` reads a port string (a number or a pipe name) is left to the transport. `Startup.Port` keeps the raw argument.
- Interleaving of concurrent requests and the unawaited `handle(stream)` promise (main.js:70) are not modelled. Requests are handled one after another against a fixed filesystem. The independence result rests on that.
- An `lstat` that fails after `access` succeeded is not modelled. Only a change to the path between the two calls (the file or a parent directory removed, renamed or made unsearchable) or an I/O error can cause that, and the source sends such a request to the fallback like any other failure.
- A stream without a `:path` header is not modelled. Only a `CONNECT` request lacks one, and there `path.match` would throw.
- Gzip compression does not exist in `main.js`, so no compressed variant is modelled.
- `Entry` records what `lstat` sees, and `lstat` does not follow symbolic links. So a symbolic link to a directory counts as servable, and so do a FIFO, a socket and a device node. For such a path with a known extension, a 200 is sent first. `createReadStream` then fails for a directory or a socket, blocks on a FIFO that has no writer, and streams whatever a device node yields.
- Headers that the http2 library adds to a response by itself, such as `date`, are not modelled. `Response.headers` holds only what the handler passes to `stream.respond` (main.js:38, 55, 64).
- Server.Run: `guardPassed` means that the guard at main.js:11-27 passed, not that the server listens. A failed `readFile` of the certificate or key (main.js:31-32) rejects `main()` before `listen` at main.js:80, and that is not modelled.
- Server.Run and Server.HandleRequests keep answering after a `Failed` reply. In the source, the rejection thrown at main.js:62 is never handled. Under Node's default since version 15, an unhandled rejection ends the process, so later requests get no reply. Which runtime mode applies is not modelled.
- Server.ServedPathIsAccessible assumes the filesystem has not changed since startup. Server.StaleIndex shows what happens when the index document is removed later.
- Server.Run and Handler.Handle assume the stream is still open when `stream.respond` is called (main.js:55, 64). If the client resets the stream or closes the connection while `access` or `lstat` is pending, the call at main.js:55 throws into the `catch`. The call at main.js:64 then throws again, which rejects `handle` like main.js:62: nothing is sent, and under Node's default since version 15 the process then ends, so later requests get no reply.
