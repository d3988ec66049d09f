/**
 What the `'stream'` handler sends for a request: the status, the headers and
 which file is piped as the body, or the error the handler throws instead.
 */
module Handler {
  import opened Wrappers
  import opened FileSystem
  import opened PathGuard
  import opened Resolver

  const Forbidden: int := 403
  const Ok: int := 200
  const ContentTypeHeader: string := "Content-Type"
  /** The message of the error thrown when the index document has no MIME type. */
  const IndexMissingMessage: string := "index.html does not exist."

  /** The body: nothing (`stream.end()`), or the bytes of a file piped from
      `fs.createReadStream(path)`. The bytes themselves are not modelled. */
  datatype Body = Empty | FileStream(path: string)

  /** `stream.respond(...)` followed by the body. `headers` are the ones the
      handler passes to `stream.respond`; headers the http2 library adds on its
      own, such as `date`, are not modelled. The `:status` pseudo-header is kept
      apart from the ordinary headers. */
  datatype Response = Response(status: int, headers: map<string, string>, body: Body)

  /** Either a response is sent, or the asynchronous handler rejects with an
      error and sends nothing. */
  datatype Reply = Sent(response: Response) | Failed(message: string)

  /** The response written for a decided outcome. */
  function Respond(o: Outcome): (r: Reply)
    ensures r.Failed? <==> o.FallbackError?
    ensures r.Sent? && r.response.status == Forbidden <==> o.Reject?
    ensures r.Sent? && r.response.status == Forbidden ==> r.response.headers == map[] && r.response.body == Empty
    ensures r.Sent? && r.response.status == Ok <==> o.ServeFile? || o.ServeFallback?
    ensures r.Sent? && r.response.status == Ok ==>
      r.response.body == FileStream(o.path) && r.response.headers == map[ContentTypeHeader := o.mimeType]
  {
    match o
    case Reject => Sent(Response(Forbidden, map[], Empty))
    case ServeFile(p, m) => Sent(Response(Ok, map[ContentTypeHeader := m], FileStream(p)))
    case ServeFallback(p, m) => Sent(Response(Ok, map[ContentTypeHeader := m], FileStream(p)))
    case FallbackError => Failed(IndexMissingMessage)
  }

  /** Handling one request. Only 403 and 200 are ever sent. The handler passes
      no header with a 403 and sends no body; with a 200 it passes exactly a
      `Content-Type`, which is the non-empty MIME type of the file it streams. */
  function Handle(dir: string, path: string, fs: FileSystem, lookup: MimeLookup): (r: Reply)
    ensures r.Sent? ==> r.response.status == Forbidden || r.response.status == Ok
    ensures r.Sent? && r.response.status == Forbidden ==>
      r.response.headers == map[] && r.response.body == Empty
    ensures r.Sent? && r.response.status == Ok ==>
      && r.response.headers.Keys == {ContentTypeHeader}
      && r.response.body.FileStream?
      && lookup(r.response.body.path) == Some(r.response.headers[ContentTypeHeader])
      && r.response.headers[ContentTypeHeader] != ""
    ensures r.Sent? && r.response.status == Ok ==>
      r.response.body.path == CandidatePath(dir, path) || r.response.body.path == IndexFilePath(dir)
  {
    Respond(Resolve(dir, path, fs, lookup))
  }

  /** A 403 is sent exactly for paths containing `..`. */
  lemma ForbiddenIff(dir: string, path: string, fs: FileSystem, lookup: MimeLookup)
    ensures Handle(dir, path, fs, lookup) == Sent(Response(Forbidden, map[], Empty)) <==>
      ContainsSubstring(path, "..")
  {
    RejectIff(dir, path, fs, lookup);
  }

  /** No response at all is sent exactly when the request has to fall back and
      the index document has no MIME type; the reply then carries the thrown message. */
  lemma FailedIff(dir: string, path: string, fs: FileSystem, lookup: MimeLookup)
    ensures Handle(dir, path, fs, lookup).Failed? <==>
      && !ContainsSubstring(path, "..")
      && !Servable(fs, lookup, CandidatePath(dir, path))
      && !Truthy(lookup(IndexFilePath(dir)))
    ensures Handle(dir, path, fs, lookup).Failed? ==>
      Handle(dir, path, fs, lookup).message == IndexMissingMessage
  {
    FallbackErrorIff(dir, path, fs, lookup);
  }

  /** A servable candidate is streamed under its own type; any other request
      without `..` is answered with the index document, when that has a type. */
  lemma OkBodyChoice(dir: string, path: string, fs: FileSystem, lookup: MimeLookup)
    requires !ContainsSubstring(path, "..")
    ensures Servable(fs, lookup, CandidatePath(dir, path)) ==>
      Handle(dir, path, fs, lookup) ==
        Sent(Response(Ok, map[ContentTypeHeader := lookup(CandidatePath(dir, path)).value],
                      FileStream(CandidatePath(dir, path))))
    ensures !Servable(fs, lookup, CandidatePath(dir, path)) && Truthy(lookup(IndexFilePath(dir))) ==>
      Handle(dir, path, fs, lookup) ==
        Sent(Response(Ok, map[ContentTypeHeader := lookup(IndexFilePath(dir)).value],
                      FileStream(IndexFilePath(dir))))
  {
  }
}
