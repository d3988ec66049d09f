/**
 Concrete requests against a root `/srv` holding `style.css` and `index.html`.
 The MIME table stays a parameter: each scenario only assumes what the lookup
 returns for the paths it touches.
 */
module Scenarios {
  import opened Wrappers
  import opened FileSystem
  import opened PathGuard
  import opened Resolver
  import opened Handler

  /** The example tree: two readable files and the root directory itself. */
  function Site(): FileSystem
  {
    map["/srv/style.css" := Entry(true, false),
        "/srv/index.html" := Entry(true, false),
        "/srv/" := Entry(true, true)]
  }

  /** `/style.css` is streamed under the stylesheet's own type. */
  lemma StylesheetServed(lookup: MimeLookup, css: string)
    requires lookup("/srv/style.css") == Some(css) && css != ""
    ensures Handle("/srv", "/style.css", Site(), lookup) ==
      Sent(Response(Ok, map[ContentTypeHeader := css], FileStream("/srv/style.css")))
  {
    assert MatchFrom("/style.css", 0) == None;
    assert "/srv" + "/style.css" == "/srv/style.css";
  }

  /** `/../../etc/passwd` is refused with a bare 403, whatever is on disk. */
  lemma TraversalRefused(fs: FileSystem, lookup: MimeLookup)
    ensures Handle("/srv", "/../../etc/passwd", fs, lookup) == Sent(Response(Forbidden, map[], Empty))
  {
  }

  /** Two dots inside an ordinary file name are refused too: the guard is a
      literal substring test, not a check on path segments. */
  lemma DotsInFileNameRefused(lookup: MimeLookup)
    ensures Handle("/srv", "/app..min.js", Site(), lookup) == Sent(Response(Forbidden, map[], Empty))
  {
  }

  /** A missing file gets the index document under the index document's type. */
  lemma MissingFileFallsBack(lookup: MimeLookup, html: string)
    requires lookup("/srv/index.html") == Some(html) && html != ""
    ensures Handle("/srv", "/does-not-exist.js", Site(), lookup) ==
      Sent(Response(Ok, map[ContentTypeHeader := html], FileStream("/srv/index.html")))
  {
    assert MatchFrom("/does-not-exist.js", 0) == None;
    assert |"/srv" + "/does-not-exist.js"| == 22;
    assert "/srv" + "/index.html" == "/srv/index.html";
  }

  /** `/` names the root directory, which is never listed: the index document is sent. */
  lemma DirectoryFallsBack(lookup: MimeLookup, html: string)
    requires lookup("/srv/index.html") == Some(html) && html != ""
    ensures Handle("/srv", "/", Site(), lookup) ==
      Sent(Response(Ok, map[ContentTypeHeader := html], FileStream("/srv/index.html")))
  {
    assert MatchFrom("/", 0) == None;
    assert "/srv" + "/" == "/srv/";
    assert "/srv" + "/index.html" == "/srv/index.html";
  }

  /** A readable file whose extension has no MIME mapping is treated like a
      missing one, not sent as a generic type. */
  lemma UnknownTypeFallsBack(lookup: MimeLookup, html: string)
    requires lookup("/srv/style.css") == None
    requires lookup("/srv/index.html") == Some(html) && html != ""
    ensures Handle("/srv", "/style.css", Site(), lookup) ==
      Sent(Response(Ok, map[ContentTypeHeader := html], FileStream("/srv/index.html")))
  {
    assert MatchFrom("/style.css", 0) == None;
    assert "/srv" + "/style.css" == "/srv/style.css";
    assert "/srv" + "/index.html" == "/srv/index.html";
  }

  /** A query string is part of the candidate, so `/style.css?v=1` names no file. */
  lemma QueryStringFallsBack(lookup: MimeLookup, html: string)
    requires lookup("/srv/index.html") == Some(html) && html != ""
    ensures Handle("/srv", "/style.css?v=1", Site(), lookup) ==
      Sent(Response(Ok, map[ContentTypeHeader := html], FileStream("/srv/index.html")))
  {
    assert MatchFrom("/style.css?v=1", 0) == None;
    assert "/srv" + "/style.css?v=1" == "/srv/style.css?v=1";
    assert "/srv/style.css?v=1" !in Site();
    assert "/srv" + "/index.html" == "/srv/index.html";
  }

  /** With no type for the index document, a fallback sends nothing and fails. */
  lemma UntypedIndexFails(lookup: MimeLookup)
    requires !Truthy(lookup("/srv/index.html"))
    ensures Handle("/srv", "/does-not-exist.js", Site(), lookup) == Failed(IndexMissingMessage)
  {
    assert MatchFrom("/does-not-exist.js", 0) == None;
    assert |"/srv" + "/does-not-exist.js"| == 22;
    assert "/srv" + "/index.html" == "/srv/index.html";
  }
}
