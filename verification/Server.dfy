/**
 The running server: the guard decides whether anything listens, and each
 incoming stream is then handled on its own, with no state carried from one
 request to the next.
 */
module Server {
  import opened Wrappers
  import opened FileSystem
  import opened PathGuard
  import opened Resolver
  import opened Handler
  import opened Startup

  /** Every file a 200 streams is one `access` accepts and `lstat` does not
      report as a directory, as long as the filesystem is the one the startup
      guard saw: the candidate is checked per request, the index document only
      once at startup. */
  lemma ServedPathIsAccessible(argv: seq<string>, fs: FileSystem, lookup: MimeLookup, path: string)
    requires Start(argv, fs).Success?
    ensures var r := Handle(Start(argv, fs).value.dir, path, fs, lookup);
      r.Sent? && r.response.status == Ok ==> AccessibleNonDirectory(fs, r.response.body.path)
  {
  }

  /** The index document is checked only at startup: if it is removed
      afterwards, a request that falls back still gets a 200 naming it, a file
      that can no longer be read. */
  lemma StaleIndex(argv: seq<string>, fs: FileSystem, lookup: MimeLookup, path: string)
    requires Start(argv, fs).Success?
    requires !ContainsSubstring(path, "..")
    requires Truthy(lookup(IndexFilePath(argv[2])))
    ensures var index := IndexFilePath(argv[2]);
      var later := fs - {index};
      var r := Handle(argv[2], path, later, lookup);
      !Servable(later, lookup, CandidatePath(argv[2], path)) ==>
        && !AccessOk(later, index)
        && r == Sent(Response(Ok, map[ContentTypeHeader := lookup(index).value], FileStream(index)))
  {
  }

  /** Answers a sequence of requests in arrival order. Each reply is what the
      handler gives for that request alone, so the same path always gets the
      same reply. */
  method HandleRequests(dir: string, fs: FileSystem, lookup: MimeLookup, paths: seq<string>)
    returns (replies: seq<Reply>)
    ensures |replies| == |paths|
    ensures forall i :: 0 <= i < |paths| ==> replies[i] == Handle(dir, paths[i], fs, lookup)
    ensures forall i, j :: 0 <= i < |paths| && 0 <= j < |paths| && paths[i] == paths[j] ==>
      replies[i] == replies[j]
  {
    replies := [];
    var k := 0;
    while k < |paths|
      invariant k <= |paths|
      invariant |replies| == k
      invariant forall i :: 0 <= i < k ==> replies[i] == Handle(dir, paths[i], fs, lookup)
    {
      replies := replies + [Handle(dir, paths[k], fs, lookup)];
      k := k + 1;
    }
  }

  /** `main` end to end: nothing is answered unless the guard passes; once it
      has, every request is handled against the configured directory, and
      every 200 names a path that `access` accepts and `lstat` does not report
      as a directory. */
  method Run(argv: seq<string>, fs: FileSystem, lookup: MimeLookup, paths: seq<string>)
    returns (guardPassed: bool, replies: seq<Reply>)
    ensures guardPassed <==> |argv| >= 5 && AccessibleNonDirectory(fs, IndexFilePath(argv[2]))
    ensures !guardPassed ==> replies == []
    ensures guardPassed ==> |replies| == |paths|
    ensures guardPassed ==> forall i :: 0 <= i < |paths| ==> replies[i] == Handle(argv[2], paths[i], fs, lookup)
    ensures guardPassed ==> forall i :: 0 <= i < |paths| && replies[i].Sent? && replies[i].response.status == Ok ==>
      replies[i].response.body.FileStream? && AccessibleNonDirectory(fs, replies[i].response.body.path)
  {
    var started := Start(argv, fs);
    if started.Failure? {
      return false, [];
    }
    guardPassed := true;
    replies := HandleRequests(started.value.dir, fs, lookup, paths);
    forall i | 0 <= i < |paths|
      ensures replies[i].Sent? && replies[i].response.status == Ok ==>
        replies[i].response.body.FileStream? && AccessibleNonDirectory(fs, replies[i].response.body.path)
    {
      ServedPathIsAccessible(argv, fs, lookup, paths[i]);
    }
  }
}
