/**
 The startup guard of `main`: the positional arguments are destructured from
 `process.argv`, and the server may only listen when the directory, certificate
 and key are given and the index document passes `access` and is no
 directory per `lstat`.
 */
module Startup {
  import opened Wrappers
  import opened FileSystem
  import opened Resolver

  /** The port used when `argv[5]`, the fourth argument after the script name, is absent. */
  const DefaultPort: int := 8443

  /** The port handed to `server.listen`: the numeric default, or the raw
      argument string (a destructuring default applies only to `undefined`). */
  datatype Port = PortNumber(n: int) | PortArgument(text: string)

  /** What the server is configured with once the guard has passed. */
  datatype Config = Config(dir: string, certFilePath: string, keyFilePath: string, port: Port)

  /** Why the server does not listen; each case is the diagnostic printed. */
  datatype StartupError =
    | MissingArguments                    // "Directory, private key, and certificate must be defined!"
    | CannotAccess(indexFilePath: string) // "Cannot access ${indexFilePath}!"

  /** `argv[i]`, which is `undefined` past the end. */
  function Arg(argv: seq<string>, i: nat): Option<string>
  {
    if i < |argv| then Some(argv[i]) else None
  }

  /** `main` up to `server.listen`. `argv[0]` is the node binary and `argv[1]`
      the script, as in `process.argv`. */
  function Start(argv: seq<string>, fs: FileSystem): (r: Result<Config, StartupError>)
    ensures r.Success? <==> |argv| >= 5 && AccessibleNonDirectory(fs, IndexFilePath(argv[2]))
    ensures |argv| < 5 ==> r == Failure(MissingArguments)
    ensures |argv| >= 5 && !AccessibleNonDirectory(fs, IndexFilePath(argv[2])) ==>
      r == Failure(CannotAccess(IndexFilePath(argv[2])))
    ensures r.Success? ==>
      && r.value.dir == argv[2]
      && r.value.certFilePath == argv[3]
      && r.value.keyFilePath == argv[4]
      && (r.value.port == PortNumber(DefaultPort) <==> |argv| < 6)
      && (|argv| >= 6 ==> r.value.port == PortArgument(argv[5]))
  {
    match (Arg(argv, 2), Arg(argv, 3), Arg(argv, 4))
    case (Some(dir), Some(cert), Some(key)) =>
      var indexFilePath := IndexFilePath(dir);
      if !AccessOk(fs, indexFilePath) || fs[indexFilePath].isDirectory then
        Failure(CannotAccess(indexFilePath))
      else
        var port := match Arg(argv, 5) case Some(p) => PortArgument(p) case None => PortNumber(DefaultPort);
        Success(Config(dir, cert, key, port))
    case _ => Failure(MissingArguments)
  }
}
