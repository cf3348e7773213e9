/**
 The command-line entry point: credential fallback, construction of the loader
 and the two-key dispatch on `--updown` and `--filefolder`. Argument parsing
 itself is not modelled: a run starts from already parsed arguments.
 */
module Cli {
  import opened Outcomes
  import opened Transfer
  import Paths

  /** The placeholder credentials baked into the program. */
  const DefaultBucketName: string := "######################"
  const DefaultAccessKey: string := "#######################"
  const DefaultSecretKey: string := "#######################"
  const DefaultEndpointUrl: Option<string> := None

  const UpdownUsage: string := "updown must be 'up' or 'down'."
  const FilefolderUsage: string := "filefolder must be 'file' or 'folder'."

  /** The parsed command line; an omitted optional flag is `None`. */
  datatype Args = Args(
    updown: string,
    filefolder: string,
    srcPath: string,
    destPath: string,
    bucketName: Option<string>,
    accessKey: Option<string>,
    secretKey: Option<string>,
    endpointUrl: Option<string>,
    multipartThreshold: int,
    maxConcurrency: int,
    verbose: bool)

  /** `set_credentials`: each omitted credential falls back to its built-in default. */
  function SetCredentials(args: Args): (r: Args)
    ensures r.bucketName.Some? && r.accessKey.Some? && r.secretKey.Some?
    ensures args.bucketName.Some? ==> r.bucketName == args.bucketName
    ensures args.accessKey.Some? ==> r.accessKey == args.accessKey
    ensures args.secretKey.Some? ==> r.secretKey == args.secretKey
    ensures args.bucketName.None? ==> r.bucketName == Some(DefaultBucketName)
    ensures args.accessKey.None? ==> r.accessKey == Some(DefaultAccessKey)
    ensures args.secretKey.None? ==> r.secretKey == Some(DefaultSecretKey)
    // the endpoint's default is itself `None`, so the endpoint never changes
    ensures r.endpointUrl == args.endpointUrl
    ensures r.(bucketName := args.bucketName, accessKey := args.accessKey, secretKey := args.secretKey) == args
  {
    args.(
      bucketName := if args.bucketName == None then Some(DefaultBucketName) else args.bucketName,
      accessKey := if args.accessKey == None then Some(DefaultAccessKey) else args.accessKey,
      secretKey := if args.secretKey == None then Some(DefaultSecretKey) else args.secretKey,
      endpointUrl := if args.endpointUrl == None then DefaultEndpointUrl else args.endpointUrl)
  }

  /** Resolving credentials a second time changes nothing. */
  lemma SetCredentialsIdempotent(args: Args)
    ensures SetCredentials(SetCredentials(args)) == SetCredentials(args)
  {
  }

  /** The four transfer operations of the loader. */
  datatype Op = UploadFileOp | UploadFolderOp | DownloadFileOp | DownloadFolderOp {
    predicate IsUpload() {
      UploadFileOp? || UploadFolderOp?
    }
    predicate IsFolder() {
      UploadFolderOp? || DownloadFolderOp?
    }
  }

  /** What the entry point does with the two keys: call one operation or print a usage line. */
  datatype Decision = Invoke(op: Op) | Usage(message: string)

  /**
   The dispatch table: `up`/`down` picks the direction, `file`/`folder` the unit;
   an unrecognised direction is reported first, then an unrecognised unit.
   */
  function Dispatch(updown: string, filefolder: string): (d: Decision)
    ensures d.Invoke? <==> (updown == "up" || updown == "down") && (filefolder == "file" || filefolder == "folder")
    ensures d.Invoke? ==> (d.op.IsUpload() <==> updown == "up")
    ensures d.Invoke? ==> (d.op.IsFolder() <==> filefolder == "folder")
    ensures updown != "up" && updown != "down" ==> d == Usage(UpdownUsage)
    ensures (updown == "up" || updown == "down") && filefolder != "file" && filefolder != "folder"
            ==> d == Usage(FilefolderUsage)
  {
    if updown == "up" then
      if filefolder == "file" then Invoke(UploadFileOp)
      else if filefolder == "folder" then Invoke(UploadFolderOp)
      else Usage(FilefolderUsage)
    else if updown == "down" then
      if filefolder == "file" then Invoke(DownloadFileOp)
      else if filefolder == "folder" then Invoke(DownloadFolderOp)
      else Usage(FilefolderUsage)
    else Usage(UpdownUsage)
  }

  /** The world a run sees: local files, the walk of the source folder, the bucket listing and existing local paths. */
  datatype Env = Env(localFiles: set<string>, walk: seq<string>, listing: seq<S3Object>, present: set<string>)

  /** One call of a loader operation with its two path arguments. */
  datatype Call = Call(op: Op, src: string, dest: string)

  /** The effect of a run: the loader built, the operation called (if any), printed usage lines and the actions. */
  datatype RunResult = RunResult(loader: Loader, call: Option<Call>, messages: seq<string>, outcome: Result<seq<Action>>)

  /**
   The actions one loader operation issues. Only the two file operations raise;
   `upload_folder` runs as written, re-stripping the prefix on every file.
   */
  function Perform(c: Call, env: Env): (r: Result<seq<Action>>)
    ensures c.op == UploadFileOp ==> (r.Err? <==> c.src !in env.localFiles)
    ensures c.op == DownloadFileOp ==> (r.Err? <==> !Listed(env.listing, c.src))
    ensures r.Err? ==> r.error == NotFound(c.src)
    ensures c.op.IsFolder() ==> r.Ok?
    ensures c.op == UploadFolderOp ==> |r.value| == |env.walk|
  {
    match c.op
    case UploadFileOp => UploadFile(c.src, c.dest, env.localFiles)
    case UploadFolderOp => Ok(UploadFolderAsWrittenTrace(c.src, c.dest, env.walk))
    case DownloadFileOp => DownloadFile(c.src, c.dest, env.listing)
    case DownloadFolderOp => Ok(DownloadFolder(c.src, c.dest, env.listing, env.present).trace)
  }

  /**
   The `__main__` block: resolve credentials, build the loader with the default
   transfer policy, then dispatch. An unrecognised key prints a line and the run
   ends normally, without a transfer.
   */
  function Run(args: Args, env: Env): (r: RunResult)
    ensures r.loader.config.multipartThreshold == 52428800 && r.loader.config.maxConcurrency == 50
    ensures var a := SetCredentials(args);
            r.loader.bucketName == a.bucketName && r.loader.accessKey == a.accessKey
            && r.loader.secretKey == a.secretKey && r.loader.endpointUrl == a.endpointUrl
    ensures r.loader.verbose == args.verbose
    ensures r.call.Some? <==> r.messages == []
    ensures r.call.Some? <==> Dispatch(args.updown, args.filefolder).Invoke?
    ensures r.call.Some? ==> Dispatch(args.updown, args.filefolder) == Invoke(r.call.value.op)
    ensures r.call.Some? ==> r.call.value.src == args.srcPath && r.call.value.dest == args.destPath
    ensures r.call.Some? ==> r.outcome == Perform(r.call.value, env)
    ensures r.call.None? ==> |r.messages| == 1 && r.outcome == Ok([])
  {
    var a := SetCredentials(args);
    var loader := NewLoader(a.bucketName, a.accessKey, a.secretKey, a.endpointUrl,
                            DefaultMultipartThresholdMiB, DefaultMaxConcurrency, a.verbose);
    match Dispatch(a.updown, a.filefolder)
    case Invoke(op) =>
      var c := Call(op, a.srcPath, a.destPath);
      RunResult(loader, Some(c), [], Perform(c, env))
    case Usage(msg) =>
      RunResult(loader, None, [msg], Ok([]))
  }

  /** `--multipart_threshold` and `--max_concurrency` are parsed but never reach the loader. */
  lemma RunIgnoresTransferFlags(args: Args, env: Env, threshold: int, concurrency: int)
    ensures Run(args.(multipartThreshold := threshold, maxConcurrency := concurrency), env) == Run(args, env)
  {
  }

  /** The dispatch table row by row: each valid pair calls its own operation with the paths as given. */
  lemma RunDispatchTable(args: Args, env: Env)
    ensures args.updown == "up" && args.filefolder == "file"
            ==> Run(args, env).outcome == UploadFile(args.srcPath, args.destPath, env.localFiles)
    ensures args.updown == "up" && args.filefolder == "folder"
            ==> Run(args, env).outcome == Ok(UploadFolderAsWrittenTrace(args.srcPath, args.destPath, env.walk))
    ensures args.updown == "down" && args.filefolder == "file"
            ==> Run(args, env).outcome == DownloadFile(args.srcPath, args.destPath, env.listing)
    ensures args.updown == "down" && args.filefolder == "folder"
            ==> Run(args, env).outcome == Ok(DownloadFolder(args.srcPath, args.destPath, env.listing, env.present).trace)
  {
  }

  /**
   With a destination ending in at most one separator and walked paths that hold
   no second copy of the root, the up+folder run issues the corrected uploads.
   */
  lemma RunUploadFolderCorrectedWhen(args: Args, env: Env)
    requires args.updown == "up" && args.filefolder == "folder"
    requires Paths.TrailingSeparators(args.destPath) <= 1
    requires forall i :: 0 <= i < |env.walk| ==>
               BaseKeyAsWritten(Slashed(args.srcPath), Slashed(env.walk[i]))
               == BaseKey(Slashed(args.srcPath), Slashed(env.walk[i]))
    ensures Run(args, env).outcome == Ok(UploadFolder(args.srcPath, args.destPath, env.walk))
  {
    AsWrittenAgrees(args.srcPath, args.destPath, env.walk);
  }

  /** An unrecognised key issues no action and raises nothing: one usage line, then a normal end. */
  lemma RunRejectsUnknownKeys(args: Args, env: Env)
    requires !(args.updown == "up" || args.updown == "down") || !(args.filefolder == "file" || args.filefolder == "folder")
    ensures Run(args, env).call.None?
    ensures Run(args, env).outcome == Ok([])
    ensures Run(args, env).messages
            == [if args.updown != "up" && args.updown != "down" then UpdownUsage else FilefolderUsage]
  {
  }
}
