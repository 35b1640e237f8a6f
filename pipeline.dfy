/**
 * One run of scripts/ai-update.ts as a function of its arguments and of what it
 * reads from its surroundings: the readable files, the base name of a path and
 * the text-generation service, which stands here as a function from request to
 * reply (or to the error the call rejects with). The outcome says what the run
 * prints or writes; every failure ends the process with exit status 1.
 */
module Pipeline {
  import opened Wrappers
  import opened Arguments
  import opened Modes
  import opened Prompts
  import opened Responses

  datatype Host = Host(
    files: map<string, string>,
    baseName: string -> string,
    complete: ModelRequest -> Result<seq<Block>, string>)

  datatype Error =
    | FileNotFound(path: string)     // the analysis path's existence check fails
    | ReadFailed(path: string)       // the regeneration path reads a missing file
    | RemoteFailed(message: string)  // the service call rejects
    | EmptyReply                     // the reply has no block 0

  datatype Outcome =
    | Usage
    | PrintedAnalysis(analysis: string)
    | PrintedContent(content: string)
    | WroteFile(path: string, content: string)
    | Failed(error: Error)

  function ExitCode(o: Outcome): nat {
    if o.Failed? then 1 else 0
  }

  /** The text of a reply, or why there is none. */
  function Answer(reply: Result<seq<Block>, string>): Result<string, Error> {
    match reply
    case Failure(message) => Failure(RemoteFailed(message))
    case Success(blocks) =>
      match ReplyText(blocks)
      case Failure(_) => Failure(EmptyReply)
      case Success(t) => Success(t)
  }

  /** `analyzeAndSuggestUpdates`: check the file exists, read it, ask for a review. */
  function AnalyzeFile(h: Host, filePath: string, context: Option<string>): Result<string, Error> {
    if filePath !in h.files then Failure(FileNotFound(filePath))
    else Answer(h.complete(AnalysisRequest(h.baseName(filePath), context, h.files[filePath])))
  }

  /** `generateUpdatedContent`: read the file (which throws when it is missing), ask for a new version. */
  function GenerateContent(h: Host, filePath: string, instructions: string): Result<string, Error> {
    if filePath !in h.files then Failure(ReadFailed(filePath))
    else Answer(h.complete(GenerationRequest(instructions, h.baseName(filePath), h.files[filePath])))
  }

  /** `main`: resolve the arguments, pick the mode, run it, and print or write the text. */
  function Run(args: seq<string>, h: Host): Outcome {
    match Resolve(args)
    case ShowUsage => Usage
    case Resolved(r) =>
      match SelectAction(r)
      case Analyze(p, c) =>
        (match AnalyzeFile(h, p, c)
         case Failure(e) => Failed(e)
         case Success(t) => PrintedAnalysis(t))
      case ApplyToStdout(p, i) =>
        (match GenerateContent(h, p, i)
         case Failure(e) => Failed(e)
         case Success(t) => PrintedContent(t))
      case ApplyToFile(p, i, o) =>
        (match GenerateContent(h, p, i)
         case Failure(e) => Failed(e)
         case Success(t) => WroteFile(o, t))
  }

  /** The one request a run sends to the service, if it gets that far. */
  function SentRequest(args: seq<string>, h: Host): Option<ModelRequest> {
    if |args| == 0 || args[0] !in h.files then None
    else
      var p := args[0];
      match SelectAction(Resolve(args).request)
      case Analyze(_, c) => Some(AnalysisRequest(h.baseName(p), c, h.files[p]))
      case ApplyToStdout(_, i) => Some(GenerationRequest(i, h.baseName(p), h.files[p]))
      case ApplyToFile(_, i, _) => Some(GenerationRequest(i, h.baseName(p), h.files[p]))
  }

  /**
   * The service is consulted at most once, on the request above: a run over a
   * service that agrees with `h` on that one request (on nothing, when the run
   * sends none) has the same outcome.
   */
  lemma ServiceConsultedOnlyOnSentRequest(args: seq<string>, h: Host,
                                          other: ModelRequest -> Result<seq<Block>, string>)
    requires SentRequest(args, h).Some? ==>
               other(SentRequest(args, h).value) == h.complete(SentRequest(args, h).value)
    ensures Run(args, h.(complete := other)) == Run(args, h)
  {
  }

  /** No arguments: usage and exit status 0, whatever the files and the service. */
  lemma NoArgumentsShowsUsage(h: Host)
    ensures Run([], h) == Usage && ExitCode(Run([], h)) == 0
    ensures SentRequest([], h) == None
  {
  }

  /**
   * A missing file fails the run with exit status 1 before any request is sent: as
   * "not found" when analysing, and as a failed read when applying instructions.
   */
  lemma MissingFileFailsBeforeRequest(args: seq<string>, h: Host)
    requires |args| >= 1 && args[0] !in h.files
    ensures FlagValue(args, ApplyFlag) == None ==> Run(args, h) == Failed(FileNotFound(args[0]))
    ensures FlagValue(args, ApplyFlag).Some? ==> Run(args, h) == Failed(ReadFailed(args[0]))
    ensures ExitCode(Run(args, h)) == 1
    ensures SentRequest(args, h) == None
  {
  }

  /** With `--apply` and `--output` registered, the output file receives exactly the reply's text. */
  lemma OutputFileHoldsReply(args: seq<string>, h: Host, instructions: string, out: string,
                             t: string, rest: seq<Block>)
    requires |args| >= 1 && args[0] in h.files
    requires FlagValue(args, ApplyFlag) == Some(instructions)
    requires FlagValue(args, OutputFlag) == Some(out)
    requires h.complete(GenerationRequest(instructions, h.baseName(args[0]), h.files[args[0]]))
             == Success([Block(TextKind, t)] + rest)
    ensures Run(args, h) == WroteFile(out, t)
  {
  }

  /** With `--apply` but no `--output`, the reply's text is printed and no file is written. */
  lemma ApplyWithoutOutputPrints(args: seq<string>, h: Host, instructions: string,
                                 t: string, rest: seq<Block>)
    requires |args| >= 1 && args[0] in h.files
    requires FlagValue(args, ApplyFlag) == Some(instructions)
    requires FlagValue(args, OutputFlag) == None
    requires h.complete(GenerationRequest(instructions, h.baseName(args[0]), h.files[args[0]]))
             == Success([Block(TextKind, t)] + rest)
    ensures Run(args, h) == PrintedContent(t)
  {
  }

  /** Without `--apply`, the analysis uses the context flag's value and prints the reply's text. */
  lemma AnalysisPrintsReply(args: seq<string>, h: Host, t: string, rest: seq<Block>)
    requires |args| >= 1 && args[0] in h.files
    requires FlagValue(args, ApplyFlag) == None
    requires h.complete(AnalysisRequest(h.baseName(args[0]), FlagValue(args, ContextFlag), h.files[args[0]]))
             == Success([Block(TextKind, t)] + rest)
    ensures Run(args, h) == PrintedAnalysis(t)
  {
  }

  /** A service that always rejects fails every run that has arguments, and nothing is written. */
  lemma RejectingServiceFails(args: seq<string>, h: Host)
    requires |args| >= 1
    requires forall q :: h.complete(q).Failure?
    ensures Run(args, h).Failed? && ExitCode(Run(args, h)) == 1
  {
  }
}
