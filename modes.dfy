/**
 * The mode decision at the end of `main` in scripts/ai-update.ts: registered
 * apply instructions select the generation request, and then a registered
 * output file selects writing instead of printing; otherwise the file is analysed.
 */
module Modes {
  import opened Wrappers
  import opened Arguments

  datatype Action =
    | Analyze(filePath: string, context: Option<string>)
    | ApplyToFile(filePath: string, instructions: string, outputFile: string)
    | ApplyToStdout(filePath: string, instructions: string)

  function SelectAction(r: Request): (a: Action)
    ensures a.filePath == r.filePath
    ensures a.Analyze? <==> !Truthy(r.applyInstructions)
    ensures a.Analyze? ==> a.context == r.context
    ensures !a.Analyze? ==> Some(a.instructions) == r.applyInstructions
    ensures a.ApplyToFile? <==> Truthy(r.applyInstructions) && Truthy(r.outputFile)
    ensures a.ApplyToFile? ==> Some(a.outputFile) == r.outputFile
  {
    if Truthy(r.applyInstructions) then
      if Truthy(r.outputFile) then
        ApplyToFile(r.filePath, r.applyInstructions.value, r.outputFile.value)
      else
        ApplyToStdout(r.filePath, r.applyInstructions.value)
    else
      Analyze(r.filePath, r.context)
  }

  /** In apply mode the context flag plays no part. */
  lemma ApplyIgnoresContext(r: Request, c: Option<string>)
    requires Truthy(r.applyInstructions)
    ensures SelectAction(r.(context := c)) == SelectAction(r)
  {
  }

  /** In analyse mode the output flag plays no part. */
  lemma AnalyzeIgnoresOutput(r: Request, o: Option<string>)
    requires !Truthy(r.applyInstructions)
    ensures SelectAction(r.(outputFile := o)) == SelectAction(r)
  {
  }

  /**
   * From the raw arguments: apply mode is chosen exactly when some occurrence of
   * `--apply` registered, wherever it stands, and then writing to a file exactly
   * when some occurrence of `--output` registered; the analysis gets the context
   * flag's value.
   */
  lemma ModeFromArguments(args: seq<string>)
    requires |args| >= 1
    ensures var a := SelectAction(Resolve(args).request);
      && (!a.Analyze? <==> exists j: nat :: RegisteredAt(args, ApplyFlag, j))
      && (a.ApplyToFile? <==>
            (exists j: nat :: RegisteredAt(args, ApplyFlag, j)) &&
            (exists k: nat :: RegisteredAt(args, OutputFlag, k)))
      && (a.Analyze? ==> a.context == FlagValue(args, ContextFlag))
  {
    UnsetIffNeverRegistered(args, ApplyFlag);
    UnsetIffNeverRegistered(args, OutputFlag);
  }
}
