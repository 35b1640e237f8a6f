/**
 * The two requests scripts/ai-update.ts sends to the text-generation service:
 * the analysis request of `analyzeAndSuggestUpdates` and the regeneration
 * request of `generateUpdatedContent`. File name and file content are inputs.
 */
module Prompts {
  import opened Wrappers

  datatype Role = User

  datatype Message = Message(role: Role, content: string)

  /** The request body: model, output cap, the messages and an optional system instruction. */
  datatype ModelRequest = ModelRequest(
    model: string,
    maxTokens: nat,
    messages: seq<Message>,
    system: Option<string>)

  const ModelId: string := "claude-sonnet-4-20250514"
  const AnalysisMaxTokens: nat := 4096
  const GenerationMaxTokens: nat := 8192

  const SystemPrompt: string :=
    "You are a technical documentation expert specializing in cybersecurity and Microsoft Sentinel. \n"
    + "Your task is to review documentation and suggest improvements.\n"
    + "\n"
    + "Guidelines:\n"
    + "- Focus on accuracy, clarity, and completeness\n"
    + "- Identify outdated information based on your knowledge\n"
    + "- Suggest improvements to code examples and queries\n"
    + "- Maintain the existing tone and structure\n"
    + "- Preserve Astro component syntax and frontmatter\n"
    + "- Be specific about what should change and why"

  const ContextLabel: string := "Additional context about recent changes: "

  const AnalysisInstructions: string :=
    "\n\nPlease provide:\n"
    + "\n"
    + "1. **Analysis**: What aspects of this documentation might need updating? "
    + "Are there any issues with accuracy, clarity, or completeness?\n"
    + "\n"
    + "2. **Suggested Changes**: A bullet list of specific changes you recommend, with explanations.\n"
    + "\n"
    + "3. **Priority**: Rate each suggestion as High/Medium/Low priority.\n"
    + "\n"
    + "Format your response clearly with these sections."

  const GenerationInstructions: string :=
    "\n\nProvide the complete updated file content. Preserve all Astro syntax, frontmatter, and component imports.\n"
    + "Only output the file content, no explanations."

  /** `t` occurs in `s` as a contiguous piece. */
  predicate Embeds(s: string, t: string) {
    exists i: nat :: i <= |s| && t <= s[i..]
  }

  /** Each middle piece of a six-piece concatenation occurs in it. */
  lemma EmbedsPieces(a: string, b: string, c: string, d: string, e: string, f: string)
    ensures Embeds(a + b + c + d + e + f, b)
    ensures Embeds(a + b + c + d + e + f, c)
    ensures Embeds(a + b + c + d + e + f, d)
    ensures Embeds(a + b + c + d + e + f, e)
  {
    var s := a + b + c + d + e + f;
    assert s == a + b + (c + d + e + f);
    assert b <= s[|a|..];
    assert s == a + b + c + (d + e + f);
    assert c <= s[|a + b|..];
    assert s == a + b + c + d + (e + f);
    assert d <= s[|a + b + c|..];
    assert e <= s[|a + b + c + d|..];
  }

  /** A block of text between code fences, as both prompts present the file. */
  function Fenced(text: string): string {
    "```\n" + text + "\n```"
  }

  function FileLine(fileName: string): string {
    "File: " + fileName + "\n"
  }

  /** The optional context line: present only when the context is truthy. */
  function ContextPart(context: Option<string>): string {
    if Truthy(context) then ContextLine(context.value) else ""
  }

  function ContextLine(context: string): string {
    "\n" + ContextLabel + context
  }

  const AnalysisIntro: string := "Please review this documentation file and suggest updates.\n\n"
  const ContentLabel: string := "\n\nCurrent content:\n"

  /** The user prompt of the analysis request. */
  function AnalysisPrompt(fileName: string, context: Option<string>, content: string): string {
    AnalysisIntro + FileLine(fileName) + ContextPart(context) + ContentLabel + Fenced(content)
      + AnalysisInstructions
  }

  /**
   * The analysis prompt always names the file and carries its whole content between
   * code fences, and carries the context line when the context is set.
   */
  lemma AnalysisPromptEmbeds(fileName: string, context: Option<string>, content: string)
    ensures Embeds(AnalysisPrompt(fileName, context, content), FileLine(fileName))
    ensures Embeds(AnalysisPrompt(fileName, context, content), Fenced(content))
    ensures Truthy(context) ==> Embeds(AnalysisPrompt(fileName, context, content), ContextLine(context.value))
  {
    EmbedsPieces(AnalysisIntro, FileLine(fileName), ContextPart(context), ContentLabel, Fenced(content),
                 AnalysisInstructions);
  }

  /** `s` with `t` put in at position `k`. */
  function Insert(s: string, k: nat, t: string): string
    requires k <= |s|
  {
    s[..k] + t + s[k..]
  }

  lemma InsertBetween(p: string, t: string, q: string)
    ensures Insert(p + q, |p|, t) == p + t + q
  {
    assert (p + q)[..|p|] == p;
    assert (p + q)[|p|..] == q;
  }

  /** The piece between a known prefix and a known suffix is determined by the whole. */
  lemma MiddleDetermined(p: string, x: string, y: string, q: string)
    requires p + x + q == p + y + q
    ensures x == y
  {
    assert |x| == |y|;
    assert x == (p + x + q)[|p|..|p| + |x|];
    assert y == (p + y + q)[|p|..|p| + |y|];
  }

  lemma RegroupSix(a: string, b: string, c: string, d: string, e: string, f: string)
    ensures a + b + c + d + e + f == (a + b) + c + (d + e + f)
    ensures a + b + c + d + e + f == (a + b + c + d) + e + f
  {
  }

  /** Dropping the third of six pieces, or putting it back after the second. */
  lemma ThirdPieceInserted(a: string, b: string, c: string, d: string, e: string, f: string)
    ensures a + b + "" + d + e + f == (a + b) + (d + e + f)
    ensures Insert((a + b) + (d + e + f), |a + b|, c) == a + b + c + d + e + f
  {
    RegroupSix(a, b, "", d, e, f);
    assert (a + b) + "" == a + b;
    RegroupSix(a, b, c, d, e, f);
    InsertBetween(a + b, c, d + e + f);
  }

  /**
   * The context line is the only difference context makes: an empty context gives the
   * prompt without it, and a non-empty one is inserted, as one line, right after the
   * line naming the file.
   */
  lemma ContextLineOnlyWhenSet(fileName: string, v: string, content: string)
    ensures AnalysisPrompt(fileName, Some(""), content) == AnalysisPrompt(fileName, None, content)
    ensures v != "" ==>
      AnalysisPrompt(fileName, Some(v), content)
        == Insert(AnalysisPrompt(fileName, None, content), |AnalysisIntro + FileLine(fileName)|, ContextLine(v))
  {
    ThirdPieceInserted(AnalysisIntro, FileLine(fileName), ContextLine(v), ContentLabel, Fenced(content),
                       AnalysisInstructions);
  }

  /** The analysis prompt holds the file content verbatim: different contents give different prompts. */
  lemma AnalysisPromptDeterminesContent(fileName: string, context: Option<string>, c1: string, c2: string)
    requires AnalysisPrompt(fileName, context, c1) == AnalysisPrompt(fileName, context, c2)
    ensures c1 == c2
  {
    var p := AnalysisIntro + FileLine(fileName) + ContextPart(context) + ContentLabel;
    RegroupSix(AnalysisIntro, FileLine(fileName), ContextPart(context), ContentLabel, Fenced(c1), AnalysisInstructions);
    RegroupSix(AnalysisIntro, FileLine(fileName), ContextPart(context), ContentLabel, Fenced(c2), AnalysisInstructions);
    MiddleDetermined(p, Fenced(c1), Fenced(c2), AnalysisInstructions);
    MiddleDetermined("```\n", c1, c2, "\n```");
  }

  const GenerationIntro: string := "Update this documentation file according to these instructions:\n\n"

  function InstructionsLine(instructions: string): string {
    "Instructions: " + instructions
  }

  function FileHeading(fileName: string): string {
    "\n\nCurrent file (" + fileName + "):\n"
  }

  /** The user prompt of the regeneration request. */
  function GenerationPrompt(instructions: string, fileName: string, content: string): string {
    GenerationIntro + InstructionsLine(instructions) + FileHeading(fileName) + Fenced(content)
      + GenerationInstructions
  }

  lemma EmbedsFivePieces(a: string, b: string, c: string, d: string, e: string)
    ensures Embeds(a + b + c + d + e, b)
    ensures Embeds(a + b + c + d + e, c)
    ensures Embeds(a + b + c + d + e, d)
  {
    var s := a + b + c + d + e;
    assert s == a + b + (c + d + e);
    assert b <= s[|a|..];
    assert s == a + b + c + (d + e);
    assert c <= s[|a + b|..];
    assert d <= s[|a + b + c|..];
  }

  /** The regeneration prompt carries the instructions, names the file and fences its whole content. */
  lemma GenerationPromptEmbeds(instructions: string, fileName: string, content: string)
    ensures Embeds(GenerationPrompt(instructions, fileName, content), InstructionsLine(instructions))
    ensures Embeds(GenerationPrompt(instructions, fileName, content), FileHeading(fileName))
    ensures Embeds(GenerationPrompt(instructions, fileName, content), Fenced(content))
  {
    EmbedsFivePieces(GenerationIntro, InstructionsLine(instructions), FileHeading(fileName), Fenced(content),
                     GenerationInstructions);
  }

  lemma RegroupFive(a: string, b: string, c: string, d: string, e: string)
    ensures a + b + c + d + e == a + b + (c + d + e)
    ensures a + b + c + d + e == (a + b + c) + d + e
  {
  }

  /** For given instructions, the regeneration prompt holds the file content verbatim. */
  lemma GenerationPromptDeterminesContent(instructions: string, fileName: string, c1: string, c2: string)
    requires GenerationPrompt(instructions, fileName, c1) == GenerationPrompt(instructions, fileName, c2)
    ensures c1 == c2
  {
    var p := GenerationIntro + InstructionsLine(instructions) + FileHeading(fileName);
    RegroupFive(GenerationIntro, InstructionsLine(instructions), FileHeading(fileName), Fenced(c1), GenerationInstructions);
    RegroupFive(GenerationIntro, InstructionsLine(instructions), FileHeading(fileName), Fenced(c2), GenerationInstructions);
    MiddleDetermined(p, Fenced(c1), Fenced(c2), GenerationInstructions);
    MiddleDetermined("```\n", c1, c2, "\n```");
  }

  /** For a given file, the regeneration prompt holds the instructions verbatim. */
  lemma GenerationPromptDeterminesInstructions(i1: string, i2: string, fileName: string, content: string)
    requires GenerationPrompt(i1, fileName, content) == GenerationPrompt(i2, fileName, content)
    ensures i1 == i2
  {
    var q := FileHeading(fileName) + Fenced(content) + GenerationInstructions;
    RegroupFive(GenerationIntro, InstructionsLine(i1), FileHeading(fileName), Fenced(content), GenerationInstructions);
    RegroupFive(GenerationIntro, InstructionsLine(i2), FileHeading(fileName), Fenced(content), GenerationInstructions);
    MiddleDetermined(GenerationIntro, InstructionsLine(i1), InstructionsLine(i2), q);
    MiddleDetermined("Instructions: ", i1, i2, "");
  }

  /** The analysis request: model, the shorter output cap, the reviewer persona and one user message. */
  function AnalysisRequest(fileName: string, context: Option<string>, content: string): ModelRequest {
    ModelRequest(ModelId, AnalysisMaxTokens, [Message(User, AnalysisPrompt(fileName, context, content))],
                 Some(SystemPrompt))
  }

  /** The regeneration request: same model, the longer output cap, no system instruction. */
  function GenerationRequest(instructions: string, fileName: string, content: string): ModelRequest {
    ModelRequest(ModelId, GenerationMaxTokens, [Message(User, GenerationPrompt(instructions, fileName, content))],
                 None)
  }

  /** Both requests send one user message to the same model; analysis is capped below generation. */
  lemma RequestShapes(fileName: string, context: Option<string>, instructions: string, content: string)
    ensures var a := AnalysisRequest(fileName, context, content);
            var g := GenerationRequest(instructions, fileName, content);
            && a.model == g.model
            && |a.messages| == 1 && a.messages[0].role == User
            && |g.messages| == 1 && g.messages[0].role == User
            && a.maxTokens < g.maxTokens
            && a.system == Some(SystemPrompt) && g.system == None
  {
  }
}
