/**
 * How scripts/ai-update.ts turns the service's reply into text: it looks at the
 * first content block only, takes its text when its type is `text`, and otherwise
 * yields the empty string. An empty block list makes `content[0].type` throw.
 */
module Responses {
  import opened Wrappers

  const TextKind: string := "text"

  /** One content block of the reply; `text` is meaningful only for blocks of the text kind. */
  datatype Block = Block(kind: string, text: string)

  /** The reply had no block at all, so reading the type of block 0 fails at run time. */
  datatype ExtractError = NoFirstBlock

  function ReplyText(content: seq<Block>): Result<string, ExtractError> {
    if |content| == 0 then Failure(NoFirstBlock)
    else if content[0].kind == TextKind then Success(content[0].text)
    else Success("")
  }

  /** Block 0 alone decides the result; later blocks are never looked at. */
  lemma FirstBlockDecides(a: seq<Block>, b: seq<Block>)
    requires |a| > 0 && |b| > 0 && a[0] == b[0]
    ensures ReplyText(a) == ReplyText(b)
  {
  }

  /** The text of a leading text block comes back unchanged, whatever follows it. */
  lemma LeadingTextReturned(t: string, rest: seq<Block>)
    ensures ReplyText([Block(TextKind, t)] + rest) == Success(t)
  {
  }

  /** A leading block of another kind gives the empty string, even if a text block follows. */
  lemma LeadingNonTextGivesEmpty(kind: string, ignored: string, rest: seq<Block>)
    requires kind != TextKind
    ensures ReplyText([Block(kind, ignored)] + rest) == Success("")
  {
  }

  /** Only an empty reply is an error. */
  lemma EmptyReplyOnlyFailure(content: seq<Block>)
    ensures ReplyText(content).Failure? <==> content == []
  {
  }
}
