/**
  The per-sentence data the correction pass reads and rewrites: tokens with
  their surface word, part-of-speech tag and named-entity tag, and entity
  mentions over token spans.
*/
module Sentences {
  import opened Text

  /**
    Team mentions come from the gazetteer only: the tagger's are dropped by
    the filter and the scanner adds its own.
  */
  const PreferTeamsFromGazetteer: bool := true

  datatype Token = Token(word: string, pos: string, ner: string)

  /** A half-open token range `[start, end)`. */
  datatype Span = Span(start: nat, end: nat)

  /** A mention identifier, minted from the sentence number and a running offset. */
  datatype MentionId = MentionId(sentence: int, offset: int)

  datatype Mention = Mention(kind: string, span: Span, extent: string, id: MentionId)

  /** The sentence after upstream tagging: fixed tokens and the current mention list. */
  datatype Sentence = Sentence(tokens: seq<Token>, mentions: seq<Mention>)

  predicate ValidSpan(tokens: seq<Token>, s: Span) {
    s.start < s.end <= |tokens|
  }

  /** The surface words of `tokens[start..end]`, joined by single blanks. */
  function Surface(tokens: seq<Token>, start: nat, end: nat): string
    requires start <= end <= |tokens|
  {
    JoinWords(seq(end - start, k requires 0 <= k < end - start => tokens[start + k].word))
  }

  function SpansOf(ms: seq<Mention>): seq<Span> {
    seq(|ms|, k requires 0 <= k < |ms| => ms[k].span)
  }

  /** No two mentions share an identifier. */
  ghost predicate DistinctIds(ms: seq<Mention>) {
    forall i, j :: 0 <= i < j < |ms| ==> ms[i].id != ms[j].id
  }
}
