# NFL entity extractor: per-sentence mention correction, modelled in Dafny

This project models the correction pass that `NFLEntityExtractor` runs on every
sentence after the statistical tagger has produced its entity mentions
(`postprocessSentence`). The pass has two stages:

1. **Mention filter** (`removeSpuriousMentions`, with `gameTime` and
   `invalidDate`). It rebuilds the mention list and drops `Date` mentions
   whose extent contains "half" or "quarter" (any case, as a substring). It
   also drops `Date` mentions with no letter and fewer than two digits. Every
   `NFLTeam` mention is dropped as well, because `PREFER_TEAMS_FROM_GAZETTEER`
   is `true`.
2. **Gazetteer scanner** (`addMissingMentions`, with `join`). For each start
   token, windows are tried from the longest allowed (`MAX_MENTION_LENGTH`
   tokens, or up to the sentence end) down to one token. The lower-cased,
   blank-joined phrase is looked up in the gazetteer. The first window tagged
   `NFLTeam` is appended as a new mention, and the scan resumes right after
   it. Identifiers are minted from a running offset that starts at the
   mention count taken before filtering.

Files and modules:

- `wrappers.dfy` (`Wrappers`): `Option`, standing for Java's `null` results.
- `text.dfy` (`Text`): ASCII letters, digits and lower-casing, substrings,
  joining words with single blanks, and its inverse, splitting on blanks.
- `sentences.dfy` (`Sentences`): tokens, spans, mention identifiers, mentions
  and sentences.
- `mention_filter.dfy` (`MentionFilter`): the first stage.
- `gazetteer_scan.dfy` (`GazetteerScan`): the second stage. It also gives a
  declarative description of the scan's output (`GreedyCover`) and proves that
  this description has exactly one solution per sentence.
- `scan_example.dfy` (`ScanExample`): the scanner on "the New England
  Patriots won".
- `extractor.dfy` (`Extractor`): `postprocessSentence`.
- `heuristics.dfy` (`Heuristics`): `findUniqueNerTag`, `spanIntersects` and
  `isPotentialScore`. The shipped pass does not call these helpers.

Outside collaborators are parameters:

- The gazetteer is a value `Gazetteer(entries, maxLength)`. `maxLength` plays
  `NFLGazetteer.MAX_MENTION_LENGTH`, whose value is not part of this model.
- The date mentions that `makeAnnotationFromNERTags` appends are the
  parameter `dateMentions`.
- Identifiers are the pair `MentionId(sentCount, offset)`.

The Java code edits the sentence's mention list in place. Here every stage
returns a new list.

Two points where the code is more specific than a loose reading of its
comments:

- `gameTime` runs a regular-expression `find` for `half|quarter`. Any
  substring matches, not only whole words: "halftime" and "behalf" match too.
  `GameTime` models the substring search.
- The window bound lives in `NFLGazetteer`, so here it is a parameter with no
  fixed value.

## Model

| member | source | states |
|---|---|---|
| MentionFilter.GameTime | src/edu/stanford/nlp/ie/machinereading/domains/nfl/NFLEntityExtractor.java:91-97 | true exactly when "half" or "quarter" is a substring of the ASCII-lower-cased extent, at any position |
| MentionFilter.FindGameTimeFrom | src/edu/stanford/nlp/ie/machinereading/domains/nfl/NFLEntityExtractor.java:93-96 | the matcher's `find` from position j succeeds exactly when one of the two words occurs, case-insensitively, at some position at or after j |
| MentionFilter.CountChars | src/edu/stanford/nlp/ie/machinereading/domains/nfl/NFLEntityExtractor.java:100-105 | the letter count is zero exactly when no character is a letter; the digit count is zero exactly when no character is a digit, and at least two exactly when two distinct positions hold digits |
| MentionFilter.InvalidDate | src/edu/stanford/nlp/ie/machinereading/domains/nfl/NFLEntityExtractor.java:99-108 | true exactly when the string has no letter and no two positions holding digits; other characters are ignored |
| MentionFilter.RemoveSpuriousMentions | src/edu/stanford/nlp/ie/machinereading/domains/nfl/NFLEntityExtractor.java:56-79 | the clean list is no longer than the input; every kept mention comes from the input and matches no removal rule; every input mention that matches no rule is kept |
| MentionFilter.FilterIsOrderedSelection | src/edu/stanford/nlp/ie/machinereading/domains/nfl/NFLEntityExtractor.java:59-78 | the clean list is the input read at strictly increasing positions, and a position is read exactly when its mention matches none of the three rules: survivors are unchanged and keep their order |
| MentionFilter.CleanListIsFixpoint | src/edu/stanford/nlp/ie/machinereading/domains/nfl/NFLEntityExtractor.java:60-77 | a list in which no mention matches a removal rule is returned unchanged |
| MentionFilter.FilterIdempotent | src/edu/stanford/nlp/ie/machinereading/domains/nfl/NFLEntityExtractor.java:60-78 | filtering the filtered list changes nothing |
| MentionFilter.GameTimeDateRemoved | src/edu/stanford/nlp/ie/machinereading/domains/nfl/NFLEntityExtractor.java:50 | the date "the second half" is removed |
| MentionFilter.WeakDatesRemoved | src/edu/stanford/nlp/ie/machinereading/domains/nfl/NFLEntityExtractor.java:51 | the dates "' 1" and "" are removed |
| MentionFilter.ProperDateKept | src/edu/stanford/nlp/ie/machinereading/domains/nfl/NFLEntityExtractor.java:61-63 | the date "January 5" is kept |
| MentionFilter.TwoDigitDateKept | src/edu/stanford/nlp/ie/machinereading/domains/nfl/NFLEntityExtractor.java:106 | the date "12" is kept: two digits are enough |
| Text.SplitJoin | src/edu/stanford/nlp/ie/machinereading/domains/nfl/NFLEntityExtractor.java:225-232 | splitting a blank-joined phrase of blank-free words on blanks gives the words back |
| Text.JoinInjective | src/edu/stanford/nlp/ie/machinereading/domains/nfl/NFLEntityExtractor.java:225-232 | two non-empty lists of blank-free words join to the same phrase exactly when they are equal |
| GazetteerScan.JoinDeterminesWords | src/edu/stanford/nlp/ie/machinereading/domains/nfl/NFLEntityExtractor.java:152-153 | when words contain no blank, two windows with the same lookup key have the same length and the same lower-cased words, position by position |
| GazetteerScan.LongestTeamWindowAt | src/edu/stanford/nlp/ie/machinereading/domains/nfl/NFLEntityExtractor.java:149-159 | when a window is found, it is tagged NFLTeam, lies in the sentence, is at most maxLength long, and no longer window from the same start is tagged NFLTeam; when none is found, end equals start and no window from start is tagged NFLTeam |
| GazetteerScan.AddMissingMentions | src/edu/stanford/nlp/ie/machinereading/domains/nfl/NFLEntityExtractor.java:146-185 | the input list is a prefix of the result; the k-th appended mention is an NFLTeam mention over a non-empty in-sentence span, with identifier offset identifierOffset + k; the appended spans are longest matches, ordered and pairwise disjoint, and no token outside them starts a team window; with no tokens, nothing is appended |
| GazetteerScan.AcceptKeepsCover | src/edu/stanford/nlp/ie/machinereading/domains/nfl/NFLEntityExtractor.java:176-183 | accepting `[start, end)` and jumping to end keeps the spans ordered and leaves no uncovered team start before end |
| GazetteerScan.StartNotAfter | src/edu/stanford/nlp/ie/machinereading/domains/nfl/NFLEntityExtractor.java:148 | when two greedy covers agree before position k, span k of the first starts no later than span k of the second: the leftmost uncovered team start is never skipped |
| GazetteerScan.AgreeAt | src/edu/stanford/nlp/ie/machinereading/domains/nfl/NFLEntityExtractor.java:148-159 | two greedy covers that agree before position k agree at k |
| GazetteerScan.PrefixIsNotCover | src/edu/stanford/nlp/ie/machinereading/domains/nfl/NFLEntityExtractor.java:148 | a proper prefix of a greedy cover leaves a team window uncovered, so it is not a greedy cover |
| GazetteerScan.GreedyCoverUnique | src/edu/stanford/nlp/ie/machinereading/domains/nfl/NFLEntityExtractor.java:148-183 | a sentence has exactly one greedy cover, so the scan's appended spans are fully determined by the tokens and the gazetteer |
| ScanExample.PatriotsCover | src/edu/stanford/nlp/ie/machinereading/domains/nfl/NFLEntityExtractor.java:148-183 | with gazetteer entry "new england patriots" and windows of up to 4 tokens, the single span tokens 1 to 4 is a greedy cover of "the New England Patriots won" |
| ScanExample.PatriotsScan | src/edu/stanford/nlp/ie/machinereading/domains/nfl/NFLEntityExtractor.java:148-183 | any greedy cover of that sentence is exactly the span tokens 1 to 4 |
| ScanExample.ShortWindowsMissPatriots | src/edu/stanford/nlp/ie/machinereading/domains/nfl/NFLEntityExtractor.java:151 | with windows of at most 2 tokens the three-word name is never looked up and the cover is empty |
| Extractor.PostprocessSentence | src/edu/stanford/nlp/ie/machinereading/domains/nfl/NFLEntityExtractor.java:39-46 | tokens are unchanged; the filtered list (date mentions included) is a prefix of the result; each appended mention is the full team mention (NFLTeam type, valid span, its surface words as extent) with an offset counting up from the pre-filter mention count; every NFLTeam mention in the result is a longest gazetteer match; identifiers distinct and below the pre-filter count on input stay distinct |
| Extractor.FilterKeepsDistinctIds | src/edu/stanford/nlp/ie/machinereading/domains/nfl/NFLEntityExtractor.java:56-79 | the filter keeps pairwise distinct identifiers pairwise distinct |
| Heuristics.FindUniqueNerTag | src/edu/stanford/nlp/ie/machinereading/domains/nfl/NFLEntityExtractor.java:234-248 | returns a tag exactly when the range is non-empty and every token in it has the first token's tag, and the tag returned is that one |
| Heuristics.SpanIntersects | src/edu/stanford/nlp/ie/machinereading/domains/nfl/NFLEntityExtractor.java:200-208 | true exactly when some position in `[start, end)` is in the set |
| Heuristics.IsPotentialScore | src/edu/stanford/nlp/ie/machinereading/domains/nfl/NFLEntityExtractor.java:188-198 | an accepted word is non-empty and every character after the first is a digit |
| Heuristics.ParseDecimal | src/edu/stanford/nlp/ie/machinereading/domains/nfl/NFLEntityExtractor.java:191 | the decimal numeral of a non-negative 32-bit value parses back to that value |
| Heuristics.ParseNegativeDecimal | src/edu/stanford/nlp/ie/machinereading/domains/nfl/NFLEntityExtractor.java:191 | a minus sign followed by the numeral of n, for n up to 2^31, parses to -n |
| Heuristics.DecimalIsScoreIffBelow100 | src/edu/stanford/nlp/ie/machinereading/domains/nfl/NFLEntityExtractor.java:191-194 | a printed non-negative 32-bit number is a potential score exactly when it is below 100 |
| Heuristics.NonNumeralIsNotScore | src/edu/stanford/nlp/ie/machinereading/domains/nfl/NFLEntityExtractor.java:195-197 | "", "-", "ten" and "1o" are not scores, and no failure escapes |

## Left out

- The constructor and gazetteer loading (lines 32-36) are file I/O and a stderr print. The gazetteer is a given immutable map, and `NFLGazetteer` is not part of this model.
- `makeAnnotationFromNERTags` (line 41) is inherited from the base extractor. Its output is the parameter `dateMentions`, appended before the count is taken.
- `makeEntityMentionIdentifier` and `makeEntityMention` (lines 177, 179) are outside factories. An identifier is the pair of sentence number and offset. The extent of a new mention is its surface words joined by single blanks.
- Logging calls (`logger.info`, `logger.fine`) have no effect on the result.
- `headedByNN`, `extractNpHeads` and the commented-out code (lines 68-73, 114-144, 154-155, 161-172) are disabled experiments over parse trees. They are not modelled.
- `String.toLowerCase` follows the JVM's default locale. The model assumes a locale that lower-cases `A`-`Z` to `a`-`z`. Under a Turkish or Azeri locale `I` becomes a dotless `ı`, so keys such as "indianapolis colts" would not be matched there; that behaviour is not modelled.
- `Character.isLetter`, `Character.isDigit`, `toLowerCase` and the digit test inside `Integer.valueOf` are read on ASCII only. Non-ASCII letters and digits are not modelled. The `half|quarter` pattern is compiled without Unicode case folding, so `GameTime` itself is exact.
- Heuristics.FindUniqueNerTag: a token without a named-entity tag (a Java `null`) is not modelled; every token carries a string tag.
- Heuristics.IsPotentialScore: its own contract states only the shape of an accepted word. The value side is stated by `ParseDecimal`, `ParseNegativeDecimal` and `DecimalIsScoreIffBelow100`. As in Java, "-0", "+7" and "07" are accepted.
- The in-place update of the sentence's annotation list is modelled as returning a new `Sentence`.
