/**
  `postprocessSentence`: the per-sentence driver. Date mentions from the
  open-domain tagger are added first, the mention count is recorded, the
  spurious mentions are dropped and the gazetteer's team names are appended
  with identifiers numbered from the recorded count.
*/
module Extractor {
  import opened Sentences
  import opened MentionFilter
  import opened GazetteerScan

  /**
    `dateMentions` stands for what the inherited date-run conversion appends
    to the sentence before anything else happens.
  */
  method PostprocessSentence(sentence: Sentence, sentCount: int, gaz: Gazetteer, dateMentions: seq<Mention>)
    returns (processed: Sentence)
    ensures processed.tokens == sentence.tokens
    ensures
      var all := sentence.mentions + dateMentions;
      var clean := RemoveSpuriousMentions(all);
      && |clean| <= |processed.mentions|
      && processed.mentions[..|clean|] == clean
      && (forall k :: |clean| <= k < |processed.mentions| ==>
            && ValidSpan(sentence.tokens, processed.mentions[k].span)
            && processed.mentions[k] == TeamMention(sentence.tokens, processed.mentions[k].span, MentionId(sentCount, |all| + (k - |clean|))))
      && GreedyCover(sentence.tokens, gaz, SpansOf(processed.mentions[|clean|..]))
    ensures forall k :: 0 <= k < |processed.mentions| && processed.mentions[k].kind == TeamType ==>
      LongestAt(sentence.tokens, gaz, processed.mentions[k].span)
    ensures
      var all := sentence.mentions + dateMentions;
      DistinctIds(all) && (forall k :: 0 <= k < |all| ==> all[k].id.offset < |all|) ==>
        DistinctIds(processed.mentions)
  {
    var all := sentence.mentions + dateMentions;
    var origSize := |all|;
    var clean := RemoveSpuriousMentions(all);
    var mentions := AddMissingMentions(sentence.tokens, gaz, clean, sentCount, origSize);
    processed := Sentence(sentence.tokens, mentions);

    assert forall k :: |clean| <= k < |mentions| ==> mentions[k].span == SpansOf(mentions[|clean|..])[k - |clean|];
    assert forall k :: 0 <= k < |clean| ==> mentions[k] == clean[k];
    if DistinctIds(all) && (forall k :: 0 <= k < |all| ==> all[k].id.offset < |all|) {
      FilterKeepsDistinctIds(all);
      forall k | 0 <= k < |clean|
        ensures clean[k].id.offset < origSize
      {
        var i :| 0 <= i < |all| && all[i] == clean[k];
      }
    }
  }

  /** The filter keeps distinct identifiers distinct. */
  lemma {:induction false} FilterKeepsDistinctIds(ms: seq<Mention>)
    requires DistinctIds(ms)
    ensures DistinctIds(RemoveSpuriousMentions(ms))
  {
    FilterIsOrderedSelection(ms);
    var clean := RemoveSpuriousMentions(ms);
    var idx :| SelectedAt(ms, clean, idx);
    forall i, j | 0 <= i < j < |clean|
      ensures clean[i].id != clean[j].id
    {
      assert clean[i] == ms[idx[i]] && clean[j] == ms[idx[j]] && idx[i] < idx[j];
    }
  }
}
