/**
  The second stage of the NFL correction pass (`addMissingMentions`): a
  greedy, leftmost, longest-match scan of the sentence's token windows
  against the team gazetteer, appending one `NFLTeam` mention per match.
*/
module GazetteerScan {
  import opened Text
  import opened Sentences

  /**
    The gazetteer: normalised phrase to entity type, and the longest window
    (in tokens) the scan ever looks up.
  */
  datatype Gazetteer = Gazetteer(entries: map<string, string>, maxLength: nat)

  const TeamType: string := "NFLTeam"

  /** `join`: the lower-cased words of `tokens[start..end]`, separated by single blanks. */
  function Join(tokens: seq<Token>, start: nat, end: nat): string
    requires start <= end <= |tokens|
  {
    JoinWords(LoweredWords(tokens, start, end))
  }

  function LoweredWords(tokens: seq<Token>, start: nat, end: nat): seq<string>
    requires start <= end <= |tokens|
  {
    seq(end - start, k requires 0 <= k < end - start => LowerString(tokens[start + k].word))
  }

  /** For blank-free words, the lookup key of a window determines the window's lower-cased words. */
  lemma JoinDeterminesWords(tokens: seq<Token>, start: nat, end: nat, tokens': seq<Token>, start': nat, end': nat)
    requires start < end <= |tokens| && start' < end' <= |tokens'|
    requires forall i :: 0 <= i < |tokens| ==> ' ' !in tokens[i].word
    requires forall i :: 0 <= i < |tokens'| ==> ' ' !in tokens'[i].word
    requires Join(tokens, start, end) == Join(tokens', start', end')
    ensures end - start == end' - start'
    ensures forall i :: start <= i < end ==> LowerString(tokens[i].word) == LowerString(tokens'[i - start + start'].word)
  {
    var ws := LoweredWords(tokens, start, end);
    var vs := LoweredWords(tokens', start', end');
    forall k | 0 <= k < |ws|
      ensures ' ' !in ws[k]
    {
      LowerKeepsBlanks(tokens[start + k].word);
    }
    forall k | 0 <= k < |vs|
      ensures ' ' !in vs[k]
    {
      LowerKeepsBlanks(tokens'[start' + k].word);
    }
    JoinInjective(ws, vs);
    forall i | start <= i < end
      ensures LowerString(tokens[i].word) == LowerString(tokens'[i - start + start'].word)
    {
      assert ws[i - start] == vs[i - start];
    }
  }

  /** `[start, end)` is a window the scan tries and the gazetteer tags it as a team. */
  ghost predicate IsTeamWindow(tokens: seq<Token>, gaz: Gazetteer, start: int, end: int) {
    && 0 <= start < end <= |tokens|
    && end - start <= gaz.maxLength
    && Join(tokens, start, end) in gaz.entries
    && gaz.entries[Join(tokens, start, end)] == TeamType
  }

  /** No team window starts at `start`. */
  ghost predicate NoTeamAt(tokens: seq<Token>, gaz: Gazetteer, start: int) {
    forall end :: !IsTeamWindow(tokens, gaz, start, end)
  }

  /** `s` is a team window and no longer window from the same start is one. */
  ghost predicate LongestAt(tokens: seq<Token>, gaz: Gazetteer, s: Span) {
    && IsTeamWindow(tokens, gaz, s.start, s.end)
    && forall end :: s.end < end ==> !IsTeamWindow(tokens, gaz, s.start, end)
  }

  /** Each span ends no later than every later span starts. */
  ghost predicate InOrder(spans: seq<Span>) {
    forall k, l :: 0 <= k < l < |spans| ==> spans[k].end <= spans[l].start
  }

  ghost predicate Covered(spans: seq<Span>, i: int) {
    exists k :: 0 <= k < |spans| && spans[k].start <= i < spans[k].end
  }

  /**
    What a greedy leftmost-longest scan leaves behind: longest matches, in
    order and pairwise disjoint, and no team window starting at any token
    outside them.
  */
  ghost predicate GreedyCover(tokens: seq<Token>, gaz: Gazetteer, spans: seq<Span>) {
    && (forall k :: 0 <= k < |spans| ==> LongestAt(tokens, gaz, spans[k]))
    && InOrder(spans)
    && (forall i :: 0 <= i < |tokens| && !Covered(spans, i) ==> NoTeamAt(tokens, gaz, i))
  }

  function Min(a: int, b: int): int {
    if a <= b then a else b
  }

  /**
    The inner loop of `addMissingMentions`: from the longest allowed window
    down to a single token, the first window the gazetteer tags as a team.
    When none is found `end` stops at `start`.
  */
  method LongestTeamWindowAt(tokens: seq<Token>, gaz: Gazetteer, start: nat) returns (found: bool, end: nat)
    requires start < |tokens|
    ensures found ==> LongestAt(tokens, gaz, Span(start, end))
    ensures !found ==> end == start && NoTeamAt(tokens, gaz, start)
  {
    found := false;
    end := Min(start + gaz.maxLength, |tokens|);
    while end > start
      invariant start <= end <= Min(start + gaz.maxLength, |tokens|)
      invariant forall e :: end < e ==> !IsTeamWindow(tokens, gaz, start, e)
    {
      var text := Join(tokens, start, end);
      if text in gaz.entries && gaz.entries[text] == TeamType {
        found := true;
        break;
      }
      end := end - 1;
    }
  }

  /** The mention `addMissingMentions` creates for an accepted window. */
  function TeamMention(tokens: seq<Token>, s: Span, id: MentionId): Mention
    requires s.start <= s.end <= |tokens|
  {
    Mention(TeamType, s, Surface(tokens, s.start, s.end), id)
  }

  /** Accepting the longest window at the cursor keeps the scan's loop invariant. */
  lemma AcceptKeepsCover(tokens: seq<Token>, gaz: Gazetteer, spans: seq<Span>, start: nat, end: nat)
    requires start < end
    requires InOrder(spans)
    requires forall k :: 0 <= k < |spans| ==> spans[k].end <= start
    requires forall i :: 0 <= i < start && !Covered(spans, i) ==> NoTeamAt(tokens, gaz, i)
    ensures InOrder(spans + [Span(start, end)])
    ensures forall i :: 0 <= i < end && !Covered(spans + [Span(start, end)], i) ==> NoTeamAt(tokens, gaz, i)
  {
    var spans' := spans + [Span(start, end)];
    forall i | Covered(spans, i)
      ensures Covered(spans', i)
    {
      var k :| 0 <= k < |spans| && spans[k].start <= i < spans[k].end;
      assert spans'[k] == spans[k];
    }
    forall i | start <= i < end
      ensures Covered(spans', i)
    {
      assert spans'[|spans|] == Span(start, end);
    }
  }

  /**
    `addMissingMentions`: scan every start position left to right, append a
    team mention for the longest team window found there, minting its
    identifier from the running offset, and resume right after that window.
  */
  method AddMissingMentions(tokens: seq<Token>, gaz: Gazetteer, mentions: seq<Mention>, sentCount: int, identifierOffset: int)
    returns (result: seq<Mention>)
    ensures |mentions| <= |result| && result[..|mentions|] == mentions
    ensures forall k :: |mentions| <= k < |result| ==>
      && ValidSpan(tokens, result[k].span)
      && result[k] == TeamMention(tokens, result[k].span, MentionId(sentCount, identifierOffset + k - |mentions|))
    ensures GreedyCover(tokens, gaz, SpansOf(result[|mentions|..]))
    ensures |tokens| == 0 ==> result == mentions
  {
    var added: seq<Mention> := [];
    ghost var spans: seq<Span> := [];
    var offset := identifierOffset;
    var start := 0;
    if PreferTeamsFromGazetteer {
      while start < |tokens|
        invariant 0 <= start <= |tokens|
        invariant offset == identifierOffset + |added|
        invariant |spans| == |added|
        invariant forall k :: 0 <= k < |added| ==>
          && spans[k].start < spans[k].end <= start
          && added[k] == TeamMention(tokens, spans[k], MentionId(sentCount, identifierOffset + k))
        invariant forall k :: 0 <= k < |spans| ==> LongestAt(tokens, gaz, spans[k])
        invariant InOrder(spans)
        invariant forall i :: 0 <= i < start && !Covered(spans, i) ==> NoTeamAt(tokens, gaz, i)
      {
        var found, end := LongestTeamWindowAt(tokens, gaz, start);
        if found {
          var id := MentionId(sentCount, offset);
          offset := offset + 1;
          var m := TeamMention(tokens, Span(start, end), id);
          AcceptKeepsCover(tokens, gaz, spans, start, end);
          spans := spans + [Span(start, end)];
          start := end - 1;
          added := added + [m];
        }
        start := start + 1;
      }
    }
    if |added| > 0 {
      assert spans[0].start < spans[0].end <= |tokens|;
    }
    result := mentions + added;
    assert result[|mentions|..] == added;
    assert SpansOf(added) == spans;
  }

  /** If `a` and `b` agree before position `k`, `a[k]` does not start after `b[k]`. */
  lemma StartNotAfter(tokens: seq<Token>, gaz: Gazetteer, a: seq<Span>, b: seq<Span>, k: nat)
    requires GreedyCover(tokens, gaz, a) && GreedyCover(tokens, gaz, b)
    requires k < |a| && k < |b|
    requires forall j :: 0 <= j < k ==> a[j] == b[j]
    ensures a[k].start <= b[k].start
  {
    var i := b[k].start;
    assert IsTeamWindow(tokens, gaz, i, b[k].end);
    assert Covered(a, i);
    var j :| 0 <= j < |a| && a[j].start <= i < a[j].end;
    assert k <= j;
    assert a[k].start <= a[j].start;
  }

  /** Two greedy covers that agree before position `k` agree at `k`. */
  lemma AgreeAt(tokens: seq<Token>, gaz: Gazetteer, a: seq<Span>, b: seq<Span>, k: nat)
    requires GreedyCover(tokens, gaz, a) && GreedyCover(tokens, gaz, b)
    requires k < |a| && k < |b|
    requires forall j :: 0 <= j < k ==> a[j] == b[j]
    ensures a[k] == b[k]
  {
    StartNotAfter(tokens, gaz, a, b, k);
    StartNotAfter(tokens, gaz, b, a, k);
    assert LongestAt(tokens, gaz, a[k]) && LongestAt(tokens, gaz, b[k]);
  }

  /** A greedy cover that agrees with a longer one on its whole length leaves a team window uncovered. */
  lemma PrefixIsNotCover(tokens: seq<Token>, gaz: Gazetteer, a: seq<Span>, b: seq<Span>)
    requires GreedyCover(tokens, gaz, b)
    requires InOrder(a)
    requires |a| < |b|
    requires forall j :: 0 <= j < |a| ==> a[j] == b[j]
    ensures !GreedyCover(tokens, gaz, a)
  {
    var n := |a|;
    var i := b[n].start;
    assert IsTeamWindow(tokens, gaz, i, b[n].end);
    forall j | 0 <= j < |a|
      ensures !(a[j].start <= i < a[j].end)
    {
      assert b[j].end <= b[n].start;
    }
    assert !Covered(a, i);
  }

  /**
    A sentence has exactly one greedy cover: the declarative description
    pins down the scan's output completely.
  */
  lemma {:induction false} GreedyCoverUnique(tokens: seq<Token>, gaz: Gazetteer, a: seq<Span>, b: seq<Span>)
    requires GreedyCover(tokens, gaz, a) && GreedyCover(tokens, gaz, b)
    ensures a == b
  {
    var k := 0;
    while k < |a| && k < |b|
      invariant 0 <= k <= |a| && k <= |b|
      invariant forall j :: 0 <= j < k ==> a[j] == b[j]
    {
      AgreeAt(tokens, gaz, a, b, k);
      k := k + 1;
    }
    if |a| < |b| {
      PrefixIsNotCover(tokens, gaz, a, b);
    } else if |b| < |a| {
      PrefixIsNotCover(tokens, gaz, b, a);
    }
  }
}
