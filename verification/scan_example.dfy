/** The scanner on "the New England Patriots won" with a one-entry gazetteer. */
module ScanExample {
  import opened Text
  import opened Sentences
  import opened GazetteerScan

  function Tok(w: string): Token {
    Token(w, "", "")
  }

  function PatriotsTokens(): seq<Token> {
    [Tok("the"), Tok("New"), Tok("England"), Tok("Patriots"), Tok("won")]
  }

  function PatriotsGazetteer(): Gazetteer {
    Gazetteer(map["new england patriots" := TeamType], 4)
  }

  lemma {:induction false} JoinWordsHead(ws: seq<string>)
    requires |ws| > 0 && |ws[0]| > 0
    ensures |JoinWords(ws)| > 0 && JoinWords(ws)[0] == ws[0][0]
    decreases |ws|
  {
    if |ws| > 1 {
      JoinWordsHead(ws[..|ws| - 1]);
    }
  }

  lemma JoinHead(tokens: seq<Token>, start: nat, end: nat)
    requires start < end <= |tokens| && |tokens[start].word| > 0
    ensures |Join(tokens, start, end)| > 0 && Join(tokens, start, end)[0] == Lower(tokens[start].word[0])
  {
    var ws := LoweredWords(tokens, start, end);
    assert ws[0] == LowerString(tokens[start].word);
    JoinWordsHead(ws);
  }

  lemma PatriotsJoins()
    ensures Join(PatriotsTokens(), 1, 2) == "new"
    ensures Join(PatriotsTokens(), 1, 3) == "new england"
    ensures Join(PatriotsTokens(), 1, 4) == "new england patriots"
    ensures Join(PatriotsTokens(), 1, 5) == "new england patriots won"
  {
    var t := PatriotsTokens();
    assert LowerString("New") == "new";
    assert LowerString("England") == "england";
    assert LowerString("Patriots") == "patriots";
    assert LowerString("won") == "won";
    var w := LoweredWords(t, 1, 5);
    assert w == ["new", "england", "patriots", "won"];
    assert LoweredWords(t, 1, 2) == w[..1];
    assert LoweredWords(t, 1, 3) == w[..2];
    assert LoweredWords(t, 1, 4) == w[..3];
    assert w[..3][..2] == w[..2] && w[..2][..1] == w[..1] && w[..4] == w;
  }

  /** The only accepted window is "New England Patriots", tokens 1 to 4. */
  lemma PatriotsCover()
    ensures GreedyCover(PatriotsTokens(), PatriotsGazetteer(), [Span(1, 4)])
  {
    var t := PatriotsTokens();
    var g := PatriotsGazetteer();
    PatriotsJoins();
    forall start, end | start != 1 || end != 4
      ensures !IsTeamWindow(t, g, start, end)
    {
      if 0 <= start < end <= |t| && start != 1 {
        JoinHead(t, start, end);
        assert t[start].word[0] != 'N';
      }
    }
    var cover := [Span(1, 4)];
    forall i | 1 <= i < 4
      ensures Covered(cover, i)
    {
      assert cover[0].start <= i < cover[0].end;
    }
    forall i | 0 <= i < |t| && i != 1
      ensures NoTeamAt(t, g, i)
    {
    }
  }

  /** Whatever the scan appends for this sentence spans exactly tokens 1 to 4. */
  lemma PatriotsScan(spans: seq<Span>)
    requires GreedyCover(PatriotsTokens(), PatriotsGazetteer(), spans)
    ensures spans == [Span(1, 4)]
  {
    PatriotsCover();
    GreedyCoverUnique(PatriotsTokens(), PatriotsGazetteer(), spans, [Span(1, 4)]);
  }

  /** With windows of at most two tokens the three-word team name is never looked up, so nothing is appended. */
  lemma ShortWindowsMissPatriots(spans: seq<Span>)
    requires GreedyCover(PatriotsTokens(), PatriotsGazetteer().(maxLength := 2), spans)
    ensures spans == []
  {
    var t := PatriotsTokens();
    var g := PatriotsGazetteer().(maxLength := 2);
    PatriotsJoins();
    forall start, end
      ensures !IsTeamWindow(t, g, start, end)
    {
      if 0 <= start < end <= |t| && start != 1 {
        JoinHead(t, start, end);
        assert t[start].word[0] != 'N';
      }
    }
    assert GreedyCover(t, g, []);
    GreedyCoverUnique(t, g, spans, []);
  }
}
