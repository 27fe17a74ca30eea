/**
  The first stage of the NFL correction pass: dropping mentions the upstream
  taggers are known to get wrong (`removeSpuriousMentions`, with the tests
  `gameTime` and `invalidDate`).
*/
module MentionFilter {
  import opened Text
  import opened Sentences

  /** "half" or "quarter" is a substring of `s`, ignoring ASCII case. */
  ghost predicate NamesGameTime(s: string) {
    IsInfix("half", LowerString(s)) || IsInfix("quarter", LowerString(s))
  }

  /** `p`, a lower-case pattern, matches `s` at `j` when compared case-insensitively. */
  predicate MatchesAt(s: string, j: nat, p: string) {
    j + |p| <= |s| && forall k :: 0 <= k < |p| ==> Lower(s[j + k]) == p[k]
  }

  lemma MatchesAtIsOccurrence(s: string, j: nat, p: string)
    ensures MatchesAt(s, j, p) <==> OccursAt(p, LowerString(s), j)
  {
  }

  /** The matcher's `find` for `half|quarter`, trying every start from `j` on. */
  function FindGameTimeFrom(s: string, j: nat): (found: bool)
    requires j <= |s|
    ensures found <==> exists i :: j <= i && (OccursAt("half", LowerString(s), i) || OccursAt("quarter", LowerString(s), i))
    decreases |s| - j
  {
    MatchesAtIsOccurrence(s, j, "half");
    MatchesAtIsOccurrence(s, j, "quarter");
    if j == |s| then false
    else MatchesAt(s, j, "half") || MatchesAt(s, j, "quarter") || FindGameTimeFrom(s, j + 1)
  }

  /** `gameTime`: the extent mentions a half or a quarter of the game. */
  function GameTime(s: string): (r: bool)
    ensures r <==> NamesGameTime(s)
  {
    FindGameTimeFrom(s, 0)
  }

  /** Letter and digit counts; a character that is a letter is not also counted as a digit. */
  datatype Tally = Tally(letters: nat, digits: nat)

  ghost predicate HasTwoDigits(s: string) {
    exists i, j :: 0 <= i < j < |s| && IsDigit(s[i]) && IsDigit(s[j])
  }

  /** The counting loop of `invalidDate`, one character at a time from the left. */
  function CountChars(s: string): (t: Tally)
    ensures t.letters == 0 <==> forall i :: 0 <= i < |s| ==> !IsLetter(s[i])
    ensures t.digits == 0 <==> forall i :: 0 <= i < |s| ==> !IsDigit(s[i])
    ensures t.digits >= 2 <==> HasTwoDigits(s)
    decreases |s|
  {
    if |s| == 0 then Tally(0, 0)
    else
      var init := s[..|s| - 1];
      var c := s[|s| - 1];
      var t := CountChars(init);
      assert forall i :: 0 <= i < |s| - 1 ==> s[i] == init[i];
      assert HasTwoDigits(init) ==> HasTwoDigits(s);
      if IsLetter(c) then
        Tally(t.letters + 1, t.digits)
      else if IsDigit(c) then
        assert t.digits >= 1 ==> HasTwoDigits(s);
        Tally(t.letters, t.digits + 1)
      else
        Tally(t.letters, t.digits)
  }

  /** `invalidDate`: no letter at all and fewer than two digits. */
  function InvalidDate(s: string): (r: bool)
    ensures r <==> (forall i :: 0 <= i < |s| ==> !IsLetter(s[i])) && !HasTwoDigits(s)
  {
    var t := CountChars(s);
    t.letters == 0 && t.digits < 2
  }

  /** The three removal rules of `removeSpuriousMentions`, in the order they are tried. */
  predicate Spurious(m: Mention) {
    || (m.kind == "Date" && GameTime(m.extent))
    || (m.kind == "Date" && InvalidDate(m.extent))
    || (PreferTeamsFromGazetteer && m.kind == "NFLTeam")
  }

  /** `removeSpuriousMentions`: the clean list, built by appending every kept mention in turn. */
  function RemoveSpuriousMentions(ms: seq<Mention>): (clean: seq<Mention>)
    ensures |clean| <= |ms|
    ensures forall k :: 0 <= k < |clean| ==> clean[k] in ms && !Spurious(clean[k])
    ensures forall i :: 0 <= i < |ms| && !Spurious(ms[i]) ==> ms[i] in clean
    decreases |ms|
  {
    if |ms| == 0 then []
    else
      var init := ms[..|ms| - 1];
      var m := ms[|ms| - 1];
      var prefix := RemoveSpuriousMentions(init);
      assert forall i :: 0 <= i < |ms| - 1 ==> ms[i] == init[i];
      if Spurious(m) then prefix else prefix + [m]
  }

  /** `ys` is `xs` read at the strictly increasing positions `idx`. */
  ghost predicate SelectedAt<T>(xs: seq<T>, ys: seq<T>, idx: seq<int>) {
    && |idx| == |ys|
    && (forall k :: 0 <= k < |idx| ==> 0 <= idx[k] < |xs| && ys[k] == xs[idx[k]])
    && (forall k, l :: 0 <= k < l < |idx| ==> idx[k] < idx[l])
  }

  /** The positions of `ms` a mention is kept from, in increasing order. */
  ghost function KeptPositions(ms: seq<Mention>): (idx: seq<int>)
    decreases |ms|
  {
    if |ms| == 0 then []
    else if Spurious(ms[|ms| - 1]) then KeptPositions(ms[..|ms| - 1])
    else KeptPositions(ms[..|ms| - 1]) + [|ms| - 1]
  }

  lemma SelectionGrows<T>(xs: seq<T>, ys: seq<T>, idx: seq<int>, x: T)
    requires SelectedAt(xs, ys, idx)
    ensures SelectedAt(xs + [x], ys, idx)
    ensures SelectedAt(xs + [x], ys + [x], idx + [|xs|])
  {
  }

  lemma {:induction false} KeptPositionsSelect(ms: seq<Mention>)
    ensures SelectedAt(ms, RemoveSpuriousMentions(ms), KeptPositions(ms))
    ensures forall i :: 0 <= i < |ms| ==> (i in KeptPositions(ms) <==> !Spurious(ms[i]))
    decreases |ms|
  {
    if |ms| > 0 {
      var init := ms[..|ms| - 1];
      var last := ms[|ms| - 1];
      assert ms == init + [last];
      KeptPositionsSelect(init);
      SelectionGrows(init, RemoveSpuriousMentions(init), KeptPositions(init), last);
      assert forall i :: 0 <= i < |ms| - 1 ==> ms[i] == init[i];
      assert |ms| - 1 !in KeptPositions(init);
    }
  }

  /**
    The filter keeps exactly the mentions no rule removes, unchanged and in
    their input order.
  */
  lemma FilterIsOrderedSelection(ms: seq<Mention>)
    ensures exists idx ::
      && SelectedAt(ms, RemoveSpuriousMentions(ms), idx)
      && forall i :: 0 <= i < |ms| ==> (i in idx <==> !Spurious(ms[i]))
  {
    KeptPositionsSelect(ms);
  }

  /** A list without spurious mentions passes through untouched. */
  lemma {:induction false} CleanListIsFixpoint(ms: seq<Mention>)
    requires forall i :: 0 <= i < |ms| ==> !Spurious(ms[i])
    ensures RemoveSpuriousMentions(ms) == ms
    decreases |ms|
  {
    if |ms| > 0 {
      var init := ms[..|ms| - 1];
      CleanListIsFixpoint(init);
      assert init + [ms[|ms| - 1]] == ms;
    }
  }

  /** Filtering twice removes nothing more than filtering once. */
  lemma {:induction false} FilterIdempotent(ms: seq<Mention>)
    ensures RemoveSpuriousMentions(RemoveSpuriousMentions(ms)) == RemoveSpuriousMentions(ms)
  {
    CleanListIsFixpoint(RemoveSpuriousMentions(ms));
  }

  lemma AbsentHeadNoInfix(p: string, t: string)
    requires |p| > 0 && p[0] !in t
    ensures !IsInfix(p, t)
  {
  }

  /** "the second half" is a game time, so as a date it is removed. */
  lemma GameTimeDateRemoved(sp: Span, id: MentionId)
    ensures Spurious(Mention("Date", sp, "the second half", id))
  {
    var half := "the second half";
    assert LowerString(half)[11..15] == "half";
    assert OccursAt("half", LowerString(half), 11);
  }

  /** "' 1" and "" have no letter and fewer than two digits, so as dates they are removed. */
  lemma WeakDatesRemoved(sp: Span, id: MentionId)
    ensures Spurious(Mention("Date", sp, "' 1", id))
    ensures Spurious(Mention("Date", sp, "", id))
  {
    assert !HasTwoDigits("' 1");
  }

  /** "January 5" has letters and names no game time, so as a date it is kept. */
  lemma ProperDateKept(sp: Span, id: MentionId)
    ensures !Spurious(Mention("Date", sp, "January 5", id))
  {
    var jan := "January 5";
    assert IsLetter(jan[0]);
    assert LowerString(jan) == "january 5";
    AbsentHeadNoInfix("half", LowerString(jan));
    AbsentHeadNoInfix("quarter", LowerString(jan));
  }

  /** "12" has two digits, so as a date it is kept. */
  lemma TwoDigitDateKept(sp: Span, id: MentionId)
    ensures !Spurious(Mention("Date", sp, "12", id))
  {
    var d := "12";
    assert IsDigit(d[0]) && IsDigit(d[1]);
    assert LowerString(d) == "12";
    AbsentHeadNoInfix("half", LowerString(d));
    AbsentHeadNoInfix("quarter", LowerString(d));
  }
}
