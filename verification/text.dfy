/**
  Character and string primitives used by the NFL correction pass.

  `Character.isLetter`, `Character.isDigit` and `String.toLowerCase` are read
  on the ASCII range only: letters are `a`-`z` and `A`-`Z`, digits are `0`-`9`,
  and lowering maps `A`-`Z` to `a`-`z` and leaves every other character alone.
*/
module Text {

  predicate IsLetter(c: char) {
    'a' <= c <= 'z' || 'A' <= c <= 'Z'
  }

  predicate IsDigit(c: char) {
    '0' <= c <= '9'
  }

  function Lower(c: char): char {
    if 'A' <= c <= 'Z' then (c as int - 'A' as int + 'a' as int) as char else c
  }

  function LowerString(s: string): string {
    seq(|s|, i requires 0 <= i < |s| => Lower(s[i]))
  }

  /** Lowering never creates nor removes a blank. */
  lemma LowerKeepsBlanks(s: string)
    ensures ' ' in LowerString(s) <==> ' ' in s
  {
    if ' ' in s {
      var i :| 0 <= i < |s| && s[i] == ' ';
      assert LowerString(s)[i] == ' ';
    }
  }

  /** `p` occurs in `t` starting at position `j`. */
  ghost predicate OccursAt(p: string, t: string, j: int) {
    0 <= j && j + |p| <= |t| && t[j..j + |p|] == p
  }

  /** `p` is a substring of `t`. */
  ghost predicate IsInfix(p: string, t: string) {
    exists j :: OccursAt(p, t, j)
  }

  /** The words separated by single blanks, built left to right as a string buffer would. */
  function JoinWords(ws: seq<string>): string
    decreases |ws|
  {
    if |ws| == 0 then ""
    else if |ws| == 1 then ws[0]
    else JoinWords(ws[..|ws| - 1]) + " " + ws[|ws| - 1]
  }

  /** Position of the last blank of `s`, or -1 when there is none. */
  function LastBlank(s: string): (i: int)
    ensures -1 <= i < |s|
    ensures 0 <= i ==> s[i] == ' '
    ensures forall j :: i < j < |s| ==> s[j] != ' '
    decreases |s|
  {
    if |s| == 0 then -1
    else if s[|s| - 1] == ' ' then |s| - 1
    else LastBlank(s[..|s| - 1])
  }

  /** Cuts `s` at every blank: the inverse of `JoinWords` on blank-free words. */
  function SplitOnBlanks(s: string): (ws: seq<string>)
    ensures |ws| >= 1
    decreases |s|
  {
    var i := LastBlank(s);
    if i < 0 then [s] else SplitOnBlanks(s[..i]) + [s[i + 1..]]
  }

  /** A blank with no blank after it is the last blank. */
  lemma LastBlankAt(s: string, k: int)
    requires 0 <= k < |s| && s[k] == ' '
    requires forall j :: k < j < |s| ==> s[j] != ' '
    ensures LastBlank(s) == k
  {
  }

  /** The pieces of `a + " " + b`: `a`, the blank at `|a|`, and `b`. */
  lemma JoinedParts(a: string, b: string)
    ensures (a + " " + b)[..|a|] == a
    ensures (a + " " + b)[|a|] == ' '
    ensures (a + " " + b)[|a| + 1..] == b
    ensures forall j :: |a| < j < |a| + 1 + |b| ==> (a + " " + b)[j] == b[j - |a| - 1]
  {
  }

  /** A blank-free string is one piece. */
  lemma SplitBlankFree(w: string)
    requires ' ' !in w
    ensures SplitOnBlanks(w) == [w]
  {
  }

  /** Splitting `a + " " + b`, with `b` blank-free, splits `a` and then adds `b`. */
  lemma SplitLastPiece(a: string, b: string)
    requires ' ' !in b
    ensures SplitOnBlanks(a + " " + b) == SplitOnBlanks(a) + [b]
  {
    var s := a + " " + b;
    JoinedParts(a, b);
    assert forall j :: 0 <= j < |b| ==> b[j] != ' ';
    LastBlankAt(s, |a|);
  }

  /** Splitting a joined phrase on blanks gives back its words. */
  lemma {:induction false} SplitJoin(ws: seq<string>)
    requires |ws| >= 1
    requires forall k :: 0 <= k < |ws| ==> ' ' !in ws[k]
    ensures SplitOnBlanks(JoinWords(ws)) == ws
    decreases |ws|
  {
    if |ws| == 1 {
      SplitBlankFree(ws[0]);
    } else {
      var init := ws[..|ws| - 1];
      var last := ws[|ws| - 1];
      SplitLastPiece(JoinWords(init), last);
      SplitJoin(init);
      assert init + [last] == ws;
    }
  }

  /** Two joins of blank-free words agree only when the words do. */
  lemma JoinInjective(ws: seq<string>, vs: seq<string>)
    requires |ws| >= 1 && |vs| >= 1
    requires forall k :: 0 <= k < |ws| ==> ' ' !in ws[k]
    requires forall k :: 0 <= k < |vs| ==> ' ' !in vs[k]
    ensures JoinWords(ws) == JoinWords(vs) <==> ws == vs
  {
    SplitJoin(ws);
    SplitJoin(vs);
  }
}
