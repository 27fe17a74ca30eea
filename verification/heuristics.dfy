/**
  Small helpers of the extractor that the shipped pass does not call: they
  served the disabled `NFLGame` heuristics. Each is modelled on its own.
*/
module Heuristics {
  import opened Wrappers
  import opened Text
  import opened Sentences

  /**
    `findUniqueNerTag`: the named-entity tag shared by every token of
    `[start, end)`, or nothing when the range is empty or two tags differ.
  */
  method FindUniqueNerTag(tokens: seq<Token>, start: nat, end: int) returns (tag: Option<string>)
    requires start >= end || end <= |tokens|
    ensures tag.Some? <==> start < end && forall i :: start <= i < end ==> tokens[i].ner == tokens[start].ner
    ensures tag.Some? ==> tag.value == tokens[start].ner
  {
    tag := None;
    var i := start;
    while i < end
      invariant i == start ==> tag == None
      invariant i != start ==>
        && start < i <= end <= |tokens|
        && tag == Some(tokens[start].ner)
        && forall j :: start <= j < i ==> tokens[j].ner == tokens[start].ner
    {
      var ne := tokens[i].ner;
      if tag.None? {
        tag := Some(ne);
      } else if tag.value != ne {
        return None;
      }
      i := i + 1;
    }
  }

  /** `spanIntersects`: some position of `[start, end)` is in `heads`. */
  method SpanIntersects(start: int, end: int, heads: set<int>) returns (r: bool)
    ensures r <==> exists i :: start <= i < end && i in heads
  {
    var i := start;
    while i < end
      invariant start <= i || end <= start
      invariant forall j :: start <= j < i ==> j !in heads
    {
      if i in heads {
        return true;
      }
      i := i + 1;
    }
    return false;
  }

  const IntMin: int := -0x8000_0000
  const IntMax: int := 0x7fff_ffff

  predicate AllDigits(s: string) {
    forall i :: 0 <= i < |s| ==> IsDigit(s[i])
  }

  function DigitValue(c: char): nat
    requires IsDigit(c)
  {
    c as int - '0' as int
  }

  /** The value of a run of decimal digits, most significant first. */
  function DigitsValue(s: string): nat
    requires AllDigits(s)
    decreases |s|
  {
    if |s| == 0 then 0 else DigitsValue(s[..|s| - 1]) * 10 + DigitValue(s[|s| - 1])
  }

  /**
    `Integer.valueOf` as a total function: an optional sign, then at least one
    decimal digit, and a value that fits a 32-bit signed integer; anything else
    is no number at all rather than an exception.
  */
  function ParseInt(s: string): (r: Option<int>)
    ensures r.Some? ==> IntMin <= r.value <= IntMax
  {
    if |s| == 0 then None
    else
      var body := if s[0] == '-' || s[0] == '+' then s[1..] else s;
      if |body| == 0 || !AllDigits(body) then None
      else
        var v: int := if s[0] == '-' then -(DigitsValue(body) as int) else DigitsValue(body);
        if IntMin <= v <= IntMax then Some(v) else None
  }

  /** `isPotentialScore`: the word parses as an integer in `[0, 100)`. */
  function IsPotentialScore(token: Token): (r: bool)
    ensures r ==> |token.word| > 0 && forall i :: 0 < i < |token.word| ==> IsDigit(token.word[i])
  {
    match ParseInt(token.word)
    case Some(v) => 0 <= v < 100
    case None => false
  }

  function DigitChar(d: nat): (c: char)
    requires d < 10
    ensures IsDigit(c) && DigitValue(c) == d
  {
    ('0' as int + d) as char
  }

  /** The decimal numeral of `n`, without sign or leading zeros. */
  function DecimalString(n: nat): (s: string)
    ensures |s| > 0 && AllDigits(s)
    decreases n
  {
    if n < 10 then [DigitChar(n)] else DecimalString(n / 10) + [DigitChar(n % 10)]
  }

  lemma {:induction false} DecimalValue(n: nat)
    ensures DigitsValue(DecimalString(n)) == n
    decreases n
  {
    var s := DecimalString(n);
    if n < 10 {
      assert s[..0] == [];
    } else {
      DecimalValue(n / 10);
      assert s[..|s| - 1] == DecimalString(n / 10);
    }
  }

  /** Parsing a printed non-negative 32-bit value gives the value back. */
  lemma {:induction false} ParseDecimal(n: nat)
    requires n <= IntMax
    ensures ParseInt(DecimalString(n)) == Some(n)
  {
    DecimalValue(n);
  }

  /** Parsing a printed negative 32-bit value, minus sign included, gives the value back. */
  lemma ParseNegativeDecimal(n: nat)
    requires n <= -IntMin
    ensures ParseInt("-" + DecimalString(n)) == Some(-(n as int))
  {
    DecimalValue(n);
    assert ("-" + DecimalString(n))[1..] == DecimalString(n);
  }

  /** A printed non-negative number is a potential score exactly when it is below 100. */
  lemma DecimalIsScoreIffBelow100(n: nat, pos: string, ner: string)
    requires n <= IntMax
    ensures IsPotentialScore(Token(DecimalString(n), pos, ner)) <==> n < 100
  {
    ParseDecimal(n);
  }

  /** Words that are not numerals are not scores, and nothing is thrown. */
  lemma NonNumeralIsNotScore(pos: string, ner: string)
    ensures !IsPotentialScore(Token("", pos, ner))
    ensures !IsPotentialScore(Token("-", pos, ner))
    ensures !IsPotentialScore(Token("ten", pos, ner))
    ensures !IsPotentialScore(Token("1o", pos, ner))
  {
    assert !IsDigit("ten"[0]);
    assert !IsDigit("1o"[1]);
  }
}
