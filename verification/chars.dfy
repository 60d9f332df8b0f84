/** Character classes and sequence helpers shared by the compiler and the registry. */
module Chars {

  /** ASCII decimal digits (the model's stand-in for `Character.isDigit`). */
  predicate IsDigit(c: char) {
    '0' <= c <= '9'
  }

  /** The two characters a tag value may be quoted with. */
  predicate IsQuote(c: char) {
    c == '\'' || c == '"'
  }

  predicate AllDigits(s: string) {
    forall p :: 0 <= p < |s| ==> IsDigit(s[p])
  }

  function DigitValue(c: char): (d: nat)
    requires IsDigit(c)
    ensures d < 10
  {
    c as int - '0' as int
  }

  /** The decimal value of a run of digits (`Integer.parseInt` without its 32-bit limit). */
  function ParseNat(s: string): nat
    requires AllDigits(s)
    decreases |s|
  {
    if s == [] then 0 else ParseNat(s[..|s| - 1]) * 10 + DigitValue(s[|s| - 1])
  }

  /** The characters of `s` whose mark is true, in order. */
  function Keep(s: string, marks: seq<bool>): (r: string)
    requires |s| == |marks|
    ensures |r| <= |s|
    decreases |s|
  {
    if s == [] then []
    else Keep(s[..|s| - 1], marks[..|s| - 1]) + (if marks[|s| - 1] then [s[|s| - 1]] else [])
  }

  /** How many marks are false. */
  function CountFalse(marks: seq<bool>): nat
    decreases |marks|
  {
    if marks == [] then 0
    else CountFalse(marks[..|marks| - 1]) + (if marks[|marks| - 1] then 0 else 1)
  }

  /** Every character is either kept or counted as dropped. */
  lemma {:induction false} KeepCount(s: string, marks: seq<bool>)
    requires |s| == |marks|
    ensures |Keep(s, marks)| + CountFalse(marks) == |s|
    decreases |s|
  {
    if s != [] {
      KeepCount(s[..|s| - 1], marks[..|s| - 1]);
    }
  }

  /** Every `'` of `s` written twice (the registry's `replaceAll("'", "''")`). */
  function DoubleQuotes(s: string): (r: string)
    decreases |s|
  {
    if s == [] then []
    else (if s[0] == '\'' then "''" else [s[0]]) + DoubleQuotes(s[1..])
  }

  /** Collapses each `''` pair back to one `'`; the inverse of `DoubleQuotes`. */
  function UndoubleQuotes(s: string): string
    decreases |s|
  {
    if |s| >= 2 && s[0] == '\'' && s[1] == '\'' then "'" + UndoubleQuotes(s[2..])
    else if s == [] then []
    else [s[0]] + UndoubleQuotes(s[1..])
  }

  /** How many `'` characters `s` holds. */
  function QuoteCount(s: string): nat
    decreases |s|
  {
    if s == [] then 0 else (if s[0] == '\'' then 1 else 0) + QuoteCount(s[1..])
  }

  /** Doubling is undone by collapsing, grows the text by one per quote, and keeps every
      non-quote character. */
  lemma {:induction false} DoubleQuotesRoundTrip(s: string)
    ensures UndoubleQuotes(DoubleQuotes(s)) == s
    ensures |DoubleQuotes(s)| == |s| + QuoteCount(s)
    ensures '\'' !in s ==> DoubleQuotes(s) == s
    decreases |s|
  {
    if s != [] {
      DoubleQuotesRoundTrip(s[1..]);
      var rest := DoubleQuotes(s[1..]);
      if s[0] == '\'' {
        assert DoubleQuotes(s) == "''" + rest;
        assert ("''" + rest)[2..] == rest;
      } else {
        assert DoubleQuotes(s) == [s[0]] + rest;
        assert ([s[0]] + rest)[1..] == rest;
        assert s[0] in s;
        assert '\'' !in s ==> '\'' !in s[1..] by {
          if '\'' in s[1..] {
            var p :| 0 <= p < |s[1..]| && s[1..][p] == '\'';
            assert s[p + 1] == '\'';
          }
        }
      }
      assert s == [s[0]] + s[1..];
    }
  }
}
