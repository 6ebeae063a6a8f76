/** Decimal numerals: printing, reading, and that the two undo each other. */
module Decimal {
  import opened Text

  function DigitValue(c: char): (d: nat)
    requires IsDigit(c)
    ensures d < 10
  {
    c as int - '0' as int
  }

  /** The number a string of digits denotes; leading zeros are allowed and "" denotes 0. */
  function Value(s: string): nat
    requires AllDigits(s)
  {
    if s == "" then 0 else Value(s[..|s| - 1]) * 10 + DigitValue(s[|s| - 1])
  }

  function Print(n: nat): string {
    (if n < 10 then "" else Print(n / 10)) + [('0' as int + n % 10) as char]
  }

  /** What readers of numerals call a numeral without superfluous zeros. */
  predicate Canonical(s: string) {
    s != "" && AllDigits(s) && (s[0] == '0' ==> |s| == 1)
  }

  lemma {:induction false} PrintIsCanonical(n: nat)
    ensures Canonical(Print(n)) && Value(Print(n)) == n
    ensures Print(n)[0] == '0' <==> n == 0
  {
    if n >= 10 {
      PrintIsCanonical(n / 10);
      assert Print(n)[..|Print(n)| - 1] == Print(n / 10);
    }
  }

  lemma {:induction false} ValuePrints(s: string)
    requires Canonical(s)
    ensures Print(Value(s)) == s
  {
    var t := s[..|s| - 1];
    assert s == t + [s[|s| - 1]];
    if t != "" {
      ValuePrints(t);
      PrintIsCanonical(Value(t));
    }
  }
}
