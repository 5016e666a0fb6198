/** Decimal numerals. */
module Decimal {
  import opened Text

  /** The number a digit string denotes. */
  function Value(s: string): nat
    requires All(Digit, s)
  {
    if s == "" then 0
    else Value(s[..|s| - 1]) * 10 + (s[|s| - 1] as int - '0' as int)
  }

  function Numeral(n: nat): (c: char)
    requires n < 10
    ensures Is(Digit, c) && c as int - '0' as int == n
  {
    ('0' as int + n) as char
  }

  /** The numeral of a number, without leading zeros. */
  function Print(n: nat): string {
    if n < 10 then [Numeral(n)] else Print(n / 10) + [Numeral(n % 10)]
  }

  lemma {:induction false} PrintIsRead(n: nat)
    ensures All(Digit, Print(n)) && Value(Print(n)) == n
  {
    if n >= 10 {
      var s := Print(n);
      PrintIsRead(n / 10);
      assert s[..|s| - 1] == Print(n / 10);
    } else {
      assert Print(n)[..0] == "";
    }
  }

  lemma {:induction false} PrintHasNoLeadingZero(n: nat)
    ensures Print(n) != "" && (n > 0 ==> '1' <= Print(n)[0] <= '9')
  {
    if n >= 10 {
      PrintHasNoLeadingZero(n / 10);
      assert Print(n)[0] == Print(n / 10)[0];
    }
  }

  /** A numeral without a leading zero denotes a positive number. */
  lemma {:induction false} PositiveValue(s: string)
    requires All(Digit, s) && s != "" && s[0] != '0'
    ensures Value(s) > 0
  {
    var front := s[..|s| - 1];
    if front == "" {
      assert Value(front) == 0;
    } else {
      assert front[0] == s[0];
      PositiveValue(front);
    }
  }
}
