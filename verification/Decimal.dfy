/** Decimal text of integers, as std::to_string prints it and std::stoul reads it. */
module Decimal {

  predicate IsDigit(c: char) { '0' <= c <= '9' }

  predicate AllDigits(s: string) { forall i :: 0 <= i < |s| ==> IsDigit(s[i]) }

  function DigitChar(d: nat): char
    requires d < 10
  {
    '0' + d as char
  }

  function NatText(n: nat): string {
    if n < 10 then [DigitChar(n)] else NatText(n / 10) + [DigitChar(n % 10)]
  }

  function IntText(n: int): string {
    if n < 0 then "-" + NatText(-n) else NatText(n)
  }

  /** The number a digit string denotes, most significant digit first. */
  function DigitsValue(s: string): nat
    requires AllDigits(s)
  {
    if s == [] then 0 else 10 * DigitsValue(s[..|s| - 1]) + (s[|s| - 1] - '0') as nat
  }

  /** Printing a natural number gives digits, no leading zero, and reads back as the number. */
  lemma {:induction false} NatTextReadsBack(n: nat)
    ensures AllDigits(NatText(n)) && NatText(n) != [] && DigitsValue(NatText(n)) == n
    ensures NatText(n)[0] == '0' ==> n == 0 && NatText(n) == "0"
  {
    if n >= 10 {
      NatTextReadsBack(n / 10);
      assert NatText(n)[..|NatText(n)| - 1] == NatText(n / 10);
    }
  }

  /** Base ten, most significant digit first: a further digit multiplies what stands before it by ten. */
  lemma DigitsAppend(s: string, d: nat)
    requires AllDigits(s) && d < 10
    ensures AllDigits(s + ['0' + d as char]) && DigitsValue(s + ['0' + d as char]) == 10 * DigitsValue(s) + d
    ensures DigitsValue("") == 0
  {
    var t := s + ['0' + d as char];
    assert t[..|t| - 1] == s && t[|t| - 1] == '0' + d as char;
  }

  /** Zeros in front change nothing. */
  lemma {:induction false} LeadingZero(s: string)
    requires AllDigits(s)
    ensures AllDigits("0" + s) && DigitsValue("0" + s) == DigitsValue(s)
  {
    var t := "0" + s;
    if s == "" {
      assert t[..|t| - 1] == "";
    } else {
      assert t[..|t| - 1] == "0" + s[..|s| - 1];
      LeadingZero(s[..|s| - 1]);
    }
  }
}
