// Decimal texts of integers, as `str` writes them.

module Decimals {
  import opened Wrappers

  function Digit(d: nat): char
    requires d < 10
  {
    "0123456789"[d]
  }

  predicate IsDigit(c: char) { '0' <= c <= '9' }

  function Text(n: nat): (text: string)
    ensures text != [] && forall c | c in text :: IsDigit(c)
  {
    if n < 10 then [Digit(n)] else Text(n / 10) + [Digit(n % 10)]
  }

  function IntegerText(i: int): string {
    if i < 0 then "-" + Text(-i) else Text(i)
  }

  function DigitValue(c: char): nat
    requires IsDigit(c)
  {
    c as int - '0' as int
  }

  // The value of a text, if it is one that `Text` gives.
  function Value(text: string): nat
    requires forall c | c in text :: IsDigit(c)
  {
    if text == [] then 0 else 10 * Value(text[..|text| - 1]) + DigitValue(text[|text| - 1])
  }

  lemma DigitRoundTrip(d: nat)
    requires d < 10
    ensures DigitValue(Digit(d)) == d
  {}

  lemma {:induction false} ValueOfText(n: nat)
    ensures Value(Text(n)) == n
  {
    if n < 10 {
      DigitRoundTrip(n);
      assert Text(n)[..0] == [];
    } else {
      ValueOfText(n / 10);
      DigitRoundTrip(n % 10);
      assert Text(n)[..|Text(n)| - 1] == Text(n / 10);
    }
  }

  lemma TextIsInjective(m: nat, n: nat)
    requires Text(m) == Text(n)
    ensures m == n
  {
    ValueOfText(m);
    ValueOfText(n);
  }

  function Power(k: nat): nat {
    if k == 0 then 1 else 10 * Power(k - 1)
  }

  // A number needs no more digits than the exponent exactly when it is below that power of ten.
  lemma {:induction false} TextLengthExact(n: nat, k: nat)
    requires k > 0
    ensures |Text(n)| <= k <==> n < Power(k)
  {
    assert Power(1) == 10;
    if n >= 10 {
      if k == 1 { assert |Text(n / 10)| >= 1; } else { TextLengthExact(n / 10, k - 1); }
    } else if k > 1 {
      PowersGrow(1, k);
    }
  }

  lemma {:induction false} PowersGrow(j: nat, k: nat)
    requires j <= k
    ensures Power(j) <= Power(k)
    decreases k
  {
    if j < k { PowersGrow(j, k - 1); }
  }

  // What `str` and JSON write of an integer: the interpreter refuses more digits than its limit.
  function Written(n: nat, limit: nat): Result<string> {
    if |Text(n)| <= limit then Ok(Text(n)) else Raised
  }
}
