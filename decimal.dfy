/**
 * Decimal rendering of natural numbers, as Python's f-string `f'{n}'` does it,
 * and the labels `app_<n>` / `fun_<n>` built from it.
 */
module Decimal {

  predicate IsDigit(c: char) {
    '0' <= c <= '9'
  }

  predicate AllDigits(s: string) {
    forall i :: 0 <= i < |s| ==> IsDigit(s[i])
  }

  function Digit(d: nat): (c: char)
    requires d < 10
    ensures IsDigit(c)
  {
    (48 + d) as char
  }

  function DigitValue(c: char): (d: nat)
    requires IsDigit(c)
    ensures d < 10
  {
    c as int - 48
  }

  /** Shortest decimal representation of n: no sign, no leading zero. */
  function NatToString(n: nat): (s: string)
    ensures |s| > 0 && AllDigits(s)
    ensures |s| > 1 ==> s[0] != '0'
  {
    if n < 10 then [Digit(n)] else NatToString(n / 10) + [Digit(n % 10)]
  }

  /** Reads a string of decimal digits back as a number. */
  function ParseNat(s: string): nat
    requires AllDigits(s)
  {
    if |s| == 0 then 0 else ParseNat(s[..|s| - 1]) * 10 + DigitValue(s[|s| - 1])
  }

  lemma {:induction false} ParseNatToString(n: nat)
    ensures ParseNat(NatToString(n)) == n
  {
    if n >= 10 {
      var s := NatToString(n);
      assert s[..|s| - 1] == NatToString(n / 10);
      ParseNatToString(n / 10);
    }
  }

  lemma NatToStringInjective(a: nat, b: nat)
    ensures NatToString(a) == NatToString(b) ==> a == b
  {
    ParseNatToString(a);
    ParseNatToString(b);
  }

  /** `prefix` followed by the decimal form of n, e.g. Label("app_", 3) is "app_3". */
  function Label(prefix: string, n: nat): (s: string)
    ensures |s| > |prefix| && s[..|prefix|] == prefix
    ensures AllDigits(s[|prefix|..]) && ParseNat(s[|prefix|..]) == n
  {
    ParseNatToString(n);
    assert (prefix + NatToString(n))[|prefix|..] == NatToString(n);
    prefix + NatToString(n)
  }

  /** Two labels with the same prefix are equal only for the same number. */
  lemma LabelInjective(prefix: string, a: nat, b: nat)
    ensures Label(prefix, a) == Label(prefix, b) ==> a == b
  {
    if Label(prefix, a) == Label(prefix, b) {
      assert NatToString(a) == Label(prefix, a)[|prefix|..];
      assert NatToString(b) == Label(prefix, b)[|prefix|..];
      NatToStringInjective(a, b);
    }
  }
}
