/** Decimal text of integers, as the string conversion prints it. */
module Decimal {

  function Digit(d: int): (c: char)
    requires 0 <= d < 10
    ensures '0' <= c <= '9'
  {
    ('0' as int + d) as char
  }

  function DigitValue(c: char): int {
    c as int - '0' as int
  }

  function DecNat(n: nat): (s: string)
    ensures |s| > 0
    ensures forall i :: 0 <= i < |s| ==> '0' <= s[i] <= '9'
  {
    if n < 10 then [Digit(n)] else DecNat(n / 10) + [Digit(n % 10)]
  }

  function Dec(n: int): (s: string)
    ensures |s| > 0
    ensures forall i :: 0 <= i < |s| ==> '0' <= s[i] <= '9' || s[i] == '-'
  {
    if n < 0 then "-" + DecNat(-n) else DecNat(n)
  }

  function Value(s: string): int {
    if s == "" then 0 else 10 * Value(s[..|s| - 1]) + DigitValue(s[|s| - 1])
  }

  // appending a digit to a positive number
  lemma AppendDigit(n: nat, d: nat)
    requires n > 0 && d < 10
    ensures DecNat(10 * n + d) == DecNat(n) + [Digit(d)]
  {
    assert (10 * n + d) / 10 == n && (10 * n + d) % 10 == d;
  }

  // no leading zero, and one digit exactly below ten
  lemma {:induction false} LeadingDigit(n: nat)
    ensures n > 0 ==> DecNat(n)[0] != '0'
    ensures |DecNat(n)| == 1 <==> n < 10
  {
    if n >= 10 {
      LeadingDigit(n / 10);
      assert DecNat(n)[0] == DecNat(n / 10)[0];
    }
  }

  lemma {:induction false} ValueDecNat(n: nat)
    ensures Value(DecNat(n)) == n
  {
    if n < 10 {
      assert DecNat(n)[..0] == "";
    } else {
      ValueDecNat(n / 10);
      assert DecNat(n)[..|DecNat(n)| - 1] == DecNat(n / 10);
    }
  }

  lemma DecNatInjective(m: nat, n: nat)
    requires DecNat(m) == DecNat(n)
    ensures m == n
  {
    ValueDecNat(m);
    ValueDecNat(n);
  }

  lemma DecInjective(a: int, b: int)
    requires Dec(a) == Dec(b)
    ensures a == b
  {
    assert Dec(a)[0] == '-' <==> a < 0;
    assert Dec(b)[0] == '-' <==> b < 0;
    if a < 0 {
      assert Dec(a)[1..] == DecNat(-a) && Dec(b)[1..] == DecNat(-b);
      DecNatInjective(-a, -b);
    } else { DecNatInjective(a, b); }
  }

  // the text denotes n: a minus sign exactly for negative numbers, then digits
  predicate Denotes(s: string, n: int) {
    if n < 0 then s != "" && s[0] == '-' && Unsigned(s[1..], -n) else Unsigned(s, n)
  }

  // digits without a superfluous zero in front, worth n
  predicate Unsigned(s: string, n: int) {
    && s != "" && (forall i :: 0 <= i < |s| ==> '0' <= s[i] <= '9')
    && (s[0] == '0' ==> |s| == 1) && Value(s) == n
  }

  /** The decimal text of an integer denotes it. */
  lemma DecDenotes(n: int)
    ensures Denotes(Dec(n), n)
  {
    var m := if n < 0 then -n else n;
    ValueDecNat(m);
    LeadingDigit(m);
    assert ("-" + DecNat(m))[1..] == DecNat(m);
  }
}
