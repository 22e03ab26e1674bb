/** Unsigned decimal numbers as the host language prints and parses them. */
module Decimal {
  import opened Wrappers

  predicate IsDigit(c: char) {
    '0' <= c <= '9'
  }

  function Value(c: char): nat
    requires IsDigit(c)
  {
    c as int - '0' as int
  }

  function Digit(d: nat): (c: char)
    requires d < 10
    ensures IsDigit(c) && Value(c) == d
  {
    ('0' as int + d) as char
  }

  predicate AllDigits(s: string) {
    forall i | 0 <= i < |s| :: IsDigit(s[i])
  }

  /** The shortest decimal form. */
  function Print(n: nat): (s: string)
    ensures s != [] && AllDigits(s)
  {
    if n < 10 then [Digit(n)] else Print(n / 10) + [Digit(n % 10)]
  }

  function Number(s: string): nat
    requires AllDigits(s)
  {
    if s == [] then 0 else 10 * Number(s[..|s| - 1]) + Value(s[|s| - 1])
  }

  /** One leading plus sign and any number of leading zeros are accepted. */
  function Parse(s: string, max: nat): Option<nat> {
    var digits := if s != [] && s[0] == '+' then s[1..] else s;
    if digits == [] || !AllDigits(digits) || Number(digits) > max then None else Some(Number(digits))
  }

  lemma {:induction false} NumberOfPrint(n: nat)
    ensures Number(Print(n)) == n
  {
    if n >= 10 {
      NumberOfPrint(n / 10);
      assert Print(n)[..|Print(n)| - 1] == Print(n / 10);
    }
  }

  lemma ParseOfPrint(n: nat, max: nat)
    ensures Parse(Print(n), max) == if n <= max then Some(n) else None
  {
    NumberOfPrint(n);
    assert IsDigit(Print(n)[0]);
  }

  /** Two numbers with one decimal form are equal. */
  lemma PrintInjective(m: nat, n: nat)
    requires Print(m) == Print(n)
    ensures m == n
  {
    NumberOfPrint(m);
    NumberOfPrint(n);
  }

  /** A form that prints as itself: digits only, and no leading zero but in "0". */
  predicate Canonical(s: string) {
    s != [] && AllDigits(s) && (s[0] == '0' ==> |s| == 1)
  }

  lemma {:induction false} CanonicalPrints(s: string)
    requires Canonical(s)
    ensures Print(Number(s)) == s
    ensures |s| > 1 ==> Number(s) >= 10
  {
    if |s| == 1 {
      assert s[..0] == [];
      DigitOfValue(s[0]);
    } else {
      var rest := s[..|s| - 1];
      CanonicalPrints(rest);
      LeadingPositive(rest);
      DigitOfValue(s[|s| - 1]);
      assert Number(s) / 10 == Number(rest) && Number(s) % 10 == Value(s[|s| - 1]);
    }
  }

  lemma DigitOfValue(c: char)
    requires IsDigit(c)
    ensures Digit(Value(c)) == c
  {
  }

  lemma {:induction false} LeadingPositive(s: string)
    requires s != [] && AllDigits(s) && s[0] != '0'
    ensures Number(s) > 0
  {
    if |s| == 1 {
      assert Number(s[..0]) == 0;
    } else {
      LeadingPositive(s[..|s| - 1]);
    }
  }

  lemma {:induction false} PrintIsCanonical(n: nat)
    ensures Canonical(Print(n)) && (n > 0 ==> Print(n)[0] != '0')
  {
    if n >= 10 {
      PrintIsCanonical(n / 10);
    }
  }

  /** An accepted form prints back as itself exactly when it is canonical. */
  lemma PrintsBackExactly(s: string, max: nat)
    requires Parse(s, max).Some?
    ensures Print(Parse(s, max).value) == s <==> Canonical(s)
  {
    PrintIsCanonical(Parse(s, max).value);
    if Canonical(s) {
      CanonicalPrints(s);
    }
  }
}
