/** Quotients and remainders by a divisor that is not a literal. */
module Division {

  lemma Unique(divisor: nat, a: nat, r: nat, b: nat, s: nat)
    requires r < divisor && s < divisor && a * divisor + r == b * divisor + s
    ensures a == b && r == s
  {
    assert a < b ==> (a + 1) * divisor <= b * divisor;
    assert b < a ==> (b + 1) * divisor <= a * divisor;
  }

  lemma Divided(quotient: nat, divisor: nat, remainder: nat)
    requires remainder < divisor
    ensures (quotient * divisor + remainder) / divisor == quotient
    ensures (quotient * divisor + remainder) % divisor == remainder
  {
    var n := quotient * divisor + remainder;
    Unique(divisor, quotient, remainder, n / divisor, n % divisor);
  }

  lemma AtLeastOne(a: nat, n: nat)
    requires 0 < n && a % n == 0 && a > 0
    ensures a >= n
  {
  }
}
