/** Quotient and remainder of natural numbers are determined by their sum. */
module Divisions {

  lemma DivisionUnique(n: nat, d: nat, q: nat, r: nat)
    requires d > 0 && n == r + d * q && r < d
    ensures n / d == q && n % d == r
  {
    var e := n / d - q;
    assert d * e == r - n % d && d * -e == n % d - r;
    if e > 0 {
      AtLeastFactor(d, e);
    } else if e < 0 {
      AtLeastFactor(d, -e);
    }
  }

  lemma AtLeastFactor(d: nat, e: nat)
    requires e > 0
    ensures d * e >= d
  {
  }
}
