module PowersOfTwo {
  import opened Divisions

  function Pow2(n: nat): (v: nat)
    ensures v >= 1
  {
    if n == 0 then 1 else 2 * Pow2(n - 1)
  }

  lemma {:induction false} Pow2Adds(m: nat, n: nat)
    ensures Pow2(m + n) == Pow2(m) * Pow2(n)
  {
    if m == 0 {
    } else {
      Pow2Adds(m - 1, n);
      assert 2 * (Pow2(m - 1) * Pow2(n)) == (2 * Pow2(m - 1)) * Pow2(n);
    }
  }

  /** Division by a power of two drops the part below it. */
  lemma DropsLow(low: nat, k: nat, high: nat)
    requires low < Pow2(k)
    ensures (low + Pow2(k) * high) / Pow2(k) == high
  {
    DivisionUnique(low + Pow2(k) * high, Pow2(k), high, low);
  }
}
