/** Fractions as numbers: when two of them are equal, what a normal form is, and why the
    library's shortcuts around large gcds still arrive at one.
  */
module Ratios {
  import opened NumberTheory

  /** The number that numerator `n` and denominator `d` stand for. */
  function Ratio(n: int, d: int): (x: real)
    requires d != 0
  {
    n as real / d as real
  }

  ghost predicate Normalized(n: int, d: int) {
    d > 0 && Coprime(n, d)
  }

  lemma RatioTimes(n: int, d: int)
    requires d != 0
    ensures Ratio(n, d) * d as real == n as real
  {
  }

  lemma RatioIs(n: int, d: int, x: real)
    requires d != 0 && x * d as real == n as real
    ensures Ratio(n, d) == x
  {
  }

  lemma RatioEqual(n: int, d: int, p: int, q: int)
    requires d != 0 && q != 0
    ensures Ratio(n, d) == Ratio(p, q) <==> n * q == p * d
  {
    var x, y := Ratio(n, d), Ratio(p, q);
    RatioTimes(n, d);
    RatioTimes(p, q);
    assert (n * q) as real == (x * d as real) * q as real;
    assert (p * d) as real == (y * q as real) * d as real;
    var w := d as real * q as real;
    assert (n * q) as real == x * w;
    assert (p * d) as real == y * w;
    if n * q == p * d {
      assert (x - y) * w == 0.0;
    }
  }

  lemma RatioLess(n: int, d: int, p: int, q: int)
    requires d > 0 && q > 0
    ensures Ratio(n, d) < Ratio(p, q) <==> n * q < p * d
  {
    var x, y := Ratio(n, d), Ratio(p, q);
    RatioTimes(n, d);
    RatioTimes(p, q);
    var w := d as real * q as real;
    assert w > 0.0;
    assert (n * q) as real == (x * d as real) * q as real == x * w;
    assert (p * d) as real == (y * q as real) * d as real == y * w;
    if x < y { ScaleLess(x, y, w); }
    if y <= x { ScaleLessOrEqual(y, x, w); }
  }

  lemma ScaleLess(x: real, y: real, w: real)
    requires x < y && w > 0.0
    ensures x * w < y * w
  {
  }

  lemma ScaleLessOrEqual(x: real, y: real, w: real)
    requires x <= y && w > 0.0
    ensures x * w <= y * w
  {
  }

  lemma RatioSum(a: int, b: int, c: int, d: int)
    requires b != 0 && d != 0
    ensures b * d != 0 && Ratio(a * d + c * b, b * d) == Ratio(a, b) + Ratio(c, d)
  {
    var x, y := Ratio(a, b), Ratio(c, d);
    RatioTimes(a, b);
    RatioTimes(c, d);
    assert (a * d) as real == (x * b as real) * d as real == x * (b as real * d as real);
    assert (c * b) as real == (y * d as real) * b as real == y * (b as real * d as real);
    var w := b as real * d as real;
    assert (b * d) as real == w;
    assert (x + y) * w == x * w + y * w;
    RatioIs(a * d + c * b, b * d, x + y);
  }

  lemma RatioNegated(n: int, d: int)
    requires d != 0
    ensures Ratio(-n, d) == -Ratio(n, d)
  {
    RatioTimes(n, d);
    RatioIs(-n, d, -Ratio(n, d));
  }

  lemma RatioProduct(a: int, b: int, c: int, d: int)
    requires b != 0 && d != 0
    ensures b * d != 0 && Ratio(a * c, b * d) == Ratio(a, b) * Ratio(c, d)
  {
    var x, y := Ratio(a, b), Ratio(c, d);
    RatioTimes(a, b);
    RatioTimes(c, d);
    assert (a * c) as real == (x * b as real) * (y * d as real);
    assert (b * d) as real == b as real * d as real;
    assert (x * y) * (b * d) as real == (a * c) as real;
    RatioIs(a * c, b * d, x * y);
  }

  lemma RatioInverse(c: int, d: int)
    requires c != 0 && d != 0
    ensures Ratio(c, d) * Ratio(d, c) == 1.0
  {
    RatioProduct(c, d, d, c);
    RatioIs(c * d, d * c, 1.0);
  }

  lemma DivideByInverse(x: real, y: real, z: real)
    requires y * z == 1.0
    ensures y != 0.0 && x * z == x / y
  {
    var q := x / y;
    assert q * y == x;
    assert x * z == q * (y * z);
  }

  lemma RatioQuotient(a: int, b: int, c: int, d: int)
    requires b != 0 && c != 0 && d != 0
    ensures b * c != 0 && Ratio(c, d) != 0.0
    ensures Ratio(a * d, b * c) == Ratio(a, b) / Ratio(c, d)
  {
    RatioProduct(a, b, d, c);
    RatioInverse(c, d);
    DivideByInverse(Ratio(a, b), Ratio(c, d), Ratio(d, c));
  }

  lemma RatioZero(n: int, d: int)
    requires d != 0
    ensures Ratio(n, d) == 0.0 <==> n == 0
  {
    RatioTimes(n, d);
  }

  lemma RatioOfWhole(n: int)
    ensures Ratio(n, 1) == n as real
  {
  }

  /** A fraction has one normal form only. */
  lemma NormalFormUnique(n: int, d: int, p: int, q: int)
    requires Normalized(n, d) && Normalized(p, q) && Ratio(n, d) == Ratio(p, q)
    ensures n == p && d == q
  {
    RatioEqual(n, d, p, q);
    CoprimeSymmetric(n, d);
    CoprimeSymmetric(p, q);
    DividesBy(d, n * q, p);
    DividesOtherFactor(d, n, q);
    DividesBy(q, p * d, n);
    DividesOtherFactor(q, p, d);
    DividesAntisymmetric(d, q);
    CancelFactor(d, n, p);
  }

  /** The numerator formed with the reduced denominators shares nothing with either. */
  lemma CrossSumCoprime(a: int, b1: int, c: int, d1: int, b: int, d: int)
    requires Coprime(a, b) && Coprime(c, d) && Divides(b1, b) && Divides(d1, d) && Coprime(b1, d1)
    ensures Coprime(a * d1 + c * b1, b1) && Coprime(a * d1 + c * b1, d1)
  {
    CoprimeSymmetric(a, b);
    CoprimeSymmetric(c, d);
    CoprimeDivisor(b1, b, a);
    CoprimeDivisor(d1, d, c);
    CoprimeSymmetric(b1, a);
    CoprimeSymmetric(d1, c);
    CoprimeSymmetric(b1, d1);
    CoprimeProduct(a, d1, b1);
    CoprimeShift(a * d1, b1, c);
    CoprimeProduct(c, b1, d1);
    CoprimeShift(c * b1, d1, a);
    assert c * b1 + a * d1 == a * d1 + c * b1;
  }

  /** Dividing by gcd(t, g) alone is enough, although the denominator also has the factors b1
      and d1. */
  lemma SumNormalForm(t: int, b1: int, d1: int, g: int, h: int, n: int, k: int)
    requires b1 > 0 && d1 > 0 && k > 0 && h > 0
    requires Coprime(t, b1) && Coprime(t, d1) && h == Gcd(t, g) && t == n * h && g == k * h
    ensures Normalized(n, b1 * (d1 * k))
  {
    DividesBy(n, t, h);
    CoprimeDivisor(n, t, b1);
    CoprimeDivisor(n, t, d1);
    CoprimeQuotients(t, g, n, k);
    CoprimeSymmetric(n, b1);
    CoprimeSymmetric(n, d1);
    CoprimeSymmetric(n, k);
    CoprimeProduct(d1, k, n);
    CoprimeProduct(b1, d1 * k, n);
    CoprimeSymmetric(b1 * (d1 * k), n);
    assert d1 * k > 0;
    assert b1 * (d1 * k) > 0;
  }

  lemma SumCrossProduct(a: int, b: int, c: int, d: int, g: int, b1: int, d1: int, t: int, h: int, n: int, k: int)
    requires b == b1 * g && d == d1 * g && t == a * d1 + c * b1
    requires h != 0 && t == n * h && g == k * h
    ensures n * (b * d) == (a * d + c * b) * (b1 * (d1 * k))
  {
    SumFactored(a, c, g, b1, d1);
    assert a * d + c * b == t * g;
    ProductFactored(b1, d1, g);
    RegroupSum(n, b1 * d1, g, k, h);
    assert b1 * (d1 * k) == (b1 * d1) * k;
  }

  lemma SumFactored(a: int, c: int, g: int, b1: int, d1: int)
    ensures a * (d1 * g) + c * (b1 * g) == (a * d1 + c * b1) * g
  {
  }

  lemma ProductFactored(b1: int, d1: int, g: int)
    ensures (b1 * g) * (d1 * g) == ((b1 * d1) * g) * g
  {
  }

  lemma RegroupSum(n: int, e: int, g: int, k: int, h: int)
    requires g == k * h
    ensures n * ((e * g) * g) == ((n * h) * g) * (e * k)
  {
    assert n * ((e * g) * (k * h)) == ((n * h) * g) * (e * k);
  }

  /** Cross-cancelling leaves nothing in common. */
  lemma ProductNormalForm(a: int, b: int, c: int, d: int, a': int, d': int, c': int, b': int)
    requires Coprime(a, b) && Coprime(c, d) && Coprime(a', d') && Coprime(c', b')
    requires Divides(a', a) && Divides(b', b) && Divides(c', c) && Divides(d', d)
    ensures Coprime(a' * c', b' * d')
  {
    CoprimeOfParts(a, b, a', b');
    CoprimeOfParts(c, d, c', d');
    CoprimeProduct(a', c', b');
    CoprimeProduct(a', c', d');
    CoprimeSymmetric(a' * c', b');
    CoprimeSymmetric(a' * c', d');
    CoprimeProduct(b', d', a' * c');
    CoprimeSymmetric(b' * d', a' * c');
  }

  lemma CoprimeOfParts(a: int, b: int, a': int, b': int)
    requires Coprime(a, b) && Divides(a', a) && Divides(b', b)
    ensures Coprime(a', b')
  {
    CoprimeDivisor(a', a, b);
    CoprimeSymmetric(a', b);
    CoprimeDivisor(b', b, a');
    CoprimeSymmetric(b', a');
  }

  lemma CoprimeNegated(a: int, b: int)
    requires Coprime(a, b)
    ensures Coprime(-a, -b) && Coprime(-a, b)
  {
    var x: int, y: int :| Certificate(a, b, x, y);
    CoprimeBy(-a, -b, -x, -y);
    CoprimeBy(-a, b, -x, y);
  }

  lemma CrossProducts(a: int, b: int, c: int, d: int, g: int, h: int, a': int, d': int, c': int, b': int)
    requires a == a' * g && d == d' * g && c == c' * h && b == b' * h
    ensures (a' * c') * (b * d) == (a * c) * (b' * d')
  {
    calc {
      (a' * c') * (b * d);
      (a' * c') * ((b' * h) * (d' * g));
      { assert (a' * c') * ((b' * h) * (d' * g)) == ((a' * g) * (c' * h)) * (b' * d'); }
      (a * c) * (b' * d');
    }
  }
}
