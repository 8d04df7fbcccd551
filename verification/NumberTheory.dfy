/** Divisibility over the integers: greatest common divisors, coprimality, and the truncating
    division of the source language.
  */
module NumberTheory {

  function Abs(x: int): (y: nat)
    ensures y == x || y == -x
  {
    if x < 0 then -x else x
  }

  /** Division that truncates toward zero. */
  function CDiv(a: int, b: int): (q: int)
    requires b != 0
  {
    if (a < 0) == (b < 0) then Abs(a) / Abs(b) else -(Abs(a) / Abs(b))
  }

  /** The remainder that goes with CDiv: it has the sign of the dividend. */
  function CMod(a: int, b: int): (r: int)
    requires b != 0
    ensures Abs(r) < Abs(b)
    ensures if a < 0 then r <= 0 else r >= 0
  {
    var m := Abs(a) % Abs(b);
    if a < 0 then -m else m
  }

  lemma CDivCMod(a: int, b: int)
    requires b != 0
    ensures a == b * CDiv(a, b) + CMod(a, b)
  {
    var q, r := Abs(a) / Abs(b), Abs(a) % Abs(b);
    assert Abs(a) == Abs(b) * q + r;
    if b < 0 {
      assert Abs(b) * q == -(b * q) == b * -q;
    }
  }

  ghost predicate IsMultiple(n: int, d: int, k: int) {
    n == d * k
  }

  ghost predicate Divides(d: int, n: int) {
    exists k: int :: IsMultiple(n, d, k)
  }

  lemma DividesBy(d: int, n: int, k: int)
    requires n == d * k
    ensures Divides(d, n)
  {
    assert IsMultiple(n, d, k);
  }

  lemma DividesTransitive(a: int, b: int, c: int)
    requires Divides(a, b) && Divides(b, c)
    ensures Divides(a, c)
  {
    var j: int :| IsMultiple(b, a, j);
    var k: int :| IsMultiple(c, b, k);
    assert c == (a * j) * k == a * (j * k);
    DividesBy(a, c, j * k);
  }

  lemma DividesCombination(d: int, a: int, b: int, x: int, y: int)
    requires Divides(d, a) && Divides(d, b)
    ensures Divides(d, a * x + b * y)
  {
    var j: int :| IsMultiple(a, d, j);
    var k: int :| IsMultiple(b, d, k);
    assert a * x == (d * j) * x == d * (j * x);
    assert b * y == (d * k) * y == d * (k * y);
    assert a * x + b * y == d * (j * x + k * y);
    DividesBy(d, a * x + b * y, j * x + k * y);
  }

  /** Two nonnegative numbers that divide each other are equal. */
  lemma DividesAntisymmetric(a: nat, b: nat)
    requires Divides(a, b) && Divides(b, a)
    ensures a == b
  {
    DividesBounds(a, b);
    DividesBounds(b, a);
  }

  lemma DividesBounds(a: nat, b: nat)
    requires Divides(a, b)
    ensures b == 0 || a <= b
  {
    var k: int :| IsMultiple(b, a, k);
    ProductSign(a, k);
  }

  lemma ProductSign(a: nat, k: int)
    ensures k <= 0 ==> a * k <= 0
    ensures k >= 1 ==> a * k >= a
  {
  }

  /** Division by a divisor is exact. */
  lemma ExactQuotient(a: int, g: int)
    requires g != 0 && Divides(g, a)
    ensures CDiv(a, g) * g == a
  {
    CDivCMod(a, g);
    var k: int :| IsMultiple(a, g, k);
    var q, r := CDiv(a, g), CMod(a, g);
    assert g * k == g * q + r;
    assert r == g * (k - q);
    if k - q != 0 {
      ProductBound(g, k - q);
    }
  }

  lemma ProductBound(g: int, k: int)
    requires g != 0 && k != 0
    ensures Abs(g * k) >= Abs(g)
  {
    if g > 0 {
      if k > 0 { assert g * k >= g; } else { assert g * k <= g * -1; }
    } else {
      if k > 0 { assert g * k <= g; } else { assert g * k >= g * -1; }
    }
  }

  lemma CancelFactor(g: int, a: int, b: int)
    requires g != 0 && g * a == g * b
    ensures a == b
  {
  }

  // ----- Greatest common divisors

  /** The nonnegative common divisor that every common divisor divides. */
  ghost predicate IsGcd(g: int, a: int, b: int) {
    g >= 0 && Divides(g, a) && Divides(g, b)
    && forall d: int :: Divides(d, a) && Divides(d, b) ==> Divides(d, g)
  }

  lemma GcdUnique(g: int, h: int, a: int, b: int)
    requires IsGcd(g, a, b) && IsGcd(h, a, b)
    ensures g == h
  {
    DividesAntisymmetric(g, h);
  }

  /** Euclid's algorithm, which shows that there is such a divisor. */
  ghost function Euclid(a: nat, b: nat): (g: nat)
    decreases b
  {
    if b == 0 then a else Euclid(b, a % b)
  }

  lemma {:induction false} EuclidCombines(a: nat, b: nat) returns (x: int, y: int)
    ensures a * x + b * y == Euclid(a, b)
    decreases b
  {
    if b == 0 {
      x, y := 1, 0;
    } else {
      var q, r := a / b, a % b;
      assert a == b * q + r;
      var u, v := EuclidCombines(b, r);
      x, y := v, u - q * v;
      calc {
        a * x + b * y;
        (b * q + r) * v + b * (u - q * v);
        { assert (b * q + r) * v == b * (q * v) + r * v; }
        { assert b * (u - q * v) == b * u - b * (q * v); }
        b * u + r * v;
      }
    }
  }

  lemma {:induction false} EuclidDivides(a: nat, b: nat)
    ensures Divides(Euclid(a, b), a) && Divides(Euclid(a, b), b)
    decreases b
  {
    var g := Euclid(a, b);
    if b == 0 {
      DividesBy(a, a, 1);
      DividesBy(a, 0, 0);
    } else {
      EuclidDivides(b, a % b);
      DividesCombination(g, b, a % b, a / b, 1);
      assert b * (a / b) + (a % b) * 1 == a;
    }
  }

  lemma DividesAbs(d: int, a: int)
    requires Divides(d, Abs(a))
    ensures Divides(d, a)
  {
    if a < 0 {
      DividesBy(d, 0, 0);
      DividesCombination(d, Abs(a), 0, -1, 0);
    }
  }

  lemma GcdCombines(a: int, b: int) returns (g: nat, x: int, y: int)
    ensures IsGcd(g, a, b) && a * x + b * y == g
  {
    g := Euclid(Abs(a), Abs(b));
    x, y := EuclidCombines(Abs(a), Abs(b));
    if a < 0 { assert Abs(a) * x == a * -x; x := -x; }
    if b < 0 { assert Abs(b) * y == b * -y; y := -y; }
    EuclidDivides(Abs(a), Abs(b));
    DividesAbs(g, a);
    DividesAbs(g, b);
    forall d: int | Divides(d, a) && Divides(d, b)
      ensures Divides(d, g)
    {
      DividesCombination(d, a, b, x, y);
    }
  }

  lemma GcdExists(a: int, b: int)
    ensures exists g: nat :: IsGcd(g, a, b)
  {
    var g, x, y := GcdCombines(a, b);
  }

  ghost function Gcd(a: int, b: int): (g: nat) {
    GcdExists(a, b);
    var g: nat :| IsGcd(g, a, b);
    g
  }

  lemma GcdIsGcd(a: int, b: int)
    ensures IsGcd(Gcd(a, b), a, b)
  {
  }

  /** Coefficients that combine two numbers to their greatest common divisor. */
  lemma Bezout(a: int, b: int) returns (x: int, y: int)
    ensures a * x + b * y == Gcd(a, b)
  {
    var g;
    g, x, y := GcdCombines(a, b);
    GcdUnique(g, Gcd(a, b), a, b);
  }

  lemma GcdZeroOnly(a: int, b: int)
    requires Gcd(a, b) == 0
    ensures a == b == 0
  {
    GcdIsGcd(a, b);
    var j: int :| IsMultiple(a, 0, j);
    var k: int :| IsMultiple(b, 0, k);
  }

  lemma GcdOfZero(a: int)
    ensures Gcd(a, 0) == Abs(a) && Gcd(0, a) == Abs(a)
  {
    var g := Abs(a);
    DividesBy(g, 0, 0);
    DividesBy(g, a, if a < 0 then -1 else 1);
    forall d: int | Divides(d, a)
      ensures Divides(d, g)
    {
      if a < 0 {
        DividesCombination(d, a, a, -1, 0);
      }
    }
    GcdUnique(g, Gcd(a, 0), a, 0);
    GcdUnique(g, Gcd(0, a), 0, a);
  }

  /** What is left of two numbers after division by their greatest common divisor. */
  lemma GcdParts(a: int, b: int)
    requires a != 0 || b != 0
    ensures var g := Gcd(a, b); g > 0 && CDiv(a, g) * g == a && CDiv(b, g) * g == b
    ensures var g := Gcd(a, b); Divides(g, a) && Divides(g, b)
    ensures var g := Gcd(a, b); Divides(CDiv(a, g), a) && Divides(CDiv(b, g), b)
  {
    var g := Gcd(a, b);
    GcdIsGcd(a, b);
    if g == 0 {
      GcdZeroOnly(a, b);
      assert false;
    }
    ExactQuotient(a, g);
    ExactQuotient(b, g);
    DividesBy(CDiv(a, g), a, g);
    DividesBy(CDiv(b, g), b, g);
  }

  lemma GcdBounded(a: int, b: int)
    ensures a != 0 ==> Gcd(a, b) <= Abs(a)
    ensures b != 0 ==> Gcd(a, b) <= Abs(b)
  {
    var g := Gcd(a, b);
    if a != 0 {
      DividesCombination(g, a, a, if a < 0 then -1 else 1, 0);
      DividesBounds(g, Abs(a));
    }
    if b != 0 {
      DividesCombination(g, b, b, if b < 0 then -1 else 1, 0);
      DividesBounds(g, Abs(b));
    }
  }

  lemma GcdSymmetric(a: int, b: int)
    ensures Gcd(a, b) == Gcd(b, a)
  {
    GcdIsGcd(a, b);
    GcdIsGcd(b, a);
    GcdUnique(Gcd(a, b), Gcd(b, a), a, b);
  }

  /** Adding a multiple of one number to the other changes nothing. */
  lemma GcdShift(a: int, b: int, k: int)
    ensures Gcd(a + k * b, b) == Gcd(a, b)
  {
    var c := a + k * b;
    GcdIsGcd(a, b);
    GcdIsGcd(c, b);
    forall d: int | Divides(d, b)
      ensures Divides(d, a) <==> Divides(d, c)
    {
      if Divides(d, a) {
        DividesCombination(d, a, b, 1, k);
      }
      if Divides(d, c) {
        DividesCombination(d, c, b, 1, -k);
        assert c * 1 + b * -k == a;
      }
    }
    GcdUnique(Gcd(c, b), Gcd(a, b), a, b);
  }

  lemma GcdAbs(a: int, b: int)
    ensures Gcd(Abs(a), Abs(b)) == Gcd(a, b)
  {
    GcdNegate(a, b);
    GcdSymmetric(a, b);
    GcdNegate(b, a);
    GcdSymmetric(-b, a);
    GcdNegate(a, -b);
  }

  lemma GcdNegate(a: int, b: int)
    ensures Gcd(-a, b) == Gcd(a, b)
  {
    var g, h := Gcd(a, b), Gcd(-a, b);
    forall d: int
      ensures Divides(d, a) <==> Divides(d, -a)
    {
      if Divides(d, a) { DividesCombination(d, a, a, -1, 0); }
      if Divides(d, -a) { DividesCombination(d, -a, -a, -1, 0); }
    }
    GcdUnique(g, h, a, b);
  }

  lemma GcdScale(a: int, b: int, k: nat)
    ensures Gcd(k * a, k * b) == k * Gcd(a, b)
  {
    var g, h := Gcd(a, b), Gcd(k * a, k * b);
    GcdIsGcd(a, b);
    GcdIsGcd(k * a, k * b);
    assert Divides(k * g, h) by {
      DividesScaled(g, a, k);
      DividesScaled(g, b, k);
    }
    assert Divides(h, k * g) by {
      var x, y := Bezout(a, b);
      DividesCombination(h, k * a, k * b, x, y);
      ScaledCombination(a, b, k, x, y);
    }
    DividesAntisymmetric(h, k * g);
  }

  lemma ScaledCombination(a: int, b: int, k: int, x: int, y: int)
    ensures (k * a) * x + (k * b) * y == k * (a * x + b * y)
  {
  }

  lemma DividesScaled(d: int, a: int, k: int)
    requires Divides(d, a)
    ensures Divides(k * d, k * a)
  {
    var j: int :| IsMultiple(a, d, j);
    assert k * a == k * (d * j) == (k * d) * j;
    DividesBy(k * d, k * a, j);
  }

  // ----- Coprimality, by its certificate

  ghost predicate Certificate(a: int, b: int, x: int, y: int) {
    a * x + b * y == 1
  }

  ghost predicate Coprime(a: int, b: int) {
    exists x: int, y: int :: Certificate(a, b, x, y)
  }

  lemma CoprimeBy(a: int, b: int, x: int, y: int)
    requires a * x + b * y == 1
    ensures Coprime(a, b)
  {
    assert Certificate(a, b, x, y);
  }

  lemma CoprimeIffGcdOne(a: int, b: int)
    ensures Coprime(a, b) <==> Gcd(a, b) == 1
  {
    GcdIsGcd(a, b);
    if Coprime(a, b) {
      var x: int, y: int :| Certificate(a, b, x, y);
      DividesCombination(Gcd(a, b), a, b, x, y);
      DividesBounds(Gcd(a, b), 1);
      if Gcd(a, b) == 0 {
        GcdZeroOnly(a, b);
        assert false;
      }
    }
    if Gcd(a, b) == 1 {
      var x, y := Bezout(a, b);
      CoprimeBy(a, b, x, y);
    }
  }

  lemma CoprimeSymmetric(a: int, b: int)
    requires Coprime(a, b)
    ensures Coprime(b, a)
  {
    var x: int, y: int :| Certificate(a, b, x, y);
    CoprimeBy(b, a, y, x);
  }

  lemma CoprimeProduct(a: int, b: int, c: int)
    requires Coprime(a, c) && Coprime(b, c)
    ensures Coprime(a * b, c)
  {
    var x: int, y: int :| Certificate(a, c, x, y);
    var u: int, v: int :| Certificate(b, c, u, v);
    CertificateProduct(a, b, c, x, y, u, v);
    CoprimeBy(a * b, c, x * u, a * x * v + y * b * u + y * c * v);
  }

  lemma CertificateProduct(a: int, b: int, c: int, x: int, y: int, u: int, v: int)
    ensures (a * x + c * y) * (b * u + c * v) == (a * b) * (x * u) + c * (a * x * v + y * b * u + y * c * v)
  {
  }

  lemma CoprimeDivisor(d: int, a: int, b: int)
    requires Coprime(a, b) && Divides(d, a)
    ensures Coprime(d, b)
  {
    var x: int, y: int :| Certificate(a, b, x, y);
    var k: int :| IsMultiple(a, d, k);
    assert d * (k * x) == (d * k) * x;
    CoprimeBy(d, b, k * x, y);
  }

  lemma CoprimeShift(a: int, b: int, k: int)
    requires Coprime(a, b)
    ensures Coprime(a + k * b, b)
  {
    var x: int, y: int :| Certificate(a, b, x, y);
    assert (a + k * b) * x + b * (y - k * x) == a * x + b * y;
    CoprimeBy(a + k * b, b, x, y - k * x);
  }

  /** These quotients are coprime. */
  lemma CoprimeQuotients(a: int, b: int, a': int, b': int)
    requires Gcd(a, b) > 0 && a == a' * Gcd(a, b) && b == b' * Gcd(a, b)
    ensures Coprime(a', b')
  {
    var g := Gcd(a, b);
    var x, y := Bezout(a, b);
    calc {
      g * 1;
      (a' * g) * x + (b' * g) * y;
      g * (a' * x) + g * (b' * y);
      g * (a' * x + b' * y);
    }
    CancelFactor(g, 1, a' * x + b' * y);
    CoprimeBy(a', b', x, y);
  }

  /** Gauss: a number coprime to one factor of a product it divides, divides the other. */
  lemma DividesOtherFactor(a: int, b: int, c: int)
    requires Coprime(a, b) && Divides(a, b * c)
    ensures Divides(a, c)
  {
    var x: int, y: int :| Certificate(a, b, x, y);
    DividesBy(a, a, 1);
    DividesCombination(a, a, b * c, c * x, y);
    calc {
      a * (c * x) + (b * c) * y;
      { assert a * (c * x) == c * (a * x); }
      { assert (b * c) * y == c * (b * y); }
      c * (a * x) + c * (b * y);
      c * (a * x + b * y);
      c;
    }
  }
}
