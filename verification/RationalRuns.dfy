/** Whole histories of a rational number, the test for normal form, and the greatest common
    divisor and least common multiple of rationals.
  */
module RationalRuns {
  import opened NumberTheory
  import opened CommonFactor
  import opened Ratios
  import opened RationalNumbers

  // ----- Runs

  datatype Kind = Plus | Minus | Times | Over

  datatype Op =
    | SetTo(n: int, d: int)
    | WithRational(kind: Kind, n: int, d: int)
    | WithSelf(kind: Kind)
    | WithInteger(kind: Kind, i: int)
    | Up
    | Down

  /** Exact arithmetic on numbers; an exception leaves the number as it was. */
  function Combine(kind: Kind, x: real, y: real): (r: real)
  {
    match kind
    case Plus => x + y
    case Minus => x - y
    case Times => x * y
    case Over => if y == 0.0 then x else x / y
  }

  predicate Throws(kind: Kind, y: real) {
    kind == Over && y == 0.0
  }

  function Eval(x: real, op: Op): (r: real)
  {
    match op
    case SetTo(n, d) => if d == 0 then x else Ratio(n, d)
    case WithRational(k, n, d) => if d == 0 then x else Combine(k, x, Ratio(n, d))
    case WithSelf(k) => Combine(k, x, x)
    case WithInteger(k, i) => Combine(k, x, i as real)
    case Up => x + 1.0
    case Down => x - 1.0
  }

  /** Does the operation throw when the number is `x`? */
  predicate OpThrows(x: real, op: Op) {
    match op
    case SetTo(n, d) => d == 0
    case WithRational(k, n, d) => d == 0 || Throws(k, Ratio(n, d))
    case WithSelf(k) => Throws(k, x)
    case WithInteger(k, i) => Throws(k, i as real)
    case Up => false
    case Down => false
  }

  function EvalAll(x: real, ops: seq<Op>): (r: real)
    decreases |ops|
  {
    if ops == [] then x else
      var n := |ops| - 1;
      Eval(EvalAll(x, ops[..n]), ops[n])
  }

  function OutcomeOf(throws: bool): (o: Outcome) {
    if throws then BadRational else Done
  }

  /** What one more operation does to the number at the end of a run, in plain arithmetic; where
      it would divide by zero it does nothing. */
  lemma OneMore(ops: seq<Op>, n: int, d: int, i: int)
    ensures var x := EvalAll(0.0, ops);
            && EvalAll(0.0, ops + [SetTo(n, d)]) == (if d == 0 then x else n as real / d as real)
            && EvalAll(0.0, ops + [Up]) == x + 1.0
            && EvalAll(0.0, ops + [Down]) == x - 1.0
    ensures var x := EvalAll(0.0, ops);
            && EvalAll(0.0, ops + [WithInteger(Plus, i)]) == x + i as real
            && EvalAll(0.0, ops + [WithInteger(Minus, i)]) == x - i as real
            && EvalAll(0.0, ops + [WithInteger(Times, i)]) == x * i as real
            && EvalAll(0.0, ops + [WithInteger(Over, i)]) == (if i == 0 then x else x / i as real)
    ensures var x := EvalAll(0.0, ops);
            && EvalAll(0.0, ops + [WithSelf(Plus)]) == x + x
            && EvalAll(0.0, ops + [WithSelf(Minus)]) == 0.0
            && EvalAll(0.0, ops + [WithSelf(Times)]) == x * x
            && EvalAll(0.0, ops + [WithSelf(Over)]) == (if x == 0.0 then x else 1.0)
  {
    SelfQuotient(EvalAll(0.0, ops));
    AfterOne(ops, SetTo(n, d));
    AfterOne(ops, Up);
    AfterOne(ops, Down);
    AfterOne(ops, WithInteger(Plus, i));
    AfterOne(ops, WithInteger(Minus, i));
    AfterOne(ops, WithInteger(Times, i));
    AfterOne(ops, WithInteger(Over, i));
    AfterOne(ops, WithSelf(Plus));
    AfterOne(ops, WithSelf(Minus));
    AfterOne(ops, WithSelf(Times));
    AfterOne(ops, WithSelf(Over));
  }

  lemma SelfQuotient(x: real)
    ensures x != 0.0 ==> x / x == 1.0
  {
  }

  /** The same with a fraction as operand, whose construction may fail first. */
  lemma OneMoreFraction(ops: seq<Op>, n: int, d: int)
    ensures var x := EvalAll(0.0, ops);
            if d == 0 then forall k :: EvalAll(0.0, ops + [WithRational(k, n, d)]) == x
            else
              var y := n as real / d as real;
              && EvalAll(0.0, ops + [WithRational(Plus, n, d)]) == x + y
              && EvalAll(0.0, ops + [WithRational(Minus, n, d)]) == x - y
              && EvalAll(0.0, ops + [WithRational(Times, n, d)]) == x * y
              && EvalAll(0.0, ops + [WithRational(Over, n, d)]) == if n == 0 then x else x / y
  {
    forall k
      ensures EvalAll(0.0, ops + [WithRational(k, n, d)]) == Eval(EvalAll(0.0, ops), WithRational(k, n, d))
    {
      AfterOne(ops, WithRational(k, n, d));
    }
    if d != 0 {
      RatioZero(n, d);
    }
  }

  lemma AfterOne(ops: seq<Op>, op: Op)
    ensures EvalAll(0.0, ops + [op]) == Eval(EvalAll(0.0, ops), op)
  {
    assert (ops + [op])[..|ops|] == ops;
  }

  /** Which operations throw, in plain arithmetic. */
  lemma ThrowsExactly(x: real, kind: Kind, n: int, d: int, i: int)
    ensures OpThrows(x, SetTo(n, d)) <==> d == 0
    ensures OpThrows(x, WithRational(kind, n, d)) <==> d == 0 || (kind == Over && n == 0)
    ensures OpThrows(x, WithSelf(kind)) <==> kind == Over && x == 0.0
    ensures OpThrows(x, WithInteger(kind, i)) <==> kind == Over && i == 0
    ensures !OpThrows(x, Up) && !OpThrows(x, Down)
  {
    if d != 0 {
      RatioZero(n, d);
    }
  }

  /** A compound assignment with a rational operand, possibly the number itself. */
  method Update(x: Rational, kind: Kind, r: Rational) returns (o: Outcome)
    requires x.Valid() && r.Valid()
    modifies x
    ensures x.Valid() && x.Value() == Combine(kind, old(x.Value()), old(r.Value()))
    ensures o == OutcomeOf(Throws(kind, old(r.Value())))
  {
    o := Done;
    if kind == Plus {
      ghost var held := x.AddAssign(r);
    } else if kind == Minus {
      ghost var held := x.SubAssign(r);
    } else if kind == Times {
      ghost var held := x.MulAssign(r);
    } else {
      ghost var held;
      o, held := x.DivAssign(r);
    }
  }

  method UpdateByInteger(x: Rational, kind: Kind, i: int) returns (o: Outcome)
    requires x.Valid()
    modifies x
    ensures x.Valid() && x.Value() == Combine(kind, old(x.Value()), i as real)
    ensures o == OutcomeOf(Throws(kind, i as real))
  {
    o := Done;
    if kind == Plus {
      x.AddInteger(i);
    } else if kind == Minus {
      x.SubInteger(i);
    } else if kind == Times {
      x.MulInteger(i);
    } else {
      o := x.DivInteger(i);
    }
  }

  /** The operand is constructed first; its constructor may throw. */
  method UpdateByFraction(x: Rational, kind: Kind, n: int, d: int) returns (o: Outcome)
    requires x.Valid()
    modifies x
    ensures x.Valid() && x.Value() == Eval(old(x.Value()), WithRational(kind, n, d))
    ensures o == OutcomeOf(OpThrows(old(x.Value()), WithRational(kind, n, d)))
  {
    var r := new Rational.Raw(n, d);
    o := r.Normalize();
    if o == Done {
      o := Update(x, kind, r);
    }
  }

  method Perform(x: Rational, op: Op) returns (o: Outcome)
    requires x.Valid()
    modifies x
    ensures x.Valid() && x.Value() == Eval(old(x.Value()), op)
    ensures o == OutcomeOf(OpThrows(old(x.Value()), op))
  {
    o := Done;
    match op {
      case SetTo(n, d) => o := x.Assign(n, d);
      case WithRational(k, n, d) => o := UpdateByFraction(x, k, n, d);
      case WithSelf(k) => o := Update(x, k, x);
      case WithInteger(k, i) => o := UpdateByInteger(x, k, i);
      case Up => x.Increment();
      case Down => x.Decrement();
    }
  }

  /** Every run, from a default-constructed number, keeps the normal form and computes exactly
      the real number that the operations denote; the operations that throw are exactly those
      that would divide by zero. */
  method RunAll(ops: seq<Op>) returns (x: Rational, outcomes: seq<Outcome>)
    ensures fresh(x) && x.Valid()
    ensures x.Value() == EvalAll(0.0, ops) && |outcomes| == |ops|
    ensures forall k :: 0 <= k < |ops| ==> outcomes[k] == OutcomeOf(OpThrows(EvalAll(0.0, ops[..k]), ops[k]))
  {
    x := new Rational.Zero();
    outcomes := [];
    for k := 0 to |ops|
      invariant fresh(x) && x.Valid() && x.Value() == EvalAll(0.0, ops[..k]) && |outcomes| == k
      invariant forall j :: 0 <= j < k ==> outcomes[j] == OutcomeOf(OpThrows(EvalAll(0.0, ops[..j]), ops[j]))
    {
      assert ops[..k + 1][..k] == ops[..k];
      var o := Perform(x, ops[k]);
      outcomes := outcomes + [o];
    }
    assert ops[..|ops|] == ops;
  }

  /** Two runs end in the same numerator and denominator exactly if they denote the same
      number. */
  method RepresentationIsCanonical(ops: seq<Op>, others: seq<Op>) returns (x: Rational, y: Rational)
    ensures fresh(x) && fresh(y) && x.Valid() && y.Valid()
    ensures x.Value() == EvalAll(0.0, ops) && y.Value() == EvalAll(0.0, others)
    ensures EvalAll(0.0, ops) == EvalAll(0.0, others) <==> x.num == y.num && x.den == y.den
  {
    var xs, ys;
    x, xs := RunAll(ops);
    y, ys := RunAll(others);
    if x.Value() == y.Value() {
      NormalFormUnique(x.num, x.den, y.num, y.den);
    }
  }

  /** Adding and then subtracting another number restores numerator and denominator. */
  method AddThenSubtract(x: Rational, r: Rational)
    requires x.Valid() && r.Valid() && x != r
    modifies x
    ensures x.num == old(x.num) && x.den == old(x.den)
  {
    ghost var n, d := x.num, x.den;
    ghost var held := x.AddAssign(r);
    held := x.SubAssign(r);
    NormalFormUnique(x.num, x.den, n, d);
  }

  /** So does multiplying and then dividing by a number other than zero. */
  method MultiplyThenDivide(x: Rational, r: Rational)
    requires x.Valid() && r.Valid() && x != r && r.num != 0
    modifies x
    ensures x.num == old(x.num) && x.den == old(x.den)
  {
    ghost var n, d, v, w := x.num, x.den, x.Value(), r.Value();
    RatioZero(r.num, r.den);
    var o := Update(x, Times, r);
    ghost var u := x.Value();
    o := Update(x, Over, r);
    TimesThenOver(v, w, u, x.Value());
    NormalFormUnique(x.num, x.den, n, d);
  }

  lemma TimesThenOver(v: real, w: real, u: real, x: real)
    requires w != 0.0 && u == Combine(Times, v, w) && x == Combine(Over, u, w)
    ensures x == v
  {
    assert v * w / w == v;
  }

  // ----- The test for normal form

  /** Euclid's algorithm with the truncating remainder; the result may be negative. */
  function InnerGcd(a: int, b: int): (g: int)
    decreases Abs(b)
  {
    if b == 0 then a else InnerGcd(b, CMod(a, b))
  }

  predicate IsNormalized(n: int, d: int) {
    d > 0 && (n != 0 || d == 1) && Abs(InnerGcd(n, d)) == 1
  }

  lemma {:induction false} InnerGcdIsGcd(a: int, b: int)
    ensures Abs(InnerGcd(a, b)) == Gcd(a, b)
    decreases Abs(b)
  {
    if b == 0 {
      GcdOfZero(a);
    } else {
      InnerGcdIsGcd(b, CMod(a, b));
      GcdOfMin(a, b);
      GcdSymmetric(b, CMod(a, b));
    }
  }

  /** The run-time test accepts the normal forms and nothing else. */
  lemma IsNormalizedDecides(n: int, d: int)
    ensures IsNormalized(n, d) <==> Normalized(n, d)
  {
    InnerGcdIsGcd(n, d);
    CoprimeIffGcdOne(n, d);
    GcdOfZero(d);
  }

  // ----- Greatest common divisor and least common multiple of rationals

  ghost predicate WholeMultiple(x: real, h: real) {
    exists k: int :: IsTimes(x, k, h)
  }

  ghost predicate IsTimes(x: real, k: int, h: real) {
    x == k as real * h
  }

  ghost predicate CoprimeMultiples(x: real, y: real, g: real, p: int, q: int) {
    Coprime(p, q) && IsTimes(x, p, g) && IsTimes(y, q, g)
  }

  /** `g` divides both numbers into coprime integers, and every common divisor divides `g`. */
  ghost predicate IsRationalGcd(g: real, x: real, y: real) {
    && g >= 0.0
    && (exists p: int, q: int :: CoprimeMultiples(x, y, g, p, q))
    && forall h: real :: WholeMultiple(x, h) && WholeMultiple(y, h) ==> WholeMultiple(g, h)
  }

  ghost predicate IsRationalLcm(l: real, x: real, y: real) {
    && l >= 0.0 && WholeMultiple(l, x) && WholeMultiple(l, y)
    && forall m: real :: WholeMultiple(m, x) && WholeMultiple(m, y) ==> WholeMultiple(m, l)
  }

  method LcmOf(a: int, b: int) returns (m: nat)
    ensures m == Lcm(a, b) && IsLcm(m, a, b)
  {
    m := MixedBinaryLcm(Abs(a), Abs(b));
    GcdAbs(a, b);
    LcmIsLcm(a, b);
  }

  method GcdEvaluator(a: Rational, b: Rational) returns (g: Rational)
    requires a.Valid() && b.Valid()
    ensures fresh(g) && g.Valid()
    ensures IsRationalGcd(g.Value(), a.Value(), b.Value())
  {
    var n := GcdOf(a.num, b.num);
    var d := LcmOf(a.den, b.den);
    LcmParts(a.den, b.den);
    RationalGcdCorrect(a.num, a.den, b.num, b.den);
    g := new Rational.Raw(n, d);
    var o := g.Normalize();
  }

  method LcmEvaluator(a: Rational, b: Rational) returns (l: Rational)
    requires a.Valid() && b.Valid()
    ensures fresh(l) && l.Valid()
    ensures IsRationalLcm(l.Value(), a.Value(), b.Value())
  {
    var n := LcmOf(a.num, b.num);
    var d := GcdOf(a.den, b.den);
    RationalLcmCorrect(a.num, a.den, b.num, b.den);
    l := new Rational.Raw(n, d);
    var o := l.Normalize();
  }

  /** The two notions determine the product between them. */
  lemma GcdAndLcmDetermineProduct(a: int, b: int, c: int, d: int, g: real, l: real)
    requires Normalized(a, b) && Normalized(c, d)
    requires IsRationalGcd(g, Ratio(a, b), Ratio(c, d)) && IsRationalLcm(l, Ratio(a, b), Ratio(c, d))
    ensures g * l == AbsReal(Ratio(a, b) * Ratio(c, d))
  {
    RationalGcdCorrect(a, b, c, d);
    RationalLcmCorrect(a, b, c, d);
    RationalGcdUnique(g, GcdValue(a, b, c, d), Ratio(a, b), Ratio(c, d));
    RationalLcmUnique(l, LcmValue(a, b, c, d), Ratio(a, b), Ratio(c, d));
    GcdTimesLcm(a, b, c, d);
  }

  function AbsReal(x: real): (y: real)
    ensures y >= 0.0 && (y == x || y == -x)
  {
    if x < 0.0 then -x else x
  }

  lemma LcmParts(a: int, b: int)
    requires a > 0 && b > 0
    ensures var g := Gcd(a, b);
            g > 0 && Lcm(a, b) > 0
            && Lcm(a, b) == CDiv(a, g) * b == a * CDiv(b, g)
            && Lcm(a, b) * g == a * b
  {
    var g := Gcd(a, b);
    GcdParts(a, b);
    PositivePart(a, g);
    PositivePart(b, g);
    var a', b' := CDiv(a, g), CDiv(b, g);
    assert a' * (b' * g) == (a' * g) * b';
    assert (a' * b) * g == (a' * g) * b;
    assert Abs(a) / Gcd(a, b) == a';
    assert a' * b > 0;
  }

  ghost function GcdValue(a: int, b: int, c: int, d: int): (x: real)
    requires b > 0 && d > 0
  {
    LcmParts(b, d);
    Ratio(Gcd(a, c), Lcm(b, d))
  }

  ghost function LcmValue(a: int, b: int, c: int, d: int): (x: real)
    requires b > 0 && d > 0
  {
    LcmParts(b, d);
    Ratio(Lcm(a, c), Gcd(b, d))
  }

  /** The factors that take a numerator's gcd back to each fraction are coprime. */
  lemma GcdFactors(a: int, b: int, c: int, d: int) returns (p: int, q: int)
    requires Normalized(a, b) && Normalized(c, d) && (a != 0 || c != 0)
    ensures Coprime(p, q)
    ensures Lcm(b, d) > 0
    ensures a * Lcm(b, d) == (p * Gcd(a, c)) * b && c * Lcm(b, d) == (q * Gcd(a, c)) * d
  {
    var g, h := Gcd(a, c), Gcd(b, d);
    LcmParts(b, d);
    GcdParts(a, c);
    var a', c', b', d' := CDiv(a, g), CDiv(c, g), CDiv(b, h), CDiv(d, h);
    p, q := a' * d', c' * b';
    CoprimeGcdFactors(a, b, c, d);
    FactorProduct(a', g, b, d', a, Lcm(b, d));
    FactorProduct(c', g, d, b', c, Lcm(b, d));
  }

  lemma CoprimeGcdFactors(a: int, b: int, c: int, d: int)
    requires Normalized(a, b) && Normalized(c, d) && (a != 0 || c != 0)
    ensures var g, h := Gcd(a, c), Gcd(b, d);
            g > 0 && h > 0 && Coprime(CDiv(a, g) * CDiv(d, h), CDiv(c, g) * CDiv(b, h))
  {
    var g, h := Gcd(a, c), Gcd(b, d);
    GcdParts(a, c);
    GcdParts(b, d);
    CoprimeQuotients(a, c, CDiv(a, g), CDiv(c, g));
    CoprimeQuotients(b, d, CDiv(b, h), CDiv(d, h));
    CoprimeFactors(a, b, c, d, CDiv(a, g), CDiv(b, h), CDiv(c, g), CDiv(d, h));
  }

  lemma FactorProduct(a': int, g: int, b: int, d': int, a: int, m: int)
    requires a == a' * g && m == b * d'
    ensures a * m == ((a' * d') * g) * b
  {
  }

  lemma CoprimeFactors(a: int, b: int, c: int, d: int, a': int, b': int, c': int, d': int)
    requires Coprime(a, b) && Coprime(c, d) && Coprime(a', c') && Coprime(b', d')
    requires Divides(a', a) && Divides(b', b) && Divides(c', c) && Divides(d', d)
    ensures Coprime(a' * d', c' * b')
  {
    CoprimeSymmetric(b', d');
    CoprimeOfParts(a, b, a', b');
    CoprimeOfParts(c, d, c', d');
    CoprimeSymmetric(c', d');
    DividesBy(a', a', 1);
    DividesBy(b', b', 1);
    DividesBy(c', c', 1);
    DividesBy(d', d', 1);
    ProductNormalForm(a', c', d', b', a', b', d', c');
  }

  lemma RationalGcdCorrect(a: int, b: int, c: int, d: int)
    requires Normalized(a, b) && Normalized(c, d)
    ensures IsRationalGcd(GcdValue(a, b, c, d), Ratio(a, b), Ratio(c, d))
  {
    var g, m := Gcd(a, c), Lcm(b, d);
    var x, y, z := Ratio(a, b), Ratio(c, d), GcdValue(a, b, c, d);
    LcmParts(b, d);
    RatioTimes(g, m);
    NonnegativeRatio(g, m);
    if a == 0 && c == 0 {
      GcdOfZero(0);
      CoprimeBy(1, 0, 1, 0);
      assert CoprimeMultiples(x, y, z, 1, 0);
      GcdOfCoprimeMultiples(x, y, z, 1, 0);
    } else {
      var p, q := GcdFactors(a, b, c, d);
      MultipleOfRatio(a, b, p, g, m);
      MultipleOfRatio(c, d, q, g, m);
      assert CoprimeMultiples(x, y, z, p, q);
      GcdOfCoprimeMultiples(x, y, z, p, q);
    }
  }

  lemma NonnegativeRatio(n: int, d: int)
    requires n >= 0 && d > 0
    ensures Ratio(n, d) >= 0.0
  {
  }

  lemma MultipleOfRatio(a: int, b: int, p: int, g: int, m: int)
    requires b > 0 && m > 0 && a * m == (p * g) * b
    ensures IsTimes(Ratio(a, b), p, Ratio(g, m))
  {
    RatioEqual(a, b, p * g, m);
    RatioProduct(p, 1, g, m);
    RatioOfWhole(p);
  }

  /** Numbers that are coprime multiples of z have all their common divisors divide z. */
  lemma GcdOfCoprimeMultiples(x: real, y: real, z: real, p: int, q: int)
    requires z >= 0.0 && CoprimeMultiples(x, y, z, p, q)
    ensures IsRationalGcd(z, x, y)
  {
    var u: int, v: int :| Certificate(p, q, u, v);
    forall h: real | WholeMultiple(x, h) && WholeMultiple(y, h)
      ensures WholeMultiple(z, h)
    {
      var j: int :| IsTimes(x, j, h);
      var k: int :| IsTimes(y, k, h);
      CombineMultiples(x, y, z, p, q, u, v);
      assert x * u as real + y * v as real == (j * u + k * v) as real * h by {
        assert (j as real * h) * u as real == (j * u) as real * h;
        assert (k as real * h) * v as real == (k * v) as real * h;
      }
      assert IsTimes(z, j * u + k * v, h);
    }
  }

  lemma CombineMultiples(x: real, y: real, z: real, p: int, q: int, u: int, v: int)
    requires IsTimes(x, p, z) && IsTimes(y, q, z) && p * u + q * v == 1
    ensures x * u as real + y * v as real == z
  {
    assert (p as real * z) * u as real == (p * u) as real * z;
    assert (q as real * z) * v as real == (q * v) as real * z;
    assert (p * u) as real + (q * v) as real == (p * u + q * v) as real;
  }

  /** Two nonnegative numbers that are whole multiples of each other are equal. */
  lemma WholeAntisymmetric(x: real, y: real)
    requires x >= 0.0 && y >= 0.0 && WholeMultiple(x, y) && WholeMultiple(y, x)
    ensures x == y
  {
    var j: int :| IsTimes(x, j, y);
    var k: int :| IsTimes(y, k, x);
    if x > 0.0 && y > 0.0 {
      AtLeastOnce(x, j, y);
      AtLeastOnce(y, k, x);
    }
  }

  lemma AtLeastOnce(x: real, k: int, y: real)
    requires x > 0.0 && y > 0.0 && IsTimes(x, k, y)
    ensures x >= y
  {
    ProductAgainstOne(k as real, y, x);
  }

  lemma ProductAgainstOne(m: real, y: real, z: real)
    requires y > 0.0 && z == m * y
    ensures m >= 1.0 ==> z >= y
    ensures m <= 0.0 ==> z <= 0.0
  {
    assert z - y == (m - 1.0) * y;
  }

  lemma SelfMultiple(x: real, y: real, g: real)
    requires IsRationalGcd(g, x, y)
    ensures WholeMultiple(x, g) && WholeMultiple(y, g)
  {
    var p: int, q: int :| CoprimeMultiples(x, y, g, p, q);
  }

  lemma RationalGcdUnique(g: real, h: real, x: real, y: real)
    requires IsRationalGcd(g, x, y) && IsRationalGcd(h, x, y)
    ensures g == h
  {
    SelfMultiple(x, y, g);
    SelfMultiple(x, y, h);
    WholeAntisymmetric(g, h);
  }

  lemma RationalLcmUnique(l: real, m: real, x: real, y: real)
    requires IsRationalLcm(l, x, y) && IsRationalLcm(m, x, y)
    ensures l == m
  {
    WholeAntisymmetric(l, m);
  }

  lemma LcmTimesGcd(a: int, c: int)
    ensures Lcm(a, c) * Gcd(a, c) == Abs(a * c)
  {
    if a == 0 || c == 0 {
      GcdOfZero(a);
      GcdOfZero(c);
    } else {
      GcdAbs(a, c);
      LcmParts(Abs(a), Abs(c));
      AbsProduct(a, c);
    }
  }

  lemma GcdTimesLcm(a: int, b: int, c: int, d: int)
    requires b > 0 && d > 0
    ensures GcdValue(a, b, c, d) * LcmValue(a, b, c, d) == AbsReal(Ratio(a, b) * Ratio(c, d))
  {
    LcmParts(b, d);
    RatioProduct(Gcd(a, c), Lcm(b, d), Lcm(a, c), Gcd(b, d));
    LcmTimesGcd(a, c);
    RatioProduct(a, b, c, d);
    AbsRatio(a * c, b * d);
  }

  lemma AbsRatio(n: int, d: int)
    requires d > 0
    ensures Ratio(Abs(n), d) == AbsReal(Ratio(n, d))
  {
    if n < 0 {
      NonnegativeRatio(-n, d);
    } else {
      NonnegativeRatio(n, d);
    }
    RatioNegated(n, d);
  }

  lemma RationalLcmCorrect(a: int, b: int, c: int, d: int)
    requires Normalized(a, b) && Normalized(c, d)
    ensures IsRationalLcm(LcmValue(a, b, c, d), Ratio(a, b), Ratio(c, d))
  {
    var x, y, z, l := Ratio(a, b), Ratio(c, d), GcdValue(a, b, c, d), LcmValue(a, b, c, d);
    LcmParts(b, d);
    NonnegativeRatio(Lcm(a, c), Gcd(b, d));
    RationalGcdCorrect(a, b, c, d);
    GcdTimesLcm(a, b, c, d);
    RatioZero(a, b);
    RatioZero(c, d);
    if a == 0 || c == 0 {
      LcmTimesGcd(a, c);
      ZeroLcm(a, c);
      RatioZero(0, Gcd(b, d));
      LcmOfZero(x, y);
    } else {
      LcmFromGcd(x, y, z, l);
    }
  }

  lemma ZeroLcm(a: int, c: int)
    requires a == 0 || c == 0
    ensures Lcm(a, c) == 0
  {
    GcdOfZero(a);
    GcdOfZero(c);
  }

  lemma LcmOfZero(x: real, y: real)
    requires x == 0.0 || y == 0.0
    ensures IsRationalLcm(0.0, x, y)
  {
    assert IsTimes(0.0, 0, x) && IsTimes(0.0, 0, y);
    forall m: real | WholeMultiple(m, x) && WholeMultiple(m, y)
      ensures WholeMultiple(m, 0.0)
    {
      var j: int :| IsTimes(m, j, x);
      var k: int :| IsTimes(m, k, y);
      assert IsTimes(m, 0, 0.0);
    }
  }

  lemma LcmFromGcd(x: real, y: real, z: real, l: real)
    requires IsRationalGcd(z, x, y) && x != 0.0 && y != 0.0
    requires l >= 0.0 && z * l == AbsReal(x * y)
    ensures IsRationalLcm(l, x, y)
  {
    var p: int, q: int :| CoprimeMultiples(x, y, z, p, q);
    var e := if x * y < 0.0 then -1 else 1;
    LcmAsMultiple(x, y, z, l, p, q, e);
    assert IsTimes(l, e * q, x);
    assert IsTimes(l, e * p, y);
    forall m: real | WholeMultiple(m, x) && WholeMultiple(m, y)
      ensures WholeMultiple(m, l)
    {
      LcmDividesCommon(m, x, y, z, l, p, q, e);
    }
  }

  lemma LcmAsMultiple(x: real, y: real, z: real, l: real, p: int, q: int, e: int)
    requires IsTimes(x, p, z) && IsTimes(y, q, z) && z != 0.0
    requires e == (if x * y < 0.0 then -1 else 1) && z * l == AbsReal(x * y)
    ensures l == e as real * (q as real * x)
    ensures l == (e * q) as real * x && l == (e * p) as real * y
  {
    var w := q as real * x;
    assert x * y == z * w;
    assert w == p as real * y;
    CancelReal(l, e as real * w, z);
    assert (e * q) as real * x == e as real * w;
    assert (e * p) as real * y == e as real * w;
  }

  lemma LcmDividesCommon(m: real, x: real, y: real, z: real, l: real, p: int, q: int, e: int)
    requires WholeMultiple(m, x) && WholeMultiple(m, y) && CoprimeMultiples(x, y, z, p, q) && z != 0.0
    requires (e == 1 || e == -1) && l == e as real * (q as real * x)
    ensures WholeMultiple(m, l)
  {
    var j: int :| IsTimes(m, j, x);
    var k: int :| IsTimes(m, k, y);
    CommonMultiple(m, j, x, k, y, p, q, z);
    CoprimeSymmetric(p, q);
    DividesBy(q, p * j, k);
    DividesOtherFactor(q, p, j);
    var i: int :| IsMultiple(j, q, i);
    MultipleOfLcm(m, j, x, q, i, e, l);
  }

  lemma CancelReal(a: real, b: real, z: real)
    requires z != 0.0 && z * a == z * b
    ensures a == b
  {
  }

  lemma CommonMultiple(m: real, j: int, x: real, k: int, y: real, p: int, q: int, z: real)
    requires IsTimes(m, j, x) && IsTimes(m, k, y) && IsTimes(x, p, z) && IsTimes(y, q, z) && z != 0.0
    ensures p * j == q * k
  {
    assert m == j as real * (p as real * z) == z * (p * j) as real;
    assert m == k as real * (q as real * z) == z * (q * k) as real;
    CancelReal((p * j) as real, (q * k) as real, z);
  }

  lemma MultipleOfLcm(m: real, j: int, x: real, q: int, i: int, e: int, l: real)
    requires IsTimes(m, j, x) && j == q * i && (e == 1 || e == -1) && l == e as real * (q as real * x)
    ensures WholeMultiple(m, l)
  {
    assert j as real == q as real * i as real;
    assert IsTimes(m, i * e, l);
  }
}
