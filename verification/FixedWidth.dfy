/** What the operations on rational numbers hold when the integer type has a fixed width. */
module FixedWidth {
  import opened NumberTheory
  import opened CommonFactor
  import opened Ratios
  import opened RationalNumbers

  // ----- Comparison

  lemma FirstFits(n: int, d: int, min: int)
    requires d > 0 && InType(n, min) && InType(d, min)
    ensures AllInType(FirstTrace(n, d), min)
  {
    CDivCMod(n, d);
    QuotientInType(n, d, min);
    if CMod(n, d) < 0 {
      NegativeFloor(n, d, CDiv(n, d), CMod(n, d));
    }
  }

  lemma NextFits(s: Component, min: int)
    requires s.Valid() && s.r > 0 && InType(s.d, min)
    ensures s.Next().Valid() && AllInType(s.Next().Held(), min)
  {
    NextValid(s);
    QuotientInType(s.d, s.r, min);
  }

  lemma {:induction false} LoopFits(t: Component, s: Component, min: int)
    requires t.Valid() && s.Valid() && InType(t.d, min) && InType(s.d, min)
    ensures AllInType(LoopTrace(t, s), min)
    decreases t.r
  {
    if t.q != s.q || t.r == 0 || s.r == 0 {
    } else {
      NextFits(t, min);
      NextFits(s, min);
      assert t.Next().d == t.r && s.Next().d == s.r;
      LoopFits(t.Next(), s.Next(), min);
    }
  }

  /** On any fixed-width type, no value that a comparison computes overflows, whatever the
      numerators: the smallest value of the type included. */
  lemma ComparisonFits(a: int, b: int, c: int, d: int, min: int)
    requires b > 0 && d > 0
    requires InType(a, min) && InType(b, min) && InType(c, min) && InType(d, min)
    ensures AllInType(ComparisonTrace(a, b, c, d), min)
  {
    FirstFits(a, b, min);
    FirstFits(c, d, min);
    FirstValid(a, b);
    FirstValid(c, d);
    LoopFits(First(a, b), First(c, d), min);
  }

  /** The floor of a negative fraction lies between its numerator and zero. */
  lemma NegativeFloor(n: int, d: int, q: int, r: int)
    requires d > 0 && n < 0 && n == d * q + r && -d < r < 0
    ensures n <= q - 1 < 0
  {
    if q > 0 {
      MulLessOrEqual(1, q, d);
    }
    if q - 1 < n {
      MulLessOrEqual(q, n, d);
      NonpositiveProduct(n, d - 1);
    }
  }

  // ----- The operations with another rational

  /** The front end of the gcd evaluates no undefined remainder and no value that overflows. */
  ghost predicate GcdCallFits(a: int, b: int, min: int, promoted: bool)
    requires min <= 0 && InType(a, min) && InType(b, min)
  {
    !GcdUndefined(a, b, min, promoted) && FrontEndTrace(a, b, min).Fits(min)
  }

  lemma GcdCallsFit(a: int, b: int, min: int, promoted: bool)
    requires min <= 0 && InType(a, min) && InType(b, min)
    ensures GcdCallFits(a, b, min, promoted) <==> !GcdUndefined(a, b, min, promoted)
    ensures b > 0 ==> GcdCallFits(a, b, min, promoted)
    ensures GcdCallFits(a, b, min, promoted) ==> InType(Gcd(a, b), min)
  {
    FrontEndFits(a, b, min);
    if min < 0 { GcdIsSmallest(a, b, min); }
  }

  /** An addition or subtraction forms only defined remainders and values that fit. */
  ghost predicate SumSafe(a: int, b: int, c: int, d: int, subtract: bool, min: int, promoted: bool)
    requires b > 0 && d > 0 && min <= 0 && InType(b, min) && InType(d, min)
  {
    var v := SumTrace(a, b, c, d, subtract);
    && GcdCallFits(b, d, min, promoted)
    && AllInType(v, min)
    && InType(v[5], min) && InType(v[0], min) && GcdCallFits(v[5], v[0], min, promoted)
  }

  /** Does the second product take the sum further away from zero? */
  predicate SameWay(a: int, c: int, subtract: bool) {
    if subtract then a == 0 || (a > 0 && c <= 0) || (a < 0 && c >= 0)
    else (a >= 0 && c >= 0) || (a <= 0 && c <= 0)
  }

  /** An addition or subtraction is safe exactly if the reduced denominator fits and, where the
      products go the same way, their sum before it is reduced fits; otherwise, where each of
      the products fits.  If there is nothing to reduce, the first means that the result fits. */
  lemma SumFits(a: int, b: int, c: int, d: int, subtract: bool, min: int, promoted: bool)
    requires Normalized(a, b) && Normalized(c, d) && min < 0
    requires InType(a, min) && InType(b, min) && InType(c, min) && InType(d, min)
    ensures var v := SumTrace(a, b, c, d, subtract);
            var safe := SumSafe(a, b, c, d, subtract, min, promoted);
            && (safe <==> InType(v[9], min) && if SameWay(a, c, subtract) then InType(v[5], min)
                                               else InType(v[3], min) && InType(v[4], min))
            && (SameWay(a, c, subtract) && v[6] == 1 ==> (safe <==> InType(v[7], min) && InType(v[9], min)))
  {
    SumPartsFit(a, b, c, d, subtract, min, promoted);
    SumSigns(a, b, c, d, subtract, min);
    EachSumFits(SumTrace(a, b, c, d, subtract), min);
  }

  lemma EachSumFits(v: seq<int>, min: int)
    requires |v| == 10 && InType(v[0], min) && InType(v[1], min) && InType(v[2], min)
    requires InType(v[6], min) && InType(v[8], min) && (InType(v[5], min) ==> InType(v[7], min))
    ensures AllInType(v, min)
       <==> InType(v[3], min) && InType(v[4], min) && InType(v[5], min) && InType(v[9], min)
  {
    if AllInType(v, min) {
      assert InType(v[3], min) && InType(v[4], min) && InType(v[5], min);
    }
  }

  /** What does not depend on the two products. */
  lemma SumPartsFit(a: int, b: int, c: int, d: int, subtract: bool, min: int, promoted: bool)
    requires b > 0 && d > 0 && min < 0 && InType(b, min) && InType(d, min)
    ensures var v := SumTrace(a, b, c, d, subtract);
            && GcdCallFits(b, d, min, promoted)
            && InType(v[0], min) && InType(v[1], min) && InType(v[2], min) && InType(v[6], min) && InType(v[8], min)
            && (InType(v[5], min) ==> InType(v[7], min) && GcdCallFits(v[5], v[0], min, promoted))
            && (v[6] == 1 ==> v[7] == v[5])
  {
    var v := SumTrace(a, b, c, d, subtract);
    DenominatorsFit(b, d, min, promoted);
    ReductionFits(v[5], v[0], d, min, promoted);
  }

  lemma DenominatorsFit(b: int, d: int, min: int, promoted: bool)
    requires b > 0 && d > 0 && min < 0 && InType(b, min) && InType(d, min)
    ensures var g := Gcd(b, d);
            && g > 0 && InType(g, min) && InType(CDiv(b, g), min) && InType(CDiv(d, g), min)
            && GcdCallFits(b, d, min, promoted)
  {
    GcdParts(b, d);
    GcdCallsFit(b, d, min, promoted);
    QuotientInType(b, Gcd(b, d), min);
    QuotientInType(d, Gcd(b, d), min);
  }

  lemma ReductionFits(t: int, g: int, d: int, min: int, promoted: bool)
    requires g > 0 && min < 0 && InType(g, min) && InType(d, min)
    ensures var h := Gcd(t, g);
            && h > 0 && InType(h, min) && InType(CDiv(d, h), min)
            && (InType(t, min) ==> InType(CDiv(t, h), min) && GcdCallFits(t, g, min, promoted))
            && (h == 1 ==> CDiv(t, h) == t)
  {
    GcdParts(t, g);
    GcdBounded(t, g);
    QuotientInType(t, Gcd(t, g), min);
    QuotientInType(d, Gcd(t, g), min);
    if InType(t, min) {
      GcdCallsFit(t, g, min, promoted);
    }
  }

  /** The signs of the products are those of the numerators. */
  lemma SumSigns(a: int, b: int, c: int, d: int, subtract: bool, min: int)
    requires Normalized(a, b) && Normalized(c, d) && min < 0 && InType(c, min)
    ensures var v := SumTrace(a, b, c, d, subtract);
            if SameWay(a, c, subtract) then InType(v[5], min) ==> InType(v[3], min) && InType(v[4], min)
            else InType(v[3], min) && InType(v[4], min) ==> InType(v[5], min)
  {
    var g := Gcd(b, d);
    GcdParts(b, d);
    PositivePart(b, g);
    PositivePart(d, g);
    SignOfFactor(a, CDiv(d, g));
    SignOfFactor(c, CDiv(b, g));
    if a == 0 {
      ZeroIsOverOne(b);
      QuotientInType(b, g, min);
    }
  }

  lemma SignOfFactor(x: int, y: int)
    requires y > 0
    ensures x > 0 ==> x * y > 0
    ensures x < 0 ==> x * y < 0
    ensures x == 0 ==> x * y == 0
  {
  }

  lemma ZeroIsOverOne(b: int)
    requires Normalized(0, b)
    ensures b == 1
  {
    CoprimeIffGcdOne(0, b);
    GcdOfZero(b);
  }

  /** Two additions whose sum fits and which are not safe, on every type with an even smallest
      value: one forms a numerator that would be reduced, and one a product that would be
      compensated. */
  lemma UnsafeSums(q: int, promoted: bool)
    requires q < -1
    ensures SumTrace(-2 * q - 1, 2, 1, 2, false) == [2, 1, 1, -2 * q - 1, 1, -2 * q, 2, -q, 1, 1]
    ensures !SumSafe(-2 * q - 1, 2, 1, 2, false, 2 * q, promoted)
    ensures SumTrace(-2 * q - 1, 2, q - 1, 1, false) == [1, 2, 1, -2 * q - 1, 2 * q - 2, -3, 1, -3, 1, 2]
    ensures !SumSafe(-2 * q - 1, 2, q - 1, 1, false, 2 * q, promoted)
  {
    ReducedSumTrace(q);
    CompensatedSumTrace(q);
    var v, w := SumTrace(-2 * q - 1, 2, 1, 2, false), SumTrace(-2 * q - 1, 2, q - 1, 1, false);
    assert !InType(v[5], 2 * q) && !InType(w[4], 2 * q);
  }

  lemma ReducedSumTrace(q: int)
    requires q < -1
    ensures SumTrace(-2 * q - 1, 2, 1, 2, false) == [2, 1, 1, -2 * q - 1, 1, -2 * q, 2, -q, 1, 1]
  {
    GcdScale(1, 1, 2);
    GcdWithOne(1);
    GcdScale(-q, 1, 2);
    GcdWithOne(-q);
    assert CDiv(-2 * q, 2) == -q && CDiv(2, 2) == 1;
  }

  lemma CompensatedSumTrace(q: int)
    ensures SumTrace(-2 * q - 1, 2, q - 1, 1, false) == [1, 2, 1, -2 * q - 1, 2 * q - 2, -3, 1, -3, 1, 2]
  {
    GcdWithOne(2);
    GcdWithOne(1);
    GcdWithOne(-3);
  }

  /** On any fixed-width type a multiplication overflows only if the reduced result itself,
      the fifth and the last value, does not fit; its two gcd calls are always defined. */
  lemma ProductFits(a: int, b: int, c: int, d: int, min: int, promoted: bool)
    requires b > 0 && d > 0 && min <= 0
    requires InType(a, min) && InType(b, min) && InType(c, min) && InType(d, min)
    ensures GcdCallFits(a, d, min, promoted) && GcdCallFits(c, b, min, promoted)
    ensures var t := ProductTrace(a, b, c, d); AllInType(t, min) <==> InType(t[4], min) && InType(t[7], min)
  {
    var g, h := Gcd(a, d), Gcd(c, b);
    GcdParts(a, d);
    GcdParts(c, b);
    GcdCallsFit(a, d, min, promoted);
    GcdCallsFit(c, b, min, promoted);
    QuotientInType(a, g, min);
    QuotientInType(c, h, min);
    QuotientInType(b, h, min);
    QuotientInType(d, g, min);
    var t := ProductTrace(a, b, c, d);
    assert AllInType(t, min) ==> InType(t[4], min) && InType(t[7], min);
  }

  /** A division of two numbers other than zero. */
  ghost predicate QuotientSafe(a: int, b: int, c: int, d: int, min: int, promoted: bool)
    requires min <= 0 && InType(a, min) && InType(b, min) && InType(c, min) && InType(d, min)
  {
    && GcdCallFits(a, c, min, promoted)
    && GcdCallFits(d, b, min, promoted)
    && AllInType(QuotientTrace(a, b, c, d), min)
  }

  /** A division is safe exactly if the reduced result fits, the numerators are not both the
      smallest value, and the sign of a negative divisor does not have to be moved to make a
      numerator the smallest value. */
  lemma QuotientFits(a: int, b: int, c: int, d: int, min: int, promoted: bool)
    requires a != 0 && b > 0 && c != 0 && d > 0 && min < 0
    requires InType(a, min) && InType(b, min) && InType(c, min) && InType(d, min)
    ensures var t := QuotientTrace(a, b, c, d);
            && |t| >= 8
            && var n, k := QuotientNum(t), QuotientDen(t);
            QuotientSafe(a, b, c, d, min, promoted)
            <==> InType(n, min) && InType(k, min) && !(a == min && c == min) && !(c < 0 && n == min)
  {
    GcdCallsFit(a, c, min, promoted);
    GcdCallsFit(d, b, min, promoted);
    QuotientTraceFits(a, b, c, d, min);
    GcdIsSmallest(a, c, min);
    if MinAndMinusOne(a, c, min) && !(a == min && c == min) {
      MinOverMinusOne(a, b, c, d, min);
    }
  }

  lemma QuotientTraceFits(a: int, b: int, c: int, d: int, min: int)
    requires a != 0 && b > 0 && c != 0 && d > 0 && min < 0
    requires InType(a, min) && InType(b, min) && InType(c, min) && InType(d, min)
    ensures var t := QuotientTrace(a, b, c, d);
            && |t| >= 8
            && var n, k := QuotientNum(t), QuotientDen(t);
            AllInType(t, min)
            <==> InType(Gcd(a, c), min) && InType(n, min) && InType(k, min) && !(c < 0 && n == min)
  {
    QuotientParts(a, b, c, d, min);
    var g, h := Gcd(a, c), Gcd(d, b);
    EachFits(QuotientTrace(a, b, c, d), min, CDiv(a, g) * CDiv(d, h), CDiv(b, h) * CDiv(c, g));
  }

  lemma QuotientParts(a: int, b: int, c: int, d: int, min: int)
    requires a != 0 && b > 0 && c != 0 && d > 0
    requires InType(a, min) && InType(b, min) && InType(c, min) && InType(d, min)
    ensures var g, h := Gcd(a, c), Gcd(d, b);
            && g > 0 && h > 0 && InType(h, min)
            && var a', d', b', c' := CDiv(a, g), CDiv(d, h), CDiv(b, h), CDiv(c, g);
            && InType(a', min) && InType(d', min) && InType(b', min) && InType(c', min)
            && d' > 0 && b' > 0 && (b' * c' < 0 <==> c < 0)
  {
    var g, h := Gcd(a, c), Gcd(d, b);
    GcdParts(a, c);
    GcdParts(d, b);
    GcdBounded(d, b);
    QuotientInType(a, g, min);
    QuotientInType(d, h, min);
    QuotientInType(b, h, min);
    QuotientInType(c, g, min);
    PositivePart(d, h);
    PositivePart(b, h);
    SignOfProduct(CDiv(b, h), CDiv(c, g));
  }

  lemma SignOfProduct(x: int, y: int)
    requires x > 0 && y != 0
    ensures x * y < 0 <==> y < 0
    ensures x * y != 0
  {
  }

  /** Splits a division's values into the parts, the quotient, and the quotient with its sign
      moved. */
  lemma EachFits(t: seq<int>, min: int, n: int, k: int)
    requires |t| >= 8 && t[4] == n && t[7] == k && min < 0
    requires t[8..] == if k < 0 then [-n, -k] else []
    requires forall i :: 1 <= i < 7 && i != 4 ==> InType(t[i], min)
    ensures AllInType(t, min)
       <==> InType(t[0], min) && InType(QuotientNum(t), min) && InType(QuotientDen(t), min)
            && !(k < 0 && QuotientNum(t) == min)
  {
    if k < 0 {
      assert t[8] == t[8..][0] == -n && t[9] == t[8..][1] == -k;
      assert |t| == 8 + |t[8..]| == 10;
    } else {
      assert |t| == 8 + |t[8..]| == 8;
    }
    if AllInType(t, min) {
      assert InType(t[4], min);
    }
  }

  /** Without promotion, a gcd call with the smallest value and -1 is undefined, but then the
      quotient does not fit either. */
  lemma MinOverMinusOne(a: int, b: int, c: int, d: int, min: int)
    requires MinAndMinusOne(a, c, min) && min < -1 && b > 0 && d > 0
    requires InType(a, min) && InType(b, min) && InType(c, min) && InType(d, min)
    ensures var t := QuotientTrace(a, b, c, d);
            |t| == 10 && !(InType(t[8], min) && InType(t[9], min))
  {
    QuotientParts(a, b, c, d, min);
    FailingInputs(min, false);
    var h := Gcd(d, b);
    LargeProducts(a, CDiv(b, h), c, CDiv(d, h), min);
  }

  lemma LargeProducts(a: int, b': int, c: int, d': int, min: int)
    requires MinAndMinusOne(a, c, min) && b' > 0 && d' > 0
    ensures CDiv(a, 1) == a && CDiv(c, 1) == c
    ensures !(InType(-(a * d'), min) && InType(-(b' * c), min))
  {
    if a == min {
      MulLessOrEqual(1, d', -min);
      assert a * d' == -(d' * -min);
    } else {
      MulLessOrEqual(1, b', -min);
      assert b' * c == -(b' * -min);
    }
  }

  /** Two divisions whose quotient fits and which are not safe: of the smallest value by itself,
      and one that forms the negative of the smallest value before it moves the sign. */
  lemma UnsafeQuotients(q: int, promoted: bool)
    requires q < -1
    ensures QuotientTrace(2 * q, 1, 2 * q, 1) == [-2 * q, 1, -1, 1, -1, 1, -1, -1, 1, 1]
    ensures !QuotientSafe(2 * q, 1, 2 * q, 1, 2 * q, promoted)
    ensures QuotientTrace(-q, 1, -1, 2) == [1, 1, -q, 2, -2 * q, 1, -1, -1, 2 * q, 1]
    ensures !QuotientSafe(-q, 1, -1, 2, 2 * q, promoted)
  {
    GcdIsSmallest(2 * q, 2 * q, 2 * q);
    GcdBounded(1, 1);
    GcdWithOne(1);
    GcdWithOne(2);
    GcdWithOne(-q);
    GcdNegate(1, -q);
    GcdSymmetric(-1, -q);
    GcdSymmetric(1, -q);
    assert CDiv(2 * q, -2 * q) == -1;
    QuotientFits(2 * q, 1, 2 * q, 1, 2 * q, promoted);
    QuotientFits(-q, 1, -1, 2, 2 * q, promoted);
  }

  lemma GcdWithOne(a: int)
    ensures Gcd(a, 1) == 1 && CDiv(a, 1) == a
  {
    CoprimeBy(a, 1, 0, 1);
    CoprimeIffGcdOne(a, 1);
  }

  // ----- Normalization

  /** A smallest numerator over a coprime negative denominator loses its sign, and a
      denominator that is the smallest value cannot be made positive.  Over -1 the gcd is
      undefined instead, unless the type is promoted. */
  lemma UnsafeFractions(min: int, promoted: bool)
    requires min < -2
    ensures !GcdUndefined(min, min + 1, min, promoted) && SignLost(min, min + 1, min)
    ensures Ratio(min, -(min + 1)) < 0.0 < Ratio(min, min + 1)
    ensures GcdUndefined(min, -1, min, promoted) == !promoted && SignLost(min, -1, min)
    ensures !GcdUndefined(1, min, min, promoted) && Gcd(1, min) == 1 && Negated(min, min) < 0
  {
    CoprimeBy(min, min + 1, -1, 1);
    CoprimeIffGcdOne(min, min + 1);
    FailingInputs(min, promoted);
    GcdWithOne(min);
    GcdSymmetric(1, min);
    NegativeBelow(min);
    RatioLess(min, -(min + 1), 0, 1);
    RatioOfWhole(0);
  }

  lemma NegativeBelow(min: int)
    requires min < -2
    ensures Normalized(min, -(min + 1)) && Ratio(min, -(min + 1)) == -Ratio(min, min + 1)
  {
    CoprimeBy(min, -(min + 1), -1, -1);
    RatioTimes(min, min + 1);
    RatioIs(min, -(min + 1), -Ratio(min, min + 1));
  }

  /** On every type, the smallest value over the next one comes out positive as written and
      negative as normalized. */
  method NormalizeLosesSign(min: int, promoted: bool) returns (r: Rational)
    requires min < -2
    ensures fresh(r) && r.num == min && r.den == -(min + 1)
    ensures r.Value() == -Ratio(min, min + 1) < 0.0
  {
    UnsafeFractions(min, promoted);
    r := new Rational.Raw(min, min + 1);
    var o := r.NormalizeTyped(min, promoted);
    NegativeBelow(min);
    NormalFormUnique(r.num, r.den, min, -(min + 1));
  }

  /** On every type, one over the smallest value is refused. */
  method NormalizeRefuses(min: int, promoted: bool) returns (o: TypedOutcome)
    requires min < -2
    ensures o == SingularDenominator
  {
    UnsafeFractions(min, promoted);
    var r := new Rational.Raw(1, min);
    o := r.NormalizeTyped(min, promoted);
  }

  // ----- What the lists of values hold

  /** The values of an addition or subtraction: what the gcd leaves of the denominators, the
      products with it, their sum, and the parts of the reduced result. */
  lemma SumTraceMeans(a: int, b: int, c: int, d: int, subtract: bool)
    requires b > 0 && d > 0
    ensures var v := SumTrace(a, b, c, d, subtract);
            && v[0] == Gcd(b, d) && v[1] * v[0] == b && v[2] * v[0] == d
            && v[3] == a * v[2] && v[4] == c * v[1] && v[5] == (if subtract then v[3] - v[4] else v[3] + v[4])
            && v[6] == Gcd(v[5], v[0]) && v[7] * v[6] == v[5] && v[8] * v[6] == d && v[9] == v[1] * v[8]
  {
    var v := SumTrace(a, b, c, d, subtract);
    GcdParts(b, d);
    GcdParts(v[5], v[0]);
    DividesTransitive(v[6], v[0], d);
    ExactQuotient(d, v[6]);
  }

  /** The values of a multiplication: the two gcds, and the products of what they leave. */
  lemma ProductTraceMeans(a: int, b: int, c: int, d: int)
    requires b > 0 && d > 0
    ensures var v := ProductTrace(a, b, c, d);
            && v[0] == Gcd(a, d) && v[1] == Gcd(c, b)
            && v[2] * v[0] == a && v[3] * v[1] == c && v[4] == v[2] * v[3]
            && v[5] * v[1] == b && v[6] * v[0] == d && v[7] == v[5] * v[6]
  {
    GcdParts(a, d);
    GcdParts(c, b);
  }

  /** The values of a division of numbers other than zero, with the negated results if the
      divisor is negative. */
  lemma QuotientTraceMeans(a: int, b: int, c: int, d: int)
    requires a != 0 && b > 0 && c != 0 && d > 0
    ensures var v := QuotientTrace(a, b, c, d);
            && |v| == (if c < 0 then 10 else 8)
            && v[0] == Gcd(a, c) && v[1] == Gcd(d, b)
            && v[2] * v[0] == a && v[3] * v[1] == d && v[4] == v[2] * v[3]
            && v[5] * v[1] == b && v[6] * v[0] == c && v[7] == v[5] * v[6]
            && (c < 0 ==> v[8] == -v[4] && v[9] == -v[7])
  {
    GcdParts(a, c);
    GcdParts(d, b);
    QuotientParts(a, b, c, d, 0);
  }
}
