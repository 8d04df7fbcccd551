/** Rational numbers over an unbounded integer type, updated in place and kept in normal form
    by cross-cancelling.
  */
module RationalNumbers {
  import opened NumberTheory
  import opened CommonFactor
  import opened Ratios
  import opened Wrappers

  /** integer::gcd on a type without a smallest value. */
  method GcdOf(a: int, b: int) returns (g: nat)
    ensures g == Gcd(a, b)
  {
    ghost var held;
    var r;
    r, held := IntegerGcd(a, b, 0, false);
    g := r.value;
  }

  // ----- Arithmetic that records its results

  method Plus(x: int, y: int, ghost before: seq<int>) returns (z: int, ghost held: seq<int>)
    ensures z == x + y && held == before + [z]
  {
    z := x + y;
    held := before + [z];
  }

  method Minus(x: int, y: int, ghost before: seq<int>) returns (z: int, ghost held: seq<int>)
    ensures z == x - y && held == before + [z]
  {
    z := x - y;
    held := before + [z];
  }

  method Negative(x: int, ghost before: seq<int>) returns (z: int, ghost held: seq<int>)
    ensures z == -x && held == before + [z]
  {
    z := -x;
    held := before + [z];
  }

  method Times(x: int, y: int, ghost before: seq<int>) returns (z: int, ghost held: seq<int>)
    ensures z == x * y && held == before + [z]
  {
    z := x * y;
    held := before + [z];
  }

  method Divided(x: int, y: int, ghost before: seq<int>) returns (z: int, ghost held: seq<int>)
    requires y != 0
    ensures z == CDiv(x, y) && held == before + [z]
  {
    z := CDiv(x, y);
    held := before + [z];
  }

  method Rest(x: int, y: int, ghost before: seq<int>) returns (z: int, ghost held: seq<int>)
    requires y != 0
    ensures z == CMod(x, y) && held == before + [z]
  {
    z := CMod(x, y);
    held := before + [z];
  }

  method DividedBoth(x: int, y: int, g: int, ghost before: seq<int>)
    returns (u: int, v: int, ghost held: seq<int>)
    requires g != 0
    ensures u == CDiv(x, g) && v == CDiv(y, g) && held == before + [u, v]
  {
    u, held := Divided(x, g, before);
    v, held := Divided(y, g, held);
  }

  /** The product of two numbers after a cancellation in each. */
  method CancelledProduct(x: int, g: int, y: int, h: int, ghost before: seq<int>)
    returns (z: int, ghost held: seq<int>)
    requires g != 0 && h != 0
    ensures z == CDiv(x, g) * CDiv(y, h) && held == before + [CDiv(x, g), CDiv(y, h), z]
  {
    var u, v;
    u, held := Divided(x, g, before);
    v, held := Divided(y, h, held);
    z, held := Times(u, v, held);
  }

  // ----- Numbers

  /** A divisor of a number of the type, and what is left of it, are numbers of the type. */
  lemma QuotientInType(a: int, g: int, min: int)
    requires g > 0
    ensures if a < 0 then a <= CDiv(a, g) <= 0 else 0 <= CDiv(a, g) <= a
    ensures InType(a, min) ==> InType(CDiv(a, g), min)
  {
    CDivCMod(a, g);
    var q, r := CDiv(a, g), CMod(a, g);
    if a < 0 {
      assert -a == g * -q + -r;
      QuotientBelow(-a, g, -q, -r);
    } else {
      QuotientBelow(a, g, q, r);
    }
  }

  lemma QuotientBelow(a: nat, g: nat, q: int, r: nat)
    requires a == g * q + r && r < g
    ensures 0 <= q <= a
  {
    if q < 0 {
      NonpositiveProduct(q + 1, g);
    } else {
      NonpositiveProduct(-q, g - 1);
    }
  }

  /** A thrown bad_rational, or none. */
  datatype Outcome = Done | BadRational

  /** How the normalization of a fixed-width number ends: two exceptions, and a remainder
      that the language does not define. */
  datatype TypedOutcome = Normal | ZeroDenominator | SingularDenominator | UndefinedGcd

  /** -x on a type whose smallest value is its own negative. */
  function Negated(x: int, min: int): (y: int) {
    if min < 0 && x == min then min else -x
  }

  /** Does moving the sign of the denominator to the numerator lose it? */
  ghost predicate SignLost(n: int, d: int, min: int) {
    min < 0 && n == min && d < 0 && Gcd(n, d) == 1
  }

  class Rational {
    var num: int
    var den: int

    ghost predicate Valid()
      reads this
    {
      Normalized(num, den)
    }

    function Value(): (x: real)
      requires den != 0
      reads this
    {
      Ratio(num, den)
    }

    constructor Zero()
      ensures Valid() && Value() == 0.0
    {
      num, den := 0, 1;
      new;
      CoprimeBy(0, 1, 0, 1);
    }

    constructor OfInteger(n: int)
      ensures Valid() && Value() == n as real
    {
      num, den := n, 1;
      new;
      CoprimeBy(n, 1, 0, 1);
    }

    /** The two-argument constructor before it normalizes. */
    constructor Raw(n: int, d: int)
      ensures num == n && den == d
    {
      num, den := n, d;
    }

    /** On a type whose smallest value is `min`.  The negations wrap, as the test after them
        expects, so a denominator can stay negative; a numerator that does is not noticed. */
    method NormalizeTyped(min: int, promoted: bool) returns (o: TypedOutcome)
      requires min <= 0 && InType(1, min) && InType(num, min) && InType(den, min)
      modifies this
      ensures o == ZeroDenominator <==> old(den) == 0
      ensures o == UndefinedGcd <==> old(num != 0 && den != 0 && GcdUndefined(num, den, min, promoted))
      ensures o == SingularDenominator
         <==> o != UndefinedGcd && old(num != 0 && min < 0 && den == min && Gcd(num, den) == 1)
      ensures o == ZeroDenominator ==> num == old(num) && den == old(den)
      ensures o == Normal ==> Valid() && InType(num, min) && InType(den, min)
      ensures o == Normal ==> Value() == if old(SignLost(num, den, min)) then -old(Value()) else old(Value())
      ensures o == Normal && old(min >= 0 || num != min || den > 0 || Gcd(num, den) != 1) ==> Value() == old(Value())
    {
      if den == 0 {
        return ZeroDenominator;
      }
      ghost var n, d := num, den;
      if num == 0 {
        den := 1;
        CoprimeBy(0, 1, 0, 1);
        RatioZero(n, d);
        return Normal;
      }
      var g: Option<nat>;
      ghost var held;
      g, held := IntegerGcd(num, den, min, promoted);
      if g.None? {
        return UndefinedGcd;
      }
      NormalizedParts(n, d, g.value);
      TypedParts(n, d, g.value, min);
      num := CDiv(num, g.value);
      den := CDiv(den, g.value);
      ghost var n', d' := num, den;
      if den < 0 {
        num := Negated(num, min);
        den := Negated(den, min);
      }
      if den < 0 {
        return SingularDenominator;
      }
      o := Normal;
    }

    method Normalize() returns (o: Outcome)
      modifies this
      ensures o == BadRational <==> old(den) == 0
      ensures o == Done ==> Valid() && Value() == Ratio(old(num), old(den))
      ensures o == BadRational ==> num == old(num) && den == old(den)
    {
      var t := NormalizeTyped(0, false);
      o := if t == Normal then Done else BadRational;
    }

    /** Builds the new value aside and copies it, so a failure leaves the old one alone. */
    method Assign(n: int, d: int) returns (o: Outcome)
      modifies this
      ensures o == BadRational <==> d == 0
      ensures o == Done ==> Valid() && Value() == Ratio(n, d)
      ensures o == BadRational ==> num == old(num) && den == old(den)
    {
      var t := new Rational.Raw(n, d);
      o := t.Normalize();
      if o == Done {
        num, den := t.num, t.den;
      }
    }

    // ----- Arithmetic with another rational, which may be this one

    /** `held` lists every value the operation computes, in order. */
    method AddAssign(r: Rational) returns (ghost held: seq<int>)
      requires Valid() && r.Valid()
      modifies this
      ensures Valid() && Value() == old(Value()) + old(r.Value())
      ensures held == SumTrace(old(num), old(den), old(r.num), old(r.den), false)
      ensures num == held[7] && den == held[9]
    {
      var rNum := r.num;
      var rDen := r.den;
      ghost var a, b := num, den;
      var d1, p, q, e;
      var g := GcdOf(den, rDen);
      held := [g];
      den, d1, held := DividedBoth(den, rDen, g, held);
      p, held := Times(num, d1, held);
      q, held := Times(rNum, den, held);
      num, held := Plus(p, q, held);
      ghost var g0, b1, t := g, den, num;
      g := GcdOf(num, g);
      held := held + [g];
      num, e, held := DividedBoth(num, rDen, g, held);
      den, held := Times(den, e, held);
      SumIsExact(a, b, rNum, rDen, g0, b1, d1, t, g);
    }

    /** `held` lists every value the operation computes, in order. */
    method SubAssign(r: Rational) returns (ghost held: seq<int>)
      requires Valid() && r.Valid()
      modifies this
      ensures Valid() && Value() == old(Value()) - old(r.Value())
      ensures held == SumTrace(old(num), old(den), old(r.num), old(r.den), true)
      ensures num == held[7] && den == held[9]
    {
      var rNum := r.num;
      var rDen := r.den;
      ghost var a, b := num, den;
      var d1, p, q, e;
      var g := GcdOf(den, rDen);
      held := [g];
      den, d1, held := DividedBoth(den, rDen, g, held);
      p, held := Times(num, d1, held);
      q, held := Times(rNum, den, held);
      num, held := Minus(p, q, held);
      ghost var g0, b1, t := g, den, num;
      g := GcdOf(num, g);
      held := held + [g];
      num, e, held := DividedBoth(num, rDen, g, held);
      den, held := Times(den, e, held);
      DifferenceIsExact(a, b, rNum, rDen, g0, b1, d1, t, g);
    }

    /** `held` lists every value the operation computes, in order. */
    method MulAssign(r: Rational) returns (ghost held: seq<int>)
      requires Valid() && r.Valid()
      modifies this
      ensures Valid() && Value() == old(Value()) * old(r.Value())
      ensures held == ProductTrace(old(num), old(den), old(r.num), old(r.den))
      ensures num == held[4] && den == held[7]
    {
      var rNum := r.num;
      var rDen := r.den;
      ghost var a, b := num, den;
      var gcd1 := GcdOf(num, rDen);
      var gcd2 := GcdOf(rNum, den);
      held := [gcd1, gcd2];
      ProductIsExact(a, b, rNum, rDen, gcd1, gcd2);
      num, held := CancelledProduct(num, gcd1, rNum, gcd2, held);
      den, held := CancelledProduct(den, gcd2, rDen, gcd1, held);
    }

    /** `held` lists every value the operation computes, in order. */
    method DivAssign(r: Rational) returns (o: Outcome, ghost held: seq<int>)
      requires Valid() && r.Valid()
      modifies this
      ensures Valid()
      ensures o == BadRational <==> old(r.Value()) == 0.0
      ensures o == BadRational ==> num == old(num) && den == old(den)
      ensures o == Done ==> Value() == old(Value()) / old(r.Value())
      ensures held == QuotientTrace(old(num), old(den), old(r.num), old(r.den))
      ensures held != [] ==> num == QuotientNum(held) && den == QuotientDen(held)
    {
      var rNum := r.num;
      var rDen := r.den;
      ghost var a, b := num, den;
      RatioZero(rNum, rDen);
      RatioZero(a, b);
      held := [];
      if rNum == 0 {
        return BadRational, held;
      }
      o := Done;
      if num == 0 {
        return;
      }
      var gcd1 := GcdOf(num, rNum);
      var gcd2 := GcdOf(rDen, den);
      held := [gcd1, gcd2];
      QuotientIsExact(a, b, rNum, rDen, gcd1, gcd2);
      num, held := CancelledProduct(num, gcd1, rDen, gcd2, held);
      den, held := CancelledProduct(den, gcd2, rNum, gcd1, held);
      if den < 0 {
        num, held := Negative(num, held);
        den, held := Negative(den, held);
      }
    }

    // ----- Arithmetic with an integer

    method AddInteger(i: int)
      requires Valid()
      modifies this`num
      ensures Valid() && Value() == old(Value()) + i as real
    {
      ghost var a := num;
      CoprimeShift(num, den, i);
      num := num + i * den;
      RatioShift(a, den, i);
    }

    method SubInteger(i: int)
      requires Valid()
      modifies this`num
      ensures Valid() && Value() == old(Value()) - i as real
    {
      ghost var a := num;
      CoprimeShift(num, den, -i);
      num := num - i * den;
      RatioShift(a, den, -i);
    }

    method MulInteger(i: int)
      requires Valid()
      modifies this
      ensures Valid() && Value() == old(Value()) * i as real
    {
      ghost var a, b := num, den;
      var gcd := GcdOf(i, den);
      IntegerProductIsExact(a, b, i, gcd);
      num := num * CDiv(i, gcd);
      den := CDiv(den, gcd);
    }

    method DivInteger(i: int) returns (o: Outcome)
      requires Valid()
      modifies this
      ensures Valid()
      ensures o == BadRational <==> i == 0
      ensures o == BadRational ==> num == old(num) && den == old(den)
      ensures o == Done ==> Value() == old(Value()) / i as real
    {
      ghost var a, b := num, den;
      RatioZero(a, b);
      if i == 0 {
        return BadRational;
      }
      o := Done;
      if num == 0 {
        return;
      }
      var gcd := GcdOf(num, i);
      IntegerQuotientIsExact(a, b, i, gcd);
      num := CDiv(num, gcd);
      den := den * CDiv(i, gcd);
      if den < 0 {
        num := -num;
        den := -den;
      }
    }

    method Increment()
      requires Valid()
      modifies this`num
      ensures Valid() && Value() == old(Value()) + 1.0
    {
      ghost var a := num;
      CoprimeShift(num, den, 1);
      num := num + den;
      RatioShift(a, den, 1);
    }

    method Decrement()
      requires Valid()
      modifies this`num
      ensures Valid() && Value() == old(Value()) - 1.0
    {
      ghost var a := num;
      CoprimeShift(num, den, -1);
      num := num - den;
      RatioShift(a, den, -1);
    }

    // ----- Comparison

    /** Componentwise, and yet equality of value. */
    method Equals(r: Rational) returns (eq: bool)
      requires Valid() && r.Valid()
      ensures eq <==> Value() == r.Value()
    {
      eq := num == r.num && den == r.den;
      if Value() == r.Value() {
        NormalFormUnique(num, den, r.num, r.den);
      }
    }

    method EqualsInteger(i: int) returns (eq: bool)
      requires Valid()
      ensures eq <==> Value() == i as real
    {
      eq := den == 1 && num == i;
      RatioOfWhole(i);
      if Value() == i as real {
        CoprimeBy(i, 1, 0, 1);
        NormalFormUnique(num, den, i, 1);
      }
    }

    /** Compares the floor with the integer. */
    method LessThanInteger(i: int) returns (less: bool)
      requires den > 0
      ensures less <==> Value() < i as real
    {
      var q, rem := CDiv(num, den), CMod(num, den);
      CDivCMod(num, den);
      while rem < 0
        invariant num == den * q + rem && -den < rem < den
        decreases -rem
      {
        rem := rem + den;
        q := q - 1;
        assert den * (q + 1) == den * q + den;
      }
      less := q < i;
      FloorBelow(num, den, q, i);
      RatioLess(num, den, i, 1);
      RatioOfWhole(i);
    }

    /** Compares the two continued fractions, component by component, without multiplying.
        `held` lists every value that the two records take. */
    method LessThan(r: Rational) returns (less: bool, ghost held: seq<int>)
      requires den > 0 && r.den > 0
      ensures less <==> Value() < r.Value()
      ensures held == ComparisonTrace(num, den, r.num, r.den)
    {
      RatioLess(num, den, r.num, r.den);
      var ts, rs;
      ts, held := Expand(num, den, []);
      rs, held := Expand(r.num, r.den, held);
      ghost var all := ComparisonTrace(num, den, r.num, r.den);
      assert held == FirstTrace(num, den) + FirstTrace(r.num, r.den);
      var reverse := false;
      while true
        invariant ts.Valid() && rs.Valid()
        invariant (num * r.den < r.num * den) == Before(ts, rs, reverse)
        invariant held + LoopTrace(ts, rs) == all
        decreases ts.d
      {
        TraceEnds(held, ts, rs);
        if ts.q != rs.q {
          QuotientsDecide(ts, rs);
          QuotientsDecide(rs, ts);
          less := if reverse then ts.q > rs.q else ts.q < rs.q;
          return;
        }
        RemaindersDecide(ts, rs);
        RemaindersDecide(rs, ts);
        reverse := !reverse;
        if ts.r == 0 || rs.r == 0 {
          break;
        }
        ts, rs, held := FollowBoth(ts, rs, held);
      }
      ZeroRemainderDecides(ts, rs);
      if ts.r == rs.r {
        less := false;
      } else {
        less := (ts.r != 0) != reverse;
      }
    }

    method GreaterThan(r: Rational) returns (greater: bool)
      requires den > 0 && r.den > 0
      ensures greater <==> Value() > r.Value()
    {
      ghost var held;
      greater, held := r.LessThan(this);
    }

    /** Not greater. */
    method AtMost(r: Rational) returns (le: bool)
      requires den > 0 && r.den > 0
      ensures le <==> Value() <= r.Value()
    {
      var gt := GreaterThan(r);
      le := !gt;
    }

    /** Not less. */
    method AtLeast(r: Rational) returns (ge: bool)
      requires den > 0 && r.den > 0
      ensures ge <==> Value() >= r.Value()
    {
      var lt;
      ghost var held;
      lt, held := LessThan(r);
      ge := !lt;
    }

    method GreaterThanInteger(i: int) returns (greater: bool)
      requires Valid()
      ensures greater <==> Value() > i as real
    {
      var eq := EqualsInteger(i);
      var less := LessThanInteger(i);
      greater := if eq then false else !less;
    }
  }

  // ----- Continued fractions

  /** One component of a continued fraction: the fraction n/d, its floor q and what is left. */
  datatype Component = Component(n: int, d: int, q: int, r: int)
  {
    ghost predicate Valid() {
      n == d * q + r && 0 <= r < d
    }

    function Held(): (v: seq<int>)
      ensures |v| == 4
    {
      [n, d, q, r]
    }

    /** The component of the reciprocal of what is left. */
    function Next(): (c: Component)
      requires 0 < r
    {
      Component(d, r, CDiv(d, r), CMod(d, r))
    }
  }

  /** The first component: the floor, and a remainder that is not negative. */
  function First(n: int, d: int): (c: Component)
    requires d > 0
  {
    if CMod(n, d) < 0 then Component(n, d, CDiv(n, d) - 1, CMod(n, d) + d)
    else Component(n, d, CDiv(n, d), CMod(n, d))
  }

  /** The values on the way to the first component: the correction happens once at most. */
  function FirstTrace(n: int, d: int): (held: seq<int>)
    requires d > 0
  {
    [n, d, CDiv(n, d), CMod(n, d)] + if CMod(n, d) < 0 then [CMod(n, d) + d, CDiv(n, d) - 1] else []
  }

  /** The values of the rounds that follow, while the quotients agree and both go on. */
  function LoopTrace(t: Component, s: Component): (held: seq<int>)
    decreases Abs(t.r)
  {
    if t.q != s.q || t.r <= 0 || s.r <= 0 then [] else
      t.Next().Held() + s.Next().Held() + LoopTrace(t.Next(), s.Next())
  }

  function ComparisonTrace(a: int, b: int, c: int, d: int): (held: seq<int>)
    requires b > 0 && d > 0
  {
    FirstTrace(a, b) + FirstTrace(c, d) + LoopTrace(First(a, b), First(c, d))
  }

  /** The truncated quotient corrected to the floor. */
  method Expand(n: int, d: int, ghost before: seq<int>) returns (s: Component, ghost held: seq<int>)
    requires d > 0
    ensures s.Valid() && s == First(n, d)
    ensures held == before + FirstTrace(n, d)
  {
    CDivCMod(n, d);
    s, held := Begin(n, d, before);
    ghost var q, r, start := s.q, s.r, held;
    while s.r < 0
      invariant (s == Component(n, d, q, r) && held == start)
             || (r < 0 && s == Component(n, d, q - 1, r + d) && held == start + [r + d] + [q - 1])
      decreases -s.r
    {
      var x;
      x, held := Plus(s.r, s.d, held);
      s := s.(r := x);
      x, held := Minus(s.q, 1, held);
      s := s.(q := x);
      assert d * (q - 1) == d * q - d;
    }
    FirstTraced(before, n, d);
  }

  /** The record of a fraction, with truncated quotient and remainder. */
  method Begin(n: int, d: int, ghost before: seq<int>) returns (s: Component, ghost held: seq<int>)
    requires d > 0
    ensures s == Component(n, d, CDiv(n, d), CMod(n, d))
    ensures held == before + s.Held()
  {
    var q, r;
    held := before + [n, d];
    q, held := Divided(n, d, held);
    r, held := Rest(n, d, held);
    s := Component(n, d, q, r);
  }

  /** The next component, from the denominator and the remainder of the last one. */
  method Follow(s: Component, ghost before: seq<int>) returns (next: Component, ghost held: seq<int>)
    requires s.r > 0
    ensures next == s.Next() && held == before + next.Held()
  {
    next, held := Begin(s.d, s.r, before);
  }

  /** One round of a comparison that goes on. */
  method FollowBoth(t: Component, s: Component, ghost before: seq<int>)
    returns (t': Component, s': Component, ghost held: seq<int>)
    requires t.Valid() && s.Valid() && t.q == s.q && t.r > 0 && s.r > 0
    ensures t' == t.Next() && s' == s.Next() && t'.Valid() && s'.Valid()
    ensures held + LoopTrace(t', s') == before + LoopTrace(t, s)
  {
    NextValid(t);
    NextValid(s);
    TraceContinues(before, t, s);
    t', held := Follow(t, before);
    s', held := Follow(s, held);
  }

  lemma FirstTraced(before: seq<int>, n: int, d: int)
    requires d > 0
    ensures var start, q, r := before + [n, d, CDiv(n, d), CMod(n, d)], CDiv(n, d), CMod(n, d);
            before + FirstTrace(n, d) == if r < 0 then start + [r + d] + [q - 1] else start
  {
    var start, q, r := before + [n, d, CDiv(n, d), CMod(n, d)], CDiv(n, d), CMod(n, d);
    assert start + [r + d] + [q - 1] == start + [r + d, q - 1];
  }

  lemma FirstValid(n: int, d: int)
    requires d > 0
    ensures First(n, d).Valid()
  {
    CDivCMod(n, d);
    assert d * (CDiv(n, d) - 1) == d * CDiv(n, d) - d;
  }

  lemma NextValid(s: Component)
    requires s.Valid() && s.r > 0
    ensures s.Next().Valid()
  {
    CDivCMod(s.d, s.r);
  }

  lemma TraceEnds(held: seq<int>, t: Component, s: Component)
    ensures t.q != s.q || t.r <= 0 || s.r <= 0 ==> held + LoopTrace(t, s) == held
  {
  }

  lemma TraceContinues(held: seq<int>, t: Component, s: Component)
    requires t.q == s.q && t.r > 0 && s.r > 0
    ensures held + LoopTrace(t, s) == held + t.Next().Held() + s.Next().Held() + LoopTrace(t.Next(), s.Next())
  {
  }

  /** The order of the two fractions, or its converse after an odd number of reciprocals. */
  predicate Before(t: Component, s: Component, reverse: bool) {
    if reverse then s.n * t.d < t.n * s.d else t.n * s.d < s.n * t.d
  }

  /** Different floors settle the order. */
  lemma QuotientsDecide(t: Component, s: Component)
    requires t.Valid() && s.Valid()
    ensures t.q < s.q ==> Before(t, s, false) && !Before(t, s, true)
  {
    if t.q < s.q {
      var x, y := t.d, s.d;
      MulLessOrEqual(t.q + 1, s.q, x);
      assert t.n < x * s.q;
      MulLess(t.n, x * s.q, y);
      MulLessOrEqual(y * s.q, s.n, x);
      assert (x * s.q) * y == (y * s.q) * x;
    }
  }

  /** Equal floors leave the order to the remainders. */
  lemma RemaindersDecide(t: Component, s: Component)
    requires t.Valid() && s.Valid() && t.q == s.q
    ensures Before(t, s, false) <==> t.r * s.d < s.r * t.d
  {
    assert t.n * s.d == (t.d * t.q) * s.d + t.r * s.d;
    assert s.n * t.d == (s.d * s.q) * t.d + s.r * t.d;
    assert (t.d * t.q) * s.d == (s.d * s.q) * t.d;
  }

  lemma ZeroRemainderDecides(t: Component, s: Component)
    requires t.Valid() && s.Valid() && (t.r == 0 || s.r == 0)
    ensures t.r * s.d < s.r * t.d <==> (t.r == 0 && s.r != 0)
    ensures s.r * t.d < t.r * s.d <==> (s.r == 0 && t.r != 0)
  {
  }

  lemma MulLess(a: int, b: int, k: int)
    requires a < b && k > 0
    ensures a * k < b * k
  {
  }

  lemma MulLessOrEqual(a: int, b: int, k: int)
    requires a <= b && k > 0
    ensures a * k <= b * k
  {
  }

  // ----- The algebra behind the operations

  lemma PositivePart(a: int, g: int)
    requires a > 0 && g > 0 && CDiv(a, g) * g == a
    ensures CDiv(a, g) > 0
  {
    if CDiv(a, g) <= 0 {
      NonpositiveProduct(CDiv(a, g), g);
    }
  }

  lemma NonpositiveProduct(a: int, g: int)
    requires a <= 0 && g >= 0
    ensures a * g <= 0
  {
  }

  lemma SameRatio(n: int, d: int, n': int, d': int, g: int)
    requires d != 0 && d' != 0 && n == n' * g && d == d' * g
    ensures Ratio(n', d') == Ratio(n, d)
  {
    RatioEqual(n', d', n, d);
    assert n' * (d' * g) == (n' * g) * d';
  }

  /** Dividing by the gcd and moving the sign to the numerator gives the normal form. */
  lemma NormalizedParts(a: int, b: int, g: nat)
    requires a != 0 && b != 0 && g == Gcd(a, b)
    ensures g > 0
    ensures var n, k := CDiv(a, g), CDiv(b, g);
            && k != 0
            && (if k < 0 then Normalized(-n, -k) && Ratio(-n, -k) == Ratio(a, b)
                else Normalized(n, k) && Ratio(n, k) == Ratio(a, b))
  {
    GcdParts(a, b);
    var n, k := CDiv(a, g), CDiv(b, g);
    CoprimeQuotients(a, b, n, k);
    SameRatio(a, b, n, k, g);
    SignMoved(n, k);
  }

  lemma SignMoved(n: int, k: int)
    requires k != 0 && Coprime(n, k)
    ensures if k < 0 then Normalized(-n, -k) && Ratio(-n, -k) == Ratio(n, k) else Normalized(n, k)
  {
    if k < 0 {
      CoprimeNegated(n, k);
      RatioEqual(-n, -k, n, k);
    }
  }

  /** The parts of a fixed-width fraction fit, and only a value without common factor can
      leave the smallest value as a part. */
  lemma TypedParts(a: int, b: int, g: nat, min: int)
    requires a != 0 && b != 0 && g == Gcd(a, b) && g > 0 && InType(a, min) && InType(b, min)
    ensures var n, k := CDiv(a, g), CDiv(b, g);
            && InType(n, min) && InType(k, min)
            && (min < 0 ==> (n == min <==> a == min && g == 1) && (k == min <==> b == min && g == 1))
            && (k < 0 <==> b < 0)
            && (k < 0 ==> Normalized(n, -k) && Ratio(n, -k) == -Ratio(a, b))
  {
    GcdParts(a, b);
    QuotientInType(a, g, min);
    QuotientInType(b, g, min);
    QuotientIsMin(a, g, min);
    QuotientIsMin(b, g, min);
    NormalizedParts(a, b, g);
    var n, k := CDiv(a, g), CDiv(b, g);
    if k < 0 {
      CoprimeNegated(-n, -k);
      RatioNegated(-n, -k);
    }
  }

  lemma QuotientIsMin(a: int, g: nat, min: int)
    requires g > 0 && CDiv(a, g) * g == a && InType(a, min)
    ensures min < 0 ==> (CDiv(a, g) == min <==> a == min && g == 1)
  {
    if min < 0 && CDiv(a, g) == min && g > 1 {
      MulLessOrEqual(2, g, -min);
    }
  }

  lemma SumIsExact(a: int, b: int, c: int, d: int, g: nat, b1: int, d1: int, t: int, h: nat)
    requires Normalized(a, b) && Normalized(c, d)
    requires g == Gcd(b, d) && g != 0 && b1 == CDiv(b, g) && d1 == CDiv(d, g)
    requires t == a * d1 + c * b1 && h == Gcd(t, g) && h != 0
    ensures Normalized(CDiv(t, h), b1 * CDiv(d, h))
    ensures Ratio(CDiv(t, h), b1 * CDiv(d, h)) == Ratio(a, b) + Ratio(c, d)
  {
    ReducedSum(a, b, c, d, g, b1, d1, t, h);
    RatioSum(a, b, c, d);
    RatioEqual(CDiv(t, h), b1 * CDiv(d, h), a * d + c * b, b * d);
  }

  lemma DifferenceIsExact(a: int, b: int, c: int, d: int, g: nat, b1: int, d1: int, t: int, h: nat)
    requires Normalized(a, b) && Normalized(c, d)
    requires g == Gcd(b, d) && g != 0 && b1 == CDiv(b, g) && d1 == CDiv(d, g)
    requires t == a * d1 - c * b1 && h == Gcd(t, g) && h != 0
    ensures Normalized(CDiv(t, h), b1 * CDiv(d, h))
    ensures Ratio(CDiv(t, h), b1 * CDiv(d, h)) == Ratio(a, b) - Ratio(c, d)
  {
    CoprimeNegated(c, d);
    RatioNegated(c, d);
    assert -(c * b1) == -c * b1;
    SumIsExact(a, b, -c, d, g, b1, d1, t, h);
  }

  lemma ReducedSum(a: int, b: int, c: int, d: int, g: nat, b1: int, d1: int, t: int, h: nat)
    requires Normalized(a, b) && Normalized(c, d)
    requires g == Gcd(b, d) && g != 0 && b1 == CDiv(b, g) && d1 == CDiv(d, g)
    requires t == a * d1 + c * b1 && h == Gcd(t, g) && h != 0
    ensures Normalized(CDiv(t, h), b1 * CDiv(d, h))
    ensures CDiv(t, h) * (b * d) == (a * d + c * b) * (b1 * CDiv(d, h))
  {
    GcdParts(b, d);
    PositivePart(b, g);
    PositivePart(d, g);
    CoprimeQuotients(b, d, b1, d1);
    CrossSumCoprime(a, b1, c, d1, b, d);
    GcdParts(t, g);
    var n, k := CDiv(t, h), CDiv(g, h);
    PositivePart(g, h);
    SumNormalForm(t, b1, d1, g, h, n, k);
    QuotientOfProduct(d, d1, g, k, h);
    SumCrossProduct(a, b, c, d, g, b1, d1, t, h, n, k);
  }

  lemma QuotientOfProduct(d: int, d1: int, g: int, k: int, h: int)
    requires d == d1 * g && g == k * h && h != 0
    ensures CDiv(d, h) == d1 * k
  {
    assert d1 * (k * h) == (d1 * k) * h;
    DividesBy(h, d, d1 * k);
    ExactQuotient(d, h);
    CancelFactor(h, CDiv(d, h), d1 * k);
  }

  lemma ProductIsExact(a: int, b: int, c: int, d: int, g: nat, h: nat)
    requires Normalized(a, b) && Normalized(c, d) && g == Gcd(a, d) && h == Gcd(c, b)
    ensures g > 0 && h > 0
    ensures var n, k := CDiv(a, g) * CDiv(c, h), CDiv(b, h) * CDiv(d, g);
            Normalized(n, k) && Ratio(n, k) == Ratio(a, b) * Ratio(c, d)
  {
    GcdParts(a, d);
    GcdParts(c, b);
    var a', d', c', b' := CDiv(a, g), CDiv(d, g), CDiv(c, h), CDiv(b, h);
    PositivePart(d, g);
    PositivePart(b, h);
    assert b' * d' > 0;
    CoprimeQuotients(a, d, a', d');
    CoprimeQuotients(c, b, c', b');
    ProductNormalForm(a, b, c, d, a', d', c', b');
    CrossProducts(a, b, c, d, g, h, a', d', c', b');
    RatioProduct(a, b, c, d);
    RatioEqual(a' * c', b' * d', a * c, b * d);
  }

  /** The values that an addition or subtraction computes: the gcd of the denominators, what it
      leaves of them, the two products and their sum, the second gcd, and the three values that
      reduce the result. */
  ghost function SumTrace(a: int, b: int, c: int, d: int, subtract: bool): (held: seq<int>)
    requires b > 0 && d > 0
    ensures |held| == 10
  {
    var g := Gcd(b, d);
    GcdParts(b, d);
    var b1, d1 := CDiv(b, g), CDiv(d, g);
    var p, q := a * d1, c * b1;
    var t := if subtract then p - q else p + q;
    var h := Gcd(t, g);
    GcdParts(t, g);
    [g, b1, d1, p, q, t, h, CDiv(t, h), CDiv(d, h), b1 * CDiv(d, h)]
  }

  /** The values that a multiplication computes: the gcds, the cancelled numerators and their
      product, and the same for the denominators. */
  ghost function ProductTrace(a: int, b: int, c: int, d: int): (held: seq<int>)
    ensures |held| == 8
  {
    var g, h := Gcd(a, d), Gcd(c, b);
    if g == 0 || h == 0 then seq(8, _ => 0) else
      var a', c', b', d' := CDiv(a, g), CDiv(c, h), CDiv(b, h), CDiv(d, g);
      [g, h, a', c', a' * c', b', d', b' * d']
  }

  /** Dividing by c/d is multiplying by d/c, up to the sign of the denominator. */
  lemma QuotientIsExact(a: int, b: int, c: int, d: int, g: nat, h: nat)
    requires Normalized(a, b) && Normalized(c, d) && c != 0 && g == Gcd(a, c) && h == Gcd(d, b)
    ensures g > 0 && h > 0
    ensures Ratio(c, d) != 0.0
    ensures var n, k := CDiv(a, g) * CDiv(d, h), CDiv(b, h) * CDiv(c, g);
            && k != 0
            && (if k < 0 then Normalized(-n, -k) && Ratio(-n, -k) == Ratio(a, b) / Ratio(c, d)
                else Normalized(n, k) && Ratio(n, k) == Ratio(a, b) / Ratio(c, d))
  {
    CoprimeSymmetric(c, d);
    GcdParts(a, c);
    GcdParts(d, b);
    var a', c', d', b' := CDiv(a, g), CDiv(c, g), CDiv(d, h), CDiv(b, h);
    CoprimeQuotients(a, c, a', c');
    CoprimeQuotients(d, b, d', b');
    ProductNormalForm(a, b, d, c, a', c', d', b');
    CrossProducts(a, b, d, c, g, h, a', c', d', b');
    RatioQuotient(a, b, c, d);
    var n, k := a' * d', b' * c';
    assert c' != 0 && b' != 0;
    RatioEqual(n, k, a * d, b * c);
    SignMoved(n, k);
  }

  /** The values that a division computes: the gcds, two cancelled parts and their product,
      twice, and the products with the sign moved if the denominator is negative. */
  ghost function QuotientTrace(a: int, b: int, c: int, d: int): (held: seq<int>)
    ensures |held| in {0, 8, 10}
  {
    var g, h := Gcd(a, c), Gcd(d, b);
    if a == 0 || c == 0 || g == 0 || h == 0 then [] else
      var a', d', b', c' := CDiv(a, g), CDiv(d, h), CDiv(b, h), CDiv(c, g);
      var n, k := a' * d', b' * c';
      [g, h, a', d', n, b', c', k] + if k < 0 then [-n, -k] else []
  }

  /** The numerator with which a division ends, and the denominator. */
  function QuotientNum(held: seq<int>): (n: int)
    requires |held| >= 8
  {
    if |held| == 10 then held[8] else held[4]
  }

  function QuotientDen(held: seq<int>): (k: int)
    requires |held| >= 8
  {
    if |held| == 10 then held[9] else held[7]
  }

  lemma IntegerProductIsExact(a: int, b: int, i: int, g: nat)
    requires Normalized(a, b) && g == Gcd(i, b)
    ensures g > 0
    ensures Normalized(a * CDiv(i, g), CDiv(b, g))
    ensures Ratio(a * CDiv(i, g), CDiv(b, g)) == Ratio(a, b) * i as real
  {
    GcdParts(i, b);
    var i', b' := CDiv(i, g), CDiv(b, g);
    PositivePart(b, g);
    CoprimeQuotients(i, b, i', b');
    CoprimeSymmetric(a, b);
    CoprimeDivisor(b', b, a);
    CoprimeSymmetric(b', a);
    CoprimeProduct(a, i', b');
    RatioProduct(a, b, i, 1);
    RatioOfWhole(i);
    SameRatio(a * i, b, a * i', b', g);
  }

  lemma IntegerQuotientIsExact(a: int, b: int, i: int, g: nat)
    requires Normalized(a, b) && i != 0 && g == Gcd(a, i)
    ensures g > 0
    ensures var n, k := CDiv(a, g), b * CDiv(i, g);
            && k != 0
            && (if k < 0 then Normalized(-n, -k) && Ratio(-n, -k) == Ratio(a, b) / i as real
                else Normalized(n, k) && Ratio(n, k) == Ratio(a, b) / i as real)
  {
    GcdParts(a, i);
    var a', i' := CDiv(a, g), CDiv(i, g);
    assert i' != 0;
    CoprimeQuotients(a, i, a', i');
    IntegerQuotientCoprime(a, b, a', i');
    IntegerQuotientValue(a, b, i, a', i', g);
    SignMoved(a', b * i');
  }

  lemma IntegerQuotientValue(a: int, b: int, i: int, a': int, i': int, g: int)
    requires b != 0 && i != 0 && a == a' * g && i == i' * g
    ensures i' != 0 && b * i' != 0 && Ratio(a', b * i') == Ratio(a, b) / i as real
  {
    RatioQuotient(a, b, i, 1);
    RatioOfWhole(i);
    Regroup(b, i', g);
    SameRatio(a, b * i, a', b * i', g);
  }

  lemma IntegerQuotientCoprime(a: int, b: int, a': int, i': int)
    requires Coprime(a, b) && Coprime(a', i') && Divides(a', a)
    ensures Coprime(a', b * i')
  {
    CoprimeDivisor(a', a, b);
    CoprimeSymmetric(a', b);
    CoprimeSymmetric(a', i');
    CoprimeProduct(b, i', a');
    CoprimeSymmetric(b * i', a');
  }

  lemma RatioShift(a: int, b: int, i: int)
    requires b > 0
    ensures Ratio(a + i * b, b) == Ratio(a, b) + i as real
  {
    RatioTimes(a, b);
    RatioIs(a + i * b, b, Ratio(a, b) + i as real);
  }

  lemma FloorBelow(n: int, d: int, q: int, i: int)
    requires d > 0 && d * q <= n < d * q + d
    ensures q < i <==> n < i * d
  {
    if q < i {
      assert d * (q + 1) <= d * i;
    } else {
      assert d * i <= d * q;
    }
  }
}
