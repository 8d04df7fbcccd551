/** The library's own greatest common divisor: the mixed binary Euclid algorithm behind a
    front end that looks after the most negative value of a fixed-width type.
  */
module CommonFactor {
  import opened NumberTheory
  import opened PowersOfTwo
  import opened Wrappers

  predicate Odd(v: int) {
    v % 2 == 1
  }

  /** What is left of a number without its factors of two. */
  function OddPart(val: nat): (odd: nat)
    requires val > 0
    ensures 0 < odd <= val && Odd(odd)
  {
    if val % 2 == 0 then OddPart(val / 2) else val
  }

  /** Strips the factors of two and says how many there were. */
  method MakeOdd(val: nat) returns (odd: nat, shift: nat)
    requires val > 0
    ensures odd > 0 && Odd(odd) && val == odd * Pow2(shift)
    ensures odd == OddPart(val)
  {
    odd, shift := val, 0;
    while odd % 2 == 0
      invariant odd > 0 && val == odd * Pow2(shift) && OddPart(odd) == OddPart(val)
      decreases odd
    {
      Halved(odd, shift);
      odd := odd / 2;
      shift := shift + 1;
    }
  }

  lemma Halved(odd: nat, shift: nat)
    requires odd % 2 == 0
    ensures odd * Pow2(shift) == (odd / 2) * Pow2(shift + 1)
  {
    var h := odd / 2;
    assert (2 * h) * Pow2(shift) == h * (2 * Pow2(shift));
  }

  lemma DivisorOfOddIsOdd(d: int, v: int)
    requires Divides(d, v) && Odd(v)
    ensures Odd(d)
  {
    var k: int :| IsMultiple(v, d, k);
    if d % 2 == 0 {
      EvenProduct(d, k);
    }
  }

  lemma EvenProduct(d: int, k: int)
    requires d % 2 == 0
    ensures d * k % 2 == 0
  {
    var h := d / 2;
    assert d * k == 2 * (h * k);
  }

  lemma CoprimeToTwo(g: int)
    requires Odd(g)
    ensures Coprime(g, 2)
  {
    CoprimeBy(g, 2, 1, -(g / 2));
  }

  /** A factor of two in one number does not matter when the other is odd. */
  lemma GcdIgnoresTwo(u: int, v: int)
    requires Odd(v)
    ensures Gcd(2 * u, v) == Gcd(u, v)
  {
    var g, h := Gcd(2 * u, v), Gcd(u, v);
    GcdIsGcd(2 * u, v);
    GcdIsGcd(u, v);
    DivisorOfOddIsOdd(g, v);
    CoprimeToTwo(g);
    DividesOtherFactor(g, 2, u);
    DividesBy(u, 2 * u, 2);
    DividesTransitive(h, u, 2 * u);
    DividesAntisymmetric(g, h);
  }

  lemma {:induction false} GcdIgnoresPowers(u: int, v: int, k: nat)
    requires Odd(v)
    ensures Gcd(u * Pow2(k), v) == Gcd(u, v)
  {
    if k == 0 {
    } else {
      GcdIgnoresPowers(u, v, k - 1);
      GcdIgnoresTwo(u * Pow2(k - 1), v);
      assert u * Pow2(k) == 2 * (u * Pow2(k - 1));
    }
  }

  lemma Regroup(a: int, b: int, c: int)
    ensures a * (b * c) == b * (a * c)
  {
  }

  lemma GcdOfShiftedBy(u: nat, v: nat, i: nat, k: nat)
    requires Odd(u)
    ensures Gcd(u * Pow2(i), v * Pow2(i + k)) == Gcd(u, v) * Pow2(i)
  {
    var w := v * Pow2(k);
    Pow2Adds(i, k);
    Regroup(v, Pow2(i), Pow2(k));
    GcdScale(u, w, Pow2(i));
    GcdIgnoresPowersRight(u, v, k);
  }

  /** The common power of two comes out of both numbers, and the rest of it does not count. */
  lemma GcdOfShifted(u: nat, i: nat, v: nat, j: nat)
    requires Odd(u) && Odd(v)
    ensures Gcd(u * Pow2(i), v * Pow2(j)) == Gcd(u, v) * Pow2(if i < j then i else j)
  {
    if i < j {
      GcdOfShiftedBy(u, v, i, j - i);
    } else {
      GcdOfShiftedBy(v, u, j, i - j);
      GcdSymmetric(u, v);
      GcdSymmetric(u * Pow2(i), v * Pow2(j));
    }
  }

  /** Reducing u modulo v and v by the result keeps the greatest common divisor. */
  lemma ReducedPairKeepsGcd(u: nat, v: nat)
    requires v > 0
    ensures Gcd(u % v, v - u % v) == Gcd(u, v)
  {
    var r := u % v;
    GcdShift(u, v, -(u / v));
    assert u + -(u / v) * v == r;
    GcdSymmetric(r, v);
    GcdShift(v, r, -1);
    GcdSymmetric(v - r, r);
  }

  /** If at most one number of a pair is even, both can be made odd. */
  lemma OddPairKeepsGcd(r: nat, s: nat, r': nat, s': nat, i: nat, j: nat)
    requires Odd(r) || Odd(s)
    requires r == r' * Pow2(i) && s == s' * Pow2(j)
    ensures Gcd(r', s') == Gcd(r, s)
  {
    if Odd(r) {
      OddFirst(r, s, r', s', i, j);
    } else {
      OddFirst(s, r, s', r', j, i);
      GcdSymmetric(r, s);
      GcdSymmetric(r', s');
    }
  }

  lemma OddSum(r: nat, s: nat)
    requires Odd(r + s)
    ensures Odd(r) || Odd(s)
  {
  }

  lemma OddFirst(r: nat, s: nat, r': nat, s': nat, i: nat, j: nat)
    requires Odd(r) && r == r' * Pow2(i) && s == s' * Pow2(j)
    ensures Gcd(r', s') == Gcd(r, s)
  {
    OddPower(r', i);
    GcdIgnoresPowersRight(r', s', j);
  }

  lemma GcdIgnoresPowersRight(v: int, u: int, k: nat)
    requires Odd(v)
    ensures Gcd(v, u * Pow2(k)) == Gcd(v, u)
  {
    GcdIgnoresPowers(u, v, k);
    GcdSymmetric(u, v);
    GcdSymmetric(u * Pow2(k), v);
  }

  lemma Doubled(h: int)
    ensures !Odd(2 * h)
  {
  }

  lemma OddPower(w: nat, k: nat)
    requires Odd(w * Pow2(k))
    ensures k == 0 && w * Pow2(k) == w
  {
    if k > 0 {
      Doubled(w * Pow2(k - 1));
      Regroup(w, 2, Pow2(k - 1));
    }
  }

  /** The values of one round: the remainder, what the divisor keeps, and the two odd numbers
      for the next round, the larger one first. */
  datatype Round = Round(rest: nat, kept: nat, u: nat, v: nat)

  function RoundOf(u: nat, v: nat): (n: Round)
    requires v > 0
    ensures n.rest > 0 ==> 0 < n.v <= n.kept < v && 0 < n.u < v
  {
    var r := u % v;
    var s := v - r;
    if r == 0 then Round(r, s, r, s) else
      var p, q := OddPart(r), OddPart(s);
      if p < q then Round(r, s, q, p) else Round(r, s, p, q)
  }

  /** All rounds from two odd numbers on. */
  function Rounds(u: nat, v: nat): (held: seq<Round>)
    decreases v
  {
    if v <= 1 then [] else
      var n := RoundOf(u, v);
      if n.rest == 0 then [n] else [n] + Rounds(n.u, n.v)
  }

  /** The rounds of the algorithm, after one that makes both numbers odd. */
  function GcdTrace(u0: nat, v0: nat): (held: seq<Round>)
  {
    var u, v := if u0 < v0 then v0 else u0, if u0 < v0 then u0 else v0;
    if v == 0 then [] else
      [Round(u, v, OddPart(u), OddPart(v))] + Rounds(OddPart(u), OddPart(v))
  }

  /** One round of the loop.  It ends the algorithm if nothing remains. */
  method DoRound(u0: nat, v0: nat) returns (u: nat, v: nat, ghost n: Round)
    requires 1 < v0 && Odd(v0)
    ensures n == RoundOf(u0, v0) && u == n.u && v == n.v
    ensures u == 0 <==> n.rest == 0
    ensures u == 0 ==> v == Gcd(u0, v0)
    ensures u > 0 ==> Odd(u) && Odd(v) && Gcd(u, v) == Gcd(u0, v0)
  {
    u := u0 % v0;
    v := v0 - u;
    ghost var r, s := u, v;
    if u == 0 {
      LastRound(u0, v0);
      return u, v, Round(r, s, u, v);
    }
    var i, j;
    u, i := MakeOdd(u);
    v, j := MakeOdd(v);
    RoundKeepsGcd(u0, v0, u, v, i, j);
    if u < v {
      u, v := v, u;
    }
    n := Round(r, s, u, v);
  }

  /** `held` lists the values of all rounds. */
  method MixedBinaryGcd(u0: nat, v0: nat) returns (g: nat, ghost held: seq<Round>)
    ensures g == Gcd(u0, v0)
    ensures held == GcdTrace(u0, v0)
  {
    var u, v := u0, v0;
    GcdSymmetric(u0, v0);
    if u < v {
      u, v := v, u;
    }
    GcdOfZero(u);
    GcdOfZero(v);
    if u == 0 {
      return v, [];
    }
    if v == 0 {
      return u, [];
    }
    ghost var r, s := u, v;
    var i, j;
    u, i := MakeOdd(u);
    v, j := MakeOdd(v);
    var shifts := if i < j then i else j;
    GcdOfShifted(u, i, v, j);
    held := [Round(r, s, u, v)];
    ghost var all, d := held + Rounds(u, v), Gcd(u, v);
    while 1 < v
      invariant u > 0 && v > 0 && Odd(u) && Odd(v)
      invariant Gcd(u, v) == d
      invariant held + Rounds(u, v) == all
      decreases v
    {
      ghost var u1, v1, n := u, v, Round(0, 0, 0, 0);
      u, v, n := DoRound(u, v);
      if u == 0 {
        assert Rounds(u1, v1) == [n];
        return v * Pow2(shifts), held + [n];
      }
      RoundTraced(held, u1, v1, n);
      held := held + [n];
    }
    CoprimeBy(u, 1, 0, 1);
    CoprimeIffGcdOne(u, 1);
    return (if v == 1 then v else u) * Pow2(shifts), held;
  }

  lemma RoundTraced(held: seq<Round>, u: nat, v: nat, n: Round)
    requires 1 < v && n == RoundOf(u, v) && n.rest > 0
    ensures held + Rounds(u, v) == held + [n] + Rounds(n.u, n.v)
  {
    assert Rounds(u, v) == [n] + Rounds(n.u, n.v);
  }

  lemma LastRound(u: nat, v: nat)
    requires v > 0 && u % v == 0
    ensures Gcd(u, v) == v
  {
    ReducedPairKeepsGcd(u, v);
    GcdOfZero(v);
  }

  /** One round keeps the greatest common divisor, in either order. */
  lemma RoundKeepsGcd(u: nat, v: nat, p: nat, q: nat, i: nat, j: nat)
    requires v > 0 && Odd(v)
    requires u % v == p * Pow2(i) && v - u % v == q * Pow2(j)
    ensures Gcd(p, q) == Gcd(q, p) == Gcd(u, v)
  {
    var r := u % v;
    OddSum(r, v - r);
    ReducedPairKeepsGcd(u, v);
    OddPairKeepsGcd(r, v - r, p, q, i, j);
    GcdSymmetric(p, q);
  }

  // ----- Least common multiples

  ghost function Lcm(a: int, b: int): (m: nat) {
    var g := Gcd(a, b);
    if g == 0 then 0 else
      var q: nat := Abs(a) / g;
      q * Abs(b)
  }

  /** The nonnegative common multiple that divides every common multiple. */
  ghost predicate IsLcm(m: int, a: int, b: int) {
    m >= 0 && Divides(a, m) && Divides(b, m)
    && forall n: int :: Divides(a, n) && Divides(b, n) ==> Divides(m, n)
  }

  method MixedBinaryLcm(a: nat, b: nat) returns (m: nat)
    ensures IsLcm(m, a, b) && m == Lcm(a, b)
  {
    ghost var held;
    var g;
    g, held := MixedBinaryGcd(a, b);
    LcmIsLcm(a, b);
    m := if g != 0 then a / g * b else 0;
  }

  /** The quotient form is the least common multiple. */
  lemma LcmIsLcm(a: int, b: int)
    ensures IsLcm(Lcm(a, b), a, b)
  {
    if a == 0 || b == 0 {
      LcmWithZero(a, b);
    } else {
      var g := Gcd(a, b);
      GcdParts(a, b);
      var a', b' := CDiv(a, g), CDiv(b, g);
      CoprimeQuotients(a, b, a', b');
      LcmAsProduct(a, b, a', g);
      assert a * b' == a' * b by { Regroup(a', b', g); }
      SignedMultiples(a, b, a', b');
      forall n: int | Divides(a, n) && Divides(b, n)
        ensures Divides(Lcm(a, b), n)
      {
        CommonMultipleDivided(a, b, a', b', g, n);
        AbsDivides(a * b', n);
      }
    }
  }

  lemma LcmWithZero(a: int, b: int)
    requires a == 0 || b == 0
    ensures Lcm(a, b) == 0 && IsLcm(0, a, b)
  {
    GcdOfZero(a);
    GcdOfZero(b);
    DividesBy(a, 0, 0);
    DividesBy(b, 0, 0);
  }

  lemma LcmAsProduct(a: int, b: int, a': int, g: nat)
    requires g == Gcd(a, b) && g > 0 && a == a' * g
    ensures Lcm(a, b) == Abs(a' * b)
  {
    AbsProduct(a', g);
    AbsProduct(a', b);
    QuotientExact(Abs(a), Abs(a'), g);
  }

  lemma QuotientExact(a: nat, q: nat, g: nat)
    requires g > 0 && a == q * g
    ensures a / g == q
  {
    DividesBy(g, a, q);
    ExactQuotient(a, g);
    CancelFactor(g, q, a / g);
  }

  lemma AbsProduct(a: int, c: int)
    ensures Abs(a) * Abs(c) == Abs(a * c)
  {
    if a < 0 {
      assert -a * c == -(a * c) && -a * -c == a * c;
    } else {
      assert a * -c == -(a * c);
    }
  }

  lemma AbsDivides(d: int, n: int)
    requires Divides(d, n)
    ensures Divides(Abs(d), n)
  {
    var k: int :| IsMultiple(n, d, k);
    DividesBy(Abs(d), n, if d < 0 then -k else k);
  }

  lemma SignedMultiples(a: int, b: int, a': int, b': int)
    requires a * b' == a' * b
    ensures Divides(a, Abs(a' * b)) && Divides(b, Abs(a' * b))
  {
    DividesBy(a, Abs(a' * b), if a' * b < 0 then -b' else b');
    DividesBy(b, Abs(a' * b), if a' * b < 0 then -a' else a');
  }

  lemma CommonMultipleDivided(a: int, b: int, a': int, b': int, g: int, n: int)
    requires g != 0 && a == a' * g && b == b' * g && Coprime(a', b')
    requires Divides(a, n) && Divides(b, n)
    ensures Divides(a * b', n)
  {
    var j: int :| IsMultiple(n, a, j);
    var k: int :| IsMultiple(n, b, k);
    assert g * (a' * j) == n == g * (b' * k);
    CancelFactor(g, a' * j, b' * k);
    DividesBy(b', a' * j, k);
    CoprimeSymmetric(a', b');
    DividesOtherFactor(b', a', j);
    var i: int :| IsMultiple(j, b', i);
    assert a * (b' * i) == (a * b') * i;
    DividesBy(a * b', n, i);
  }

  // ----- The front end

  /** Values of an integer type whose smallest value is `min`; 0 says that the type is
      unsigned or has no smallest value. */
  predicate InType(x: int, min: int) {
    min < 0 ==> min <= x < -min
  }

  ghost predicate AllInType(s: seq<int>, min: int) {
    forall i :: 0 <= i < |s| ==> InType(s[i], min)
  }

  /** x % y as the language evaluates it: nothing for a zero divisor, and nothing when the
      quotient does not fit the type that computes it.  A type narrower than int is promoted
      first, and then the quotient always fits. */
  function TypeMod(x: int, y: int, min: int, promoted: bool): (r: Option<int>) {
    if y == 0 || (!promoted && min < 0 && x == min && y == -1) then None else Some(CMod(x, y))
  }

  predicate MinAndMinusOne(a: int, b: int, min: int) {
    min < 0 && ((a == min && b == -1) || (a == -1 && b == min))
  }

  /** The operands for which the front end evaluates an undefined remainder: the smallest
      value with itself or with zero, where the answer does not fit the type, and without
      promotion the smallest value with -1, where the answer, 1, would fit. */
  predicate GcdUndefined(a: int, b: int, min: int, promoted: bool) {
    || (min < 0 && a == min && (b == min || b == 0))
    || (min < 0 && b == min && a == 0)
    || (!promoted && MinAndMinusOne(a, b, min))
  }

  /** Of all pairs of values, only the smallest with itself or with zero has a greatest common
      divisor that does not fit the type. */
  lemma GcdIsSmallest(a: int, b: int, min: int)
    requires min < 0 && InType(a, min) && InType(b, min)
    ensures Gcd(a, b) <= -min
    ensures Gcd(a, b) == -min <==> (a == min && (b == min || b == 0)) || (a == 0 && b == min)
  {
    GcdBounded(a, b);
    GcdOfZero(a);
    GcdOfZero(b);
    GcdOfZero(min);
    GcdShift(min, min, -1);
    assert min + -1 * min == 0;
  }

  /** Where the front end fails: the answer does not fit, or it is 1 for the smallest value
      and -1.  The second happens without promotion only. */
  lemma FailingInputs(min: int, promoted: bool)
    requires min < -1
    ensures GcdUndefined(min, min, min, promoted) && Gcd(min, min) == -min
    ensures GcdUndefined(min, 0, min, promoted) && Gcd(min, 0) == -min
    ensures GcdUndefined(0, min, min, promoted) && Gcd(0, min) == -min
    ensures GcdUndefined(min, -1, min, promoted) == !promoted && Gcd(min, -1) == 1
    ensures GcdUndefined(-1, min, min, promoted) == !promoted && Gcd(-1, min) == 1
    ensures InType(1, min) && !InType(-min, min)
  {
    GcdIsSmallest(min, min, min);
    GcdOfZero(min);
    CoprimeBy(min, -1, 0, -1);
    CoprimeIffGcdOne(min, -1);
    GcdSymmetric(min, -1);
  }

  /** The values that the front end forms: remainders and absolute values, and the rounds. */
  datatype FrontEnd = FrontEnd(values: seq<int>, rounds: seq<Round>)
  {
    function Before(x: int): (f: FrontEnd) {
      FrontEnd([x] + values, rounds)
    }

    ghost predicate Fits(min: int) {
      && AllInType(values, min)
      && forall i :: 0 <= i < |rounds| ==> RoundFits(rounds[i], min)
    }
  }

  ghost predicate RoundFits(n: Round, min: int) {
    InType(n.rest, min) && InType(n.kept, min) && InType(n.u, min) && InType(n.v, min)
  }

  function FrontEndTrace(a: int, b: int, min: int): (held: FrontEnd)
    requires min <= 0 && InType(a, min) && InType(b, min)
    decreases (if a == min then 1 else 0) + (if b == min then 1 else 0)
  {
    if a == min then
      if a == 0 then FrontEnd([Abs(b)], []) else
      if b == 0 then FrontEnd([], []) else FrontEndTrace(CMod(a, b), b, min).Before(CMod(a, b))
    else if b == min then
      if b == 0 then FrontEnd([Abs(a)], []) else
      if a == 0 then FrontEnd([], []) else FrontEndTrace(a, CMod(b, a), min).Before(CMod(b, a))
    else
      FrontEnd([Abs(a), Abs(b)], GcdTrace(Abs(a), Abs(b)))
  }

  /** The front end: the greatest common divisor, unless a remainder is undefined. */
  method IntegerGcd(a: int, b: int, min: int, promoted: bool) returns (g: Option<nat>, ghost held: FrontEnd)
    requires min <= 0 && InType(a, min) && InType(b, min)
    ensures g.Some? ==> g.value == Gcd(a, b) && held == FrontEndTrace(a, b, min)
    ensures g.None? <==> GcdUndefined(a, b, min, promoted)
    ensures g.None? <==> (min < 0 && Gcd(a, b) == -min) || (!promoted && MinAndMinusOne(a, b, min))
    ensures g.None? <==> min < 0 && ((a == min && b in {min, 0}) || (a == 0 && b == min)
                                     || (!promoted && ((a == min && b == -1) || (a == -1 && b == min))))
    decreases (if a == min then 1 else 0) + (if b == min then 1 else 0)
  {
    if min < 0 { GcdIsSmallest(a, b, min); }
    held := FrontEnd([], []);
    if a == min {
      if a == 0 {
        GcdOfZero(b);
        return Some(Abs(b)), FrontEnd([Abs(b)], []);
      }
      var r := TypeMod(a, b, min, promoted);
      if r.None? {
        return None, held;
      }
      GcdOfMin(a, b);
      GcdIsSmallest(r.value, b, min);
      g, held := IntegerGcd(r.value, b, min, promoted);
      held := held.Before(r.value);
    } else if b == min {
      if b == 0 {
        GcdOfZero(a);
        return Some(Abs(a)), FrontEnd([Abs(a)], []);
      }
      var r := TypeMod(b, a, min, promoted);
      if r.None? {
        return None, held;
      }
      GcdSymmetric(a, b);
      GcdOfMin(b, a);
      GcdSymmetric(r.value, a);
      GcdIsSmallest(a, r.value, min);
      g, held := IntegerGcd(a, r.value, min, promoted);
      held := held.Before(r.value);
    } else {
      GcdAbs(a, b);
      var h;
      ghost var rounds;
      h, rounds := MixedBinaryGcd(Abs(a), Abs(b));
      g, held := Some(h), FrontEnd([Abs(a), Abs(b)], rounds);
    }
  }

  lemma {:induction false} RoundsFit(u: nat, v: nat, min: int)
    requires InType(v, min)
    ensures forall i :: 0 <= i < |Rounds(u, v)| ==> RoundFits(Rounds(u, v)[i], min)
    decreases v
  {
    if v <= 1 || RoundOf(u, v).rest == 0 {
    } else {
      RoundsFit(RoundOf(u, v).u, RoundOf(u, v).v, min);
    }
  }

  lemma GcdTraceFits(u0: nat, v0: nat, min: int)
    requires InType(u0, min) && InType(v0, min)
    ensures forall i :: 0 <= i < |GcdTrace(u0, v0)| ==> RoundFits(GcdTrace(u0, v0)[i], min)
  {
    var u, v := if u0 < v0 then v0 else u0, if u0 < v0 then u0 else v0;
    if v > 0 {
      RoundsFit(OddPart(u), OddPart(v), min);
      var first := Round(u, v, OddPart(u), OddPart(v));
      assert GcdTrace(u0, v0) == [first] + Rounds(OddPart(u), OddPart(v)) && RoundFits(first, min);
    }
  }

  /** Every value that the front end forms fits the type, whenever its remainders are defined. */
  lemma {:induction false} FrontEndFits(a: int, b: int, min: int)
    requires min <= 0 && InType(a, min) && InType(b, min)
    ensures FrontEndTrace(a, b, min).Fits(min)
    decreases (if a == min then 1 else 0) + (if b == min then 1 else 0)
  {
    if a != min && b != min {
      GcdTraceFits(Abs(a), Abs(b), min);
    } else if a == 0 || b == 0 {
    } else if a == min {
      FrontEndFits(CMod(a, b), b, min);
    } else {
      FrontEndFits(a, CMod(b, a), min);
    }
  }

  lemma GcdOfMin(a: int, b: int)
    requires b != 0
    ensures Gcd(CMod(a, b), b) == Gcd(a, b)
  {
    CDivCMod(a, b);
    GcdShift(a, b, -CDiv(a, b));
    assert a + -CDiv(a, b) * b == CMod(a, b);
  }

  // ----- What the lists of values hold

  /** The type whose smallest value is -2^w holds the numbers from there to 2^w - 1. */
  lemma TypeRange(x: int, w: nat)
    ensures InType(x, 0 - Pow2(w)) <==> 0 - Pow2(w) <= x < Pow2(w)
    ensures InType(x, 0)
  {
  }

  /** A round that divides the two numbers of the one before. */
  predicate Follows(before: Round, n: Round) {
    && before.rest > 0 && before.v > 1
    && n.rest == before.u % before.v && n.kept == before.v - n.rest
  }

  predicate FollowsAt(held: seq<Round>, i: nat)
    requires 0 < i < |held|
  {
    Follows(held[i - 1], held[i])
  }

  /** Each round follows the one before, until the smaller number is 1 or nothing remains. */
  ghost predicate Chained(held: seq<Round>) {
    && held != []
    && (forall i: nat :: 0 < i < |held| ==> FollowsAt(held, i))
    && (held[|held| - 1].v <= 1 || held[|held| - 1].rest == 0)
  }

  lemma {:induction false} RoundsChain(first: Round)
    requires first.rest > 0
    ensures Chained([first] + Rounds(first.u, first.v))
    decreases first.v
  {
    if first.v <= 1 {
    } else {
      var n := RoundOf(first.u, first.v);
      RoundFollows(first, n);
      if n.rest > 0 {
        RoundsChain(n);
      }
      ChainPrepended(first, [n] + if n.rest == 0 then [] else Rounds(n.u, n.v));
    }
  }

  lemma RoundFollows(first: Round, n: Round)
    requires first.rest > 0 && first.v > 1 && n == RoundOf(first.u, first.v)
    ensures Follows(first, n)
  {
  }

  lemma ChainPrepended(first: Round, rest: seq<Round>)
    requires Chained(rest) && Follows(first, rest[0])
    ensures Chained([first] + rest)
  {
    var held := [first] + rest;
    forall i: nat | 0 < i < |held|
      ensures FollowsAt(held, i)
    {
      if i > 1 {
        assert FollowsAt(rest, i - 1);
      }
    }
  }

  /** The list of rounds is a chain of divisions that begins with the odd parts of the larger
      and the smaller number. */
  lemma GcdTraceChains(u: nat, v: nat)
    requires u >= v
    ensures GcdTrace(u, v) == GcdTrace(v, u)
    ensures v == 0 ==> GcdTrace(u, v) == []
    ensures v > 0 ==> Chained(GcdTrace(u, v)) && GcdTrace(u, v)[0] == Round(u, v, OddPart(u), OddPart(v))
  {
    if v > 0 {
      RoundsChain(Round(u, v, OddPart(u), OddPart(v)));
    }
  }
}
