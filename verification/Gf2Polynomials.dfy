/** Polynomials over GF(2), the reference against which the CRC register is judged.

    A polynomial is the set of exponents whose coefficient is one.  This module knows nothing
    of shifting registers: it defines sums, products and division with remainder, proves that
    remainders are unique, and then shows that the registers of CrcDivision hold remainders.
  */
module Gf2Polynomials {
  import opened Words
  import opened CrcDivision

  type Poly = set<nat>

  function Add(a: Poly, b: Poly): (c: Poly)
    ensures forall i :: i in c <==> ((i in a) != (i in b))
  {
    (a - b) + (b - a)
  }

  /** x^k, if the bit is set. */
  function Bit(b: bool, k: nat): (c: Poly)
    ensures forall i: nat :: i in c <==> (b && i == k)
  {
    if b then {k} else {}
  }

  /** a * x^k */
  function Raise(a: Poly, k: nat): (c: Poly)
    ensures forall i: nat :: i in c <==> (i >= k && i - k in a)
  {
    var c := set i: nat | i in a :: i + k;
    assert forall i: nat :: i in c <==> (i >= k && i - k in a) by {
      forall i: nat
        ensures i in c <==> (i >= k && i - k in a)
      {
        if i >= k && i - k in a {
          var j := i - k;
          assert j in a && j + k == i;
        }
      }
    }
    c
  }

  /** The product of `p` with the polynomial whose coefficients are `q`, highest first. */
  function Times(q: seq<bool>, p: Poly): (c: Poly)
    decreases |q|
  {
    if q == [] then {} else
      var n := |q| - 1;
      var h := Raise(Times(q[..n], p), 1);
      if q[n] then Add(h, p) else h
  }

  /** The polynomial whose coefficient of x^i is bit `i`. */
  function OfWord(w: Word): (c: Poly)
    ensures forall i: nat :: i in c <==> (i < |w| && w[i])
  {
    set i: nat | 0 <= i < |w| && w[i]
  }

  /** The polynomial of a message: the first bit has the highest exponent. */
  function OfMessage(m: seq<bool>): (c: Poly)
  {
    OfWord(Reverse(m))
  }

  /** The full divisor x^Bits + p that a truncated polynomial `p` of `Bits` bits stands for. */
  function Divisor(p: Word): (c: Poly)
  {
    OfWord(p) + {|p|}
  }

  /** `r`, of fewer than |p| + 1 bits, is what is left of `a` after division by the divisor. */
  ghost predicate IsRemainder(a: Poly, p: Word, r: Word) {
    |r| == |p| && exists q: seq<bool> :: IsQuotient(a, p, q, r)
  }

  ghost predicate IsQuotient(a: Poly, p: Word, q: seq<bool>, r: Word) {
    a == Add(Times(q, Divisor(p)), OfWord(r))
  }

  // ----- Remainders are unique

  lemma {:induction false} TimesLeadingZero(q: seq<bool>, p: Poly)
    ensures Times([false] + q, p) == Times(q, p)
    decreases |q|
  {
    if q == [] {
      assert [false][..0] == [];
      assert Raise({}, 1) == {};
    } else {
      var n := |q| - 1;
      assert ([false] + q)[..n + 1] == [false] + q[..n];
      TimesLeadingZero(q[..n], p);
    }
  }

  lemma {:induction false} TimesPadded(q: seq<bool>, p: Poly, k: nat)
    ensures Times(Zeros(k) + q, p) == Times(q, p)
    decreases k
  {
    if k == 0 {
      assert Zeros(0) + q == q;
    } else {
      assert Zeros(k) + q == [false] + (Zeros(k - 1) + q);
      TimesPadded(q, p, k - 1);
      TimesLeadingZero(Zeros(k - 1) + q, p);
    }
  }

  lemma RaiseAdds(a: Poly, b: Poly, k: nat)
    ensures Raise(Add(a, b), k) == Add(Raise(a, k), Raise(b, k))
  {
  }

  lemma RaiseBit(b: bool, j: nat, k: nat)
    ensures Raise(Bit(b, j), k) == Bit(b, j + k)
  {
  }

  lemma AddAssociative(a: Poly, b: Poly, c: Poly)
    ensures Add(Add(a, b), c) == Add(a, Add(b, c))
  {
  }

  lemma RaiseRaise(a: Poly, j: nat, k: nat)
    ensures Raise(Raise(a, j), k) == Raise(a, j + k)
  {
  }

  lemma {:induction false} TimesLinear(q: seq<bool>, s: seq<bool>, p: Poly)
    requires |q| == |s|
    ensures Times(Xor(q, s), p) == Add(Times(q, p), Times(s, p))
    decreases |q|
  {
    if q == [] {
    } else {
      var n := |q| - 1;
      assert Xor(q, s)[..n] == Xor(q[..n], s[..n]);
      TimesLinear(q[..n], s[..n], p);
      RaiseAdds(Times(q[..n], p), Times(s[..n], p), 1);
    }
  }

  /** A product with a nonzero factor keeps the divisor's leading exponent or a higher one. */
  lemma {:induction false} TimesDegree(q: seq<bool>, p: Word)
    requires q != [] && q[0]
    ensures |q| - 1 + |p| in Times(q, Divisor(p))
    ensures forall i :: i in Times(q, Divisor(p)) ==> i <= |q| - 1 + |p|
    decreases |q|
  {
    var n := |q| - 1;
    if n == 0 {
      assert q[..0] == [];
      assert Times(q, Divisor(p)) == Add(Raise({}, 1), Divisor(p));
    } else {
      TimesDegree(q[..n], p);
      RaisedDegree(Times(q[..n], Divisor(p)), n - 1 + |p|, Divisor(p));
    }
  }

  lemma RaisedDegree(t: Poly, m: nat, d: Poly)
    requires m in t && (forall i :: i in t ==> i <= m) && (forall i :: i in d ==> i <= m)
    ensures var r := Raise(t, 1); m + 1 in r && forall i :: i in r ==> i <= m + 1
    ensures var r := Add(Raise(t, 1), d); m + 1 in r && forall i :: i in r ==> i <= m + 1
  {
  }

  /** No nonzero multiple of the divisor has all its exponents below the divisor's degree. */
  lemma {:induction false} SmallMultipleIsZero(q: seq<bool>, p: Word)
    requires forall i :: i in Times(q, Divisor(p)) ==> i < |p|
    ensures Times(q, Divisor(p)) == {}
    decreases |q|
  {
    if q == [] {
    } else {
      if q[0] {
        TimesDegree(q, p);
        assert false;
      } else {
        assert q == [false] + q[1..];
        TimesLeadingZero(q[1..], Divisor(p));
        SmallMultipleIsZero(q[1..], p);
      }
    }
  }

  lemma OfWordInjective(a: Word, b: Word)
    requires |a| == |b| && OfWord(a) == OfWord(b)
    ensures a == b
  {
    forall i | 0 <= i < |a|
      ensures a[i] == b[i]
    {
      assert a[i] <==> i in OfWord(a);
      assert b[i] <==> i in OfWord(b);
    }
  }

  lemma AddZeroOnlyIfEqual(a: Poly, b: Poly)
    requires Add(a, b) == {}
    ensures a == b
  {
    forall i: nat
      ensures i in a <==> i in b
    {
      assert i !in Add(a, b);
    }
  }

  lemma EqualSumsDifferAlike(a: Poly, r: Poly, b: Poly, s: Poly)
    requires Add(a, r) == Add(b, s)
    ensures Add(a, b) == Add(r, s)
  {
    forall i: nat
      ensures i in Add(a, b) <==> i in Add(r, s)
    {
      assert i in Add(a, r) <==> i in Add(b, s);
    }
  }

  lemma RemainderUnique(a: Poly, p: Word, r: Word, s: Word)
    requires IsRemainder(a, p, r) && IsRemainder(a, p, s)
    ensures r == s
  {
    var q: seq<bool> :| IsQuotient(a, p, q, r);
    var t: seq<bool> :| IsQuotient(a, p, t, s);
    var d := Divisor(p);
    var q', t' := Zeros(|t|) + q, Zeros(|q|) + t;
    TimesPadded(q, d, |t|);
    TimesPadded(t, d, |q|);
    TimesLinear(q', t', d);
    EqualSumsDifferAlike(Times(q, d), OfWord(r), Times(t, d), OfWord(s));
    SmallMultipleIsZero(Xor(q', t'), p);
    AddZeroOnlyIfEqual(OfWord(r), OfWord(s));
    OfWordInjective(r, s);
  }

  // ----- The register holds the remainder

  lemma MessageSnoc(m: seq<bool>, b: bool)
    ensures OfMessage(m + [b]) == Add(Raise(OfMessage(m), 1), Bit(b, 0))
  {
    var t := Reverse(m + [b]);
    var sum := Add(Raise(OfMessage(m), 1), Bit(b, 0));
    forall i: nat
      ensures i in OfMessage(m + [b]) <==> i in sum
    {
      if 0 < i < |t| {
        assert t[i] == Reverse(m)[i - 1];
      }
    }
  }

  /** One step multiplies by x, brings the message bit in at x^Bits and subtracts the divisor
      once at most. */
  lemma StepDivides(r: Word, p: Word, b: bool)
    requires |r| == |p| > 0
    ensures Add(Raise(OfWord(r), 1), Bit(b, |p|))
         == Add(if r[|r| - 1] != b then Divisor(p) else {}, OfWord(Step(r, p, b)))
  {
    var s, c := Step(r, p, b), r[|r| - 1] != b;
    forall i: nat
      ensures i in Add(Raise(OfWord(r), 1), Bit(b, |p|)) <==> i in Add(if c then Divisor(p) else {}, OfWord(s))
    {
      if i < |p| {
        StepAt(r, p, b, i, s);
      }
      CoefficientStep(r, p, b, i, c, s);
    }
  }

  lemma CoefficientStep(r: Word, p: Word, b: bool, i: nat, c: bool, s: Word)
    requires |r| == |p| == |s| > 0 && c == (r[|r| - 1] != b)
    requires i < |p| ==> s[i] == ((i >= 1 && r[i - 1]) != (c && p[i]))
    ensures i in Add(Raise(OfWord(r), 1), Bit(b, |p|)) <==> i in Add(if c then Divisor(p) else {}, OfWord(s))
  {
    assert i in Raise(OfWord(r), 1) <==> i >= 1 && i - 1 in OfWord(r);
    assert i in OfWord(s) <==> i < |p| && s[i];
  }

  lemma StepAt(r: Word, p: Word, b: bool, i: nat, s: Word)
    requires |r| == |p| > i && s == Step(r, p, b)
    ensures s[i] == ((i >= 1 && r[i - 1]) != (r[|r| - 1] != b && p[i]))
  {
    var t := Shl(r, 1);
    assert t[i] == (i >= 1 && r[i - 1]);
    if r[|r| - 1] != b {
      assert s == Xor(t, p);
    } else {
      assert s == t;
    }
  }

  /** The dividend that the register stands for after message `m` from remainder `r`:
      r * x^k + M * x^Bits, for a message of k bits. */
  function Dividend(r: Word, p: Word, m: seq<bool>): Poly {
    Add(Raise(OfWord(r), |m|), Raise(OfMessage(m), |p|))
  }

  lemma DividendSnoc(r: Word, p: Word, m: seq<bool>, b: bool)
    ensures Dividend(r, p, m + [b]) == Add(Raise(Dividend(r, p, m), 1), Bit(b, |p|))
  {
    var x, y := Raise(OfWord(r), |m|), Raise(OfMessage(m), |p|);
    MessageTermSnoc(p, m, b);
    RaiseAdds(x, y, 1);
    RaiseRaise(OfWord(r), |m|, 1);
    AddAssociative(Raise(x, 1), Raise(y, 1), Bit(b, |p|));
  }

  lemma MessageTermSnoc(p: Word, m: seq<bool>, b: bool)
    ensures Raise(OfMessage(m + [b]), |p|) == Add(Raise(Raise(OfMessage(m), |p|), 1), Bit(b, |p|))
  {
    MessageSnoc(m, b);
    RaiseAdds(Raise(OfMessage(m), 1), Bit(b, 0), |p|);
    RaiseRaise(OfMessage(m), |p|, 1);
    RaiseRaise(OfMessage(m), 1, |p|);
    RaiseBit(b, 0, |p|);
  }

  lemma TimesSnoc(q: seq<bool>, d: Poly, b: bool)
    ensures Times(q + [b], d) == Add(Raise(Times(q, d), 1), if b then d else {})
  {
    assert (q + [b])[..|q|] == q;
  }

  lemma AddReorders(a: Poly, b: Poly, c: Poly, d: Poly, e: Poly)
    requires Add(b, c) == Add(d, e)
    ensures Add(Add(a, b), c) == Add(Add(a, d), e)
  {
    forall i: nat
      ensures i in Add(Add(a, b), c) <==> i in Add(Add(a, d), e)
    {
      assert i in Add(b, c) <==> i in Add(d, e);
    }
  }

  /** The bit loop computes (r * x^k + M * x^Bits) mod (x^Bits + p). */
  lemma {:induction false} RunIsRemainder(r: Word, p: Word, m: seq<bool>)
    requires |r| == |p| > 0
    ensures IsRemainder(Dividend(r, p, m), p, Run(r, p, m))
    decreases |m|
  {
    if m == [] {
      assert Dividend(r, p, m) == OfWord(r);
      assert IsQuotient(Dividend(r, p, m), p, [], r);
    } else {
      var n := |m| - 1;
      assert m == m[..n] + [m[n]];
      RunIsRemainder(r, p, m[..n]);
      RunSnoc(r, p, m[..n], m[n]);
      StepKeepsRemainder(r, p, m[..n], m[n], Run(r, p, m[..n]));
    }
  }

  /** One more message bit takes a remainder to a remainder. */
  lemma StepKeepsRemainder(r: Word, p: Word, m: seq<bool>, b: bool, s: Word)
    requires |r| == |p| > 0 && IsRemainder(Dividend(r, p, m), p, s)
    ensures IsRemainder(Dividend(r, p, m + [b]), p, Step(s, p, b))
  {
    var a := Dividend(r, p, m);
    var q: seq<bool> :| IsQuotient(a, p, q, s);
    var c := s[|s| - 1] != b;
    DividendSnoc(r, p, m, b);
    StepDivides(s, p, b);
    QuotientStep(a, p, q, s, c, Bit(b, |p|), Step(s, p, b));
  }

  /** Bringing in a bit extends the quotient by one digit. */
  lemma QuotientStep(a: Poly, p: Word, q: seq<bool>, s: Word, c: bool, bit: Poly, s': Word)
    requires IsQuotient(a, p, q, s)
    requires Add(Raise(OfWord(s), 1), bit) == Add(if c then Divisor(p) else {}, OfWord(s'))
    ensures IsQuotient(Add(Raise(a, 1), bit), p, q + [c], s')
  {
    var d := Divisor(p);
    RaiseAdds(Times(q, d), OfWord(s), 1);
    TimesSnoc(q, d, c);
    AddReorders(Raise(Times(q, d), 1), Raise(OfWord(s), 1), bit, if c then d else {}, OfWord(s'));
  }

  /** The dividend of the augmented algorithm: r * x^k + M. */
  function AugDividend(r: Word, m: seq<bool>): Poly {
    Add(Raise(OfWord(r), |m|), OfMessage(m))
  }

  lemma AugStepDivides(r: Word, p: Word, b: bool)
    requires |r| == |p| > 0
    ensures Add(Raise(OfWord(r), 1), Bit(b, 0))
         == Add(if r[|r| - 1] then Divisor(p) else {}, OfWord(AugStep(r, p, b)))
  {
    var s := AugStep(r, p, b);
    var before := Add(Raise(OfWord(r), 1), Bit(b, 0));
    var after := Add(if r[|r| - 1] then Divisor(p) else {}, OfWord(s));
    forall i: nat
      ensures i in before <==> i in after
    {
      if i < |p| {
        assert s[i] == ((if i == 0 then b else r[i - 1]) != (r[|r| - 1] && p[i]));
      }
    }
  }

  lemma AugDividendSnoc(r: Word, m: seq<bool>, b: bool)
    ensures AugDividend(r, m + [b]) == Add(Raise(AugDividend(r, m), 1), Bit(b, 0))
  {
    MessageSnoc(m, b);
    RaiseAdds(Raise(OfWord(r), |m|), OfMessage(m), 1);
    RaiseRaise(OfWord(r), |m|, 1);
  }

  /** The augmented algorithm computes (r * x^k + M) mod (x^Bits + p). */
  lemma {:induction false} AugRunIsRemainder(r: Word, p: Word, m: seq<bool>)
    requires |r| == |p| > 0
    ensures IsRemainder(AugDividend(r, m), p, AugRun(r, p, m))
    decreases |m|
  {
    if m == [] {
      assert AugDividend(r, m) == OfWord(r);
      assert IsQuotient(AugDividend(r, m), p, [], r);
    } else {
      var n := |m| - 1;
      assert m == m[..n] + [m[n]];
      AugRunIsRemainder(r, p, m[..n]);
      AugRunSnoc(r, p, m[..n], m[n]);
      AugStepKeepsRemainder(r, p, m[..n], m[n], AugRun(r, p, m[..n]));
    }
  }

  lemma AugStepKeepsRemainder(r: Word, p: Word, m: seq<bool>, b: bool, s: Word)
    requires |r| == |p| > 0 && IsRemainder(AugDividend(r, m), p, s)
    ensures IsRemainder(AugDividend(r, m + [b]), p, AugStep(s, p, b))
  {
    var a := AugDividend(r, m);
    var q: seq<bool> :| IsQuotient(a, p, q, s);
    AugDividendSnoc(r, m, b);
    AugStepDivides(s, p, b);
    QuotientStep(a, p, q, s, s[|s| - 1], Bit(b, 0), AugStep(s, p, b));
  }

  lemma MessagePadded(m: seq<bool>, k: nat)
    ensures OfMessage(m + Zeros(k)) == Raise(OfMessage(m), k)
  {
    var t := Reverse(m + Zeros(k));
    forall i: nat
      ensures i in OfMessage(m + Zeros(k)) <==> i in Raise(OfMessage(m), k)
    {
      if k <= i < |t| {
        assert t[i] == Reverse(m)[i - k];
      }
    }
  }

  /** Padding the message with `Bits` zero bits turns the augmented algorithm, started from
      zero, into the ordinary one: both are remainders of M * x^Bits. */
  lemma AugmentedPadding(p: Word, m: seq<bool>)
    requires |p| > 0
    ensures AugRun(Zeros(|p|), p, m + Zeros(|p|)) == Run(Zeros(|p|), p, m)
  {
    var z := Zeros(|p|);
    AugRunIsRemainder(z, p, m + z);
    RunIsRemainder(z, p, m);
    MessagePadded(m, |p|);
    assert OfWord(z) == {};
    assert Raise({}, |m + z|) == {} && Raise({}, |m|) == {};
    assert AugDividend(z, m + z) == Dividend(z, p, m);
    RemainderUnique(AugDividend(z, m + z), p, AugRun(z, p, m + z), Run(z, p, m));
  }

  // ----- The polynomials by their coefficients

  /** Which powers of x the divisor and the two dividends have. */
  lemma CoefficientsAt(r: Word, p: Word, m: seq<bool>, i: nat)
    requires |r| == |p|
    ensures i in Divisor(p) <==> i == |p| || (i < |p| && p[i])
    ensures i in Dividend(r, p, m)
       <==> (|m| <= i < |m| + |r| && r[i - |m|]) != (|p| <= i < |p| + |m| && m[|p| + |m| - 1 - i])
    ensures i in AugDividend(r, m)
       <==> (|m| <= i < |m| + |r| && r[i - |m|]) != (i < |m| && m[|m| - 1 - i])
  {
    assert i in Raise(OfMessage(m), |p|) <==> i >= |p| && i - |p| in OfMessage(m);
    if |p| <= i < |p| + |m| {
      assert Reverse(m)[i - |p|] == m[|p| + |m| - 1 - i];
    }
    if i < |m| {
      assert Reverse(m)[i] == m[|m| - 1 - i];
    }
  }
}
