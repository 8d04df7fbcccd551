/** What a CRC engine computes, bit by bit: a register of exactly `Bits` bits that is shifted
    left once for every message bit and reduced by the truncated polynomial whenever a one
    leaves at the top.  Everything the two engines and the table rely on is proved here about
    this register, for every width and polynomial.
  */
module CrcDivision {
  import opened Words

  /** One division step of the register `r` with truncated polynomial `p` and message bit `b`. */
  function Step(r: Word, p: Word, b: bool): (s: Word)
    requires |r| == |p| > 0
    ensures |s| == |r|
  {
    if r[|r| - 1] != b then Xor(Shl(r, 1), p) else Shl(r, 1)
  }

  /** The register after the message bits `m`, in processing order. */
  function Run(r: Word, p: Word, m: seq<bool>): (s: Word)
    requires |r| == |p| > 0
    ensures |s| == |r|
    decreases |m|
  {
    if m == [] then r else Run(Step(r, p, m[0]), p, m[1..])
  }

  /** The `k` bits that `k` shifts push out of `r`, first one first; zeros once `r` is used up. */
  function TopBits(r: Word, k: nat): (m: seq<bool>)
    ensures |m| == k && forall i :: 0 <= i < k ==> m[i] == (i < |r| && r[|r| - 1 - i])
  {
    seq(k, i requires 0 <= i < k => i < |r| && r[|r| - 1 - i])
  }

  lemma {:induction false} RunAppend(r: Word, p: Word, m: seq<bool>, n: seq<bool>)
    requires |r| == |p| > 0
    ensures Run(r, p, m + n) == Run(Run(r, p, m), p, n)
    decreases |m|
  {
    if m == [] {
      assert m + n == n;
    } else {
      assert (m + n)[1..] == m[1..] + n;
      RunAppend(Step(r, p, m[0]), p, m[1..], n);
    }
  }

  lemma RunSnoc(r: Word, p: Word, m: seq<bool>, b: bool)
    requires |r| == |p| > 0
    ensures Run(r, p, m + [b]) == Step(Run(r, p, m), p, b)
  {
    RunAppend(r, p, m, [b]);
    assert Run(Run(r, p, m), p, [b]) == Step(Run(r, p, m), p, b) by {
      assert [b][1..] == [];
    }
  }

  lemma RunNextBit(r: Word, p: Word, m: seq<bool>, n: nat)
    requires |r| == |p| > 0 && n < |m|
    ensures Run(r, p, m[..n + 1]) == Step(Run(r, p, m[..n]), p, m[n])
  {
    assert m[..n + 1] == m[..n] + [m[n]];
    RunSnoc(r, p, m[..n], m[n]);
  }

  // ----- Linearity over exclusive or

  lemma StepLinear(r: Word, s: Word, p: Word, b: bool, c: bool)
    requires |r| == |s| == |p| > 0
    ensures Step(Xor(r, s), p, b != c) == Xor(Step(r, p, b), Step(s, p, c))
  {
  }

  /** Dividing a sum is summing the divisions. */
  lemma {:induction false} RunLinear(r: Word, s: Word, p: Word, m: seq<bool>, n: seq<bool>)
    requires |r| == |s| == |p| > 0 && |m| == |n|
    ensures Run(Xor(r, s), p, Xor(m, n)) == Xor(Run(r, p, m), Run(s, p, n))
    decreases |m|
  {
    if m == [] {
    } else {
      StepLinear(r, s, p, m[0], n[0]);
      assert Xor(m, n)[1..] == Xor(m[1..], n[1..]);
      RunLinear(Step(r, p, m[0]), Step(s, p, n[0]), p, m[1..], n[1..]);
    }
  }

  lemma TopBitsOfShift(r: Word, k: nat)
    requires k > 0
    ensures TopBits(r, k)[1..] == TopBits(Shl(r, 1), k - 1)
    ensures Shl(Shl(r, 1), k - 1) == Shl(r, k)
  {
  }

  /** A message equal to the bits that are shifted out never triggers a division. */
  lemma {:induction false} RunAbsorbs(r: Word, p: Word, k: nat)
    requires |r| == |p| > 0
    ensures Run(r, p, TopBits(r, k)) == Shl(r, k)
    decreases k
  {
    if k == 0 {
      assert Shl(r, 0) == r;
    } else {
      TopBitsOfShift(r, k);
      RunAbsorbs(Shl(r, 1), p, k - 1);
    }
  }

  /** The identity behind every table-driven step: shift the register at once and add the
      division, from zero, of the message bits compared with the bits shifted out. */
  lemma RunByTable(r: Word, p: Word, m: seq<bool>)
    requires |r| == |p| > 0
    ensures Run(r, p, m) == Xor(Shl(r, |m|), Run(Zeros(|p|), p, Xor(m, TopBits(r, |m|))))
  {
    var t := TopBits(r, |m|);
    XorZero(r);
    XorCancels(t, m);
    RunLinear(r, Zeros(|p|), p, t, Xor(m, t));
    RunAbsorbs(r, p, |m|);
  }

  /** Three registers and messages added together behave like the sum of the three runs. */
  lemma RunAffine(r: Word, p: Word, a: seq<bool>, b: seq<bool>, c: seq<bool>)
    requires |r| == |p| > 0 && |a| == |b| == |c|
    ensures Xor(Xor(Run(r, p, a), Run(r, p, b)), Run(r, p, c)) == Run(r, p, Xor(Xor(a, b), c))
  {
    RunLinear(r, r, p, a, b);
    RunLinear(Xor(r, r), r, p, Xor(a, b), c);
    assert Xor(Xor(r, r), r) == r;
  }

  // ----- Detection of bursts

  /** With an odd polynomial a step loses nothing: its result and message bit determine the
      register. */
  lemma StepInjective(r: Word, s: Word, p: Word, b: bool)
    requires |r| == |s| == |p| > 0 && p[0]
    requires Step(r, p, b) == Step(s, p, b)
    ensures r == s
  {
    assert Step(r, p, b)[0] == (r[|r| - 1] != b);
    assert Step(s, p, b)[0] == (s[|s| - 1] != b);
    forall i | 0 <= i < |r|
      ensures r[i] == s[i]
    {
      if i < |r| - 1 {
        assert Step(r, p, b)[i + 1] == Step(s, p, b)[i + 1];
      }
    }
  }

  lemma {:induction false} RunInjective(r: Word, s: Word, p: Word, m: seq<bool>)
    requires |r| == |s| == |p| > 0 && p[0]
    requires Run(r, p, m) == Run(s, p, m)
    ensures r == s
    decreases |m|
  {
    if m == [] {
    } else {
      RunInjective(Step(r, p, m[0]), Step(s, p, m[0]), p, m[1..]);
      StepInjective(r, s, p, m[0]);
    }
  }

  lemma SameHeadAndTail<T>(s: seq<T>, t: seq<T>)
    requires |s| == |t| > 0 && s[0] == t[0] && s[1..] == t[1..]
    ensures s == t
  {
    assert s == [s[0]] + s[1..] && t == [t[0]] + t[1..];
  }

  /** If the `z` lowest bits are zero after a step, no division took place in it. */
  lemma StepKeptLowZeros(r: Word, p: Word, b: bool, z: nat)
    requires |r| == |p| >= z > 0 && p[0]
    requires forall i :: 0 <= i < z ==> !Step(r, p, b)[i]
    ensures b == r[|r| - 1] && Step(r, p, b) == Shl(r, 1)
    ensures forall i :: 0 <= i < z - 1 ==> !r[i]
  {
    assert !Step(r, p, b)[0];
    assert forall i :: 0 <= i < z - 1 ==> r[i] == Shl(r, 1)[i + 1];
  }

  /** Only the register's own top bits can bring it to zero within its width. */
  lemma {:induction false} ZeroWithinWidth(r: Word, p: Word, m: seq<bool>)
    requires |r| == |p| > 0 && p[0] && |m| <= |r|
    requires Run(r, p, m) == Zeros(|r|)
    ensures m == TopBits(r, |m|)
    ensures forall i :: 0 <= i < |r| - |m| ==> !r[i]
    decreases |m|
  {
    if m == [] {
    } else {
      var s := Step(r, p, m[0]);
      ZeroWithinWidth(s, p, m[1..]);
      StepKeptLowZeros(r, p, m[0], |r| - |m| + 1);
      TopBitsOfShift(r, |m|);
      SameHeadAndTail(m, TopBits(r, |m|));
    }
  }

  lemma ShortMessagesDiffer(r: Word, p: Word, w: seq<bool>, v: seq<bool>)
    requires |r| == |p| > 0 && p[0]
    requires |w| == |v| <= |r| && Run(r, p, w) == Run(r, p, v)
    ensures w == v
  {
    RunLinear(r, r, p, w, v);
    XorSelf(r);
    XorSelf(Run(r, p, w));
    ZeroWithinWidth(Zeros(|r|), p, Xor(w, v));
    assert TopBits(Zeros(|r|), |w|) == Zeros(|w|);
    XorZeroOnlyIfEqual(w, v);
  }

  /** With an odd polynomial, two messages of equal length that differ only inside one window
      of at most `Bits` consecutive bits leave different registers behind. */
  lemma BurstDetected(r: Word, p: Word, before: seq<bool>, w: seq<bool>, v: seq<bool>, after: seq<bool>)
    requires |r| == |p| > 0 && p[0]
    requires |w| == |v| <= |r| && w != v
    ensures Run(r, p, before + w + after) != Run(r, p, before + v + after)
  {
    RunAppend(r, p, before, w);
    RunAppend(r, p, before, v);
    RunAppend(r, p, before + w, after);
    RunAppend(r, p, before + v, after);
    if Run(r, p, before + w + after) == Run(r, p, before + v + after) {
      RunInjective(Run(r, p, before + w), Run(r, p, before + v), p, after);
      ShortMessagesDiffer(Run(r, p, before), p, w, v);
    }
  }

  /** Two messages that differ only in a window no wider than the register leave the same
      register behind. */
  ghost predicate Collision(r: Word, p: Word, before: seq<bool>, w: seq<bool>, v: seq<bool>, after: seq<bool>)
    requires |r| == |p| > 0
  {
    |w| == |v| <= |r| && w != v && Run(r, p, before + w + after) == Run(r, p, before + v + after)
  }

  /** With an even polynomial, the full divisor divided by x is an undetected burst. */
  lemma EvenPolynomialCollides(p: Word) returns (w: seq<bool>)
    requires |p| > 0 && !p[0]
    ensures Collision(Zeros(|p|), p, [], w, Zeros(|p|), [])
  {
    w := [true] + TopBits(p, |p| - 1);
    EvenBurstVanishes(p);
    ZeroMessage(p);
    assert w[0] && !Zeros(|p|)[0];
    CollisionAlone(p, w, Zeros(|p|));
  }

  lemma CollisionAlone(p: Word, w: seq<bool>, v: seq<bool>)
    requires |w| == |v| <= |p| && |p| > 0 && w != v
    requires Run(Zeros(|p|), p, w) == Run(Zeros(|p|), p, v)
    ensures Collision(Zeros(|p|), p, [], w, v, [])
  {
    NothingAround(w);
    NothingAround(v);
  }

  lemma NothingAround(w: seq<bool>)
    ensures [] + w + [] == w
  {
  }

  lemma EvenBurstVanishes(p: Word)
    requires |p| > 0 && !p[0]
    ensures Run(Zeros(|p|), p, [true] + TopBits(p, |p| - 1)) == Zeros(|p|)
  {
    var rest := TopBits(p, |p| - 1);
    StepFromZero(p);
    assert ([true] + rest)[1..] == rest;
    RunAbsorbs(p, p, |p| - 1);
    ShiftedAway(p);
  }

  lemma StepFromZero(p: Word)
    requires |p| > 0
    ensures Step(Zeros(|p|), p, true) == p
  {
  }

  lemma ShiftedAway(p: Word)
    requires |p| > 0 && !p[0]
    ensures Shl(p, |p| - 1) == Zeros(|p|)
  {
  }

  lemma ZeroMessage(p: Word)
    requires |p| > 0
    ensures Run(Zeros(|p|), p, Zeros(|p|)) == Zeros(|p|)
  {
    var z := Zeros(|p|);
    RunAbsorbs(z, p, |p|);
    assert TopBits(z, |p|) == z && Shl(z, |p|) == z;
  }

  /** Every burst that fits the register is detected exactly when the polynomial is odd. */
  lemma BurstsDetectedIffOdd(p: Word)
    requires |p| > 0
    ensures p[0] <==> forall r: Word, before, w, v, after | |r| == |p| :: !Collision(r, p, before, w, v, after)
  {
    if p[0] {
      forall r: Word, before, w, v, after | |r| == |p|
        ensures !Collision(r, p, before, w, v, after)
      {
        if Collision(r, p, before, w, v, after) {
          BurstDetected(r, p, before, w, v, after);
          assert false;
        }
      }
    } else {
      var w := EvenPolynomialCollides(p);
    }
  }

  // ----- Augmented messages: bits enter at the bottom of the register

  /** One step of the augmented algorithm: the message bit enters at the low end. */
  function AugStep(r: Word, p: Word, b: bool): (s: Word)
    requires |r| == |p| > 0
    ensures |s| == |r|
  {
    var t := Shl(r, 1)[0 := b];
    if r[|r| - 1] then Xor(t, p) else t
  }

  function AugRun(r: Word, p: Word, m: seq<bool>): (s: Word)
    requires |r| == |p| > 0
    ensures |s| == |r|
    decreases |m|
  {
    if m == [] then r else AugRun(AugStep(r, p, m[0]), p, m[1..])
  }

  lemma {:induction false} AugRunAppend(r: Word, p: Word, m: seq<bool>, n: seq<bool>)
    requires |r| == |p| > 0
    ensures AugRun(r, p, m + n) == AugRun(AugRun(r, p, m), p, n)
    decreases |m|
  {
    if m == [] {
      assert m + n == n;
    } else {
      assert (m + n)[1..] == m[1..] + n;
      AugRunAppend(AugStep(r, p, m[0]), p, m[1..], n);
    }
  }

  lemma AugRunSnoc(r: Word, p: Word, m: seq<bool>, b: bool)
    requires |r| == |p| > 0
    ensures AugRun(r, p, m + [b]) == AugStep(AugRun(r, p, m), p, b)
  {
    AugRunAppend(r, p, m, [b]);
    assert [b][1..] == [];
  }

  lemma AugStepLinear(r: Word, s: Word, p: Word, b: bool, c: bool)
    requires |r| == |s| == |p| > 0
    ensures AugStep(Xor(r, s), p, b != c) == Xor(AugStep(r, p, b), AugStep(s, p, c))
  {
    var t, u := AugStep(Xor(r, s), p, b != c), Xor(AugStep(r, p, b), AugStep(s, p, c));
    forall i | 0 <= i < |p|
      ensures t[i] == u[i]
    {
      AugStepAt(Xor(r, s), p, b != c, i);
      AugStepAt(r, p, b, i);
      AugStepAt(s, p, c, i);
    }
  }

  lemma AugStepAt(r: Word, p: Word, b: bool, i: nat)
    requires |r| == |p| > i
    ensures AugStep(r, p, b)[i] == ((if i == 0 then b else r[i - 1]) != (r[|r| - 1] && p[i]))
  {
  }

  lemma {:induction false} AugRunLinear(r: Word, s: Word, p: Word, m: seq<bool>, n: seq<bool>)
    requires |r| == |s| == |p| > 0 && |m| == |n|
    ensures AugRun(Xor(r, s), p, Xor(m, n)) == Xor(AugRun(r, p, m), AugRun(s, p, n))
    decreases |m|
  {
    if m == [] {
    } else {
      AugStepLinear(r, s, p, m[0], n[0]);
      assert Xor(m, n)[1..] == Xor(m[1..], n[1..]);
      AugRunLinear(AugStep(r, p, m[0]), AugStep(s, p, n[0]), p, m[1..], n[1..]);
    }
  }

  /** On zero message bits the two algorithms take the same steps. */
  lemma {:induction false} AugRunOnZeros(r: Word, p: Word, k: nat)
    requires |r| == |p| > 0
    ensures AugRun(r, p, Zeros(k)) == Run(r, p, Zeros(k))
    decreases k
  {
    if k == 0 {
    } else {
      assert Zeros(k)[1..] == Zeros(k - 1);
      assert AugStep(r, p, false) == Step(r, p, false);
      AugRunOnZeros(Step(r, p, false), p, k - 1);
    }
  }

  /** The word whose low |m| bits spell `m`, first bit highest. */
  function Placed(m: seq<bool>, n: nat): (w: Word)
    requires |m| <= n
    ensures |w| == n
  {
    Resize(Reverse(m), n)
  }

  lemma PlacedReverse(c: Word)
    ensures Placed(Reverse(c), |c|) == c
  {
    ReverseTwice(c);
  }

  /** Message bits that still fit below the top of an empty register just fill it up. */
  lemma {:induction false} AugRunFills(p: Word, m: seq<bool>)
    requires |m| <= |p| && |p| > 0
    ensures AugRun(Zeros(|p|), p, m) == Placed(m, |p|)
  {
    if m == [] {
      assert Placed(m, |p|) == Zeros(|p|);
    } else {
      var k := |m| - 1;
      AugRunFills(p, m[..k]);
      AugRunSnoc(Zeros(|p|), p, m[..k], m[k]);
      assert m == m[..k] + [m[k]];
      PlacedStep(m, |p|);
    }
  }

  lemma PlacedStep(m: seq<bool>, n: nat)
    requires 0 < |m| <= n
    ensures var k := |m| - 1;
            !Placed(m[..k], n)[n - 1] && Shl(Placed(m[..k], n), 1)[0 := m[k]] == Placed(m, n)
  {
  }

  /** The table identity of the augmented algorithm. */
  lemma AugRunByTable(r: Word, p: Word, m: seq<bool>)
    requires |r| == |p| > 0 && |m| <= |p|
    ensures AugRun(r, p, m)
         == Xor(Xor(Shl(r, |m|), Placed(m, |p|)), Run(Zeros(|p|), p, TopBits(r, |m|)))
  {
    var k := |m|;
    AugRunSplits(r, p, m);
    RunByTable(r, p, Zeros(k));
    XorZero(TopBits(r, k));
    XorShuffle(Shl(r, k), Run(Zeros(|p|), p, TopBits(r, k)), Placed(m, |p|));
  }

  lemma AugRunSplits(r: Word, p: Word, m: seq<bool>)
    requires |r| == |p| > 0 && |m| <= |p|
    ensures AugRun(r, p, m) == Xor(Run(r, p, Zeros(|m|)), Placed(m, |p|))
  {
    AugRunLinear(r, Zeros(|p|), p, Zeros(|m|), m);
    XorZero(r);
    XorZero(m);
    AugRunOnZeros(r, p, |m|);
    AugRunFills(p, m);
  }

  lemma XorShuffle(a: Word, b: Word, c: Word)
    requires |a| == |b| == |c|
    ensures Xor(Xor(a, b), c) == Xor(Xor(a, c), b)
  {
  }

  /** A message followed by the remainder of its zero-padded form divides evenly. */
  lemma AugmentedCheck(r: Word, p: Word, m: seq<bool>)
    requires |r| == |p| > 0
    ensures var c := AugRun(r, p, m + Zeros(|p|));
            AugRun(r, p, m + Reverse(c)) == Zeros(|p|)
  {
    var z := Zeros(|p|);
    var c := AugRun(r, p, m + z);
    var s := AugRun(r, p, m);
    AugRunAppend(r, p, m, z);
    AugRunAppend(r, p, m, Reverse(c));
    AugRunLinear(s, z, p, z, Reverse(c));
    XorZero(s);
    XorZero(Reverse(c));
    AugRunFills(p, Reverse(c));
    PlacedReverse(c);
    XorSelf(c);
  }
}
