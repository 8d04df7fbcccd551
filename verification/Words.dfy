/** Unsigned integers of a fixed width, as bit sequences.

    A word of width `n` is a sequence of `n` booleans whose element `i` is the bit of weight
    2^i.  Widths are ordinary numbers, so a statement about words covers `unsigned char` and
    every integer type that may hold a CRC remainder.
  */
module Words {
  import opened PowersOfTwo

  type Word = seq<bool>

  /** `unsigned char`, with CHAR_BIT == 8. */
  type Byte = w: Word | |w| == 8 witness seq(8, _ => false)

  function Zeros(n: nat): (w: Word)
    ensures |w| == n && forall i :: 0 <= i < n ==> !w[i]
  {
    seq(n, _ => false)
  }

  /** The word of width `n` with bit `k` alone set (1 << k). */
  function OneBit(n: nat, k: nat): (w: Word)
    ensures |w| == n && forall i :: 0 <= i < n ==> w[i] == (i == k)
  {
    seq(n, i => i == k)
  }

  function Xor(a: Word, b: Word): (w: Word)
    requires |a| == |b|
    ensures |w| == |a| && forall i :: 0 <= i < |a| ==> w[i] == (a[i] != b[i])
  {
    seq(|a|, i requires 0 <= i < |a| => a[i] != b[i])
  }

  function Or(a: Word, b: Word): (w: Word)
    requires |a| == |b|
    ensures |w| == |a| && forall i :: 0 <= i < |a| ==> w[i] == (a[i] || b[i])
  {
    seq(|a|, i requires 0 <= i < |a| => a[i] || b[i])
  }

  function And(a: Word, b: Word): (w: Word)
    requires |a| == |b|
    ensures |w| == |a| && forall i :: 0 <= i < |a| ==> w[i] == (a[i] && b[i])
  {
    seq(|a|, i requires 0 <= i < |a| => a[i] && b[i])
  }

  function Not(a: Word): (w: Word)
    ensures |w| == |a| && forall i :: 0 <= i < |a| ==> w[i] == !a[i]
  {
    seq(|a|, i requires 0 <= i < |a| => !a[i])
  }

  /** The test (a & b) of a condition: do the two words share a one bit? */
  predicate Meets(a: Word, b: Word)
    requires |a| == |b|
    ensures Meets(a, b) <==> exists i :: 0 <= i < |a| && a[i] && b[i]
  {
    var w := And(a, b);
    assert w != Zeros(|a|) ==> exists i :: 0 <= i < |a| && w[i] != Zeros(|a|)[i];
    w != Zeros(|a|)
  }

  /** Left shift within the word's own width: bits shifted past the top are lost. */
  function Shl(a: Word, k: nat): (w: Word)
    ensures |w| == |a| && forall i :: 0 <= i < |a| ==> w[i] == (i >= k && a[i - k])
  {
    seq(|a|, i requires 0 <= i < |a| => i >= k && a[i - k])
  }

  function Shr(a: Word, k: nat): (w: Word)
    ensures |w| == |a| && forall i :: 0 <= i < |a| ==> w[i] == (i + k < |a| && a[i + k])
  {
    seq(|a|, i requires 0 <= i < |a| => i + k < |a| && a[i + k])
  }

  /** Conversion to another unsigned type: truncation or zero extension. */
  function Resize(a: Word, n: nat): (w: Word)
    ensures |w| == n && forall i :: 0 <= i < n ==> w[i] == (i < |a| && a[i])
  {
    seq(n, i requires 0 <= i < n => i < |a| && a[i])
  }

  function Reverse(a: Word): (w: Word)
    ensures |w| == |a| && forall i :: 0 <= i < |a| ==> w[i] == a[|a| - 1 - i]
  {
    seq(|a|, i requires 0 <= i < |a| => a[|a| - 1 - i])
  }

  /** The low `n` bits of `a`, mirrored, in a word as wide as `a`. */
  function Mirrored(a: Word, n: nat): (w: Word)
    requires n <= |a|
    ensures |w| == |a| && w[..n] == Reverse(a[..n])
    ensures forall i :: n <= i < |a| ==> !w[i]
  {
    Reverse(a[..n]) + Zeros(|a| - n)
  }

  lemma XorZero(a: Word)
    ensures Xor(a, Zeros(|a|)) == a && Xor(Zeros(|a|), a) == a
  {
  }

  lemma XorSelf(a: Word)
    ensures Xor(a, a) == Zeros(|a|)
  {
  }

  lemma XorCancels(a: Word, b: Word)
    requires |a| == |b|
    ensures Xor(a, Xor(b, a)) == b
  {
  }

  lemma XorZeroOnlyIfEqual(a: Word, b: Word)
    requires |a| == |b| && Xor(a, b) == Zeros(|a|)
    ensures a == b
  {
    forall i | 0 <= i < |a|
      ensures a[i] == b[i]
    {
      assert !Xor(a, b)[i];
    }
  }

  lemma ReverseTwice(a: Word)
    ensures Reverse(Reverse(a)) == a
  {
  }

  /** The number a word stands for. */
  function Value(a: Word): (v: nat)
    ensures v < Pow2(|a|)
  {
    if |a| == 0 then 0 else (if a[0] then 1 else 0) + 2 * Value(a[1..])
  }

  /** The word of width `n` that holds `v` modulo 2^n. */
  function OfValue(v: nat, n: nat): (w: Word)
    ensures |w| == n
  {
    if n == 0 then [] else [v % 2 == 1] + OfValue(v / 2, n - 1)
  }

  lemma {:induction false} ValueOfValue(v: nat, n: nat)
    requires v < Pow2(n)
    ensures Value(OfValue(v, n)) == v
  {
    if n == 0 {
    } else {
      ValueOfValue(v / 2, n - 1);
      assert OfValue(v, n)[1..] == OfValue(v / 2, n - 1);
    }
  }

  lemma {:induction false} OfValueValue(a: Word)
    ensures OfValue(Value(a), |a|) == a
  {
    if |a| == 0 {
    } else {
      OfValueValue(a[1..]);
      assert Value(a) / 2 == Value(a[1..]);
      assert a == [a[0]] + a[1..];
    }
  }

  lemma ValueInjective(a: Word, b: Word)
    requires |a| == |b| && Value(a) == Value(b)
    ensures a == b
  {
    OfValueValue(a);
    OfValueValue(b);
  }

  /** Zero bits above a word do not change its value. */
  lemma {:induction false} ValueZeroExtended(a: Word, n: nat)
    ensures Value(a + Zeros(n)) == Value(a)
  {
    if |a| == 0 {
      assert a + Zeros(n) == Zeros(n);
      ValueZeros(n);
    } else {
      ValueZeroExtended(a[1..], n);
      assert (a + Zeros(n))[1..] == a[1..] + Zeros(n);
    }
  }

  lemma {:induction false} ValueZeros(n: nat)
    ensures Value(Zeros(n)) == 0
  {
    if n == 0 {
    } else {
      ValueZeros(n - 1);
      assert Zeros(n)[1..] == Zeros(n - 1);
    }
  }

  // ----- Place values

  /** Bit `k` alone is worth 2^k. */
  lemma ValueOneBit(n: nat, k: nat)
    requires k < n
    ensures Value(OneBit(n, k)) == Pow2(k)
  {
    OneBitSplit(n, k);
    ValueOfOne(n - k - 1);
    OneAt(Zeros(k), [true] + Zeros(n - k - 1));
    ValueZeros(k);
  }

  lemma OneAt(low: Word, high: Word)
    requires Value(high) == 1
    ensures Value(low + high) == Value(low) + Pow2(|low|)
  {
    ValueAppend(low, high);
  }

  lemma OneBitSplit(n: nat, k: nat)
    requires k < n
    ensures OneBit(n, k) == Zeros(k) + ([true] + Zeros(n - k - 1))
  {
  }

  lemma ValueOfOne(n: nat)
    ensures Value([true] + Zeros(n)) == 1
  {
    assert ([true] + Zeros(n))[1..] == Zeros(n);
    ValueZeros(n);
  }

  /** What stands above `n` bits is worth 2^n times as much. */
  lemma {:induction false} ValueAppend(a: Word, b: Word)
    ensures Value(a + b) == Value(a) + Pow2(|a|) * Value(b)
    decreases |a|
  {
    if a == [] {
      assert a + b == b;
    } else {
      assert (a + b)[1..] == a[1..] + b;
      ValueAppend(a[1..], b);
      DoubledWeight(|a| - 1, Value(b));
      assert (a + b)[0] == a[0];
    }
  }

  lemma DoubledWeight(k: nat, v: nat)
    ensures 2 * (Pow2(k) * v) == Pow2(k + 1) * v
  {
    assert (2 * Pow2(k)) * v == 2 * (Pow2(k) * v);
  }

  /** The bits of a word are the binary digits of its value. */
  ghost predicate Digits(a: Word, v: nat) {
    forall i :: 0 <= i < |a| ==> a[i] == (v / Pow2(i) % 2 == 1)
  }

  lemma ValueHasDigits(a: Word)
    ensures Digits(a, Value(a))
  {
    forall i | 0 <= i < |a|
      ensures a[i] == (Value(a) / Pow2(i) % 2 == 1)
    {
      DigitAt(a, a[..i], a[i..], i);
    }
  }

  lemma DigitAt(a: Word, low: Word, high: Word, i: nat)
    requires a == low + high && |low| == i && high != []
    ensures a[i] == (Value(a) / Pow2(i) % 2 == 1)
  {
    ValueAppend(low, high);
    DropsLow(Value(low), i, Value(high));
    LowestDigit(high);
  }

  lemma LowestDigit(a: Word)
    requires a != []
    ensures a[0] == (Value(a) % 2 == 1)
  {
  }

  /** A word of few enough digits is determined by them. */
  lemma DigitsDetermine(a: Word, v: nat)
    requires v < Pow2(|a|) && Digits(a, v)
    ensures Value(a) == v
  {
    ValueOfValue(v, |a|);
    ValueHasDigits(OfValue(v, |a|));
    var b := OfValue(v, |a|);
    forall i | 0 <= i < |a|
      ensures a[i] == b[i]
    {
    }
    assert a == b;
  }
}
