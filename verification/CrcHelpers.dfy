/** The pieces the CRC engines share: reflection, and the table of byte remainders. */
module CrcHelpers {
  import opened Words
  import opened PowersOfTwo
  import opened CrcDivision
  import opened CrcSpec

  /** Mirrors the low `bits` bits of `x0` and clears every bit above them. */
  method Reflect(x0: Word, bits: nat) returns (reflection: Word)
    requires 0 < bits <= |x0|
    ensures reflection == Mirrored(x0, bits)
  {
    var x := x0;
    reflection := Zeros(|x0|);
    assert reflection == MirroredPart(x0, bits, 0);
    assert x == Shr(x0, 0);
    for i := 0 to bits
      invariant x == Shr(x0, i)
      invariant reflection == MirroredPart(x0, bits, i)
    {
      ReflectStep(x0, bits, i);
      if x[0] {
        reflection := Or(reflection, OneBit(|x0|, bits - 1 - i));
      }
      x := Shr(x, 1);
    }
    MirroredAll(x0, bits);
  }

  /** The `n` highest of the `bits` mirrored positions. */
  function MirroredPart(x: Word, bits: nat, n: nat): (w: Word)
    requires n <= bits <= |x|
    ensures |w| == |x| && forall j :: 0 <= j < |x| ==> w[j] == (bits - n <= j < bits && x[bits - 1 - j])
  {
    seq(|x|, j requires 0 <= j < |x| => bits - n <= j < bits && x[bits - 1 - j])
  }

  lemma ReflectStep(x: Word, bits: nat, n: nat)
    requires n < bits <= |x|
    ensures Shr(x, n)[0] == x[n]
    ensures Shr(Shr(x, n), 1) == Shr(x, n + 1)
    ensures MirroredPart(x, bits, n + 1)
         == if x[n] then Or(MirroredPart(x, bits, n), OneBit(|x|, bits - 1 - n)) else MirroredPart(x, bits, n)
  {
  }

  lemma MirroredAll(x: Word, bits: nat)
    requires bits <= |x|
    ensures MirroredPart(x, bits, bits) == Mirrored(x, bits)
  {
  }

  /** `Reflect` when the flag is set, the unchanged word otherwise. */
  method ReflectIf(doReflect: bool, x: Word, bits: nat) returns (y: Word)
    requires 0 < bits <= |x|
    ensures |y| == |x| && y[..bits] == Oriented(x[..bits], doReflect)
    ensures y == if doReflect then Mirrored(x, bits) else x
  {
    if doReflect {
      y := Reflect(x, bits);
    } else {
      y := x;
    }
  }

  /** The mask of the low `bits` bits: ~(~0 << bits). */
  function SigBits(width: nat, bits: nat): (w: Word)
    requires bits <= width
    ensures |w| == width && forall i :: 0 <= i < width ==> w[i] == (i < bits)
  {
    Not(Shl(Not(Zeros(width)), bits))
  }

  lemma MaskKeepsLow(w: Word, bits: nat)
    requires bits <= |w|
    ensures And(w, SigBits(|w|, bits)) == w[..bits] + Zeros(|w| - bits)
  {
  }

  /** The same on a byte. */
  method ReflectByteIf(doReflect: bool, x: Byte) returns (y: Byte)
    ensures y == Oriented(x, doReflect)
  {
    y := x;
    if doReflect {
      y := Reflect(x, 8);
      assert x[..8] == x && y[..8] == y;
    }
  }

  // ----- The table of byte remainders

  /** What the slot of the byte `x` must hold: below bit `Bits`, the stored form of the
      register that divides `x` alone from zero; above it nothing, if the engine shifts
      right, and anything otherwise. */
  ghost predicate EntryFor(t: Word, x: Byte, p: Word, width: nat, reflect: bool)
    requires 0 < |p| <= width
  {
    && |t| == width
    && t[..|p|] == Oriented(Run(Zeros(|p|), p, ByteBits(x, reflect)), reflect)
    && (reflect ==> forall i :: |p| <= i < width ==> !t[i])
  }

  ghost predicate TableFilled(table: seq<Word>, p: Word, width: nat, reflect: bool)
    requires 0 < |p| <= width
  {
    && |table| == 256
    && forall x: Byte :: ValueBound(x) && EntryFor(table[Value(x)], x, p, width, reflect)
  }

  lemma ByteValues()
    ensures Pow2(8) == 256
  {
  }

  /** A byte is a table index. */
  predicate ValueBound(x: Byte)
    ensures ValueBound(x)
  {
    ByteValues(); Value(x) < 256
  }

  lemma EntryOf(table: seq<Word>, x: Byte, p: Word, width: nat, reflect: bool)
    requires 0 < |p| <= width && TableFilled(table, p, width, reflect)
    ensures Value(x) < 256 && EntryFor(table[Value(x)], x, p, width, reflect)
  {
    assert ValueBound(x);
  }

  /** The byte that counts to `v`. */
  ghost function ByteOf(v: nat): (x: Byte)
    requires v < 256
    ensures Value(x) == v
  {
    ByteExists(v);
    var x: Byte :| Value(x) == v;
    x
  }

  lemma ByteExists(v: nat)
    requires v < 256
    ensures exists x: Byte :: Value(x) == v
  {
    ByteValues();
    ValueOfValue(v, 8);
    var x: Byte := OfValue(v, 8);
    assert Value(x) == v;
  }

  /** The slot that the entry of a dividend goes to. */
  ghost function SlotOf(dividend: nat, reflect: bool): (k: nat)
    requires dividend < 256
    ensures k < 256
  {
    var x: Byte := Oriented(ByteOf(dividend), reflect);
    assert ValueBound(x);
    Value(x)
  }

  /** Byte reflection is a bijection, so no two dividends share a slot. */
  lemma SlotsDistinct(j: nat, k: nat, reflect: bool)
    requires j < k < 256
    ensures SlotOf(j, reflect) != SlotOf(k, reflect)
  {
    var x, y := ByteOf(j), ByteOf(k);
    if SlotOf(j, reflect) == SlotOf(k, reflect) {
      ValueInjective(Oriented(x, reflect), Oriented(y, reflect));
      OrientedTwice(x, reflect);
      OrientedTwice(y, reflect);
    }
  }

  /** Every byte's slot belongs to some dividend. */
  lemma EverySlotReached(x: Byte, reflect: bool) returns (dividend: nat)
    ensures dividend < 256 && SlotOf(dividend, reflect) == Value(x)
    ensures Oriented(ByteOf(dividend), reflect) == x
  {
    var y: Byte := Oriented(x, reflect);
    assert ValueBound(y);
    dividend := Value(y);
    ValueInjective(y, ByteOf(dividend));
    OrientedTwice(x, reflect);
  }

  /** One division step on a storage word that is wider than the register. */
  function WordStep(w: Word, poly: Word, bits: nat, b: bool): (s: Word)
    requires 0 < bits <= |w| == |poly|
    ensures |s| == |w|
  {
    var t := Xor(w, if b then OneBit(|w|, bits - 1) else Zeros(|w|));
    if Meets(t, OneBit(|w|, bits - 1)) then Xor(Shl(t, 1), poly) else Shl(t, 1)
  }

  lemma MeetsOneBit(w: Word, k: nat)
    requires k < |w|
    ensures Meets(w, OneBit(|w|, k)) == w[k]
  {
  }

  lemma LowOfXor(a: Word, b: Word, bits: nat)
    requires |a| == |b| >= bits
    ensures Xor(a, b)[..bits] == Xor(a[..bits], b[..bits])
  {
  }

  lemma LowOfShl(a: Word, k: nat, bits: nat)
    requires |a| >= bits
    ensures Shl(a, k)[..bits] == Shl(a[..bits], k)
  {
  }

  /** Junk above bit `Bits` of the word, and of the polynomial, never reaches the register. */
  lemma WordStepLow(w: Word, poly: Word, bits: nat, b: bool)
    requires 0 < bits <= |w| == |poly|
    ensures WordStep(w, poly, bits, b)[..bits] == Step(w[..bits], poly[..bits], b)
  {
    var r, p := w[..bits], poly[..bits];
    var t := Xor(w, if b then OneBit(|w|, bits - 1) else Zeros(|w|));
    MeetsOneBit(t, bits - 1);
    LowOfShl(t, 1, bits);
    LowOfXor(Shl(t, 1), poly, bits);
    assert t[bits - 1] == (r[bits - 1] != b);
    assert Shl(t, 1)[..bits] == Shl(r, 1);
  }

  /** Divides one bit of the dividend. */
  method DivideBit(w: Word, truncPoly: Word, bits: nat, bit: bool) returns (remainder: Word)
    requires 0 < bits <= |truncPoly| == |w|
    ensures |remainder| == |truncPoly|
    ensures remainder[..bits] == Step(w[..bits], truncPoly[..bits], bit)
  {
    WordStepLow(w, truncPoly, bits, bit);
    XorZero(w);
    var fastHiBit := OneBit(|w|, bits - 1);
    remainder := w;
    if bit {
      remainder := Xor(remainder, fastHiBit);
    }
    if Meets(remainder, fastHiBit) {
      remainder := Shl(remainder, 1);
      remainder := Xor(remainder, truncPoly);
    } else {
      remainder := Shl(remainder, 1);
    }
  }

  /** Divides the bits of one byte, highest first, starting from a zero remainder. */
  method DivideByte(dividend: Byte, truncPoly: Word, bits: nat) returns (remainder: Word)
    requires 0 < bits <= |truncPoly|
    ensures |remainder| == |truncPoly|
    ensures remainder[..bits] == Run(Zeros(bits), truncPoly[..bits], Reverse(dividend))
  {
    ghost var z, p, m := Zeros(bits), truncPoly[..bits], Reverse(dividend);
    remainder := Zeros(|truncPoly|);
    assert remainder[..bits] == z;
    var mask := OneBit(8, 7);
    ghost var n := 0;
    while mask != Zeros(8)
      invariant n <= 8 && |remainder| == |truncPoly|
      invariant remainder[..bits] == Run(z, p, m[..n])
      invariant mask == MaskAt(n)
      decreases 8 - n
    {
      MaskEnds(n);
      MaskStep(dividend, n);
      RunNextBit(z, p, m, n);
      remainder := DivideBit(remainder, truncPoly, bits, Meets(dividend, mask));
      mask := Shr(mask, 1);
      n := n + 1;
    }
    MaskEnds(n);
    assert m[..8] == m;
  }

  /** The mask after `n` shifts: a single bit, and then nothing. */
  function MaskAt(n: nat): (w: Byte) {
    if n < 8 then OneBit(8, 7 - n) else Zeros(8)
  }

  lemma MaskEnds(n: nat)
    ensures MaskAt(n) == Zeros(8) <==> n >= 8
  {
    if n < 8 {
      assert MaskAt(n)[7 - n];
    }
  }

  lemma MaskStep(dividend: Byte, n: nat)
    requires n < 8
    ensures Meets(dividend, MaskAt(n)) == Reverse(dividend)[n]
    ensures Shr(MaskAt(n), 1) == MaskAt(n + 1)
  {
    MeetsOneBit(dividend, 7 - n);
  }

  /** The stored remainders.  All writes go through `Put`, and `log` lists the slots they
      went to. */
  class CrcTable {
    const slots: array<Word>
    ghost var log: seq<nat>

    constructor ()
      ensures fresh(slots) && slots.Length == 256 && log == []
    {
      slots, log := new Word[256](_ => []), [];
    }

    method Put(k: nat, w: Word)
      requires k < slots.Length
      modifies this`log, slots
      ensures slots[..] == old(slots[..])[k := w]
      ensures log == old(log) + [k]
    {
      slots[k] := w;
      log := log + [k];
    }
  }

  /** Computes and stores the entry of one dividend. */
  method FillSlot(table: CrcTable, dividend: Byte, truncPoly: Word, bits: nat, reflect: bool)
    returns (ghost stored: Word)
    requires table.slots.Length == 256 && 0 < bits <= |truncPoly|
    modifies table`log, table.slots
    ensures ValueBound(Oriented(dividend, reflect))
    ensures table.slots[..] == old(table.slots[..])[Value(Oriented(dividend, reflect)) := stored]
    ensures table.log == old(table.log) + [Value(Oriented(dividend, reflect))]
    ensures EntryFor(stored, Oriented(dividend, reflect), truncPoly[..bits], |truncPoly|, reflect)
  {
    var remainder := DivideByte(dividend, truncPoly, bits);
    var index := ReflectByteIf(reflect, dividend);
    var entry := ReflectIf(reflect, remainder, bits);
    EntryComputed(dividend, remainder, index, entry, truncPoly[..bits], reflect);
    assert ValueBound(index);
    table.Put(Value(index), entry);
    stored := entry;
  }

  /** ++x on a byte, which wraps at 256. */
  function Increment(x: Byte): (y: Byte)
  {
    OfValue((Value(x) + 1) % 256, 8)
  }

  lemma IncrementCounts(x: Byte)
    ensures Value(Increment(x)) == if Value(x) < 255 then Value(x) + 1 else 0
  {
    assert ValueBound(x);
    ByteValues();
    var n := Value(x);
    if n < 255 {
      assert (n + 1) % 256 == n + 1;
    }
    ValueOfValue((n + 1) % 256, 8);
  }

  /** Fills the table and writes every slot exactly once, although the loop's only counter
      is a byte that wraps to zero. */
  method InitTable(table: CrcTable, truncPoly: Word, bits: nat, reflect: bool)
    requires table.slots.Length == 256 && 0 < bits <= |truncPoly|
    modifies table`log, table.slots
    ensures TableFilled(table.slots[..], truncPoly[..bits], |truncPoly|, reflect)
    ensures table.log == old(table.log) + SlotOrder(256, reflect)
    ensures EverySlotOnce(SlotOrder(256, reflect))
  {
    ghost var p, width := truncPoly[..bits], |truncPoly|;
    var dividend: Byte := Zeros(8);
    ghost var n := 0;
    var again := true;
    ValueZeros(8);
    while again
      invariant n <= 256
      invariant again ==> n < 256 && Value(dividend) == n
      invariant !again ==> n == 256
      invariant table.log == old(table.log) + SlotOrder(n, reflect)
      invariant FilledUpTo(table.slots[..], n, p, width, reflect)
      decreases 256 - n
    {
      ghost var before := table.slots[..];
      ValueInjective(dividend, ByteOf(n));
      ghost var stored := FillSlot(table, dividend, truncPoly, bits, reflect);
      FilledStep(before, n, stored, p, width, reflect);
      SlotOrderNext(n, reflect);
      IncrementCounts(dividend);
      dividend := Increment(dividend);
      n := n + 1;
      again := Value(dividend) != 0;
    }
    SlotsAllWrittenOnce(reflect);
    AllSlotsFilled(table.slots[..], p, width, reflect);
  }

  lemma EntryComputed(dividend: Byte, remainder: Word, slot: Byte, stored: Word, p: Word, reflect: bool)
    requires 0 < |p| <= |remainder|
    requires remainder[..|p|] == Run(Zeros(|p|), p, Reverse(dividend))
    requires slot == Oriented(dividend, reflect)
    requires stored == if reflect then Mirrored(remainder, |p|) else remainder
    ensures EntryFor(stored, slot, p, |remainder|, reflect)
  {
    SlotBits(dividend, reflect);
    assert stored[..|p|] == Oriented(remainder[..|p|], reflect);
  }

  /** The order in which a byte's bits are read, after reflection if there is one. */
  lemma ReadOrder(x: Byte, reflect: bool)
    ensures Reverse(Oriented(x, reflect)[..8]) == ByteBits(x, reflect)
  {
    var y := Oriented(x, reflect);
    assert y[..8] == y;
    ReverseTwice(x);
  }

  lemma SlotBits(dividend: Byte, reflect: bool)
    ensures ByteBits(Oriented(dividend, reflect), reflect) == Reverse(dividend)
  {
  }

  /** The first `n` dividends have their entries. */
  ghost predicate FilledUpTo(table: seq<Word>, n: nat, p: Word, width: nat, reflect: bool)
    requires 0 < |p| <= width && n <= 256
  {
    && |table| == 256
    && forall k :: 0 <= k < n
         ==> EntryFor(table[SlotOf(k, reflect)], Oriented(ByteOf(k), reflect), p, width, reflect)
  }

  lemma FilledStep(table: seq<Word>, n: nat, stored: Word, p: Word, width: nat, reflect: bool)
    requires n < 256 && 0 < |p| <= width
    requires FilledUpTo(table, n, p, width, reflect)
    requires EntryFor(stored, Oriented(ByteOf(n), reflect), p, width, reflect)
    ensures FilledUpTo(table[SlotOf(n, reflect) := stored], n + 1, p, width, reflect)
  {
    forall k | 0 <= k < n + 1
      ensures EntryFor(table[SlotOf(n, reflect) := stored][SlotOf(k, reflect)],
                       Oriented(ByteOf(k), reflect), p, width, reflect)
    {
      FilledStepAt(table, n, k, stored, reflect);
    }
  }

  lemma FilledStepAt(table: seq<Word>, n: nat, k: nat, stored: Word, reflect: bool)
    requires k <= n < 256 && |table| == 256
    ensures table[SlotOf(n, reflect) := stored][SlotOf(k, reflect)]
         == if k == n then stored else table[SlotOf(k, reflect)]
  {
    if k < n {
      SlotsDistinct(k, n, reflect);
    }
  }

  ghost function SlotOrder(n: nat, reflect: bool): (order: seq<nat>)
    requires n <= 256
    ensures |order| == n && forall k :: 0 <= k < n ==> order[k] == SlotOf(k, reflect)
  {
    seq(n, k requires 0 <= k < n => SlotOf(k, reflect))
  }

  lemma SlotOrderNext(n: nat, reflect: bool)
    requires n < 256
    ensures SlotOrder(n + 1, reflect) == SlotOrder(n, reflect) + [SlotOf(n, reflect)]
  {
  }

  /** All 256 slots, and none twice. */
  ghost predicate EverySlotOnce(order: seq<nat>) {
    && |order| == 256
    && (forall k :: 0 <= k < 256 ==> order[k] < 256)
    && (forall i, j :: 0 <= i < j < 256 ==> order[i] != order[j])
    && (forall k: nat :: k < 256 ==> k in order)
  }

  lemma SlotsAllWrittenOnce(reflect: bool)
    ensures EverySlotOnce(SlotOrder(256, reflect))
  {
    var order := SlotOrder(256, reflect);
    forall i, j | 0 <= i < j < 256
      ensures order[i] != order[j]
    {
      SlotsDistinct(i, j, reflect);
    }
    forall k: nat | k < 256
      ensures k in order
    {
      var i := EverySlotReached(ByteOf(k), reflect);
      assert order[i] == k;
    }
  }

  lemma AllSlotsFilled(table: seq<Word>, p: Word, width: nat, reflect: bool)
    requires 0 < |p| <= width && FilledUpTo(table, 256, p, width, reflect)
    ensures TableFilled(table, p, width, reflect)
  {
    forall x: Byte
      ensures ValueBound(x) && EntryFor(table[Value(x)], x, p, width, reflect)
    {
      var k := EverySlotReached(x, reflect);
    }
  }

  // ----- Slots as numbers

  /** In a filled table, slot `n` holds the entry of the byte with the binary digits of `n`. */
  lemma SlotHolds(table: seq<Word>, p: Word, width: nat, reflect: bool, n: nat, x: Byte)
    requires 0 < |p| <= width && TableFilled(table, p, width, reflect)
    requires n < 256 && Digits(x, n)
    ensures EntryFor(table[n], x, p, width, reflect)
  {
    ByteValues();
    DigitsDetermine(x, n);
    EntryOf(table, x, p, width, reflect);
  }

  /** A dividend goes to the slot of the same number, or of the number with its eight digits
      reversed. */
  lemma SlotDigits(dividend: nat, reflect: bool, i: nat)
    requires dividend < 256 && i < 8
    ensures SlotOf(dividend, reflect) / Pow2(i) % 2 == dividend / Pow2(if reflect then 7 - i else i) % 2
    ensures !reflect ==> SlotOf(dividend, reflect) == dividend
  {
    var x := ByteOf(dividend);
    ValueHasDigits(x);
    ValueHasDigits(Oriented(x, reflect));
    var j := if reflect then 7 - i else i;
    assert Oriented(x, reflect)[i] == x[j];
  }
}
