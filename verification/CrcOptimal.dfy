/** The byte-at-a-time engine, which divides through a table, and the augmented-message
    algorithm, which uses the same table. */
module CrcOptimalEngine {
  import opened Words
  import opened CrcDivision
  import opened CrcSpec
  import opened CrcHelpers

  /** The top byte of the remainder, aligned to a byte's own top bit.  The left shift takes
      place in a promoted type, wide enough to lose nothing before the cast to a byte. */
  function AlignMsb(rem: Word, bits: nat): (x: Byte)
    requires 0 < bits <= |rem|
    ensures forall i :: 0 <= i < 8 ==> x[i] == (7 - i < bits && rem[bits - 8 + i])
  {
    if bits > 8 then Resize(Shr(rem, bits - 8), 8) else Resize(Shl(Resize(rem, |rem| + 8), 8 - bits), 8)
  }

  /** The table index of message byte `x`. */
  function Index(rem: Word, x: Byte, bits: nat, doReflect: bool): (y: Byte)
    requires 0 < bits <= |rem|
  {
    if doReflect then Xor(x, Resize(rem, 8)) else Xor(x, AlignMsb(rem, bits))
  }

  /** Shifts out the remainder's highest byte. */
  function Shift(rem: Word, doReflect: bool): (w: Word)
  {
    if doReflect then Shr(rem, 8) else Shl(rem, 8)
  }

  /** The unreflected register behind a stored remainder. */
  function RegisterOf(rem: Word, bits: nat, reflectIn: bool): (r: Word)
    requires bits <= |rem|
    ensures |r| == bits
  {
    Oriented(rem[..bits], reflectIn)
  }

  /** An engine that shifts right must find zeros above its register. */
  predicate Clean(rem: Word, bits: nat, reflectIn: bool)
    requires bits <= |rem|
  {
    reflectIn ==> forall i :: bits <= i < |rem| ==> !rem[i]
  }

  lemma ReflectedIndexCompares(rem: Word, x: Byte, bits: nat)
    requires 0 < bits <= |rem| && Clean(rem, bits, true)
    ensures Xor(x, Resize(rem, 8)) == Xor(x, TopBits(Reverse(rem[..bits]), 8))
  {
    var t, u := Resize(rem, 8), TopBits(Reverse(rem[..bits]), 8);
    forall i | 0 <= i < 8
      ensures t[i] == u[i]
    {
      assert t[i] == (i < |rem| && rem[i]);
    }
    assert t == u;
  }

  lemma PlainIndexCompares(rem: Word, x: Byte, bits: nat)
    requires 0 < bits <= |rem|
    ensures Reverse(Xor(x, AlignMsb(rem, bits))) == Xor(Reverse(x), TopBits(rem[..bits], 8))
  {
    var t, u := Reverse(AlignMsb(rem, bits)), TopBits(rem[..bits], 8);
    forall i | 0 <= i < 8
      ensures t[i] == u[i]
    {
      assert t[i] == AlignMsb(rem, bits)[7 - i];
    }
    assert t == u;
    OrientedXor(x, AlignMsb(rem, bits), true);
  }

  /** The index compares the message byte with exactly the bits that are shifted out. */
  lemma IndexCompares(rem: Word, x: Byte, bits: nat, reflectIn: bool)
    requires 0 < bits <= |rem| && Clean(rem, bits, reflectIn)
    ensures ByteBits(Index(rem, x, bits, reflectIn), reflectIn)
         == Xor(ByteBits(x, reflectIn), TopBits(RegisterOf(rem, bits, reflectIn), 8))
  {
    if reflectIn {
      ReflectedIndexCompares(rem, x, bits);
    } else {
      PlainIndexCompares(rem, x, bits);
    }
  }

  lemma ShiftMovesRegister(rem: Word, bits: nat, reflectIn: bool)
    requires bits <= |rem| && Clean(rem, bits, reflectIn)
    ensures RegisterOf(Shift(rem, reflectIn), bits, reflectIn) == Shl(RegisterOf(rem, bits, reflectIn), 8)
    ensures Clean(Shift(rem, reflectIn), bits, reflectIn)
  {
    var a, b := RegisterOf(Shift(rem, reflectIn), bits, reflectIn), Shl(RegisterOf(rem, bits, reflectIn), 8);
    forall i | 0 <= i < bits
      ensures a[i] == b[i]
    {
      if reflectIn {
        assert a[i] == Shr(rem, 8)[bits - 1 - i];
      } else {
        assert a[i] == Shl(rem, 8)[i];
      }
    }
  }

  lemma XorRegisters(a: Word, b: Word, bits: nat, reflectIn: bool)
    requires bits <= |a| == |b| && Clean(a, bits, reflectIn) && Clean(b, bits, reflectIn)
    ensures RegisterOf(Xor(a, b), bits, reflectIn)
         == Xor(RegisterOf(a, bits, reflectIn), RegisterOf(b, bits, reflectIn))
    ensures Clean(Xor(a, b), bits, reflectIn)
  {
  }

  /** One table step is eight bit steps. */
  lemma TableStep(rem: Word, x: Byte, t: Word, p: Word, reflectIn: bool)
    requires 0 < |p| <= |rem| && Clean(rem, |p|, reflectIn)
    requires EntryFor(t, Index(rem, x, |p|, reflectIn), p, |rem|, reflectIn)
    ensures var s := Xor(Shift(rem, reflectIn), t);
            && Clean(s, |p|, reflectIn)
            && RegisterOf(s, |p|, reflectIn)
               == Run(RegisterOf(rem, |p|, reflectIn), p, ByteBits(x, reflectIn))
  {
    var r, m := RegisterOf(rem, |p|, reflectIn), ByteBits(x, reflectIn);
    ShiftMovesRegister(rem, |p|, reflectIn);
    XorRegisters(Shift(rem, reflectIn), t, |p|, reflectIn);
    IndexCompares(rem, x, |p|, reflectIn);
    OrientedTwice(Run(Zeros(|p|), p, Xor(m, TopBits(r, 8))), reflectIn);
    RunByTable(r, p, m);
  }

  /** The template parameters are constants; only the remainder changes. */
  class CrcOptimal {
    const bits: nat
    const width: nat
    const truncPoly: Word
    const initRem: Word
    const finalXor: Word
    const reflectIn: bool
    const reflectRem: bool
    const table: CrcTable
    var rem: Word

    ghost predicate Valid()
      reads this, table.slots
    {
      && 0 < bits <= width == |rem| == |truncPoly| == |initRem| == |finalXor|
      && Clean(rem, bits, reflectIn)
      && TableFilled(table.slots[..], truncPoly[..bits], width, reflectIn)
    }

    function Register(): (r: Word)
      requires bits <= |rem|
      reads this
      ensures |r| == bits
    {
      RegisterOf(rem, bits, reflectIn)
    }

    function Config(): (c: Parameters)
      requires 0 < bits <= width == |truncPoly| == |initRem| == |finalXor|
      ensures c.Valid() && c.bits == bits
    {
      Parameters(bits, truncPoly[..bits], initRem[..bits], finalXor[..bits], reflectIn, reflectRem)
    }

    /** `newRem` is the run-time argument; `initRem` is its default. */
    constructor (bits: nat, truncPoly: Word, initRem: Word, finalXor: Word,
                 reflectIn: bool, reflectRem: bool, newRem: Word)
      requires 0 < bits <= |truncPoly| == |initRem| == |finalXor| == |newRem|
      ensures Valid() && fresh(table) && fresh(table.slots)
      ensures EverySlotOnce(table.log)
      ensures this.bits == bits && width == |truncPoly|
      ensures Config() == Parameters(bits, truncPoly[..bits], initRem[..bits], finalXor[..bits],
                                     reflectIn, reflectRem)
      ensures Register() == newRem[..bits]
    {
      this.bits := bits;
      this.width := |truncPoly|;
      this.truncPoly := truncPoly;
      this.initRem := initRem;
      this.finalXor := finalXor;
      this.reflectIn := reflectIn;
      this.reflectRem := reflectRem;
      var r := ReflectIf(reflectIn, newRem, bits);
      this.rem := r;
      this.table := new CrcTable();
      new;
      OrientedTwice(newRem[..bits], reflectIn);
      InitTable(table, truncPoly, bits, reflectIn);
      assert table.log == [] + SlotOrder(256, reflectIn) == SlotOrder(256, reflectIn);
    }

    method GetInterimRemainder() returns (r: Word)
      requires Valid()
      ensures r == Register() + Zeros(width - bits)
    {
      var s := ReflectIf(reflectIn, rem, bits);
      MaskKeepsLow(s, bits);
      r := And(s, SigBits(width, bits));
    }

    method ResetTo(newRem: Word)
      requires Valid() && |newRem| == width
      modifies this`rem
      ensures Valid() && Register() == newRem[..bits]
    {
      OrientedTwice(newRem[..bits], reflectIn);
      rem := ReflectIf(reflectIn, newRem, bits);
    }

    method Reset()
      requires Valid()
      modifies this`rem
      ensures Valid() && Register() == Config().init
    {
      ResetTo(initRem);
    }

    method ProcessBlock(data: seq<Byte>)
      requires Valid()
      modifies this`rem
      ensures Valid()
      ensures Register() == Run(old(Register()), Config().poly, MessageBits(data, reflectIn))
    {
      ghost var r, p := Register(), Config().poly;
      for k := 0 to |data|
        invariant Valid()
        invariant Register() == Run(r, p, MessageBits(data[..k], reflectIn))
      {
        var byteIndex := Index(rem, data[k], bits, reflectIn);
        EntryOf(table.slots[..], byteIndex, p, width, reflectIn);
        TableStep(rem, data[k], table.slots[Value(byteIndex)], p, reflectIn);
        rem := Shift(rem, reflectIn);
        rem := Xor(rem, table.slots[Value(byteIndex)]);
        RunNextByte(r, p, data, k, reflectIn);
      }
      assert data[..|data|] == data;
    }

    method ProcessByte(data: Byte)
      requires Valid()
      modifies this`rem
      ensures Valid()
      ensures Register() == Run(old(Register()), Config().poly, ByteBits(data, reflectIn))
    {
      ProcessBlock([data]);
      MessageBitsSnoc([], data, reflectIn);
      assert [] + [data] == [data];
      assert MessageBits([], reflectIn) + ByteBits(data, reflectIn) == ByteBits(data, reflectIn);
    }

    /** The output is reflected only when the two reflection settings differ, because the
        remainder is already stored reflected when the input is. */
    method Checksum() returns (c: Word)
      requires Valid()
      ensures c == Finish(Config(), Register()) + Zeros(width - bits)
    {
      var reflectOutput := reflectRem != reflectIn;
      var r := ReflectIf(reflectOutput, rem, bits);
      OrientedTwice(rem[..bits], reflectIn);
      LowOfXor(r, finalXor, bits);
      MaskKeepsLow(Xor(r, finalXor), bits);
      c := And(Xor(r, finalXor), SigBits(width, bits));
    }
  }

  /** The whole computation in one call, with the default initial remainder. */
  method Crc(bits: nat, truncPoly: Word, initRem: Word, finalXor: Word,
             reflectIn: bool, reflectRem: bool, data: seq<Byte>) returns (c: Word)
    requires 0 < bits <= |truncPoly| == |initRem| == |finalXor|
    ensures |c| == |truncPoly|
    ensures c == CrcSpec.Checksum(Parameters(bits, truncPoly[..bits], initRem[..bits], finalXor[..bits],
                                             reflectIn, reflectRem), data)
                 + Zeros(|truncPoly| - bits)
  {
    var computer := new CrcOptimal(bits, truncPoly, initRem, finalXor, reflectIn, reflectRem, initRem);
    computer.ProcessBlock(data);
    c := computer.Checksum();
  }

  // ----- Augmented messages

  lemma AugmentedIndex(rem: Word, bits: nat)
    requires 8 <= bits <= |rem|
    ensures ByteBits(Resize(Shr(rem, bits - 8), 8), false) == TopBits(rem[..bits], 8)
  {
  }

  lemma AugmentedShift(rem: Word, x: Byte, bits: nat)
    requires 8 <= bits <= |rem|
    ensures Or(Shl(rem, 8), Resize(x, |rem|))[..bits]
         == Xor(Shl(rem[..bits], 8), Placed(ByteBits(x, false), bits))
  {
    ReverseTwice(x);
  }

  lemma AugmentedEntry(r: Word, index: Byte, t: Word, p: Word, width: nat)
    requires 0 < |p| == |r| <= width && EntryFor(t, index, p, width, false)
    requires ByteBits(index, false) == TopBits(r, 8)
    ensures t[..|p|] == Run(Zeros(|p|), p, TopBits(r, 8))
  {
  }

  lemma AugmentedTableStep(rem: Word, x: Byte, t: Word, p: Word)
    requires 8 <= |p| <= |rem| == |t|
    requires t[..|p|] == Run(Zeros(|p|), p, TopBits(rem[..|p|], 8))
    ensures Xor(Or(Shl(rem, 8), Resize(x, |rem|)), t)[..|p|]
         == AugRun(rem[..|p|], p, ByteBits(x, false))
  {
    AugmentedShift(rem, x, |p|);
    AugmentedSum(rem[..|p|], p, ByteBits(x, false), Or(Shl(rem, 8), Resize(x, |rem|)), t);
  }

  lemma AugmentedSum(r: Word, p: Word, m: seq<bool>, shifted: Word, t: Word)
    requires |r| == |p| > 0 && |m| <= |p| <= |shifted| == |t|
    requires shifted[..|p|] == Xor(Shl(r, |m|), Placed(m, |p|))
    requires t[..|p|] == Run(Zeros(|p|), p, TopBits(r, |m|))
    ensures Xor(shifted, t)[..|p|] == AugRun(r, p, m)
  {
    LowOfXor(shifted, t, |p|);
    AugRunByTable(r, p, m);
  }

  /** Division of a message that carries its own room for the checksum.  The index shifts the
      remainder right by Bits - CHAR_BIT, so the width is at least that of a byte. */
  method AugmentedCrc(bits: nat, truncPoly: Word, data: seq<Byte>, initialRemainder: Word) returns (c: Word)
    requires 8 <= bits <= |truncPoly| == |initialRemainder|
    ensures c == AugRun(initialRemainder[..bits], truncPoly[..bits], MessageBits(data, false))
                 + Zeros(|truncPoly| - bits)
  {
    var width := |truncPoly|;
    ghost var r, p := initialRemainder[..bits], truncPoly[..bits];
    var rem := initialRemainder;
    var table := new CrcTable();
    InitTable(table, truncPoly, bits, false);
    for k := 0 to |data|
      invariant |rem| == width && TableFilled(table.slots[..], p, width, false)
      invariant rem[..bits] == AugRun(r, p, MessageBits(data[..k], false))
    {
      var byteIndex: Byte := Resize(Shr(rem, bits - 8), 8);
      EntryOf(table.slots[..], byteIndex, p, width, false);
      AugmentedIndex(rem, bits);
      AugmentedEntry(rem[..bits], byteIndex, table.slots[Value(byteIndex)], p, width);
      AugmentedTableStep(rem, data[k], table.slots[Value(byteIndex)], p);
      rem := Shl(rem, 8);
      rem := Or(rem, Resize(data[k], width));
      rem := Xor(rem, table.slots[Value(byteIndex)]);
      AugRunNextByte(r, p, data, k);
    }
    assert data[..|data|] == data;
    MaskKeepsLow(rem, bits);
    c := And(rem, SigBits(width, bits));
  }
}
