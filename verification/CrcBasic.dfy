/** The bit-at-a-time engine. */
module CrcBasicEngine {
  import opened Words
  import opened CrcDivision
  import opened CrcSpec
  import opened CrcHelpers

  /** `width` is the width of the storage words; only their low `bits` bits are the register. */
  class CrcBasic {
    const bits: nat
    const width: nat
    var rem: Word
    var poly: Word
    var init: Word
    var final: Word
    var rftIn: bool
    var rftOut: bool

    predicate Valid()
      reads this
    {
      0 < bits <= width == |rem| == |poly| == |init| == |final|
    }

    /** The low `bits` bits of the remainder, junk above them dropped. */
    function Register(): (r: Word)
      requires Valid()
      reads this
      ensures |r| == bits
    {
      rem[..bits]
    }

    /** The parameters this engine was given, without the junk. */
    function Config(): (c: Parameters)
      requires Valid()
      reads this
      ensures c.Valid() && c.bits == bits
    {
      Parameters(bits, poly[..bits], init[..bits], final[..bits], rftIn, rftOut)
    }

    constructor (bits: nat, truncatedPolynomial: Word, initialRemainder: Word, finalXorValue: Word,
                 reflectInput: bool, reflectRemainder: bool)
      requires 0 < bits <= |truncatedPolynomial| == |initialRemainder| == |finalXorValue|
      ensures Valid() && this.bits == bits && width == |truncatedPolynomial|
      ensures Config() == Parameters(bits, truncatedPolynomial[..bits], initialRemainder[..bits],
                                     finalXorValue[..bits], reflectInput, reflectRemainder)
      ensures Register() == initialRemainder[..bits]
    {
      this.bits := bits;
      width := |truncatedPolynomial|;
      rem := initialRemainder;
      poly := truncatedPolynomial;
      init := initialRemainder;
      final := finalXorValue;
      rftIn := reflectInput;
      rftOut := reflectRemainder;
    }

    method GetInterimRemainder() returns (r: Word)
      requires Valid()
      ensures r == Register() + Zeros(width - bits)
    {
      MaskKeepsLow(rem, bits);
      r := And(rem, SigBits(width, bits));
    }

    method ResetTo(newRem: Word)
      requires Valid() && |newRem| == width
      modifies this`rem
      ensures Valid() && Register() == newRem[..bits]
    {
      rem := newRem;
    }

    method Reset()
      requires Valid()
      modifies this`rem
      ensures Valid() && Register() == Config().init
    {
      ResetTo(init);
    }

    method ProcessBit(bit: bool)
      requires Valid()
      modifies this`rem
      ensures Valid()
      ensures Register() == Step(old(Register()), Config().poly, bit)
    {
      WordStepLow(rem, poly, bits, bit);
      var highBitMask := OneBit(width, bits - 1);
      rem := Xor(rem, if bit then highBitMask else Zeros(width));
      var doPolyDiv := Meets(rem, highBitMask);
      rem := Shl(rem, 1);
      if doPolyDiv {
        rem := Xor(rem, poly);
      }
    }

    /** Divides the low `bitCount` bits of `data`, highest first. */
    method ProcessBits(data: Byte, bitCount: nat)
      requires Valid() && bitCount <= 8
      modifies this`rem
      ensures Valid()
      ensures Register() == Run(old(Register()), Config().poly, Reverse(data[..bitCount]))
    {
      ghost var r, p, m := Register(), Config().poly, Reverse(data[..bitCount]);
      var b: Byte := Shl(data, 8 - bitCount);
      var i := bitCount;
      while i > 0
        invariant Valid() && Config() == old(Config())
        invariant 0 <= i <= bitCount
        invariant b == Shl(data, 8 - i)
        invariant Register() == Run(r, p, m[..bitCount - i])
        decreases i
      {
        NextBit(data, bitCount, i);
        ProcessBit(Meets(b, OneBit(8, 7)));
        RunSnoc(r, p, m[..bitCount - i], m[bitCount - i]);
        i := i - 1;
        b := Shl(b, 1);
      }
      assert m[..bitCount] == m;
    }

    static lemma NextBit(data: Byte, bitCount: nat, i: nat)
      requires 0 < i <= bitCount <= 8
      ensures var m := Reverse(data[..bitCount]);
              && Meets(Shl(data, 8 - i), OneBit(8, 7)) == m[bitCount - i]
              && m[..bitCount - i + 1] == m[..bitCount - i] + [m[bitCount - i]]
      ensures Shl(Shl(data, 8 - i), 1) == Shl(data, 8 - (i - 1))
    {
      MeetsOneBit(Shl(data, 8 - i), 7);
    }

    method ProcessByte(data: Byte)
      requires Valid()
      modifies this`rem
      ensures Valid()
      ensures Register() == Run(old(Register()), Config().poly, ByteBits(data, rftIn))
    {
      var b := ReflectByteIf(rftIn, data);
      ReadOrder(data, rftIn);
      ProcessBits(b, 8);
    }

    method ProcessBlock(data: seq<Byte>)
      requires Valid()
      modifies this`rem
      ensures Valid()
      ensures Register() == Run(old(Register()), Config().poly, MessageBits(data, rftIn))
    {
      ghost var r, p := Register(), Config().poly;
      for k := 0 to |data|
        invariant Valid()
        invariant Register() == Run(r, p, MessageBits(data[..k], rftIn))
      {
        ProcessByte(data[k]);
        RunNextByte(r, p, data, k, rftIn);
      }
      assert data[..|data|] == data;
    }

    method Checksum() returns (c: Word)
      requires Valid()
      ensures c == Finish(Config(), Register()) + Zeros(width - bits)
    {
      var r := ReflectIf(rftOut, rem, bits);
      LowOfXor(r, final, bits);
      MaskKeepsLow(Xor(r, final), bits);
      c := And(Xor(r, final), SigBits(width, bits));
    }
  }
}
