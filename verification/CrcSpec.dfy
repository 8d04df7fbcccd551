/** The checksum that both engines promise, as a function of the parameters and the bytes. */
module CrcSpec {
  import opened Words
  import opened CrcDivision

  /** The order in which a byte's bits are divided: highest first, or lowest first when the
      input is reflected. */
  function ByteBits(x: Byte, reflect: bool): (m: seq<bool>)
    ensures |m| == 8
  {
    if reflect then x else Reverse(x)
  }

  function MessageBits(data: seq<Byte>, reflect: bool): (m: seq<bool>)
    ensures |m| == 8 * |data|
    decreases |data|
  {
    if data == [] then [] else
      var n := |data| - 1;
      MessageBits(data[..n], reflect) + ByteBits(data[n], reflect)
  }

  /** A register as it is stored or shown: mirrored or as it is. */
  function Oriented(r: Word, reflect: bool): (s: Word)
    ensures |s| == |r|
  {
    if reflect then Reverse(r) else r
  }

  lemma OrientedTwice(r: Word, reflect: bool)
    ensures Oriented(Oriented(r, reflect), reflect) == r
  {
    ReverseTwice(r);
  }

  lemma OrientedXor(a: Word, b: Word, reflect: bool)
    requires |a| == |b|
    ensures Oriented(Xor(a, b), reflect) == Xor(Oriented(a, reflect), Oriented(b, reflect))
  {
  }

  lemma MessageBitsSnoc(data: seq<Byte>, x: Byte, reflect: bool)
    ensures MessageBits(data + [x], reflect) == MessageBits(data, reflect) + ByteBits(x, reflect)
  {
    assert (data + [x])[..|data|] == data;
  }

  lemma {:induction false} MessageBitsAppend(a: seq<Byte>, b: seq<Byte>, reflect: bool)
    ensures MessageBits(a + b, reflect) == MessageBits(a, reflect) + MessageBits(b, reflect)
    decreases |b|
  {
    if b == [] {
      assert a + b == a;
    } else {
      var n := |b| - 1;
      var t := ByteBits(b[n], reflect);
      calc {
        MessageBits(a + b, reflect);
        { assert a + b == (a + b[..n]) + [b[n]]; MessageBitsSnoc(a + b[..n], b[n], reflect); }
        MessageBits(a + b[..n], reflect) + t;
        { MessageBitsAppend(a, b[..n], reflect); }
        (MessageBits(a, reflect) + MessageBits(b[..n], reflect)) + t;
        MessageBits(a, reflect) + (MessageBits(b[..n], reflect) + t);
      }
    }
  }

  lemma RunNextByte(r: Word, p: Word, data: seq<Byte>, k: nat, reflect: bool)
    requires |r| == |p| > 0 && k < |data|
    ensures Run(r, p, MessageBits(data[..k + 1], reflect))
         == Run(Run(r, p, MessageBits(data[..k], reflect)), p, ByteBits(data[k], reflect))
  {
    assert data[..k + 1] == data[..k] + [data[k]];
    MessageBitsSnoc(data[..k], data[k], reflect);
    RunAppend(r, p, MessageBits(data[..k], reflect), ByteBits(data[k], reflect));
  }

  lemma AugRunNextByte(r: Word, p: Word, data: seq<Byte>, k: nat)
    requires |r| == |p| > 0 && k < |data|
    ensures AugRun(r, p, MessageBits(data[..k + 1], false))
         == AugRun(AugRun(r, p, MessageBits(data[..k], false)), p, ByteBits(data[k], false))
  {
    assert data[..k + 1] == data[..k] + [data[k]];
    MessageBitsSnoc(data[..k], data[k], false);
    AugRunAppend(r, p, MessageBits(data[..k], false), ByteBits(data[k], false));
  }

  lemma ByteBitsInjective(x: Byte, y: Byte, reflect: bool)
    requires ByteBits(x, reflect) == ByteBits(y, reflect)
    ensures x == y
  {
    ReverseTwice(x);
    ReverseTwice(y);
  }

  lemma AppendInjective<T>(s: seq<T>, t: seq<T>, u: seq<T>, v: seq<T>)
    requires |s| == |u| && s + t == u + v
    ensures s == u && t == v
  {
    assert s == (s + t)[..|s|] && t == (s + t)[|s|..];
    assert u == (u + v)[..|u|] && v == (u + v)[|u|..];
  }

  lemma SplitLast<T>(a: seq<T>)
    requires a != []
    ensures a == a[..|a| - 1] + [a[|a| - 1]]
  {
  }

  lemma {:induction false} MessageBitsInjective(a: seq<Byte>, b: seq<Byte>, reflect: bool)
    requires |a| == |b| && MessageBits(a, reflect) == MessageBits(b, reflect)
    ensures a == b
    decreases |a|
  {
    if a == [] {
    } else {
      var n := |a| - 1;
      var a', x, b', y := a[..n], a[n], b[..n], b[n];
      SplitLast(a);
      SplitLast(b);
      AppendInjective(MessageBits(a', reflect), ByteBits(x, reflect), MessageBits(b', reflect), ByteBits(y, reflect));
      MessageBitsInjective(a', b', reflect);
      ByteBitsInjective(x, y, reflect);
    }
  }

  /** The parameters of a CRC: `bits` is the register width, and the words are that wide. */
  datatype Parameters = Parameters(bits: nat, poly: Word, init: Word, final: Word,
                                   reflectIn: bool, reflectRem: bool)
  {
    predicate Valid() {
      0 < bits == |poly| == |init| == |final|
    }
  }

  /** The unreflected register after `data`. */
  function Remainder(c: Parameters, data: seq<Byte>): (r: Word)
    requires c.Valid()
    ensures |r| == c.bits
  {
    Run(c.init, c.poly, MessageBits(data, c.reflectIn))
  }

  /** How a register becomes a checksum. */
  function Finish(c: Parameters, r: Word): (s: Word)
    requires c.Valid() && |r| == c.bits
    ensures |s| == c.bits
  {
    Xor(Oriented(r, c.reflectRem), c.final)
  }

  function Checksum(c: Parameters, data: seq<Byte>): (s: Word)
    requires c.Valid()
    ensures |s| == c.bits
  {
    Finish(c, Remainder(c, data))
  }

  function XorBytes(a: seq<Byte>, b: seq<Byte>): (d: seq<Byte>)
    requires |a| == |b|
    ensures |d| == |a|
  {
    seq(|a|, k requires 0 <= k < |a| => Xor(a[k], b[k]))
  }

  lemma XorAppend(a: Word, b: Word, d: Word, e: Word)
    requires |a| == |b| && |d| == |e|
    ensures Xor(a + d, b + e) == Xor(a, b) + Xor(d, e)
  {
  }

  lemma {:induction false} MessageBitsXor(a: seq<Byte>, b: seq<Byte>, reflect: bool)
    requires |a| == |b|
    ensures MessageBits(XorBytes(a, b), reflect) == Xor(MessageBits(a, reflect), MessageBits(b, reflect))
    decreases |a|
  {
    if a == [] {
    } else {
      var n := |a| - 1;
      assert XorBytes(a, b)[..n] == XorBytes(a[..n], b[..n]);
      MessageBitsXor(a[..n], b[..n], reflect);
      OrientedXor(a[n], b[n], !reflect);
      XorAppend(MessageBits(a[..n], reflect), MessageBits(b[..n], reflect),
                ByteBits(a[n], reflect), ByteBits(b[n], reflect));
    }
  }

  /** Checksums of equally long messages are affine: three of them add up to the checksum of
      the three messages added up, whatever the parameters. */
  lemma ChecksumAffine(c: Parameters, a: seq<Byte>, b: seq<Byte>, d: seq<Byte>)
    requires c.Valid() && |a| == |b| == |d|
    ensures Xor(Xor(Checksum(c, a), Checksum(c, b)), Checksum(c, d))
         == Checksum(c, XorBytes(XorBytes(a, b), d))
  {
    MessageBitsXor(a, b, c.reflectIn);
    MessageBitsXor(XorBytes(a, b), d, c.reflectIn);
    RunAffine(c.init, c.poly, MessageBits(a, c.reflectIn), MessageBits(b, c.reflectIn), MessageBits(d, c.reflectIn));
    var r, s, t := Remainder(c, a), Remainder(c, b), Remainder(c, d);
    assert Remainder(c, XorBytes(XorBytes(a, b), d)) == Xor(Xor(r, s), t);
    FinishAffine(c, r, s, t);
  }

  lemma FinishAffine(c: Parameters, r: Word, s: Word, t: Word)
    requires c.Valid() && |r| == |s| == |t| == c.bits
    ensures Xor(Xor(Finish(c, r), Finish(c, s)), Finish(c, t)) == Finish(c, Xor(Xor(r, s), t))
  {
  }

  lemma FinishInjective(c: Parameters, r: Word, s: Word)
    requires c.Valid() && |r| == |s| == c.bits && Finish(c, r) == Finish(c, s)
    ensures r == s
  {
    var x, y := Oriented(r, c.reflectRem), Oriented(s, c.reflectRem);
    forall i | 0 <= i < c.bits
      ensures x[i] == y[i]
    {
      assert Finish(c, r)[i] == Finish(c, s)[i];
    }
    assert x == y;
    OrientedTwice(r, c.reflectRem);
    OrientedTwice(s, c.reflectRem);
  }

  /** Corrupting a message only inside `Bits` consecutive bits, counted in processing order,
      always changes the checksum when the truncated polynomial is odd. */
  lemma BurstChangesChecksum(c: Parameters, a: seq<Byte>, b: seq<Byte>, lo: nat)
    requires c.Valid() && c.poly[0]
    requires |a| == |b| && a != b
    requires forall i :: 0 <= i < 8 * |a| && !(lo <= i < lo + c.bits)
               ==> MessageBits(a, c.reflectIn)[i] == MessageBits(b, c.reflectIn)[i]
    ensures Checksum(c, a) != Checksum(c, b)
  {
    var m, n := MessageBits(a, c.reflectIn), MessageBits(b, c.reflectIn);
    if m == n {
      MessageBitsInjective(a, b, c.reflectIn);
    }
    assert |m| == |n| && m != n;
    SplitAtWindow(c.init, c.poly, m, n, lo);
    if Checksum(c, a) == Checksum(c, b) {
      FinishInjective(c, Remainder(c, a), Remainder(c, b));
    }
  }

  lemma CutTwice<T>(m: seq<T>, from: nat, to: nat)
    requires from <= to <= |m|
    ensures m == m[..from] + m[from..to] + m[to..]
  {
  }

  lemma SplitAtWindow(r: Word, p: Word, m: seq<bool>, n: seq<bool>, lo: nat)
    requires |r| == |p| > 0 && p[0] && |m| == |n| && m != n
    requires forall i :: 0 <= i < |m| && !(lo <= i < lo + |r|) ==> m[i] == n[i]
    ensures Run(r, p, m) != Run(r, p, n)
  {
    var from := if lo <= |m| then lo else |m|;
    var to := if lo + |r| <= |m| then lo + |r| else |m|;
    CutTwice(m, from, to);
    CutTwice(n, from, to);
    assert m[..from] == n[..from] && m[to..] == n[to..];
    BurstDetected(r, p, m[..from], m[from..to], n[from..to], m[to..]);
  }

  /** Checksums do not depend on how a message is cut into blocks. */
  lemma RemainderAppend(c: Parameters, a: seq<Byte>, b: seq<Byte>)
    requires c.Valid()
    ensures Remainder(c, a + b) == Run(Remainder(c, a), c.poly, MessageBits(b, c.reflectIn))
  {
    MessageBitsAppend(a, b, c.reflectIn);
    RunAppend(c.init, c.poly, MessageBits(a, c.reflectIn), MessageBits(b, c.reflectIn));
  }

  // ----- The same by positions

  /** Bit `i` of the byte at `k`, in processing order. */
  lemma {:induction false} MessageBitAt(data: seq<Byte>, reflect: bool, k: nat, i: nat)
    requires k < |data| && i < 8
    ensures MessageBits(data, reflect)[8 * k + i] == data[k][if reflect then i else 7 - i]
    decreases |data|
  {
    var n := |data| - 1;
    if k == n {
    } else {
      MessageBitAt(data[..n], reflect, k, i);
    }
  }

  /** The checksum's bit `i` is a bit of the register, from the other end if the output is
      reflected, compared with the final mask. */
  lemma FinishAt(c: Parameters, r: Word, i: nat)
    requires c.Valid() && |r| == c.bits && i < c.bits
    ensures Finish(c, r)[i] == (r[if c.reflectRem then c.bits - 1 - i else i] != c.final[i])
  {
    var x := Oriented(r, c.reflectRem);
    assert x[i] == r[if c.reflectRem then c.bits - 1 - i else i];
  }
}
