/** What holds between the engines: equal observations over every run, and the algebra that
    ties the augmented algorithm to the ordinary one. */
module CrcTheorems {
  import opened Words
  import opened Wrappers
  import opened CrcDivision
  import opened CrcSpec
  import opened CrcBasicEngine
  import opened CrcOptimalEngine
  import opened Gf2Polynomials

  /** What a user may do to an engine between observations. */
  datatype Op = Feed(data: seq<Byte>) | FeedByte(x: Byte) | Restart | RestartFrom(rem: Word)

  /** The template or constructor arguments as an engine stores them, in words of its own
      width and with arbitrary bits above the register. */
  datatype Stored = Stored(poly: Word, init: Word, final: Word)
  {
    predicate Stores(c: Parameters)
      requires c.Valid()
    {
      && c.bits <= |poly| == |init| == |final|
      && poly[..c.bits] == c.poly && init[..c.bits] == c.init && final[..c.bits] == c.final
    }
  }

  function Apply(c: Parameters, r: Word, op: Op): (s: Word)
    requires c.Valid() && |r| == c.bits
    ensures |s| == c.bits
  {
    match op
    case Feed(data) => Run(r, c.poly, MessageBits(data, c.reflectIn))
    case FeedByte(x) => Run(r, c.poly, ByteBits(x, c.reflectIn))
    case Restart => c.init
    case RestartFrom(rem) => Resize(rem, c.bits)
  }

  /** The interim remainder and the checksum, as numbers. */
  function Observe(c: Parameters, r: Word): (o: (nat, nat))
    requires c.Valid() && |r| == c.bits
  {
    (Value(r), Value(Finish(c, r)))
  }

  /** What is to be seen after each operation of a run. */
  function Trace(c: Parameters, r: Word, ops: seq<Op>): (t: seq<(nat, nat)>)
    requires c.Valid() && |r| == c.bits
    ensures |t| == |ops|
    decreases |ops|
  {
    if ops == [] then [] else
      var s := Apply(c, r, ops[0]);
      [Observe(c, s)] + Trace(c, s, ops[1..])
  }

  lemma LowOfResize(w: Word, width: nat, bits: nat)
    requires bits <= width
    ensures Resize(w, width)[..bits] == Resize(w, bits)
  {
  }

  method ObserveBasic(e: CrcBasic, ghost c: Parameters) returns (o: (nat, nat))
    requires e.Valid() && e.Config() == c
    ensures o == Observe(c, e.Register())
  {
    var r := e.GetInterimRemainder();
    var k := e.Checksum();
    ValueZeroExtended(e.Register(), e.width - e.bits);
    ValueZeroExtended(Finish(c, e.Register()), e.width - e.bits);
    o := (Value(r), Value(k));
  }

  method StepBasic(e: CrcBasic, ghost c: Parameters, op: Op) returns (o: (nat, nat))
    requires e.Valid() && e.Config() == c
    modifies e`rem
    ensures e.Valid() && e.Config() == c
    ensures e.Register() == Apply(c, old(e.Register()), op)
    ensures o == Observe(c, e.Register())
  {
    match op {
      case Feed(data) => e.ProcessBlock(data);
      case FeedByte(x) => e.ProcessByte(x);
      case Restart => e.Reset();
      case RestartFrom(rem) =>
        e.ResetTo(Resize(rem, e.width));
        LowOfResize(rem, e.width, e.bits);
    }
    o := ObserveBasic(e, c);
  }

  method ObserveOptimal(e: CrcOptimal, ghost c: Parameters) returns (o: (nat, nat))
    requires e.Valid() && e.Config() == c
    ensures o == Observe(c, e.Register())
  {
    var r := e.GetInterimRemainder();
    var k := e.Checksum();
    ValueZeroExtended(e.Register(), e.width - e.bits);
    ValueZeroExtended(Finish(c, e.Register()), e.width - e.bits);
    o := (Value(r), Value(k));
  }

  method StepOptimal(e: CrcOptimal, ghost c: Parameters, op: Op) returns (o: (nat, nat))
    requires e.Valid() && e.Config() == c
    modifies e`rem
    ensures e.Valid()
    ensures e.Register() == Apply(c, old(e.Register()), op)
    ensures o == Observe(c, e.Register())
  {
    match op {
      case Feed(data) => e.ProcessBlock(data);
      case FeedByte(x) => e.ProcessByte(x);
      case Restart => e.Reset();
      case RestartFrom(rem) =>
        e.ResetTo(Resize(rem, e.width));
        LowOfResize(rem, e.width, e.bits);
    }
    o := ObserveOptimal(e, c);
  }

  lemma TraceNext(c: Parameters, r: Word, ops: seq<Op>, k: nat, done: seq<(nat, nat)>, all: seq<(nat, nat)>)
    requires c.Valid() && |r| == c.bits && k < |ops|
    requires done + Trace(c, r, ops[k..]) == all
    ensures var s := Apply(c, r, ops[k]);
            done + [Observe(c, s)] + Trace(c, s, ops[k + 1..]) == all
  {
    assert ops[k..][1..] == ops[k + 1..];
  }

  /** Drives two engines with equal registers through the same operations. */
  method DriveBoth(x: CrcBasic, y: CrcOptimal, c: Parameters, ops: seq<Op>)
    returns (basic: seq<(nat, nat)>, optimal: seq<(nat, nat)>)
    requires x.Valid() && x.Config() == c && y.Valid() && y.Config() == c
    requires x.Register() == y.Register()
    modifies x`rem, y`rem
    ensures x.Valid() && y.Valid() && x.Register() == y.Register()
    ensures basic == optimal == Trace(c, old(x.Register()), ops)
  {
    ghost var r := x.Register();
    ghost var all := Trace(c, r, ops);
    basic, optimal := [], [];
    assert ops[0..] == ops;
    for k := 0 to |ops|
      invariant x.Valid() && x.Config() == c && x.Register() == r
      invariant y.Valid() && y.Register() == r
      invariant basic == optimal && basic + Trace(c, r, ops[k..]) == all
    {
      TraceNext(c, r, ops, k, basic, all);
      r := Apply(c, r, ops[k]);
      var u := StepBasic(x, c, ops[k]);
      var v := StepOptimal(y, c, ops[k]);
      basic, optimal := basic + [u], optimal + [v];
    }
  }

  /** A fresh engine of either kind never differs from the other in anything that can be
      observed, whatever the width, polynomial, initial remainder, final mask, reflection
      settings, storage widths and junk above the register. */
  method Lockstep(c: Parameters, b: Stored, o: Stored, ops: seq<Op>)
    returns (basic: seq<(nat, nat)>, optimal: seq<(nat, nat)>)
    requires c.Valid() && b.Stores(c) && o.Stores(c)
    ensures basic == optimal == Trace(c, c.init, ops)
  {
    var x := new CrcBasic(c.bits, b.poly, b.init, b.final, c.reflectIn, c.reflectRem);
    var y := new CrcOptimal(c.bits, o.poly, o.init, o.final, c.reflectIn, c.reflectRem, o.init);
    basic, optimal := DriveBoth(x, y, c, ops);
  }

  // ----- What the traces show

  function Concat(chunks: seq<seq<Byte>>): (data: seq<Byte>)
    decreases |chunks|
  {
    if chunks == [] then [] else chunks[0] + Concat(chunks[1..])
  }

  /** Operations that feed these blocks, single bytes among them, and do nothing else. */
  predicate Feeds(ops: seq<Op>, chunks: seq<seq<Byte>>) {
    && |ops| == |chunks|
    && forall i :: 0 <= i < |ops|
         ==> ops[i] == Feed(chunks[i]) || (|chunks[i]| == 1 && ops[i] == FeedByte(chunks[i][0]))
  }

  /** A restart, at the initial remainder or at a given one. */
  function RestartAt(rem: Option<Word>): (op: Op) {
    match rem
    case None => Restart
    case Some(w) => RestartFrom(w)
  }

  function RemainderAt(c: Parameters, rem: Option<Word>): (r: Word)
    requires c.Valid()
    ensures |r| == c.bits
  {
    match rem
    case None => c.init
    case Some(w) => Resize(w, c.bits)
  }

  lemma {:induction false} OneByteBits(x: Byte, reflect: bool)
    ensures MessageBits([x], reflect) == ByteBits(x, reflect)
  {
    MessageBitsSnoc([], x, reflect);
    assert [] + [x] == [x];
    assert MessageBits([], reflect) + ByteBits(x, reflect) == ByteBits(x, reflect);
  }

  /** The register after operations that only feed. */
  lemma {:induction false} RegisterAfter(c: Parameters, r: Word, ops: seq<Op>, chunks: seq<seq<Byte>>)
    requires c.Valid() && |r| == c.bits && Feeds(ops, chunks)
    ensures ApplyAll(c, r, ops) == Run(r, c.poly, MessageBits(Concat(chunks), c.reflectIn))
    decreases |ops|
  {
    if ops == [] {
      assert Concat(chunks) == [];
    } else {
      FirstFeed(c, r, ops[0], chunks[0]);
      RegisterAfter(c, Apply(c, r, ops[0]), ops[1..], chunks[1..]);
      FeedTwice(c, r, chunks[0], Concat(chunks[1..]));
    }
  }

  function ApplyAll(c: Parameters, r: Word, ops: seq<Op>): (s: Word)
    requires c.Valid() && |r| == c.bits
    ensures |s| == c.bits
    decreases |ops|
  {
    if ops == [] then r else ApplyAll(c, Apply(c, r, ops[0]), ops[1..])
  }

  lemma {:induction false} LastShown(c: Parameters, r: Word, ops: seq<Op>)
    requires c.Valid() && |r| == c.bits && ops != []
    ensures Trace(c, r, ops)[|ops| - 1] == Observe(c, ApplyAll(c, r, ops))
    decreases |ops|
  {
    var s, t := Apply(c, r, ops[0]), Trace(c, r, ops);
    if |ops| == 1 {
      assert ops[1..] == [];
    } else {
      LastShown(c, s, ops[1..]);
      assert t == [Observe(c, s)] + Trace(c, s, ops[1..]);
    }
  }

  lemma {:induction false} FirstFeed(c: Parameters, r: Word, op: Op, chunk: seq<Byte>)
    requires c.Valid() && |r| == c.bits
    requires op == Feed(chunk) || (|chunk| == 1 && op == FeedByte(chunk[0]))
    ensures Apply(c, r, op) == Run(r, c.poly, MessageBits(chunk, c.reflectIn))
  {
    if op != Feed(chunk) {
      OneByteBits(chunk[0], c.reflectIn);
      assert chunk == [chunk[0]];
    }
  }

  lemma {:induction false} FeedTwice(c: Parameters, r: Word, a: seq<Byte>, b: seq<Byte>)
    requires c.Valid() && |r| == c.bits
    ensures Run(Run(r, c.poly, MessageBits(a, c.reflectIn)), c.poly, MessageBits(b, c.reflectIn))
         == Run(r, c.poly, MessageBits(a + b, c.reflectIn))
  {
    MessageBitsAppend(a, b, c.reflectIn);
    RunAppend(r, c.poly, MessageBits(a, c.reflectIn), MessageBits(b, c.reflectIn));
  }

  lemma {:induction false} ApplyAppend(c: Parameters, r: Word, before: seq<Op>, after: seq<Op>)
    requires c.Valid() && |r| == c.bits
    ensures ApplyAll(c, r, before + after) == ApplyAll(c, ApplyAll(c, r, before), after)
    decreases |before|
  {
    if before == [] {
      assert before + after == after;
    } else {
      assert (before + after)[1..] == before[1..] + after;
      ApplyAppend(c, Apply(c, r, before[0]), before[1..], after);
    }
  }

  /** While a run only feeds bytes, it shows the remainder and the checksum of all of them. */
  lemma {:induction false} TraceShowsChecksum(c: Parameters, ops: seq<Op>, chunks: seq<seq<Byte>>)
    requires c.Valid() && ops != [] && Feeds(ops, chunks)
    ensures Trace(c, c.init, ops)[|ops| - 1]
         == (Value(Remainder(c, Concat(chunks))), Value(CrcSpec.Checksum(c, Concat(chunks))))
  {
    RegisterAfter(c, c.init, ops, chunks);
    LastShown(c, c.init, ops);
  }

  /** After a restart a run shows what has been fed since then, whatever came before. */
  lemma {:induction false} TraceSinceRestart(c: Parameters, r: Word, before: seq<Op>, rem: Option<Word>,
                          ops: seq<Op>, chunks: seq<seq<Byte>>, all: seq<Op>)
    requires c.Valid() && |r| == c.bits && Feeds(ops, chunks)
    requires all == before + [RestartAt(rem)] + ops
    ensures var s := Run(RemainderAt(c, rem), c.poly, MessageBits(Concat(chunks), c.reflectIn));
            Trace(c, r, all)[|all| - 1] == (Value(s), Value(Finish(c, s)))
  {
    RestartForgets(c, r, before, rem, ops);
    RegisterAfter(c, RemainderAt(c, rem), ops, chunks);
    LastShown(c, r, all);
  }

  lemma {:induction false} RestartForgets(c: Parameters, r: Word, before: seq<Op>, rem: Option<Word>, ops: seq<Op>)
    requires c.Valid() && |r| == c.bits
    ensures ApplyAll(c, r, before + [RestartAt(rem)] + ops) == ApplyAll(c, RemainderAt(c, rem), ops)
  {
    var tail := [RestartAt(rem)] + ops;
    assert before + [RestartAt(rem)] + ops == before + tail;
    assert tail[1..] == ops;
    ApplyAppend(c, r, before, tail);
  }

  /** A block and a byte after it are seen as one message. */
  lemma {:induction false} BlockThenByte(c: Parameters, data: seq<Byte>, x: Byte, ops: seq<Op>)
    requires c.Valid() && ops == [Feed(data), FeedByte(x)]
    ensures Trace(c, c.init, ops)[1]
         == (Value(Remainder(c, data + [x])), Value(CrcSpec.Checksum(c, data + [x])))
  {
    ConcatShort(data, [x]);
    TraceShowsChecksum(c, ops, [data, [x]]);
  }

  /** A byte after a restart is seen as a message of its own. */
  lemma {:induction false} ByteAfterRestart(c: Parameters, data: seq<Byte>, x: Byte, ops: seq<Op>)
    requires c.Valid() && ops == [Feed(data), Restart, FeedByte(x)]
    ensures Trace(c, c.init, ops)[2] == (Value(Remainder(c, [x])), Value(CrcSpec.Checksum(c, [x])))
  {
    ConcatShort(data, [x]);
    TraceSinceRestart(c, c.init, [Feed(data)], None, [FeedByte(x)], [[x]], ops);
  }

  /** A byte after a restart at a given remainder continues from its low bits. */
  lemma {:induction false} ByteAfterRestartFrom(c: Parameters, rem: Word, x: Byte, ops: seq<Op>)
    requires c.Valid() && ops == [RestartFrom(rem), FeedByte(x)]
    ensures var s := Run(Resize(rem, c.bits), c.poly, MessageBits([x], c.reflectIn));
            Trace(c, c.init, ops)[1] == (Value(s), Value(Finish(c, s)))
  {
    ConcatShort([x], [x]);
    TraceSinceRestart(c, c.init, [], Some(rem), [FeedByte(x)], [[x]], ops);
  }

  lemma {:induction false} ConcatShort(a: seq<Byte>, b: seq<Byte>)
    ensures Concat([a]) == a && Concat([b]) == b && Concat([a, b]) == a + b
  {
    assert [a][1..] == [] && [b][1..] == [] && [a, b][1..] == [b];
  }

  // ----- Augmented messages, in bytes

  function ZeroBytes(n: nat): (d: seq<Byte>)
    ensures |d| == n
  {
    seq(n, _ => Zeros(8))
  }

  lemma {:induction false} ZeroBytesBits(n: nat)
    ensures MessageBits(ZeroBytes(n), false) == Zeros(8 * n)
  {
    if n == 0 {
    } else {
      ZeroBytesBits(n - 1);
      assert ZeroBytes(n)[..n - 1] == ZeroBytes(n - 1);
      assert Reverse(Zeros(8)) == Zeros(8);
    }
  }

  /** The bytes of a register whose width is a multiple of eight, highest byte first. */
  function BigEndian(c: Word): (d: seq<Byte>)
    requires |c| % 8 == 0
    ensures |d| == |c| / 8
    decreases |c|
  {
    if |c| == 0 then [] else [c[|c| - 8..]] + BigEndian(c[..|c| - 8])
  }

  lemma {:induction false} BigEndianBits(c: Word)
    requires |c| % 8 == 0
    ensures MessageBits(BigEndian(c), false) == Reverse(c)
    decreases |c|
  {
    if |c| == 0 {
    } else {
      var top, rest := c[|c| - 8..], c[..|c| - 8];
      BigEndianBits(rest);
      MessageBitsAppend([top], BigEndian(rest), false);
      OneByteBits(top, false);
      ReverseAppend(rest, top);
      assert c == rest + top;
    }
  }

  lemma ReverseAppend(a: Word, b: Word)
    ensures Reverse(a + b) == Reverse(b) + Reverse(a)
  {
  }

  /** Appending Bits / 8 zero bytes makes the augmented algorithm compute the ordinary
      remainder, both from zero and unreflected. */
  lemma AugmentedPaddingBytes(p: Word, data: seq<Byte>)
    requires |p| > 0 && |p| % 8 == 0
    ensures AugRun(Zeros(|p|), p, MessageBits(data + ZeroBytes(|p| / 8), false))
         == Run(Zeros(|p|), p, MessageBits(data, false))
  {
    var n := |p| / 8;
    assert 8 * n == |p|;
    MessageBitsAppend(data, ZeroBytes(n), false);
    ZeroBytesBits(n);
    assert MessageBits(data + ZeroBytes(n), false) == MessageBits(data, false) + Zeros(|p|);
    AugmentedPadding(p, MessageBits(data, false));
  }

  /** A message followed by its own remainder, highest byte first, divides evenly. */
  lemma AugmentedCheckBytes(p: Word, data: seq<Byte>)
    requires |p| > 0 && |p| % 8 == 0
    ensures AugRun(Zeros(|p|), p, MessageBits(data + BigEndian(Run(Zeros(|p|), p, MessageBits(data, false))), false))
         == Zeros(|p|)
  {
    var m := MessageBits(data, false);
    var c := Run(Zeros(|p|), p, m);
    MessageBitsAppend(data, BigEndian(c), false);
    BigEndianBits(c);
    AugmentedPadding(p, m);
    AugmentedCheck(Zeros(|p|), p, m);
  }

  /** The remainder behind every checksum is the polynomial remainder of the message, after
      the initial remainder has been put in front of it. */
  lemma ChecksumIsRemainder(c: Parameters, data: seq<Byte>)
    requires c.Valid()
    ensures IsRemainder(Dividend(c.init, c.poly, MessageBits(data, c.reflectIn)), c.poly,
                        Oriented(Xor(Checksum(c, data), c.final), c.reflectRem))
  {
    var r := Remainder(c, data);
    RunIsRemainder(c.init, c.poly, MessageBits(data, c.reflectIn));
    XorCancels(c.final, Oriented(r, c.reflectRem));
    assert Xor(Checksum(c, data), c.final) == Oriented(r, c.reflectRem);
    OrientedTwice(r, c.reflectRem);
  }
}
