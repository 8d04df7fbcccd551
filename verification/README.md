# Verified models of three Boost algorithms

The repository bundles the Boost 1.65.1 headers with its native library.  This project models
three of them in Dafny and proves what they are for.

* **Cyclic redundancy codes** (`crc.hpp`): a bit-at-a-time engine, a table-driven engine with
  four reflection modes, the table generator, and the algorithm for augmented messages.
* **Rational numbers** (`rational.hpp`, with the greatest common divisor of
  `integer/common_factor_rt.hpp`): arithmetic by cross-cancelling, kept in normal form in
  place, and comparison by continued fractions.
* **Tokenizers** (`token_functions.hpp`, driven as `token_iterator.hpp` drives them): escaped
  lists, character delimiters with two policies for empty tokens, and fixed offsets.

## How the models are built

Unsigned integers are bit sequences of any width, least significant bit first (`Words.dfy`).
A CRC engine stores its remainder in a word at least as wide as the register, as the library's
type selection does; what lies above the register is arbitrary.  `CrcDivision.dfy` has the
register itself, one step per message bit; `Gf2Polynomials.dfy` is an independent reference,
polynomial division with sets of exponents; `CrcSpec.dfy` defines the checksum of a byte string.
The engines are classes (`CrcBasic.dfy`, `CrcOptimal.dfy`) whose methods are proved against these
functions, and `CrcTheorems.dfy` runs both engines side by side.  Where the library uses a mask
to look at one bit, the model does the same.

Integers of the rational class are unbounded, except in `NormalizeTyped`.  Division and
remainder truncate toward zero and are written out.  Numbers are compared with the exact real
number they stand for.  A thrown `bad_rational` is an outcome of the method, and the contract says
that the object is unchanged then.  Claims about fixed-width types (`FixedWidth.dfy`) are made over
the list of all values an operation computes; the operations send their arithmetic through methods
that append each result to that list.  `InType(x, min)` holds for the values of a signed type whose
smallest value is `min`, and `promoted` says that the type is narrower than `int`.

A separator's call takes the input and a position in place of two iterators and returns the new
position.  Exceptions are results.  A run asks for tokens as the token iterator does: never for an
empty input, otherwise until a call returns false.  `CharSeparatorLaws.dfy` and
`OffsetSeparatorLaws.dfy` say what the tokens are in terms of a separator's constructor arguments
alone, and the last part of `EscapedList.dfy` does so for the three strings of roles.

## What was found

* `integer::gcd` guards against the smallest value of a type by taking one remainder first.  The
  model shows where this is not enough.  For the smallest value with itself or with zero the
  answer is 2^(w-1), which no value can represent, and the remainder divides by zero.  For the
  smallest value with -1 the answer, 1, is representable, but the remainder is undefined in C++,
  unless the type is narrower than `int` and promoted first.  In all other cases the answer is right.
* `operator/=` is not safe whenever its quotient fits: the smallest value divided by itself runs
  into that gcd, and with q = 2^(w-2), q divided by -1/2 forms 2^(w-1) before the sign is moved.
* `rational::normalize` throws when a negation leaves the denominator negative, but it does not
  look at the numerator: if the smallest value stands over a negative odd denominator (-1 only if
  the type is promoted), and the negation wraps, the number comes out with the wrong sign.
* The comments of `operator+=` and `operator-=` say that the calculation avoids overflow.  It does
  not always: the numerator can overflow before it is reduced, and one of the two products can
  overflow although the other one would compensate it.
* An escaped `n` always means a newline for `escaped_list_separator`, even if `n` is itself a
  quote, separator or escape, so such fields do not survive a round trip.  The comment above the
  class promises the C-like escape but not this exception.
* `char_separator::reset` does nothing, so a function object that has finished a run with
  `keep_empty_tokens` starts its next run in a different state.  The tokenizer copies its function
  object and is not affected.
* With `return_partial_last` false, `offset_separator` still returns a last token that is one
  character short, because the loop counter is compared with the offset minus one.
* Offsets that are zero or negative deliver empty tokens; the run on a text still ends unless the
  offsets wrap and none of them is positive.

## Model

| member | source | states |
|---|---|---|
| `CrcHelpers.Reflect` | app/src/main/cpp/thirdparty/include/boost/crc.hpp:306-326 | the loop mirrors the low `Bits` bits of any storage word and clears everything above them |
| `CrcHelpers.InitTable` | app/src/main/cpp/thirdparty/include/boost/crc.hpp:488-536 | terminates although its only counter is a byte that wraps; the log of all writes grows by a list that has every one of the 256 slots once; every slot then holds the stored form of the register that divides its byte from zero |
| `CrcHelpers.SlotDigits` | app/src/main/cpp/thirdparty/include/boost/crc.hpp:530-531 | a dividend's entry goes to the slot of its own number, or of its eight binary digits reversed |
| `CrcHelpers.SlotHolds` | app/src/main/cpp/thirdparty/include/boost/crc.hpp:488-536 | in a filled table, slot n holds the entry of the byte whose bits are the binary digits of n |
| `Words.ValueOneBit` | app/src/main/cpp/thirdparty/include/boost/crc.hpp:286-289 | bit k of a word is worth 2^k |
| `Words.ValueAppend` | app/src/main/cpp/thirdparty/include/boost/crc.hpp:546-547 | what stands above n bits is worth 2^n times as much |
| `CrcHelpers.DivideByte` | app/src/main/cpp/thirdparty/include/boost/crc.hpp:507-528 | the inner loop over a byte's bits leaves, below bit `Bits`, the register of eight bit-at-a-time steps from zero, whatever is shifted above |
| `CrcHelpers.SlotsDistinct` | app/src/main/cpp/thirdparty/include/boost/crc.hpp:530-531 | byte reflection is a bijection: different dividends never share a slot |
| `CrcHelpers.IncrementCounts` | app/src/main/cpp/thirdparty/include/boost/crc.hpp:504-533 | the byte counter passes through every value once before it reaches zero again |
| `CrcHelpers.WordStepLow` | app/src/main/cpp/thirdparty/include/boost/crc.hpp:734-751 | a step on the storage word acts on its low `Bits` bits as the register step does, for arbitrary junk above them in the word and in the polynomial |
| `CrcBasicEngine.CrcBasic.constructor` | app/src/main/cpp/thirdparty/include/boost/crc.hpp:630-644 | the register is the initial remainder and the parameters are kept |
| `CrcBasicEngine.CrcBasic.ResetTo` | app/src/main/cpp/thirdparty/include/boost/crc.hpp:706-715 | the register becomes the given remainder |
| `CrcBasicEngine.CrcBasic.Reset` | app/src/main/cpp/thirdparty/include/boost/crc.hpp:717-725 | the register becomes the initial remainder |
| `CrcBasicEngine.CrcBasic.ProcessBit` | app/src/main/cpp/thirdparty/include/boost/crc.hpp:727-751 | one step of the register, other fields unchanged |
| `CrcBasicEngine.CrcBasic.ProcessBits` | app/src/main/cpp/thirdparty/include/boost/crc.hpp:753-770 | divides exactly the low `bit_count` bits of the byte, highest first |
| `CrcBasicEngine.CrcBasic.ProcessByte` | app/src/main/cpp/thirdparty/include/boost/crc.hpp:772-782 | divides the byte's bits, lowest first if the input is reflected |
| `CrcBasicEngine.CrcBasic.ProcessBlock` | app/src/main/cpp/thirdparty/include/boost/crc.hpp:784-797 | divides all bytes of the block in order |
| `CrcBasicEngine.CrcBasic.GetInterimRemainder` | app/src/main/cpp/thirdparty/include/boost/crc.hpp:696-704 | the register, zero-extended |
| `CrcBasicEngine.CrcBasic.Checksum` | app/src/main/cpp/thirdparty/include/boost/crc.hpp:814-823 | the finished register, zero-extended: reflected if asked for, then masked with the final value |
| `CrcOptimalEngine.IndexCompares` | app/src/main/cpp/thirdparty/include/boost/crc.hpp:546-560 | the table index is the message byte compared with exactly the bits that the shift drops, for all widths below, at and above eight and both directions |
| `CrcOptimalEngine.TableStep` | app/src/main/cpp/thirdparty/include/boost/crc.hpp:962-964 | one index, shift and table look-up equals eight bit steps |
| `CrcOptimalEngine.CrcOptimal.constructor` | app/src/main/cpp/thirdparty/include/boost/crc.hpp:832-843 | the register is the unreflected argument and the table is filled |
| `CrcOptimalEngine.CrcOptimal.ResetTo` | app/src/main/cpp/thirdparty/include/boost/crc.hpp:918-929 | the register becomes the unreflected argument, however it is stored |
| `CrcOptimalEngine.CrcOptimal.Reset` | app/src/main/cpp/thirdparty/include/boost/crc.hpp:918-929 | the register becomes the default remainder |
| `CrcOptimalEngine.CrcOptimal.ProcessByte` | app/src/main/cpp/thirdparty/include/boost/crc.hpp:931-942 | one byte processed as a block is eight bit steps |
| `CrcOptimalEngine.CrcOptimal.ProcessBlock` | app/src/main/cpp/thirdparty/include/boost/crc.hpp:944-966 | the stored remainder keeps representing the register that bitwise division of the same bytes gives |
| `CrcOptimalEngine.CrcOptimal.GetInterimRemainder` | app/src/main/cpp/thirdparty/include/boost/crc.hpp:905-916 | the unreflected register, zero-extended |
| `CrcOptimalEngine.CrcOptimal.Checksum` | app/src/main/cpp/thirdparty/include/boost/crc.hpp:984-995 | the same finished register as the bitwise engine's, although output reflection depends on both reflection settings |
| `CrcOptimalEngine.Crc` | app/src/main/cpp/thirdparty/include/boost/crc.hpp:1025-1040 | the one-call computation returns the specified checksum |
| `CrcOptimalEngine.AugmentedCrc` | app/src/main/cpp/thirdparty/include/boost/crc.hpp:1045-1076 | the table loop equals bitwise division with the message entering at the low end |
| `CrcTheorems.DriveBoth` | app/src/main/cpp/thirdparty/include/boost/crc.hpp:784-995 | two engines with equal registers, driven by any sequence of blocks, single bytes and restarts, show the same interim remainder and checksum after every operation; what these are, the three rows below say |
| `CrcTheorems.Lockstep` | app/src/main/cpp/thirdparty/include/boost/crc.hpp:832-995 | the same for freshly built engines of any widths, parameters and junk above the register |
| `CrcTheorems.TraceShowsChecksum` | app/src/main/cpp/thirdparty/include/boost/crc.hpp:772-823 | as long as a run only feeds blocks and bytes, what it shows is the remainder and the checksum of all bytes fed, as numbers |
| `CrcTheorems.TraceSinceRestart` | app/src/main/cpp/thirdparty/include/boost/crc.hpp:706-725 | after a restart, at the initial or a given remainder, it shows what has been fed since then, whatever came before |
| `CrcTheorems.BlockThenByte` | app/src/main/cpp/thirdparty/include/boost/crc.hpp:772-797 | a block and then a byte are seen as one message |
| `CrcTheorems.ByteAfterRestart` | app/src/main/cpp/thirdparty/include/boost/crc.hpp:717-725 | a byte after a restart is seen as a message of its own |
| `CrcTheorems.ByteAfterRestartFrom` | app/src/main/cpp/thirdparty/include/boost/crc.hpp:706-715 | a byte after a restart at a given remainder continues from its low bits |
| `CrcDivision.RunLinear` | app/src/main/cpp/thirdparty/include/boost/crc.hpp:727-751 | division of a sum is the sum of the divisions |
| `CrcDivision.RunByTable` | app/src/main/cpp/thirdparty/include/boost/crc.hpp:958-964 | the identity that justifies a table: shifting at once plus dividing only the compared bits from zero is dividing bit by bit, for any number of bits and any width |
| `CrcDivision.AugRunByTable` | app/src/main/cpp/thirdparty/include/boost/crc.hpp:1066-1072 | the corresponding identity for augmented messages |
| `Gf2Polynomials.RunIsRemainder` | app/src/main/cpp/thirdparty/include/boost/crc.hpp:727-770 | after k message bits M from remainder r the register is (r x^k + M x^Bits) mod (x^Bits + poly) over GF(2) |
| `Gf2Polynomials.CoefficientsAt` | app/src/main/cpp/thirdparty/include/boost/crc.hpp:727-751 | the divisor has x^Bits and the bits of the truncated polynomial; the dividends have the register above the message, whose first bit is highest |
| `Gf2Polynomials.StepDivides` | app/src/main/cpp/thirdparty/include/boost/crc.hpp:734-751 | one step multiplies by x, adds the message bit at x^Bits and subtracts the divisor at most once |
| `Gf2Polynomials.RemainderUnique` | app/src/main/cpp/thirdparty/include/boost/crc.hpp:518-527 | a polynomial has only one remainder below the divisor's degree, so that statement determines the register |
| `Gf2Polynomials.AugRunIsRemainder` | app/src/main/cpp/thirdparty/include/boost/crc.hpp:1064-1073 | the augmented algorithm computes (r x^k + M) mod (x^Bits + poly) |
| `Gf2Polynomials.AugmentedPadding` | app/src/main/cpp/thirdparty/include/boost/crc.hpp:1064-1073 | from zero, a message followed by `Bits` zero bits has the ordinary remainder of the message |
| `CrcDivision.AugmentedCheck` | app/src/main/cpp/thirdparty/include/boost/crc.hpp:1064-1073 | from any remainder, a message followed by the remainder of its padded form divides evenly |
| `CrcTheorems.AugmentedPaddingBytes` | app/src/main/cpp/thirdparty/include/boost/crc.hpp:1045-1076 | the padding theorem for whole bytes when `Bits` is a multiple of eight |
| `CrcTheorems.AugmentedCheckBytes` | app/src/main/cpp/thirdparty/include/boost/crc.hpp:1045-1076 | a message followed by its CRC in big-endian bytes leaves zero |
| `CrcTheorems.ChecksumIsRemainder` | app/src/main/cpp/thirdparty/include/boost/crc.hpp:1025-1040 | undoing the final mask and reflection of any checksum gives the polynomial remainder of the message |
| `CrcDivision.BurstDetected` | app/src/main/cpp/thirdparty/include/boost/crc.hpp:727-751 | with an odd polynomial, messages that differ only inside one window of at most `Bits` bits leave different registers |
| `CrcDivision.BurstsDetectedIffOdd` | app/src/main/cpp/thirdparty/include/boost/crc.hpp:727-751 | all such bursts are detected exactly when the polynomial is odd |
| `CrcDivision.EvenPolynomialCollides` | app/src/main/cpp/thirdparty/include/boost/crc.hpp:727-751 | for every even polynomial, a burst that goes undetected |
| `CrcSpec.BurstChangesChecksum` | app/src/main/cpp/thirdparty/include/boost/crc.hpp:1025-1040 | with an odd polynomial, corrupting bytes only inside `Bits` consecutive message bits changes the checksum, for every setting |
| `CrcSpec.ChecksumAffine` | app/src/main/cpp/thirdparty/include/boost/crc.hpp:1025-1040 | crc(a) xor crc(b) xor crc(c) is crc(a xor b xor c) for equally long messages and every setting |
| `CrcSpec.RemainderAppend` | app/src/main/cpp/thirdparty/include/boost/crc.hpp:968-982 | cutting a message into blocks does not matter |
| `CrcSpec.MessageBitAt` | app/src/main/cpp/thirdparty/include/boost/crc.hpp:765-782 | bit i of byte k is divided as number 8k + i, counted in the byte from the top, or from the bottom if the input is reflected |
| `CrcSpec.FinishAt` | app/src/main/cpp/thirdparty/include/boost/crc.hpp:814-823 | bit i of a checksum is bit i of the register, from the other end if the output is reflected, compared with the final mask |
| `CommonFactor.MakeOdd` | app/src/main/cpp/thirdparty/include/boost/integer/common_factor_rt.hpp:129-142 | strips exactly the factors of two and counts them |
| `CommonFactor.MixedBinaryGcd` | app/src/main/cpp/thirdparty/include/boost/integer/common_factor_rt.hpp:331-360 | the mixed binary Euclid loop returns the greatest common divisor and terminates, with the list of the values of all rounds |
| `CommonFactor.MixedBinaryLcm` | app/src/main/cpp/thirdparty/include/boost/integer/common_factor_rt.hpp:430-439 | the result is a common multiple that divides every common multiple, zero if an operand is zero |
| `CommonFactor.LcmIsLcm` | app/src/main/cpp/thirdparty/include/boost/integer/common_factor_rt.hpp:430-439 | dividing by the gcd before multiplying gives the least common multiple, for all signs and for zeros |
| `CommonFactor.IntegerGcd` | app/src/main/cpp/thirdparty/include/boost/integer/common_factor_rt.hpp:444-452 | the front end returns the greatest common divisor of any two values of a type, except exactly for the smallest value with itself or zero, where that is 2^(w-1), and, if the type is not promoted, for the smallest value with -1; in these cases the evaluation is undefined |
| `CommonFactor.GcdIsSmallest` | app/src/main/cpp/thirdparty/include/boost/integer/common_factor_rt.hpp:444-452 | the pairs of values whose greatest common divisor does not fit the type are exactly the smallest with itself or zero |
| `CommonFactor.FailingInputs` | app/src/main/cpp/thirdparty/include/boost/integer/common_factor_rt.hpp:444-452 | the failing pairs for every type, with their greatest common divisors, and that promotion repairs the one with -1 |
| `CommonFactor.FrontEndFits` | app/src/main/cpp/thirdparty/include/boost/integer/common_factor_rt.hpp:331-360 | every value formed on the way, in the front end and in all rounds, fits the type |
| `CommonFactor.GcdTraceChains` | app/src/main/cpp/thirdparty/include/boost/integer/common_factor_rt.hpp:336-358 | the list of rounds starts with the odd parts, and each round holds the remainder and the difference of the two numbers before |
| `NumberTheory.GcdCombines` | app/src/main/cpp/thirdparty/include/boost/integer/common_factor_rt.hpp:444-452 | the divisor meant exists: a nonnegative common divisor, combined from both numbers, that every common divisor divides |
| `CommonFactor.OddPairKeepsGcd` | app/src/main/cpp/thirdparty/include/boost/integer/common_factor_rt.hpp:354-357 | making both numbers odd again in a round keeps the greatest common divisor |
| `RationalNumbers.Rational.Normalize` | app/src/main/cpp/thirdparty/include/boost/rational.hpp:838-873 | throws exactly for a zero denominator and then changes nothing; otherwise reaches the normal form of the same number |
| `RationalNumbers.Rational.NormalizeTyped` | app/src/main/cpp/thirdparty/include/boost/rational.hpp:838-873 | on a type of any width, with wrapping negation: which of the two exceptions, the undefined gcd or a normal form comes out, each exactly when; the value is right except exactly for the smallest numerator over a coprime negative denominator, where the sign is lost |
| `FixedWidth.UnsafeFractions` | app/src/main/cpp/thirdparty/include/boost/rational.hpp:859-870 | for every smallest value below -2, a numerator that loses its sign and a denominator that stays negative, and what promotion changes for -1 |
| `FixedWidth.NormalizeLosesSign` | app/src/main/cpp/thirdparty/include/boost/rational.hpp:859-862 | on every such type, a normalization that ends with the negated value |
| `FixedWidth.NormalizeRefuses` | app/src/main/cpp/thirdparty/include/boost/rational.hpp:864-870 | on every such type, one over the smallest value ends in the second exception |
| `RationalNumbers.Rational.Zero` | app/src/main/cpp/thirdparty/include/boost/rational.hpp:153-154 | the default number is zero in normal form |
| `RationalNumbers.Rational.OfInteger` | app/src/main/cpp/thirdparty/include/boost/rational.hpp:155-158 | an integer is in normal form with denominator one |
| `RationalNumbers.Rational.Assign` | app/src/main/cpp/thirdparty/include/boost/rational.hpp:187-194 | assigns the fraction in normal form, or throws and leaves the old value |
| `RationalNumbers.Rational.AddAssign` | app/src/main/cpp/thirdparty/include/boost/rational.hpp:489-522 | the exact sum in normal form, also when a number is added to itself, with the list of values computed on the way |
| `RationalNumbers.Rational.SubAssign` | app/src/main/cpp/thirdparty/include/boost/rational.hpp:524-541 | the exact difference in normal form, also for self-subtraction, with the list of values computed on the way |
| `RationalNumbers.Rational.MulAssign` | app/src/main/cpp/thirdparty/include/boost/rational.hpp:543-556 | the exact product in normal form by cross-cancelling alone, with the list of values computed on the way |
| `RationalNumbers.Rational.DivAssign` | app/src/main/cpp/thirdparty/include/boost/rational.hpp:558-585 | the exact quotient in normal form with positive denominator, with the list of values computed on the way; throws exactly for a zero divisor and then changes nothing |
| `RationalNumbers.Rational.AddInteger` | app/src/main/cpp/thirdparty/include/boost/rational.hpp:266-271 | the exact sum, still in normal form without any gcd |
| `RationalNumbers.Rational.SubInteger` | app/src/main/cpp/thirdparty/include/boost/rational.hpp:272-277 | the exact difference, still in normal form |
| `RationalNumbers.Rational.MulInteger` | app/src/main/cpp/thirdparty/include/boost/rational.hpp:278-286 | the exact product in normal form |
| `RationalNumbers.Rational.DivInteger` | app/src/main/cpp/thirdparty/include/boost/rational.hpp:287-307 | the exact quotient in normal form; throws exactly for zero |
| `RationalNumbers.Rational.Increment` | app/src/main/cpp/thirdparty/include/boost/rational.hpp:310 | adds one and keeps the normal form |
| `RationalNumbers.Rational.Decrement` | app/src/main/cpp/thirdparty/include/boost/rational.hpp:311 | subtracts one and keeps the normal form |
| `Ratios.SumNormalForm` | app/src/main/cpp/thirdparty/include/boost/rational.hpp:492-508 | dividing by gcd(new numerator, g) alone leaves nothing in common with the whole denominator |
| `RationalNumbers.SumIsExact` | app/src/main/cpp/thirdparty/include/boost/rational.hpp:514-519 | the shortened addition is exact and normal |
| `FixedWidth.SumFits` | app/src/main/cpp/thirdparty/include/boost/rational.hpp:514-539 | an addition or subtraction has defined gcd calls and only values that fit exactly if the reduced denominator fits and, for products that go the same way, the sum before it is reduced, otherwise each of the products; with nothing to reduce the first means that the result fits |
| `FixedWidth.SumTraceMeans` | app/src/main/cpp/thirdparty/include/boost/rational.hpp:514-519 | the listed values of an addition or subtraction are the gcds, their cofactors, the products, the sum and the reduced parts |
| `FixedWidth.UnsafeSums` | app/src/main/cpp/thirdparty/include/boost/rational.hpp:514-519 | two additions for every even smallest value whose sum fits and which are not safe, with all their values |
| `FixedWidth.ProductFits` | app/src/main/cpp/thirdparty/include/boost/rational.hpp:550-554 | on a fixed-width type, both gcd calls of a multiplication are defined and form only values that fit, and the values the multiplication computes fit exactly if the two components of the reduced product do |
| `FixedWidth.ProductTraceMeans` | app/src/main/cpp/thirdparty/include/boost/rational.hpp:550-554 | the listed values of a multiplication are the gcds, their cofactors and the products of these |
| `FixedWidth.QuotientFits` | app/src/main/cpp/thirdparty/include/boost/rational.hpp:571-583 | a division of numbers other than zero has defined gcd calls and only values that fit exactly if the reduced quotient fits, the numerators are not both the smallest value, and no negative divisor leaves the smallest value as numerator |
| `FixedWidth.QuotientTraceMeans` | app/src/main/cpp/thirdparty/include/boost/rational.hpp:571-583 | the same for a division, with the results negated for a negative divisor |
| `FixedWidth.UnsafeQuotients` | app/src/main/cpp/thirdparty/include/boost/rational.hpp:571-583 | two divisions for every even smallest value whose quotient fits and which are not safe, with all their values |
| `RationalNumbers.Rational.LessThan` | app/src/main/cpp/thirdparty/include/boost/rational.hpp:738-821 | the continued-fraction comparison decides the order of the two numbers, for every numerator and positive denominator, and terminates, with the list of values its records take |
| `FixedWidth.ComparisonFits` | app/src/main/cpp/thirdparty/include/boost/rational.hpp:752-796 | no value held by the comparison leaves a fixed-width type: first records, floor correction as the loop makes it, later rounds, smallest numerator included |
| `RationalNumbers.Expand` | app/src/main/cpp/thirdparty/include/boost/rational.hpp:755-767 | the truncated quotient is corrected to the floor, with a remainder that is not negative, in one step at most, whose two values are listed |
| `RationalNumbers.Rational.GreaterThan` | app/src/main/cpp/thirdparty/include/boost/rational.hpp:348 | the converse order |
| `RationalNumbers.QuotientsDecide` | app/src/main/cpp/thirdparty/include/boost/rational.hpp:772-781 | different floors settle the order |
| `RationalNumbers.RemaindersDecide` | app/src/main/cpp/thirdparty/include/boost/rational.hpp:783-795 | equal floors leave the order to the remainders, which the reciprocals compare the other way round |
| `RationalNumbers.Rational.Equals` | app/src/main/cpp/thirdparty/include/boost/rational.hpp:823-828 | componentwise equality is equality of value |
| `RationalNumbers.Rational.EqualsInteger` | app/src/main/cpp/thirdparty/include/boost/rational.hpp:374-378 | equality with an integer |
| `RationalNumbers.Rational.LessThanInteger` | app/src/main/cpp/thirdparty/include/boost/rational.hpp:352-368 | comparing the floor decides the order with an integer, for any positive denominator |
| `RationalNumbers.Rational.GreaterThanInteger` | app/src/main/cpp/thirdparty/include/boost/rational.hpp:369-373 | the converse order, from the other two tests |
| `RationalNumbers.Rational.AtMost` | app/src/main/cpp/thirdparty/include/boost/rational.hpp:671-677 | not greater is less or equal |
| `RationalNumbers.Rational.AtLeast` | app/src/main/cpp/thirdparty/include/boost/rational.hpp:686-692 | not less is greater or equal |
| `Ratios.NormalFormUnique` | app/src/main/cpp/thirdparty/include/boost/rational.hpp:396-399 | a number has one normal form |
| `RationalRuns.RunAll` | app/src/main/cpp/thirdparty/include/boost/rational.hpp:150-324 | every run of assignments and compound operations, with rational, integer and own operands, keeps the normal form, computes the exact real number, and throws exactly where a division by zero is denoted |
| `RationalRuns.OneMore` | app/src/main/cpp/thirdparty/include/boost/rational.hpp:188-311 | what one more assignment, step or operation with an integer or with itself does to the number, in plain real arithmetic |
| `RationalRuns.OneMoreFraction` | app/src/main/cpp/thirdparty/include/boost/rational.hpp:489-585 | the same with a fraction as operand |
| `RationalRuns.ThrowsExactly` | app/src/main/cpp/thirdparty/include/boost/rational.hpp:558-585 | an operation throws exactly for a zero denominator or a division by zero |
| `RationalRuns.RepresentationIsCanonical` | app/src/main/cpp/thirdparty/include/boost/rational.hpp:823-828 | two runs end in the same numerator and denominator if and only if they denote the same number |
| `RationalRuns.AddThenSubtract` | app/src/main/cpp/thirdparty/include/boost/rational.hpp:489-541 | adding and subtracting another number restores numerator and denominator |
| `RationalRuns.MultiplyThenDivide` | app/src/main/cpp/thirdparty/include/boost/rational.hpp:543-585 | multiplying and dividing by a nonzero number restores them too |
| `RationalRuns.IsNormalizedDecides` | app/src/main/cpp/thirdparty/include/boost/rational.hpp:403-409 | the test with its possibly negative inner gcd accepts the normal forms and nothing else |
| `RationalRuns.InnerGcdIsGcd` | app/src/main/cpp/thirdparty/include/boost/rational.hpp:387-390 | the recursion on truncating remainders gives the gcd up to sign |
| `RationalRuns.GcdEvaluator` | app/src/main/cpp/thirdparty/include/boost/rational.hpp:970-982 | the result, in normal form, divides both numbers into coprime integers, and every common rational divisor divides it |
| `RationalRuns.LcmEvaluator` | app/src/main/cpp/thirdparty/include/boost/rational.hpp:984-996 | the result is a whole multiple of both numbers and divides every common multiple, zeros included |
| `RationalRuns.GcdAndLcmDetermineProduct` | app/src/main/cpp/thirdparty/include/boost/rational.hpp:970-996 | any results with the properties of the two evaluators multiply to the absolute value of the product |
| `RationalRuns.RationalGcdUnique` | app/src/main/cpp/thirdparty/include/boost/rational.hpp:970-982 | that property determines the greatest common divisor |
| `EscapedList.EscapedListSeparator.DoEscape` | app/src/main/cpp/thirdparty/include/boost/token_functions.hpp:126-148 | reads one escape: newline for n, the character itself if it has a role, and otherwise which of the two errors it is |
| `EscapedList.EscapedListSeparator.Reset` | app/src/main/cpp/thirdparty/include/boost/token_functions.hpp:159 | clears the flag for a trailing field |
| `EscapedList.EscapedListSeparator.Call` | app/src/main/cpp/thirdparty/include/boost/token_functions.hpp:161-198 | one call: the field up to the next separator outside quotes, the position after it and the flag for a trailing field, or the exception |
| `EscapedList.EscapedListSeparator.Tokenize` | app/src/main/cpp/thirdparty/include/boost/token_iterator.hpp:53-75 | the run of calls over a whole input |
| `EscapedList.TokensAreReading` | app/src/main/cpp/thirdparty/include/boost/token_functions.hpp:161-198 | single-pass calls with a flag equal a two-pass reading: first escapes and roles, then cutting at separators outside quotes; on an exception the complete fields come first |
| `EscapedList.EscapeMeaning` | app/src/main/cpp/thirdparty/include/boost/token_functions.hpp:126-148 | for all roles and texts without special characters: an escaped n is a newline, an escaped character with a role is itself, any other escape is unknown, and an escape at the end is an error |
| `EscapedList.SeparatorMeaning` | app/src/main/cpp/thirdparty/include/boost/token_functions.hpp:175-191 | a separator cuts a text in two, even if it is a quote as well; a complete field is delivered before an error |
| `EscapedList.QuoteMeaning` | app/src/main/cpp/thirdparty/include/boost/token_functions.hpp:187-196 | quotes disappear wherever they stand; between them a separator does not cut and an escape keeps its meaning; the closing quote may be missing |
| `EscapedList.EncodingReadBack` | app/src/main/cpp/thirdparty/include/boost/token_functions.hpp:81-87 | what every written list of fields, bare or quoted, reads back as |
| `EscapedList.RoundTrip` | app/src/main/cpp/thirdparty/include/boost/token_functions.hpp:81-87 | escaping and joining is undone exactly, unless the list is one bare empty field or some field has an 'n' that had to be escaped |
| `EscapedList.RoundTripLosesN` | app/src/main/cpp/thirdparty/include/boost/token_functions.hpp:130-133 | a concrete field that comes back changed because an escaped 'n' means newline |
| `CharSeparators.CharSeparator.Call` | app/src/main/cpp/thirdparty/include/boost/token_functions.hpp:457-527 | one call under either policy; same token for both iterator categories; on failure the token is only cleared, for input iterators |
| `CharSeparators.CharSeparator.CallDropping` | app/src/main/cpp/thirdparty/include/boost/token_functions.hpp:468-489 | the branch that drops empty tokens |
| `CharSeparators.CharSeparator.CallKeeping` | app/src/main/cpp/thirdparty/include/boost/token_functions.hpp:490-524 | the branch that keeps empty tokens, with every change of the flag |
| `CharSeparators.CharSeparator.Collect` | app/src/main/cpp/thirdparty/include/boost/token_functions.hpp:520-521 | moves exactly to the next delimiter and collects what it passes |
| `CharSeparators.CharSeparator.SkipAllDropped` | app/src/main/cpp/thirdparty/include/boost/token_functions.hpp:468-471 | moves past the leading dropped delimiters |
| `CharSeparators.CharSeparator.Tokenize` | app/src/main/cpp/thirdparty/include/boost/token_iterator.hpp:53-75 | the run over an input from any flag; the same tokens for both iterator categories |
| `CharSeparatorLaws.SplitAt` | app/src/main/cpp/thirdparty/include/boost/token_functions.hpp:433-446 | for two strings of delimiters: the tokens are those of a reference that reads one character at a time; no lost delimiter is left in them; each is one kept delimiter or free of delimiters; together they are the input without the lost ones; their number, or that none is empty |
| `CharSeparatorLaws.SplitAtClasses` | app/src/main/cpp/thirdparty/include/boost/token_functions.hpp:449-453 | the same for the default separator, with character classes in place of the strings |
| `CharSeparatorLaws.ExplicitDelims` | app/src/main/cpp/thirdparty/include/boost/token_functions.hpp:537-554 | the delimiters of either kind are exactly the characters of the string given for it |
| `CharSeparatorLaws.DefaultDelims` | app/src/main/cpp/thirdparty/include/boost/token_functions.hpp:537-554 | without strings they are exactly the two character classes |
| `CharSeparators.NextToken` | app/src/main/cpp/thirdparty/include/boost/token_functions.hpp:490-524 | every successful call decreases twice the remaining length plus one while the flag is clear |
| `CharSeparators.KeepRunIsFields` | app/src/main/cpp/thirdparty/include/boost/token_functions.hpp:490-524 | keeping empty tokens, the calls with their flag deliver field, kept delimiter, field and so on |
| `CharSeparators.FieldsCount` | app/src/main/cpp/thirdparty/include/boost/token_functions.hpp:490-524 | one field more than delimiters, and one token more for every kept delimiter |
| `CharSeparators.FieldsConserve` | app/src/main/cpp/thirdparty/include/boost/token_functions.hpp:490-525 | together the tokens are the input without its dropped delimiters |
| `CharSeparators.CompactConserve` | app/src/main/cpp/thirdparty/include/boost/token_functions.hpp:468-489 | dropping empty tokens, together they are the input without every character that is a dropped delimiter |
| `CharSeparators.DropRunIsCompact` | app/src/main/cpp/thirdparty/include/boost/token_functions.hpp:468-489 | dropping empty tokens, the calls deliver nonempty fields and kept delimiters |
| `CharSeparators.PoliciesAgree` | app/src/main/cpp/thirdparty/include/boost/token_functions.hpp:458-527 | dropping empty tokens is keeping them and then removing the empty ones, exactly for inputs in which no character is a delimiter of both kinds |
| `CharSeparators.ReusedRun` | app/src/main/cpp/thirdparty/include/boost/token_functions.hpp:455 | because reset does nothing, a second run of a finished separator loses its leading empty token exactly when the input begins with a delimiter |
| `OffsetSeparators.OffsetSeparator.Call` | app/src/main/cpp/thirdparty/include/boost/token_functions.hpp:366-405 | one call for any offsets, wrapping and partial-token settings; same token for both iterator categories; on failure the position, the token and the current offset are given as well |
| `OffsetSeparators.OffsetSeparator.Tokenize` | app/src/main/cpp/thirdparty/include/boost/token_iterator.hpp:53-75 | the run over an input from the first offset, for every layout whose run ends; same tokens for both iterator categories |
| `OffsetSeparators.RunEnds` | app/src/main/cpp/thirdparty/include/boost/token_functions.hpp:375-404 | some call of a run fails if and only if the text is empty, the offsets do not wrap, or one of them is positive |
| `OffsetSeparators.CallsAreRun` | app/src/main/cpp/thirdparty/include/boost/token_functions.hpp:366-405 | the k-th call delivers the k-th token of the run, and calls after the last token fail |
| `OffsetSeparators.RunCuts` | app/src/main/cpp/thirdparty/include/boost/token_functions.hpp:375-404 | for every layout whose run ends, zero and negative offsets included: the tokens have the lengths of the offsets and are in order, only the last may be shorter, nothing is lost unless the offsets run out, and no token follows the end of the text |
| `OffsetSeparators.RunIsCut` | app/src/main/cpp/thirdparty/include/boost/token_functions.hpp:375-404 | a token list is the run's result if and only if it is such a cut of the text, with and without wrapping |
| `OffsetSeparatorLaws.RunByPosition` | app/src/main/cpp/thirdparty/include/boost/token_functions.hpp:375-404 | for every layout whose run ends: a token list is the run's result if and only if token j has the length of offset j mod n, the last at most that, and they make up the text, or the offsets end first |
| `OffsetSeparatorLaws.WrappingByPosition` | app/src/main/cpp/thirdparty/include/boost/token_functions.hpp:383-387 | with wrapping and a positive offset, every token before the last has the length of offset j mod n, and together they are the text |
| `OffsetSeparatorLaws.RefusingByPosition` | app/src/main/cpp/thirdparty/include/boost/token_functions.hpp:399-401 | refusing partial tokens removes the last one exactly if it is at least two shorter than offset j mod n |
| `OffsetSeparatorLaws.CutAtOffsets` | app/src/main/cpp/thirdparty/include/boost/token_functions.hpp:352-405 | the tokens of a separator built from given offsets and settings, by position |
| `OffsetSeparators.CutExists` | app/src/main/cpp/thirdparty/include/boost/token_functions.hpp:375-404 | a text has such a cut if and only if its run ends |
| `OffsetSeparators.WrappingRunCutsAll` | app/src/main/cpp/thirdparty/include/boost/token_functions.hpp:375-404 | with wrapping offsets, one of them positive, a token list is the run's result if and only if it fits the offsets, makes up the input and does not end in an empty token |
| `OffsetSeparators.CutUnique` | app/src/main/cpp/thirdparty/include/boost/token_functions.hpp:391-397 | for any offsets, at most one token list is a cut of a given text |
| `OffsetSeparators.PartialLastRefused` | app/src/main/cpp/thirdparty/include/boost/token_functions.hpp:399-401 | for every layout whose run ends, refusing partial last tokens removes the last token exactly if it is at least two characters short |
| `OffsetSeparators.ShortTokenDelivered` | app/src/main/cpp/thirdparty/include/boost/token_functions.hpp:399-401 | any text one character short of its only offset is delivered although partial tokens are refused; two short is refused |

## Left out

- Selection of integer types by width (`uint_t`, `mask_uint_t`): replaced by arbitrary storage widths.
- The once-only flag of `init_table`: every engine object fills its own table before use, where the library shares one per type.
- `process_bytes` and the call operators of the engines: they only forward to operations that are modelled.
- Named CRC presets: instances of the parameters for which everything is proved.
- Fixed-width overflow of the operations between a rational and an integer: they are modelled over unbounded integers.
- `CrcHelpers.SigBits`: takes the mask of the low `Bits` bits as defined for every width up to that of the word.  In the library a shift by the whole width is avoided by the `mask_uint_t` specializations; with a 32-bit `unsigned long`, as on the armeabi-v7a ABI the application builds for, a width of 64 has none, and the shift there is undefined.
- `CommonFactor.IntegerGcd`: the choice between the three gcd algorithms by type traits is not modelled; the mixed binary one is the default for built-in integers.
- Non-member rational operators, unary minus, `abs` and conversions: copies and combinations of the compound operations.
- Conversion between rationals of different integer types: only its test for normal form is modelled.
- Stream operators of rational: stream state and format flags.
- `OffsetSeparators.OffsetSeparator.Call`: offsets are unbounded integers; for an offset equal to the smallest `int` the library's `c-1` overflows when partial tokens are refused.
- `OffsetSeparators.OffsetSeparator.Tokenize`: requires an empty text, offsets that do not wrap, or a positive offset; `OffsetSeparators.RunEnds` proves that every other run goes on for ever.
- Locale character classes: two arbitrary sets of characters stand for `ispunct` and `isspace`.
- `char_delimiters_separator`: deprecated, and a simpler relative of the separators modelled.
- The other headers and the application's own JNI stub: no algorithm to state properties of.
