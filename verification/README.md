# Verified model of the accelerator base library

A Dafny model of the parts of the accelerator C++ library where the promise is
hardest to see in the code, with proofs of those promises for all inputs, all
runs or all reachable states. `dafny verify dfyconfig.toml` checks the project.

## What is modelled

**Decimal conversion of doubles** (`double-conversion`). `Bignum.dfy`,
`BignumCompare.dfy`, `BignumDivide.dfy` and `BignumPower.dfy` hold the class
`Bignum`, 128 digits of 28 bits and a hidden exponent changed in place by carry
and borrow loops in wrapping 32- and 64-bit arithmetic; each method is proved
against the natural number the object stands for. `Bigits.dfy`,
`Convolution.dfy` and `Powers.dfy` hold the arithmetic of digit vectors. The
digit generators (`StartValues.dfy`, `Shortest.dfy`, `Counted.dfy`, `Dtoa.dfy`,
`FixedMode.dfy`) work on numbers, and their results are stated about the real
number v (`Decimal.dfy`): shortest mode gives the shortest decimal that reads
back as v, and `Nearest.dfy` when that is the nearest of its length, as it is
for every double; fixed and precision mode give v rounded half up.
`BignumDtoa.dfy` does the same in place on `Bignum` objects, and
`DtoaCapacity.dfy` shows that 128 places are enough for every finite double.
`UInt128.dfy`, `FillDigits.dfy` and `FastFixed.dfy` hold the 64- and 128-bit
fast path, proved to round in the same way and to print the same digits as the
slow one. `ExactPowers.dfy` has the number theory the strict test of
`FixupMultiply10` rests on.

**fbstring_core** (`FbLayout.dfy`, `FbState.dfy`, `FbStore.dfy`). Strings are
24 bytes whose last byte tells small, medium and large apart; a store holds any
number of them with the heap blocks they point to, each counted block with its
reference count. Every operation is a method on the store. The main theorem,
`FbStore.Run`, is that over every sequence of operations, aliasing sources
included, the strings behave as independent plain sequences; the invariant it
keeps says that every count is the number of objects on the block.

**CPUThreadPoolExecutor** (`ThreadPool.dfy`, `ThreadProgress.dfy`,
`ThreadStop.dfy`). Workers and
the thread that calls `join`, `stop` or `setNumThreads` are a state machine of
atomic steps taken in any order. The invariant gives that no check fails, that
exactly the threads asked for leave, when `join` has run every older task, and
how little is still run once `stop` has told the threads; a step budget bounds
how long a call can take.

**JSON** (`Conv.dfy`, `Utf8.dfy`, `JsonText.dfy`, `JsonParse.dfy`,
`JsonInput.dfy`, `JsonPrinter.dfy`, `JsonTrip.dfy`, `JsonMeaning.dfy`,
`JsonGrammar.dfy`, `JsonLanguage.dfy`). The parser is a class with a moving range
and a recursion counter, the printer a class with an output buffer and an
indentation level; both are proved against functions on byte sequences. Parsing
what was printed gives the value back, and `JsonLanguage.Language` says of every
text whether it is accepted and with which value, by a grammar written in
characters.

**Structures against simple ones.** `Spooky.dfy` (hashing piece by piece against
hashing at once and against its values step by step), `Lru.dfy` (two LRU caches
of different size) and `LruRecency.dfy` (the cache told by its operations and
answers), `TimedHeap.dfy` (lazy deletion against a plain map), `Search.dfy`
(skipping search against the least match), `HashMix.dfy` and `HashSteps.dfy`
(mixers, their inverses and their lines), `Base64.dfy` and `Base64Alphabet.dfy`
(the bit buffer against groups of three bytes and the alphabets of sections 4 and
5 of RFC 4648).

## Where code and documentation disagree

The model follows the code.

- `bignum-dtoa.h` promises the decimal closest to v among the shortest ones. Two
  neighbours of equal length can lie on either side of a power of ten, where the
  code takes the power although nine tenths of it are nearer
  (`Nearest.EightBecomesTen`). `Dtoa.NearestUnlessTenth` has the exact
  condition; no double or float meets it.
- Halfway cases in shortest mode go to the even digit; `bignum-dtoa.h` speaks of
  rounding up.
- `fixed-dtoa.h` gives "2" for 0.15 with two places; the code gives "15".
- The equal lengths asserted at line 515 of `bignum.cc` need not hold
  (`BignumDivide.LengthsDiffer`; `BignumDivide.Reduce` says exactly when);
  quotient and remainder are right all the same.
- `FixupMultiply10` leaves a first digit of ten exactly when the significand is
  odd and v is the estimated power of ten (`FixedMode.FixupBelowTen`,
  `FixedMode.OddOneFails`); no double is like that
  (`ExactPowers.OddIsNotPowerOfTen`).
- The carry of `MultiplyByUInt64` stays below the factor, so it never reaches
  2^64 - 1.
- A JSON text is accepted up to a nesting of the recursion limit plus one, and
  anything may follow a zero byte.
- `join()` on a pool without threads leaves its tasks in the queue
  (`ThreadPool.JoinLeavesTask`; `ThreadPool.JoinIsComplete` says exactly when).
- A timer with deadline zero can be handed out after it was erased
  (`TimedHeap.ErasedComesBack`; exactly when: `TimedHeap.LiveKeysOnly`), and the
  repeat flag handed out can be an older one (`TimedHeap.StaleFlag`; exactly
  when: `TimedHeap.FlagExactly`).
- An `assign` that runs out of memory half way leaves the string empty.

## Model

| member | source | states |
|---|---|---|
| `Bignums.Bignum.constructor` | accelerator/double-conversion/bignum.cc:33-38 | a new number is valid and zero |
| `Bignums.Bignum.AssignUInt16` | accelerator/double-conversion/bignum.cc:48-56 | the value is the argument, in at most one place |
| `Bignums.Bignum.AssignUInt64` | accelerator/double-conversion/bignum.cc:59-73 | the value is the argument, cut into 28-bit digits without leading zeros |
| `Bignums.Bignum.AssignBignum` | accelerator/double-conversion/bignum.cc:76-86 | same value, same digits, same hidden exponent as the other number; places beyond are zero |
| `Bignums.Bignum.Zero` | accelerator/double-conversion/bignum.cc:689-695 | every place is zero and the value is zero |
| `Bignums.Bignum.Clamp` | accelerator/double-conversion/bignum.cc:673-681 | leading zeros go, the value stays, and zero gets exponent zero |
| `Bignums.Bignum.Align` | accelerator/double-conversion/bignum.cc:698-719 | the hidden exponent comes down to the other one's, by moving digits up in place; the value and the length in places stay |
| `Bignums.Bignum.AddBignum` | accelerator/double-conversion/bignum.cc:169-208 | value plus the other value, for any two hidden exponents, clamped again |
| `Bignums.SumLead` | accelerator/double-conversion/bignum.cc:190-207 | where the source stops counting digits the leading one is not zero, so the sum needs no clamping |
| `Bignums.Bignum.SubtractBignum` | accelerator/double-conversion/bignum.cc:211-235 | value minus the other value when that is not larger |
| `Bignums.Bignum.SubtractColumn` | accelerator/double-conversion/bignum.cc:222-227 | one column in wrapping 32-bit arithmetic leaves the digit of the difference and the borrow |
| `Bignums.Bignum.SubtractTimes` | accelerator/double-conversion/bignum.cc:738-763 | value minus factor times the other value, also through the loop of single subtractions for small factors |
| `Bignums.RemoveStep` | accelerator/double-conversion/bignum.cc:748-755 | one column of a multiple taken away in 64 and 32 bits: digit and borrow are those of exact arithmetic, the borrow at most the factor |
| `Bignums.Bignum.MultiplyByUInt32` | accelerator/double-conversion/bignum.cc:247-270 | exact product; factor zero gives zero |
| `Bignums.Bignum.MultiplyByUInt64` | accelerator/double-conversion/bignum.cc:273-297 | exact product with every digit below 2^28 and nothing behind the used digits |
| `Bignums.Column64` | accelerator/double-conversion/bignum.cc:283-290 | one column from two 32-bit halves: no 64-bit operation wraps and the carry stays below the factor |
| `Bignums.ColumnBound` | accelerator/double-conversion/bignum.cc:283-290 | a carry below the factor gives a next carry below the factor, whatever the digit, so it never reaches 2^64 - 1 |
| `Bignums.Bignum.BigitsShiftLeft` | accelerator/double-conversion/bignum.cc:722-735 | the digits times a power of two below 2^28, one place more at most |
| `Bignums.Bignum.ShiftLeft` | accelerator/double-conversion/bignum.cc:238-244 | value times a power of two, split between hidden exponent and digits |
| `BignumCompare.BigitAt` | accelerator/double-conversion/bignum.cc:611-615 | the digit at a place of the number with its hidden zeros and everything above it written out |
| `BignumCompare.LongerIsLarger` | accelerator/double-conversion/bignum.cc:619-622 | more places means a larger value |
| `BignumCompare.Compare` | accelerator/double-conversion/bignum.cc:618-633 | the sign of the difference, whatever the hidden exponents |
| `BignumCompare.LengthsDecide` | accelerator/double-conversion/bignum.cc:643-650 | each of the three shortcuts on the lengths decides correctly |
| `BignumCompare.PlusCompareStep` | accelerator/double-conversion/bignum.cc:656-666 | one place of the scan in wrapping 32-bit arithmetic: a verdict, or the borrow handed down |
| `BignumCompare.ExcessDecides` | accelerator/double-conversion/bignum.cc:655-667 | a surplus below zero or above one at some place settles the comparison, whatever the lower digits are |
| `BignumCompare.PlusCompare` | accelerator/double-conversion/bignum.cc:636-670 | the sign of a + b - c for all clamped numbers, without forming the sum |
| `BignumCompare.AddThenCompare` | accelerator/double-conversion/bignum.cc:636-670 | agrees with AddBignum followed by Compare |
| `Convolution.ColumnsValue` | accelerator/double-conversion/bignum.cc:345-353 | the column sums of two digit vectors, weighted, are the product of the two numbers |
| `BignumPower.AccumulatorBound` | accelerator/double-conversion/bignum.cc:353-360 | with at most 64 digits no column carry exceeds 2^34, so the accumulator never overflows |
| `BignumPower.CopyUp` | accelerator/double-conversion/bignum.cc:361-365 | the digits are copied above themselves, where the columns read them |
| `BignumPower.SumColumn` | accelerator/double-conversion/bignum.cc:368-397 | the inner loop adds one whole column of the square, from copied digits that no store has reached yet |
| `BignumPower.SquareDigits` | accelerator/double-conversion/bignum.cc:366-400 | both outer loops together leave the carried columns of the square in place |
| `BignumPower.SquareFits` | accelerator/double-conversion/bignum.cc:401-403 | the carried columns have no digit above twice the length: the accumulator ends at zero |
| `BignumPower.Square` | accelerator/double-conversion/bignum.cc:340-409 | exactly the square of the value |
| `BignumPower.SplitBase` | accelerator/double-conversion/bignum.cc:420-427 | the factors of two of the base and what is left |
| `BignumPower.WordMultiply` | accelerator/double-conversion/bignum.cc:452-463 | a multiplication in the 64-bit phase is done without overflow or owed to the bignum phase |
| `BignumPower.WordPhase` | accelerator/double-conversion/bignum.cc:445-465 | the 64-bit phase holds the power for the exponent bits consumed, or owes one factor |
| `BignumPower.BignumPhase` | accelerator/double-conversion/bignum.cc:471-478 | squaring and multiplying through the remaining bits reaches the power |
| `BignumPower.CapacityIsEnough` | accelerator/double-conversion/bignum.cc:428-436 | the places asked for before the loop are enough for every intermediate power |
| `BignumPower.AssignPowerUInt16` | accelerator/double-conversion/bignum.cc:412-482 | the value is base to the power |
| `BignumPower.MultiplyByPowerOfFive` | accelerator/double-conversion/bignum.cc:319-335 | the three loops over 5^27, 5^13 and the table multiply by exactly five to the exponent |
| `BignumPower.MultiplyByPowerOfTen` | accelerator/double-conversion/bignum.cc:300-337 | value times ten to the exponent |
| `BignumDivide.Reduce` | accelerator/double-conversion/bignum.cc:495-515 | what is left differs from the dividend by the multiples counted and is no longer than the divisor; the asserted equal lengths fail exactly when the dividend is longer, its remainder is shorter than the divisor and remainder plus divisor is longer |
| `BignumDivide.ShortExactly` | accelerator/double-conversion/bignum.cc:501-515 | when the subtractions end short, as a condition on the two values before the call |
| `BignumDivide.LengthsDiffer` | accelerator/double-conversion/bignum.cc:515 | B^n by B^n - 1 meets that condition for every n above 1 |
| `BignumDivide.ReduceOnce` | accelerator/double-conversion/bignum.cc:501-513 | taking the leading digit's multiple away never goes below zero, and leaves a shorter number than the divisor only when that is led by 2^28 - 1 |
| `BignumDivide.EstimateFits` | accelerator/double-conversion/bignum.cc:533-542 | the estimate from the leading digits does not overshoot, also when the lengths differ, and the early exit is taken only when the rest is below the divisor |
| `BignumDivide.DivideByOneDigit` | accelerator/double-conversion/bignum.cc:523-531 | the one-digit branch leaves the remainder and returns the quotient |
| `BignumDivide.DivideSameLength` | accelerator/double-conversion/bignum.cc:533-548 | estimate, exit and the correcting loop leave the remainder and return the quotient |
| `BignumDivide.DivideModuloIntBignum` | accelerator/double-conversion/bignum.cc:486-549 | returns the quotient and leaves the remainder, for every pair whose quotient fits 16 bits, without the asserted equality of lengths |
| `StartValues.Unscaled` | accelerator/double-conversion/bignum-dtoa.cc:417-527 | the three cases write v as a fraction whose denominator carries the power of ten |
| `StartValues.InitialScaledStartValues` | accelerator/double-conversion/bignum-dtoa.cc:568-598 | numerator, denominator and both distances stand for v and its rounding interval at the estimated power of ten |
| `StartValues.CloserBoundaries` | accelerator/double-conversion/bignum-dtoa.cc:591-597 | when the lower boundary is closer everything is doubled once more except that distance |
| `Dtoa.FixupMultiply10` | accelerator/double-conversion/bignum-dtoa.cc:612-639 | the same numbers one power of ten lower, or the point one higher; what they stand for does not change |
| `Dtoa.FixupInRange` | accelerator/double-conversion/bignum-dtoa.cc:601-639 | any estimate meeting the documented bound leaves the upper end between one and ten after the fixup |
| `Dtoa.ReadsBackIsNearest` | accelerator/double-conversion/bignum-dtoa.cc:172-180 | the interval is what reading to the nearest means: x reads back as v exactly when it is nearer to v than to the next larger and next smaller number, or as near and the significand is even |
| `Shortest.RoomsExact` | accelerator/double-conversion/bignum-dtoa.cc:203-221 | the two loop tests are exactly: the digits so far lie in the rounding interval, and so does the next larger number |
| `Shortest.NoRoom` | accelerator/double-conversion/bignum-dtoa.cc:222-231 | when both tests fail no number of that many digits lies in the interval |
| `Shortest.ChoiceIsBest` | accelerator/double-conversion/bignum-dtoa.cc:232-272 | the digit kept or raised at the stop gives a number in the interval and none of that length is nearer |
| `Shortest.RoundLast` | accelerator/double-conversion/bignum-dtoa.cc:232-272 | the last digit is never raised past 9 and the first is never zero |
| `Shortest.BufferHolds` | accelerator/double-conversion/bignum-dtoa.cc:195-231 | the loop ends before the buffer does |
| `Shortest.GenerateShortestDigits` | accelerator/double-conversion/bignum-dtoa.cc:185-274 | the digits are in the interval, nothing coarser is, and nothing as coarse is nearer |
| `Dtoa.InsideMeans` | accelerator/double-conversion/bignum-dtoa.cc:177-180 | the integer test for the interval is the statement about the real number |
| `Dtoa.NoShorterDecimal` | accelerator/double-conversion/bignum-dtoa.cc:172-178 | no decimal of fewer digits, at any power of ten, reads back as v |
| `Dtoa.BestIsShortest` | accelerator/double-conversion/bignum-dtoa.cc:172-180 | what the loop finds reads back as v, no decimal of fewer digits does, and none down to the same power of ten is nearer |
| `Dtoa.NearestUnlessTenth` | accelerator/double-conversion/bignum-dtoa.cc:172-180 | that decimal is the nearest of all decimals with as few digits, wherever their point, exactly unless v lies below 0.95 times a power of ten that reads back as v together with nine tenths of it |
| `Nearest.LargeSignificand` | accelerator/double-conversion/bignum-dtoa.cc:89-169 | no such power of ten exists for any significand of two digits or more, at any exponent |
| `Nearest.DoublesAreNearest` | accelerator/double-conversion/bignum-dtoa.cc:89-169 | nor for any double, the nine smallest subnormal ones included |
| `Nearest.FloatsAreNearest` | accelerator/double-conversion/bignum-dtoa.cc:89-169 | nor for any single-precision number |
| `Nearest.EightBecomesTen` | accelerator/double-conversion/bignum-dtoa.cc:172-180 | it does exist for significand 1 and exponent 3: the result for 8 is 10, and 8 itself is as short, reads back and is nearer |
| `Dtoa.DigitsBound` | accelerator/double-conversion/bignum-dtoa.cc:195-231 | 4f + 2 below a power of ten bounds the number of digits, 18 places for every double |
| `Dtoa.ShortestDtoa` | accelerator/double-conversion/bignum-dtoa.cc:89-169 | shortest mode end to end on numbers: for every significand, exponent and admissible estimate the digits read back as v, no decimal of fewer digits does, and they are the nearest of as few digits exactly unless there is such a power of ten |
| `Counted.PropagateCarry` | accelerator/double-conversion/bignum-dtoa.cc:304-316 | a last digit of ten is carried up in place, or the digits become 1 and zeros with the point moved |
| `Counted.GenerateCountedDigits` | accelerator/double-conversion/bignum-dtoa.cc:283-318 | count digits of the fraction rounded half up |
| `FixedMode.HalfUpRounds` | accelerator/double-conversion/bignum-dtoa.cc:277-282 | the integer test r + r >= d rounds the real number half up |
| `FixedMode.RoundedMeans` | accelerator/double-conversion/bignum-dtoa.cc:276-318 | what v is rounded to is a multiple of the last place at most half of it away, the larger of two such |
| `FixedMode.TinyRoundsToZero` | accelerator/double-conversion/bignum-dtoa.cc:332-340 | below a tenth of the last place the answer is zero |
| `FixedMode.SingleUnit` | accelerator/double-conversion/bignum-dtoa.cc:341-358 | exactly at the last place the answer is nothing or one unit |
| `FixedMode.CountedIsRounded` | accelerator/double-conversion/bignum-dtoa.cc:359-366 | the counted digits are v rounded half up to the places asked for |
| `FixedMode.BignumToFixed` | accelerator/double-conversion/bignum-dtoa.cc:326-367 | v rounded half up to the places after the point, the first digit not zero; without digits the point is minus the places |
| `FixedMode.FixupBelowTen` | accelerator/double-conversion/bignum-dtoa.cc:612-639 | without boundaries the first digit stays below ten if and only if the significand is even or v is not the estimated power of ten |
| `FixedMode.OddOneFails` | accelerator/double-conversion/bignum-dtoa.cc:612-639 | one with significand 1 and exponent 0 gives a first digit of ten |
| `ExactPowers.OddNeverExact` | accelerator/double-conversion/bignum-dtoa.cc:612-639 | no double with an odd significand is a power of ten, as integers over a common denominator |
| `ExactPowers.OddIsNotPowerOfTen` | accelerator/double-conversion/bignum-dtoa.cc:612-639 | no double with an odd significand is a power of ten, so the condition above holds for every double |
| `FixedMode.FixedDtoa` | accelerator/double-conversion/bignum-dtoa.cc:89-169 | fixed mode end to end: the digits denote v rounded half up to the places asked for; without digits the point is minus the places |
| `FixedMode.PrecisionDtoa` | accelerator/double-conversion/bignum-dtoa.cc:89-169 | precision mode end to end: exactly the digits asked for, the first not zero, v rounded half up there |
| `BignumDtoa.DoublesHaveRoom` | accelerator/double-conversion/bignum-dtoa.cc:132-137 | for every finite double and every power within one of the right one, all scaled numbers and ten times them fit the 128 places |
| `DtoaCapacity.EstimateRange` | accelerator/double-conversion/bignum-dtoa.cc:132-137 | such a power lies between -359 and 343 |
| `DtoaCapacity.StartFits` | accelerator/double-conversion/bignum-dtoa.cc:132-137 | eighty times the numerator or the denominator needs at most 127 places |
| `BignumDtoa.StartBignums` | accelerator/double-conversion/bignum-dtoa.cc:568-598 | the four numbers hold exactly the scaled fraction and its distances, in each of the three cases |
| `BignumDtoa.StartPositive` | accelerator/double-conversion/bignum-dtoa.cc:417-446 | positive exponent: f times 2^e over a power of ten, with both distances |
| `BignumDtoa.StartNegative` | accelerator/double-conversion/bignum-dtoa.cc:450-480 | negative exponent and a non-negative power: f over the power of ten times 2^-e |
| `BignumDtoa.StartTiny` | accelerator/double-conversion/bignum-dtoa.cc:484-527 | both negative: f times a power of ten over 2^-e |
| `BignumDtoa.Fixup` | accelerator/double-conversion/bignum-dtoa.cc:612-639 | on the numbers in place, also while the two distances share one number |
| `BignumDtoa.GenerateShortest` | accelerator/double-conversion/bignum-dtoa.cc:185-274 | digit by digit on the numbers in place, with one number for both distances when they are equal, the best decimal of the shortest length |
| `BignumDtoa.RoundLastDigit` | accelerator/double-conversion/bignum-dtoa.cc:232-271 | the last digit goes up exactly when the rest says so, even digit at the half, and never past nine |
| `BignumDtoa.GenerateCounted` | accelerator/double-conversion/bignum-dtoa.cc:283-318 | division, times ten and half-way test on the numbers give the count of digits rounded half up, with the carry of nines |
| `BignumDtoa.ToFixed` | accelerator/double-conversion/bignum-dtoa.cc:326-367 | too small, on the edge or with digits, the denominator scaled in place: v rounded half up to that many places; without digits the point is minus the places |
| `BignumDtoa.ShortestMode` | accelerator/double-conversion/bignum-dtoa.cc:89-169 | the same on 128-place numbers for every finite double and admissible estimate: no capacity check can fail |
| `BignumDtoa.FixedOnBignums` | accelerator/double-conversion/bignum-dtoa.cc:89-169 | fixed mode on 128-place numbers for every finite double: v rounded half up to that many places; without digits the point is minus the places |
| `BignumDtoa.PrecisionOnBignums` | accelerator/double-conversion/bignum-dtoa.cc:89-169 | precision mode on 128-place numbers for every finite double: v rounded half up to that many digits |
| `Words128.UInt128.constructor` | accelerator/double-conversion/fixed-dtoa.cc:37-40 | the value is high times 2^64 plus low |
| `Words128.UInt128.Multiply` | accelerator/double-conversion/fixed-dtoa.cc:42-57 | the exact product by a 32-bit word, with what does not fit as the carry, every product and sum kept to 64 bits |
| `Words128.SumFits` | accelerator/double-conversion/fixed-dtoa.cc:46-56 | no sum of the four columns needs more than 64 bits |
| `Words128.UInt128.Shift` | accelerator/double-conversion/fixed-dtoa.cc:59-79 | a left shift multiplies when nothing is shifted out, a right shift divides |
| `Words128.UInt128.DivModPowerOf2` | accelerator/double-conversion/fixed-dtoa.cc:82-95 | returns the quotient by a power of two and keeps the remainder |
| `Words128.UInt128.IsZero` | accelerator/double-conversion/fixed-dtoa.cc:97-99 | exactly when the value is zero |
| `Words128.UInt128.BitAt` | accelerator/double-conversion/fixed-dtoa.cc:101-107 | the bit of the value at that position |
| `FillDigits.FillDigits32FixedLength` | accelerator/double-conversion/fixed-dtoa.cc:120-127 | exactly the requested digits, leading zeros included, denote the number |
| `FillDigits.ReverseDigits` | accelerator/double-conversion/fixed-dtoa.cc:133-139 | the digits written lowest first |
| `FillDigits.Exchange` | accelerator/double-conversion/fixed-dtoa.cc:140-148 | the loop that swaps ends reverses the stretch in place |
| `FillDigits.FillDigits32` | accelerator/double-conversion/fixed-dtoa.cc:130-150 | the digits denote the number, the first not zero, none for zero |
| `FillDigits.FillDigits64FixedLength` | accelerator/double-conversion/fixed-dtoa.cc:153-165 | seventeen digits denote the number |
| `FillDigits.FillDigits64` | accelerator/double-conversion/fixed-dtoa.cc:168-186 | the digits denote the 64-bit number, the first not zero, whichever of the three parts leads |
| `FastFixed.RoundUp` | accelerator/double-conversion/fixed-dtoa.cc:189-216 | one unit more in the last place, the point moved when the carry leaves the top |
| `FastFixed.FiveFits` | accelerator/double-conversion/fixed-dtoa.cc:243-253 | multiplying by five never overflows the word: the first three places because 5^3 < 2^7, the later ones because the point has sunk |
| `FastFixed.Places64` | accelerator/double-conversion/fixed-dtoa.cc:240-260 | the 64-bit loop: digits so far and rest still add up to the fraction |
| `FastFixed.Align128` | accelerator/double-conversion/fixed-dtoa.cc:267-269 | the fraction moved to bit 128 |
| `FastFixed.Places128` | accelerator/double-conversion/fixed-dtoa.cc:270-282 | the 128-bit loop: digits so far and rest still add up to the fraction |
| `FastFixed.DigitizedRounds` | accelerator/double-conversion/fixed-dtoa.cc:261-265 | the bit tested after the loop is exactly the half-up decision |
| `FastFixed.DigitizedExact` | accelerator/double-conversion/fixed-dtoa.cc:241-242 | stopping early because nothing is left changes nothing |
| `FastFixed.FillFractionals` | accelerator/double-conversion/fixed-dtoa.cc:230-287 | integer part and fraction together are rounded half up to the places asked for |
| `FastFixed.TrimZeros` | accelerator/double-conversion/fixed-dtoa.cc:292-307 | no zero at either end, the number denoted unchanged |
| `FastFixed.TrimmedUnique` | accelerator/double-conversion/fixed-dtoa.cc:292-307 | digits without such zeros are determined by the number they denote |
| `FastFixed.LargeParts` | accelerator/double-conversion/fixed-dtoa.cc:337-362 | dividing by 5^17 and shifting gives quotient and remainder by 10^17, without losing bits |
| `FastFixed.LargeNumber` | accelerator/double-conversion/fixed-dtoa.cc:329-365 | the digits of an integer of up to 73 bits |
| `FastFixed.WordNumber` | accelerator/double-conversion/fixed-dtoa.cc:366-370 | the digits of an integer that fits 64 bits |
| `FastFixed.SplitNumber` | accelerator/double-conversion/fixed-dtoa.cc:371-382 | integer part and fraction of a number below 2^53 |
| `FastFixed.VanishesInPlaces` | accelerator/double-conversion/fixed-dtoa.cc:383-389 | below 2^-75 nothing is left at twenty places |
| `FastFixed.SmallNumber` | accelerator/double-conversion/fixed-dtoa.cc:390-394 | a fraction below one |
| `FastFixed.FastFixedDtoa` | accelerator/double-conversion/fixed-dtoa.cc:310-403 | succeeds exactly for exponent and count up to 20, and then the digits denote v rounded half up |
| `FastFixed.FastAgreesWithBignum` | accelerator/double-conversion/fixed-dtoa.cc:310-403 | whenever the fast path answers, its digits and its point are those of fixed mode with bignums, also without digits |
| `FbLayout.PackFields` | accelerator/FBString.h:564-585 | category, pointer, size and capacity written into the 24 bytes read back, the tag in the last byte |
| `FbLayout.SetSizeFields` | accelerator/FBString.h:905 | a new size leaves category, pointer and capacity as they were |
| `FbLayout.SmallFields` | accelerator/FBString.h:605-622 | a small string's last byte holds the spare room, its size reads back, and the terminator is where it should be, also at 23 |
| `FbState.ReleaseOk` | accelerator/FBString.h:477-485 | letting go of an object keeps every other object's characters and every count equal to its holders |
| `FbState.FreedWithLast` | accelerator/FBString.h:509-516 | a block is freed if and only if the object letting go was its only holder |
| `FbState.NoLeak` | accelerator/FBString.h:487-554 | when no object is left no block is |
| `FbState.AddShared` | accelerator/FBString.h:679-685 | a second object on a counted block: count up by one, everybody's characters unchanged |
| `FbState.MoveOk` | accelerator/FBString.h:304-309 | a core moved to a new object and emptied behind keeps all counts and contents |
| `FbState.Rewrite` | accelerator/FBString.h:779-785 | an object alone on its block may change it without any other seeing it |
| `FbStore.Store.InitSmall` | accelerator/FBString.h:689-732 | a small string holds the characters given |
| `FbStore.Store.InitMedium` | accelerator/FBString.h:735-747 | a medium string holds the characters given, or nothing has changed and an allocation was refused |
| `FbStore.Store.InitLarge` | accelerator/FBString.h:750-759 | a large string holds the characters given with count one, or nothing has changed and an allocation was refused |
| `FbStore.Store.Create` | accelerator/FBString.h:518-525 | room for the count and for the characters with their terminator, in fresh memory |
| `FbStore.Store.Construct` | accelerator/FBString.h:311-324 | the characters given; small up to 23 of them, which never fails, medium up to 254 and large beyond |
| `FbStore.Store.Unshare` | accelerator/FBString.h:762-776 | the string moves to a block of its own with at least the capacity it had |
| `FbStore.Store.ReserveSmall` | accelerator/FBString.h:845-874 | room for the characters asked for, contents and size unchanged |
| `FbStore.Store.ReserveMedium` | accelerator/FBString.h:812-842 | the same for a medium string, which may become large |
| `FbStore.Store.ReserveLarge` | accelerator/FBString.h:788-809 | the same for a large string, shared or not |
| `FbStore.Store.Reserve` | accelerator/FBString.h:405-420 | the same for any string, which has its storage to itself afterwards |
| `FbStore.Store.SetHeapSize` | accelerator/FBString.h:905-906 | size and terminator of a heap string written in place |
| `FbStore.Store.SetSmall` | accelerator/FBString.h:613-622 | size and terminator of a small string written in place |
| `FbStore.Store.ExpandSmall` | accelerator/FBString.h:884-892 | a small string grown in place or into a block, old characters kept |
| `FbStore.Store.WriteSizeAgain` | accelerator/FBString.h:905-906 | growing a shared string by nothing rewrites what is there |
| `FbStore.Store.ExpandNoinit` | accelerator/FBString.h:877-909 | delta more characters behind the old ones, in storage nobody else sees |
| `FbStore.Store.Destroy` | accelerator/FBString.h:326-331 | the string is gone and no other string has changed |
| `FbStore.Store.MutableData` | accelerator/FBString.h:374-384 | the string has its storage to itself and its old characters can still be read where they were |
| `FbStore.Store.SetAt` | accelerator/FBString.h:1301-1303 | one character of one string changes |
| `FbStore.Store.Shrink` | accelerator/FBString.h:393-402 | the last delta characters go; only a shared string needs memory for that |
| `FbStore.Store.ShrinkLarge` | accelerator/FBString.h:928-937 | a shared string is copied rather than cut |
| `FbStore.Store.Locate` | accelerator/FBString.h:1895-1906 | the aliasing test of append finds every source that moves with the string |
| `FbStore.Store.Fetch` | accelerator/FBString.h:1899-1913 | after the string has moved the source still reads as it did before |
| `FbStore.Store.Append` | accelerator/FBString.h:1886-1917 | the old characters and then the source, which may be a part of the string itself or of one that shares its block |
| `FbStore.Store.Assign` | accelerator/FBString.h:1937-1960 | the source, aliased or not; without memory the old contents or the empty string |
| `FbStore.Store.AssignOver` | accelerator/FBString.h:1944-1948 | a source no longer than the string is moved over it |
| `FbStore.Store.AssignAfresh` | accelerator/FBString.h:1949-1956 | a longer source is elsewhere and survives emptying the string |
| `FbStore.Store.Resize` | accelerator/FBString.h:1850-1864 | n characters: the old ones as far as they reach, and behind them the fill character in every place |
| `FbStore.Store.PushBack` | accelerator/FBString.h:427-429 | one character more |
| `FbStore.Store.CopyConstruct` | accelerator/FBString.h:285-302 | a new string with the same characters; a large one shares the block and never allocates |
| `FbStore.Store.CopyMedium` | accelerator/FBString.h:664-676 | a medium string is copied with its terminator |
| `FbStore.Store.MoveConstruct` | accelerator/FBString.h:304-309 | a new string with the characters of another, which is empty afterwards |
| `FbStore.Store.MoveAssign` | accelerator/FBString.h:1812-1826 | the same onto a living string; onto itself nothing happens |
| `FbStore.Step` | accelerator/FBString.h:285-357 | one operation of a program does to the strings what it does to plain sequences, and fails only with a refused allocation; a resize is told place by place |
| `FbStore.Run` | accelerator/FBString.h:281-640 | over every sequence of operations on any number of strings each is its own plain sequence; an operation is left out exactly when its strings do not allow it, and every other one succeeds when no allocation is refused |
| `ThreadPool.Initially` | accelerator/concurrency/ThreadPoolExecutor.cpp:24-28 | a new pool meets the invariant, whatever its uninitialised join flag holds |
| `ThreadPool.InvStep` | accelerator/concurrency/CPUThreadPoolExecutor.cpp:72-107 | every atomic step of every thread keeps the invariant: counters balanced, list and lock consistent, tasks conserved, poisons behind older tasks |
| `ThreadPool.NoCheckFails` | accelerator/concurrency/CPUThreadPoolExecutor.cpp:77 | no run from a new pool fails any check: the counter is positive when a poison is taken, and the sizes are right when a call returns |
| `ThreadPool.CountsPoisons` | accelerator/concurrency/CPUThreadPoolExecutor.cpp:102-107 | outside stop() the counter is the number of poisons queued, held, or about to be queued |
| `ThreadPool.AllExited` | accelerator/concurrency/ThreadPoolExecutor.cpp:156-161 | when all threads asked for have been joined every worker has exited and the list is empty |
| `ThreadPool.JoinRunsAll` | accelerator/concurrency/ThreadPoolExecutor.cpp:175-185 | in every reachable state where join() can return, every older task has been run exactly once if and only if the call found threads or no older task is waiting |
| `ThreadPool.JoinIsComplete` | accelerator/concurrency/ThreadPoolExecutor.cpp:175-185 | over every interleaving from the lock to the return nobody is left and the counter is zero, and every task added before the lock is done once if and only if at the lock there was a thread or no such task was queued |
| `ThreadPool.JoinLeavesTask` | accelerator/concurrency/ThreadPoolExecutor.cpp:175-185 | a run from a new pool without threads in which join() can return with its one task never run |
| `ThreadPool.ShrinkIsExact` | accelerator/concurrency/ThreadPoolExecutor.cpp:109-124 | over every interleaving a shrinking setNumThreads(n) removes exactly the surplus and leaves n |
| `ThreadPool.StopEmpties` | accelerator/concurrency/ThreadPoolExecutor.cpp:163-173 | when stop() returns all workers have exited and the counter is zero, although poisons may remain queued |
| `ThreadStop.StopCutsShort` | accelerator/concurrency/CPUThreadPoolExecutor.cpp:89-102 | over every run from the raising of threadsToStop_ in stop() to its return: a worker takes from the queue at most once more, and not at all unless it was idle or undoing a decrement; no more is taken than there are threads, and whatever stood further back is still queued and not done |
| `ThreadStop.TakesOnce` | accelerator/concurrency/CPUThreadPoolExecutor.cpp:72-102 | nobody who was running, checking or leaving comes back to the queue |
| `ThreadStop.QueueRun` | accelerator/concurrency/CPUThreadPoolExecutor.cpp:72-107 | over every run items leave the queue at the front, one for each take, and come in at the back |
| `ThreadStop.DoneOrLeft` | accelerator/concurrency/ThreadPoolExecutor.cpp:163-173 | when stop() returns a task is done exactly when it is not queued any more |
| `ThreadPool.NoDeadlock` | accelerator/concurrency/ThreadPoolExecutor.cpp:156-161 | while a call is under way some thread can move |
| `ThreadProgress.StepCosts` | accelerator/concurrency/CPUThreadPoolExecutor.cpp:72-107 | every step uses up part of a finite budget, which only a new task raises |
| `ThreadProgress.RunIsBounded` | accelerator/concurrency/CPUThreadPoolExecutor.cpp:72-107 | no run outlasts the budget and seven steps for each task added meanwhile |
| `ThreadProgress.EveryCallReturns` | accelerator/concurrency/ThreadPoolExecutor.cpp:109-185 | however the threads take turns, a join, stop or resize is over after a number of steps fixed by the state and by the tasks added meanwhile, and until then some thread can step |
| `ThreadProgress.SomeRunReturns` | accelerator/concurrency/ThreadPoolExecutor.cpp:109-185 | from every reachable state some run without new tasks or calls brings the call back |
| `Conv.EstimateBelow` | accelerator/Conv.h:202-205 | 77/256 of the bits never overestimates the number of decimal digits |
| `Conv.EstimateAbove` | accelerator/Conv.h:202-209 | it is at most one short for 64-bit numbers |
| `Conv.Digits10Exact` | accelerator/Conv.h:176-209 | the table form is the exact decimal length of every 64-bit number |
| `Conv.Uint64ToBuffer` | accelerator/Conv.h:240-257 | the buffer holds exactly the decimal digits |
| `Conv.ToAppend` | accelerator/Conv.h:365-377 | the signed decimal text is appended, the minimum included |
| `Conv.LexValue` | accelerator/Conv.h:969-972 | comparing equally long digit strings as text compares their values |
| `Conv.DigitsTo` | accelerator/Conv.h:950-1018 | a digit string is accepted exactly when it is not empty and its value fits 64 bits, and gives that value |
| `Conv.SkipZeros` | accelerator/Conv.h:961-968 | leading zeros do not count against the length |
| `Conv.Accumulate` | accelerator/Conv.h:978-1017 | four digits at a time and the last up to three, without overflow |
| `Conv.Signed` | accelerator/Conv.h:1109-1121 | the checks on the wrapped result accept exactly the values in range |
| `Conv.ParseMeans` | accelerator/Conv.h:1074-1124 | any text cut into spaces, sign, digits and rest: a number exactly when there are digits, a sign only where the type has one, and a value in range; the rest is left |
| `Conv.To` | accelerator/Conv.h:1074-1124 | spaces, one sign for signed types, then digits; value and rest, or failure |
| `Conv.PrintThenParse` | accelerator/Conv.h:365-377 | printing any 64-bit number and parsing gives it back with whatever follows that is no digit |
| `Utf8.DecodeUtf8` | accelerator/json.cpp:37-119 | the bit-shifting loop is the decoder of shortest forms of one to three bytes without surrogates |
| `Utf8.DecodedIsEncoded` | accelerator/Unicode.cpp:25-51 | whatever is decoded is the encoding of the code point |
| `Utf8.EncodedIsDecoded` | accelerator/Unicode.cpp:25-51 | every code point up to FFFF but the surrogates is decoded from its encoding |
| `JsonMeaning.EncodeMeans` | accelerator/Unicode.cpp:25-51 | one to four bytes by the size of the code point, leading and following bytes in their ranges, whose bits put together are the code point |
| `JsonPrinter.Printer.PutCharacter` | accelerator/json.cpp:703-757 | one byte or code point escaped, or refused exactly when it cannot be encoded |
| `JsonPrinter.Printer.PutString` | accelerator/json.cpp:689-760 | the quoted, escaped text, or refusal exactly when a sequence cannot be decoded |
| `JsonPrinter.Printer.PrintMember` | accelerator/json.cpp:169-177 | key, colon and value |
| `JsonPrinter.Printer.PrintArray` | accelerator/json.cpp:211-230 | the text of an array with its line breaks |
| `JsonPrinter.Printer.PrintObject` | accelerator/json.cpp:189-209 | the text of an object, members in the order they come |
| `JsonPrinter.Printer.Print` | accelerator/json.cpp:128-166 | the text of any value at the present indentation |
| `JsonInput.Input.SkipWhitespace` | accelerator/json.cpp:327-330 | blanks go |
| `JsonInput.Input.Consume` | accelerator/json.cpp:362-369 | a given text is taken when it is there |
| `JsonInput.Input.DecodeUnicodeEscape` | accelerator/json.cpp:555-601 | four hex digits, and after a leading surrogate four more, as UTF-8 |
| `JsonInput.Input.ParseString` | accelerator/json.cpp:603-654 | the string up to its closing quote, escapes decoded |
| `JsonInput.Input.ParseNumber` | accelerator/json.cpp:498-553 | integer or fractional text, and what follows it |
| `JsonInput.Input.ParseArrayAt` | accelerator/json.cpp:469-496 | an array, one level deeper |
| `JsonInput.Input.ParseObjectAt` | accelerator/json.cpp:425-467 | an object, one level deeper; of equal keys the last counts |
| `JsonInput.Input.ParseValueAt` | accelerator/json.cpp:656-674 | any value; the recursion counter is back where it was and the parser ends on every input |
| `JsonInput.ParseText` | accelerator/json.cpp:829-841 | a value and nothing but blanks, or a zero byte, behind it |
| `JsonMeaning.SurrogatePair` | accelerator/json.cpp:583-596 | for every code point from 10000 to 10FFFF the two escapes of its surrogates, in either case of hex digits, are the four bytes of its UTF-8 form |
| `JsonMeaning.PairParses` | accelerator/json.cpp:555-601 | the same as a whole text |
| `JsonMeaning.BasicEscape` | accelerator/json.cpp:555-601 | any other escape is the UTF-8 form of its code point; half a pair, or two that do not match, is refused |
| `JsonMeaning.HexOnly` | accelerator/json.cpp:556-577 | nothing but four hex digits is read as a number |
| `JsonMeaning.LetterEscape` | accelerator/json.cpp:621-631 | the eight letters behind a backslash, the slash included, and what they stand for |
| `JsonMeaning.NoOtherEscape` | accelerator/json.cpp:621-635 | no other letter but u may follow a backslash |
| `JsonMeaning.BlanksBefore` | accelerator/json.cpp:327-330 | blanks, tabs, new lines and returns before a value do not matter |
| `JsonMeaning.Keywords` | accelerator/json.cpp:656-674 | the spelling of the five words |
| `JsonMeaning.DoubleExtent` | accelerator/json.cpp:498-553 | a number with a fraction or an exponent is taken as far as its last digit and no further |
| `JsonMeaning.PrintedByte` | accelerator/json.cpp:721-757 | which bytes are printed as they are, with a letter escape, or with four hex digits |
| `JsonMeaning.Layout` | accelerator/json.cpp:189-230 | colon, line break and indentation, character by character |
| `JsonMeaning.ArrayText` | accelerator/json.cpp:211-230 | brackets and commas of an array |
| `JsonMeaning.ObjectText` | accelerator/json.cpp:189-209 | braces and commas of an object |
| `JsonMeaning.ItemsInOrder` | accelerator/json.cpp:469-496 | the items of an array are in their order |
| `JsonMeaning.LastMemberCounts` | accelerator/json.cpp:425-467 | of several members with one key the last counts |
| `JsonGrammar.PartsTrip` | accelerator/json.cpp:603-654 | a string written with plain characters and escapes in any mixture is read as the bytes they stand for |
| `JsonGrammar.StringIsParts` | accelerator/json.cpp:603-654 | whatever string is accepted is written that way |
| `JsonLanguage.NumberIsAtom` | accelerator/json.cpp:498-553 | whatever number is accepted is a sign or none, digits within 64 bits, or such digits with a fraction or an exponent, or minus infinity |
| `JsonLanguage.NodeTrip` | accelerator/json.cpp:656-674 | a value of the grammar, with blanks anywhere between its parts, is read as its meaning at any level, exactly when it is not nested too deep |
| `JsonLanguage.AcceptedIsWritten` | accelerator/json.cpp:829-841 | whatever is accepted is a document of the grammar, and the result is its meaning |
| `JsonLanguage.WrittenIsAccepted` | accelerator/json.cpp:829-841 | every document of the grammar is accepted with its meaning, and refused when it is nested deeper than the limit plus one or something else follows |
| `JsonLanguage.Language` | accelerator/json.cpp:829-841 | the texts accepted are exactly the documents of the grammar, each with its meaning |
| `JsonTrip.PointTrip` | accelerator/json.cpp:555-601 | an escaped code point is read back as its UTF-8 bytes |
| `JsonTrip.StringTrip` | accelerator/json.cpp:603-654 | an escaped string is read back as the same bytes, in both escaping modes |
| `JsonTrip.NumberTrip` | accelerator/json.cpp:498-553 | a printed 64-bit integer is read back |
| `JsonTrip.TextTrip` | accelerator/json.cpp:656-674 | the text of a value at any indentation and level is read back, up to the rest of the input, exactly when it is not nested too deep |
| `JsonTrip.RoundTrip` | accelerator/json.cpp:829-841 | parsing the plain or pretty text of a value gives the value back if and only if it is nested no deeper than the limit plus one; member order is free |
| `JsonTrip.PaddedTrip` | accelerator/json.cpp:829-841 | the same with blanks before and behind the text, and with a zero byte and anything behind that |
| `JsonTrip.ValueRoundTrip` | accelerator/json.cpp:843-851 | every value of null, booleans, 64-bit integers, byte strings, arrays and objects has a text that parses back to it exactly when the value is nested at most the limit plus one deep, and is refused otherwise |
| `JsonPrinter.PrintAndParse` | accelerator/json.cpp:843-851 | the printer's output given to the parser |
| `Spooky.MixSplit` | accelerator/SpookyHashV2.cpp:179-196 | mixing whole blocks and then the rest is mixing it all |
| `Spooky.Hash128` | accelerator/SpookyHashV2.cpp:149-208 | the one-call hash with every value on the way: twelve variables that are the seeds and the constant by turns, mix k on bytes 96k to 96k + 95, and a last block of the bytes left over, zeros and their number |
| `Spooky.HashIsTraced` | accelerator/SpookyHashV2.cpp:149-208 | such a trace exists for every message |
| `Spooky.TraceDecides` | accelerator/SpookyHashV2.cpp:149-208 | and it determines the hash |
| `Spooky.Hasher.constructor` | accelerator/SpookyHashV2.cpp:213-219 | no bytes yet |
| `Spooky.Hasher.Init` | accelerator/SpookyHashV2.cpp:213-219 | an object in use starts over |
| `Spooky.Hasher.Update` | accelerator/SpookyHashV2.cpp:223-323 | a piece more, of any length, in the message the fields stand for |
| `Spooky.Hasher.UseStash` | accelerator/SpookyHashV2.cpp:269-283 | what was stashed is filled up to two blocks and mixed first |
| `Spooky.Closing` | accelerator/SpookyHashV2.cpp:354-371 | what is left to do for the hash when all but the last, fewer than two blocks are mixed in |
| `Spooky.Hasher.Final` | accelerator/SpookyHashV2.cpp:327-372 | the hash of the message so far; later pieces can still follow |
| `Spooky.HashPieces` | accelerator/SpookyHashV2.cpp:213-372 | however a message is cut, and wherever the hash is asked for in between, the last answer is the one-call hash, with the same trace |
| `Lru.Cache.constructor` | accelerator/EvictingCacheMap.h:144-150 | an empty cache |
| `Lru.Cache.Find` | accelerator/EvictingCacheMap.h:222-230 | the value of a key that is there, whose entry is then the first with the others behind it in their order; nothing changes otherwise |
| `Lru.Cache.Erase` | accelerator/EvictingCacheMap.h:274-284 | the entry goes, the order of the others stays |
| `Lru.Cache.Prune` | accelerator/EvictingCacheMap.h:462-482 | that many of the oldest entries go |
| `Lru.Cache.Set` | accelerator/EvictingCacheMap.h:295-316 | the entry is the most recent; a cache that is too large drops clearSize of the oldest and stays within its capacity |
| `Lru.Cache.SetMaxSize` | accelerator/EvictingCacheMap.h:174-180 | a smaller capacity drops as many as needed, at least clearSize |
| `Lru.SetIncluded` | accelerator/EvictingCacheMap.h:295-316 | a set on two caches keeps the smaller one's list inside the larger one's |
| `Lru.Inclusion` | accelerator/EvictingCacheMap.h:222-316 | over every run of set, get and erase the smaller cache's recency list stays a subsequence of the larger one's, with equal values |
| `Lru.StepIncluded` | accelerator/EvictingCacheMap.h:222-316 | one operation keeps the lists included, and what the smaller cache answers the larger one answers too |
| `Lru.RunBoth` | accelerator/EvictingCacheMap.h:222-316 | two caches run side by side through any operations: the lists stay included and every hit of the smaller one is the same hit of the larger one |
| `LruRecency.Run` | accelerator/EvictingCacheMap.h:222-316 | every run of set, get and erase on a cache of any capacity and clear size, told by the operations and their answers: the list stands in the order of last set or hit, a get finds what was last set, and what a set drops was used before all that stays |
| `LruRecency.OneRun` | accelerator/EvictingCacheMap.h:222-316 | the operations decide every answer and every set of keys held |
| `LruRecency.CutKeys` | accelerator/EvictingCacheMap.h:462-482 | what pruning takes off was last used before all that is left |
| `TimedHeap.Heap.constructor` | accelerator/TimedHeap.h:32 | an empty heap |
| `TimedHeap.Heap.Push` | accelerator/TimedHeap.h:34-40 | the key gets the deadline, old entries stay behind; no key, no change |
| `TimedHeap.Heap.Erase` | accelerator/TimedHeap.h:60-65 | the key goes, the heap keeps its entries |
| `TimedHeap.Heap.Pop` | accelerator/TimedHeap.h:42-58 | hands out a current entry of least deadline that has passed, with its key gone from the table, or nothing when there is none; stale entries on the way go |
| `TimedHeap.HandsOutDue` | accelerator/TimedHeap.h:42-58 | what can be handed out is exactly what is in the heap, live, due and of least deadline |
| `TimedHeap.NothingIsDue` | accelerator/TimedHeap.h:42-58 | nothing comes exactly when every live deadline lies ahead |
| `TimedHeap.LiveKeysOnly` | accelerator/TimedHeap.h:42-58 | every current top is live if and only if no entry of deadline zero outlives its key |
| `TimedHeap.ErasedComesBack` | accelerator/TimedHeap.h:34-65 | push with deadline zero, erase, pop: the erased key is handed out |
| `TimedHeap.StaleFlag` | accelerator/TimedHeap.h:34-58 | two pushes of a key with equal deadlines and opposite flags leave a heap that can hand out the older flag |
| `TimedHeap.FlagExactly` | accelerator/TimedHeap.h:42-58 | whatever is handed out is the whole live timeout exactly when every due entry in the heap has its key's flag |
| `TimedHeap.PushKeepsFlags` | accelerator/TimedHeap.h:34-40 | a push keeps equal entries on one flag exactly when it agrees with the entries of its key and deadline |
| `TimedHeap.Replay` | accelerator/TimedHeap.h:34-65 | over every run with positive deadlines the heap is a plain map of timeouts, and where pushes of one key and deadline agree on the flag every answer is the whole timeout |
| `Search.ComputeSkip` | accelerator/Range.h:969-974 | how far the last element of the needle is from its previous equal |
| `Search.SkipIsSafe` | accelerator/Range.h:966-976 | under any equivalence the skip passes over no match |
| `Search.LastMatch` | accelerator/Range.h:954-961 | no match is passed over on the way to a place whose last element fits |
| `Search.Find` | accelerator/Range.h:933-986 | the least place from the start position on where the needle occurs, or none exactly when there is none |
| `Search.FindInString` | accelerator/FBString.h:1995-2054 | the same for strings whose sizes and positions are 64-bit words: the guard refuses every start whose sum wraps |
| `HashMix.XorShiftInverse` | accelerator/Hash.h:117-145 | xor with a right shift is undone by xor with all its multiples, at any width |
| `HashMix.XorAllIsUnshift` | accelerator/Hash.h:134-145 | finitely many multiples are enough |
| `HashMix.ModInverse` | accelerator/Hash.h:134-145 | multiplying by the inverse modulo the word size undoes a multiplication |
| `HashMix.TwangInverse` | accelerator/Hash.h:117-145 | twang_unmix64 and twang_mix64 are inverse to each other on all 64-bit words |
| `HashSteps.TwangSteps` | accelerator/Hash.h:117-126 | twang_mix64 is its seven lines of complement, shifts, sums and exclusive ors of 64-bit words |
| `HashMix.JenkinsInverse` | accelerator/Hash.h:165-208 | jenkins_rev_unmix32 and jenkins_rev_mix32 are inverse to each other on all 32-bit words |
| `HashSteps.JenkinsSteps` | accelerator/Hash.h:165-176 | jenkins_rev_mix32 is its eight lines of shifts, sums and exclusive ors of 32-bit words |
| `Base64.StreamIsEncode` | accelerator/Base64-inl.h:43-61 | the bit buffer emits the standard encoding, groups of three bytes and padding |
| `Base64.WrapKeeps` | accelerator/Base64-inl.h:45-50 | the accumulator wrapping at 32 bits changes no emitted group |
| `Base64Alphabet.Spelled` | accelerator/Base64-inl.h:28-35 | the letters are those of the common and the URI alphabet of RFC 4648 |
| `Base64Alphabet.GroupMeans` | accelerator/Base64-inl.h:43-61 | characters 4k to 4k + 3 and bytes 3k to 3k + 2 are one number of 24 bits, with zeros and pads where the bytes end |
| `Base64.Base64Encode` | accelerator/Base64-inl.h:26-63 | the output is the encoding and has exactly 4 * ceil(n / 3) characters |
| `Base64.DecodeQuad` | accelerator/Base64-inl.h:90-111 | four characters give back three bytes, whatever the accumulator held before |
| `Base64.RoundTrip` | accelerator/Base64-inl.h:66-114 | decoding an encoding succeeds and gives the bytes back, in both alphabets |
| `Base64Alphabet.DecodesLetters` | accelerator/Base64-inl.h:70-82 | the decoder takes the letters of both alphabets and passes over everything else but the pad |
| `Base64Alphabet.DecodeMeans` | accelerator/Base64-inl.h:66-114 | for any text whatever the bytes are those its letters up to the first pad spell, six bits each, and it succeeds exactly when there is a pad or no bit is left over |
| `Base64.Base64Decode` | accelerator/Base64-inl.h:66-114 | the decoding loop, unknown characters skipped and padding ending it |

## Left out

- BignumDtoa.ShortestMode: the estimated power is any number meeting the documented bound, because EstimatePower computes in floating point.
- BignumDtoa.FixedOnBignums: the same; an odd significand exactly on the estimated power of ten, which no double has, is left to `FixedMode.FixupBelowTen`.
- BignumDtoa.PrecisionOnBignums: the same two, and at least one digit is asked for.
- FixedMode.PrecisionDtoa: at least one digit is asked for.
- Shortest.GenerateShortestDigits: characters are their distances from '0', and the terminating zero byte is not written.
- Counted.GenerateCountedDigits: the same, and a count of zero, for which the source would write before its buffer, is not modelled.
- FastFixed.FastFixedDtoa: a buffer of 36 places is asked for, which is enough for every input; the source does not check.
- Bignums.Bignum.AddBignum: not with the number itself as the other one, and hidden exponents do not overflow.
- Bignums.Bignum.SubtractBignum: not with the number itself as the other one.
- Bignums.Bignum.SubtractTimes: not with the number itself as the other one.
- Bignums.Bignum.AssignBignum: not with the number itself as the other one.
- BignumPower.MultiplyByPowerOfTen: asks for one spare place for the final shift, as the source does through its capacity check.
- `AssignDecimalString`, `AssignHexString`, `ToHexString`, `AddUInt64`: easy once the operations above are exact.
- FastDtoa, Strtod, Double and Single: not part of this model, and with them JSON doubles, which are kept as text.
- FbStore.Store.Reserve: reallocation is modelled as a new block with the old characters; the growth policy of the allocator is any function that does not shrink a request.
- FbStore.Store.Construct: strings taken over from malloc and strings with the small category switched off are not modelled; sizes do not reach 2^62 and do not wrap; the layout is the little-endian one with eight-byte words.
- FbStore.Run: strings are used by one thread at a time; the memory order of the counts is not modelled.
- ThreadPool.InvStep: one thread calls the pool at a time, starting a thread and listing it is one step, atomics are sequentially consistent, the queue is first in first out and never full, and nothing is added to a pool after stop() has returned.
- ThreadPool.StopEmpties: a pool is not used again after stop(), because poisons may be left over.
- ThreadProgress.EveryCallReturns: assumes that every task ends; the bound grows by seven steps for each task added, so nothing follows while tasks keep arriving.
- JsonTrip.RoundTrip: without doubles (what the parser makes of them is the text they were read from), sorted keys, non-string keys, validation or replacement of invalid UTF-8, JavaScript-safe integers and the other printing and parsing options; error positions are not modelled.
- Utf8.DecodeUtf8: sequences of four bytes are rejected, as the loop bound in the source has it.
- Conv.To: the 64-bit types only; narrower types differ in constants.
- Spooky.Hash128: Short, Mix and End are arbitrary functions, because nothing depends on what they compute; the total length does not overflow, and unaligned input is not copied first.
- Lru.Cache.Set: with promotion; prune hooks, iterators and the hash index are left out.
- TimedHeap.Heap.Top: which of several entries with the least deadline is on top is left open.
- rfind and replaceAll of Range.h, the other hashes of Hash.h, checksums, UUIDs, IO executors, I/O wrappers and template plumbing: not modelled.
- Base64.Base64Decode: the output grows instead of being sized first.
