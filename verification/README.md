# Verified models of the numeric and JSON core of 3rd/lua-cjson

This project models, in Dafny 4.11, the three parts of the bundled lua-cjson that rest on global
arguments rather than on local checks, and proves those arguments:

* **the number conversions of `dtoa.c`** - the multi-word integer kernel, the lazily extended list
  of powers of five, in-place quotients, and on top of them shortest and fixed digit generation,
  and the whole of `fpconv_strtod`: scanner, first approximation in floating point, correction loop,
  the long-decimal comparison `bigcomp`, and hexadecimal floats;
* **the JSON codec of `lua_cjson.c`** over its growable buffer (`strbuf.c`, `strbuf.h`);
* **the number formatter of `g_fmt.c`**, composed with the scanner.

The configuration is the one `dtoa_config.h` and the defaults of `dtoa.c` select: IEEE doubles,
32-bit words in 64-bit intermediates, round to nearest, `Avoid_Underflow`, no directed rounding.

## How the model is laid out

| file | contents |
|---|---|
| `Arith.dfy`, `Words.dfy`, `Rational.dfy`, `Decimal.dfy` | powers, word sequences and the numbers they denote, powers with negative exponents, digit strings |
| `Bignum.dfy`, `BitShift.dfy`, `Division.dfy`, `Pow5.dfy`, `Allocator.dfy` | class `Bigint` and its operations on word arrays; `quorem`; the shared list of powers of five; the free lists |
| `Ieee.dfy`, `DoubleBits.dfy` | doubles as 64-bit patterns with exact values, rounding to nearest even (section 4.3.1 of IEEE 754-2008), `d2b` |
| `Scaling.dfy`, `FreeFormat.dfy`, `FreeDigits.dfy`, `DigitBuffer.dfy`, `FixedDigits.dfy`, `Shortest.dfy`, `Precise.dfy` | `dtoa`: exact scaling, both digit loops, and what their digits mean |
| `Scanner.dfy`, `DecimalText.dfy`, `ScanNumber.dfy` | the scanner of `fpconv_strtod`, and what it makes of texts |
| `Near.dfy`, `Edge.dfy`, `Grow.dfy`, `Shrink.dfy`, `Start.dfy` | its floating-point part: relative errors, the products that make the first approximation, the edge at 2^-1022, the shortcut for short decimals |
| `Scaled.dfy`, `Unscale.dfy`, `Correction.dfy`, `Refine.dfy`, `Ratio.dfy`, `Loop.dfy` | the correction loop: numbers held 2^106 times too large, exact comparison and exits, `ratio`, the step to a better approximation, the loop as a whole |
| `Bigcomp.dfy`, `Midpoint.dfy`, `LongDecimal.dfy`, `Instance.dfy`, `ReadBack.dfy` | more than 40 digits: cutting them, `bigcomp`, and when it errs |
| `HexFloat.dfy`, `HexRound.dfy`, `HexDigits.dfy`, `HexText.dfy` | `gethex`, from the text on |
| `Strtod.dfy`, `DoubleTrip.dfy`, `Misread.dfy` | `fpconv_strtod` as a whole, its round trip with shortest digits, and texts it misreads |
| `JsonNumber.dfy`, `GFmt.dfy`, `FormatDouble.dfy` | the JSON number grammar; `fpconv_g_fmt`, and its composition with `dtoa` |
| `StrBuf.dfy`, `JsonString.dfy`, `Unicode.dfy`, `JsonEncode.dfy`, `JsonDecode.dfy`, `JsonParse.dfy`, `JsonParser.dfy` | buffer, strings, encoder, decoder |
| `JsonTokens.dfy`, `JsonFloat.dfy`, `JsonLoose.dfy`, `JsonLenient.dfy`, `JsonText.dfy`, `JsonRead.dfy`, `JsonError.dfy` | the decoder against an independent grammar: tokens, numbers under either setting, syntax trees and what they denote, acceptance, complaints |
| `JsonRoundTrip.dfy`, `JsonRefusal.dfy` | the encoder against that grammar: round trip, and what is refused |

A `Bigint` is an object with its word array, and operations overwrite arguments where the C code
does. A double is the integer `n` formed by its two words; `DoubleValue(n)` is its exact value as a
real, and `ReadsAs(x, n)` says that `n` is the nearest double to the real `x`, ties to even. A C
string is a byte sequence that ends in NUL; a read past that NUL would be an index error here, so
the absence of over-reads is part of every proof. Errors that leave by `longjmp` are results.

Floating-point operations of the code are exact real operations followed by `nearest`, a function
from reals to doubles of which only `Refinement.Rounds` is assumed: that its result is the nearest
double, ties to even. The tables `tens`, `bigtens` and `tinytens` hold the doubles nearest to the
powers they are written as. Nothing else about the first approximation is assumed.

## What turned out not to hold

The model follows the code. Where the code does not do what it is for, a member gives a concrete
input and another says exactly when it does.

* **Long decimals in `fpconv_strtod` (dtoa.c:2401, 2941-2966, 3400-3409).** There are two ways to a
  wrong double, both only with more than 40 digits, more than 18 of them before the zeros at the end.
  First, after the last input digit `bigcomp` computes one more digit of the half-way point but then
  tests only the remainder: if the half-way point above an odd double is the decimal with one more
  nonzero digit, the comparison reports equality. Second, the loop compares with the first 18 digits
  only, and when it steps down to zero it ends without calling `bigcomp`: a decimal above 2^-1075
  whose first 18 digits lie below it becomes zero. `LongDecimals.Misjudged` is the disjunction of the
  two, and `Strtod.ReadNumber` states for every text that the result is the nearest double to the
  counted digits times their power of ten if and only if they are not misjudged. On the way
  `BigcompDigits.VerdictExact` says when one comparison is right, `Midpoint.Bigcomp` when one call is,
  and `LongDecimals.GoneAnswers` when zero is. Inputs, read by `Strtod.ReadNumber` from their text:
  10000000000000003330669073875469621270895004272460937e-52 lies just below the half-way point above
  1 + 2^-52, reads as that double, and comes out as another (`MisreadTexts.WrongRead`);
  247032822920623272088284396434110686182529902e-368 reads as 2^-1074, and does not come out as that
  (`MisreadTexts.WrongZero`).
* **Exponents beyond 19999 (dtoa.c:2644-2650).** The exponent is capped before the place of the point
  is counted in. `ScanNumber.ScannedValue`: the counted digits times 10^e are the number denoted if and
  only if its exponent lies from -19999 to 19999. `Strtod.ReadNumber`: with at most 19500 digits on each
  side of the point the cap does no harm, the number being far beyond all doubles or far below them.
  `MisreadTexts.CappedExponent`: 0. with 20000 zeros and 1e20001 denotes 1 and is taken for 10^-2.
* **`gethex` (dtoa.c:1976, 1995, 2065).** `HexRounding.RoundHex` and `HexDigits.HexToDouble` give the
  nearest double or infinity for every positive number outside three ranges, and a wrong answer for
  every number inside them; `HexLiterals.GetHex` says the same of the text.
  From 2^1024 + 2^971 up to about 2^1076 the unit's exponent is compared
  with `Emax` instead of the largest unit exponent declared as `emax` (`HexLiterals.OverflowMissed`:
  0x1.8p1024). Just below 2^-1022 a carry into the exponent is masked away (`HexDigits.CarryInput`:
  0x0.fffffffffffff8p-1022). Just above 2^-1075 the bits lost by the first shift are not looked at
  (`HexDigits.TinyInput`: 0x1.00000000000001p-1075). An exponent from 10 * 2^27 on is not counted at all;
  with fewer than 2^28 digits that is harmless (`HexLiterals.FewDigits`).
* **Decoding accepts more than RFC 4627 (lua_cjson.c:904-962, 1015-1032).** `JsonReading.DecodeIff`
  gives the exact grammar for either setting of `decode_invalid_numbers`. With strict numbers it has,
  beyond the RFC, numbers whose point no digit follows (`JsonFloats.StrictFloatIsNumber` says that there
  are no others, `JsonFloats.BarePoint` that 1. is one), all bytes but NUL, quote and backslash standing
  for themselves in strings, any value as the whole text, and whatever follows a NUL.
* **`decode_invalid_numbers`, the default (lua_cjson.c:1015-1032).** manual.txt:263-300 and
  tests/test.lua:222-232 promise infinities, NaN, hexadecimal numbers and leading zeros. `strtoll` reads
  first, with base 0, and the code does otherwise: the names are refused (`LenientDecoding.NamesRefused`),
  so that what `encode_invalid_numbers` writes by name is not read back; digits after a leading zero are
  octal (`LenientDecoding.LeadingZero`; 0123 is 83, `LenientDecoding.OctalInput`); hexadecimal numbers
  with an exponent need a point (`LenientDecoding.HexPower`). `LooseNumbers.LooseTaken` and
  `LooseNumbers.LooseAt` say exactly what is accepted and what it denotes.
* **`strbuf` linear growth (strbuf.c:155).** The old size is rounded up, not the requested one.
  `StrBufs.LinearReaches` says when that suffices, `StrBufs.LinearGap` gives a full buffer that does not
  grow at all, and `StrBufs.StrBuf.EnsureEmptyLength` says exactly when room is made. Exponential
  growth, the default and the only one the codec uses, always suffices (`StrBufs.ExponentialReaches`).

At one place the loop of `fpconv_strtod` shifts a word by its whole width (dtoa.c:3207, for the
exponent field 75 of a scaled number), which C leaves undefined. The value is the parameter `shl32`
of `Correction.HalfWay`, and the result does not depend on it.

## Model

| member | source | states |
|---|---|---|
| Bignum.Bigint.Balloc | 3rd/lua-cjson/dtoa.c:544-582 | a new number has room for exactly 2^k words |
| Bignum.MultAdd | 3rd/lua-cjson/dtoa.c:612-667 | the result is b * m + a, growing by a word only on a final carry; 64-bit intermediates never overflow |
| Bignum.MulAcc | 3rd/lua-cjson/dtoa.c:635-655 | one word of multadd: product plus carry split exactly into low word and new carry |
| Bignum.Append | 3rd/lua-cjson/dtoa.c:656-665 | a carry word is stored on top, in the next capacity if the array is full, with all lower words kept |
| Bignum.I2b | 3rd/lua-cjson/dtoa.c:789-803 | the number i in one word |
| Bignum.Mult | 3rd/lua-cjson/dtoa.c:805-913 | the result is a * b, in either order of the operands, zero included, normalized, within the capacity chosen before the loops |
| Bignum.RowLoop | 3rd/lua-cjson/dtoa.c:847-858 | one row of schoolbook multiplication adds a * y, shifted by j words, with one carry word left |
| Bignum.LShift | 3rd/lua-cjson/dtoa.c:974-1032 | the result is b * 2^k in a fresh number, normalized unless b is zero |
| Bignum.RoomFor | 3rd/lua-cjson/dtoa.c:993-994 | the capacity loop of lshift ends with room for all shifted words |
| Bignum.Cmp | 3rd/lua-cjson/dtoa.c:1034-1066 | the sign of the result is the order of the two normalized numbers |
| Bignum.Diff | 3rd/lua-cjson/dtoa.c:1068-1160 | the result is the absolute difference, its sign bit set exactly when a < b; equal numbers give zero |
| Bignum.BorrowLoops | 3rd/lua-cjson/dtoa.c:1117-1142 | the borrow loops subtract the smaller number exactly, with no borrow left over |
| Words.ValueCompare | 3rd/lua-cjson/dtoa.c:1055-1064 | at equal lengths the highest differing word decides the order |
| BitShift.Increment | 3rd/lua-cjson/dtoa.c:1640-1670 | the result is b + 1; carries run through words of all ones, and a new word appears only when all are |
| BitShift.RShift | 3rd/lua-cjson/dtoa.c:1675-1706 | in place, the floor of b / 2^k, normalized; zero is left with no words |
| BitShift.ShiftDown | 3rd/lua-cjson/dtoa.c:1690-1700 | the bit loop of rshift leaves exactly the high bits and no leading zero word |
| BitShift.AnyOn | 3rd/lua-cjson/dtoa.c:1708-1735 | true exactly when b is not a multiple of 2^k, for every k |
| BitShift.BitAt | 3rd/lua-cjson/dtoa.c:1960 | the word test reads bit k of the number |
| BitShift.SplitAt | 3rd/lua-cjson/dtoa.c:1675-1735 | cutting at bit 32n + k: quotient and remainder from the words |
| Division.Hi0bits | 3rd/lua-cjson/dtoa.c:707-739 | the count of leading zeros, found by halving: shifting by it sets the top bit |
| Division.DShift | 3rd/lua-cjson/dtoa.c:2106-2117 | the shift that leaves four leading zero bits at the top of the divisor |
| Division.QuoRem | 3rd/lua-cjson/dtoa.c:2119-2241 | returns floor(b / S) and leaves b mod S in place, for every aligned S at least as long as b |
| Division.EstimateLow | 3rd/lua-cjson/dtoa.c:2149 | top(b) / (top(S) + 1) never exceeds the quotient |
| Division.EstimateHigh | 3rd/lua-cjson/dtoa.c:2149-2198 | and falls short of it by at most one, so a single correction suffices |
| Division.SubMul | 3rd/lua-cjson/dtoa.c:2160-2196 | the fused multiply and subtract loop leaves b - q * S |
| Division.Correct | 3rd/lua-cjson/dtoa.c:2198-2240 | compare and subtract once yields the exact quotient and remainder |
| Pow5.Pow5Mult | 3rd/lua-cjson/dtoa.c:915-972 | the result is b * 5^k for every k >= 0, and the shared list stays valid |
| Pow5.Next | 3rd/lua-cjson/dtoa.c:956-968 | the list is extended only at its end, by the square of the last node, so node i stays 5^(4 * 2^i) |
| Pow5.Squarings | 3rd/lua-cjson/dtoa.c:948-970 | binary exponentiation along the list computes the power |
| Pow5.Cache.constructor | 3rd/lua-cjson/dtoa.c:915 | the empty list is valid |
| Allocator.State.Balloc | 3rd/lua-cjson/dtoa.c:544-582 | from every valid state: a block of exactly 2^k words, not live before, sharing no memory with any live block; the free list is popped or the block is new |
| Allocator.State.Bfree | 3rd/lua-cjson/dtoa.c:584-606 | a live block goes to the front of the list of its capacity (or is released if too large), and the state stays valid |
| Allocator.State.Carve | 3rd/lua-cjson/dtoa.c:563-577 | a block cut from the private pool lies above all earlier ones and inside the pool |
| Allocator.SizeHolds | 3rd/lua-cjson/dtoa.c:568-569 | the doubles reserved hold the header and all 2^k words, with less than two to spare |
| Allocator.State.Take | 3rd/lua-cjson/dtoa.c:561-562 | popping keeps each list a finite chain of distinct free blocks of its capacity |
| Allocator.LaidMore | 3rd/lua-cjson/dtoa.c:571-576 | a new block keeps clear of all live and free ones |
| Allocator.TailChain | 3rd/lua-cjson/dtoa.c:561-562 | the rest of an acyclic list is acyclic and does not contain its old head |
| Ieee.NearestIffInterval | 3rd/lua-cjson/dtoa.c:3169-3320 | nearest-even among all doubles is the same as lying between the two half-way points around n |
| Ieee.NearestUnique | 3rd/lua-cjson/dtoa.c:3169-3320 | no number reads as two doubles |
| DoubleBits.JoinFields | 3rd/lua-cjson/dtoa.c:306-320 | the fields of a double from its two words |
| DoubleBits.Lo0bits | 3rd/lua-cjson/dtoa.c:741-787 | trailing zeros are counted and shifted out |
| DoubleBits.D2b | 3rd/lua-cjson/dtoa.c:1272-1405 | b * 2^e is the double with b odd, bits is the exact bit length, denormals included |
| Scaling.ScaleExponents | 3rd/lua-cjson/dtoa.c:3844-3862 | the bookkeeping of powers of two and five balances: b / S = d / 10^k and the gaps likewise |
| Scaling.ScaleEq | 3rd/lua-cjson/dtoa.c:3844-4159 | balanced exponents give the exact quotient as a real equation |
| Scaling.Fives | 3rd/lua-cjson/dtoa.c:4107-4123 | the powers of five are multiplied in, sharing the one made for the gaps |
| Scaling.Twos | 3rd/lua-cjson/dtoa.c:4145-4159 | b and S are shifted by one common amount that aligns S |
| Scaling.AlignedBits | 3rd/lua-cjson/dtoa.c:4145-4159 | the shift found by dshift does align S |
| Scaling.Quotient | 3rd/lua-cjson/dtoa.c:4084-4159 | before the estimate is checked, b / S = d / 10^k and the gap number / S is the lower half gap over 10^k |
| Scaling.CheckK | 3rd/lua-cjson/dtoa.c:4160-4168 | whatever of the two allowed values the estimate had, afterwards S <= b < 10 S for the true exponent |
| Scaling.Scale | 3rd/lua-cjson/dtoa.c:3844-4194 | b / S = d / 10^k with S <= b < 10 S, and mlo / S and mhi / S are exactly the half gaps to the neighbouring doubles over 10^k, denormals and powers of two included |
| Scaling.Gaps | 3rd/lua-cjson/dtoa.c:4181-4194 | mhi is twice mlo exactly for a normalized power of two |
| FreeTheory.NoneOnGrid | 3rd/lua-cjson/dtoa.c:4201-4268 | when neither stopping test fires, no decimal with the digits so far lies in the rounding interval |
| FreeTheory.NoShorter | 3rd/lua-cjson/dtoa.c:4196-4282 | if the previous grid misses the interval, so does every decimal of fewer digits, whatever its exponent |
| FreeTheory.OnCoarseGrid | 3rd/lua-cjson/dtoa.c:4196-4282 | a short decimal in the interval would put a point of the coarser grid into it |
| FreeTheory.SoundResult | 3rd/lua-cjson/dtoa.c:4201-4268 | the digit kept or raised gives a decimal inside the interval, the closest one unless it is a forced final 9 |
| FreeTheory.NoNine | 3rd/lua-cjson/dtoa.c:4256-4265 | a 9 is never rounded up after a first digit |
| FreeDigits.NextDigit | 3rd/lua-cjson/dtoa.c:4197 | one quotient digit of 0 to 9 and its remainder |
| FreeDigits.Decide | 3rd/lua-cjson/dtoa.c:4201-4268 | the nest of stopping tests makes a sound choice among next digit, keep and round up |
| FreeDigits.TimesTen | 3rd/lua-cjson/dtoa.c:4275-4281 | remainder and gaps grow tenfold, the two gaps staying one object when they were |
| FreeDigits.AtMost17 | 3rd/lua-cjson/dtoa.c:4196-4282 | an 18th digit is never needed: the gaps outgrow S |
| FreeDigits.Turn | 3rd/lua-cjson/dtoa.c:4196-4282 | one turn of the loop either ends with shortest digits or keeps the loop invariant |
| FreeDigits.FreeFormat | 3rd/lua-cjson/dtoa.c:4196-4282 | the loop ends within 17 digits; they lie in the interval, end points only when closed, with nonzero first and last digit, and no shorter decimal lies in it |
| DigitBuffer.RoundOff | 3rd/lua-cjson/dtoa.c:4313-4322 | the 9-carry loop is decimal increment of the digits in place; all nines become 1 with the exponent raised |
| DigitBuffer.TrimZeros | 3rd/lua-cjson/dtoa.c:4323-4329 | exactly the trailing zeros are dropped |
| FixedDigits.HalfEvenUnique | 3rd/lua-cjson/dtoa.c:4306-4312 | half-even rounding has one result |
| FixedDigits.FixedTurn | 3rd/lua-cjson/dtoa.c:4285-4296 | each digit keeps the exact remainder; the loop stops early only on a zero remainder |
| FixedDigits.FixedFormat | 3rd/lua-cjson/dtoa.c:4284-4329 | the digits are b / S rounded half-even to ilim significant digits, trailing zeros dropped, the exponent raised on all nines |
| ShortestDigits.ReadsAsIff | 3rd/lua-cjson/dtoa.c:3169-3320 | reading as n means lying between the half-way points around n, which belong to n exactly when it is even |
| ShortestDigits.HasIffReads | 3rd/lua-cjson/dtoa.c:4181-4282 | a grid point is in the scaled interval if and only if its value reads back as the double |
| ShortestDigits.DescribesProper | 3rd/lua-cjson/dtoa.c:4181-4194 | the scaled integers of a double always meet what the digit loop needs |
| ShortestDigits.DtoaShortest | 3rd/lua-cjson/dtoa.c:4084-4330 | mode 0: at most 17 digits that read back as the double, no decimal of fewer digits does, and of those with the same last place none is closer to it |
| PreciseDigits.HalfEvenReal | 3rd/lua-cjson/dtoa.c:4306-4312 | integer half-even rounding of b / S is rounding the double on its decimal grid |
| PreciseDigits.DtoaPrecise | 3rd/lua-cjson/dtoa.c:4084-4330 | mode 2: the double correctly rounded, ties to even, to the requested significant digits |
| Scanner.S2b | 3rd/lua-cjson/dtoa.c:669-705 | the Bigint is exactly the integer of the nd counted digits, skipping the point |
| Scanner.MoreDigits | 3rd/lua-cjson/dtoa.c:696-703 | both digit loops append the next counted digits |
| Scanner.IntegerDigits | 3rd/lua-cjson/dtoa.c:2560-2565 | all digits before the point are counted, the first nine gathered in y, the next seven in z |
| Scanner.FractionDigits | 3rd/lua-cjson/dtoa.c:2603-2622 | the digits counted are those up to the last nonzero one, deferred zeros included; nf is how far the point moved |
| Scanner.CountZeros | 3rd/lua-cjson/dtoa.c:2609-2613 | deferred zeros enter the count and y when a nonzero digit follows |
| ScanNumber.ExponentValue | 3rd/lua-cjson/dtoa.c:2636-2652 | the exponent digits as a number, capped at 19999 |
| ScanNumber.ScanExponent | 3rd/lua-cjson/dtoa.c:2625-2659 | an exponent part is taken whole or, without digits, not at all, its value capped at 19999 on either side; `Strtod.ReadNumber` says what that does to the number read |
| ScanNumber.ScanMantissa | 3rd/lua-cjson/dtoa.c:2548-2622 | the counted digits have no leading zero, nz1 trailing zeros, and times a power of ten are the digits before and after the point |
| ScanNumber.DropZeros | 3rd/lua-cjson/dtoa.c:2548-2622 | leading zeros add nothing to a number, trailing ones a power of ten |
| ScanNumber.Scan | 3rd/lua-cjson/dtoa.c:2517-2662 | on every input the scanner finds what a greedy reading of the grammar finds: sign, digits, exponent, end, zero, where hexadecimal digits start, or nothing |
| DecimalTexts.ScientificRead | 3rd/lua-cjson/dtoa.c:2519-2659 | on texts: any blanks, a sign or none, digits with a point among them or not, e or E, a sign or none and digits are read as exactly that number and taken to their end |
| DecimalTexts.PlainRead | 3rd/lua-cjson/dtoa.c:2519-2659 | the same without an exponent, an e that no digits follow being left unread |
| DecimalTexts.HexStart | 3rd/lua-cjson/dtoa.c:2533-2546 | 0x or 0X after blanks and a sign starts a hexadecimal number |
| DecimalTexts.NothingRead | 3rd/lua-cjson/dtoa.c:2624-2697 | a text with no digit where one is due is no number |
| ScanNumber.ScannedValue | 3rd/lua-cjson/dtoa.c:2644-2697 | the counted digits times 10^(e - nf) are the number denoted if and only if its exponent lies from -19999 to 19999; no counted digit means zero |
| ScanNumber.ReadDecimal | 3rd/lua-cjson/dtoa.c:2517-2662 | scanner and s2b together, on all the digits: the Bigint times 10^e is the number read if and only if its exponent lies from -19999 to 19999 |
| ScaledDoubles.UnscaledMagnitude | 3rd/lua-cjson/dtoa.c:3520-3523 | dividing the held words by 2^scale at the end is exact, tiny numbers included |
| ScaledDoubles.UnscaledGap | 3rd/lua-cjson/dtoa.c:2993-3008 | which unit the number held has, and when its lower neighbour is nearer |
| ScaledDoubles.PlaceUp | 3rd/lua-cjson/dtoa.c:2243-2264 | one unit of the true last place more is the next double, a carry into the exponent included |
| ScaledDoubles.PlaceBelow | 3rd/lua-cjson/dtoa.c:3266-3269 | below a power of two of a higher binade the words are all ones |
| ScaledDoubles.OddPlace | 3rd/lua-cjson/dtoa.c:2993-3008 | Lsb and Lsb1 test the last place of the number held, at every scaled exponent |
| ScaledDoubles.OddByField | 3rd/lua-cjson/dtoa.c:2451-2459 | the test of bigcomp agrees with it, down to the smallest double |
| ScaledDoubles.AddPlace | 3rd/lua-cjson/dtoa.c:3293-3297 | rv += sulp is the next double of the number held |
| ScaledDoubles.SubPlace | 3rd/lua-cjson/dtoa.c:3299-3306 | rv -= sulp is the previous one |
| Correction.CorrectionPowers | 3rd/lua-cjson/dtoa.c:2976-3037 | decimal, approximation and half unit are scaled by one common factor, the half unit being that of the number held |
| Correction.Measure | 3rd/lua-cjson/dtoa.c:2970-3055 | i and dsign tell exactly how the decimal lies from the number held, against half its unit |
| Correction.Ulp | 3rd/lua-cjson/dtoa.c:1161-1200 | the gap above the double for exponent fields above 52; below them no gap at all, but zero or a negative number |
| Correction.CommonFactor | 3rd/lua-cjson/dtoa.c:2970-3051 | the three integers are proportional to the three real quantities |
| Correction.ProportionalCompare | 3rd/lua-cjson/dtoa.c:3052-3055 | comparing delta with bs compares the error with half a unit, and dsign says that the approximation is low |
| Correction.Operands | 3rd/lua-cjson/dtoa.c:3038-3051 | the scaled integers are what the exponents say |
| Correction.ReadsLower | 3rd/lua-cjson/dtoa.c:3195-3197 | below the lower half-way point of a power of two, the predecessor is nearest |
| Correction.ReadsUpper | 3rd/lua-cjson/dtoa.c:3202-3224 | beyond the upper half-way point the successor is nearest, infinity included |
| Correction.DropDown | 3rd/lua-cjson/dtoa.c:3227-3269 | the words of the largest number of the next lower binade |
| Correction.AllOnes | 3rd/lua-cjson/dtoa.c:3202-3210 | the boundary test finds exactly the significands whose next number starts a binade, as long as at most 32 bits are to spare, and with 32 only if the shift gives zero; the others are left to the parity test |
| Correction.NextBinade | 3rd/lua-cjson/dtoa.c:3211-3224 | the exponent goes up to the nearest even double, or past the largest one into overflow |
| Correction.LowerBinade | 3rd/lua-cjson/dtoa.c:3227-3269 | half way below a power of two: the lower binade, the even power of two among tiny numbers, or zero below the smallest double |
| Correction.HalfWay | 3rd/lua-cjson/dtoa.c:3200-3321 | the exact half-way exit leaves the even neighbour at every scale, with overflow, underflow and exponent changes |
| Correction.Exits | 3rd/lua-cjson/dtoa.c:3169-3321 | both exits leave the nearest double, ties to even, including the drop below a power of two |
| Unscaling.UpExact | 3rd/lua-cjson/dtoa.c:3520-3523 | what the exits leave unscales without rounding: the next number up |
| Unscaling.DownExact | 3rd/lua-cjson/dtoa.c:3520-3523 | and the next number down |
| Ratios.B2d | 3rd/lua-cjson/dtoa.c:1203-1270 | the double in [1, 2) that has exactly the leading 53 bits of the number, with the bit count |
| Ratios.BigRatio | 3rd/lua-cjson/dtoa.c:1405-1445 | ratio is the quotient of the two numbers up to 2^-48 of it |
| Refinement.StepTop | 3rd/lua-cjson/dtoa.c:3370-3385 | in the top binade the sum is formed 53 binades lower and rounds as it would at its place; from half a unit past the largest double it is overflow |
| Refinement.StepTiny | 3rd/lua-cjson/dtoa.c:3388-3409 | with bits to spare the step is by whole units of the true last place, at least one, and ends at zero exactly when all units are taken |
| Refinement.StepPlain | 3rd/lua-cjson/dtoa.c:3411-3414 | elsewhere the sum is the rounding of the true sum, at either scale |
| Refinement.Step | 3rd/lua-cjson/dtoa.c:3322-3414 | the step by one unit or half the ratio, in whichever of the three ways, half a unit down from a power of two |
| Refinement.StepCloser | 3rd/lua-cjson/dtoa.c:3322-3505 | every step brings the approximation into the next of three distances, the last of which ends the loop; zero and overflow come only where the decimal is beyond them |
| CorrectionLoop.Adjust | 3rd/lua-cjson/dtoa.c:3322-3414 | ratio and step together keep what the loop needs for the next pass |
| CorrectionLoop.StopReads | 3rd/lua-cjson/dtoa.c:3472-3482 | when the tolerances let the loop stop early the new approximation is already the nearest double |
| CorrectionLoop.Stops | 3rd/lua-cjson/dtoa.c:3465-3483 | and the code stops only then |
| CorrectionLoop.CorrectWhole | 3rd/lua-cjson/dtoa.c:2970-3495 | for digits that are not cut the loop ends, from every approximation the code starts with, and leaves the nearest double, zero or overflow |
| BigcompDigits.CompareOne | 3rd/lua-cjson/dtoa.c:2379-2389 | one digit either decides the comparison or extends the agreement |
| BigcompDigits.CompareDigits | 3rd/lua-cjson/dtoa.c:2377-2402 | dd has the sign of the digits minus b / d, except zero where b / d ends one digit after the string |
| BigcompDigits.Differ | 3rd/lua-cjson/dtoa.c:2380-2381 | the first differing digit decides |
| BigcompDigits.Exhausted | 3rd/lua-cjson/dtoa.c:2401-2402 | with all digits equal the verdict depends on the remainder only |
| BigcompDigits.VerdictExact | 3rd/lua-cjson/dtoa.c:2401-2402 | the verdict of the loops is the true sign if and only if no further digit of 1 to 9 makes the string exactly b / d |
| Midpoint.HalfWayNumber | 3rd/lua-cjson/dtoa.c:2306-2342 | b * 2^p2 is the half-way point above the number held, subnormal ones included |
| Midpoint.MidQuotient | 3rd/lua-cjson/dtoa.c:2346-2366 | b / d is the half-way point over 10^p5, with d aligned |
| Midpoint.FirstDigitRange | 3rd/lua-cjson/dtoa.c:2372-2375 | the first quotient digit is not zero and the quotient fits quorem |
| Midpoint.ShortIff | 3rd/lua-cjson/dtoa.c:2401-2402 | the flawed case in real terms: the half-way point is the input with one more nonzero digit |
| Midpoint.Bigcomp | 3rd/lua-cjson/dtoa.c:2262-2466 | the result is one of the two neighbours, and the nearest one if and only if not (lower one odd and input one digit short of the half-way point) |
| BigcompInstance.JustBelow | 3rd/lua-cjson/dtoa.c:2401-2402 | 53 digits that lie between 1 + 2^-52 and the next double, one digit short of the half-way point |
| BigcompInstance.WrongNeighbour | 3rd/lua-cjson/dtoa.c:2401-2466 | on them bigcomp returns the upper neighbour, which they do not read as |
| LongDecimals.CutZeros | 3rd/lua-cjson/dtoa.c:2945-2955 | the loop over the first 18 digits, across the point, leaves those up to the last nonzero one |
| LongDecimals.Truncate | 3rd/lua-cjson/dtoa.c:2941-2966 | digits, exponent and y for the cut string, y computed again when fewer than nine digits are left |
| LongDecimals.PrefixBounds | 3rd/lua-cjson/dtoa.c:2941-2966 | the cut string is below the decimal by less than a unit of its last place, and equal only if zeros were cut |
| LongDecimals.KeepReads | 3rd/lua-cjson/dtoa.c:3057-3072 | an approximation kept for the cut string is the nearest double for the whole one |
| LongDecimals.CompareBetween | 3rd/lua-cjson/dtoa.c:3057-3061 | when bigcomp is called, the whole decimal lies between the approximation and the next double, and the cut one not above the half-way point |
| LongDecimals.FlawedHere | 3rd/lua-cjson/dtoa.c:2401-2402 | the flaw of bigcomp is a property of the decimal: at most the double below it can be concerned |
| LongDecimals.CutExits | 3rd/lua-cjson/dtoa.c:3057-3274 | the exits taken when digits were cut: keep the approximation, call bigcomp, or drop to the lower binade, exactly as the cut decimal lies |
| LongDecimals.GoneAnswers | 3rd/lua-cjson/dtoa.c:3400-3409 | a step to zero on cut digits is right if and only if the whole decimal is at most 2^-1075 |
| LongDecimals.CorrectCut | 3rd/lua-cjson/dtoa.c:2970-3507 | the loop on cut digits ends in all its ways - kept, corrected by bigcomp, overflow, zero - with the nearest double to the whole decimal if and only if it neither vanishes by the cut nor meets the flaw of bigcomp |
| LongDecimals.CorrectFrom | 3rd/lua-cjson/dtoa.c:2936-3507 | for every scanned decimal, long or short: the loop ends with the nearest double if and only if the decimal is not misjudged |
| GrowingPowers.HeadDouble | 3rd/lua-cjson/dtoa.c:2706-2714 | the first sixteen digits as a double, exact below 2^53 and rounded once otherwise |
| StartingPoint.Shortcut | 3rd/lua-cjson/dtoa.c:2716-2787 | up to fifteen digits and an exact power of ten: one rounding gives the nearest double |
| GrowingPowers.BigTens | 3rd/lua-cjson/dtoa.c:2857-2860 | the loop over the bits of the exponent stays near the exact power |
| GrowingPowers.LastBig | 3rd/lua-cjson/dtoa.c:2861-2875 | the last factor, multiplied 53 binades lower, tells overflow from the largest double |
| GrowingPowers.Grow | 3rd/lua-cjson/dtoa.c:2812-2876 | for a positive exponent the first approximation is a few million units off at most, or overflow is right |
| ShrinkingPowers.TinyTens | 3rd/lua-cjson/dtoa.c:2887-2889 | the loop over tinytens is near the product held 2^106 times too large, or below a quarter of the smallest double |
| ShrinkingPowers.ClearWords | 3rd/lua-cjson/dtoa.c:2890-2904 | the bits below the true last place are cleared, the smallest double being the least left, and no bit of a normal number |
| ShrinkingPowers.ClearLow | 3rd/lua-cjson/dtoa.c:2890-2920 | what is left can be started from, or zero is right |
| SmallestNormals.HeadsBelow | 3rd/lua-cjson/dtoa.c:2877-2904 | only heads that make 2225073858507201 or less times 10^-323 come near 2^-1022 from below |
| ShrinkingPowers.EdgeSafe | 3rd/lua-cjson/dtoa.c:2877-2904 | and the rounded products keep these below it: a number below the smallest normal one is never approximated from above it |
| ShrinkingPowers.Shrink | 3rd/lua-cjson/dtoa.c:2877-2930 | for a negative exponent the first approximation is near, whole in its true last place, and on its side of 2^-1022, or zero is right |
| StartingPoint.Multiplied | 3rd/lua-cjson/dtoa.c:2788-2930 | the first approximation for every exponent |
| StartingPoint.Begin | 3rd/lua-cjson/dtoa.c:2706-2931 | everything before the loop: the nearest double by the shortcut, overflow or zero where they are right, or an approximation the loop can start from |
| Strtod.CorrectDigits | 3rd/lua-cjson/dtoa.c:2706-3507 | from the scanned digits on, with no approximation given |
| Strtod.Finish | 3rd/lua-cjson/dtoa.c:3519-3523 | the multiplication by 2^-106 at the end loses nothing |
| Strtod.ReadNumber | 3rd/lua-cjson/dtoa.c:2517-3545 | for every text: end and sign of the greedy reading; the nearest double to the counted digits times 10^e if and only if they are not misjudged, these being the number denoted if and only if its exponent lies from -19999 to 19999; beyond that, with at most 19500 digits on each side of the point, infinity above and zero below, which is right; every number of at most 40 digits is read as the nearest double; hexadecimal literals as gethex reads them |
| Strtod.NumberRead | 3rd/lua-cjson/dtoa.c:2644-2697 | what the result is to the number denoted, with the exponent inside and outside the cap, up to 19500 digits on each side of the point |
| Strtod.CappedSmall | 3rd/lua-cjson/dtoa.c:2644-2653 | an exponent below -19999: both the number and what is scanned read as zero, as long as at most 19500 digits stand before the point |
| Strtod.CappedBig | 3rd/lua-cjson/dtoa.c:2644-2653 | an exponent above 19999: both read as infinity, as long as at most 19500 digits follow the point |
| Strtod.FortyDigits | 3rd/lua-cjson/dtoa.c:2941-2966 | with at most 40 digits the result is the double nearest to the number denoted, whatever the exponent |
| NumberRoundTrips.FewNotMisjudged | 3rd/lua-cjson/dtoa.c:2941-2966 | a number of at most 18 significant digits is never misjudged, with however many zeros it is written |
| NumberRoundTrips.ReadShortest | 3rd/lua-cjson/dtoa.c:2517-4330 | any text that denotes the shortest digits of a double is read as that double, to its end |
| MisreadTexts.WrongRead | 3rd/lua-cjson/dtoa.c:2401-2402 | the text 10000000000000003330669073875469621270895004272460937e-52 is read as another double than the nearest |
| MisreadTexts.WrongZero | 3rd/lua-cjson/dtoa.c:3400-3409 | the text 247032822920623272088284396434110686182529902e-368 reads as the smallest double and does not come out as it |
| MisreadTexts.CappedExponent | 3rd/lua-cjson/dtoa.c:2644-2650 | a text with 20000 zeros that denotes 1 is scanned as 10^-2 |
| HexDigits.HexToBigint | 3rd/lua-cjson/dtoa.c:1922-1951 | digits packed from the last one back, points skipped, give exactly the hexadecimal integer, within the room allocated |
| HexFloat.LostOf | 3rd/lua-cjson/dtoa.c:1956-1967 | lostbits tells whether the part shifted out is zero, below, at or above half a unit |
| HexFloat.Normalize | 3rd/lua-cjson/dtoa.c:1951-1975 | exactly 53 bits remain, and the number lies between two units on the side lostbits tells |
| HexFloat.RoundUp | 3rd/lua-cjson/dtoa.c:2043-2060 | the increment moves to the next double, a carry out of 53 bits going into the exponent |
| HexFloat.RoundedReads | 3rd/lua-cjson/dtoa.c:2026-2068 | the rounded pattern is the nearest double, ties to even |
| HexRounding.SubnormalReads | 3rd/lua-cjson/dtoa.c:2007-2031 | rounding what is left after the second shift gives the nearest subnormal |
| HexRounding.SubnormalWords | 3rd/lua-cjson/dtoa.c:2061-2068 | the words of a subnormal; a carry into the exponent is lost |
| HexRounding.SubnormalMissed | 3rd/lua-cjson/dtoa.c:2061-2068 | exactly the numbers that round up to 2^-1022 come out wrong |
| HexRounding.VanishingMissed | 3rd/lua-cjson/dtoa.c:1990-2006 | of the numbers shifted out whole, exactly those less than 2^-1127 above 2^-1075 come out wrong |
| HexRounding.Denormalize | 3rd/lua-cjson/dtoa.c:1988-2031 | the branch for tiny numbers: nearest double if and only if not missed |
| HexRounding.RoundHex | 3rd/lua-cjson/dtoa.c:1951-2068 | for every positive number: the nearest double or infinity if and only if it is in none of the three ranges missed |
| HexFloat.BeyondRange | 3rd/lua-cjson/dtoa.c:1976-1986 | everything from 2^1024 on should read as infinity |
| HexDigits.HexToDouble | 3rd/lua-cjson/dtoa.c:1922-2068 | digits and exponent to the nearest double or infinity, if and only if the number is not missed |
| HexLiterals.ScanDigits | 3rd/lua-cjson/dtoa.c:1797-1847 | leading zeros, point and digits on every input: where the counted digits are, what the point takes off the exponent, whether all are zero and whether there is any |
| HexLiterals.PowerDigits | 3rd/lua-cjson/dtoa.c:1862-1872 | the exponent digits as a number, with big set exactly from 10 * 2^27 on |
| HexLiterals.ScanPower | 3rd/lua-cjson/dtoa.c:1848-1874 | the binary exponent is taken whole or, without a digit, not at all; `HexLiterals.LiteralRead` says what it is worth |
| HexLiterals.GetHex | 3rd/lua-cjson/dtoa.c:1797-2068 | from the text on: where reading ends, and the nearest double, zero or infinity to the number denoted if and only if the literal is not one of those missed; `HexLiterals.LiteralRead` and `WholeRead` say what number a text denotes |
| HexLiterals.LiteralRead | 3rd/lua-cjson/dtoa.c:1830-1874 | on texts: hexadecimal digits with a point among them or not, p or P, a sign or none and decimal digits denote the digits times 16 to minus the places after the point times 2 to the signed exponent |
| HexLiterals.WholeRead | 3rd/lua-cjson/dtoa.c:1830-1874 | the same without an exponent, a p that no digits follow being left unread |
| HexLiterals.PowerScales | 3rd/lua-cjson/dtoa.c:1853-1873 | p- and digits divide the number before them by that power of two, p+ and p without a sign multiply it |
| HexLiterals.FewDigits | 3rd/lua-cjson/dtoa.c:1866-1907 | with fewer than 2^28 digits an exponent that is too large to count is never read wrong |
| HexLiterals.OverflowMissed | 3rd/lua-cjson/dtoa.c:1976-1986 | the text 0x1.8p1024 does not come out as infinity |
| HexDigits.CarryInput | 3rd/lua-cjson/dtoa.c:2065 | 0x0.fffffffffffff8p-1022 is missed |
| HexDigits.TinyInput | 3rd/lua-cjson/dtoa.c:1990-2006 | 0x1.00000000000001p-1075 is missed |
| ReadBack.BigcompInput | 3rd/lua-cjson/dtoa.c:2936-3500 | the scanner's digits without their nz1 trailing zeros meet what bigcomp needs and keep the value |
| GFmt.PutExponent | 3rd/lua-cjson/g_fmt.c:70-85 | the two loops write the decimal digits of the exponent, at least two and no superfluous zero |
| GFmt.ExponentStep | 3rd/lua-cjson/g_fmt.c:77-84 | each turn takes the top digit and keeps the rest |
| GFmt.PutPlain | 3rd/lua-cjson/g_fmt.c:95-104 | the point goes in after decpt digits, or zeros fill up to it |
| GFmt.Format | 3rd/lua-cjson/g_fmt.c:51-110 | the buffer holds the sign and the layout chosen by decpt and precision, NUL after it, inside 32 bytes |
| GFmt.PartsValue | 3rd/lua-cjson/g_fmt.c:61-104 | every layout denotes exactly 0.digits * 10^decpt |
| GFmt.FormatIsJson | 3rd/lua-cjson/g_fmt.c:51-110 | the text matches the number grammar of section 2.4 of RFC 4627 |
| GFmt.FormatLength | 3rd/lua-cjson/g_fmt.c:51-110 | the text is at most precision + 7 bytes, 21 for the default precision 14 |
| GFmt.FormatRescans | 3rd/lua-cjson/dtoa.c:2517-2662 | scanning the text, whatever follows it that no number goes on with, gives the sign and the parts it was made of |
| GFmt.FormatRoundTrip | 3rd/lua-cjson/g_fmt.c:51-110 | formatting and scanning again recovers the same decimal |
| FormatDoubles.FormatDouble | 3rd/lua-cjson/g_fmt.c:51-110 | dtoa and layout together: the text of every finite double is a JSON number, is read as a whole with its sign, denotes the double rounded half even to the precision, has an exponent exactly below 10^-4 and from 10^precision on, and has no superfluous zero or digit |
| FormatDoubles.ExponentChosen | 3rd/lua-cjson/g_fmt.c:61-85 | an exponent is written if and only if the value is below 10^-4 or at least 10^precision |
| FormatDoubles.TextShaped | 3rd/lua-cjson/g_fmt.c:51-110 | with an exponent: one digit before the point, no zero at the end, a sign and at least two exponent digits; without: the digits before the point start with no zero unless it stands alone, and those after it end in none |
| FormatDoubles.DecimalSurvives | 3rd/lua-cjson/g_fmt.c:51-110 | a decimal of at most 15 significant digits, not more than the precision, that reads as a normalized double is exactly what that double is printed as |
| FormatDoubles.ExponentRange | 3rd/lua-cjson/g_fmt.c:61-85 | the decimal exponents of doubles keep to three digits |
| StrBufs.StrBuf.constructor | 3rd/lua-cjson/strbuf.c:44-66 | an empty buffer of len + 1 bytes, or the default size |
| StrBufs.StrBuf.CalculateNewSize | 3rd/lua-cjson/strbuf.c:134-159 | the new size in all three cases: exact shrink, repeated multiplication, rounding of the old size |
| StrBufs.StrBuf.Resize | 3rd/lua-cjson/strbuf.c:164-180 | reallocation keeps the contents |
| StrBufs.StrBuf.EnsureEmptyLength | 3rd/lua-cjson/strbuf.h:95-99 | afterwards there is room for len bytes and a terminator if and only if it was there, growth is exponential, or rounding the old size gives it |
| StrBufs.StrBuf.AppendString | 3rd/lua-cjson/strbuf.c:182-198 | exactly the string is appended under either growth, if one resize is enough; nothing is reallocated while the room lasts |
| StrBufs.StrBuf.AppendMem | 3rd/lua-cjson/strbuf.h:127-132 | exactly the bytes are appended under either growth, if one resize is enough |
| StrBufs.StrBuf.AppendMemUnsafe | 3rd/lua-cjson/strbuf.h:134-138 | the same without growing, given room |
| StrBufs.StrBuf.AppendCharUnsafe | 3rd/lua-cjson/strbuf.h:122-125 | one byte without growing, given room |
| StrBufs.ExponentialReaches | 3rd/lua-cjson/strbuf.c:148-151 | exponential growth reaches the request and stays below the factor times it |
| StrBufs.LinearReaches | 3rd/lua-cjson/strbuf.c:152-156 | linear growth reaches the request if and only if the next multiple of the increment from the old size does |
| StrBufs.LinearGap | 3rd/lua-cjson/strbuf.c:152-156 | a full buffer that linear growth leaves as it is |
| JsonStrings.EscapeAllLength | 3rd/lua-cjson/lua_cjson.c:473-477 | the escapes of a string take at most six bytes each |
| JsonStrings.HexDigitIff | 3rd/lua-cjson/lua_cjson.c:758-769 | a byte has the value d exactly if it is the digit at place d of 0123456789abcdef or of 0123456789ABCDEF; all others are negative |
| JsonStrings.ReadEscape | 3rd/lua-cjson/lua_cjson.c:154-191 | the escape of any byte is read back as that byte |
| JsonStrings.StringRoundTrip | 3rd/lua-cjson/lua_cjson.c:464-488 | over all byte strings, decoding an encoded string gives the original bytes and stops just past the closing quote |
| JsonStrings.StringShrinks | 3rd/lua-cjson/lua_cjson.c:904-962 | decoding never yields more bytes than it consumed less the closing quote |
| Unicode.Utf8Decodes | 3rd/lua-cjson/lua_cjson.c:794-828 | codepoint_to_utf8 writes a character that the grammar of RFC 3629 reads back as the scalar |
| Unicode.Utf8Unique | 3rd/lua-cjson/lua_cjson.c:794-828 | and it is the only byte sequence that does |
| Unicode.Hex4Iff | 3rd/lua-cjson/lua_cjson.c:771-789 | four bytes have the value n exactly if they are the base-16 digits of n, in either case |
| Unicode.UnicodeEscapeIff | 3rd/lua-cjson/lua_cjson.c:838-894 | exactly the \u escapes and surrogate pairs of scalars are accepted, each as its scalar, the escapes being spelled out in literal digits of either case |
| Unicode.ScalarsDecode | 3rd/lua-cjson/lua_cjson.c:838-962 | any sequence of scalars written as \u escapes, with digits of either case, decodes to its UTF-8 form |
| Unicode.UnpairedRejected | 3rd/lua-cjson/lua_cjson.c:858-876 | a surrogate, by its literal digits, that is not the high half of a pair is an error after any text that decodes, found where it stands |
| Unicode.Whole | 3rd/lua-cjson/lua_cjson.c:904-962 | text that decodes may precede anything: what follows is decoded the same, after its bytes |
| Unicode.ErrorPlace | 3rd/lua-cjson/lua_cjson.c:904-962 | every error is found right after text that decodes, at something that does not |
| JsonEncoder.IntegerFits | 3rd/lua-cjson/lua_cjson.c:595-598 | a 64-bit integer and its terminator fit the 32 bytes reserved |
| JsonEncoder.AppendInteger | 3rd/lua-cjson/lua_cjson.c:594-600 | exactly the decimal text is appended |
| JsonEncoder.AppendFloat | 3rd/lua-cjson/lua_cjson.c:603-634 | a finite number's text, or what the setting says for NaN and infinities, or an error |
| JsonEncoder.AppendString | 3rd/lua-cjson/lua_cjson.c:464-488 | exactly the quoted escapes are appended, every unsafe write staying inside the 6 * len + 2 bytes reserved |
| JsonEncoder.ArrayLength | 3rd/lua-cjson/lua_cjson.c:494-535 | array with its largest index, object, or excessively sparse, from the keys, huge float keys included; `JsonRoundTrip.ListedShape` says when which |
| JsonEncoder.MaxIndex | 3rd/lua-cjson/lua_cjson.c:507-517 | the largest index is an upper bound that some key attains |
| JsonEncoder.AppendData | 3rd/lua-cjson/lua_cjson.c:679-719 | the buffer grows by exactly the specified text or the specified error leaves; ends on every table graph, cyclic ones included |
| JsonEncoder.AppendArray | 3rd/lua-cjson/lua_cjson.c:567-587 | brackets, commas and elements 1 to n, nil for holes |
| JsonEncoder.AppendObject | 3rd/lua-cjson/lua_cjson.c:637-676 | braces, commas, keys and values in lua_next order; `JsonRoundTrip.ValueWritten` says what the text denotes |
| JsonEncoder.AppendKey | 3rd/lua-cjson/lua_cjson.c:653-667 | quoted numbers, strings, or the error for other keys; `JsonRoundTrip.KeyWritten` says that the text is the key's name as a JSON string and a colon |
| JsonEncoder.Encode | 3rd/lua-cjson/lua_cjson.c:722-751 | the result depends on the value alone, whatever the kept buffer held before; `JsonRoundTrip.RoundTrip` and `JsonRefusals.EncodesIff` say what it is |
| JsonParse.DepthBounded | 3rd/lua-cjson/lua_cjson.c:1145-1157 | no accepted text nests deeper than decode_max_depth |
| JsonParser.Parser.constructor | 3rd/lua-cjson/lua_cjson.c:1284-1305 | the scratch buffer has room for the whole input |
| JsonParser.Parser.ReadHex4 | 3rd/lua-cjson/lua_cjson.c:771-789 | four digits are read without passing the final NUL |
| JsonParser.Parser.AppendUnicodeEscape | 3rd/lua-cjson/lua_cjson.c:838-894 | the scalar's UTF-8 goes to the scratch buffer and the position past the escape, or nothing changes |
| JsonParser.Parser.NextChar | 3rd/lua-cjson/lua_cjson.c:919-954 | one character or escape, with the scratch buffer shorter than what was consumed |
| JsonParser.Parser.NextStringToken | 3rd/lua-cjson/lua_cjson.c:904-962 | the scratch buffer holds exactly the decoded string, and no write leaves it |
| JsonParser.Parser.IsInvalid | 3rd/lua-cjson/lua_cjson.c:979-1013 | the test for numbers that strict decoding refuses |
| JsonTokens.StrictInteger | 3rd/lua-cjson/lua_cjson.c:979-1032 | with strict decoding exactly the integers of section 2.4 of RFC 4627 that end where they end become integers, with their value clamped to 64 bits |
| JsonTokens.StrictFloat | 3rd/lua-cjson/lua_cjson.c:979-1032 | and exactly those followed by a point or an exponent letter are handed to fpconv_strtod |
| JsonFloats.StrictFloatIsNumber | 3rd/lua-cjson/lua_cjson.c:979-1032 | a float accepted by strict decoding, taken as far as fpconv_strtod reads, is a number of section 2.4 of RFC 4627 if and only if its point, if any, is followed by a digit |
| JsonFloats.NumberTaken | 3rd/lua-cjson/lua_cjson.c:979-1032 | every number of that grammar with a fraction or an exponent is accepted as a float and taken whole, whatever delimiter follows, with strict numbers or not |
| JsonFloats.FloatTaken | 3rd/lua-cjson/lua_cjson.c:979-1032 | the same by its parts, digits after the point being dispensable: one float token, with what follows left |
| JsonFloats.IntegerTaken | 3rd/lua-cjson/lua_cjson.c:979-1032 | an integer of the grammar before a delimiter is one integer token with its value clamped to 64 bits, with strict numbers or not |
| LooseNumbers.LooseTaken | 3rd/lua-cjson/lua_cjson.c:1015-1032 | by default also taken, whole, as one token: a plus sign, hexadecimal integers after 0x, octal ones after 0, read in their base and clamped; floats with a plus sign or octal digits before the point; hexadecimal floats with a point |
| LooseNumbers.LooseAt | 3rd/lua-cjson/lua_cjson.c:1015-1032 | by default, whatever becomes a number token is a number of these kinds, with the value they denote wherever a delimiter follows |
| LenientDecoding.NamesRefused | 3rd/lua-cjson/lua_cjson.c:1015-1114 | what starts with n or i, with a sign or not, is no value anywhere under any setting, null aside: NaN and Infinity are refused |
| LenientDecoding.LeadingZero | 3rd/lua-cjson/lua_cjson.c:1015-1032 | by default, decimal digits that start with 0 are refused if an 8 or 9 is among them, and otherwise read in base eight; that is the decimal number if and only if only zeros stand before the last digit |
| LenientDecoding.OctalInput | 3rd/lua-cjson/lua_cjson.c:1018 | 0123 comes out as 83 |
| LenientDecoding.HexPower | 3rd/lua-cjson/lua_cjson.c:1015-1032 | a hexadecimal number with an exponent and no point is refused under any setting |
| JsonFloats.BarePoint | 3rd/lua-cjson/lua_cjson.c:1015-1032 | 1. is accepted and is no number |
| JsonTokens.StrtollStrict | 3rd/lua-cjson/lua_cjson.c:1018 | what strict decoding lets through is read in base ten, never in base eight or sixteen |
| JsonParser.Parser.NextNumberToken | 3rd/lua-cjson/lua_cjson.c:1015-1032 | integer or float as the byte after the integer part says |
| JsonParser.Parser.NextToken | 3rd/lua-cjson/lua_cjson.c:1038-1114 | the specified token, position and scratch contents on every input, without reading past the end |
| JsonParser.Parser.ProcessValue | 3rd/lua-cjson/lua_cjson.c:1248-1278 | the specified value and position with current_depth restored, or the specified error |
| JsonParser.Parser.ParseObjectContext | 3rd/lua-cjson/lua_cjson.c:1159-1207 | the same for objects, keys being copied before the scratch buffer is reused |
| JsonParser.Parser.ParseArrayContext | 3rd/lua-cjson/lua_cjson.c:1210-1245 | the same for arrays |
| JsonParser.DecodeText | 3rd/lua-cjson/lua_cjson.c:1280-1318 | decoding any byte string ends with the specified value or error; `JsonReading.DecodeIff` and `DecodeErrors.RefusedAt` say which |
| JsonTokens.WhiteSkipped | 3rd/lua-cjson/lua_cjson.c:1038-1053 | any of space, tab, line feed and carriage return in front of a token change nothing |
| JsonTokens.OnlyWhite | 3rd/lua-cjson/lua_cjson.c:1038-1053 | and nothing else is skipped |
| JsonTexts.PiecesRead | 3rd/lua-cjson/lua_cjson.c:904-962 | every string of the grammar - plain bytes, the eight letters, \u escapes and pairs - is read as its bytes |
| JsonTexts.ReadPieces | 3rd/lua-cjson/lua_cjson.c:904-962 | and whatever is read as a string is such a text |
| JsonReading.ValueRead | 3rd/lua-cjson/lua_cjson.c:1159-1278 | every value of an independent grammar, written as a syntax tree with white space, is parsed to what it denotes, with what follows untouched, under either setting for numbers |
| JsonReading.ValueAccepted | 3rd/lua-cjson/lua_cjson.c:1159-1278 | whatever is parsed is the text of such a tree and gets what it denotes; numbers beyond the JSON grammar occur only where the setting allows them |
| JsonReading.TextDecodes | 3rd/lua-cjson/lua_cjson.c:1280-1318 | every text of a value within decode_max_depth decodes to what it denotes, under either setting for numbers |
| JsonReading.DecodesText | 3rd/lua-cjson/lua_cjson.c:1280-1318 | whatever decodes is such a text |
| JsonReading.DecodeIff | 3rd/lua-cjson/lua_cjson.c:1280-1318 | under either setting for numbers, a text decodes to t if and only if it is the text of a value of the grammar that goes with the setting, within decode_max_depth, that denotes t |
| DecodeErrors.RefusedAt | 3rd/lua-cjson/lua_cjson.c:1123-1313 | a refused text: the token complained of is the one that stands there and does not answer to what the message asks for, while what stands before it goes on to a text that decodes with each thing asked for; a complaint about nesting comes exactly one table too deep |
| DecodeErrors.ValueFails | 3rd/lua-cjson/lua_cjson.c:1159-1278 | the same inside a value |
| DecodeErrors.ErrorToken | 3rd/lua-cjson/lua_cjson.c:896-1114 | which error token: a string's own error at its place, invalid number where a minus or digit stands, otherwise an unknown token |
| JsonTokens.LexString | 3rd/lua-cjson/lua_cjson.c:1076-1078 | a written string is one token |
| JsonTokens.StrtollBack | 3rd/lua-cjson/lua_cjson.c:1015-1018 | a written 64-bit integer converts back to itself, zero through base eight included |
| JsonTokens.LexInteger | 3rd/lua-cjson/lua_cjson.c:1015-1032 | a written integer before a delimiter is one integer token, strict or not |
| JsonRoundTrip.DenseShape | 3rd/lua-cjson/lua_cjson.c:494-535 | a table with keys 1 to n is an array of n elements under every sparseness setting |
| JsonRoundTrip.ListedShape | 3rd/lua-cjson/lua_cjson.c:494-535 | a table is written as an array exactly if all its keys are positive integers without too many holes, as an object otherwise, and with too many holes as the setting says |
| JsonRoundTrip.EscapeIs | 3rd/lua-cjson/lua_cjson.c:154-191 | the eight bytes with a letter are escaped by it, other control bytes and DEL by their \u escape, all others stand for themselves |
| JsonRoundTrip.KeyWritten | 3rd/lua-cjson/lua_cjson.c:637-667 | every key that has a name is written as a JSON string of that name and a colon, integer keys as the string of their decimal text |
| JsonRoundTrip.ValueWritten | 3rd/lua-cjson/lua_cjson.c:560-719 | what the encoder writes for a value is the text of a tree of the grammar that denotes what should come back |
| JsonRoundTrip.RoundTrip | 3rd/lua-cjson/lua_cjson.c:560-1318 | every null, boolean, 64-bit integer, finite float, byte string and table - array, array with holes, object with string, integer and float keys whose names differ - within both depth limits is encoded, and decoding the text gives it back, with null in the holes and strings for number keys |
| JsonRoundTrip.SpacedTrip | 3rd/lua-cjson/lua_cjson.c:560-1318 | and the same with any white space put between the tokens of the text |
| JsonRoundTrip.NumberSpelled | 3rd/lua-cjson/lua_cjson.c:589-634 | the text of a float may be any number of the grammar: it comes back as the integer or float it denotes |
| JsonRoundTrip.SparseObject | 3rd/lua-cjson/lua_cjson.c:637-676 | a table whose only key is 1001 is written {"1001":true} under encode_sparse_array(true, 1, 1) |
| JsonRefusals.EncodesIff | 3rd/lua-cjson/lua_cjson.c:537-719 | a value is encoded if and only if no table is nested beyond encode_max_depth, no array is excessively sparse without conversion, and no refused number, key or type occurs in what is visited |
| JsonRefusals.Errors | 3rd/lua-cjson/lua_cjson.c:494-719 | which error: nesting, sparse array, type, key, NaN or infinity |
| JsonRefusals.FloatNames | 3rd/lua-cjson/lua_cjson.c:603-634 | NaN and the infinities by name, or as null, as the setting says |
| JsonRefusals.PathsBounded | 3rd/lua-cjson/lua_cjson.c:537-705 | if encoding succeeds, no chain of visited tables from the value is longer than encode_max_depth, so cyclic graphs always fail |

## Left out

- The shortcuts of `dtoa`: the estimate of the decimal exponent (dtoa.c:3780-3843), the quick floating-point path (3912-4024) and small integers (4028-4082). The digit loops start from either value the estimate may have.
- FormatDoubles.FormatDouble: the digits are those of the exact loop; that the quick path, where it does not give up, finds the same digits is not shown.
- `dtoa` modes 3 and 5 with no digits, and modes 4 and 5; mode 1 differs from mode 0 only in never closing the interval, which is a parameter of `FreeDigits.FreeFormat`.
- Refinement.Step: the test for the smallest double unscaled (dtoa.c:3326-3333) is left out; numbers below 2^-910 are always scaled.
- Bignum.LShift: a zero of no words is excluded; the loops that shift read a first word even then.
- Bignum.Diff: a zero of no words is excluded; the first borrow loop reads a first word even then.
- Midpoint.Bigcomp: the upward case only, from a number that is not zero and with the half-way point at least 10 to the place of the first digit. `LongDecimals.CorrectCut` shows that the loop never calls it otherwise; under that condition the second quotient of lines 2372-2375 is never needed.
- ScanNumber.Scan: names of infinities and NaNs (dtoa.c:2663-2690), which no JSON number reaches, come out as nothing.
- ScanNumber.ReadDecimal: puts all digits into the big integer; how more than 40 are cut first is `LongDecimals.Truncate`.
- HexRounding.RoundHex: the modes other than round to nearest are not modelled.
- HexLiterals.GetHex: the digit count times four and the exponent are added as integers, while the code adds them in 32 bits; for texts of fewer than 2^26 bytes the sums fit.
- The kernel methods allocate new objects where the C code reuses freed blocks; `Allocator.State.Balloc` shows that a reused block shares nothing with live ones. Locks are left out.
- Sizes and positions are unbounded integers: overflow of the C `int` in buffer sizes, in `strbuf_resize` and in array indices above 2^31 is not modelled. Word arithmetic in `dtoa.c` is modelled with its width.
- Lua's API, stack limits, configuration setters, `pcall` wrapping and error message texts: errors are values with the token and position. Values that cannot be encoded are one constructor.
- `strtoll`, `sprintf` and `malloc` are specifications.
- StrBufs.StrBuf.Resize: a request shorter than the contents is excluded; the code would leave a length beyond the new size.
- JsonEncoder.AppendFloat: the text that `fpconv_g_fmt` gives a finite number comes with the value; `FormatDoubles.FormatDouble` says what that text is, and `JsonRoundTrip.RoundTrip` what it is read as.
- JsonRoundTrip.RoundTrip: NaN and infinities written by name (lua_cjson.c:612-619) are not part of it; no setting of the decoder reads them back (`LenientDecoding.NamesRefused`).
- JsonParser.Parser.NextNumberToken: the value and length that `fpconv_strtod` finds are a parameter; `LooseNumbers.Reads` is what is assumed of it, and `Strtod.ReadNumber` says what it finds.
- JsonParser.Parser.IsInvalid: names of infinities and NaNs are among what it refuses; what passes is stated by `JsonTokens.StrictInteger`, `JsonTokens.StrictFloat` and `JsonFloats.StrictFloatIsNumber`.
- JsonEncoder.ArrayLength: integer keys are compared as integers, not as doubles; for float keys that are indices, the conversion to an integer is part of the key.
- `fpconv.c`, `hexnan`, the OpenSSL wrappers and the service code would add only thin wrappers.
