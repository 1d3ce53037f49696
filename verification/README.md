# Boost's CRC computers, rationals and tokenizers

The repository vendors Boost. Three of its components carry real algorithms, and this project models each of them and
proves what it is for.

**CRC computers** (`crc.hpp`). `Words` holds fixed-width registers, `Division` the theory of modulo-2 division,
`Bitwise` the bit-at-a-time loops, `Tables` the byte tables and byte-wise loops, `StrayBits` when the reflected ones are
right, `Crc` the classes `crc_basic` and `crc_optimal`, and `CrcProperties` what their users rely on. A register is W bits wide and only its `bits` low-order bits
are significant; the code never clears the others, and neither does the model.

**Exact rationals** (`rational.hpp`, `integer/common_factor_rt.hpp`). `NumberTheory` proves what is needed about greatest
common divisors, `CommonFactor` models `integer::gcd` and `integer::lcm` on signed types, `Ratios` has fractions in
lowest terms and `Rationals` the class. Every arithmetic operation on the machine type in `Rationals` requires that its
exact result fits the range -max-1..max, and division truncates toward zero; so a method without a
precondition about results cannot overflow.

**Tokenizers** (`token_functions.hpp`, `token_iterator.hpp`). `Separators` states each separator as a machine on the
text that remains and proves what its token sequences are; `Tokenizers` has the function objects and the iterator, proved
to take the steps of the machines.

Where the source updates objects, the model has classes and loops proved against functions, and the laws are proved
about those functions.

## Where the code and its documentation part

- Reflected byte tables with an order of at least 8 below the register's width: stray high bits are shifted down into
  the remainder. `StrayBits.ReflectedExactly` and `CrcProperties.SumsAgreeExactly` say exactly which parameters are
  affected; `CrcProperties.Crc12ReflectedIsWrong` gives some, with a message. All reflected types named in the header are free of this, since
  their order is 16 or 32 and `uint_t<Bits>::fast` is by default the smallest type that holds it (`integer.hpp:45-49`).
- `reflect_sub_byte` clears the bits above the word it reflects. The documentation of the classes built on it says that
  they are unchanged. They are exactly when they were zero (`Bitwise.SubByteKeepsExactly`,
  `Crc.SubByteMirrorKeepsExactly`); 0x80 is a byte that is not (`Bitwise.SubByteLosesTopBit`).
- `reset` is documented to make `get_interim_remainder` return the new value. It does so exactly when that value has no
  bits above the order (`Crc.ResetIsObserved`, `Crc.ResetDropsStrays`).
- `char_separator::reset` does nothing, so a function object that has walked a text keeps its flag set, and a second walk
  lacks its first empty field: exactly when its text begins with a delimiter (`Separators.SecondWalk`,
  `Separators.SecondWalkLosesField`). `token_iterator::tokenizer_function` hands out such an object.
- `token_iterator::equal` compares positions only, and some calls yield a token without moving. An iterator cannot be
  told from its successor exactly then (`Tokenizers.StepBeside`, `Tokenizers.BlankFieldUnseen`).
- A character that is both kept and dropped is skipped by one policy and put out by the other
  (`Separators.PoliciesAgree`).
- `integer::gcd` is undefined for the least value of the type paired with 0, -1 or itself (`CommonFactor.IntegerGcd`).
  The range stands for `int` or a wider type: a narrower one is divided as an `int`, which makes -1 harmless.
- A comment in `crc.hpp` asks to check that unaugmented and augmented division give the same table. They do
  (`Division.TableAsAugmented`).

## Model

| member | source | states |
|---|---|---|
| Division.RunIsRemainder | 3rdParty/boost/include/boost/crc.hpp:549-576 | for every divisor, start value and message, the unaugmented loop leaves r if and only if r is the remainder of M(x)x^n + Init(x)x^len divided by x^n + P(x), division being defined independently as "quotient times divisor plus remainder" over GF(2) |
| Division.DivisionUnique | 3rdParty/boost/include/boost/crc.hpp:549-576 | that division has one quotient and one remainder, so "remainder" above is well defined |
| Division.IsRemainderExactly | 3rdParty/boost/include/boost/crc.hpp:549-576 | what a remainder is, written out: the dividend is some polynomial times the divisor, plus the remainder |
| Division.ProductXor | 3rdParty/boost/include/boost/crc.hpp:549-576 | the product distributes over exclusive-or |
| Division.ProductOfPower | 3rdParty/boost/include/boost/crc.hpp:549-576 | multiplying by a power of x shifts; with distribution, the product is that of polynomials |
| Division.AugRunIsRemainder | 3rdParty/boost/include/boost/crc.hpp:668-692 | the augmented loop leaves r if and only if r is the remainder of the start value and the message, read as one polynomial |
| Division.RunLinear | 3rdParty/boost/include/boost/crc.hpp:549-576 | one run on the exclusive-or of two registers and two inputs is the exclusive-or of the two runs |
| Division.RunCancels | 3rdParty/boost/include/boost/crc.hpp:549-576 | input equal to the leading bits of the register leaves nothing but the shift |
| Division.RunByTable | 3rdParty/boost/include/boost/crc.hpp:1141-1159 | up to n input bits act as a shift and one mask that depends only on the exclusive-or of the leading bits and the input: why the byte table works |
| Division.TableLinear | 3rdParty/boost/include/boost/crc.hpp:966-985 | mask(a xor b) = mask(a) xor mask(b) |
| Division.AugmentedAgrees | 3rdParty/boost/include/boost/crc.hpp:668-692 | augmented division of a message and an n-bit field equals unaugmented division from the register advanced by n zero bits, with the field added; for a zero field the two forms agree |
| Division.TableAsAugmented | 3rdParty/boost/include/boost/crc.hpp:963-985 | the open todo: unaugmented and augmented division give the same composite mask for every dividend, in either reading of "augmented" |
| Division.InitialRemainderConverts | 3rdParty/boost/include/boost/crc.hpp:2255-2259 | the conversion of unaugmented initial remainders that the source does not provide exists for every value if and only if the divisor has a constant term |
| Division.RetreatUndoes | 3rdParty/boost/include/boost/crc.hpp:2255-2259 | for such a divisor, the register stepped back k zero bits and run forward over them is the register again |
| Division.BurstDetection | 3rdParty/boost/include/boost/crc.hpp:549-576 | if the divisor has a constant term, two messages that differ within n consecutive bits never leave equal registers, from any start and with anything around the difference; if it has none, two such messages do |
| Division.RunInjective | 3rdParty/boost/include/boost/crc.hpp:549-576 | with an odd divisor no two registers become equal under the same input |
| Bitwise.LowRegRun | 3rdParty/boost/include/boost/crc.hpp:549-576 | on a register wider than the order, the significant bits of the loop are those of exact division, whatever the uncleared bits above hold |
| Bitwise.LowAugRegRun | 3rdParty/boost/include/boost/crc.hpp:668-692 | the same for the augmented loop |
| Bitwise.ReflectUnsigned | 3rdParty/boost/include/boost/crc.hpp:383-397 | the mask loop reverses exactly the low wordLength bits and keeps the others |
| Words.ReflectInvolution | 3rdParty/boost/include/boost/crc.hpp:383-397 | reflecting twice gives the value back; the low part is the reversal, the high part is kept |
| Bitwise.MakeByteReflectionTable | 3rdParty/boost/include/boost/crc.hpp:408-419 | the table, filled by a counter that wraps to zero, holds the reversal of every byte |
| Bitwise.ReflectSubByte | 3rdParty/boost/include/boost/crc.hpp:455-456 | the n low bits reversed, and the bits above them zero |
| Bitwise.SubByteKeepsExactly | 3rdParty/boost/include/boost/crc.hpp:870-877 | the documented result, which keeps the bits above the n low ones, is the actual one if and only if those bits are clear |
| Bitwise.SubByteLosesTopBit | 3rdParty/boost/include/boost/crc.hpp:870-877 | a byte on which they differ: 0x80 with n = 4 gives 0, the documentation says 0x80 |
| Crc.SubByteMirrorKeepsExactly | 3rdParty/boost/include/boost/crc.hpp:870-877 | the same for a register passed through a byte: nothing is lost if and only if nothing lies above the order |
| Bitwise.CrcModuloWordUpdate | 3rdParty/boost/include/boost/crc.hpp:549-576 | the masked, shifting loop takes the wordLength low bits, first bit highest or lowest as the flag says, and divides them into the whole register |
| Bitwise.CrcModuloUpdate | 3rdParty/boost/include/boost/crc.hpp:614-620 | one bit is one division step |
| Bitwise.AugmentedCrcModuloWordUpdate | 3rdParty/boost/include/boost/crc.hpp:668-692 | the same for the augmented loop, whose new bit enters at the constant term |
| Tables.MakePartialXorProductsTable | 3rdParty/boost/include/boost/crc.hpp:966-985 | every dividend, at its possibly reflected index, holds the possibly reflected mask of its division |
| Tables.MessageBitAt | 3rdParty/boost/include/boost/crc.hpp:1234-1253 | the order of consumption: bit j of byte i is consumed at 8i+j, counted from the highest bit down, or from the lowest up if input is reflected |
| Tables.DirectCrcUpdate | 3rdParty/boost/include/boost/crc.hpp:1141-1159 | the loop performs one byte step, as defined by table entries, for each byte in turn |
| Tables.DirectAugmentedCrcUpdate | 3rdParty/boost/include/boost/crc.hpp:1110-1128 | the same, augmented |
| Tables.ReflectedCrcUpdate | 3rdParty/boost/include/boost/crc.hpp:1234-1253 | the same, reflected |
| Tables.ReflectedAugmentedCrcUpdate | 3rdParty/boost/include/boost/crc.hpp:1201-1220 | the same, reflected and augmented |
| Tables.DirectIsDivision | 3rdParty/boost/include/boost/crc.hpp:1141-1159 | for every order of at least 8 within any register width, every register and every byte sequence, the direct byte loops compute bit-level division on the significant bits, unaugmented and augmented |
| Tables.ReflectedIsDivision | 3rdParty/boost/include/boost/crc.hpp:1234-1253 | the reflected byte loops compute the mirror image of the division of the reflected bytes, when no stray bit lies above the order |
| Tables.ReflectedMirrorsDirect | 3rdParty/boost/include/boost/crc.hpp:1234-1253 | on mirrored contents, the reflected loop is the mirror image of the direct loop fed the reflected bytes |
| StrayBits.ReflectedExactly | 3rdParty/boost/include/boost/crc.hpp:1201-1253 | either reflected loop, unaugmented or augmented, is right for every byte sequence if and only if the register has no bits above the order and neither has the table: order equal to width, or the divisor passed with its leading 1 spelled out |
| Crc.CrcBasic.constructor | 3rdParty/boost/include/boost/crc.hpp:1554-1569 | the object starts with the initial remainder |
| Crc.CrcBasic.ProcessBit | 3rdParty/boost/include/boost/crc.hpp:1735-1744 | one division step on the register, other members untouched |
| Crc.CrcBasic.ProcessBits | 3rdParty/boost/include/boost/crc.hpp:1760-1778 | the bitLength low bits are divided in, highest first |
| Crc.CrcBasic.ProcessByte | 3rdParty/boost/include/boost/crc.hpp:1791-1800 | the byte is divided in, reflected if the parameters say so |
| Crc.CrcBasic.ProcessBlock | 3rdParty/boost/include/boost/crc.hpp:1825-1839 | the whole block is divided in, in order |
| Crc.CrcBasic.GetInterimRemainder | 3rdParty/boost/include/boost/crc.hpp:1672-1680 | the significant bits of the register, zeros above |
| Crc.CrcBasic.Checksum | 3rdParty/boost/include/boost/crc.hpp:1888-1897 | the remainder, reflected if asked for, complemented by the final mask and cut to the order |
| Crc.FinishInjective | 3rdParty/boost/include/boost/crc.hpp:1888-1897 | different remainders have different checksums |
| Crc.PossiblyReflect | 3rdParty/boost/include/boost/crc.hpp:917-919 | the reflection chosen for the order: by words above eight bits, through a byte up to eight |
| Crc.SubByteUpdate | 3rdParty/boost/include/boost/crc.hpp:1349-1362 | below order 8 each byte is divided in bit by bit, in the order the flag says |
| Crc.CrcOptimal.constructor | 3rdParty/boost/include/boost/crc.hpp:1922-1932 | the register starts as the initial remainder, reflected if input is |
| Crc.CrcOptimal.ProcessBytes | 3rdParty/boost/include/boost/crc.hpp:2088-2100 | the register becomes that of the table-driven loop for the parameters; below order 8 the reflected case mirrors before and after |
| Crc.CrcOptimal.GetInterimRemainder | 3rdParty/boost/include/boost/crc.hpp:2006-2012 | the significant bits with any reflection undone |
| Crc.CrcOptimal.Reset | 3rdParty/boost/include/boost/crc.hpp:2033-2039 | the given value, reflected if input is |
| Crc.CrcOptimal.Checksum | 3rdParty/boost/include/boost/crc.hpp:2107-2114 | one reflection, applied only when the two flags differ, gives the checksum that belongs to the unreflected remainder |
| Crc.ResetIsObserved | 3rdParty/boost/include/boost/crc.hpp:1688-1704 | after a reset to v the checksum is the one documented for v, and the interim remainder is v itself if and only if v has no bits above the order |
| Crc.ResetDropsStrays | 3rdParty/boost/include/boost/crc.hpp:1688-1704 | any single bit above the order, as in a 12-bit CRC on a 16-bit register, is a value for which the documented postcondition fails, on either computer |
| Crc.EachCall | 3rdParty/boost/include/boost/crc.hpp:1695-2100 | the effect of each of the five calls on each computer, written out |
| Crc.TableUpdateIs | 3rdParty/boost/include/boost/crc.hpp:1498-1503 | which loop runs for which order and flag |
| Crc.CallSimulates | 3rdParty/boost/include/boost/crc.hpp:1735-2100 | each call keeps the simulation: the optimal register is the basic one on the significant bits, mirrored if and only if input is reflected |
| Crc.SameChecksum | 3rdParty/boost/include/boost/crc.hpp:1735-2114 | after every history of calls on both, with parameters and reset values free of stray bits, crc_optimal and crc_basic hold the same remainder and return the same checksum |
| CrcProperties.Lockstep | 3rdParty/boost/include/boost/crc.hpp:1735-2114 | under the same condition, two objects driven side by side through any history return equal checksums and equal interim remainders |
| CrcProperties.HistoryIsRemainder | 3rdParty/boost/include/boost/crc.hpp:1695-2114 | after every history of calls r gives the checksum of crc_basic if and only if r is the remainder of the bytes fed since the last reset, from the value of that reset; and crc_optimal returns the same when no stray bits are about |
| CrcProperties.AllFitExactly | 3rdParty/boost/include/boost/crc.hpp:1695-1725 | what that condition asks of a history: nothing unless input is reflected and the order is above 8, and then no bits above the order in the initial value and the reset values |
| CrcProperties.OneShot | 3rdParty/boost/include/boost/crc.hpp:2216-2230 | the checksum of one sequence is that of a history with one call, on each computer |
| CrcProperties.ComputeCrc | 3rdParty/boost/include/boost/crc.hpp:2216-2230 | the function template returns the table-driven checksum of the buffer |
| CrcProperties.SumsAgreeExactly | 3rdParty/boost/include/boost/crc.hpp:1888-2114 | for every width, order and flag combination: the two checksums agree on all messages if and only if the parameters are free of stray bits (always, when the register has the width of the divisor) |
| CrcProperties.Crc12ReflectedIsWrong | 3rdParty/boost/include/boost/crc.hpp:1234-1253 | a 12-bit reflected CRC in a 16-bit register: for the message 80 01 crc_optimal returns 0x01F and crc_basic 0x00F |
| CrcProperties.ChecksumIsRemainder | 3rdParty/boost/include/boost/crc.hpp:1888-1897 | r gives the checksum of a message if and only if r is the remainder of the message and initial value, as polynomials, by the divisor |
| CrcProperties.Resume | 3rdParty/boost/include/boost/crc.hpp:1659-1704 | under the same condition, resetting a second computer of either kind to the interim remainder and feeding it the rest gives the checksum of the whole message |
| CrcProperties.BurstsChangeChecksum | 3rdParty/boost/include/boost/crc.hpp:1888-2114 | with an odd divisor, two different messages of one length that differ within a window of Bits bits have different checksums, from crc_basic and, under the same condition, from crc_optimal |
| CrcProperties.AugmentedCrc | 3rdParty/boost/include/boost/crc.hpp:2281-2294 | the augmented function returns the plain division of the buffer into the initial remainder, cut to the order |
| CrcProperties.AugmentedIsRemainder | 3rdParty/boost/include/boost/crc.hpp:2281-2294 | for every order, start value and buffer, r is the result if and only if r is the remainder of the significant bits of the start value and the buffer, read as one polynomial |
| CrcProperties.AugmentedResumes | 3rdParty/boost/include/boost/crc.hpp:2249-2251 | a buffer read in several runs, each starting from the result of the one before, gives the result of one run |
| CrcProperties.AugmentedCheck | 3rdParty/boost/include/boost/crc.hpp:2266-2276 | with Bits/8 trailing bytes the result is zero if and only if they are the big-endian zero-start checksum of the message; with zero bytes the result is that checksum |
| CommonFactor.MakeOdd | 3rdParty/boost/include/boost/integer/common_factor_rt.hpp:129-142 | the odd part and its power of two |
| CommonFactor.MixedBinaryGcd | 3rdParty/boost/include/boost/integer/common_factor_rt.hpp:331-360 | the loop of remainders and odd parts returns the greatest common divisor, and ends |
| NumberTheory.CommonDividesGcd | 3rdParty/boost/include/boost/integer/common_factor_rt.hpp:331-360 | every common divisor divides the greatest one |
| CommonFactor.CModRange | 3rdParty/boost/include/boost/integer/common_factor_rt.hpp:444-452 | quotient and remainder truncate toward zero: the remainder is smaller than the divisor and has the sign of the dividend |
| CommonFactor.IntegerGcd | 3rdParty/boost/include/boost/integer/common_factor_rt.hpp:444-452 | on the signed range: the greatest common divisor for all arguments other than the least value of the type, and with that value undefined if and only if the other is 0, -1 or the least value too |
| CommonFactor.IntegerLcm | 3rdParty/boost/include/boost/integer/common_factor_rt.hpp:454-458 | the least common multiple, by dividing first |
| CommonFactor.LcmIsLeast | 3rdParty/boost/include/boost/integer/common_factor_rt.hpp:430-439 | gcd times lcm is the absolute product, and the lcm is a non-negative common multiple that divides every other |
| Ratios.ReducedIs | 3rdParty/boost/include/boost/rational.hpp:858-890 | full normalisation gives lowest terms, a positive denominator and the same value |
| Ratios.ReducedUnique | 3rdParty/boost/include/boost/rational.hpp:858-890 | it is the only pair that does |
| Ratios.NormalExactly | 3rdParty/boost/include/boost/rational.hpp:850-856 | the class invariant: a positive denominator, and no common factor above 1 |
| Rationals.Rational.Normalize | 3rdParty/boost/include/boost/rational.hpp:858-890 | the object becomes the normalised pair, or the call throws: exactly for a zero denominator or one that cannot be made positive, leaving the object alone |
| Ratios.SumIsReduced | 3rdParty/boost/include/boost/rational.hpp:493-510 | the argument in the comment: dividing by gcd(num, g) alone leaves the fully normalised sum |
| Ratios.ProductIsReduced | 3rdParty/boost/include/boost/rational.hpp:544-557 | removing the common factors crosswise leaves the fully normalised product |
| Ratios.OverIsReduced | 3rdParty/boost/include/boost/rational.hpp:559-586 | the same for the quotient, with one change of sign |
| Rationals.Rational.AddAssign | 3rdParty/boost/include/boost/rational.hpp:490-523 | the object becomes the normalised sum, also for x += x; nothing overflows if the two cross terms, their sum and the reduced denominator fit |
| Rationals.Rational.SubtractAssign | 3rdParty/boost/include/boost/rational.hpp:525-542 | the same for the difference |
| Rationals.Rational.MultiplyAssign | 3rdParty/boost/include/boost/rational.hpp:544-557 | the normalised product; nothing overflows if the exact result fits |
| Rationals.Rational.DivideAssign | 3rdParty/boost/include/boost/rational.hpp:559-586 | the normalised quotient; it throws exactly for a zero divisor and then changes nothing |
| Rationals.Rational.AddInteger | 3rdParty/boost/include/boost/rational.hpp:266-271 | without any gcd, the normalised sum with an integer |
| Rationals.Rational.SubtractInteger | 3rdParty/boost/include/boost/rational.hpp:272-277 | without any gcd, the normalised difference |
| Rationals.Rational.MultiplyInteger | 3rdParty/boost/include/boost/rational.hpp:278-286 | one gcd gives the normalised product; nothing overflows if the result fits |
| Rationals.Rational.DivideInteger | 3rdParty/boost/include/boost/rational.hpp:287-307 | one gcd gives the normalised quotient; it throws exactly for zero and then changes nothing |
| Rationals.Rational.Increment | 3rdParty/boost/include/boost/rational.hpp:310 | the normalised sum with 1 |
| Rationals.Rational.Decrement | 3rdParty/boost/include/boost/rational.hpp:311 | the normalised difference with 1 |
| Ratios.OperationsAreExact | 3rdParty/boost/include/boost/rational.hpp:490-586 | sum, difference, product and quotient in lowest terms carry the exact real values |
| Ratios.EachOperation | 3rdParty/boost/include/boost/rational.hpp:490-586 | the four operations with another object, written out in real arithmetic, and division by zero |
| Ratios.EachOnSelf | 3rdParty/boost/include/boost/rational.hpp:490-586 | the four with the object itself: twice the value, 0/1, the square, 1/1 (or no change at zero) |
| Ratios.EachOnWhole | 3rdParty/boost/include/boost/rational.hpp:266-311 | the six with an integer or by one, written out in real arithmetic |
| Ratios.EachMeaning | 3rdParty/boost/include/boost/rational.hpp:266-586 | all fourteen on exact values, written out |
| Ratios.HistoryOneMore | 3rdParty/boost/include/boost/rational.hpp:266-586 | a history goes one operation at a time, on the pair and on the value |
| Ratios.HistoryIsExact | 3rdParty/boost/include/boost/rational.hpp:266-586 | over every history of operations the pair stays normal, holds the exact value, and is the only normal pair that does |
| Rationals.Perform | 3rdParty/boost/include/boost/rational.hpp:266-586 | any one operation on an object, with itself as operand, an integer or another object: for each of the fourteen the exact new value, and for a throwing division no change |
| Rationals.SmallFits | 3rdParty/boost/include/boost/rational.hpp:266-586 | no operation overflows, for any signs, if all members and integers are at most b in absolute value and 2b^2 fits |
| Rationals.PerformAll | 3rdParty/boost/include/boost/rational.hpp:266-586 | an object taken through a whole history ends normal and with exactly the value that real arithmetic gives |
| Rationals.IsNormalizedExactly | 3rdParty/boost/include/boost/rational.hpp:403-409 | the check, whose inner gcd may come out negative, accepts exactly the pairs that satisfy the class invariant |
| Rationals.Rational.LessThan | 3rdParty/boost/include/boost/rational.hpp:757-840 | the two continued fractions expanded in lockstep return true if and only if num*r.den < r.num*den; the loop ends and no intermediate result overflows, for all operands |
| Rationals.Rational.LessThanInteger | 3rdParty/boost/include/boost/rational.hpp:352-368 | the floor decides the comparison with an integer |
| Rationals.Rational.EqualTo | 3rdParty/boost/include/boost/rational.hpp:842-847 | equality of members is equality of values |
| Rationals.Rational.EqualToInteger | 3rdParty/boost/include/boost/rational.hpp:374-378 | the same against an integer |
| Ratios.OrderIsTotal | 3rdParty/boost/include/boost/rational.hpp:757-847 | the comparisons are the total order of the values: irreflexive, transitive, trichotomous |
| Rationals.GcdOf | 3rdParty/boost/include/boost/rational.hpp:988-1000 | gcd of the numerators over lcm of the denominators; its construction never throws |
| Rationals.LcmOf | 3rdParty/boost/include/boost/rational.hpp:1002-1014 | the dual |
| Rationals.GcdRatioIsNormal | 3rdParty/boost/include/boost/rational.hpp:988-1014 | both pairs are in lowest terms already, and not negative |
| Rationals.GcdRatioIsGreatest | 3rdParty/boost/include/boost/rational.hpp:988-1014 | the one is the greatest rational of which both arguments are integer multiples, the other the least common integer multiple |
| Ratios.MeasuresValues | 3rdParty/boost/include/boost/rational.hpp:988-1014 | integer multiple, in that, means an integer times the real value |
| Rationals.GcdTimesLcm | 3rdParty/boost/include/boost/rational.hpp:988-1014 | their product is the absolute value of the product of the arguments |
| Tokenizers.EscapedListSeparator.DoEscape | 3rdParty/boost/include/boost/token_functions.hpp:127-151 | the four characters accepted after an escape, and the two exceptions |
| Tokenizers.EscapedListSeparator.Call | 3rdParty/boost/include/boost/token_functions.hpp:162-198 | the loop yields the field the recursive reading defines, with position, flag, partial token and exception |
| Separators.ReadingUndoesPrinting | 3rdParty/boost/include/boost/token_functions.hpp:127-198 | any list of fields, written quoted and escaped and joined by the separator, is read back exactly, also the empty list, empty fields and fields with newlines |
| Separators.PrintedAs | 3rdParty/boost/include/boost/token_functions.hpp:127-198 | how fields are written: each in quotes, with escape and quote characters escaped, joined by the separator |
| Separators.RoundTripsExactly | 3rdParty/boost/include/boost/token_functions.hpp:155-157 | with one character for each role, that holds if and only if the three are distinct and neither escape nor quote is n |
| Tokenizers.CharSeparatorFunction.FromStrings | 3rdParty/boost/include/boost/token_functions.hpp:430-444 | listed delimiters: no character classes, and the flag clear |
| Tokenizers.CharSeparatorFunction.Default | 3rdParty/boost/include/boost/token_functions.hpp:447-452 | character classes for both kinds, the dropping policy, and the flag clear |
| Tokenizers.CharSeparatorFunction.Call | 3rdParty/boost/include/boost/token_functions.hpp:459-530 | both policies and both ways of building tokens, by assignment at the end and by appending, take the same step; only an unsuccessful call can leave a different token variable |
| Tokenizers.CharSeparatorFunction.CallDropping | 3rdParty/boost/include/boost/token_functions.hpp:471-491 | the loops take the step of the dropping policy |
| Tokenizers.CharSeparatorFunction.CallKeeping | 3rdParty/boost/include/boost/token_functions.hpp:492-526 | the branches take the step of the keeping policy, and set the flag as it does |
| Separators.KeepWalk | 3rdParty/boost/include/boost/token_functions.hpp:492-526 | from either state of m_output_done the tokens are the full split at all delimiters, or that split without the field just put out |
| Separators.KeepYieldsSplit | 3rdParty/boost/include/boost/token_functions.hpp:457-526 | on non-empty text the keeping policy yields exactly the full split with kept delimiters re-inserted, if and only if the flag is clear or no delimiter comes first |
| Separators.KeepLeavesDone | 3rdParty/boost/include/boost/token_functions.hpp:492-526 | every walk of the keeping policy leaves the flag set |
| Separators.SecondWalk | 3rdParty/boost/include/boost/token_functions.hpp:457-526 | a second walk with the function object of the first yields the full split of its text if and only if that does not begin with a delimiter, or nothing was walked and the flag was clear |
| Separators.SecondWalkLosesField | 3rdParty/boost/include/boost/token_functions.hpp:457-526 | after "a", the text ",b" gives one token where a new object gives two |
| Separators.DropWalk | 3rdParty/boost/include/boost/token_functions.hpp:471-491 | the tokens of the dropping policy are the full split without its empty fields, for either state of the flag |
| Separators.DropConserves | 3rdParty/boost/include/boost/token_functions.hpp:471-491 | the tokens joined are the text without the dropped delimiters; each is one kept delimiter or a delimiter-free run, and none is empty |
| Separators.SplitConserves | 3rdParty/boost/include/boost/token_functions.hpp:492-526 | the full split conserves the text as well |
| Separators.ListedDelimiters | 3rdParty/boost/include/boost/token_functions.hpp:459-556 | with listed delimiters, the tokens of a text are those of its parts before and after any listed character, with that character between them if it is kept (when empty tokens are dropped: and not listed as dropped) |
| Separators.ListedRuns | 3rdParty/boost/include/boost/token_functions.hpp:459-556 | a text without listed characters is one token, or none if empty tokens are dropped and it is empty; with the law above this gives the tokens of every text |
| Separators.ListedConserves | 3rdParty/boost/include/boost/token_functions.hpp:459-556 | dropping empty tokens, the tokens joined are the text without the characters listed as dropped, and a listed character is in no token but the one that it is by itself |
| Separators.ClassDelimiters | 3rdParty/boost/include/boost/token_functions.hpp:459-556 | the same for the character classes of the default constructor |
| Separators.ClassRuns | 3rdParty/boost/include/boost/token_functions.hpp:459-556 | the same |
| Separators.ClassConserves | 3rdParty/boost/include/boost/token_functions.hpp:459-556 | the same |
| Separators.PoliciesAgree | 3rdParty/boost/include/boost/token_functions.hpp:471-526 | the two policies differ by empty tokens only, if and only if no character is both kept and dropped |
| Separators.Next | 3rdParty/boost/include/boost/token_functions.hpp:162-530 | every call that returns true lowers 2*remaining + (1 if the flag permits a token without input), so a walk ends although some calls take no input |
| Separators.WalkIsShort | 3rdParty/boost/include/boost/token_functions.hpp:162-530 | a walk has at most 2*length + 1 tokens |
| Separators.StaysPut | 3rdParty/boost/include/boost/token_functions.hpp:162-530 | exactly which calls return a token without taking text |
| Tokenizers.StepBeside | 3rdParty/boost/include/boost/token_iterator.hpp:53-68 | an iterator that has found its next token is equal to a copy taken before if and only if the call was one of those |
| Tokenizers.BlankFieldUnseen | 3rdParty/boost/include/boost/token_iterator.hpp:53-68 | on "a," the iterator at the token a and the one at the blank field after it are equal |
| Separators.StaleIsHarmless | 3rdParty/boost/include/boost/token_functions.hpp:279-308 | what the token variable held before a call decides nothing but what it holds at the end |
| Tokenizers.Start | 3rdParty/boost/include/boost/token_iterator.hpp:79-80 | the constructor, with the call of initialize: the first token is read, with the function object copied and reset, and an empty range gives an invalid iterator without a call |
| Tokenizers.TokenIterator.Initialize | 3rdParty/boost/include/boost/token_iterator.hpp:70-75 | the function object is reset and called once, but not on an empty range |
| Tokenizers.TokenIterator.Increment | 3rdParty/boost/include/boost/token_iterator.hpp:53-56 | one call; the iterator is valid if and only if a token was found, and stays valid when the call throws |
| Tokenizers.Collect | 3rdParty/boost/include/boost/token_iterator.hpp:53-96 | for every separator and text, the loop from begin to end ends and yields exactly the tokens of the walk, its exception, and the function object as the walk leaves it |

## Left out

- Tables.GetByteTable: builds the table anew for each update; the source keeps it in a static local. The contents are the
  same, the sharing is not modelled.
- Crc.SubByteUpdate: covers the two unaugmented loops below order 8; nothing in the header calls the two augmented ones.
- CrcProperties.AugmentedCrc: has orders of at least 8 only, since `augmented_crc` always reads the byte table, whose
  documented precondition that is.
- Crc.CrcBasic.ProcessBlock: the two pointers of a block are one sequence of bytes.
- Rationals.Rational.AddInteger: the integer operand is any number whose product and sum fit, not a separate integer type.
- Rationals.GcdOf: excludes pairs of numerators for which `integer::gcd` is undefined and an lcm out of range.
- Rationals.LcmOf: excludes numerators equal to the least value of the type, whose absolute value is undefined.
- Tokenizers.TokenIterator.Equal: iterators into different texts are told apart by position and length only.
- Constructors of `rational` from another rational or from a pair of other integer types, with their narrowing checks.
- Stream operators, `rational_cast`, unary operators, `abs`, the post-increments and the non-member mixed operators of
  `rational`: they call what is modelled.
- CommonFactor.IntegerGcd: does not model signed types narrower than `int`, for which the least value and -1 are defined.
- Unsigned and unbounded integer types for `rational`, and the gcd variants chosen for types without bit operations.
- The accessors, function-call operators and named typedefs of the CRC classes.
- `offset_separator`, which cuts at fixed lengths, and the deprecated `char_delimiters_separator`.
- The character classes of the C library are parameters, and iterators into the text are indices.
- The class `tokenizer`, which stores a range and makes iterators.
- Templates that choose types and base classes; their outcomes are parameters.
- The server and the game of the repository: sockets, signals, windows and logging.
