# Verified models of the algorithms vendored in mett-eagle

The repository bundles two libraries whose hard code is modelled here: the formatting library
(`libfmt`) and the mocking library (`libgtest`). Each model follows the branches, constants and
error conditions of its source, and each is proved against a statement of what it is for.

| file | modules | subject |
|---|---|---|
| Matching.dfy | Matching | maximum bipartite matching behind `UnorderedElementsAre` |
| Limbs.dfy, BigintLemmas.dfy, Bigint.dfy | Powers, Limbs, BigintLemmas, Bigints | numbers of many 32-bit digits with a digit exponent |
| Digits.dfy, DragonMath.dfy, Dragon.dfy, FormatDragon.dfy, DragonMeaning.dfy, DragonEstimate.dfy, DragonExamples.dfy | the same names | `format_dragon`: shortest and fixed-precision decimals, and the exponent that `format_float` estimates for it |
| TrailingZeros.dfy | TrailingZeros | `remove_trailing_zeros` by modular inverses |
| Segments.dfy | Segments | fixed-point printing and rounding of a 19-digit segment in `format_float` |
| FormatString.dfy, FormatSpecs.dfy, SpecTexts.dfy, Interpreter.dfy, FormatTexts.dfy, Compiler.dfy, CompiledTexts.dfy | Results, FormatString, FormatSpecs, SpecTexts, Interpreter, FormatTexts, Compiler, CompiledTexts | format strings: two parsers, one interpreter, one compiler, and the grammar of specifiers and of whole strings with what is written for them |
| Utf.dfy | Utf | UTF-8 decoding and conversion to and from UTF-16 and UTF-32 |
| Decimals.dfy, WriteFloat.dfy | Decimals, WriteFloat | digit counts, integer text, layout of floating-point text |
| Buffers.dfy | Buffers | truncating and counting output buffers |
| IsoWeek.dfy | IsoWeek | ISO 8601 week dates |
| Base64.dfy | Base64 | Base64 decoding |

Objects whose methods update fields are classes (`MaxBipartiteMatchState`, `Bigint`, `Buffer`); code
that loops is a method proved against a specification function; recursive compile-time code is
functions and lemmas. Numbers are unbounded, and machine widths are written out (`bigit`,
`double_bigit`, remainders, bit vectors) wherever the source relies on them.

## Where the code does not keep what it seems to promise

Each of these is proved with its exact condition, for every operand and input that the contracts
named admit, and shown on operands or inputs on which it happens. For `format_dragon` these are all
numbers with an estimate that is right or, with the fixup, one too big: the number is below
10^(exp10+1), and its upper boundary reaches 10^exp10 or 10^(exp10-1).

- `bigint::compare` is a three-way comparison of positive numbers if and only if they differ or have
  the same digit exponent; equal numbers with different exponents are told apart by their number of
  stored digits (`Bigints.CompareExactly`, `Bigints.EqualsCompareUnequal`).
- `bigint::subtract_aligned` subtracts if and only if a borrow out of the covered digits, if there is
  one, finds a nonzero digit to borrow from; otherwise the result is too big by 2^32 - 1 in the place
  of that digit (`Bigints.Bigint.SubtractAligned`, `Bigints.BorrowsFromZero`).
- `bigint::divmod_assign` is an exact division unless the dividend equals the divisor and `compare`
  does not see it, and then it changes nothing and returns 0 (`Bigints.Bigint.DivmodAssign`,
  `Bigints.DividesByItself`). A zero with as many positions as the divisor is taken for the bigger
  number, and what the first subtraction leaves holds the divisor more often than an int can count
  (`Bigints.Bigint.FirstPassFromZero`).
- The shortest form of `format_dragon` is the shortest and nearest decimal of the rounding interval,
  boundaries belonging to it for an even significand, if and only if none of the next three failures
  occurs (`FormatDragon.FormatDragon`).
- Whether the lower boundary counts is told by digit exponents: as the significand is even if the
  remainder and `lower` have the same one, always if the remainder's is bigger, never if it is
  smaller. This is wrong for the result if and only if it differs from evenness and the boundary
  itself is the decimal to choose, which a bounded number of divisions tells
  (`DragonMath.BoundaryDecides`, `DragonMath.BoundaryIsBestTest`).
  `DragonExamples.LowerBoundaryMissed` is a double whose 14-digit boundary is missed, 17 digits
  being printed; `DragonExamples.LowerNeighbour` is an odd binary128 significand, with the estimate
  of `format_float`, for which the boundary itself is printed, half way to the even neighbour below.
- The character ':' comes out instead of digits if and only if the upper boundary reaches
  10^(exp10+1), the first digit is nine, and the remainder is not seen below `lower` or is at least
  half (`Dragon.GenerateShortest`, with `Dragon.NineGrows` as the condition).
  `DragonExamples.CharacterBehindNine` is the double nearest to 10^23 with the exponent 22 and no
  fixup; with a count of digits the same call is right (`DragonExamples.TwentyOneDigits`).
- A number that is a single digit times a power of ten gets a zero behind that digit if and only if a
  zero remainder has a digit exponent above all digits of `lower`; `DragonExamples.SuperfluousDigit`
  prints 2 * 10^43 as "20" when called with the exponent 43 and no fixup.
- The form with n digits is the number rounded half to even if and only if it is not the case that
  n > 1, the scaled number is exactly one and its digit exponent is above that of the denominator; then
  the characters are "0:" and zeros (`FormatDragon.FormatDragon`; `DragonExamples.BrokenDigits` for a
  direct call).
- `format_float` estimates the exponent from the binary exponent by a floating-point product; the
  estimate is always right or one too big (`DragonEstimate.EstimateIsGood`). With it no nine grows and
  neither a zero nor a one is missed, for significands below 2^64, negative exponents and normalised
  binary128 numbers (`DragonEstimate.OnlyTheBoundaryIsMissed`), so of the failures above only that of
  the lower boundary is left.
- The first of n digits is a zero, so that there is one digit less than asked for, if and only if the
  number rounds to less than 10^exp10 (`FormatDragon.FirstDigitZero`). The fixup goes by the upper
  boundary, not by the number: 10^28 as an 80-bit long double is below 10^28, and 25 digits of it are
  "0999999999999999999973156" (`DragonExamples.LeadingZeroDigit`).
- With the fixed flag and the fixup, the result is the decimal of the requested precision nearest to
  the number if and only if the count of digits left by `adjust_precision` is not negative (and no one
  is missed). A precision that ends above all digits of the number makes it negative; zero would be
  right, but `format_dragon` then runs its loop for the shortest form, on an interval that the fixup
  has not scaled (`DragonMeaning.FixedPrecision`). With two digits behind the point 2^-40 becomes
  909494701772928237915 * 10^-33 (`DragonExamples.DigitsBeyondPrecision`).
- The 64-bit `remove_trailing_zeros` is right if and only if the number is not a multiple of 10^8 or
  is below 2^32 * 10^8; a multiple of 2^32 * 10^8 makes its loop endless
  (`TrailingZeros.RemoveTrailingZeros64`, `TrailingZeros.ZeroNeverLeaves`).
- A compiled format string writes what the interpreter refuses if and only if compilation passes a
  closing brace that no other follows, or a manually numbered field whose width or precision is
  automatic (`Compiler.CompilationPreservesMeaning`, with `Compiler.MisreadString` as the condition on
  the string; `Compiler.UnmatchedBraceCompiles`, `Compiler.AutomaticWidthCompiles`). What such a
  string writes is told as well: the brace for itself, without the character behind it, and the field
  as if its automatic ids counted from 0 (`CompiledTexts.CompiledWrites`).
- The ISO week of a date is right if and only if the year of its Thursday is not negative or it is not
  the 53rd week of that year; the remainder of a negative number truncates toward zero, so no negative
  year is seen to have 53 weeks (`IsoWeek.WeekOfThursday`, `IsoWeek.FirstFailure`).

## Model

| member | source | states |
|---|---|---|
| Matching.MatchingWithinCover | libgtest/contrib/googlemock/src/gmock-matchers.cc:62-123 | weak duality: no matching has more edges than a vertex cover has nodes |
| Matching.MaxBipartiteMatchState.TryAugment | libgtest/contrib/googlemock/src/gmock-matchers.cc:184-212 | a successful search augments the matching by exactly the start node and leaves earlier dead ends untouched; a failed one changes nothing and everything it newly saw is a dead end |
| Matching.LinkFree | libgtest/contrib/googlemock/src/gmock-matchers.cc:200-204 | linking the start to a free right node is an augmentation |
| Matching.LinkFreed | libgtest/contrib/googlemock/src/gmock-matchers.cc:200-204 | taking a right node over from its partner, once the partner has found another, is an augmentation: the arrays refer to each other again |
| Matching.MaxBipartiteMatchState.Compute | libgtest/contrib/googlemock/src/gmock-matchers.cc:132-163 | the arrays end mutually referent and the returned pairs are a matching of maximum cardinality, without duplicates |
| Matching.MaxBipartiteMatchState.MatchedPairs | libgtest/contrib/googlemock/src/gmock-matchers.cc:155-162 | the pairs are the used entries of left_, each once |
| Matching.PairsFormMatching | libgtest/contrib/googlemock/src/gmock-matchers.cc:98-110 | mutually referent arrays are a matching of the graph |
| Matching.ClosedSetCertifies | libgtest/contrib/googlemock/src/gmock-matchers.cc:132-163 | if every unused left node leads only into a closed set of seen right nodes, the matching is maximum (Konig's certificate) |
| Matching.NoLargerMatching | libgtest/contrib/googlemock/src/gmock-matchers.cc:132-163 | under that condition no matching at all is larger |
| Matching.FindMaxBipartiteMatching | libgtest/contrib/googlemock/src/gmock-matchers.cc:228-230 | for every graph the result is a maximum matching |
| Matching.SaturationIsSize | libgtest/contrib/googlemock/src/gmock-matchers.cc:437-475 | a matching saturates a side if and only if it has as many edges as the side has nodes |
| Matching.FindPairing | libgtest/contrib/googlemock/src/gmock-matchers.cc:437-475 | accepts under each combination of flags if and only if some matching leaves no matcher (superset) and no element (subset) without a partner |
| Bigints.Bigint.AssignUInt | libfmt/include/fmt/format.h:3090-3098 | the value becomes the number, in normal form |
| Bigints.Bigint.Assign | libfmt/include/fmt/format.h:3107-3113 | digits and exponent are copied, whatever they are |
| Bigints.Bigint.RemoveLeadingZeros | libfmt/include/fmt/format.h:3038-3042 | the value stays, the form becomes normal |
| Bigints.Bigint.Multiply32 | libfmt/include/fmt/format.h:3056-3066 | multiplies the value exactly, for every 32-bit factor |
| Bigints.Bigint.MultiplyWide | libfmt/include/fmt/format.h:3069-3087 | multiplies the value exactly for every 64- or 128-bit factor; the carry stays within the word |
| Bigints.WideDigit | libfmt/include/fmt/format.h:3076-3082 | one digit of the wide product: the parts fit the word, and digit and carry make up digit times factor plus the old carry |
| Bigints.Bigint.ShiftLeft | libfmt/include/fmt/format.h:3124-3137 | multiplies the value by 2^shift, whole digits going to the exponent, for every number including zero |
| Bigints.Bigint.Square | libfmt/include/fmt/format.h:3207-3233 | squares the value, zero included, by summing diagonals in a 128-bit accumulator that never overflows |
| Bigints.Bigint.AddLowDiagonal | libfmt/include/fmt/format.h:3213-3222 | the inner loop of a low digit adds exactly its diagonal |
| Bigints.Bigint.AddHighDiagonal | libfmt/include/fmt/format.h:3224-3229 | the inner loop of a high digit adds exactly its diagonal |
| BigintLemmas.DiagonalsValue | libfmt/include/fmt/format.h:3207-3233 | all diagonals together are the square of the number |
| Bigints.Bigint.AssignPow10 | libfmt/include/fmt/format.h:3188-3205 | the value becomes 10^exp by repeated squaring and one shift |
| Bigints.Bigint.TopBit | libfmt/include/fmt/format.h:3191-3195 | the bit mask is the highest power of two in the exponent |
| Bigints.Bigint.Align | libfmt/include/fmt/format.h:3237-3246 | the value stays, also of an empty number, and the digit exponent drops to the other's if that is smaller |
| Bigints.Bigint.SubtractBits | libfmt/include/fmt/format.h:3032-3036 | one digit of a subtraction with borrow in and out; other digits stay |
| Bigints.Bigint.PayBorrow | libfmt/include/fmt/format.h:3052 | the last loop works on one digit only: it takes one from it, or leaves 2^32 - 2 when it was zero |
| Bigints.Bigint.SubtractAligned | libfmt/include/fmt/format.h:3045-3054 | of a number with no smaller value or with more positions the result is the difference if and only if the borrow stops at the next digit, and otherwise exceeds it by 2^32 - 1 in that place |
| Bigints.BorrowNeverSpreads | libfmt/include/fmt/format.h:3250-3259 | for a quotient below 2^32 the borrow always stops, so division never meets that failure |
| Bigints.Bigint.DivmodAssign | libfmt/include/fmt/format.h:3250-3261 | exact quotient and remainder, except for a dividend equal to the divisor that compare does not recognise, which is left alone with quotient 0 |
| Bigints.Bigint.FirstPassFromZero | libfmt/include/fmt/format.h:3250-3261 | a zero with as many positions as the divisor becomes, after the first subtraction, more than INT_MAX times the divisor |
| Bigints.Compare | libfmt/include/fmt/format.h:3145-3159 | the result for all normal operands: the sign of the difference except for unseen equals and for zeros, which count by their positions |
| Bigints.CompareExactly | libfmt/include/fmt/format.h:3145-3159 | on positive operands compare is exact if and only if they differ or have one exponent |
| Bigints.AddCompare | libfmt/include/fmt/format.h:3161-3185 | the sign of lhs1 + lhs2 - rhs for operands of any lengths and exponents; only a zero, on either side, counts as big as its positions |
| Bigints.EqualsCompareUnequal | libfmt/include/fmt/format.h:3145-3159 | 2^32 in its two forms, [1] at exponent 1 and [0, 1] at exponent 0, compares unequal to itself |
| Bigints.DividesByItself | libfmt/include/fmt/format.h:3250-3261 | the first of them divided by the second gives 0 and changes nothing, the other way round it gives 1 |
| Bigints.BorrowsFromZero | libfmt/include/fmt/format.h:3045-3054 | 2^64 minus 1 comes out too big by (2^32 - 1) * 2^32, the digit to borrow from being zero |
| Digits.DecimalConcat | libfmt/include/fmt/format.h:3366-3398 | what digits behind others add to the number they denote |
| Digits.CarryLeft | libfmt/include/fmt/format.h:3386-3389 | moving an overflow one digit to the left keeps the number |
| DragonMath.ChoiceIsBest | libfmt/include/fmt/format.h:3347-3358 | when a boundary test stops the loop, the digit chosen is inside the interval and no candidate of that length is nearer, or as near and even |
| DragonMath.DigitTests | libfmt/include/fmt/format.h:3343-3347 | the two tests tell whether the digits so far, or one more, are inside |
| DragonMath.RoundHalfEvenIsNearest | libfmt/include/fmt/format.h:3379-3398 | the rounding reference is nearest, and even between two nearest |
| DragonMath.Window.FewestDigits | libfmt/include/fmt/format.h:3337-3364 | no number inside the interval has fewer digits than the shortest form, whatever its length and exponent |
| DragonMath.OnlyOneBest | libfmt/include/fmt/format.h:3337-3364 | an interval has only one shortest form: one number of digits and one decimal of it that is nearest, even on a tie |
| DragonMath.BoundaryDecides | libfmt/include/fmt/format.h:3343 | a shortest form that treats the lower boundary the wrong way is the right one if and only if the boundary is not itself the decimal to choose |
| DragonMath.BoundaryIsBestTest | libfmt/include/fmt/format.h:3343 | whether it is can be told from divisibility of the boundary and two comparisons at its last position and the one before, at one of a bounded number of positions |
| Dragon.DigitAndTests | libfmt/include/fmt/format.h:3342-3345 | one pass: exact digit and remainder unless an equal is not seen, and what both comparisons mean for every pair of digit exponents, including for equal numbers and for zero |
| Dragon.ShorteningPass | libfmt/include/fmt/format.h:3341-3362 | one pass keeps the digits, the remainder and both gaps in step, or ends with the final digits, whatever is missed on the way |
| Dragon.GenerateShortest | libfmt/include/fmt/format.h:3337-3364 | for every number below ten that reaches one at the next digit at the latest, the loop ends and its result is inside the interval, with the lower boundary as the digit exponents count it, shortest, and nearest among those of its length; a zero precedes it only if the interval does not reach one, and follows a single digit exactly if a zero remainder is not seen; a nine that grows is the only result that is no digit |
| Dragon.NineCannotGrow | libfmt/include/fmt/format.h:3348-3355 | with the upper boundary below ten a final nine is never incremented |
| Dragon.NextDigit | libfmt/include/fmt/format.h:3374-3378 | one digit of the fixed form with an exact remainder, or none taken off if an equal is not seen; the digit may then be ten |
| Dragon.RoundsUp | libfmt/include/fmt/format.h:3380-3381 | the rounding decision is more than half, or half after an odd digit |
| Dragon.PropagateCarry | libfmt/include/fmt/format.h:3382-3394 | the carry through the nines keeps the number, or turns it into a power of ten one digit longer |
| Dragon.GenerateFixed | libfmt/include/fmt/format.h:3366-3398 | for every number below ten exactly the requested digits of the quotient rounded half to even, including the carry out of the first digit; if before the last digit what is left is an unseen one, zeros and a ':' behind that digit |
| FormatDragon.SetUp | libfmt/include/fmt/format.h:3277-3324 | in every branch the four numbers are the value and its rounding interval over one denominator |
| FormatDragon.SetUpInteger | libfmt/include/fmt/format.h:3288-3299 | the branch for a nonnegative exponent |
| FormatDragon.SetUpFraction | libfmt/include/fmt/format.h:3300-3311 | the branch for a negative exponent and a value below one |
| FormatDragon.SetUpMixed | libfmt/include/fmt/format.h:3312-3322 | the remaining branch |
| FormatDragon.ApplyFixup | libfmt/include/fmt/format.h:3325-3335 | for every such number, afterwards it belongs to the exponent; the interval is scaled with it only if shortest digits are asked for |
| FormatDragon.GapsAreSmall | libfmt/include/fmt/format.h:3288-3324 | for every number a remainder has at most one zero digit more than the lower gap, and then both gaps are below one and the numerator has no more zero digits than the denominator |
| FormatDragon.WorkingIsManageable | libfmt/include/fmt/format.h:3325-3335 | for every number whose estimate is right, or one too big with the fixup, the loops start from a number below ten that reaches one at the next digit at the latest, with gaps of that kind, and an equal of the denominator can go unseen at the first digit only |
| FormatDragon.AdjustPrecision | libfmt/include/fmt/format.h:2908-2914 | the count of digits from the first one is precision plus exponent, refused exactly if that exceeds an int |
| FormatDragon.FormatDragon | libfmt/include/fmt/format.h:3274-3399 | every outcome is the shortest form, the rounding digit or the correctly rounded digits asked for, or the overflow error, exactly if the fixed precision and the exponent make the count of digits exceed INT_MAX; the shortest and the rounded form are right if and only if the conditions above hold |
| FormatDragon.RoomyMissesLittle | libfmt/include/fmt/format.h:3343 | for significands below 2^64, negative exponents, or exponents with room in their lowest digit, no zero and no one is missed, and the boundary counts only for even significands |
| FormatDragon.FirstDigitZero | libfmt/include/fmt/format.h:3325-3333 | the first of n digits is zero if and only if the number rounds to less than 10^exp10, which only a number below it does |
| DragonMeaning.FinalMeasures | libfmt/include/fmt/format.h:3277-3333 | the numbers the loops start from are the binary number and its two gaps in one common unit |
| DragonMeaning.ShortestForm | libfmt/include/fmt/format.h:3337-3364 | the shortest form as a real number rounds to f * 2^e, no decimal that does has fewer digits, and it is the nearest at its last position, even on a tie |
| DragonMeaning.RoundedForm | libfmt/include/fmt/format.h:3366-3398 | the fixed form as a real number is the decimal of that precision nearest to f * 2^e, ties to even, also for no digits |
| DragonMeaning.FixedPrecision | libfmt/include/fmt/format.h:3334-3398 | with the fixed flag the result is the decimal of the requested precision nearest to f * 2^e, ties to even, if and only if the count of digits is not negative and no one is missed |
| DragonMeaning.FormatDragonMeans | libfmt/include/fmt/format.h:3274-3399 | what a call yields, as real numbers: the error if and only if fixed precision plus exponent exceeds INT_MAX; otherwise, with fixed precision, the nearest decimal of that precision if and only if the count of digits is not negative and no one is missed, with a count of digits and no one missed the nearest decimal at the position of the last of them, and without a count the shortest form if none of its failures occurs |
| DragonEstimate.TensBelow | libfmt/include/fmt/format.h:3518-3519 | for all exponents of floating-point formats, what the product with inv_log2_10 says about a power of ten being below a power of two is true, with any rounding error below 2 * 10^-10 |
| DragonEstimate.TensAbove | libfmt/include/fmt/format.h:3518-3519 | and likewise for being above |
| DragonEstimate.EstimateBrackets | libfmt/include/fmt/format.h:3518-3519 | the estimate from a binary exponent m is the k with 10^(k-1) < 2^m <= 10^k, also for negative m |
| DragonEstimate.EstimateIsGood | libfmt/include/fmt/format.h:3508-3520 | the estimate of format_float is right or one too big for every number, subnormal ones included, and keeps the upper boundary below 10^(exp10+1) |
| DragonEstimate.OnlyTheBoundaryIsMissed | libfmt/include/fmt/format.h:3508-3520 | with that estimate neither a zero nor a one is missed and no nine grows, whatever the format of the number |
| DragonExamples.LowerNeighbour | libfmt/include/fmt/format.h:3343 | an odd significand of 113 bits, with the estimate of format_float, is printed as its lower boundary, which is half way to the even neighbour |
| DragonExamples.LowerBoundaryMissed | libfmt/include/fmt/format.h:3343 | a double with an even significand and a 14-digit lower boundary is printed with 17 digits |
| DragonExamples.SuperfluousDigit | libfmt/include/fmt/format.h:3343 | 2 * 10^43 as a significand of 113 bits times 2^31, called with exponent 43 and no fixup, is printed as "20" |
| DragonExamples.BrokenDigits | libfmt/include/fmt/format.h:3374-3378 | 10^31 as 5^31 * 2^31 with three digits, called with exponent 31 and no fixup, is printed as "0:0" |
| DragonExamples.DigitsBeyondPrecision | libfmt/include/fmt/format.h:3334-3337 | 2^-40 with two digits behind the point is printed with 21 digits |
| DragonExamples.CharacterBehindNine | libfmt/include/fmt/format.h:3341-3362 | the double nearest to 10^23, with exponent 22 and no fixup, is printed as ":" |
| DragonExamples.TwentyOneDigits | libfmt/include/fmt/format.h:3366-3398 | the same number to 21 digits is right |
| DragonExamples.LeadingZeroDigit | libfmt/include/fmt/format.h:3325-3333 | 25 digits of the 64-bit significand nearest to 10^28 begin with a zero |
| TrailingZeros.InverseTest | libfmt/include/fmt/format-inl.h:1141-1152 | the product with the modular inverse, rotated, is small if and only if the divisor divides, and then it is the quotient; for every word size |
| TrailingZeros.HundredTest | libfmt/include/fmt/format-inl.h:1142-1143 | the test for 100 with the constants of both word sizes |
| TrailingZeros.TenTest | libfmt/include/fmt/format-inl.h:1147-1148 | the test for 10 with the constants of both word sizes |
| TrailingZeros.Strip | libfmt/include/fmt/format-inl.h:1140-1153 | the loop ends; the number is the result times 10^s and the result does not end in zero |
| TrailingZeros.RemoveTrailingZeros32 | libfmt/include/fmt/format-inl.h:1131-1153 | all trailing zeros, and only they, are removed and counted, for every nonzero 32-bit number |
| TrailingZeros.MagicTest | libfmt/include/fmt/format-inl.h:1159-1166 | the 128-bit product tells divisibility by 10^8 and holds the quotient, for every 64-bit number |
| TrailingZeros.RemoveTrailingZeros64 | libfmt/include/fmt/format-inl.h:1156-1206 | the same for 64 bits, if and only if the number is not a multiple of 10^8 or below 2^32 * 10^8 |
| TrailingZeros.ZeroNeverLeaves | libfmt/include/fmt/format-inl.h:1172-1177 | once the truncated quotient is zero the loop changes nothing and does not stop |
| TrailingZeros.SmallestEndless | libfmt/include/fmt/format-inl.h:1166 | the smallest number for which that happens is 2^32 * 10^8 |
| Segments.FirstDigit | libfmt/include/fmt/format.h:3664 | the first magic multiplier gives a fraction that is too big by less than one unit of the subsegment |
| Segments.FirstTwoDigits | libfmt/include/fmt/format.h:3677 | the second magic multiplier does too |
| Segments.NextDigits | libfmt/include/fmt/format.h:3684-3688 | the upper half of the scaled fraction is exactly the next digits, and the lower half is again such a fraction |
| Segments.PrintSubsegment | libfmt/include/fmt/format.h:3654-3690 | exactly the first k digits of the nine-digit subsegment are written, nothing else, and the fraction left is known |
| Segments.FirstSubsegment | libfmt/include/fmt/format.h:3641-3646 | the product with ceil(2^96 / 10^10) divides by 10^10 for every number below 10^19 |
| Segments.SecondSubsegment | libfmt/include/fmt/format.h:3737-3742 | the product with ceil(2^64 / 10) divides by ten below 10^10, and the 32-bit difference is the last digit |
| Segments.HalfTests | libfmt/include/fmt/format.h:3712-3718 | the thresholds tell more than a half and the top bit at least a half of what is not printed |
| Segments.FirstDecides | libfmt/include/fmt/format.h:3692-3729 | the decision inside and at the end of the first subsegment rounds half to even |
| Segments.SecondDecides | libfmt/include/fmt/format.h:3731-3769 | the decision inside and at the end of the second subsegment rounds half to even |
| Segments.RoundUp | libfmt/include/fmt/format.h:3772-3785 | adds one in place through the nines, or reports the overflow of the first digit |
| Segments.FormatFirstSegment | libfmt/include/fmt/format.h:3615-3788 | for every precision the digits and the exponent shift are the segment, with its unseen rest, rounded half to even |
| Segments.RoundingIsExact | libfmt/include/fmt/format.h:3592-3604 | rounding from the segment and the flag for further digits gives the rounding of the number itself, whatever the further digits are, also for an appended zero |
| FormatString.ParseOnePass | libfmt/include/fmt/core.h:2500-2517 | the loop for short strings does what one recursive definition says |
| FormatString.Write | libfmt/include/fmt/core.h:2519-2534 | the writer handles a stretch without opening braces as that definition does |
| FormatString.ParseTwoPass | libfmt/include/fmt/core.h:2519-2543 | the loop built on find does what the same definition says: same fields, same text, same first error |
| FormatString.ParseFormatString | libfmt/include/fmt/core.h:2495-2543 | the choice between the loops by length never shows, for every string and handler |
| FormatString.EscapedTextParsesBack | libfmt/include/fmt/core.h:2458-2543 | any text with its braces doubled parses back to the text, with no field |
| FormatSpecs.ParseNonnegativeInt | libfmt/include/fmt/core.h:2155-2176 | despite unsigned wraparound the result is the number of the digit run, or the error value if it has too many digits or is above INT_MAX |
| FormatSpecs.RunNumberFitsInt | libfmt/include/fmt/core.h:2168-2175 | without leading zeros a run is accepted if and only if its value is at most INT_MAX |
| SpecTexts.SameClasses | libfmt/include/fmt/core.h:605-628 | the types that take a sign, that count as numbers and that have a precision, one by one, are those of the parser's sets |
| SpecTexts.SameLetters | libfmt/include/fmt/core.h:2394-2431 | the letters that each type of argument allows, listed by type, are those of the parser's table by letter |
| SpecTexts.SameCharacters | libfmt/include/fmt/core.h:2129-2192 | lengths of encodings, letters of names and digits by their codes are what the parser tests |
| SpecTexts.ReadsNumber | libfmt/include/fmt/core.h:2193-2274 | a width or precision, digits or an argument id in braces, is read whole: as its number; without an id as the next argument, refused after a numbered one; with an index as just that argument, refused after a missing id; with a name as that name |
| SpecTexts.ReadsEverySpecifier | libfmt/include/fmt/core.h:2292-2453 | every specifier built by the grammar from fill (any code point but a brace), alignment, sign, '#', '0', width, point and precision, 'L' and type that suits the argument is read up to the closing brace with exactly its meaning, or refused with just the error of the indexing mode that it violates |
| SpecTexts.ReadsOnlySentences | libfmt/include/fmt/core.h:2292-2453 | whatever is read up to a closing brace is a sentence of that grammar, with its meaning |
| SpecTexts.ReadsExactlyTheGrammar | libfmt/include/fmt/core.h:2292-2453 | so a text is read with a meaning if and only if it is a sentence with that meaning |
| SpecTexts.RefusesUnsuited | libfmt/include/fmt/core.h:2339-2431 | with which error a specifier is refused that begins with a sign, flag, zero, point or letter that the type of the argument does not admit, or with a point and nothing behind it |
| SpecTexts.ParseFormatSpecs | libfmt/include/fmt/core.h:2292-2453 | the loop ends; what it yields before a closing brace is a sentence with its meaning, and it yields that for every sentence |
| Interpreter.HandlerIsProper | libfmt/include/fmt/format.h:4562-4618 | the formatting handler concatenates text, every field moves forward, and doubled braces are text |
| Interpreter.ShortcutAgrees | libfmt/include/fmt/format.h:4557-4562 | the shortcut for "{}" does what parsing would do |
| Interpreter.EscapedTextIsWritten | libfmt/include/fmt/format.h:4553-4620 | text with doubled braces is written back, whatever the arguments |
| FormatTexts.FieldIsRead | libfmt/include/fmt/core.h:2458-2493 | a field writes the argument that its id selects, the next one, the numbered one or none, with no specifiers before a closing brace, and before a colon with just its own: the literal width and precision or the values of the arguments they refer to, fill, alignment, sign, flags and type; every error is told |
| FormatTexts.WritesEveryText | libfmt/include/fmt/format.h:4553-4620 | every string of characters, doubled braces and fields whose specifiers suit their arguments is written piece by piece, up to the first error |
| FormatTexts.AcceptsOnlyTexts | libfmt/include/fmt/format.h:4553-4620 | every string that is written at all is such a string |
| FormatTexts.LoneBraces | libfmt/include/fmt/core.h:2500-2543 | behind text that is written, a closing brace that no other follows is refused as unmatched, and an opening brace at the end as invalid |
| FormatTexts.VFormatTo | libfmt/include/fmt/format.h:4553-4620 | the result, through the shortcut and both parsers, is what the pieces of the string write, and there are such pieces if it is no error |
| Compiler.ParseText | libfmt/include/fmt/compile.h:302-308 | the text ends at the next brace or at the end |
| Compiler.ManualSpecs | libfmt/include/fmt/compile.h:336-346 | parsing specifiers with the counter at 0 instead of manual indexing gives the same, except that manual indexing refuses exactly those that use an automatic id |
| Compiler.FieldAgrees | libfmt/include/fmt/compile.h:385-411 | a compiled field and everything after it writes what the interpreter writes, which refuses it exactly if something from there on is misread |
| Compiler.StringAgrees | libfmt/include/fmt/compile.h:415-482 | so does the compiled rest of a string from any position and any counter |
| Compiler.CompilationPreservesMeaning | libfmt/include/fmt/compile.h:280-545 | whatever the interpreter accepts the compiled string writes alike, and what the compiled string writes the interpreter writes if and only if nothing in the string is misread |
| Compiler.UnmatchedBraceCompiles | libfmt/include/fmt/compile.h:468-471 | "}x" is compiled and written as "}", and refused by the interpreter |
| Compiler.AutomaticWidthCompiles | libfmt/include/fmt/compile.h:399-400 | "{0:{}}" is compiled and written with the value of argument 0 as its width and no other specifier, or the error of that width, and refused by the interpreter |
| CompiledTexts.LooseIsCompiled | libfmt/include/fmt/compile.h:385-482 | a character, a doubled or lone brace or a field, followed by anything, is compiled to write what it stands for in front of what follows, or nothing is written |
| CompiledTexts.CompiledWrites | libfmt/include/fmt/compile.h:415-545 | a string is compiled and writes a text if and only if it is made up of such pieces, the misread ones included, that write this text |
| Utf.DecodeExact | libfmt/include/fmt/format.h:672-707 | the branchless decoder reports no error if and only if the bytes start with a well-formed sequence; then it steps over it and yields the code point that encodes to it |
| Utf.FrontExact | libfmt/include/fmt/format.h:727-741 | near the end of a string the padding zeros never complete a sequence |
| Utf.PiecesPartition | libfmt/include/fmt/format.h:713-742 | every byte string is partitioned into encodings of code points and single invalid bytes |
| Utf.PiecesAreEncodings | libfmt/include/fmt/format.h:713-742 | told by encodings alone: the first piece is the code point whose encoding the string starts with, and if there is none one byte with the marker of all ones, and so on behind it |
| Utf.VisitsInOrder | libfmt/include/fmt/format.h:715-722 | the callback gets the code points and bytes of the pieces in order, each time with the state it left, up to the first stop or the end |
| Utf.ForEachCodepoint | libfmt/include/fmt/format.h:713-742 | the loop over blocks and the padded tail visit those pieces in order until the callback stops, and it ends |
| Utf.Utf8ToUtf16 | libfmt/include/fmt/format-inl.h:1408-1421 | throws if and only if the input is invalid; otherwise the units of all code points and a zero |
| Utf.Convert | libfmt/include/fmt/format.h:1450-1483 | succeeds if and only if the 16- or 32-bit units are well-formed, and appends the encodings of their code points |
| Utf.PushEncoding | libfmt/include/fmt/format.h:1461-1479 | the pushed bytes are the encoding, and exactly the code points without one are refused |
| Utf.Utf8ThroughUtf16 | libfmt/include/fmt/format.h:1445-1483 | UTF-8 to UTF-16 and back is the identity on every valid string |
| Utf.Utf16ThroughUtf8 | libfmt/include/fmt/format.h:1445-1483 | UTF-16 to UTF-8 and back is the identity on every well-formed string |
| Utf.Utf32ThroughUtf8 | libfmt/include/fmt/format.h:1445-1483 | UTF-32 is accepted if and only if all units are code points with an encoding, and nothing is lost |
| Decimals.CountDigitsFallback | libfmt/include/fmt/format.h:1185-1199 | the number of decimal digits, for every number |
| Decimals.CountDigits64 | libfmt/include/fmt/format.h:1208-1225 | the table by highest bit gives the number of decimal digits of every 64-bit number |
| Decimals.CountDigits32 | libfmt/include/fmt/format.h:1257-1276 | adding the increment carries into the upper half exactly the number of digits of every 32-bit number |
| Decimals.DigitCountIs | libfmt/include/fmt/format.h:1227-1235 | that number is the only one whose powers of ten enclose the value |
| Decimals.FormatDecimal | libfmt/include/fmt/format.h:1348-1369 | exactly the decimal digits, right-aligned in the size given, and nothing else is written |
| Decimals.WriteSignificand | libfmt/include/fmt/format.h:2598-2619 | right to left, the digits with a point behind the integral part, and nothing else |
| Decimals.DecimalRoundTrip | libfmt/include/fmt/core.h:2155-2176 | writing a number and parsing it back gives it again if and only if it is at most INT_MAX |
| WriteFloat.WriteExponent | libfmt/include/fmt/format.h:1629-1648 | a sign and two to four digits that denote the exponent |
| WriteFloat.WriteScientific | libfmt/include/fmt/format.h:2689-2715 | the exponent layout denotes the number, with the zeros asked for, in the size reserved |
| WriteFloat.WriteIntegral | libfmt/include/fmt/format.h:2717-2737 | so does the layout of whole numbers |
| WriteFloat.WriteMixed | libfmt/include/fmt/format.h:2738-2750 | so does the layout with a point inside the digits |
| WriteFloat.WriteFraction | libfmt/include/fmt/format.h:2751-2768 | so does the layout with zeros before the digits, also without digits |
| WriteFloat.ReadsBack | libfmt/include/fmt/format.h:2663-2768 | a text put together from sign, digits, point and exponent is read as exactly those parts |
| WriteFloat.DoWriteFloat | libfmt/include/fmt/format.h:2663-2768 | read as a decimal literal, the text denotes sign * significand * 10^exponent and is as long as the reserved size; it has an exponent if and only if the format is Exp, or General with a leading digit below 10^-4 or from 10^precision on (16 without one), then with one digit before the point, the mark in the case asked for and at least two digits; otherwise as many digits before the point as the number has; the sign character and the point are there exactly when asked for |
| WriteFloat.MarkShows | libfmt/include/fmt/format.h:2678-2687 | a text of either layout holds an exponent mark if and only if it is the one with an exponent |
| Buffers.Buffer.Flush | libfmt/include/fmt/core.h:983-987 | what is delivered is the first characters up to the limit; a full area gives way to the scratch buffer |
| Buffers.Buffer.Grow | libfmt/include/fmt/core.h:979-981 | there is room afterwards and nothing that was appended is lost |
| Buffers.Buffer.PushBack | libfmt/include/fmt/core.h:926-933 | one more character has been appended |
| Buffers.Buffer.Append | libfmt/include/fmt/format.h:876-888 | however many pieces it takes, it ends and all characters have been appended |
| Buffers.Buffer.Count | libfmt/include/fmt/core.h:999 | the count is that of everything ever appended, for all three buffers |
| Buffers.FormatToN | libfmt/include/fmt/core.h:1001-1045 | after any operations the area holds the first min(n, L) characters, nothing behind them is touched, and the count is L |
| Buffers.FormatToIterator | libfmt/include/fmt/core.h:968-1000 | an output iterator receives the same characters with the same count |
| Buffers.FormattedSize | libfmt/include/fmt/core.h:1083-1101 | the counting buffer reports the same count |
| IsoWeek.LongYears | libfmt/include/fmt/chrono.h:1222-1232 | the number of weeks of a year is right, 53 if and only if its first or its last day is a Thursday, exactly from year 0 on and before for years of 52 weeks |
| IsoWeek.WeekOfThursday | libfmt/include/fmt/chrono.h:1220-1249 | the week year is that of the week's Thursday and the week number the ordinal of that Thursday, for every date of every year, if and only if that year is not negative or the week is not its 53rd; what the others become is told too |
| IsoWeek.FirstFailure | libfmt/include/fmt/chrono.h:1220-1249 | the first of January of year -1 lies in week 53 of year -2 and is reported as week 52 |
| IsoWeek.WholeWeeksAgree | libfmt/include/fmt/chrono.h:1220-1249 | all seven days of a week agree, across year ends too, except exactly for the days of two years in a 53rd week that is missed |
| Base64.TableInverts | libgtest/contrib/googlemock/src/gmock-internal-utils.cc:201-220 | the table is the inverse of the alphabet and 65 everywhere else: A to Z are 0 to 25, a to z 26 to 51, 0 to 9 52 to 61, + 62 and / 63 |
| Base64.Consume | libgtest/contrib/googlemock/src/gmock-internal-utils.cc:237-245 | one value completes the byte that is due and keeps the bits that are not |
| Base64.Base64Unescape | libgtest/contrib/googlemock/src/gmock-internal-utils.cc:222-248 | over 7-bit input it fails, with nothing decoded, if and only if a character occurs that is neither blank nor has a value, and otherwise the bits of the bytes are those of the six-bit values in order, as far as they fill bytes |
| Base64.SignificantOneMore | libgtest/contrib/googlemock/src/gmock-internal-utils.cc:228-230 | skipped are exactly the codes 9 to 13, 32 and 61 |
| Base64.BytesAreTheBits | libgtest/contrib/googlemock/src/gmock-internal-utils.cc:237-245 | the bytes of any values are their bits in order, eight to a byte, the rest dropped |
| Base64.BytesOfSplit | libgtest/contrib/googlemock/src/gmock-internal-utils.cc:222-248 | the bytes of the six-bit values of any bytes are those bytes |
| Base64.EncodingShape | libgtest/contrib/googlemock/src/gmock-internal-utils.cc:222-248 | the encoding that decoding inverts carries the bits of the bytes in order, six to a character, in groups of four characters |
| Base64.DecodingInvertsEncoding | libgtest/contrib/googlemock/src/gmock-internal-utils.cc:222-248 | a text that differs from the encoding of some bytes only in white space and '=' is decoded to them |

## Left out

- FormatDragon.FormatDragon: is stated for numbers below 10^(exp10+1) whose upper boundary reaches 10^exp10, or 10^(exp10-1) with the fixup; the comment above the estimate promises that of the number itself.
- DragonEstimate.EstimateIsGood: takes the floating-point argument of `ceil` as any real number within 10^-11 of the exact product; `format_float`'s other branches, which find the exponent without an estimate, are not modelled.
- Bigints.Bigint.DivmodAssign: leaves out a quotient that does not fit an int, which includes every zero dividend with at least as many positions as the divisor, as FirstPassFromZero shows; the digit loops never have one.
- TrailingZeros.RemoveTrailingZeros64: does not run on numbers for which the loop of the source is endless.
- Compiler.CompilationPreservesMeaning: covers positional arguments; a named one is "not found" on both sides, and arguments with static or runtime names are not modelled.
- FormatTexts.VFormatTo: takes what writing a value produces as a parameter, the same for interpreted and compiled fields; formatters of user-defined types, which read the parse context, are not modelled.
- SpecTexts.ParseFormatSpecs: has no check of argument ids against INT_MAX, which the compile-time context performs and which needs 2147483647 arguments to matter.
- WriteFloat.DoWriteFloat: covers text without padding, digit grouping or a locale's decimal point, and hexadecimal floats are not modelled.
- Base64.Base64Unescape: takes 7-bit characters; a negative char would index outside the table.
- Buffers.Buffer.Append: counts in unbounded numbers, so an output of 2^64 characters is not considered.
- Segments.FormatFirstSegment: starts from the 19-digit segment; where format_float computes it from a cached power of ten is not modelled.
- Matrices with matcher explanations, printing of match results and the mock specification builders.
- Dragonbox (`to_decimal`, `shorter_interval_case`, the power caches) and Grisu (`grisu_gen_digits`), whose correctness rests on hundreds of precomputed constants.
- `divide_by_10_to_kappa_plus_1`, a single multiplication that only Dragonbox calls.
- The pointer buffer without a limit and the container buffer, which never truncate.
- Locale facets, ostream adapters, files, printf, colours, time formatting other than week dates.
- The mett-eagle manager, worker and application model, the libfaas wrappers and the benchmark client: capabilities, inter-process communication and loader classes whose headers are not part of this model.
