# Verified model of a C++ big-integer library and its vectors

This project is a Dafny model of three C++ components.

- **`big_integer`** is an arbitrary-precision signed integer (`bigint/big_integer.cpp`). It stores a sign flag and a little-endian vector of 32-bit limbs. The model covers:
  - its constructors;
  - `trim`;
  - `+ - *`;
  - one-limb division;
  - Knuth's Algorithm D for `/`, with `%` built on it;
  - the two's-complement bitwise operators `& | ^ ~`;
  - the shifts `<< >>`;
  - `== <`;
  - conversion to and from decimal strings.
- **`vector<T>`** is a growable array with explicit `size_`, `capacity_` and `data_` fields (`vector/vector.h`). It starts at capacity 10 and then doubles. It offers `push_back`, `pop_back`, `reserve`, `shrink_to_fit`, `clear`, `swap`, `insert`, single and range `erase`, copy and assignment.
- **`my_vector`** is the limb store of the optimised big integer (`bigint-optimized/my_vector.cpp`). It keeps up to four limbs inline. Past that it moves them to a heap `std::vector` held by a `shared_ptr`. Copies share that heap vector, and every writer calls `fork` first to detach it.

Files:

- `limbs.dfy`: limbs and the value of a limb sequence.
  - `Mag` reads limbs least significant first.
  - `Canonical` means trimmed.
  - It also holds the arithmetic lemmas about them.
- `bigint_core.dfy`: the `BigInteger` datatype, with `ToInt` giving its mathematical value. It holds `trim`, the constructors, comparisons, `+`, `-` and `*`.
- `bigint_division.dfy`: `simple_division`, `normalise`, `trial`, `smaller`, `difference`, `/` and `%`. Truncating division is written out as `TruncDiv`/`TruncMod`.
- `bigint_bitwise.dfy`: `binary`, `complementation`, `bit_operation`, `& | ^ ~`. Two's complement is specified through `View` and `Digit`, which give the limbs of the infinite two's-complement expansion.
- `bigint_shift.dfy`: `<<` and `>>`.
- `bigint_string.dfy`: the string constructor and `to_string`.
- `vector.dfy`: the class `Vector<T>` over a Dafny array.
- `my_vector.dfy`: the classes `MyVector` and `LimbBlock`.
  - `LimbBlock` is the shared heap vector and its reference count.
  - A ghost multiset of owners stands in for `shared_ptr`'s bookkeeping.

`big_integer` has value semantics: every operator works on copies. So a big integer is a datatype here. Its limb loops are methods that loop over local sequences, and each is proved against the mathematical value. Both vectors update their fields in place, so each is a class whose methods state their whole new state.

## Model

| member | source | states |
|---|---|---|
| Limbs.CanonicalUnique | bigint/big_integer.cpp:54-58 | two trimmed limb vectors with the same value are identical, so `trim` gives each integer one representation |
| BigIntCore.Zero | bigint/big_integer.cpp:10-13 | the default big integer is a trimmed non-negative zero |
| BigIntCore.FromInt | bigint/big_integer.cpp:20-27 | the `int` constructor (including `INT32_MIN`) yields a trimmed number with exactly that value and no negative zero |
| BigIntCore.Trim | bigint/big_integer.cpp:54-58 | popping high zero limbs keeps the value, keeps at least one limb, removes only zeros and leaves the vector trimmed |
| BigIntCore.ZeroLimbs | bigint/big_integer.cpp:90-92 | a trimmed limb vector has value 0 exactly when it is `[0]` |
| BigIntCore.IsZero | bigint/big_integer.cpp:90-92 | `is_zero` holds on a trimmed number exactly when its value is 0 |
| BigIntCore.IsSimple | bigint/big_integer.cpp:50-52 | `is_simple` holds on a trimmed number exactly when its magnitude is below 2^32 |
| BigIntCore.OneLimb | bigint/big_integer.cpp:50-52 | a trimmed vector has one limb exactly when its value fits one limb |
| BigIntCore.Neg | bigint/big_integer.cpp:154-158 | unary minus negates the value, keeps the limbs, flips the sign of a nonzero number and never yields a negative zero |
| BigIntCore.CompareMeans | bigint/big_integer.cpp:483-491 | the top-down limb scan finds the first lower limb exactly when the first vector's value is smaller (equal lengths), and runs through exactly when the values are equal |
| BigIntCore.Compare | bigint/big_integer.cpp:483-491 | the scan answers −1, 0 or 1, and 0 exactly when every scanned limb equals the other vector's limb there |
| BigIntCore.LessAsWritten | bigint/big_integer.cpp:472-494 | the source's `<` is the true order when the limb counts are equal or the signs differ |
| BigIntCore.LessAsWrittenIgnoresLength | bigint/big_integer.cpp:483-491 | the source's `<` answers false for 5 < 2^32 + 3 |
| BigIntCore.Less | bigint/big_integer.cpp:472-494 | `<` with limb counts compared first is true exactly when the value of a is below the value of b |
| BigIntCore.LessMeans | bigint/big_integer.cpp:476-491 | for same-signed operands, comparing limb counts and then scanning decides the order of the values |
| BigIntCore.Equal | bigint/big_integer.cpp:453-466 | `==` on trimmed numbers is true exactly when the values are equal (any two zeros compare equal) |
| BigIntCore.SameValueSameLimbs | bigint/big_integer.cpp:457-465 | trimmed vectors of equal value are identical, which is why the limb-wise scan decides equality |
| BigIntCore.Greater | bigint/big_integer.cpp:496-498 | `>` built on the corrected `<` is true exactly when the value of a exceeds the value of b |
| BigIntCore.LessOrEqual | bigint/big_integer.cpp:500-502 | `<=` built on the corrected `<` is true exactly when the value of a is at most the value of b |
| BigIntCore.GreaterOrEqual | bigint/big_integer.cpp:504-506 | `>=` built on the corrected `<` is true exactly when the value of a is at least the value of b |
| BigIntCore.GreaterAsWritten | bigint/big_integer.cpp:496-498 | the source's `>` is the true order on operands with equal limb counts |
| BigIntCore.LessOrEqualAsWritten | bigint/big_integer.cpp:500-502 | the source's `<=` is the true order on operands with equal limb counts |
| BigIntCore.GreaterOrEqualAsWritten | bigint/big_integer.cpp:504-506 | the source's `>=` is the true order on operands with equal limb counts |
| BigIntCore.ComparisonsAsWrittenIgnoreLength | bigint/big_integer.cpp:496-506 | the source's `>`, `>=` and `<=` all answer false when comparing 2^32 + 3 with 5 in the direction that should be true |
| BigIntCore.AddMagnitudes | bigint/big_integer.cpp:193-207 | the carry loop adds the magnitudes, and the result grows past the longer operand only by one final carry limb 1; trimmed inputs give a trimmed sum |
| BigIntCore.SumCanonical | bigint/big_integer.cpp:196-206 | a sum that is as long as the longer operand, or one limb longer with a top limb of 1, is trimmed when both operands are |
| BigIntCore.SubtractMagnitudes | bigint/big_integer.cpp:224-233 | the borrow loop subtracts the smaller magnitude from the larger and the trimmed result has value equal to the difference |
| BigIntCore.SubtractInRange | bigint/big_integer.cpp:225-226 | while a borrow is pending the loop index stays inside the larger operand, so `big.value[i]` is in bounds |
| BigIntCore.Add | bigint/big_integer.cpp:187-208 | `+`, whose mixed-sign case goes through `-` and so through the corrected `<`, yields a trimmed number whose value is the sum, never a negative zero |
| BigIntCore.Sub | bigint/big_integer.cpp:210-236 | `-`, choosing the larger operand with the corrected `<`, yields a trimmed number whose value is the difference, never a negative zero; `a - a` is zero |
| BigIntCore.SubOperandsAsWritten | bigint/big_integer.cpp:219-223 | the source's choice of `big` and `small` meets the borrow loop's need (the smaller magnitude is subtracted from the larger) and gets the sign right when the limb counts are equal |
| BigIntCore.SubAsWrittenReadsPastBig | bigint/big_integer.cpp:219-232 | for 5 − (2^32 + 3) the source keeps the one-limb 5 as `big` while the loop walks the two limbs of `small`, past the end of `big` |
| BigIntCore.ProductBound | bigint/big_integer.cpp:262-264 | every accumulator `next` is below 2^64, so truncating the carry to 32 bits loses nothing |
| BigIntCore.MulRow | bigint/big_integer.cpp:261-265 | the inner loop adds `a.value[i] * b` shifted by i limbs into the result without overflowing its length |
| BigIntCore.ProductFits | bigint/big_integer.cpp:258-266 | the partial products always fit in `|a| + |b|` limbs |
| BigIntCore.Mul | bigint/big_integer.cpp:256-270 | `*` yields the trimmed limbs of the product of the magnitudes, sign `a.sign ^ b.sign`, and value the product |
| BigIntDivision.DivModIdentity | bigint/big_integer.cpp:347-349 | C++ truncating division: quotient times divisor plus remainder is the dividend, and the remainder takes the dividend's sign and is smaller than the divisor |
| BigIntDivision.SignedQuotient | bigint/big_integer.cpp:342-343 | dividing magnitudes and taking sign `a.sign ^ b.sign` is truncating division of the signed values |
| BigIntDivision.Int32Cast | bigint/big_integer.cpp:306 | `static_cast<int>` of a limb is the 32-bit value congruent to it, and the same value below 2^31 |
| BigIntDivision.SimpleDivision | bigint/big_integer.cpp:238-254 | divisor 0 throws; otherwise the quotient is trimmed with the dividend's sign, the remainder is below the divisor, and quotient × divisor + remainder is the dividend's magnitude |
| BigIntDivision.QuotientDigit | bigint/big_integer.cpp:246-250 | each step of the one-limb division yields a digit below 2^32 and keeps the running quotient-remainder identity |
| BigIntDivision.Trial | bigint/big_integer.cpp:284-291 | the trial digit is the largest digit whose product with the top two divisor limbs does not exceed the top three window limbs, capped at 2^32 − 1 |
| BigIntDivision.TrialBounds | bigint/big_integer.cpp:284-291 | the three-by-two trial digit is the true digit or one more: if its product fits, the next digit would not; if it does not fit, one less does |
| BigIntDivision.TrialNotBelow | bigint/big_integer.cpp:287-290 | the trial digit is never below the true quotient digit |
| BigIntDivision.TrialNotAbove | bigint/big_integer.cpp:287-290 | with a normalised top divisor limb the trial digit exceeds the true digit by at most one |
| BigIntDivision.Smaller | bigint/big_integer.cpp:272-282 | `smaller` is true exactly when the window of m+1 limbs at k is below `dq` |
| BigIntDivision.Difference | bigint/big_integer.cpp:293-301 | `difference` subtracts `dq` from the window at k modulo 2^(32(m+1)) and leaves the other limbs alone |
| BigIntDivision.Normalise | bigint/big_integer.cpp:303-310 | both operands are scaled by `2^32 / (top + 1)`, which is at least 1, and made non-negative; the divisor keeps its limb count |
| BigIntDivision.NormalisedLength | bigint/big_integer.cpp:304-306 | after normalising, the divisor's value lies in [2^(32(m-1)), 2^(32m)) |
| BigIntDivision.TrialProduct | bigint/big_integer.cpp:331-334 | `qt * divisor` padded to m+1 limbs has exactly m+1 limbs and value qt times the divisor |
| BigIntDivision.NextDigit | bigint/big_integer.cpp:330-340 | one step of the main loop chooses the quotient digit that leaves a window below the divisor and subtracts its multiple |
| BigIntDivision.LongDivision | bigint/big_integer.cpp:322-344 | for divisors of two or more limbs the quotient q is trimmed with sign `a.sign ^ b.sign` and q·|b| ≤ \|a\| < (q+1)·\|b\| |
| BigIntDivision.QuotientValue | bigint/big_integer.cpp:342-343 | a floor quotient of magnitudes with sign `a.sign ^ b.sign` is the truncating quotient of the values |
| BigIntDivision.ShortDividend | bigint/big_integer.cpp:315-316 | a dividend with fewer limbs than the divisor has truncating quotient 0 |
| BigIntDivision.OneLimbQuotient | bigint/big_integer.cpp:317-321 | a one-limb divisor's quotient, negated for a negative divisor, is the truncating quotient |
| BigIntDivision.Div | bigint/big_integer.cpp:312-345 | `/` throws exactly for a zero divisor and otherwise yields a trimmed number whose value is the truncating quotient |
| BigIntDivision.Mod | bigint/big_integer.cpp:347-349 | `%` throws exactly for a zero divisor and otherwise yields the truncating remainder |
| BigIntDivision.CorrectionAsWritten | bigint/big_integer.cpp:337 | `norm.second * static_cast<int>(qt)` multiplies by qt below 2^31 and by 2^32 − qt above it |
| BigIntDivision.CorrectionCastWraps | bigint/big_integer.cpp:335-339 | on a concrete dividend the decremented digit exceeds 2^31, the cast wraps, and the remainder left is not below the divisor |
| BigIntDivision.CorrectionTooShort | bigint/big_integer.cpp:337-340 | on a concrete dividend the corrected `dq` is one limb long while `difference` reads m+1 limbs of it |
| BigIntBitwise.ViewDigits | bigint/big_integer.cpp:60-73 | limb i of a sign-extended limb vector is the vector's limb, or the sign fill past its end |
| BigIntBitwise.NotDigits | bigint/big_integer.cpp:160-163 | every two's-complement limb of −x−1 is the complement of x's limb |
| BigIntBitwise.ComplementLimbs | bigint/big_integer.cpp:81-83 | each limb is complemented, so the value becomes 2^(32n) − 1 − value |
| BigIntBitwise.TwosView | bigint/big_integer.cpp:60-73 | the limbs `binary` builds are trimmed when the operand's limbs are |
| BigIntBitwise.Binary | bigint/big_integer.cpp:60-73 | `binary` leaves a non-negative number alone and turns a negative one into its two's-complement limbs, with an all-ones limb on top |
| BigIntBitwise.TwosViewMeans | bigint/big_integer.cpp:60-73 | the limbs `binary` builds, read as two's complement with the operand's sign, have the operand's value |
| BigIntBitwise.Complementation | bigint/big_integer.cpp:75-88 | `complementation` leaves a non-negative number alone and maps negative limbs to 2^(32n) − value, trimmed |
| BigIntBitwise.ComplementationMeans | bigint/big_integer.cpp:75-88 | for a nonzero negative input that is the negative value the limbs denote in two's complement |
| BigIntBitwise.BitsOfOnes | bigint/big_integer.cpp:358-361 | combining two sign fills bit by bit gives the fill of the combined sign |
| BigIntBitwise.OperatorsSymmetric | bigint/big_integer.cpp:367-383 | the boolean operators of `&`, `\|` and `^` are symmetric |
| BigIntBitwise.CombineSymmetric | bigint/big_integer.cpp:355-357 | for a symmetric operator, swapping the operands does not change the combined limbs |
| BigIntBitwise.Combine | bigint/big_integer.cpp:359-361 | the combined vector has the operands' length and every limb is the operator applied to the operands' limbs at that position |
| BigIntBitwise.CombineLimbs | bigint/big_integer.cpp:359-361 | the loop sets every limb to the operator applied bit by bit to both operands' limbs |
| BigIntBitwise.CombinedView | bigint/big_integer.cpp:359-361 | each two's-complement limb of the combined vector is the operator applied to the operands' limbs |
| BigIntBitwise.PaddedView | bigint/big_integer.cpp:358 | zero-padding preserves the value of a non-negative view only |
| BigIntBitwise.ReadCombination | bigint/big_integer.cpp:362-364 | trimming, setting the sign and complementing the combined limbs yields the trimmed-read value |
| BigIntBitwise.TrimmedValue | bigint/big_integer.cpp:362-364 | when the top combined limb is nonzero for a negative result, that read is the two's-complement value of the limbs |
| BigIntBitwise.TrimmedRead | bigint/big_integer.cpp:362-364 | the read of the combined limbs is negative exactly when the sign operator gives negative and the limbs are not all zero |
| BigIntBitwise.BitOperationValue | bigint/big_integer.cpp:351-365 | the value of `bit_operation` as written is negative only when the sign operator gives negative, and never positive when it does |
| BigIntBitwise.BitOperation | bigint/big_integer.cpp:351-365 | `bit_operation` as written yields a trimmed number whose value is the model's value of that procedure |
| BigIntBitwise.BitOperationCorrect | bigint/big_integer.cpp:351-365 | for operands that are not negative zeros, when no negative operand is zero-padded and no negative result is trimmed to a zero top limb, every two's-complement limb of the result is the operator applied to the operands' limbs |
| BigIntBitwise.BitAnd | bigint/big_integer.cpp:367-371 | `&` is `bit_operation` with the boolean and |
| BigIntBitwise.BitOr | bigint/big_integer.cpp:373-377 | `\|` is `bit_operation` with the boolean or |
| BigIntBitwise.BitXor | bigint/big_integer.cpp:379-383 | `^` is `bit_operation` with the boolean xor |
| BigIntBitwise.Not | bigint/big_integer.cpp:160-163 | `~a` is −a−1, trimmed, never a negative zero |
| BigIntBitwise.NotAsWrittenReadsPastBig | bigint/big_integer.cpp:160-163 | ~(−2^32) reaches 1 − 2^32, where the source keeps the one-limb 1 as `big` against the two limbs of 2^32, so the borrow loop runs past the end of `big` |
| BigIntBitwise.NotMeans | bigint/big_integer.cpp:160-163 | every two's-complement limb of `~a` is the complement of a's limb |
| BigIntBitwise.MinusOneView | bigint/big_integer.cpp:60-73 | `binary` of −1 is two all-ones limbs |
| BigIntBitwise.AndZeroPadding | bigint/big_integer.cpp:358 | −1 & (2^32−1)·2^64 comes out 0, though limb 2 of the true result is all ones |
| BigIntBitwise.XorTopTrimmed | bigint/big_integer.cpp:361-363 | −1 ^ (2^32−1)·2^32 comes out −1, though limb 1 of the true result is 0 |
| BigIntBitwise.NegZeroView | bigint/big_integer.cpp:60-72 | `binary` of a negative zero is the three limbs [0, 0, 1], that is 2^64, where every other zero keeps the view [0] |
| BigIntBitwise.NegZeroBitOperation | bigint/big_integer.cpp:351-365 | a negative zero or-ed with 0 and a negative zero xor-ed with 0 come out −(2^96 − 2^64), though every limb of the true result is 0 |
| BigIntBitwise.ComplementationFixed | bigint/big_integer.cpp:75-88 | complementing at full width yields exactly the two's-complement value of the limbs |
| BigIntBitwise.ExtendedView | bigint/big_integer.cpp:358 | sign-extending, rather than zero-padding, keeps the two's-complement value |
| BigIntBitwise.ExtendTo | bigint/big_integer.cpp:358 | the extension loop builds the sign-extended limbs |
| BigIntBitwise.FixedValueCorrect | bigint/big_integer.cpp:351-365 | with sign extension and no early trim, every two's-complement limb of the result is the operator applied to the operands' limbs, for all operands |
| BigIntBitwise.BitOperationFixed | bigint/big_integer.cpp:351-365 | the corrected procedure yields a trimmed number with that value |
| BigIntShift.ShlLimb | bigint/big_integer.cpp:404 | a limb shifted left by d bits keeps only its low 32 − d bits, moved up by d |
| BigIntShift.ShrLimb | bigint/big_integer.cpp:440 | a limb shifted right by d bits is the floor of the limb divided by 2^d |
| BigIntShift.ShlSplit | bigint/big_integer.cpp:404-406 | a limb shifted left by c bits splits exactly into the kept low part and the carried high part |
| BigIntShift.LeftLoopStep | bigint/big_integer.cpp:403-408 | one step of the shift loop keeps the partial vector plus the pending carry equal to the shifted prefix |
| BigIntShift.ShiftLimbsLeft | bigint/big_integer.cpp:394-409 | the limb vector built by `<<` has `shift + n + 1` limbs and value `|a|` · 2^(32·shift) · 2^c |
| BigIntShift.ShiftLeft | bigint/big_integer.cpp:385-413 | `a << k` for k ≥ 0 yields a trimmed number with value a · 2^k; for a negative k it yields the source's `a >> −k` (RightAsWritten), negative zeros included |
| BigIntShift.Shifted | bigint/big_integer.cpp:439-444 | each limb after the right-shift loop is the limb shifted right plus the low bits of the limb above |
| BigIntShift.ShiftLimbsRight | bigint/big_integer.cpp:439-444 | the in-place loop computes exactly those limbs |
| BigIntShift.MagShifted | bigint/big_integer.cpp:439-444 | the shifted limbs have value ⌊value / 2^c⌋ |
| BigIntShift.DropView | bigint/big_integer.cpp:436-438 | dropping the low `shift` limbs divides the two's-complement value by 2^(32·shift), rounding down |
| BigIntShift.RightViewShape | bigint/big_integer.cpp:425-430 | the padded two's-complement view of a negative operand keeps its value and has the expected length with an all-ones top limb |
| BigIntShift.PadOnes | bigint/big_integer.cpp:427-429 | the loop appends `shift − 1` all-ones limbs |
| BigIntShift.RightOperand | bigint/big_integer.cpp:421-430 | the operand `>>` works on is the number itself when non-negative, and its padded two's-complement view when negative |
| BigIntShift.RightPositive | bigint/big_integer.cpp:431-446 | for a non-negative operand the kept, shifted and trimmed limbs have value ⌊a / 2^k⌋ |
| BigIntShift.RightAllDropped | bigint/big_integer.cpp:432-434 | shifting out every limb yields 0 |
| BigIntShift.TopShifted | bigint/big_integer.cpp:444-449 | for a negative view, dropping the top limb after the shift leaves the two's-complement floor quotient |
| BigIntShift.ZeroView | bigint/big_integer.cpp:445-450 | the one-limb remnant is 0 exactly when the shift is a multiple of 32 and the floor is −2^32, reading the shift by 32 at line 441 as 0 |
| BigIntShift.RightKept | bigint/big_integer.cpp:431-449 | the limbs and sign `>>` hands to `complementation` denote the source's result; for a negative zero they are its padded view shifted as a non-negative number |
| BigIntShift.RightLimbs | bigint/big_integer.cpp:421-449 | for every operand, the sign and limbs `>>` hands to `complementation`, the case where every limb is shifted out included, denote the source's result; a negative zero's are those of its padded view 2^64, shifted as a non-negative number |
| BigIntShift.NegZeroViewPadded | bigint/big_integer.cpp:425-430 | the padded view of a negative zero is a trimmed non-negative number, and is 2^64 when at most one limb is dropped |
| BigIntShift.NegZeroKept | bigint/big_integer.cpp:431-449 | a negative zero's kept limbs are shifted as those of the non-negative number 2^64 (padded) |
| BigIntShift.RightAsWritten | bigint/big_integer.cpp:425-450 | the source's `>>` gives ⌊a / 2^k⌋ for a non-negative a that is not a negative zero, and for other such operands at worst the same magnitude with the sign lost; for a negative zero it gives a non-negative value |
| BigIntShift.ShiftRight | bigint/big_integer.cpp:415-451 | for every operand, negative zeros included, `a >> k` yields a trimmed number equal to the source's outcome (RightAsWritten): ⌊a / 2^k⌋ except in the cases of the two `>>` findings; k = 0 returns a; a negative k shifts left |
| BigIntShift.ShiftRightNegZero | bigint/big_integer.cpp:425-450 | a negative zero shifted right by 0 < k < 64 comes out 2^(64 − k) instead of 0 |
| BigIntShift.ShiftRightSignLost | bigint/big_integer.cpp:444-450 | −(2^64 − 1) >> 32 should be −2^32 but comes out +2^32, reading the shift by 32 at line 441 as 0 |
| BigIntShift.ShiftRightFixed | bigint/big_integer.cpp:415-451 | with full-width complementation, `a >> k` is ⌊a / 2^k⌋ for every a and every k > 0 |
| BigIntString.DigitChar | bigint/big_integer.cpp:518 | `'0' + d` is a digit character that reads back as d |
| BigIntString.DecimalValue | bigint/big_integer.cpp:32-43 | a digit string of length n denotes a value below 10^n |
| BigIntString.DecimalCons | bigint/big_integer.cpp:41-42 | a leading digit contributes its value times 10 to the number of digits after it |
| BigIntString.AccumulatedMeans | bigint/big_integer.cpp:32-43 | the right-to-left sum of digits weighted by `position` is the decimal value of the suffix read so far |
| BigIntString.AddDigit | bigint/big_integer.cpp:41-42 | `*this += position * next; position *= 10` extends the value read by one more digit to the left |
| BigIntString.ReadUnsigned | bigint/big_integer.cpp:32-44 | a loop that ran through every character read a well-formed unsigned string and holds its value |
| BigIntString.ReadSigned | bigint/big_integer.cpp:34-37 | stopping at a leading '-' leaves the well-formed negative string's magnitude |
| BigIntString.ReadDigits | bigint/big_integer.cpp:32-43 | the loop succeeds exactly on digit strings with an optional leading '-', and yields their value |
| BigIntString.ParseFrom | bigint/big_integer.cpp:29-45 | the string constructor throws exactly on malformed strings; otherwise the number is trimmed with the string's value, and its sign is the uninitialised value only for the empty string; otherwise it is str[0] == '-' |
| BigIntString.EmptyStringSign | bigint/big_integer.cpp:29-45 | the empty string with a set indeterminate sign yields a negative zero |
| BigIntString.Parse | bigint/big_integer.cpp:29-45 | with the sign initialised to false, parsing throws exactly on malformed strings and otherwise yields the value, negative exactly when the string starts with '-' |
| BigIntString.Digits | bigint/big_integer.cpp:515-519 | the decimal digits of n have no leading zero, and there are none exactly when n is 0 |
| BigIntString.DigitsStep | bigint/big_integer.cpp:516-518 | dividing by 10 appends the remainder's character after the quotient's digits |
| BigIntString.DecimalOfDigits | bigint/big_integer.cpp:515-519 | the digits of n read back as n |
| BigIntString.Reverse | bigint/big_integer.cpp:523 | `std::reverse` puts character i at position n−1−i |
| BigIntString.ReverseAppend | bigint/big_integer.cpp:518-523 | reversing a string with a character appended puts that character first |
| BigIntString.DecimalStringParses | bigint/big_integer.cpp:508-525 | the text `to_string` builds is well formed, reads back as the number's value, and starts with '-' exactly for a nonzero negative number |
| BigIntString.ToString | bigint/big_integer.cpp:508-525 | `to_string` yields "0" for zero and otherwise an optional '-' followed by the decimal digits of the magnitude |
| BigIntString.StringRoundTrip | bigint/big_integer.cpp:29-45 | parsing the result of `to_string` gives back the same number, for every number that is not a negative zero |
| Vectors.Vector.constructor | vector/vector.h:14-15 | a new vector is empty with no buffer and capacity 0 |
| Vectors.Vector.Copy | vector/vector.h:17-37 | the copy has the same elements, capacity equal to the source's size, and a fresh buffer, or none when the source is empty |
| Vectors.Vector.Assign | vector/vector.h:39-51 | after assignment the elements are the other's and the capacity is its size |
| Vectors.Vector.IncreaseCapacity | vector/vector.h:275-277 | the next capacity is 10 for an empty vector and otherwise twice the capacity, so it exceeds a full vector's capacity |
| Vectors.Vector.FullDestroy | vector/vector.h:306-312 | the elements and the buffer are released, leaving `capacity_` as it was |
| Vectors.Vector.EmptySwap | vector/vector.h:314-319 | the vector takes over the given buffer, capacity and size |
| Vectors.Vector.NewBuffer | vector/vector.h:284-304 | the elements are copied into a fresh buffer of the requested capacity and nothing else changes |
| Vectors.Vector.PushBack | vector/vector.h:93-107 | the element is appended; a full vector first grows to 10 or to double its capacity in a fresh buffer, and otherwise keeps its buffer |
| Vectors.Vector.PushBackRealloc | vector/vector.h:279-282 | a full vector grows by the capacity rule into a fresh buffer and appends |
| Vectors.Vector.PopBack | vector/vector.h:109-114 | the last element is removed, and an empty vector is left alone; the buffer and capacity stay |
| Vectors.Vector.Reserve | vector/vector.h:124-133 | asking for more than the capacity moves the elements unchanged into a fresh buffer of exactly that capacity; otherwise nothing changes |
| Vectors.Vector.ShrinkToFitAsWritten | vector/vector.h:135-149 | an empty vector that owns a buffer loses it but keeps its capacity; otherwise the capacity becomes the size and the elements stay; a full non-empty vector keeps its buffer, any other non-empty one gets a fresh buffer |
| Vectors.Vector.ShrinkToFit | vector/vector.h:135-149 | the elements stay, the capacity becomes the size, and an empty vector owns no buffer; a full non-empty vector keeps its buffer, any other non-empty one gets a fresh buffer |
| Vectors.Vector.Clear | vector/vector.h:151-156 | the elements are removed while the buffer and capacity stay |
| Vectors.Vector.Swap | vector/vector.h:158-168 | the two vectors exchange buffer, size and capacity, and so their elements |
| Vectors.Vector.AppendRange | vector/vector.h:199-206 | a run of `push_back`s appends the cells of the run in order, growing the buffer by the capacity rule only once the run overflows it |
| Vectors.Vector.AppendSkipping | vector/vector.h:231-238 | the `erase` loop copies every element but the one at `pos` and records where that one was |
| Vectors.Vector.AppendInserting | vector/vector.h:198-206 | the `insert` loops copy the prefix, the new element and the suffix; the iterator to the new element stays in the final buffer exactly when no push reallocated after it was taken |
| Vectors.Vector.InsertAsWritten | vector/vector.h:191-215 | `insert` puts the element at `pos` and grows a full vector by the capacity rule; the returned iterator points into the vector's buffer exactly when the insert was at the end or the vector was not full |
| Vectors.Vector.Insert | vector/vector.h:191-215 | `insert` with the iterator taken after the final swap returns the position of the new element |
| Vectors.Vector.Erase | vector/vector.h:222-247 | `erase(pos)` removes the element at `pos`, keeps the capacity, and returns the position that now holds the next element |
| Vectors.Vector.EraseRange | vector/vector.h:255-272 | `erase(first, last)` removes the elements in [first, last), keeps the capacity, and returns `begin() + first` |
| Vectors.EmptiedShrinkKeepsCapacity | vector/vector.h:135-140 | pushing one element, popping it and shrinking leaves a vector with no buffer but capacity 10, breaking the invariant `push_back` relies on |
| Vectors.EmptiedShrinkFixed | vector/vector.h:135-149 | with the capacity reset, the same sequence leaves an empty vector with no buffer and capacity 0 |
| Vectors.FullInsertStaleIterator | vector/vector.h:198-210 | inserting at the front of a full one-element vector returns an iterator into a buffer the vector no longer owns |
| Vectors.FullInsertFixed | vector/vector.h:191-215 | with the corrected insert, the iterator returned is position 0 of the vector's buffer |
| Limbs.Resized | bigint-optimized/my_vector.cpp:76-80 | `std::vector::resize(n)` keeps the first min(size, n) limbs and fills new positions with 0 (also the `resize` calls at bigint/big_integer.cpp:334 and 358) |
| LimbStore.SoleOwner | bigint-optimized/my_vector.cpp:16-18 | a use count of 1 means the vector is the heap vector's sole owner |
| LimbStore.LimbBlock.Own | bigint-optimized/my_vector.cpp:92-99 | a newly allocated heap vector holds the given limbs and is owned once, by its creator |
| LimbStore.LimbBlock.Share | bigint-optimized/my_vector.cpp:38-41 | copying the `shared_ptr` adds one owner and one to the count, and leaves the limbs alone |
| LimbStore.LimbBlock.Drop | bigint-optimized/my_vector.cpp:101-105 | releasing the `shared_ptr` removes one owner and one from the count, and leaves the limbs alone |
| LimbStore.MyVector.IsShared | bigint-optimized/my_vector.cpp:16-18 | `is_shared` is true exactly in heap mode with another owner of the heap vector |
| LimbStore.MyVector.constructor | bigint-optimized/my_vector.cpp:4 | a new vector is in small mode with no limbs |
| LimbStore.MyVector.Copy | bigint-optimized/my_vector.cpp:6-8 | the copy has the same mode and limbs, shares the heap vector (one more owner), and leaves the original unchanged |
| LimbStore.MyVector.CopyFrom | bigint-optimized/my_vector.cpp:38-47 | `copy` takes over mode, size and limbs, sharing the heap vector or copying the inline buffer |
| LimbStore.MyVector.Destroy | bigint-optimized/my_vector.cpp:101-105 | destroying a vector in heap mode drops its ownership of the heap vector |
| LimbStore.MyVector.Assign | bigint-optimized/my_vector.cpp:29-36 | after assignment both vectors have the other's former limbs and mode, self-assignment changes nothing, and an old heap vector that is not the other's loses this owner |
| LimbStore.MyVector.Size | bigint-optimized/my_vector.cpp:88-90 | `size` is the number of limbs |
| LimbStore.MyVector.Get | bigint-optimized/my_vector.cpp:25-27 | the const `operator[]` returns limb `index` in either mode; heap mode reports an index past the end |
| LimbStore.MyVector.Fork | bigint-optimized/my_vector.cpp:10-14 | after `fork` the limbs are unchanged and a heap vector is owned by this vector alone; a shared one was replaced by a fresh copy and the old one lost this owner but kept its limbs |
| LimbStore.MyVector.Expand | bigint-optimized/my_vector.cpp:92-99 | `expand` moves the inline limbs unchanged into a fresh heap vector this vector alone owns, and is a no-op in heap mode |
| LimbStore.MyVector.PushBack | bigint-optimized/my_vector.cpp:49-60 | the limb is appended, heap mode begins exactly when four limbs were inline, and any heap vector written is owned by this vector alone |
| LimbStore.MyVector.PopBack | bigint-optimized/my_vector.cpp:62-68 | the last limb is removed from a non-empty vector, the mode stays, and any heap vector written is owned by this vector alone |
| LimbStore.MyVector.Resize | bigint-optimized/my_vector.cpp:70-86 | the limbs become the first n, padded with zeros; heap mode begins past four limbs and never ends; resizing to the current size changes nothing |
| LimbStore.MyVector.Store | bigint-optimized/my_vector.cpp:20-23 | writing through the non-const `operator[]` forks, then changes exactly limb `index`; an index past the end changes no limb and fails in heap mode |
| LimbStore.SharedCopyUnaffected | bigint-optimized/my_vector.cpp:49-60 | after copying a heap-mode vector and appending to the original, the copy still reads the old limbs from a heap vector it alone owns |
| LimbStore.ShrunkStaysBig | bigint-optimized/my_vector.cpp:62-86 | a vector cut back to three limbs after growing to six is still in heap mode |

## Left out

- Memory management: `std::allocator` construct/destroy/deallocate, placement new into the union, and explicit destructor calls. Storage is a Dafny array (`vector`) or a sequence field (`my_vector`'s inline buffer), and the identity of a `T*` is "same array object". The `vector` destructor and the deallocation size it passes are not modelled. In particular, `operator=`, `insert` and `erase` zero `capacity_` before swapping the temporary in, so the temporary later deallocates with size 0.
- Exception-safety paths driven by throwing element copies or failed allocations (the `catch` blocks of `vector`). Only exceptions the model's inputs can cause are modelled: division by zero, parse errors, and `at` in `my_vector`, as results.
- `shared_ptr` reference counting is a count field plus a ghost owner multiset. There is no concurrency and no destruction when the count reaches 0.
- `my_vector`'s union: the inline limbs and the `shared_ptr` are two fields, not overlapping storage. In small mode the `shared_ptr` field is null. A heap-mode vector still carries its old inline limbs, which nothing reads.
- Iterators are (buffer, offset) pairs. Comparisons between iterators into different buffers are not modelled.
- Vectors.Vector.EraseRange: calls the copy loops only when the vector owns a buffer. Without one, both runs are empty, and the source never reads its null buffer.
- Stream output `operator<<(std::ostream&)` and the compound-assignment and increment wrappers, which only forward to the modelled operators.
- `std::function` plumbing: `bit_operation` takes one boolean operator that is applied both to the limbs (bit by bit) and to the signs. The source passes the same operation at both types.
- Negative zero: the invariant of a big integer does not constrain the sign of zero. Several operators can produce a negative zero (the parser below, `*` with a zero operand, one-limb division); the contracts say where they exclude one.
- BigIntShift.ShiftLeft: requires k > INT32_MIN because `abs(INT32_MIN)` overflows in the source.
- BigIntShift.ShiftRight: requires k > INT32_MIN for the same reason.
- A 32-bit limb shifted by 32 bits (`x >> (32 - 0)` at bigint/big_integer.cpp:406 and `x << (32 - 0)` at line 441) is undefined behaviour in C++. It is modelled as 0, which the loops then add or discard. Both shifts happen exactly when the shift amount is a multiple of 32.
- BigIntShift.ShiftLeft: for a shift amount that is a multiple of 32, its value rests on reading the shift by 32 at line 406 as 0; a processor that masks the count would carry the whole limb instead.
- BigIntShift.ShiftRight: for a shift amount that is a multiple of 32, its value, and the `>>` finding below, rest on reading the shift by 32 at line 441 as 0.
- BigIntCore.LessAsWritten: reads the limbs of `b` past its end as 0. In the source that read (lines 483-491) is undefined behaviour; the model states its outcome only for equal limb counts or differing signs.
- BigIntCore.Sub: picks `big` and `small` with the corrected `<`, which compares limb counts first. The source's `<` at line 219 can keep the shorter operand as `big`, and the borrow loop then reads and writes past its end, which is undefined behaviour (SubAsWrittenReadsPastBig). Sub states the intended difference; the source's choice agrees with it on operands with equal limb counts (SubOperandsAsWritten).
- BigIntCore.Add: its mixed-sign cases go through `-`, so it inherits Sub's corrected comparison.
- BigIntBitwise.Not: `-(a + 1)` goes through `+` and `-`, so it inherits Sub's corrected comparison; ~(−2^32) reaches the faulty case (NotAsWrittenReadsPastBig).
- BigIntCore.Greater: built on the corrected `<`. The source's `>` uses the length-blind `<` and can answer false where the true order holds (ComparisonsAsWrittenIgnoreLength); GreaterAsWritten models it.
- BigIntCore.LessOrEqual: built on the corrected `<`, for the same reason; LessOrEqualAsWritten models the source's `<=`.
- BigIntCore.GreaterOrEqual: built on the corrected `>`, for the same reason; GreaterOrEqualAsWritten models the source's `>=`.
- BigIntString.ParseFrom: the string length is cast to `int32_t`; strings of 2^31 characters or more are not modelled.
- BigIntString.ParseFrom: accepts "" and "-" (both read as zero, as the source does), so well-formed strings include them.
- BigIntDivision.Normalise: the factor goes through `static_cast<int>`, which wraps for a factor of 2^31 (top divisor limb 1). The int constructor then reads `INT32_MIN` as 2^31 again, so the value is right; the model states that case through `Int32Cast`.
- BigIntDivision.Div: uses the corrected correction step, so the value of `/` is stated for the intended procedure. The as-written step is exhibited under Findings.
- BigIntDivision.NextDigit: multiplies the corrected digit as an unsigned limb and pads `dq` back to m+1 limbs, so it states the intended step, not what bigint/big_integer.cpp:337-340 compute. The as-written step is exhibited under Findings.
- BigIntDivision.LongDivision: built on NextDigit, so its quotient is that of the corrected correction step, as for Div.
- BigIntDivision.Mod: computes `a - (a / b) * b` with the corrected `/` and with Sub's corrected comparison, so its value is the intended remainder.
- BigIntBitwise.BitOperation: states the source's value (`BitOperationValue`). Bit-by-bit correctness is proved only for operands that are not negative zeros and that the zero padding and the early trim do not disturb (BitOperationCorrect), because `binary` reads a negative zero as 2^64 (NegZeroBitOperation), and for all operands after the correction (FixedValueCorrect).
- LimbStore.MyVector.PopBack: requires a non-empty vector, because the source decrements `elements` without a check.
- LimbStore.MyVector.Get and LimbStore.MyVector.Store: require an index below four in small mode, because past that the source reads or writes outside the object.
- LimbStore.MyVector.Store: the reference returned by the non-const `operator[]` is modelled only through the write it is used for.
- `size_t` and `elements` are unbounded; overflow of sizes and capacities is not modelled.

## Findings

| source | as written | input that shows it | evidently intended | confidence | as-written member | corrected member |
|---|---|---|---|---|---|---|
| bigint/big_integer.cpp:483-491 | `operator<` scans the limbs of `a` only and never compares limb counts | 5 < 2^32 + 3 returns false; with more limbs in `a`, the scan reads past the end of `b` | compare limb counts before scanning | not executed | BigIntCore.LessAsWrittenIgnoresLength | BigIntCore.Less |
| bigint/big_integer.cpp:219-232 | `operator-` picks `big` with the length-blind `<`, and its borrow loop walks the limbs of `small` | 5 − (2^32 + 3): `big` = [5], `small` = [3, 1], so the loop reads and writes `big.value[1]` past its end; 5 + (−(2^32 + 3)) and ~(−2^32) reach the same case | choose `big` by a comparison that looks at limb counts first | not executed | BigIntCore.SubAsWrittenReadsPastBig | BigIntCore.Sub |
| bigint/big_integer.cpp:496-506 | `>`, `<=` and `>=` are built on the length-blind `<` | (2^32 + 3) > 5, (2^32 + 3) >= 5 and 5 <= 2^32 + 3 all return false | build them on a `<` that compares limb counts first | not executed | BigIntCore.ComparisonsAsWrittenIgnoreLength | BigIntCore.Greater |
| bigint/big_integer.cpp:337 | the decremented trial digit is multiplied as `static_cast<int>(qt)`, which wraps for qt ≥ 2^31 | normalised dividend limbs [0,0,0,0,0x40000001] with divisor limbs [0xFFFFFFFF,0,0x80000000] at k = 1: the digit 0x80000001 is multiplied as −0x7FFFFFFF | multiply by qt as an unsigned limb | not executed | BigIntDivision.CorrectionCastWraps | BigIntDivision.NextDigit |
| bigint/big_integer.cpp:337-340 | after the correction `dq` is trimmed and not padded back to m+1 limbs before `difference` reads m+1 of them | dividend limbs [0,0,0x80000000] with divisor limbs [0xFFFFFFFF,0,0x80000000]: trial digit 1, corrected to 0, `dq` = [0] | resize `dq` to m+1 limbs after the correction too | not executed | BigIntDivision.CorrectionTooShort | BigIntDivision.TrialProduct |
| bigint/big_integer.cpp:358 | the shorter two's-complement operand is padded with zero limbs even when it is negative | −1 & (2^32−1)·2^64 yields 0 | pad with all-ones limbs for a negative operand | not executed | BigIntBitwise.AndZeroPadding | BigIntBitwise.FixedValueCorrect |
| bigint/big_integer.cpp:361-363 | the combined limbs are trimmed before `complementation`, which then complements at the trimmed width | −1 ^ (2^32−1)·2^32 yields −1 instead of −2^64 + 2^32 − 1 | complement at the full width | not executed | BigIntBitwise.XorTopTrimmed | BigIntBitwise.BitOperationFixed |
| bigint/big_integer.cpp:444-450 | `>>` of a negative number by a multiple of 32 can leave the single limb [0], and `complementation` then drops the sign | −(2^64 − 1) >> 32 yields +2^32 instead of −2^32 when line 441's undefined shift by 32 reads as 0; with the count masked to 0 the same input yields −1, also wrong | complement at full width so the quotient stays negative | not executed; the outcome depends on the undefined shift at line 441 | BigIntShift.ShiftRightSignLost | BigIntShift.ShiftRightFixed |
| bigint/big_integer.cpp:425-446 | `>>` runs a negative zero through `binary`, which gives the limbs [0, 0, 1] (2^64) with a cleared sign, so the view is shifted as a positive number | a negative zero (from `big_integer(-5) * 0`) `>> 1` yields 2^63 instead of 0 | read a negative zero as 0 | not executed | BigIntShift.ShiftRightNegZero | BigIntShift.ShiftRightFixed |
| bigint/big_integer.cpp:351-365 | `bit_operation` runs a negative zero through `binary`, which gives the view [0, 0, 1] (2^64), while the result sign still takes the operand's sign | a negative zero or-ed with 0 and a negative zero xor-ed with 0 yield −(2^96 − 2^64) instead of 0 | read a negative zero as 0 | not executed | BigIntBitwise.NegZeroBitOperation | BigIntBitwise.FixedValueCorrect |
| bigint/big_integer.cpp:29-45 | the string constructor reads its uninitialised `sign` inside `operator+` at line 41; the first addition clears it, so only "" keeps the uninitialised value | "" with a set indeterminate sign yields a negative zero | initialise `sign` to false | not executed | BigIntString.EmptyStringSign | BigIntString.Parse |
| vector/vector.h:135-140 | `shrink_to_fit` on an empty vector frees the buffer but leaves `capacity_` | push_back(x), pop_back(), shrink_to_fit(): capacity 10 with no buffer, so the next `push_back` writes through a null `data_` | reset `capacity_` to 0 | not executed | Vectors.EmptiedShrinkKeepsCapacity | Vectors.EmptiedShrinkFixed |
| vector/vector.h:198-210 | `insert` takes `&temp.back()` before pushing the rest, and a full vector's temporary reallocates on those pushes | reserve(1), push_back(x), insert(begin(), y): the iterator returned is into a freed buffer | take the iterator after the pushes, as `begin() + pos` | not executed | Vectors.FullInsertStaleIterator | Vectors.FullInsertFixed |
