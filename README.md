# TPA exact arithmetic — a verified model

TPA is a JavaScript library for exact arithmetic. It has two layers.

- **`lib/N.js`** is an arbitrary-size integer, `N`.
  - It stores its value as an array of signed digits in radix `BASE` = 2^25.
  - A `safemaximum` field records how large a digit may have grown.
  - `add` and `subtract` work digit by digit and defer their carries. A carry pass (`normalise`) runs only once the bound says it must, and `positivise` removes negative digits.
  - Multiplication has three paths: single-digit, schoolbook, and a "rapid" split at √BASE.
  - Division estimates each quotient digit from the top two digits of a window, then corrects it.
  - `N.Primes` hands out primes from a shared cache.
- **`lib/tpa.js`** is the rational number `Tpa`: a sign, an integer part, an integer/fractional mode flag and, in fractional mode, a proper fraction numerator/denominator.
  - It parses integers, decimals, recurring decimals `a.b[c]`, mixed numbers `a n/d` and fractions `n/d`.
  - It adds, subtracts, multiplies, divides and takes remainders in place, and compares values.
  - It prints values as (recurring) decimals or as mixed fractions, and reduces fractions with a prime sweep.
  - It carries its own magnitude class, `Tpa.N`. `Tpa.N` stores an unsigned magnitude in one buffer seen both as 32-bit "longs" and as 16-bit "shorts", with a separate sign, and provides long division and a prime generator of its own.

The model follows the source file by file. Both files are imperative.

- **`N` (module `BigInt`)** is a class. Its fields are `digits: seq<int>` and `safemaximum`, and its methods update them. Their contracts relate the new value Σ digits[i]·BASE^i to the old one.
- **`Tpa.N` (module `TpaKernel`)** is a class over a sequence of shorts, read 0 beyond its end. The longs are derived from the shorts.
- **`Tpa` (module `TpaRational`)** is a class holding three `Tpa.N` objects. The parser (`TpaParse`), the printer (`TpaRender`) and `simplify` (`TpaSimplify`) are methods over those objects, proved against pure specification functions.

JavaScript's truncating `%` and `Math.trunc` are written out as `TMod`/`TDiv`, because Dafny's own operators are Euclidean. `Uint32Array` and `Uint16Array` stores are `Store32`/`Store16`, which reduce modulo 2^32 and 2^16.

Where the code has a bug, the model gives both sides of it:
- the code as written, with a lemma that exhibits the failing input;
- a corrected member, which the rest of the model uses.

Each bug is listed under "## Findings".

## Model

| member | source | states |
|---|---|---|
| BigInt.RootBaseIsFloorSqrt | lib/N.js:26-28 | BASE is 2^25 and ROOTBASE is its integer square root |
| BigInt.NumeralValue | lib/N.js:67-75 | the string constructor accepts a text exactly when it is an optional '+' or '-' followed by decimal digits only |
| BigInt.ParseNumeral | lib/N.js:67-75 | the text `toString` writes for any integer reads back as that integer |
| BigInt.RenderNumeral | lib/N.js:516-523 | a canonical numeral (no '+', no leading zero, no "-0") read and printed again gives the same text |
| BigInt.CompareTopSign | lib/N.js:262-265 | the top-down digit scan of `compare` gives the sign of the difference of the two values |
| BigInt.CompareDigitsSign | lib/N.js:259-267 | on canonical digits (every digit in [0, BASE), no top zero) the verdict is the sign of the difference of the values |
| BigInt.SumValid | lib/N.js:297-304 | the digit-wise sum or difference of two valid numbers is valid under the sum of their bounds |
| BigInt.HalvesRecombine | lib/N.js:565-566 | the high halves (quotient by ROOTBASE) times ROOTBASE plus the low halves (remainder) give back the digits' value |
| BigInt.ScaleValid | lib/N.js:350-352 | scaling every digit by m keeps a number valid under the bound times abs(m) |
| BigInt.DivideTruncates | lib/N.js:482-486 | signing the magnitude quotient and remainder with the product of the signs gives JavaScript's truncating quotient and a remainder with the divisor's sign correction |
| BigInt.N.constructor | lib/N.js:54-56 | `new N()` is zero, with no digits and bound 0 |
| BigInt.N.Copy | lib/N.js:58-61 | the copy has the same digits and bound |
| BigInt.N.FromInt | lib/N.js:63-65 | `new N(v)` for an integral number has the value v and bound BASE-1 |
| BigInt.N.FromString | lib/N.js:67-75 | rejects exactly the texts outside the grammar; otherwise the value is the decimal value of the text, signed |
| BigInt.N.Reset | lib/N.js:200-204 | zero, with no digits and bound 0 |
| BigInt.N.Set | lib/N.js:227-235 | value v, digits inside (-BASE, BASE) with no top zero, bound BASE-1; non-negative digits for v >= 0 |
| BigInt.N.Strip | lib/N.js:142 | the top zero digits go and the value stays |
| BigInt.N.Normalise | lib/N.js:131-144 | the value is kept. Afterwards every digit lies in (-BASE, BASE) and a bound of BASE or more becomes BASE-1. Without `noReduction` no top zero remains. When no carry pass was needed, the digits are exactly the old ones, trimmed |
| BigInt.N.CarryPass | lib/N.js:133-138 | the carry pass keeps the value, normalises every digit and leaves in-range digits alone |
| BigInt.N.Positivise | lib/N.js:154-163 | on a normalised non-negative number the value is kept and the digits become canonical |
| BigInt.N.Lend | lib/N.js:156-159 | one borrow, with digit i up by BASE and digit i+1 down by 1, keeps the value |
| BigInt.N.IsZero | lib/N.js:176-178 | true exactly when the value is 0, which is exactly when no digit is left after normalising; the value is kept |
| BigInt.N.IsNegative | lib/N.js:168-171 | true exactly when the value is negative; the value is kept |
| BigInt.N.Negate | lib/N.js:315-318 | every digit changes sign, so the value does; validity and normal form are kept |
| BigInt.N.Abs | lib/N.js:284-287 | the value becomes its absolute value |
| BigInt.N.Compare | lib/N.js:259-267 | returns the length-first, top-down verdict, which on canonical operands is the sign of the difference of the values |
| BigInt.N.Add | lib/N.js:295-306 | the value grows by the operand's value, the operand is untouched, and the number stays valid under the summed bound |
| BigInt.N.Subtract | lib/N.js:326-337 | the value shrinks by the operand's value, the operand is untouched, and the number stays valid under the summed bound |
| BigInt.N.CombineDigits | lib/N.js:299-304 | the digits become the operand's extra digits plus the digit-wise sum or difference |
| BigInt.N.Accumulate | lib/N.js:295-337 | the shared body of add (s = 1) and subtract (s = -1): the value becomes old + s·operand and the bound stays sound |
| BigInt.N.DigitMultiplyWithAdd | lib/N.js:528-538 | the value becomes old·multiplier + digit, with normalised digits and bound BASE-1 |
| BigInt.N.ScaleDigits | lib/N.js:530-534 | the digit loop leaves old·multiplier + digit in the digits plus a carry below BASE above them |
| BigInt.N.AppendCarry | lib/N.js:535 | a final carry becomes one more top digit and adds carry·BASE^n to the value |
| BigInt.N.DigitDivide | lib/N.js:499-509 | old = new·divisor + r with abs(r) < abs(divisor). When all digits share one sign, the new value is Math.trunc(old / divisor) and r is old % divisor, as JavaScript computes them, for either sign of the divisor. For non-negative digits and a positive divisor, r is old mod divisor and the new value is old div divisor |
| BigInt.N.DivideDigits | lib/N.js:501-505 | the top-down division loop keeps old = quotient·divisor + overflow, with the overflow below the divisor in magnitude and on the side of zero where all the digits lie, when they share one |
| Arith.TruncUnique | lib/N.js:502-503 | any q, r with a = q·d + r, abs(r) < abs(d) and r on the side of zero of a are Math.trunc(a / d) and a % d |
| BigInt.N.IsDivisibleBy | lib/N.js:214-219 | below BASE, whether the divisor divides the value; at BASE or above, no answer (the source returns undefined) |
| BigInt.N.ToString | lib/N.js:516-523 | the text is the decimal numeral of the value: digits with no leading zero, "0" for zero, and "-" before a negative value |
| BigInt.N.DecimalDigits | lib/N.js:519 | dividing by ten until zero writes the decimal digits of the value |
| BigInt.N.Multiply | lib/N.js:345-369 | the value becomes the product of the two values, whichever path is taken; the operand keeps its value |
| BigInt.N.MultiplySingle | lib/N.js:348-355 | multiplying by a single digit m gives old·m, with or without a carry pass |
| BigInt.N.MultiplyDigits | lib/N.js:357-368 | the multi-digit paths (schoolbook, or two split passes with a ROOTBASE shift between) give the product of the two digit runs |
| BigInt.N.ScaleEach | lib/N.js:352 | every digit is multiplied by m, so the value is |
| BigInt.N.BasicMultiplication | lib/N.js:543-556 | zero digits become the schoolbook product of the two runs, normalised, with bound BASE-1 |
| BigInt.N.ProductRow | lib/N.js:546-552 | one more row extends the product to one more digit of the first run |
| BigInt.N.MultiplyRow | lib/N.js:547-552 | one carried row adds digit·y·BASE^i and keeps the digits normalised |
| BigInt.N.RapidMultiplication | lib/N.js:561-571 | one half of each digit of the shorter run times the longer run is added without carrying; the bound grows by ROOTBASE |
| BigInt.N.AccrueHalfRows | lib/N.js:564-568 | the row loop adds the halves of x times y |
| BigInt.N.AddRowMultiple | lib/N.js:567 | one unreduced row adds q·y·BASE^i |
| BigInt.N.SubtractMultiple | lib/N.js:575-588 | the digits become the multiple-subtraction of the old digits (see LongDivision.SubtractMultipleValue) |
| BigInt.N.BorrowAt | lib/N.js:577-584 | one position: the digit and the running borrow move as one BorrowStep |
| BigInt.N.ShiftIn | lib/N.js:477-478 | the window moves up one place and the next dividend digit enters at the bottom |
| BigInt.N.ReduceWindow | lib/N.js:465-474 | the correction loop ends with 0 <= window < divisor; the quotient digit is in [0, BASE); window + divisor·digit equals the window before |
| BigInt.N.CorrectOnce | lib/N.js:467-472 | one correction strictly lowers the window, and exactly the divisors it removes join the quotient digit |
| BigInt.N.LongDivide | lib/N.js:453-480 | for a dividend above a divisor of two or more digits: dividend = quotient·divisor + remainder, 0 <= remainder < divisor, quotient digits in [0, BASE) |
| BigInt.N.FirstWindow | lib/N.js:455-459 | the window starts as the dividend's top digits, as many as the divisor has |
| BigInt.N.QuotientDigit | lib/N.js:463-474 | one quotient place keeps the long-division invariant and leaves the window below the divisor |
| BigInt.N.TakeNextDigit | lib/N.js:475-479 | the shift brings the next dividend digit into the trimmed window and restores the invariant for the place below |
| BigInt.N.Divide | lib/N.js:419-489 | fails exactly when a non-zero dividend meets a zero divisor. A zero dividend gives 0 remainder 0 with the divisor unchanged. Otherwise the quotient is Math.trunc(a / d). A divisor below BASE in magnitude gives the remainder a % d and is left unchanged; a larger one gives the remainder sign(d)·(a % d) and is left as its magnitude |
| BigInt.N.OneSign | lib/N.js:432 | the value is kept, every digit takes its sign, and the number has one digit exactly when its magnitude is below BASE |
| BigInt.N.DivideByDigit | lib/N.js:432 | for a single-digit divisor and a dividend whose digits share one sign: the quotient is Math.trunc(a / d) and the remainder a % d |
| BigInt.N.DivideLong | lib/N.js:435-486 | for a divisor of BASE or more in magnitude: the quotient is Math.trunc(a / d), the remainder sign(d)·(a % d), and the divisor becomes its magnitude |
| BigInt.N.SignBoth | lib/N.js:482-487 | quotient and remainder both take the sign s |
| BigInt.N.Magnitude | lib/N.js:435-440 | the top digit's sign is returned and the number becomes its canonical magnitude |
| BigInt.N.DivideMagnitudes | lib/N.js:442-481 | on positive magnitudes with a divisor of two digits or more, the quotient is a div d and the remainder a mod d, by every branch |
| LongDivision.BorrowStep | lib/N.js:577-584 | one position of the multiple-subtraction: new digit minus BASE·carry is digit − incoming borrow − x·q |
| LongDivision.SubtractMultipleValue | lib/N.js:575-588 | the multiple-subtraction takes exactly q times the divisor off the value |
| LongDivision.SubtractMultipleCanonical | lib/N.js:575-588 | when the result is not negative, the window stays canonical |
| LongDivision.Estimate | lib/N.js:467-469 | the quotient-digit estimate is at least 1 |
| LongDivision.EstimateSound | lib/N.js:465-472 | subtracting the estimated number of divisors never makes the window negative |
| LongDivision.LastDigit | lib/N.js:463-480 | when the last quotient digit is placed, quotient·divisor + window is the dividend |
| Product.RowStep | lib/N.js:547-551 | one step of a carried row keeps the row's running value |
| Product.RowsStep | lib/N.js:545-553 | one more row extends the product by one more multiplier digit |
| Product.RowsStepDown | lib/N.js:564-568 | one more unreduced row, going down, extends the multiplier suffix |
| Decimal.DecDigits | lib/N.js:519 | the digits of a magnitude have no leading zero, and there are none exactly for zero |
| Decimal.DigitsOfDecValue | lib/N.js:516-523 | a digit run with no leading zero is the printed form of its own value |
| Primality.Trial | lib/N.js:625-630 | the trial loop says prime exactly when no cached prime whose square does not pass the candidate divides it |
| Primality.LeastDivisorPrime | lib/N.js:623-630 | the least divisor of n >= 2 is prime, and for composite n its square is at most n |
| Primality.TrialDecides | lib/N.js:619-631 | with the cache complete up to its last entry, the trial test decides primality of the next candidates |
| Primality.PrimeBeyond | lib/N.js:619-631 | there is a prime beyond every bound, so the search for the next prime ends |
| Primality.Consecutive | lib/N.js:607-639 | no prime lies between neighbouring cache entries or below the first: no prime is skipped |
| Primality.GapGrows | lib/N.js:621 | stepping past an odd composite keeps "no prime after the last cached one" |
| Primality.Extend | lib/N.js:633 | appending the next prime keeps the cache complete and increasing |
| PrimeGenerator.Cache.constructor | lib/N.js:608 | the shared cache starts as [2, 3] |
| PrimeGenerator.Primes.constructor | lib/N.js:611-613 | a new generator's cursor is at the first prime |
| PrimeGenerator.Primes.Next | lib/N.js:616-636 | returns the cached prime under the cursor, or else the next prime (appended to the cache, with no prime skipped), or 0 with nothing changed when none lies below BASE |
| PrimeGenerator.Search | lib/N.js:618-631 | the search returns the next odd prime after the last cached one, or 0 when none lies below BASE |
| BigIntFindings.NormaliseAsWritten | lib/N.js:131-144 | `normalise` as written keeps the value and sets the bound (see Findings) |
| BigIntFindings.NormaliseLeavesBaseDigit | lib/N.js:138 | three digits BASE²-1 leave a top digit equal to BASE under bound BASE-1 |
| BigIntFindings.AccumulateAsWritten | lib/N.js:295-337 | add/subtract as written: the length of the result after a forced carry pass |
| BigIntFindings.AddUndercountsBound | lib/N.js:297-298 | the bound after a forced carry pass forgets the operand's share, leaving a digit of BASE or more under bound BASE-1 |
| BigIntFindings.DigitMultiplyAsWritten | lib/N.js:528-538 | `_digitMultiplyWithAdd` as written gives old·m + d under bound BASE-1 |
| BigIntFindings.MultiplyByDigitAsWritten | lib/N.js:348-355 | the single-digit path as written gives the right value |
| BigIntFindings.MultiplyByLargeDigit | lib/N.js:349-354 | an operand digit of 2·BASE-2 taken without normalising leaves a digit above BASE under bound BASE-1 |
| BigIntFindings.DivisorRejectedAsWritten | lib/N.js:424-429 | the zero test as written rejects only divisors of value 0 |
| BigIntFindings.ZeroDivisorAccepted | lib/N.js:424-429 | a zero divisor held as [0] under bound BASE-1 is not rejected |
| BigIntFindings.DigitDivideAsWritten | lib/N.js:499-505 | the single-digit loop keeps old = quotient·d + remainder |
| BigIntFindings.SingleDigitRemainderSign | lib/N.js:432 | the positive dividend [-1, 2] divided by 2 gets the remainder -1 |
| BigIntFindings.ShiftAsWritten | lib/N.js:475-479 | the untrimmed shift keeps the window's value shifted up, plus the new digit |
| BigIntFindings.DivideWindowLoops | lib/N.js:463-480 | dividing BASE^4+5 by BASE reaches a window [5,0,0] that `compare` calls larger than [0,1] although it is worth 5 |
| BigIntFindings.StuckStep | lib/N.js:465-474 | from such a window the correction loop keeps running: it never ends |
| TpaKernel.CountedFacts | lib/tpa.js:670-675 | a counted buffer is worth the same in shorts and in longs, below 2^(16·shortcount), and is zero exactly when shortcount is 0 |
| TpaKernel.Estimate | lib/tpa.js:797 | the quotient-digit estimate is at least 1 |
| TpaKernel.EstimateSound | lib/tpa.js:796-800 | the estimate never takes away more divisors than the remainder holds |
| TpaKernel.QuotientStart | lib/tpa.js:793 | before the first place the whole dividend is still to be divided |
| TpaKernel.QuotientEnd | lib/tpa.js:793-802 | after the last place the shorts hold the quotient, and quotient·divisor + remainder is the dividend |
| TpaKernel.N.constructor | lib/tpa.js:504-510 | a new number is a positive zero with an all-zero buffer |
| TpaKernel.N.Copy | lib/tpa.js:538-552 | the copy is fresh, with the same sign, storage and counts |
| TpaKernel.N.Overwrite | lib/tpa.js:523-536 | this number takes the other's sign, storage and counts |
| TpaKernel.N.SetSign | lib/tpa.js:609-612 | the sign is set and the magnitude is kept |
| TpaKernel.N.IsZero | lib/tpa.js:586-588 | no short in use exactly when the magnitude is 0 |
| TpaKernel.N.SetCount | lib/tpa.js:670-675 | the counts drop the zero shorts at the top; storage and sign are kept |
| TpaKernel.N.Reset | lib/tpa.js:723-727 | a positive zero |
| TpaKernel.N.Set | lib/tpa.js:729-740 | the magnitude is abs(n) and the sign that of n |
| TpaKernel.N.Compare | lib/tpa.js:599-607 | -1, 0 or 1 as the magnitudes compare; signs play no part |
| TpaKernel.N.Add | lib/tpa.js:632-641 | the magnitude grows by the operand's; the sign is kept |
| TpaKernel.N.Subtract | lib/tpa.js:643-652 | for an operand no larger, the magnitude shrinks by the operand's; the sign is kept |
| TpaKernel.N.SubtractMultiple | lib/tpa.js:654-668 | the magnitude loses digit times the operand's |
| TpaKernel.N.DigitMultiply | lib/tpa.js:677-686 | the magnitude becomes magnitude·multiplier + digit |
| TpaKernel.N.DigitDivide | lib/tpa.js:688-708 | for a divisor in (0, 2^32): old = new·divisor + overflow, 0 <= overflow < divisor, by longs or by shorts |
| TpaKernel.N.IsDivisibleBy | lib/tpa.js:563-578 | true exactly when the factor divides the magnitude |
| TpaKernel.N.HalfShift | lib/tpa.js:761-766 | the magnitude becomes magnitude·2^16 + the digit as a 16-bit store |
| TpaKernel.N.FullShift | lib/tpa.js:768-773 | the magnitude becomes magnitude·2^32 + the digit as a 32-bit store |
| TpaKernel.N.Accumulate | lib/tpa.js:710-721 | the magnitude gains a times the low or high shorts of b, read as base-2^32 digits |
| TpaKernel.N.Multiply | lib/tpa.js:753-759 | the magnitude becomes the product; the sign becomes the product of the signs, except that a zero is left alone |
| TpaKernel.N.QuotientDigit | lib/tpa.js:796-800 | the correction loop leaves the remainder below the divisor and keeps the division invariant |
| TpaKernel.N.LongDivide | lib/tpa.js:792-802 | for a divisor of two or more longs: dividend = quotient·divisor + remainder, 0 <= remainder < divisor |
| TpaKernel.N.QuotientPlaces | lib/tpa.js:793-801 | running the places from the top short down keeps the division invariant to the end |
| TpaKernel.N.QuotientPlace | lib/tpa.js:794-800 | one place: the next short moves into the remainder and the quotient digit is found |
| TpaKernel.N.DivideNonZero | lib/tpa.js:778-805 | for non-zero operands: dividend = quotient·divisor + remainder with remainder < divisor, and the signs as `divide` sets them |
| TpaKernel.N.DivideLarger | lib/tpa.js:790-803 | a dividend above the divisor is divided by one long or by long division, with the same identity |
| TpaKernel.N.Divide | lib/tpa.js:775-807 | fails exactly for a zero divisor, and then nothing changes. Otherwise the remainder identity holds and the signed quotient is the truncated quotient of the signed values |
| TpaKernel.Combine | lib/tpa.js:614-624 | a becomes a + b as signed numbers, taking the sign of the operand of larger magnitude |
| TpaLoops.AddLongs | lib/tpa.js:634-638 | the carry loop adds the operand's value and stops only once no carry is left |
| TpaLoops.SubtractLongs | lib/tpa.js:644-649 | the borrow loop subtracts the operand's value from a value at least as large |
| TpaLoops.SubtractMultipleLongs | lib/tpa.js:657-666 | the loop subtracts d times the operand |
| TpaLoops.MultiplyLongs | lib/tpa.js:679-684 | the loop gives value·m + d |
| TpaLoops.DivideLongs | lib/tpa.js:694-698 | division by longs from the top: value = quotient·divisor + overflow, with 0 <= overflow < divisor |
| TpaLoops.DivideShorts | lib/tpa.js:700-704 | the same, by shorts, for divisors of 2^16 or more |
| TpaLoops.RemainderLoop | lib/tpa.js:566-574 | the running remainder is congruent to the value modulo the factor |
| TpaLoops.ShiftShorts | lib/tpa.js:763-764 | the shorts move up one place and the 16-bit digit enters at the bottom |
| TpaLoops.ShiftLongs | lib/tpa.js:770-771 | the longs move up one place and the 32-bit digit enters at the bottom |
| TpaLoops.AccumulateRow | lib/tpa.js:713-718 | one row adds x times the digits, moved up i longs, carrying to the end |
| TpaLoops.CarryOut | lib/tpa.js:718 | the last carry of a row is carried up until none is left |
| TpaLoops.AccumulateLongs | lib/tpa.js:712-719 | all rows together add the operand's longs times the digits |
| TpaPrimes.Cache.constructor | lib/tpa.js:818-826 | `init` fills the shared cache with 2 and 3 |
| TpaPrimes.Primes.constructor | lib/tpa.js:828-830 | a new generator's cursor is at the first prime |
| TpaPrimes.Primes.Next | lib/tpa.js:832-851 | returns the cached prime under the cursor; 0, with nothing changed, when the cursor is past a full cache; otherwise the next prime, appended with no prime skipped |
| TpaPrimes.Search | lib/tpa.js:836-847 | the search returns the next odd prime after the last cached one |
| TpaKernelFindings.SubtractAsWritten | lib/tpa.js:644-649 | `subtract` as written keeps the value up to the borrow it drops at the operand's top |
| TpaKernelFindings.SubtractDropsBorrow | lib/tpa.js:644 | 2^32 − 1 computed as [0, 1] − [1] keeps long 1, giving 2^33 − 1 |
| TpaKernelFindings.RowAsWritten | lib/tpa.js:713-718 | one row of `accumulate` as written, whose final carry is added into a 32-bit store |
| TpaKernelFindings.AccumulateAsWritten | lib/tpa.js:712-719 | `accumulate` as written, row by row |
| TpaKernelFindings.AccumulateLosesCarry | lib/tpa.js:718 | (2^48 − 1)·65537 loses the carry that overflows the store |
| TpaKernelFindings.QuotientSignAsWritten | lib/tpa.js:779-788 | the sign `divide` leaves as written is 1 or the product of the signs |
| TpaKernelFindings.EqualCaseLosesSign | lib/tpa.js:786-788 | −1 / 1 gives +1, not the truncated quotient −1 |
| TpaKernelFindings.OverwriteAsWritten | lib/tpa.js:532 | `overwrite` and `copy` as written copy only the live longs and leave the rest of the storage |
| TpaKernelFindings.ResetAsWritten | lib/tpa.js:724 | `reset` as written zeroes only the live longs |
| TpaKernelFindings.ScaleAsWritten | lib/tpa.js:677-686 | `digitmultiply` as written, over the storage |
| TpaKernelFindings.StaleLongReused | lib/tpa.js:753-759 | a stale long left by overwrite and reset is counted back in by `accumulate`, so Tpa('-4294967296').add('4294967301').multiply(10) reads 2^48 + 50 |
| TpaRational.Tpa.constructor | lib/tpa.js:167-175 | `new Tpa()`/`new Tpa(false)`: zero, positive, in the given mode, with the remainder 0/1 |
| TpaRational.Tpa.Copy | lib/tpa.js:29-43 | a copy of the same mode, sign and value, with fresh magnitudes |
| TpaRational.Tpa.Split | lib/tpa.js:338-347 | the value is the integer part plus a signed fraction in [0, 1), which is zero exactly in integer mode or with a zero numerator |
| TpaRational.Tpa.IsZero | lib/tpa.js:236-238 | true exactly when the value is 0 |
| TpaRational.Tpa.HasFraction | lib/tpa.js:240-243 | true exactly when the value is not an integer |
| TpaRational.Tpa.FractionTerms | lib/tpa.js:411 | an operand brings a fraction exactly when it is fractional with a nonzero numerator, and that fraction is its fractional part |
| TpaRational.Tpa.NormaliseRemainder | lib/tpa.js:338-347 | the magnitude is kept. Afterwards the numerator is below the denominator, and a zero numerator has denominator 1 |
| TpaRational.Tpa.Compare | lib/tpa.js:294-303 | the sign of the difference of the values whenever the signs differ, the receiver is fractional or the operand is an integer; for an integer receiver and one sign, the order of the integer parts |
| TpaRational.Tpa.CompareOpposite | lib/tpa.js:296 | values of opposite signs are ordered by the receiver's sign, or equal when both are zero |
| TpaRational.Tpa.CompareMagnitudes | lib/tpa.js:297-301 | the integer parts decide, then the fractions |
| TpaRational.Tpa.AddOrSubtract | lib/tpa.js:394-428 | fractional mode gives exactly old ± the operand. Integer mode gives the sum or difference of the integer parts. The sign is the integer part's sign, and the operand keeps its value |
| TpaRational.Tpa.AddIntegers | lib/tpa.js:405-407 | integer mode: the integer parts combine |
| TpaRational.Tpa.AddFractions | lib/tpa.js:405-425 | fractional mode: the exact sum or difference |
| TpaRational.Tpa.CombineFractions | lib/tpa.js:407-424 | the integer parts combine, the fractions are brought over a common denominator, then borrowed and normalised |
| TpaRational.Tpa.Multiply | lib/tpa.js:349-365 | the sign is the product of the signs. Fractional mode gives the exact product; integer mode the product of the integer parts |
| TpaRational.Tpa.MultiplyIntegers | lib/tpa.js:363 | integer mode: the product of the integer parts |
| TpaRational.Tpa.MultiplyFractions | lib/tpa.js:355-362 | fractional mode: the exact product |
| TpaRational.Tpa.ScaleFractions | lib/tpa.js:355-362 | the magnitudes multiply and the signs multiply |
| TpaRational.Tpa.Divide | lib/tpa.js:367-384 | fails, with nothing changed, exactly when the divisor is zero. Otherwise the sign is the product of the signs; fractional mode gives the exact quotient, integer mode the truncated quotient of the integer parts |
| TpaRational.Tpa.DivideIntegers | lib/tpa.js:382 | integer mode: the truncated quotient of the integer parts, refused for a zero divisor |
| TpaRational.Tpa.DivideFractions | lib/tpa.js:373-380 | fractional mode: the exact quotient, refused for a zero divisor |
| TpaRational.Tpa.QuotientFractions | lib/tpa.js:373-380 | the magnitudes divide and the signs multiply |
| TpaRational.Tpa.Mod | lib/tpa.js:386-392 | fails exactly when the operand's integer part is zero. Otherwise the value becomes the truncated remainder of the integer parts, and the operand is kept |
| TpaRational.Tpa.Truncate | lib/tpa.js:389-390 | the integer part becomes the remainder and the fraction 0/1 |
| TpaRational.Tpa.Int | lib/tpa.js:325-331 | the value becomes its integer part, less than 1 closer to zero |
| TpaRational.Tpa.Frac | lib/tpa.js:333-336 | the value loses its integer part, leaving a signed fraction in (-1, 1) |
| TpaRational.AddMagnitudes | lib/tpa.js:407-424 | the magnitude parts of a fractional sum denote the signed sum of the two values, with a proper fraction |
| TpaRational.AddParts | lib/tpa.js:407-414 | the integer parts and the cross products over the product of denominators make up the signed sum |
| TpaRational.SettledSum | lib/tpa.js:409-423 | after the borrow, the parts still hold the signed sum, with a numerator that has the integer part's sign whenever it is top-heavy |
| TpaRational.SumRemainders | lib/tpa.js:410-415 | the numerator becomes the signed cross sum over the product of the denominators |
| TpaRational.CrossSum | lib/tpa.js:413-414 | n·td + tn·d as signed numbers, with d multiplied by td |
| TpaRational.Settle | lib/tpa.js:416-423 | a borrow that keeps the signed total and leaves a top-heavy numerator only with the integer part's sign |
| TpaRational.Borrow | lib/tpa.js:419-421 | one comes off the integer part and the numerator becomes denominator − numerator, keeping the signed total |
| TpaRational.SumOfValues | lib/tpa.js:413-414 | the integer parts and the cross products over d1·d2 denote the sum of the two values |
| TpaRational.NormaliseParts | lib/tpa.js:339-346 | top-heavy numerators fold into the integer part, keeping the magnitude; a zero numerator gets denominator 1 |
| TpaRational.FoldQuotient | lib/tpa.js:340-344 | the quotient of numerator by denominator joins the integer part and the remainder stays, the total being kept |
| TpaRational.CrossCompare | lib/tpa.js:299 | the sign of n1·d2 − d1·n2 |
| TpaRational.OppositeSigns | lib/tpa.js:296 | values of opposite signs, not both zero, are ordered by the first one's sign |
| TpaRational.FracOrder | lib/tpa.js:299 | two fractions are ordered as their cross products |
| TpaRational.OrderByParts | lib/tpa.js:297-301 | under one sign, the integer parts decide unless they are equal, then the fractions, the verdict turned round for negatives |
| TpaRational.MultiplyMagnitudes | lib/tpa.js:356-362 | the magnitude parts become the exact product of the two magnitudes, with a proper fraction |
| TpaRational.FractionProduct | lib/tpa.js:357-359 | numerator n1·(n2 + d2·m2) + n2·m1·d1 over d1·d2 |
| TpaRational.SumTerm | lib/tpa.js:357 | a fresh n + d·m |
| TpaRational.CrossTerm | lib/tpa.js:358 | a fresh n·m·d |
| TpaRational.ProductOfValues | lib/tpa.js:357-361 | m1·m2 plus that numerator over d1·d2 is the product of the two values |
| TpaRational.DivideMagnitudes | lib/tpa.js:373-380 | the exact quotient of the magnitudes with a proper fraction, or nothing changed for a zero divisor |
| TpaRational.Dividend | lib/tpa.js:378 | the integer part becomes m·d + n |
| TpaRational.Divisor | lib/tpa.js:376 | the divisor m2·d2 + n2, or m2 for an operand without a fraction |
| TpaRational.DivideBy | lib/tpa.js:375-379 | the dividend over d·k splits into a quotient and a proper remainder |
| TpaRational.QuotientOfValues | lib/tpa.js:375-376 | that quotient and remainder denote the quotient of the two values |
| TpaRationalFindings.BorrowAsWritten | lib/tpa.js:416-423 | the borrow as written, which also fires for a zero numerator |
| TpaRationalFindings.ZeroNumeratorBorrow | lib/tpa.js:416 | with a zero numerator the borrow as written is harmless only for a positive integer part |
| TpaRationalFindings.FiveMinusEight | lib/tpa.js:416-423 | Tpa('5.0').subtract(8) settles at -1 and not -3 |
| TpaRationalFindings.CompareAsWritten | lib/tpa.js:294-303 | `compare` as written: the receiver's sign when the signs differ |
| TpaRationalFindings.NegativesReversed | lib/tpa.js:297 | two negative values are ordered the wrong way round |
| TpaRationalFindings.MinusFiveAboveMinusThree | lib/tpa.js:297 | Tpa(-5).compare(-3) is 1 |
| TpaRationalFindings.NegativeZeroBelowZero | lib/tpa.js:296 | a zero with sign -1 compares below a positive zero |
| TpaRationalFindings.ProductNumeratorAsWritten | lib/tpa.js:357-358 | the numerator `multiply` builds as written, exact only when both numerators are positive |
| TpaRationalFindings.StaleSignProduct | lib/tpa.js:352-358 | Tpa('-1 1/2').add(0).multiply('1 1/2') builds the numerator -1 instead of 5 |
| TpaRationalFindings.DividendAsWritten | lib/tpa.js:375-378 | the dividend `divide` forms as written, too small for a negative numerator |
| TpaRationalFindings.StaleSignQuotient | lib/tpa.js:370-378 | Tpa('-1 1/2').add(0).divide(1) forms the dividend 1 instead of 3 |
| TpaRationalFindings.PointReadingAsWritten | lib/tpa.js:135-138 | the '.' branch as written stores the decimal remainder unnormalised |
| TpaRationalFindings.RecurringNines | lib/tpa.js:137 | '0.[9]' keeps 9/9, not a proper fraction, where the normalised reading is 1 |
| TpaParse.ParseInteger | lib/tpa.js:73-78 | reads the run of digits, ending at the first non-digit, into a positive number worth their decimal value |
| TpaParse.DecimalScan | lib/tpa.js:80-105 | an accepted decimal remainder lies in [0, 1] with a positive denominator |
| TpaParse.ParseDecimal | lib/tpa.js:80-105 | the method gives exactly the error or remainder DecimalScan specifies |
| TpaParse.DecimalLoop | lib/tpa.js:82-102 | from any state the loop reaches, running on gives DecimalScan's outcome |
| TpaParse.ScanDecimal | lib/tpa.js:82-104 | the character loop reaches DecimalScan's outcome |
| TpaParse.OpenRecurring | lib/tpa.js:83-89 | the first '[' copies the remainder read so far |
| TpaParse.CloseRecurring | lib/tpa.js:90-97 | ']' is refused unless it ends the text, follows a nonzero digit and closes a nonempty cycle; then the copy is subtracted |
| TpaParse.AppendDigit | lib/tpa.js:98-100 | a digit: the numerator becomes 10·n + digit and the denominator 10·d |
| TpaParse.FractionScan | lib/tpa.js:107-115 | an accepted fraction has a positive numerator and denominator |
| TpaParse.ParseFraction | lib/tpa.js:107-115 | the method gives exactly the error or fraction FractionScan specifies |
| TpaParse.SplitRemainder | lib/tpa.js:118-123 | numerator = quotient·denominator + rest, with 0 <= rest < denominator |
| TpaParse.PointReading | lib/tpa.js:135-138 | the '.' reading: a proper fraction of the same denominator, the same value |
| TpaParse.MixedReading | lib/tpa.js:140-145 | the ' ' reading: the fraction's quotient joins the integer part, keeping the value in fractional mode |
| TpaParse.FractionReading | lib/tpa.js:147-157 | the '/' reading: m/d as quotient and proper remainder; integer mode keeps the quotient |
| TpaParse.Scan | lib/tpa.js:125-165 | every accepted text gives a proper reading (proper fraction, positive denominator, a zero never negative) |
| TpaParse.TailScan | lib/tpa.js:131-162 | every branch after the integer part gives a proper reading or an error |
| TpaParse.ReadPoint | lib/tpa.js:135-138 | errors exactly as DecimalScan; otherwise the remainder is normalised into the integer part |
| TpaParse.ReadMixed | lib/tpa.js:140-145 | errors exactly as FractionScan; otherwise the quotient joins the integer part and the proper remainder stays |
| TpaParse.ReadFraction | lib/tpa.js:150-156 | refuses a denominator that does not end the text or is zero; otherwise quotient and remainder of m by d |
| TpaParse.ReadTail | lib/tpa.js:131-161 | the branch the character after the integer part chooses ends as TailScan states |
| TpaParse.PointTail | lib/tpa.js:135-138 | the '.' branch ends as TailScan states |
| TpaParse.MixedTail | lib/tpa.js:140-145 | the ' ' branch ends as TailScan states |
| TpaParse.FractionTail | lib/tpa.js:147-157 | the '/' branch ends as TailScan states |
| TpaParse.Assemble | lib/tpa.js:163 | the new Tpa holds the settled reading, a zero being positive |
| TpaParse.Parse | lib/tpa.js:125-165 | `new Tpa(s, integer)` throws exactly the error Scan gives and otherwise holds Scan's reading |
| TpaTexts.ScanHead | lib/tpa.js:126-133 | the sign and integer digits are read and the next character chooses the branch |
| TpaTexts.IntegerText | lib/tpa.js:129-130 | digits alone read as that integer, signed, in integer mode unless asked otherwise |
| TpaTexts.DecimalText | lib/tpa.js:135-138 | a.b reads as a + b/10^len(b); another character after the digits is refused |
| TpaTexts.IntegerPointText | lib/tpa.js:137 | in integer mode whatever follows the point is ignored |
| TpaTexts.RecurringText | lib/tpa.js:83-103 | a.p[c] reads as the remainder (pc − p)/(10^len(pc) − 10^len(p)), and each malformed form gets its own error |
| TpaTexts.RecurringMeaning | lib/tpa.js:94-95 | that remainder is p/10^len(p) plus the cycle c repeated for ever |
| TpaTexts.MixedText | lib/tpa.js:140-145 | a n/d reads as a + n/d; a zero numerator, or a denominator that is zero or does not end the text, is refused |
| TpaTexts.MixedOpenText | lib/tpa.js:110 | a numerator not followed by '/' is refused |
| TpaTexts.FractionText | lib/tpa.js:147-157 | n/d reads as n/d; a zero numerator, or a bad denominator, is refused |
| TpaTexts.OtherText | lib/tpa.js:159-160 | any other character after the integer part is refused |
| TpaTexts.PointValue | lib/tpa.js:135-138 | a '.' reading denotes ±(a + fraction) |
| TpaTexts.MixedValue | lib/tpa.js:140-145 | a ' ' reading denotes ±(a + n/d), or its whole part in integer mode |
| TpaTexts.FractionValue | lib/tpa.js:147-157 | a '/' reading denotes ±n/d, or its whole part in integer mode |
| TpaTexts.ReadingMagnitude | lib/tpa.js:163 | the reading's value is the magnitude with the text's sign, a zero being positive |
| TpaRender.IntText | lib/tpa.js:455-458 | the integer loop writes the decimal digits of the magnitude, none for zero |
| TpaRender.TakeDigit | lib/tpa.js:457 | one step takes the last decimal digit off the magnitude |
| TpaRender.NumeralText | lib/tpa.js:455-458 | the magnitude in decimal, "0" for zero |
| TpaRender.Expand | lib/tpa.js:464-475 | the expansion's digits are decimal digits, and a cycle found starts inside them |
| TpaRender.FractionDigits | lib/tpa.js:463-476 | the fraction loop writes exactly the text of the expansion of n/d: a bracketed cycle, a terminating run, or "..." when the limit cuts it short |
| TpaRender.Step | lib/tpa.js:472-474 | the numerator is stored and becomes 10·n mod d, and the digit written is 10·n div d |
| TpaRender.NextDigit | lib/tpa.js:473-474 | the next digit is 10·n div d and the next numerator 10·n mod d |
| TpaRender.Search | lib/tpa.js:465-467 | the search of the stored numerators finds the last index holding the current value, or -1 |
| TpaRender.LastIndexIs | lib/tpa.js:465-467 | an index holding x with no later x is the last occurrence |
| TpaRender.PointText | lib/tpa.js:462-476 | the point, then the expansion of the remainder |
| TpaRender.ToString | lib/tpa.js:450-481 | the text is Render of the fields: sign, integer digits ("0" when needed), point and expansion for a nonzero remainder, with the limit 100 unless a number is given |
| TpaRender.ToFraction | lib/tpa.js:434-448 | the text is the integer alone, or the integer, a space and n/d for a nonzero numerator, with the sign in front |
| TpaRender.RatioText | lib/tpa.js:441-446 | " n/d" in decimal |
| TpaRender.ExpansionExact | lib/tpa.js:464-475 | a complete expansion of n/d denotes n/d |
| TpaRender.RecurringRender | lib/tpa.js:468-471 | a recurring expansion reads back through the '.' branch as the remainder it denotes |
| TpaRender.DecimalRender | lib/tpa.js:464-475 | a terminating expansion reads back as its digits over 10^len |
| TpaRender.TruncatedRender | lib/tpa.js:476 | an expansion cut short ends in "...", which the parser refuses |
| TpaRender.IntegerRender | lib/tpa.js:477-479 | a value without a fraction is written as an integer and reads back as one |
| TpaRender.ToStringRoundTrip | lib/tpa.js:450-481 | whenever the expansion is written in full, parsing the text `toString` writes gives back the value |
| TpaRender.ExpandComplete | lib/tpa.js:464-475 | with at least d digits allowed the expansion of n/d is complete, because the numerators met are distinct and below d |
| TpaRender.LimitSuffices | lib/tpa.js:451 | the default limit of 100 digits writes in full every fraction whose denominator is at most 100 |
| TpaRender.ToFractionRoundTrip | lib/tpa.js:434-448 | parsing the text `toFraction` writes gives back the value |
| TpaRender.RecurringExample | lib/tpa.js:80-105 | '3.33[33]' reads as 3 and the remainder 3300/9900 |
| TpaRender.RenderExample | lib/tpa.js:450-481 | 3 and the remainder 3300/9900 print as '3.[3]' |
| TpaSimplify.Budget | lib/tpa.js:182 | the budget is 100 milliseconds unless one is given |
| TpaSimplify.Sieve | lib/tpa.js:189-193 | the prime leaves the numerator; the denominator loses it, or else the factor gains it; numerator·factor over the denominator keeps its ratio |
| TpaSimplify.SieveOnce | lib/tpa.js:190-192 | one turn lowers the numerator and keeps the ratio |
| TpaSimplify.Advance | lib/tpa.js:188 | the next prime of the sweep follows the previous one with no prime between |
| TpaSimplify.Treat | lib/tpa.js:189-193 | after one prime, every prime up to it is dealt with |
| TpaSimplify.Round | lib/tpa.js:189-198 | one turn of the sweep stops exactly when the time is past a positive budget |
| TpaSimplify.One | lib/tpa.js:187 | a fresh positive 1 |
| TpaSimplify.Start | lib/tpa.js:185-188 | a new generator gives 2 first |
| TpaSimplify.Sweep | lib/tpa.js:188-199 | the sweep keeps the ratio, and a sweep that ran past the bound has dealt with every prime up to it; it ends early only when the clock passes the budget or the prime cache is full |
| TpaSimplify.Simplify | lib/tpa.js:178-208 | the value, sign and mode are kept. Integer mode and a zero numerator change nothing and return true. After a completed sweep, no prime up to the bound divides both numerator and denominator, and they are coprime when the bound reaches the square root of the numerator. false only after the budget runs out or the cache fills |
| TpaSimplify.Reduce | lib/tpa.js:187-207 | the fraction keeps its ratio and stays proper, with coprime parts under the same conditions |
| TpaSimplify.Quotient | lib/tpa.js:200-202 | exact exactly when the numerator divides the denominator, and then the quotient |
| TpaSimplify.Lowest | lib/tpa.js:200-206 | an exact division gives factor / (d/n), with a positive denominator; otherwise n·factor / d |
| TpaSimplify.LowestAsWritten | lib/tpa.js:200-206 | the end of `simplify` as written, whose denominator takes the numerator's sign |
| TpaSimplify.NegativeDenominator | lib/tpa.js:200-205 | Tpa('-1 1/2').add(0).simplify() leaves a denominator of sign -1 |
| TpaSimplify.SweptCommon | lib/tpa.js:188-207 | after a completed sweep no prime up to the bound divides both parts |
| TpaSimplify.SweptCoprime | lib/tpa.js:184-207 | when the bound reaches the square root of the numerator, the parts are coprime |

## Left out

- LongDivision.Estimate: uses an exact integer division where lib/N.js:467-469 divides JavaScript floats. The estimate can therefore differ by rounding. Every estimate of at least 1 that does not overshoot is proved to keep the correction loop correct, so the quotient and remainder are unaffected.
- TpaKernel.Estimate: uses exact integer division for the float expression of lib/tpa.js:797, for the same reason.
- TpaRational.Tpa.Divide: returns false and changes nothing for a zero divisor. The source throws (lib/tpa.js:776) after it has already changed the receiver, and that partial state is not modelled. Lines 370-372 have set the signs. In fractional mode, lines 375-379 have also made the integer part m1·d1 + n1, times d2 when the operand is fractional, and have multiplied the denominator by the zero divisor while building the argument of `divide`.
- TpaRational.Tpa.Mod: requires an operand distinct from the receiver. `x.mod(x)` calls `this.copy()` (lib/tpa.js:387), which `Tpa` does not define, so it throws a TypeError. That error is not modelled.
- BigInt.N.Divide: requires a divisor other than the receiver. Aliasing in the source (`n.divide(n)`) is not modelled.
- BigInt.N.Divide: gives the divisor's digits one sign before the single-digit test, as it does the dividend's (the lib/N.js:432 row under Findings). A divisor below BASE in magnitude but held with two digits, such as [−1, 1] = BASE−1, is therefore divided by its single digit. As written it reaches long division with a one-digit magnitude, where the estimate (lib/N.js:467-469) reads a divisor digit that does not exist; that path is not modelled.
- TpaKernel.N.Multiply: requires an operand other than the receiver. `Tpa.N.multiply(this)` resets its own operand and gives 0 (lib/tpa.js:753-759). `Tpa` never calls it that way, and it is not modelled.
- TpaKernel.N.Divide: requires a divisor other than the receiver, likewise. `TpaKernel.N.Add`, `TpaKernel.N.Subtract` and `TpaKernel.N.Accumulate` have the same restriction; `Tpa` never aliases them.
- TpaKernel.N.Overwrite: copies the whole storage, and `TpaKernel.N.Copy` and `TpaKernel.N.Reset` keep every short from shortcount on at zero. The source copies and clears only the live longs (lib/tpa.js:532, 546, 724), and `digitmultiply`/`accumulate` can count stale longs back in. The as-written behaviour and an input that exposes it are under Findings; the rest of the model uses the clean storage.
- BigInt.N.Normalise, BigInt.SafeSum, BigInt.N.Accumulate (so Add and Subtract), BigInt.N.Multiply, BigInt.N.Divide, BigInt.N.TakeNextDigit: carry the corrected behaviour described under Findings, not the code as written. SafeSum counts the operand's bound after a forced carry pass, where lib/N.js:297-298 drops it.
- TpaKernel.N.Subtract, TpaKernel.N.Accumulate, TpaKernel.N.Divide, TpaKernel.N.DivideNonZero: carry the corrected behaviour described under Findings.
- TpaRational.Settle, TpaRational.Tpa.Compare, TpaRational.Tpa.Multiply, TpaRational.Tpa.Divide, TpaParse.PointReading, TpaSimplify.Lowest: carry the corrected behaviour described under Findings.
- TpaParse.Parse: follows the code for `Tpa('0/123')`, which is refused with "fraction only input must have a numerator" (lib/tpa.js:148), although the library's tests expect zero.
- TpaSimplify.Simplify: the sweep bound `roughSqrt().value()` (lib/tpa.js:184, 554-561) is a free `limit` parameter, because it is computed with `Math.log` and `Math.pow`. The wall clock `new Date().getTime()` (lib/tpa.js:186, 194) is a free `clock` function. The sweep is also cut at 2^32, a modelling bound: the source's digit division and multiplication accept only divisors below 2^32. The check that a given budget is a number (lib/tpa.js:180-181) is not modelled.
- TpaRender.ToString: takes the digit limit as an optional integer. A non-integral `maxdp` such as 2.5 makes the source write 3 digits and never append "..." (lib/tpa.js:464, 476); that is not modelled.
- TpaRational.Tpa.Copy: models `new Tpa(t)` keeping the mode of t. `new Tpa(t, false)` for an integer t, which turns the copy fractional (lib/tpa.js:26-33), is not modelled.
- BigInt.N.Valid: ties `safemaximum` to the digits only below BASE, where the digits must be normalised. The bound on larger digits, and exactness of digit arithmetic under 2^53, are not modelled: integers are unbounded.
- Construction from a JavaScript number (lib/tpa.js:45-71) and `value()` (lib/tpa.js:245-252, lib/N.js:245-248) are floating-point approximations.
- `_roughSqrt`/`roughSqrt` (lib/N.js:591-603, lib/tpa.js:554-561) use `Math.sqrt` and `Math.log`; the sweep bound is the `limit` parameter instead.
- `random` (lib/N.js:389-399, lib/tpa.js:286-292, 742-751) is nondeterministic.
- `setBASE`/`getBASE` (lib/N.js:97-116) are test hooks; BASE is the constant 2^25.
- `N.temporary` (lib/N.js:644-650), the named `workers` cache of `copy(name)` (lib/tpa.js:538-552), and `setSize`/`checkSize` (lib/tpa.js:512-521, 580-584) are storage management. Storage is an unbounded sequence and every copy is fresh.
- Wrappers are left out because each is one call to a modelled member:
  - `lsb`, `isPositive`, `digitMultiply`, `quotient` and `N.abs` in lib/N.js;
  - `lt`/`lte`/`gt`/`gte`/`eq`, `toDecimal`, `isInteger`/`isFractional`/`isNegative`/`isPositive`, `makeInteger`/`makeFractional`, the static `Tpa.add` and friends, and the aliases `minus`/`times`/`div` in lib/tpa.js.
- Operands given as strings or numbers are converted with `Tpa(x)` before each operation. The model takes the converted `Tpa`, which `TpaParse.Parse` produces.
- The export plumbing (lib/tpa.js:867-874) is not logic.

## Findings

| source | as written | input that shows it | evidently intended | confidence | as-written member | corrected member |
|---|---|---|---|---|---|---|
| lib/N.js:138 | the carry left after the pass is pushed as a single digit, which can equal BASE | three digits BASE²−1 under bound BASE²−1 give [BASE−1, BASE−2, BASE−1, BASE] under bound BASE−1 | every digit inside (−BASE, BASE) after `normalise` | not executed | BigIntFindings.NormaliseLeavesBaseDigit | BigInt.N.Normalise |
| lib/N.js:297-298 | `add` sums the bounds; once that reaches BASE² the carry pass resets the bound to BASE−1 and the operand's share is lost | [BASE·(BASE−1)] plus [2·BASE−2] leaves [2·BASE−2, BASE−1] under bound BASE−1 | a bound that still covers every digit | not executed | BigIntFindings.AddUndercountsBound | BigInt.N.Accumulate |
| lib/N.js:349-354 | the operand's single digit is used without normalising the operand, so it can exceed BASE | [BASE−1] times [2·BASE−2] (bound 2·BASE−2) gives [2, 2·BASE−4] under bound BASE−1 | normalise the operand before the single-digit test | not executed | BigIntFindings.MultiplyByLargeDigit | BigInt.N.Multiply |
| lib/N.js:424-429 | the divisor is normalised only when its bound has reached BASE, so a zero held as [0] passes the zero test | N(3).subtract(N(3)).multiply(N(33554431)) as divisor | "Attempt to divide by zero" | not executed | BigIntFindings.ZeroDivisorAccepted | BigInt.N.Divide |
| lib/N.js:432 | the single-digit shortcut runs before `positivise`, so a positive dividend with a negative digit gets a negative remainder | [−1, 2] = 2·BASE−1 divided by 2 gives the remainder −1 | the truncated remainder 1 and quotient BASE−1, as for a dividend whose digits share one sign | not executed | BigIntFindings.SingleDigitRemainderSign | BigInt.N.Divide |
| lib/N.js:475-479 | the window is shifted without trimming, so an emptied window refills with top zeros and `compare` (length first) calls it larger than the divisor | BASE^4+5 divided by BASE: the window [5, 0, 0] is worth 5 but compares above [0, 1], and the correction loop never ends | trim the window after each shift | not executed | BigIntFindings.DivideWindowLoops | BigInt.N.TakeNextDigit |
| lib/tpa.js:644 | the borrow loop stops at the subtrahend's last long and drops the borrow out of it | [0, 1] − [1] gives [2^32−1, 1], worth 2^33−1, instead of 2^32−1 | borrow on while a borrow remains | not executed | TpaKernelFindings.SubtractDropsBorrow | TpaKernel.N.Subtract |
| lib/tpa.js:718 | the carry out of a row is added into a 32-bit store, which wraps | (2^48−1)·65537 as `multiply` computes it | carry up until none is left | not executed | TpaKernelFindings.AccumulateLosesCarry | TpaKernel.N.Accumulate |
| lib/tpa.js:786-788 | equal magnitudes give `set(1)`, which resets the sign set at line 779 | Tpa.N −1 divided by 1 gives +1 | the truncated quotient −1 | not executed | TpaKernelFindings.EqualCaseLosesSign | TpaKernel.N.Divide |
| lib/tpa.js:523-536 | `overwrite` and `copy` transfer only the live longs and `reset` clears only those, while `accumulate` and `digitmultiply` count longs above them | Tpa('-4294967296').add('4294967301').multiply(10) reads 2^48+50 | 50 | not executed | TpaKernelFindings.StaleLongReused | TpaKernel.N.Overwrite |
| lib/tpa.js:416-423 | the borrow fires on a zero numerator whose sign differs from the integer part's | Tpa('5.0').subtract(8) settles at −1 | −3 | not executed | TpaRationalFindings.FiveMinusEight | TpaRational.Settle |
| lib/tpa.js:352-358 | `multiply` resets the integer parts' signs but not the numerators', which `addorsubtract` leaves signed | Tpa('-1 1/2').add(0).multiply('1 1/2') builds the numerator −1 instead of 5 | the numerators as magnitudes: −2 1/4 | not executed | TpaRationalFindings.StaleSignProduct | TpaRational.Tpa.Multiply |
| lib/tpa.js:370-378 | `divide` forms its dividend with the numerator's stale sign | Tpa('-1 1/2').add(0).divide(1) forms the dividend 1 instead of 3 | −1 1/2 | not executed | TpaRationalFindings.StaleSignQuotient | TpaRational.Tpa.Divide |
| lib/tpa.js:297 | for two negative values the magnitude order is returned unchanged | Tpa(-5).compare(-3) is 1 | −1 | not executed | TpaRationalFindings.MinusFiveAboveMinusThree | TpaRational.Tpa.Compare |
| lib/tpa.js:296 | a zero with sign −1, which Tpa(1).subtract(1) leaves, differs in sign from 0 and so compares below it | Tpa(1).subtract(1).compare(0) is −1 | 0 | not executed | TpaRationalFindings.NegativeZeroBelowZero | TpaRational.Tpa.Compare |
| lib/tpa.js:137 | the '.' branch stores the decimal remainder without normalising it | '0.[9]' is stored as 0 and 9/9 | 1 | not executed | TpaRationalFindings.RecurringNines | TpaParse.PointReading |
| lib/tpa.js:200-205 | the quotient that becomes the denominator takes the sign of a numerator left negative by `addorsubtract` | Tpa('-1 1/2').add(0).simplify() leaves a denominator of sign −1 | a positive denominator | not executed | TpaSimplify.NegativeDenominator | TpaSimplify.Lowest |
