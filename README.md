# NonSmallInt in Dafny

A model of the `NonSmallInt` arbitrary-precision natural numbers of
`src/lib.rs`, with proofs about the model.

A `NonSmallInt` is a little-endian vector of decimal digits. Index 0 holds the
least significant digit, and `RADIX` is 10. Here it is a `seq<nat>`. The data
invariant is `ValidDigits`: every digit is below 10. The abstraction function
is `Val(d) = Σ d[i]·10^i`.

Every operation is stated against `Val`. Where the source determines the exact
digits of a result, the contract pins them down too. Some contracts use one of
three reference representations for this. Others state that the digits are
valid, how many are stored and what they denote, which fixes every digit
(Numeral.PaddedOfVal). The one result whose digits are left open is
`Multiply.Pow` of a zero base (see "## Left out"). The reference
representations are:

- `FromNat(x)`: the canonical digits of `x`, with no stored high zero. Zero has
  no digits at all.
- `Padded(x, w)`: the digits of `x` written in at least `w` positions.
- `PaddedTo(d, w)`: `d` holds exactly `Padded(Val(d), w)`.

## Modules

One module per concern, following the structure of the source:

- `Numeral`: the digit store, `Val`, `lookup`, zero-padded views, and the
  reference representations.
- `DigitWindow`: the `Digits` double-ended iterator. It is a class with the
  two cursor fields that `next` and `next_back` update.
- `Compare`: `length`, `is_zero`, `==`, `lt` and `cmp`.
- `Decimal`: `parse`, `of`, and the text that `Display` writes.
- `AddSub`: `Add`, `safe_sub`, `Sub` and `Sum`.
- `Multiply`: `Mul<u32>`, `times_radix`, `Mul` and `pow`.
- `ScalarDivision`: `div_u32`, `Div<u32>` and `Rem<u32>`.
- `AlgorithmD`: `long_division`, which is Knuth's Algorithm D. This module
  holds `trial`, `smaller`, the in-place `difference` on a remainder buffer
  class, and the `longdivide` loop.
- `Division`: the `div_nsi` dispatch, and the `Div` and `Rem` operators.
- `Scenarios`: the `double_sided_iter_digits` test and a few other concrete
  scenarios, checked by assertions.

Loops in the source are methods with loop invariants, except the loop of
`Display`, which is the recursive function `Decimal.RenderDigits`. State updated in place
lives in classes: the iterator's cursors, and the remainder digits that
`difference` overwrites. Expression-level code is functions and lemmas.

## Model

| member | source | states |
|---|---|---|
| Numeral.FromNat | src/lib.rs:21-23 | the canonical digit sequence of a number is valid, has no stored high zero, and denotes that number |
| Numeral.Padded | src/lib.rs:21-23 | writing a number in at least w positions gives valid digits that denote it, exactly w of them when it is below 10^w |
| Numeral.ValBound | src/lib.rs:21-23 | valid digits of length n denote a number below 10^n |
| Numeral.FromNatOfVal | src/lib.rs:21-23 | a valid digit sequence without a stored high zero is the canonical digits of its value |
| Numeral.PaddedOfVal | src/lib.rs:21-23 | every valid digit sequence is its value padded to its own length, so the representation of a value at a given width is unique |
| Numeral.DivisionDigits | src/lib.rs:84-116 | valid quotient and remainder digits that satisfy the division equation with a remainder below the divisor are exactly x div y and x mod y written at their stored widths |
| Numeral.PaddedToUnique | src/lib.rs:21-23 | valid digits, at least w of them, with no stored high zero above the first w, are exactly the digits of their value padded to w |
| Numeral.Lookup | src/lib.rs:205-207 | `lookup`, the stored digit or 0 past the end; its meaning is stated by Numeral.ValView, which reads the value through it |
| Numeral.ValZeroIff | src/lib.rs:79-81 | the value is zero exactly when every stored digit is zero |
| Numeral.HighZerosIgnored | src/lib.rs:56 | stored high zeros do not change the value |
| Numeral.ValView | src/lib.rs:205-207 | the value splits into the digits below k, the zero-padded window of positions k to k+len-1 read through `lookup`, and the digits above it |
| Numeral.ValSplice | src/lib.rs:237-248 | overwriting a window of positions changes the value only through the window's own value |
| Numeral.TopDigitDecides | src/lib.rs:125-127 | for equal-length digit sequences, appending a top digit to each orders them by those digits first, then by the rest |
| Numeral.LexAt | src/lib.rs:224-235 | when two equal-length sequences agree above position i, their numeric order is decided at position i and then below it |
| DigitWindow.Window.Next | src/lib.rs:158-169 | `next` returns `None` exactly when no position is left; otherwise it returns the zero-padded digit at the front cursor and drops that position from the unread ones |
| DigitWindow.Window.NextBack | src/lib.rs:173-184 | `next_back` returns `None` exactly when no position is left; otherwise it returns the zero-padded digit at the back cursor and drops the last unread position |
| DigitWindow.Window.constructor | src/lib.rs:149-151 | `iter_digits(length)` leaves positions 0 to length-1 unread |
| DigitWindow.ZipNext | src/lib.rs:137 | one step of `zip` advances the second window only when the first yields, and yields the pair of front digits when both do |
| DigitWindow.ReadForward | src/lib.rs:149-170 | reading a window of length L from the front until `next` returns `None` gives positions 0 to L-1, zero-padded |
| DigitWindow.ReadBackward | src/lib.rs:123-124 | `rev().collect()` of a window of length L gives positions L-1 down to 0, zero-padded |
| Compare.SigLen | src/lib.rs:54-60 | `length` skips the run of high zeros: positions from the length on are zero, and the top counted digit is nonzero |
| Compare.IsZero | src/lib.rs:79-81 | `is_zero` holds exactly when the significant length is zero |
| Compare.IsZeroIffZero | src/lib.rs:79-81 | `is_zero` holds exactly when the value is zero |
| Compare.SigLenValue | src/lib.rs:54-60 | a number with significant length n lies in [10^(n-1), 10^n) |
| Compare.SigLenCanonical | src/lib.rs:54-60 | the significant digits are the canonical digits of the value, so `length` is the number of decimal digits of the value |
| Compare.Eq | src/lib.rs:280-284 | `PartialEq::eq`, comparing the digits below the high zeros; Compare.EqIffSameValue gives its meaning |
| Compare.LtFrom | src/lib.rs:122-128 | the top-down zip-and-skip search of `lt`; Compare.LtFromIsLess gives its meaning |
| Compare.Lt | src/lib.rs:118-130 | `lt`; Compare.LtIsLess gives its meaning |
| Compare.Cmp | src/lib.rs:420-430 | `Ord::cmp`; Compare.CmpIsNumeric gives its meaning |
| Compare.EqIffSameValue | src/lib.rs:280-284 | `==` holds exactly when the two numbers have the same value |
| Compare.LtFromIsLess | src/lib.rs:122-128 | the top-down zip-and-skip search over the zero-padded windows finds "less" exactly when the low positions denote a smaller number |
| Compare.LtIsLess | src/lib.rs:118-130 | `lt` holds exactly when the value is smaller |
| Compare.FewerDigitsSmaller | src/lib.rs:119 | fewer significant digits means a smaller value |
| Compare.CmpIsNumeric | src/lib.rs:420-430 | `cmp` is the order of the values, as the `comparison` property checks against `u64::cmp` |
| Compare.HighZerosInvisible | src/lib.rs:54-60 | stored high zeros change neither `length`, nor `==`, nor `cmp` |
| Decimal.TrimStart | src/lib.rs:37 | the front half of `trim`; Decimal.TrimStartDrops gives its meaning |
| Decimal.TrimEnd | src/lib.rs:37 | the back half of `trim`; Decimal.TrimEndDrops gives its meaning |
| Decimal.Trim | src/lib.rs:37 | `trim`; Decimal.TrimIsTrimmed and Decimal.NumeralIsTrimmed give its meaning |
| Decimal.TrimStartDrops | src/lib.rs:37 | trimming the front keeps a suffix that does not start with white space, and everything it drops is white space |
| Decimal.TrimEndDrops | src/lib.rs:37 | trimming the back keeps a prefix that does not end with white space, and everything it drops is white space |
| Decimal.TrimIsTrimmed | src/lib.rs:37 | the trimmed text is no longer than the input and neither starts nor ends with white space |
| Decimal.DigitValue | src/lib.rs:39 | `to_digit(10)` of a digit character is below 10 |
| Decimal.DigitChar | src/lib.rs:29 | the character written for a digit parses back to that digit |
| Decimal.Reversed | src/lib.rs:44 | `reverse` puts element i at position len-1-i |
| Decimal.DecimalString | src/lib.rs:29 | `format!("{}", n)` is a non-empty string of decimal digits |
| Decimal.Parse | src/lib.rs:34-51 | `parse` returns `Some` exactly when every character of the trimmed text is a decimal digit; then it holds the digit values reversed, which are valid and denote the number read left to right |
| Decimal.DigitsOfValue | src/lib.rs:44-47 | the reversed digit values are valid digits denoting the text read left to right |
| Decimal.NumeralIsTrimmed | src/lib.rs:37 | a string of digits is unchanged by `trim` |
| Decimal.DecimalStringValue | src/lib.rs:29 | `format!` of n reads back as n, with no leading zero for positive n |
| Decimal.OfDigits | src/lib.rs:28-31 | parsing the numeral of n stores the canonical digits of n, and a single zero for zero; for positive n the significant length is the numeral's length, and for zero it is 0 |
| Decimal.Of | src/lib.rs:28-31 | `of(n)` holds the canonical digits of n (one `0` digit for zero), denotes n, and its `length` is 0 for zero and the number of decimal digits of n otherwise |
| Decimal.RenderDigits | src/lib.rs:437-441 | the loop of `Display::fmt`; Decimal.RenderDigitsParse gives its meaning |
| Decimal.Render | src/lib.rs:432-444 | `Display::fmt`; Decimal.RenderOf and Decimal.RenderParses give its meaning |
| Decimal.RenderOf | src/lib.rs:432-444 | `Display` of `of(n)` is `format!("{}", n)`, as the `displays` property checks |
| Decimal.RenderDigitsParse | src/lib.rs:437-441 | the digits written top first form a numeral that parses back to the very digits stored, high zeros included |
| Decimal.RenderParses | src/lib.rs:432-444 | the text `Display` writes needs no trimming and parses back to the stored digits (to one zero digit for a zero value) with the same value |
| Decimal.ZeroParses | src/lib.rs:435 | the text "0" parses to a single zero digit denoting zero |
| AddSub.Add | src/lib.rs:389-405 | the sum has canonical digits, denotes the sum of the values, and is at most one digit longer than the longer significant length |
| AddSub.AddColumn | src/lib.rs:395-399 | one column of the addition loop keeps the carry equation over the windows read so far |
| AddSub.AddResult | src/lib.rs:400-403 | after the last column and the final carry digit, the output is the canonical digits of the sum |
| AddSub.AddTopDigit | src/lib.rs:394-402 | the top output digit is nonzero: it is the final carry, or else the top column of the operand that sets the window length |
| AddSub.SafeSub | src/lib.rs:133-147 | `safe_sub` returns `None` exactly on underflow; otherwise exactly the digits of the difference written in the longer stored length |
| AddSub.SubColumn | src/lib.rs:137-141 | one column of the subtraction loop keeps the borrow equation, with the borrow in {0, 1} |
| AddSub.SubResult | src/lib.rs:142-146 | the final borrow is 1 exactly on underflow; with no borrow the output is the difference |
| AddSub.BorrowMeansUnderflow | src/lib.rs:142-146 | for numbers below a common power of ten, a wrapped subtraction leaves a borrow exactly when the subtrahend is larger, and the exact difference otherwise |
| AddSub.Sub | src/lib.rs:379-387 | `-` without underflow gives exactly the digits of the difference written in the longer stored length |
| AddSub.SumOfValuesAppend | src/lib.rs:446-454 | the sum of values over a concatenation is the sum of the two parts' sums |
| AddSub.Sum | src/lib.rs:446-454 | `Sum` denotes the sum of the values; the empty sum is `of(0)`, and any other sum has canonical digits |
| Multiply.MulScalar | src/lib.rs:326-344 | `a * s` denotes Val(a)·s and has at least the multiplicand's stored length, with no stored high zero beyond it |
| Multiply.ScalarColumn | src/lib.rs:331-336 | one column keeps the carry equation, and the carry never exceeds the scalar |
| Multiply.TimesRadix | src/lib.rs:63-69 | `times_radix(n)` is n zeros followed by the original digits, denoting Val(a)·10^n |
| Multiply.ShiftValue | src/lib.rs:63-69 | n low zeros multiply the value by 10^n |
| Multiply.Mul | src/lib.rs:353-363 | `*` denotes the product of the values; it is `of(0)` for an empty multiplier and canonical otherwise |
| Multiply.PartialProduct | src/lib.rs:357-360 | adding the shifted partial product of digit ix extends the product to one more multiplier digit |
| Multiply.Pow | src/lib.rs:71-77 | `pow(v, n)` denotes Val(v)^n; it is `of(1)` for n = 0, and otherwise canonical or a single zero digit |
| Multiply.PowerAdd | src/lib.rs:71-77 | exponents add under multiplication of powers, the law the recursion `v * v.pow(n-1)` unfolds |
| Multiply.PowerOfTen | src/lib.rs:63-77 | powers of ten by repeated multiplication are the place values used by `times_radix`, so `of(10).pow(n)` and `of(1).times_radix(n)` are the same number |
| ScalarDivision.DivU32 | src/lib.rs:84-104 | `div_u32` returns `None` exactly for a zero divisor; otherwise a quotient with the dividend's stored length denoting Val(a) div rhs, and the canonical digits of Val(a) mod rhs |
| ScalarDivision.DivColumn | src/lib.rs:90-95 | bringing down one digit keeps the division equation, gives a quotient digit below 10, and keeps the carry below the divisor |
| ScalarDivision.DivResult | src/lib.rs:96-102 | after the last digit the quotient and the carry are the true quotient and remainder |
| ScalarDivision.DivScalar | src/lib.rs:296-304 | `/ u32` with a nonzero divisor gives Val(a) div rhs in the dividend's stored length |
| ScalarDivision.RemScalar | src/lib.rs:316-324 | `% u32` with a nonzero divisor gives the canonical digits of Val(a) mod rhs |
| AlgorithmD.Leading3 | src/lib.rs:219 | the numerator `r3` of `trial`; AlgorithmD.LeadingWindow3 gives its meaning and AlgorithmD.TrialOperandsBounded its bound |
| AlgorithmD.Leading2 | src/lib.rs:220 | the denominator `d2` of `trial`; AlgorithmD.LeadingWindow2 gives its meaning and AlgorithmD.TrialOperandsBounded its bound |
| AlgorithmD.LeadingWindow3 | src/lib.rs:219 | `r3` is the value of the three-digit window of positions km-2 to km |
| AlgorithmD.LeadingWindow2 | src/lib.rs:220 | `d2` is the value of the two-digit window of positions m-2 and m-1 |
| AlgorithmD.TrialOperandsBounded | src/lib.rs:219-221 | for valid digits `r3` is below 1000 and `d2` below 100, so the `u64` arithmetic of `trial` cannot overflow |
| AlgorithmD.Trial | src/lib.rs:217-222 | the trial quotient digit is at most 9 |
| AlgorithmD.TrialEstimate | src/lib.rs:217-222 | for a divisor whose top digit is at least 5 and a window below ten divisors, the trial digit is never below the true quotient digit and at most one above it |
| AlgorithmD.TrialNotBelow | src/lib.rs:219-221 | for a window below ten divisors, the 3-by-2-digit estimate capped at 9, plus one, times the divisor exceeds the window |
| AlgorithmD.TrialAtMostOneOver | src/lib.rs:219-221 | when the divisor's two leading digits are at least 50, the capped 3-by-2-digit estimate times the divisor exceeds the window by at most one divisor |
| AlgorithmD.Smaller | src/lib.rs:224-235 | `smaller` holds exactly when the m+1-digit window of r at offset k denotes a smaller number than the low m+1 digits of dq |
| AlgorithmD.SmallerDecides | src/lib.rs:227-234 | where the top-down scan stops, the pair of digits there decides the numeric comparison of the two windows |
| AlgorithmD.DigitBuffer.constructor | src/lib.rs:256 | the remainder buffer starts as the given digits |
| AlgorithmD.DigitBuffer.Difference | src/lib.rs:237-248 | `difference` rewrites only the m+1 positions from k on (growing the buffer by at most one digit). The new window is the old window minus dq when dq is not larger, and wraps modulo 10^(m+1) otherwise |
| AlgorithmD.DifferenceResult | src/lib.rs:239-247 | after the column loop the buffer holds valid digits whose window is the written digits: the old window minus dq when dq is not larger, and that difference plus 10^(m+1) otherwise |
| AlgorithmD.ScaledDivisor | src/lib.rs:254 | the scale factor f = 10 div (top digit + 1) lies in 1..5, and the scaled divisor lies in [5·10^(m-1), 10^m) |
| AlgorithmD.NormalisedDivisor | src/lib.rs:254-257 | the scaled divisor keeps m significant digits and its top digit is at least 5 |
| AlgorithmD.InitialRemainder | src/lib.rs:256-260 | the scaled dividend is below the scaled divisor times 10^(n-m+1), the bound the first quotient digit needs |
| AlgorithmD.ProductWindow | src/lib.rs:262 | the low m+1 digits of `d * qt` denote qt·d exactly |
| AlgorithmD.RemainderWindow | src/lib.rs:260-268 | a remainder below d·10^(k+1) is zero above position k+m, and its window at offset k is below ten divisors |
| AlgorithmD.OneTooMany | src/lib.rs:263-266 | when qt·d exceeds the window by at most one divisor, qt is at least 1 and qt-1 is the true quotient digit |
| AlgorithmD.DivisionStep | src/lib.rs:267-268 | subtracting qt·d from the window at offset k takes qt·d·10^k from the remainder and leaves it below d·10^k |
| AlgorithmD.QuotientDigit | src/lib.rs:261-268 | one step of the loop produces the true quotient digit qt ≤ 9 at position k, removes qt·d·10^k from the remainder buffer, leaves the remainder below d·10^k, and widens the buffer to at least k+m+1 digits and no further |
| AlgorithmD.QuotientDigits | src/lib.rs:260-269 | the `for k` loop produces n-m+1 valid quotient digits with old remainder = q·d + new remainder and new remainder below d, and leaves the buffer max(its old length, n+1) digits wide |
| AlgorithmD.ScaledWidth | src/lib.rs:256 | `x * f` with f < 10 is stored in at least length(x) digits and at most max(length(x), n+1) |
| AlgorithmD.TopDigitBound | src/lib.rs:256 | digits with a nonzero top digit that denote less than 10^L number at most L |
| AlgorithmD.QuotientPrepend | src/lib.rs:267 | prepending quotient digit qt at position k keeps the loop's division equation |
| AlgorithmD.FinalScale | src/lib.rs:271-273 | dividing the final remainder by f gives the true remainder of the unscaled operands |
| AlgorithmD.LongDivide | src/lib.rs:250-274 | `longdivide` gives a quotient of n-m+1 valid digits and a remainder below the divisor, with q·y + r = x. The remainder keeps the width of the remainder buffer, max(length(x), n+1) digits, high zeros included |
| AlgorithmD.LongDivision | src/lib.rs:188-277 | `long_division` returns `None` exactly for a zero divisor; otherwise the quotient and remainder of Euclidean division, the quotient having n-m+1 digits and the remainder max(length(x), n+1) |
| Division.DivNsi | src/lib.rs:106-116 | `div_nsi` returns `None` exactly for a zero divisor; otherwise q·d + r = x with r < d. A one-digit divisor gives `div_u32`'s result shape, a shorter dividend gives an empty quotient and the dividend itself, and long division gives n-m+1 quotient digits and a remainder of max(length(x), n+1) digits |
| Division.OneDigitValue | src/lib.rs:109-110 | a divisor with one significant digit denotes its digit 0 |
| Division.Div | src/lib.rs:286-294 | `/` with a nonzero divisor gives exactly Val(x) div Val(y) written in the width `div_nsi` stores for its branch: length(x) for a one-digit divisor, none for a shorter dividend, n-m+1 for long division |
| Division.Rem | src/lib.rs:306-314 | `%` with a nonzero divisor gives exactly Val(x) mod Val(y) written in the width `div_nsi` stores for its branch: its canonical digits for a one-digit divisor, length(x) for a shorter dividend, max(length(x), n+1) for long division |
| Scenarios.DigitsOf654321 | src/lib.rs:586 | the canonical digits of 654321 are 1, 2, 3, 4, 5, 6 from the units up |
| Scenarios.SevenDigits240 | src/lib.rs:271 | 240 written in seven positions is 0, 4, 2, 0, 0, 0, 0, the remainder buffer's form of `of(654321) % of(789)` |
| Scenarios.ProductFitsU64 | src/lib.rs:508-513 | the product of two `u32` values fits a `u64`, so `of(x * y)` is defined |

These scenarios are methods without postconditions. They are checked only
by the assertions in their bodies:

- `Scenarios.DoubleSidedIterDigits`, `Scenarios.BothEnds`,
  `Scenarios.FrontToEnd` and `Scenarios.ReversedDigits` replay
  `double_sided_iter_digits` (src/lib.rs:584-605) over the window.
- `Scenarios.EmptyWindow` asserts that a window of length zero yields nothing.
- `Scenarios.LongDivisionExample` divides 654321 by 789, which goes through
  the long-division branch, and pins the result to 829 remainder 240.
- `Scenarios.LongDivisionRemainder` asserts that `of(654321) % of(789)` is
  stored as the seven digits 0, 4, 2, 0, 0, 0, 0.
- `Scenarios.ForwardDigits` reads a ten-position window over 654321 from the
  front: 1 to 6, then four padding zeros.
- `Scenarios.SumSplits` asserts that summing a concatenation equals adding the
  two partial sums (Sum, src/lib.rs:446-454).
- `Scenarios.PowSplits` asserts that `v.pow(a + b) == v.pow(a) * v.pow(b)`
  (pow, src/lib.rs:71-77).
- `Scenarios.MultipliesByU32` states the `multiplies_by_u32` property
  (src/lib.rs:508-513) for all x and y.
- `Scenarios.ScalarProductDigits` asserts that the digits of `a * s` are the
  product padded to the width of `a`.
- `Scenarios.PowersOfTen` asserts that `of(10).pow(n)` equals
  `of(1).times_radix(n)`.

## Left out

- Machine widths: digits are `nat` below 10, and the `u32` scalars and divisors
  are the subset type `U32`. The `u64` intermediates are proved to stay in
  range where the source relies on it:
  - the `div_u32` carry times 10 plus a digit is below 2^64 (an assertion in
    ScalarDivision.DivU32);
  - the `Mul<u32>` column product plus carry is below 2^64 (an assertion in
    Multiply.MulScalar);
  - the `trial` numerator is below 1000 and its denominator below 100
    (AlgorithmD.TrialOperandsBounded).
- Wrapping arithmetic (`wrapping_sub` in `safe_sub` and `difference`) is
  modelled by its effect: adding the radix and computing a borrow of 0 or 1.
- `length` with a radix other than 10 panics; the model fixes the radix at 10.
- DigitWindow.Window.Next: when the back cursor has reached -1, the source's
  `next_back_ix as usize` cast wraps and `next` would read on. That state is a
  precondition of `Next`. The library's own uses never reach it: they are
  front-only (`zip`) or back-only (`rev`).
- The `put` helper of `long_division` is never called, so it is not modelled.
  `difference` writes its digits directly, and that is modelled.
- AlgorithmD.Trial: a zero two-digit divisor lead would panic in the source,
  so it is a precondition. `longdivide` never meets it, because of
  normalisation (AlgorithmD.NormalisedDivisor).
- AlgorithmD.LongDivision: requires 2 ≤ length(rhs) ≤ length(lhs) for a nonzero
  divisor. This is the documented requirement at src/lib.rs:188, and
  `div_nsi` only calls it under those conditions.
- Division.Div, Division.Rem, ScalarDivision.DivScalar, ScalarDivision.RemScalar,
  AddSub.Sub: the panics on a zero divisor or on underflow are preconditions.
- Multiply.Pow: the result is canonical or a single zero digit, not always
  canonical. The `[0]` comes from an empty multiplier. For a zero base,
  `pow(v, 1)` is `[]`, because `Add` reads windows of length 0. Then
  `pow(v, 2) = v * []` is `of(0)`, which is `[0]`. So a zero base gives `[]`
  for odd n and `[0]` for even n ≥ 2. The contract does not say which of the
  two comes out.
- The owned and borrowed forwarding impls of the operators and the lifetimes
  of `Digits` are not modelled. They only forward to the modelled operations.
- `Display` is modelled as the pure function `Render` from digits to text.
  The `Formatter`, and the `fmt::Result` it returns, are left out. Render
  writes every stored digit, so stored high zeros appear in the text:
  `parse("000123")` renders as "000123".
- `parse` of an empty or all-white-space text returns `Some` of an empty digit
  sequence, which denotes zero. This is the source's behaviour and is modelled
  as such.
- `char::is_whitespace` is modelled by the fixed list of Unicode White_Space
  characters. `is_digit(10)` and `to_digit(10)` are the ASCII digits.
- The `quickcheck!` block, the `Arbitrary` impls and the `MinimalNonSmallInt`
  helpers are not modelled. Their properties are stated as lemmas and
  postconditions instead.
