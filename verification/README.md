# Recursion cookbook, modelled in Dafny

A model of the recursive routines in `recursion/Recursion.java`. It covers the
three range printers, the divide-and-conquer minimum of a subarray, the string
recursions (`repeat`, `count`, `isVowel`, `disemvowel`), the digit recursions
(`sumOfDigits`, `reverseDigits`) and the subset-sum search (`subsetSum`,
`subsetSumCount`). Each routine is a pure Dafny function that follows the Java
recursion branch for branch. Each is proved equal to, or characterised by, an
independent definition:

- the printers against the interval `start..end`;
- `min` against "an element of the range, no larger than any other";
- `repeat` against "position `k` holds `s[k % |s|]`";
- `count` against the multiset multiplicity and the set of matching positions;
- `disemvowel` against a filter that runs back to front;
- the digit routines against decimal notation (`DigitsOf`, proved unique);
- the subset-sum routines against selection vectors, that is `seq<bool>` masks over
  the prefix, and against a complete, duplicate-free enumeration of them.

Files and modules:

- `java_int.dfy` (`JavaInt`): Java's 32-bit `int`. It gives the range, the
  two's-complement wrap-around, negation, and `/ 2`, which rounds toward zero.
- `ranges.dfy` (`Ranges`): `printNumbers`, `printNumbersOtherWay` and
  `printNumbersReverse`, each returning the list it would print.
- `array_min.dfy` (`ArrayMin`): `min`.
- `strings.dfy` (`Strings`): `repeat`, `count`, `isVowel` (through `String.indexOf`)
  and `disemvowel`.
- `digits.dfy` (`Digits`): `sumOfDigits` and `reverseDigits`, plus decimal notation.
  It also has `reverseDigits` with Java's wrap-around.
- `subsets.dfy` (`Subsets`): `subsetSum`, `subsetSumCount`, and the corrected count.

Java arrays are sequences. `String` and `StringBuilder` are both `string`, and
`append` is concatenation. A character is a Dafny `char`, a Unicode scalar value,
where Java's `char` is a UTF-16 code unit. The two agree on every string without
supplementary characters (see "Left out"). Integers are unbounded. Where Java's
32-bit arithmetic changes the outcome, it is either written out with `JavaInt` or
stated as a difference under "Left out". Recursion depth is not bounded.

## Model

| member | source | states |
|---|---|---|
| JavaInt.Wrap | recursion/Recursion.java:138 | the wrapped value is a Java `int` congruent to the exact one modulo 2^32, and equals it whenever the exact value fits |
| JavaInt.WrapCongruent | recursion/Recursion.java:138 | values congruent modulo 2^32 wrap to the same `int`, so wrapping an intermediate result does not change the final wrapped value |
| JavaInt.Neg | recursion/Recursion.java:125 | Java's `-n` is the exact negation for every `int` but `Integer.MIN_VALUE`, which it maps to itself |
| JavaInt.Half | recursion/Recursion.java:25 | Java's `/ 2` agrees with Euclidean division except on negative odd operands, where it is one higher; twice the quotient is within one of the operand |
| Ranges.Mid | recursion/Recursion.java:25 | the midpoint of a non-empty range, with Java's truncating division on the exact sum, lies inside the range |
| Ranges.MidAsWritten | recursion/Recursion.java:25 | Java's midpoint on `int` bounds is `Mid` whenever the sum fits; when the sum overflows above `Integer.MAX_VALUE` it is negative, and when it overflows below `Integer.MIN_VALUE` it is non-negative |
| Ranges.MidAsWrittenAgrees | recursion/Recursion.java:25 | when `start + end` fits in an `int`, Java's midpoint is `Mid` |
| Ranges.MidAsWrittenLeavesRange | recursion/Recursion.java:25 | on the range `[2^30, 2^30]` Java's wrapped sum puts the midpoint at `-2^30`, outside the range, and the right-hand call gets a wider range |
| Ranges.IntervalSplit | recursion/Recursion.java:25-28 | an interval is the interval below any of its members, that member, and the interval above it |
| Ranges.PrintNumbers | recursion/Recursion.java:12-16 | prints exactly `start, start+1, ..., end`, and nothing when `start > end` |
| Ranges.PrintNumbersOtherWay | recursion/Recursion.java:23-29 | the midpoint in-order walk prints exactly `start, ..., end` in ascending order, and nothing when `start > end`, negative bounds included |
| Ranges.OtherWayMatchesLinear | recursion/Recursion.java:12-29 | the midpoint printer and the linear printer print the same list for every pair of bounds |
| Ranges.PrintNumbersReverse | recursion/Recursion.java:36-40 | prints as many numbers as the range holds, the `i`-th being `end - i` |
| Ranges.ReverseMirrorsLinear | recursion/Recursion.java:12-40 | the reverse printer prints the linear printer's list back to front |
| ArrayMin.Min | recursion/Recursion.java:48-54 | for `0 <= start <= end < length`, the result is some `a[i]` with `start <= i <= end`, and no `a[j]` in that range is smaller |
| Strings.Repeat | recursion/Recursion.java:86-89 | `repeat(s, n)` has `n * |s|` characters, and none when `n < 1` |
| Strings.RepeatContents | recursion/Recursion.java:86-89 | `repeat(s, n)` is empty for `n < 1`, otherwise has `n * |s|` characters, position `k` holding `s[k % |s|]` |
| Strings.RepeatAdd | recursion/Recursion.java:86-89 | `m + n` copies are `m` copies followed by `n` copies |
| Strings.Count | recursion/Recursion.java:97-100 | the result is the multiplicity of `c` in the multiset of characters of `s`, so it lies in `0..|s|` |
| Strings.CountIsPositions | recursion/Recursion.java:97-100 | the result is the number of positions `i` with `s[i] == c` |
| Strings.IndexOf | recursion/Recursion.java:104 | `indexOf` is -1 exactly when the character is absent, otherwise the first position holding it |
| Strings.IsVowel | recursion/Recursion.java:103-105 | true exactly for the ten characters `a e i o u A E I O U` |
| Strings.ConsonantsContent | recursion/Recursion.java:107-117 | the reference filter drops every vowel and keeps each non-vowel exactly as often as it occurs in the input |
| Strings.ConsonantsAppend | recursion/Recursion.java:113-117 | filtering a concatenation filters each part |
| Strings.Disemvowel | recursion/Recursion.java:113-117 | the result is `acc` followed by the non-vowels of `s` in their original order; `acc` is only appended to |
| Digits.DigitsOf | recursion/Recursion.java:119-128 | the decimal digits of `n`: digits `0..9`, no leading zero, denoting `n` |
| Digits.DigitsUnique | recursion/Recursion.java:119-128 | any canonical digit sequence denoting `n` is `DigitsOf(n)` |
| Digits.SumOfDigits | recursion/Recursion.java:124-128 | the result is the sum of the decimal digits of `abs(n)`, is non-negative, and is `n` itself for `0 <= n < 10` |
| Digits.MinValueNegatesToItself | recursion/Recursion.java:125 | Java negates `Integer.MIN_VALUE` to itself, still negative, so `sumOfDigits` calls itself with the same argument forever |
| Digits.SumOfDigitsOfMinValue | recursion/Recursion.java:124-128 | with exact negation the digit sum of `Integer.MIN_VALUE` is 47, the digit sum of 2147483648 |
| Digits.ReverseDigits | recursion/Recursion.java:136-139 | for `n < 1` the accumulator comes back unchanged |
| Digits.ReverseDigitsGrows | recursion/Recursion.java:138 | from a non-negative accumulator the result never falls below the accumulator |
| Digits.ReverseDigitsShifts | recursion/Recursion.java:136-139 | for `n >= 1` the result is `acc` shifted left by the number of digits of `n`, plus the value of `n`'s digits reversed |
| Digits.ReverseDigitsReverses | recursion/Recursion.java:130-139 | for `n >= 1`, `reverseDigits(n, 0)` is the number whose decimal digits are those of `n` reversed, leading zeros dropped |
| Digits.ReverseDigitsTwice | recursion/Recursion.java:130-139 | reversing twice returns `n` when its last digit is not zero |
| Digits.ReverseDigitsCongruent | recursion/Recursion.java:138 | accumulators that agree modulo 2^32 give results that agree modulo 2^32 |
| Digits.ReverseDigitsJava | recursion/Recursion.java:136-139 | for every pair of `int` arguments, Java's result with its wrapping `10 * acc + n % 10` is the exact result wrapped to 32 bits |
| Digits.ReverseDigitsJavaAgrees | recursion/Recursion.java:136-139 | for any `int` accumulator, Java's result is the exact one whenever the exact result fits in an `int` |
| Digits.ReverseDigitsExceedsInt | recursion/Recursion.java:130-139 | 1000000009 reversed is 9000000001, beyond `Integer.MAX_VALUE` |
| Subsets.SubsetSum | recursion/Recursion.java:149-153 | true whenever `goal == 0`; for the empty prefix, true exactly when `goal == 0` |
| Subsets.SubsetSumSound | recursion/Recursion.java:149-153 | whenever `subsetSum` is true, some subset of the first `n` elements sums to `goal` |
| Subsets.SubsetSumComplete | recursion/Recursion.java:149-153 | every subset of the first `n` elements that sums to `goal` makes `subsetSum` true |
| Subsets.SubsetSumCorrect | recursion/Recursion.java:141-153 | `subsetSum(a, goal, n)` holds if and only if some subset of `a[0..n)` sums to `goal` |
| Subsets.SelectionsComplete | recursion/Recursion.java:155-162 | the enumeration used for counting lists every subset of the prefix |
| Subsets.SelectionsDistinct | recursion/Recursion.java:155-162 | the enumeration used for counting lists no subset twice |
| Subsets.SubsetCountSplit | recursion/Recursion.java:166 | the subsets reaching `goal` split into those taking `a[n-1]`, which reach `goal - a[n-1]` on the shorter prefix, and those leaving it out |
| Subsets.SubsetSumCountAllCounts | recursion/Recursion.java:155-167 | the corrected count, with the base case decided only at `n == 0`, is the number of subsets of the prefix summing to `goal`, for elements of any sign |
| Subsets.SubsetSumCountAll | recursion/Recursion.java:149-167 | the corrected count is positive exactly when `subsetSum` holds |
| Subsets.SubsetCountPositiveIffExists | recursion/Recursion.java:155-167 | at least one subset is counted exactly when some subset sums to `goal` |
| Subsets.SubsetSumCount | recursion/Recursion.java:163-167 | the count as written is non-negative, and positive exactly when `subsetSum` holds, for elements of any sign |
| Subsets.PositiveCounts | recursion/Recursion.java:164 | with positive elements no subset reaches a negative goal, and only the empty one reaches zero |
| Subsets.SubsetSumCountAgrees | recursion/Recursion.java:163-167 | with positive elements the count as written equals the corrected count |
| Subsets.SubsetSumCountPositive | recursion/Recursion.java:155-167 | with positive elements `subsetSumCount` is the number of subsets of the prefix summing to `goal` |
| Subsets.SubsetSumCountMissesCancelling | recursion/Recursion.java:164 | for `[0]` and for `[1, -1]` with goal 0 the count as written is 1, although two subsets reach the goal |

## Left out

- `power` and `harmonicSum` (`recursion/Recursion.java:62-77`) compute in floating point and are not modelled.
- Console output: the printers return the list of numbers they would print, one per line in Java.
- `QuadricCross/QuadricCross.java` is a Swing drawing with floating-point geometry. It is not part of this model.
- `binarysearch/Recursion and Binary Search.java`, the BST demonstration class, is not part of this model.
- `null` arrays and strings are not modelled: a sequence always exists.
- `StringBuilder` identity: Java's `disemvowel` appends into the caller's builder and returns that same object. The model returns a new string equal to `acc` followed by the kept characters.
- Recursion depth: every routine here recurses once per element, character, digit or range step, except `printNumbersOtherWay` and `min`, which halve the range. Java throws `StackOverflowError` when the call stack runs out, for example on `printNumbers(0, 1000000)`, on `printNumbersReverse` over the same range, on `count` or `disemvowel` with a string of a million characters, or on `repeat(s, 1000000)`. The model has no stack and returns a result for all of these.
- Strings: a Java `char` is a UTF-16 code unit, and a Dafny `char` is a Unicode scalar value. Lone surrogates are not modelled, nor is the two-unit length of supplementary characters. For example, Java's `count` of `'\uD83D'` in a string holding one emoji, or the `2 * n` length of Java's `repeat` of that emoji, cannot be expressed. The model treats an emoji as a single character.
- Ranges.PrintNumbers: Java's `start + 1` wraps when `end` is `Integer.MAX_VALUE`. Java then prints up to `Integer.MAX_VALUE`, continues from `Integer.MIN_VALUE`, and finally overflows the stack. The model's `start + 1` does not wrap.
- Ranges.PrintNumbersReverse: the same `start + 1` wrap-around at `Integer.MAX_VALUE` is not modelled.
- Ranges.PrintNumbersOtherWay: the midpoint is computed from the exact sum `start + end` through `Mid`. Java's wrapping sum is `Ranges.MidAsWritten`, and the first row under "Findings" shows where the two part.
- ArrayMin.Min: Java's `start + end` could wrap only for arrays of more than 2^30 elements. The model adds exactly.
- Strings.RepeatContents: Java's limit on string length (an `int`) is not modelled.
- Subsets.SubsetSum: `goal - a[n-1]` is exact here. Java wraps it, so as written Java decides whether a subset reaches `goal` modulo 2^32.
- Subsets.SubsetSum: the prefix length `n` is required to lie in `0..|a|`. Java also answers `true` for any other `n` when `goal == 0`, and otherwise indexes out of bounds.
- Subsets.SubsetSumCount: the same exact `goal - a[n-1]` and the same range for `n`. The count's own `int` overflow beyond 2^31 - 1 subsets is not modelled either.
- Digits.ReverseDigits: computed exactly. `Digits.ReverseDigitsJava` models Java's wrap-around and is proved equal to the exact result wrapped to 32 bits.

## Findings

| source | as written | input that shows it | evidently intended | confidence | as-written member | corrected member |
|---|---|---|---|---|---|---|
| recursion/Recursion.java:25 | `int mid = (start + end) / 2;` adds two `int`s that can wrap | `printNumbersOtherWay(1073741824, 1073741824)`: the sum wraps to `-2^31`, so `mid` is `-2^30`, outside the range; the right-hand call covers `-2^30+1..2^30`, which contains the original call again, so the recursion does not end | the midpoint of the range, so the one number `2^30` is printed | high; not executed | Ranges.MidAsWrittenLeavesRange | Ranges.Mid |
| recursion/Recursion.java:125 | `return sumOfDigits(-n);` negates an `int` | `sumOfDigits(Integer.MIN_VALUE)`: `-n` is `Integer.MIN_VALUE` again, so the call repeats itself until the stack overflows | the digit sum of 2147483648, which is 47 | high; not executed | Digits.MinValueNegatesToItself | Digits.SumOfDigits |
| recursion/Recursion.java:164 | `if(goal == 0) { return 1; }` stops counting once the goal is reached | `subsetSumCount({0}, 0, 1)` returns 1, but the subsets `{}` and `{0}` both sum to 0; the same happens for `{1, -1}` | count every subset of the prefix, deciding the base case only when the prefix is empty | medium, because the routine may be meant only for positive elements, where it is right; not executed | Subsets.SubsetSumCountMissesCancelling | Subsets.SubsetSumCountAllCounts |
