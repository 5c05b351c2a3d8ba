# Two array routines from the interview-practice notes

This project models the two functions of `PracticeArray.js`, a practice file
in the repository's interview notes, and proves their properties.

- **`twoSum(arr, target)`**: a converging two-pointer search. The cursor
  `left` starts at index 0 and `right` at the last index. While
  `left < right`, it returns `[left, right]` when the two elements sum to
  `target`. Otherwise it moves `left` up when the sum is too small and
  `right` down when it is too large. When the cursors meet it returns the
  sentinel `[-1, -1]`. Module `PairFinder` (`pair_finder.dfy`) holds it.
  The method `TwoSum` keeps the source's loop over an `array<int>`. It is
  proved equal to the recursive function `Scan`, which walks the cursors in
  the same order and so fixes which pair is found first. The method has no
  `modifies` clause, so it cannot write the array. The result array
  `[left, right]` is the datatype `IndexPair`, and the sentinel is
  `NotFound`.
- **`reverseSecondPart(arr)`**: splits at `mid = floor(n / 2)`, reverses a
  copy of the suffix `arr[mid..n)` and appends it to the prefix
  `arr[0..mid)`. It never changes its input, so module `HalfReverser`
  (`half_reverser.dfy`) models it as a function on `seq<T>`, for any element
  type `T`. The in-place
  `reverse()` of the copy is the function `Reverse`.

Applying `reverseSecondPart` twice returns the original sequence
(`ReverseSecondPartInvolution`). The split point depends only on the
length, which the first application keeps, and the second reversal undoes
the first.

## Model

| member | source | states |
|---|---|---|
| PairFinder.TwoSum | INTERVIEW-NOTES/WEEK-4-SYSTEM-DESIGN-DSA-GENAI/DAY-26/PracticeArray.js:2-18 | Returns exactly the pair the converging scan from `(0, n - 1)` reaches first, or `NotFound`. A returned pair is `i < j` in range with `arr[i] + arr[j] == target`. On non-decreasing input it returns `NotFound` if and only if no such pair exists. Arrays of length 0 or 1 give `NotFound`. The array is never written. |
| PairFinder.ScanSound | INTERVIEW-NOTES/WEEK-4-SYSTEM-DESIGN-DSA-GENAI/DAY-26/PracticeArray.js:5-15 | For any input order, a pair the scan returns from window `[left, right]` lies inside that window and its two elements sum to `target`. |
| PairFinder.ScanComplete | INTERVIEW-NOTES/WEEK-4-SYSTEM-DESIGN-DSA-GENAI/DAY-26/PracticeArray.js:5-17 | On non-decreasing input, a pair summing to `target` inside the window `[left, right]` stays inside the window at every move, so the scan does not end with the sentinel. |
| PairFinder.TwoSumCorrect | INTERVIEW-NOTES/WEEK-4-SYSTEM-DESIGN-DSA-GENAI/DAY-26/PracticeArray.js:2-17 | Combines soundness on every input with the sorted-input equivalence: the sentinel is returned exactly when no two distinct positions sum to `target`. |
| PairFinder.TwoSumExamples | INTERVIEW-NOTES/WEEK-4-SYSTEM-DESIGN-DSA-GENAI/DAY-26/PracticeArray.js:19-20 | `twoSum([1,2,3,4,5], 7)` is `[1, 4]` (the first match in scan order, not `[2, 3]`). `twoSum([2,7,11,15], 9)` is `[0, 1]`. A target no pair reaches gives `[-1, -1]`. |
| HalfReverser.Reverse | INTERVIEW-NOTES/WEEK-4-SYSTEM-DESIGN-DSA-GENAI/DAY-26/PracticeArray.js:26 | Reversing keeps the length and the multiset of elements, and element `k` of the result is element `n - 1 - k` of the input. |
| HalfReverser.ReverseInvolution | INTERVIEW-NOTES/WEEK-4-SYSTEM-DESIGN-DSA-GENAI/DAY-26/PracticeArray.js:26 | Reversing twice gives back the original sequence. |
| HalfReverser.ReverseSecondPart | INTERVIEW-NOTES/WEEK-4-SYSTEM-DESIGN-DSA-GENAI/DAY-26/PracticeArray.js:23-28 | The result has the input's length and multiset. Its first `mid = floor(n / 2)` elements are the input's, in order. For `mid <= k < n`, element `k` is `arr[n - 1 + mid - k]`. |
| HalfReverser.ReverseSecondPartInvolution | INTERVIEW-NOTES/WEEK-4-SYSTEM-DESIGN-DSA-GENAI/DAY-26/PracticeArray.js:24-27 | Applying the function twice returns the original sequence. |
| HalfReverser.ReverseSecondPartUnique | INTERVIEW-NOTES/WEEK-4-SYSTEM-DESIGN-DSA-GENAI/DAY-26/PracticeArray.js:24-27 | The prefix and index formula determine the result: any sequence that satisfies them equals it. |
| HalfReverser.ReverseSecondPartShort | INTERVIEW-NOTES/WEEK-4-SYSTEM-DESIGN-DSA-GENAI/DAY-26/PracticeArray.js:24-27 | Sequences of length 0 or 1 come back unchanged. |
| HalfReverser.ReverseSecondPartExample5 | INTERVIEW-NOTES/WEEK-4-SYSTEM-DESIGN-DSA-GENAI/DAY-26/PracticeArray.js:29 | `[1,2,3,4,5]` becomes `[1,2,5,4,3]`. The odd-length suffix holds the extra element. |
| HalfReverser.ReverseSecondPartExample6 | INTERVIEW-NOTES/WEEK-4-SYSTEM-DESIGN-DSA-GENAI/DAY-26/PracticeArray.js:30 | `[1..6]` becomes `[1,2,3,6,5,4]`. |
| HalfReverser.ReverseSecondPartExample7 | INTERVIEW-NOTES/WEEK-4-SYSTEM-DESIGN-DSA-GENAI/DAY-26/PracticeArray.js:31 | `[1..7]` becomes `[1,2,3,7,6,5,4]`. |
| HalfReverser.ReverseSecondPartExample8 | INTERVIEW-NOTES/WEEK-4-SYSTEM-DESIGN-DSA-GENAI/DAY-26/PracticeArray.js:32 | `[1..8]` becomes `[1,2,3,4,8,7,6,5]`. |
| HalfReverser.ReverseSecondPartExample9 | INTERVIEW-NOTES/WEEK-4-SYSTEM-DESIGN-DSA-GENAI/DAY-26/PracticeArray.js:33 | `[1..9]` becomes `[1,2,3,4,9,8,7,6,5]`. |
| HalfReverser.ReverseSecondPartExample10 | INTERVIEW-NOTES/WEEK-4-SYSTEM-DESIGN-DSA-GENAI/DAY-26/PracticeArray.js:34 | `[1..10]` becomes `[1,2,3,4,5,10,9,8,7,6]`. |

## Left out

- The `console.log` calls are output only and do not affect control flow. This covers the cursor prints inside the loop of `twoSum` (lines 11 and 14) and the driver calls (lines 19-20 and 29-34). The driver calls' results are stated as example lemmas instead.
- The commented-out call on line 1.
- JavaScript numbers are floating point. The model uses unbounded integers, so it does not capture two float behaviours of `twoSum`. First, when the sum at line 6 is `NaN` (from a `NaN` or `undefined` element, or from `Infinity + -Infinity`), or the target is `NaN`, all three tests at lines 7, 9 and 12 are false and the loop never ends. An overflowing sum becomes an infinity, which still compares normally, so a cursor moves. Second, sums above 2^53 are rounded, so in JavaScript a returned pair sums to `target` only up to rounding. For example, `twoSum([2**53, 2**53 + 2], 2**54)` returns `[0, 1]` although the exact sum is 2^54 + 2. With integers the sum is exact, and the third test `sum > target` always holds when the first two fail.
- Elements or targets that are not numbers (strings, `null`, booleans), for `twoSum`. JavaScript coerces or concatenates them. Depending on the values, such a call may return a pair, move a cursor, or stall. For example, `twoSum(["1", "2"], 12)` stalls, because the sum `"12"` is neither equal to, less than nor greater than `12`.
- PairFinder.TwoSum: completeness is stated only for non-decreasing input, because the code does not find every pair in unsorted input. Soundness holds for every input.
- Element types other than integers for `twoSum`, whose elements are added and compared. `reverseSecondPart` is modelled for any element type.
