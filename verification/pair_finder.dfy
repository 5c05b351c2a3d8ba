/**
 The converging two-pointer pair search `twoSum`: a cursor `left` starts at the
 first index and a cursor `right` at the last; while they have not met, the pair
 they point at is returned if it sums to the target, otherwise `left` moves up
 when the sum is too small and `right` moves down when it is too large. When the
 cursors meet, the sentinel pair (-1, -1) is returned.

 The search is specified by the recursive function `Scan`, which walks the
 cursors in exactly the same order, so it fixes WHICH pair is found first. The
 lemmas prove that a returned pair is genuine for any input (soundness) and
 that on non-decreasing input no pair is missed (completeness).
 */
module PairFinder {

  /** The two-element result array `[left, right]`. */
  datatype IndexPair = IndexPair(left: int, right: int)

  /** The sentinel `[-1, -1]`: no pair was found. */
  const NotFound := IndexPair(-1, -1)

  /** The elements of `s` are in non-decreasing order. */
  predicate Sorted(s: seq<int>)
  {
    forall i, j :: 0 <= i < j < |s| ==> s[i] <= s[j]
  }

  /** Indices `i < j` of `s` whose elements sum to `target`. */
  predicate IsPair(s: seq<int>, target: int, i: int, j: int)
  {
    0 <= i < j < |s| && s[i] + s[j] == target
  }

  /** Some two distinct positions of `s` sum to `target`. */
  ghost predicate HasPair(s: seq<int>, target: int)
  {
    exists i, j :: IsPair(s, target, i, j)
  }

  /** The search loop continued from cursors `left` and `right`: the pair it
      returns, or `NotFound` once the cursors meet. */
  function Scan(s: seq<int>, target: int, left: nat, right: int): IndexPair
    requires right < |s|
    decreases right - left
  {
    if left < right then
      var sum := s[left] + s[right];
      if sum == target then IndexPair(left, right)
      else if sum < target then Scan(s, target, left + 1, right)
      else Scan(s, target, left, right - 1)
    else
      NotFound
  }

  /** What `twoSum(s, target)` returns: the scan over the whole sequence. */
  function TwoSumOf(s: seq<int>, target: int): IndexPair
  {
    Scan(s, target, 0, |s| - 1)
  }

  /** Soundness, whatever the order of `s`: a pair the scan returns lies inside
      the window `[left, right]` it started from and sums to `target`. */
  lemma {:induction false} ScanSound(s: seq<int>, target: int, left: nat, right: int)
    requires right < |s|
    ensures var r := Scan(s, target, left, right);
      r == NotFound || (left <= r.left && r.right <= right && IsPair(s, target, r.left, r.right))
    decreases right - left
  {
    if left < right {
      var sum := s[left] + s[right];
      if sum == target {
      } else if sum < target {
        ScanSound(s, target, left + 1, right);
      } else {
        ScanSound(s, target, left, right - 1);
      }
    }
  }

  /** Completeness on non-decreasing input: if some pair `(i, j)` summing to
      `target` lies inside the window `[left, right]`, the scan does not end
      with `NotFound`. Each move keeps the pair inside the window: moving
      `left` past `i` would need `s[i] + s[j] < target`, moving `right` past
      `j` would need `s[i] + s[j] > target`. */
  lemma {:induction false} ScanComplete(s: seq<int>, target: int, left: nat, right: int, i: int, j: int)
    requires right < |s| && Sorted(s)
    requires left <= i && j <= right && IsPair(s, target, i, j)
    ensures Scan(s, target, left, right) != NotFound
    decreases right - left
  {
    var sum := s[left] + s[right];
    if sum < target {
      assert s[j] <= s[right];
      ScanComplete(s, target, left + 1, right, i, j);
    } else if sum > target {
      assert s[left] <= s[i];
      ScanComplete(s, target, left, right - 1, i, j);
    }
  }

  /** `twoSum` is sound on every input, and on non-decreasing input it
      returns the sentinel exactly when no pair sums to `target`. */
  lemma TwoSumCorrect(s: seq<int>, target: int)
    ensures TwoSumOf(s, target) != NotFound ==>
      IsPair(s, target, TwoSumOf(s, target).left, TwoSumOf(s, target).right)
    ensures Sorted(s) ==> (TwoSumOf(s, target) == NotFound <==> !HasPair(s, target))
  {
    ScanSound(s, target, 0, |s| - 1);
    if Sorted(s) && HasPair(s, target) {
      var i, j :| IsPair(s, target, i, j);
      ScanComplete(s, target, 0, |s| - 1, i, j);
    }
  }

  /** The scan order decides which pair is returned: on [1, 2, 3, 4, 5] with
      target 7 the first match is (1, 4), not (2, 3). */
  lemma TwoSumExamples()
    ensures TwoSumOf([1, 2, 3, 4, 5], 7) == IndexPair(1, 4)
    ensures TwoSumOf([2, 7, 11, 15], 9) == IndexPair(0, 1)
    ensures TwoSumOf([1, 2, 3, 4, 5], 100) == NotFound
  {
    // [2, 7, 11, 15] with target 9: (0, 3) sums to 17, (0, 2) to 13, (0, 1) to 9.
  }

  /** `twoSum(arr, target)`. The array is only read: the method has no
      `modifies` clause. The ghost counter `steps` records the non-matching
      iterations; its loop invariant says that each one narrows the window
      `right - left` by exactly one. This is a fact about the loop only: no
      postcondition exposes it, because `twoSum` returns just the pair. */
  method TwoSum(arr: array<int>, target: int) returns (r: IndexPair)
    ensures r == TwoSumOf(arr[..], target)
    ensures r != NotFound ==> IsPair(arr[..], target, r.left, r.right)
    ensures Sorted(arr[..]) ==> (r == NotFound <==> !HasPair(arr[..], target))
    ensures arr.Length <= 1 ==> r == NotFound
  {
    TwoSumCorrect(arr[..], target);
    var left := 0;
    var right := arr.Length - 1;
    ghost var steps := 0;
    while left < right
      invariant 0 <= left && right < arr.Length
      invariant steps == left + (arr.Length - 1 - right)
      invariant Scan(arr[..], target, left, right) == TwoSumOf(arr[..], target)
      decreases right - left
    {
      var sum := arr[left] + arr[right];
      if sum == target {
        return IndexPair(left, right);
      } else if sum < target {
        left := left + 1;
      } else if sum > target {
        right := right - 1;
      }
      steps := steps + 1;
    }
    r := NotFound;
  }
}
