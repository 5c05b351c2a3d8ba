/**
 `reverseSecondPart`: split a sequence at `mid = floor(n / 2)`, reverse the
 suffix `arr[mid..n)` and append it to the unchanged prefix `arr[0..mid)`.
 The suffix is reversed on a copy, so the input is never changed; the model is
 a function on values. When `n` is odd the suffix holds the extra element.
 */
module HalfReverser {

  /** `Array.prototype.reverse` applied to a fresh copy of `s`. */
  function Reverse<T>(s: seq<T>): (r: seq<T>)
    ensures |r| == |s|
    ensures forall k :: 0 <= k < |s| ==> r[k] == s[|s| - 1 - k]
    ensures multiset(r) == multiset(s)
  {
    if s == [] then []
    else
      assert s == [s[0]] + s[1..];
      Reverse(s[1..]) + [s[0]]
  }

  /** Reversal undoes itself. */
  lemma ReverseInvolution<T>(s: seq<T>)
    ensures Reverse(Reverse(s)) == s
  {
    var rr := Reverse(Reverse(s));
    assert forall k :: 0 <= k < |s| ==> rr[k] == Reverse(s)[|s| - 1 - k];
  }

  /** `reverseSecondPart(arr)`. `Math.floor(n / 2)` on a length `n >= 0` is
      Dafny's `n / 2`. The result has the input's length and elements; its
      first `mid` elements are the input's in order, and from `mid` on it reads
      the input's suffix backwards. */
  function ReverseSecondPart<T>(arr: seq<T>): (r: seq<T>)
    ensures |r| == |arr|
    ensures multiset(r) == multiset(arr)
    ensures r[..|arr| / 2] == arr[..|arr| / 2]
    ensures forall k :: |arr| / 2 <= k < |arr| ==> r[k] == arr[|arr| - 1 + |arr| / 2 - k]
  {
    var mid := |arr| / 2;
    var secondPart := Reverse(arr[mid..]);
    assert arr == arr[..mid] + arr[mid..];
    arr[..mid] + secondPart
  }

  /** Applying `reverseSecondPart` twice returns the original sequence: the
      split point depends only on the length, which the first application
      keeps, and the second reversal undoes the first. */
  lemma ReverseSecondPartInvolution<T>(arr: seq<T>)
    ensures ReverseSecondPart(ReverseSecondPart(arr)) == arr
  {
    var mid := |arr| / 2;
    var r := ReverseSecondPart(arr);
    ReverseInvolution(arr[mid..]);
    calc {
      ReverseSecondPart(r);
      r[..mid] + Reverse(r[mid..]);
      arr[..mid] + Reverse(Reverse(arr[mid..]));
      arr[..mid] + arr[mid..];
      arr;
    }
  }

  /** Sequences of length 0 and 1 come back unchanged. */
  lemma ReverseSecondPartShort<T>(arr: seq<T>)
    requires |arr| <= 1
    ensures ReverseSecondPart(arr) == arr
  {
  }

  /** The index formula determines the result: any sequence that keeps the
      prefix `arr[0..mid)` and reads the suffix backwards is the result. */
  lemma ReverseSecondPartUnique<T>(arr: seq<T>, expected: seq<T>)
    requires |expected| == |arr|
    requires forall k :: 0 <= k < |arr| / 2 ==> expected[k] == arr[k]
    requires forall k :: |arr| / 2 <= k < |arr| ==> expected[k] == arr[|arr| - 1 + |arr| / 2 - k]
    ensures ReverseSecondPart(arr) == expected
  {
    var r, mid := ReverseSecondPart(arr), |arr| / 2;
    forall k | 0 <= k < |arr|
      ensures r[k] == expected[k]
    {
      if k < mid {
        assert r[k] == r[..mid][k];
      }
    }
  }

  // The driver calls on 1..n for n = 5 to 10: the prefix keeps floor(n / 2)
  // elements, and for odd n the reversed suffix is the longer part.

  lemma ReverseSecondPartExample5()
    ensures ReverseSecondPart([1, 2, 3, 4, 5]) == [1, 2, 5, 4, 3]
  {
    ReverseSecondPartUnique([1, 2, 3, 4, 5], [1, 2, 5, 4, 3]);
  }

  lemma ReverseSecondPartExample6()
    ensures ReverseSecondPart([1, 2, 3, 4, 5, 6]) == [1, 2, 3, 6, 5, 4]
  {
    ReverseSecondPartUnique([1, 2, 3, 4, 5, 6], [1, 2, 3, 6, 5, 4]);
  }

  lemma ReverseSecondPartExample7()
    ensures ReverseSecondPart([1, 2, 3, 4, 5, 6, 7]) == [1, 2, 3, 7, 6, 5, 4]
  {
    ReverseSecondPartUnique([1, 2, 3, 4, 5, 6, 7], [1, 2, 3, 7, 6, 5, 4]);
  }

  lemma ReverseSecondPartExample8()
    ensures ReverseSecondPart([1, 2, 3, 4, 5, 6, 7, 8]) == [1, 2, 3, 4, 8, 7, 6, 5]
  {
    ReverseSecondPartUnique([1, 2, 3, 4, 5, 6, 7, 8], [1, 2, 3, 4, 8, 7, 6, 5]);
  }

  lemma ReverseSecondPartExample9()
    ensures ReverseSecondPart([1, 2, 3, 4, 5, 6, 7, 8, 9]) == [1, 2, 3, 4, 9, 8, 7, 6, 5]
  {
    ReverseSecondPartUnique([1, 2, 3, 4, 5, 6, 7, 8, 9], [1, 2, 3, 4, 9, 8, 7, 6, 5]);
  }

  lemma ReverseSecondPartExample10()
    ensures ReverseSecondPart([1, 2, 3, 4, 5, 6, 7, 8, 9, 10]) == [1, 2, 3, 4, 5, 10, 9, 8, 7, 6]
  {
    ReverseSecondPartUnique([1, 2, 3, 4, 5, 6, 7, 8, 9, 10], [1, 2, 3, 4, 5, 10, 9, 8, 7, 6]);
  }
}
