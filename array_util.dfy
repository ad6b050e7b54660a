/**
 * Array utilities over `int[]`: set intersection, right rotation by three
 * in-place reversals, sorted merge, Kadane's maximum subarray sum, moving
 * every copy of a value to the end, and a frequency table. The
 * order-preserving de-duplication of `removeDuplicates` (a `LinkedHashSet`
 * fed left to right) is `Seqs.Dedup`. Java `int` is modelled as unbounded
 * `int`; `Math.max` is the standard integer maximum.
 */
module ArrayUtil {
  import opened Seqs
  import SearchingAndSorting
  import opened JavaInt

  // ---------------------------------------------------------------------------
  // Intersection
  // ---------------------------------------------------------------------------

  /**
   * `intersection`: the values found in both arrays, each once. The Java
   * list is read out of a `HashSet`, so its order is not part of the model.
   */
  method Intersection(arr1: array<int>, arr2: array<int>) returns (r: set<int>)
    ensures forall x :: x in r <==> x in arr1[..] && x in arr2[..]
  {
    var set1 := Elems(arr1[..]);
    r := {};
    for i := 0 to arr2.Length
      invariant forall x :: x in r <==> x in arr1[..] && x in arr2[..i]
    {
      assert arr2[..i + 1] == arr2[..i] + [arr2[i]];
      if arr2[i] in set1 {
        r := r + {arr2[i]};
      }
    }
    assert arr2[..arr2.Length] == arr2[..];
  }

  // ---------------------------------------------------------------------------
  // Rotation
  // ---------------------------------------------------------------------------

  /** `s` rotated right by `k` places: its last k % |s| elements move to the front. */
  function RotatedRight(s: seq<int>, k: int): (r: seq<int>)
    ensures |r| == |s|
  {
    if |s| == 0 then s else s[|s| - k % |s|..] + s[..|s| - k % |s|]
  }

  /** Every element moves k places to the right, wrapping around: arr'[(i + k) % n] == arr[i]. */
  lemma RotatedRightMoves(s: seq<int>, k: int)
    requires |s| > 0
    ensures forall i :: 0 <= i < |s| ==> RotatedRight(s, k)[(i + k) % |s|] == s[i]
  {
    var n, m := |s|, k % |s|;
    var r := RotatedRight(s, k);
    forall i | 0 <= i < n
      ensures r[(i + k) % n] == s[i]
    {
      assert i + k == (i + m) + (k / n) * n;
      ModMultiple(i + m, k / n, n);
      if i + m < n {
        ModUnique(i + m, n, 0, i + m);
      } else {
        ModUnique(i + m, n, 1, i + m - n);
      }
    }
  }

  /** Rotating by k or by k % n gives the same array, so a k of n or more behaves like k % n. */
  lemma RotatedRightPeriodic(s: seq<int>, k: int)
    requires |s| > 0
    ensures RotatedRight(s, k) == RotatedRight(s, k % |s|)
  {
    ModUnique(k % |s|, |s|, 0, k % |s|);
  }

  /** Rotation only moves elements. */
  lemma RotatedRightMultiset(s: seq<int>, k: int)
    ensures multiset(RotatedRight(s, k)) == multiset(s)
  {
    if |s| > 0 {
      var c := |s| - k % |s|;
      assert s == s[..c] + s[c..];
    }
  }

  /** `s` with s[start..end] reversed and every other position as it was. */
  function ReversedBetween(s: seq<int>, start: int, end: int): (r: seq<int>)
    requires start < end ==> 0 <= start && end < |s|
    ensures |r| == |s|
  {
    seq(|s|, q requires 0 <= q < |s| => if start <= q <= end then s[start + end - q] else s[q])
  }

  /** Reversing a slice twice gives it back. */
  lemma ReversedBetweenTwice(s: seq<int>, start: int, end: int)
    requires start < end ==> 0 <= start && end < |s|
    ensures ReversedBetween(ReversedBetween(s, start, end), start, end) == s
  {
  }

  /**
   * `reverse`: reverses arr[start..end] in place and leaves every other
   * position alone; nothing happens unless start < end.
   */
  method Reverse(arr: array<int>, start: int, end: int)
    requires start < end ==> 0 <= start && end < arr.Length
    modifies arr
    ensures arr[..] == ReversedBetween(old(arr[..]), start, end)
  {
    var s, e := start, end;
    while s < e
      invariant start <= s && e <= end && s - start == end - e
      invariant start < end || (s == start && e == end)
      invariant start < end ==> s <= e + 1
      invariant forall q :: 0 <= q < arr.Length ==>
                  arr[q] == if start <= q < s || e < q <= end then old(arr[start + end - q]) else old(arr[q])
    {
      arr[s], arr[e] := arr[e], arr[s];
      s := s + 1;
      e := e - 1;
    }
  }

  /**
   * `rotateRight`: k is reduced modulo the length, then the whole array,
   * its first k elements and the rest are each reversed.
   */
  method RotateRight(arr: array<int>, k: int)
    requires k >= 0
    modifies arr
    ensures arr[..] == RotatedRight(old(arr[..]), k)
  {
    if arr.Length == 0 {
      return;
    }
    ghost var a := arr[..];
    var n := arr.Length;
    var k' := k % n;
    Reverse(arr, 0, n - 1);
    ghost var a1 := arr[..];
    Reverse(arr, 0, k' - 1);
    ghost var a2 := arr[..];
    Reverse(arr, k', n - 1);
    RotateByReversals(a, a1, a2, arr[..], k);
  }

  /** The three reversals of `rotateRight`, state by state, rotate right by k. */
  lemma RotateByReversals(a: seq<int>, a1: seq<int>, a2: seq<int>, a3: seq<int>, k: int)
    requires |a| > 0 && k >= 0
    requires a1 == ReversedBetween(a, 0, |a| - 1)
    requires |a1| == |a| && a2 == ReversedBetween(a1, 0, k % |a| - 1)
    requires |a2| == |a| && a3 == ReversedBetween(a2, k % |a|, |a| - 1)
    ensures a3 == RotatedRight(a, k)
  {
    ThreeReversals(a, k % |a|);
    RotatedRightPeriodic(a, k);
  }

  /** Rotating right by m < |a| moves the last m elements to the front. */
  lemma RotatedRightAt(a: seq<int>, m: int, q: int)
    requires 0 <= m < |a| && 0 <= q < |a|
    ensures RotatedRight(a, m)[q] == if q < m then a[|a| - m + q] else a[q - m]
  {
    ModUnique(m, |a|, 0, m);
  }

  /** Reversing the whole, then the first m and then the remaining elements rotates right by m. */
  lemma ThreeReversals(a: seq<int>, m: int)
    requires 0 <= m < |a|
    ensures ReversedBetween(ReversedBetween(ReversedBetween(a, 0, |a| - 1), 0, m - 1), m, |a| - 1)
            == RotatedRight(a, m)
  {
    var n := |a|;
    var a1 := ReversedBetween(a, 0, n - 1);
    var a2 := ReversedBetween(a1, 0, m - 1);
    var a3 := ReversedBetween(a2, m, n - 1);
    var r := RotatedRight(a, m);
    forall q | 0 <= q < n
      ensures a3[q] == r[q]
    {
      RotatedRightAt(a, m, q);
      if q >= m {
        assert a3[q] == a2[m + n - 1 - q] == a1[m + n - 1 - q] == a[q - m];
      } else {
        assert a3[q] == a2[q] == a1[m - 1 - q] == a[n - m + q];
      }
    }
    assert a3 == r;
  }

  // ---------------------------------------------------------------------------
  // Sorted merge
  // ---------------------------------------------------------------------------

  /**
   * `mergeSorted`: the merge of the two arrays, taking from the first on
   * ties; it holds the elements of both and is sorted when both are.
   */
  method MergeSorted(arr1: array<int>, arr2: array<int>) returns (result: array<int>)
    ensures result[..] == Merge(arr1[..], arr2[..])
    ensures multiset(result[..]) == multiset(arr1[..]) + multiset(arr2[..])
    ensures Sorted(arr1[..]) && Sorted(arr2[..]) ==> Sorted(result[..])
  {
    ghost var x, y := arr1[..], arr2[..];
    result := new int[arr1.Length + arr2.Length];
    ghost var t: seq<int> := [];
    var i, j := 0, 0;
    i, j, t := MergeWhileBoth(arr1, arr2, result, x, y, i, j, t);
    i, j, t := DrainFirst(arr1, arr2, result, x, y, i, j, t);
    i, j, t := DrainSecond(arr1, arr2, result, x, y, i, j, t);
    assert result[..] == t;
    assert x[0..] == x && y[0..] == y;
    if Sorted(x) && Sorted(y) {
      Seqs.MergeSorted(x, y);
    }
  }

  /** result[..i + j] holds the first i + j elements the merge emits, with i and j the next unread positions. */
  ghost predicate Filled(arr1: array<int>, arr2: array<int>, result: array<int>,
                         x: seq<int>, y: seq<int>, i: int, j: int, t: seq<int>)
    reads arr1, arr2, result
  {
    && x == arr1[..] && y == arr2[..] && result.Length == |x| + |y|
    && SearchingAndSorting.Emitted(x, y, t, i, j) && |t| == i + j
    && forall q :: 0 <= q < |t| ==> result[q] == t[q]
  }

  /** The first loop of `mergeSorted`: take the smaller head while both arrays have one. */
  method MergeWhileBoth(arr1: array<int>, arr2: array<int>, result: array<int>,
                        ghost x: seq<int>, ghost y: seq<int>, i0: int, j0: int, ghost t0: seq<int>)
    returns (i: int, j: int, ghost t: seq<int>)
    requires result != arr1 && result != arr2 && Filled(arr1, arr2, result, x, y, i0, j0, t0)
    modifies result
    ensures Filled(arr1, arr2, result, x, y, i, j, t) && (i == arr1.Length || j == arr2.Length)
  {
    i, j, t := i0, j0, t0;
    while i < arr1.Length && j < arr2.Length
      invariant Filled(arr1, arr2, result, x, y, i, j, t)
      decreases arr1.Length + arr2.Length - i - j
    {
      if arr1[i] <= arr2[j] {
        SearchingAndSorting.EmitLeft(x, y, t, i, j, arr1[i], i + 1);
        result[i + j], t := arr1[i], t + [arr1[i]];
        i := i + 1;
      } else {
        SearchingAndSorting.EmitRight(x, y, t, i, j, arr2[j], j + 1);
        result[i + j], t := arr2[j], t + [arr2[j]];
        j := j + 1;
      }
    }
  }

  /** The second loop of `mergeSorted`: copy what is left of the first array. */
  method DrainFirst(arr1: array<int>, arr2: array<int>, result: array<int>,
                    ghost x: seq<int>, ghost y: seq<int>, i0: int, j0: int, ghost t0: seq<int>)
    returns (i: int, j: int, ghost t: seq<int>)
    requires result != arr1 && result != arr2 && Filled(arr1, arr2, result, x, y, i0, j0, t0)
    requires i0 == arr1.Length || j0 == arr2.Length
    modifies result
    ensures Filled(arr1, arr2, result, x, y, i, j, t) && i == arr1.Length
  {
    i, j, t := i0, j0, t0;
    while i < arr1.Length
      invariant Filled(arr1, arr2, result, x, y, i, j, t)
      invariant i < arr1.Length ==> j == arr2.Length
    {
      SearchingAndSorting.EmitLeft(x, y, t, i, j, arr1[i], i + 1);
      result[i + j], t := arr1[i], t + [arr1[i]];
      i := i + 1;
    }
  }

  /** The third loop of `mergeSorted`: copy what is left of the second array. */
  method DrainSecond(arr1: array<int>, arr2: array<int>, result: array<int>,
                     ghost x: seq<int>, ghost y: seq<int>, i0: int, j0: int, ghost t0: seq<int>)
    returns (i: int, j: int, ghost t: seq<int>)
    requires result != arr1 && result != arr2 && Filled(arr1, arr2, result, x, y, i0, j0, t0)
    requires i0 == arr1.Length
    modifies result
    ensures Filled(arr1, arr2, result, x, y, i, j, t) && i == arr1.Length && j == arr2.Length
  {
    i, j, t := i0, j0, t0;
    while j < arr2.Length
      invariant Filled(arr1, arr2, result, x, y, i, j, t) && i == arr1.Length
    {
      SearchingAndSorting.EmitRight(x, y, t, i, j, arr2[j], j + 1);
      result[i + j], t := arr2[j], t + [arr2[j]];
      j := j + 1;
    }
  }

  // ---------------------------------------------------------------------------
  // Maximum subarray sum
  // ---------------------------------------------------------------------------

  /** Sum of the contiguous run a[i..j]. */
  function RunSum(a: seq<int>, i: int, j: int): int
    requires 0 <= i <= j <= |a|
  {
    Sum(a[i..j])
  }

  /** `r` is the largest sum of a non-empty contiguous run of `a`. */
  ghost predicate MaxSubarray(a: seq<int>, r: int) {
    && (exists i, j :: 0 <= i < j <= |a| && RunSum(a, i, j) == r)
    && (forall i, j :: 0 <= i < j <= |a| ==> RunSum(a, i, j) <= r)
  }

  /** A run grows by its next element. */
  lemma SumSlice(a: seq<int>, s: int, i: int)
    requires 0 <= s <= i < |a|
    ensures RunSum(a, s, i + 1) == RunSum(a, s, i) + a[i]
  {
    assert a[s..i + 1] == a[s..i] + [a[i]];
    SumAppend(a[s..i], a[i]);
  }

  /**
   * `maxSubarraySum` (Kadane): maxEndingHere is the best sum of a run
   * ending at i, maxSoFar the best sum of any run seen so far. The source
   * reads arr[0], so the array must not be empty.
   */
  method MaxSubarraySum(arr: array<int>) returns (r: int)
    requires arr.Length > 0
    ensures MaxSubarray(arr[..], r)
  {
    ghost var a := arr[..];
    var maxSoFar := arr[0];
    var maxEndingHere := arr[0];
    ghost var es, bp, bq := 0, 0, 1;
    SumSingle(a, 0);
    for i := 1 to arr.Length
      invariant 0 <= es < i && RunSum(a, es, i) == maxEndingHere
      invariant forall s :: 0 <= s < i ==> RunSum(a, s, i) <= maxEndingHere
      invariant 0 <= bp < bq <= i && RunSum(a, bp, bq) == maxSoFar
      invariant forall p, q :: 0 <= p < q <= i ==> RunSum(a, p, q) <= maxSoFar
    {
      SumSingle(a, i);
      ghost var next := i + 1;
      forall s | 0 <= s < i
        ensures RunSum(a, s, next) <= Max(arr[i], maxEndingHere + arr[i])
      {
        SumSlice(a, s, i);
      }
      SumSlice(a, es, i);
      if arr[i] >= maxEndingHere + arr[i] {
        es := i;
      }
      maxEndingHere := Max(arr[i], maxEndingHere + arr[i]);
      assert RunSum(a, es, i + 1) == maxEndingHere;
      if maxSoFar < maxEndingHere {
        bp, bq := es, i + 1;
      }
      maxSoFar := Max(maxSoFar, maxEndingHere);
      assert RunSum(a, bp, bq) == maxSoFar;
    }
    r := maxSoFar;
  }

  /** A run of negative numbers has a negative sum, or 0 when it is empty. */
  lemma {:induction false} SumNegative(s: seq<int>)
    requires forall k :: 0 <= k < |s| ==> s[k] < 0
    ensures Sum(s) <= 0 && (|s| > 0 ==> Sum(s) < 0)
    decreases |s|
  {
    if |s| > 0 {
      SumNegative(s[..|s| - 1]);
    }
  }

  /** A run of one element sums to that element. */
  lemma SumSingle(a: seq<int>, k: int)
    requires 0 <= k < |a|
    ensures RunSum(a, k, k + 1) == a[k]
  {
    SumSlice(a, k, k);
    assert a[k..k] == [];
  }

  /** When every element is negative, the best run is the largest single element. */
  lemma MaxSubarrayAllNegative(a: seq<int>, r: int)
    requires MaxSubarray(a, r) && forall k :: 0 <= k < |a| ==> a[k] < 0
    ensures r == MaxOf(a)
  {
    var i, j :| 0 <= i < j <= |a| && RunSum(a, i, j) == r;
    SinglesWithin(a, r);
    BestNegativeRun(a, r, i, j);
  }

  /** A best run [i, j) of negative numbers is no better than its last element, which is then the largest. */
  lemma BestNegativeRun(a: seq<int>, r: int, i: int, j: int)
    requires 0 <= i < j <= |a| && RunSum(a, i, j) == r
    requires forall k :: 0 <= k < |a| ==> a[k] < 0 && a[k] <= r
    ensures r == MaxOf(a)
  {
    SumSlice(a, i, j - 1);
    RunNegative(a, i, j - 1);
    assert a[j - 1] in a;
    MaxOfIs(a, a[j - 1]);
  }

  /** A run of negative numbers sums to at most 0. */
  lemma RunNegative(a: seq<int>, i: int, j: int)
    requires 0 <= i <= j <= |a| && forall k :: 0 <= k < |a| ==> a[k] < 0
    ensures RunSum(a, i, j) <= 0
  {
    var s := a[i..j];
    assert forall k :: 0 <= k < |s| ==> s[k] == a[i + k];
    SumNegative(s);
  }

  /** No single element exceeds the best run. */
  lemma SinglesWithin(a: seq<int>, r: int)
    requires MaxSubarray(a, r)
    ensures forall k :: 0 <= k < |a| ==> a[k] <= r
  {
    forall k | 0 <= k < |a|
      ensures a[k] <= r
    {
      SumSingle(a, k);
    }
  }

  // ---------------------------------------------------------------------------
  // Moving a value to the end
  // ---------------------------------------------------------------------------

  /** The elements of `s` other than `target`, in their order. */
  function Without(s: seq<int>, target: int): seq<int> {
    if s == [] then []
    else Without(s[..|s| - 1], target) + (if s[|s| - 1] == target then [] else [s[|s| - 1]])
  }

  /** What is dropped is exactly the copies of `target`: the lengths add up. */
  lemma {:induction false} WithoutLength(s: seq<int>, target: int)
    ensures |Without(s, target)| + Count(s, target) == |s|
    decreases |s|
  {
    if s != [] {
      var p := s[..|s| - 1];
      assert s == p + [s[|s| - 1]];
      WithoutLength(p, target);
    }
  }

  /** Dropping `target` removes all its copies and nothing else. */
  lemma {:induction false} WithoutDrops(s: seq<int>, target: int)
    ensures multiset(Without(s, target)) == multiset(s)[target := 0]
    decreases |s|
  {
    if s != [] {
      var p, x := s[..|s| - 1], s[|s| - 1];
      assert s == p + [x];
      WithoutDrops(p, target);
      if x != target {
        assert Without(s, target) == Without(p, target) + [x];
      }
    }
  }

  /** n copies of x hold x n times and nothing else. */
  lemma {:induction false} RepeatMultiset(x: int, n: nat)
    ensures multiset(Repeat(x, n)) == multiset{}[x := n]
    decreases n
  {
    if n > 0 {
      RepeatMultiset(x, n - 1);
    }
  }

  /** What is dropped is exactly the copies of `target`: the elements add up. */
  lemma WithoutMultiset(s: seq<int>, target: int)
    ensures multiset(Without(s, target)) + multiset(Repeat(target, Count(s, target))) == multiset(s)
  {
    WithoutDrops(s, target);
    RepeatMultiset(target, Count(s, target));
  }

  /** `target` does not occur in what is left. */
  lemma {:induction false} WithoutTarget(s: seq<int>, target: int)
    ensures target !in Without(s, target)
    decreases |s|
  {
    if s != [] {
      WithoutTarget(s[..|s| - 1], target);
    }
  }

  /**
   * `moveElement`: the elements other than `target` move to the front in
   * their order, and the remaining places are filled with `target`.
   */
  method MoveElement(arr: array<int>, target: int)
    modifies arr
    ensures arr[..] == Without(old(arr[..]), target) + Repeat(target, Count(old(arr[..]), target))
  {
    ghost var a := arr[..];
    ghost var w := Without(a, target);
    var write := Compact(arr, target);
    FillTail(arr, write, target);
    WithoutLength(a, target);
    ghost var tail := Repeat(target, Count(a, target));
    assert forall q :: 0 <= q < arr.Length ==> arr[q] == (w + tail)[q];
  }

  /** The second loop of `moveElement`: fills arr[write..] with `target`. */
  method FillTail(arr: array<int>, write: int, target: int)
    requires 0 <= write <= arr.Length
    modifies arr
    ensures forall q :: 0 <= q < write ==> arr[q] == old(arr[q])
    ensures forall q :: write <= q < arr.Length ==> arr[q] == target
  {
    var w := write;
    while w < arr.Length
      invariant write <= w <= arr.Length
      invariant forall q :: 0 <= q < write ==> arr[q] == old(arr[q])
      invariant forall q :: write <= q < w ==> arr[q] == target
    {
      arr[w] := target;
      w := w + 1;
    }
  }

  /** The first loop of `moveElement`: copies the other elements forward and returns how many there are. */
  method Compact(arr: array<int>, target: int) returns (write: int)
    modifies arr
    ensures write == |Without(old(arr[..]), target)| <= arr.Length
    ensures forall q :: 0 <= q < write ==> arr[q] == Without(old(arr[..]), target)[q]
  {
    ghost var a := arr[..];
    write := 0;
    for i := 0 to arr.Length
      invariant write <= i && write == |Without(a[..i], target)|
      invariant forall q :: 0 <= q < write ==> arr[q] == Without(a[..i], target)[q]
      invariant forall q :: i <= q < arr.Length ==> arr[q] == a[q]
    {
      assert a[..i + 1][..i] == a[..i];
      if arr[i] != target {
        arr[write] := arr[i];
        write := write + 1;
      }
    }
    assert a[..arr.Length] == a;
  }

  /** `moveElement` keeps the elements of the array. */
  lemma MoveElementMultiset(s: seq<int>, target: int)
    ensures multiset(Without(s, target) + Repeat(target, Count(s, target))) == multiset(s)
  {
    WithoutMultiset(s, target);
  }

  // ---------------------------------------------------------------------------
  // Frequency table
  // ---------------------------------------------------------------------------

  /**
   * `frequencyMap`: maps each value of the array to its number of
   * occurrences; those counts add up to the length (`Seqs.CountsSumToLength`).
   */
  method FrequencyMap(arr: array<int>) returns (freq: map<int, int>)
    ensures forall x :: x in freq <==> x in arr[..]
    ensures forall x :: x in freq ==> freq[x] == Count(arr[..], x)
  {
    freq := map[];
    for i := 0 to arr.Length
      invariant forall x :: x in freq <==> x in arr[..i]
      invariant forall x :: x in freq ==> freq[x] == Count(arr[..i], x)
    {
      var num := arr[i];
      assert arr[..i + 1] == arr[..i] + [num];
      assert forall x :: multiset(arr[..i + 1])[x] == multiset(arr[..i])[x] + (if x == num then 1 else 0);
      freq := freq[num := (if num in freq then freq[num] else 0) + 1];
    }
    assert arr[..arr.Length] == arr[..];
  }
}
