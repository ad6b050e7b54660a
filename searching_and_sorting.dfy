/**
 * Binary searches and in-place sorts over `int[]`: plain binary search,
 * search in a rotated strictly increasing array, first-and-last search,
 * bubble, selection, insertion, merge and quick sort, and the k-th
 * smallest element (the library sort it calls is modelled by the merge
 * sort here, as both promise a sorted permutation). Java `int` is
 * modelled as unbounded `int`; `left + (right - left) / 2` never meets a
 * negative operand, so Dafny's division is Java's there.
 */
module SearchingAndSorting {
  import opened Wrappers
  import opened Seqs

  // ---------------------------------------------------------------------------
  // Searching
  // ---------------------------------------------------------------------------

  /** `target` occurs somewhere in s[lo..hi]. */
  ghost predicate Occurs(s: seq<int>, target: int, lo: int, hi: int) {
    exists k :: lo <= k < hi && 0 <= k < |s| && s[k] == target
  }

  /**
   * Binary search: any index returned holds `target`; on a sorted array
   * -1 is returned exactly when `target` does not occur.
   */
  method BinarySearch(arr: array<int>, target: int) returns (r: int)
    ensures r == -1 || (0 <= r < arr.Length && arr[r] == target)
    ensures Sorted(arr[..]) ==> (r == -1 <==> target !in arr[..])
  {
    var left, right := 0, arr.Length - 1;
    while left <= right
      invariant 0 <= left <= right + 1 <= arr.Length
      invariant Sorted(arr[..]) ==> forall k :: 0 <= k < left ==> arr[k] < target
      invariant Sorted(arr[..]) ==> forall k :: right < k < arr.Length ==> arr[k] > target
      decreases right - left
    {
      var mid := left + (right - left) / 2;
      if arr[mid] == target {
        return mid;
      } else if arr[mid] < target {
        left := mid + 1;
      } else {
        right := mid - 1;
      }
    }
    r := -1;
  }

  /** Strictly increasing. */
  ghost predicate Increasing(s: seq<int>) {
    forall i, j :: 0 <= i < j < |s| ==> s[i] < s[j]
  }

  /** `s` is `u` rotated left by some amount. */
  ghost predicate RotationOf(s: seq<int>, u: seq<int>) {
    exists k :: 0 <= k <= |u| && s == u[k..] + u[..k]
  }

  /** A rotation of a strictly increasing array. */
  ghost predicate Rotated(s: seq<int>) {
    exists u :: Increasing(u) && RotationOf(s, u)
  }

  /**
   * A strictly increasing array split at `p`: each side increases, and
   * everything before `p` exceeds everything from `p` on.
   */
  ghost predicate SplitAt(s: seq<int>, p: int) {
    && 0 <= p <= |s|
    && (forall i, j :: 0 <= i < j < p ==> s[i] < s[j])
    && (forall i, j :: p <= i < j < |s| ==> s[i] < s[j])
    && (forall i, j :: 0 <= i < p <= j < |s| ==> s[i] > s[j])
  }

  lemma RotatedSplit(s: seq<int>) returns (p: int)
    requires Rotated(s)
    ensures SplitAt(s, p)
  {
    var u :| Increasing(u) && RotationOf(s, u);
    var k :| 0 <= k <= |u| && s == u[k..] + u[..k];
    p := |u| - k;
    forall i | 0 <= i < p ensures s[i] == u[k + i] {
      assert s[i] == u[k..][i];
    }
    forall i | p <= i < |s| ensures s[i] == u[i - p] {
      assert s[i] == u[..k][i - p];
    }
    forall i, j | 0 <= i < j < p ensures s[i] < s[j] {
      assert u[k + i] < u[k + j];
    }
    forall i, j | p <= i < j < |s| ensures s[i] < s[j] {
      assert u[i - p] < u[j - p];
    }
    forall i, j | 0 <= i < p <= j < |s| ensures s[i] > s[j] {
      assert u[j - p] < u[k + i];
    }
  }

  /**
   * In a split array the half the search keeps holds every occurrence of
   * `target` in [l, h].
   */
  lemma RotatedHalf(s: seq<int>, p: int, l: int, m: int, h: int, target: int)
    requires SplitAt(s, p) && 0 <= l <= m <= h < |s| && s[m] != target
    ensures s[l] <= s[m] && s[l] <= target < s[m] && Occurs(s, target, l, h + 1) ==> Occurs(s, target, l, m)
    ensures s[l] <= s[m] && !(s[l] <= target < s[m]) && Occurs(s, target, l, h + 1) ==> Occurs(s, target, m + 1, h + 1)
    ensures s[l] > s[m] && s[m] < target <= s[h] && Occurs(s, target, l, h + 1) ==> Occurs(s, target, m + 1, h + 1)
    ensures s[l] > s[m] && !(s[m] < target <= s[h]) && Occurs(s, target, l, h + 1) ==> Occurs(s, target, l, m)
  {
    if Occurs(s, target, l, h + 1) {
      var k :| l <= k < h + 1 && 0 <= k < |s| && s[k] == target;
      if k < m {
        assert Occurs(s, target, l, m);
      } else {
        assert Occurs(s, target, m + 1, h + 1);
      }
    }
  }

  /**
   * Search in a rotated array: any index returned holds `target`; on a
   * rotation of a strictly increasing array -1 is returned exactly when
   * `target` does not occur.
   */
  method SearchRotatedArray(arr: array<int>, target: int) returns (r: int)
    ensures r == -1 || (0 <= r < arr.Length && arr[r] == target)
    ensures Rotated(arr[..]) ==> (r == -1 <==> target !in arr[..])
  {
    ghost var s := arr[..];
    ghost var rotated := Rotated(s);
    ghost var p := 0;
    if rotated {
      p := RotatedSplit(s);
    }
    var left, right := 0, arr.Length - 1;
    while left <= right
      invariant 0 <= left <= right + 1 <= arr.Length
      invariant rotated ==> SplitAt(s, p)
      invariant rotated && target in s ==> Occurs(s, target, left, right + 1)
      decreases right - left
    {
      var mid := left + (right - left) / 2;
      if arr[mid] == target {
        return mid;
      }
      if rotated {
        if target in s {
          var k :| 0 <= k < |s| && s[k] == target;
          assert Occurs(s, target, 0, |s|);
        }
        RotatedHalf(s, p, left, mid, right, target);
      }
      if arr[left] <= arr[mid] {
        if arr[left] <= target && target < arr[mid] {
          right := mid - 1;
        } else {
          left := mid + 1;
        }
      } else {
        if arr[mid] < target && target <= arr[right] {
          left := mid + 1;
        } else {
          right := mid - 1;
        }
      }
    }
    r := -1;
  }

  /**
   * First and last index of `target`: the indices returned hold `target`,
   * and on a sorted array the pair is {-1, -1} exactly when `target` is
   * absent and otherwise bounds exactly the indices holding it.
   */
  method SearchRange(arr: array<int>, target: int) returns (result: array<int>)
    ensures fresh(result) && result.Length == 2
    ensures result[0] == -1 ==> result[1] == -1
    ensures result[0] != -1 ==> 0 <= result[0] < arr.Length && arr[result[0]] == target
    ensures result[1] != -1 ==> 0 <= result[1] < arr.Length && arr[result[1]] == target
    ensures Sorted(arr[..]) ==> (result[0] == -1 <==> target !in arr[..])
    ensures Sorted(arr[..]) && result[0] != -1 ==>
      result[1] != -1 && forall k :: 0 <= k < arr.Length ==> (arr[k] == target <==> result[0] <= k <= result[1])
  {
    var first := FirstOccurrence(arr, target);
    var last := -1;
    if first != -1 {
      last := LastOccurrence(arr, target, first);
    }
    result := new int[2];
    result[0], result[1] := first, last;
  }

  /** The first loop of `searchRange`. */
  method FirstOccurrence(arr: array<int>, target: int) returns (first: int)
    ensures first == -1 || (0 <= first < arr.Length && arr[first] == target)
    ensures Sorted(arr[..]) && first == -1 ==> target !in arr[..]
    ensures Sorted(arr[..]) && first != -1 ==> forall k :: 0 <= k < first ==> arr[k] < target
  {
    first := -1;
    var left, right := 0, arr.Length - 1;
    while left <= right
      invariant 0 <= left <= right + 1 <= arr.Length
      invariant first == -1 || (0 <= first < arr.Length && arr[first] == target)
      invariant Sorted(arr[..]) ==> forall k :: 0 <= k < left ==> arr[k] < target
      invariant Sorted(arr[..]) ==> forall k :: right < k < arr.Length ==> arr[k] >= target
      invariant Sorted(arr[..]) && first == -1 ==> forall k :: right < k < arr.Length ==> arr[k] > target
      invariant Sorted(arr[..]) && first != -1 ==> first == right + 1
      decreases right - left
    {
      var mid := left + (right - left) / 2;
      if arr[mid] == target {
        first := mid;
        right := mid - 1;
      } else if arr[mid] < target {
        left := mid + 1;
      } else {
        right := mid - 1;
      }
    }
  }

  /** The second loop of `searchRange`, started at the first occurrence. */
  method LastOccurrence(arr: array<int>, target: int, first: int) returns (last: int)
    requires 0 <= first < arr.Length && arr[first] == target
    ensures last == -1 || (0 <= last < arr.Length && arr[last] == target)
    ensures Sorted(arr[..]) ==> first <= last && forall k :: last < k < arr.Length ==> arr[k] > target
  {
    last := -1;
    var left, right := first, arr.Length - 1;
    while left <= right
      invariant first <= left <= right + 1 <= arr.Length
      invariant last == -1 || (0 <= last < arr.Length && arr[last] == target)
      invariant Sorted(arr[..]) ==> forall k :: right < k < arr.Length ==> arr[k] > target
      invariant Sorted(arr[..]) && last != -1 ==> last == left - 1 && first <= last
      invariant Sorted(arr[..]) && last == -1 ==> left == first && first <= right
      decreases right - left
    {
      var mid := left + (right - left) / 2;
      if arr[mid] == target {
        last := mid;
        left := mid + 1;
      } else if arr[mid] < target {
        left := mid + 1;
      } else {
        right := mid - 1;
      }
    }
  }

  // ---------------------------------------------------------------------------
  // Sorting in place
  // ---------------------------------------------------------------------------

  /** s[lo..hi] is in non-decreasing order. */
  ghost predicate SortedBetween(s: seq<int>, lo: int, hi: int) {
    forall i, j :: lo <= i < j < hi && 0 <= i && j < |s| ==> s[i] <= s[j]
  }

  /** Nothing before index `m` exceeds anything from `m` on. */
  ghost predicate Parted(s: seq<int>, m: int) {
    forall i, j :: 0 <= i < m <= j < |s| ==> s[i] <= s[j]
  }

  /** A sorted prefix and a sorted suffix, parted at `m`, make a sorted array. */
  lemma SortedJoin(s: seq<int>, m: int)
    requires 0 <= m <= |s| && SortedBetween(s, 0, m) && SortedBetween(s, m, |s|) && Parted(s, m)
    ensures Sorted(s)
  {
  }

  /** `s` with the elements at `i` and `j` exchanged. */
  function Swap(s: seq<int>, i: int, j: int): (r: seq<int>)
    requires 0 <= i < |s| && 0 <= j < |s|
    ensures |r| == |s| && r[i] == s[j] && r[j] == s[i]
    ensures forall k :: 0 <= k < |s| && k != i && k != j ==> r[k] == s[k]
    ensures multiset(r) == multiset(s)
  {
    s[i := s[j]][j := s[i]]
  }

  /**
   * Bubble sort with the early exit: after pass `i` the last `i` places hold
   * the largest elements in order; a pass without swaps ends the sort.
   */
  method BubbleSort(arr: array<int>)
    modifies arr
    ensures Sorted(arr[..]) && multiset(arr[..]) == multiset(old(arr[..]))
  {
    var n := arr.Length;
    var i := 0;
    while i < n - 1
      invariant 0 <= i <= n && (n > 0 ==> i <= n - 1)
      invariant SortedBetween(arr[..], n - i, n) && Parted(arr[..], n - i)
      invariant multiset(arr[..]) == multiset(old(arr[..]))
    {
      var swapped := BubblePass(arr, n - 1 - i);
      if !swapped {
        SortedJoin(arr[..], n - 1 - i);
        break;
      }
      i := i + 1;
    }
    if i >= n - 1 {
      SortedJoin(arr[..], n - i);
    }
  }

  /** Where a bubble pass over s[0..m] stands before comparing places `j` and `j + 1`. */
  ghost predicate PassState(s: seq<int>, m: int, j: int, unswapped: bool)
    requires 0 <= j <= m < |s|
  {
    && SortedBetween(s, m + 1, |s|) && Parted(s, m + 1)
    && (forall k :: 0 <= k <= j ==> s[k] <= s[j])
    && (unswapped ==> SortedBetween(s, 0, j + 1))
  }

  lemma PassStep(s: seq<int>, m: int, j: int, unswapped: bool)
    requires 0 <= j < m < |s| && PassState(s, m, j, unswapped)
    ensures s[j] > s[j + 1] ==> PassState(Swap(s, j, j + 1), m, j + 1, false)
    ensures s[j] <= s[j + 1] ==> PassState(s, m, j + 1, unswapped)
  {
  }

  /**
   * One bubble pass over arr[0..m]: the largest element of that prefix ends
   * at `m`; `swapped` is false only when the prefix was already sorted.
   */
  method BubblePass(arr: array<int>, m: int) returns (swapped: bool)
    requires 0 <= m < arr.Length && SortedBetween(arr[..], m + 1, arr.Length) && Parted(arr[..], m + 1)
    modifies arr
    ensures SortedBetween(arr[..], m, arr.Length) && Parted(arr[..], m)
    ensures !swapped ==> SortedBetween(arr[..], 0, m + 1)
    ensures multiset(arr[..]) == multiset(old(arr[..]))
  {
    swapped := false;
    for j := 0 to m
      invariant PassState(arr[..], m, j, !swapped)
      invariant multiset(arr[..]) == multiset(old(arr[..]))
    {
      ghost var s := arr[..];
      PassStep(s, m, j, !swapped);
      if arr[j] > arr[j + 1] {
        arr[j], arr[j + 1] := arr[j + 1], arr[j];
        assert arr[..] == Swap(s, j, j + 1);
        swapped := true;
      }
    }
    PassDone(arr[..], m, !swapped);
  }

  /** At the end of a pass, place `m` holds the largest element of the prefix. */
  lemma PassDone(s: seq<int>, m: int, unswapped: bool)
    requires 0 <= m < |s| && PassState(s, m, m, unswapped)
    ensures SortedBetween(s, m, |s|) && Parted(s, m)
    ensures unswapped ==> SortedBetween(s, 0, m + 1)
  {
  }

  /** Selection sort: place `i` receives the smallest element of arr[i..]. */
  method SelectionSort(arr: array<int>)
    modifies arr
    ensures Sorted(arr[..]) && multiset(arr[..]) == multiset(old(arr[..]))
  {
    var n := arr.Length;
    var i := 0;
    while i < n - 1
      invariant 0 <= i <= n && (n > 0 ==> i <= n - 1)
      invariant SortedBetween(arr[..], 0, i) && Parted(arr[..], i)
      invariant multiset(arr[..]) == multiset(old(arr[..]))
    {
      var minIdx := MinIndex(arr, i);
      ghost var s := arr[..];
      SelectStep(s, i, minIdx);
      arr[i], arr[minIdx] := arr[minIdx], arr[i];
      assert arr[..] == Swap(s, i, minIdx);
      i := i + 1;
    }
    SortedJoin(arr[..], i);
  }

  /** The inner loop of selection sort: an index of a smallest element of arr[i..]. */
  method MinIndex(arr: array<int>, i: int) returns (minIdx: int)
    requires 0 <= i < arr.Length
    ensures i <= minIdx < arr.Length && forall k :: i <= k < arr.Length ==> arr[minIdx] <= arr[k]
  {
    minIdx := i;
    for j := i + 1 to arr.Length
      invariant i <= minIdx < j
      invariant forall k :: i <= k < j ==> arr[minIdx] <= arr[k]
    {
      if arr[j] < arr[minIdx] {
        minIdx := j;
      }
    }
  }

  lemma SelectStep(s: seq<int>, i: int, minIdx: int)
    requires 0 <= i <= minIdx < |s| && SortedBetween(s, 0, i) && Parted(s, i)
    requires forall k :: i <= k < |s| ==> s[minIdx] <= s[k]
    ensures SortedBetween(Swap(s, i, minIdx), 0, i + 1) && Parted(Swap(s, i, minIdx), i + 1)
  {
  }

  /** Insertion sort: arr[0..i] is kept sorted while arr[i] is inserted into it. */
  method InsertionSort(arr: array<int>)
    modifies arr
    ensures Sorted(arr[..]) && multiset(arr[..]) == multiset(old(arr[..]))
  {
    var i := 1;
    while i < arr.Length
      invariant 1 <= i && (arr.Length > 0 ==> i <= arr.Length)
      invariant SortedBetween(arr[..], 0, i)
      invariant multiset(arr[..]) == multiset(old(arr[..]))
    {
      Insert(arr, i);
      i := i + 1;
    }
  }

  /**
   * Where the insertion of `key` stands: the elements above it have moved
   * from s[j + 1..i) to s[j + 2..i], and `key` belongs at the gap `j + 1`.
   */
  ghost predicate Shifting(s: seq<int>, i: int, j: int, key: int)
    requires -1 <= j < i < |s|
  {
    && SortedBetween(s, 0, j + 1) && SortedBetween(s, j + 2, i + 1)
    && (forall a, b :: 0 <= a <= j && j + 2 <= b <= i ==> s[a] <= s[b])
    && (forall b :: j + 2 <= b <= i ==> s[b] > key)
  }

  lemma ShiftStep(s: seq<int>, i: int, j: int, key: int)
    requires 0 <= j < i < |s| && Shifting(s, i, j, key) && s[j] > key
    ensures Shifting(s[j + 1 := s[j]], i, j - 1, key)
    ensures s[j + 1 := s[j]][j := key] == Swap(s[j + 1 := key], j, j + 1)
  {
  }

  lemma ShiftDone(s: seq<int>, i: int, j: int, key: int)
    requires -1 <= j < i < |s| && Shifting(s, i, j, key) && (j < 0 || s[j] <= key)
    ensures SortedBetween(s[j + 1 := key], 0, i + 1)
  {
  }

  /** Shifts the elements of arr[0..i) above arr[i] up one place and drops arr[i] into the gap. */
  method Insert(arr: array<int>, i: int)
    requires 0 < i < arr.Length && SortedBetween(arr[..], 0, i)
    modifies arr
    ensures SortedBetween(arr[..], 0, i + 1)
    ensures multiset(arr[..]) == multiset(old(arr[..]))
  {
    var key := arr[i];
    var j := i - 1;
    assert arr[..][j + 1 := key] == arr[..];
    while j >= 0 && arr[j] > key
      invariant -1 <= j < i
      invariant Shifting(arr[..], i, j, key)
      invariant multiset(arr[..][j + 1 := key]) == multiset(old(arr[..]))
    {
      ghost var s := arr[..];
      ShiftStep(s, i, j, key);
      arr[j + 1] := arr[j];
      assert arr[..] == s[j + 1 := s[j]];
      j := j - 1;
    }
    ShiftDone(arr[..], i, j, key);
    arr[j + 1] := key;
  }

  /** Outside [lo, hi] the arrays agree. */
  ghost predicate SameOutside(s: seq<int>, t: seq<int>, lo: int, hi: int) {
    |s| == |t| && forall q :: 0 <= q < |s| && (q < lo || hi < q) ==> s[q] == t[q]
  }

  /**
   * `merge`: arr[left..mid] and arr[mid+1..right] are merged through a
   * buffer and copied back; the rest of the array is untouched.
   */
  method MergeHalves(arr: array<int>, left: int, mid: int, right: int)
    requires 0 <= left <= mid <= right < arr.Length
    modifies arr
    ensures arr[left..right + 1] == Merge(old(arr[left..mid + 1]), old(arr[mid + 1..right + 1]))
    ensures SameOutside(arr[..], old(arr[..]), left, right)
  {
    var temp := MergeToBuffer(arr, left, mid, right);
    CopyBack(arr, temp, left);
  }

  /** The last loop of `merge`: the buffer is copied over arr[left..], nothing else changes. */
  method CopyBack(arr: array<int>, temp: array<int>, left: int)
    requires temp != arr && 0 <= left && left + temp.Length <= arr.Length
    modifies arr
    ensures arr[left..left + temp.Length] == temp[..]
    ensures SameOutside(arr[..], old(arr[..]), left, left + temp.Length - 1)
  {
    for q := 0 to temp.Length
      invariant forall r :: 0 <= r < q ==> arr[left + r] == temp[r]
      invariant SameOutside(arr[..], old(arr[..]), left, left + q - 1)
    {
      arr[left + q] := temp[q];
    }
    assert arr[left..left + temp.Length] == temp[..];
  }

  /** `t` is what the merge of `x` and `y` emits before it reaches x[a..] and y[b..]. */
  ghost predicate Emitted(x: seq<int>, y: seq<int>, t: seq<int>, a: int, b: int) {
    0 <= a <= |x| && 0 <= b <= |y| && t + MergeFrom(x, y, a, b) == Merge(x, y)
  }

  /** Emitting the head of the left run, as the merge does, keeps the buffer a prefix of the merge. */
  lemma EmitLeft(x: seq<int>, y: seq<int>, t: seq<int>, a: int, b: int, v: int, a': int)
    requires Emitted(x, y, t, a, b) && a < |x| && (b == |y| || x[a] <= y[b])
    requires v == x[a] && a' == a + 1
    ensures Emitted(x, y, t + [v], a', b)
  {
    if b == |y| {
      assert x[a..] == [x[a]] + x[a + 1..];
    }
    AppendAssoc(t, [x[a]], MergeFrom(x, y, a + 1, b));
  }

  /** Emitting the head of the right run, as the merge does, keeps the buffer a prefix of the merge. */
  lemma EmitRight(x: seq<int>, y: seq<int>, t: seq<int>, a: int, b: int, v: int, b': int)
    requires Emitted(x, y, t, a, b) && b < |y| && (a == |x| || x[a] > y[b])
    requires v == y[b] && b' == b + 1
    ensures Emitted(x, y, t + [v], a, b')
  {
    if a == |x| {
      assert y[b..] == [y[b]] + y[b + 1..];
    }
    AppendAssoc(t, [y[b]], MergeFrom(x, y, a, b + 1));
  }

  /** The three merging loops of `merge`, filling the buffer `temp`. */
  method MergeToBuffer(arr: array<int>, left: int, mid: int, right: int) returns (temp: array<int>)
    requires 0 <= left <= mid <= right < arr.Length
    ensures fresh(temp) && temp[..] == Merge(arr[left..mid + 1], arr[mid + 1..right + 1])
  {
    ghost var x, y := arr[left..mid + 1], arr[mid + 1..right + 1];
    temp := new int[right - left + 1];
    var i, j, k := left, mid + 1, 0;
    ghost var t: seq<int> := [];
    i, j, k, t := MergeWhileBoth(arr, temp, left, mid, right, x, y, i, j, k, t);
    assert temp[..] == t;
  }

  /** The buffer holds the first k elements the merge emits, with i and j the next unread positions. */
  ghost predicate Filling(temp: array<int>, left: int, mid: int, right: int,
                          x: seq<int>, y: seq<int>, i: int, j: int, k: int, t: seq<int>)
    reads temp
  {
    |x| == mid + 1 - left && |y| == right - mid && temp.Length == right - left + 1 &&
    Cursors(left, mid, right, i, j, k) &&
    Emitted(x, y, t, i - left, j - mid - 1) && |t| == k && Buffered(temp, t)
  }

  /** x and y are the two sorted halves arr[left..mid] and arr[mid + 1..right]. */
  ghost predicate Runs(arr: array<int>, left: int, mid: int, right: int, x: seq<int>, y: seq<int>)
    reads arr
  {
    0 <= left <= mid <= right < arr.Length && x == arr[left..mid + 1] && y == arr[mid + 1..right + 1]
  }

  /** i and j are the next unread positions of the halves, k the number of elements emitted. */
  predicate Cursors(left: int, mid: int, right: int, i: int, j: int, k: int) {
    left <= i <= mid + 1 <= j <= right + 1 && k == (i - left) + (j - mid - 1)
  }

  /** The buffer starts with t. */
  ghost predicate Buffered(temp: array<int>, t: seq<int>)
    reads temp
  {
    |t| <= temp.Length && forall q :: 0 <= q < |t| ==> temp[q] == t[q]
  }

  /**
   * The first loop of `merge`: emits the smaller head while both halves have
   * elements; the two loops that copy what is left follow it.
   */
  method MergeWhileBoth(arr: array<int>, temp: array<int>, left: int, mid: int, right: int,
                        ghost x: seq<int>, ghost y: seq<int>, i0: int, j0: int, k0: int, ghost t0: seq<int>)
    returns (i: int, j: int, k: int, ghost t: seq<int>)
    requires temp != arr && Runs(arr, left, mid, right, x, y) && Filling(temp, left, mid, right, x, y, i0, j0, k0, t0)
    modifies temp
    ensures Filling(temp, left, mid, right, x, y, i, j, k, t) && i == mid + 1 && j == right + 1
  {
    i, j, k, t := i0, j0, k0, t0;
    while i <= mid && j <= right
      invariant Runs(arr, left, mid, right, x, y) && Filling(temp, left, mid, right, x, y, i, j, k, t)
      decreases (mid - i) + (right - j)
    {
      if arr[i] <= arr[j] {
        i, k, t := TakeLeft(arr, temp, left, mid, right, x, y, i, j, k, t);
      } else {
        j, k, t := TakeRight(arr, temp, left, mid, right, x, y, i, j, k, t);
      }
    }
    i, j, k, t := DrainLeft(arr, temp, left, mid, right, x, y, i, j, k, t);
  }

  /** `temp[k++] = arr[i++]`: the head of the left half goes to the buffer, as the merge emits it. */
  method TakeLeft(arr: array<int>, temp: array<int>, left: int, mid: int, right: int,
                  ghost x: seq<int>, ghost y: seq<int>, i: int, j: int, k: int, ghost t: seq<int>)
    returns (i': int, k': int, ghost t': seq<int>)
    requires temp != arr && Runs(arr, left, mid, right, x, y) && Filling(temp, left, mid, right, x, y, i, j, k, t)
    requires i <= mid && (j > right || arr[i] <= arr[j])
    modifies temp
    ensures Filling(temp, left, mid, right, x, y, i', j, k', t') && i' == i + 1
  {
    var u := arr[i];
    assert u == x[i - left] && (j > right || u <= y[j - mid - 1]);
    t' := Put(temp, k, t, u);
    EmitLeft(x, y, t, i - left, j - mid - 1, u, i + 1 - left);
    i', k' := i + 1, k + 1;
  }

  /** `temp[k++] = arr[j++]`: the head of the right half goes to the buffer, as the merge emits it. */
  method TakeRight(arr: array<int>, temp: array<int>, left: int, mid: int, right: int,
                   ghost x: seq<int>, ghost y: seq<int>, i: int, j: int, k: int, ghost t: seq<int>)
    returns (j': int, k': int, ghost t': seq<int>)
    requires temp != arr && Runs(arr, left, mid, right, x, y) && Filling(temp, left, mid, right, x, y, i, j, k, t)
    requires j <= right && (i > mid || arr[i] > arr[j])
    modifies temp
    ensures Filling(temp, left, mid, right, x, y, i, j', k', t') && j' == j + 1
  {
    var w := arr[j];
    assert w == y[j - mid - 1] && (i > mid || x[i - left] > w);
    t' := Put(temp, k, t, w);
    EmitRight(x, y, t, i - left, j - mid - 1, w, j + 1 - mid - 1);
    j', k' := j + 1, k + 1;
  }

  /** Writes v after the k elements the buffer starts with. */
  method Put(temp: array<int>, k: int, ghost t: seq<int>, v: int) returns (ghost t': seq<int>)
    requires Buffered(temp, t) && k == |t| < temp.Length
    modifies temp
    ensures t' == t + [v] && Buffered(temp, t')
  {
    temp[k] := v;
    t' := t + [v];
  }

  /** The second loop of `merge`: copies what is left of the left half; the third loop follows it. */
  method DrainLeft(arr: array<int>, temp: array<int>, left: int, mid: int, right: int,
                   ghost x: seq<int>, ghost y: seq<int>, i0: int, j0: int, k0: int, ghost t0: seq<int>)
    returns (i: int, j: int, k: int, ghost t: seq<int>)
    requires temp != arr && Runs(arr, left, mid, right, x, y) && Filling(temp, left, mid, right, x, y, i0, j0, k0, t0) && (i0 > mid || j0 > right)
    modifies temp
    ensures Filling(temp, left, mid, right, x, y, i, j, k, t) && i == mid + 1 && j == right + 1
  {
    i, j, k, t := i0, j0, k0, t0;
    while i <= mid
      invariant Runs(arr, left, mid, right, x, y) && Filling(temp, left, mid, right, x, y, i, j, k, t)
      invariant i <= mid ==> j == right + 1
      decreases mid - i
    {
      i, k, t := TakeLeft(arr, temp, left, mid, right, x, y, i, j, k, t);
    }
    i, j, k, t := DrainRight(arr, temp, left, mid, right, x, y, i, j, k, t);
  }

  /** The third loop of `merge`: copies what is left of the right half. */
  method DrainRight(arr: array<int>, temp: array<int>, left: int, mid: int, right: int,
                    ghost x: seq<int>, ghost y: seq<int>, i0: int, j0: int, k0: int, ghost t0: seq<int>)
    returns (i: int, j: int, k: int, ghost t: seq<int>)
    requires temp != arr && Runs(arr, left, mid, right, x, y) && Filling(temp, left, mid, right, x, y, i0, j0, k0, t0) && i0 == mid + 1
    modifies temp
    ensures Filling(temp, left, mid, right, x, y, i, j, k, t) && i == mid + 1 && j == right + 1
  {
    i, j, k, t := i0, j0, k0, t0;
    while j <= right
      invariant Runs(arr, left, mid, right, x, y) && Filling(temp, left, mid, right, x, y, i, j, k, t) && i == mid + 1
      decreases right - j
    {
      j, k, t := TakeRight(arr, temp, left, mid, right, x, y, i, j, k, t);
    }
  }

  /** `mergeSortHelper`: sorts arr[left..right] in place, touching nothing else. */
  method MergeSortRange(arr: array<int>, left: int, right: int)
    requires 0 <= left <= right < arr.Length
    modifies arr
    ensures Sorted(arr[left..right + 1])
    ensures multiset(arr[left..right + 1]) == multiset(old(arr[left..right + 1]))
    ensures SameOutside(arr[..], old(arr[..]), left, right)
    decreases right - left
  {
    if left < right {
      var mid := left + (right - left) / 2;
      ghost var s0 := arr[..];
      MergeSortRange(arr, left, mid);
      ghost var s1 := arr[..];
      MergeSortRange(arr, mid + 1, right);
      ghost var s2 := arr[..];
      MergeHalves(arr, left, mid, right);
      MergeSortStep(s0, s1, s2, arr[..], left, mid, right);
    }
  }

  /**
   * The recursive step of `mergeSortHelper` on snapshots: sorting each half
   * in place, then merging them, sorts the range and permutes it.
   */
  lemma MergeSortStep(s0: seq<int>, s1: seq<int>, s2: seq<int>, s3: seq<int>, left: int, mid: int, right: int)
    requires 0 <= left <= mid < right < |s0| == |s1| == |s2| == |s3|
    requires Sorted(s1[left..mid + 1]) && multiset(s1[left..mid + 1]) == multiset(s0[left..mid + 1])
    requires SameOutside(s1, s0, left, mid)
    requires Sorted(s2[mid + 1..right + 1]) && multiset(s2[mid + 1..right + 1]) == multiset(s1[mid + 1..right + 1])
    requires SameOutside(s2, s1, mid + 1, right)
    requires s3[left..right + 1] == Merge(s2[left..mid + 1], s2[mid + 1..right + 1])
    requires SameOutside(s3, s2, left, right)
    ensures Sorted(s3[left..right + 1])
    ensures multiset(s3[left..right + 1]) == multiset(s0[left..right + 1])
    ensures SameOutside(s3, s0, left, right)
  {
    assert s2[left..mid + 1] == s1[left..mid + 1];
    assert s1[mid + 1..right + 1] == s0[mid + 1..right + 1];
    MergeMultiset(s0, s2, left, mid, right);
    MergeSorted(s2[left..mid + 1], s2[mid + 1..right + 1]);
  }

  /** The two merged halves together hold the multiset the range held. */
  lemma MergeMultiset(s0: seq<int>, s2: seq<int>, left: int, mid: int, right: int)
    requires 0 <= left <= mid < right < |s0| == |s2|
    requires multiset(s2[left..mid + 1]) == multiset(s0[left..mid + 1])
    requires multiset(s2[mid + 1..right + 1]) == multiset(s0[mid + 1..right + 1])
    ensures multiset(s2[left..mid + 1]) + multiset(s2[mid + 1..right + 1]) == multiset(s0[left..right + 1])
  {
    assert s0[left..right + 1] == s0[left..mid + 1] + s0[mid + 1..right + 1];
  }

  /** Merge sort of the whole array; arrays of length 0 or 1 are left alone. */
  method MergeSort(arr: array<int>)
    modifies arr
    ensures Sorted(arr[..]) && multiset(arr[..]) == multiset(old(arr[..]))
  {
    if arr.Length <= 1 {
      return;
    }
    MergeSortRange(arr, 0, arr.Length - 1);
    assert arr[..] == arr[0..arr.Length];
    assert old(arr[..]) == old(arr[0..arr.Length]);
  }

  // ---------------------------------------------------------------------------
  // Quick sort (Lomuto partition)
  // ---------------------------------------------------------------------------

  /** Quick sort of the whole array; an empty array is left alone. */
  method QuickSort(arr: array<int>)
    modifies arr
    ensures Sorted(arr[..]) && multiset(arr[..]) == multiset(old(arr[..]))
  {
    if arr.Length == 0 {
      return;
    }
    QuickSortRange(arr, 0, arr.Length - 1);
  }

  /**
   * `quickSortHelper`: sorts arr[left..right] in place, touching nothing
   * else; an empty range (right == left - 1) is left alone.
   */
  method QuickSortRange(arr: array<int>, left: int, right: int)
    requires 0 <= left <= right + 1 <= arr.Length
    modifies arr
    ensures SortedBetween(arr[..], left, right + 1)
    ensures multiset(arr[..]) == multiset(old(arr[..]))
    ensures SameOutside(arr[..], old(arr[..]), left, right)
    decreases right - left
  {
    if left < right {
      var pi := Partition(arr, left, right);
      ghost var s1 := arr[..];
      QuickSortRange(arr, left, pi - 1);
      ghost var s2 := arr[..];
      QuickSortRange(arr, pi + 1, right);
      ghost var s3 := arr[..];
      BoundsKept(s1, s2, left, pi - 1, s1[pi]);
      BoundsKept(s2, s3, pi + 1, right, s1[pi]);
      QuickJoin(s3, left, pi, right);
    }
  }

  /** Every element of s[lo..hi] is below `v`. */
  ghost predicate AllBelow(s: seq<int>, lo: int, hi: int, v: int) {
    forall k :: lo <= k <= hi && 0 <= k < |s| ==> s[k] < v
  }

  /** Every element of s[lo..hi] is at least `v`. */
  ghost predicate AllAtLeast(s: seq<int>, lo: int, hi: int, v: int) {
    forall k :: lo <= k <= hi && 0 <= k < |s| ==> v <= s[k]
  }

  /** Rearranging s[lo..hi] in place keeps every bound that held on it. */
  lemma BoundsKept(s: seq<int>, t: seq<int>, lo: int, hi: int, v: int)
    requires 0 <= lo <= hi + 1 <= |s| && Rearranged(t, s, lo, hi)
    ensures AllBelow(s, lo, hi, v) ==> AllBelow(t, lo, hi, v)
    ensures AllAtLeast(s, lo, hi, v) ==> AllAtLeast(t, lo, hi, v)
  {
    RangeMultiset(s, t, lo, hi);
    forall k | lo <= k <= hi
      ensures t[k] in multiset(s[lo..hi + 1])
    {
      assert t[k] == t[lo..hi + 1][k - lo];
    }
    forall k | lo <= k <= hi
      ensures exists q :: lo <= q <= hi && s[q] == t[k]
    {
      var q :| 0 <= q < hi + 1 - lo && s[lo..hi + 1][q] == t[k];
      assert s[lo + q] == t[k];
    }
  }

  /** A rearrangement of s[lo..hi] keeps the multiset of that range. */
  lemma RangeMultiset(s: seq<int>, t: seq<int>, lo: int, hi: int)
    requires 0 <= lo <= hi + 1 <= |s| && Rearranged(t, s, lo, hi)
    ensures multiset(t[lo..hi + 1]) == multiset(s[lo..hi + 1])
  {
    assert s[..lo] == t[..lo] && s[hi + 1..] == t[hi + 1..];
    CancelOutside(s, t, lo, hi);
  }

  /** Sequences with the same multiset that agree before `lo` and after `hi` have the same multiset in between. */
  lemma CancelOutside(s: seq<int>, t: seq<int>, lo: int, hi: int)
    requires 0 <= lo <= hi + 1 <= |s| == |t| && multiset(s) == multiset(t)
    requires s[..lo] == t[..lo] && s[hi + 1..] == t[hi + 1..]
    ensures multiset(t[lo..hi + 1]) == multiset(s[lo..hi + 1])
  {
    SplitMultiset(s, lo, hi);
    SplitMultiset(t, lo, hi);
    var outside := multiset(s[..lo]) + multiset(s[hi + 1..]);
    var inS, inT := multiset(s[lo..hi + 1]), multiset(t[lo..hi + 1]);
    forall e
      ensures inT[e] == inS[e]
    {
      assert multiset(s)[e] == outside[e] + inS[e];
      assert multiset(t)[e] == outside[e] + inT[e];
    }
  }

  /** The multiset of a sequence is that of its part before `lo`, of s[lo..hi] and of its part after `hi`. */
  lemma SplitMultiset(s: seq<int>, lo: int, hi: int)
    requires 0 <= lo <= hi + 1 <= |s|
    ensures multiset(s) == multiset(s[..lo]) + multiset(s[hi + 1..]) + multiset(s[lo..hi + 1])
  {
    assert s == s[..lo] + s[lo..hi + 1] + s[hi + 1..];
  }

  /** A pivot with smaller elements sorted before it and the rest sorted after it makes a sorted range. */
  lemma QuickJoin(s: seq<int>, left: int, p: int, right: int)
    requires 0 <= left <= p <= right < |s|
    requires SortedBetween(s, left, p) && SortedBetween(s, p + 1, right + 1)
    requires AllBelow(s, left, p - 1, s[p]) && AllAtLeast(s, p + 1, right, s[p])
    ensures SortedBetween(s, left, right + 1)
  {
  }

  /** `s` is `s0` with only the places in [lo, hi] rearranged. */
  ghost predicate Rearranged(s: seq<int>, s0: seq<int>, lo: int, hi: int) {
    multiset(s) == multiset(s0) && SameOutside(s, s0, lo, hi)
  }

  /** Exchanging two places inside [lo, hi] is such a rearrangement. */
  lemma SwapRearranges(s: seq<int>, s0: seq<int>, lo: int, hi: int, i: int, j: int)
    requires Rearranged(s, s0, lo, hi) && lo <= i <= hi && lo <= j <= hi && 0 <= i < |s| && 0 <= j < |s|
    ensures Rearranged(Swap(s, i, j), s0, lo, hi)
  {
  }

  /** Where the Lomuto partition of s[left..right] stands before it looks at place `j`. */
  ghost predicate Partitioning(s: seq<int>, left: int, right: int, i: int, j: int, pivot: int) {
    && 0 <= left && left - 1 <= i < j <= right < |s| && s[right] == pivot
    && AllBelow(s, left, i, pivot) && AllAtLeast(s, i + 1, j - 1, pivot)
  }

  lemma PartitionStep(s: seq<int>, left: int, right: int, i: int, j: int, pivot: int)
    requires Partitioning(s, left, right, i, j, pivot) && j < right
    ensures s[j] < pivot ==> Partitioning(Swap(s, i + 1, j), left, right, i + 1, j + 1, pivot)
    ensures pivot <= s[j] ==> Partitioning(s, left, right, i, j + 1, pivot)
  {
    if s[j] < pivot {
      var t := Swap(s, i + 1, j);
      forall k | left <= k <= i + 1
        ensures t[k] < pivot
      {
        if k == i + 1 {
          assert t[k] == s[j];
        }
      }
      forall k | i + 2 <= k <= j
        ensures pivot <= t[k]
      {
        if k == j {
          assert t[k] == s[i + 1];
        }
      }
    }
  }

  /** The closing exchange puts the pivot between the two parts. */
  lemma PartitionDone(s: seq<int>, left: int, right: int, i: int, pivot: int)
    requires Partitioning(s, left, right, i, right, pivot)
    ensures var t := Swap(s, i + 1, right);
      t[i + 1] == pivot && AllBelow(t, left, i, pivot) && AllAtLeast(t, i + 2, right, pivot)
  {
    var t := Swap(s, i + 1, right);
    assert forall k :: left <= k <= i ==> t[k] == s[k];
    forall k | i + 2 <= k <= right
      ensures pivot <= t[k]
    {
      if k == right {
        assert t[k] == s[i + 1];
      }
    }
  }

  /**
   * `partition`: with pivot arr[right], moves the elements below the pivot
   * to the front of the range, puts the pivot right after them and returns
   * its place; everything after it is at least the pivot.
   */
  method Partition(arr: array<int>, left: int, right: int) returns (p: int)
    requires 0 <= left <= right < arr.Length
    modifies arr
    ensures left <= p <= right && arr[p] == old(arr[right])
    ensures AllBelow(arr[..], left, p - 1, arr[p]) && AllAtLeast(arr[..], p + 1, right, arr[p])
    ensures multiset(arr[..]) == multiset(old(arr[..]))
    ensures SameOutside(arr[..], old(arr[..]), left, right)
  {
    var pivot := arr[right];
    var i := left - 1;
    ghost var s0 := arr[..];
    for j := left to right
      invariant Partitioning(arr[..], left, right, i, j, pivot)
      invariant Rearranged(arr[..], s0, left, right)
    {
      ghost var s := arr[..];
      PartitionStep(s, left, right, i, j, pivot);
      if arr[j] < pivot {
        i := i + 1;
        SwapRearranges(s, s0, left, right, i, j);
        arr[i], arr[j] := arr[j], arr[i];
        assert arr[..] == Swap(s, i, j);
      }
    }
    ghost var s := arr[..];
    SwapRearranges(s, s0, left, right, i + 1, right);
    PartitionDone(s, left, right, i, pivot);
    arr[i + 1], arr[right] := arr[right], arr[i + 1];
    assert arr[..] == Swap(s, i + 1, right);
    p := i + 1;
  }

  // ---------------------------------------------------------------------------
  // K-th smallest
  // ---------------------------------------------------------------------------

  /**
   * `findKthSmallest`: sorts the array in place and reads place k - 1; a k
   * outside 1..arr.Length, where the library read fails, gives None.
   */
  method FindKthSmallest(arr: array<int>, k: int) returns (r: Option<int>)
    modifies arr
    ensures Sorted(arr[..]) && multiset(arr[..]) == multiset(old(arr[..]))
    ensures 1 <= k <= arr.Length ==> r == Some(arr[k - 1])
    ensures !(1 <= k <= arr.Length) ==> r == None
  {
    MergeSort(arr);
    if 1 <= k <= arr.Length {
      r := Some(arr[k - 1]);
    } else {
      r := None;
    }
  }
}
