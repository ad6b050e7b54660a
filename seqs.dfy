/**
 * Vocabulary shared by the models of the library classes: sortedness,
 * occurrence counts, reversal, merging of sorted runs, order-preserving
 * de-duplication, sums and maxima of integer sequences.
 */
module Seqs {

  /** Non-decreasing order. */
  ghost predicate Sorted(s: seq<int>) {
    forall i, j :: 0 <= i < j < |s| ==> s[i] <= s[j]
  }

  /** No value occurs twice. */
  ghost predicate Distinct<T>(s: seq<T>) {
    forall i, j :: 0 <= i < j < |s| ==> s[i] != s[j]
  }

  /** Joining two duplicate-free sequences with no common value keeps them duplicate-free. */
  lemma DistinctConcat<T>(a: seq<T>, b: seq<T>)
    requires Distinct(a) && Distinct(b)
    requires forall x :: x in a ==> x !in b
    ensures Distinct(a + b)
  {
    forall i, j | 0 <= i < j < |a + b| ensures (a + b)[i] != (a + b)[j] {
      if i < |a| <= j {
        assert (a + b)[i] in a && (a + b)[j] in b;
      }
    }
  }

  lemma AppendAssoc<T>(a: seq<T>, b: seq<T>, c: seq<T>)
    ensures (a + b) + c == a + (b + c)
  {
  }

  lemma TakeSnoc<T>(s: seq<T>, i: nat)
    requires i < |s|
    ensures s[..i + 1] == s[..i] + [s[i]]
  {
  }

  lemma DropCons<T>(s: seq<T>, i: nat)
    requires i < |s|
    ensures s[i..] == [s[i]] + s[i + 1..]
  {
  }

  lemma InAppend<T>(a: seq<T>, b: seq<T>, x: T)
    ensures x in a + b <==> x in a || x in b
  {
  }

  /** The set of values of a sequence; a duplicate-free sequence has as many values as positions. */
  function Elems<T(==,!new)>(s: seq<T>): (r: set<T>)
    ensures forall x :: x in r <==> x in s
    ensures |r| <= |s|
    ensures Distinct(s) ==> |r| == |s|
  {
    if s == [] then {}
    else
      assert s == s[..|s| - 1] + [s[|s| - 1]];
      Elems(s[..|s| - 1]) + {s[|s| - 1]}
  }

  lemma ElemsSnoc<T(!new)>(s: seq<T>, x: T)
    ensures Elems(s + [x]) == Elems(s) + {x}
  {
    assert (s + [x])[..|s|] == s;
  }

  function Max(a: int, b: int): int { if a >= b then a else b }

  function Min(a: int, b: int): int { if a <= b then a else b }

  /** Number of occurrences of `x` in `s`; it agrees with the multiset of `s`. */
  function Count<T(==)>(s: seq<T>, x: T): (n: nat)
    ensures n == multiset(s)[x]
    ensures n <= |s|
  {
    if s == [] then 0
    else
      assert s == s[..|s| - 1] + [s[|s| - 1]];
      Count(s[..|s| - 1], x) + (if s[|s| - 1] == x then 1 else 0)
  }

  /** Sum of the elements. */
  function Sum(s: seq<int>): int {
    if s == [] then 0 else Sum(s[..|s| - 1]) + s[|s| - 1]
  }

  lemma SumAppend(s: seq<int>, x: int)
    ensures Sum(s + [x]) == Sum(s) + x
  {
    assert (s + [x])[..|s|] == s;
  }

  lemma {:induction false} SumConcat(s: seq<int>, t: seq<int>)
    ensures Sum(s + t) == Sum(s) + Sum(t)
  {
    if t == [] {
      assert s + t == s;
    } else {
      var t' := t[..|t| - 1];
      assert s + t == (s + t') + [t[|t| - 1]];
      assert t == t' + [t[|t| - 1]];
      SumConcat(s, t');
      SumAppend(s + t', t[|t| - 1]);
      SumAppend(t', t[|t| - 1]);
    }
  }

  /** Largest element of a non-empty sequence. */
  function MaxOf(s: seq<int>): (m: int)
    requires |s| > 0
    ensures m in s
    ensures forall i :: 0 <= i < |s| ==> s[i] <= m
  {
    if |s| == 1 then s[0]
    else
      var m' := MaxOf(s[..|s| - 1]);
      assert forall i :: 0 <= i < |s| - 1 ==> s[..|s| - 1][i] == s[i];
      Max(m', s[|s| - 1])
  }

  /** A member of `s` that no element exceeds is its maximum. */
  lemma MaxOfIs(s: seq<int>, m: int)
    requires m in s && forall i :: 0 <= i < |s| ==> s[i] <= m
    ensures MaxOf(s) == m
  {
    var k :| 0 <= k < |s| && s[k] == MaxOf(s);
  }

  /** Occurrences in `s` of the values listed in `keys`, added up. */
  function TotalCount<T(==)>(s: seq<T>, keys: seq<T>): int {
    if keys == [] then 0 else TotalCount(s, keys[..|keys| - 1]) + Count(s, keys[|keys| - 1])
  }

  /** One more element adds one to the total exactly when it is among the keys. */
  lemma {:induction false} TotalCountSnoc<T>(s: seq<T>, x: T, keys: seq<T>)
    requires Distinct(keys)
    ensures TotalCount(s + [x], keys) == TotalCount(s, keys) + (if x in keys then 1 else 0)
    decreases |keys|
  {
    if keys != [] {
      var init := keys[..|keys| - 1];
      assert keys == init + [keys[|keys| - 1]];
      assert Distinct(init);
      TotalCountSnoc(s, x, init);
      assert multiset(s + [x]) == multiset(s) + multiset{x};
    }
  }

  /** The occurrence counts of the distinct values of `s` add up to its length. */
  lemma {:induction false} CountsSumToLength<T(!new)>(s: seq<T>)
    ensures TotalCount(s, Dedup(s)) == |s|
    decreases |s|
  {
    if s != [] {
      var p, x := s[..|s| - 1], s[|s| - 1];
      assert s == p + [x];
      CountsSumToLength(p);
      DedupSnoc(p, x);
      TotalCountSnoc(p, x, Dedup(p));
      if x !in p {
        TotalCountNewKey(s, Dedup(p), x);
        CountNew(p, x);
      }
    }
  }

  /** Listing one more key adds its count. */
  lemma TotalCountNewKey<T>(s: seq<T>, keys: seq<T>, x: T)
    ensures TotalCount(s, keys + [x]) == TotalCount(s, keys) + Count(s, x)
  {
    assert (keys + [x])[..|keys|] == keys;
  }

  /** A value new to `p` occurs once in `p + [x]`. */
  lemma CountNew<T>(p: seq<T>, x: T)
    requires x !in p
    ensures Count(p + [x], x) == 1
  {
    assert multiset(p + [x]) == multiset(p) + multiset{x};
  }

  /** One more element adds an occurrence of `x` exactly when it is `x`. */
  lemma CountSnoc<T>(s: seq<T>, y: T, x: T)
    ensures Count(s + [y], x) == Count(s, x) + (if y == x then 1 else 0)
  {
    assert multiset(s + [y]) == multiset(s) + multiset{y};
  }

  /** Occurrences in a concatenation add up. */
  lemma CountConcat<T>(s: seq<T>, t: seq<T>, x: T)
    ensures Count(s + t, x) == Count(s, x) + Count(t, x)
  {
    assert multiset(s + t) == multiset(s) + multiset(t);
  }

  /** An element met for the first time at `i` occurs once more than in the rest after `i`. */
  lemma CountFirstAt<T>(s: seq<T>, i: nat)
    requires i < |s| && s[i] !in s[..i]
    ensures multiset(s)[s[i]] == 1 + multiset(s[i + 1..])[s[i]]
  {
    assert s == s[..i] + s[i..];
    assert s[i..] == [s[i]] + s[i + 1..];
    assert multiset(s) == multiset(s[..i]) + multiset{s[i]} + multiset(s[i + 1..]);
  }

  /** The values a table gives to the listed keys, added up. */
  function SumOver<T>(m: map<T, int>, keys: seq<T>): int
    requires forall k :: k in keys ==> k in m
  {
    if keys == [] then 0 else SumOver(m, keys[..|keys| - 1]) + m[keys[|keys| - 1]]
  }

  /** Over keys it counts correctly, a frequency table adds up like the counts. */
  lemma {:induction false} SumOverCounts<T>(s: seq<T>, m: map<T, int>, keys: seq<T>)
    requires forall k :: k in keys ==> k in m && m[k] == Count(s, k)
    ensures SumOver(m, keys) == TotalCount(s, keys)
    decreases |keys|
  {
    if keys != [] {
      SumOverCounts(s, m, keys[..|keys| - 1]);
    }
  }

  /**
   * A frequency table of `s` (one entry per value of `s`, holding its
   * count) sums to the length of `s` over the distinct values.
   */
  lemma FrequenciesSumToLength<T(!new)>(s: seq<T>, m: map<T, int>)
    requires forall x :: x in m <==> x in s
    requires forall x :: x in m ==> m[x] == Count(s, x)
    ensures SumOver(m, Dedup(s)) == |s|
  {
    SumOverCounts(s, m, Dedup(s));
    CountsSumToLength(s);
  }

  /** `n` copies of `x`. */
  function Repeat<T>(x: T, n: nat): (r: seq<T>)
    ensures |r| == n
    ensures forall i :: 0 <= i < n ==> r[i] == x
  {
    if n == 0 then [] else Repeat(x, n - 1) + [x]
  }

  /** The sequence read backwards. */
  function Reversed<T>(s: seq<T>): (r: seq<T>)
    ensures |r| == |s|
    ensures forall i :: 0 <= i < |s| ==> r[i] == s[|s| - 1 - i]
  {
    if s == [] then [] else Reversed(s[1..]) + [s[0]]
  }

  /** Reversal is an involution. */
  lemma ReversedTwice<T>(s: seq<T>)
    ensures Reversed(Reversed(s)) == s
  {
  }

  lemma ReversedConcat<T>(s: seq<T>, t: seq<T>)
    ensures Reversed(s + t) == Reversed(t) + Reversed(s)
  {
  }

  /**
   * Merge of the runs x[a..] and y[b..], taking from the left run on ties:
   * the order in which both `merge` loops of the library emit elements.
   */
  function MergeFrom(x: seq<int>, y: seq<int>, a: nat, b: nat): (r: seq<int>)
    requires a <= |x| && b <= |y|
    ensures |r| == |x| - a + |y| - b
    decreases |x| - a + |y| - b
  {
    if a == |x| then y[b..]
    else if b == |y| then x[a..]
    else if x[a] <= y[b] then [x[a]] + MergeFrom(x, y, a + 1, b)
    else [y[b]] + MergeFrom(x, y, a, b + 1)
  }

  /** Merge of two whole runs. */
  function Merge(x: seq<int>, y: seq<int>): (r: seq<int>)
    ensures |r| == |x| + |y|
    ensures multiset(r) == multiset(x) + multiset(y)
  {
    MergeFromMultiset(x, y, 0, 0);
    assert x[0..] == x && y[0..] == y;
    MergeFrom(x, y, 0, 0)
  }

  /** A merge holds exactly the elements of the two runs. */
  lemma {:induction false} MergeFromMultiset(x: seq<int>, y: seq<int>, a: nat, b: nat)
    requires a <= |x| && b <= |y|
    ensures multiset(MergeFrom(x, y, a, b)) == multiset(x[a..]) + multiset(y[b..])
    decreases |x| - a + |y| - b
  {
    if a == |x| {
      assert x[a..] == [];
    } else if b == |y| {
      assert y[b..] == [];
    } else if x[a] <= y[b] {
      MergeFromMultiset(x, y, a + 1, b);
      assert x[a..] == [x[a]] + x[a + 1..];
      calc {
        multiset(MergeFrom(x, y, a, b));
        multiset([x[a]]) + multiset(MergeFrom(x, y, a + 1, b));
        multiset([x[a]]) + (multiset(x[a + 1..]) + multiset(y[b..]));
        { UnionRegroup(multiset([x[a]]), multiset(x[a + 1..]), multiset(y[b..])); }
        (multiset([x[a]]) + multiset(x[a + 1..])) + multiset(y[b..]);
      }
    } else {
      MergeFromMultiset(x, y, a, b + 1);
      assert y[b..] == [y[b]] + y[b + 1..];
      calc {
        multiset(MergeFrom(x, y, a, b));
        multiset([y[b]]) + multiset(MergeFrom(x, y, a, b + 1));
        multiset([y[b]]) + (multiset(x[a..]) + multiset(y[b + 1..]));
        { UnionSwap(multiset([y[b]]), multiset(x[a..]), multiset(y[b + 1..])); }
        multiset(x[a..]) + (multiset([y[b]]) + multiset(y[b + 1..]));
      }
    }
  }

  lemma UnionRegroup(p: multiset<int>, q: multiset<int>, r: multiset<int>)
    ensures p + (q + r) == (p + q) + r
  {
  }

  lemma UnionSwap(p: multiset<int>, q: multiset<int>, r: multiset<int>)
    ensures p + (q + r) == q + (p + r)
  {
  }

  /** A value no larger than any element of a sorted run can head it. */
  lemma SortedCons(a: int, m: seq<int>)
    requires Sorted(m)
    requires forall k :: 0 <= k < |m| ==> a <= m[k]
    ensures Sorted([a] + m)
  {
    forall i, j | 0 <= i < j < |[a] + m| ensures ([a] + m)[i] <= ([a] + m)[j] {
      if i > 0 {
        assert ([a] + m)[i] == m[i - 1] && ([a] + m)[j] == m[j - 1];
      }
    }
  }

  /** A lower bound of both remaining runs bounds their merge. */
  lemma MergeFromBelow(v: int, x: seq<int>, y: seq<int>, a: nat, b: nat)
    requires a <= |x| && b <= |y|
    requires forall k :: a <= k < |x| ==> v <= x[k]
    requires forall k :: b <= k < |y| ==> v <= y[k]
    ensures forall k :: 0 <= k < |MergeFrom(x, y, a, b)| ==> v <= MergeFrom(x, y, a, b)[k]
  {
    var m := MergeFrom(x, y, a, b);
    MergeFromMultiset(x, y, a, b);
    forall k | 0 <= k < |m| ensures v <= m[k] {
      assert m[k] in multiset(m);
      if m[k] in multiset(x[a..]) {
        var i :| 0 <= i < |x[a..]| && x[a..][i] == m[k];
        assert x[a + i] == m[k];
      } else {
        var i :| 0 <= i < |y[b..]| && y[b..][i] == m[k];
        assert y[b + i] == m[k];
      }
    }
  }

  /** Merging two sorted runs gives a sorted run. */
  lemma {:induction false} MergeFromSorted(x: seq<int>, y: seq<int>, a: nat, b: nat)
    requires a <= |x| && b <= |y| && Sorted(x) && Sorted(y)
    ensures Sorted(MergeFrom(x, y, a, b))
    decreases |x| - a + |y| - b
  {
    if a == |x| || b == |y| {
    } else if x[a] <= y[b] {
      MergeFromSorted(x, y, a + 1, b);
      MergeFromBelow(x[a], x, y, a + 1, b);
      SortedCons(x[a], MergeFrom(x, y, a + 1, b));
    } else {
      MergeFromSorted(x, y, a, b + 1);
      MergeFromBelow(y[b], x, y, a, b + 1);
      SortedCons(y[b], MergeFrom(x, y, a, b + 1));
    }
  }

  lemma MergeSorted(x: seq<int>, y: seq<int>)
    requires Sorted(x) && Sorted(y)
    ensures Sorted(Merge(x, y))
  {
    MergeFromSorted(x, y, 0, 0);
  }

  /**
   * First-occurrence order de-duplication: the order in which a
   * `LinkedHashSet` fed with `s` from left to right holds its elements.
   */
  function Dedup<T(==,!new)>(s: seq<T>): (r: seq<T>)
    ensures Distinct(r)
    ensures forall x :: x in r <==> x in s
    ensures |r| <= |s|
  {
    if s == [] then []
    else
      var p := s[..|s| - 1];
      assert s == p + [s[|s| - 1]];
      var r := Dedup(p);
      if s[|s| - 1] in r then r else r + [s[|s| - 1]]
  }

  /** De-duplicating one more element appends it unless it was seen already. */
  lemma DedupSnoc<T(!new)>(s: seq<T>, x: T)
    ensures Dedup(s + [x]) == if x in s then Dedup(s) else Dedup(s) + [x]
  {
    assert (s + [x])[..|s|] == s;
    if x in Dedup(s) {
      var k :| 0 <= k < |Dedup(s)| && Dedup(s)[k] == x;
    }
  }

  /** Index of the first occurrence of `x` in `s`. */
  function FirstIndex<T(==)>(s: seq<T>, x: T): (i: nat)
    requires x in s
    ensures i < |s| && s[i] == x
    ensures forall j :: 0 <= j < i ==> s[j] != x
  {
    if s[0] == x then 0 else 1 + FirstIndex(s[1..], x)
  }

  lemma FirstIndexPrefix<T>(p: seq<T>, y: T, x: T)
    requires x in p
    ensures FirstIndex(p + [y], x) == FirstIndex(p, x)
  {
    var i := FirstIndex(p, x);
    var j := FirstIndex(p + [y], x);
    assert (p + [y])[i] == x;
    assert p[j] == x || j == |p|;
  }

  /**
   * The elements of `Dedup(s)` appear in the order of their first
   * occurrences in `s`.
   */
  lemma {:induction false} DedupKeepsFirstOccurrenceOrder<T(!new)>(s: seq<T>)
    ensures forall i, j :: 0 <= i < j < |Dedup(s)| ==>
              FirstIndex(s, Dedup(s)[i]) < FirstIndex(s, Dedup(s)[j])
  {
    if s != [] {
      var p := s[..|s| - 1];
      var x := s[|s| - 1];
      assert s == p + [x];
      DedupKeepsFirstOccurrenceOrder(p);
      var r := Dedup(p);
      forall y | y in r ensures FirstIndex(s, y) == FirstIndex(p, y) {
        FirstIndexPrefix(p, x, y);
      }
      if x !in r {
        assert FirstIndex(s, x) == |p| by {
          assert x !in p;
        }
      }
    }
  }
}
