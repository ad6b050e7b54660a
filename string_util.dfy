/**
 * String utilities: reversal, order-preserving de-duplication, character
 * frequencies, the anagram test, the longest common prefix, run-length
 * decompression, the first non-repeating character and the rotation test.
 * A Java `String` is a `seq<char>`; a `null` result is `None`. Digits are
 * the ASCII digits '0' to '9'.
 */
module StringUtil {
  import opened Wrappers
  import opened Seqs

  // ---------------------------------------------------------------------------
  // Reversal
  // ---------------------------------------------------------------------------

  /** `reverseString`: the characters in the opposite order. */
  function ReverseString(s: string): (r: string)
    ensures |r| == |s|
    ensures forall i :: 0 <= i < |s| ==> r[i] == s[|s| - 1 - i]
  {
    Reversed(s)
  }

  /** Reversing twice gives the string back. */
  lemma ReverseStringTwice(s: string)
    ensures ReverseString(ReverseString(s)) == s
  {
    ReversedTwice(s);
  }

  // ---------------------------------------------------------------------------
  // De-duplication
  // ---------------------------------------------------------------------------

  /**
   * `removeDuplicates`: the characters are added one by one to an insertion
   * ordered set (`seen` with its order `kept`), which is then joined; the
   * result is `Seqs.Dedup`, the first occurrence of each character in order.
   */
  method RemoveDuplicates(s: string) returns (r: string)
    ensures r == Dedup(s)
  {
    var seen: set<char> := {};
    r := [];
    for i := 0 to |s|
      invariant r == Dedup(s[..i])
      invariant forall c :: c in seen <==> c in s[..i]
    {
      TakeSnoc(s, i);
      DedupSnoc(s[..i], s[i]);
      if s[i] !in seen {
        seen := seen + {s[i]};
        r := r + [s[i]];
      }
    }
    assert s[..|s|] == s;
  }

  // ---------------------------------------------------------------------------
  // Character frequencies
  // ---------------------------------------------------------------------------

  /**
   * `charFrequency`: maps each character of `s` to its number of
   * occurrences; the counts add up to the length (`Seqs.FrequenciesSumToLength`).
   */
  method CharFrequency(s: string) returns (freq: map<char, int>)
    ensures forall c :: c in freq <==> c in s
    ensures forall c :: c in freq ==> freq[c] == Count(s, c)
  {
    freq := map[];
    for i := 0 to |s|
      invariant forall c :: c in freq <==> c in s[..i]
      invariant forall c :: c in freq ==> freq[c] == Count(s[..i], c)
    {
      var c := s[i];
      TakeSnoc(s, i);
      assert forall x :: multiset(s[..i + 1])[x] == multiset(s[..i])[x] + (if x == c then 1 else 0);
      freq := freq[c := (if c in freq then freq[c] else 0) + 1];
    }
    assert s[..|s|] == s;
  }

  // ---------------------------------------------------------------------------
  // Anagrams
  // ---------------------------------------------------------------------------

  /** Characters in non-decreasing order. */
  ghost predicate SortedChars(s: string) {
    forall i, j :: 0 <= i < j < |s| ==> s[i] <= s[j]
  }

  /** A character no greater than any of a sorted string goes in front of it. */
  lemma SortedCons(x: char, m: string)
    requires SortedChars(m)
    requires forall k :: 0 <= k < |m| ==> x <= m[k]
    ensures SortedChars([x] + m)
  {
  }

  /** `c` put into its place in the sorted `s`. */
  function Insert(c: char, s: string): (r: string)
    requires SortedChars(s)
    ensures SortedChars(r)
    ensures multiset(r) == multiset(s) + multiset{c}
  {
    if s == [] || c <= s[0] then
      SortedCons(c, s);
      [c] + s
    else
      var t := Insert(c, s[1..]);
      var m := s[1..] + [c];
      assert multiset(m) == multiset(s[1..]) + multiset{c};
      assert forall k :: 0 <= k < |m| ==> s[0] <= m[k];
      BoundByMultiset(s[0], m, t);
      assert s == [s[0]] + s[1..];
      SortedCons(s[0], t);
      [s[0]] + t
  }

  /** A lower bound of every character of `m` bounds every rearrangement of `m`. */
  lemma BoundByMultiset(x: char, m: string, t: string)
    requires multiset(t) == multiset(m)
    requires forall k :: 0 <= k < |m| ==> x <= m[k]
    ensures forall k :: 0 <= k < |t| ==> x <= t[k]
  {
    forall k | 0 <= k < |t|
      ensures x <= t[k]
    {
      assert t[k] in multiset(m);
      var q :| 0 <= q < |m| && m[q] == t[k];
    }
  }

  /** The characters of `s` in ascending order, as `Arrays.sort` leaves a `char[]`. */
  function SortChars(s: string): (r: string)
    ensures SortedChars(r)
    ensures multiset(r) == multiset(s)
  {
    if s == [] then []
    else
      assert s == [s[0]] + s[1..];
      Insert(s[0], SortChars(s[1..]))
  }

  /** The first character of a sorted string is its least. */
  lemma SortedFirst(a: string, x: char)
    requires SortedChars(a) && x in multiset(a)
    ensures a[0] <= x
  {
    var i :| 0 <= i < |a| && a[i] == x;
    assert a[0] <= a[i];
  }

  /** What follows the first character of a sorted string is sorted. */
  lemma SortedTail(a: string)
    requires SortedChars(a) && a != []
    ensures SortedChars(a[1..])
  {
  }

  /** The characters of a string are its first one and those of the rest. */
  lemma ConsMultiset(a: string)
    requires a != []
    ensures a == [a[0]] + a[1..]
    ensures multiset(a) == multiset{a[0]} + multiset(a[1..])
  {
    assert a == [a[0]] + a[1..];
  }

  /** One and the same character taken from two equal multisets leaves equal ones. */
  lemma Cancel(x: char, p: multiset<char>, q: multiset<char>)
    requires multiset{x} + p == multiset{x} + q
    ensures p == q
  {
    assert forall y :: p[y] == (multiset{x} + p)[y] - multiset{x}[y];
    assert forall y :: q[y] == (multiset{x} + q)[y] - multiset{x}[y];
  }

  /** Two sorted strings with the same characters are equal. */
  lemma {:induction false} SortedUnique(a: string, b: string)
    requires SortedChars(a) && SortedChars(b)
    requires multiset(a) == multiset(b)
    ensures a == b
    decreases |a|
  {
    assert |a| == |multiset(a)| == |b|;
    if a != [] {
      SortedFirst(a, b[0]);
      SortedFirst(b, a[0]);
      var x, a', b' := a[0], a[1..], b[1..];
      ConsMultiset(a);
      ConsMultiset(b);
      Cancel(x, multiset(a'), multiset(b'));
      SortedTail(a);
      SortedTail(b);
      SortedUnique(a', b');
    }
  }

  /**
   * `isAnagram`: both strings sorted, then compared; case-sensitive. It
   * holds exactly when the two strings have the same characters, each as
   * often.
   */
  function IsAnagram(s1: string, s2: string): (r: bool)
    ensures r <==> multiset(s1) == multiset(s2)
  {
    var a, b := SortChars(s1), SortChars(s2);
    // Both branches return the comparison of the sorted strings; the `if`
    // only carries the `SortedUnique` proof for the equal-multiset case.
    if multiset(s1) == multiset(s2) then
      SortedUnique(a, b);
      a == b
    else
      a == b
  }

  // ---------------------------------------------------------------------------
  // Longest common prefix
  // ---------------------------------------------------------------------------

  /** `p` is a prefix of `s`. */
  predicate PrefixOf(p: string, s: string) {
    |p| <= |s| && forall k :: 0 <= k < |p| ==> p[k] == s[k]
  }

  /** `p` is a prefix of every string of `strs`. */
  ghost predicate PrefixOfAll(p: string, strs: seq<string>) {
    forall j :: 0 <= j < |strs| ==> PrefixOf(p, strs[j])
  }

  /** `p` is a prefix of every string of `strs`, and no longer one is. */
  ghost predicate LongestPrefixOfAll(p: string, strs: seq<string>) {
    PrefixOfAll(p, strs) && forall q :: PrefixOfAll(q, strs) ==> |q| <= |p|
  }

  /**
   * `longestCommonPrefix`: compares the i-th character of every string with
   * that of the first, stopping at the first mismatch or end of a string.
   * An empty array gives "" (a `null` array is the same empty sequence here).
   */
  method LongestCommonPrefix(strs: seq<string>) returns (r: string)
    ensures |strs| == 0 ==> r == ""
    ensures |strs| > 0 ==> LongestPrefixOfAll(r, strs)
  {
    if |strs| == 0 {
      return "";
    }
    var first := strs[0];
    for i := 0 to |first|
      invariant PrefixOfAll(first[..i], strs)
    {
      var c := first[i];
      for j := 1 to |strs|
        invariant forall t :: 1 <= t < j ==> i < |strs[t]| && strs[t][i] == c
      {
        if i >= |strs[j]| || strs[j][i] != c {
          r := first[..i];
          PrefixBound(strs, i, j);
          return;
        }
      }
      assert PrefixOf(first[..i + 1], strs[0]);
    }
    r := first;
    assert first[..|first|] == first;
    forall q | PrefixOfAll(q, strs)
      ensures |q| <= |r|
    {
      assert PrefixOf(q, strs[0]);
    }
  }

  /**
   * When the j-th string stops agreeing with the first at position i, the
   * first i characters are the longest common prefix.
   */
  lemma PrefixBound(strs: seq<string>, i: nat, j: nat)
    requires 0 < j < |strs| && i < |strs[0]|
    requires PrefixOfAll(strs[0][..i], strs)
    requires i >= |strs[j]| || strs[j][i] != strs[0][i]
    ensures LongestPrefixOfAll(strs[0][..i], strs)
  {
    forall q | PrefixOfAll(q, strs)
      ensures |q| <= i
    {
      PrefixAt(q, strs[0], i);
      PrefixAt(q, strs[j], i);
    }
  }

  /** A prefix agrees with the string at each of its positions. */
  lemma PrefixAt(p: string, s: string, k: int)
    ensures PrefixOf(p, s) && 0 <= k < |p| ==> k < |s| && p[k] == s[k]
  {
  }

  // ---------------------------------------------------------------------------
  // Run-length decompression
  // ---------------------------------------------------------------------------

  /** An ASCII decimal digit. */
  predicate IsDigit(c: char) {
    '0' <= c <= '9'
  }

  /** The value of a digit string, read left to right as `num * 10 + d`. */
  function DigitsValue(d: string): nat {
    if d == [] then 0
    else DigitsValue(d[..|d| - 1]) * 10 + (if IsDigit(d[|d| - 1]) then (d[|d| - 1] - '0') as nat else 0)
  }

  /** Length of the run of digits at the start of `s`. */
  function DigitRun(s: string): (n: nat)
    ensures n <= |s|
    ensures forall k :: 0 <= k < n ==> IsDigit(s[k])
    ensures n < |s| ==> !IsDigit(s[n])
  {
    if s == [] || !IsDigit(s[0]) then 0 else 1 + DigitRun(s[1..])
  }

  /** `x` in front of the text of `rest`, if there is one. */
  function Prepend(x: string, rest: Option<string>): Option<string> {
    if rest.Some? then Some(x + rest.value) else None
  }

  /**
   * What `decompressString` builds from `s`: a run of digits followed by a
   * character gives that many copies of the character; a character with no
   * digits before it is dropped; digits at the very end have no character
   * to repeat, where the source fails on `charAt` (`None`).
   */
  function Decompressed(s: string): Option<string>
    decreases |s|
  {
    if s == [] then Some([])
    else if !IsDigit(s[0]) then Decompressed(s[1..])
    else
      var n := DigitRun(s);
      if n == |s| then None
      else Prepend(Repeat(s[n], DigitsValue(s[..n])), Decompressed(s[n + 1..]))
  }

  /**
   * `decompressString`: the outer loop walks `s`, the inner one reads a
   * digit run into `num`, then `num` copies of the next character are
   * appended.
   */
  method DecompressString(s: string) returns (r: Option<string>)
    ensures r == Decompressed(s)
  {
    var result: string := [];
    var i := 0;
    assert s[0..] == s;
    PrependNothing(Decompressed(s));
    while i < |s|
      invariant 0 <= i <= |s|
      invariant Decompressed(s) == Prepend(result, Decompressed(s[i..]))
    {
      if IsDigit(s[i]) {
        ghost var start := i;
        var num;
        num, i := ReadNumber(s, i);
        RunStep(s, start, i, result);
        if i == |s| {
          return None;
        }
        var c := s[i];
        i := i + 1;
        result := AppendCopies(result, c, num);
      } else {
        SkipStep(s, i, result);
        i := i + 1;
      }
    }
    assert s[|s|..] == [] && result + [] == result;
    return Some(result);
  }

  /** The inner loop of `decompressString`: reads the digit run at `start` into a number. */
  method ReadNumber(s: string, start: nat) returns (num: nat, i: nat)
    requires start <= |s|
    ensures start <= i <= |s| && num == DigitsValue(s[start..i])
    ensures forall k :: start <= k < i ==> IsDigit(s[k])
    ensures i < |s| ==> !IsDigit(s[i])
  {
    num, i := 0, start;
    while i < |s| && IsDigit(s[i])
      invariant start <= i <= |s|
      invariant forall k :: start <= k < i ==> IsDigit(s[k])
      invariant num == DigitsValue(s[start..i])
    {
      assert s[start..i + 1][..i - start] == s[start..i];
      num := num * 10 + (s[i] - '0') as nat;
      i := i + 1;
    }
  }

  /** The repeating loop of `decompressString`: `num` copies of `c` go after `result`. */
  method AppendCopies(result: string, c: char, num: nat) returns (r: string)
    ensures r == result + Repeat(c, num)
  {
    r := result;
    for j := 0 to num
      invariant r == result + Repeat(c, j)
    {
      r := r + [c];
    }
  }

  /** A digit run read from `start` to `i` either ends the text, which fails, or repeats s[i]. */
  lemma RunStep(s: string, start: nat, i: nat, result: string)
    requires start <= i <= |s| && start < |s| && IsDigit(s[start])
    requires forall k :: start <= k < i ==> IsDigit(s[k])
    requires i < |s| ==> !IsDigit(s[i])
    requires Decompressed(s) == Prepend(result, Decompressed(s[start..]))
    ensures i == |s| ==> Decompressed(s) == None
    ensures i < |s| ==> Decompressed(s)
                        == Prepend(result + Repeat(s[i], DigitsValue(s[start..i])), Decompressed(s[i + 1..]))
  {
    RunAt(s, start, i);
    if i < |s| {
      PrependTwice(result, Repeat(s[i], DigitsValue(s[start..i])), Decompressed(s[i + 1..]));
    }
  }

  /** A character with no digits before it is skipped. */
  lemma SkipStep(s: string, i: nat, result: string)
    requires i < |s| && !IsDigit(s[i])
    requires Decompressed(s) == Prepend(result, Decompressed(s[i..]))
    ensures Decompressed(s) == Prepend(result, Decompressed(s[i + 1..]))
  {
    assert s[i..][1..] == s[i + 1..];
  }

  /** Prepending nothing changes nothing. */
  lemma PrependNothing(rest: Option<string>)
    ensures Prepend([], rest) == rest
  {
    if rest.Some? {
      assert [] + rest.value == rest.value;
    }
  }

  /** Prepending two pieces one after the other prepends their concatenation. */
  lemma PrependTwice(x: string, y: string, rest: Option<string>)
    ensures Prepend(x, Prepend(y, rest)) == Prepend(x + y, rest)
  {
    if rest.Some? {
      AppendAssoc(x, y, rest.value);
    }
  }

  /** A run of n digits followed by a non-digit, or by the end, is measured as n. */
  lemma {:induction false} DigitRunIs(t: string, n: nat)
    requires n <= |t|
    requires forall k :: 0 <= k < n ==> IsDigit(t[k])
    requires n < |t| ==> !IsDigit(t[n])
    ensures DigitRun(t) == n
    decreases n
  {
    if n > 0 {
      DigitRunIs(t[1..], n - 1);
    }
  }

  /**
   * The digit run s[start..i], with `i` at the end of `s` or at a non-digit,
   * decompresses as `decompressString` reads it.
   */
  lemma RunAt(s: string, start: nat, i: nat)
    requires start <= i <= |s| && start < |s| && IsDigit(s[start])
    requires forall k :: start <= k < i ==> IsDigit(s[k])
    requires i < |s| ==> !IsDigit(s[i])
    ensures i == |s| ==> Decompressed(s[start..]) == None
    ensures i < |s| ==> Decompressed(s[start..])
                        == Prepend(Repeat(s[i], DigitsValue(s[start..i])), Decompressed(s[i + 1..]))
  {
    var t := s[start..];
    DigitRunIs(t, i - start);
    assert t[..i - start] == s[start..i];
    if i < |s| {
      assert t[i - start + 1..] == s[i + 1..];
    }
  }

  /** Decimal digits of n, most significant first, as a count is written. */
  function NumToString(n: nat): (r: string)
    ensures |r| > 0
    ensures forall k :: 0 <= k < |r| ==> IsDigit(r[k])
  {
    if n < 10 then ['0' + n as char] else NumToString(n / 10) + ['0' + (n % 10) as char]
  }

  /** Reading the digits of n back gives n. */
  lemma {:induction false} NumToStringValue(n: nat)
    ensures DigitsValue(NumToString(n)) == n
    decreases n
  {
    if n >= 10 {
      NumToStringValue(n / 10);
      var d := NumToString(n);
      assert d[..|d| - 1] == NumToString(n / 10);
    } else {
      var d := NumToString(n);
      assert d[..0] == [];
    }
  }

  /** A run: a count and the character it repeats. */
  datatype Run = Run(count: nat, ch: char)

  /** The compressed form of `runs`: each count in decimal, then its character. */
  function Encode(runs: seq<Run>): string {
    if runs == [] then [] else NumToString(runs[0].count) + [runs[0].ch] + Encode(runs[1..])
  }

  /** The text `runs` stands for: each character repeated its count. */
  function Expand(runs: seq<Run>): string {
    if runs == [] then [] else Repeat(runs[0].ch, runs[0].count) + Expand(runs[1..])
  }

  /**
   * Decompression inverts compression: when no run repeats a digit, the
   * compressed form decompresses to the text the runs stand for.
   */
  lemma {:induction false} DecompressEncode(runs: seq<Run>)
    requires forall k :: 0 <= k < |runs| ==> !IsDigit(runs[k].ch)
    ensures Decompressed(Encode(runs)) == Some(Expand(runs))
    decreases |runs|
  {
    if runs != [] {
      var d, c, rest := NumToString(runs[0].count), runs[0].ch, Encode(runs[1..]);
      var s := d + [c] + rest;
      SplitRun(d, c, rest);
      RunAt(s, 0, |d|);
      NumToStringValue(runs[0].count);
      DecompressEncode(runs[1..]);
    }
  }

  /** The pieces of a digit run, its character and what follows, as slices of their concatenation. */
  lemma SplitRun(d: string, c: char, rest: string)
    ensures (d + [c] + rest)[0..] == d + [c] + rest
    ensures (d + [c] + rest)[0..|d|] == d
    ensures (d + [c] + rest)[|d|] == c
    ensures (d + [c] + rest)[|d| + 1..] == rest
  {
  }

  // ---------------------------------------------------------------------------
  // First non-repeating character
  // ---------------------------------------------------------------------------

  /** s[i] occurs once in `s`, and no character before it does. */
  ghost predicate FirstUniqueAt(s: string, i: int) {
    0 <= i < |s| && Count(s, s[i]) == 1 && forall j :: 0 <= j < i ==> Count(s, s[j]) != 1
  }

  /**
   * `firstUniqueChar`: builds the frequency table, then returns the first
   * character whose count is 1, or `null` (`None`) when every character
   * repeats.
   */
  method FirstUniqueChar(s: string) returns (r: Option<char>)
    ensures r.None? <==> forall i :: 0 <= i < |s| ==> Count(s, s[i]) != 1
    ensures r.Some? ==> exists i :: FirstUniqueAt(s, i) && s[i] == r.value
  {
    var freq := CharFrequency(s);
    for i := 0 to |s|
      invariant forall j :: 0 <= j < i ==> Count(s, s[j]) != 1
    {
      if freq[s[i]] == 1 {
        assert FirstUniqueAt(s, i);
        return Some(s[i]);
      }
    }
    return None;
  }

  // ---------------------------------------------------------------------------
  // Rotation test
  // ---------------------------------------------------------------------------

  /** The `len` characters of `t` from position `k` on. */
  function Window(t: string, k: int, len: int): string
    requires 0 <= k && 0 <= len && k + len <= |t|
  {
    t[k..k + len]
  }

  /** `p` occurs in `t` as a contiguous piece, as `String.contains` checks. */
  predicate Contains(t: string, p: string) {
    exists k :: 0 <= k <= |t| - |p| && Window(t, k, |p|) == p
  }

  /** `s` with its first `k` characters moved to the end. */
  function Rotated(s: string, k: int): string
    requires 0 <= k <= |s|
  {
    s[k..] + s[..k]
  }

  /** `s2` is a rotation of `s1`. */
  ghost predicate RotationOf(s2: string, s1: string) {
    exists k :: 0 <= k <= |s1| && s2 == Rotated(s1, k)
  }

  /**
   * `isRotation`: false when the lengths differ, and otherwise whether `s2`
   * occurs in `s1 + s1`; that holds exactly when `s2` is a rotation of `s1`.
   */
  function IsRotation(s1: string, s2: string): (r: bool)
    ensures r <==> |s1| == |s2| && RotationOf(s2, s1)
  {
    if |s1| != |s2| then false
    else
      RotationIff(s1, s2);
      Contains(s1 + s1, s2)
  }

  /** For strings of equal length, occurring in s1 + s1 and being a rotation of s1 coincide. */
  lemma RotationIff(s1: string, s2: string)
    requires |s1| == |s2|
    ensures Contains(s1 + s1, s2) <==> RotationOf(s2, s1)
  {
    var t, n := s1 + s1, |s1|;
    if Contains(t, s2) {
      var k :| 0 <= k <= |t| - |s2| && Window(t, k, |s2|) == s2;
      RotationWindow(s1, k);
    }
    if RotationOf(s2, s1) {
      var k :| 0 <= k <= n && s2 == Rotated(s1, k);
      RotationWindow(s1, k);
    }
  }

  /** The window of length |s| at k in s + s is s rotated by k. */
  lemma RotationWindow(s: string, k: int)
    requires 0 <= k <= |s|
    ensures Window(s + s, k, |s|) == Rotated(s, k)
  {
    var t := s + s;
    assert t[k..k + |s|] == t[k..|s|] + t[|s|..|s| + k];
    assert t[k..|s|] == s[k..] && t[|s|..|s| + k] == s[..k];
  }
}
