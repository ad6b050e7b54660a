/**
 * Dynamic-programming routines over `int[]` and strings: Fibonacci
 * (memoised and tabulated), coin change, 0/1 knapsack, subset sum and the
 * number of subsets with a given sum, climbing stairs, edit distance,
 * longest common and longest increasing subsequence, and the house robber.
 * Each table the source fills is an array here, each loop a loop with the
 * invariant that the filled part agrees with a recursive definition, and
 * each recursive definition is tied by lemmas to the quantity the routine
 * is meant to compute (fewest coins, best selection, number of subsets, …).
 * Java `int` is modelled as unbounded `int`.
 */
module DynamicProgramming {
  import opened Seqs

  // ---------------------------------------------------------------------------
  // Fibonacci
  // ---------------------------------------------------------------------------

  /** F(n) with F(0) = 0 and F(1) = 1; like the source, any n <= 1 gives n. */
  function Fib(n: int): int
    decreases n
  {
    if n <= 1 then n else Fib(n - 1) + Fib(n - 2)
  }

  /** F is non-negative and non-decreasing from 0 on, and F(n) >= 1 from n = 1 on. */
  lemma {:induction false} FibGrows(n: int)
    requires n >= 0
    ensures 0 <= Fib(n) <= Fib(n + 1)
    ensures n >= 1 ==> Fib(n) >= 1
    decreases n
  {
    if n >= 2 {
      FibGrows(n - 1);
      FibGrows(n - 2);
    }
  }

  /** The `memo` map `fibonacci` fills as it goes; every entry holds the right value. */
  class FibMemo {
    var table: map<int, int>

    ghost predicate Valid()
      reads this
    {
      forall k :: k in table ==> table[k] == Fib(k)
    }

    constructor()
      ensures Valid() && table == map[]
    {
      table := map[];
    }
  }

  /**
   * `fibonacci(n, memo)`: F(n), looked up in `memo` when present, otherwise
   * computed from the two previous values and recorded.
   */
  method Fibonacci(n: int, memo: FibMemo) returns (r: int)
    requires memo.Valid()
    modifies memo
    ensures r == Fib(n)
    ensures memo.Valid() && old(memo.table).Keys <= memo.table.Keys
    ensures n >= 2 ==> n in memo.table
    decreases n
  {
    if n <= 1 {
      return n;
    }
    if n in memo.table {
      return memo.table[n];
    }
    var a := Fibonacci(n - 1, memo);
    var b := Fibonacci(n - 2, memo);
    r := a + b;
    memo.table := memo.table[n := r];
  }

  /** `fibonacciTab`: F(n) from a table dp[0..n] filled bottom-up. */
  method FibonacciTab(n: int) returns (r: int)
    ensures r == Fib(n)
  {
    if n <= 1 {
      return n;
    }
    var dp := new int[n + 1];
    dp[0] := 0;
    dp[1] := 1;
    for i := 2 to n + 1
      invariant forall k :: 0 <= k < i ==> dp[k] == Fib(k)
    {
      dp[i] := dp[i - 1] + dp[i - 2];
    }
    r := dp[n];
  }

  // ---------------------------------------------------------------------------
  // Climbing stairs
  // ---------------------------------------------------------------------------

  /** `c` is a way up `n` stairs: steps of 1 or 2, taken in order, that end exactly at `n`. */
  ghost predicate Climbs(c: seq<int>, n: int)
    decreases |c|
  {
    if c == [] then n == 0 else (c[0] == 1 || c[0] == 2) && Climbs(c[1..], n - c[0])
  }

  /**
   * The ways up `n` stairs numbered 0 .. F(n + 1) - 1: the first F(n) start
   * with a step of 1, the rest with a step of 2.
   */
  function Way(n: nat, k: nat): (c: seq<int>)
    requires k < Fib(n + 1)
    decreases n
  {
    if n == 0 then []
    else if n == 1 then [1]
    else if k < Fib(n) then [1] + Way(n - 1, k)
    else [2] + Way(n - 2, k - Fib(n))
  }

  /** Every numbered way is a way up `n` stairs. */
  lemma {:induction false} WaySound(n: nat, k: nat)
    requires k < Fib(n + 1)
    ensures Climbs(Way(n, k), n)
    decreases n
  {
    if n > 0 {
      var c := Way(n, k);
      if k < Fib(n) {
        WaySound(n - 1, k);
        assert c[1..] == Way(n - 1, k);
      } else {
        WaySound(n - 2, k - Fib(n));
        assert c[1..] == Way(n - 2, k - Fib(n));
      }
    }
  }

  /** A way up `n` stairs never overshoots: `n` is at least the number of steps. */
  lemma {:induction false} ClimbsHeight(c: seq<int>, n: int)
    requires Climbs(c, n)
    ensures n >= |c|
    decreases |c|
  {
    if c != [] {
      ClimbsHeight(c[1..], n - c[0]);
    }
  }

  /** Every way up `n` stairs has a number. */
  lemma {:induction false} WayComplete(n: nat, c: seq<int>) returns (k: nat)
    requires Climbs(c, n)
    ensures k < Fib(n + 1) && Way(n, k) == c
    decreases n
  {
    if c == [] {
      k := 0;
    } else {
      var x, rest := c[0], c[1..];
      ClimbsHeight(rest, n - x);
      var j := WayComplete(n - x, rest);
      FibGrows(n - 1);
      k := if x == 1 then j else Fib(n) + j;
      assert c == [x] + rest;
    }
  }

  /** Different numbers give different ways. */
  lemma {:induction false} WayDistinct(n: nat, k: nat, l: nat)
    requires k < l < Fib(n + 1)
    ensures Way(n, k) != Way(n, l)
    decreases n
  {
    var c, d := Way(n, k), Way(n, l);
    if l < Fib(n) {
      WayDistinct(n - 1, k, l);
      assert c[1..] == Way(n - 1, k) && d[1..] == Way(n - 1, l);
    } else if Fib(n) <= k {
      WayDistinct(n - 2, k - Fib(n), l - Fib(n));
      assert c[1..] == Way(n - 2, k - Fib(n)) && d[1..] == Way(n - 2, l - Fib(n));
    } else {
      assert c[0] == 1 && d[0] == 2;
    }
  }

  /**
   * `climbStairs`: 1 for any n <= 1, otherwise F(n + 1), filled bottom-up
   * like Fibonacci; by `Way` and its lemmas that is the number of distinct
   * ways up `n` stairs in steps of 1 or 2.
   */
  method ClimbStairs(n: int) returns (r: int)
    ensures n <= 1 ==> r == 1
    ensures n >= 0 ==> r == Fib(n + 1)
  {
    if n <= 1 {
      return 1;
    }
    var dp := new int[n + 1];
    dp[0] := 1;
    dp[1] := 1;
    for i := 2 to n + 1
      invariant forall k :: 0 <= k < i ==> dp[k] == Fib(k + 1)
    {
      dp[i] := dp[i - 1] + dp[i - 2];
    }
    r := dp[n];
  }

  // ---------------------------------------------------------------------------
  // Coin change
  // ---------------------------------------------------------------------------

  /** Amounts of at least 1 add up to at least their number. */
  lemma {:induction false} SumOfSteps(c: seq<int>)
    requires forall k :: 0 <= k < |c| ==> c[k] >= 1
    ensures Sum(c) >= |c|
    decreases |c|
  {
    if c != [] {
      SumOfSteps(c[..|c| - 1]);
    }
  }

  /** Every coin denomination is positive. */
  ghost predicate Positive(coins: seq<int>) {
    forall k :: 0 <= k < |coins| ==> coins[k] > 0
  }

  /** `picks`, each one of the denominations (any number of times), pay exactly `i`. */
  ghost predicate Pays(coins: seq<int>, picks: seq<int>, i: int) {
    (forall k :: 0 <= k < |picks| ==> picks[k] in coins) && Sum(picks) == i
  }

  /** dp[i]: 0 for i == 0, otherwise the best over all denominations, `cap` meaning "cannot be paid". */
  function Fewest(coins: seq<int>, i: nat, cap: int): int
    requires Positive(coins)
    decreases i, |coins| + 1
  {
    if i == 0 then 0 else FewestUsing(coins, i, cap, |coins|)
  }

  /** dp[i] after the inner loop has tried the first `c` denominations. */
  function FewestUsing(coins: seq<int>, i: nat, cap: int, c: nat): int
    requires Positive(coins) && c <= |coins|
    decreases i, c
  {
    if c == 0 then cap
    else if coins[c - 1] <= i then Min(FewestUsing(coins, i, cap, c - 1), Fewest(coins, i - coins[c - 1], cap) + 1)
    else FewestUsing(coins, i, cap, c - 1)
  }

  lemma {:induction false} FewestUsingBelow(coins: seq<int>, i: nat, cap: int, c: nat, d: nat)
    requires Positive(coins) && d < c <= |coins| && coins[d] <= i
    ensures FewestUsing(coins, i, cap, c) <= Fewest(coins, i - coins[d], cap) + 1
    decreases c
  {
    if d < c - 1 {
      FewestUsingBelow(coins, i, cap, c - 1, d);
    }
  }

  lemma {:induction false} FewestUsingAttained(coins: seq<int>, i: nat, cap: int, c: nat) returns (d: nat)
    requires Positive(coins) && c <= |coins| && FewestUsing(coins, i, cap, c) < cap
    ensures d < c && coins[d] <= i && FewestUsing(coins, i, cap, c) == Fewest(coins, i - coins[d], cap) + 1
    decreases c
  {
    if coins[c - 1] <= i && Fewest(coins, i - coins[c - 1], cap) + 1 <= FewestUsing(coins, i, cap, c - 1) {
      d := c - 1;
    } else {
      d := FewestUsingAttained(coins, i, cap, c - 1);
    }
  }

  /** A value below `cap` is the length of some way to pay `i`. */
  lemma {:induction false} FewestAttained(coins: seq<int>, i: nat, cap: int) returns (picks: seq<int>)
    requires Positive(coins) && Fewest(coins, i, cap) < cap
    ensures Pays(coins, picks, i) && |picks| == Fewest(coins, i, cap)
    decreases i
  {
    if i == 0 {
      picks := [];
    } else {
      var d := FewestUsingAttained(coins, i, cap, |coins|);
      var rest := FewestAttained(coins, i - coins[d], cap);
      PaysSnoc(coins, rest, i - coins[d], d);
      picks := rest + [coins[d]];
    }
  }

  /** Adding one more coin to a way of paying `i` pays `i` plus that coin. */
  lemma PaysSnoc(coins: seq<int>, picks: seq<int>, i: int, d: nat)
    requires Pays(coins, picks, i) && d < |coins|
    ensures Pays(coins, picks + [coins[d]], i + coins[d])
  {
    SumAppend(picks, coins[d]);
  }

  /** No way to pay `i` is shorter than dp[i]. */
  lemma {:induction false} FewestIsLeast(coins: seq<int>, i: nat, cap: int, picks: seq<int>)
    requires Positive(coins) && Pays(coins, picks, i)
    ensures Fewest(coins, i, cap) <= |picks|
    decreases |picks|
  {
    if picks == [] {
      assert i == 0;
    } else {
      var last := picks[|picks| - 1];
      var rest := picks[..|picks| - 1];
      var d :| 0 <= d < |coins| && coins[d] == last;
      assert Pays(coins, rest, i - last);
      assert i - last >= 0 by {
        SumOfSteps(rest);
      }
      FewestIsLeast(coins, i - last, cap, rest);
      if i == 0 {
        SumOfSteps(picks);
      } else {
        FewestUsingBelow(coins, i, cap, |coins|, d);
      }
    }
  }

  /** dp[i] never exceeds the initial fill value. */
  lemma FewestCapped(coins: seq<int>, i: nat, cap: int, c: nat)
    requires Positive(coins) && c <= |coins| && cap >= 0
    ensures FewestUsing(coins, i, cap, c) <= cap
  {
    if c > 0 {
      FewestCapped(coins, i, cap, c - 1);
    }
  }

  /**
   * `r` is what coin change promises: -1 when `amount` cannot be paid,
   * otherwise the length of a shortest way to pay it.
   */
  ghost predicate FewestCoins(coins: seq<int>, amount: int, r: int) {
    || (r == -1 && forall picks :: !Pays(coins, picks, amount))
    || (r >= 0 && (exists picks :: Pays(coins, picks, amount) && |picks| == r)
        && forall picks :: Pays(coins, picks, amount) ==> r <= |picks|)
  }

  /** The table's verdict for `amount`, with the source's cap `amount + 1`, is the promised answer. */
  lemma CoinChangeAnswer(coins: seq<int>, amount: nat)
    requires Positive(coins)
    ensures var f := Fewest(coins, amount, amount + 1);
      FewestCoins(coins, amount, if f > amount then -1 else f)
  {
    var f := Fewest(coins, amount, amount + 1);
    FewestCapped(coins, amount, amount + 1, |coins|);
    assert f <= amount + 1;
    forall picks | Pays(coins, picks, amount)
      ensures f <= |picks| <= amount
    {
      FewestIsLeast(coins, amount, amount + 1, picks);
      SumOfStepsPicks(coins, picks);
    }
    if f <= amount {
      var picks := FewestAttained(coins, amount, amount + 1);
    }
  }

  /** Paid coins are positive, so there are at most as many as the amount. */
  lemma SumOfStepsPicks(coins: seq<int>, picks: seq<int>)
    requires Positive(coins) && forall k :: 0 <= k < |picks| ==> picks[k] in coins
    ensures Sum(picks) >= |picks|
  {
    forall k | 0 <= k < |picks|
      ensures picks[k] >= 1
    {
      var d :| 0 <= d < |coins| && coins[d] == picks[k];
    }
    SumOfSteps(picks);
  }

  /**
   * `coinChange`: the fewest coins (each denomination usable any number of
   * times) paying `amount`, or -1 when it cannot be paid.
   */
  method CoinChange(coins: array<int>, amount: int) returns (r: int)
    requires amount >= 0 && Positive(coins[..])
    ensures FewestCoins(coins[..], amount, r)
  {
    var dp := new int[amount + 1](_ => amount + 1);
    dp[0] := 0;
    for i := 1 to amount + 1
      invariant forall k :: 0 <= k < i ==> dp[k] == Fewest(coins[..], k, amount + 1)
      invariant forall k :: i <= k <= amount ==> dp[k] == amount + 1
    {
      for c := 0 to coins.Length
        invariant forall k :: 0 <= k < i ==> dp[k] == Fewest(coins[..], k, amount + 1)
        invariant forall k :: i < k <= amount ==> dp[k] == amount + 1
        invariant dp[i] == FewestUsing(coins[..], i, amount + 1, c)
      {
        if coins[c] <= i {
          dp[i] := Min(dp[i], dp[i - coins[c]] + 1);
        }
      }
    }
    r := if dp[amount] > amount then -1 else dp[amount];
    CoinChangeAnswer(coins[..], amount);
  }

  // ---------------------------------------------------------------------------
  // Selections of items: knapsack, subset sum, number of subsets
  // ---------------------------------------------------------------------------

  /** No entry is negative. */
  ghost predicate NonNegative(a: seq<int>) {
    forall k :: 0 <= k < |a| ==> a[k] >= 0
  }

  /** Total of the entries of `a` whose place `sel` marks, over the first |sel| places. */
  function Picked(a: seq<int>, sel: seq<bool>): int
    requires |sel| <= |a|
  {
    if sel == [] then 0
    else Picked(a, sel[..|sel| - 1]) + (if sel[|sel| - 1] then a[|sel| - 1] else 0)
  }

  lemma {:induction false} PickedNonNegative(a: seq<int>, sel: seq<bool>)
    requires |sel| <= |a| && NonNegative(a)
    ensures Picked(a, sel) >= 0
    decreases |sel|
  {
    if sel != [] {
      PickedNonNegative(a, sel[..|sel| - 1]);
    }
  }

  /** Picked over a selection extended by one place. */
  lemma PickedSnoc(a: seq<int>, sel: seq<bool>, b: bool)
    requires |sel| < |a|
    ensures Picked(a, sel + [b]) == Picked(a, sel) + (if b then a[|sel|] else 0)
  {
    assert (sel + [b])[..|sel|] == sel;
  }

  /** dp[i][w] of `knapsack`: the best value from the first `i` items within capacity `w`. */
  function Best(weights: seq<int>, values: seq<int>, i: nat, w: int): int
    requires i <= |weights| <= |values|
    decreases i
  {
    if i == 0 then 0
    else if weights[i - 1] <= w then
      Max(values[i - 1] + Best(weights, values, i - 1, w - weights[i - 1]), Best(weights, values, i - 1, w))
    else Best(weights, values, i - 1, w)
  }

  /** No selection of the first `i` items that fits in `w` is worth more than Best. */
  lemma {:induction false} BestIsUpperBound(weights: seq<int>, values: seq<int>, i: nat, w: int, sel: seq<bool>)
    requires i <= |weights| <= |values| && NonNegative(weights)
    requires |sel| == i && Picked(weights, sel) <= w
    ensures Picked(values, sel) <= Best(weights, values, i, w)
    decreases i
  {
    if i > 0 {
      var rest := sel[..i - 1];
      PickedNonNegative(weights, rest);
      if sel[i - 1] {
        BestIsUpperBound(weights, values, i - 1, w - weights[i - 1], rest);
      } else {
        BestIsUpperBound(weights, values, i - 1, w, rest);
      }
    }
  }

  /** Some selection of the first `i` items that fits in `w` (when w >= 0) is worth exactly Best. */
  lemma {:induction false} BestIsAttained(weights: seq<int>, values: seq<int>, i: nat, w: int) returns (sel: seq<bool>)
    requires i <= |weights| <= |values| && w >= 0
    ensures |sel| == i && Picked(weights, sel) <= w && Picked(values, sel) == Best(weights, values, i, w)
    decreases i
  {
    if i == 0 {
      sel := [];
    } else if weights[i - 1] <= w && values[i - 1] + Best(weights, values, i - 1, w - weights[i - 1]) >= Best(weights, values, i - 1, w) {
      var rest := BestIsAttained(weights, values, i - 1, w - weights[i - 1]);
      sel := rest + [true];
      PickedSnoc(weights, rest, true);
      PickedSnoc(values, rest, true);
    } else {
      var rest := BestIsAttained(weights, values, i - 1, w);
      sel := rest + [false];
      PickedSnoc(weights, rest, false);
      PickedSnoc(values, rest, false);
    }
  }

  /** `r` is the largest total value of a selection of all the items whose total weight fits in `capacity`. */
  ghost predicate BestPacking(weights: seq<int>, values: seq<int>, capacity: int, r: int)
    requires |weights| <= |values|
  {
    && (exists sel :: |sel| == |weights| && Picked(weights, sel) <= capacity && Picked(values, sel) == r)
    && (forall sel :: |sel| == |weights| && Picked(weights, sel) <= capacity ==> Picked(values, sel) <= r)
  }

  lemma KnapsackAnswer(weights: seq<int>, values: seq<int>, capacity: int)
    requires |weights| <= |values| && NonNegative(weights) && capacity >= 0
    ensures BestPacking(weights, values, capacity, Best(weights, values, |weights|, capacity))
  {
    var sel := BestIsAttained(weights, values, |weights|, capacity);
    forall sel | |sel| == |weights| && Picked(weights, sel) <= capacity
      ensures Picked(values, sel) <= Best(weights, values, |weights|, capacity)
    {
      BestIsUpperBound(weights, values, |weights|, capacity, sel);
    }
  }

  /**
   * `knapsack` (0/1): the best total value of items, each used at most
   * once, whose total weight is within `capacity`, from a table
   * dp[0..n][0..capacity] filled row by row.
   */
  method Knapsack(capacity: int, weights: array<int>, values: array<int>) returns (r: int)
    requires capacity >= 0 && weights.Length <= values.Length && NonNegative(weights[..])
    ensures BestPacking(weights[..], values[..], capacity, r)
  {
    var n := weights.Length;
    var dp := new int[n + 1, capacity + 1]((_, _) => 0);
    for i := 1 to n + 1
      invariant forall p, q :: 0 <= p < i && 0 <= q <= capacity ==> dp[p, q] == Best(weights[..], values[..], p, q)
    {
      KnapsackRow(weights, values, capacity, dp, i);
    }
    r := dp[n, capacity];
    KnapsackAnswer(weights[..], values[..], capacity);
  }

  /** Row `p` of the table holds Best for every capacity. */
  ghost predicate RowFilled(weights: seq<int>, values: seq<int>, dp: array2<int>, p: int)
    requires |weights| <= |values|
    reads dp
  {
    0 <= p < dp.Length0 && p <= |weights| &&
    forall q :: 0 <= q < dp.Length1 ==> dp[p, q] == Best(weights, values, p, q)
  }

  /** The inner loop of `knapsack`: fills row `i` from row i - 1. */
  method KnapsackRow(weights: array<int>, values: array<int>, capacity: int, dp: array2<int>, i: int)
    requires 1 <= i <= weights.Length <= values.Length && NonNegative(weights[..])
    requires dp.Length0 == weights.Length + 1 && dp.Length1 == capacity + 1
    requires RowFilled(weights[..], values[..], dp, i - 1)
    modifies dp
    ensures RowFilled(weights[..], values[..], dp, i)
    ensures forall p, q :: 0 <= p < dp.Length0 && 0 <= q < dp.Length1 && p != i ==> dp[p, q] == old(dp[p, q])
  {
    for w := 0 to capacity + 1
      invariant forall q :: 0 <= q < w ==> dp[i, q] == Best(weights[..], values[..], i, q)
      invariant forall p, q :: 0 <= p < dp.Length0 && 0 <= q < dp.Length1 && p != i ==> dp[p, q] == old(dp[p, q])
    {
      if weights[i - 1] <= w {
        dp[i, w] := Max(values[i - 1] + dp[i - 1, w - weights[i - 1]], dp[i - 1, w]);
      } else {
        dp[i, w] := dp[i - 1, w];
      }
    }
  }

  /** dp[i] of `subsetSum` after the first `t` numbers: some of them add up to `i`. */
  function CanMake(a: seq<int>, t: nat, i: int): bool
    requires t <= |a|
    decreases t
  {
    if t == 0 then i == 0
    else CanMake(a, t - 1, i) || (a[t - 1] <= i && CanMake(a, t - 1, i - a[t - 1]))
  }

  /** CanMake holds exactly when some selection of the first `t` numbers adds up to `i`. */
  lemma CanMakeSelection(a: seq<int>, t: nat, i: int)
    requires t <= |a| && NonNegative(a)
    ensures CanMake(a, t, i) <==> exists sel :: |sel| == t && Picked(a, sel) == i
  {
    if CanMake(a, t, i) {
      var sel := CanMakeWitness(a, t, i);
    }
    forall sel | |sel| == t && Picked(a, sel) == i
      ensures CanMake(a, t, i)
    {
      SelectionCanMake(a, sel);
    }
  }

  /** When CanMake holds, a selection of the first `t` numbers adding up to `i` exists. */
  lemma {:induction false} CanMakeWitness(a: seq<int>, t: nat, i: int) returns (sel: seq<bool>)
    requires t <= |a| && CanMake(a, t, i)
    ensures |sel| == t && Picked(a, sel) == i
    decreases t
  {
    if t == 0 {
      sel := [];
    } else if CanMake(a, t - 1, i) {
      var rest := CanMakeWitness(a, t - 1, i);
      PickedSnoc(a, rest, false);
      sel := rest + [false];
    } else {
      var rest := CanMakeWitness(a, t - 1, i - a[t - 1]);
      PickedSnoc(a, rest, true);
      sel := rest + [true];
    }
  }

  /** Any selection of the first |sel| numbers makes its own total. */
  lemma {:induction false} SelectionCanMake(a: seq<int>, sel: seq<bool>)
    requires |sel| <= |a| && NonNegative(a)
    ensures CanMake(a, |sel|, Picked(a, sel))
    decreases |sel|
  {
    if sel != [] {
      var rest := sel[..|sel| - 1];
      SelectionCanMake(a, rest);
      PickedNonNegative(a, rest);
    }
  }

  /**
   * `subsetSum`: whether some of the numbers (each at most once) add up to
   * `sum`; the inner loop runs downwards so that a number is not reused
   * within its own pass.
   */
  method SubsetSum(arr: array<int>, sum: int) returns (r: bool)
    requires sum >= 0 && NonNegative(arr[..])
    ensures r <==> exists sel :: |sel| == arr.Length && Picked(arr[..], sel) == sum
  {
    var dp := new bool[sum + 1](j => j == 0);
    for t := 0 to arr.Length
      invariant forall j :: 0 <= j <= sum ==> dp[j] == CanMake(arr[..], t, j)
    {
      var num := arr[t];
      var i := sum;
      while i >= num
        invariant i <= sum && (num - 1 <= i || i == sum)
        invariant forall j :: i < j <= sum ==> dp[j] == CanMake(arr[..], t + 1, j)
        invariant forall j :: 0 <= j <= i ==> dp[j] == CanMake(arr[..], t, j)
      {
        dp[i] := dp[i] || dp[i - num];
        i := i - 1;
      }
    }
    r := dp[sum];
    CanMakeSelection(arr[..], arr.Length, sum);
  }

  /** dp[i] of `countSubsetSum` after the first `t` numbers: how many selections of them add up to `i`. */
  function Ways(a: seq<int>, t: nat, i: int): nat
    requires t <= |a|
    decreases t
  {
    if t == 0 then (if i == 0 then 1 else 0)
    else Ways(a, t - 1, i) + (if a[t - 1] <= i then Ways(a, t - 1, i - a[t - 1]) else 0)
  }

  /**
   * The selections of the first `t` numbers adding up to `i`, numbered
   * 0 .. Ways - 1: first those leaving number t - 1 out, then those taking it.
   */
  function NthSelection(a: seq<int>, t: nat, i: int, k: nat): (sel: seq<bool>)
    requires t <= |a| && k < Ways(a, t, i)
    ensures |sel| == t
    decreases t
  {
    if t == 0 then []
    else if k < Ways(a, t - 1, i) then NthSelection(a, t - 1, i, k) + [false]
    else NthSelection(a, t - 1, i - a[t - 1], k - Ways(a, t - 1, i)) + [true]
  }

  lemma {:induction false} NthSelectionSound(a: seq<int>, t: nat, i: int, k: nat)
    requires t <= |a| && k < Ways(a, t, i)
    ensures Picked(a, NthSelection(a, t, i, k)) == i
    decreases t
  {
    if t > 0 {
      var w := Ways(a, t - 1, i);
      if k < w {
        var s := NthSelection(a, t - 1, i, k);
        assert NthSelection(a, t, i, k) == s + [false];
        NthSelectionSound(a, t - 1, i, k);
        PickedSnoc(a, s, false);
      } else {
        var s := NthSelection(a, t - 1, i - a[t - 1], k - w);
        assert NthSelection(a, t, i, k) == s + [true];
        NthSelectionSound(a, t - 1, i - a[t - 1], k - w);
        PickedSnoc(a, s, true);
      }
    }
  }

  lemma {:induction false} NthSelectionComplete(a: seq<int>, t: nat, i: int, sel: seq<bool>) returns (k: nat)
    requires t <= |a| && NonNegative(a) && |sel| == t && Picked(a, sel) == i
    ensures k < Ways(a, t, i) && NthSelection(a, t, i, k) == sel
    decreases t
  {
    if t == 0 {
      k := 0;
    } else {
      var rest := sel[..t - 1];
      assert sel == rest + [sel[t - 1]];
      if sel[t - 1] {
        PickedNonNegative(a, rest);
        var j := NthSelectionComplete(a, t - 1, i - a[t - 1], rest);
        k := Ways(a, t - 1, i) + j;
      } else {
        k := NthSelectionComplete(a, t - 1, i, rest);
      }
    }
  }

  lemma {:induction false} NthSelectionDistinct(a: seq<int>, t: nat, i: int, k: nat, l: nat)
    requires t <= |a| && k < l < Ways(a, t, i)
    ensures NthSelection(a, t, i, k) != NthSelection(a, t, i, l)
    decreases t
  {
    var x, y := NthSelection(a, t, i, k), NthSelection(a, t, i, l);
    var m := Ways(a, t - 1, i);
    if l < m {
      NthSelectionDistinct(a, t - 1, i, k, l);
      assert x[..t - 1] == NthSelection(a, t - 1, i, k) && y[..t - 1] == NthSelection(a, t - 1, i, l);
    } else if m <= k {
      NthSelectionDistinct(a, t - 1, i - a[t - 1], k - m, l - m);
      assert x[..t - 1] == NthSelection(a, t - 1, i - a[t - 1], k - m);
      assert y[..t - 1] == NthSelection(a, t - 1, i - a[t - 1], l - m);
    } else {
      assert x[t - 1] != y[t - 1];
    }
  }

  /**
   * `countSubsetSum`: the number of selections of the numbers (sets of
   * places, so equal numbers at different places count separately) adding
   * up to `sum`; by `NthSelection` and its lemmas these are numbered
   * exactly 0 .. r - 1.
   */
  method CountSubsetSum(arr: array<int>, sum: int) returns (r: int)
    requires sum >= 0 && NonNegative(arr[..])
    ensures r == Ways(arr[..], arr.Length, sum)
  {
    var dp := new int[sum + 1](j => if j == 0 then 1 else 0);
    for t := 0 to arr.Length
      invariant forall j :: 0 <= j <= sum ==> dp[j] == Ways(arr[..], t, j)
    {
      var num := arr[t];
      var i := sum;
      while i >= num
        invariant i <= sum && (num - 1 <= i || i == sum)
        invariant forall j :: i < j <= sum ==> dp[j] == Ways(arr[..], t + 1, j)
        invariant forall j :: 0 <= j <= i ==> dp[j] == Ways(arr[..], t, j)
      {
        dp[i] := dp[i] + dp[i - num];
        i := i - 1;
      }
    }
    r := dp[sum];
  }

  // ---------------------------------------------------------------------------
  // Edit distance
  // ---------------------------------------------------------------------------

  /**
   * The Levenshtein distance between a[..i] and b[..j] by its recurrence:
   * i or j when the other prefix is empty, the distance without both last
   * characters when they agree, and otherwise one more than the cheapest of
   * deleting, inserting or substituting a character.
   */
  function Lev(a: string, b: string, i: nat, j: nat): nat
    requires i <= |a| && j <= |b|
    decreases i + j
  {
    if i == 0 then j
    else if j == 0 then i
    else if a[i - 1] == b[j - 1] then Lev(a, b, i - 1, j - 1)
    else 1 + Min(Lev(a, b, i - 1, j), Min(Lev(a, b, i, j - 1), Lev(a, b, i - 1, j - 1)))
  }

  /** A string is at distance 0 from itself. */
  lemma {:induction false} LevSelf(a: string, i: nat)
    requires i <= |a|
    ensures Lev(a, a, i, i) == 0
    decreases i
  {
    if i > 0 {
      LevSelf(a, i - 1);
    }
  }

  /** The distance is symmetric. */
  lemma {:induction false} LevSymmetric(a: string, b: string, i: nat, j: nat)
    requires i <= |a| && j <= |b|
    ensures Lev(a, b, i, j) == Lev(b, a, j, i)
    decreases i + j
  {
    if i > 0 && j > 0 {
      LevSymmetric(a, b, i - 1, j - 1);
      if a[i - 1] != b[j - 1] {
        LevSymmetric(a, b, i - 1, j);
        LevSymmetric(a, b, i, j - 1);
      }
    }
  }

  /** The distance is at least the difference of the lengths and at most the longer length. */
  lemma {:induction false} LevBounds(a: string, b: string, i: nat, j: nat)
    requires i <= |a| && j <= |b|
    ensures i - j <= Lev(a, b, i, j) && j - i <= Lev(a, b, i, j)
    ensures Lev(a, b, i, j) <= Max(i, j)
    decreases i + j
  {
    if i > 0 && j > 0 {
      LevBounds(a, b, i - 1, j - 1);
      if a[i - 1] != b[j - 1] {
        LevBounds(a, b, i - 1, j);
        LevBounds(a, b, i, j - 1);
      }
    }
  }

  /** Row `p` of the edit-distance table is filled. */
  ghost predicate LevRow(a: string, b: string, dp: array2<int>, p: int)
    reads dp
  {
    0 <= p <= |a| && p < dp.Length0 && dp.Length1 == |b| + 1 &&
    forall q :: 0 <= q <= |b| ==> dp[p, q] == Lev(a, b, p, q)
  }

  /**
   * `editDistance`: the Levenshtein distance between the two strings, from
   * a table whose first column and first row hold i and j and whose other
   * cells follow the recurrence.
   */
  method EditDistance(word1: string, word2: string) returns (r: int)
    ensures r == Lev(word1, word2, |word1|, |word2|)
  {
    var m, n := |word1|, |word2|;
    var dp := new int[m + 1, n + 1];
    for i := 0 to m + 1
      invariant forall p :: 0 <= p < i ==> dp[p, 0] == p
    {
      dp[i, 0] := i;
    }
    for j := 0 to n + 1
      invariant forall q :: 0 <= q < j ==> dp[0, q] == q
      invariant forall p :: 0 <= p <= m ==> dp[p, 0] == p
    {
      dp[0, j] := j;
    }
    for i := 1 to m + 1
      invariant forall p, q :: 0 <= p < i && 0 <= q <= n ==> dp[p, q] == Lev(word1, word2, p, q)
      invariant forall p :: i <= p <= m ==> dp[p, 0] == p
    {
      EditDistanceRow(word1, word2, dp, i);
    }
    r := dp[m, n];
  }

  /** The inner loop of `editDistance`: fills row `i` from row i - 1. */
  method EditDistanceRow(a: string, b: string, dp: array2<int>, i: int)
    requires 1 <= i <= |a| && dp.Length0 == |a| + 1 && dp.Length1 == |b| + 1
    requires LevRow(a, b, dp, i - 1) && dp[i, 0] == i
    modifies dp
    ensures LevRow(a, b, dp, i)
    ensures forall p, q :: 0 <= p < dp.Length0 && 0 <= q < dp.Length1 && p != i ==> dp[p, q] == old(dp[p, q])
  {
    for j := 1 to |b| + 1
      invariant forall q {:trigger dp[i, q]} :: 0 <= q < j ==> dp[i, q] == Lev(a, b, i, q)
      invariant forall p, q :: 0 <= p < dp.Length0 && 0 <= q < dp.Length1 && p != i ==> dp[p, q] == old(dp[p, q])
    {
      if a[i - 1] == b[j - 1] {
        dp[i, j] := dp[i - 1, j - 1];
      } else {
        dp[i, j] := 1 + Min(dp[i - 1, j], Min(dp[i, j - 1], dp[i - 1, j - 1]));
      }
    }
  }

  // ---------------------------------------------------------------------------
  // Longest common subsequence
  // ---------------------------------------------------------------------------

  /** dp[i][j] of the LCS table: the longest common subsequence length of a[..i] and b[..j]. */
  function Lcs(a: string, b: string, i: nat, j: nat): nat
    requires i <= |a| && j <= |b|
    decreases i + j
  {
    if i == 0 || j == 0 then 0
    else if a[i - 1] == b[j - 1] then Lcs(a, b, i - 1, j - 1) + 1
    else Max(Lcs(a, b, i - 1, j), Lcs(a, b, i, j - 1))
  }

  /**
   * `x` is a subsequence of `a`: matching from the back, each character of
   * `x` finds an equal character of `a` further left than the previous one.
   */
  ghost predicate Subseq(x: string, a: string)
    decreases |a|
  {
    if x == [] then true
    else if a == [] then false
    else if x[|x| - 1] == a[|a| - 1] then Subseq(x[..|x| - 1], a[..|a| - 1])
    else Subseq(x, a[..|a| - 1])
  }

  /** A subsequence of `a` is a subsequence of `a` with one more character at the end. */
  lemma {:induction false} SubseqExtend(x: string, a: string, c: char)
    requires Subseq(x, a)
    ensures Subseq(x, a + [c])
    decreases |a|, 1
  {
    var a' := a + [c];
    assert a'[..|a'| - 1] == a;
    if x != [] && x[|x| - 1] == c {
      SubseqDropLast(x, a);
    }
  }

  /** Dropping the last character of a subsequence leaves a subsequence. */
  lemma {:induction false} SubseqDropLast(x: string, a: string)
    requires x != [] && Subseq(x, a)
    ensures Subseq(x[..|x| - 1], a)
    decreases |a|, 0
  {
    var p := a[..|a| - 1];
    assert a == p + [a[|a| - 1]];
    if x[|x| - 1] == a[|a| - 1] {
      SubseqExtend(x[..|x| - 1], p, a[|a| - 1]);
    } else {
      SubseqDropLast(x, p);
      SubseqExtend(x[..|x| - 1], p, a[|a| - 1]);
    }
  }

  /** A common subsequence of a[..i] and b[..j] as long as Lcs. */
  ghost function LcsWitness(a: string, b: string, i: nat, j: nat): (x: string)
    requires i <= |a| && j <= |b|
    ensures |x| == Lcs(a, b, i, j)
    decreases i + j
  {
    if i == 0 || j == 0 then []
    else if a[i - 1] == b[j - 1] then LcsWitness(a, b, i - 1, j - 1) + [a[i - 1]]
    else if Lcs(a, b, i - 1, j) >= Lcs(a, b, i, j - 1) then LcsWitness(a, b, i - 1, j)
    else LcsWitness(a, b, i, j - 1)
  }

  lemma {:induction false} LcsWitnessCommon(a: string, b: string, i: nat, j: nat)
    requires i <= |a| && j <= |b|
    ensures Subseq(LcsWitness(a, b, i, j), a[..i]) && Subseq(LcsWitness(a, b, i, j), b[..j])
    decreases i + j
  {
    var x := LcsWitness(a, b, i, j);
    if i > 0 && j > 0 {
      assert a[..i] == a[..i - 1] + [a[i - 1]] && b[..j] == b[..j - 1] + [b[j - 1]];
      if a[i - 1] == b[j - 1] {
        LcsWitnessCommon(a, b, i - 1, j - 1);
        assert x[..|x| - 1] == LcsWitness(a, b, i - 1, j - 1);
      } else if Lcs(a, b, i - 1, j) >= Lcs(a, b, i, j - 1) {
        LcsWitnessCommon(a, b, i - 1, j);
        SubseqExtend(x, a[..i - 1], a[i - 1]);
      } else {
        LcsWitnessCommon(a, b, i, j - 1);
        SubseqExtend(x, b[..j - 1], b[j - 1]);
      }
    }
  }

  /** No common subsequence of a[..i] and b[..j] is longer than Lcs. */
  lemma {:induction false} LcsIsLongest(a: string, b: string, i: nat, j: nat, x: string)
    requires i <= |a| && j <= |b| && Subseq(x, a[..i]) && Subseq(x, b[..j])
    ensures |x| <= Lcs(a, b, i, j)
    decreases i + j
  {
    if x != [] {
      assert i > 0 && j > 0;
      var c, x' := x[|x| - 1], x[..|x| - 1];
      assert a[..i][..i - 1] == a[..i - 1] && b[..j][..j - 1] == b[..j - 1];
      if c == a[i - 1] && c == b[j - 1] {
        LcsIsLongest(a, b, i - 1, j - 1, x');
      } else if c != a[i - 1] {
        if a[i - 1] == b[j - 1] {
          LcsIsLongest(a, b, i - 1, j - 1, x);
        } else {
          LcsIsLongest(a, b, i - 1, j, x);
        }
      } else {
        LcsIsLongest(a, b, i, j - 1, x);
      }
    }
  }

  /** The LCS length is at most the shorter prefix, and a string's LCS with itself is its length. */
  lemma {:induction false} LcsBounds(a: string, b: string, i: nat, j: nat)
    requires i <= |a| && j <= |b|
    ensures Lcs(a, b, i, j) <= Min(i, j)
    decreases i + j
  {
    if i > 0 && j > 0 {
      LcsBounds(a, b, i - 1, j - 1);
      LcsBounds(a, b, i - 1, j);
      LcsBounds(a, b, i, j - 1);
    }
  }

  lemma {:induction false} LcsSelf(a: string, i: nat)
    requires i <= |a|
    ensures Lcs(a, a, i, i) == i
    decreases i
  {
    if i > 0 {
      LcsSelf(a, i - 1);
    }
  }

  /** `r` is the length of a longest common subsequence of `a` and `b`. */
  ghost predicate LongestCommon(a: string, b: string, r: int) {
    && (exists x :: Subseq(x, a) && Subseq(x, b) && |x| == r)
    && (forall x :: Subseq(x, a) && Subseq(x, b) ==> |x| <= r)
  }

  lemma LcsAnswer(a: string, b: string)
    ensures LongestCommon(a, b, Lcs(a, b, |a|, |b|))
  {
    var w := LcsWitness(a, b, |a|, |b|);
    LcsWitnessCommon(a, b, |a|, |b|);
    assert a[..|a|] == a && b[..|b|] == b;
    assert Subseq(w, a) && Subseq(w, b);
    forall x | Subseq(x, a) && Subseq(x, b)
      ensures |x| <= Lcs(a, b, |a|, |b|)
    {
      LcsIsLongest(a, b, |a|, |b|, x);
    }
  }

  /** Row `p` of the LCS table is filled. */
  ghost predicate LcsRow(a: string, b: string, dp: array2<int>, p: int)
    reads dp
  {
    0 <= p <= |a| && p < dp.Length0 && dp.Length1 == |b| + 1 &&
    forall q :: 0 <= q <= |b| ==> dp[p, q] == Lcs(a, b, p, q)
  }

  /** `longestCommonSubsequence`: the length of a longest common subsequence. */
  method LongestCommonSubsequence(text1: string, text2: string) returns (r: int)
    ensures LongestCommon(text1, text2, r)
  {
    var m, n := |text1|, |text2|;
    var dp := new int[m + 1, n + 1]((_, _) => 0);
    for i := 1 to m + 1
      invariant forall p, q :: 0 <= p < i && 0 <= q <= n ==> dp[p, q] == Lcs(text1, text2, p, q)
      invariant forall p :: i <= p <= m ==> dp[p, 0] == 0
    {
      LcsTableRow(text1, text2, dp, i);
    }
    r := dp[m, n];
    LcsAnswer(text1, text2);
  }

  /** The inner loop of `longestCommonSubsequence`: fills row `i` from row i - 1. */
  method LcsTableRow(a: string, b: string, dp: array2<int>, i: int)
    requires 1 <= i <= |a| && dp.Length0 == |a| + 1 && dp.Length1 == |b| + 1
    requires LcsRow(a, b, dp, i - 1) && dp[i, 0] == 0
    modifies dp
    ensures LcsRow(a, b, dp, i)
    ensures forall p, q :: 0 <= p < dp.Length0 && 0 <= q < dp.Length1 && p != i ==> dp[p, q] == old(dp[p, q])
  {
    for j := 1 to |b| + 1
      invariant forall q :: 0 <= q < j ==> dp[i, q] == Lcs(a, b, i, q)
      invariant forall p, q :: 0 <= p < dp.Length0 && 0 <= q < dp.Length1 && p != i ==> dp[p, q] == old(dp[p, q])
    {
      if a[i - 1] == b[j - 1] {
        dp[i, j] := dp[i - 1, j - 1] + 1;
      } else {
        dp[i, j] := Max(dp[i - 1, j], dp[i, j - 1]);
      }
    }
  }

  // ---------------------------------------------------------------------------
  // Longest increasing subsequence
  // ---------------------------------------------------------------------------

  /**
   * `idx` picks a strictly increasing subsequence of `a`: its positions are
   * in range and strictly increasing, and so are the values at them.
   */
  ghost predicate IncreasingPick(a: seq<int>, idx: seq<int>) {
    && (forall k :: 0 <= k < |idx| ==> 0 <= idx[k] < |a|)
    && (forall j, k :: 0 <= j < k < |idx| ==> idx[j] < idx[k] && a[idx[j]] < a[idx[k]])
  }

  /** dp[i] once computed: the longest increasing subsequence of `a` ending at position i. */
  function LisEnd(a: seq<int>, i: nat): nat
    requires i < |a|
    decreases i, 1
  {
    BestEnd(a, i, i)
  }

  /**
   * dp[i] after the inner loop has looked at positions 0 .. k - 1: starts at
   * 1 and takes dp[j] + 1 for every earlier smaller arr[j].
   */
  function BestEnd(a: seq<int>, i: nat, k: nat): (r: nat)
    requires k <= i < |a|
    ensures r >= 1
    decreases k, 0
  {
    if k == 0 then 1
    else if a[k - 1] < a[i] then Max(BestEnd(a, i, k - 1), LisEnd(a, k - 1) + 1)
    else BestEnd(a, i, k - 1)
  }

  /** An increasing subsequence ending at position i with BestEnd(a, i, k) elements. */
  ghost function LisWitness(a: seq<int>, i: nat, k: nat): (idx: seq<int>)
    requires k <= i < |a|
    ensures IncreasingPick(a, idx) && |idx| == BestEnd(a, i, k)
    ensures idx != [] && idx[|idx| - 1] == i
    decreases k
  {
    if k == 0 then [i]
    else if a[k - 1] < a[i] && LisEnd(a, k - 1) + 1 > BestEnd(a, i, k - 1) then
      var w := LisWitness(a, k - 1, k - 1);
      IncreasingPickSnoc(a, w, i);
      w + [i]
    else LisWitness(a, i, k - 1)
  }

  /** An increasing pick stays one when extended by a later, larger element. */
  lemma IncreasingPickSnoc(a: seq<int>, idx: seq<int>, i: int)
    requires IncreasingPick(a, idx) && idx != [] && idx[|idx| - 1] < i < |a| && a[idx[|idx| - 1]] < a[i]
    ensures IncreasingPick(a, idx + [i])
  {
  }

  /** Every earlier smaller element counts towards dp[i]. */
  lemma {:induction false} BestEndCovers(a: seq<int>, i: nat, k: nat, j: nat)
    requires j < k <= i < |a| && a[j] < a[i]
    ensures BestEnd(a, i, k) >= LisEnd(a, j) + 1
    decreases k
  {
    if j < k - 1 {
      BestEndCovers(a, i, k - 1, j);
    }
  }

  /** No increasing subsequence ending at position i is longer than LisEnd(a, i). */
  lemma {:induction false} LisEndIsLongest(a: seq<int>, idx: seq<int>)
    requires IncreasingPick(a, idx) && idx != []
    ensures |idx| <= LisEnd(a, idx[|idx| - 1])
    decreases |idx|
  {
    if |idx| > 1 {
      var idx' := idx[..|idx| - 1];
      assert IncreasingPick(a, idx');
      LisEndIsLongest(a, idx');
      var i, j := idx[|idx| - 1], idx[|idx| - 2];
      BestEndCovers(a, i, i, j);
    }
  }

  /** The dp table of `longestIncreasingSubsequence`. */
  function LisEnds(a: seq<int>): (t: seq<nat>)
    ensures |t| == |a| && forall p :: 0 <= p < |a| ==> t[p] == LisEnd(a, p)
  {
    seq(|a|, p requires 0 <= p < |a| => LisEnd(a, p))
  }

  /** `r` is the length of a longest strictly increasing subsequence of `a`. */
  ghost predicate LongestIncreasing(a: seq<int>, r: int) {
    && (exists idx :: IncreasingPick(a, idx) && |idx| == r)
    && (forall idx :: IncreasingPick(a, idx) ==> |idx| <= r)
  }

  /** The largest entry of a non-empty table is the longest increasing subsequence. */
  lemma LisAnswer(a: seq<int>)
    requires |a| > 0
    ensures LongestIncreasing(a, MaxOf(LisEnds(a)))
  {
    var t := LisEnds(a);
    var m := MaxOf(t);
    var i :| 0 <= i < |a| && t[i] == m;
    var w := LisWitness(a, i, i);
    assert IncreasingPick(a, w) && |w| == m;
    forall idx | IncreasingPick(a, idx)
      ensures |idx| <= m
    {
      if idx != [] {
        LisEndIsLongest(a, idx);
        assert t[idx[|idx| - 1]] <= m;
      }
    }
  }

  /** Every increasing pick of the empty array is empty. */
  lemma EmptyPicks(a: seq<int>)
    requires |a| == 0
    ensures forall idx :: IncreasingPick(a, idx) ==> idx == []
  {
    forall idx | IncreasingPick(a, idx)
      ensures idx == []
    {
      PickWithin(a, idx);
    }
  }

  /** The empty array's longest increasing subsequence has length 0. */
  lemma LisOfEmpty(a: seq<int>)
    requires |a| == 0
    ensures LongestIncreasing(a, 0)
  {
    EmptyPicks(a);
    NoPickIsIncreasing(a);
    LongestIncreasingIntro(a, []);
  }

  /** Picking nothing is an increasing pick. */
  lemma NoPickIsIncreasing(a: seq<int>)
    ensures IncreasingPick(a, [])
  {
  }

  /** An increasing pick that no other increasing pick outgrows is a longest one. */
  lemma LongestIncreasingIntro(a: seq<int>, w: seq<int>)
    requires IncreasingPick(a, w) && forall idx :: IncreasingPick(a, idx) ==> |idx| <= |w|
    ensures LongestIncreasing(a, |w|)
  {
  }

  /** The longest increasing subsequence has only one length. */
  lemma LongestIncreasingUnique(a: seq<int>, r1: int, r2: int)
    requires LongestIncreasing(a, r1) && LongestIncreasing(a, r2)
    ensures r1 == r2
  {
    var idx1 :| IncreasingPick(a, idx1) && |idx1| == r1;
    var idx2 :| IncreasingPick(a, idx2) && |idx2| == r2;
  }

  /** So 1, the answer `orElse(1)` gives for the empty array, is not its longest increasing subsequence. */
  lemma LisOfEmptyIsNotOne(a: seq<int>)
    requires |a| == 0
    ensures !LongestIncreasing(a, 1)
  {
    EmptyPicks(a);
  }

  /** Only a non-empty sequence has a non-empty pick. */
  lemma PickWithin(a: seq<int>, idx: seq<int>)
    requires IncreasingPick(a, idx)
    ensures idx != [] ==> |a| > 0
  {
    if idx != [] {
      assert 0 <= idx[0] < |a|;
    }
  }

  /** The two nested loops of `longestIncreasingSubsequence`: dp[i] for every i. */
  method LisTable(arr: array<int>) returns (dp: array<int>)
    ensures dp.Length == arr.Length && dp[..] == LisEnds(arr[..])
  {
    var n := arr.Length;
    dp := new int[n](_ => 1);
    var i := 1;
    while i < n
      invariant 1 <= i <= Max(n, 1)
      invariant forall p :: 0 <= p < i && p < n ==> dp[p] == LisEnd(arr[..], p)
      invariant forall p :: i <= p < n ==> dp[p] == 1
    {
      for j := 0 to i
        invariant dp[i] == BestEnd(arr[..], i, j)
        invariant forall p :: 0 <= p < i ==> dp[p] == LisEnd(arr[..], p)
        invariant forall p :: i < p < n ==> dp[p] == 1
      {
        if arr[j] < arr[i] {
          dp[i] := Max(dp[i], dp[j] + 1);
        }
      }
      i := i + 1;
    }
  }

  /**
   * `longestIncreasingSubsequence` as written: the largest dp entry, or 1
   * (`orElse(1)`) when the array is empty.
   */
  method LongestIncreasingSubsequenceAsWritten(arr: array<int>) returns (r: int)
    ensures arr.Length > 0 ==> LongestIncreasing(arr[..], r)
    ensures arr.Length == 0 ==> r == 1
  {
    var dp := LisTable(arr);
    if dp.Length == 0 {
      r := 1;
    } else {
      r := MaxOf(dp[..]);
      LisAnswer(arr[..]);
    }
  }

  /** `longestIncreasingSubsequence` with 0 for the empty array. */
  method LongestIncreasingSubsequence(arr: array<int>) returns (r: int)
    ensures LongestIncreasing(arr[..], r)
  {
    var dp := LisTable(arr);
    if dp.Length == 0 {
      r := 0;
      LisOfEmpty(arr[..]);
    } else {
      r := MaxOf(dp[..]);
      LisAnswer(arr[..]);
    }
  }

  // ---------------------------------------------------------------------------
  // House robber
  // ---------------------------------------------------------------------------

  /** dp[i] of `rob`: dp[0] = h[0], dp[1] = max(h[0], h[1]), then the better of skipping or robbing house i. */
  function Robbed(h: seq<int>, i: nat): int
    requires i < |h|
  {
    if i == 0 then h[0]
    else if i == 1 then Max(h[0], h[1])
    else Max(Robbed(h, i - 1), Robbed(h, i - 2) + h[i])
  }

  /** No two neighbouring houses are both robbed. */
  ghost predicate Spaced(sel: seq<bool>) {
    forall j :: 0 <= j < |sel| - 1 ==> !Adjacent(sel, j)
  }

  /** Houses j and j + 1 are both robbed. */
  predicate Adjacent(sel: seq<bool>, j: nat)
    requires j < |sel| - 1
  {
    sel[j] && sel[j + 1]
  }

  /** A spaced choice of the first i + 1 houses worth Robbed(h, i). */
  lemma {:induction false} RobWitness(h: seq<int>, i: nat) returns (sel: seq<bool>)
    requires i < |h|
    ensures |sel| == i + 1 && Spaced(sel) && Picked(h, sel) == Robbed(h, i)
    decreases i
  {
    if i == 0 {
      sel := Take(h, []);
    } else if i == 1 {
      if h[0] >= h[1] {
        var w := Take(h, []);
        sel := Skip(h, w);
      } else {
        var w := Skip(h, []);
        sel := Take(h, w);
      }
    } else if Robbed(h, i - 1) >= Robbed(h, i - 2) + h[i] {
      var w := RobWitness(h, i - 1);
      sel := Skip(h, w);
    } else {
      var w := RobWitness(h, i - 2);
      var w' := Skip(h, w);
      sel := Take(h, w');
    }
  }

  /** Leaving the next house alone keeps a choice spaced and its worth. */
  lemma Skip(h: seq<int>, w: seq<bool>) returns (sel: seq<bool>)
    requires |w| < |h| && Spaced(w)
    ensures sel == w + [false] && Spaced(sel) && Picked(h, sel) == Picked(h, w)
  {
    PickedSnoc(h, w, false);
    SpacedSnoc(w, false);
    sel := w + [false];
  }

  /** Robbing the next house after a skipped one keeps a choice spaced and adds that house. */
  lemma Take(h: seq<int>, w: seq<bool>) returns (sel: seq<bool>)
    requires |w| < |h| && Spaced(w) && (w == [] || !w[|w| - 1])
    ensures sel == w + [true] && Spaced(sel) && Picked(h, sel) == Picked(h, w) + h[|w|]
  {
    PickedSnoc(h, w, true);
    SpacedSnoc(w, true);
    sel := w + [true];
  }

  /** A spaced choice extended by a house that is skipped, or that follows a skipped one, stays spaced. */
  lemma SpacedSnoc(sel: seq<bool>, b: bool)
    requires Spaced(sel) && (b ==> sel == [] || !sel[|sel| - 1])
    ensures Spaced(sel + [b])
  {
    forall j | 0 <= j < |sel + [b]| - 1
      ensures !Adjacent(sel + [b], j)
    {
      if j < |sel| - 1 {
        assert !Adjacent(sel, j);
      }
    }
  }

  /** A prefix of a spaced choice is spaced. */
  lemma SpacedPrefix(sel: seq<bool>, k: nat)
    requires Spaced(sel) && k <= |sel|
    ensures Spaced(sel[..k])
  {
    forall j | 0 <= j < k - 1
      ensures !Adjacent(sel[..k], j)
    {
      assert !Adjacent(sel, j);
    }
  }

  /** With no negative house, no spaced choice of the first i + 1 houses beats Robbed(h, i). */
  lemma {:induction false} RobbedIsBest(h: seq<int>, i: nat, sel: seq<bool>)
    requires i < |h| && NonNegative(h) && |sel| == i + 1 && Spaced(sel)
    ensures Picked(h, sel) <= Robbed(h, i)
    decreases i
  {
    if i == 0 {
      assert sel == [sel[0]];
      RobOne(h, sel[0]);
    } else if i == 1 {
      assert !Adjacent(sel, 0);
      assert sel == [sel[0]] + [sel[1]];
      RobTwo(h, sel[0], sel[1]);
    } else {
      var init, b1, b := sel[..i - 1], sel[i - 1], sel[i];
      assert !Adjacent(sel, i - 1);
      assert sel[..i] == init + [b1] && sel == init + [b1] + [b];
      SpacedPrefix(sel, i);
      SpacedPrefix(sel, i - 1);
      RobbedIsBest(h, i - 1, init + [b1]);
      RobbedIsBest(h, i - 2, init);
      RobBound(h, init, b1, b);
    }
  }

  /** The bound for one house. */
  lemma RobOne(h: seq<int>, b: bool)
    requires 1 <= |h| && NonNegative(h)
    ensures Picked(h, [b]) <= Robbed(h, 0)
  {
    PickedSnoc(h, [], b);
    assert [] + [b] == [b];
  }

  /** The bound for two houses, not both robbed. */
  lemma RobTwo(h: seq<int>, b0: bool, b1: bool)
    requires 2 <= |h| && NonNegative(h) && !(b0 && b1)
    ensures Picked(h, [b0] + [b1]) <= Robbed(h, 1)
  {
    PickedSnoc(h, [b0], b1);
    RobOne(h, b0);
  }

  /**
   * The step of the bound: a choice that ends in houses b1 and b, not both
   * robbed, either skips the last house, and is worth a choice of one house
   * fewer, or robs it after skipping the one before.
   */
  lemma RobBound(h: seq<int>, init: seq<bool>, b1: bool, b: bool)
    requires 1 <= |init| && |init| + 2 <= |h| && !(b1 && b)
    requires Picked(h, init + [b1]) <= Robbed(h, |init|)
    requires Picked(h, init) <= Robbed(h, |init| - 1)
    ensures Picked(h, init + [b1] + [b]) <= Robbed(h, |init| + 1)
  {
    PickedSnoc(h, init + [b1], b);
    PickedSnoc(h, init, b1);
    ChoiceBound(Picked(h, init + [b1] + [b]), Picked(h, init + [b1]), Picked(h, init),
                Robbed(h, |init|), Robbed(h, |init| - 1), h[|init| + 1], h[|init|], b, b1);
  }

  /** Robbing house i forces skipping house i - 1; either way the total stays within the better option. */
  lemma ChoiceBound(v: int, v1: int, v2: int, r1: int, r2: int, x: int, y: int, b: bool, b1: bool)
    requires v == v1 + (if b then x else 0) && v1 == v2 + (if b1 then y else 0)
    requires !(b && b1) && v1 <= r1 && v2 <= r2
    ensures v <= Max(r1, r2 + x)
  {
  }

  /** `r` is the most a thief can take from `h` without robbing two neighbours. */
  ghost predicate BestHeist(h: seq<int>, r: int) {
    && (exists sel :: |sel| == |h| && Spaced(sel) && Picked(h, sel) == r)
    && (forall sel :: |sel| == |h| && Spaced(sel) ==> Picked(h, sel) <= r)
  }

  /** For houses with no negative amount, Robbed over all of them is the best heist. */
  lemma RobAnswer(h: seq<int>)
    requires |h| > 0 && NonNegative(h)
    ensures BestHeist(h, Robbed(h, |h| - 1))
  {
    var w := RobWitness(h, |h| - 1);
    forall sel | |sel| == |h| && Spaced(sel)
      ensures Picked(h, sel) <= Robbed(h, |h| - 1)
    {
      RobbedIsBest(h, |h| - 1, sel);
    }
  }

  /** With no houses the only choice is the empty one, worth 0. */
  lemma RobNothing()
    ensures BestHeist([], 0)
  {
    assert Picked([], []) == 0 && Spaced([]);
  }

  /** `rob`: 0 for no houses, houses[0] for one, otherwise the last dp entry. */
  method Rob(houses: array<int>) returns (r: int)
    ensures r == if houses.Length == 0 then 0 else Robbed(houses[..], houses.Length - 1)
    ensures NonNegative(houses[..]) ==> BestHeist(houses[..], r)
  {
    if houses.Length == 0 {
      r := 0;
      RobNothing();
      assert houses[..] == [];
    } else {
      if houses.Length == 1 {
        r := houses[0];
      } else {
        r := RobTable(houses);
      }
      if NonNegative(houses[..]) {
        RobAnswer(houses[..]);
      }
    }
  }

  /** The table loop of `rob` for two or more houses: dp[i] is Robbed over the first i + 1 houses. */
  method RobTable(houses: array<int>) returns (r: int)
    requires houses.Length >= 2
    ensures r == Robbed(houses[..], houses.Length - 1)
  {
    ghost var h := houses[..];
    var dp := new int[houses.Length];
    dp[0] := houses[0];
    dp[1] := Max(houses[0], houses[1]);
    for i := 2 to houses.Length
      invariant forall p {:trigger dp[p]} :: 0 <= p < i ==> dp[p] == Robbed(h, p)
    {
      assert houses[i] == h[i] && dp[i - 1] == Robbed(h, i - 1) && dp[i - 2] == Robbed(h, i - 2);
      dp[i] := Max(dp[i - 1], dp[i - 2] + houses[i]);
    }
    r := dp[houses.Length - 1];
  }
}
