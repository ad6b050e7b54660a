/**
 * Stack and queue algorithms: bracket matching, postfix evaluation,
 * graph traversal with an explicit stack or queue over a visited array,
 * the sliding-window maximum with a monotonic deque, next greater
 * elements, a stack built from two queues and a queue built from two
 * stacks. Java's `Stack`, `Queue` and `Deque` are sequences: a stack has
 * its top at the end, a queue its head at the front.
 */
module StackAndQueue {
  import opened Wrappers
  import opened Seqs
  import opened Paths
  import opened JavaInt
  import Graph

  // ---------------------------------------------------------------------------
  // Bracket matching
  // ---------------------------------------------------------------------------

  /** The keys of the closing-to-opening bracket map. */
  predicate IsCloser(c: char) {
    c == ')' || c == ']' || c == '}'
  }

  function OpenerOf(c: char): char
    requires IsCloser(c)
  {
    if c == ')' then '(' else if c == ']' then '[' else '{'
  }

  ghost predicate Pair(o: char, c: char) {
    IsCloser(c) && o == OpenerOf(c)
  }

  /**
   * `s[lo..hi]` is well nested: empty, or an opening bracket, a balanced
   * stretch, its closing bracket, and a balanced rest.
   */
  ghost predicate BalancedRange(s: string, lo: nat, hi: nat)
    requires lo <= hi <= |s|
    decreases hi - lo
  {
    lo == hi || exists k :: lo < k < hi && Pair(s[lo], s[k]) && BalancedRange(s, lo + 1, k) && BalancedRange(s, k + 1, hi)
  }

  ghost predicate Balanced(s: string) {
    BalancedRange(s, 0, |s|)
  }

  /**
   * The matching loop as a function: scanning `s` from position `i` with
   * `stack` of pending characters succeeds when every closer meets its
   * opener on top and nothing is left pending at the end.
   */
  ghost function Scan(stack: seq<char>, s: string, i: nat): bool
    requires i <= |s|
    decreases |s| - i
  {
    if i == |s| then stack == []
    else if IsCloser(s[i]) then
      stack != [] && stack[|stack| - 1] == OpenerOf(s[i]) && Scan(stack[..|stack| - 1], s, i + 1)
    else Scan(stack + [s[i]], s, i + 1)
  }

  /**
   * From position `i`, `s` holds the closers of `stack` from the top down,
   * each preceded by a balanced stretch, and then a balanced rest.
   */
  ghost predicate Closes(stack: seq<char>, s: string, i: nat)
    requires i <= |s|
    decreases |stack|
  {
    if stack == [] then BalancedRange(s, i, |s|)
    else exists k :: i <= k < |s| && BalancedRange(s, i, k) && Pair(stack[|stack| - 1], s[k]) &&
                     Closes(stack[..|stack| - 1], s, k + 1)
  }

  /** A balanced stretch leaves the stack as it found it. */
  lemma {:induction false} BalancedNeutral(s: string, lo: nat, hi: nat, stack: seq<char>)
    requires lo <= hi <= |s| && BalancedRange(s, lo, hi)
    ensures Scan(stack, s, lo) == Scan(stack, s, hi)
    decreases hi - lo
  {
    if lo < hi {
      var k :| lo < k < hi && Pair(s[lo], s[k]) && BalancedRange(s, lo + 1, k) && BalancedRange(s, k + 1, hi);
      BalancedNeutral(s, lo + 1, k, stack + [s[lo]]);
      assert (stack + [s[lo]])[..|stack|] == stack;
      BalancedNeutral(s, k + 1, hi, stack);
    }
  }

  lemma {:induction false} ScanCloses(stack: seq<char>, s: string, i: nat)
    requires i <= |s| && Scan(stack, s, i)
    ensures Closes(stack, s, i)
    decreases |s| - i
  {
    if i < |s| {
      if IsCloser(s[i]) {
        ScanCloses(stack[..|stack| - 1], s, i + 1);
        assert BalancedRange(s, i, i);
      } else {
        ScanCloses(stack + [s[i]], s, i + 1);
        assert (stack + [s[i]])[..|stack|] == stack;
        var k :| i + 1 <= k < |s| && BalancedRange(s, i + 1, k) && Pair(s[i], s[k]) && Closes(stack, s, k + 1);
        ClosesOpen(stack, s, i, k);
      }
    }
  }

  /** The step of `ScanCloses` for an opening character `s[i]` matched at `s[k]`. */
  lemma ClosesOpen(stack: seq<char>, s: string, i: nat, k: nat)
    requires i < k < |s| && BalancedRange(s, i + 1, k) && Pair(s[i], s[k]) && Closes(stack, s, k + 1)
    ensures Closes(stack, s, i)
  {
    if stack != [] {
      var m :| k + 1 <= m < |s| && BalancedRange(s, k + 1, m) && Pair(stack[|stack| - 1], s[m]) &&
               Closes(stack[..|stack| - 1], s, m + 1);
      assert BalancedRange(s, i, m);
    }
  }

  lemma {:induction false} ClosesScan(stack: seq<char>, s: string, i: nat)
    requires i <= |s| && Closes(stack, s, i)
    ensures Scan(stack, s, i)
    decreases |stack|
  {
    if stack == [] {
      BalancedNeutral(s, i, |s|, []);
    } else {
      var k :| i <= k < |s| && BalancedRange(s, i, k) && Pair(stack[|stack| - 1], s[k]) &&
               Closes(stack[..|stack| - 1], s, k + 1);
      BalancedNeutral(s, i, k, stack);
      ClosesScan(stack[..|stack| - 1], s, k + 1);
    }
  }

  /** The matching loop accepts exactly the balanced strings. */
  lemma ScanBalanced(s: string)
    ensures Scan([], s, 0) <==> Balanced(s)
  {
    if Scan([], s, 0) {
      ScanCloses([], s, 0);
    }
    if Balanced(s) {
      ClosesScan([], s, 0);
    }
  }

  /**
   * Bracket matching: every character that is not a closing bracket is
   * pushed, a closing bracket must pop its opening bracket, and the stack
   * must end empty. It accepts exactly the balanced bracket strings.
   */
  method IsValidParentheses(s: string) returns (r: bool)
    ensures r <==> Balanced(s)
  {
    var stack: seq<char> := [];
    ScanBalanced(s);
    for i := 0 to |s|
      invariant Scan(stack, s, i) == Scan([], s, 0)
    {
      var c := s[i];
      if IsCloser(c) {
        if stack == [] || stack[|stack| - 1] != OpenerOf(c) {
          return false;
        }
        stack := stack[..|stack| - 1];
      } else {
        stack := stack + [c];
      }
    }
    r := stack == [];
  }

  // ---------------------------------------------------------------------------
  // Postfix evaluation
  // ---------------------------------------------------------------------------

  datatype Op = Add | Sub | Mul | Div

  /** A token already read: an operator or an integer literal. */
  datatype Token = Operator(op: Op) | Number(value: int)

  /** `a op b` on unbounded integers, dividing as Java does (toward zero); division by zero fails. */
  function Apply(op: Op, a: int, b: int): (r: Option<int>)
    ensures r.None? <==> op == Div && b == 0
  {
    match op
    case Add => Some(a + b)
    case Sub => Some(a - b)
    case Mul => Some(a * b)
    case Div => if b == 0 then None else Some(JavaDiv(a, b))
  }

  /** Arithmetic expressions; `Postfix` writes them in reverse Polish notation. */
  datatype Expr = Const(value: int) | Binary(op: Op, left: Expr, right: Expr)

  function Postfix(e: Expr): seq<Token> {
    match e
    case Const(v) => [Number(v)]
    case Binary(op, l, r) => Postfix(l) + Postfix(r) + [Operator(op)]
  }

  /** The value of an expression, or None when it divides by zero. */
  function Eval(e: Expr): Option<int> {
    match e
    case Const(v) => Some(v)
    case Binary(op, l, r) =>
      match Eval(l)
      case None => None
      case Some(a) =>
        match Eval(r)
        case None => None
        case Some(b) => Apply(op, a, b)
  }

  /**
   * The evaluation loop as a function: numbers are pushed, an operator pops
   * its right then its left operand and pushes the result, and the answer
   * is the top of the stack. None stands for the exceptions Java raises:
   * popping an empty stack, or dividing by zero.
   */
  ghost function Rpn(stack: seq<int>, tokens: seq<Token>): Option<int>
    decreases |tokens|
  {
    if tokens == [] then
      if stack == [] then None else Some(stack[|stack| - 1])
    else
      match tokens[0]
      case Number(v) => Rpn(stack + [v], tokens[1..])
      case Operator(op) =>
        if |stack| < 2 then None
        else
          match Apply(op, stack[|stack| - 2], stack[|stack| - 1])
          case None => None
          case Some(x) => Rpn(stack[..|stack| - 2] + [x], tokens[1..])
  }

  /** Evaluating the postfix form of `e` pushes the value of `e` and carries on. */
  lemma {:induction false} RpnPostfix(e: Expr, stack: seq<int>, rest: seq<Token>)
    ensures Rpn(stack, Postfix(e) + rest) == if Eval(e).None? then None else Rpn(stack + [Eval(e).value], rest)
  {
    match e
    case Const(v) =>
      assert ([Number(v)] + rest)[1..] == rest;
    case Binary(op, l, r) =>
      assert Postfix(e) + rest == Postfix(l) + (Postfix(r) + ([Operator(op)] + rest));
      RpnPostfix(l, stack, Postfix(r) + ([Operator(op)] + rest));
      if Eval(l).Some? {
        var a := Eval(l).value;
        RpnPostfix(r, stack + [a], [Operator(op)] + rest);
        if Eval(r).Some? {
          var b := Eval(r).value;
          var st := stack + [a] + [b];
          assert st[|st| - 2] == a && st[|st| - 1] == b && st[..|st| - 2] == stack;
          assert ([Operator(op)] + rest)[1..] == rest;
        }
      }
  }

  /** Reverse Polish evaluation computes the value of the expression the tokens spell. */
  lemma RpnOfPostfix(e: Expr)
    ensures Rpn([], Postfix(e)) == Eval(e)
  {
    RpnPostfix(e, [], []);
    assert Postfix(e) + [] == Postfix(e);
  }

  /**
   * Postfix evaluation with a stack. On the tokens of an expression it
   * returns the expression's value; None stands for the exceptions raised
   * on a stack underflow or a division by zero.
   */
  method EvalRpn(tokens: seq<Token>) returns (r: Option<int>)
    ensures r == Rpn([], tokens)
    ensures forall e :: tokens == Postfix(e) ==> r == Eval(e)
  {
    var stack: seq<int> := [];
    forall e | tokens == Postfix(e) ensures Rpn([], tokens) == Eval(e) {
      RpnOfPostfix(e);
    }
    for i := 0 to |tokens|
      invariant Rpn(stack, tokens[i..]) == Rpn([], tokens)
    {
      assert tokens[i..][0] == tokens[i] && tokens[i..][1..] == tokens[i + 1..];
      match tokens[i]
      case Number(v) =>
        stack := stack + [v];
      case Operator(op) =>
        if |stack| < 2 {
          return None;
        }
        var b := stack[|stack| - 1];
        var a := stack[|stack| - 2];
        var x := Apply(op, a, b);
        if x.None? {
          return None;
        }
        stack := stack[..|stack| - 2] + [x.value];
    }
    assert tokens[|tokens|..] == [];
    if stack == [] {
      return None;
    }
    r := Some(stack[|stack| - 1]);
  }

  // ---------------------------------------------------------------------------
  // Traversals over a visited array
  // ---------------------------------------------------------------------------

  /** `visited` marks exactly the vertices of `marked`. */
  ghost predicate Marks(visited: array<bool>, marked: set<nat>)
    reads visited
  {
    forall v: nat :: v < visited.Length ==> (visited[v] <==> v in marked)
  }

  /**
   * Depth-first search with an explicit stack over the vertices 0..n-1: a
   * popped vertex that is not yet marked is marked, printed, and its
   * unmarked neighbours are pushed. Each vertex reachable from `start` is
   * printed exactly once, `start` first.
   */
  method DfsStack(start: nat, n: nat, g: seq<seq<nat>>) returns (order: seq<nat>)
    requires start < n && |g| == n && WellFormed(g)
    ensures |order| > 0 && order[0] == start && Distinct(order)
    ensures forall v :: v in order <==> Reachable(g, start, v)
  {
    var stack: seq<nat> := [start];
    var visited := new bool[n](_ => false);
    ghost var marked: set<nat> := {};
    order := [];
    ReachableRefl(g, {}, start);
    while stack != []
      invariant visited.Length == n && Marks(visited, marked)
      invariant Graph.DfsState(g, start, order, stack, marked)
      decreases n - |order|, |stack|
    {
      Graph.DfsStateBound(g, start, order, stack, marked);
      ghost var before := stack;
      var node := stack[|stack| - 1];
      stack := stack[..|stack| - 1];
      if !visited[node] {
        Graph.DfsVisitStep(g, start, order, before, marked);
        visited[node] := true;
        marked := marked + {node};
        order := order + [node];
        stack := PushUnmarked(g[node], visited, marked, stack);
      } else {
        Graph.DfsSkipStep(g, start, order, before, marked);
      }
    }
    Graph.DfsStateComplete(g, start, order, marked);
  }

  /** Pushes, in list order, every neighbour not marked in `visited`. */
  method PushUnmarked(ns: seq<nat>, visited: array<bool>, ghost marked: set<nat>, stack: seq<nat>)
      returns (stack': seq<nat>)
    requires Marks(visited, marked) && forall k :: 0 <= k < |ns| ==> ns[k] < visited.Length
    ensures stack' == stack + Unvisited(ns, marked)
  {
    stack' := stack;
    for i := 0 to |ns|
      invariant stack' == stack + Unvisited(ns[..i], marked)
    {
      var x := ns[i];
      TakeSnoc(ns, i);
      UnvisitedSnoc(ns[..i], x, marked);
      if !visited[x] {
        assert x !in marked;
        stack' := stack' + [x];
      } else {
        assert x in marked;
      }
    }
    assert ns[..|ns|] == ns;
  }

  /**
   * Breadth-first search with a queue over the vertices 0..n-1: a vertex
   * is marked when it is queued. Each vertex reachable from `start` is
   * printed exactly once, `start` first.
   */
  method BfsQueue(start: nat, n: nat, g: seq<seq<nat>>) returns (order: seq<nat>)
    requires start < n && |g| == n && WellFormed(g)
    ensures |order| > 0 && order[0] == start && Distinct(order)
    ensures forall v :: v in order <==> Reachable(g, start, v)
    ensures Graph.LevelOrder(g, start, order)
  {
    var queue: seq<nat> := [start];
    var visited := new bool[n](_ => false);
    visited[start] := true;
    ghost var marked: set<nat> := {start};
    order := [];
    ReachableRefl(g, {}, start);
    ghost var lv: seq<nat> := [0];
    Graph.BfsInvStart(g, start, order, queue, marked, lv);
    while queue != []
      invariant visited.Length == n && Marks(visited, marked)
      invariant Graph.BfsInv(g, start, order, queue, marked, lv)
      decreases n - |order|
    {
      Graph.BfsInvBound(g, start, order, queue, marked, lv);
      var node := queue[0];
      ghost var marked' := marked + set x | x in g[node];
      var queue' := EnqueueUnmarked(g[node], visited, marked, queue[1..]);
      lv := Graph.BfsAdvance(g, start, order, queue, marked, lv, marked', queue');
      order, queue, marked := order + [node], queue', marked';
    }
    Graph.BfsInvDone(g, start, order, marked, lv);
  }

  /** Marks and queues, in list order, every neighbour not yet marked. */
  method EnqueueUnmarked(ns: seq<nat>, visited: array<bool>, ghost marked: set<nat>, queue: seq<nat>)
      returns (queue': seq<nat>)
    requires Marks(visited, marked) && forall k :: 0 <= k < |ns| ==> ns[k] < visited.Length
    modifies visited
    ensures queue' == queue + Fresh(ns, marked)
    ensures Marks(visited, marked + set x | x in ns)
  {
    queue' := queue;
    for i := 0 to |ns|
      invariant queue' == queue + Fresh(ns[..i], marked)
      invariant Marks(visited, marked + set x | x in ns[..i])
    {
      var v := ns[i];
      TakeSnoc(ns, i);
      FreshSnoc(ns[..i], v, marked);
      if !visited[v] {
        queue' := queue' + [v];
        visited[v] := true;
      }
    }
    assert ns[..|ns|] == ns;
  }

  // ---------------------------------------------------------------------------
  // Sliding-window maximum
  // ---------------------------------------------------------------------------

  /** Where the stretch covered by the deque entry `dq[t]` starts. */
  function Start(lo: int, dq: seq<int>, t: nat): int
    requires t < |dq|
  {
    if t == 0 then lo else dq[t - 1] + 1
  }

  /** Deque indices grow from front to back. */
  ghost predicate Increasing(dq: seq<int>) {
    forall t1, t2 :: 0 <= t1 < t2 < |dq| ==> dq[t1] < dq[t2]
  }

  /** No value in a[from..hi] exceeds a[p]. */
  ghost predicate Covers(a: seq<int>, from: int, hi: int, p: int)
    requires 0 <= from && hi <= |a| && 0 <= p < |a|
  {
    forall j :: from <= j < hi ==> a[j] <= a[p]
  }

  /**
   * The deque of the window a[lo..hi]: increasing indices inside the window,
   * each entry the maximum of everything from just after the entry before it
   * to the end of the window.
   */
  ghost predicate Monotone(a: seq<int>, lo: int, hi: int, dq: seq<int>) {
    && 0 <= lo <= hi <= |a|
    && (forall t :: 0 <= t < |dq| ==> lo <= dq[t] < hi)
    && Increasing(dq)
    && (forall t {:trigger Covers(a, Start(lo, dq, t), hi, dq[t])} ::
          0 <= t < |dq| ==> Covers(a, Start(lo, dq, t), hi, dq[t]))
  }

  /** The deque for a window: its last entry is the newest index. */
  ghost predicate WindowDeque(a: seq<int>, lo: int, hi: int, dq: seq<int>) {
    Monotone(a, lo, hi, dq) && (lo < hi ==> |dq| > 0 && dq[|dq| - 1] == hi - 1)
  }

  /** While smaller entries are dropped from the back: everything after the last entry is below a[i]. */
  ghost predicate Dropping(a: seq<int>, lo: int, i: int, dq: seq<int>) {
    Monotone(a, lo, i, dq) && i < |a| &&
    forall j :: (if dq == [] then lo else dq[|dq| - 1] + 1) <= j < i ==> a[j] < a[i]
  }

  /** Dropping the front index once it leaves the window gives the deque of the next window. */
  lemma FrontStep(a: seq<int>, lo: int, lo': int, i: int, dq: seq<int>)
    requires i < |a| && WindowDeque(a, lo, i, dq) && lo <= lo' <= lo + 1 && lo' <= i
    ensures Dropping(a, lo', i, if dq != [] && dq[0] < lo' then dq[1..] else dq)
  {
    if dq != [] && dq[0] < lo' {
      DropFront(a, lo, lo', i, dq);
    } else if dq != [] {
      KeepFront(a, lo, lo', i, dq);
    } else {
      assert lo' == i;
    }
  }

  lemma DropFront(a: seq<int>, lo: int, lo': int, i: int, dq: seq<int>)
    requires i < |a| && WindowDeque(a, lo, i, dq) && lo <= lo' <= lo + 1 && lo' <= i
    requires dq != [] && dq[0] < lo'
    ensures Dropping(a, lo', i, dq[1..])
  {
    var dq' := dq[1..];
    assert dq[|dq| - 1] == i - 1;
    assert dq' == [] ==> lo' == i;
    assert dq' != [] ==> dq'[|dq'| - 1] == i - 1;
    forall t | 0 <= t < |dq'| ensures lo' <= dq'[t] < i && Covers(a, Start(lo', dq', t), i, dq'[t]) {
      assert dq'[t] == dq[t + 1] && dq[0] < dq[t + 1];
      assert Covers(a, Start(lo, dq, t + 1), i, dq[t + 1]);
    }
    assert Increasing(dq') by {
      forall t1, t2 | 0 <= t1 < t2 < |dq'| ensures dq'[t1] < dq'[t2] {
        assert dq'[t1] == dq[t1 + 1] && dq'[t2] == dq[t2 + 1];
      }
    }
  }

  lemma KeepFront(a: seq<int>, lo: int, lo': int, i: int, dq: seq<int>)
    requires i < |a| && WindowDeque(a, lo, i, dq) && lo <= lo' <= lo + 1 && lo' <= i
    requires dq != [] && lo' <= dq[0]
    ensures Dropping(a, lo', i, dq)
  {
    assert dq[|dq| - 1] == i - 1;
    forall t | 0 <= t < |dq| ensures lo' <= dq[t] < i && Covers(a, Start(lo', dq, t), i, dq[t]) {
      assert t > 0 ==> dq[0] < dq[t];
      assert Covers(a, Start(lo, dq, t), i, dq[t]);
    }
  }

  lemma BackStep(a: seq<int>, lo: int, i: int, dq: seq<int>)
    requires Dropping(a, lo, i, dq) && dq != [] && a[dq[|dq| - 1]] < a[i]
    ensures Dropping(a, lo, i, dq[..|dq| - 1])
  {
    var t := |dq| - 1;
    var dq' := dq[..t];
    assert Covers(a, Start(lo, dq, t), i, dq[t]);
    forall t' | 0 <= t' < |dq'| ensures Covers(a, Start(lo, dq', t'), i, dq'[t']) {
      assert Start(lo, dq', t') == Start(lo, dq, t') && dq'[t'] == dq[t'];
    }
  }

  lemma PushStep(a: seq<int>, lo: int, i: int, dq: seq<int>)
    requires Dropping(a, lo, i, dq) && (dq == [] || a[dq[|dq| - 1]] >= a[i])
    ensures WindowDeque(a, lo, i + 1, dq + [i])
  {
    var dq' := dq + [i];
    var from := if dq == [] then lo else dq[|dq| - 1] + 1;
    assert Covers(a, from, i + 1, i);
    assert Increasing(dq') by {
      forall t1, t2 | 0 <= t1 < t2 < |dq'| ensures dq'[t1] < dq'[t2] {
        assert dq'[t1] == dq[t1];
      }
    }
    forall t | 0 <= t < |dq'| ensures lo <= dq'[t] < i + 1 && Covers(a, Start(lo, dq', t), i + 1, dq'[t]) {
      if t < |dq| {
        var last := |dq| - 1;
        assert Start(lo, dq', t) == Start(lo, dq, t) && dq'[t] == dq[t];
        assert Covers(a, Start(lo, dq, t), i, dq[t]);
        assert Start(lo, dq, t) <= dq[t] <= dq[last];
        assert a[dq[last]] <= a[dq[t]];
        CoversExtend(a, Start(lo, dq, t), i, dq[t]);
      } else {
        assert Start(lo, dq', t) == from && dq'[t] == i;
      }
    }
  }

  /** A stretch whose maximum sits at `p` still has it there once a[i], not above a[p], joins it. */
  lemma CoversExtend(a: seq<int>, from: int, i: int, p: int)
    requires 0 <= from <= p < i < |a| && Covers(a, from, i, p) && a[p] >= a[i]
    ensures Covers(a, from, i + 1, p)
  {
  }

  /** The front of the deque holds the maximum of the window. */
  lemma WindowMax(a: seq<int>, lo: int, hi: int, dq: seq<int>)
    requires WindowDeque(a, lo, hi, dq) && lo < hi
    ensures a[dq[0]] == MaxOf(a[lo..hi])
  {
    var w := a[lo..hi];
    assert Covers(a, Start(lo, dq, 0), hi, dq[0]);
    assert w[dq[0] - lo] == a[dq[0]];
    MaxOfIs(w, a[dq[0]]);
  }

  /** The first `count` entries of `r` are the maxima of the windows of `k` elements of `a`. */
  ghost predicate WindowMaxima(a: seq<int>, k: int, r: seq<int>, count: int)
    requires 0 <= count <= |r| && 1 <= k && |r| + k - 1 <= |a|
  {
    forall m :: 0 <= m < count ==> r[m] == MaxOf(a[m..m + k])
  }

  lemma WindowMaximaStep(a: seq<int>, k: int, r: seq<int>, count: int, v: int)
    requires 0 <= count < |r| && 1 <= k && |r| + k - 1 <= |a|
    requires WindowMaxima(a, k, r, count) && v == MaxOf(a[count..count + k])
    ensures WindowMaxima(a, k, r[count := v], count + 1)
  {
  }

  /**
   * Moves the deque to the next window: drops the front index when it falls
   * out, drops smaller values from the back, and appends the new index `i`.
   */
  method Slide(nums: array<int>, lo: int, lo': int, i: int, dq: seq<int>) returns (dq': seq<int>)
    requires i < nums.Length && WindowDeque(nums[..], lo, i, dq) && lo <= lo' <= lo + 1 && lo' <= i
    ensures WindowDeque(nums[..], lo', i + 1, dq')
  {
    ghost var a := nums[..];
    FrontStep(a, lo, lo', i, dq);
    dq' := dq;
    if dq' != [] && dq'[0] < lo' {
      dq' := dq'[1..];
    }
    while dq' != [] && nums[dq'[|dq'| - 1]] < nums[i]
      invariant Dropping(a, lo', i, dq')
    {
      BackStep(a, lo', i, dq');
      dq' := dq'[..|dq'| - 1];
    }
    PushStep(a, lo', i, dq');
    dq' := dq' + [i];
  }

  /** Stores the maximum of the window ending at `i`, read off the front of its deque. */
  method Record(nums: array<int>, k: int, result: array<int>, i: int, dq: seq<int>)
    requires result != nums && 1 <= k <= i + 1 <= nums.Length && result.Length == nums.Length - k + 1
    requires WindowDeque(nums[..], i - k + 1, i + 1, dq)
    requires WindowMaxima(nums[..], k, result[..], i - k + 1)
    modifies result
    ensures WindowMaxima(nums[..], k, result[..], i - k + 2)
  {
    var lo := i - k + 1;
    WindowMax(nums[..], lo, i + 1, dq);
    ghost var before := result[..];
    WindowMaximaStep(nums[..], k, before, lo, nums[dq[0]]);
    result[lo] := nums[dq[0]];
    assert result[..] == before[lo := nums[dq[0]]];
  }

  /**
   * Maximum of every window of `k` consecutive elements, with a deque of
   * indices whose values decrease from front to back. An empty input gives
   * an empty result.
   */
  method MaxSlidingWindow(nums: array<int>, k: int) returns (result: array<int>)
    requires nums.Length == 0 || 1 <= k <= nums.Length
    ensures nums.Length == 0 ==> result.Length == 0
    ensures nums.Length > 0 ==> result.Length == nums.Length - k + 1
    ensures forall m :: 0 <= m < result.Length ==> result[m] == MaxOf(nums[m..m + k])
  {
    if nums.Length == 0 {
      return new int[0];
    }
    var dq: seq<int> := [];
    result := new int[nums.Length - k + 1];
    for i := 0 to nums.Length
      invariant WindowDeque(nums[..], Max(0, i - k), i, dq)
      invariant WindowMaxima(nums[..], k, result[..], Max(0, i - k + 1))
    {
      var lo := Max(0, i - k + 1);
      dq := Slide(nums, Max(0, i - k), lo, i, dq);
      if i >= k - 1 {
        Record(nums, k, result, i, dq);
      }
    }
  }

  // ---------------------------------------------------------------------------
  // A stack built from two queues
  // ---------------------------------------------------------------------------

  /**
   * A stack kept in the queue `main`, oldest element at the head and the top
   * at the back; `helper` is the scratch queue that `pop` and `peek` fill and
   * then swap with `main`, so it is empty between calls. An operation on an
   * empty stack gives `None`, where the library's unboxing of `poll()` or
   * `peek()` throws.
   */
  class StackFromQueues {
    var main: seq<int>
    var helper: seq<int>

    ghost predicate Valid()
      reads this
    {
      helper == []
    }

    constructor ()
      ensures Valid() && main == []
    {
      main := [];
      helper := [];
    }

    method Push(x: int)
      requires Valid()
      modifies this
      ensures Valid() && main == old(main) + [x]
    {
      main := main + [x];
    }

    /** Moves all but the newest element of `main` to the back of `helper`. */
    method Transfer()
      requires main != []
      modifies this
      ensures |main| == 1 && helper == old(helper) + old(main)[..|old(main)| - 1]
      ensures main[0] == old(main)[|old(main)| - 1]
    {
      ghost var all := helper + main;
      while |main| > 1
        invariant main != [] && helper + main == all
        invariant old(main)[|old(main)| - 1] == main[|main| - 1]
        decreases |main|
      {
        helper := helper + [main[0]];
        main := main[1..];
      }
      assert old(helper) + old(main) == helper + main;
      assert helper == (helper + main)[..|helper|];
    }

    method Pop() returns (r: Option<int>)
      requires Valid()
      modifies this
      ensures Valid()
      ensures old(main) == [] ==> r == None && main == []
      ensures old(main) != [] ==> r == Some(old(main)[|old(main)| - 1]) && main == old(main)[..|old(main)| - 1]
    {
      if main == [] {
        return None;
      }
      Transfer();
      r := Some(main[0]);
      main := main[1..];
      main, helper := helper, main;
    }

    method Peek() returns (r: Option<int>)
      requires Valid()
      modifies this
      ensures Valid() && main == old(main)
      ensures old(main) == [] ==> r == None
      ensures old(main) != [] ==> r == Some(old(main)[|old(main)| - 1])
    {
      if main == [] {
        return None;
      }
      Transfer();
      r := Some(main[0]);
      helper := helper + [main[0]];
      main := main[1..];
      main, helper := helper, main;
    }

    method IsEmpty() returns (r: bool)
      ensures r <==> main == []
    {
      r := main == [];
    }
  }

  // ---------------------------------------------------------------------------
  // A queue built from two stacks
  // ---------------------------------------------------------------------------

  /**
   * A queue kept in two stacks, tops at the end: `outStack` holds the oldest
   * elements with the head on top, `inStack` the newest with the tail on top.
   * An operation on an empty queue gives `None`, where the library's
   * `Stack.pop()` or `peek()` throws.
   */
  class QueueFromStacks {
    var inStack: seq<int>
    var outStack: seq<int>

    /** The queue, head first. */
    ghost function Contents(): seq<int>
      reads this
    {
      Reversed(outStack) + inStack
    }

    constructor ()
      ensures Contents() == []
    {
      inStack := [];
      outStack := [];
    }

    method Push(x: int)
      modifies this
      ensures outStack == old(outStack) && inStack == old(inStack) + [x]
      ensures Contents() == old(Contents()) + [x]
    {
      inStack := inStack + [x];
    }

    /** Refills an empty `outStack` by popping all of `inStack` onto it. */
    method Refill()
      modifies this
      ensures Contents() == old(Contents())
      ensures old(outStack) != [] ==> outStack == old(outStack) && inStack == old(inStack)
      ensures old(outStack) == [] ==> inStack == [] && outStack == Reversed(old(inStack))
    {
      if outStack == [] {
        ghost var all := inStack;
        while inStack != []
          invariant inStack + Reversed(outStack) == all
          decreases |inStack|
        {
          var n := |inStack| - 1;
          ReversedConcat(outStack, [inStack[n]]);
          assert inStack == inStack[..n] + [inStack[n]];
          outStack := outStack + [inStack[n]];
          inStack := inStack[..n];
        }
        ReversedTwice(outStack);
      }
    }

    method Pop() returns (r: Option<int>)
      modifies this
      ensures old(Contents()) == [] ==> r == None && Contents() == []
      ensures old(Contents()) != [] ==> r == Some(old(Contents())[0]) && Contents() == old(Contents())[1..]
    {
      Refill();
      if outStack == [] {
        return None;
      }
      var n := |outStack| - 1;
      r := Some(outStack[n]);
      ReversedConcat(outStack[..n], [outStack[n]]);
      assert outStack == outStack[..n] + [outStack[n]];
      outStack := outStack[..n];
    }

    method Peek() returns (r: Option<int>)
      modifies this
      ensures Contents() == old(Contents())
      ensures old(Contents()) == [] ==> r == None
      ensures old(Contents()) != [] ==> r == Some(old(Contents())[0])
    {
      Refill();
      if outStack == [] {
        return None;
      }
      r := Some(outStack[|outStack| - 1]);
    }

    method IsEmpty() returns (r: bool)
      ensures r <==> Contents() == []
    {
      r := inStack == [] && outStack == [];
    }
  }

  // ---------------------------------------------------------------------------
  // Next greater element
  // ---------------------------------------------------------------------------

  /**
   * The first index from `j` on whose value exceeds s[i], or |s| when there
   * is none.
   */
  function FirstGreater(s: seq<int>, i: nat, j: nat): (r: nat)
    requires i < |s|
    ensures j <= |s| ==> j <= r <= |s|
    ensures r < |s| ==> s[r] > s[i]
    decreases |s| - j
  {
    if j >= |s| then |s| else if s[j] > s[i] then j else FirstGreater(s, i, j + 1)
  }

  /** Nothing the search for a greater value passes over exceeds s[i]. */
  lemma {:induction false} FirstGreaterSkips(s: seq<int>, i: nat, j: nat, m: nat)
    requires i < |s| && j <= m < |s| && m < FirstGreater(s, i, j)
    ensures s[m] <= s[i]
    decreases |s| - j
  {
    if m > j {
      FirstGreaterSkips(s, i, j + 1, m);
    }
  }

  /** The value of the next greater element to the right of s[i], or -1. */
  function NextGreater(s: seq<int>, i: nat): int
    requires i < |s|
  {
    var j := FirstGreater(s, i, i + 1);
    if j == |s| then -1 else s[j]
  }

  /** Any `c` past which nothing up to c exceeds s[i], and which is greater or the end, is the first greater index. */
  lemma {:induction false} FirstGreaterIs(s: seq<int>, i: nat, j: nat, c: nat)
    requires i < |s| && j <= c <= |s|
    requires forall m :: j <= m < c ==> s[m] <= s[i]
    requires c == |s| || s[c] > s[i]
    ensures FirstGreater(s, i, j) == c
    decreases c - j
  {
    if j < c {
      FirstGreaterIs(s, i, j + 1, c);
    }
  }

  /**
   * A stack of candidate indices, all from `lo` on: each entry is the first
   * greater index of the one above it, and the bottom entry has none.
   */
  ghost predicate Linked(a: seq<int>, lo: nat, st: seq<nat>) {
    && (forall k :: 0 <= k < |st| ==> lo <= st[k] < |a|)
    && (st != [] ==> FirstGreater(a, st[0], st[0] + 1) == |a|)
    && Links(a, st)
  }

  /** Each entry below the top is the first greater index of the entry just above it. */
  ghost predicate Links(a: seq<int>, st: seq<nat>)
    decreases |st|
  {
    |st| <= 1 ||
      (st[|st| - 1] < |a| && st[|st| - 2] == FirstGreater(a, st[|st| - 1], st[|st| - 1] + 1)
       && Links(a, st[..|st| - 1]))
  }

  /** The index on top of the candidate stack, or the end of `a`. */
  function Top(a: seq<int>, st: seq<nat>): nat {
    if st == [] then |a| else st[|st| - 1]
  }

  /** The stack after the elements from `i` on were seen: `i` is on top. */
  ghost predicate Chain(a: seq<int>, i: nat, st: seq<nat>) {
    Linked(a, i, st) && i <= |a| && Top(a, st) == i
  }

  /** Popping a candidate not above a[i] leaves candidates that nothing before them beats. */
  lemma PopStep(a: seq<int>, i: nat, st: seq<nat>)
    requires i < |a| && Linked(a, i + 1, st) && st != [] && a[st[|st| - 1]] <= a[i]
    requires forall m :: i < m < Top(a, st) ==> a[m] <= a[i]
    ensures Linked(a, i + 1, st[..|st| - 1])
    ensures forall m :: i < m < Top(a, st[..|st| - 1]) ==> a[m] <= a[i]
  {
    var t := st[|st| - 1];
    var st' := st[..|st| - 1];
    var g := FirstGreater(a, t, t + 1);
    assert forall k :: 0 <= k < |st'| ==> st'[k] == st[k];
    assert Top(a, st') == g;
    forall m | i < m < g ensures a[m] <= a[i] {
      if t < m {
        FirstGreaterSkips(a, t, t + 1, m);
      }
    }
  }

  /** Pops every candidate whose value is not above nums[i]. */
  method PopNotGreater(nums: array<int>, i: nat, stack: seq<int>, ghost st: seq<nat>)
    returns (stack': seq<int>, ghost st': seq<nat>)
    requires i < nums.Length && Chain(nums[..], i + 1, st)
    requires |stack| == |st| && forall k :: 0 <= k < |st| ==> stack[k] == nums[st[k]]
    ensures Linked(nums[..], i + 1, st') && |stack'| == |st'|
    ensures forall k :: 0 <= k < |st'| ==> stack'[k] == nums[st'[k]]
    ensures FirstGreater(nums[..], i, i + 1) == Top(nums[..], st')
  {
    ghost var a := nums[..];
    stack', st' := stack, st;
    while stack' != [] && stack'[|stack'| - 1] <= nums[i]
      invariant Linked(a, i + 1, st')
      invariant |stack'| == |st'| && forall k :: 0 <= k < |st'| ==> stack'[k] == a[st'[k]]
      invariant forall m :: i < m < Top(a, st') ==> a[m] <= a[i]
    {
      PopStep(a, i, st');
      stack' := stack'[..|stack'| - 1];
      st' := st'[..|st'| - 1];
    }
    FirstGreaterIs(a, i, i + 1, Top(a, st'));
  }

  /** Pushing `i` on top of a linked stack keeps every link below it. */
  lemma LinksSnoc(a: seq<int>, i: nat, st: seq<nat>)
    requires i < |a| && st != [] && Links(a, st) && st[|st| - 1] == FirstGreater(a, i, i + 1)
    ensures Links(a, st + [i])
  {
    assert (st + [i])[..|st|] == st;
  }

  /** Pushing `i` on the candidates left for it gives the stack for `i`. */
  lemma ChainPush(a: seq<int>, i: nat, st: seq<nat>)
    requires i < |a| && Linked(a, i + 1, st) && FirstGreater(a, i, i + 1) == Top(a, st)
    ensures Chain(a, i, st + [i])
  {
    var st' := st + [i];
    if st == [] {
      assert st' == [i];
    } else {
      assert st'[0] == st[0];
      LinksSnoc(a, i, st);
    }
  }

  /** Once the candidates not above a[i] are popped, the top is the answer for `i`, and `i` can be pushed. */
  lemma AnswerFromStack(a: seq<int>, i: nat, stack: seq<int>, st: seq<nat>)
    requires i < |a| && Linked(a, i + 1, st) && FirstGreater(a, i, i + 1) == Top(a, st)
    requires |stack| == |st| && forall k :: 0 <= k < |st| ==> stack[k] == a[st[k]]
    ensures (if stack == [] then -1 else stack[|stack| - 1]) == NextGreater(a, i)
    ensures Chain(a, i, st + [i])
  {
    ChainPush(a, i, st);
  }

  /** Next greater value of every element, -1 where there is none. */
  method NextGreaterElement(nums: array<int>) returns (result: array<int>)
    ensures result.Length == nums.Length
    ensures forall i :: 0 <= i < nums.Length ==> result[i] == NextGreater(nums[..], i)
  {
    ghost var a := nums[..];
    var n := nums.Length;
    result := new int[n](_ => -1);
    var stack: seq<int> := [];
    ghost var st: seq<nat> := [];
    var i := n;
    while i > 0
      invariant 0 <= i <= n && Chain(a, i, st) && result.Length == n
      invariant |stack| == |st| && forall k :: 0 <= k < |st| ==> stack[k] == a[st[k]]
      invariant forall m :: 0 <= m < i ==> result[m] == -1
      invariant forall m :: i <= m < n ==> result[m] == NextGreater(a, m)
    {
      i := i - 1;
      stack, st := AnswerAt(nums, result, i, stack, st);
    }
  }

  /** One pass of the loop of `nextGreaterElement`: pops, answers for `i`, pushes `i`. */
  method AnswerAt(nums: array<int>, result: array<int>, i: nat, stack: seq<int>, ghost st: seq<nat>)
    returns (stack': seq<int>, ghost st': seq<nat>)
    requires result != nums && i < nums.Length == result.Length && Chain(nums[..], i + 1, st)
    requires |stack| == |st| && forall k :: 0 <= k < |st| ==> stack[k] == nums[st[k]]
    requires result[i] == -1
    modifies result
    ensures Chain(nums[..], i, st') && |stack'| == |st'|
    ensures forall k :: 0 <= k < |st'| ==> stack'[k] == nums[st'[k]]
    ensures result[i] == NextGreater(nums[..], i)
    ensures forall m :: 0 <= m < result.Length && m != i ==> result[m] == old(result[m])
  {
    ghost var a := nums[..];
    stack', st' := PopNotGreater(nums, i, stack, st);
    AnswerFromStack(a, i, stack', st');
    if stack' != [] {
      result[i] := stack'[|stack'| - 1];
    }
    stack' := stack' + [nums[i]];
    st' := st' + [i];
  }
}
