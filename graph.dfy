/**
 * Traversals, topological sort, connected components, cycle detection and
 * path search over integer-indexed graphs.
 *
 * A `GraphNode` graph is modelled by its adjacency lists: vertex `v` stands
 * for the node whose `val` is `v`, and `g[v]` lists the `val`s of its
 * `neighbors` in order. Each printing traversal returns the sequence of
 * values it would print.
 */
module Graph {
  import opened Wrappers
  import opened Seqs
  import opened Paths

  // ---------------------------------------------------------------------------
  // Traversals of node graphs
  // ---------------------------------------------------------------------------

  /**
   * Recursive depth-first search from `node` (None stands for a null node).
   * The new `visited` set adds exactly the vertices reachable from `node`
   * without entering the old set, and `order` prints each of them once,
   * starting with `node`.
   */
  method Dfs(g: seq<seq<nat>>, node: Option<nat>, visited: set<nat>)
      returns (visited': set<nat>, order: seq<nat>)
    requires WellFormed(g)
    requires node.Some? ==> node.value < |g|
    ensures visited <= visited'
    ensures Distinct(order)
    ensures forall v :: v in order <==> v in visited' && v !in visited
    ensures node.None? ==> visited' == visited
    ensures node.Some? ==> node.value in visited'
    ensures node.Some? ==>
              forall v :: v in visited' && v !in visited <==> ReachableAvoiding(g, visited, node.value, v)
    ensures node.Some? && node.value !in visited ==> |order| > 0 && order[0] == node.value
    ensures ClosedOutside(g, visited', visited)
    decreases |Range(|g|) - visited|
  {
    if node.None? || node.value in visited {
      return visited, [];
    }
    var u := node.value;
    visited' := visited + {u};
    order := [u];
    ReachableRefl(g, visited, u);
    var i := 0;
    while i < |g[u]|
      invariant 0 <= i <= |g[u]|
      invariant visited + {u} <= visited'
      invariant Distinct(order) && |order| > 0 && order[0] == u
      invariant forall v :: v in order <==> v in visited' && v !in visited
      invariant forall v :: v in visited' && v !in visited ==> ReachableAvoiding(g, visited, u, v)
      invariant forall x :: x in g[u][..i] ==> x in visited'
      invariant ClosedOutside(g, visited', visited + {u})
    {
      var w := g[u][i];
      assert |Range(|g|) - visited'| < |Range(|g|) - visited| by {
        SubsetCardinality(Range(|g|) - visited', Range(|g|) - visited);
        assert u in Range(|g|) - visited;
      }
      var more, sub := Dfs(g, Some(w), visited');
      DfsChild(g, visited, visited', more, u, w);
      DistinctConcat(order, sub);
      TakeSnoc(g[u], i);
      forall x | x in g[u][..i + 1] ensures x in more {
        InAppend(g[u][..i], [w], x);
      }
      order := order + sub;
      visited' := more;
      i := i + 1;
    }
    assert g[u][..i] == g[u];
    DfsClosed(g, visited, visited', u);
  }

  /** Every vertex listed in `vs` is reachable from `s`. */
  ghost predicate AllReachable(g: seq<seq<nat>>, s: nat, vs: seq<nat>) {
    forall k :: 0 <= k < |vs| ==> vs[k] < |g| && Reachable(g, s, vs[k])
  }

  /** Every neighbour of a visited vertex is visited or waits on the stack. */
  ghost predicate Frontier(g: seq<seq<nat>>, visited: set<nat>, stack: seq<nat>) {
    forall u, k :: u in visited && u < |g| && 0 <= k < |g[u]| ==> g[u][k] in visited || g[u][k] in stack
  }

  /** What holds of `dfsIterative`'s state each time its loop is entered. */
  ghost predicate DfsState(g: seq<seq<nat>>, s: nat, order: seq<nat>, stack: seq<nat>, visited: set<nat>) {
    && (forall v :: v in visited <==> v in order)
    && Distinct(order)
    && (order == [] ==> stack == [s])
    && (order != [] ==> order[0] == s)
    && AllReachable(g, s, order)
    && AllReachable(g, s, stack)
    && Frontier(g, visited, stack)
  }

  /**
   * Depth-first search with an explicit stack from `start` (None stands for
   * a null node): prints each vertex reachable from `start` exactly once,
   * starting with `start`.
   */
  method DfsIterative(g: seq<seq<nat>>, start: Option<nat>) returns (order: seq<nat>)
    requires WellFormed(g)
    requires start.Some? ==> start.value < |g|
    ensures start.None? ==> order == []
    ensures start.Some? ==> |order| > 0 && order[0] == start.value
    ensures Distinct(order)
    ensures start.Some? ==> forall v :: v in order <==> Reachable(g, start.value, v)
  {
    if start.None? {
      return [];
    }
    var s := start.value;
    var visited: set<nat> := {};
    var stack: seq<nat> := [s];
    order := [];
    ReachableRefl(g, {}, s);
    while stack != []
      invariant DfsState(g, s, order, stack, visited)
      decreases |g| - |order|, |stack|
    {
      DfsStateBound(g, s, order, stack, visited);
      ghost var before := stack;
      var u := stack[|stack| - 1];
      stack := stack[..|stack| - 1];
      if u !in visited {
        DfsVisitStep(g, s, order, before, visited);
        visited := visited + {u};
        stack := PushUnvisited(g[u], visited, stack);
        order := order + [u];
      } else {
        DfsSkipStep(g, s, order, before, visited);
      }
    }
    DfsStateComplete(g, s, order, visited);
  }

  lemma DfsStateBound(g: seq<seq<nat>>, s: nat, order: seq<nat>, stack: seq<nat>, visited: set<nat>)
    requires DfsState(g, s, order, stack, visited)
    ensures |order| <= |g|
  {
    DistinctVertices(order, |g|);
  }

  /** Popping an already visited vertex keeps the state. */
  lemma DfsSkipStep(g: seq<seq<nat>>, s: nat, order: seq<nat>, stack: seq<nat>, visited: set<nat>)
    requires DfsState(g, s, order, stack, visited) && stack != [] && stack[|stack| - 1] in visited
    ensures DfsState(g, s, order, stack[..|stack| - 1], visited)
  {
    var u := stack[|stack| - 1];
    var popped := stack[..|stack| - 1];
    assert stack == popped + [u];
    forall w, k | w in visited && w < |g| && 0 <= k < |g[w]| ensures g[w][k] in visited || g[w][k] in popped {
      InAppend(popped, [u], g[w][k]);
    }
  }

  /** Visiting a popped vertex and pushing its unvisited neighbours keeps the state. */
  lemma DfsVisitStep(g: seq<seq<nat>>, s: nat, order: seq<nat>, stack: seq<nat>, visited: set<nat>)
    requires WellFormed(g)
    requires DfsState(g, s, order, stack, visited) && stack != [] && stack[|stack| - 1] !in visited
    ensures stack[|stack| - 1] < |g|
    ensures var u := stack[|stack| - 1];
            DfsState(g, s, order + [u], stack[..|stack| - 1] + Unvisited(g[u], visited + {u}), visited + {u})
  {
    var u := stack[|stack| - 1];
    var popped := stack[..|stack| - 1];
    assert stack == popped + [u];
    assert u < |g| && Reachable(g, s, u);
    var pushed := Unvisited(g[u], visited + {u});
    DistinctConcat(order, [u]);
    assert order == [] ==> popped == [];
    assert AllReachable(g, s, order + [u]) by {
      forall k | 0 <= k < |order + [u]| ensures (order + [u])[k] < |g| && Reachable(g, s, (order + [u])[k]) {
        if k < |order| {
          assert (order + [u])[k] == order[k];
        }
      }
    }
    assert AllReachable(g, s, popped + pushed) by {
      forall k | 0 <= k < |popped + pushed| ensures (popped + pushed)[k] < |g| && Reachable(g, s, (popped + pushed)[k]) {
        if k < |popped| {
          assert (popped + pushed)[k] == stack[k];
        } else {
          var v := pushed[k - |popped|];
          assert (popped + pushed)[k] == v;
          assert v in pushed;
          assert Edge(g, u, v);
          ReachableStep(g, {}, s, u, v);
        }
      }
    }
    forall w, k | w in visited + {u} && w < |g| && 0 <= k < |g[w]|
      ensures g[w][k] in visited + {u} || g[w][k] in popped + pushed
    {
      InAppend(popped, pushed, g[w][k]);
      if w != u {
        InAppend(popped, [u], g[w][k]);
      }
    }
  }

  /** When the stack runs empty, everything reachable has been visited. */
  lemma DfsStateComplete(g: seq<seq<nat>>, s: nat, order: seq<nat>, visited: set<nat>)
    requires DfsState(g, s, order, [], visited)
    ensures forall v :: v in order <==> Reachable(g, s, v)
  {
    assert s in visited;
    forall t | Reachable(g, s, t) ensures t in visited {
      ClosedSetHoldsReachable(g, {}, visited, s, t);
    }
    forall v | v in order ensures Reachable(g, s, v) {
      var k :| 0 <= k < |order| && order[k] == v;
    }
  }

  /** What holds of `bfs`'s state each time its loop is entered. */
  ghost predicate BfsState(g: seq<seq<nat>>, s: nat, order: seq<nat>, queue: seq<nat>, visited: set<nat>) {
    && (forall v :: v in visited <==> v in order + queue)
    && Distinct(order + queue)
    && |order + queue| > 0 && (order + queue)[0] == s
    && AllReachable(g, s, order + queue)
    && (forall u, k :: u in order && u < |g| && 0 <= k < |g[u]| ==> g[u][k] in visited)
  }

  /**
   * Breadth-first search from `start` (None stands for a null node): a
   * vertex is marked when it is queued, and each vertex reachable from
   * `start` is printed exactly once, starting with `start`.
   */
  method Bfs(g: seq<seq<nat>>, start: Option<nat>) returns (order: seq<nat>)
    requires WellFormed(g)
    requires start.Some? ==> start.value < |g|
    ensures start.None? ==> order == []
    ensures start.Some? ==> |order| > 0 && order[0] == start.value
    ensures Distinct(order)
    ensures start.Some? ==> forall v :: v in order <==> Reachable(g, start.value, v)
    ensures start.Some? ==> LevelOrder(g, start.value, order)
  {
    if start.None? {
      return [];
    }
    var s := start.value;
    var queue: seq<nat> := [s];
    var visited: set<nat> := {s};
    order := [];
    ReachableRefl(g, {}, s);
    ghost var lv: seq<nat> := [0];
    BfsInvStart(g, s, order, queue, visited, lv);
    while queue != []
      invariant BfsInv(g, s, order, queue, visited, lv)
      decreases |g| - |order|
    {
      BfsInvBound(g, s, order, queue, visited, lv);
      var u := queue[0];
      var visited', queue' := EnqueueUnvisited(g[u], visited, queue[1..]);
      lv := BfsAdvance(g, s, order, queue, visited, lv, visited', queue');
      order, queue, visited := order + [u], queue', visited';
    }
    BfsInvDone(g, s, order, visited, lv);
  }

  /** The loop invariant of `bfs`: the queue state and the distances of the vertices met. */
  ghost predicate BfsInv(g: seq<seq<nat>>, s: nat, order: seq<nat>, queue: seq<nat>, visited: set<nat>, lv: seq<nat>) {
    BfsState(g, s, order, queue, visited) && BfsLevels(g, s, order + queue, lv, |order|)
  }

  lemma BfsInvStart(g: seq<seq<nat>>, s: nat, order: seq<nat>, queue: seq<nat>, visited: set<nat>, lv: seq<nat>)
    requires order == [] && queue == [s] && visited == {s} && lv == [0]
    requires Reachable(g, s, s) && s < |g|
    ensures BfsInv(g, s, order, queue, visited, lv)
  {
    assert order + queue == [s];
    BfsLevelsStart(g, s, order + queue, lv);
  }

  lemma BfsInvBound(g: seq<seq<nat>>, s: nat, order: seq<nat>, queue: seq<nat>, visited: set<nat>, lv: seq<nat>)
    requires BfsInv(g, s, order, queue, visited, lv) && queue != []
    ensures |order| < |g| && queue[0] < |g| && queue[0] in visited
  {
    BfsStateBound(g, s, order, queue, visited);
    assert (order + queue)[|order|] == queue[0];
  }

  /** Dequeuing the head and queueing its unmarked neighbours, marked at once, keeps the invariant. */
  lemma BfsAdvance(g: seq<seq<nat>>, s: nat, order: seq<nat>, queue: seq<nat>, visited: set<nat>, lv: seq<nat>,
                   visited': set<nat>, queue': seq<nat>) returns (lv': seq<nat>)
    requires WellFormed(g) && BfsInv(g, s, order, queue, visited, lv) && queue != [] && queue[0] < |g|
    requires forall x :: x in visited' <==> x in visited || x in g[queue[0]]
    requires queue' == queue[1..] + Fresh(g[queue[0]], visited)
    ensures BfsInv(g, s, order + [queue[0]], queue', visited', lv')
  {
    var u, rest := queue[0], queue[1..];
    var added := Fresh(g[u], visited);
    assert queue == [u] + rest;
    assert queue' == rest + added;
    BfsStep(g, s, order, u, rest, visited, visited');
    BfsLevelsStep(g, s, order, u, rest, visited, lv);
    lv' := lv + Levels(lv[|order|] + 1, |added|);
    assert BfsState(g, s, order + [u], queue', visited');
    assert BfsLevels(g, s, (order + [u]) + queue', lv', |order| + 1);
  }

  lemma BfsInvDone(g: seq<seq<nat>>, s: nat, order: seq<nat>, visited: set<nat>, lv: seq<nat>)
    requires BfsInv(g, s, order, [], visited, lv)
    ensures |order| > 0 && order[0] == s && Distinct(order)
    ensures forall v :: v in order <==> Reachable(g, s, v)
    ensures LevelOrder(g, s, order)
  {
    BfsStateComplete(g, s, order, visited);
    BfsLevelsOrder(g, s, order, lv);
  }

  lemma BfsStateBound(g: seq<seq<nat>>, s: nat, order: seq<nat>, queue: seq<nat>, visited: set<nat>)
    requires BfsState(g, s, order, queue, visited) && queue != []
    ensures |order| < |g|
  {
    DistinctVertices(order + queue, |g|);
  }

  /** Dequeuing `u` and queueing its unmarked neighbours keeps the state. */
  lemma BfsStep(g: seq<seq<nat>>, s: nat, order: seq<nat>, u: nat, rest: seq<nat>, visited: set<nat>,
                visited': set<nat>)
    requires WellFormed(g) && u < |g|
    requires BfsState(g, s, order, [u] + rest, visited)
    requires forall x :: x in visited' <==> x in visited || x in g[u]
    ensures BfsState(g, s, order + [u], rest + Fresh(g[u], visited), visited')
  {
    var added := Fresh(g[u], visited);
    var before := order + ([u] + rest);
    var after := (order + [u]) + (rest + added);
    AppendAssoc(order + [u], rest, added);
    AppendAssoc(order, [u], rest);
    assert after == before + added;
    assert before[|order|] == u;
    DistinctConcat(before, added);
    assert AllReachable(g, s, after) by {
      forall k | 0 <= k < |after| ensures after[k] < |g| && Reachable(g, s, after[k]) {
        if k < |before| {
          assert after[k] == before[k];
        } else {
          var v := added[k - |before|];
          assert after[k] == v && v in added;
          assert Edge(g, u, v);
          ReachableStep(g, {}, s, u, v);
        }
      }
    }
    forall v ensures v in visited' <==> v in after {
      InAppend(before, added, v);
    }
    forall w, k | w in order + [u] && w < |g| && 0 <= k < |g[w]| ensures g[w][k] in visited' {
      InAppend(order, [u], w);
      if w == u {
        assert g[u][k] in g[u];
      }
    }
  }

  /** When the queue runs empty, everything reachable has been printed. */
  lemma BfsStateComplete(g: seq<seq<nat>>, s: nat, order: seq<nat>, visited: set<nat>)
    requires BfsState(g, s, order, [], visited)
    ensures |order| > 0 && order[0] == s && Distinct(order)
    ensures forall v :: v in order <==> Reachable(g, s, v)
  {
    assert order + [] == order;
    assert s in visited;
    forall t | Reachable(g, s, t) ensures t in visited {
      ClosedSetHoldsReachable(g, {}, visited, s, t);
    }
    forall v | v in order ensures Reachable(g, s, v) {
      var k :| 0 <= k < |order| && order[k] == v;
    }
  }

  /**
   * Breadth-first order: no vertex comes after one that is closer to `s`,
   * so a walk of `d` edges to a later vertex means one of at most `d`
   * edges to every earlier one.
   */
  ghost predicate LevelOrder(g: seq<seq<nat>>, s: nat, order: seq<nat>) {
    forall i, j, d :: 0 <= i < j < |order| && Within(g, s, order[j], d) ==> Within(g, s, order[i], d)
  }

  /**
   * The distances `lv` of the printed-then-queued vertices `l`, `o` of
   * them printed: each is exact, they never decrease, the queue spans at
   * most two adjacent distances, and everything closer than the head of
   * the queue is already printed.
   */
  ghost predicate BfsLevels(g: seq<seq<nat>>, s: nat, l: seq<nat>, lv: seq<nat>, o: nat) {
    && |lv| == |l| && o <= |l|
    && (forall k :: 0 <= k < |l| ==> AtDistance(g, s, l[k], lv[k]))
    && (forall i, j :: 0 <= i <= j < |l| ==> lv[i] <= lv[j])
    && (o < |l| ==> lv[|l| - 1] <= lv[o] + 1)
    && (o < |l| ==> forall t, d :: d < lv[o] && Within(g, s, t, d) ==> t in l[..o])
  }

  lemma BfsLevelsStart(g: seq<seq<nat>>, s: nat, l: seq<nat>, lv: seq<nat>)
    requires l == [s] && lv == [0]
    ensures BfsLevels(g, s, l, lv, 0)
  {
    WithinStart(g, s);
  }

  /** A neighbour of the head `u` not yet marked is exactly one step farther than `u`. */
  lemma BfsLevelsFresh(g: seq<seq<nat>>, s: nat, order: seq<nat>, u: nat, rest: seq<nat>, visited: set<nat>,
                       lv: seq<nat>, w: nat)
    requires BfsState(g, s, order, [u] + rest, visited)
    requires BfsLevels(g, s, order + ([u] + rest), lv, |order|)
    requires Edge(g, u, w) && w !in visited
    ensures AtDistance(g, s, w, lv[|order|] + 1)
  {
    var l := order + ([u] + rest);
    var dist := lv[|order|];
    assert l[|order|] == u && l[0] == s;
    WithinStep(g, s, u, w, dist);
    assert l[..|order|] == order;
    if Within(g, s, w, dist) {
      assert w != s;
      var y := WithinLast(g, s, w, dist);
      assert false;
    }
  }

  /** After dequeuing `u` at distance D, every vertex at distance D has been dequeued once the head is farther. */
  lemma BfsLevelsFront(g: seq<seq<nat>>, s: nat, order: seq<nat>, u: nat, rest: seq<nat>, visited: set<nat>,
                       lv: seq<nat>, t: nat)
    requires BfsState(g, s, order, [u] + rest, visited)
    requires BfsLevels(g, s, order + ([u] + rest), lv, |order|)
    requires rest != [] ==> lv[|order| + 1] > lv[|order|]
    requires AtDistance(g, s, t, lv[|order|])
    ensures t in order + [u]
  {
    var l := order + ([u] + rest);
    var o := |order|;
    var dist := lv[o];
    assert l[o] == u && l[0] == s;
    assert l[..o + 1] == order + [u];
    if t != s {
      var y := WithinLast(g, s, t, dist);
      assert y in l[..o] && l[..o] == order;
      var k :| 0 <= k < |g[y]| && g[y][k] == t;
      assert t in l;
      var j :| 0 <= j < |l| && l[j] == t;
      DistanceAtMost(g, s, t, lv[j], dist);
      DistanceAtMost(g, s, t, dist, lv[j]);
      assert j <= o;
      assert l[j] in l[..o + 1];
    }
  }

  /** Dequeuing `u` and queueing its unmarked neighbours one step farther keeps the distances. */
  lemma BfsLevelsStep(g: seq<seq<nat>>, s: nat, order: seq<nat>, u: nat, rest: seq<nat>, visited: set<nat>,
                      lv: seq<nat>)
    requires BfsState(g, s, order, [u] + rest, visited)
    requires BfsLevels(g, s, order + ([u] + rest), lv, |order|)
    ensures var added := Fresh(g[u], visited);
            BfsLevels(g, s, (order + [u]) + (rest + added), lv + Levels(lv[|order|] + 1, |added|), |order| + 1)
  {
    var added := Fresh(g[u], visited);
    var dist := lv[|order|];
    var l := order + ([u] + rest);
    BfsLevelsFreshAll(g, s, order, u, rest, visited, lv);
    if |order| + 1 < |l + added| {
      BfsLevelsNearAll(g, s, order, u, rest, visited, lv, added);
    }
    LevelsExtend(g, s, l, lv, |order|, added, dist);
    AppendAssoc(order + [u], rest, added);
    AppendAssoc(order, [u], rest);
  }

  lemma BfsLevelsFreshAll(g: seq<seq<nat>>, s: nat, order: seq<nat>, u: nat, rest: seq<nat>, visited: set<nat>,
                          lv: seq<nat>)
    requires BfsState(g, s, order, [u] + rest, visited)
    requires BfsLevels(g, s, order + ([u] + rest), lv, |order|)
    ensures u < |g| && forall w :: w in Fresh(g[u], visited) ==> AtDistance(g, s, w, lv[|order|] + 1)
  {
    assert (order + ([u] + rest))[|order|] == u;
    forall w | w in Fresh(g[u], visited) ensures AtDistance(g, s, w, lv[|order|] + 1) {
      BfsLevelsFresh(g, s, order, u, rest, visited, lv, w);
    }
  }

  lemma BfsLevelsNearAll(g: seq<seq<nat>>, s: nat, order: seq<nat>, u: nat, rest: seq<nat>, visited: set<nat>,
                         lv: seq<nat>, added: seq<nat>)
    requires BfsState(g, s, order, [u] + rest, visited)
    requires BfsLevels(g, s, order + ([u] + rest), lv, |order|)
    requires |order| + 1 < |order + ([u] + rest) + added|
    ensures var l := order + ([u] + rest);
            var lv' := lv + Levels(lv[|order|] + 1, |added|);
            forall t, d :: d < lv'[|order| + 1] && Within(g, s, t, d) ==> t in l[..|order| + 1]
  {
    var l := order + ([u] + rest);
    var dist := lv[|order|];
    var lv' := lv + Levels(dist + 1, |added|);
    assert lv'[|order| + 1] <= dist + 1 by {
      if |order| + 1 < |l| {
        assert lv'[|order| + 1] == lv[|order| + 1] <= lv[|l| - 1];
      }
    }
    assert rest != [] ==> lv'[|order| + 1] == lv[|order| + 1];
    assert l[..|order| + 1] == order + [u];
    forall t, d | d < lv'[|order| + 1] && Within(g, s, t, d) ensures t in l[..|order| + 1] {
      BfsLevelsNear(g, s, order, u, rest, visited, lv, lv'[|order| + 1], t, d);
    }
  }

  /** `n` copies of the distance `d`. */
  function Levels(d: nat, n: nat): (r: seq<nat>)
    ensures |r| == n && forall k :: 0 <= k < n ==> r[k] == d
  {
    if n == 0 then [] else Levels(d, n - 1) + [d]
  }

  /** Appending vertices one step beyond the head, and dequeuing the head, keeps the distances. */
  lemma LevelsExtend(g: seq<seq<nat>>, s: nat, l: seq<nat>, lv: seq<nat>, o: nat, added: seq<nat>, dist: nat)
    requires BfsLevels(g, s, l, lv, o) && o < |l| && lv[o] == dist
    requires forall w :: w in added ==> AtDistance(g, s, w, dist + 1)
    requires var lv' := lv + Levels(dist + 1, |added|);
             o + 1 < |l + added| ==> forall t, d :: d < lv'[o + 1] && Within(g, s, t, d) ==> t in l[..o + 1]
    ensures BfsLevels(g, s, l + added, lv + Levels(dist + 1, |added|), o + 1)
  {
    var l' := l + added;
    var lv' := lv + Levels(dist + 1, |added|);
    forall k | 0 <= k < |l'|
      ensures k < |l| ==> l'[k] == l[k] && lv'[k] == lv[k]
      ensures k >= |l| ==> l'[k] == added[k - |l|] && lv'[k] == dist + 1
    {
    }
    forall k | 0 <= k < |l'| ensures AtDistance(g, s, l'[k], lv'[k]) {
      if k >= |l| {
        assert added[k - |l|] in added;
      }
    }
    forall i, j | 0 <= i <= j < |l'| ensures lv'[i] <= lv'[j] {
      if j < |l| {
        assert lv[i] <= lv[j];
      } else if i < |l| {
        assert lv[i] <= lv[|l| - 1];
      }
    }
    assert lv'[|l'| - 1] <= dist + 1;
    if o + 1 < |l'| {
      assert l'[..o + 1] == l[..o + 1];
    }
  }

  /** A vertex closer than the new head of the queue has been dequeued. */
  lemma BfsLevelsNear(g: seq<seq<nat>>, s: nat, order: seq<nat>, u: nat, rest: seq<nat>, visited: set<nat>,
                      lv: seq<nat>, head: nat, t: nat, d: nat)
    requires BfsState(g, s, order, [u] + rest, visited)
    requires BfsLevels(g, s, order + ([u] + rest), lv, |order|)
    requires lv[|order|] <= head <= lv[|order|] + 1
    requires rest != [] ==> lv[|order| + 1] == head
    requires d < head && Within(g, s, t, d)
    ensures t in order + [u]
  {
    var l := order + ([u] + rest);
    var dist := lv[|order|];
    assert l[..|order|] == order;
    if d < dist || (dist > 0 && Within(g, s, t, dist - 1)) {
      if d >= dist {
        assert Within(g, s, t, dist - 1);
      }
      assert t in order;
    } else {
      WithinMore(g, s, t, d, dist);
      BfsLevelsFront(g, s, order, u, rest, visited, lv, t);
    }
  }

  /** With the queue empty, the distances of the printed vertices never decrease. */
  lemma BfsLevelsOrder(g: seq<seq<nat>>, s: nat, order: seq<nat>, lv: seq<nat>)
    requires BfsLevels(g, s, order + [], lv, |order|)
    ensures LevelOrder(g, s, order)
  {
    assert order + [] == order;
    forall i, j, d | 0 <= i < j < |order| && Within(g, s, order[j], d) ensures Within(g, s, order[i], d) {
      DistanceAtMost(g, s, order[j], lv[j], d);
      WithinMore(g, s, order[i], lv[i], d);
    }
  }

  /** The stack-pushing loop of `dfsIterative`: pushes every unvisited neighbour in list order. */
  method PushUnvisited(ns: seq<nat>, visited: set<nat>, stack: seq<nat>) returns (stack': seq<nat>)
    ensures stack' == stack + Unvisited(ns, visited)
  {
    stack' := stack;
    for i := 0 to |ns|
      invariant stack' == stack + Unvisited(ns[..i], visited)
    {
      assert ns[..i + 1] == ns[..i] + [ns[i]];
      UnvisitedSnoc(ns[..i], ns[i], visited);
      if ns[i] !in visited {
        stack' := stack' + [ns[i]];
      }
    }
    assert ns[..|ns|] == ns;
  }

  /**
   * The queueing loop of `bfs`: queues and marks each unmarked neighbour,
   * so a neighbour listed twice is queued once.
   */
  method EnqueueUnvisited(ns: seq<nat>, visited: set<nat>, queue: seq<nat>)
      returns (visited': set<nat>, queue': seq<nat>)
    ensures queue' == queue + Fresh(ns, visited)
    ensures forall x :: x in visited' <==> x in visited || x in ns
  {
    visited', queue' := visited, queue;
    for i := 0 to |ns|
      invariant queue' == queue + Fresh(ns[..i], visited)
      invariant forall x :: x in visited' <==> x in visited || x in ns[..i]
    {
      var v := ns[i];
      assert ns[..i + 1] == ns[..i] + [v];
      FreshSnoc(ns[..i], v, visited);
      if v !in visited' {
        queue' := queue' + [v];
        visited' := visited' + {v};
      }
    }
    assert ns[..|ns|] == ns;
  }

  /** The vertices a recursive call marks from a neighbour `w` of `u` are reachable from `u`. */
  lemma DfsChild(g: seq<seq<nat>>, visited: set<nat>, visited': set<nat>, more: set<nat>, u: nat, w: nat)
    requires u !in visited && u in visited' && visited <= visited' && Edge(g, u, w)
    requires forall v :: v in visited' && v !in visited ==> ReachableAvoiding(g, visited, u, v)
    requires visited' <= more
    requires forall v :: v in more && v !in visited' ==> ReachableAvoiding(g, visited', w, v)
    ensures forall v :: v in more && v !in visited ==> ReachableAvoiding(g, visited, u, v)
  {
    forall v | v in more && v !in visited' ensures ReachableAvoiding(g, visited, u, v) {
      ReachableEndpoints(g, visited', w, v);
      EdgeReachable(g, visited, u, w);
      ReachableTrans(g, visited, visited', u, w, v);
    }
  }

  /**
   * Once every neighbour of `u` is marked, the vertices marked since
   * `visited` hold everything reachable from `u` without entering `visited`.
   */
  lemma DfsClosed(g: seq<seq<nat>>, visited: set<nat>, visited': set<nat>, u: nat)
    requires u in visited' && u !in visited && u < |g|
    requires forall x :: x in g[u] ==> x in visited'
    requires ClosedOutside(g, visited', visited + {u})
    ensures ClosedOutside(g, visited', visited)
    ensures forall t :: ReachableAvoiding(g, visited, u, t) ==> t in visited' && t !in visited
  {
    forall t | ReachableAvoiding(g, visited, u, t) ensures t in visited' && t !in visited {
      ClosedSetHoldsReachable(g, visited, visited', u, t);
      ReachableEndpoints(g, visited, u, t);
    }
  }

  // ---------------------------------------------------------------------------
  // Graphs given by a vertex count and an edge list
  // ---------------------------------------------------------------------------

  /** Both endpoints of every edge are among the vertices 0..n-1. */
  ghost predicate ValidEdges(n: nat, edges: seq<(nat, nat)>) {
    forall k :: 0 <= k < |edges| ==> edges[k].0 < n && edges[k].1 < n
  }

  /** Adjacency lists of the directed graph: edge (a, b) lists `b` under `a`, in edge order. */
  function Directed(n: nat, edges: seq<(nat, nat)>): (g: seq<seq<nat>>)
    requires ValidEdges(n, edges)
    ensures |g| == n && WellFormed(g)
  {
    if edges == [] then seq(n, _ => [])
    else
      var e := edges[|edges| - 1];
      var g := Directed(n, edges[..|edges| - 1]);
      g[e.0 := g[e.0] + [e.1]]
  }

  /** `v` is listed under `u` once per edge (u, v). */
  lemma {:induction false} DirectedCount(n: nat, edges: seq<(nat, nat)>, u: nat, v: nat)
    requires ValidEdges(n, edges) && u < n
    ensures multiset(Directed(n, edges)[u])[v] == Count(edges, (u, v))
  {
    if edges != [] {
      DirectedCount(n, edges[..|edges| - 1], u, v);
    }
  }

  lemma DirectedSnoc(n: nat, edges: seq<(nat, nat)>, e: (nat, nat))
    requires ValidEdges(n, edges + [e])
    ensures ValidEdges(n, edges) && e.0 < n
    ensures Directed(n, edges + [e]) == Directed(n, edges)[e.0 := Directed(n, edges)[e.0] + [e.1]]
  {
    assert (edges + [e])[|edges|] == e;
    assert (edges + [e])[..|edges|] == edges;
  }

  /** Number of edges into `v` whose source is not in `done`. */
  function InDegree(edges: seq<(nat, nat)>, done: set<nat>, v: nat): nat {
    if edges == [] then 0
    else
      var e := edges[|edges| - 1];
      InDegree(edges[..|edges| - 1], done, v) + (if e.1 == v && e.0 !in done then 1 else 0)
  }

  lemma InDegreeSnoc(edges: seq<(nat, nat)>, e: (nat, nat), done: set<nat>, v: nat)
    ensures InDegree(edges + [e], done, v) == InDegree(edges, done, v) + (if e.1 == v && e.0 !in done then 1 else 0)
  {
    assert (edges + [e])[..|edges|] == edges;
  }

  /** Removing `u` from the graph removes exactly the edges (u, v) from the in-degree of `v`. */
  lemma {:induction false} InDegreeRemove(edges: seq<(nat, nat)>, done: set<nat>, u: nat, v: nat)
    requires u !in done
    ensures InDegree(edges, done, v) == InDegree(edges, done + {u}, v) + Count(edges, (u, v))
  {
    if edges != [] {
      InDegreeRemove(edges[..|edges| - 1], done, u, v);
    }
  }

  /** The in-degree is zero exactly when every edge into `v` starts in `done`. */
  lemma {:induction false} InDegreeZero(edges: seq<(nat, nat)>, done: set<nat>, v: nat)
    ensures InDegree(edges, done, v) == 0 <==>
              forall k :: 0 <= k < |edges| && edges[k].1 == v ==> edges[k].0 in done
  {
    if edges != [] {
      var p := edges[..|edges| - 1];
      InDegreeZero(p, done, v);
      assert forall k :: 0 <= k < |p| ==> p[k] == edges[k];
    }
  }

  /** Every edge into a vertex of `done` starts in `done`. */
  ghost predicate SourcesDone(edges: seq<(nat, nat)>, done: set<nat>) {
    forall k :: 0 <= k < |edges| && edges[k].1 in done ==> edges[k].0 in done
  }

  /** Every edge between two listed vertices points forward in the list. */
  ghost predicate Respects(edges: seq<(nat, nat)>, order: seq<nat>) {
    forall i, j :: 0 <= i < |order| && 0 <= j < |order| && (order[i], order[j]) in edges ==> i < j
  }

  /** Each vertex 0..n-1 exactly once, every edge pointing forward. */
  ghost predicate IsTopologicalOrder(n: nat, edges: seq<(nat, nat)>, order: seq<nat>) {
    && |order| == n
    && Distinct(order)
    && (forall v: nat :: v in order <==> v < n)
    && Respects(edges, order)
  }

  /** A closed walk along at least one edge. */
  ghost predicate IsDirectedCycle(edges: seq<(nat, nat)>, c: seq<nat>) {
    |c| >= 2 && c[0] == c[|c| - 1] && forall i :: 0 <= i < |c| - 1 ==> (c[i], c[i + 1]) in edges
  }

  ghost predicate HasDirectedCycle(edges: seq<(nat, nat)>) {
    exists c :: IsDirectedCycle(edges, c)
  }

  /** The emitted vertices: each once, all in range, no edge into them from outside, every edge among them forward. */
  ghost predicate Emitted(n: nat, edges: seq<(nat, nat)>, result: seq<nat>, done: set<nat>) {
    && (forall v :: v in done <==> v in result)
    && Distinct(result)
    && (forall k :: 0 <= k < |result| ==> result[k] < n)
    && SourcesDone(edges, done)
    && Respects(edges, result)
  }

  /**
   * `indeg[v]` counts the edges into `v` from vertices not yet emitted, plus
   * the occurrences of `v` in `pending`, the neighbours of the last emitted
   * vertex still to be released.
   */
  ghost predicate Counted(n: nat, edges: seq<(nat, nat)>, indeg: seq<int>, done: set<nat>, pending: seq<nat>) {
    && |indeg| == n
    && (forall x :: x in pending ==> x < n && x !in done)
    && (forall v: nat :: v < n ==> indeg[v] == InDegree(edges, done, v) + multiset(pending)[v])
  }

  /** The queue holds exactly the unemitted vertices whose count has dropped to zero, each once. */
  ghost predicate Queued(n: nat, indeg: seq<int>, queue: seq<nat>, done: set<nat>)
    requires |indeg| == n
  {
    Distinct(queue) && forall v: nat :: v in queue <==> v < n && v !in done && indeg[v] == 0
  }

  /** The state of Kahn's loop. */
  ghost predicate KahnState(n: nat, edges: seq<(nat, nat)>, indeg: seq<int>, queue: seq<nat>,
                            result: seq<nat>, done: set<nat>, pending: seq<nat>) {
    Emitted(n, edges, result, done) && Counted(n, edges, indeg, done, pending) && Queued(n, indeg, queue, done)
  }

  /**
   * Kahn's algorithm. It returns the vertices in an order in which every
   * edge points forward, or the empty list when the graph has a cycle and
   * not every vertex can be emitted.
   */
  method TopologicalSort(n: nat, edges: seq<(nat, nat)>) returns (order: seq<nat>)
    requires ValidEdges(n, edges)
    ensures HasDirectedCycle(edges) ==> order == []
    ensures !HasDirectedCycle(edges) ==> IsTopologicalOrder(n, edges, order)
  {
    var g, indegree := BuildDirected(n, edges);
    var queue := ZeroInDegree(indegree);
    var result: seq<nat> := [];
    ghost var done: set<nat> := {};
    while queue != []
      invariant KahnState(n, edges, indegree[..], queue, result, done, [])
      decreases n - |result|
    {
      KahnBound(n, edges, indegree[..], queue, result, done);
      var u := queue[0];
      KahnDequeue(n, edges, indegree[..], queue, result, done);
      result := result + [u];
      done := done + {u};
      queue := ReleaseNeighbours(n, edges, g[u], indegree, queue[1..], result, done);
    }

    if |result| == n {
      KahnComplete(n, edges, result, done);
      order := result;
    } else {
      DistinctVertices(result, n);
      KahnStuck(n, edges, indegree[..], result, done);
      order := [];
    }
  }

  /** Adjacency lists and in-degrees of the directed graph on 0..n-1 with the given edges. */
  method BuildDirected(n: nat, edges: seq<(nat, nat)>) returns (g: seq<seq<nat>>, indegree: array<int>)
    requires ValidEdges(n, edges)
    ensures fresh(indegree) && indegree.Length == n
    ensures g == Directed(n, edges)
    ensures forall v :: 0 <= v < n ==> indegree[v] == InDegree(edges, {}, v)
  {
    g := seq(n, _ => []);
    indegree := new int[n](_ => 0);
    for k := 0 to |edges|
      invariant ValidEdges(n, edges[..k])
      invariant g == Directed(n, edges[..k])
      invariant forall v :: 0 <= v < n ==> indegree[v] == InDegree(edges[..k], {}, v)
    {
      var (a, b) := edges[k];
      TakeSnoc(edges, k);
      DirectedSnoc(n, edges[..k], edges[k]);
      forall v | 0 <= v < n ensures InDegree(edges[..k + 1], {}, v) == InDegree(edges[..k], {}, v) + (if v == b then 1 else 0) {
        InDegreeSnoc(edges[..k], edges[k], {}, v);
      }
      g := g[a := g[a] + [b]];
      indegree[b] := indegree[b] + 1;
    }
    assert edges[..|edges|] == edges;
  }

  /** The vertices of in-degree zero, in increasing order. */
  method ZeroInDegree(indegree: array<int>) returns (queue: seq<nat>)
    ensures Distinct(queue)
    ensures forall v: nat :: v in queue <==> v < indegree.Length && indegree[v] == 0
  {
    queue := [];
    for i := 0 to indegree.Length
      invariant Distinct(queue)
      invariant forall v: nat :: v in queue <==> v < i && indegree[v] == 0
    {
      if indegree[i] == 0 {
        DistinctConcat(queue, [i]);
        queue := queue + [i];
      }
    }
  }

  /**
   * The inner loop of Kahn's algorithm: decrement the in-degree of every
   * neighbour of the vertex just emitted, queueing those that reach zero.
   */
  method ReleaseNeighbours(n: nat, edges: seq<(nat, nat)>, ns: seq<nat>, indegree: array<int>, queue: seq<nat>,
                           ghost result: seq<nat>, ghost done: set<nat>) returns (queue': seq<nat>)
    requires indegree.Length == n
    requires KahnState(n, edges, indegree[..], queue, result, done, ns)
    modifies indegree
    ensures KahnState(n, edges, indegree[..], queue', result, done, [])
  {
    queue' := queue;
    for j := 0 to |ns|
      invariant KahnState(n, edges, indegree[..], queue', result, done, ns[j..])
    {
      var v := ns[j];
      DropCons(ns, j);
      KahnRelease(n, edges, indegree[..], queue', result, done, ns[j..]);
      indegree[v] := indegree[v] - 1;
      if indegree[v] == 0 {
        queue' := queue' + [v];
      }
    }
  }

  lemma KahnBound(n: nat, edges: seq<(nat, nat)>, indeg: seq<int>, queue: seq<nat>, result: seq<nat>, done: set<nat>)
    requires KahnState(n, edges, indeg, queue, result, done, []) && queue != []
    ensures |result| < n
  {
    var u := queue[0];
    assert u in queue;
    DistinctConcat(result, [u]);
    DistinctVertices(result + [u], n);
  }

  /** Every listed neighbour comes from an edge. */
  lemma DirectedEdge(n: nat, edges: seq<(nat, nat)>, u: nat, x: nat)
    requires ValidEdges(n, edges) && u < n && x in Directed(n, edges)[u]
    ensures (u, x) in edges
  {
    DirectedCount(n, edges, u, x);
    assert (u, x) in multiset(edges);
  }

  /** A vertex all of whose incoming edges start at emitted vertices can be emitted next. */
  lemma EmitStep(n: nat, edges: seq<(nat, nat)>, result: seq<nat>, done: set<nat>, u: nat)
    requires Emitted(n, edges, result, done) && u < n && u !in done
    requires forall k :: 0 <= k < |edges| && edges[k].1 == u ==> edges[k].0 in done
    ensures Emitted(n, edges, result + [u], done + {u})
  {
    var r := result + [u];
    var done' := done + {u};
    DistinctConcat(result, [u]);
    assert forall k :: 0 <= k < |edges| && edges[k].0 == u ==> edges[k].1 !in done';
    forall i, j | 0 <= i < |r| && 0 <= j < |r| && (r[i], r[j]) in edges ensures i < j {
      var k :| 0 <= k < |edges| && edges[k] == (r[i], r[j]);
    }
  }

  /** Emitting `u` moves the edges out of `u` from the in-degrees to the pending list. */
  lemma CountStep(n: nat, edges: seq<(nat, nat)>, indeg: seq<int>, done: set<nat>, u: nat)
    requires ValidEdges(n, edges) && u < n && u !in done
    requires Counted(n, edges, indeg, done, []) && SourcesDone(edges, done)
    requires forall k :: 0 <= k < |edges| && edges[k].1 == u ==> edges[k].0 in done
    ensures Counted(n, edges, indeg, done + {u}, Directed(n, edges)[u])
  {
    var g := Directed(n, edges);
    forall x | x in g[u] ensures x < n && x !in done + {u} {
      DirectedEdge(n, edges, u, x);
      var k :| 0 <= k < |edges| && edges[k] == (u, x);
    }
    forall v: nat | v < n ensures indeg[v] == InDegree(edges, done + {u}, v) + multiset(g[u])[v] {
      InDegreeRemove(edges, done, u, v);
      DirectedCount(n, edges, u, v);
    }
  }

  /** Emitting the head of the queue, whose edges all come from emitted vertices, keeps the state. */
  lemma KahnDequeue(n: nat, edges: seq<(nat, nat)>, indeg: seq<int>, queue: seq<nat>, result: seq<nat>, done: set<nat>)
    requires ValidEdges(n, edges)
    requires KahnState(n, edges, indeg, queue, result, done, []) && queue != []
    ensures queue[0] < n
    ensures KahnState(n, edges, indeg, queue[1..], result + [queue[0]], done + {queue[0]}, Directed(n, edges)[queue[0]])
  {
    var u := queue[0];
    assert u in queue;
    InDegreeZero(edges, done, u);
    EmitStep(n, edges, result, done, u);
    CountStep(n, edges, indeg, done, u);
    forall v: nat ensures v in queue[1..] <==> v < n && v !in done + {u} && indeg[v] == 0 {
      assert queue == [u] + queue[1..];
      InAppend([u], queue[1..], v);
    }
  }

  /** Releasing one occurrence of the next pending neighbour keeps the state. */
  lemma KahnRelease(n: nat, edges: seq<(nat, nat)>, indeg: seq<int>, queue: seq<nat>, result: seq<nat>,
                    done: set<nat>, pending: seq<nat>)
    requires KahnState(n, edges, indeg, queue, result, done, pending) && pending != []
    ensures pending[0] < n
    ensures var v := pending[0];
            var indeg' := indeg[v := indeg[v] - 1];
            KahnState(n, edges, indeg', if indeg'[v] == 0 then queue + [v] else queue, result, done, pending[1..])
  {
    var v: nat := pending[0];
    var rest: seq<nat> := pending[1..];
    assert pending == [v] + rest;
    assert v in pending;
    assert v < n == |indeg|;
    var indeg' := indeg[v := indeg[v] - 1];
    var queue' := if indeg'[v] == 0 then queue + [v] else queue;
    assert multiset(pending) == multiset{v} + multiset(rest);
    assert indeg[v] >= 1;
    assert v !in queue;
    assert Counted(n, edges, indeg', done, rest) by {
      forall x | x in rest ensures x < n && x !in done {
        assert x in pending;
      }
      forall w: nat | w < n ensures indeg'[w] == InDegree(edges, done, w) + multiset(rest)[w] {
      }
    }
    assert Queued(n, indeg', queue', done) by {
      DistinctConcat(queue, [v]);
      forall w: nat ensures w in queue' <==> w < n && w !in done && indeg'[w] == 0 {
        InAppend(queue, [v], w);
      }
    }
  }

  /** Emitting every vertex gives a topological order, so there is no cycle. */
  lemma KahnComplete(n: nat, edges: seq<(nat, nat)>, result: seq<nat>, done: set<nat>)
    requires ValidEdges(n, edges)
    requires |result| == n && Emitted(n, edges, result, done)
    ensures IsTopologicalOrder(n, edges, result)
    ensures !HasDirectedCycle(edges)
  {
    DistinctVertices(result, n);
    if c :| IsDirectedCycle(edges, c) {
      CycleHasBackEdge(n, edges, result, c);
      assert false;
    }
  }

  /**
   * Any layout of the vertices has an edge of a cycle pointing backwards:
   * the cycle edge leaving its latest-placed vertex.
   */
  lemma CycleHasBackEdge(n: nat, edges: seq<(nat, nat)>, order: seq<nat>, c: seq<nat>)
    requires ValidEdges(n, edges) && IsDirectedCycle(edges, c)
    requires forall v: nat :: v < n ==> v in order
    ensures !Respects(edges, order)
  {
    assert (c[0], c[1]) in edges;
    var k0 :| 0 <= k0 < |edges| && edges[k0] == (c[0], c[1]);
    assert forall t :: 0 <= t < |c| ==> c[t] < n by {
      forall t | 0 <= t < |c| ensures c[t] < n {
        if t < |c| - 1 {
          var k :| 0 <= k < |edges| && edges[k] == (c[t], c[t + 1]);
        } else {
          assert c[t] == c[0];
        }
      }
    }
    // position along the cycle of the vertex placed latest
    var m := 0;
    for t := 1 to |c| - 1
      invariant 0 <= m < |c| - 1
      invariant forall t' :: 0 <= t' < t ==> FirstIndex(order, c[t']) <= FirstIndex(order, c[m])
    {
      if FirstIndex(order, c[t]) > FirstIndex(order, c[m]) {
        m := t;
      }
    }
    var i, j := FirstIndex(order, c[m]), FirstIndex(order, c[m + 1]);
    assert j <= i by {
      if m + 1 == |c| - 1 {
        assert c[m + 1] == c[0];
      }
    }
    assert (order[i], order[j]) in edges;
  }

  /** Reading backwards a walk along reversed edges that returns to a vertex gives a cycle. */
  lemma BackwardWalkCycle(edges: seq<(nat, nat)>, w: seq<nat>, i: nat, j: nat)
    requires i < j < |w| && w[i] == w[j]
    requires forall t :: 0 <= t < |w| - 1 ==> (w[t + 1], w[t]) in edges
    ensures IsDirectedCycle(edges, Reversed(w[i..j + 1]))
  {
    var c := Reversed(w[i..j + 1]);
    forall t | 0 <= t < |c| - 1 ensures (c[t], c[t + 1]) in edges {
      assert c[t] == w[j - t] && c[t + 1] == w[j - t - 1];
    }
  }

  /**
   * When Kahn's loop stops early, every vertex left over has an edge from
   * another left-over vertex; walking those edges backwards must repeat a
   * vertex, which closes a cycle.
   */
  lemma KahnStuck(n: nat, edges: seq<(nat, nat)>, indeg: seq<int>, result: seq<nat>, done: set<nat>)
    requires ValidEdges(n, edges)
    requires KahnState(n, edges, indeg, [], result, done, []) && |result| < n
    ensures HasDirectedCycle(edges)
  {
    var v0: nat :| v0 < n && v0 !in done by {
      if forall v: nat :: v < n ==> v in result {
        DistinctVertices(result, n);
        SubsetCardinality(Range(n), Elems(result));
      }
    }
    var w: seq<nat> := [v0];
    while |w| <= n
      invariant |w| >= 1
      invariant forall i :: 0 <= i < |w| ==> w[i] < n && w[i] !in done
      invariant forall i :: 0 <= i < |w| - 1 ==> (w[i + 1], w[i]) in edges
      decreases n + 1 - |w|
    {
      var x := w[|w| - 1];
      assert indeg[x] != 0;
      InDegreeZero(edges, done, x);
      var k :| 0 <= k < |edges| && edges[k].1 == x && edges[k].0 !in done;
      w := w + [edges[k].0];
    }
    if Distinct(w) {
      DistinctVertices(w, n);
    }
    var i, j :| 0 <= i < j < |w| && w[i] == w[j];
    BackwardWalkCycle(edges, w, i, j);
  }

  // ---------------------------------------------------------------------------
  // Undirected graphs: components, paths and cycles
  // ---------------------------------------------------------------------------

  /** Adjacency lists with every edge (a, b) listed both ways: `b` under `a`, then `a` under `b`. */
  function Undirected(n: nat, edges: seq<(nat, nat)>): (g: seq<seq<nat>>)
    requires ValidEdges(n, edges)
    ensures |g| == n && WellFormed(g)
  {
    if edges == [] then seq(n, _ => [])
    else
      var e := edges[|edges| - 1];
      var g := Undirected(n, edges[..|edges| - 1]);
      var g' := g[e.0 := g[e.0] + [e.1]];
      g'[e.1 := g'[e.1] + [e.0]]
  }

  lemma UndirectedSnoc(n: nat, edges: seq<(nat, nat)>, e: (nat, nat))
    requires ValidEdges(n, edges + [e])
    ensures ValidEdges(n, edges) && e.0 < n && e.1 < n
    ensures var g := Undirected(n, edges);
            var g' := g[e.0 := g[e.0] + [e.1]];
            Undirected(n, edges + [e]) == g'[e.1 := g'[e.1] + [e.0]]
  {
    assert (edges + [e])[|edges|] == e;
    assert (edges + [e])[..|edges|] == edges;
  }

  /** `v` is listed under `u` exactly when some edge joins them, in either direction. */
  lemma {:induction false} UndirectedEdge(n: nat, edges: seq<(nat, nat)>, u: nat, v: nat)
    requires ValidEdges(n, edges)
    ensures Edge(Undirected(n, edges), u, v) <==> (u, v) in edges || (v, u) in edges
  {
    if edges != [] {
      var p := edges[..|edges| - 1];
      var e := edges[|edges| - 1];
      assert edges == p + [e];
      UndirectedEdge(n, p, u, v);
      InAppend(p, [e], (u, v));
      InAppend(p, [e], (v, u));
    }
  }

  /** Every edge of the undirected graph can be walked both ways. */
  lemma UndirectedSymmetric(n: nat, edges: seq<(nat, nat)>)
    requires ValidEdges(n, edges)
    ensures Symmetric(Undirected(n, edges))
  {
    forall u, v | Edge(Undirected(n, edges), u, v) ensures Edge(Undirected(n, edges), v, u) {
      UndirectedEdge(n, edges, u, v);
      UndirectedEdge(n, edges, v, u);
    }
  }

  /** Builds the adjacency lists of the undirected graph, edge by edge. */
  method BuildUndirected(n: nat, edges: seq<(nat, nat)>) returns (g: seq<seq<nat>>)
    requires ValidEdges(n, edges)
    ensures g == Undirected(n, edges)
  {
    g := seq(n, _ => []);
    for k := 0 to |edges|
      invariant ValidEdges(n, edges[..k])
      invariant g == Undirected(n, edges[..k])
    {
      var (a, b) := edges[k];
      TakeSnoc(edges, k);
      UndirectedSnoc(n, edges[..k], edges[k]);
      g := g[a := g[a] + [b]];
      g := g[b := g[b] + [a]];
    }
    assert edges[..|edges|] == edges;
  }

  /**
   * Marks every vertex reachable from `node` without entering the vertices
   * marked before, and nothing else.
   */
  method DfsComponent(g: seq<seq<nat>>, node: nat, visited: set<nat>) returns (visited': set<nat>)
    requires WellFormed(g) && node < |g| && node !in visited
    ensures visited + {node} <= visited'
    ensures forall v :: v in visited' && v !in visited <==> ReachableAvoiding(g, visited, node, v)
    ensures ClosedOutside(g, visited', visited)
    decreases |Range(|g|) - visited|
  {
    var u := node;
    visited' := visited + {u};
    ReachableRefl(g, visited, u);
    for i := 0 to |g[u]|
      invariant visited + {u} <= visited'
      invariant forall v :: v in visited' && v !in visited ==> ReachableAvoiding(g, visited, u, v)
      invariant forall x :: x in g[u][..i] ==> x in visited'
      invariant ClosedOutside(g, visited', visited + {u})
    {
      var w := g[u][i];
      var more := visited';
      if w !in visited' {
        assert |Range(|g|) - visited'| < |Range(|g|) - visited| by {
          SubsetCardinality(Range(|g|) - visited', Range(|g|) - visited);
          assert u in Range(|g|) - visited;
        }
        more := DfsComponent(g, w, visited');
      }
      DfsChild(g, visited, visited', more, u, w);
      TakeSnoc(g[u], i);
      forall x | x in g[u][..i + 1] ensures x in more {
        InAppend(g[u][..i], [w], x);
      }
      visited' := more;
    }
    assert g[u][..|g[u]|] == g[u];
    DfsClosed(g, visited, visited', u);
  }

  /** No smaller vertex reaches `i`: `i` is the least vertex of its component. */
  ghost predicate IsRepresentative(g: seq<seq<nat>>, i: nat) {
    forall j :: 0 <= j < i ==> !Reachable(g, j, i)
  }

  /** Number of representatives among the vertices 0..k-1. */
  ghost function Representatives(g: seq<seq<nat>>, k: nat): nat {
    if k == 0 then 0 else Representatives(g, k - 1) + (if IsRepresentative(g, k - 1) then 1 else 0)
  }

  /** The marked set after searching from 0..i-1: closed, and exactly what those vertices reach. */
  ghost predicate Searched(g: seq<seq<nat>>, visited: set<nat>, i: nat) {
    && ClosedOutside(g, visited, {})
    && forall v :: v in visited <==> exists j :: 0 <= j < i && Reachable(g, j, v)
  }

  /**
   * Number of connected components of the undirected graph: one DFS is
   * started from every vertex not yet marked, and those are exactly the
   * least vertices of their components.
   */
  method CountConnectedComponents(n: nat, edges: seq<(nat, nat)>) returns (components: nat)
    requires ValidEdges(n, edges)
    ensures components == Representatives(Undirected(n, edges), n)
  {
    var g := BuildUndirected(n, edges);
    var visited: set<nat> := {};
    components := 0;
    for i := 0 to n
      invariant components == Representatives(g, i)
      invariant Searched(g, visited, i)
    {
      if i !in visited {
        components := components + 1;
        var visited' := DfsComponent(g, i, visited);
        UndirectedSymmetric(n, edges);
        ComponentStep(g, i, visited, visited');
        visited := visited';
      } else {
        MarkedStep(g, i, visited);
      }
    }
  }

  /** A vertex already marked is not the least of its component, and marks nothing new. */
  lemma MarkedStep(g: seq<seq<nat>>, i: nat, visited: set<nat>)
    requires i in visited && Searched(g, visited, i)
    ensures !IsRepresentative(g, i)
    ensures Searched(g, visited, i + 1)
  {
    var j :| 0 <= j < i && Reachable(g, j, i);
    forall v | exists j :: 0 <= j < i + 1 && Reachable(g, j, v) ensures v in visited {
      var j' :| 0 <= j' < i + 1 && Reachable(g, j', v);
      if j' == i {
        ReachableTrans(g, {}, {}, j, i, v);
        assert Reachable(g, j, v);
      }
    }
  }

  /** One `dfsComponent` call from an unmarked vertex extends the marked set by its whole component. */
  lemma ComponentStep(g: seq<seq<nat>>, i: nat, visited: set<nat>, visited': set<nat>)
    requires WellFormed(g) && Symmetric(g) && i < |g| && i !in visited
    requires Searched(g, visited, i)
    requires visited + {i} <= visited'
    requires forall v :: v in visited' && v !in visited <==> ReachableAvoiding(g, visited, i, v)
    requires ClosedOutside(g, visited', visited)
    ensures IsRepresentative(g, i)
    ensures Searched(g, visited', i + 1)
  {
    forall v | v in visited' ensures exists j :: 0 <= j < i + 1 && Reachable(g, j, v) {
      if v !in visited {
        ReachableWeaken(g, {}, visited, i, v);
        assert Reachable(g, i, v);
      }
    }
    forall v | exists j :: 0 <= j < i + 1 && Reachable(g, j, v) ensures v in visited' {
      var j :| 0 <= j < i + 1 && Reachable(g, j, v);
      if j == i && v !in visited {
        AvoidingClosedSet(g, visited, i, v);
      }
    }
  }

  /**
   * In a graph whose edges go both ways, a walk from outside a closed set
   * never enters it.
   */
  lemma AvoidingClosedSet(g: seq<seq<nat>>, visited: set<nat>, s: nat, t: nat)
    requires Symmetric(g) && ClosedOutside(g, visited, {}) && s !in visited
    requires Reachable(g, s, t)
    ensures ReachableAvoiding(g, visited, s, t)
  {
    var p :| IsPath(g, p) && p[0] == s && p[|p| - 1] == t && Avoids(p, {});
    forall k | 0 <= k < |p| ensures p[k] !in visited {
      var q := p[..k + 1];
      assert IsPath(g, q) && q[0] == s && q[|q| - 1] == p[k] && Avoids(q, {});
      ReachableSymmetric(g, {}, s, p[k]);
      if p[k] in visited {
        ClosedSetHoldsReachable(g, {}, visited, p[k], s);
      }
    }
  }

  /** The least vertex reaching `v` is a representative: every component has one. */
  lemma RepresentativeExists(g: seq<seq<nat>>, v: nat)
    ensures exists r :: 0 <= r <= v && IsRepresentative(g, r) && Reachable(g, r, v)
  {
    ReachableRefl(g, {}, v);
    var r := 0;
    while !Reachable(g, r, v)
      invariant 0 <= r <= v
      invariant forall j :: 0 <= j < r ==> !Reachable(g, j, v)
      decreases v - r
    {
      r := r + 1;
    }
    forall j | 0 <= j < r ensures !Reachable(g, j, r) {
      if Reachable(g, j, r) {
        ReachableTrans(g, {}, {}, j, r, v);
        assert Reachable(g, j, v);
      }
    }
  }

  /** Two different representatives lie in different components: no vertex is reachable from both. */
  lemma RepresentativesApart(g: seq<seq<nat>>, r1: nat, r2: nat, v: nat)
    requires Symmetric(g) && r1 < r2 && IsRepresentative(g, r2)
    ensures !(Reachable(g, r1, v) && Reachable(g, r2, v))
  {
    if Reachable(g, r1, v) && Reachable(g, r2, v) {
      ReachableSymmetric(g, {}, r2, v);
      ReachableTrans(g, {}, {}, r1, v, r2);
      assert Reachable(g, r1, r2);
    }
  }

  /**
   * Depth-first path search that stops at `target`. It answers whether
   * `target` is reachable from `node` without entering `visited`.
   */
  method DfsPath(g: seq<seq<nat>>, node: nat, target: nat, visited: set<nat>) returns (found: bool, visited': set<nat>)
    requires WellFormed(g) && node < |g| && node !in visited
    ensures found <==> ReachableAvoiding(g, visited, node, target)
    ensures visited <= visited'
    ensures forall v :: v in visited' && v !in visited ==> ReachableAvoiding(g, visited, node, v) && v != target
    ensures !found ==> node in visited' && ClosedOutside(g, visited', visited)
    decreases |Range(|g|) - visited|
  {
    if node == target {
      ReachableRefl(g, visited, node);
      return true, visited;
    }
    var u := node;
    visited' := visited + {u};
    ReachableRefl(g, visited, u);
    for i := 0 to |g[u]|
      invariant visited + {u} <= visited'
      invariant forall v :: v in visited' && v !in visited ==> ReachableAvoiding(g, visited, u, v) && v != target
      invariant forall x :: x in g[u][..i] ==> x in visited'
      invariant ClosedOutside(g, visited', visited + {u})
    {
      var w := g[u][i];
      var more := visited';
      if w !in visited' {
        assert |Range(|g|) - visited'| < |Range(|g|) - visited| by {
          SubsetCardinality(Range(|g|) - visited', Range(|g|) - visited);
          assert u in Range(|g|) - visited;
        }
        var sub;
        sub, more := DfsPath(g, w, target, visited');
        DfsChild(g, visited, visited', more, u, w);
        if sub {
          EdgeReachable(g, visited, u, w);
          ReachableTrans(g, visited, visited', u, w, target);
          return true, more;
        }
      }
      TakeSnoc(g[u], i);
      forall x | x in g[u][..i + 1] ensures x in more {
        InAppend(g[u][..i], [w], x);
      }
      visited' := more;
    }
    assert g[u][..|g[u]|] == g[u];
    DfsClosed(g, visited, visited', u);
    found := false;
  }

  /**
   * Whether `destination` can be reached from `source` along edges taken in
   * either direction; a vertex always reaches itself.
   */
  method PathExists(n: nat, edges: seq<(nat, nat)>, source: nat, destination: nat) returns (r: bool)
    requires ValidEdges(n, edges)
    requires source == destination || source < n
    ensures r <==> Reachable(Undirected(n, edges), source, destination)
  {
    if source == destination {
      ReachableRefl(Undirected(n, edges), {}, source);
      return true;
    }
    var g := BuildUndirected(n, edges);
    var visited := {};
    r, visited := DfsPath(g, source, destination, visited);
  }

  // ---------------------------------------------------------------------------
  // Degree counting for cycle detection
  // ---------------------------------------------------------------------------

  /** Entries of `s` equal to `parent`; none for -1, the missing parent of a root. */
  function ParentCount(s: seq<nat>, parent: int): nat {
    if parent < 0 then 0 else Count(s, parent as nat)
  }

  /** Entries of `s` that lie in `c`. */
  function CountIn(s: seq<nat>, c: set<nat>): nat {
    if s == [] then 0 else (if s[0] in c then 1 else 0) + CountIn(s[1..], c)
  }

  /** Sum of the adjacency-list lengths of the vertices below `m`. */
  function Degrees(g: seq<seq<nat>>, m: nat): nat
    requires m <= |g|
  {
    if m == 0 then 0 else Degrees(g, m - 1) + |g[m - 1]|
  }

  /** Sum of |g[x]| - 2 over the vertices x < m of `s`. */
  ghost function Excess(g: seq<seq<nat>>, s: set<nat>, m: nat): int
    requires m <= |g|
  {
    if m == 0 then 0 else Excess(g, s, m - 1) + (if m - 1 in s then |g[m - 1]| - 2 else 0)
  }

  /** `b` is listed under `a` as often as `a` under `b`, as in an undirected multigraph. */
  ghost predicate CountSymmetric(g: seq<seq<nat>>) {
    forall a: nat, b: nat :: a < |g| && b < |g| ==> Count(g[a], b) == Count(g[b], a)
  }

  lemma {:induction false} CountInEmpty(s: seq<nat>)
    ensures CountIn(s, {}) == 0
    decreases |s|
  {
    if s != [] {
      CountInEmpty(s[1..]);
    }
  }

  /** Adding `x` to the set counts the entries equal to `x` as well. */
  lemma {:induction false} CountInAdd(s: seq<nat>, c: set<nat>, x: nat)
    requires x !in c
    ensures CountIn(s, c + {x}) == CountIn(s, c) + Count(s, x)
    decreases |s|
  {
    if s != [] {
      CountInAdd(s[1..], c, x);
      assert s == [s[0]] + s[1..];
      CountConcat([s[0]], s[1..], x);
    }
  }

  /** Excess is additive over disjoint sets. */
  lemma {:induction false} ExcessUnion(g: seq<seq<nat>>, a: set<nat>, b: set<nat>, m: nat)
    requires m <= |g| && a !! b
    ensures Excess(g, a + b, m) == Excess(g, a, m) + Excess(g, b, m)
    decreases m
  {
    if m > 0 {
      ExcessUnion(g, a, b, m - 1);
    }
  }

  /** Vertices at or above `m` do not count. */
  lemma {:induction false} ExcessNone(g: seq<seq<nat>>, s: set<nat>, m: nat)
    requires m <= |g| && forall x :: x in s ==> x >= m
    ensures Excess(g, s, m) == 0
    decreases m
  {
    if m > 0 {
      ExcessNone(g, s, m - 1);
    }
  }

  lemma {:induction false} ExcessSingle(g: seq<seq<nat>>, u: nat, m: nat)
    requires u < m <= |g|
    ensures Excess(g, {u}, m) == |g[u]| - 2
    decreases m
  {
    if u < m - 1 {
      ExcessSingle(g, u, m - 1);
    } else {
      ExcessNone(g, {u}, m - 1);
    }
  }

  /** Over a set holding every vertex below `m`, the excess is the degree sum minus 2m. */
  lemma {:induction false} ExcessAll(g: seq<seq<nat>>, s: set<nat>, m: nat)
    requires m <= |g| && forall x: nat :: x < m ==> x in s
    ensures Excess(g, s, m) == Degrees(g, m) - 2 * m
    decreases m
  {
    if m > 0 {
      ExcessAll(g, s, m - 1);
    }
  }

  lemma {:induction false} DegreesAppend(g: seq<seq<nat>>, a: nat, x: nat, m: nat)
    requires a < |g| && m <= |g|
    ensures Degrees(g[a := g[a] + [x]], m) == Degrees(g, m) + (if a < m then 1 else 0)
    decreases m
  {
    if m > 0 {
      DegreesAppend(g, a, x, m - 1);
    }
  }

  /** Every edge is listed twice, once under each end. */
  lemma {:induction false} UndirectedDegrees(n: nat, edges: seq<(nat, nat)>)
    requires ValidEdges(n, edges)
    ensures Degrees(Undirected(n, edges), n) == 2 * |edges|
    decreases |edges|
  {
    if edges != [] {
      var init, e := edges[..|edges| - 1], edges[|edges| - 1];
      assert edges == init + [e];
      UndirectedSnoc(n, init, e);
      UndirectedDegrees(n, init);
      var g := Undirected(n, init);
      DegreesAppend(g, e.0, e.1, n);
      DegreesAppend(g[e.0 := g[e.0] + [e.1]], e.1, e.0, n);
    } else {
      DegreesEmpty(Undirected(n, edges), n);
    }
  }

  lemma {:induction false} DegreesEmpty(g: seq<seq<nat>>, m: nat)
    requires m <= |g| && forall x :: 0 <= x < |g| ==> g[x] == []
    ensures Degrees(g, m) == 0
    decreases m
  {
    if m > 0 {
      DegreesEmpty(g, m - 1);
    }
  }

  /** Listing `y` under `x` and `x` under `y` adds one occurrence each way. */
  lemma EdgeAddedCount(g: seq<seq<nat>>, x: nat, y: nat, a: nat, b: nat)
    requires x < |g| && y < |g| && a < |g|
    ensures var g' := g[x := g[x] + [y]];
      Count(g'[y := g'[y] + [x]][a], b)
      == Count(g[a], b) + (if a == x && b == y then 1 else 0) + (if a == y && b == x then 1 else 0)
  {
    var g' := g[x := g[x] + [y]];
    if a == x {
      CountSnoc(g[x], y, b);
    }
    if a == y {
      CountSnoc(g'[y], x, b);
    }
  }

  /** The symmetrised graph lists `b` under `a` as often as `a` under `b`. */
  lemma {:induction false} UndirectedCountSymmetric(n: nat, edges: seq<(nat, nat)>)
    requires ValidEdges(n, edges)
    ensures CountSymmetric(Undirected(n, edges))
    decreases |edges|
  {
    if edges != [] {
      var init, e := edges[..|edges| - 1], edges[|edges| - 1];
      assert edges == init + [e];
      UndirectedSnoc(n, init, e);
      UndirectedCountSymmetric(n, init);
      forall a: nat, b: nat | a < n && b < n
        ensures Count(Undirected(n, edges)[a], b) == Count(Undirected(n, edges)[b], a)
      {
        EdgeAddedCount(Undirected(n, init), e.0, e.1, a, b);
        EdgeAddedCount(Undirected(n, init), e.0, e.1, b, a);
      }
    }
  }

  /**
   * The bookkeeping of `dfsCycle` at `u` after i entries of its list, with
   * no cycle reported: every entry so far led to a new child (k of them,
   * the set `kids`) or was the parent, and the vertices marked below `u`
   * have excess -k plus the entries still ahead that lead back to a child.
   */
  ghost predicate Tally(g: seq<seq<nat>>, u: nat, parent: int, visited: set<nat>, visited': set<nat>,
                        kids: set<nat>, k: int, i: nat)
    requires u < |g| && i <= |g[u]|
  {
    && kids <= visited' - visited - {u}
    && i == k + ParentCount(g[u][..i], parent)
    && Excess(g, visited' - visited - {u}, |g|) == CountIn(g[u][i..], kids) - k
  }

  lemma TallyStart(g: seq<seq<nat>>, u: nat, parent: int, visited: set<nat>)
    requires u < |g|
    ensures Tally(g, u, parent, visited, visited + {u}, {}, 0, 0)
  {
    CountInEmpty(g[u][0..]);
    assert visited + {u} - visited - {u} == {};
    ExcessNone(g, {}, |g|);
  }

  lemma ParentCountSnoc(s: seq<nat>, i: nat, parent: int)
    requires i < |s|
    ensures ParentCount(s[..i + 1], parent) == ParentCount(s[..i], parent) + (if s[i] == parent then 1 else 0)
  {
    TakeSnoc(s, i);
    if parent >= 0 {
      CountSnoc(s[..i], s[i], parent as nat);
    }
  }

  lemma CountInStep(s: seq<nat>, i: nat, c: set<nat>)
    requires i < |s|
    ensures CountIn(s[i..], c) == (if s[i] in c then 1 else 0) + CountIn(s[i + 1..], c)
  {
    assert s[i..][1..] == s[i + 1..];
  }

  /** The marks below `u` grow by the child's marks. */
  lemma ExcessGrow(g: seq<seq<nat>>, u: nat, visited: set<nat>, visited': set<nat>, more: set<nat>)
    requires u in visited' && visited <= visited' <= more
    ensures Excess(g, more - visited - {u}, |g|)
      == Excess(g, visited' - visited - {u}, |g|) + Excess(g, more - visited', |g|)
  {
    assert more - visited - {u} == (visited' - visited - {u}) + (more - visited');
    ExcessUnion(g, visited' - visited - {u}, more - visited', |g|);
  }

  /** An unmarked entry searched without a report becomes a child and keeps the tally. */
  lemma TallyChild(g: seq<seq<nat>>, u: nat, parent: int, visited: set<nat>, visited': set<nat>, more: set<nat>,
                   kids: set<nat>, k: int, i: nat)
    requires WellFormed(g) && CountSymmetric(g) && u < |g| && i < |g[u]|
    requires Tally(g, u, parent, visited, visited', kids, k, i)
    requires parent < 0 || parent in visited
    requires u in visited' && visited <= visited'
    requires forall x :: x in g[u][..i] ==> x in visited'
    requires g[u][i] !in visited' && visited' + {g[u][i]} <= more
    requires Excess(g, more - visited', |g|) == Count(g[g[u][i]], u) - 2
    ensures Tally(g, u, parent, visited, more, kids + {g[u][i]}, k + 1, i + 1)
  {
    var w := g[u][i];
    ParentCountSnoc(g[u], i, parent);
    ExcessGrow(g, u, visited, visited', more);
    assert Count(g[w], u) == Count(g[u], w);
    CountFirstAt(g[u], i);
    CountInStep(g[u], i, kids);
    CountInAdd(g[u][i + 1..], kids, w);
  }

  /** An entry that is the parent keeps the tally. */
  lemma TallyParent(g: seq<seq<nat>>, u: nat, parent: int, visited: set<nat>, visited': set<nat>,
                    kids: set<nat>, k: int, i: nat)
    requires u < |g| && i < |g[u]| && g[u][i] == parent && parent in visited
    requires Tally(g, u, parent, visited, visited', kids, k, i)
    ensures Tally(g, u, parent, visited, visited', kids, k, i + 1)
  {
    ParentCountSnoc(g[u], i, parent);
    CountInStep(g[u], i, kids);
  }

  /** With the whole list read, the marked vertices have excess ParentCount - 2. */
  lemma TallyDone(g: seq<seq<nat>>, u: nat, parent: int, visited: set<nat>, visited': set<nat>,
                  kids: set<nat>, k: int)
    requires u < |g| && u in visited' && u !in visited
    requires Tally(g, u, parent, visited, visited', kids, k, |g[u]|)
    ensures Excess(g, visited' - visited, |g|) == ParentCount(g[u], parent) - 2
  {
    assert g[u][..|g[u]|] == g[u];
    assert g[u][|g[u]|..] == [];
    assert visited' - visited == (visited' - visited - {u}) + {u};
    ExcessUnion(g, visited' - visited - {u}, {u}, |g|);
    ExcessSingle(g, u, |g|);
  }

  /**
   * The tally of a search that does not stop at a report: `b` entries of `u`
   * so far met an already-marked vertex other than the parent, and the
   * finished children together add at least `x` beyond a tree's count.
   */
  ghost predicate TallyAtLeast(g: seq<seq<nat>>, u: nat, parent: int, visited: set<nat>, visited': set<nat>,
                               kids: set<nat>, k: int, i: nat, b: nat, x: nat)
    requires u < |g| && i <= |g[u]|
  {
    && kids <= visited' - visited - {u}
    && i == k + ParentCount(g[u][..i], parent) + b
    && Excess(g, visited' - visited - {u}, |g|) >= CountIn(g[u][i..], kids) - k + x
  }

  /** A child whose subtree has at least `y` to spare adds `y` to the tally. */
  lemma TallyAtLeastChild(g: seq<seq<nat>>, u: nat, parent: int, visited: set<nat>, visited': set<nat>, more: set<nat>,
                          kids: set<nat>, k: int, i: nat, b: nat, x: nat, y: nat)
    requires WellFormed(g) && CountSymmetric(g) && u < |g| && i < |g[u]|
    requires TallyAtLeast(g, u, parent, visited, visited', kids, k, i, b, x)
    requires parent < 0 || parent in visited
    requires u in visited' && visited <= visited'
    requires forall z :: z in g[u][..i] ==> z in visited'
    requires g[u][i] !in visited' && visited' + {g[u][i]} <= more
    requires Excess(g, more - visited', |g|) >= Count(g[g[u][i]], u) - 2 + y
    ensures TallyAtLeast(g, u, parent, visited, more, kids + {g[u][i]}, k + 1, i + 1, b, x + y)
  {
    var w := g[u][i];
    ParentCountSnoc(g[u], i, parent);
    ExcessGrow(g, u, visited, visited', more);
    assert Count(g[w], u) == Count(g[u], w);
    CountFirstAt(g[u], i);
    CountInStep(g[u], i, kids);
    CountInAdd(g[u][i + 1..], kids, w);
  }

  /** An entry meeting a marked vertex other than the parent is one more spare entry. */
  lemma TallyAtLeastBack(g: seq<seq<nat>>, u: nat, parent: int, visited: set<nat>, visited': set<nat>,
                         kids: set<nat>, k: int, i: nat, b: nat, x: nat)
    requires u < |g| && i < |g[u]| && g[u][i] != parent
    requires TallyAtLeast(g, u, parent, visited, visited', kids, k, i, b, x)
    ensures TallyAtLeast(g, u, parent, visited, visited', kids, k, i + 1, b + 1, x)
  {
    ParentCountSnoc(g[u], i, parent);
    CountInStep(g[u], i, kids);
  }

  lemma TallyAtLeastParent(g: seq<seq<nat>>, u: nat, parent: int, visited: set<nat>, visited': set<nat>,
                           kids: set<nat>, k: int, i: nat, b: nat, x: nat)
    requires u < |g| && i < |g[u]| && g[u][i] == parent && parent in visited
    requires TallyAtLeast(g, u, parent, visited, visited', kids, k, i, b, x)
    ensures TallyAtLeast(g, u, parent, visited, visited', kids, k, i + 1, b, x)
  {
    ParentCountSnoc(g[u], i, parent);
    CountInStep(g[u], i, kids);
  }

  lemma TallyAtLeastDone(g: seq<seq<nat>>, u: nat, parent: int, visited: set<nat>, visited': set<nat>,
                         kids: set<nat>, k: int, b: nat, x: nat)
    requires u < |g| && u in visited' && u !in visited
    requires TallyAtLeast(g, u, parent, visited, visited', kids, k, |g[u]|, b, x)
    ensures Excess(g, visited' - visited, |g|) >= ParentCount(g[u], parent) - 2 + b + x
  {
    assert g[u][..|g[u]|] == g[u];
    assert g[u][|g[u]|..] == [];
    assert visited' - visited == (visited' - visited - {u}) + {u};
    ExcessUnion(g, visited' - visited - {u}, {u}, |g|);
    ExcessSingle(g, u, |g|);
  }

  /**
   * The search of `dfsCycle` carried on past every report: it marks the
   * whole reach of `node`, whose excess is at least that of a tree hanging
   * from the parent edge. Every component therefore has excess at least -2.
   */
  lemma GhostSearch(g: seq<seq<nat>>, node: nat, parent: int, visited: set<nat>) returns (visited': set<nat>)
    requires WellFormed(g) && CountSymmetric(g) && node < |g| && node !in visited
    requires parent < 0 || parent in visited
    ensures visited + {node} <= visited'
    ensures forall v :: v in visited' && v !in visited <==> ReachableAvoiding(g, visited, node, v)
    ensures ClosedOutside(g, visited', visited)
    ensures Excess(g, visited' - visited, |g|) >= ParentCount(g[node], parent) - 2
    decreases |Range(|g|) - visited|, 1, 0
  {
    ReachableRefl(g, visited, node);
    TallyStart(g, node, parent, visited);
    visited' := GhostVisitFrom(g, node, parent, visited, visited + {node}, {}, 0, 0, 0, 0);
  }

  /** The rest of the neighbour list of `u` from entry `i`, searched without stopping. */
  lemma GhostVisitFrom(g: seq<seq<nat>>, u: nat, parent: int, visited: set<nat>, visited': set<nat>,
                       kids: set<nat>, k: int, i: nat, b: nat, x: nat) returns (visited'': set<nat>)
    requires WellFormed(g) && CountSymmetric(g) && u < |g| && u !in visited && i <= |g[u]|
    requires parent < 0 || parent in visited
    requires visited + {u} <= visited'
    requires forall v :: v in visited' && v !in visited ==> ReachableAvoiding(g, visited, u, v)
    requires forall z :: z in g[u][..i] ==> z in visited'
    requires ClosedOutside(g, visited', visited + {u})
    requires TallyAtLeast(g, u, parent, visited, visited', kids, k, i, b, x)
    ensures visited' <= visited''
    ensures forall v :: v in visited'' && v !in visited <==> ReachableAvoiding(g, visited, u, v)
    ensures ClosedOutside(g, visited'', visited)
    ensures Excess(g, visited'' - visited, |g|) >= ParentCount(g[u], parent) - 2 + b + x
    decreases |Range(|g|) - visited|, 0, |g[u]| - i
  {
    if i == |g[u]| {
      assert g[u][..i] == g[u];
      DfsClosed(g, visited, visited', u);
      TallyAtLeastDone(g, u, parent, visited, visited', kids, k, b, x);
      visited'' := visited';
    } else {
      var w := g[u][i];
      TakeSnoc(g[u], i);
      if w !in visited' {
        assert |Range(|g|) - visited'| < |Range(|g|) - visited| by {
          SubsetCardinality(Range(|g|) - visited', Range(|g|) - visited);
          assert u in Range(|g|) - visited;
        }
        var more := GhostSearch(g, w, u, visited');
        DfsChild(g, visited, visited', more, u, w);
        TallyAtLeastChild(g, u, parent, visited, visited', more, kids, k, i, b, x, 0);
        forall z | z in g[u][..i + 1] ensures z in more {
          InAppend(g[u][..i], [w], z);
        }
        visited'' := GhostVisitFrom(g, u, parent, visited, more, kids + {w}, k + 1, i + 1, b, x);
      } else {
        forall z | z in g[u][..i + 1] ensures z in visited' {
          InAppend(g[u][..i], [w], z);
        }
        if w != parent {
          TallyAtLeastBack(g, u, parent, visited, visited', kids, k, i, b, x);
          visited'' := GhostVisitFrom(g, u, parent, visited, visited', kids, k, i + 1, b + 1, x);
        } else {
          TallyAtLeastParent(g, u, parent, visited, visited', kids, k, i, b, x);
          visited'' := GhostVisitFrom(g, u, parent, visited, visited', kids, k, i + 1, b, x);
        }
      }
    }
  }

  /** A report at entry `i` of `u`: the reach of `u` has excess above a tree's. */
  lemma BackReport(g: seq<seq<nat>>, u: nat, parent: int, visited: set<nat>, visited': set<nat>,
                   kids: set<nat>, k: int, i: nat)
    requires WellFormed(g) && CountSymmetric(g) && u < |g| && u !in visited && i < |g[u]|
    requires parent < 0 || parent in visited
    requires visited + {u} <= visited'
    requires forall v :: v in visited' && v !in visited ==> ReachableAvoiding(g, visited, u, v)
    requires forall z :: z in g[u][..i] ==> z in visited'
    requires ClosedOutside(g, visited', visited + {u})
    requires Tally(g, u, parent, visited, visited', kids, k, i)
    requires g[u][i] in visited' && g[u][i] != parent
    ensures Excess(g, ReachSet(g, visited, u), |g|) > ParentCount(g[u], parent) - 2
  {
    var w := g[u][i];
    assert TallyAtLeast(g, u, parent, visited, visited', kids, k, i, 0, 0);
    TallyAtLeastBack(g, u, parent, visited, visited', kids, k, i, 0, 0);
    TakeSnoc(g[u], i);
    forall z | z in g[u][..i + 1] ensures z in visited' {
      InAppend(g[u][..i], [w], z);
    }
    var all := GhostVisitFrom(g, u, parent, visited, visited', kids, k, i + 1, 1, 0);
    ReachSetIs(g, visited, u);
    assert all - visited == ReachSet(g, visited, u);
  }

  /** A report from the child at entry `i` of `u`: the reach of `u` has excess above a tree's. */
  lemma ChildReport(g: seq<seq<nat>>, u: nat, parent: int, visited: set<nat>, visited': set<nat>,
                    kids: set<nat>, k: int, i: nat)
    requires WellFormed(g) && CountSymmetric(g) && u < |g| && u !in visited && i < |g[u]|
    requires parent < 0 || parent in visited
    requires visited + {u} <= visited'
    requires forall v :: v in visited' && v !in visited ==> ReachableAvoiding(g, visited, u, v)
    requires forall z :: z in g[u][..i] ==> z in visited'
    requires ClosedOutside(g, visited', visited + {u})
    requires Tally(g, u, parent, visited, visited', kids, k, i)
    requires g[u][i] !in visited'
    requires Excess(g, ReachSet(g, visited', g[u][i]), |g|) > ParentCount(g[g[u][i]], u) - 2
    ensures Excess(g, ReachSet(g, visited, u), |g|) > ParentCount(g[u], parent) - 2
  {
    var w := g[u][i];
    ReachSetIs(g, visited', w);
    ReachableRefl(g, visited', w);
    var more := visited' + ReachSet(g, visited', w);
    assert more - visited' == ReachSet(g, visited', w);
    DfsChild(g, visited, visited', more, u, w);
    assert TallyAtLeast(g, u, parent, visited, visited', kids, k, i, 0, 0);
    TallyAtLeastChild(g, u, parent, visited, visited', more, kids, k, i, 0, 0, 1);
    TakeSnoc(g[u], i);
    forall z | z in g[u][..i + 1] ensures z in more {
      InAppend(g[u][..i], [w], z);
    }
    var all := GhostVisitFrom(g, u, parent, visited, more, kids + {w}, k + 1, i + 1, 0, 1);
    ReachSetIs(g, visited, u);
    assert all - visited == ReachSet(g, visited, u);
  }

  /**
   * Depth-first search from `node`, entered from `parent` (-1 at a root),
   * that reports a cycle as soon as a marked neighbour other than `parent`
   * is met. Without a report it has marked exactly the vertices reachable
   * from `node` outside the old marks, none of which lists itself, and
   * their adjacency lists add up to a tree's: two entries per tree edge,
   * plus the entries of `node` that lead back to `parent`. A report means
   * the reach of `node` has more entries than such a tree can have.
   */
  method DfsCycle(g: seq<seq<nat>>, node: nat, parent: int, visited: set<nat>) returns (found: bool, visited': set<nat>)
    requires WellFormed(g) && CountSymmetric(g) && node < |g| && node !in visited
    requires parent < 0 || parent in visited
    ensures visited + {node} <= visited'
    ensures forall v :: v in visited' && v !in visited ==> ReachableAvoiding(g, visited, node, v)
    ensures !found ==> forall v :: v in visited' && v !in visited <==> ReachableAvoiding(g, visited, node, v)
    ensures !found ==> ClosedOutside(g, visited', visited)
    ensures !found ==> forall v :: v in visited' && v !in visited ==> !Edge(g, v, v)
    ensures !found ==> Excess(g, visited' - visited, |g|) == ParentCount(g[node], parent) - 2
    ensures found ==> Excess(g, ReachSet(g, visited, node), |g|) > ParentCount(g[node], parent) - 2
    decreases |Range(|g|) - visited|
  {
    var u := node;
    visited' := visited + {u};
    ReachableRefl(g, visited, u);
    ghost var kids: set<nat> := {};
    ghost var k := 0;
    TallyStart(g, u, parent, visited);
    for i := 0 to |g[u]|
      invariant visited + {u} <= visited'
      invariant forall v :: v in visited' && v !in visited ==> ReachableAvoiding(g, visited, u, v)
      invariant forall x :: x in g[u][..i] ==> x in visited'
      invariant ClosedOutside(g, visited', visited + {u})
      invariant forall v :: v in visited' && v !in visited + {u} ==> !Edge(g, v, v)
      invariant u !in g[u][..i]
      invariant Tally(g, u, parent, visited, visited', kids, k, i)
    {
      var w := g[u][i];
      var more := visited';
      if w !in visited' {
        assert |Range(|g|) - visited'| < |Range(|g|) - visited| by {
          SubsetCardinality(Range(|g|) - visited', Range(|g|) - visited);
          assert u in Range(|g|) - visited;
        }
        var sub;
        sub, more := DfsCycle(g, w, u, visited');
        DfsChild(g, visited, visited', more, u, w);
        if sub {
          ChildReport(g, u, parent, visited, visited', kids, k, i);
          return true, more;
        }
        TallyChild(g, u, parent, visited, visited', more, kids, k, i);
        kids, k := kids + {w}, k + 1;
      } else if w != parent {
        BackReport(g, u, parent, visited, visited', kids, k, i);
        return true, visited';
      } else {
        TallyParent(g, u, parent, visited, visited', kids, k, i);
      }
      TakeSnoc(g[u], i);
      forall x | x in g[u][..i + 1] ensures x in more {
        InAppend(g[u][..i], [w], x);
      }
      InAppend(g[u][..i], [w], u);
      visited' := more;
    }
    assert g[u][..|g[u]|] == g[u];
    DfsClosed(g, visited, visited', u);
    TallyDone(g, u, parent, visited, visited', kids, k);
    found := false;
  }

  /**
   * Cycle detection in the undirected graph: a parent-aware DFS from every
   * vertex not yet marked. A cycle is reported exactly when the graph is
   * not a forest, that is when its edge count differs from the vertex
   * count less the number of components; an edge from a vertex to itself
   * is always reported.
   */
  method HasCycle(n: nat, edges: seq<(nat, nat)>) returns (r: bool)
    requires ValidEdges(n, edges)
    ensures (exists k :: 0 <= k < |edges| && edges[k].0 == edges[k].1) ==> r
    ensures r <==> |edges| + Representatives(Undirected(n, edges), n) != n
  {
    var g := BuildUndirected(n, edges);
    UndirectedSymmetric(n, edges);
    UndirectedCountSymmetric(n, edges);
    var visited: set<nat> := {};
    ghost var roots := 0;
    ExcessNone(g, {}, n);
    for i := 0 to n
      invariant SearchedAcyclic(g, visited, i, roots)
    {
      if i !in visited {
        var found, visited' := DfsCycle(g, i, -1, visited);
        if found {
          UndirectedSymmetric(n, edges);
          ghost var marked := ReportedComponent(g, visited, i, roots);
          marked := RestAtLeast(g, marked, i + 1);
          MoreThanForest(n, edges, marked);
          return true;
        }
        CycleRootStep(g, i, visited, visited', roots);
        visited, roots := visited', roots + 1;
      } else {
        MarkedStep(g, i, visited);
      }
    }
    ForestEnd(n, edges, g, visited, roots);
    r := false;
  }

  /**
   * The state of `hasCycle` after searching from 0..i-1 without a report:
   * the marked set is searched, holds no self-loop, and its excess is -2
   * per component found.
   */
  ghost predicate SearchedAcyclic(g: seq<seq<nat>>, visited: set<nat>, i: nat, roots: int) {
    && Searched(g, visited, i)
    && (forall v :: v in visited ==> v < |g| && !Edge(g, v, v))
    && roots == Representatives(g, i)
    && Excess(g, visited, |g|) == -2 * roots
  }

  /** With every vertex searched and no report, there is no self-loop and the graph is a forest. */
  lemma ForestEnd(n: nat, edges: seq<(nat, nat)>, g: seq<seq<nat>>, visited: set<nat>, roots: int)
    requires ValidEdges(n, edges) && g == Undirected(n, edges)
    requires SearchedAcyclic(g, visited, n, roots)
    ensures forall k :: 0 <= k < |edges| ==> edges[k].0 != edges[k].1
    ensures |edges| + Representatives(g, n) == n
  {
    forall x: nat | x < n ensures x in visited {
      MarkedAll(g, visited, n, x);
    }
    ExcessAll(g, visited, n);
    UndirectedDegrees(n, edges);
    forall k | 0 <= k < |edges| ensures edges[k].0 != edges[k].1 {
      var (a, b) := edges[k];
      MarkedAll(g, visited, n, a);
      UndirectedEdge(n, edges, a, b);
    }
  }

  /** The component of a reporting root, marked in full, is one above -2. */
  lemma ReportedComponent(g: seq<seq<nat>>, visited: set<nat>, i: nat, roots: int) returns (vis: set<nat>)
    requires WellFormed(g) && Symmetric(g) && i < |g| && i !in visited
    requires SearchedAcyclic(g, visited, i, roots)
    requires Excess(g, ReachSet(g, visited, i), |g|) > -2
    ensures SearchedWithin(g, vis, i + 1)
    ensures Excess(g, vis, |g|) > -2 * Representatives(g, i + 1)
  {
    var reach := ReachSet(g, visited, i);
    ReachSetIs(g, visited, i);
    ReachableRefl(g, visited, i);
    vis := visited + reach;
    assert vis - visited == reach;
    ComponentStep(g, i, visited, vis);
    ExcessUnion(g, visited, reach, |g|);
  }

  /**
   * Searching every vertex from `j` on, each new component adds excess at
   * least -2, so a marked set already above -2 per component stays so.
   */
  lemma RestAtLeast(g: seq<seq<nat>>, visited: set<nat>, j: nat) returns (all: set<nat>)
    requires UndirectedShape(g) && j <= |g| && SearchedWithin(g, visited, j)
    requires Excess(g, visited, |g|) > -2 * Representatives(g, j)
    ensures Searched(g, all, |g|)
    ensures Excess(g, all, |g|) > -2 * Representatives(g, |g|)
    decreases |g| - j
  {
    if j == |g| {
      all := visited;
    } else {
      var next := RestStep(g, j, visited);
      all := RestAtLeast(g, next, j + 1);
    }
  }

  /** Searched in full with excess above -2 per component, the graph has more edges than a forest. */
  lemma MoreThanForest(n: nat, edges: seq<(nat, nat)>, all: set<nat>)
    requires ValidEdges(n, edges)
    requires Searched(Undirected(n, edges), all, n)
    requires Excess(Undirected(n, edges), all, n) > -2 * Representatives(Undirected(n, edges), n)
    ensures |edges| + Representatives(Undirected(n, edges), n) != n
  {
    SearchedExcess(Undirected(n, edges), all);
    UndirectedDegrees(n, edges);
  }

  /** Adjacency lists of an undirected multigraph. */
  ghost predicate UndirectedShape(g: seq<seq<nat>>) {
    WellFormed(g) && Symmetric(g) && CountSymmetric(g)
  }

  /** `Searched`, with every marked vertex one of the graph's. */
  ghost predicate SearchedWithin(g: seq<seq<nat>>, marked: set<nat>, j: nat) {
    Searched(g, marked, j) && forall v :: v in marked ==> v < |g|
  }

  /** With every vertex searched, the excess of the marked set is that of the whole graph. */
  lemma SearchedExcess(g: seq<seq<nat>>, marked: set<nat>)
    requires Searched(g, marked, |g|)
    ensures Excess(g, marked, |g|) == Degrees(g, |g|) - 2 * |g|
  {
    forall x: nat | x < |g| ensures x in marked {
      MarkedAll(g, marked, |g|, x);
    }
    ExcessAll(g, marked, |g|);
  }

  /** One round of the outer search, carried on past reports: excess at least -2 per new component. */
  lemma RestStep(g: seq<seq<nat>>, m: nat, marked: set<nat>) returns (marked': set<nat>)
    requires UndirectedShape(g) && m < |g| && SearchedWithin(g, marked, m)
    ensures SearchedWithin(g, marked', m + 1)
    ensures Excess(g, marked', |g|) + 2 * Representatives(g, m + 1) >= Excess(g, marked, |g|) + 2 * Representatives(g, m)
  {
    if m !in marked {
      marked' := GhostSearch(g, m, -1, marked);
      ComponentStep(g, m, marked, marked');
      forall v | v in marked' ensures v < |g| {
        if v !in marked {
          ReachableInRange(g, marked, m, v);
        }
      }
      assert marked' == marked + (marked' - marked);
      ExcessUnion(g, marked, marked' - marked, |g|);
    } else {
      MarkedStep(g, m, marked);
      marked' := marked;
    }
  }

  /** A DFS from an unmarked root without a report adds one component, no self-loop and excess -2. */
  lemma CycleRootStep(g: seq<seq<nat>>, i: nat, visited: set<nat>, visited': set<nat>, roots: int)
    requires WellFormed(g) && Symmetric(g) && i < |g| && i !in visited
    requires SearchedAcyclic(g, visited, i, roots)
    requires visited + {i} <= visited'
    requires forall v :: v in visited' && v !in visited <==> ReachableAvoiding(g, visited, i, v)
    requires ClosedOutside(g, visited', visited)
    requires forall v :: v in visited' && v !in visited ==> !Edge(g, v, v)
    requires Excess(g, visited' - visited, |g|) == ParentCount(g[i], -1) - 2
    ensures SearchedAcyclic(g, visited', i + 1, roots + 1)
  {
    ComponentStep(g, i, visited, visited');
    forall v | v in visited' && v !in visited ensures v < |g| {
      ReachableInRange(g, visited, i, v);
    }
    assert visited' == visited + (visited' - visited);
    ExcessUnion(g, visited, visited' - visited, |g|);
  }

  /** Every vertex below n is marked once 0..n-1 have been searched. */
  lemma MarkedAll(g: seq<seq<nat>>, visited: set<nat>, n: nat, a: nat)
    requires a < n && Searched(g, visited, n)
    ensures a in visited
  {
    ReachableRefl(g, {}, a);
    assert Reachable(g, a, a);
  }

  /** At least one component: vertex 0 is always the least of its own. */
  lemma {:induction false} RepresentativesPositive(g: seq<seq<nat>>, k: nat)
    requires k > 0
    ensures Representatives(g, k) >= 1
    decreases k
  {
    if k > 1 {
      RepresentativesPositive(g, k - 1);
    } else {
      assert IsRepresentative(g, 0);
    }
  }

  /**
   * A graph with at least as many edges as vertices is no forest: with
   * `HasCycle`'s contract it is always reported (the triangle
   * (0,1), (1,2), (2,0) among them).
   */
  lemma NotAForest(n: nat, edges: seq<(nat, nat)>)
    requires ValidEdges(n, edges) && n > 0 && |edges| >= n
    ensures |edges| + Representatives(Undirected(n, edges), n) != n
  {
    RepresentativesPositive(Undirected(n, edges), n);
  }
}
