/**
 * Paths over adjacency lists. A graph on the vertices 0..|g|-1 is given by
 * `g[u]`, the list of neighbours of `u` in insertion order. Used by the
 * traversals of both `Graph` and `StackAndQueue`.
 */
module Paths {
  import opened Seqs

  /** Every listed neighbour is itself a vertex. */
  ghost predicate WellFormed(g: seq<seq<nat>>) {
    forall u, k :: 0 <= u < |g| && 0 <= k < |g[u]| ==> g[u][k] < |g|
  }

  ghost predicate Edge(g: seq<seq<nat>>, u: nat, v: nat) {
    u < |g| && v in g[u]
  }

  /** A non-empty walk along edges of `g`. */
  ghost predicate IsPath(g: seq<seq<nat>>, p: seq<nat>) {
    |p| > 0 && forall i :: 0 <= i < |p| - 1 ==> Edge(g, p[i], p[i + 1])
  }

  /** `p` touches no vertex of `x`. */
  ghost predicate Avoids(p: seq<nat>, x: set<nat>) {
    forall i :: 0 <= i < |p| ==> p[i] !in x
  }

  /** `t` can be reached from `s` by a walk that never enters `x`. */
  ghost predicate ReachableAvoiding(g: seq<seq<nat>>, x: set<nat>, s: nat, t: nat) {
    exists p :: IsPath(g, p) && p[0] == s && p[|p| - 1] == t && Avoids(p, x)
  }

  ghost predicate Reachable(g: seq<seq<nat>>, s: nat, t: nat) {
    ReachableAvoiding(g, {}, s, t)
  }

  /** The vertices 0..n-1. */
  function Range(n: nat): (r: set<nat>)
    ensures forall v: int :: v in r <==> 0 <= v < n
    ensures |r| == n
  {
    if n == 0 then {} else Range(n - 1) + {n - 1}
  }

  lemma SubsetCardinality<T>(a: set<T>, b: set<T>)
    requires a <= b
    ensures |a| <= |b|
    ensures a != b ==> |a| < |b|
  {
    assert b == a + (b - a);
    if a != b {
      var x :| x in b && x !in a;
      assert x in b - a;
    }
  }

  /**
   * A duplicate-free sequence of vertices 0..n-1 is no longer than n, and
   * holds every vertex when it is exactly that long.
   */
  lemma DistinctVertices(s: seq<nat>, n: nat)
    requires Distinct(s) && forall k :: 0 <= k < |s| ==> s[k] < n
    ensures |s| <= n
    ensures |s| == n ==> forall v: nat :: v < n ==> v in s
  {
    SubsetCardinality(Elems(s), Range(n));
  }

  /** The listed vertices not in `visited`, in list order. */
  function Unvisited(ns: seq<nat>, visited: set<nat>): (r: seq<nat>)
    ensures forall x :: x in r <==> x in ns && x !in visited
  {
    if ns == [] then []
    else
      var p := ns[..|ns| - 1];
      var x := ns[|ns| - 1];
      assert ns == p + [x];
      if x in visited then Unvisited(p, visited) else Unvisited(p, visited) + [x]
  }

  lemma UnvisitedSnoc(ns: seq<nat>, x: nat, visited: set<nat>)
    ensures x in visited ==> Unvisited(ns + [x], visited) == Unvisited(ns, visited)
    ensures x !in visited ==> Unvisited(ns + [x], visited) == Unvisited(ns, visited) + [x]
  {
    assert (ns + [x])[..|ns|] == ns;
  }

  /** The listed vertices outside `visited`, each once, in order of first listing. */
  function Fresh(ns: seq<nat>, visited: set<nat>): (r: seq<nat>)
    ensures Distinct(r)
    ensures forall x :: x in r <==> x in ns && x !in visited
  {
    if ns == [] then []
    else
      var p := ns[..|ns| - 1];
      var x := ns[|ns| - 1];
      assert ns == p + [x];
      var r := Fresh(p, visited);
      if x in visited || x in r then r
      else
        DistinctConcat(r, [x]);
        r + [x]
  }

  lemma FreshSnoc(ns: seq<nat>, x: nat, visited: set<nat>)
    ensures x in visited || x in ns ==> Fresh(ns + [x], visited) == Fresh(ns, visited)
    ensures x !in visited && x !in ns ==> Fresh(ns + [x], visited) == Fresh(ns, visited) + [x]
  {
    assert (ns + [x])[..|ns|] == ns;
  }

  /** A walk that avoids `x` starts and ends outside `x`. */
  lemma ReachableEndpoints(g: seq<seq<nat>>, x: set<nat>, s: nat, t: nat)
    requires ReachableAvoiding(g, x, s, t)
    ensures s !in x && t !in x
  {
    var p :| IsPath(g, p) && p[0] == s && p[|p| - 1] == t && Avoids(p, x);
    assert p[0] !in x && p[|p| - 1] !in x;
  }

  lemma ReachableRefl(g: seq<seq<nat>>, x: set<nat>, s: nat)
    requires s !in x
    ensures ReachableAvoiding(g, x, s, s)
  {
    assert IsPath(g, [s]) && Avoids([s], x);
  }

  lemma ReachableStep(g: seq<seq<nat>>, x: set<nat>, s: nat, u: nat, v: nat)
    requires ReachableAvoiding(g, x, s, u)
    requires Edge(g, u, v) && v !in x
    ensures ReachableAvoiding(g, x, s, v)
  {
    var p :| IsPath(g, p) && p[0] == s && p[|p| - 1] == u && Avoids(p, x);
    var q := p + [v];
    assert IsPath(g, q);
    assert Avoids(q, x);
  }

  lemma EdgeReachable(g: seq<seq<nat>>, x: set<nat>, u: nat, v: nat)
    requires Edge(g, u, v) && u !in x && v !in x
    ensures ReachableAvoiding(g, x, u, v)
  {
    ReachableRefl(g, x, u);
    ReachableStep(g, x, u, u, v);
  }

  lemma ReachableTrans(g: seq<seq<nat>>, x: set<nat>, y: set<nat>, s: nat, u: nat, t: nat)
    requires x <= y
    requires ReachableAvoiding(g, x, s, u) && ReachableAvoiding(g, y, u, t)
    ensures ReachableAvoiding(g, x, s, t)
  {
    var p :| IsPath(g, p) && p[0] == s && p[|p| - 1] == u && Avoids(p, x);
    var q :| IsPath(g, q) && q[0] == u && q[|q| - 1] == t && Avoids(q, y);
    var r := p + q[1..];
    assert IsPath(g, r) by {
      forall i | 0 <= i < |r| - 1 ensures Edge(g, r[i], r[i + 1]) {
        if i < |p| - 1 {
        } else {
          assert r[i] == q[i - |p| + 1] && r[i + 1] == q[i - |p| + 2];
        }
      }
    }
    assert Avoids(r, x);
  }

  /** Avoiding more vertices is harder: such walks also avoid fewer. */
  lemma ReachableWeaken(g: seq<seq<nat>>, x: set<nat>, y: set<nat>, s: nat, t: nat)
    requires x <= y && ReachableAvoiding(g, y, s, t)
    ensures ReachableAvoiding(g, x, s, t)
  {
    var p :| IsPath(g, p) && p[0] == s && p[|p| - 1] == t && Avoids(p, y);
    assert Avoids(p, x);
  }

  /** Every vertex reachable within a well-formed graph is one of its vertices. */
  lemma ReachableInRange(g: seq<seq<nat>>, x: set<nat>, s: nat, t: nat)
    requires WellFormed(g) && s < |g| && ReachableAvoiding(g, x, s, t)
    ensures t < |g|
  {
    var p :| IsPath(g, p) && p[0] == s && p[|p| - 1] == t && Avoids(p, x);
    if |p| > 1 {
      assert Edge(g, p[|p| - 2], p[|p| - 1]);
    }
  }

  /**
   * Every listed neighbour of a vertex of `s` outside `x` is in `s` or in `x`:
   * no edge leaves `s` except into `x`.
   */
  ghost predicate ClosedOutside(g: seq<seq<nat>>, s: set<nat>, x: set<nat>) {
    forall u, k :: u in s && u !in x && u < |g| && 0 <= k < |g[u]| ==> g[u][k] in s || g[u][k] in x
  }

  /**
   * A set closed outside `x` that holds `start` holds every vertex reachable
   * from `start` without entering `x`.
   */
  lemma {:induction false} ClosedSetHoldsReachable(g: seq<seq<nat>>, x: set<nat>, s: set<nat>, start: nat, t: nat)
    requires start in s && ClosedOutside(g, s, x)
    requires ReachableAvoiding(g, x, start, t)
    ensures t in s
  {
    var p :| IsPath(g, p) && p[0] == start && p[|p| - 1] == t && Avoids(p, x);
    var i := 0;
    while i < |p| - 1
      invariant 0 <= i < |p| && p[i] in s
    {
      assert Edge(g, p[i], p[i + 1]);
      var k :| 0 <= k < |g[p[i]]| && g[p[i]][k] == p[i + 1];
      assert p[i] !in x && p[i + 1] !in x;
      i := i + 1;
    }
  }

  /** `t` can be reached from `s` by a walk of at most `d` edges. */
  ghost predicate Within(g: seq<seq<nat>>, s: nat, t: nat, d: nat) {
    exists p :: IsPath(g, p) && p[0] == s && p[|p| - 1] == t && |p| <= d + 1
  }

  /** The fewest edges on a walk from `s` to `t` is `d`. */
  ghost predicate AtDistance(g: seq<seq<nat>>, s: nat, t: nat, d: nat) {
    Within(g, s, t, d) && (d == 0 || !Within(g, s, t, d - 1))
  }

  lemma WithinStart(g: seq<seq<nat>>, s: nat)
    ensures AtDistance(g, s, s, 0)
  {
    assert IsPath(g, [s]);
  }

  /** A walk of at most `d` edges has at most `e` edges for every `e >= d`. */
  lemma WithinMore(g: seq<seq<nat>>, s: nat, t: nat, d: nat, e: nat)
    requires Within(g, s, t, d) && d <= e
    ensures Within(g, s, t, e)
  {
    var p :| IsPath(g, p) && p[0] == s && p[|p| - 1] == t && |p| <= d + 1;
  }

  /** One more edge from `u` reaches `v` within one more step. */
  lemma WithinStep(g: seq<seq<nat>>, s: nat, u: nat, v: nat, d: nat)
    requires Within(g, s, u, d) && Edge(g, u, v)
    ensures Within(g, s, v, d + 1)
  {
    var p :| IsPath(g, p) && p[0] == s && p[|p| - 1] == u && |p| <= d + 1;
    assert IsPath(g, p + [v]);
  }

  /** A vertex other than `s` within `d` steps has a neighbour-in within `d - 1` steps. */
  lemma WithinLast(g: seq<seq<nat>>, s: nat, t: nat, d: nat) returns (y: nat)
    requires Within(g, s, t, d) && t != s
    ensures d > 0 && Within(g, s, y, d - 1) && Edge(g, y, t)
  {
    var p :| IsPath(g, p) && p[0] == s && p[|p| - 1] == t && |p| <= d + 1;
    var q := p[..|p| - 1];
    y := p[|p| - 2];
    assert Edge(g, p[|p| - 2], p[|p| - 1]);
    assert IsPath(g, q) && q[0] == s && q[|q| - 1] == y;
  }

  /** The distance is at most the length of every walk. */
  lemma DistanceAtMost(g: seq<seq<nat>>, s: nat, t: nat, a: nat, d: nat)
    requires AtDistance(g, s, t, a) && Within(g, s, t, d)
    ensures a <= d
  {
  }

  /** The vertices reachable from `s` without entering `x`. */
  ghost function ReachSet(g: seq<seq<nat>>, x: set<nat>, s: nat): set<nat> {
    set v: nat | v < |g| && ReachableAvoiding(g, x, s, v)
  }

  /** The reach set avoids `x`, and together with `x` it is closed. */
  lemma ReachSetIs(g: seq<seq<nat>>, x: set<nat>, s: nat)
    requires WellFormed(g) && s < |g|
    ensures forall v :: v in ReachSet(g, x, s) <==> ReachableAvoiding(g, x, s, v)
    ensures ReachSet(g, x, s) !! x
    ensures ClosedOutside(g, x + ReachSet(g, x, s), x)
  {
    var r := ReachSet(g, x, s);
    forall v | ReachableAvoiding(g, x, s, v) ensures v in r {
      ReachableInRange(g, x, s, v);
    }
    forall v | v in r ensures v !in x {
      ReachableEndpoints(g, x, s, v);
    }
    forall u, k | u in x + r && u !in x && u < |g| && 0 <= k < |g[u]| ensures g[u][k] in x + r {
      if g[u][k] !in x {
        ReachableStep(g, x, s, u, g[u][k]);
        ReachableInRange(g, x, s, g[u][k]);
      }
    }
  }

  /** Every listed neighbour has the reverse edge too. */
  ghost predicate Symmetric(g: seq<seq<nat>>) {
    forall u, v :: Edge(g, u, v) ==> Edge(g, v, u)
  }

  lemma ReachableSymmetric(g: seq<seq<nat>>, x: set<nat>, s: nat, t: nat)
    requires Symmetric(g) && ReachableAvoiding(g, x, s, t)
    ensures ReachableAvoiding(g, x, t, s)
  {
    var p :| IsPath(g, p) && p[0] == s && p[|p| - 1] == t && Avoids(p, x);
    var q := seq(|p|, i requires 0 <= i < |p| => p[|p| - 1 - i]);
    assert IsPath(g, q) by {
      forall i | 0 <= i < |q| - 1 ensures Edge(g, q[i], q[i + 1]) {
        assert Edge(g, p[|p| - 2 - i], p[|p| - 1 - i]);
      }
    }
    assert Avoids(q, x);
  }
}
