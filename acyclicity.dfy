/**
  Acyclicity of the directed graph that a weighted adjacency matrix carries.

  Convention of the structure-learning code: entry `m[j][i]` is the weight of
  the edge `i -> j`, and an entry of exactly zero means "no edge".

  `Acyclic` is the definition (no closed walk of one or more edges);
  `IsDag` is an executable decision procedure for it, standing for the
  `is_dag` helper the pruning code calls (its own source is not part of this
  model). `IsDagCorrect` proves that the two agree on every matrix.
*/
module Acyclicity {
  import opened Matrices

  /** The edge `i -> j`: entry `[j][i]` exists and is nonzero. */
  predicate Edge(m: Matrix, i: nat, j: nat) {
    j < |m| && i < |m[j]| && m[j][i] != 0.0
  }

  /** `p` is a closed walk of at least one edge over the nodes `0 .. |m|-1`. */
  ghost predicate IsCycle(m: Matrix, p: seq<nat>) {
    && |p| >= 2
    && p[0] == p[|p| - 1]
    && (forall k :: 0 <= k < |p| ==> p[k] < |m|)
    && (forall k :: 0 <= k < |p| - 1 ==> Edge(m, p[k], p[k + 1]))
  }

  /** The graph of `m` has no directed cycle. */
  ghost predicate Acyclic(m: Matrix) {
    forall p :: !IsCycle(m, p)
  }

  /** No entry of `m` is an edge. */
  predicate Edgeless(m: Matrix) {
    forall r, c :: 0 <= r < |m| && 0 <= c < |m[r]| ==> m[r][c] == 0.0
  }

  /** `v` has no edge into a node of `S`. */
  predicate IsSinkIn(m: Matrix, v: nat, S: set<nat>) {
    forall u :: u in S ==> !Edge(m, v, u)
  }

  /** The nodes `0 .. n-1`. */
  function Nodes(n: nat): (S: set<nat>)
    ensures forall v: nat :: v in S <==> v < n
  {
    if n == 0 then {} else Nodes(n - 1) + {n - 1}
  }

  /**
    Repeatedly deletes from `S` every node that has no edge into `S`, and
    returns what is left once no such node remains: a set in which every node
    has a successor.
  */
  function Peel(m: Matrix, S: set<nat>): (core: set<nat>)
    ensures core <= S
    ensures forall v {:trigger IsSinkIn(m, v, core)} :: v in core ==> !IsSinkIn(m, v, core)
    decreases |S|
  {
    var sinks := set v | v in S && IsSinkIn(m, v, S);
    if sinks == {} then
      assert forall v :: v in S ==> v !in sinks;
      S
    else
      assert S - sinks < S;
      Peel(m, S - sinks)
  }

  /** The `is_dag` check: peeling every node of the graph leaves nothing. */
  predicate IsDag(m: Matrix) {
    Peel(m, Nodes(|m|)) == {}
  }

  /** When peeling `S` leaves nothing, no cycle lies entirely inside `S`. */
  lemma {:induction false} PeelEmptyNoCycle(m: Matrix, S: set<nat>, p: seq<nat>)
    requires Peel(m, S) == {}
    requires IsCycle(m, p)
    ensures exists k :: 0 <= k < |p| && p[k] !in S
    decreases |S|
  {
    var sinks := set v | v in S && IsSinkIn(m, v, S);
    if forall k :: 0 <= k < |p| ==> p[k] in S {
      if sinks == {} {
        assert p[0] in Peel(m, S);
      } else {
        // every node on the cycle has its successor on the cycle, so it is no sink
        forall k | 0 <= k < |p|
          ensures p[k] !in sinks
        {
          var next := if k < |p| - 1 then k + 1 else 1;
          assert Edge(m, p[k], p[next]);
        }
        PeelEmptyNoCycle(m, S - sinks, p);
      }
    }
  }

  /** A walk of `n` edges from `v` that stays inside `T`, where every node has a successor. */
  ghost function Walk(m: Matrix, T: set<nat>, v: nat, n: nat): (w: seq<nat>)
    requires v in T
    requires forall x {:trigger IsSinkIn(m, x, T)} :: x in T ==> !IsSinkIn(m, x, T)
    ensures |w| == n + 1 && w[0] == v
    ensures forall k :: 0 <= k < |w| ==> w[k] in T
    ensures forall k :: 0 <= k < n ==> Edge(m, w[k], w[k + 1])
    decreases n
  {
    if n == 0 then [v]
    else
      assert !IsSinkIn(m, v, T);
      var u :| u in T && Edge(m, v, u);
      var rest := Walk(m, T, u, n - 1);
      var w := [v] + rest;
      assert forall k :: 1 <= k < |w| ==> w[k] == rest[k - 1];
      w
  }

  /** A sequence longer than the set its elements come from repeats an element. */
  lemma {:induction false} Pigeonhole(w: seq<nat>, T: set<nat>)
    requires forall k :: 0 <= k < |w| ==> w[k] in T
    requires |w| > |T|
    ensures exists i, j :: 0 <= i < j < |w| && w[i] == w[j]
  {
    if w[0] in w[1..] {
      var j :| 0 <= j < |w[1..]| && w[1..][j] == w[0];
      assert w[0] == w[j + 1];
    } else {
      var rest := w[1..];
      assert forall k :: 0 <= k < |rest| ==> rest[k] in T - {w[0]};
      Pigeonhole(rest, T - {w[0]});
      var i, j :| 0 <= i < j < |rest| && rest[i] == rest[j];
      assert w[i + 1] == w[j + 1];
    }
  }

  /** A nonempty set of nodes each having a successor inside it contains a cycle. */
  lemma CoreHasCycle(m: Matrix, T: set<nat>)
    requires T != {}
    requires forall v :: v in T ==> v < |m|
    requires forall v {:trigger IsSinkIn(m, v, T)} :: v in T ==> !IsSinkIn(m, v, T)
    ensures !Acyclic(m)
  {
    var v :| v in T;
    var w := Walk(m, T, v, |T|);
    Pigeonhole(w, T);
    var i, j :| 0 <= i < j < |w| && w[i] == w[j];
    var p := w[i..j + 1];
    forall k | 0 <= k < |p| - 1
      ensures Edge(m, p[k], p[k + 1])
    {
      assert p[k] == w[i + k] && p[k + 1] == w[i + k + 1];
    }
    assert IsCycle(m, p);
  }

  /** The `is_dag` check decides acyclicity, in both directions. */
  lemma IsDagCorrect(m: Matrix)
    ensures IsDag(m) <==> Acyclic(m)
  {
    var all := Nodes(|m|);
    if IsDag(m) {
      forall p | IsCycle(m, p)
        ensures false
      {
        PeelEmptyNoCycle(m, all, p);
      }
    } else {
      CoreHasCycle(m, Peel(m, all));
    }
  }

  /** A matrix with no nonzero entry passes the `is_dag` check. */
  lemma EdgelessIsDag(m: Matrix)
    requires Edgeless(m)
    ensures IsDag(m)
  {
    forall p
      ensures !IsCycle(m, p)
    {
      if |p| >= 2 && p[0] < |m| {
        assert !Edge(m, p[0], p[1]);
      }
    }
    IsDagCorrect(m);
  }

  /**
    A numbering of the nodes that every edge increases (a topological
    order) rules out cycles.
  */
  lemma TopologicalOrderAcyclic(m: Matrix, rank: nat -> int)
    requires forall i, j :: Edge(m, i, j) ==> rank(i) < rank(j)
    ensures Acyclic(m)
  {
    forall p | IsCycle(m, p)
      ensures false
    {
      // rank strictly increases along the walk, yet it returns to its start
      var k := 0;
      while k < |p| - 1
        invariant 0 <= k <= |p| - 1
        invariant k > 0 ==> rank(p[0]) < rank(p[k])
      {
        assert Edge(m, p[k], p[k + 1]);
        k := k + 1;
      }
    }
  }

  /** Deleting edges keeps a graph acyclic: here every edge of `a` is an edge of `b`. */
  lemma SubgraphAcyclic(a: Matrix, b: Matrix)
    requires |a| == |b|
    requires forall i: nat, j: nat :: Edge(a, i, j) ==> Edge(b, i, j)
    requires Acyclic(b)
    ensures Acyclic(a)
  {
    forall p | IsCycle(a, p)
      ensures IsCycle(b, p)
    {
    }
  }
}
