/** Finite directed graphs: walks, cycles, and the two facts both graph algorithms of the
    library rest on. A rank that falls along every edge rules out cycles; a nonempty set of
    nodes none of which can be left for good forces one. */
module Graph {

  /** g[i] is the set of nodes that node i points to. */
  type Digraph = seq<set<nat>>

  ghost predicate Walk(g: Digraph, p: seq<nat>) {
    && |p| > 0
    && (forall i | 0 <= i < |p| :: p[i] < |g|)
    && (forall i | 0 < i < |p| :: p[i] in g[p[i - 1]])
  }

  ghost predicate Cyclic(g: Digraph) {
    exists p :: Walk(g, p) && |p| >= 2 && p[0] == p[|p| - 1]
  }

  /** Every edge leads to a node of smaller rank. */
  ghost predicate Ranked(g: Digraph, rank: seq<nat>) {
    && |rank| == |g|
    && forall i, j | 0 <= i < |g| && j in g[i] :: j < |g| && rank[j] < rank[i]
  }

  lemma {:induction false} RankFallsAlongWalk(g: Digraph, rank: seq<nat>, p: seq<nat>, k: nat)
    requires Ranked(g, rank) && Walk(g, p) && k < |p|
    ensures rank[p[k]] + k <= rank[p[0]]
  {
    if k > 0 {
      RankFallsAlongWalk(g, rank, p, k - 1);
      assert p[k] in g[p[k - 1]];
    }
  }

  lemma RankedIsAcyclic(g: Digraph, rank: seq<nat>)
    requires Ranked(g, rank)
    ensures !Cyclic(g)
  {
    forall p | Walk(g, p) && |p| >= 2
      ensures p[0] != p[|p| - 1]
    {
      RankFallsAlongWalk(g, rank, p, |p| - 1);
    }
  }

  /** Positions in a duplicate-free order that lists every target before its source are a rank. */
  lemma OrderIsAcyclic(g: Digraph, order: seq<nat>)
    requires |order| == |g|
    requires forall v | 0 <= v < |g| :: v in order
    requires forall q, t | 0 <= q < |order| && order[q] < |g| && t in g[order[q]] :: t in order[..q]
    requires forall q, r | 0 <= q < r < |order| :: order[q] != order[r]
    requires forall q | 0 <= q < |order| :: order[q] < |g|
    ensures !Cyclic(g)
  {
    var rank := Positions(order, |g|);
    forall i, j | 0 <= i < |g| && j in g[i]
      ensures j < |g| && rank[j] < rank[i]
    {
      var q := IndexOf(order, i);
      assert order[q] == i && j in order[..q];
      var r :| 0 <= r < q && order[r] == j;
      assert IndexOf(order, j) == r;
    }
    assert Ranked(g, rank);
    RankedIsAcyclic(g, rank);
  }

  /** Where each of 0 .. n - 1 stands in the order. */
  ghost function Positions(order: seq<nat>, n: nat): (rank: seq<nat>)
    requires forall v | 0 <= v < n :: v in order
    ensures |rank| == n && forall v | 0 <= v < n :: rank[v] == IndexOf(order, v)
  {
    if n == 0 then [] else Positions(order, n - 1) + [IndexOf(order, n - 1)]
  }

  ghost function IndexOf(s: seq<nat>, v: nat): (k: nat)
    requires v in s
    ensures k < |s| && s[k] == v
  {
    var k :| 0 <= k < |s| && s[k] == v;
    k
  }

  /** v has an edge that stays inside S. */
  ghost predicate StepsWithin(g: Digraph, S: set<nat>, v: nat) {
    v < |g| && exists w :: w in S && w in g[v]
  }

  /** A walk of any length can be drawn inside a set that every member can step within. */
  lemma {:induction false} WalkWithin(g: Digraph, S: set<nat>, len: nat) returns (p: seq<nat>)
    requires S != {} && forall v | v in S :: StepsWithin(g, S, v)
    requires len > 0
    ensures Walk(g, p) && |p| == len && forall i | 0 <= i < |p| :: p[i] in S
  {
    if len == 1 {
      var v :| v in S;
      assert StepsWithin(g, S, v);
      p := [v];
    } else {
      var q := WalkWithin(g, S, len - 1);
      assert StepsWithin(g, S, q[|q| - 1]);
      var w :| w in S && w in g[q[|q| - 1]];
      assert StepsWithin(g, S, w);
      WalkOn(g, q, w);
      p := q + [w];
    }
  }

  lemma WalkOn(g: Digraph, q: seq<nat>, w: nat)
    requires q != [] && Walk(g, q) && w < |g| && w in g[q[|q| - 1]]
    ensures Walk(g, q + [w])
  {}

  lemma {:induction false} DistinctBelow(p: seq<nat>, n: nat)
    requires forall i | 0 <= i < |p| :: p[i] < n
    requires forall i, j | 0 <= i < j < |p| :: p[i] != p[j]
    ensures |p| <= n
    decreases n
  {
    if |p| > 0 {
      assert p[0] < n;
      if k :| 0 <= k < |p| && p[k] == n - 1 {
        DistinctBelow(p[..k] + p[k + 1..], n - 1);
      } else {
        DistinctBelow(p, n - 1);
      }
    }
  }

  lemma StuckIsCyclic(g: Digraph, S: set<nat>)
    requires S != {} && forall v | v in S :: StepsWithin(g, S, v)
    ensures Cyclic(g)
  {
    var p := WalkWithin(g, S, |g| + 1);
    LongWalkIsCyclic(g, p);
  }

  /** A walk through more nodes than there are meets one of them twice. */
  lemma LongWalkIsCyclic(g: Digraph, p: seq<nat>)
    requires Walk(g, p) && |p| > |g|
    ensures Cyclic(g)
  {
    if forall i, j | 0 <= i < j < |p| :: p[i] != p[j] {
      DistinctBelow(p, |g|);
      assert false;
    }
    var i, j :| 0 <= i < j < |p| && p[i] == p[j];
    assert Walk(g, p[i..j + 1]);
  }
}
