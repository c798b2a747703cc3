/** The part of an undirected networkx graph that the dashboards use: nodes named by
    strings, one weight attribute per edge, and the degree queries. */
module Graphs {

  /** Every edge is created with weight 1 and weights only ever grow or are reset to 1. */
  type EdgeWeight = w: nat | w >= 1 witness 1

  /** {x, y} and {u, v} are the same unordered pair. */
  predicate SamePair(x: string, y: string, u: string, v: string) {
    (x == u && y == v) || (x == v && y == u)
  }

  /** Some element of a non-empty map's domain, fixed once so that sums over a map can be unfolded at any key. */
  ghost function Pick(m: map<string, EdgeWeight>): (k: string)
    requires m != map[]
    ensures k in m
  {
    assert m.Keys != {};
    var k :| k in m.Keys; k
  }

  /** The sum of the weights stored in a neighbour map. */
  ghost function WeightSum(m: map<string, EdgeWeight>): nat
    decreases |m|
  {
    if m == map[] then 0
    else
      var k := Pick(m);
      assert |m - {k}| == |m| - 1 by { assert (m - {k}).Keys == m.Keys - {k}; }
      m[k] + WeightSum(m - {k})
  }

  /** The sum can be unfolded at any key, not only at the one Pick chooses. */
  lemma {:induction false} WeightSumAt(m: map<string, EdgeWeight>, y: string)
    requires y in m
    ensures WeightSum(m) == m[y] + WeightSum(m - {y})
    decreases |m|
  {
    var x := Pick(m);
    assert |m - {x}| == |m| - 1 by { assert (m - {x}).Keys == m.Keys - {x}; }
    if x != y {
      assert |m - {y}| == |m| - 1 by { assert (m - {y}).Keys == m.Keys - {y}; }
      assert m - {x} - {y} == m - {y} - {x};
      WeightSumAt(m - {x}, y);
      WeightSumAt(m - {y}, x);
    }
  }

  /** Every stored weight is at least 1, so the sum is at least the number of neighbours;
      with unit weights the two are equal. */
  lemma {:induction false} WeightSumBounds(m: map<string, EdgeWeight>)
    ensures WeightSum(m) >= |m|
    ensures (forall k :: k in m ==> m[k] == 1) ==> WeightSum(m) == |m|
    decreases |m|
  {
    if m != map[] {
      var k := Pick(m);
      assert |m - {k}| == |m| - 1 by { assert (m - {k}).Keys == m.Keys - {k}; }
      WeightSumBounds(m - {k});
    }
  }

  /** A networkx adjacency structure: a[u][v] is the weight of the edge {u, v}. */
  type Adjacency = map<string, map<string, EdgeWeight>>

  /** Edges are undirected: both directions exist together and share one weight. */
  ghost predicate Symmetric(a: Adjacency) {
    forall u, v :: u in a && v in a[u] ==> v in a && u in a[v] && a[v][u] == a[u][v]
  }

  /** The weight of the edge {u, v}, or 0 when there is no such edge. */
  function WeightIn(a: Adjacency, u: string, v: string): nat {
    if u in a && v in a[u] then a[u][v] else 0
  }

  /** The adjacency after storing w as the entry a[u][v] alone, creating u's neighbour map
      when missing. */
  function SetArc(a: Adjacency, u: string, v: string, w: EdgeWeight): (b: Adjacency)
    ensures b.Keys == a.Keys + {u}
    ensures u in b && v in b[u] && b[u][v] == w
    ensures forall x :: x in a && x != u ==> b[x] == a[x]
    ensures u in a ==> b[u].Keys == a[u].Keys + {v}
    ensures u in a ==> forall y :: y in a[u] && y != v ==> b[u][y] == a[u][y]
    ensures u !in a ==> b[u] == map[v := w]
  {
    a[u := (if u in a then a[u] else map[])[v := w]]
  }

  /** Storing both arcs of {u, v} changes the weight of no other pair. */
  lemma ArcsFrame(a: Adjacency, u: string, v: string, w: EdgeWeight)
    ensures forall x, y :: !SamePair(x, y, u, v) ==>
              WeightIn(SetArc(SetArc(a, u, v, w), v, u, w), x, y) == WeightIn(a, x, y)
  {
    var a1 := SetArc(a, u, v, w);
    forall x, y | !SamePair(x, y, u, v)
      ensures WeightIn(SetArc(a1, v, u, w), x, y) == WeightIn(a, x, y)
    {
      assert WeightIn(a1, x, y) == WeightIn(a, x, y);
    }
  }

  /** Storing both arcs of {u, v} with one weight keeps the adjacency symmetric. */
  lemma ArcsSymmetric(a: Adjacency, u: string, v: string, w: EdgeWeight)
    requires Symmetric(a)
    ensures Symmetric(SetArc(SetArc(a, u, v, w), v, u, w))
  {
    var b := SetArc(SetArc(a, u, v, w), v, u, w);
    ArcsFrame(a, u, v, w);
    forall x, y | x in b && y in b[x]
      ensures y in b && x in b[y] && b[y][x] == b[x][y]
    {
      if !SamePair(x, y, u, v) {
        assert WeightIn(b, x, y) == WeightIn(a, x, y);
        assert WeightIn(b, y, x) == WeightIn(a, y, x);
      }
    }
  }

  /** The adjacency after giving the edge {u, v} the weight w, creating it and its end points
      when missing; both directions receive the same weight, as they share one attribute record. */
  function SetEdge(a: Adjacency, u: string, v: string, w: EdgeWeight): (b: Adjacency)
    requires Symmetric(a)
    ensures Symmetric(b)
    ensures b.Keys == a.Keys + {u, v}
    ensures WeightIn(b, u, v) == w && WeightIn(b, v, u) == w
    ensures forall x, y :: !SamePair(x, y, u, v) ==> WeightIn(b, x, y) == WeightIn(a, x, y)
  {
    ArcsFrame(a, u, v, w);
    ArcsSymmetric(a, u, v, w);
    SetArc(SetArc(a, u, v, w), v, u, w)
  }

  class Graph {
    var adj: Adjacency

    ghost predicate Valid()
      reads this
    {
      Symmetric(adj)
    }

    function Nodes(): set<string>
      reads this
    {
      adj.Keys
    }

    function Weight(u: string, v: string): nat
      reads this
    {
      WeightIn(adj, u, v)
    }

    ghost predicate Isolated(n: string)
      reads this
    {
      forall m :: Weight(n, m) == 0
    }

    /** The unweighted degree: the number of neighbours, a self-loop counting twice. */
    function Degree(n: string): (d: nat)
      reads this
      requires n in adj
      ensures d == 0 <==> Isolated(n)
      ensures Weight(n, n) == 0 ==> d == |adj[n]|
    {
      assert adj[n] != map[] ==> Weight(n, Pick(adj[n])) > 0;
      |adj[n]| + (if n in adj[n] then 1 else 0)
    }

    /** The weighted degree: the sum of the weights of the incident edges, a self-loop counting twice. */
    ghost function WeightedDegreeOf(n: string): nat
      reads this
      requires n in adj
    {
      WeightSum(adj[n]) + Weight(n, n)
    }

    constructor ()
      ensures Valid()
      ensures Nodes() == {}
      ensures forall u, v :: Weight(u, v) == 0
    {
      adj := map[];
    }

    /** Adds n with no edges, or does nothing when n is already a node. */
    method AddNode(n: string)
      requires Valid()
      modifies this
      ensures Valid()
      ensures Nodes() == old(Nodes()) + {n}
      ensures forall u, v :: Weight(u, v) == old(Weight(u, v))
    {
      if n !in adj {
        adj := adj[n := map[]];
      }
    }

    method HasEdge(u: string, v: string) returns (b: bool)
      requires Valid()
      ensures b <==> Weight(u, v) > 0
      ensures b <==> Weight(v, u) > 0
    {
      b := u in adj && v in adj[u];
    }

    /** Adds the edge {u, v} with weight w, adding missing end points; on an existing edge
        the weight attribute is overwritten with w. */
    method AddEdge(u: string, v: string, w: EdgeWeight)
      requires Valid()
      modifies this
      ensures Valid()
      ensures Nodes() == old(Nodes()) + {u, v}
      ensures Weight(u, v) == w && Weight(v, u) == w
      ensures forall x, y :: !SamePair(x, y, u, v) ==> Weight(x, y) == old(Weight(x, y))
    {
      adj := SetEdge(adj, u, v, w);
    }

    /** Adds 1 to the weight of the existing edge {u, v}; the shared attribute record makes
        the change visible from both end points. */
    method IncrementWeight(u: string, v: string)
      requires Valid()
      requires Weight(u, v) > 0
      modifies this
      ensures Valid()
      ensures Nodes() == old(Nodes())
      ensures Weight(u, v) == old(Weight(u, v)) + 1 && Weight(v, u) == old(Weight(v, u)) + 1
      ensures forall x, y :: !SamePair(x, y, u, v) ==> Weight(x, y) == old(Weight(x, y))
    {
      adj := SetEdge(adj, u, v, adj[u][v] + 1);
    }

    /** The weighted degree, summing over the neighbours in whatever order they come. */
    method WeightedDegree(n: string) returns (d: nat)
      requires Valid()
      requires n in adj
      ensures d == WeightedDegreeOf(n)
    {
      var rest := adj[n];
      d := 0;
      while rest != map[]
        invariant d + WeightSum(rest) == WeightSum(adj[n])
        decreases |rest|
      {
        var k :| k in rest;
        WeightSumAt(rest, k);
        assert |rest - {k}| == |rest| - 1 by { assert (rest - {k}).Keys == rest.Keys - {k}; }
        d := d + rest[k];
        rest := rest - {k};
      }
      if n in adj[n] {
        d := d + adj[n][n];
      }
    }
  }
}
