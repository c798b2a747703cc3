/** The display attributes greeksongs.py gives its network: a node's size is twice its
    weighted degree, its colour is looked up in a colour table at its community identifier
    modulo the table length, and an edge is half as wide as its weight. The community
    partition comes from an external routine and is an input here; the colour table is any
    non-empty sequence of colours. */
module TriangleStyle {
  import opened Records
  import opened Graphs
  import opened Triangle

  /** The table position of a community's colour: its identifier modulo the table length,
      always a valid position, and the identifier itself when that is already one. */
  function ColourIndex(community: nat, tableSize: nat): (i: nat)
    requires tableSize > 0
    ensures i < tableSize
    ensures community < tableSize ==> i == community
  {
    community % tableSize
  }

  /** The colour of node n: the table entry at its community's index. */
  function NodeColour(partition: map<string, nat>, table: seq<string>, n: string): (colour: string)
    requires n in partition && |table| > 0
    ensures colour in table
  {
    table[ColourIndex(partition[n], |table|)]
  }

  /** Nodes of one community share a colour; with a table of distinct colours, communities
      whose identifiers are below the table length never share one. */
  lemma ColoursOfCommunities(partition: map<string, nat>, table: seq<string>, n: string, m: string)
    requires n in partition && m in partition && |table| > 0
    ensures partition[n] == partition[m] ==> NodeColour(partition, table, n) == NodeColour(partition, table, m)
    ensures (forall i, j :: 0 <= i < j < |table| ==> table[i] != table[j]) &&
            partition[n] < |table| && partition[m] < |table| && partition[n] != partition[m] ==>
            NodeColour(partition, table, n) != NodeColour(partition, table, m)
  {
    var cn, cm := partition[n], partition[m];
    if cn < |table| && cm < |table| && cn != cm {
      var i, j := ColourIndex(cn, |table|), ColourIndex(cm, |table|);
      assert i == cn && j == cm;
      if (forall i, j :: 0 <= i < j < |table| ==> table[i] != table[j]) {
        if i < j { assert table[i] != table[j]; } else { assert table[j] != table[i]; }
      }
    }
  }

  /** The weighted degree of every node, the attribute stored on each node before drawing. */
  method WeightedDegrees(g: Graph) returns (degrees: map<string, nat>)
    requires g.Valid()
    ensures degrees.Keys == g.Nodes()
    ensures forall n :: n in degrees ==> degrees[n] == g.WeightedDegreeOf(n)
  {
    degrees := map[];
    var todo := g.Nodes();
    while todo != {}
      invariant todo <= g.Nodes()
      invariant degrees.Keys == g.Nodes() - todo
      invariant forall n :: n in degrees ==> degrees[n] == g.WeightedDegreeOf(n)
      decreases todo
    {
      var n :| n in todo;
      var d := g.WeightedDegree(n);
      degrees := degrees[n := d];
      todo := todo - {n};
    }
  }

  datatype NodeStyle = NodeStyle(colour: string, size: nat)

  /** The colour and size handed to the renderer for every node: the size is twice the
      weighted degree. */
  method StyleNodes(g: Graph, partition: map<string, nat>, table: seq<string>) returns (styles: map<string, NodeStyle>)
    requires g.Valid() && g.Nodes() <= partition.Keys && |table| > 0
    ensures styles.Keys == g.Nodes()
    ensures forall n :: n in styles ==>
              styles[n] == NodeStyle(NodeColour(partition, table, n), 2 * g.WeightedDegreeOf(n))
  {
    var degrees := WeightedDegrees(g);
    styles := map[];
    var todo := g.Nodes();
    while todo != {}
      invariant todo <= g.Nodes()
      invariant styles.Keys == g.Nodes() - todo
      invariant forall n :: n in styles ==>
                  styles[n] == NodeStyle(NodeColour(partition, table, n), 2 * g.WeightedDegreeOf(n))
      decreases todo
    {
      var n :| n in todo;
      styles := styles[n := NodeStyle(NodeColour(partition, table, n), degrees[n] * 2)];
      todo := todo - {n};
    }
  }

  /** In the triangle network every weight is 1, so a node's weighted degree equals its
      degree, and every node has an edge, so its size is at least 2. */
  lemma TriangleWeightedDegree(g: Graph, rows: seq<Row>, n: string)
    requires g.Valid() && n in g.Nodes()
    requires g.Nodes() == TriangleNodes(rows)
    requires forall a, b :: g.Weight(a, b) == if Linked(rows, a, b) then 1 else 0
    ensures g.WeightedDegreeOf(n) == g.Degree(n)
    ensures 2 * g.WeightedDegreeOf(n) >= 2
  {
    var neighbours := g.adj[n];
    forall k | k in neighbours
      ensures neighbours[k] == 1
    {
      assert g.Weight(n, k) == neighbours[k];
    }
    WeightSumBounds(neighbours);
    NodesAreLinked(rows, n);
    var m :| Linked(rows, n, m);
    assert g.Weight(n, m) == 1;
    assert m in neighbours;
  }

  /** The width of the edge {u, v}: half its weight, so at least one half. */
  function EdgeWidth(g: Graph, u: string, v: string): (width: real)
    reads g
    requires g.Weight(u, v) > 0
    ensures width >= 0.5
  {
    g.Weight(u, v) as real / 2.0
  }

  /** In the triangle network every edge is drawn exactly one half wide. */
  lemma TriangleEdgeWidth(g: Graph, rows: seq<Row>, u: string, v: string)
    requires forall a, b :: g.Weight(a, b) == if Linked(rows, a, b) then 1 else 0
    requires g.Weight(u, v) > 0
    ensures EdgeWidth(g, u, v) == 0.5
  {
  }
}
