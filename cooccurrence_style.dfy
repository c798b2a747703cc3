/** The display attributes greeksongs2.py gives the collaboration network: communities are
    ranked by member count, the ten largest take the palette colours in rank order and all
    others are grey; a node's size grows with its number of neighbours; an edge is as wide
    as its weight. The community partition itself comes from an external routine and is an
    input here. */
module CooccurrenceStyle {
  import opened Records
  import opened Graphs
  import opened Cooccurrence

  /** The colour of every node outside the ranked communities. */
  const Grey: string := "grey"

  /** How many communities receive a palette colour. */
  const TopCount: nat := 10

  /** The size of a node without neighbours. */
  const BaseSize: nat := 5

  /** The number of nodes the partition puts in community c. */
  function MemberCount(partition: map<string, nat>, c: nat): nat {
    |set n | n in partition.Keys && partition[n] == c|
  }

  /** The value counts of the partition: every community that occurs, with its member count,
      which is at least one. */
  function ClassCounts(partition: map<string, nat>): (counts: map<nat, nat>)
    ensures counts.Keys == partition.Values
    ensures forall c :: c in counts ==> counts[c] == MemberCount(partition, c) && counts[c] >= 1
  {
    var counts := map c | c in partition.Values :: MemberCount(partition, c);
    assert forall c :: c in counts ==> counts[c] >= 1 by {
      forall c | c in counts
        ensures counts[c] >= 1
      {
        var n :| n in partition && partition[n] == c;
        var members := set n | n in partition.Keys && partition[n] == c;
        assert n in members;
        assert |members| >= 1;
      }
    }
    counts
  }

  /** Every non-empty set of communities has one with the largest count. */
  lemma {:induction false} LargestExists(counts: map<nat, nat>, s: set<nat>)
    requires s != {} && s <= counts.Keys
    ensures exists c :: c in s && forall d :: d in s ==> counts[d] <= counts[c]
    decreases s
  {
    var x :| x in s;
    if s != {x} {
      var rest := s - {x};
      LargestExists(counts, rest);
      var c :| c in rest && forall d :: d in rest ==> counts[d] <= counts[c];
      if counts[x] > counts[c] {
        assert forall d :: d in s ==> counts[d] <= counts[x];
      } else {
        assert forall d :: d in s ==> counts[d] <= counts[c];
      }
    } else {
      assert forall d :: d in s ==> d == x;
    }
  }

  /** The k communities with the largest counts, largest first: the value counts cut to their
      k largest entries. Among communities of equal count the order is not fixed. */
  method TopClasses(counts: map<nat, nat>, k: nat) returns (top: seq<nat>)
    ensures |top| == if k < |counts| then k else |counts|
    ensures forall i :: 0 <= i < |top| ==> top[i] in counts
    ensures forall i, j :: 0 <= i < j < |top| ==> top[i] != top[j]
    ensures forall i, j :: 0 <= i < j < |top| ==> counts[top[i]] >= counts[top[j]]
    ensures forall c, i :: c in counts && c !in top && 0 <= i < |top| ==> counts[c] <= counts[top[i]]
  {
    var remaining := counts.Keys;
    top := [];
    while |top| < k && remaining != {}
      invariant |top| <= k
      invariant remaining <= counts.Keys
      invariant forall c :: c in counts ==> (c in remaining <==> c !in top)
      invariant |remaining| + |top| == |counts|
      invariant forall i :: 0 <= i < |top| ==> top[i] in counts
      invariant forall i, j :: 0 <= i < j < |top| ==> top[i] != top[j]
      invariant forall i, j :: 0 <= i < j < |top| ==> counts[top[i]] >= counts[top[j]]
      invariant forall c, i :: c in remaining && 0 <= i < |top| ==> counts[c] <= counts[top[i]]
      decreases |remaining|
    {
      LargestExists(counts, remaining);
      var c :| c in remaining && forall d :: d in remaining ==> counts[d] <= counts[c];
      top := top + [c];
      remaining := remaining - {c};
    }
  }

  /** The position of the first occurrence of x in s. */
  function IndexOf(s: seq<nat>, x: nat): (i: nat)
    requires x in s
    ensures i < |s| && s[i] == x
    ensures forall j :: 0 <= j < i ==> s[j] != x
  {
    if s[0] == x then 0 else 1 + IndexOf(s[1..], x)
  }

  /** The colour of node n: the palette entry at its community's rank, the rank taken modulo
      the palette length, or grey when the community is not ranked. When the palette has at
      least as many entries as there are ranked communities the modulo never wraps. */
  function NodeColor(partition: map<string, nat>, top: seq<nat>, palette: seq<string>, n: string): (colour: string)
    requires n in partition && |palette| > 0
    ensures partition[n] !in top ==> colour == Grey
    ensures partition[n] in top ==> colour in palette
    ensures partition[n] in top && |top| <= |palette| ==> colour == palette[IndexOf(top, partition[n])]
  {
    var c := partition[n];
    if c in top then
      var rank := IndexOf(top, c);
      assert rank < |palette| ==> rank % |palette| == rank;
      palette[rank % |palette|]
    else Grey
  }

  /** With a palette of distinct colours other than grey, long enough for the ranked
      communities, two nodes share a colour exactly when they share a community or neither
      community is ranked. */
  lemma ColoursSeparateRankedCommunities(partition: map<string, nat>, top: seq<nat>, palette: seq<string>, n: string, m: string)
    requires n in partition && m in partition
    requires 0 < |palette| && |top| <= |palette|
    requires forall i, j :: 0 <= i < j < |palette| ==> palette[i] != palette[j]
    requires Grey !in palette
    ensures NodeColor(partition, top, palette, n) == NodeColor(partition, top, palette, m) <==>
            partition[n] == partition[m] || (partition[n] !in top && partition[m] !in top)
  {
    var cn, cm := partition[n], partition[m];
    if cn in top && cm in top && cn != cm {
      var i, j := IndexOf(top, cn), IndexOf(top, cm);
      assert i != j;
      assert palette[i] != palette[j] by {
        if i < j { } else { }
      }
    }
  }

  /** The communities a ranking holds. */
  function Elements(s: seq<nat>): set<nat> {
    set x | x in s
  }

  /** A sequence without repetitions has as many distinct elements as entries. */
  lemma {:induction false} DistinctElements(s: seq<nat>)
    requires forall i, j :: 0 <= i < j < |s| ==> s[i] != s[j]
    ensures |Elements(s)| == |s|
  {
    if s != [] {
      var tail := s[1..];
      DistinctElements(tail);
      var whole, rest := Elements(s), Elements(tail);
      assert s[0] !in rest;
      assert whole == rest + {s[0]} by {
        forall x | x in whole ensures x in rest + {s[0]} {
          var i :| 0 <= i < |s| && s[i] == x;
          if i > 0 { assert tail[i - 1] == x; }
        }
      }
      assert |rest + {s[0]}| == |rest| + 1;
    }
  }

  /** When the ranking holds distinct communities of the partition, every community left out
      of it is coloured grey, and there are exactly as many of those as communities beyond the
      ranked ones: with fifteen communities and ten ranked, five are grey. */
  lemma UnrankedAreGrey(partition: map<string, nat>, top: seq<nat>, palette: seq<string>)
    requires |palette| > 0
    requires forall i :: 0 <= i < |top| ==> top[i] in partition.Values
    requires forall i, j :: 0 <= i < j < |top| ==> top[i] != top[j]
    ensures |partition.Values - Elements(top)| == |partition.Values| - |top|
    ensures forall n :: n in partition && partition[n] !in top ==> NodeColor(partition, top, palette, n) == Grey
  {
    DistinctElements(top);
    var ranked := Elements(top);
    assert partition.Values * ranked == ranked;
  }

  /** The size of node n: 5 plus twice its degree. It is never below 5 and is exactly 5 for
      a node without edges. */
  function NodeSize(g: Graph, n: string): (size: nat)
    reads g
    requires n in g.Nodes()
    ensures size >= BaseSize
    ensures size == BaseSize <==> g.Isolated(n)
  {
    BaseSize + 2 * g.Degree(n)
  }

  /** In the co-occurrence network a node's neighbours are exactly the people it shares a row
      with, so its size is 5 plus twice the number of those people. */
  lemma CoNodeSize(g: Graph, rows: seq<Row>, n: string)
    requires g.Valid() && n in g.Nodes()
    requires forall a, b :: g.Weight(a, b) == CoWeight(rows, a, b)
    ensures forall m :: m in g.adj[n] <==> m != n && SharesRow(rows, n, m)
    ensures NodeSize(g, n) == BaseSize + 2 * |g.adj[n]|
  {
    forall m
      ensures m in g.adj[n] <==> m != n && SharesRow(rows, n, m)
    {
      EdgeIffSharedRow(rows, n, m);
      assert g.Weight(n, m) == CoWeight(rows, n, m);
    }
    assert g.Weight(n, n) == 0;
  }

  /** Someone who only ever appears alone in a row is drawn at the base size. */
  lemma SoloNodeSize(g: Graph, rows: seq<Row>, n: string)
    requires g.Valid() && n in g.Nodes()
    requires forall a, b :: g.Weight(a, b) == CoWeight(rows, a, b)
    requires forall i :: 0 <= i < |rows| && n in People(rows[i]) ==> People(rows[i]) == {n}
    ensures NodeSize(g, n) == BaseSize
  {
    forall m
      ensures g.Weight(n, m) == 0
    {
      SoloParticipant(rows, n, m);
    }
  }

  /** The width drawn for the edge {u, v}: its weight, the same from either end. */
  function EdgeWidth(g: Graph, u: string, v: string): (width: nat)
    reads g
    requires g.Valid() && g.Weight(u, v) > 0
    ensures width >= 1 && width == g.Weight(v, u)
  {
    g.Weight(u, v)
  }

  datatype NodeStyle = NodeStyle(colour: string, size: nat)

  /** The colour and size handed to the renderer for every node of the network. */
  method StyleNodes(g: Graph, partition: map<string, nat>, top: seq<nat>, palette: seq<string>)
    returns (styles: map<string, NodeStyle>)
    requires g.Nodes() <= partition.Keys && |palette| > 0
    ensures styles.Keys == g.Nodes()
    ensures forall n :: n in styles ==> styles[n] == NodeStyle(NodeColor(partition, top, palette, n), NodeSize(g, n))
  {
    styles := map[];
    var todo := g.Nodes();
    while todo != {}
      invariant todo <= g.Nodes()
      invariant styles.Keys == g.Nodes() - todo
      invariant forall n :: n in styles ==> styles[n] == NodeStyle(NodeColor(partition, top, palette, n), NodeSize(g, n))
      decreases todo
    {
      var n :| n in todo;
      styles := styles[n := NodeStyle(NodeColor(partition, top, palette, n), NodeSize(g, n))];
      todo := todo - {n};
    }
  }

  /** The whole annotation step: count each community's members, rank the ten largest, and
      give every node its colour and size. The ranking never holds more communities than
      the palette has colours, so every ranked node gets the colour at its rank, and every
      community left out is no larger than any ranked one. */
  method StyleNetwork(g: Graph, partition: map<string, nat>, palette: seq<string>)
    returns (top: seq<nat>, styles: map<string, NodeStyle>)
    requires g.Nodes() <= partition.Keys && |palette| == TopCount
    ensures |top| <= |palette|
    ensures |top| == if TopCount < |partition.Values| then TopCount else |partition.Values|
    ensures forall i :: 0 <= i < |top| ==> top[i] in partition.Values
    ensures forall i, j :: 0 <= i < j < |top| ==> top[i] != top[j]
    ensures forall i, j :: 0 <= i < j < |top| ==> MemberCount(partition, top[i]) >= MemberCount(partition, top[j])
    ensures forall c, i :: c in partition.Values && c !in top && 0 <= i < |top| ==>
              MemberCount(partition, c) <= MemberCount(partition, top[i])
    ensures styles.Keys == g.Nodes()
    ensures forall n :: n in styles && partition[n] in top ==> styles[n].colour == palette[IndexOf(top, partition[n])]
    ensures forall n :: n in styles && partition[n] !in top ==> styles[n].colour == Grey
    ensures forall n :: n in styles ==> styles[n].size == NodeSize(g, n)
  {
    var counts := ClassCounts(partition);
    assert |counts| == |partition.Values| by {
      assert counts.Keys == partition.Values;
    }
    top := TopClasses(counts, TopCount);
    styles := StyleNodes(g, partition, top, palette);
  }
}
