/** The collaboration network of greeksongs.py: every row in the year range draws the
    triangle composer-lyricist, lyricist-singer, singer-composer. Names are the printed form
    of the fields, so a missing field becomes the node "nan". Each edge is added with weight
    1, and re-adding an edge overwrites its weight with 1 again, so no weight ever exceeds 1. */
module Triangle {
  import opened Records
  import opened Graphs

  /** The printed form of a field: a missing value prints as "nan". */
  function Name(o: Option<string>): string {
    if o.Some? then o.value else "nan"
  }

  /** The three nodes a row names (fewer when two roles print the same). */
  function RowNames(r: Row): set<string> {
    {Name(r.composer), Name(r.lyricist), Name(r.singer)}
  }

  /** Whether {a, b} is a side of the triangle c-l, l-s, s-c. */
  predicate TriangleSide(c: string, l: string, s: string, a: string, b: string) {
    SamePair(a, b, c, l) || SamePair(a, b, l, s) || SamePair(a, b, s, c)
  }

  /** Whether the row draws the edge {a, b}: composer-lyricist, lyricist-singer or singer-composer. */
  predicate RowLinks(r: Row, a: string, b: string) {
    TriangleSide(Name(r.composer), Name(r.lyricist), Name(r.singer), a, b)
  }

  /** Whether two of the row's roles print as the same name a. */
  predicate RepeatsRole(r: Row, a: string) {
    var c, l, s := Name(r.composer), Name(r.lyricist), Name(r.singer);
    (c == a && l == a) || (l == a && s == a) || (s == a && c == a)
  }

  /** Whether some row draws the edge {a, b}. */
  predicate Linked(rows: seq<Row>, a: string, b: string)
    decreases |rows|
  {
    rows != [] && (Linked(rows[..|rows| - 1], a, b) || RowLinks(rows[|rows| - 1], a, b))
  }

  /** Every name of every row. */
  function TriangleNodes(rows: seq<Row>): set<string>
    decreases |rows|
  {
    if rows == [] then {} else TriangleNodes(rows[..|rows| - 1]) + RowNames(rows[|rows| - 1])
  }

  /** An edge is drawn exactly when some row draws it. */
  lemma {:induction false} LinkedIff(rows: seq<Row>, a: string, b: string)
    ensures Linked(rows, a, b) <==> exists i :: 0 <= i < |rows| && RowLinks(rows[i], a, b)
    decreases |rows|
  {
    if rows != [] {
      var n := |rows| - 1;
      var init := rows[..n];
      LinkedIff(init, a, b);
      if !RowLinks(rows[n], a, b) {
        if exists i :: 0 <= i < |rows| && RowLinks(rows[i], a, b) {
          var i :| 0 <= i < |rows| && RowLinks(rows[i], a, b);
          assert init[i] == rows[i];
        }
        if exists i :: 0 <= i < |init| && RowLinks(init[i], a, b) {
          var i :| 0 <= i < |init| && RowLinks(init[i], a, b);
          assert init[i] == rows[i];
        }
      }
    }
  }

  /** A self-loop on a appears exactly when some row gives two of its roles the name a. */
  lemma SelfLoopIff(rows: seq<Row>, a: string)
    ensures Linked(rows, a, a) <==> exists i :: 0 <= i < |rows| && RepeatsRole(rows[i], a)
  {
    LinkedIff(rows, a, a);
    assert forall i :: 0 <= i < |rows| ==> (RowLinks(rows[i], a, a) <==> RepeatsRole(rows[i], a));
  }

  /** Edges are drawn between names of the rows only, and every name has an edge: no node
      of the network is isolated. */
  lemma {:induction false} NodesAreLinked(rows: seq<Row>, n: string)
    ensures n in TriangleNodes(rows) ==> exists m :: Linked(rows, n, m)
    ensures (exists m :: Linked(rows, n, m)) ==> n in TriangleNodes(rows)
    decreases |rows|
  {
    if rows != [] {
      var init, last := rows[..|rows| - 1], rows[|rows| - 1];
      NodesAreLinked(init, n);
      var c, l, s := Name(last.composer), Name(last.lyricist), Name(last.singer);
      if n in RowNames(last) {
        var partner := if n == c then l else if n == l then s else c;
        assert RowLinks(last, n, partner);
        assert Linked(rows, n, partner);
        assert n in TriangleNodes(rows);
      } else {
        if exists m :: Linked(rows, n, m) {
          var m :| Linked(rows, n, m);
          assert !RowLinks(last, n, m);
          assert Linked(init, n, m);
        }
        if exists m :: Linked(init, n, m) {
          var m :| Linked(init, n, m);
          assert Linked(rows, n, m);
        }
      }
    }
  }

  /** Dropping rows never draws a new edge. */
  lemma {:induction false} LinkedFilter(rows: seq<Row>, lo: int, hi: int, a: string, b: string)
    ensures Linked(Filter(rows, lo, hi), a, b) ==> Linked(rows, a, b)
    decreases |rows|
  {
    if rows != [] {
      var init, last := rows[..|rows| - 1], rows[|rows| - 1];
      LinkedFilter(init, lo, hi, a, b);
      var f := Filter(init, lo, hi);
      if InRange(last, lo, hi) {
        var fl := f + [last];
        assert Filter(rows, lo, hi) == fl;
        assert fl[..|fl| - 1] == f && fl[|fl| - 1] == last;
      } else {
        assert Filter(rows, lo, hi) == f;
      }
    }
  }

  /** Narrowing the year range never draws a new edge and never introduces a node. */
  lemma LinkedNarrower(rows: seq<Row>, lo: int, hi: int, lo': int, hi': int, a: string, b: string)
    requires lo <= lo' && hi' <= hi
    ensures Linked(Filter(rows, lo', hi'), a, b) ==> Linked(Filter(rows, lo, hi), a, b)
    ensures TriangleNodes(Filter(rows, lo', hi')) <= TriangleNodes(Filter(rows, lo, hi))
  {
    var wide := Filter(rows, lo, hi);
    var narrow := Filter(rows, lo', hi');
    FilterNarrower(rows, lo, hi, lo', hi');
    LinkedFilter(wide, lo', hi', a, b);
    forall n | n in TriangleNodes(narrow)
      ensures n in TriangleNodes(wide)
    {
      NodesAreLinked(narrow, n);
      var m :| Linked(narrow, n, m);
      LinkedFilter(wide, lo', hi', n, m);
      NodesAreLinked(wide, n);
    }
  }

  /** One row, given the printed names of its composer, lyricist and singer: the three
      sides of its triangle are set to weight 1 and their end points become nodes; all other
      edges keep their weight. */
  method AddTriangle(g: Graph, c: string, l: string, s: string)
    requires g.Valid()
    modifies g
    ensures g.Valid()
    ensures g.Nodes() == old(g.Nodes()) + {c, l, s}
    ensures forall a, b :: g.Weight(a, b) == if TriangleSide(c, l, s, a, b) then 1 else old(g.Weight(a, b))
  {
    ghost var before := g.Nodes();
    g.AddEdge(c, l, 1);
    assert g.Nodes() == before + {c, l};
    label first:
    g.AddEdge(l, s, 1);
    assert g.Nodes() == before + {c, l} + {l, s};
    label second:
    g.AddEdge(s, c, 1);
    assert g.Nodes() == before + {c, l} + {l, s} + {s, c};
    assert before + {c, l} + {l, s} + {s, c} == before + {c, l, s};
    forall a, b
      ensures g.Weight(a, b) == if TriangleSide(c, l, s, a, b) then 1 else old(g.Weight(a, b))
    {
      if SamePair(a, b, s, c) {
      } else if SamePair(a, b, l, s) {
        assert g.Weight(a, b) == old@second(g.Weight(a, b));
      } else {
        assert g.Weight(a, b) == old@second(g.Weight(a, b)) == old@first(g.Weight(a, b));
      }
    }
  }

  /** Extending the rows by one row adds that row's names and its triangle. */
  lemma PrefixStep(rows: seq<Row>, i: nat)
    requires i < |rows|
    ensures TriangleNodes(rows[..i + 1]) == TriangleNodes(rows[..i]) + RowNames(rows[i])
    ensures forall a, b :: Linked(rows[..i + 1], a, b) == (Linked(rows[..i], a, b) || RowLinks(rows[i], a, b))
  {
    var next := rows[..i + 1];
    assert next[..i] == rows[..i] && next[i] == rows[i];
  }

  /** The network of the rows in the inclusive year range [lo, hi]: every drawn edge has
      weight exactly 1, however many rows draw it. */
  method Build(rows: seq<Row>, lo: int, hi: int) returns (g: Graph)
    ensures fresh(g) && g.Valid()
    ensures g.Nodes() == TriangleNodes(Filter(rows, lo, hi))
    ensures forall a, b :: g.Weight(a, b) == if Linked(Filter(rows, lo, hi), a, b) then 1 else 0
  {
    var filtered := Filter(rows, lo, hi);
    g := new Graph();
    var i := 0;
    while i < |filtered|
      invariant 0 <= i <= |filtered|
      invariant g.Valid()
      invariant g.Nodes() == TriangleNodes(filtered[..i])
      invariant forall a, b :: g.Weight(a, b) == if Linked(filtered[..i], a, b) then 1 else 0
    {
      var row := filtered[i];
      AddTriangle(g, Name(row.composer), Name(row.lyricist), Name(row.singer));
      PrefixStep(filtered, i);
      i := i + 1;
    }
    assert filtered[..i] == filtered;
  }
}
