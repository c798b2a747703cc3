/** The collaboration network of greeksongs2.py: every person named in a row of the
    year range becomes a node, and every row adds to the edge between each two distinct
    people it names. The row loop visits each unordered pair twice, once per order, so a
    row adds 2 to the weight of each pair it contains. */
module Cooccurrence {
  import opened Records
  import opened Graphs

  function Present(o: Option<string>): set<string> {
    if o.Some? then {o.value} else {}
  }

  /** Whether x is the composer, the lyricist or the singer of r. */
  predicate Names(r: Row, x: string) {
    r.composer == Some(x) || r.lyricist == Some(x) || r.singer == Some(x)
  }

  /** The distinct non-missing names among a row's composer, lyricist and singer. */
  function People(r: Row): (p: set<string>)
    ensures forall x :: x in p <==> Names(r, x)
  {
    Present(r.composer) + Present(r.lyricist) + Present(r.singer)
  }

  /** Everyone named in some row. */
  function Participants(rows: seq<Row>): set<string>
    decreases |rows|
  {
    if rows == [] then {} else Participants(rows[..|rows| - 1]) + People(rows[|rows| - 1])
  }

  /** A person is a participant exactly when some row names them. */
  lemma {:induction false} ParticipantsIff(rows: seq<Row>, x: string)
    ensures x in Participants(rows) <==> exists i :: 0 <= i < |rows| && Names(rows[i], x)
    decreases |rows|
  {
    if rows != [] {
      var n := |rows| - 1;
      var init := rows[..n];
      ParticipantsIff(init, x);
      if Names(rows[n], x) {
      } else {
        if exists i :: 0 <= i < |rows| && Names(rows[i], x) {
          var i :| 0 <= i < |rows| && Names(rows[i], x);
          assert init[i] == rows[i];
        }
        if exists i :: 0 <= i < |init| && Names(init[i], x) {
          var i :| 0 <= i < |init| && Names(init[i], x);
          assert init[i] == rows[i];
        }
      }
    }
  }

  /** The number of rows that name both a and b. */
  function CoCount(rows: seq<Row>, a: string, b: string): nat
    decreases |rows|
  {
    if rows == [] then 0
    else
      var last := rows[|rows| - 1];
      CoCount(rows[..|rows| - 1], a, b) + (if a in People(last) && b in People(last) then 1 else 0)
  }

  /** The weight the builder gives the pair {a, b}: two per shared row, and never a self-loop. */
  function CoWeight(rows: seq<Row>, a: string, b: string): nat {
    if a == b then 0 else 2 * CoCount(rows, a, b)
  }

  predicate SharesRow(rows: seq<Row>, a: string, b: string) {
    exists i :: 0 <= i < |rows| && a in People(rows[i]) && b in People(rows[i])
  }

  /** The count is symmetric and bounded by the number of rows. */
  lemma {:induction false} CoCountBounds(rows: seq<Row>, a: string, b: string)
    ensures CoCount(rows, a, b) == CoCount(rows, b, a)
    ensures CoCount(rows, a, b) <= |rows|
    decreases |rows|
  {
    if rows != [] {
      CoCountBounds(rows[..|rows| - 1], a, b);
    }
  }

  /** A pair shares a row of the rows exactly when it shares one of all rows but the last,
      or the last row names both. */
  lemma SharesRowStep(rows: seq<Row>, a: string, b: string)
    requires rows != []
    ensures SharesRow(rows, a, b) <==>
              SharesRow(rows[..|rows| - 1], a, b) || (a in People(rows[|rows| - 1]) && b in People(rows[|rows| - 1]))
  {
    var n := |rows| - 1;
    var init := rows[..n];
    if SharesRow(rows, a, b) {
      var i :| 0 <= i < |rows| && a in People(rows[i]) && b in People(rows[i]);
      if i < n {
        assert init[i] == rows[i];
      }
    }
    if SharesRow(init, a, b) {
      var i :| 0 <= i < |init| && a in People(init[i]) && b in People(init[i]);
      assert init[i] == rows[i];
    }
  }

  /** The count is positive exactly when some row names both people. */
  lemma {:induction false} CoCountPositive(rows: seq<Row>, a: string, b: string)
    ensures CoCount(rows, a, b) > 0 <==> SharesRow(rows, a, b)
    decreases |rows|
  {
    if rows != [] {
      CoCountPositive(rows[..|rows| - 1], a, b);
      SharesRowStep(rows, a, b);
    }
  }

  /** The edges of the built graph: a pair is joined exactly when some row names both,
      and the edge's weight is even. */
  lemma EdgeIffSharedRow(rows: seq<Row>, a: string, b: string)
    ensures CoWeight(rows, a, b) > 0 <==> a != b && SharesRow(rows, a, b)
    ensures CoWeight(rows, a, b) % 2 == 0
    ensures CoWeight(rows, a, b) == CoWeight(rows, b, a)
  {
    CoCountBounds(rows, a, b);
    CoCountPositive(rows, a, b);
  }

  /** Dropping rows never raises a count. */
  lemma {:induction false} CoCountFilter(rows: seq<Row>, lo: int, hi: int, a: string, b: string)
    ensures CoCount(Filter(rows, lo, hi), a, b) <= CoCount(rows, a, b)
    decreases |rows|
  {
    if rows != [] {
      var init, last := rows[..|rows| - 1], rows[|rows| - 1];
      CoCountFilter(init, lo, hi, a, b);
      var f := Filter(init, lo, hi);
      if InRange(last, lo, hi) {
        var fl := f + [last];
        assert Filter(rows, lo, hi) == fl;
        assert fl[..|fl| - 1] == f && fl[|fl| - 1] == last;
        assert CoCount(fl, a, b) == CoCount(f, a, b) + (if a in People(last) && b in People(last) then 1 else 0);
      } else {
        assert Filter(rows, lo, hi) == f;
      }
    }
  }

  /** Narrowing the year range never raises an edge weight. */
  lemma CoWeightNarrower(rows: seq<Row>, lo: int, hi: int, lo': int, hi': int, a: string, b: string)
    requires lo <= lo' && hi' <= hi
    ensures CoWeight(Filter(rows, lo', hi'), a, b) <= CoWeight(Filter(rows, lo, hi), a, b)
  {
    FilterNarrower(rows, lo, hi, lo', hi');
    CoCountFilter(Filter(rows, lo, hi), lo', hi', a, b);
  }

  /** Dropping rows never adds a participant. */
  lemma {:induction false} ParticipantsFilter(rows: seq<Row>, lo: int, hi: int)
    ensures Participants(Filter(rows, lo, hi)) <= Participants(rows)
    decreases |rows|
  {
    if rows != [] {
      var init, last := rows[..|rows| - 1], rows[|rows| - 1];
      ParticipantsFilter(init, lo, hi);
      var f := Filter(init, lo, hi);
      if InRange(last, lo, hi) {
        var fl := f + [last];
        assert Filter(rows, lo, hi) == fl;
        assert fl[..|fl| - 1] == f && fl[|fl| - 1] == last;
        assert Participants(fl) == Participants(f) + People(last);
      } else {
        assert Filter(rows, lo, hi) == f;
      }
    }
  }

  /** Narrowing the year range never introduces a node. */
  lemma ParticipantsNarrower(rows: seq<Row>, lo: int, hi: int, lo': int, hi': int)
    requires lo <= lo' && hi' <= hi
    ensures Participants(Filter(rows, lo', hi')) <= Participants(Filter(rows, lo, hi))
  {
    FilterNarrower(rows, lo, hi, lo', hi');
    ParticipantsFilter(Filter(rows, lo, hi), lo', hi');
  }

  /** A person who is the only participant of every row naming them still becomes a node,
      with no edge at all. */
  lemma {:induction false} SoloParticipant(rows: seq<Row>, a: string, b: string)
    requires forall i :: 0 <= i < |rows| && a in People(rows[i]) ==> People(rows[i]) == {a}
    ensures CoWeight(rows, a, b) == 0
    decreases |rows|
  {
    if rows != [] && a != b {
      var init := rows[..|rows| - 1];
      assert forall i :: 0 <= i < |init| ==> init[i] == rows[i];
      SoloParticipant(init, a, b);
    }
  }

  /** Whether the ordered visit (p1, x) or (x, p1) of one pass of the inner loop touches {a, b}. */
  predicate Touches(a: string, b: string, p1: string, done: set<string>) {
    a != b && ((a == p1 && b in done) || (b == p1 && a in done))
  }

  /** How often the nested loop has visited the distinct pair {a, b} of `people` once the
      outer loop has handled the people in `done`. */
  function Visits(a: string, b: string, people: set<string>, done: set<string>): nat {
    if a != b && a in people && b in people
    then (if a in done then 1 else 0) + (if b in done then 1 else 0)
    else 0
  }

  /** The outer loop taking one more person p1 adds the visits that start or end at p1. */
  lemma VisitsStep(people: set<string>, done: set<string>, p1: string)
    requires p1 in people && p1 !in done
    ensures forall a, b :: Visits(a, b, people, done + {p1}) ==
              Visits(a, b, people, done) + (if Touches(a, b, p1, people) then 1 else 0)
  {
  }

  /** The inner loop taking one more partner p2 adds the visit of (p1, p2). */
  lemma TouchesStep(p1: string, done: set<string>, p2: string)
    requires p2 !in done
    ensures forall a, b :: (if Touches(a, b, p1, done + {p2}) then 1 else 0) ==
              (if Touches(a, b, p1, done) then 1 else 0) + (if p1 != p2 && SamePair(a, b, p1, p2) then 1 else 0)
  {
  }

  /** Adds every person of the row as a node. */
  method AddPeople(g: Graph, people: set<string>)
    requires g.Valid()
    modifies g
    ensures g.Valid()
    ensures g.Nodes() == old(g.Nodes()) + people
    ensures forall u, v :: g.Weight(u, v) == old(g.Weight(u, v))
  {
    var todo := people;
    while todo != {}
      invariant g.Valid()
      invariant todo <= people
      invariant g.Nodes() == old(g.Nodes()) + (people - todo)
      invariant forall u, v :: g.Weight(u, v) == old(g.Weight(u, v))
      decreases todo
    {
      var person :| person in todo;
      g.AddNode(person);
      todo := todo - {person};
    }
  }

  /** One visit of the ordered pair (p1, p2): for distinct people the edge {p1, p2} gains 1,
      being created with weight 1 when missing; nothing else changes. */
  method Visit(g: Graph, p1: string, p2: string)
    requires g.Valid()
    requires p1 in g.Nodes() && p2 in g.Nodes()
    modifies g
    ensures g.Valid()
    ensures g.Nodes() == old(g.Nodes())
    ensures forall a, b :: g.Weight(a, b) == old(g.Weight(a, b)) + (if p1 != p2 && SamePair(a, b, p1, p2) then 1 else 0)
  {
    if p1 != p2 {
      var present := g.HasEdge(p1, p2);
      if present {
        g.IncrementWeight(p1, p2);
      } else {
        g.AddEdge(p1, p2, 1);
      }
    }
  }

  /** The inner loop for one person p1: every other person p2 of the row bumps the edge {p1, p2}. */
  method BumpFrom(g: Graph, p1: string, people: set<string>)
    requires g.Valid()
    requires people <= g.Nodes() && p1 in people
    modifies g
    ensures g.Valid()
    ensures g.Nodes() == old(g.Nodes())
    ensures forall a, b :: g.Weight(a, b) == old(g.Weight(a, b)) + (if Touches(a, b, p1, people) then 1 else 0)
  {
    var todo := people;
    while todo != {}
      invariant g.Valid()
      invariant todo <= people
      invariant g.Nodes() == old(g.Nodes())
      invariant forall a, b :: g.Weight(a, b) == old(g.Weight(a, b)) + (if Touches(a, b, p1, people - todo) then 1 else 0)
      decreases todo
    {
      var p2 :| p2 in todo;
      Visit(g, p1, p2);
      TouchesStep(p1, people - todo, p2);
      assert people - (todo - {p2}) == (people - todo) + {p2};
      todo := todo - {p2};
    }
  }

  /** One row: its people become nodes and every distinct pair of them gains 2. Edges the
      row does not name keep their weight, and no weight ever decreases. */
  method AddRow(g: Graph, people: set<string>)
    requires g.Valid()
    modifies g
    ensures g.Valid()
    ensures g.Nodes() == old(g.Nodes()) + people
    ensures forall a, b :: g.Weight(a, b) == old(g.Weight(a, b)) + (if a != b && a in people && b in people then 2 else 0)
  {
    AddPeople(g, people);
    var todo := people;
    while todo != {}
      invariant g.Valid()
      invariant todo <= people
      invariant g.Nodes() == old(g.Nodes()) + people
      invariant forall a, b :: g.Weight(a, b) == old(g.Weight(a, b)) + Visits(a, b, people, people - todo)
      decreases todo
    {
      var p1 :| p1 in todo;
      BumpFrom(g, p1, people);
      VisitsStep(people, people - todo, p1);
      assert people - (todo - {p1}) == (people - todo) + {p1};
      todo := todo - {p1};
    }
  }

  /** Extending the rows by one row adds that row's people and its pairs. */
  lemma PrefixStep(rows: seq<Row>, i: nat)
    requires i < |rows|
    ensures Participants(rows[..i + 1]) == Participants(rows[..i]) + People(rows[i])
    ensures forall a, b ::
              CoWeight(rows[..i + 1], a, b) ==
              CoWeight(rows[..i], a, b) + (if a != b && a in People(rows[i]) && b in People(rows[i]) then 2 else 0)
  {
    var next := rows[..i + 1];
    assert next[..i] == rows[..i] && next[i] == rows[i];
  }

  /** The network of the rows in the inclusive year range [lo, hi]. */
  method Build(rows: seq<Row>, lo: int, hi: int) returns (g: Graph)
    ensures fresh(g) && g.Valid()
    ensures g.Nodes() == Participants(Filter(rows, lo, hi))
    ensures forall a, b :: g.Weight(a, b) == CoWeight(Filter(rows, lo, hi), a, b)
  {
    var filtered := Filter(rows, lo, hi);
    g := new Graph();
    var i := 0;
    while i < |filtered|
      invariant 0 <= i <= |filtered|
      invariant g.Valid()
      invariant g.Nodes() == Participants(filtered[..i])
      invariant forall a, b :: g.Weight(a, b) == CoWeight(filtered[..i], a, b)
    {
      AddRow(g, People(filtered[i]));
      PrefixStep(filtered, i);
      i := i + 1;
    }
    assert filtered[..i] == filtered;
  }
}
