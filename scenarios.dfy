/** Concrete consequences of the two builders: three songs by four people, and a year range
    that holds no song. */
module Scenarios {
  import opened Records
  import opened Cooccurrence
  import opened Triangle

  /** (composer, lyricist, singer) = (A, B, C), (A, B, D) and (B, C, A). */
  function ThreeSongs(): seq<Row> {
    [Row(1960, Some("A"), Some("B"), Some("C")),
     Row(1961, Some("A"), Some("B"), Some("D")),
     Row(1962, Some("B"), Some("C"), Some("A"))]
  }

  /** The co-occurrence weights: A and B share all three songs, A-C and B-C two, A-D and
      B-D one, and C and D none; each shared song counts twice. */
  lemma CooccurrenceThreeSongs()
    ensures Participants(ThreeSongs()) == {"A", "B", "C", "D"}
    ensures CoWeight(ThreeSongs(), "A", "B") == 6
    ensures CoWeight(ThreeSongs(), "A", "C") == 4 && CoWeight(ThreeSongs(), "B", "C") == 4
    ensures CoWeight(ThreeSongs(), "A", "D") == 2 && CoWeight(ThreeSongs(), "B", "D") == 2
    ensures CoWeight(ThreeSongs(), "C", "D") == 0
  {
    var rows := ThreeSongs();
    var p0, p1 := rows[..1], rows[..2];
    assert p1[..1] == p0 && p0[..0] == [] && rows[..2] == p1;
    assert People(rows[0]) == {"A", "B", "C"};
    assert People(rows[1]) == {"A", "B", "D"};
    assert People(rows[2]) == {"B", "C", "A"};
    assert Participants(p0) == {"A", "B", "C"};
    assert Participants(p1) == {"A", "B", "C", "D"};
    assert CoCount(p0, "A", "B") == 1 && CoCount(p1, "A", "B") == 2;
    assert CoCount(p0, "A", "C") == 1 && CoCount(p1, "A", "C") == 1;
    assert CoCount(p0, "B", "C") == 1 && CoCount(p1, "B", "C") == 1;
    assert CoCount(p0, "A", "D") == 0 && CoCount(p1, "A", "D") == 1;
    assert CoCount(p0, "B", "D") == 0 && CoCount(p1, "B", "D") == 1;
    assert CoCount(p0, "C", "D") == 0 && CoCount(p1, "C", "D") == 0;
  }

  /** The triangle network of the same songs: the pairs A-B, B-C, A-C, A-D and B-D are
      joined, each with weight 1 however many songs draw them, and C-D is not joined. */
  lemma TriangleThreeSongs()
    ensures TriangleNodes(ThreeSongs()) == {"A", "B", "C", "D"}
    ensures Linked(ThreeSongs(), "A", "B") && Linked(ThreeSongs(), "B", "C") && Linked(ThreeSongs(), "A", "C")
    ensures Linked(ThreeSongs(), "A", "D") && Linked(ThreeSongs(), "B", "D")
    ensures !Linked(ThreeSongs(), "C", "D") && !Linked(ThreeSongs(), "A", "A")
  {
    var rows := ThreeSongs();
    var p0, p1 := rows[..1], rows[..2];
    assert p1[..1] == p0 && p0[..0] == [] && rows[..2] == p1;
    assert RowNames(rows[0]) == {"A", "B", "C"};
    assert RowNames(rows[1]) == {"A", "B", "D"};
    assert RowNames(rows[2]) == {"B", "C", "A"};
    assert TriangleNodes(p0) == {"A", "B", "C"};
    assert TriangleNodes(p1) == {"A", "B", "C", "D"};
    assert !Linked(p0, "C", "D") && !Linked(p1, "C", "D");
    assert !Linked(p0, "A", "A") && !Linked(p1, "A", "A");
  }

  /** A year range that holds no row's year gives both builders no node and no edge. */
  lemma EmptyRange(rows: seq<Row>, lo: int, hi: int)
    requires forall i :: 0 <= i < |rows| ==> !InRange(rows[i], lo, hi)
    ensures Participants(Filter(rows, lo, hi)) == {}
    ensures forall a, b :: CoWeight(Filter(rows, lo, hi), a, b) == 0
    ensures TriangleNodes(Filter(rows, lo, hi)) == {}
    ensures forall a, b :: !Linked(Filter(rows, lo, hi), a, b)
  {
    FilterEmptyRange(rows, lo, hi);
  }
}
