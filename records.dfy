/** Song records as the dashboards see them after loading: a publication year and
    the three role columns, each of which may be missing (a pandas NaN). */
module Records {

  datatype Option<T> = None | Some(value: T)

  datatype Row = Row(year: int, composer: Option<string>, lyricist: Option<string>, singer: Option<string>)

  /** The year-slider mask: both bounds are inclusive. */
  predicate InRange(r: Row, lo: int, hi: int) {
    lo <= r.year <= hi
  }

  /** The filtered data frame: the rows whose year lies in [lo, hi], in their original order. */
  function Filter(rows: seq<Row>, lo: int, hi: int): (kept: seq<Row>)
    ensures |kept| <= |rows|
    ensures forall i :: 0 <= i < |kept| ==> InRange(kept[i], lo, hi)
    decreases |rows|
  {
    if rows == [] then []
    else
      var init, last := rows[..|rows| - 1], rows[|rows| - 1];
      assert rows == init + [last];
      Filter(init, lo, hi) + (if InRange(last, lo, hi) then [last] else [])
  }

  /** The filter keeps every row in the range as often as it occurs, and no other row. */
  lemma {:induction false} FilterCounts(rows: seq<Row>, lo: int, hi: int)
    ensures forall r :: multiset(Filter(rows, lo, hi))[r] == if InRange(r, lo, hi) then multiset(rows)[r] else 0
    decreases |rows|
  {
    if rows != [] {
      var init, last := rows[..|rows| - 1], rows[|rows| - 1];
      FilterCounts(init, lo, hi);
      assert rows == init + [last];
      assert multiset(rows) == multiset(init) + multiset{last};
    }
  }

  /** Filtering an already filtered frame with a narrower range is filtering with the narrower range. */
  lemma {:induction false} FilterNarrower(rows: seq<Row>, lo: int, hi: int, lo': int, hi': int)
    requires lo <= lo' && hi' <= hi
    ensures Filter(Filter(rows, lo, hi), lo', hi') == Filter(rows, lo', hi')
    decreases |rows|
  {
    if rows != [] {
      var init, last := rows[..|rows| - 1], rows[|rows| - 1];
      FilterNarrower(init, lo, hi, lo', hi');
      var f := Filter(init, lo, hi);
      if InRange(last, lo, hi) {
        assert Filter(rows, lo, hi) == f + [last];
        assert (f + [last])[..|f|] == f;
      } else {
        assert Filter(rows, lo, hi) == f;
      }
    }
  }

  /** Filtering keeps the original order: the filter of two consecutive stretches of rows is
      the filter of the first followed by the filter of the second. */
  lemma {:induction false} FilterAppend(first: seq<Row>, second: seq<Row>, lo: int, hi: int)
    ensures Filter(first + second, lo, hi) == Filter(first, lo, hi) + Filter(second, lo, hi)
    decreases |second|
  {
    if second == [] {
      assert first + second == first;
    } else {
      var init, last := second[..|second| - 1], second[|second| - 1];
      var whole := first + second;
      var tail := if InRange(last, lo, hi) then [last] else [];
      assert whole[..|whole| - 1] == first + init && whole[|whole| - 1] == last;
      assert Filter(whole, lo, hi) == Filter(first + init, lo, hi) + tail;
      assert Filter(second, lo, hi) == Filter(init, lo, hi) + tail;
      FilterAppend(first, init, lo, hi);
      var f, g := Filter(first, lo, hi), Filter(init, lo, hi);
      assert f + g + tail == f + (g + tail);
    }
  }

  /** A year range that holds no row's year keeps no row; an inverted range (hi < lo) is one
      such range. */
  lemma FilterEmptyRange(rows: seq<Row>, lo: int, hi: int)
    requires forall i :: 0 <= i < |rows| ==> !InRange(rows[i], lo, hi)
    ensures Filter(rows, lo, hi) == []
  {
    var kept := Filter(rows, lo, hi);
    FilterCounts(rows, lo, hi);
    if kept != [] {
      assert false;
    }
  }
}
