/**
 * Rows of department statistics as a table: the column sums the report
 * prints and the order the report query hands rows back in, highest avg_score first.
 */
module StatsTable {
  import opened Records

  /** The two integer columns the report sums. */
  datatype Column = TotalEmployees | TotalCourses

  function Cell(s: DeptStats, col: Column): int
  {
    match col
    case TotalEmployees => s.total_employees
    case TotalCourses => s.total_courses
  }

  /** The sum of one integer column over the rows. */
  function ColumnTotal(rows: seq<DeptStats>, col: Column): int
    decreases |rows|
  {
    if rows == [] then 0 else Cell(rows[0], col) + ColumnTotal(rows[1..], col)
  }

  lemma {:induction false} ColumnTotalAppend(a: seq<DeptStats>, b: seq<DeptStats>, col: Column)
    ensures ColumnTotal(a + b, col) == ColumnTotal(a, col) + ColumnTotal(b, col)
    decreases |a|
  {
    if a == [] {
      assert a + b == b;
    } else {
      assert (a + b)[0] == a[0] && (a + b)[1..] == a[1..] + b;
      ColumnTotalAppend(a[1..], b, col);
    }
  }

  /** Taking the same row out of two permutations of each other leaves permutations. */
  lemma RemoveMatching(a: seq<DeptStats>, b: seq<DeptStats>, j: int)
    requires multiset(a) == multiset(b) && a != [] && 0 <= j < |b| && b[j] == a[0]
    ensures multiset(a[1..]) == multiset(b[..j] + b[j + 1..])
  {
    assert a == [a[0]] + a[1..];
    assert multiset(a) == multiset{a[0]} + multiset(a[1..]);
    assert b == b[..j] + ([b[j]] + b[j + 1..]);
    assert multiset(b) == multiset(b[..j]) + multiset{b[j]} + multiset(b[j + 1..]);
    assert multiset(b[..j] + b[j + 1..]) == multiset(b[..j]) + multiset(b[j + 1..]);
    forall z ensures multiset(a[1..])[z] == multiset(b[..j] + b[j + 1..])[z] {
      assert multiset(a)[z] == multiset(b)[z];
    }
  }

  /** A column sum does not depend on the order of the rows. */
  lemma {:induction false} ColumnTotalPermutation(a: seq<DeptStats>, b: seq<DeptStats>, col: Column)
    requires multiset(a) == multiset(b)
    ensures ColumnTotal(a, col) == ColumnTotal(b, col)
    decreases |a|
  {
    if a == [] {
      assert |b| == |multiset(b)| == 0;
    } else {
      assert a[0] in multiset(b);
      var j :| 0 <= j < |b| && b[j] == a[0];
      RemoveMatching(a, b, j);
      var front, back := b[..j], b[j + 1..];
      assert b == front + ([a[0]] + back);
      ColumnTotalAppend(front, [a[0]] + back, col);
      ColumnTotalAppend(front, back, col);
      ColumnTotalPermutation(a[1..], front + back, col);
    }
  }

  /** Ordered by avg_score, highest first. */
  predicate ByAvgDesc(rows: seq<DeptStats>)
  {
    forall i, j :: 0 <= i < j < |rows| ==> rows[i].avg_score >= rows[j].avg_score
  }

  lemma ByAvgDescCons(x: DeptStats, rows: seq<DeptStats>)
    requires ByAvgDesc(rows)
    requires forall y :: y in rows ==> x.avg_score >= y.avg_score
    ensures ByAvgDesc([x] + rows)
  {
  }

  lemma InsertAfterHead(rows: seq<DeptStats>, x: DeptStats, rest: seq<DeptStats>)
    requires rows != [] && ByAvgDesc(rows) && rows[0].avg_score >= x.avg_score
    requires ByAvgDesc(rest) && multiset(rest) == multiset(rows[1..]) + multiset{x}
    ensures ByAvgDesc([rows[0]] + rest)
    ensures multiset([rows[0]] + rest) == multiset(rows) + multiset{x}
  {
    assert rows == [rows[0]] + rows[1..];
    forall y | y in rest ensures rows[0].avg_score >= y.avg_score {
      assert y in multiset(rest);
      if y != x {
        assert y in multiset(rows[1..]);
        var j :| 0 <= j < |rows[1..]| && rows[1..][j] == y;
        assert rows[j + 1] == y;
      }
    }
    ByAvgDescCons(rows[0], rest);
  }

  lemma InsertBeforeHead(rows: seq<DeptStats>, x: DeptStats)
    requires rows != [] && ByAvgDesc(rows) && rows[0].avg_score < x.avg_score
    ensures ByAvgDesc([x] + rows)
  {
  }

  /**
   * Places a row after every row whose avg_score is at least its own, so an
   * ordered list stays ordered and the new row follows the rows it ties with.
   */
  function InsertByAvg(rows: seq<DeptStats>, x: DeptStats): (r: seq<DeptStats>)
    requires ByAvgDesc(rows)
    ensures ByAvgDesc(r)
    ensures multiset(r) == multiset(rows) + multiset{x}
    decreases |rows|
  {
    if rows == [] then [x]
    else if rows[0].avg_score >= x.avg_score then
      var rest := InsertByAvg(rows[1..], x);
      InsertAfterHead(rows, x, rest);
      [rows[0]] + rest
    else
      InsertBeforeHead(rows, x);
      [x] + rows
  }

  /**
   * The report query's order: the rows, highest avg_score first. SQL leaves
   * the order of equal avg_score values open; this one lists them in reverse
   * table order (see SortTiesReversed), and callers rely only on the ensures.
   */
  function SortByAvgDesc(rows: seq<DeptStats>): (r: seq<DeptStats>)
    ensures ByAvgDesc(r)
    ensures multiset(r) == multiset(rows)
    decreases |rows|
  {
    if rows == [] then []
    else
      assert rows == [rows[0]] + rows[1..];
      InsertByAvg(SortByAvgDesc(rows[1..]), rows[0])
  }

  /** Two rows with equal avg_score come out in reverse table order. */
  lemma SortTiesReversed(a: DeptStats, b: DeptStats)
    requires a.avg_score == b.avg_score
    ensures SortByAvgDesc([a, b]) == [b, a]
  {
    assert [a, b][1..] == [b];
    assert SortByAvgDesc([b]) == [b];
  }
}
