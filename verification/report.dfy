/**
 * The figures generate_report computes from the table: the number of
 * categories, the two column totals, and the best and the worst department.
 */
module Report {
  import opened Records
  import opened StatsTable
  import opened Store

  datatype Figures = Figures(categories: nat, total_employees: int, total_courses: int,
                             best: DeptStats, worst: DeptStats)

  datatype ReportError =
    | TableMissing  // the SELECT fails
    | NoRows        // taking the first row of an empty result raises IndexError

  /** The figures, from the rows in the order the query returned them. */
  function FiguresOf(ordered: seq<DeptStats>): (r: Result<Figures, ReportError>)
  {
    if ordered == [] then Err(NoRows)
    else Ok(Figures(|ordered|, ColumnTotal(ordered, TotalEmployees), ColumnTotal(ordered, TotalCourses),
                    ordered[0], ordered[|ordered| - 1]))
  }

  /** What the report's figures say about the table they were read from. */
  predicate Summarises(f: Figures, table: seq<DeptStats>)
  {
    && f.categories == |table|
    && f.total_employees == ColumnTotal(table, TotalEmployees)
    && f.total_courses == ColumnTotal(table, TotalCourses)
    && f.best in table && f.worst in table
    && (forall s :: s in table ==> f.worst.avg_score <= s.avg_score <= f.best.avg_score)
  }

  /**
   * Read in avg_score order, the first row is a department with the highest
   * avg_score, the last one with the lowest, and the totals are those of the table.
   */
  lemma FiguresOfOrdered(ordered: seq<DeptStats>, table: seq<DeptStats>)
    requires ByAvgDesc(ordered) && multiset(ordered) == multiset(table)
    ensures FiguresOf(ordered).Err? <==> table == []
    ensures FiguresOf(ordered).Ok? ==> Summarises(FiguresOf(ordered).value, table)
    ensures FiguresOf(ordered).Ok? ==> FiguresOf(ordered).value.best.avg_score >= FiguresOf(ordered).value.worst.avg_score
  {
    assert |ordered| == |multiset(ordered)| == |multiset(table)| == |table|;
    if ordered != [] {
      ColumnTotalPermutation(ordered, table, TotalEmployees);
      ColumnTotalPermutation(ordered, table, TotalCourses);
      var n := |ordered|;
      assert ordered[0] in multiset(table) && ordered[n - 1] in multiset(table);
      forall s | s in table ensures ordered[n - 1].avg_score <= s.avg_score <= ordered[0].avg_score {
        assert s in multiset(ordered);
        var i :| 0 <= i < n && ordered[i] == s;
      }
    }
  }

  /** generate_report, figures only. */
  function GenerateReport(t: RetentionTable): (r: Result<Figures, ReportError>)
    reads t
    ensures !t.present ==> r == Err(TableMissing)
    ensures t.present && t.Contents() == [] ==> r == Err(NoRows)
    ensures t.present && t.Contents() != [] ==> r.Ok? && Summarises(r.value, t.Contents())
  {
    match t.SelectByAvgDesc()
    case Err(_) => Err(TableMissing)
    case Ok(ordered) =>
      FiguresOfOrdered(ordered, t.Contents());
      FiguresOf(ordered)
  }
}
