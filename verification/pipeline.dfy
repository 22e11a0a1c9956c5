/**
 * One run of the DAG from transform_data on: transform, load, report, and
 * the attachment list of the notification. A task that fails stops the tasks
 * after it.
 */
module Pipeline {
  import opened Records
  import opened Join
  import opened Aggregation
  import opened Transform
  import opened StatsTable
  import opened Store
  import opened Report
  import opened Attachments

  datatype Outcome =
    | TransformFailed(transformError: TransformError)
    | LoadFailed(loadError: LoadError)
    | Notified(figures: Figures, files: seq<string>)

  /**
   * `existing` is the set of files present before the run; generate_report
   * writes the report file and the CSV file.
   */
  method Run(es: seq<Employee>, ts: seq<Training>, cs: seq<Course>, table: RetentionTable, existing: set<string>)
    returns (o: Outcome)
    requires table.Valid()
    modifies table
    ensures table.Valid()
    ensures es == [] || ts == [] || cs == [] ==>
      && o.TransformFailed?
      && table.present == old(table.present) && table.rows == old(table.rows)
      && table.lastId == old(table.lastId)
    ensures es != [] && ts != [] && cs != [] && JoinAll(es, ts, cs) == [] ==>
      && o == LoadFailed(NoData)
      && table.present == old(table.present) && table.rows == old(table.rows)
      && table.lastId == old(table.lastId)
    ensures es != [] && ts != [] && cs != [] && JoinAll(es, ts, cs) != [] ==>
      && o.Notified?
      && table.Contents() == Aggregate(JoinAll(es, ts, cs))
      && Summarises(o.figures, table.Contents())
      && o.figures.categories == |Departments(JoinAll(es, ts, cs))|
      && o.figures.total_courses == |JoinAll(es, ts, cs)|
      && o.files == [ReportFile, CsvFile]
    ensures o.Notified? && UniqueEmployeeIds(es) && UniqueCourseIds(cs) ==>
      && o.figures.total_courses == |Matched(ts, es, cs)| <= |ts|
      && o.figures.total_employees == |EmployeeIds(JoinAll(es, ts, cs))|
  {
    var transformed := TransformData(es, ts, cs);
    if transformed.Err? {
      return TransformFailed(transformed.error);
    }
    var stats := transformed.value;
    var loaded := table.Load(Some(stats));
    if loaded.Err? {
      return LoadFailed(loaded.error);
    }
    var report := GenerateReport(table);
    assert report.Ok?;
    var written := existing + {ReportFile, CsvFile};
    BothFilesAttached(written);
    o := Notified(report.value, AttachmentList(written));
    RunFigures(es, ts, cs, report.value);
  }

  /** Figures that summarise the loaded statistics count the departments and the joined rows. */
  lemma RunFigures(es: seq<Employee>, ts: seq<Training>, cs: seq<Course>, f: Figures)
    requires es != [] && ts != [] && cs != []
    requires Summarises(f, Aggregate(JoinAll(es, ts, cs)))
    ensures f.categories == |Departments(JoinAll(es, ts, cs))|
    ensures f.total_courses == |JoinAll(es, ts, cs)|
    ensures UniqueEmployeeIds(es) && UniqueCourseIds(cs) ==>
      && f.total_courses == |Matched(ts, es, cs)| <= |ts|
      && f.total_employees == |EmployeeIds(JoinAll(es, ts, cs))|
  {
    AggregateCoursesTotal(JoinAll(es, ts, cs));
    if UniqueEmployeeIds(es) && UniqueCourseIds(cs) {
      TransformTotals(es, ts, cs);
    }
  }

  /** Once both output files exist, both are attached, the report file first. */
  lemma BothFilesAttached(existing: set<string>)
    requires ReportFile in existing && CsvFile in existing
    ensures AttachmentList(existing) == [ReportFile, CsvFile]
  {
  }
}
