/** The files send_email_with_attachments attaches to the notification. */
module Attachments {

  const ReportFile: string := "/opt/airflow/retention_analysis_report.txt"
  const CsvFile: string := "/opt/airflow/retention_analysis_data.csv"

  /**
   * The report file, then the CSV file, each only if it exists; `existing`
   * is the set of paths that exist on disk.
   */
  function AttachmentList(existing: set<string>): (files: seq<string>)
    ensures ReportFile in files <==> ReportFile in existing
    ensures CsvFile in files <==> CsvFile in existing
    ensures forall f :: f in files ==> f == ReportFile || f == CsvFile
    ensures forall i, j :: 0 <= i < j < |files| ==> files[i] == ReportFile && files[j] == CsvFile
  {
    (if ReportFile in existing then [ReportFile] else [])
    + (if CsvFile in existing then [CsvFile] else [])
  }

  /** The paths among `candidates` that exist, in the order given. */
  function KeepExisting(candidates: seq<string>, existing: set<string>): seq<string>
    decreases |candidates|
  {
    if candidates == [] then []
    else (if candidates[0] in existing then [candidates[0]] else []) + KeepExisting(candidates[1..], existing)
  }

  /** The attachment list is the two output files filtered by existence. */
  lemma AttachmentListFilters(existing: set<string>)
    ensures AttachmentList(existing) == KeepExisting([ReportFile, CsvFile], existing)
  {
    var both := [ReportFile, CsvFile];
    assert both[1..] == [CsvFile] && both[1..][1..] == [];
    assert KeepExisting(both[1..], existing) == if CsvFile in existing then [CsvFile] else [];
  }
}
