/**
 * The retention_analysis table of the SQLite database and load_to_database,
 * which replaces its whole content with the latest department statistics.
 */
module Store {
  import opened Records
  import opened StatsTable

  /** A row of retention_analysis: the AUTOINCREMENT id and the four loaded columns. */
  datatype StoredRow = StoredRow(id: int, stats: DeptStats)

  /** ValueError raised when there are no statistics to load. */
  datatype LoadError = NoData

  /** Reading a table that was never created fails. */
  datatype QueryError = NoSuchTable

  function StatsColumns(rows: seq<StoredRow>): seq<DeptStats>
  {
    seq(|rows|, i requires 0 <= i < |rows| => rows[i].stats)
  }

  lemma StatsColumnsSnoc(rows: seq<StoredRow>, x: StoredRow)
    ensures StatsColumns(rows + [x]) == StatsColumns(rows) + [x.stats]
  {
  }

  class RetentionTable {
    /** CREATE TABLE has run. */
    var present: bool
    var rows: seq<StoredRow>
    /** The largest id ever handed out (SQLite keeps it for an AUTOINCREMENT key); DELETE does not reset it. */
    var lastId: nat

    ghost predicate Valid()
      reads this
    {
      && (!present ==> rows == [] && lastId == 0)
      && (forall i :: 0 <= i < |rows| ==> 0 < rows[i].id <= lastId)
      && (forall i, j :: 0 <= i < j < |rows| ==> rows[i].id < rows[j].id)
    }

    /** The loaded columns, in insertion order. */
    function Contents(): seq<DeptStats>
      reads this
    {
      StatsColumns(rows)
    }

    /** A database file in which retention_analysis does not exist yet. */
    constructor ()
      ensures Valid() && !present && rows == [] && lastId == 0
    {
      present, rows, lastId := false, [], 0;
    }

    /** Creates the table when it is missing; an existing table, rows and all, is left as it is. */
    method CreateIfAbsent()
      requires Valid()
      modifies this
      ensures Valid() && present
      ensures rows == old(rows) && lastId == old(lastId)
    {
      present := true;
    }

    /** Removes every row of the table. */
    method DeleteAll()
      requires Valid() && present
      modifies this
      ensures Valid() && present
      ensures rows == [] && lastId == old(lastId)
    {
      rows := [];
    }

    /** Inserts the rows after the existing ones, in order, each with the next id. */
    method Append(stats: seq<DeptStats>)
      requires Valid() && present
      modifies this
      ensures Valid() && present
      ensures |rows| == |old(rows)| + |stats| && rows[..|old(rows)|] == old(rows)
      ensures Contents() == old(Contents()) + stats
      ensures forall k :: |old(rows)| <= k < |rows| ==> rows[k].id == old(lastId) + 1 + (k - |old(rows)|)
      ensures lastId == old(lastId) + |stats|
    {
      var i := 0;
      while i < |stats|
        invariant 0 <= i <= |stats|
        invariant Valid() && present
        invariant |rows| == |old(rows)| + i && rows[..|old(rows)|] == old(rows)
        invariant Contents() == old(Contents()) + stats[..i]
        invariant forall k :: |old(rows)| <= k < |rows| ==> rows[k].id == old(lastId) + 1 + (k - |old(rows)|)
        invariant lastId == old(lastId) + i
      {
        assert stats[..i + 1] == stats[..i] + [stats[i]];
        lastId := lastId + 1;
        StatsColumnsSnoc(rows, StoredRow(lastId, stats[i]));
        rows := rows + [StoredRow(lastId, stats[i])];
        i := i + 1;
      }
      assert stats[..i] == stats;
    }

    /**
     * load_to_database: no statistics (none pulled, or an empty list) is an
     * error before the database is touched; otherwise create the table if
     * absent, delete every row and append the new ones.
     */
    method Load(input: Option<seq<DeptStats>>) returns (r: Result<nat, LoadError>)
      requires Valid()
      modifies this
      ensures Valid()
      ensures (input == None || input == Some([])) ==>
        r == Err(NoData) && present == old(present) && rows == old(rows) && lastId == old(lastId)
      ensures input.Some? && input.value != [] ==>
        && r == Ok(|input.value|)
        && present
        && Contents() == input.value
        && lastId == old(lastId) + |input.value|
        && (forall k :: 0 <= k < |rows| ==> old(lastId) < rows[k].id)
        && (forall k :: 0 <= k < |rows| ==> rows[k] !in old(rows))
    {
      if input == None || input == Some([]) {
        return Err(NoData);
      }
      var stats := input.value;
      CreateIfAbsent();
      DeleteAll();
      Append(stats);
      return Ok(|stats|);
    }

    /**
     * The report's query: the four statistics columns of every row, highest
     * avg_score first; rows with equal avg_score come in no promised order.
     */
    function SelectByAvgDesc(): (r: Result<seq<DeptStats>, QueryError>)
      reads this
      ensures r.Err? <==> !present
      ensures r.Ok? ==> ByAvgDesc(r.value) && multiset(r.value) == multiset(Contents())
    {
      if !present then Err(NoSuchTable) else Ok(SortByAvgDesc(Contents()))
    }
  }

  /** Loading the same statistics twice leaves the table as loading them once does. */
  method LoadTwice(table: RetentionTable, stats: seq<DeptStats>)
    requires table.Valid() && stats != []
    modifies table
    ensures table.Valid() && table.present && table.Contents() == stats
  {
    var first := table.Load(Some(stats));
    var once := table.Contents();
    var second := table.Load(Some(stats));
    assert first == second == Ok(|stats|);
    assert table.Contents() == once;
  }
}
