/**
 * The table loader and incremental appender over a relational store:
 * create a table from a CSV unless the name is taken, assert a unique index
 * if no index of that name exists, and insert a CSV's rows one at a time,
 * skipping any row that collides with a unique index.
 */
module Store {

  import opened Wrappers

  /** A table row: column to value; a column absent from the map holds NULL. */
  type Row = map<string, string>

  datatype Table = Table(columns: set<string>, rows: seq<Row>)

  /** A CSV as read into a data frame: its columns and its rows in file order; an absent column is an empty (NaN) cell. */
  datatype Frame = Frame(columns: set<string>, rows: seq<Row>)

  datatype Index = Index(table: string, column: string)

  datatype Error =
    | CsvUnreadable      // the CSV could not be read
    | TableExists        // to_sql(if_exists="fail") found the name taken
    | NoSuchTable
    | NoSuchColumn
    | NameTaken          // an index may not take a table's name
    | UniqueViolation    // the column already holds duplicates
    | MissingCsvColumn   // the incoming CSV lacks a column the insert reads

  datatype IndexOutcome = Created | AlreadyExists | Failed(error: Error)

  const ProductId: string := "productid"
  const Name: string := "name"
  const Price: string := "PDP_productPrice"

  /** The columns the appender's INSERT sets. */
  const Inserted: set<string> := {ProductId, Name, Price}

  predicate WellFormed(rows: seq<Row>, columns: set<string>) {
    forall i :: 0 <= i < |rows| ==> rows[i].Keys <= columns
  }

  /** No two rows share a non-NULL value in the column (NULLs never collide). */
  predicate Unique(rows: seq<Row>, column: string) {
    forall i, j :: 0 <= i < j < |rows| && column in rows[i] && column in rows[j] ==> rows[i][column] != rows[j][column]
  }

  predicate AllWellFormed(tables: map<string, Table>) {
    forall t :: t in tables ==> WellFormed(tables[t].rows, tables[t].columns)
  }

  /** Every unique index names an existing table and column, and the column holds no duplicates. */
  ghost predicate IndexesHold(tables: map<string, Table>, indexes: map<string, Index>) {
    forall n :: n in indexes ==>
      && indexes[n].table in tables
      && indexes[n].column in tables[indexes[n].table].columns
      && Unique(tables[indexes[n].table].rows, indexes[n].column)
  }

  /** The database's invariant: table and index names are distinct, and every unique index holds. */
  ghost predicate Consistent(tables: map<string, Table>, indexes: map<string, Index>) {
    tables.Keys !! indexes.Keys && AllWellFormed(tables) && IndexesHold(tables, indexes)
  }

  /** The columns of table t that carry a unique index. */
  function IndexedColumns(indexes: map<string, Index>, t: string): set<string> {
    set n | n in indexes && indexes[n].table == t :: indexes[n].column
  }

  // ---------------------------------------------------------------------
  // INSERT ... ON CONFLICT DO NOTHING
  // ---------------------------------------------------------------------

  /** Inserting r would violate a unique index on one of the indexed columns. */
  predicate Conflicts(rows: seq<Row>, indexed: set<string>, r: Row) {
    exists i, c :: 0 <= i < |rows| && c in indexed && c in r && c in rows[i] && rows[i][c] == r[c]
  }

  /** One insert-or-ignore. */
  function Insert(rows: seq<Row>, indexed: set<string>, r: Row): seq<Row> {
    if Conflicts(rows, indexed, r) then rows else rows + [r]
  }

  /** The incoming rows inserted one at a time, in order. */
  function AppendRows(rows: seq<Row>, indexed: set<string>, incoming: seq<Row>): seq<Row>
    decreases |incoming|
  {
    if incoming == [] then rows
    else Insert(AppendRows(rows, indexed, incoming[..|incoming| - 1]), indexed, incoming[|incoming| - 1])
  }

  /** The text a CSV cell is inserted as: an empty (NaN) cell becomes "nan". */
  function CellText(row: Row, c: string): string {
    if c in row then row[c] else "nan"
  }

  /** The row an incoming CSV line becomes: productid, name and PDP_productPrice only, never NULL. */
  function Projected(row: Row): (r: Row)
    ensures r.Keys == Inserted
    ensures forall c :: c in Inserted ==> r[c] == CellText(row, c)
  {
    map[ProductId := CellText(row, ProductId), Name := CellText(row, Name), Price := CellText(row, Price)]
  }

  function ProjectAll(rows: seq<Row>): (p: seq<Row>)
    ensures |p| == |rows|
    ensures forall i :: 0 <= i < |rows| ==> p[i] == Projected(rows[i])
  {
    seq(|rows|, i requires 0 <= i < |rows| => Projected(rows[i]))
  }

  lemma AppendRowsSnoc(rows: seq<Row>, indexed: set<string>, incoming: seq<Row>, r: Row)
    ensures AppendRows(rows, indexed, incoming + [r]) == Insert(AppendRows(rows, indexed, incoming), indexed, r)
  {
    assert (incoming + [r])[..|incoming|] == incoming;
  }

  lemma ProjectAllSnoc(rows: seq<Row>, k: nat)
    requires k < |rows|
    ensures ProjectAll(rows[..k + 1]) == ProjectAll(rows[..k]) + [Projected(rows[k])]
  {
  }

  /**
   * Existing rows are never modified: the result is the old rows followed
   * by some of the incoming rows.
   */
  lemma {:induction false} AppendRowsExtends(rows: seq<Row>, indexed: set<string>, incoming: seq<Row>)
    ensures var out := AppendRows(rows, indexed, incoming);
      && |rows| <= |out| <= |rows| + |incoming|
      && out[..|rows|] == rows
      && forall k :: |rows| <= k < |out| ==> out[k] in incoming
  {
    if incoming != [] {
      var init := incoming[..|incoming| - 1];
      AppendRowsExtends(rows, indexed, init);
      var prev := AppendRows(rows, indexed, init);
      assert forall k :: |rows| <= k < |prev| ==> prev[k] in incoming by {
        forall k | |rows| <= k < |prev| ensures prev[k] in incoming {
          assert prev[k] in init;
        }
      }
      if !Conflicts(prev, indexed, incoming[|incoming| - 1]) {
        assert (prev + [incoming[|incoming| - 1]])[..|rows|] == prev[..|rows|];
      }
    }
  }

  /** A unique column stays unique: an insert that would duplicate it is skipped. */
  lemma {:induction false} AppendRowsKeepsUnique(rows: seq<Row>, indexed: set<string>, incoming: seq<Row>, c: string)
    requires c in indexed && Unique(rows, c)
    ensures Unique(AppendRows(rows, indexed, incoming), c)
  {
    if incoming != [] {
      var init := incoming[..|incoming| - 1];
      var r := incoming[|incoming| - 1];
      AppendRowsKeepsUnique(rows, indexed, init, c);
      var prev := AppendRows(rows, indexed, init);
      if !Conflicts(prev, indexed, r) {
        var out := prev + [r];
        forall i, j | 0 <= i < j < |out| && c in out[i] && c in out[j]
          ensures out[i][c] != out[j][c]
        {
          if j == |prev| {
            assert out[i] == prev[i];
          }
        }
      }
    }
  }

  /** Conflicts with the rows of a table persist when rows are added after them. */
  lemma ConflictsPersist(rows: seq<Row>, more: seq<Row>, indexed: set<string>, r: Row)
    requires rows <= more && Conflicts(rows, indexed, r)
    ensures Conflicts(more, indexed, r)
  {
    var i, c :| 0 <= i < |rows| && c in indexed && c in r && c in rows[i] && rows[i][c] == r[c];
    assert more[i] == rows[i];
  }

  /** The row carries a value in some indexed column. */
  predicate Guarded(indexed: set<string>, r: Row) {
    exists c :: c in indexed && c in r
  }

  /** After the load, every incoming row that carries an indexed value collides with the table. */
  lemma {:induction false} AppendRowsCoversIncoming(rows: seq<Row>, indexed: set<string>, incoming: seq<Row>)
    requires forall k :: 0 <= k < |incoming| ==> Guarded(indexed, incoming[k])
    ensures forall k :: 0 <= k < |incoming| ==> Conflicts(AppendRows(rows, indexed, incoming), indexed, incoming[k])
  {
    if incoming != [] {
      var init := incoming[..|incoming| - 1];
      var r := incoming[|incoming| - 1];
      AppendRowsCoversIncoming(rows, indexed, init);
      var prev := AppendRows(rows, indexed, init);
      var out := AppendRows(rows, indexed, incoming);
      assert prev <= out;
      forall k | 0 <= k < |incoming|
        ensures Conflicts(out, indexed, incoming[k])
      {
        if k < |init| {
          assert incoming[k] == init[k];
          ConflictsPersist(prev, out, indexed, init[k]);
        } else if !Conflicts(prev, indexed, r) {
          var c :| c in indexed && c in r;
          assert out[|prev|] == r;
        }
      }
    }
  }

  /** A load whose every row collides with the table changes nothing. */
  lemma {:induction false} AppendRowsAllConflicting(rows: seq<Row>, indexed: set<string>, incoming: seq<Row>)
    requires forall k :: 0 <= k < |incoming| ==> Conflicts(rows, indexed, incoming[k])
    ensures AppendRows(rows, indexed, incoming) == rows
  {
    if incoming != [] {
      var init := incoming[..|incoming| - 1];
      assert forall k :: 0 <= k < |init| ==> init[k] == incoming[k];
      AppendRowsAllConflicting(rows, indexed, init);
    }
  }

  /**
   * Loading the same CSV twice leaves the table as loading it once, as long
   * as one of the inserted columns carries a unique index.
   */
  lemma AppendTwiceIsAppendOnce(rows: seq<Row>, indexed: set<string>, csvRows: seq<Row>)
    requires indexed * Inserted != {}
    ensures var once := AppendRows(rows, indexed, ProjectAll(csvRows));
      AppendRows(once, indexed, ProjectAll(csvRows)) == once
  {
    var incoming := ProjectAll(csvRows);
    var c :| c in indexed * Inserted;
    forall k | 0 <= k < |incoming| ensures Guarded(indexed, incoming[k]) {
      assert c in incoming[k];
    }
    AppendRowsCoversIncoming(rows, indexed, incoming);
    AppendRowsAllConflicting(AppendRows(rows, indexed, incoming), indexed, incoming);
  }

  /** Without a unique index nothing collides and every row is inserted, duplicates included. */
  lemma {:induction false} AppendRowsWithoutIndex(rows: seq<Row>, incoming: seq<Row>)
    ensures AppendRows(rows, {}, incoming) == rows + incoming
  {
    if incoming != [] {
      var init := incoming[..|incoming| - 1];
      AppendRowsWithoutIndex(rows, init);
      assert incoming == init + [incoming[|incoming| - 1]];
    }
  }

  /** The non-NULL values of a column. */
  function ValuesOf(rows: seq<Row>, c: string): set<string> {
    set i | 0 <= i < |rows| && c in rows[i] :: rows[i][c]
  }

  lemma ValuesOfSnoc(rows: seq<Row>, r: Row, c: string)
    ensures ValuesOf(rows + [r], c) == ValuesOf(rows, c) + (if c in r then {r[c]} else {})
  {
    var s := rows + [r];
    forall v ensures v in ValuesOf(s, c) <==> v in ValuesOf(rows, c) + (if c in r then {r[c]} else {}) {
      if v in ValuesOf(s, c) {
        var i :| 0 <= i < |s| && c in s[i] && s[i][c] == v;
        if i < |rows| {
          assert rows[i] == s[i];
        }
      }
      if v in ValuesOf(rows, c) {
        var i :| 0 <= i < |rows| && c in rows[i] && rows[i][c] == v;
        assert s[i] == rows[i];
      }
      if c in r && v == r[c] {
        assert s[|rows|] == r;
      }
    }
  }

  /** With the index on productid only, a row collides exactly when its productid is already present. */
  lemma ConflictsOnProductId(rows: seq<Row>, r: Row)
    requires ProductId in r
    ensures Conflicts(rows, {ProductId}, r) <==> r[ProductId] in ValuesOf(rows, ProductId)
  {
    if r[ProductId] in ValuesOf(rows, ProductId) {
      var i :| 0 <= i < |rows| && ProductId in rows[i] && rows[i][ProductId] == r[ProductId];
      assert ProductId in {ProductId};
    }
  }

  /** Every incoming productid is present afterwards, inserted or already there. */
  lemma {:induction false} AppendRowsValues(rows: seq<Row>, incoming: seq<Row>)
    requires forall k :: 0 <= k < |incoming| ==> ProductId in incoming[k]
    ensures ValuesOf(AppendRows(rows, {ProductId}, incoming), ProductId) == ValuesOf(rows, ProductId) + ValuesOf(incoming, ProductId)
  {
    if incoming == [] {
      assert ValuesOf(incoming, ProductId) == {};
    } else {
      var init := incoming[..|incoming| - 1];
      var r := incoming[|incoming| - 1];
      assert incoming == init + [r];
      assert forall k :: 0 <= k < |init| ==> init[k] == incoming[k];
      AppendRowsValues(rows, init);
      var prev := AppendRows(rows, {ProductId}, init);
      ValuesOfSnoc(init, r, ProductId);
      ConflictsOnProductId(prev, r);
      if !Conflicts(prev, {ProductId}, r) {
        ValuesOfSnoc(prev, r, ProductId);
      }
    }
  }

  /**
   * With the unique index on productid only, the table grows by one row per
   * distinct incoming productid not already present.
   */
  lemma {:induction false} AppendRowsCount(rows: seq<Row>, incoming: seq<Row>)
    requires forall k :: 0 <= k < |incoming| ==> ProductId in incoming[k]
    ensures |AppendRows(rows, {ProductId}, incoming)| == |rows| + |ValuesOf(incoming, ProductId) - ValuesOf(rows, ProductId)|
  {
    if incoming == [] {
      assert ValuesOf(incoming, ProductId) == {};
    } else {
      var init := incoming[..|incoming| - 1];
      var r := incoming[|incoming| - 1];
      assert incoming == init + [r];
      assert forall k :: 0 <= k < |init| ==> init[k] == incoming[k];
      AppendRowsCount(rows, init);
      AppendRowsValues(rows, init);
      var prev := AppendRows(rows, {ProductId}, init);
      ValuesOfSnoc(init, r, ProductId);
      ConflictsOnProductId(prev, r);
      var v := r[ProductId];
      var before := ValuesOf(init, ProductId) - ValuesOf(rows, ProductId);
      var after := ValuesOf(incoming, ProductId) - ValuesOf(rows, ProductId);
      if v in ValuesOf(prev, ProductId) {
        assert after == before;
      } else {
        assert after == before + {v};
        assert v !in before;
      }
    }
  }

  /** What add_csv_lines_to_table raises to its caller, if anything. */
  function AppendFailure(tables: map<string, Table>, csv: Option<Frame>, tableName: string): Option<Error> {
    if csv.None? then Some(CsvUnreadable)
    else if csv.value.rows == [] then None
    else if !(Inserted <= csv.value.columns) then Some(MissingCsvColumn)
    else if tableName !in tables then Some(NoSuchTable)
    else if !(Inserted <= tables[tableName].columns) then Some(NoSuchColumn)
    else None
  }

  /** The relational store behind one connection. */
  class Database {
    var tables: map<string, Table>
    var indexes: map<string, Index>

    ghost predicate Valid()
      reads this
    {
      Consistent(tables, indexes)
    }

    /** Opens a database file holding the given tables and indexes. */
    constructor (tables: map<string, Table>, indexes: map<string, Index>)
      requires Consistent(tables, indexes)
      ensures Valid() && this.tables == tables && this.indexes == indexes
    {
      this.tables := tables;
      this.indexes := indexes;
    }

    /**
     * csv_to_new_sqlite_table: imports the CSV as a new table unless the CSV
     * cannot be read or the name is taken; that failure is reported in
     * `caught` and goes no further. The record count that follows raises
     * when no such table exists.
     */
    method CsvToNewSqliteTable(csv: Option<Frame>, tableName: string) returns (caught: Option<Error>, recordCount: Result<nat, Error>)
      requires Valid()
      requires csv.Some? ==> WellFormed(csv.value.rows, csv.value.columns)
      modifies this
      ensures Valid() && indexes == old(indexes)
      ensures caught == if csv.None? then Some(CsvUnreadable)
                        else if tableName in old(tables) || tableName in old(indexes) then Some(TableExists)
                        else None
      ensures caught.None? ==> tables == old(tables)[tableName := Table(csv.value.columns, csv.value.rows)]
      ensures caught.Some? ==> tables == old(tables)
      ensures recordCount == if tableName in tables then Ok(|tables[tableName].rows|) else Err(NoSuchTable)
    {
      if csv.None? {
        caught := Some(CsvUnreadable);
      } else if tableName in tables || tableName in indexes {
        caught := Some(TableExists);
      } else {
        tables := tables[tableName := Table(csv.value.columns, csv.value.rows)];
        caught := None;
      }
      if tableName in tables {
        recordCount := Ok(|tables[tableName].rows|);
      } else {
        recordCount := Err(NoSuchTable);
      }
    }

    /**
     * create_index: CREATE UNIQUE INDEX IF NOT EXISTS. A failure is caught
     * and reported in the outcome; tables never change, and an existing
     * index of that name makes the call a no-op.
     */
    method CreateIndex(tableName: string, indexName: string, column: string) returns (outcome: IndexOutcome)
      requires Valid()
      modifies this
      ensures Valid() && tables == old(tables)
      ensures outcome == if tableName !in tables then Failed(NoSuchTable)
                         else if indexName in tables then Failed(NameTaken)
                         else if indexName in old(indexes) then AlreadyExists
                         else if column !in tables[tableName].columns then Failed(NoSuchColumn)
                         else if !Unique(tables[tableName].rows, column) then Failed(UniqueViolation)
                         else Created
      ensures indexes == if outcome == Created then old(indexes)[indexName := Index(tableName, column)] else old(indexes)
      ensures indexName in old(indexes) ==> indexes == old(indexes)
    {
      if tableName !in tables {
        outcome := Failed(NoSuchTable);
      } else if indexName in tables {
        outcome := Failed(NameTaken);
      } else if indexName in indexes {
        outcome := AlreadyExists;
      } else if column !in tables[tableName].columns {
        outcome := Failed(NoSuchColumn);
      } else if !Unique(tables[tableName].rows, column) {
        outcome := Failed(UniqueViolation);
      } else {
        indexes := indexes[indexName := Index(tableName, column)];
        outcome := Created;
      }
    }

    /**
     * add_csv_lines_to_table: inserts each CSV line's productid, name and
     * PDP_productPrice in file order, skipping lines that collide with a
     * unique index (earlier lines of the same file included). An exception
     * reaches the caller before the commit, so then nothing changes.
     */
    method AddCsvLinesToTable(csv: Option<Frame>, tableName: string) returns (raised: Option<Error>)
      requires Valid()
      modifies this
      ensures Valid() && indexes == old(indexes)
      ensures raised == AppendFailure(old(tables), csv, tableName)
      ensures raised.None? && tableName in old(tables) ==>
                tables == old(tables)[tableName := old(tables)[tableName].(rows :=
                  AppendRows(old(tables)[tableName].rows, IndexedColumns(indexes, tableName), ProjectAll(csv.value.rows)))]
      ensures !(raised.None? && tableName in old(tables)) ==> tables == old(tables)
    {
      if csv.None? {
        return Some(CsvUnreadable);
      }
      var table := if tableName in tables then Some(tables[tableName]) else None;
      var inserted := InsertLines(table, csv.value, IndexedColumns(indexes, tableName));
      if inserted.Err? {
        return Some(inserted.error);
      }
      if tableName in tables {
        CommitKeepsConsistent(tables, indexes, tableName, ProjectAll(csv.value.rows));
        tables := tables[tableName := tables[tableName].(rows := inserted.value)];
      }
      raised := None;
    }
  }

  /**
   * The insert loop of add_csv_lines_to_table, before the commit: each line
   * is projected and inserted unless it collides. Reading a column the CSV
   * lacks, a missing table or a missing table column raises on the first
   * line; a CSV without lines raises nothing.
   */
  method InsertLines(table: Option<Table>, frame: Frame, indexed: set<string>) returns (result: Result<seq<Row>, Error>)
    ensures result.Err? <==> frame.rows != [] && (!(Inserted <= frame.columns) || table.None? || !(Inserted <= table.value.columns))
    ensures result.Err? ==> result.error == if !(Inserted <= frame.columns) then MissingCsvColumn
                                            else if table.None? then NoSuchTable
                                            else NoSuchColumn
    ensures result.Ok? ==> result.value == AppendRows(if table.Some? then table.value.rows else [], indexed, ProjectAll(frame.rows))
  {
    var base := if table.Some? then table.value.rows else [];
    var pending := base;
    for k := 0 to |frame.rows|
      invariant pending == AppendRows(base, indexed, ProjectAll(frame.rows[..k]))
      invariant k > 0 ==> Inserted <= frame.columns && table.Some? && Inserted <= table.value.columns
    {
      if !(Inserted <= frame.columns) {
        return Err(MissingCsvColumn);
      }
      if table.None? {
        return Err(NoSuchTable);
      }
      if !(Inserted <= table.value.columns) {
        return Err(NoSuchColumn);
      }
      var values := Projected(frame.rows[k]);
      ProjectAllSnoc(frame.rows, k);
      AppendRowsSnoc(base, indexed, ProjectAll(frame.rows[..k]), values);
      pending := Insert(pending, indexed, values);
    }
    assert frame.rows[..|frame.rows|] == frame.rows;
    return Ok(pending);
  }

  /** Committing an append to a table whose columns include the inserted ones keeps the database consistent. */
  lemma CommitKeepsConsistent(tables: map<string, Table>, indexes: map<string, Index>, t: string, incoming: seq<Row>)
    requires Consistent(tables, indexes) && t in tables
    requires WellFormed(incoming, tables[t].columns)
    ensures var indexed := IndexedColumns(indexes, t);
      Consistent(tables[t := tables[t].(rows := AppendRows(tables[t].rows, indexed, incoming))], indexes)
  {
    var indexed := IndexedColumns(indexes, t);
    var rows := tables[t].rows;
    var out := AppendRows(rows, indexed, incoming);
    AppendedWellFormed(rows, indexed, incoming, tables[t].columns);
    var tables' := tables[t := tables[t].(rows := out)];
    assert AllWellFormed(tables');
    forall n | n in indexes && indexes[n].table == t
      ensures Unique(out, indexes[n].column)
    {
      assert indexes[n].column in indexed;
      AppendRowsKeepsUnique(rows, indexed, incoming, indexes[n].column);
    }
    assert IndexesHold(tables', indexes);
  }

  lemma AppendedWellFormed(rows: seq<Row>, indexed: set<string>, incoming: seq<Row>, columns: set<string>)
    requires WellFormed(rows, columns) && WellFormed(incoming, columns)
    ensures WellFormed(AppendRows(rows, indexed, incoming), columns)
  {
    var out := AppendRows(rows, indexed, incoming);
    AppendRowsExtends(rows, indexed, incoming);
    forall i | 0 <= i < |out| ensures out[i].Keys <= columns {
      if i < |rows| {
        assert out[i] == rows[i];
      }
    }
  }
}
