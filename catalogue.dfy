/**
 * The catalogue store (`DatabaseUtils`): the in-memory snapshot of `master_table`, the planning
 * of an insert (next primary key, record keys mapped onto the table's columns) and the clean-up
 * of stray carriage returns in the `ReadingStatus` column.
 */
module Catalogue {
  import opened Text
  import opened Records
  import opened Connection

  /** One row of the snapshot: column name to cell. */
  type Row = map<string, Value>

  const StatusColumn := "ReadingStatus"

  function ColumnSet(columns: seq<string>): set<string>
  {
    set c | c in columns
  }

  /** Every row holds an integer under `col`. */
  ghost predicate IntsIn(rows: seq<Row>, col: string)
  {
    forall i :: 0 <= i < |rows| ==> col in rows[i] && rows[i][col].Int?
  }

  /** The primary-key column the clean-up updates by: `id`, else `ID`. */
  function PkColumn(columns: seq<string>): Option<string>
  {
    if "id" in columns then Some("id") else if "ID" in columns then Some("ID") else None
  }

  /** `df["id"].max()` over a non-empty snapshot. */
  function MaxId(rows: seq<Row>): (m: int)
    requires |rows| > 0 && IntsIn(rows, "id")
    ensures forall i :: 0 <= i < |rows| ==> rows[i]["id"].i <= m
    ensures exists i :: 0 <= i < |rows| && rows[i]["id"].i == m
    decreases |rows|
  {
    var last := rows[|rows| - 1]["id"].i;
    if |rows| == 1 then last
    else
      var m := MaxId(rows[..|rows| - 1]);
      assert forall i :: 0 <= i < |rows| - 1 ==> rows[..|rows| - 1][i] == rows[i];
      if last > m then last else m
  }

  /**
   * The primary key the next insert uses: 1 for an empty snapshot, one more than the largest `id`
   * when a lower-case `id` column exists, and the row count plus one otherwise.
   */
  function NextId(columns: seq<string>, rows: seq<Row>): (n: int)
    requires "id" in columns ==> IntsIn(rows, "id")
    ensures |rows| == 0 ==> n == 1
    ensures |rows| > 0 && "id" in columns ==>
      (forall i :: 0 <= i < |rows| ==> rows[i]["id"].i < n)
      && (exists i :: 0 <= i < |rows| && rows[i]["id"].i == n - 1)
    ensures |rows| > 0 && "id" !in columns ==> n == |rows| + 1
  {
    if |rows| == 0 then 1
    else if "id" in columns then MaxId(rows) + 1
    else |rows| + 1
  }

  /** The first column equal to `key` ignoring case. */
  function ColumnFor(columns: seq<string>, key: string): Option<string>
    decreases |columns|
  {
    if |columns| == 0 then None
    else if Lower(columns[0]) == Lower(key) then Some(columns[0])
    else ColumnFor(columns[1..], key)
  }

  /** `ColumnFor` finds a column exactly when one matches ignoring case, and then the first one. */
  lemma {:induction false} ColumnForSpec(columns: seq<string>, key: string)
    ensures var r := ColumnFor(columns, key);
      && (r.None? <==> forall j :: 0 <= j < |columns| ==> Lower(columns[j]) != Lower(key))
      && (r.Some? ==> exists i :: (0 <= i < |columns| && columns[i] == r.value
            && Lower(columns[i]) == Lower(key)
            && forall j :: 0 <= j < i ==> Lower(columns[j]) != Lower(key)))
    decreases |columns|
  {
    if |columns| > 0 && Lower(columns[0]) != Lower(key) {
      ColumnForSpec(columns[1..], key);
      assert forall j :: 1 <= j < |columns| ==> columns[j] == columns[1..][j - 1];
      var r := ColumnFor(columns, key);
      if r.Some? {
        var i :| 0 <= i < |columns[1..]| && columns[1..][i] == r.value
          && Lower(columns[1..][i]) == Lower(key)
          && forall j :: 0 <= j < i ==> Lower(columns[1..][j]) != Lower(key);
        assert columns[i + 1] == r.value;
      }
    }
  }

  /**
   * A key that equals a column exactly also matches it ignoring case, so the exact-match
   * fallback of the mapping loop never runs.
   */
  lemma ExactMatchIsFolded(columns: seq<string>, key: string)
    requires key in columns
    ensures ColumnFor(columns, key).Some?
  {
    var j :| 0 <= j < |columns| && columns[j] == key;
    ColumnForSpec(columns, key);
    assert Lower(columns[j]) == Lower(key);
  }

  /** The column the computed key is written under: `id` when the table has it, `ID` otherwise. */
  function IdColumn(columns: seq<string>): string
  {
    if "id" in columns then "id" else "ID"
  }

  /** The insert map after the first `|record|` entries of the record have been mapped. */
  function InsertData(columns: seq<string>, nextId: int, record: Dict): map<string, Value>
    decreases |record|
  {
    if |record| == 0 then map[IdColumn(columns) := Int(nextId)]
    else
      var d := InsertData(columns, nextId, record[..|record| - 1]);
      var (key, value) := record[|record| - 1];
      match ColumnFor(columns, key)
      case Some(col) => d[col := value]
      case None => d
  }

  /** The record key `key` is written under column `col`. */
  predicate MapsTo(columns: seq<string>, key: string, col: string)
  {
    ColumnFor(columns, key) == Some(col)
  }

  /** The value of the last record entry whose key maps to column `col`, if any. */
  function LastValueFor(columns: seq<string>, record: Dict, col: string): Option<Value>
    decreases |record|
  {
    if |record| == 0 then None
    else if MapsTo(columns, record[|record| - 1].0, col) then Some(record[|record| - 1].1)
    else LastValueFor(columns, record[..|record| - 1], col)
  }

  /** A column receives a value exactly when some key maps to it, and then from the last such key. */
  lemma {:induction false} LastValueForSpec(columns: seq<string>, record: Dict, col: string)
    ensures var r := LastValueFor(columns, record, col);
      && (r.Some? <==> exists i :: 0 <= i < |record| && MapsTo(columns, record[i].0, col))
      && (r.Some? ==> exists i :: (0 <= i < |record| && MapsTo(columns, record[i].0, col)
            && record[i].1 == r.value
            && forall j :: i < j < |record| ==> !MapsTo(columns, record[j].0, col)))
    decreases |record|
  {
    if |record| > 0 {
      var n := |record| - 1;
      var prefix := record[..n];
      LastValueForSpec(columns, prefix, col);
      assert forall j :: 0 <= j < n ==> prefix[j] == record[j];
      if !MapsTo(columns, record[n].0, col) {
        var r := LastValueFor(columns, prefix, col);
        if r.Some? {
          var i :| 0 <= i < n && MapsTo(columns, prefix[i].0, col) && prefix[i].1 == r.value
            && forall j :: i < j < n ==> !MapsTo(columns, prefix[j].0, col);
          assert record[i] == prefix[i];
        } else {
          assert forall i :: 0 <= i < n ==> !MapsTo(columns, prefix[i].0, col);
        }
      }
    }
  }

  /**
   * The insert map holds the id column and exactly the columns some record key maps to; each
   * such column carries the value of the last key mapping to it, and the id column keeps the
   * computed key unless a record key maps to it. Keys that match no column are dropped.
   */
  lemma {:induction false} InsertDataSpec(columns: seq<string>, nextId: int, record: Dict, col: string)
    ensures var d, last := InsertData(columns, nextId, record), LastValueFor(columns, record, col);
      && (col in d <==> col == IdColumn(columns) || last.Some?)
      && (col in d ==> d[col] == if last.Some? then last.value else Int(nextId))
    decreases |record|
  {
    if |record| > 0 {
      InsertDataSpec(columns, nextId, record[..|record| - 1], col);
    }
  }

  /** Every column of the insert map other than the id column is a column of the table. */
  lemma InsertDataColumns(columns: seq<string>, nextId: int, record: Dict)
    ensures forall col :: col in InsertData(columns, nextId, record) ==>
      col == IdColumn(columns) || col in columns
  {
    forall col | col in InsertData(columns, nextId, record)
      ensures col == IdColumn(columns) || col in columns
    {
      InsertDataSpec(columns, nextId, record, col);
      if col != IdColumn(columns) {
        LastValueForSpec(columns, record, col);
        var i :| 0 <= i < |record| && MapsTo(columns, record[i].0, col);
        ColumnForSpec(columns, record[i].0);
      }
    }
  }

  /**
   * The first cell of each row the schema query returns: the column name for `DESCRIBE` and for
   * `information_schema`, but the integer position (`cid`) for SQLite's `PRAGMA table_info`.
   */
  function SchemaFirstCells(b: Backend, columns: seq<string>): seq<Value>
  {
    if b == Sqlite then seq(|columns|, i requires 0 <= i < |columns| => Int(i))
    else NameCells(columns)
  }

  /** The column names as cells: what the schema query yields at `row[1]` for SQLite. */
  function NameCells(columns: seq<string>): seq<Value>
  {
    seq(|columns|, i requires 0 <= i < |columns| => Text(columns[i]))
  }

  /** The cells read as names, or `None` when one is not text (its `lower()` raises). */
  function ColumnNames(cells: seq<Value>): (r: Option<seq<string>>)
    ensures r.Some? <==> forall i :: 0 <= i < |cells| ==> cells[i].Text?
    ensures r.Some? ==> |r.value| == |cells| && forall i :: 0 <= i < |cells| ==> cells[i] == Text(r.value[i])
  {
    if forall i :: 0 <= i < |cells| ==> cells[i].Text? then
      Some(seq(|cells|, i requires 0 <= i < |cells| => cells[i].s))
    else None
  }

  /** `'id' in columns` over the schema cells: a cell that is not text never equals `'id'`. */
  function IdColumnOf(cells: seq<Value>): string
  {
    if Text("id") in cells then "id" else "ID"
  }

  const NoLowerError := "'int' object has no attribute 'lower'"

  /**
   * The insert map the mapping loop builds over the schema cells, or the error it raises. The
   * lower-cased column list is built afresh for each record entry, so an empty record never
   * builds it.
   */
  function InsertPlan(cells: seq<Value>, nextId: int, record: Dict): Result<map<string, Value>, string>
  {
    if |record| == 0 then Success(map[IdColumnOf(cells) := Int(nextId)])
    else match ColumnNames(cells)
      case None => Failure(NoLowerError)
      case Some(names) => Success(InsertData(names, nextId, record))
  }

  /**
   * Read from the column names, the plan is `InsertData` for every record: the insert the
   * mapping is written for, and what MySQL and PostgreSQL get.
   */
  lemma NamedSchemaPlansInsertData(columns: seq<string>, nextId: int, record: Dict)
    ensures InsertPlan(NameCells(columns), nextId, record) == Success(InsertData(columns, nextId, record))
  {
    var cells := NameCells(columns);
    assert ColumnNames(cells).value == columns;
    if "id" in columns {
      var j :| 0 <= j < |columns| && columns[j] == "id";
      assert cells[j] == Text("id");
    }
  }

  /**
   * Read from `PRAGMA table_info`, the cells are integers, so any non-empty record makes the
   * mapping raise: on SQLite no record with an entry is ever planned.
   */
  lemma SqlitePlanFails(columns: seq<string>, nextId: int, record: Dict)
    requires |columns| > 0 && |record| > 0
    ensures InsertPlan(SchemaFirstCells(Sqlite, columns), nextId, record) == Failure(NoLowerError)
  {
    assert !SchemaFirstCells(Sqlite, columns)[0].Text?;
  }

  /** The mapping loop of `add_to_database`, walking the record in its own order. */
  method BuildInsertData(cells: seq<Value>, nextId: int, record: Dict)
    returns (plan: Result<map<string, Value>, string>)
    ensures plan == InsertPlan(cells, nextId, record)
  {
    var start := if Text("id") in cells then map["id" := Int(nextId)] else map["ID" := Int(nextId)];
    var insertData := start;
    for i := 0 to |record|
      invariant i == 0 ==> insertData == start
      invariant 0 < i ==> (ColumnNames(cells).Some?
        && insertData == InsertData(ColumnNames(cells).value, nextId, record[..i]))
    {
      var (key, value) := record[i];
      var names := ColumnNames(cells);
      if names.None? {
        return Failure(NoLowerError);
      }
      if "id" in names.value {
        var j :| 0 <= j < |names.value| && names.value[j] == "id";
        assert cells[j] == Text("id");
      }
      assert record[..i + 1][..i] == record[..i];
      // the exact-match `elif` of `add_to_database` is dead (ExactMatchIsFolded)
      var exact := ColumnFor(names.value, key);
      if exact.Some? {
        insertData := insertData[exact.value := value];
      }
    }
    assert record[..|record|] == record;
    plan := Success(insertData);
  }

  /** The row a successful insert adds: the insert map's value per column, NULL elsewhere. */
  function StoredRow(columns: seq<string>, insertData: map<string, Value>): (row: Row)
    ensures row.Keys == ColumnSet(columns)
  {
    map c | c in ColumnSet(columns) :: if c in insertData then insertData[c] else Null
  }

  /**
   * Whether the engine finds column `name` written unquoted in a statement: PostgreSQL folds the
   * name to lower case and compares exactly, MySQL and SQLite compare ignoring case.
   */
  predicate Resolves(b: Backend, columns: seq<string>, name: string)
  {
    if b == PostgreSql then Lower(name) in columns else ColumnFor(columns, name).Some?
  }

  /**
   * The table's column names as the engines tell them apart: no two equal ignoring case, and
   * none but `id` or `ID` folds to `id`.
   */
  ghost predicate DistinctColumns(columns: seq<string>)
  {
    && (forall i, j :: 0 <= i < j < |columns| ==> Lower(columns[i]) != Lower(columns[j]))
    && (forall i :: 0 <= i < |columns| && Lower(columns[i]) == "id" ==> columns[i] == "id" || columns[i] == "ID")
  }

  /**
   * What the store refuses whatever else happens: a name it cannot find among the table's
   * columns, and a primary key that is not an integer or is already taken.
   */
  predicate StoreAccepts(b: Backend, columns: seq<string>, rows: seq<Row>, insertData: map<string, Value>)
  {
    && (forall c :: c in insertData ==> Resolves(b, columns, c))
    && match PkColumn(columns)
       case None => true
       case Some(pk) =>
         pk in insertData && insertData[pk].Int?
         && forall i :: 0 <= i < |rows| ==> pk !in rows[i] || rows[i][pk] != insertData[pk]
  }

  /**
   * When every name of a planned insert resolves, each is a column of the table itself, so the
   * stored row takes each value under the very name the plan gives it.
   */
  lemma ResolvedKeysAreColumns(b: Backend, columns: seq<string>, nextId: int, record: Dict)
    requires DistinctColumns(columns)
    requires forall c :: c in InsertData(columns, nextId, record) ==> Resolves(b, columns, c)
    ensures forall c :: c in InsertData(columns, nextId, record) ==> c in columns
  {
    InsertDataColumns(columns, nextId, record);
    if "ID" in InsertData(columns, nextId, record) && "ID" !in columns && "id" !in columns {
      assert Resolves(b, columns, "ID");
      assert Lower("ID") == "id";
      if b != PostgreSql {
        ColumnForSpec(columns, "ID");
      }
    }
  }

  /** On PostgreSQL a column of the table resolves exactly when its name is already lower case. */
  lemma PostgresResolvesLowerCaseOnly(columns: seq<string>, c: string)
    requires DistinctColumns(columns) && c in columns
    ensures Resolves(PostgreSql, columns, c) <==> Lower(c) == c
  {
    if Resolves(PostgreSql, columns, c) {
      var j :| 0 <= j < |columns| && columns[j] == c;
      var k :| 0 <= k < |columns| && columns[k] == Lower(c);
      LowerIdempotent(c);
      assert Lower(columns[k]) == Lower(columns[j]);
    }
  }

  /**
   * `add_to_database` up to the INSERT: the backend's schema cells, the next key and the mapping
   * loop, or the error that stops it first.
   */
  function PlannedInsert(config: DbConfig, columns: seq<string>, rows: seq<Row>, record: Dict)
    : (r: Result<map<string, Value>, string>)
    requires "id" in columns ==> IntsIn(rows, "id")
    ensures r.Success? ==> BackendOf(config.dbType).Some?
  {
    match BackendOf(config.dbType)
    case None => Failure("Unsupported database type: " + config.dbType)
    case Some(b) => InsertPlan(SchemaFirstCells(b, columns), NextId(columns, rows), record)
  }

  /**
   * Insert then reload: each field mapped to a column reads back, from the new row, as the
   * value the record gave it.
   */
  lemma PersistRoundTrip(columns: seq<string>, nextId: int, record: Dict, col: string)
    requires col in columns
    requires LastValueFor(columns, record, col).Some?
    ensures StoredRow(columns, InsertData(columns, nextId, record))[col]
      == LastValueFor(columns, record, col).value
  {
    InsertDataSpec(columns, nextId, record, col);
  }

  /**
   * With an `id` column and no record key mapping to it, the planned insert carries a key that
   * no existing row has.
   */
  lemma NextIdIsFresh(columns: seq<string>, rows: seq<Row>, record: Dict)
    requires "id" in columns && IntsIn(rows, "id")
    requires LastValueFor(columns, record, "id").None?
    ensures var d := InsertData(columns, NextId(columns, rows), record);
      "id" in d && d["id"] == Int(NextId(columns, rows))
      && forall i :: 0 <= i < |rows| ==> rows[i]["id"] != d["id"]
  {
    InsertDataSpec(columns, NextId(columns, rows), record, "id");
  }

  /** With only an upper-case `ID` column the row-count rule can reuse a key left by a deletion. */
  lemma UpperCaseIdCanCollide()
    ensures var columns, rows := ["ID", "Title"], [map["ID" := Int(1), "Title" := Null], map["ID" := Int(3), "Title" := Null]];
      NextId(columns, rows) == 3 && rows[1]["ID"] == Int(NextId(columns, rows))
  {
  }

  /** `notna() & astype(str).str.endswith('\r')`: a text status ending in a carriage return. */
  predicate Dirty(row: Row)
  {
    StatusColumn in row && row[StatusColumn].Text? && EndsWith(row[StatusColumn].s, '\r')
  }

  /** The number of rows the clean-up finds. */
  function DirtyCount(rows: seq<Row>): nat
    decreases |rows|
  {
    if |rows| == 0 then 0
    else DirtyCount(rows[..|rows| - 1]) + if Dirty(rows[|rows| - 1]) then 1 else 0
  }

  /** A dirty row takes `rstrip('\r')` of its status; any other row is left as it is. */
  function CleanRow(row: Row): Row
  {
    if Dirty(row) then row[StatusColumn := Text(RStripChar(row[StatusColumn].s, '\r'))] else row
  }

  function CleanedRows(rows: seq<Row>): (r: seq<Row>)
    ensures |r| == |rows|
  {
    seq(|rows|, i requires 0 <= i < |rows| => CleanRow(rows[i]))
  }

  /**
   * A row changes exactly when it is dirty, and then only in its status, which loses all its
   * trailing carriage returns and nothing else.
   */
  lemma CleanRowSpec(row: Row)
    ensures CleanRow(row) != row <==> Dirty(row)
    ensures !Dirty(CleanRow(row))
    ensures CleanRow(row).Keys == row.Keys
    ensures forall c :: c in row && c != StatusColumn ==> CleanRow(row)[c] == row[c]
    ensures Dirty(row) ==> var s, t := row[StatusColumn].s, CleanRow(row)[StatusColumn].s;
      |t| < |s| && t == s[..|t|] && forall k :: |t| <= k < |s| ==> s[k] == '\r'
  {
    if Dirty(row) {
      var s := row[StatusColumn].s;
      assert |RStripChar(s, '\r')| < |s|;
    }
  }

  /** No cleaned row is dirty. */
  lemma {:induction false} NoDirtyAfterClean(rows: seq<Row>)
    ensures DirtyCount(CleanedRows(rows)) == 0
    decreases |rows|
  {
    if |rows| > 0 {
      var n := |rows| - 1;
      assert CleanedRows(rows)[..n] == CleanedRows(rows[..n]);
      NoDirtyAfterClean(rows[..n]);
      CleanRowSpec(rows[n]);
    }
  }

  /** Cleaning is idempotent: a second pass finds nothing and changes nothing. */
  lemma CleanIsIdempotent(rows: seq<Row>)
    ensures CleanedRows(CleanedRows(rows)) == CleanedRows(rows)
  {
    forall i | 0 <= i < |rows| ensures CleanRow(CleanRow(rows[i])) == CleanRow(rows[i]) {
      CleanRowSpec(rows[i]);
    }
  }

  lemma {:induction false} NoDirtyMeansUnchanged(rows: seq<Row>)
    requires DirtyCount(rows) == 0
    ensures CleanedRows(rows) == rows
    decreases |rows|
  {
    if |rows| > 0 {
      var n := |rows| - 1;
      assert CleanedRows(rows)[..n] == CleanedRows(rows[..n]);
      NoDirtyMeansUnchanged(rows[..n]);
      assert rows == rows[..n] + [rows[n]];
    }
  }

  /** Cleaning keeps every row's columns and every value outside the status column. */
  lemma CleanedRowsKeep(rows: seq<Row>)
    ensures forall i :: 0 <= i < |rows| ==> CleanedRows(rows)[i].Keys == rows[i].Keys
    ensures forall i, c :: 0 <= i < |rows| && c in rows[i] && c != StatusColumn ==>
      CleanedRows(rows)[i][c] == rows[i][c]
  {
    forall i | 0 <= i < |rows|
      ensures CleanedRows(rows)[i].Keys == rows[i].Keys
      ensures forall c :: c in rows[i] && c != StatusColumn ==> CleanedRows(rows)[i][c] == rows[i][c]
    {
      CleanRowSpec(rows[i]);
    }
  }

  /** The column the clean-up's UPDATE filters on: the key column, else `id` with the frame index. */
  function UpdateKey(columns: seq<string>): string
  {
    match PkColumn(columns)
    case Some(pk) => pk
    case None => "id"
  }

  /** Whether the engine finds both names the clean-up's UPDATE uses. */
  predicate CleanUpdateResolves(dbType: string, columns: seq<string>)
  {
    match BackendOf(dbType)
    case None => false
    case Some(b) => Resolves(b, columns, StatusColumn) && Resolves(b, columns, UpdateKey(columns))
  }

  /**
   * The UPDATE's filter resolves exactly when the table has a key column, which on PostgreSQL
   * must be the lower-case `id`: the update by frame index never reaches a row.
   */
  lemma UpdateTargetsKeyColumn(b: Backend, columns: seq<string>)
    requires DistinctColumns(columns)
    ensures Resolves(b, columns, UpdateKey(columns)) <==>
      PkColumn(columns).Some? && (b == PostgreSql ==> "id" in columns)
  {
    assert Lower("ID") == "id";
    assert Lower("id") == "id";
    if b != PostgreSql {
      ColumnForSpec(columns, UpdateKey(columns));
      if PkColumn(columns).Some? {
        ExactMatchIsFolded(columns, UpdateKey(columns));
      }
    }
  }

  /**
   * The UPDATE of the clean-up only ever runs by a key column, and never on PostgreSQL, which
   * cannot find the mixed-case `ReadingStatus`.
   */
  lemma CleanUpdateNeedsKey(dbType: string, columns: seq<string>)
    requires DistinctColumns(columns) && StatusColumn in columns
    requires CleanUpdateResolves(dbType, columns)
    ensures PkColumn(columns).Some?
    ensures BackendOf(dbType) != Some(PostgreSql)
  {
    var b := BackendOf(dbType).value;
    UpdateTargetsKeyColumn(b, columns);
    PostgresResolvesLowerCaseOnly(columns, StatusColumn);
    assert Lower(StatusColumn)[0] == 'r';
  }

  /** The walk of the clean-up over the snapshot: every dirty row cleaned, and their number. */
  method CleanRows(rows: seq<Row>) returns (table: seq<Row>, count: nat)
    ensures table == CleanedRows(rows)
    ensures count == DirtyCount(rows)
  {
    table := rows;
    count := 0;
    for i := 0 to |table|
      invariant |table| == |rows|
      invariant forall j :: 0 <= j < i ==> table[j] == CleanRow(rows[j])
      invariant forall j :: i <= j < |table| ==> table[j] == rows[j]
      invariant count == DirtyCount(rows[..i])
    {
      assert rows[..i + 1][..i] == rows[..i];
      if Dirty(table[i]) {
        var status := table[i][StatusColumn].s;
        table := table[i := table[i][StatusColumn := Text(RStripChar(status, '\r'))]];
        count := count + 1;
      }
    }
    assert rows[..|rows|] == rows;
  }

  /** The in-memory snapshot of `master_table`. */
  class Catalogue {
    var config: DbConfig
    var columns: seq<string>
    var rows: seq<Row>

    /**
     * The table has the subject columns and distinct names; every row has exactly the table's
     * columns; the key column holds distinct integers.
     */
    ghost predicate Valid()
      reads this
    {
      && "Subject" in columns && "SubjectSpecific" in columns
      && DistinctColumns(columns)
      && (forall i :: 0 <= i < |rows| ==> rows[i].Keys == ColumnSet(columns))
      && match PkColumn(columns)
         case None => true
         case Some(pk) =>
           IntsIn(rows, pk) && forall i, j :: 0 <= i < j < |rows| ==> rows[i][pk] != rows[j][pk]
    }

    /**
     * `DatabaseUtils.__init__`: the snapshot is the table as loaded. A name the dispatch refuses
     * leaves an empty frame, and the construction then fails on its missing `Subject` column.
     */
    constructor Load(config: DbConfig, columns: seq<string>, rows: seq<Row>)
      requires ConnectionString(config).Success?
      requires "Subject" in columns && "SubjectSpecific" in columns
      requires DistinctColumns(columns)
      requires forall i :: 0 <= i < |rows| ==> rows[i].Keys == ColumnSet(columns)
      requires match PkColumn(columns)
         case None => true
         case Some(pk) =>
           IntsIn(rows, pk) && forall i, j :: 0 <= i < j < |rows| ==> rows[i][pk] != rows[j][pk]
      ensures Valid()
      ensures this.config == config && this.columns == columns && this.rows == rows
    {
      this.config := config;
      this.columns := columns;
      this.rows := rows;
    }

    /**
     * `add_to_database`: plans the insert from the live schema; `accepted` is the store's verdict
     * on everything other than its column and key constraints. On success the reloaded snapshot
     * is the old one with exactly the new row added; on failure nothing changes. On SQLite no
     * record with an entry is ever stored.
     */
    method AddToDatabase(record: Dict, accepted: bool) returns (success: bool)
      requires Valid()
      modifies this
      ensures Valid()
      ensures config == old(config) && columns == old(columns)
      ensures var plan := PlannedInsert(config, columns, old(rows), record);
        && success == (plan.Success? && accepted
             && StoreAccepts(BackendOf(config.dbType).value, columns, old(rows), plan.value))
        && rows == if success then old(rows) + [StoredRow(columns, plan.value)] else old(rows)
      ensures BackendOf(config.dbType) == Some(Sqlite) && |record| > 0 ==> !success
    {
      var nextId := NextId(columns, rows);
      var backend := BackendOf(config.dbType);
      if backend.None? {
        return false;
      }
      if backend.value == Sqlite && |record| > 0 {
        SqlitePlanFails(columns, nextId, record);
      }
      var cells := SchemaFirstCells(backend.value, columns);
      var plan := BuildInsertData(cells, nextId, record);
      if plan.Failure? || !accepted || !StoreAccepts(backend.value, columns, rows, plan.value) {
        return false;
      }
      var row := StoredRow(columns, plan.value);
      ghost var before := rows;
      rows := rows + [row];
      assert forall i :: 0 <= i < |before| ==> rows[i] == before[i];
      success := true;
    }

    /**
     * `clean_database`: without a `ReadingStatus` column it fails and changes nothing; with no
     * dirty row it succeeds without writing; otherwise, when the engine finds the names the
     * UPDATE uses and the store takes the updates (`storeOk`), it rewrites exactly the dirty rows
     * and reports how many, and on any failure nothing changes.
     */
    method CleanDatabase(storeOk: bool) returns (ok: bool, cleaned: nat)
      requires Valid()
      modifies this
      ensures Valid()
      ensures config == old(config) && columns == old(columns)
      ensures StatusColumn !in columns ==> !ok
      ensures StatusColumn in columns && DirtyCount(old(rows)) == 0 ==>
        ok == ConnectionString(config).Success?
      ensures StatusColumn in columns && DirtyCount(old(rows)) > 0 ==>
        ok == (ConnectionString(config).Success? && CleanUpdateResolves(config.dbType, columns) && storeOk)
      ensures DirtyCount(old(rows)) > 0 && ok ==> PkColumn(columns).Some?
      ensures DirtyCount(old(rows)) > 0 && BackendOf(config.dbType) == Some(PostgreSql) ==> !ok
      ensures rows == if ok then CleanedRows(old(rows)) else old(rows)
      ensures cleaned == if ok then DirtyCount(old(rows)) else 0
    {
      if StatusColumn !in columns {
        return false, 0;
      }
      if ConnectionString(config).Failure? {
        return false, 0;
      }
      if DirtyCount(rows) == 0 {
        NoDirtyMeansUnchanged(rows);
        return true, 0;
      }
      if !CleanUpdateResolves(config.dbType, columns) || !storeOk {
        return false, 0;
      }
      CleanUpdateNeedsKey(config.dbType, columns);
      var table, count := CleanRows(rows);
      CleanedRowsKeep(rows);
      rows := table;
      return true, count;
    }
  }

  /** Running the clean-up a second time after a successful run finds nothing and writes nothing. */
  method CleanTwice(c: Catalogue, storeOk: bool) returns (first: bool, second: bool, secondCount: nat)
    requires c.Valid() && StatusColumn in c.columns
    modifies c
    ensures first ==> second && secondCount == 0 && c.rows == CleanedRows(old(c.rows))
  {
    var n1;
    first, n1 := c.CleanDatabase(storeOk);
    ghost var afterFirst := c.rows;
    if first {
      NoDirtyAfterClean(old(c.rows));
    }
    second, secondCount := c.CleanDatabase(storeOk);
    if first {
      NoDirtyMeansUnchanged(afterFirst);
    }
  }
}
