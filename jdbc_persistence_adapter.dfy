/** JdbcPersistenceAdapter: the SQL text for one table (built once from its column names), the
    parameter binding of an UPDATE, and the affected-row checks that turn a lost row into an
    optimistic-locking failure. */
module JdbcPersistenceAdapter {
  import opened Wrappers
  import opened Text
  import opened Storage

  // ---------------------------------------------------------------- column and parameter lists

  /** `columns(idColumn, otherColumns)`: the id column, then "," and each other column in order. */
  function ColumnList(idColumn: string, otherColumns: seq<string>): (list: string)
  {
    if otherColumns == [] then idColumn
    else ColumnList(idColumn, otherColumns[..|otherColumns| - 1]) + "," + otherColumns[|otherColumns| - 1]
  }

  /** `params(count)`: `count` question marks separated by single commas; empty when count <= 0. */
  function Placeholders(count: int): (r: string)
    ensures |r| == if count <= 0 then 0 else 2 * count - 1
  {
    if count <= 0 then "" else if count == 1 then "?" else Placeholders(count - 1) + ",?"
  }

  /** The StringBuilder loop of `columns`. */
  method Columns(idColumn: string, otherColumns: seq<string>) returns (s: string)
    ensures s == ColumnList(idColumn, otherColumns)
  {
    s := idColumn;
    var i := 0;
    while i < |otherColumns|
      invariant 0 <= i <= |otherColumns|
      invariant s == ColumnList(idColumn, otherColumns[..i])
    {
      assert otherColumns[..i + 1][..i] == otherColumns[..i];
      s := s + "," + otherColumns[i];
      i := i + 1;
    }
    assert otherColumns[..i] == otherColumns;
  }

  /** The StringBuilder loop of `params`: a comma goes in front of every mark but the first. */
  method Params(count: int) returns (s: string)
    ensures s == Placeholders(count)
  {
    s := "";
    var i := 0;
    while i < count
      invariant 0 <= i && (count > 0 ==> i <= count) && (count <= 0 ==> i == 0)
      invariant s == Placeholders(i)
    {
      if |s| > 0 {
        s := s + ",";
      }
      s := s + "?";
      i := i + 1;
    }
  }

  /** The column list lists the id column and then the other columns: splitting it on commas gives
      them back, as long as no column name holds a comma. */
  lemma {:induction false} ColumnListSplits(idColumn: string, otherColumns: seq<string>)
    requires ',' !in idColumn
    requires forall i :: 0 <= i < |otherColumns| ==> ',' !in otherColumns[i]
    ensures Split(ColumnList(idColumn, otherColumns), ',') == [idColumn] + otherColumns
  {
    ColumnListIsJoin(idColumn, otherColumns);
    var parts := [idColumn] + otherColumns;
    forall i | 0 <= i < |parts| ensures ',' !in parts[i] {
      if i > 0 {
        assert parts[i] == otherColumns[i - 1];
      }
    }
    SplitJoin(parts, ',');
  }

  lemma {:induction false} ColumnListIsJoin(idColumn: string, otherColumns: seq<string>)
    ensures ColumnList(idColumn, otherColumns) == Join([idColumn] + otherColumns, ',')
  {
    if otherColumns != [] {
      var front, last := otherColumns[..|otherColumns| - 1], otherColumns[|otherColumns| - 1];
      ColumnListIsJoin(idColumn, front);
      JoinSnoc([idColumn] + front, last, ',');
      assert [idColumn] + front + [last] == [idColumn] + otherColumns;
    }
  }

  /** `params(n)` is n "?" joined by commas: splitting it on commas gives n single marks. */
  lemma {:induction false} PlaceholdersShape(count: int)
    requires count >= 1
    ensures Placeholders(count) == Join(seq(count, _ => "?"), ',')
    ensures Split(Placeholders(count), ',') == seq(count, _ => "?")
  {
    if count > 1 {
      PlaceholdersShape(count - 1);
      JoinSnoc(seq(count - 1, _ => "?"), "?", ',');
      assert seq(count - 1, _ => "?") + ["?"] == seq(count, _ => "?");
    }
    var marks := seq(count, _ => "?");
    forall i | 0 <= i < |marks| ensures ',' !in marks[i] {
    }
    SplitJoin(marks, ',');
  }

  /** `params(n)` holds exactly n marks and, for n >= 1, n - 1 commas. */
  lemma {:induction false} PlaceholdersCounts(count: int)
    ensures Count(Placeholders(count), '?') == if count <= 0 then 0 else count
    ensures Count(Placeholders(count), ',') == if count <= 0 then 0 else count - 1
  {
    if count > 1 {
      PlaceholdersCounts(count - 1);
      CountAppend(Placeholders(count - 1), ",?", '?');
      CountAppend(Placeholders(count - 1), ",?", ',');
    }
  }

  // ---------------------------------------------------------------- statements

  /** `buildInsertStatement`: one placeholder per listed column. */
  function BuildInsertStatement(tableName: string, idColumn: string, otherColumns: seq<string>): (sql: string)
  {
    "INSERT INTO " + tableName + " (" + ColumnList(idColumn, otherColumns) + ") values ("
      + Placeholders(1 + |otherColumns|) + ")"
  }

  /** `buildSelectStatement`. */
  function BuildSelectStatement(tableName: string, idColumn: string, otherColumns: seq<string>): (sql: string)
  {
    "SELECT " + ColumnList(idColumn, otherColumns) + " FROM " + tableName + " WHERE " + idColumn + " = ?"
  }

  /** The SET list of `buildUpdateStatement`: "c=?" for each column, separated by ", ". */
  function Assignments(columns: seq<string>): (list: string)
  {
    if columns == [] then ""
    else if |columns| == 1 then columns[0] + "=?"
    else Assignments(columns[..|columns| - 1]) + ", " + columns[|columns| - 1] + "=?"
  }

  function UpdateStatement(tableName: string, idColumn: string, otherColumns: seq<string>): (sql: string)
  {
    "UPDATE " + tableName + " SET " + Assignments(otherColumns) + " WHERE " + idColumn + "=?"
  }

  /** The statement text of `delete(ids)` for a set of `count` ids. */
  function DeleteStatement(tableName: string, idColumn: string, count: int): (sql: string)
  {
    "DELETE FROM " + tableName + " WHERE " + idColumn + " in (" + Placeholders(count) + ")"
  }

  /** The StringBuilder loop of `buildUpdateStatement`, with its `first` flag. */
  method BuildUpdateStatement(tableName: string, idColumn: string, otherColumns: seq<string>) returns (sql: string)
    ensures sql == UpdateStatement(tableName, idColumn, otherColumns)
  {
    var head := "UPDATE " + tableName + " SET ";
    sql := head;
    var first := true;
    var i := 0;
    while i < |otherColumns|
      invariant 0 <= i <= |otherColumns|
      invariant first == (i == 0)
      invariant sql == head + Assignments(otherColumns[..i])
    {
      assert otherColumns[..i + 1][..i] == otherColumns[..i];
      if first {
        first := false;
      } else {
        sql := sql + ", ";
      }
      sql := sql + otherColumns[i] + "=?";
      i := i + 1;
    }
    assert otherColumns[..i] == otherColumns;
    sql := sql + " WHERE " + idColumn + "=?";
  }

  ghost predicate NoMarks(names: seq<string>)
  {
    forall i :: 0 <= i < |names| ==> '?' !in names[i]
  }

  lemma {:induction false} ColumnListUnmarked(idColumn: string, otherColumns: seq<string>)
    requires '?' !in idColumn && NoMarks(otherColumns)
    ensures '?' !in ColumnList(idColumn, otherColumns)
  {
    if otherColumns != [] {
      var front := otherColumns[..|otherColumns| - 1];
      assert NoMarks(front) by {
        forall i | 0 <= i < |front| ensures '?' !in front[i] {
          assert front[i] == otherColumns[i];
        }
      }
      ColumnListUnmarked(idColumn, front);
    }
  }

  lemma {:induction false} AssignmentsMarks(columns: seq<string>)
    requires NoMarks(columns)
    ensures Count(Assignments(columns), '?') == |columns|
  {
    if |columns| >= 1 {
      var last := columns[|columns| - 1];
      var head := if |columns| == 1 then "" else Assignments(columns[..|columns| - 1]) + ", ";
      if |columns| > 1 {
        var front := columns[..|columns| - 1];
        assert NoMarks(front) by {
          forall i | 0 <= i < |front| ensures '?' !in front[i] {
            assert front[i] == columns[i];
          }
        }
        AssignmentsMarks(front);
        CountAppend(Assignments(front), ", ", '?');
        CountAbsent(", ", '?');
      }
      assert Assignments(columns) == head + last + "=?";
      CountAppend(head + last, "=?", '?');
      CountAppend(head, last, '?');
      CountAbsent(last, '?');
    }
  }

  /** A statement head + marks + tail whose only marks are in `marks`. */
  lemma {:induction false} MarksOnlyIn(head: string, marks: string, tail: string)
    requires '?' !in head && '?' !in tail
    ensures Count(head + marks + tail, '?') == Count(marks, '?')
  {
    CountAbsent(head, '?');
    CountAbsent(tail, '?');
    CountAppend(head + marks, tail, '?');
    CountAppend(head, marks, '?');
  }

  /** The INSERT statement has one placeholder per column of its column list: 1 + |otherColumns|
      of each, as long as no name holds a comma or a question mark. */
  lemma {:induction false} InsertStatementPlaceholders(tableName: string, idColumn: string, otherColumns: seq<string>)
    requires '?' !in tableName && '?' !in idColumn && NoMarks(otherColumns)
    requires ',' !in idColumn && forall i :: 0 <= i < |otherColumns| ==> ',' !in otherColumns[i]
    ensures Count(BuildInsertStatement(tableName, idColumn, otherColumns), '?') == 1 + |otherColumns|
    ensures |Split(ColumnList(idColumn, otherColumns), ',')| == |Split(Placeholders(1 + |otherColumns|), ',')| == 1 + |otherColumns|
  {
    var cols, marks := ColumnList(idColumn, otherColumns), Placeholders(1 + |otherColumns|);
    ColumnListSplits(idColumn, otherColumns);
    PlaceholdersShape(1 + |otherColumns|);
    ColumnListUnmarked(idColumn, otherColumns);
    PlaceholdersCounts(1 + |otherColumns|);
    var head := "INSERT INTO " + tableName + " (" + cols + ") values (";
    MarksOnlyIn(head, marks, ")");
    assert BuildInsertStatement(tableName, idColumn, otherColumns) == head + marks + ")";
  }

  /** The UPDATE statement has one placeholder per other column plus the id's, |otherColumns| + 1. */
  lemma {:induction false} UpdateStatementPlaceholders(tableName: string, idColumn: string, otherColumns: seq<string>)
    requires '?' !in tableName && '?' !in idColumn && NoMarks(otherColumns)
    ensures Count(UpdateStatement(tableName, idColumn, otherColumns), '?') == |otherColumns| + 1
  {
    AssignmentsMarks(otherColumns);
    var head := "UPDATE " + tableName + " SET ";
    var tail := " WHERE " + idColumn;
    MarksOnlyIn(head, Assignments(otherColumns), tail);
    var body := head + Assignments(otherColumns) + tail;
    CountAppend(body, "=?", '?');
    assert UpdateStatement(tableName, idColumn, otherColumns) == body + "=?";
  }

  /** The SELECT statement has the single placeholder of its id predicate. */
  lemma {:induction false} SelectStatementPlaceholders(tableName: string, idColumn: string, otherColumns: seq<string>)
    requires '?' !in tableName && '?' !in idColumn && NoMarks(otherColumns)
    ensures Count(BuildSelectStatement(tableName, idColumn, otherColumns), '?') == 1
  {
    ColumnListUnmarked(idColumn, otherColumns);
    var head := "SELECT " + ColumnList(idColumn, otherColumns) + " FROM " + tableName + " WHERE " + idColumn + " = ";
    MarksOnlyIn(head, "?", "");
    assert BuildSelectStatement(tableName, idColumn, otherColumns) == head + "?" + "";
  }

  /** The DELETE statement has one placeholder per id. */
  lemma {:induction false} DeleteStatementPlaceholders(tableName: string, idColumn: string, count: nat)
    requires '?' !in tableName && '?' !in idColumn
    ensures Count(DeleteStatement(tableName, idColumn, count), '?') == count
  {
    var head := "DELETE FROM " + tableName + " WHERE " + idColumn + " in (";
    MarksOnlyIn(head, Placeholders(count), ")");
    PlaceholdersCounts(count);
    assert DeleteStatement(tableName, idColumn, count) == head + Placeholders(count) + ")";
  }

  // ---------------------------------------------------------------- UPDATE binding and row-count checks

  /** The parameter list of a statement whose parameters 1..n have been set. */
  function Bound(parameters: map<int, SqlValue>, n: nat): (r: seq<SqlValue>)
    requires forall i :: 1 <= i <= n ==> i in parameters
    ensures |r| == n && forall j :: 0 <= j < n ==> r[j] == parameters[j + 1]
  {
    seq(n, j requires 0 <= j < n => parameters[j + 1])
  }

  /** The object values rotated left by one place, so the first one (the id) ends up last. */
  function RotateLeft(values: seq<SqlValue>): (r: seq<SqlValue>)
    requires |values| >= 1
    ensures |r| == |values| && forall i :: 0 <= i < |r| ==> r[i] == values[(i + 1) % |values|]
  {
    values[1..] + [values[0]]
  }

  /** The PreparedStatementSetter of `update`: values 2..n go to parameters 1..n-1 and the id, the
      first value, to parameter n, where the WHERE clause expects it. */
  method BindUpdate(values: seq<SqlValue>) returns (parameters: map<int, SqlValue>)
    requires |values| >= 1
    ensures forall i :: i in parameters <==> 1 <= i <= |values|
    ensures forall i :: 1 <= i < |values| ==> parameters[i] == values[i]
    ensures parameters[|values|] == values[0]
    ensures Bound(parameters, |values|) == RotateLeft(values)
  {
    parameters := map[];
    var i := 1;
    while i < |values|
      invariant 1 <= i <= |values|
      invariant forall j :: j in parameters <==> 1 <= j < i
      invariant forall j :: 1 <= j < i ==> parameters[j] == values[j]
    {
      parameters := parameters[i := values[i]];
      i := i + 1;
    }
    parameters := parameters[|values| := values[0]];
  }

  /** `insert` against a statement with `width` placeholders: the driver refuses a binding of more or
      fewer values, and nothing is written. */
  function InsertOutcome(rows: Rows, values: seq<SqlValue>, width: nat): (outcome: (Result<(), DataError>, Rows))
  {
    if |values| != width then (Err(ParameterMismatch), rows)
    else match InsertEffect(rows, values)
      case Ok(after) => (Ok(()), after)
      case Err(e) => (Err(e), rows)
  }

  /** `update` against a statement with `width` placeholders: reading the id out of an empty array
      fails before anything is bound; a binding of more or fewer values than placeholders is refused;
      otherwise the statement runs with the rotated binding, and the check wants exactly one row. */
  function UpdateOutcome(rows: Rows, values: seq<SqlValue>, width: nat): (outcome: (Result<(), DataError>, Rows))
  {
    if |values| == 0 then (Err(MissingId), rows)
    else if |values| != width then (Err(ParameterMismatch), rows)
    else
      var (count, after) := UpdateEffect(rows, RotateLeft(values));
      (if count != 1 then Err(OptimisticLockingFailure) else Ok(()), after)
  }

  /** `delete`: the statement run for the ids, and the check that every id removed a row. */
  function DeleteOutcome(rows: Rows, ids: set<string>): (outcome: (Result<(), DataError>, Rows))
  {
    var (count, after) := DeleteEffect(rows, ids);
    (if count != |ids| then Err(OptimisticLockingFailure) else Ok(()), after)
  }

  /** An insert of values whose first is the text id writes exactly those values under the id; it
      fails, writing nothing, when the values do not fit the placeholders or the id is already stored. */
  lemma {:induction false} InsertOutcomeMeaning(rows: Rows, values: seq<SqlValue>, width: nat, id: string)
    requires |values| >= 1 && values[0] == Text(id)
    ensures InsertOutcome(rows, values, width).0
         == if |values| != width then Err(ParameterMismatch) else if id in rows then Err(DuplicateKey) else Ok(())
    ensures InsertOutcome(rows, values, width).1 == if |values| == width && id !in rows then rows[id := values] else rows
  {
  }

  /** The rotation puts the id where the WHERE clause reads it: an update writes exactly the object's
      values over the row of its id; it fails, writing nothing, when the values do not fit the
      placeholders or that row is gone. */
  lemma {:induction false} UpdateOutcomeMeaning(rows: Rows, values: seq<SqlValue>, width: nat, id: string)
    requires |values| >= 1 && values[0] == Text(id)
    ensures UpdateOutcome(rows, values, width).0
         == if |values| != width then Err(ParameterMismatch) else if id in rows then Ok(()) else Err(OptimisticLockingFailure)
    ensures UpdateOutcome(rows, values, width).1 == if |values| == width && id in rows then rows[id := values] else rows
  {
    var params := RotateLeft(values);
    assert params[|params| - 1] == Text(id);
    assert [Text(id)] + params[..|params| - 1] == values;
  }

  lemma {:induction false} SubsetSize<T>(a: set<T>, b: set<T>)
    requires a <= b
    ensures |a| <= |b|
  {
    if a != {} {
      var x :| x in a;
      SubsetSize(a - {x}, b - {x});
    }
  }

  /** The delete check fails exactly when some requested id had no row left to delete; the rows of
      the ids that were there are deleted either way. */
  lemma {:induction false} DeleteOutcomeMeaning(rows: Rows, ids: set<string>)
    ensures DeleteOutcome(rows, ids).0 == if ids <= rows.Keys then Ok(()) else Err(OptimisticLockingFailure)
    ensures DeleteOutcome(rows, ids).1 == rows - ids
  {
    if ids <= rows.Keys {
      assert ids * rows.Keys == ids;
    } else {
      var x :| x in ids && x !in rows.Keys;
      SubsetSize(ids * rows.Keys, ids - {x});
    }
  }

  // ---------------------------------------------------------------- the adapter

  /** One table's adapter: its statements, built once, and the JDBC calls it makes. */
  class Adapter<E> {
    const db: Database
    const rowMapper: seq<SqlValue> -> E
    const tableName: string
    const idColumn: string
    const versionColumn: string
    const otherColumns: seq<string>
    const jdbcInsert: string
    const jdbcSelect: string
    const jdbcUpdate: string
    /** The placeholders of the INSERT and UPDATE statements: one per listed column. */
    const width: nat

    constructor (db: Database, rowMapper: seq<SqlValue> -> E, tableName: string, idColumn: string,
                 versionColumn: string, otherColumns: seq<string>)
      ensures this.db == db && this.rowMapper == rowMapper
      ensures this.tableName == tableName && this.idColumn == idColumn
      ensures this.versionColumn == versionColumn && this.otherColumns == otherColumns
      ensures jdbcInsert == BuildInsertStatement(tableName, idColumn, otherColumns)
      ensures jdbcSelect == BuildSelectStatement(tableName, idColumn, otherColumns)
      ensures jdbcUpdate == UpdateStatement(tableName, idColumn, otherColumns)
      ensures width == 1 + |otherColumns|
    {
      this.db := db;
      this.rowMapper := rowMapper;
      this.tableName := tableName;
      this.idColumn := idColumn;
      this.versionColumn := versionColumn;
      this.otherColumns := otherColumns;
      jdbcInsert := BuildInsertStatement(tableName, idColumn, otherColumns);
      jdbcSelect := BuildSelectStatement(tableName, idColumn, otherColumns);
      var update := BuildUpdateStatement(tableName, idColumn, otherColumns);
      jdbcUpdate := update;
      width := 1 + |otherColumns|;
    }

    /** `select(id)`: the mapped row, or EmptyResult when no row has that id. */
    method Select(id: string) returns (r: Result<E, DataError>)
      ensures r == if id in db.rows then Ok(rowMapper(db.rows[id])) else Err(EmptyResult)
    {
      var row := db.SelectById(id);
      r := if row.Some? then Ok(rowMapper(row.value)) else Err(EmptyResult);
    }

    method Insert(params: seq<SqlValue>) returns (r: Result<(), DataError>)
      requires db.Valid()
      modifies db
      ensures db.Valid()
      ensures (r, db.rows) == InsertOutcome(old(db.rows), params, width)
    {
      if |params| != width {
        return Err(ParameterMismatch);
      }
      r := db.Insert(params);
    }

    method Update(params: seq<SqlValue>) returns (r: Result<(), DataError>)
      requires db.Valid()
      modifies db
      ensures db.Valid()
      ensures (r, db.rows) == UpdateOutcome(old(db.rows), params, width)
    {
      if |params| == 0 {
        return Err(MissingId);
      }
      var bound := BindUpdate(params);
      if |params| != width {
        return Err(ParameterMismatch);
      }
      var rows := db.UpdateById(Bound(bound, |params|));
      r := if rows != 1 then Err(OptimisticLockingFailure) else Ok(());
    }

    method Delete(ids: set<string>) returns (r: Result<(), DataError>)
      requires db.Valid()
      modifies db
      ensures db.Valid()
      ensures (r, db.rows) == DeleteOutcome(old(db.rows), ids)
    {
      var count := db.DeleteIn(ids);
      r := if count != |ids| then Err(OptimisticLockingFailure) else Ok(());
    }
  }
}
