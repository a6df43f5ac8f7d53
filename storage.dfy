/** The database table behind the JDBC calls: rows keyed by id, each row the full list of column
    values with the id column first. Statements are executed for their effect and report how many
    rows they affected, which is all the modelled code looks at. */
module Storage {
  import opened Wrappers

  /** A column value as bound to a statement parameter or read from a result set. */
  datatype SqlValue = Text(text: string) | Number(number: int) | Blob(bytes: seq<bv8>) | Null

  type Rows = map<string, seq<SqlValue>>

  /** The failures the modelled code raises or lets through. */
  datatype DataError =
    | EmptyResult             // Spring's EmptyResultDataAccessException: no row for a point query
    | EntityNotFound          // javax.persistence.EntityNotFoundException
    | OptimisticLockingFailure // Spring's (Object)OptimisticLockingFailureException
    | DuplicateKey            // an INSERT whose id is already stored
    | InvalidId               // an INSERT whose first value is not a text id
    | ParameterMismatch       // a statement run with more or fewer values than it has placeholders
    | MissingId               // the ArrayIndexOutOfBoundsException of binding an UPDATE with no values
    | ObjectDeleted           // the session's ObjectDeletedException: a lookup of an id removed in this transaction

  /** Every stored row starts with its own id. */
  ghost predicate WellFormed(rows: Rows)
  {
    forall k | k in rows :: |rows[k]| >= 1 && rows[k][0] == Text(k)
  }

  /** `DELETE ... WHERE id in (...)`: the rows left and the number deleted. */
  function DeleteEffect(rows: Rows, ids: set<string>): (nat, Rows)
  {
    (|ids * rows.Keys|, rows - ids)
  }

  /** `UPDATE ... SET c1=?, ..., cn=? WHERE id=?` with `params` bound to parameters 1..n+1:
      the last parameter selects the row, the others replace its columns after the id. */
  function UpdateEffect(rows: Rows, params: seq<SqlValue>): (nat, Rows)
  {
    if |params| >= 1 && params[|params| - 1].Text? && params[|params| - 1].text in rows then
      var id := params[|params| - 1];
      (1, rows[id.text := [id] + params[..|params| - 1]])
    else
      (0, rows)
  }

  /** `INSERT ... values (?, ...)`: the first value is the id; an id already stored is refused. */
  function InsertEffect(rows: Rows, values: seq<SqlValue>): Result<Rows, DataError>
  {
    if |values| == 0 || !values[0].Text? then Err(InvalidId)
    else if values[0].text in rows then Err(DuplicateKey)
    else Ok(rows[values[0].text := values])
  }

  class Database {
    var rows: Rows

    ghost predicate Valid()
      reads this
    {
      WellFormed(rows)
    }

    constructor ()
      ensures Valid() && rows == map[]
    {
      rows := map[];
    }

    /** `SELECT ... WHERE id = ?`: the row, or none (EmptyResultDataAccessException). */
    method SelectById(id: string) returns (row: Option<seq<SqlValue>>)
      ensures row == if id in rows then Some(rows[id]) else None
    {
      row := if id in rows then Some(rows[id]) else None;
    }

    method DeleteIn(ids: set<string>) returns (count: nat)
      requires Valid()
      modifies this
      ensures Valid()
      ensures (count, rows) == DeleteEffect(old(rows), ids)
    {
      count, rows := DeleteEffect(rows, ids).0, DeleteEffect(rows, ids).1;
    }

    method UpdateById(params: seq<SqlValue>) returns (count: nat)
      requires Valid()
      modifies this
      ensures Valid()
      ensures (count, rows) == UpdateEffect(old(rows), params)
    {
      count, rows := UpdateEffect(rows, params).0, UpdateEffect(rows, params).1;
    }

    method Insert(values: seq<SqlValue>) returns (r: Result<(), DataError>)
      requires Valid()
      modifies this
      ensures Valid()
      ensures InsertEffect(old(rows), values).Ok? ==> r == Ok(()) && rows == InsertEffect(old(rows), values).value
      ensures InsertEffect(old(rows), values).Err? ==> r == Err(InsertEffect(old(rows), values).error) && rows == old(rows)
    {
      match InsertEffect(rows, values) {
        case Ok(next) => rows := next; r := Ok(());
        case Err(e) => r := Err(e);
      }
    }
  }
}
