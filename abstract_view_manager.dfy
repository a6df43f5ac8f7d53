/** AbstractViewManager: the EntityManager-like façade over one table. Lookups go through the
    transaction's session first; `remove` and `persist` only record intent in the session; query
    results are merged with the session; the session's unit of work is written with row-count checks. */
module AbstractViewManager {
  import opened Wrappers
  import opened Text
  import opened Storage
  import opened ViewManagerSession
  import Adapter = JdbcPersistenceAdapter

  // ---------------------------------------------------------------- statements

  /** `buildInsertStatement` of the view manager: the format string has a space after the opening
      parenthesis of the column list. */
  function InsertStatement(tableName: string, idColumn: string, otherColumns: seq<string>): (sql: string)
  {
    "INSERT INTO " + tableName + " ( " + Adapter.ColumnList(idColumn, otherColumns) + ") values ("
      + Adapter.Placeholders(1 + |otherColumns|) + ")"
  }

  /** The view manager's INSERT also has one placeholder per listed column. */
  lemma {:induction false} InsertStatementPlaceholders(tableName: string, idColumn: string, otherColumns: seq<string>)
    requires '?' !in tableName && '?' !in idColumn && Adapter.NoMarks(otherColumns)
    ensures Count(InsertStatement(tableName, idColumn, otherColumns), '?') == 1 + |otherColumns|
  {
    var cols, marks := Adapter.ColumnList(idColumn, otherColumns), Adapter.Placeholders(1 + |otherColumns|);
    Adapter.ColumnListUnmarked(idColumn, otherColumns);
    Adapter.PlaceholdersCounts(1 + |otherColumns|);
    var head := "INSERT INTO " + tableName + " ( " + cols + ") values (";
    Adapter.MarksOnlyIn(head, marks, ")");
    assert InsertStatement(tableName, idColumn, otherColumns) == head + marks + ")";
  }

  // ---------------------------------------------------------------- merging query results

  /** Non-removed entries hold an item: `find` answers null exactly for untracked ids. */
  ghost predicate Live<E>(m: Model<E>)
  {
    forall k :: k in m && m[k].status != Removed ==> m[k].item.Some?
  }

  /** The loop of `mergeObjectsWithSession` over the database rows, from session state `m`: a row
      whose id is among the session matches (`ids`) is skipped; a row whose id the session tracks is
      dropped, whether removed or attached but no longer matching; an untracked row is appended and
      attached as loaded. Yields the appended rows and the final session state. */
  function Merged<E>(idOf: E -> string, versionOf: E -> int, m: Model<E>, ids: set<string>, rows: seq<E>): (merged: (seq<E>, Model<E>))
    decreases |rows|
  {
    if rows == [] then ([], m)
    else
      var x := rows[0];
      if idOf(x) in ids || FindEntry(m, idOf(x)) != Found(None) then Merged(idOf, versionOf, m, ids, rows[1..])
      else
        var rest := Merged(idOf, versionOf, m[idOf(x) := LoadedEntry(idOf, versionOf, x)], ids, rows[1..]);
        ([x] + rest.0, rest.1)
  }

  /** Only untracked rows are admitted: each appended row comes from the database results, its id is
      neither among the session matches nor tracked by the session, and no id is appended twice. */
  lemma {:induction false} MergedSound<E>(idOf: E -> string, versionOf: E -> int, m: Model<E>, ids: set<string>, rows: seq<E>)
    requires Live(m)
    ensures var added := Merged(idOf, versionOf, m, ids, rows).0;
      && (forall y :: y in added ==> y in rows && idOf(y) !in ids && idOf(y) !in m)
      && (forall i, j :: 0 <= i < j < |added| ==> idOf(added[i]) != idOf(added[j]))
    decreases |rows|
  {
    if rows != [] {
      var x := rows[0];
      if idOf(x) in ids || FindEntry(m, idOf(x)) != Found(None) {
        MergedSound(idOf, versionOf, m, ids, rows[1..]);
      } else {
        var m' := m[idOf(x) := LoadedEntry(idOf, versionOf, x)];
        MergedSound(idOf, versionOf, m', ids, rows[1..]);
        var rest := Merged(idOf, versionOf, m', ids, rows[1..]).0;
        var added := Merged(idOf, versionOf, m, ids, rows).0;
        assert added == [x] + rest;
        forall i, j | 0 <= i < j < |added|
          ensures idOf(added[i]) != idOf(added[j])
        {
          assert added[j] == rest[j - 1] && added[j] in rest;
          if i > 0 {
            assert added[i] == rest[i - 1];
          }
        }
      }
    }
  }

  /** Every untracked row is represented: for each database row whose id the session does not track
      and which is not among the session matches, a row of that id is appended. */
  lemma {:induction false} MergedComplete<E>(idOf: E -> string, versionOf: E -> int, m: Model<E>, ids: set<string>, rows: seq<E>, x: E)
    requires Live(m)
    requires x in rows && idOf(x) !in ids && idOf(x) !in m
    ensures exists y :: y in Merged(idOf, versionOf, m, ids, rows).0 && idOf(y) == idOf(x)
    decreases |rows|
  {
    var r := rows[0];
    var added := Merged(idOf, versionOf, m, ids, rows).0;
    if idOf(r) in ids || FindEntry(m, idOf(r)) != Found(None) {
      assert x != r && x in rows[1..];
      MergedComplete(idOf, versionOf, m, ids, rows[1..], x);
    } else {
      var m' := m[idOf(r) := LoadedEntry(idOf, versionOf, r)];
      assert added == [r] + Merged(idOf, versionOf, m', ids, rows[1..]).0;
      if idOf(r) != idOf(x) {
        assert x in rows[1..];
        MergedComplete(idOf, versionOf, m', ids, rows[1..], x);
      } else {
        assert r in added;
      }
    }
  }

  /** The session after the merge: every entry it had is kept as it was, each appended row is
      attached as loaded, and nothing else is added. */
  lemma {:induction false} MergedAttaches<E>(idOf: E -> string, versionOf: E -> int, m: Model<E>, ids: set<string>, rows: seq<E>)
    requires Live(m)
    ensures var (added, after) := Merged(idOf, versionOf, m, ids, rows);
      && (forall k :: k in m ==> k in after && after[k] == m[k])
      && (forall y :: y in added ==> idOf(y) in after && after[idOf(y)] == LoadedEntry(idOf, versionOf, y))
      && (forall k :: k in after ==> k in m || exists y :: y in added && idOf(y) == k)
      && Live(after)
    decreases |rows|
  {
    if rows != [] {
      var x := rows[0];
      if idOf(x) in ids || FindEntry(m, idOf(x)) != Found(None) {
        MergedAttaches(idOf, versionOf, m, ids, rows[1..]);
      } else {
        var m' := m[idOf(x) := LoadedEntry(idOf, versionOf, x)];
        MergedAttaches(idOf, versionOf, m', ids, rows[1..]);
        MergedSound(idOf, versionOf, m', ids, rows[1..]);
        var (rest, after) := Merged(idOf, versionOf, m', ids, rows[1..]);
        assert Merged(idOf, versionOf, m, ids, rows) == ([x] + rest, after);
        forall k | k in after
          ensures k in m || exists y :: y in [x] + rest && idOf(y) == k
        {
          if k !in m && k != idOf(x) {
            var y :| y in rest && idOf(y) == k;
            assert y in [x] + rest;
          }
        }
      }
    }
  }

  /** The loop of `mergeObjectsWithSession` as the code runs it. The catch around `session.find`
      names Hibernate's ObjectDeletedException, whose import hides the exception the session throws,
      so a row whose id was removed in this transaction ends the merge with that exception; the rows
      attached before it stay attached. */
  function MergedAsWritten<E>(idOf: E -> string, versionOf: E -> int, m: Model<E>, ids: set<string>, rows: seq<E>)
    : (merged: (Result<seq<E>, DataError>, Model<E>))
    decreases |rows|
  {
    if rows == [] then (Ok([]), m)
    else
      var x := rows[0];
      if idOf(x) in ids then MergedAsWritten(idOf, versionOf, m, ids, rows[1..])
      else match FindEntry(m, idOf(x))
        case Deleted => (Err(ObjectDeleted), m)
        case Found(Some(_)) => MergedAsWritten(idOf, versionOf, m, ids, rows[1..])
        case Found(None) =>
          var (rest, after) := MergedAsWritten(idOf, versionOf, m[idOf(x) := LoadedEntry(idOf, versionOf, x)], ids, rows[1..]);
          (Prepend([x], rest), after)
  }

  /** A list result with `front` in front of it; a failure stays as it is. */
  function Prepend<E>(front: seq<E>, r: Result<seq<E>, DataError>): (r': Result<seq<E>, DataError>)
    ensures r'.Ok? <==> r.Ok?
    ensures r.Err? ==> r' == r
    ensures r.Ok? ==> |r'.value| == |front| + |r.value| && r'.value[..|front|] == front && r'.value[|front|..] == r.value
  {
    if r.Ok? then Ok(front + r.value) else r
  }

  /** Prepending in two steps is prepending the concatenation. */
  lemma {:induction false} PrependTwice<E>(a: seq<E>, b: seq<E>, r: Result<seq<E>, DataError>)
    ensures Prepend(a, Prepend(b, r)) == Prepend(a + b, r)
  {
    if r.Ok? {
      assert a + (b + r.value) == (a + b) + r.value;
    }
  }

  /** The merge as written fails exactly when some row outside the session matches has an id the
      session has removed, and then with ObjectDeletedException; otherwise it agrees with `Merged`,
      the merge the comments describe, in which such a row is skipped. */
  lemma {:induction false} MergedAsWrittenMeaning<E>(idOf: E -> string, versionOf: E -> int, m: Model<E>, ids: set<string>, rows: seq<E>)
    ensures var (r, after) := MergedAsWritten(idOf, versionOf, m, ids, rows);
      && (r.Ok? <==> forall x :: x in rows && idOf(x) !in ids ==> FindEntry(m, idOf(x)) != Deleted)
      && (r.Err? ==> r.error == ObjectDeleted)
      && (r.Ok? ==> r.value == Merged(idOf, versionOf, m, ids, rows).0 && after == Merged(idOf, versionOf, m, ids, rows).1)
    decreases |rows|
  {
    if rows != [] {
      var x := rows[0];
      assert forall y :: y in rows <==> y == x || y in rows[1..];
      if idOf(x) in ids {
        MergedAsWrittenMeaning(idOf, versionOf, m, ids, rows[1..]);
      } else if FindEntry(m, idOf(x)) == Deleted {
      } else if FindEntry(m, idOf(x)).item.Some? {
        MergedAsWrittenMeaning(idOf, versionOf, m, ids, rows[1..]);
      } else {
        var m' := m[idOf(x) := LoadedEntry(idOf, versionOf, x)];
        MergedAsWrittenMeaning(idOf, versionOf, m', ids, rows[1..]);
        assert forall k :: FindEntry(m', k) == Deleted <==> FindEntry(m, k) == Deleted;
      }
    }
  }

  /** A removed id among the database results: the merge as written throws where the described
      merge skips the row. */
  lemma {:induction false} MergeOfRemovedRowThrows()
    ensures var m: Model<string> := map["X" := EntityStatus("X", None, 0, Removed)];
      var idOf := (s: string) => s;
      var versionOf := (s: string) => 0;
      && MergedAsWritten(idOf, versionOf, m, {}, ["X"]).0 == Err(ObjectDeleted)
      && Merged(idOf, versionOf, m, {}, ["X"]).0 == []
  {
    var m: Model<string> := map["X" := EntityStatus("X", None, 0, Removed)];
    assert FindEntry(m, "X") == Deleted;
  }

  /** What `require(id)` returns. The catch at its end turns Spring's EmptyResultDataAccessException
      into EntityNotFoundException; as written (`catchesDeleted` false) it misses the session's
      ObjectDeletedException, whose name the Hibernate import hides, and that exception escapes.
      With `catchesDeleted` it is translated too, as the catch clause evidently means. */
  function RequireResult<E>(catchesDeleted: bool, m: Model<E>, rows: Rows, mapRow: seq<SqlValue> -> E, id: string)
    : (r: Result<E, DataError>)
  {
    match FindEntry(m, id)
    case Deleted => if catchesDeleted then Err(EntityNotFound) else Err(ObjectDeleted)
    case Found(Some(x)) => Ok(x)
    case Found(None) => if id in rows then Ok(mapRow(rows[id])) else Err(EntityNotFound)
  }

  /** `require` as written: not found only for an untracked id without a row; ObjectDeletedException
      for an id removed in this transaction; otherwise the attached item or the mapped row. */
  lemma {:induction false} RequireAsWrittenMeaning<E>(m: Model<E>, rows: Rows, mapRow: seq<SqlValue> -> E, id: string)
    requires Live(m)
    ensures var r := RequireResult(false, m, rows, mapRow, id);
      && (r == Err(ObjectDeleted) <==> id in m && m[id].status == Removed)
      && (r == Err(EntityNotFound) <==> id !in m && id !in rows)
      && (id in m && m[id].status != Removed ==> r == Ok(m[id].item.value))
      && (id !in m && id in rows ==> r == Ok(mapRow(rows[id])))
  {
  }

  /** `require` as intended: EntityNotFoundException exactly when the id is removed in this
      transaction or neither tracked nor stored; otherwise the attached item, or the stored row. */
  lemma {:induction false} RequireIntendedMeaning<E>(m: Model<E>, rows: Rows, mapRow: seq<SqlValue> -> E, id: string)
    requires Live(m)
    ensures var r := RequireResult(true, m, rows, mapRow, id);
      && (r.Err? <==> (id in m && m[id].status == Removed) || (id !in m && id !in rows))
      && (r.Err? ==> r.error == EntityNotFound)
      && (id in m && m[id].status != Removed ==> r == Ok(m[id].item.value))
      && (id !in m && id in rows ==> r == Ok(mapRow(rows[id])))
  {
  }

  /** `remove(X)` then `require(X)` in one transaction: the code lets ObjectDeletedException escape
      where EntityNotFoundException is meant. */
  lemma {:induction false} RequireOfRemovedThrows(mapRow: seq<SqlValue> -> string)
    ensures var m: Model<string> := map["X" := EntityStatus("X", None, 0, Removed)];
      && RequireResult(false, m, map[], mapRow, "X") == Err(ObjectDeleted)
      && RequireResult(true, m, map[], mapRow, "X") == Err(EntityNotFound)
  {
    var m: Model<string> := map["X" := EntityStatus("X", None, 0, Removed)];
    assert FindEntry(m, "X") == Deleted;
  }

  // ---------------------------------------------------------------- writing the unit of work

  /** What `getObjectValues` returns: the column values of an entity, the id first. `update` reads
      the first value as the id, so there is always one. */
  type ObjectValues = values: seq<SqlValue> | |values| >= 1 witness [Null]

  /** The outcome of one call of the unit of work against the stored rows. The version bump changes
      the entity, not the table. */
  function Step<E>(objectValues: E -> ObjectValues, width: nat, rows: Rows, call: Call<E>): (Result<(), DataError>, Rows)
  {
    match call
    case Delete(ids) => Adapter.DeleteOutcome(rows, ids)
    case IncrementVersion(_) => (Ok(()), rows)
    case Update(x, _) => Adapter.UpdateOutcome(rows, objectValues(x), width)
    case Insert(x) => Adapter.InsertOutcome(rows, objectValues(x), width)
  }

  /** The calls run in order; the first failure ends the run and leaves the rows as they were at
      that point (nothing is rolled back here: that is the transaction's business). */
  function Replay<E>(objectValues: E -> ObjectValues, width: nat, rows: Rows, calls: seq<Call<E>>): (Result<(), DataError>, Rows)
    decreases |calls|
  {
    if calls == [] then (Ok(()), rows)
    else
      var (r, after) := Step(objectValues, width, rows, calls[0]);
      if r.Err? then (r, after) else Replay(objectValues, width, after, calls[1..])
  }

  lemma {:induction false} ReplayAppend<E>(objectValues: E -> ObjectValues, width: nat, rows: Rows, a: seq<Call<E>>, b: seq<Call<E>>)
    ensures var (r, mid) := Replay(objectValues, width, rows, a);
      Replay(objectValues, width, rows, a + b) == if r.Err? then (r, mid) else Replay(objectValues, width, mid, b)
    decreases |a|
  {
    if a != [] {
      assert (a + b)[1..] == a[1..] + b;
      ReplayAppend(objectValues, width, Step(objectValues, width, rows, a[0]).1, a[1..], b);
    } else {
      assert a + b == b;
    }
  }

  /** A successful run of inserts adds exactly the inserted objects' rows, under their ids. */
  lemma {:induction false} InsertsWrite<E>(idOf: E -> string, objectValues: E -> ObjectValues, width: nat, rows: Rows, calls: seq<Call<E>>)
    requires forall c :: c in calls ==> c.Insert? && objectValues(c.item)[0] == Text(idOf(c.item))
    requires Replay(objectValues, width, rows, calls).0.Ok?
    ensures var after := Replay(objectValues, width, rows, calls).1;
      && (forall c :: c in calls ==> idOf(c.item) in after && after[idOf(c.item)] == objectValues(c.item))
      && (forall k :: k in rows ==> k in after && after[k] == rows[k])
      && (forall k :: k in after ==> k in rows || exists c :: c in calls && idOf(c.item) == k)
    decreases |calls|
  {
    if calls != [] {
      var x := calls[0].item;
      var mid := Step(objectValues, width, rows, calls[0]).1;
      assert forall c :: c in calls[1..] ==> c in calls;
      InsertsWrite(idOf, objectValues, width, mid, calls[1..]);
      var after := Replay(objectValues, width, rows, calls).1;
      Adapter.InsertOutcomeMeaning(rows, objectValues(x), width, idOf(x));
      assert mid == rows[idOf(x) := objectValues(x)];
      forall k | k in after
        ensures k in rows || exists c :: c in calls && idOf(c.item) == k
      {
        if k !in rows && k != idOf(x) {
          var c :| c in calls[1..] && idOf(c.item) == k;
          assert c in calls;
        }
      }
    }
  }

  /** `getObjectValues` lists the id of every item of the entries first. */
  ghost predicate IdsFirst<E>(idOf: E -> string, objectValues: E -> ObjectValues, s: Entries<E>)
  {
    forall e :: e in s && e.item.Some? ==> objectValues(e.item.value)[0] == Text(idOf(e.item.value))
  }

  lemma {:induction false} EntriesInit<E>(idOf: E -> string, objectValues: E -> ObjectValues, s: Entries<E>)
    requires |s| >= 1 && Ordered(s) && Consistent(idOf, s) && IdsFirst(idOf, objectValues, s)
    ensures var init := s[..|s| - 1];
      && Ordered(init) && Consistent(idOf, init) && IdsFirst(idOf, objectValues, init)
      && forall e :: e in init ==> e.id != s[|s| - 1].id && e in s
  {
    var init := s[..|s| - 1];
    forall e | e in init
      ensures e.id != s[|s| - 1].id
    {
      var i :| 0 <= i < |init| && init[i] == e;
      assert s[i] == e;
      Text.BelowIrreflexive(e.id);
    }
  }

  /** The two calls of a modified loaded entity: the bump leaves the table alone, and the update
      writes the entity's values over the row of its id, or fails when that row is gone. */
  lemma {:induction false} ReplayBumpUpdate<E>(objectValues: E -> ObjectValues, width: nat, rows: Rows, x: E, version: int, id: string)
    requires objectValues(x)[0] == Text(id)
    ensures Replay(objectValues, width, rows, [IncrementVersion(x), Update(x, version)])
         == if |objectValues(x)| != width then (Err(ParameterMismatch), rows)
            else if id in rows then (Ok(()), rows[id := objectValues(x)])
            else (Err(OptimisticLockingFailure), rows)
  {
    var calls := [IncrementVersion(x), Update(x, version)];
    assert calls[1..] == [Update(x, version)] && calls[1..][1..] == [];
    Adapter.UpdateOutcomeMeaning(rows, objectValues(x), width, id);
    var outcome := Adapter.UpdateOutcome(rows, objectValues(x), width);
    assert Step(objectValues, width, rows, calls[0]) == (Ok(()), rows);
    assert Replay(objectValues, width, rows, calls) == Replay(objectValues, width, rows, [Update(x, version)]);
    assert Step(objectValues, width, rows, Update(x, version)) == outcome;
    assert outcome.0.Ok? ==> Replay(objectValues, width, outcome.1, []) == (Ok(()), outcome.1);
  }

  /** Whether a commit writes over the row of `id`: a modified LOADED entry holds that id. */
  ghost predicate Rewritten<E>(s: Entries<E>, isModified: E -> bool, id: string)
  {
    exists e :: e in s && e.status == Loaded && e.item.Some? && isModified(e.item.value) && e.id == id
  }

  /** A successful run of the update calls of a commit writes each modified loaded entity's values
      over the row of its id, keeps the set of stored ids, and leaves every other row alone. */
  lemma {:induction false} UpdatesWrite<E>(idOf: E -> string, objectValues: E -> ObjectValues, width: nat, s: Entries<E>,
                                            isModified: E -> bool, rows: Rows)
    requires Ordered(s) && Consistent(idOf, s) && IdsFirst(idOf, objectValues, s)
    requires Replay(objectValues, width, rows, UpdateCalls(s, isModified)).0.Ok?
    ensures var after := Replay(objectValues, width, rows, UpdateCalls(s, isModified)).1;
      && after.Keys == rows.Keys
      && (forall e :: e in s && e.status == Loaded && e.item.Some? && isModified(e.item.value) ==>
            e.id in after && after[e.id] == objectValues(e.item.value))
      && (forall k :: k in rows && !Rewritten(s, isModified, k) ==> after[k] == rows[k])
  {
    if s != [] {
      var init, last := s[..|s| - 1], s[|s| - 1];
      EntriesInit(idOf, objectValues, s);
      var before := UpdateCalls(init, isModified);
      var pair := if last.status == Loaded && last.item.Some? && isModified(last.item.value)
        then [IncrementVersion(last.item.value), Update(last.item.value, last.version)] else [];
      assert UpdateCalls(s, isModified) == before + pair;
      ReplayAppend(objectValues, width, rows, before, pair);
      UpdatesWrite(idOf, objectValues, width, init, isModified, rows);
      var mid := Replay(objectValues, width, rows, before).1;
      assert forall e :: e in s ==> e in init || e == last;
      assert forall e :: e in init ==> e in s;
      if pair != [] {
        assert last in s;
        ReplayBumpUpdate(objectValues, width, mid, last.item.value, last.version, last.id);
      }
      var after := Replay(objectValues, width, rows, UpdateCalls(s, isModified)).1;
      forall k | k in rows && !Rewritten(s, isModified, k)
        ensures after[k] == rows[k]
      {
        assert !Rewritten(init, isModified, k);
        assert pair != [] ==> last.id != k;
      }
    }
  }

  lemma {:induction false} ReplayDelete<E>(objectValues: E -> ObjectValues, width: nat, rows: Rows, ids: set<string>)
    ensures Replay(objectValues, width, rows, [Delete(ids)])
         == (if ids <= rows.Keys then Ok(()) else Err(OptimisticLockingFailure), rows - ids)
  {
    Adapter.DeleteOutcomeMeaning(rows, ids);
    var calls: seq<Call<E>> := [Delete(ids)];
    assert calls[1..] == [];
  }

  /** A successful commit write runs in three stages: the delete succeeds, then the updates succeed on
      what it left, then the inserts run on what the updates left. */
  lemma {:induction false} CommitStages<E>(objectValues: E -> ObjectValues, width: nat, s: Entries<E>, isModified: E -> bool, rows: Rows)
    requires Replay(objectValues, width, rows, CommitCalls(s, isModified)).0.Ok?
    ensures var afterDelete := rows - RemovedIds(s);
      var (r, afterUpdates) := Replay(objectValues, width, afterDelete, UpdateCalls(s, isModified));
      && RemovedIds(s) <= rows.Keys
      && r.Ok?
      && Replay(objectValues, width, rows, CommitCalls(s, isModified)) == Replay(objectValues, width, afterUpdates, InsertCalls(s))
  {
    var removed := RemovedIds(s);
    var updates := UpdateCalls(s, isModified);
    ReplayAppend(objectValues, width, rows, [Delete(removed)] + updates, InsertCalls(s));
    ReplayAppend(objectValues, width, rows, [Delete(removed)], updates);
    ReplayDelete(objectValues, width, rows, removed);
  }

  /** What a successful write of a commit leaves in storage: the rows of the removed ids, which were
      all stored, are gone; each added entity's values are stored under its id; each modified loaded
      entity's values are written over its row; the rows of ids the session does not track are as
      they were; the rows of loaded entities left unmodified are as they were; and no row appears
      under an id other than a stored one or an added entity's. */
  lemma {:induction false} CommitWrites<E>(idOf: E -> string, objectValues: E -> ObjectValues, width: nat, s: Entries<E>,
                                            isModified: E -> bool, rows: Rows)
    requires Ordered(s) && Consistent(idOf, s) && IdsFirst(idOf, objectValues, s)
    requires Replay(objectValues, width, rows, CommitCalls(s, isModified)).0.Ok?
    ensures var after := Replay(objectValues, width, rows, CommitCalls(s, isModified)).1;
      && RemovedIds(s) <= rows.Keys
      && (forall e :: e in s && e.status == Removed ==> e.id !in after)
      && (forall e :: e in s && e.status == Added && e.item.Some? ==>
            e.id in after && after[e.id] == objectValues(e.item.value))
      && (forall e :: e in s && e.status == Loaded && e.item.Some? && isModified(e.item.value) ==>
            e.id in after && after[e.id] == objectValues(e.item.value))
      && (forall k :: k in rows && (forall e :: e in s ==> e.id != k) ==> k in after && after[k] == rows[k])
      && (forall e :: e in s && e.status == Loaded && !(e.item.Some? && isModified(e.item.value)) && e.id in rows ==>
            e.id in after && after[e.id] == rows[e.id])
      && (forall k :: k in after ==> k in rows || exists e :: e in s && e.status == Added && e.id == k)
  {
    CommitStages(objectValues, width, s, isModified, rows);
    var removed := RemovedIds(s);
    var inserts := InsertCalls(s);
    var rows1 := rows - removed;
    UpdatesWrite(idOf, objectValues, width, s, isModified, rows1);
    var rows2 := Replay(objectValues, width, rows1, UpdateCalls(s, isModified)).1;
    InsertCallsMeaning(s);
    RemovedIdsMeaning(s);
    forall c | c in inserts
      ensures c.Insert? && objectValues(c.item)[0] == Text(idOf(c.item))
    {
      assert c == Insert(c.item);
      var e := InsertedEntry(s, c.item);
    }
    InsertsWrite(idOf, objectValues, width, rows2, inserts);
    var after := Replay(objectValues, width, rows2, inserts).1;
    forall e | e in s && e.status == Added && e.item.Some?
      ensures e.id in after && after[e.id] == objectValues(e.item.value)
    {
      assert Insert(e.item.value) in inserts;
    }
    forall e | e in s && e.status == Removed
      ensures e.id !in after
    {
      assert e.id in removed && e.id !in rows2;
      if e.id in after {
        var c :| c in inserts && idOf(c.item) == e.id;
        assert c == Insert(c.item);
        var a := InsertedEntry(s, c.item);
        SameId(s, a, e);
      }
    }
    forall k | k in rows && (forall e :: e in s ==> e.id != k)
      ensures k in after && after[k] == rows[k]
    {
      assert k !in removed;
      assert !Rewritten(s, isModified, k);
    }
    forall e | e in s && e.status == Loaded && !(e.item.Some? && isModified(e.item.value)) && e.id in rows
      ensures e.id in after && after[e.id] == rows[e.id]
    {
      if e.id in removed {
        var r :| r in s && r.status == Removed && r.id == e.id;
        SameId(s, r, e);
      }
      if Rewritten(s, isModified, e.id) {
        var w :| w in s && w.status == Loaded && w.item.Some? && isModified(w.item.value) && w.id == e.id;
        SameId(s, w, e);
      }
    }
    forall k | k in after
      ensures k in rows || exists e :: e in s && e.status == Added && e.id == k
    {
      if k !in rows2 {
        var c :| c in inserts && idOf(c.item) == k;
        assert c == Insert(c.item);
        var a := InsertedEntry(s, c.item);
      }
    }
  }

  /** Strictly ordered entries have one entry per id. */
  lemma {:induction false} SameId<E>(s: Entries<E>, a: EntityStatus<E>, b: EntityStatus<E>)
    requires Ordered(s) && a in s && b in s && a.id == b.id
    ensures a == b
  {
    var i :| 0 <= i < |s| && s[i] == a;
    var j :| 0 <= j < |s| && s[j] == b;
    Text.BelowIrreflexive(a.id);
  }

  // ---------------------------------------------------------------- the view manager

  /** One table's view manager. The abstract `getObjectValues` and the `RowMapper` are the hooks
      `objectValues` and `mapRow`; entities expose their id and version through `idOf` and `versionOf`. */
  class ViewManager<E(==)> {
    const db: Database
    const tableName: string
    const idColumn: string
    const jdbcInsert: string
    const jdbcSelect: string
    const jdbcUpdate: string
    const idOf: E -> string
    const versionOf: E -> int
    const objectValues: E -> ObjectValues
    const mapRow: seq<SqlValue> -> E
    /** The placeholders of the INSERT and UPDATE statements: one per listed column. */
    const width: nat
    /** The session bound to the current transaction, created on first use. */
    var session: Session?<E>

    ghost predicate Valid()
      reads this, db, session
    {
      && db.Valid()
      && (session != null ==> session.Valid() && session.idOf == idOf && session.versionOf == versionOf)
    }

    /** The session's entries; none before the session exists. */
    function Entries(): Entries<E>
      reads this, session
    {
      if session == null then [] else session.entities
    }

    constructor (db: Database, tableName: string, idColumn: string, versionColumn: string, otherColumns: seq<string>,
                 idOf: E -> string, versionOf: E -> int, objectValues: E -> ObjectValues, mapRow: seq<SqlValue> -> E)
      requires db.Valid()
      ensures Valid() && session == null
      ensures this.db == db && this.tableName == tableName && this.idColumn == idColumn
      ensures this.idOf == idOf && this.versionOf == versionOf && this.objectValues == objectValues && this.mapRow == mapRow
      ensures jdbcInsert == InsertStatement(tableName, idColumn, otherColumns)
      ensures jdbcSelect == Adapter.BuildSelectStatement(tableName, idColumn, otherColumns)
      ensures jdbcUpdate == Adapter.UpdateStatement(tableName, idColumn, otherColumns)
      ensures width == 1 + |otherColumns|
    {
      this.db := db;
      this.tableName := tableName;
      this.idColumn := idColumn;
      this.idOf := idOf;
      this.versionOf := versionOf;
      this.objectValues := objectValues;
      this.mapRow := mapRow;
      var columns := Adapter.Columns(idColumn, otherColumns);
      var marks := Adapter.Params(1 + |otherColumns|);
      jdbcInsert := "INSERT INTO " + tableName + " ( " + columns + ") values (" + marks + ")";
      jdbcSelect := "SELECT " + columns + " FROM " + tableName + " WHERE " + idColumn + " = ?";
      var update := Adapter.BuildUpdateStatement(tableName, idColumn, otherColumns);
      jdbcUpdate := update;
      width := 1 + |otherColumns|;
      session := null;
    }

    /** `getSession()`: the transaction's session, created (empty) on first use and reused after. */
    method GetSession() returns (s: Session<E>)
      requires Valid()
      modifies this
      ensures Valid() && session == s
      ensures old(session) != null ==> s == old(session)
      ensures old(session) == null ==> fresh(s) && s.entities == []
      ensures Entries() == old(Entries())
    {
      if session == null {
        session := new Session(idOf, versionOf);
      }
      s := session;
    }

    /** `afterCompletion`: the session is unbound when the transaction ends. */
    method AfterCompletion()
      modifies this
      ensures session == null
    {
      session := null;
    }

    /** `require(id)`: the attached object when the session has one (no storage access); not found
        when the session has the id removed or storage has no row; otherwise the row is fetched,
        mapped, attached as loaded and returned. */
    method Require(id: string) returns (r: Result<E, DataError>)
      requires Valid()
      modifies this, session
      ensures Valid()
      ensures unchanged(db) && session != null
      ensures var before := ToMap(old(Entries()));
        && r == RequireResult(false, before, db.rows, mapRow, id)
        && ToMap(Entries())
           == if FindEntry(before, id) == Found(None) && id in db.rows
              then before[idOf(r.value) := LoadedEntry(idOf, versionOf, r.value)] else before
    {
      var s := GetSession();
      var found := s.Find(id);
      if found.Deleted? {
        r := Err(ObjectDeleted);
      } else if found.item.Some? {
        r := Ok(found.item.value);
      } else {
        var row := db.SelectById(id);
        if row.None? {
          r := Err(EntityNotFound);
        } else {
          var x := mapRow(row.value);
          s.AddLoadedObject(x, versionOf(x));
          r := Ok(x);
        }
      }
    }

    /** `remove(id)`: only the session changes; the row is deleted when the session commits. */
    method Remove(id: string)
      requires Valid()
      modifies this, session
      ensures Valid()
      ensures unchanged(db)
      ensures ToMap(Entries()) == ToMap(old(Entries()))[id := RemovedEntry(ToMap(old(Entries())), id)]
    {
      var s := GetSession();
      s.AddRemovedObject(id);
    }

    /** `persist(entity)`: only the session changes; the row is inserted when the session commits. */
    method Persist(entity: E)
      requires Valid()
      modifies this, session
      ensures Valid()
      ensures unchanged(db)
      ensures ToMap(Entries()) == ToMap(old(Entries()))[idOf(entity) := AddedEntry(idOf, entity)]
    {
      var s := GetSession();
      s.Add(entity);
    }

    /** `mergeObjectsWithSession(databaseResults, matcher)`: the session's matches first, in id order,
        then the admitted database rows, which are attached; a row whose id the session has removed
        ends the merge with ObjectDeletedException. */
    method MergeObjectsWithSession(databaseResults: seq<E>, matcher: E -> bool) returns (result: Result<seq<E>, DataError>)
      requires Valid()
      modifies this, session
      ensures Valid()
      ensures unchanged(db)
      ensures var sessionResults := Matching(old(Entries()), matcher);
        var ids := set x | x in sessionResults :: idOf(x);
        var (merged, after) := MergedAsWritten(idOf, versionOf, ToMap(old(Entries())), ids, databaseResults);
        result == Prepend(sessionResults, merged) && ToMap(Entries()) == after
    {
      var s := GetSession();
      var sessionResults := s.FindMatching(matcher);
      var added: seq<E> := [];
      var ids := set x | x in sessionResults :: idOf(x);
      ghost var goal := MergedAsWritten(idOf, versionOf, s.Model(), ids, databaseResults);
      var i := 0;
      while i < |databaseResults|
        invariant 0 <= i <= |databaseResults|
        invariant Valid() && session == s
        invariant var rest := MergedAsWritten(idOf, versionOf, s.Model(), ids, databaseResults[i..]);
          goal.0 == Prepend(added, rest.0) && goal.1 == rest.1
      {
        var item := databaseResults[i];
        assert databaseResults[i..][0] == item && databaseResults[i..][1..] == databaseResults[i + 1..];
        ghost var m := s.Model();
        ghost var rest := MergedAsWritten(idOf, versionOf, m, ids, databaseResults[i..]);
        if idOf(item) in ids {
          assert rest == MergedAsWritten(idOf, versionOf, m, ids, databaseResults[i + 1..]);
          i := i + 1;
          continue;
        }
        var existing := s.Find(idOf(item));
        if existing.Deleted? {
          assert rest == (Err(ObjectDeleted), m);
          return Err(ObjectDeleted);
        }
        if existing == Found(None) {
          ghost var m' := m[idOf(item) := LoadedEntry(idOf, versionOf, item)];
          ghost var next := MergedAsWritten(idOf, versionOf, m', ids, databaseResults[i + 1..]);
          assert rest == (Prepend([item], next.0), next.1);
          PrependTwice(added, [item], next.0);
          added := added + [item];
          s.AddLoadedObject(item, versionOf(item));
        } else {
          assert rest == MergedAsWritten(idOf, versionOf, m, ids, databaseResults[i + 1..]);
        }
        i := i + 1;
      }
      assert added + [] == added;
      result := Ok(sessionResults + added);
    }

    /** `insert(object)`: the row of the object's values; a stored id is a duplicate key. */
    method Insert(entity: E) returns (r: Result<(), DataError>)
      requires Valid()
      modifies db
      ensures Valid()
      ensures (r, db.rows) == Step(objectValues, width, old(db.rows), Call.Insert(entity))
    {
      var values := objectValues(entity);
      if |values| != width {
        return Err(ParameterMismatch);
      }
      r := db.Insert(values);
    }

    /** `update(object)`: the rotated binding, then the check that exactly one row changed. */
    method Update(entity: E) returns (r: Result<(), DataError>)
      requires Valid()
      modifies db
      ensures Valid()
      ensures (r, db.rows) == Adapter.UpdateOutcome(old(db.rows), objectValues(entity), width)
    {
      var values := objectValues(entity);
      var bound := Adapter.BindUpdate(values);
      if |values| != width {
        return Err(ParameterMismatch);
      }
      var count := db.UpdateById(Adapter.Bound(bound, |values|));
      r := if count != 1 then Err(OptimisticLockingFailure) else Ok(());
    }

    /** `delete(ids)`: one statement with a placeholder per id, then the check that every id removed a row. */
    method Delete(ids: set<string>) returns (r: Result<(), DataError>)
      requires Valid()
      modifies db
      ensures Valid()
      ensures (r, db.rows) == Adapter.DeleteOutcome(old(db.rows), ids)
    {
      var count := db.DeleteIn(ids);
      r := if count != |ids| then Err(OptimisticLockingFailure) else Ok(());
    }

    /** Runs the calls of a unit of work against storage, stopping at the first failure. */
    method Flush(calls: seq<Call<E>>) returns (r: Result<(), DataError>)
      requires Valid()
      modifies db
      ensures Valid()
      ensures (r, db.rows) == Replay(objectValues, width, old(db.rows), calls)
    {
      r := Ok(());
      var i := 0;
      while i < |calls|
        invariant 0 <= i <= |calls|
        invariant Valid()
        invariant Replay(objectValues, width, old(db.rows), calls) == Replay(objectValues, width, db.rows, calls[i..])
      {
        var call := calls[i];
        assert calls[i..][0] == call && calls[i..][1..] == calls[i + 1..];
        if call.Delete? {
          r := Delete(call.ids);
        } else if call.Update? {
          r := Update(call.item);
        } else if call.Insert? {
          r := Insert(call.item);
        } else {
          r := Ok(());
        }
        if r.Err? {
          return;
        }
        i := i + 1;
      }
      r := Ok(());
    }

    /** `beforeCommit`: the session commits, and its calls are run against storage. */
    method BeforeCommit(isModified: E -> bool) returns (r: Result<(), DataError>)
      requires Valid() && session != null
      modifies db
      ensures Valid()
      ensures (r, db.rows) == Replay(objectValues, width, old(db.rows), CommitCalls(Entries(), isModified))
    {
      var calls := session.Commit(isModified);
      r := Flush(calls);
    }
  }
}
