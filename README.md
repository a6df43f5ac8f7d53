# view-manager, modelled in Dafny

view-manager is a small EntityManager-like layer that stores JSON documents in one table row per
entity. This project models its core and proves properties about the model:

- **ViewManagerSession**: the per-transaction identity map and unit of work. There is one entry per
  id in a TreeMap ordered by id. Each entry is ADDED, LOADED or REMOVED, holds the attached item and
  the version recorded when it was attached. `commit` turns the entries into one delete, the version
  bumps and updates, and the inserts, in that order.
- **AbstractViewManager**: the façade over one table.
  - `require` looks in the session first and falls back to storage.
  - `remove` and `persist` only record intent in the session.
  - `mergeObjectsWithSession` reconciles query results with the session.
  - `insert`, `update` and `delete` write to storage, and `update` and `delete` check the affected-row count.
  - The statement builders produce the SQL text.
- **JdbcPersistenceAdapter**: the statement builders again, the UPDATE parameter binding (a left
  rotation that puts the id last) and the affected-row checks that raise optimistic-locking failures.
- **JpaViewEntity**: the entity's lazy payload cache. The object is deserialised on first read and
  cached. `write` and `setObject` mark it dirty, and the bytes are re-serialised only when they are
  asked for while the entity is dirty. A static counter counts the serialisations.

Files:

- `wrappers.dfy`: `Option` and `Result`.
- `text.dfy`: Java's `String.compareTo` order (the TreeMap key order) and proofs that it is a strict
  total order, plus character counting and splitting and joining on a separator.
- `storage.dfy`: the table behind the JDBC calls. It is a map from id to the row's column values,
  id first. Each statement reports how many rows it affected.
- `view_manager_session.dfy`, `abstract_view_manager.dfy`, `jdbc_persistence_adapter.dfy` and
  `jpa_view_entity.dfy`: one module per source file.

Where the source changes state, the model does too.
- The session, the view manager, the adapter, the database and the entity are classes whose
  methods have `modifies` clauses.
- The `StringBuilder` loops, the binding loop, the three `commit` walks and the merge loop are
  `while` loops. Each is proved against a function that specifies it.
- The properties are lemmas about those functions.

How the model stands in for code and hooks it cannot see:
- The entity's `getId()`/`getVersion()` become the function constants `idOf` and `versionOf`.
- `getObjectValues` becomes `objectValues`, the `RowMapper` becomes `mapRow`, and the manager's
  `isModified` becomes a parameter of `commit`.
- Jackson becomes a `Codec` value holding a serialise and a deserialise function. Either function
  can fail, and deserialisation can also yield null.
- Entity identity ("the very same reference") is Dafny equality on the entity type.
- Java's `null` is `None`.
- Exceptions are the `Err` cases of a `Result`.

Where the model follows the code rather than the stated design:
- `updateSerializedData` clears the dirty flag after serialising, although the comment beside it
  says an attached entity must stay dirty. The model clears it (`SerializeStep`,
  `ViewEntity.GetSerializedData`).
- `addLoadedObject(entity, version)` ignores its version argument and records `entity.getVersion()`.
  The view manager's one-argument calls are modelled as `AddLoadedObject(x, versionOf(x))`.
- The UPDATE statement has no version predicate. The only optimistic check is "affected rows ≠ 1",
  so no version comparison is claimed.
- The view manager's INSERT format string has a space after the opening parenthesis of the column
  list (`InsertStatement`); the adapter's does not (`BuildInsertStatement`). The view manager's
  `columns`, `params`, `buildUpdateStatement` and `buildSelectStatement` match the adapter's
  character for character, so each is defined once, in `JdbcPersistenceAdapter`, and used by both.
- `commit` always calls `delete`, even with no removed ids. The statement then ends in `in ()`. The
  model's storage deletes nothing and reports 0 rows, which the count check accepts.
- `require` and `mergeObjectsWithSession` catch `ObjectDeletedException`, but AbstractViewManager.java:14
  imports `org.hibernate.ObjectDeletedException`. That import hides the package's own exception,
  which is the one the session throws. The catches at AbstractViewManager.java:94 and :162 therefore
  never see the session's exception. `require` of an id removed in the same transaction lets the
  session's exception escape instead of raising EntityNotFoundException. A database row whose id was
  removed ends the merge with that exception instead of being skipped. The methods model the code as
  written (`ObjectDeleted`); the intended translation is kept beside them (see "## Findings").
- Both constructors take a `versionColumn` and never put it into a statement. INSERT and UPDATE have
  one placeholder per listed column, and a binding of more or fewer values fails with
  `ParameterMismatch` before anything is written. The test view manager (TestViewManager.java:16
  and :21) lists four other columns and returns six values. With those hooks, every insert and
  update in the model fails that check.
- Characters are compared as Dafny characters (Unicode scalar values). Java compares UTF-16 code
  units, so outside the Basic Multilingual Plane the two orders can differ.

## Model

| member | source | states |
|---|---|---|
| Text.BelowTransitive | src/main/java/io/phaas/viewmanager/ViewManagerSession.java:33 | the TreeMap's key order (String.compareTo) is transitive |
| Text.BelowTotal | src/main/java/io/phaas/viewmanager/ViewManagerSession.java:33 | any two distinct keys are ordered one way or the other |
| Text.BelowIrreflexive | src/main/java/io/phaas/viewmanager/ViewManagerSession.java:33 | no key is below itself, so an ordered map holds each id once |
| ViewManagerSession.ToMap | src/main/java/io/phaas/viewmanager/ViewManagerSession.java:33 | in the map view of the entries, every id maps to an entry filed under that id |
| ViewManagerSession.ToMapKeys | src/main/java/io/phaas/viewmanager/ViewManagerSession.java:33 | the map view holds exactly the ids of the entries |
| ViewManagerSession.ToMapValues | src/main/java/io/phaas/viewmanager/ViewManagerSession.java:33 | every value of the map view is one of the entries |
| ViewManagerSession.ToMapHolds | src/main/java/io/phaas/viewmanager/ViewManagerSession.java:33 | in id-ordered entries, the map view holds every entry under its own id |
| ViewManagerSession.Put | src/main/java/io/phaas/viewmanager/ViewManagerSession.java:33 | `put` adds the new entry and adds no other entry |
| ViewManagerSession.PutModel | src/main/java/io/phaas/viewmanager/ViewManagerSession.java:33 | `put(id, e)` changes the map at e's id only, to e |
| ViewManagerSession.PutOrdered | src/main/java/io/phaas/viewmanager/ViewManagerSession.java:33 | `put` keeps the entries in strictly ascending id order, one per id |
| ViewManagerSession.Session.constructor | src/main/java/io/phaas/viewmanager/ViewManagerSession.java:33-37 | a new session tracks no id |
| ViewManagerSession.Session.Add | src/main/java/io/phaas/viewmanager/ViewManagerSession.java:39-41 | the entry of the entity's id becomes ADDED with that entity and version 0; other ids are unchanged; order and consistency are kept |
| ViewManagerSession.Session.AddLoadedObject | src/main/java/io/phaas/viewmanager/ViewManagerSession.java:43-45 | the entry of the entity's id becomes LOADED with that entity and the entity's own version, whatever the version argument; other ids are unchanged |
| ViewManagerSession.Session.AddRemovedObject | src/main/java/io/phaas/viewmanager/ViewManagerSession.java:47-54 | a tracked id's entry keeps its item and version and becomes REMOVED; an untracked id gets a REMOVED entry with no item and version 0; other ids are unchanged |
| ViewManagerSession.FindEntryMeaning | src/main/java/io/phaas/viewmanager/ViewManagerSession.java:56-66 | over ordered, consistent entries, `find(id)` is deleted exactly when the id's entry is REMOVED, null exactly when no entry has the id, and otherwise that entry's item |
| ViewManagerSession.Session.Find | src/main/java/io/phaas/viewmanager/ViewManagerSession.java:56-66 | ObjectDeletedException exactly when the id's entry is REMOVED, null exactly when the id is untracked, and otherwise the attached item itself |
| ViewManagerSession.FindAfterAdd | src/main/java/io/phaas/viewmanager/ViewManagerSession.java:39-66 | after `add(x)`, `find` of x's id returns x itself, and every other id is looked up as before |
| ViewManagerSession.FindAfterLoad | src/main/java/io/phaas/viewmanager/ViewManagerSession.java:43-66 | after `addLoadedObject(x, _)`, `find` of x's id returns x itself, and every other id is looked up as before |
| ViewManagerSession.FindAfterRemove | src/main/java/io/phaas/viewmanager/ViewManagerSession.java:47-66 | after `addRemovedObject(id)`, `find(id)` raises deleted, the entry keeps its item and version, and every other id is looked up as before |
| ViewManagerSession.Matching | src/main/java/io/phaas/viewmanager/ViewManagerSession.java:68-71 | every item returned belongs to a non-removed entry and satisfies the matcher |
| ViewManagerSession.MatchingComplete | src/main/java/io/phaas/viewmanager/ViewManagerSession.java:68-71 | every non-removed entry whose item satisfies the matcher contributes that item |
| ViewManagerSession.MatchingMeaning | src/main/java/io/phaas/viewmanager/ViewManagerSession.java:68-71 | x is returned if and only if it is the item of a non-removed entry and satisfies the matcher |
| ViewManagerSession.MatchingOrdered | src/main/java/io/phaas/viewmanager/ViewManagerSession.java:68-71 | the items come in strictly ascending id order, as the TreeMap iterates |
| ViewManagerSession.MatchingCompleteAll | src/main/java/io/phaas/viewmanager/ViewManagerSession.java:68-71 | every live entry whose item satisfies the matcher contributes that item, for all entries at once |
| ViewManagerSession.Session.FindMatching | src/main/java/io/phaas/viewmanager/ViewManagerSession.java:68-71 | `find(matcher)` returns only items of live entries that satisfy the matcher, returns every such item, and lists them in strictly ascending id order |
| ViewManagerSession.Session.Commit | src/main/java/io/phaas/viewmanager/ViewManagerSession.java:73-87 | the three walks over the entries make exactly the calls of the unit of work (delete, then bump and update pairs, then inserts), and the entries are unchanged |
| ViewManagerSession.RemovedIdsMeaning | src/main/java/io/phaas/viewmanager/ViewManagerSession.java:74-75 | an id is deleted if and only if its entry is REMOVED |
| ViewManagerSession.UpdateCallsPaired | src/main/java/io/phaas/viewmanager/ViewManagerSession.java:78-83 | the update phase is a sequence of pairs, each a version bump followed by the update of the same item |
| ViewManagerSession.UpdateCallsMeaning | src/main/java/io/phaas/viewmanager/ViewManagerSession.java:78-83 | update(x, v) is called if and only if x is the item of a LOADED entry recorded with version v and x is modified; the phase has only bumps and updates |
| ViewManagerSession.InsertCallsMeaning | src/main/java/io/phaas/viewmanager/ViewManagerSession.java:84-86 | insert(x) is called if and only if x is the item of an ADDED entry; the phase has only inserts |
| ViewManagerSession.InsertedEntry | src/main/java/io/phaas/viewmanager/ViewManagerSession.java:84-86 | every inserted item comes from an ADDED entry |
| ViewManagerSession.CommitOrder | src/main/java/io/phaas/viewmanager/ViewManagerSession.java:73-87 | the delete of all removed ids comes first and only once; each update immediately follows the bump of its item; no update or delete follows an insert |
| ViewManagerSession.CommitContents | src/main/java/io/phaas/viewmanager/ViewManagerSession.java:73-87 | the delete is of exactly the removed ids; updates and inserts are of exactly the modified loaded items and the added items |
| JdbcPersistenceAdapter.Columns | src/main/java/io/phaas/viewmanager/JdbcPersistenceAdapter.java:115-121 | the StringBuilder loop yields the id column followed by "," and each other column, in order |
| JdbcPersistenceAdapter.ColumnListIsJoin | src/main/java/io/phaas/viewmanager/JdbcPersistenceAdapter.java:115-121 | the column list is the id column and the other columns joined by "," |
| JdbcPersistenceAdapter.ColumnListSplits | src/main/java/io/phaas/viewmanager/JdbcPersistenceAdapter.java:115-121 | splitting the column list on "," gives back the id column and the other columns, when no name holds a comma |
| JdbcPersistenceAdapter.Params | src/main/java/io/phaas/viewmanager/JdbcPersistenceAdapter.java:123-132 | the StringBuilder loop, with a comma before every mark but the first, yields the placeholder list of that count |
| JdbcPersistenceAdapter.Placeholders | src/main/java/io/phaas/viewmanager/JdbcPersistenceAdapter.java:123-132 | the list is empty for a count of 0 or less and 2n - 1 characters long for n ≥ 1 |
| JdbcPersistenceAdapter.PlaceholdersShape | src/main/java/io/phaas/viewmanager/JdbcPersistenceAdapter.java:123-132 | for n ≥ 1 the list is n "?" joined by single commas, and splitting it on commas gives the n marks back |
| JdbcPersistenceAdapter.PlaceholdersCounts | src/main/java/io/phaas/viewmanager/JdbcPersistenceAdapter.java:123-132 | the list holds exactly n "?" and n - 1 commas for n ≥ 1, and neither for n ≤ 0 |
| JdbcPersistenceAdapter.InsertStatementPlaceholders | src/main/java/io/phaas/viewmanager/JdbcPersistenceAdapter.java:88-91 | the INSERT has 1 + \|others\| placeholders, as many as its column list has columns |
| JdbcPersistenceAdapter.BuildUpdateStatement | src/main/java/io/phaas/viewmanager/JdbcPersistenceAdapter.java:93-109 | the loop with its `first` flag yields "UPDATE t SET " + each "c=?" joined by ", " + " WHERE id=?" |
| JdbcPersistenceAdapter.UpdateStatementPlaceholders | src/main/java/io/phaas/viewmanager/JdbcPersistenceAdapter.java:93-109 | the UPDATE has \|others\| + 1 placeholders |
| JdbcPersistenceAdapter.SelectStatementPlaceholders | src/main/java/io/phaas/viewmanager/JdbcPersistenceAdapter.java:111-113 | the SELECT has the single placeholder of its id predicate |
| JdbcPersistenceAdapter.DeleteStatementPlaceholders | src/main/java/io/phaas/viewmanager/JdbcPersistenceAdapter.java:73-74 | the DELETE has one placeholder per id |
| JdbcPersistenceAdapter.RotateLeft | src/main/java/io/phaas/viewmanager/JdbcPersistenceAdapter.java:57-62 | the bound values are the object values rotated left by one place: position i holds value (i+1) mod n, so the id comes last |
| JdbcPersistenceAdapter.BindUpdate | src/main/java/io/phaas/viewmanager/JdbcPersistenceAdapter.java:57-62 | parameters 1..n are set: parameter i gets value i for 1 ≤ i < n and parameter n gets the id (value 0), a left rotation |
| JdbcPersistenceAdapter.InsertOutcomeMeaning | src/main/java/io/phaas/viewmanager/JdbcPersistenceAdapter.java:46-49 | an insert writes exactly the values under their id; it fails, writing nothing, with a parameter mismatch when the values do not fit the placeholders, and with a duplicate key when the id is stored |
| JdbcPersistenceAdapter.UpdateOutcomeMeaning | src/main/java/io/phaas/viewmanager/JdbcPersistenceAdapter.java:51-69 | with the rotation, an update writes exactly the object's values over the row of its id; it fails, writing nothing, with a parameter mismatch when the values do not fit the placeholders, and with an optimistic-locking failure exactly when that row is gone |
| JdbcPersistenceAdapter.DeleteOutcomeMeaning | src/main/java/io/phaas/viewmanager/JdbcPersistenceAdapter.java:71-81 | a delete removes the rows of the ids and fails with an optimistic-locking failure exactly when some id had no row |
| JdbcPersistenceAdapter.Adapter.constructor | src/main/java/io/phaas/viewmanager/JdbcPersistenceAdapter.java:28-39 | the INSERT, SELECT and UPDATE statements are built once, from the table and column names, with one placeholder per listed column; the version column is kept but used in no statement |
| JdbcPersistenceAdapter.Adapter.Select | src/main/java/io/phaas/viewmanager/JdbcPersistenceAdapter.java:41-44 | the mapped row of the id, or the empty-result failure when no row has it |
| JdbcPersistenceAdapter.Adapter.Insert | src/main/java/io/phaas/viewmanager/JdbcPersistenceAdapter.java:46-49 | the row of the values is stored under its id; a binding that does not fit the placeholders, a missing id or a stored id fails and leaves storage unchanged |
| JdbcPersistenceAdapter.Adapter.Update | src/main/java/io/phaas/viewmanager/JdbcPersistenceAdapter.java:51-69 | an empty array fails reading the id; a binding that does not fit the placeholders fails; otherwise the rotated binding is executed, and the result is a failure if and only if the affected count is not 1 |
| JdbcPersistenceAdapter.Adapter.Delete | src/main/java/io/phaas/viewmanager/JdbcPersistenceAdapter.java:71-81 | the ids' rows are deleted and the result is a failure if and only if the affected count differs from the number of ids |
| AbstractViewManager.InsertStatementPlaceholders | src/main/java/io/phaas/viewmanager/AbstractViewManager.java:235-238 | the view manager's INSERT (with its extra space) also has 1 + \|others\| placeholders |
| AbstractViewManager.ViewManager.constructor | src/main/java/io/phaas/viewmanager/AbstractViewManager.java:68-78 | the statements are built from the names with `columns`, `params` and the update loop, with one placeholder per listed column; the version column is used in no statement; no session is bound yet |
| AbstractViewManager.ViewManager.GetSession | src/main/java/io/phaas/viewmanager/AbstractViewManager.java:189-197 | an empty session is created on first use; after that the same session is returned |
| AbstractViewManager.ViewManager.AfterCompletion | src/main/java/io/phaas/viewmanager/AbstractViewManager.java:52-55 | the session is unbound when the transaction completes |
| AbstractViewManager.ViewManager.Require | src/main/java/io/phaas/viewmanager/AbstractViewManager.java:80-97 | as written: an attached item is returned as it is, with the session unchanged; an id removed in this transaction lets ObjectDeletedException escape; an untracked id without a row gives not-found; otherwise the fetched row is attached as LOADED and returned; storage is never written |
| AbstractViewManager.RequireAsWrittenMeaning | src/main/java/io/phaas/viewmanager/AbstractViewManager.java:80-97 | as written, ObjectDeletedException exactly for a removed id and not-found exactly for an untracked id without a row; otherwise the attached item or the mapped row |
| AbstractViewManager.RequireIntendedMeaning | src/main/java/io/phaas/viewmanager/AbstractViewManager.java:94-96 | with the catch translating the session's exception, not-found exactly when the id is removed or neither tracked nor stored; otherwise the attached item or the mapped row |
| AbstractViewManager.RequireOfRemovedThrows | src/main/java/io/phaas/viewmanager/AbstractViewManager.java:94 | `remove(X)` then `require(X)`: as written ObjectDeletedException, as intended EntityNotFoundException |
| AbstractViewManager.ViewManager.Remove | src/main/java/io/phaas/viewmanager/AbstractViewManager.java:111-115 | only the session changes, by `addRemovedObject(id)`; storage is unchanged |
| AbstractViewManager.ViewManager.Persist | src/main/java/io/phaas/viewmanager/AbstractViewManager.java:182-187 | only the session changes: the entity's id becomes ADDED; storage is unchanged |
| AbstractViewManager.ViewManager.MergeObjectsWithSession | src/main/java/io/phaas/viewmanager/AbstractViewManager.java:137-170 | as written: the result is the session's matches followed by the admitted database rows, and the session afterwards is the merge's; a row whose id the session removed ends the merge with ObjectDeletedException, keeping the rows attached before it; storage is unchanged |
| AbstractViewManager.MergedAsWrittenMeaning | src/main/java/io/phaas/viewmanager/AbstractViewManager.java:146-167 | the merge as written fails, with ObjectDeletedException, exactly when some row outside the session matches has an id the session removed; otherwise its result and session are those of the described merge |
| AbstractViewManager.MergeOfRemovedRowThrows | src/main/java/io/phaas/viewmanager/AbstractViewManager.java:162 | a row whose id is removed: as written the merge throws, as described it skips the row |
| AbstractViewManager.MergedSound | src/main/java/io/phaas/viewmanager/AbstractViewManager.java:146-167 | every appended row comes from the database results, its id is neither among the session matches nor tracked, and no id is appended twice |
| AbstractViewManager.MergedComplete | src/main/java/io/phaas/viewmanager/AbstractViewManager.java:146-167 | every database row that is untracked and not among the session matches is represented in the result |
| AbstractViewManager.MergedAttaches | src/main/java/io/phaas/viewmanager/AbstractViewManager.java:146-167 | every session entry is kept as it was, each appended row is attached as LOADED, and nothing else is attached |
| AbstractViewManager.ViewManager.Insert | src/main/java/io/phaas/viewmanager/AbstractViewManager.java:199-201 | the entity's values are stored under its id; values that do not fit the placeholders, a missing id or a stored id fail and leave storage unchanged |
| AbstractViewManager.InsertsWrite | src/main/java/io/phaas/viewmanager/AbstractViewManager.java:199-201 | a successful run of inserts stores each inserted entity's values under its id, keeps every earlier row, and adds no other row |
| AbstractViewManager.ViewManager.Update | src/main/java/io/phaas/viewmanager/AbstractViewManager.java:203-220 | values that do not fit the placeholders fail; otherwise the rotated binding is executed, and the result is a failure if and only if the affected count is not 1 |
| AbstractViewManager.ReplayBumpUpdate | src/main/java/io/phaas/viewmanager/AbstractViewManager.java:203-220 | a bump followed by an update writes the entity's values over its row, or fails, writing nothing, when the values do not fit the placeholders or the row is gone |
| AbstractViewManager.ViewManager.Delete | src/main/java/io/phaas/viewmanager/AbstractViewManager.java:222-231 | the ids' rows are deleted and the result is a failure if and only if the affected count differs from the number of ids |
| AbstractViewManager.ReplayDelete | src/main/java/io/phaas/viewmanager/AbstractViewManager.java:222-231 | the delete removes the rows of the ids and succeeds exactly when all of them were stored |
| AbstractViewManager.ViewManager.Flush | src/main/java/io/phaas/viewmanager/ViewManagerSession.java:76-86 | the unit of work's calls are run against storage in order, and the run stops at the first failure |
| AbstractViewManager.ViewManager.BeforeCommit | src/main/java/io/phaas/viewmanager/AbstractViewManager.java:47-50 | the session's commit calls are run against storage |
| AbstractViewManager.UpdatesWrite | src/main/java/io/phaas/viewmanager/ViewManagerSession.java:78-83 | a successful update phase writes each modified loaded entity's values over its row, keeps the set of stored ids, and leaves every row that no modified loaded entity holds as it was |
| AbstractViewManager.CommitStages | src/main/java/io/phaas/viewmanager/ViewManagerSession.java:73-87 | a successful commit write is a successful delete, then successful updates, then the inserts |
| AbstractViewManager.CommitWrites | src/main/java/io/phaas/viewmanager/AbstractViewManager.java:47-50 | after a successful commit write, the removed ids' rows were all stored and are gone, each added or modified loaded entity's values are stored under its id, the rows of untracked ids and of loaded entities left unmodified are as they were, and every stored id was stored before or belongs to an added entity |
| JpaViewEntity.Increment | src/test/java/io/phaas/viewmanager/jpa/JpaViewEntity.java:95 | `serialization++` on a Java int is two's-complement addition of one: one is added modulo 2^32 and the result is read back as signed, so the largest int wraps around to the smallest |
| JpaViewEntity.ReadCaches | src/test/java/io/phaas/viewmanager/jpa/JpaViewEntity.java:33-46 | `read` never touches the bytes or the dirty flag and is idempotent; once it has produced an object, later reads return it without consulting any mapper |
| JpaViewEntity.WriteIsDirtyRead | src/test/java/io/phaas/viewmanager/jpa/JpaViewEntity.java:48-52 | `write` returns what `read` would and leaves the same state, except that the entity is dirty |
| JpaViewEntity.SerializeOnce | src/test/java/io/phaas/viewmanager/jpa/JpaViewEntity.java:89-102 | a serialisation is counted exactly when the entity was dirty and it succeeded; afterwards the entity is clean, so a second call returns the same bytes and counts nothing; a failure changes nothing |
| JpaViewEntity.SetObjectRoundTrip | src/test/java/io/phaas/viewmanager/jpa/JpaViewEntity.java:72-75 | after `setObject(x)`, the bytes are x's, and an entity holding only those bytes reads x back when the codec round-trips |
| JpaViewEntity.SerializationCounter.constructor | src/test/java/io/phaas/viewmanager/jpa/JpaViewEntity.java:31 | the static counter starts at 0 |
| JpaViewEntity.ViewEntity.constructor | src/test/java/io/phaas/viewmanager/jpa/JpaViewEntity.java:24-31 | a new entity has no object, no bytes, no mapper and no id, is clean and has version 0 |
| JpaViewEntity.ViewEntity.Read | src/test/java/io/phaas/viewmanager/jpa/JpaViewEntity.java:33-46 | deserialises only when there is no object but there are bytes, keeps the result, and fails without a mapper or on undecodable bytes |
| JpaViewEntity.ViewEntity.Write | src/test/java/io/phaas/viewmanager/jpa/JpaViewEntity.java:48-52 | sets the dirty flag, then reads |
| JpaViewEntity.ViewEntity.SetObject | src/test/java/io/phaas/viewmanager/jpa/JpaViewEntity.java:72-75 | replaces the object and sets the dirty flag; the bytes stay |
| JpaViewEntity.ViewEntity.GetSerializedData | src/test/java/io/phaas/viewmanager/jpa/JpaViewEntity.java:54-58 | when dirty, serialises (a null object gives null bytes), counts once and clears the flag; when clean, returns the stored bytes; a failure changes nothing |
| JpaViewEntity.ViewEntity.SetObjectMapper | src/test/java/io/phaas/viewmanager/jpa/JpaViewEntity.java:77-79 | only the mapper changes |
| JpaViewEntity.ViewEntity.SetSerializedData | src/test/java/io/phaas/viewmanager/jpa/JpaViewEntity.java:81-83 | only the bytes change; the cached object and the dirty flag stay |
| JpaViewEntity.ViewEntity.SetId | src/test/java/io/phaas/viewmanager/jpa/JpaViewEntity.java:85-87 | `getId()` returns the new id; nothing else changes |
| JpaViewEntity.ViewEntity.SetVersion | src/test/java/io/phaas/viewmanager/jpa/JpaViewEntity.java:109-111 | `getVersion()` returns the new version; nothing else changes |

## Left out

- Thread binding of the session (`ThreadLocal`) and registering the transaction synchronisation are
  framework plumbing. The model keeps the bound session in a field that `GetSession` fills lazily
  and `AfterCompletion` clears.
- JDBC and Spring: statements run against the `Database` map in `storage.dfy`. The SQL text is
  built and proved about, but it is not parsed. Each statement's effect on storage is given
  directly.
- Jackson is reduced to the `Codec` functions. `typeReference`, the JSON format and
  `generateRawJsonString` are not modelled.
- The `load` and `create` stubs return null and have no behaviour.
- `deleteAll` (`truncate table`) is an administrative call.
- The `initialize(List)` helper is not called by the modelled core.
- Concurrency (two transactions racing for the same row) is out of scope. Only the row-count check
  that detects it is modelled.
- Exception messages are reduced to the error kinds of `DataError` and `EntityError`.
- AbstractViewManager.ViewManager.Require: the `initializeObject` call that hands the object mapper
  to the fetched entity is not modelled. The view manager treats entities as opaque values.
- AbstractViewManager.ViewManager.Persist: the `initializeObject` call is likewise not modelled.
- AbstractViewManager.ViewManager.MergeObjectsWithSession: the `initializeObject` call on appended
  rows is likewise not modelled.
- Driver errors are reduced to `ParameterMismatch`. Of the bound values, only the id's type is
  checked (`InvalidId`), and no other value is checked against its column's type.
- AbstractViewManager.ViewManager.BeforeCommit: `incrementVersion` is a hook whose effect on the
  entity is not visible in the source. The model treats it as a call that leaves storage alone, and
  `getObjectValues` and `isModified` as fixed functions of the entity.
- AbstractViewManager.ViewManager.Update: `getObjectValues` must return at least the id. The Java
  code indexes `objectValues[0]` and would fail on an empty array; the model's `ObjectValues` type
  rules that case out.
- JpaViewEntity.ViewEntity.SetVersion: the version is a Java `long`, modelled as an unbounded
  integer because it is only stored and returned, never computed with.
- ViewManagerSession.Session.AddRemovedObject: the in-place assignment of the entry's `status`
  field is modelled as replacing the entry by an updated copy. Entries never leave the session, so
  no alias can observe the difference.

## Findings

| source | as written | input that shows it | evidently intended | confidence | as-written member | corrected member |
|---|---|---|---|---|---|---|
| src/main/java/io/phaas/viewmanager/AbstractViewManager.java:94 | the catch names `org.hibernate.ObjectDeletedException` (import at line 14), so the session's `io.phaas.viewmanager.ObjectDeletedException` escapes from `require` | `remove("X")` then `require("X")` in one transaction | the removed id raises EntityNotFoundException | not executed | AbstractViewManager.RequireOfRemovedThrows | AbstractViewManager.RequireIntendedMeaning |
| src/main/java/io/phaas/viewmanager/AbstractViewManager.java:162 | the same hidden name: a database row whose id the session removed ends `mergeObjectsWithSession` with the session's exception | the session has "X" removed; the database results hold a row with id "X" | the row is skipped, as the comment at lines 163-164 says | not executed | AbstractViewManager.MergeOfRemovedRowThrows | AbstractViewManager.MergedSound |
