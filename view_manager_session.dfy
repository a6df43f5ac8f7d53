/** The per-transaction identity map: one entry per id, kept in a TreeMap ordered by id, recording
    whether the entity was added, loaded or removed in this transaction, and the unit of work that
    `commit` hands to the view manager. */
module ViewManagerSession {
  import opened Wrappers
  import Text

  datatype Status = Added | Loaded | Removed

  /** One entry of the session: the id, the attached item (None stands for Java's null, which only a
      removed entry of an id that was never attached holds), the version recorded when it was attached,
      and its status. */
  datatype EntityStatus<E> = EntityStatus(id: string, item: Option<E>, version: int, status: Status)

  /** What `find(id)` does: return the attached item or null (Found), or throw ObjectDeletedException (Deleted). */
  datatype Lookup<E> = Found(item: Option<E>) | Deleted

  /** The calls `commit` makes on its view manager, in order. */
  datatype Call<E> = Delete(ids: set<string>) | IncrementVersion(item: E) | Update(item: E, version: int) | Insert(item: E)

  type Entries<E> = seq<EntityStatus<E>>
  type Model<E> = map<string, EntityStatus<E>>

  // ---------------------------------------------------------------- the TreeMap

  /** The entries in strictly ascending id order: the iteration order of a TreeMap<String, _>. */
  ghost predicate Ordered<E>(s: Entries<E>)
  {
    forall i, j :: 0 <= i < j < |s| ==> Text.Below(s[i].id, s[j].id)
  }

  /** The entry of an item is filed under the item's id, and only a removed entry may lack an item. */
  ghost predicate Consistent<E>(idOf: E -> string, s: Entries<E>)
  {
    forall e :: e in s ==> (e.item.Some? ==> idOf(e.item.value) == e.id) && (e.status != Removed ==> e.item.Some?)
  }

  /** The map view of the entries: the entry each id is mapped to. */
  function ToMap<E>(s: Entries<E>): (m: Model<E>)
    ensures forall k :: k in m ==> m[k].id == k
  {
    if s == [] then map[] else ToMap(s[1..])[s[0].id := s[0]]
  }

  /** The map view maps to entries of the sequence. */
  lemma {:induction false} ToMapValues<E>(s: Entries<E>, k: string)
    requires k in ToMap(s)
    ensures ToMap(s)[k] in s
  {
    if s[0].id != k {
      ToMapValues(s[1..], k);
    }
  }

  /** The map view holds exactly the ids of the entries. */
  lemma {:induction false} ToMapKeys<E>(s: Entries<E>, k: string)
    ensures k in ToMap(s) <==> exists e :: e in s && e.id == k
  {
    if s != [] {
      ToMapKeys(s[1..], k);
      if k != s[0].id && k in ToMap(s) {
        var e :| e in s[1..] && e.id == k;
        assert e in s;
      }
    }
  }

  /** `entities.put(e.id, e)`: replaces the entry of that id, or inserts it in id order. */
  function Put<E>(s: Entries<E>, e: EntityStatus<E>): (r: Entries<E>)
    ensures e in r
    ensures forall x :: x in r ==> x == e || x in s
  {
    if s == [] then [e]
    else if s[0].id == e.id then [e] + s[1..]
    else if Text.Below(e.id, s[0].id) then [e] + s
    else [s[0]] + Put(s[1..], e)
  }

  /** A put changes the map view at the entry's id and nowhere else. */
  lemma {:induction false} PutModel<E>(s: Entries<E>, e: EntityStatus<E>)
    ensures ToMap(Put(s, e)) == ToMap(s)[e.id := e]
  {
    if s == [] {
    } else if s[0].id == e.id {
      assert Put(s, e)[1..] == s[1..];
    } else if Text.Below(e.id, s[0].id) {
      assert Put(s, e)[1..] == s;
    } else {
      assert Put(s, e)[1..] == Put(s[1..], e);
      PutModel(s[1..], e);
    }
  }

  lemma {:induction false} OrderedTail<E>(s: Entries<E>)
    requires Ordered(s) && |s| >= 1
    ensures Ordered(s[1..])
    ensures forall x :: x in s[1..] ==> Text.Below(s[0].id, x.id)
  {
    forall x | x in s[1..]
      ensures Text.Below(s[0].id, x.id)
    {
      var k :| 0 <= k < |s[1..]| && s[1..][k] == x;
      assert s[k + 1] == x;
    }
  }

  /** A put keeps the entries in strictly ascending id order. */
  lemma {:induction false} PutOrdered<E>(s: Entries<E>, e: EntityStatus<E>)
    requires Ordered(s)
    ensures Ordered(Put(s, e))
  {
    var r := Put(s, e);
    if s == [] {
    } else if s[0].id == e.id {
      forall i, j | 0 <= i < j < |r|
        ensures Text.Below(r[i].id, r[j].id)
      {
        assert r[j] == s[j];
        if i > 0 {
          assert r[i] == s[i];
        }
      }
    } else if Text.Below(e.id, s[0].id) {
      forall i, j | 0 <= i < j < |r|
        ensures Text.Below(r[i].id, r[j].id)
      {
        assert r[j] == s[j - 1];
        if i > 0 {
          assert r[i] == s[i - 1];
        } else if j > 1 {
          Text.BelowTransitive(e.id, s[0].id, s[j - 1].id);
        }
      }
    } else {
      OrderedTail(s);
      PutOrdered(s[1..], e);
      var t := Put(s[1..], e);
      assert r == [s[0]] + t;
      Text.BelowTotal(e.id, s[0].id);
      forall i, j | 0 <= i < j < |r|
        ensures Text.Below(r[i].id, r[j].id)
      {
        assert r[j] == t[j - 1] && r[j] in t;
        if i > 0 {
          assert r[i] == t[i - 1];
        }
      }
    }
  }

  /** In ordered entries the map view holds every entry under its own id. */
  lemma {:induction false} ToMapHolds<E>(s: Entries<E>, e: EntityStatus<E>)
    requires Ordered(s) && e in s
    ensures e.id in ToMap(s) && ToMap(s)[e.id] == e
  {
    if s[0] != e {
      OrderedTail(s);
      assert e in s[1..];
      Text.BelowIrreflexive(e.id);
      ToMapHolds(s[1..], e);
    }
  }

  // ---------------------------------------------------------------- the session operations on values

  /** The entry `add` files: status ADDED, version 0. */
  function AddedEntry<E>(idOf: E -> string, entity: E): EntityStatus<E>
  {
    EntityStatus(idOf(entity), Some(entity), 0, Added)
  }

  /** The entry `addLoadedObject` files: status LOADED and the entity's own version; the version
      argument of the call plays no part. */
  function LoadedEntry<E>(idOf: E -> string, versionOf: E -> int, entity: E): EntityStatus<E>
  {
    EntityStatus(idOf(entity), Some(entity), versionOf(entity), Loaded)
  }

  /** The entry `addRemovedObject(id)` leaves: the tracked entry with its status set to REMOVED, or a
      new REMOVED entry without an item and with version 0. */
  function RemovedEntry<E>(m: Model<E>, id: string): (r: EntityStatus<E>)
  {
    if id in m then m[id].(status := Removed) else EntityStatus(id, None, 0, Removed)
  }

  /** `find(id)` over the map view. */
  function FindEntry<E>(m: Model<E>, id: string): (r: Lookup<E>)
  {
    if id !in m then Found(None)
    else if m[id].status != Removed then Found(m[id].item)
    else Deleted
  }

  /** `find(id)` over well-formed entries: deleted exactly when the id's entry is REMOVED, null exactly
      when no entry has the id, and otherwise the item of the id's entry. */
  lemma {:induction false} FindEntryMeaning<E>(idOf: E -> string, s: Entries<E>, id: string)
    requires Ordered(s) && Consistent(idOf, s)
    ensures FindEntry(ToMap(s), id) == Deleted <==> exists e :: e in s && e.id == id && e.status == Removed
    ensures FindEntry(ToMap(s), id) == Found(None) <==> forall e :: e in s ==> e.id != id
    ensures forall e :: e in s && e.id == id && e.status != Removed ==> FindEntry(ToMap(s), id) == Found(e.item)
  {
    ToMapKeys(s, id);
    if id in ToMap(s) {
      ToMapValues(s, id);
    }
    forall e | e in s && e.id == id
      ensures ToMap(s)[id] == e
    {
      ToMapHolds(s, e);
    }
  }

  /** `find(predicate)`: the items of the entries that are not removed and satisfy the matcher, in
      entry order. */
  function Matching<E>(s: Entries<E>, matcher: E -> bool): (r: seq<E>)
    ensures forall x :: x in r ==> exists e :: e in s && e.status != Removed && e.item == Some(x) && matcher(x)
  {
    if s == [] then []
    else
      var rest := Matching(s[1..], matcher);
      if s[0].status != Removed && s[0].item.Some? && matcher(s[0].item.value) then [s[0].item.value] + rest else rest
  }

  /** Every live entry whose item satisfies the matcher contributes its item. */
  lemma {:induction false} MatchingComplete<E>(s: Entries<E>, matcher: E -> bool, e: EntityStatus<E>)
    requires e in s && e.status != Removed && e.item.Some? && matcher(e.item.value)
    ensures e.item.value in Matching(s, matcher)
  {
    if s[0] != e {
      assert e in s[1..];
      MatchingComplete(s[1..], matcher, e);
    }
  }

  /** Every live entry whose item satisfies the matcher contributes its item, for all entries at once. */
  lemma {:induction false} MatchingCompleteAll<E>(s: Entries<E>, matcher: E -> bool)
    ensures forall e :: e in s && e.status != Removed && e.item.Some? && matcher(e.item.value) ==> e.item.value in Matching(s, matcher)
  {
    forall e | e in s && e.status != Removed && e.item.Some? && matcher(e.item.value)
      ensures e.item.value in Matching(s, matcher)
    {
      MatchingComplete(s, matcher, e);
    }
  }

  /** Items in strictly ascending id order. */
  ghost predicate IdsAscending<E>(idOf: E -> string, xs: seq<E>)
  {
    forall i, j :: 0 <= i < j < |xs| ==> Text.Below(idOf(xs[i]), idOf(xs[j]))
  }

  /** The items `find(predicate)` returns come in strictly ascending id order, as a TreeMap iterates. */
  lemma {:induction false} MatchingOrdered<E>(idOf: E -> string, s: Entries<E>, matcher: E -> bool)
    requires Ordered(s) && Consistent(idOf, s)
    ensures IdsAscending(idOf, Matching(s, matcher))
  {
    if s != [] {
      OrderedTail(s);
      MatchingOrdered(idOf, s[1..], matcher);
      var rest := Matching(s[1..], matcher);
      var r := Matching(s, matcher);
      if s[0].status != Removed && s[0].item.Some? && matcher(s[0].item.value) {
        assert r == [s[0].item.value] + rest;
        forall i, j | 0 <= i < j < |r|
          ensures Text.Below(idOf(r[i]), idOf(r[j]))
        {
          assert r[j] == rest[j - 1] && r[j] in rest;
          if i > 0 {
            assert r[i] == rest[i - 1];
          } else {
            var e :| e in s[1..] && e.status != Removed && e.item == Some(r[j]) && matcher(r[j]);
            assert e in s && s[0] in s;
            assert idOf(r[j]) == e.id && idOf(r[0]) == s[0].id;
            assert Text.Below(s[0].id, e.id);
          }
        }
      }
    }
  }

  // ---------------------------------------------------------------- the unit of work

  /** The ids of the removed entries. */
  function RemovedIds<E>(s: Entries<E>): (r: set<string>)
  {
    if s == [] then {}
    else RemovedIds(s[..|s| - 1]) + (if s[|s| - 1].status == Removed then {s[|s| - 1].id} else {})
  }

  /** For every loaded entry whose item the manager reports modified: bump its version, then update it
      against the version recorded at attach time. */
  function UpdateCalls<E>(s: Entries<E>, isModified: E -> bool): (calls: seq<Call<E>>)
  {
    if s == [] then []
    else
      var e := s[|s| - 1];
      UpdateCalls(s[..|s| - 1], isModified)
        + (if e.status == Loaded && e.item.Some? && isModified(e.item.value)
           then [IncrementVersion(e.item.value), Update(e.item.value, e.version)] else [])
  }

  /** An insert for every added entry. */
  function InsertCalls<E>(s: Entries<E>): (calls: seq<Call<E>>)
  {
    if s == [] then []
    else
      var e := s[|s| - 1];
      InsertCalls(s[..|s| - 1]) + (if e.status == Added && e.item.Some? then [Insert(e.item.value)] else [])
  }

  /** Everything `commit` asks of the view manager, in order: one delete, the updates, the inserts. */
  function CommitCalls<E>(s: Entries<E>, isModified: E -> bool): (calls: seq<Call<E>>)
  {
    [Delete(RemovedIds(s))] + UpdateCalls(s, isModified) + InsertCalls(s)
  }

  lemma {:induction false} RemovedIdsMeaning<E>(s: Entries<E>)
    ensures forall id :: id in RemovedIds(s) <==> exists e :: e in s && e.status == Removed && e.id == id
  {
    if s != [] {
      var init := s[..|s| - 1];
      RemovedIdsMeaning(init);
      assert s == init + [s[|s| - 1]];
    }
  }

  /** Calls in pairs: a version bump at each even position, followed by the update of that same item. */
  ghost predicate BumpThenUpdate<E>(u: seq<Call<E>>)
  {
    && |u| % 2 == 0
    && forall i {:trigger u[i]} :: 0 <= i < |u| ==>
         && (i % 2 == 0 <==> u[i].IncrementVersion?)
         && (i % 2 == 1 ==> u[i].Update? && u[i - 1] == IncrementVersion(u[i].item))
  }

  /** The update calls come in pairs: every update is preceded by the version bump of its item. */
  lemma {:induction false} UpdateCallsPaired<E>(s: Entries<E>, isModified: E -> bool)
    ensures BumpThenUpdate(UpdateCalls(s, isModified))
  {
    if s != [] {
      var init := s[..|s| - 1];
      var e := s[|s| - 1];
      UpdateCallsPaired(init, isModified);
      var before := UpdateCalls(init, isModified);
      var u := UpdateCalls(s, isModified);
      if e.status == Loaded && e.item.Some? && isModified(e.item.value) {
        assert u == before + [IncrementVersion(e.item.value), Update(e.item.value, e.version)];
        assert |u| % 2 == 0;
        forall i | 0 <= i < |u|
          ensures (i % 2 == 0 <==> u[i].IncrementVersion?)
          ensures i % 2 == 1 ==> u[i].Update? && u[i - 1] == IncrementVersion(u[i].item)
        {
          if i < |before| {
            assert u[i] == before[i];
            if i % 2 == 1 {
              assert u[i - 1] == before[i - 1];
            }
          }
        }
      } else {
        assert u == before;
      }
    }
  }

  /** Every update is of a modified loaded entry, with the version recorded for it, and every such
      entry is updated. */
  lemma {:induction false} UpdateCallsMeaning<E>(s: Entries<E>, isModified: E -> bool)
    ensures forall c :: c in UpdateCalls(s, isModified) ==> c.IncrementVersion? || c.Update?
    ensures forall x, v :: Update(x, v) in UpdateCalls(s, isModified) <==>
      exists e :: e in s && e.status == Loaded && e.item == Some(x) && isModified(x) && e.version == v
  {
    if s != [] {
      var init := s[..|s| - 1];
      var e := s[|s| - 1];
      UpdateCallsMeaning(init, isModified);
      assert s == init + [e];
    }
  }

  /** Exactly the items of the added entries are inserted. */
  lemma {:induction false} InsertCallsMeaning<E>(s: Entries<E>)
    ensures forall c :: c in InsertCalls(s) ==> c.Insert?
    ensures forall x :: Insert(x) in InsertCalls(s) <==> exists e :: e in s && e.status == Added && e.item == Some(x)
  {
    if s != [] {
      var init := s[..|s| - 1];
      InsertCallsMeaning(init);
      assert s == init + [s[|s| - 1]];
    }
  }

  /** The added entry an insert call comes from. */
  lemma {:induction false} InsertedEntry<E>(s: Entries<E>, x: E) returns (e: EntityStatus<E>)
    requires Insert(x) in InsertCalls(s)
    ensures e in s && e.status == Added && e.item == Some(x)
  {
    InsertCallsMeaning(s);
    e :| e in s && e.status == Added && e.item == Some(x);
  }

  /** The order `commit` keeps: the delete of all removed ids comes first and only once; every update
      is preceded by the version bump of its item; all inserts come after every update. */
  lemma {:induction false} CommitOrder<E>(s: Entries<E>, isModified: E -> bool)
    ensures var calls := CommitCalls(s, isModified);
      && calls[0] == Delete(RemovedIds(s))
      && (forall i :: 0 < i < |calls| ==> !calls[i].Delete?)
      && (forall i :: 0 < i < |calls| && calls[i].Update? ==> calls[i - 1] == IncrementVersion(calls[i].item))
      && (forall i, j :: 0 <= i < j < |calls| && calls[i].Insert? ==> calls[j].Insert?)
  {
    var u := UpdateCalls(s, isModified);
    var n := InsertCalls(s);
    var calls := CommitCalls(s, isModified);
    UpdateCallsPaired(s, isModified);
    InsertCallsMeaning(s);
    forall i | 1 <= i < 1 + |u|
      ensures calls[i] == u[i - 1] && (calls[i].IncrementVersion? || calls[i].Update?)
    {
      assert calls[i] == u[i - 1];
      var k := i - 1;
      assert 0 <= k < |u|;
      assert (k % 2 == 0 <==> u[k].IncrementVersion?);
      if k % 2 == 1 {
        assert u[k].Update?;
      }
    }
    assert forall i :: 1 + |u| <= i < |calls| ==> calls[i] == n[i - 1 - |u|] && calls[i] in n;
    forall i | 0 < i < |calls| && calls[i].Update?
      ensures calls[i - 1] == IncrementVersion(calls[i].item)
    {
      assert i - 1 < |u|;
      assert u[i - 2] == IncrementVersion(u[i - 1].item);
    }
  }

  /** What `commit` deletes, updates and inserts: the removed ids; the modified loaded items, each
      with its recorded version; the added items. */
  lemma {:induction false} CommitContents<E>(s: Entries<E>, isModified: E -> bool)
    ensures var calls := CommitCalls(s, isModified);
      && (forall ids :: Delete(ids) in calls <==> ids == RemovedIds(s))
      && (forall x, v :: Update(x, v) in calls <==>
            exists e :: e in s && e.status == Loaded && e.item == Some(x) && isModified(x) && e.version == v)
      && (forall x :: Insert(x) in calls <==> exists e :: e in s && e.status == Added && e.item == Some(x))
  {
    var u := UpdateCalls(s, isModified);
    var n := InsertCalls(s);
    UpdateCallsMeaning(s, isModified);
    InsertCallsMeaning(s);
    var calls := CommitCalls(s, isModified);
    assert forall c :: c in calls <==> c == Delete(RemovedIds(s)) || c in u || c in n;
  }

  // ---------------------------------------------------------------- the session object

  class Session<E(==)> {
    /** `getId()` and `getVersion()` of the entities. */
    const idOf: E -> string
    const versionOf: E -> int
    var entities: Entries<E>

    ghost predicate Valid()
      reads this
    {
      Ordered(entities) && Consistent(idOf, entities)
    }

    /** The TreeMap as a map. */
    function Model(): Model<E>
      reads this
    {
      ToMap(entities)
    }

    constructor (idOf: E -> string, versionOf: E -> int)
      ensures Valid()
      ensures this.idOf == idOf && this.versionOf == versionOf && entities == [] && Model() == map[]
    {
      this.idOf := idOf;
      this.versionOf := versionOf;
      entities := [];
    }

    /** `add(entity)`. */
    method Add(entity: E)
      requires Valid()
      modifies this
      ensures Valid()
      ensures entities == Put(old(entities), AddedEntry(idOf, entity))
      ensures Model() == old(Model())[idOf(entity) := AddedEntry(idOf, entity)]
    {
      PutOrdered(entities, AddedEntry(idOf, entity));
      PutModel(entities, AddedEntry(idOf, entity));
      entities := Put(entities, AddedEntry(idOf, entity));
    }

    /** `addLoadedObject(entity, version)`: the version argument is not used. */
    method AddLoadedObject(entity: E, version: int)
      requires Valid()
      modifies this
      ensures Valid()
      ensures entities == Put(old(entities), LoadedEntry(idOf, versionOf, entity))
      ensures Model() == old(Model())[idOf(entity) := LoadedEntry(idOf, versionOf, entity)]
    {
      PutOrdered(entities, LoadedEntry(idOf, versionOf, entity));
      PutModel(entities, LoadedEntry(idOf, versionOf, entity));
      entities := Put(entities, LoadedEntry(idOf, versionOf, entity));
    }

    /** `addRemovedObject(id)`: a tracked entry keeps its item and version and becomes REMOVED; an
        untracked id gets a REMOVED entry without an item. */
    method AddRemovedObject(id: string)
      requires Valid()
      modifies this
      ensures Valid()
      ensures entities == Put(old(entities), RemovedEntry(old(Model()), id))
      ensures Model() == old(Model())[id := RemovedEntry(old(Model()), id)]
    {
      var entry := RemovedEntry(Model(), id);
      if id in Model() {
        ToMapKeys(entities, id);
        var e :| e in entities && e.id == id;
        ToMapHolds(entities, e);
      }
      PutOrdered(entities, entry);
      PutModel(entities, entry);
      entities := Put(entities, entry);
    }

    /** `find(id)`: ObjectDeletedException (Deleted) exactly when the id's entry is REMOVED, null exactly
        when the id is untracked, and otherwise the attached item itself. */
    function Find(id: string): (r: Lookup<E>)
      requires Valid()
      reads this
      ensures r == FindEntry(Model(), id)
      ensures r == Deleted <==> exists e :: e in entities && e.id == id && e.status == Removed
      ensures r == Found(None) <==> forall e :: e in entities ==> e.id != id
      ensures forall e :: e in entities && e.id == id && e.status != Removed ==> r == Found(e.item)
    {
      FindEntryMeaning(idOf, entities, id);
      FindEntry(ToMap(entities), id)
    }

    /** `find(matcher)`: exactly the items of the entries that are not removed and satisfy the
        matcher, in ascending id order. */
    function FindMatching(matcher: E -> bool): (r: seq<E>)
      requires Valid()
      reads this
      ensures r == Matching(entities, matcher)
      ensures forall x :: x in r ==> exists e :: e in entities && e.status != Removed && e.item == Some(x) && matcher(x)
      ensures forall e :: e in entities && e.status != Removed && e.item.Some? && matcher(e.item.value) ==> e.item.value in r
      ensures IdsAscending(idOf, r)
    {
      MatchingCompleteAll(entities, matcher);
      MatchingOrdered(idOf, entities, matcher);
      Matching(entities, matcher)
    }

    /** `commit()`: collects the removed ids, then walks the entries for the updates and again for the
        inserts; the entries themselves stay as they are. */
    method Commit(isModified: E -> bool) returns (calls: seq<Call<E>>)
      ensures calls == CommitCalls(entities, isModified)
    {
      var removed: set<string> := {};
      var i := 0;
      while i < |entities|
        invariant 0 <= i <= |entities|
        invariant removed == RemovedIds(entities[..i])
      {
        assert entities[..i + 1][..i] == entities[..i];
        if entities[i].status == Removed {
          removed := removed + {entities[i].id};
        }
        i := i + 1;
      }
      assert entities[..i] == entities;
      calls := [Delete(removed)];

      var updates: seq<Call<E>> := [];
      i := 0;
      while i < |entities|
        invariant 0 <= i <= |entities|
        invariant updates == UpdateCalls(entities[..i], isModified)
      {
        assert entities[..i + 1][..i] == entities[..i];
        var e := entities[i];
        if e.status == Loaded && e.item.Some? && isModified(e.item.value) {
          updates := updates + [IncrementVersion(e.item.value), Update(e.item.value, e.version)];
        }
        i := i + 1;
      }
      assert entities[..i] == entities;
      calls := calls + updates;

      var inserts: seq<Call<E>> := [];
      i := 0;
      while i < |entities|
        invariant 0 <= i <= |entities|
        invariant inserts == InsertCalls(entities[..i])
      {
        assert entities[..i + 1][..i] == entities[..i];
        var e := entities[i];
        if e.status == Added && e.item.Some? {
          inserts := inserts + [Insert(e.item.value)];
        }
        i := i + 1;
      }
      assert entities[..i] == entities;
      calls := calls + inserts;
    }
  }

  // ---------------------------------------------------------------- what the operations promise

  /** After `add(x)`, `find` of x's id returns that very item; the other ids are looked up as before. */
  lemma {:induction false} FindAfterAdd<E>(idOf: E -> string, s: Entries<E>, x: E, id: string)
    ensures FindEntry(ToMap(Put(s, AddedEntry(idOf, x))), id)
         == if id == idOf(x) then Found(Some(x)) else FindEntry(ToMap(s), id)
  {
    PutModel(s, AddedEntry(idOf, x));
  }

  /** After `addLoadedObject(x, _)`, `find` of x's id returns that very item. */
  lemma {:induction false} FindAfterLoad<E>(idOf: E -> string, versionOf: E -> int, s: Entries<E>, x: E, id: string)
    ensures FindEntry(ToMap(Put(s, LoadedEntry(idOf, versionOf, x))), id)
         == if id == idOf(x) then Found(Some(x)) else FindEntry(ToMap(s), id)
  {
    PutModel(s, LoadedEntry(idOf, versionOf, x));
  }

  /** After `addRemovedObject(id)`, `find(id)` throws; the other ids are looked up as before, and the
      removed entry keeps the item and version it had. */
  lemma {:induction false} FindAfterRemove<E>(s: Entries<E>, id: string, other: string)
    ensures var m := ToMap(Put(s, RemovedEntry(ToMap(s), id)));
      && FindEntry(m, id) == Deleted
      && (id in ToMap(s) ==> m[id].item == ToMap(s)[id].item && m[id].version == ToMap(s)[id].version)
      && (other != id ==> FindEntry(m, other) == FindEntry(ToMap(s), other))
  {
    var before := ToMap(s);
    var entry := RemovedEntry(before, id);
    PutModel(s, entry);
    var m := ToMap(Put(s, entry));
    assert m == before[id := entry];
    assert id in m && m[id] == entry && entry.status == Removed;
    if other != id {
      assert (other in m <==> other in before) && (other in m ==> m[other] == before[other]);
    }
  }

  /** `find(matcher)` returns exactly the items of the live entries that satisfy the matcher. */
  lemma {:induction false} MatchingMeaning<E>(s: Entries<E>, matcher: E -> bool, x: E)
    ensures x in Matching(s, matcher) <==> exists e :: e in s && e.status != Removed && e.item == Some(x) && matcher(x)
  {
    if e :| e in s && e.status != Removed && e.item == Some(x) && matcher(x) {
      MatchingComplete(s, matcher, e);
    }
  }
}
