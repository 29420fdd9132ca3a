/** The generic repository: one entity table seen through the unit of work. */
module Repository {
  import opened Wrappers
  import opened Clock
  import opened Entities
  import opened Persistence

  /** The rows of `kind` named by `ids`, in that order, that pass the query filter and `keep`. */
  function Select(t: Table, ids: seq<Guid>, kind: Kind, keep: Entity -> bool): (r: seq<Entity>)
    ensures |r| <= |ids|
  {
    if ids == [] then []
    else
      var rest := Select(t, ids[1..], kind, keep);
      if Visible(t, kind, ids[0]) && keep(t.rows[ids[0]]) then [t.rows[ids[0]]] + rest else rest
  }

  function KeepAll(e: Entity): bool {
    true
  }

  /** `Query(filter)`: the filtered set, narrowed by `filter` when one is given. */
  function Query(t: Table, kind: Kind, filter: Option<Entity -> bool>): (r: seq<Entity>)
    ensures |r| <= |t.order|
  {
    Select(t, t.order, kind, filter.GetOr(KeepAll))
  }

  /** `GetByIdAsync`: the first filtered row whose id is `id`. */
  function GetById(t: Table, kind: Kind, id: Guid): (r: Option<Entity>)
  {
    var hits := Select(t, t.order, kind, (e: Entity) => e.base.id == id);
    if hits == [] then None else Some(hits[0])
  }

  lemma {:induction false} SelectMembers(t: Table, ids: seq<Guid>, kind: Kind, keep: Entity -> bool)
    requires t.WellFormed()
    ensures forall e :: e in Select(t, ids, kind, keep) ==>
      e.base.id in ids && Visible(t, kind, e.base.id) && t.rows[e.base.id] == e && keep(e)
    ensures forall id :: id in ids && Visible(t, kind, id) && keep(t.rows[id]) ==> t.rows[id] in Select(t, ids, kind, keep)
  {
    if ids != [] {
      SelectMembers(t, ids[1..], kind, keep);
    }
  }

  /**
   * `Query(f)` returns exactly the rows of the table that are not
   * soft-deleted and satisfy `f`; `Query(null)` returns every row that is
   * not soft-deleted.
   */
  lemma QueryMembership(t: Table, kind: Kind, filter: Option<Entity -> bool>)
    requires t.WellFormed()
    ensures forall e :: e in Query(t, kind, filter) ==>
      Visible(t, kind, e.base.id) && t.rows[e.base.id] == e && (filter.Some? ==> filter.value(e))
    ensures forall id :: Visible(t, kind, id) && (filter.Some? ==> filter.value(t.rows[id])) ==>
      t.rows[id] in Query(t, kind, filter)
  {
    SelectMembers(t, t.order, kind, filter.GetOr(KeepAll));
  }

  /** A soft-deleted row is never returned, whatever the filter. */
  lemma QueryHidesDeleted(t: Table, kind: Kind, filter: Option<Entity -> bool>, id: Guid)
    requires t.WellFormed() && id in t.rows && t.rows[id].base.isDeleted
    ensures t.rows[id] !in Query(t, kind, filter)
  {
    QueryMembership(t, kind, filter);
  }

  /** `GetByIdAsync` finds a row exactly when the row is there, of this table and not soft-deleted. */
  lemma GetByIdFindsVisible(t: Table, kind: Kind, id: Guid)
    requires t.WellFormed()
    ensures GetById(t, kind, id).Some? <==> Visible(t, kind, id)
    ensures GetById(t, kind, id).Some? ==> GetById(t, kind, id).value == t.rows[id]
  {
    var keep := (e: Entity) => e.base.id == id;
    SelectMembers(t, t.order, kind, keep);
    if Visible(t, kind, id) {
      assert t.rows[id] in Select(t, t.order, kind, keep);
    }
  }

  /** `GenericRepository<T>`: the operations on one table of a unit of work. */
  class GenericRepository {
    const db: AppDbContext
    const kind: Kind

    constructor (db: AppDbContext, kind: Kind)
      ensures this.db == db && this.kind == kind
    {
      this.db := db;
      this.kind := kind;
    }

    /** `AddAsync`: the entity is tracked as Added and handed back unchanged. */
    method AddAsync(e: Entity) returns (r: Entity)
      requires db.Valid() && e.base.id !in db.table.rows && KindOf(e.data) == kind
      modifies db
      ensures db.Valid() && r == e
      ensures db.table == old(db.table).Insert(e) && db.entries == old(db.entries)[e.base.id := Added]
    {
      db.Add(e);
      r := e;
    }

    method GetByIdAsync(id: Guid) returns (r: Option<Entity>)
      requires db.Valid()
      ensures r == GetById(db.table, kind, id)
      ensures r.Some? <==> Visible(db.table, kind, id)
      ensures r.Some? ==> r.value == db.table.rows[id]
    {
      GetByIdFindsVisible(db.table, kind, id);
      r := GetById(db.table, kind, id);
    }

    /** `UpdateAsync`: the entity is marked modified; no field is changed. */
    method UpdateAsync(e: Entity)
      requires db.Valid() && e.base.id in db.table.rows
      modifies db
      ensures db.Valid()
      ensures db.table == old(db.table).Put(e) && db.table.rows[e.base.id] == e
      ensures db.entries == old(db.entries)[e.base.id :=
        if e.base.id in old(db.entries) && old(db.entries)[e.base.id] == Added then Added else Modified]
    {
      db.Update(e);
    }

    /**
     * `SoftDeleteAsync`: a row found by id is flagged deleted with the
     * deletion time and marked modified; `DeletedBy` is left as it was.
     * An id with no row leaves everything alone.
     */
    method SoftDeleteAsync(id: Guid, now: DateTime)
      requires db.Valid()
      modifies db
      ensures db.Valid()
      ensures !Visible(old(db.table), kind, id) ==> db.table == old(db.table) && db.entries == old(db.entries)
      ensures Visible(old(db.table), kind, id) ==>
        var e := old(db.table).rows[id];
        && db.table == old(db.table).Put(Entity(e.base.(isDeleted := true, deletedAt := Some(now)), e.data))
        && db.entries == old(db.entries)[id := if id in old(db.entries) && old(db.entries)[id] == Added then Added else Modified]
    {
      var found := GetByIdAsync(id);
      if found.Some? {
        var e := found.value;
        UpdateAsync(Entity(e.base.(isDeleted := true, deletedAt := Some(now)), e.data));
      }
    }
  }
}
