/**
 * What a successful save stores for the three ways the controllers write a
 * row, and the delete action the company and agency controllers share.
 */
module Crud {
  import opened Wrappers
  import opened Clock
  import opened Entities
  import opened Http
  import opened Persistence
  import Repository

  /** A row added in a request, as the save stores it: created by the actor at `now`. */
  function CreatedRow(e: Entity, now: DateTime, actor: Option<UserId>): (r: Entity)
    ensures r.base.id == e.base.id && KindOf(r.data) == KindOf(e.data)
  {
    Entity(AuditBase(Added, e.base, now, actor), e.data)
  }

  /** A loaded row given new values in a request, as the save stores it: updated by the actor at `now`. */
  function UpdatedRow(e: Entity, newData: Data, now: DateTime, actor: Option<UserId>): (r: Entity)
    ensures r.base.id == e.base.id
  {
    Entity(AuditBase(Modified, e.base, now, actor), newData)
  }

  /**
   * A row deleted in a request, as the save stores it. Either way the row
   * stays, flagged deleted at `now`, with its data intact. The hard path
   * (`Remove`) reaches the save as a delete and is stamped with the deleting
   * user; the soft path reaches it as an update and is stamped as updated,
   * its `DeletedBy` left as it was.
   */
  function DeletedRow(e: Entity, hard: bool, now: DateTime, actor: Option<UserId>): (r: Entity)
    ensures r.base.id == e.base.id && r.data == e.data
    ensures r.base.isDeleted && r.base.deletedAt == Some(now)
    ensures r.base.createdAt == e.base.createdAt && r.base.createdBy == e.base.createdBy
    ensures hard ==> r.base.deletedBy == actor && r.base.updatedAt == e.base.updatedAt && r.base.updatedBy == e.base.updatedBy
    ensures !hard ==> r.base.deletedBy == e.base.deletedBy && r.base.updatedAt == Some(now) && r.base.updatedBy == actor
  {
    if hard then Entity(AuditBase(Deleted, e.base, now, actor), e.data)
    else Entity(AuditBase(Modified, e.base.(isDeleted := true, deletedAt := Some(now)), now, actor), e.data)
  }

  /**
   * After a delete of either kind the row is still stored, with its data,
   * but no lookup finds it any more; every other row is as it was.
   */
  lemma DeleteKeepsRowHidden(t: Table, kind: Kind, id: Guid, hard: bool, now: DateTime, actor: Option<UserId>)
    requires t.WellFormed() && Visible(t, kind, id)
    ensures var t' := t.Put(DeletedRow(t.rows[id], hard, now, actor));
      && t'.WellFormed() && t'.rows.Keys == t.rows.Keys && t'.order == t.order
      && t'.rows[id].data == t.rows[id].data
      && !Visible(t', kind, id)
      && Repository.GetById(t', kind, id).None?
      && t'.rows[id] !in Repository.Query(t', kind, None)
      && (forall other :: other in t.rows && other != id ==> t'.rows[other] == t.rows[other])
  {
    var t' := t.Put(DeletedRow(t.rows[id], hard, now, actor));
    Repository.GetByIdFindsVisible(t', kind, id);
    Repository.QueryHidesDeleted(t', kind, None, id);
  }

  /**
   * `Delete(id, hard)`: a row that lookups cannot find is NotFound and
   * nothing is saved; otherwise it is removed (`hard`) or soft-deleted,
   * the change is saved and the answer is NoContent.
   */
  method Delete(db: Database, kind: Kind, id: Guid, hard: bool, actor: Option<UserId>, now: DateTime)
    returns (r: ActionResult<()>)
    requires db.Valid()
    modifies db
    ensures db.Valid()
    ensures !Visible(old(db.table), kind, id) ==> r == NotFound && db.table == old(db.table)
    ensures Visible(old(db.table), kind, id) ==>
      r == NoContent && db.table == old(db.table).Put(DeletedRow(old(db.table).rows[id], hard, now, actor))
  {
    var ctx := new AppDbContext(db, actor);
    var repo := new Repository.GenericRepository(ctx, kind);
    var entity := repo.GetByIdAsync(id);
    if entity.None? {
      return NotFound;
    }
    ghost var t := ctx.table;
    if hard {
      ctx.Remove(id);
      HardDeleteSaved(t, id, now, actor);
    } else {
      repo.SoftDeleteAsync(id, now);
      SoftDeleteSaved(t, id, now, actor);
    }
    var ok := ctx.SaveChanges(now);
    assert ok;
    r := NoContent;
  }

  /** The save of a hard delete: the row, marked Deleted, is stamped as deleted and kept. */
  lemma HardDeleteSaved(t: Table, id: Guid, now: DateTime, actor: Option<UserId>)
    requires t.WellFormed() && id in t.rows
    ensures Audited(t, map[][id := Deleted], now, actor) == t.Put(DeletedRow(t.rows[id], true, now, actor))
  {
    assert map[][id := Deleted] == map[id := Deleted];
    AuditedSingle(t, id, Deleted, now, actor);
  }

  /**
   * The save of a soft delete: the row, flagged and marked Modified, is
   * stamped as updated; the flag changes no constraint.
   */
  lemma SoftDeleteSaved(t: Table, id: Guid, now: DateTime, actor: Option<UserId>)
    requires t.WellFormed() && id in t.rows
    ensures var e := t.rows[id];
      var soft := t.Put(Entity(e.base.(isDeleted := true, deletedAt := Some(now)), e.data));
      && (Committable(soft.rows) <==> Committable(t.rows))
      && Audited(soft, map[][id := Modified], now, actor) == t.Put(DeletedRow(e, false, now, actor))
  {
    var e := t.rows[id];
    var soft := Entity(e.base.(isDeleted := true, deletedAt := Some(now)), e.data);
    assert map[][id := Modified] == map[id := Modified];
    SameDataSameConstraints(t.Put(soft).rows, t.rows);
    AuditedSingle(t.Put(soft), id, Modified, now, actor);
    assert Entity(AuditBase(Modified, t.Put(soft).rows[id].base, now, actor), t.Put(soft).rows[id].data) == DeletedRow(e, false, now, actor);
    PutThenPut(t, soft, DeletedRow(e, false, now, actor));
  }

  /** A row inserted and then overwritten is the overwriting row inserted. */
  lemma InsertThenPut(t: Table, e: Entity, e': Entity)
    requires e.base.id !in t.rows && e'.base.id == e.base.id
    ensures t.Insert(e).Put(e') == t.Insert(e')
  {
    assert t.Insert(e).Put(e').rows == t.Insert(e').rows;
  }

  /** A row overwritten twice is the second row put once. */
  lemma PutThenPut(t: Table, e: Entity, e': Entity)
    requires e.base.id in t.rows && e'.base.id == e.base.id
    ensures t.Put(e).Put(e') == t.Put(e')
  {
    assert t.Put(e).Put(e').rows == t.Put(e').rows;
  }

  /**
   * `AddAsync` of a new entity followed by `SaveChangesAsync`, in a fresh
   * unit of work. The save succeeds exactly when the database accepts the
   * new row, and then stores it stamped as created by the actor; a failed
   * save leaves the database as it was.
   */
  method Create(db: Database, e: Entity, actor: Option<UserId>, now: DateTime) returns (ok: bool)
    requires db.Valid() && e.base.id !in db.table.rows
    modifies db
    ensures db.Valid()
    ensures ok <==> Committable(old(db.table).Insert(e).rows)
    ensures ok ==> db.table == old(db.table).Insert(CreatedRow(e, now, actor))
    ensures !ok ==> db.table == old(db.table)
  {
    var ctx := new AppDbContext(db, actor);
    var repo := new Repository.GenericRepository(ctx, KindOf(e.data));
    var added := repo.AddAsync(e);
    ghost var t := ctx.table;
    AuditedSingle(t, e.base.id, Added, now, actor);
    InsertThenPut(old(db.table), e, CreatedRow(e, now, actor));
    ok := ctx.SaveChanges(now);
  }

  /**
   * `GetByIdAsync`, values copied onto the loaded entity, `UpdateAsync` and
   * `SaveChangesAsync`, in a fresh unit of work. `patch` is the copy: it
   * gives the loaded entity's data, with the request's values, and keeps its
   * table. An id that lookups cannot find is NotFound; a save the database
   * refuses is a Fault and leaves the database as it was; otherwise the row
   * is stored with the new data, stamped as updated by the actor.
   */
  method Update(db: Database, kind: Kind, id: Guid, patch: Data -> Data, actor: Option<UserId>, now: DateTime)
    returns (r: ActionResult<Entity>)
    requires db.Valid()
    requires forall d: Data :: KindOf(patch(d)) == KindOf(d)
    modifies db
    ensures db.Valid()
    ensures !Visible(old(db.table), kind, id) ==> r == NotFound && db.table == old(db.table)
    ensures Visible(old(db.table), kind, id) ==>
      var e := old(db.table).rows[id];
      if Committable(old(db.table).Put(Entity(e.base, patch(e.data))).rows)
      then r == Ok(UpdatedRow(e, patch(e.data), now, actor)) && db.table == old(db.table).Put(r.value)
      else r.Fault? && db.table == old(db.table)
  {
    var ctx := new AppDbContext(db, actor);
    var repo := new Repository.GenericRepository(ctx, kind);
    var entity := repo.GetByIdAsync(id);
    if entity.None? {
      return NotFound;
    }
    var e := entity.value;
    var changed := Entity(e.base, patch(e.data));
    repo.UpdateAsync(changed);
    ghost var t := ctx.table;
    AuditedSingle(t, id, Modified, now, actor);
    PutThenPut(old(db.table), changed, UpdatedRow(e, patch(e.data), now, actor));
    var ok := ctx.SaveChanges(now);
    if !ok {
      return Fault("DbUpdateException");
    }
    r := Ok(ctx.table.rows[id]);
  }
}
