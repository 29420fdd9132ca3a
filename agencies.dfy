/**
 * `AgencyController`: agencies listed and read by tenant, created and
 * updated by administrators and clients, deleted by administrators.
 */
module AgencyController {
  import opened Wrappers
  import opened Clock
  import opened Entities
  import opened Contracts
  import opened Http
  import opened Persistence
  import opened Identity
  import Repository
  import Crud

  function AgencyViews(es: seq<Entity>): (r: seq<AgencyDto>)
    requires forall i :: 0 <= i < |es| ==> es[i].data.AgencyData?
    ensures |r| == |es| && forall i :: 0 <= i < |es| ==> r[i] == AgencyView(es[i])
  {
    seq(|es|, i requires 0 <= i < |es| => AgencyView(es[i]))
  }

  /** The client's `Where(a => a.CompanyId == companyId)`. */
  function OfCompany(companyId: Guid): Entity -> bool {
    (e: Entity) => e.data.AgencyData? && e.data.agency.companyId == companyId
  }

  /** The shown list of a query on agencies holds exactly the visible agencies that pass the filter. */
  lemma ViewsOfQuery(t: Table, filter: Option<Entity -> bool>)
    requires t.WellFormed()
    ensures var all := Repository.Query(t, Agencies, filter);
      && (forall i :: 0 <= i < |all| ==> all[i].data.AgencyData?)
      && (forall d :: d in AgencyViews(all) <==>
            exists id :: Visible(t, Agencies, id) && (filter.Some? ==> filter.value(t.rows[id])) && d == AgencyView(t.rows[id]))
  {
    var all := Repository.Query(t, Agencies, filter);
    Repository.QueryMembership(t, Agencies, filter);
    assert forall i :: 0 <= i < |all| ==> all[i] in all;
    var items := AgencyViews(all);
    forall d | d in items
      ensures exists id :: Visible(t, Agencies, id) && (filter.Some? ==> filter.value(t.rows[id])) && d == AgencyView(t.rows[id])
    {
      var i :| 0 <= i < |items| && items[i] == d;
      var id := all[i].base.id;
      assert Visible(t, Agencies, id) && t.rows[id] == all[i];
    }
    forall d | exists id :: Visible(t, Agencies, id) && (filter.Some? ==> filter.value(t.rows[id])) && d == AgencyView(t.rows[id])
      ensures d in items
    {
      var id :| Visible(t, Agencies, id) && (filter.Some? ==> filter.value(t.rows[id])) && d == AgencyView(t.rows[id]);
      assert t.rows[id] in all;
      var i :| 0 <= i < |all| && all[i] == t.rows[id];
      assert items[i] == d;
    }
  }

  /**
   * `GetAll`: an administrator gets every agency, a client the agencies of
   * its own user's company (Forbid when its user has no company), anyone
   * else Forbid.
   */
  function GetAll(t: Table, um: UserManager, p: Principal): (r: ActionResult<seq<AgencyDto>>)
    reads um
    requires t.WellFormed()
    ensures IsInRole(p, Admin) ==> r.Ok?
    ensures !IsInRole(p, Admin) && IsInRole(p, Client) ==>
      (r == Forbid <==> um.GetUser(p).None? || um.GetUser(p).value.companyId.None?) && (r.Ok? || r == Forbid)
    ensures !IsInRole(p, Admin) && !IsInRole(p, Client) ==> r == Forbid
  {
    var current := um.GetUser(p);
    if IsInRole(p, Admin) then
      var all := Repository.Query(t, Agencies, None);
      ViewsOfQuery(t, None);
      Ok(AgencyViews(all))
    else if IsInRole(p, Client) then
      if current.None? || current.value.companyId.None? then Forbid
      else
        var list := Repository.Query(t, Agencies, Some(OfCompany(current.value.companyId.value)));
        ViewsOfQuery(t, Some(OfCompany(current.value.companyId.value)));
        Ok(AgencyViews(list))
    else Forbid
  }

  /**
   * What the lists hold: for an administrator every agency that is not
   * soft-deleted, for a client exactly those whose company is its user's.
   */
  lemma ListedAgencies(t: Table, um: UserManager, p: Principal)
    requires t.WellFormed() && GetAll(t, um, p).Ok?
    ensures IsInRole(p, Admin) ==> forall d :: d in GetAll(t, um, p).value <==>
      exists id :: Visible(t, Agencies, id) && d == AgencyView(t.rows[id])
    ensures !IsInRole(p, Admin) ==>
      && um.GetUser(p).Some? && um.GetUser(p).value.companyId.Some?
      && forall d :: d in GetAll(t, um, p).value <==>
           exists id :: Visible(t, Agencies, id) && t.rows[id].data.agency.companyId == um.GetUser(p).value.companyId.value
                        && d == AgencyView(t.rows[id])
  {
    if IsInRole(p, Admin) {
      ViewsOfQuery(t, None);
    } else {
      ViewsOfQuery(t, Some(OfCompany(um.GetUser(p).value.companyId.value)));
    }
  }

  /**
   * `GetById`: an agency that cannot be found is NotFound for every
   * caller; an administrator reads any agency, a client only those of its
   * own user's company; anyone else gets Forbid.
   */
  function GetById(t: Table, um: UserManager, p: Principal, id: Guid): (r: ActionResult<AgencyDto>)
    reads um
    requires t.WellFormed()
    ensures !Visible(t, Agencies, id) ==> r == NotFound
    ensures Visible(t, Agencies, id) && IsInRole(p, Admin) ==> r == Ok(AgencyView(t.rows[id]))
    ensures Visible(t, Agencies, id) && !IsInRole(p, Admin) ==>
      if IsInRole(p, Client) && um.GetUser(p).Some? && um.GetUser(p).value.companyId == Some(t.rows[id].data.agency.companyId)
      then r == Ok(AgencyView(t.rows[id]))
      else r == Forbid
  {
    var current := um.GetUser(p);
    Repository.GetByIdFindsVisible(t, Agencies, id);
    var agency := Repository.GetById(t, Agencies, id);
    if agency.None? then NotFound
    else if IsInRole(p, Admin) then Ok(AgencyView(agency.value))
    else if IsInRole(p, Client) then
      if current.None? || current.value.companyId != Some(agency.value.data.agency.companyId) then Forbid
      else Ok(AgencyView(agency.value))
    else Forbid
  }

  /** The name and address fit the agency's `[MaxLength]` columns. */
  predicate Fits(name: string, address: Option<string>) {
    |name| <= AgencyNameLength && (address.Some? ==> |address.value| <= AgencyAddressLength)
  }

  /** The entity `Create` maps the request onto. */
  function NewAgency(id: Guid, dto: AgencyCreateDto, now: DateTime): Entity {
    Entity(NewBase(id, now), AgencyData(Agency(dto.companyId, dto.name, dto.address)))
  }

  /**
   * `Create` (administrators and clients, for any company): the save fails
   * unless the name and address fit their columns and the company id names a
   * company row, which may be soft-deleted; otherwise the agency is stored, stamped as created by the actor.
   */
  method Create(db: Database, p: Principal, dto: AgencyCreateDto, id: Guid, actor: Option<UserId>, now: DateTime)
    returns (r: ActionResult<AgencyDto>)
    requires db.Valid() && id !in db.table.rows
    modifies db
    ensures db.Valid()
    ensures !Authorize(p, {Admin, Client}) ==> r == Denied(p) && db.table == old(db.table)
    ensures Authorize(p, {Admin, Client}) && !(Fits(dto.name, dto.address) && Resolves(old(db.table).rows, (Companies, dto.companyId))) ==>
      r.Fault? && db.table == old(db.table)
    ensures Authorize(p, {Admin, Client}) && Fits(dto.name, dto.address) && Resolves(old(db.table).rows, (Companies, dto.companyId)) ==>
      var row := Crud.CreatedRow(NewAgency(id, dto, now), now, actor);
      r == Ok(AgencyView(row)) && db.table == old(db.table).Insert(row)
  {
    if !Authorize(p, {Admin, Client}) {
      return Denied(p);
    }
    var entity := NewAgency(id, dto, now);
    CommitAfterInsert(db.table, entity);
    var ok := Crud.Create(db, entity, actor, now);
    if !ok {
      return Fault("DbUpdateException");
    }
    r := Ok(AgencyView(Crud.CreatedRow(entity, now, actor)));
  }

  /** `_mapper.Map(dto, entity)`: the request's name and address copied onto an agency; its company stays. */
  function Relabel(dto: AgencyUpdateDto, d: Data): (r: Data)
    ensures References(r) == References(d)
  {
    if d.AgencyData? then AgencyData(d.agency.(name := dto.name, address := dto.address)) else d
  }

  /**
   * `Update` (administrators and clients, of any agency): an agency that
   * cannot be found is NotFound; a name or address longer than its column
   * fails the save; otherwise the new name and address are stored, stamped
   * as updated by the actor. The company is kept, so no foreign key can fail.
   */
  method Update(db: Database, p: Principal, id: Guid, dto: AgencyUpdateDto, actor: Option<UserId>, now: DateTime)
    returns (r: ActionResult<AgencyDto>)
    requires db.Valid()
    modifies db
    ensures db.Valid()
    ensures !Authorize(p, {Admin, Client}) ==> r == Denied(p) && db.table == old(db.table)
    ensures Authorize(p, {Admin, Client}) && !Visible(old(db.table), Agencies, id) ==>
      r == NotFound && db.table == old(db.table)
    ensures Authorize(p, {Admin, Client}) && Visible(old(db.table), Agencies, id) ==>
      if !Fits(dto.name, dto.address) then r.Fault? && db.table == old(db.table)
      else
        var e := old(db.table).rows[id];
        var row := Crud.UpdatedRow(e, AgencyData(Agency(e.data.agency.companyId, dto.name, dto.address)), now, actor);
        r == Ok(AgencyView(row)) && db.table == old(db.table).Put(row)
  {
    if !Authorize(p, {Admin, Client}) {
      return Denied(p);
    }
    var patch := (d: Data) => Relabel(dto, d);
    if Visible(db.table, Agencies, id) {
      var e := db.table.rows[id];
      CommitAfterPut(db.table, Entity(e.base, patch(e.data)));
      assert forall ref :: ref in References(e.data) ==> Resolves(db.table.rows, ref);
    }
    var u := Crud.Update(db, Agencies, id, patch, actor, now);
    if u.NotFound? {
      return NotFound;
    }
    if u.Fault? {
      return Fault(u.message);
    }
    r := Ok(AgencyView(u.value));
  }

  /** `Delete` (administrators): a hard or soft delete of an agency. */
  method Delete(db: Database, p: Principal, id: Guid, hard: bool, actor: Option<UserId>, now: DateTime)
    returns (r: ActionResult<()>)
    requires db.Valid()
    modifies db
    ensures db.Valid()
    ensures !Authorize(p, {Admin}) ==> r == Denied(p) && db.table == old(db.table)
    ensures Authorize(p, {Admin}) && !Visible(old(db.table), Agencies, id) ==> r == NotFound && db.table == old(db.table)
    ensures Authorize(p, {Admin}) && Visible(old(db.table), Agencies, id) ==>
      r == NoContent && db.table == old(db.table).Put(Crud.DeletedRow(old(db.table).rows[id], hard, now, actor))
  {
    if !Authorize(p, {Admin}) {
      return Denied(p);
    }
    r := Crud.Delete(db, Agencies, id, hard, actor, now);
  }
}
