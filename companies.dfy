/**
 * `CompanyController`: companies listed and read by tenant, created and
 * updated by administrators and clients, deleted by administrators.
 */
module CompanyController {
  import opened Wrappers
  import opened Clock
  import opened Entities
  import opened Contracts
  import opened Http
  import opened Persistence
  import opened Identity
  import Repository
  import Crud

  /** `GetAll` answers with every company or with one. */
  datatype Listing<T> = All(items: seq<T>) | One(item: T)

  function CompanyViews(cs: seq<Entity>): (r: seq<CompanyDto>)
    requires forall i :: 0 <= i < |cs| ==> cs[i].data.CompanyData?
    ensures |r| == |cs| && forall i :: 0 <= i < |cs| ==> r[i] == CompanyView(cs[i])
  {
    seq(|cs|, i requires 0 <= i < |cs| => CompanyView(cs[i]))
  }

  /**
   * `GetAll`: an administrator gets every company; a client gets the
   * company of its own user, NotFound when that company cannot be found and
   * Forbid when its user has no company; anyone else gets Forbid.
   */
  function GetAll(t: Table, um: UserManager, p: Principal): (r: ActionResult<Listing<CompanyDto>>)
    reads um
    requires t.WellFormed()
    ensures IsInRole(p, Admin) ==> r.Ok? && r.value.All?
    ensures !IsInRole(p, Admin) && IsInRole(p, Client) ==>
      if um.GetUser(p).None? || um.GetUser(p).value.companyId.None? then r == Forbid
      else if Visible(t, Companies, um.GetUser(p).value.companyId.value)
      then r == Ok(One(CompanyView(t.rows[um.GetUser(p).value.companyId.value])))
      else r == NotFound
    ensures !IsInRole(p, Admin) && !IsInRole(p, Client) ==> r == Forbid
  {
    var current := um.GetUser(p);
    if IsInRole(p, Admin) then
      var all := Repository.Query(t, Companies, None);
      Repository.QueryMembership(t, Companies, None);
      Ok(All(CompanyViews(all)))
    else if IsInRole(p, Client) then
      if current.None? || current.value.companyId.None? then Forbid
      else
        var company := Repository.GetById(t, Companies, current.value.companyId.value);
        Repository.GetByIdFindsVisible(t, Companies, current.value.companyId.value);
        if company.None? then NotFound else Ok(One(CompanyView(company.value)))
    else Forbid
  }

  /** An administrator's list holds exactly the companies that are not soft-deleted. */
  lemma AdminListsVisibleCompanies(t: Table, um: UserManager, p: Principal)
    requires t.WellFormed() && IsInRole(p, Admin)
    ensures forall d :: d in GetAll(t, um, p).value.items <==>
      exists id :: Visible(t, Companies, id) && d == CompanyView(t.rows[id])
  {
    var all := Repository.Query(t, Companies, None);
    Repository.QueryMembership(t, Companies, None);
    var items := GetAll(t, um, p).value.items;
    assert items == CompanyViews(all);
    forall d | d in items
      ensures exists id :: Visible(t, Companies, id) && d == CompanyView(t.rows[id])
    {
      var i :| 0 <= i < |items| && items[i] == d;
      assert all[i] in all;
      var id := all[i].base.id;
      assert Visible(t, Companies, id) && t.rows[id] == all[i];
    }
    forall d | exists id :: Visible(t, Companies, id) && d == CompanyView(t.rows[id])
      ensures d in items
    {
      var id :| Visible(t, Companies, id) && d == CompanyView(t.rows[id]);
      assert t.rows[id] in all;
      var i :| 0 <= i < |all| && all[i] == t.rows[id];
      assert items[i] == d;
    }
  }

  /**
   * `GetById`: an administrator reads any company that can be found; a
   * client only the company of its own user, and is refused before the
   * lookup for any other id; anyone else gets Forbid.
   */
  function GetById(t: Table, um: UserManager, p: Principal, id: Guid): (r: ActionResult<CompanyDto>)
    reads um
    requires t.WellFormed()
    ensures IsInRole(p, Admin) ==>
      if Visible(t, Companies, id) then r == Ok(CompanyView(t.rows[id])) else r == NotFound
    ensures !IsInRole(p, Admin) && IsInRole(p, Client) ==>
      if um.GetUser(p).None? || um.GetUser(p).value.companyId != Some(id) then r == Forbid
      else if Visible(t, Companies, id) then r == Ok(CompanyView(t.rows[id]))
      else r == NotFound
    ensures !IsInRole(p, Admin) && !IsInRole(p, Client) ==> r == Forbid
  {
    var current := um.GetUser(p);
    Repository.GetByIdFindsVisible(t, Companies, id);
    if IsInRole(p, Admin) then
      var item := Repository.GetById(t, Companies, id);
      if item.None? then NotFound else Ok(CompanyView(item.value))
    else if IsInRole(p, Client) then
      if current.None? || current.value.companyId != Some(id) then Forbid
      else
        var item := Repository.GetById(t, Companies, id);
        if item.None? then NotFound else Ok(CompanyView(item.value))
    else Forbid
  }

  /** A caller that is not an administrator never reads a company other than its own user's. */
  lemma TenantSeesOwnCompanyOnly(t: Table, um: UserManager, p: Principal, id: Guid)
    requires t.WellFormed() && !IsInRole(p, Admin)
    ensures GetAll(t, um, p).Ok? ==>
      um.GetUser(p).Some? && um.GetUser(p).value.companyId.Some? && GetAll(t, um, p).value.item.id == um.GetUser(p).value.companyId.value
    ensures GetById(t, um, p, id).Ok? ==> um.GetUser(p).Some? && um.GetUser(p).value.companyId == Some(id)
  {
  }

  /** The entity `Create` maps the request onto: a fresh id, created now, with the given name and notes. */
  function NewCompany(id: Guid, dto: CompanyCreateDto, now: DateTime): Entity {
    Entity(NewBase(id, now), CompanyData(Company(dto.name, dto.notes)))
  }

  /**
   * `Create` (administrators and clients): a name longer than its column, or
   * already used by any company, even a deleted one, makes the save fail;
   * otherwise the company is stored, stamped as created by the actor.
   */
  method Create(db: Database, p: Principal, dto: CompanyCreateDto, id: Guid, actor: Option<UserId>, now: DateTime)
    returns (r: ActionResult<CompanyDto>)
    requires db.Valid() && id !in db.table.rows
    modifies db
    ensures db.Valid()
    ensures !Authorize(p, {Admin, Client}) ==> r == Denied(p) && db.table == old(db.table)
    ensures Authorize(p, {Admin, Client}) && (|dto.name| > CompanyNameLength || NameTaken(old(db.table).rows, dto.name, None)) ==>
      r.Fault? && db.table == old(db.table)
    ensures Authorize(p, {Admin, Client}) && |dto.name| <= CompanyNameLength && !NameTaken(old(db.table).rows, dto.name, None) ==>
      var row := Crud.CreatedRow(NewCompany(id, dto, now), now, actor);
      r == Ok(CompanyView(row)) && db.table == old(db.table).Insert(row)
  {
    if !Authorize(p, {Admin, Client}) {
      return Denied(p);
    }
    var entity := NewCompany(id, dto, now);
    CommitAfterInsert(db.table, entity);
    var ok := Crud.Create(db, entity, actor, now);
    if !ok {
      return Fault("DbUpdateException");
    }
    r := Ok(CompanyView(Crud.CreatedRow(entity, now, actor)));
  }

  /** A created company is found by id, with the request's name and notes and the actor as its creator. */
  lemma CreatedCompanyIsFound(t: Table, id: Guid, dto: CompanyCreateDto, actor: Option<UserId>, now: DateTime)
    requires t.WellFormed() && id !in t.rows
    ensures var t' := t.Insert(Crud.CreatedRow(NewCompany(id, dto, now), now, actor));
      && Repository.GetById(t', Companies, id) == Some(t'.rows[id])
      && t'.rows[id].data == CompanyData(Company(dto.name, dto.notes))
      && t'.rows[id].base.createdBy == actor && t'.rows[id].base.createdAt == now
  {
    var t' := t.Insert(Crud.CreatedRow(NewCompany(id, dto, now), now, actor));
    Repository.GetByIdFindsVisible(t', Companies, id);
  }

  /** `_mapper.Map(dto, entity)`: the request's name and notes copied onto a company. */
  function Rename(dto: CompanyUpdateDto, d: Data): Data {
    if d.CompanyData? then CompanyData(d.company.(name := dto.name, notes := dto.notes)) else d
  }

  /**
   * `Update` (administrators and clients, of any company): a company that
   * cannot be found is NotFound; a name longer than its column, or one
   * another company already has, fails the save; otherwise the new name and notes are stored, stamped as
   * updated by the actor.
   */
  method Update(db: Database, p: Principal, id: Guid, dto: CompanyUpdateDto, actor: Option<UserId>, now: DateTime)
    returns (r: ActionResult<CompanyDto>)
    requires db.Valid()
    modifies db
    ensures db.Valid()
    ensures !Authorize(p, {Admin, Client}) ==> r == Denied(p) && db.table == old(db.table)
    ensures Authorize(p, {Admin, Client}) && !Visible(old(db.table), Companies, id) ==>
      r == NotFound && db.table == old(db.table)
    ensures Authorize(p, {Admin, Client}) && Visible(old(db.table), Companies, id) ==>
      if |dto.name| > CompanyNameLength || NameTaken(old(db.table).rows, dto.name, Some(id)) then r.Fault? && db.table == old(db.table)
      else
        var row := Crud.UpdatedRow(old(db.table).rows[id], CompanyData(Company(dto.name, dto.notes)), now, actor);
        r == Ok(CompanyView(row)) && db.table == old(db.table).Put(row)
  {
    if !Authorize(p, {Admin, Client}) {
      return Denied(p);
    }
    var patch := (d: Data) => Rename(dto, d);
    if Visible(db.table, Companies, id) {
      var e := db.table.rows[id];
      CommitAfterPut(db.table, Entity(e.base, patch(e.data)));
    }
    var u := Crud.Update(db, Companies, id, patch, actor, now);
    if u.NotFound? {
      return NotFound;
    }
    if u.Fault? {
      return Fault(u.message);
    }
    r := Ok(CompanyView(u.value));
  }

  /** `Delete` (administrators): a hard or soft delete of a company, shared with the agency controller. */
  method Delete(db: Database, p: Principal, id: Guid, hard: bool, actor: Option<UserId>, now: DateTime)
    returns (r: ActionResult<()>)
    requires db.Valid()
    modifies db
    ensures db.Valid()
    ensures !Authorize(p, {Admin}) ==> r == Denied(p) && db.table == old(db.table)
    ensures Authorize(p, {Admin}) && !Visible(old(db.table), Companies, id) ==> r == NotFound && db.table == old(db.table)
    ensures Authorize(p, {Admin}) && Visible(old(db.table), Companies, id) ==>
      r == NoContent && db.table == old(db.table).Put(Crud.DeletedRow(old(db.table).rows[id], hard, now, actor))
  {
    if !Authorize(p, {Admin}) {
      return Denied(p);
    }
    r := Crud.Delete(db, Companies, id, hard, actor, now);
  }
}
