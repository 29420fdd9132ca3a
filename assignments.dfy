/**
 * `AssignmentsController` (clients only): assignments created as given and
 * read by id. An assignment is what an evaluator's response starts from.
 */
module AssignmentsController {
  import opened Wrappers
  import opened Clock
  import opened Entities
  import opened Contracts
  import opened Http
  import opened Identity
  import opened Persistence
  import Repository
  import Crud

  /** The entity `Create` builds: the request's five fields, not completed, a fresh id, created now. */
  function NewAssignment(id: Guid, dto: AssignmentCreateDto, now: DateTime): (e: Entity)
    ensures e.base == NewBase(id, now) && e.data.AssignmentData?
    ensures var a := e.data.assignment;
      && a.surveyTemplateId == dto.surveyTemplateId && a.agencyId == dto.agencyId
      && a.employeeId == dto.employeeId && a.evaluatorUserId == dto.evaluatorUserId
      && a.dueDate == dto.dueDate && !a.completed
  {
    Entity(NewBase(id, now), AssignmentData(SurveyAssignment(
      dto.surveyTemplateId, dto.agencyId, dto.employeeId, dto.evaluatorUserId, dto.dueDate, false)))
  }

  /**
   * What the database demands of a new assignment: its template and agency
   * rows exist, and so does its employee when one is named. Soft-deleted
   * rows count, and nothing ties them to the caller's company.
   */
  predicate TargetsExist(rows: map<Guid, Entity>, dto: AssignmentCreateDto) {
    && Resolves(rows, (SurveyTemplates, dto.surveyTemplateId))
    && Resolves(rows, (Agencies, dto.agencyId))
    && (dto.employeeId.Some? ==> Resolves(rows, (Employees, dto.employeeId.value)))
  }

  /** A new assignment is accepted exactly when the rows it names exist. */
  lemma AssignmentCommits(t: Table, id: Guid, dto: AssignmentCreateDto, now: DateTime)
    requires id !in t.rows && Committable(t.rows)
    ensures Committable(t.Insert(NewAssignment(id, dto, now)).rows) <==> TargetsExist(t.rows, dto)
  {
    var e := NewAssignment(id, dto, now);
    CommitAfterInsert(t, e);
    assert TargetsExist(t.rows, dto) <==> forall ref :: ref in References(e.data) ==> Resolves(t.rows, ref);
  }

  /**
   * `Create`: the controller checks nothing itself; the save fails when a
   * named row does not exist, and otherwise the stored assignment, stamped
   * as created by the actor, is the answer.
   */
  method Create(db: Database, p: Principal, dto: AssignmentCreateDto, id: Guid, actor: Option<UserId>, now: DateTime)
    returns (r: ActionResult<Entity>)
    requires db.Valid() && id !in db.table.rows
    modifies db
    ensures db.Valid()
    ensures !Authorize(p, {Client}) ==> r == Denied(p) && db.table == old(db.table)
    ensures Authorize(p, {Client}) && !TargetsExist(old(db.table).rows, dto) ==> r.Fault? && db.table == old(db.table)
    ensures Authorize(p, {Client}) && TargetsExist(old(db.table).rows, dto) ==>
      var row := Crud.CreatedRow(NewAssignment(id, dto, now), now, actor);
      r == Created(row) && db.table == old(db.table).Insert(row)
  {
    if !Authorize(p, {Client}) {
      return Denied(p);
    }
    var entity := NewAssignment(id, dto, now);
    AssignmentCommits(db.table, id, dto, now);
    var ok := Crud.Create(db, entity, actor, now);
    if !ok {
      return Fault("DbUpdateException");
    }
    r := Created(Crud.CreatedRow(entity, now, actor));
  }

  /** `Get(id)`: the assignment when lookups can find it, NotFound otherwise. */
  function Get(t: Table, p: Principal, id: Guid): (r: ActionResult<Entity>)
    requires t.WellFormed()
    ensures !Authorize(p, {Client}) ==> r == Denied(p)
    ensures Authorize(p, {Client}) && !Visible(t, SurveyAssignments, id) ==> r == NotFound
    ensures Authorize(p, {Client}) && Visible(t, SurveyAssignments, id) ==> r == Ok(t.rows[id])
  {
    Repository.GetByIdFindsVisible(t, SurveyAssignments, id);
    if !Authorize(p, {Client}) then Denied(p)
    else
      var a := Repository.GetById(t, SurveyAssignments, id);
      if a.None? then NotFound else Ok(a.value)
  }

  /**
   * A created assignment is found by its new id: not completed, with the
   * request's fields, created by the actor at `now`.
   */
  lemma CreatedAssignmentIsFound(t: Table, p: Principal, id: Guid, dto: AssignmentCreateDto, actor: Option<UserId>, now: DateTime)
    requires t.WellFormed() && id !in t.rows && Authorize(p, {Client})
    ensures var row := Crud.CreatedRow(NewAssignment(id, dto, now), now, actor);
      && Get(t.Insert(row), p, id) == Ok(row)
      && row.base.id == id && row.base.createdAt == now && row.base.createdBy == actor
      && row.data == NewAssignment(id, dto, now).data
  {
  }
}
