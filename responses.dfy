/**
 * `ResponsesController` (evaluators only): a response started from an
 * assignment, answers upserted one per question, media uploaded for an
 * answer or for the whole response, and the response submitted with its
 * weighted score.
 */
module ResponsesController {
  import opened Wrappers
  import opened Clock
  import opened Entities
  import opened Contracts
  import opened Http
  import opened Identity
  import opened Persistence
  import Repository
  import Crud
  import Scoring
  import FileStorage

  // ---------------------------------------------------------------- Start

  /** `r => r.AssignmentId == assignmentId` on responses. */
  function ForAssignment(assignmentId: Guid): Entity -> bool {
    (e: Entity) => e.data.ResponseData? && e.data.response.assignmentId == assignmentId
  }

  /** Some response of the assignment can be found: one that is not soft-deleted. */
  predicate HasResponse(t: Table, assignmentId: Guid) {
    exists id :: Visible(t, SurveyResponses, id) && t.rows[id].data.response.assignmentId == assignmentId
  }

  /** `AnyAsync(r => r.AssignmentId == assignmentId)` asks whether a response of the assignment can be found. */
  lemma AnyResponse(t: Table, assignmentId: Guid)
    requires t.WellFormed()
    ensures Repository.Query(t, SurveyResponses, Some(ForAssignment(assignmentId))) != [] <==> HasResponse(t, assignmentId)
  {
    var hits := Repository.Query(t, SurveyResponses, Some(ForAssignment(assignmentId)));
    Repository.QueryMembership(t, SurveyResponses, Some(ForAssignment(assignmentId)));
    if hits != [] {
      assert hits[0] in hits;
    }
  }

  /** The response `Start` adds, before auditing: started now, not submitted, score 0. */
  function NewResponseRow(id: Guid, assignmentId: Guid, now: DateTime): Entity {
    Entity(NewBase(id, now), ResponseData(NewResponse(assignmentId, now)))
  }

  /** A new response is accepted exactly when its assignment's row exists. */
  lemma NewResponseCommits(t: Table, id: Guid, assignmentId: Guid, now: DateTime)
    requires id !in t.rows && Committable(t.rows)
    ensures Committable(t.Insert(NewResponseRow(id, assignmentId, now)).rows) <==> Resolves(t.rows, (SurveyAssignments, assignmentId))
  {
    var e := NewResponseRow(id, assignmentId, now);
    assert References(e.data) == {(SurveyAssignments, assignmentId)};
    CommitAfterInsert(t, e);
  }

  /**
   * `Start`: the assignment must be found (NotFound), be the caller's
   * (Forbid) and have no response yet (BadRequest), checked in that order;
   * then one response is stored for it. The assignment's row exists, so the
   * save cannot fail.
   */
  method Start(db: Database, p: Principal, dto: StartResponseDto, id: Guid, actor: Option<UserId>, now: DateTime)
    returns (r: ActionResult<Entity>)
    requires db.Valid() && id !in db.table.rows
    modifies db
    ensures db.Valid()
    ensures !Authorize(p, {Evaluator}) ==> r == Denied(p) && db.table == old(db.table)
    ensures Authorize(p, {Evaluator}) && !Visible(old(db.table), SurveyAssignments, dto.assignmentId) ==>
      r == NotFound && db.table == old(db.table)
    ensures Authorize(p, {Evaluator}) && Visible(old(db.table), SurveyAssignments, dto.assignmentId) ==>
      if old(db.table).rows[dto.assignmentId].data.assignment.evaluatorUserId != p.userId then
        r == Forbid && db.table == old(db.table)
      else if HasResponse(old(db.table), dto.assignmentId) then
        r == BadRequest("Response already exists") && db.table == old(db.table)
      else
        var row := Crud.CreatedRow(NewResponseRow(id, dto.assignmentId, now), now, actor);
        r == Ok(row) && db.table == old(db.table).Insert(row)
  {
    if !Authorize(p, {Evaluator}) {
      return Denied(p);
    }
    var uid := p.userId;
    Repository.GetByIdFindsVisible(db.table, SurveyAssignments, dto.assignmentId);
    var asg := Repository.GetById(db.table, SurveyAssignments, dto.assignmentId);
    if asg.None? {
      return NotFound;
    }
    if asg.value.data.assignment.evaluatorUserId != uid {
      return Forbid;
    }
    AnyResponse(db.table, asg.value.base.id);
    if Repository.Query(db.table, SurveyResponses, Some(ForAssignment(asg.value.base.id))) != [] {
      return BadRequest("Response already exists");
    }
    var e := NewResponseRow(id, dto.assignmentId, now);
    NewResponseCommits(db.table, id, dto.assignmentId, now);
    var ok := Crud.Create(db, e, actor, now);
    assert ok;
    r := Ok(Crud.CreatedRow(e, now, actor));
  }

  /** No assignment has two responses that can be found. */
  ghost predicate OneResponsePerAssignment(t: Table) {
    forall i, j ::
      && Visible(t, SurveyResponses, i) && Visible(t, SurveyResponses, j)
      && t.rows[i].data.response.assignmentId == t.rows[j].data.response.assignmentId
      ==> i == j
  }

  /**
   * After a successful `Start` the assignment has a response, so a second
   * `Start` for it is BadRequest; and no assignment has two.
   */
  lemma StartLeavesOneResponse(t: Table, id: Guid, assignmentId: Guid, now: DateTime, actor: Option<UserId>)
    requires t.WellFormed() && id !in t.rows && !HasResponse(t, assignmentId)
    ensures var t' := t.Insert(Crud.CreatedRow(NewResponseRow(id, assignmentId, now), now, actor));
      && HasResponse(t', assignmentId)
      && (OneResponsePerAssignment(t) ==> OneResponsePerAssignment(t'))
  {
    var t' := t.Insert(Crud.CreatedRow(NewResponseRow(id, assignmentId, now), now, actor));
    assert Visible(t', SurveyResponses, id);
    if OneResponsePerAssignment(t) {
      forall i, j | Visible(t', SurveyResponses, i) && Visible(t', SurveyResponses, j) &&
                    t'.rows[i].data.response.assignmentId == t'.rows[j].data.response.assignmentId
        ensures i == j
      {
        assert i != id ==> Visible(t, SurveyResponses, i);
        assert j != id ==> Visible(t, SurveyResponses, j);
      }
    }
  }

  // --------------------------------------------------------- UpsertAnswer

  /** `a => a.ResponseId == responseId && a.QuestionId == questionId` on answers. */
  function ForQuestion(responseId: Guid, questionId: Guid): Entity -> bool {
    (e: Entity) => e.data.AnswerData? && e.data.answer.responseId == responseId && e.data.answer.questionId == questionId
  }

  /** Row `id` is an answer of the response to the question that can be found. */
  predicate IsAnswerTo(t: Table, id: Guid, responseId: Guid, questionId: Guid) {
    Visible(t, Answers, id) && t.rows[id].data.answer.responseId == responseId && t.rows[id].data.answer.questionId == questionId
  }

  /**
   * The first answer of the response to the question that can be found:
   * `resp.Answers.FirstOrDefault(a => a.QuestionId == questionId)` on the
   * response's loaded answers, and the answer lookup of `UploadForAnswer`.
   */
  function AnswerFor(t: Table, responseId: Guid, questionId: Guid): (r: Option<Entity>)
    requires t.WellFormed()
    ensures r.Some? ==> IsAnswerTo(t, r.value.base.id, responseId, questionId) && t.rows[r.value.base.id] == r.value
    ensures r.None? <==> forall id :: !IsAnswerTo(t, id, responseId, questionId)
  {
    var hits := Repository.Query(t, Answers, Some(ForQuestion(responseId, questionId)));
    Repository.QueryMembership(t, Answers, Some(ForQuestion(responseId, questionId)));
    if hits == [] then None
    else
      assert hits[0] in hits;
      assert IsAnswerTo(t, hits[0].base.id, responseId, questionId);
      Some(hits[0])
  }

  /** The five value assignments of `UpsertAnswer`: every value from the request, nulls included. */
  function Filled(a: Answer, dto: AnswerUpsertDto): Answer {
    a.(textValue := dto.textValue, numberValue := dto.numberValue, boolValue := dto.boolValue,
       selectedOptionsJson := dto.selectedOptionsJson, comment := dto.comment)
  }

  /** The row is an answer and its values are those of the request. */
  predicate Holds(e: Entity, dto: AnswerUpsertDto) {
    && e.data.AnswerData?
    && var a := e.data.answer;
    && a.questionId == dto.questionId
    && a.textValue == dto.textValue && a.numberValue == dto.numberValue && a.boolValue == dto.boolValue
    && a.selectedOptionsJson == dto.selectedOptionsJson && a.comment == dto.comment
  }

  /** The answer `UpsertAnswer` adds when the question has none, before auditing. */
  function NewAnswerRow(id: Guid, responseId: Guid, dto: AnswerUpsertDto, now: DateTime): Entity {
    Entity(NewBase(id, now), AnswerData(Filled(NewAnswer(responseId, dto.questionId), dto)))
  }

  /** A row given new data in a request, as the save stores it: untouched when the data did not change. */
  function Stamp(e: Entity, d: Data, now: DateTime, actor: Option<UserId>): (r: Entity)
    ensures r.base.id == e.base.id && r.data == d
    ensures d == e.data ==> r == e
    ensures d != e.data ==> r == Crud.UpdatedRow(e, d, now, actor)
  {
    if d == e.data then e else Crud.UpdatedRow(e, d, now, actor)
  }

  /**
   * Auditing after one more row of a request was given new values, the
   * change tracker marking it Modified only when they differ: that row is
   * stored as `Stamp` says and every other row is audited as before.
   */
  lemma AuditedChange(t: Table, m: map<Guid, EntryState>, e: Entity, now: DateTime, user: Option<UserId>)
    requires e.base.id in t.rows && e.base == t.rows[e.base.id].base && e.base.id !in m
    ensures && e.base.id in Audited(t, m, now, user).rows
      && Audited(t.Put(e), Tracked(t, m, e), now, user) == Audited(t, m, now, user).Put(Stamp(t.rows[e.base.id], e.data, now, user))
  {
    var a := Audited(t.Put(e), Tracked(t, m, e), now, user);
    var b := Audited(t, m, now, user).Put(Stamp(t.rows[e.base.id], e.data, now, user));
    assert a.rows == b.rows;
  }

  /**
   * The database after a successful `UpsertAnswer`: the question's answer
   * carries the request's values, or a new answer with them is added.
   */
  function Upserted(t: Table, responseId: Guid, dto: AnswerUpsertDto, freshId: Guid, now: DateTime, actor: Option<UserId>): (r: Table)
    requires t.WellFormed() && freshId !in t.rows
    ensures r.WellFormed()
  {
    var found := AnswerFor(t, responseId, dto.questionId);
    if found.Some? then
      var e := found.value;
      t.Put(Stamp(e, AnswerData(Filled(e.data.answer, dto)), now, actor))
    else t.Insert(Crud.CreatedRow(NewAnswerRow(freshId, responseId, dto, now), now, actor))
  }

  /** An answer given the request's values, as the property assignments leave the tracked entity. */
  function Overwritten(e: Entity, dto: AnswerUpsertDto): Entity
    requires e.data.AnswerData?
  {
    Entity(e.base, AnswerData(Filled(e.data.answer, dto)))
  }

  /** A new answer of a response that exists is accepted exactly when its question row exists. */
  lemma NewAnswerCommits(t: Table, responseId: Guid, dto: AnswerUpsertDto, freshId: Guid, now: DateTime)
    requires t.WellFormed() && Committable(t.rows) && freshId !in t.rows && Visible(t, SurveyResponses, responseId)
    ensures Committable(t.Insert(NewAnswerRow(freshId, responseId, dto, now)).rows) <==> Resolves(t.rows, (Questions, dto.questionId))
  {
    var e := NewAnswerRow(freshId, responseId, dto, now);
    assert References(e.data) == {(SurveyResponses, responseId), (Questions, dto.questionId)};
    assert Resolves(t.rows, (SurveyResponses, responseId));
    CommitAfterInsert(t, e);
  }

  /**
   * The save of an upsert that adds an answer: accepted exactly when its
   * question row exists (its response's row does), and the audited table
   * is `Upserted`.
   */
  lemma UpsertSaveNew(t: Table, responseId: Guid, dto: AnswerUpsertDto, freshId: Guid, now: DateTime, actor: Option<UserId>)
    requires t.WellFormed() && Committable(t.rows) && freshId !in t.rows && Visible(t, SurveyResponses, responseId)
    requires AnswerFor(t, responseId, dto.questionId).None?
    ensures var e := NewAnswerRow(freshId, responseId, dto, now);
      && (Committable(t.Insert(e).rows) <==> Resolves(t.rows, (Questions, dto.questionId)))
      && Audited(t.Insert(e), map[freshId := Added], now, actor) == Upserted(t, responseId, dto, freshId, now, actor)
  {
    var e := NewAnswerRow(freshId, responseId, dto, now);
    NewAnswerCommits(t, responseId, dto, freshId, now);
    AuditedSingle(t.Insert(e), freshId, Added, now, actor);
    Crud.InsertThenPut(t, e, Crud.CreatedRow(e, now, actor));
  }

  /**
   * The save of an upsert that overwrites the question's answer: always
   * accepted, its keys being unchanged, and the audited table is `Upserted`.
   */
  lemma UpsertSaveExisting(t: Table, responseId: Guid, dto: AnswerUpsertDto, freshId: Guid, now: DateTime, actor: Option<UserId>)
    requires t.WellFormed() && Committable(t.rows) && freshId !in t.rows
    requires AnswerFor(t, responseId, dto.questionId).Some?
    ensures var e := AnswerFor(t, responseId, dto.questionId).value;
      var changed := Overwritten(e, dto);
      && Committable(t.Put(changed).rows)
      && Audited(t.Put(changed), Tracked(t, map[], changed), now, actor)
         == Upserted(t, responseId, dto, freshId, now, actor)
  {
    var e := AnswerFor(t, responseId, dto.questionId).value;
    var changed := Overwritten(e, dto);
    assert References(changed.data) == References(e.data);
    CommitAfterPut(t, changed);
    AuditedNothing(t, now, actor);
    AuditedChange(t, map[], changed, now, actor);
  }

  /**
   * `UpsertAnswer` as evidently intended, with the new answer added to the
   * unit of work explicitly (`_db.Answers.Add(ans)`), so that it is tracked
   * Added: a response that cannot be found is NotFound; otherwise the
   * question's answer is overwritten, or added when there is none, which
   * fails the save when the question id names no question row. Nobody
   * checks that the response is the caller's or that it was not submitted.
   * `freshId` is the id a new answer gets.
   */
  method UpsertAnswer(db: Database, p: Principal, responseId: Guid, dto: AnswerUpsertDto, freshId: Guid,
                      actor: Option<UserId>, now: DateTime) returns (r: ActionResult<()>)
    requires db.Valid() && freshId !in db.table.rows
    modifies db
    ensures db.Valid()
    ensures !Authorize(p, {Evaluator}) ==> r == Denied(p) && db.table == old(db.table)
    ensures Authorize(p, {Evaluator}) && !Visible(old(db.table), SurveyResponses, responseId) ==>
      r == NotFound && db.table == old(db.table)
    ensures Authorize(p, {Evaluator}) && Visible(old(db.table), SurveyResponses, responseId) ==>
      if AnswerFor(old(db.table), responseId, dto.questionId).None? && !Resolves(old(db.table).rows, (Questions, dto.questionId))
      then r.Fault? && db.table == old(db.table)
      else r == Ok(()) && db.table == Upserted(old(db.table), responseId, dto, freshId, now, actor)
  {
    if !Authorize(p, {Evaluator}) {
      return Denied(p);
    }
    var ctx := new AppDbContext(db, actor);
    Repository.GetByIdFindsVisible(ctx.table, SurveyResponses, responseId);
    var resp := Repository.GetById(ctx.table, SurveyResponses, responseId);
    if resp.None? {
      return NotFound;
    }
    ghost var t := ctx.table;
    var ans := AnswerFor(ctx.table, responseId, dto.questionId);
    if ans.None? {
      ctx.Add(NewAnswerRow(freshId, responseId, dto, now));
    } else {
      ctx.Change(Overwritten(ans.value, dto));
    }
    var ok := ctx.SaveChanges(now);
    if ans.None? {
      UpsertSaveNew(t, responseId, dto, freshId, now, actor);
    } else {
      UpsertSaveExisting(t, responseId, dto, freshId, now, actor);
    }
    if !ok {
      return Fault("DbUpdateException");
    }
    r := Ok(());
  }

  /**
   * `UpsertAnswer` as written. A new answer is attached only through the
   * loaded response's `Answers` collection, with the id its initializer
   * already gave it, so change detection takes it for an existing row. The
   * save then updates a row that is not stored and fails, whatever the
   * question. Only overwriting an answer that exists succeeds.
   */
  method UpsertAnswerAsWritten(db: Database, p: Principal, responseId: Guid, dto: AnswerUpsertDto, freshId: Guid,
                               actor: Option<UserId>, now: DateTime) returns (r: ActionResult<()>)
    requires db.Valid() && freshId !in db.table.rows
    modifies db
    ensures db.Valid()
    ensures !Authorize(p, {Evaluator}) ==> r == Denied(p) && db.table == old(db.table)
    ensures Authorize(p, {Evaluator}) && !Visible(old(db.table), SurveyResponses, responseId) ==>
      r == NotFound && db.table == old(db.table)
    ensures Authorize(p, {Evaluator}) && Visible(old(db.table), SurveyResponses, responseId) ==>
      if AnswerFor(old(db.table), responseId, dto.questionId).None?
      then r == Fault("DbUpdateConcurrencyException") && db.table == old(db.table)
      else r == Ok(()) && db.table == Upserted(old(db.table), responseId, dto, freshId, now, actor)
  {
    if !Authorize(p, {Evaluator}) {
      return Denied(p);
    }
    var ctx := new AppDbContext(db, actor);
    Repository.GetByIdFindsVisible(ctx.table, SurveyResponses, responseId);
    var resp := Repository.GetById(ctx.table, SurveyResponses, responseId);
    if resp.None? {
      return NotFound;
    }
    ghost var t := ctx.table;
    var ans := AnswerFor(ctx.table, responseId, dto.questionId);
    if ans.None? {
      ctx.AttachDiscovered(NewAnswerRow(freshId, responseId, dto, now));
    } else {
      ctx.Change(Overwritten(ans.value, dto));
    }
    var ok := ctx.SaveChanges(now);
    if ans.Some? {
      UpsertSaveExisting(t, responseId, dto, freshId, now, actor);
    }
    if !ok {
      return Fault("DbUpdateConcurrencyException");
    }
    r := Ok(());
  }

  /**
   * Where the two differ: a first answer to a question, whose question row
   * exists. Tracked Modified, as the code as written leaves it, it names no
   * stored row and the save fails. Tracked Added, as an explicit `Add`
   * leaves it, it commits and is afterwards the response's answer to the
   * question, with the request's values.
   */
  lemma NewAnswerLostAsWritten(t: Table, responseId: Guid, dto: AnswerUpsertDto, freshId: Guid, now: DateTime, actor: Option<UserId>)
    requires t.WellFormed() && Committable(t.rows) && freshId !in t.rows && Visible(t, SurveyResponses, responseId)
    requires OneAnswerPerQuestion(t) && AnswerFor(t, responseId, dto.questionId).None?
    requires Resolves(t.rows, (Questions, dto.questionId))
    ensures !RowsMatched(map[freshId := Modified], t.rows)
    ensures RowsMatched(map[freshId := Added], t.rows) && Committable(t.Insert(NewAnswerRow(freshId, responseId, dto, now)).rows)
    ensures var found := AnswerFor(Upserted(t, responseId, dto, freshId, now, actor), responseId, dto.questionId);
      found.Some? && Holds(found.value, dto)
  {
    NewAnswerCommits(t, responseId, dto, freshId, now);
    UpsertOverwrites(t, responseId, dto, freshId, now, actor);
  }

  /** No response has two answers to one question that can be found. */
  ghost predicate OneAnswerPerQuestion(t: Table) {
    forall i, j ::
      && Visible(t, Answers, i) && Visible(t, Answers, j)
      && t.rows[i].data.answer.responseId == t.rows[j].data.answer.responseId
      && t.rows[i].data.answer.questionId == t.rows[j].data.answer.questionId
      ==> i == j
  }

  /** The row an upsert writes: the question's answer, or the new one. */
  function UpsertTarget(t: Table, responseId: Guid, dto: AnswerUpsertDto, freshId: Guid): Guid
    requires t.WellFormed()
  {
    var found := AnswerFor(t, responseId, dto.questionId);
    if found.Some? then found.value.base.id else freshId
  }

  /**
   * What a successful upsert leaves: the written row is an answer of the
   * response to the question, holding exactly the request's values; every
   * other row is as it was.
   */
  lemma UpsertedRows(t: Table, responseId: Guid, dto: AnswerUpsertDto, freshId: Guid, now: DateTime, actor: Option<UserId>)
    requires t.WellFormed() && freshId !in t.rows
    ensures var t' := Upserted(t, responseId, dto, freshId, now, actor);
      var w := UpsertTarget(t, responseId, dto, freshId);
      && t'.WellFormed() && t'.rows.Keys == t.rows.Keys + {w}
      && IsAnswerTo(t', w, responseId, dto.questionId) && Holds(t'.rows[w], dto)
      && (forall id :: id in t.rows && id != w ==> t'.rows[id] == t.rows[id])
      && (w in t.rows ==> IsAnswerTo(t, w, responseId, dto.questionId))
  {
    if AnswerFor(t, responseId, dto.questionId).Some? {
      UpsertedRowsFound(t, responseId, dto, freshId, now, actor);
    } else {
      var e' := Crud.CreatedRow(NewAnswerRow(freshId, responseId, dto, now), now, actor);
      assert NotDeleted(e');
    }
  }

  /** `UpsertedRows` when the question already has an answer: that answer is overwritten in place. */
  lemma UpsertedRowsFound(t: Table, responseId: Guid, dto: AnswerUpsertDto, freshId: Guid, now: DateTime, actor: Option<UserId>)
    requires t.WellFormed() && freshId !in t.rows && AnswerFor(t, responseId, dto.questionId).Some?
    ensures var t' := Upserted(t, responseId, dto, freshId, now, actor);
      var w := AnswerFor(t, responseId, dto.questionId).value.base.id;
      && t'.rows.Keys == t.rows.Keys && IsAnswerTo(t, w, responseId, dto.questionId)
      && IsAnswerTo(t', w, responseId, dto.questionId) && Holds(t'.rows[w], dto)
      && (forall id :: id in t.rows && id != w ==> t'.rows[id] == t.rows[id])
  {
    var e := AnswerFor(t, responseId, dto.questionId).value;
    var e' := Stamp(e, AnswerData(Filled(e.data.answer, dto)), now, actor);
    assert NotDeleted(e') == NotDeleted(e);
  }

  /** An upsert keeps one answer per question: its row is the question's only answer. */
  lemma UpsertKeepsOneAnswer(t: Table, responseId: Guid, dto: AnswerUpsertDto, freshId: Guid, now: DateTime, actor: Option<UserId>)
    requires t.WellFormed() && freshId !in t.rows && OneAnswerPerQuestion(t)
    ensures OneAnswerPerQuestion(Upserted(t, responseId, dto, freshId, now, actor))
  {
    UpsertedRows(t, responseId, dto, freshId, now, actor);
    OneAnswerAfterWrite(t, Upserted(t, responseId, dto, freshId, now, actor), UpsertTarget(t, responseId, dto, freshId),
                        responseId, dto.questionId);
  }

  /**
   * Writing row `w` as an answer of `responseId` to `questionId` keeps one
   * answer per question when `w` was that answer already or the question
   * had none, and no other row changes.
   */
  lemma OneAnswerAfterWrite(t: Table, t': Table, w: Guid, responseId: Guid, questionId: Guid)
    requires OneAnswerPerQuestion(t) && t'.rows.Keys == t.rows.Keys + {w}
    requires forall id :: id in t.rows && id != w ==> t'.rows[id] == t.rows[id]
    requires IsAnswerTo(t', w, responseId, questionId)
    requires w in t.rows ==> IsAnswerTo(t, w, responseId, questionId)
    requires w !in t.rows ==> forall id :: !IsAnswerTo(t, id, responseId, questionId)
    ensures OneAnswerPerQuestion(t')
  {
    forall i, j | Visible(t', Answers, i) && Visible(t', Answers, j) &&
                  t'.rows[i].data.answer.responseId == t'.rows[j].data.answer.responseId &&
                  t'.rows[i].data.answer.questionId == t'.rows[j].data.answer.questionId
      ensures i == j
    {
      if i != w && j != w {
        assert Visible(t, Answers, i) && Visible(t, Answers, j);
      } else if i == w && j != w {
        assert IsAnswerTo(t, j, responseId, questionId);
      } else if j == w && i != w {
        assert IsAnswerTo(t, i, responseId, questionId);
      }
    }
  }

  /**
   * After an upsert the question's answer is found with exactly the
   * request's values, nulls included; the answers of every other
   * question, of every response, are found as before.
   */
  lemma UpsertOverwrites(t: Table, responseId: Guid, dto: AnswerUpsertDto, freshId: Guid, now: DateTime, actor: Option<UserId>)
    requires t.WellFormed() && freshId !in t.rows && OneAnswerPerQuestion(t)
    ensures var t' := Upserted(t, responseId, dto, freshId, now, actor);
      && AnswerFor(t', responseId, dto.questionId).Some?
      && Holds(AnswerFor(t', responseId, dto.questionId).value, dto)
      && forall r': Guid, q': Guid :: (r', q') != (responseId, dto.questionId) ==> AnswerFor(t', r', q') == AnswerFor(t, r', q')
  {
    UpsertedRows(t, responseId, dto, freshId, now, actor);
    UpsertKeepsOneAnswer(t, responseId, dto, freshId, now, actor);
    AnswersAfterWrite(t, Upserted(t, responseId, dto, freshId, now, actor), UpsertTarget(t, responseId, dto, freshId),
                      responseId, dto.questionId);
  }

  /**
   * After row `w` is written as the only answer of `responseId` to
   * `questionId`, and no other row changes, the lookup of that answer finds
   * `w` and every other lookup finds what it found before.
   */
  lemma AnswersAfterWrite(t: Table, t': Table, w: Guid, responseId: Guid, questionId: Guid)
    requires t.WellFormed() && t'.WellFormed() && OneAnswerPerQuestion(t')
    requires t'.rows.Keys == t.rows.Keys + {w}
    requires forall id :: id in t.rows && id != w ==> t'.rows[id] == t.rows[id]
    requires IsAnswerTo(t', w, responseId, questionId)
    requires w in t.rows ==> IsAnswerTo(t, w, responseId, questionId)
    ensures AnswerFor(t', responseId, questionId) == Some(t'.rows[w])
    ensures forall r': Guid, q': Guid :: (r', q') != (responseId, questionId) ==> AnswerFor(t', r', q') == AnswerFor(t, r', q')
  {
    var a := AnswerFor(t', responseId, questionId);
    assert a.value.base.id == w;
    forall r': Guid, q': Guid | (r', q') != (responseId, questionId)
      ensures AnswerFor(t', r', q') == AnswerFor(t, r', q')
    {
      OtherAnswerUnchanged(t, t', w, responseId, questionId, r', q');
    }
  }

  /** The lookup of another question's answer, or of another response's, is not affected by the write. */
  lemma OtherAnswerUnchanged(t: Table, t': Table, w: Guid, responseId: Guid, questionId: Guid, r': Guid, q': Guid)
    requires t.WellFormed() && t'.WellFormed() && OneAnswerPerQuestion(t')
    requires t'.rows.Keys == t.rows.Keys + {w}
    requires forall id :: id in t.rows && id != w ==> t'.rows[id] == t.rows[id]
    requires IsAnswerTo(t', w, responseId, questionId)
    requires w in t.rows ==> IsAnswerTo(t, w, responseId, questionId)
    requires (r', q') != (responseId, questionId)
    ensures AnswerFor(t', r', q') == AnswerFor(t, r', q')
  {
    var before, after := AnswerFor(t, r', q'), AnswerFor(t', r', q');
    assert forall id :: IsAnswerTo(t', id, r', q') <==> IsAnswerTo(t, id, r', q');
    if before.Some? {
      assert after.Some?;
      assert after.value.base.id == before.value.base.id;
    }
  }

  // -------------------------------------------------------------- Uploads

  /**
   * `UploadForAnswer`: an answer of the response to the question must be
   * found (NotFound otherwise; the response itself is not looked up); the
   * media row names both the response and that answer. Both rows exist, so
   * the save cannot fail. `name` is the stored name's GUID and `id` the
   * row's id.
   */
  method UploadForAnswer(db: Database, cfg: FileStorage.StorageConfig, p: Principal, responseId: Guid, questionId: Guid,
                         file: FileStorage.FormFile, kind: MediaKind, name: Guid, id: Guid, actor: Option<UserId>, now: DateTime)
    returns (r: ActionResult<Entity>)
    requires db.Valid() && id !in db.table.rows
    modifies db
    ensures db.Valid()
    ensures !Authorize(p, {Evaluator}) ==> r == Denied(p) && db.table == old(db.table)
    ensures Authorize(p, {Evaluator}) && AnswerFor(old(db.table), responseId, questionId).None? ==>
      r == NotFound && db.table == old(db.table)
    ensures Authorize(p, {Evaluator}) && AnswerFor(old(db.table), responseId, questionId).Some? ==>
      var answer := AnswerFor(old(db.table), responseId, questionId).value;
      var row := Crud.CreatedRow(FileStorage.MediaEntity(cfg, file, kind, Some(responseId), Some(answer.base.id), name, id, now), now, actor);
      r == Ok(row) && db.table == old(db.table).Insert(row)
  {
    if !Authorize(p, {Evaluator}) {
      return Denied(p);
    }
    var ctx := new AppDbContext(db, actor);
    var ans := AnswerFor(ctx.table, responseId, questionId);
    if ans.None? {
      return NotFound;
    }
    assert (SurveyResponses, responseId) in References(ctx.table.rows[ans.value.base.id].data);
    var saved := SaveMedia(ctx, cfg, file, kind, Some(responseId), Some(ans.value.base.id), name, id, now);
    r := Ok(saved);
  }

  /**
   * `UploadForResponse`: the response must be found (NotFound otherwise);
   * the media row names the response and no answer. The response's row
   * exists, so the save cannot fail.
   */
  method UploadForResponse(db: Database, cfg: FileStorage.StorageConfig, p: Principal, responseId: Guid,
                           file: FileStorage.FormFile, kind: MediaKind, name: Guid, id: Guid, actor: Option<UserId>, now: DateTime)
    returns (r: ActionResult<Entity>)
    requires db.Valid() && id !in db.table.rows
    modifies db
    ensures db.Valid()
    ensures !Authorize(p, {Evaluator}) ==> r == Denied(p) && db.table == old(db.table)
    ensures Authorize(p, {Evaluator}) && !Visible(old(db.table), SurveyResponses, responseId) ==>
      r == NotFound && db.table == old(db.table)
    ensures Authorize(p, {Evaluator}) && Visible(old(db.table), SurveyResponses, responseId) ==>
      var row := Crud.CreatedRow(FileStorage.MediaEntity(cfg, file, kind, Some(responseId), None, name, id, now), now, actor);
      r == Ok(row) && db.table == old(db.table).Insert(row)
  {
    if !Authorize(p, {Evaluator}) {
      return Denied(p);
    }
    var ctx := new AppDbContext(db, actor);
    Repository.GetByIdFindsVisible(ctx.table, SurveyResponses, responseId);
    var resp := Repository.GetById(ctx.table, SurveyResponses, responseId);
    if resp.None? {
      return NotFound;
    }
    var saved := SaveMedia(ctx, cfg, file, kind, Some(responseId), None, name, id, now);
    r := Ok(saved);
  }

  /**
   * The storage's save in a unit of work with nothing else pending, of a
   * media row whose owners exist: the row, stamped as created, is stored.
   */
  method SaveMedia(ctx: AppDbContext, cfg: FileStorage.StorageConfig, file: FileStorage.FormFile, kind: MediaKind,
                   responseId: Option<Guid>, answerId: Option<Guid>, name: Guid, id: Guid, now: DateTime)
    returns (saved: Entity)
    requires ctx.Valid() && ctx.store.Valid() && ctx.entries == map[] && ctx.table == ctx.store.table
    requires id !in ctx.table.rows
    requires responseId.Some? ==> Resolves(ctx.table.rows, (SurveyResponses, responseId.value))
    requires answerId.Some? ==> Resolves(ctx.table.rows, (Answers, answerId.value))
    modifies ctx, ctx.store
    ensures ctx.store.Valid()
    ensures saved == Crud.CreatedRow(FileStorage.MediaEntity(cfg, file, kind, responseId, answerId, name, id, now), now, ctx.user)
    ensures ctx.store.table == old(ctx.store.table).Insert(saved)
  {
    var t := ctx.table;
    ghost var media := FileStorage.MediaEntity(cfg, file, kind, responseId, answerId, name, id, now);
    FileStorage.MediaCommits(t, cfg, file, kind, responseId, answerId, name, id, now);
    var storage := new FileStorage.LocalFileStorage(cfg, ctx);
    var result := storage.SaveAsync(file, kind, responseId, answerId, name, id, now);
    assert map[][id := Added] == map[id := Added];
    AuditedSingle(t.Insert(media), id, Added, now, ctx.user);
    Crud.InsertThenPut(t, media, Crud.CreatedRow(media, now, ctx.user));
    saved := result.value;
  }

  // --------------------------------------------------------------- Submit

  /** The loaded questions of a template: those that can be found, in table order. */
  function TemplateQuestions(t: Table, templateId: Guid): seq<QuestionEntity>
    requires t.WellFormed()
  {
    var keep := (e: Entity) => e.data.QuestionData? && e.data.question.surveyTemplateId == templateId;
    var all := Repository.Query(t, Questions, Some(keep));
    Repository.QueryMembership(t, Questions, Some(keep));
    assert forall i :: 0 <= i < |all| ==> all[i] in all;
    all
  }

  /** Exactly the template's questions that can be found are loaded, each as stored. */
  lemma TemplateQuestionsMembers(t: Table, templateId: Guid)
    requires t.WellFormed()
    ensures var qs := TemplateQuestions(t, templateId);
      && (forall q :: q in qs ==>
            Visible(t, Questions, q.base.id) && t.rows[q.base.id] == q && q.data.question.surveyTemplateId == templateId)
      && (forall id :: Visible(t, Questions, id) && t.rows[id].data.question.surveyTemplateId == templateId ==> t.rows[id] in qs)
  {
    Repository.QueryMembership(t, Questions, Some((e: Entity) => e.data.QuestionData? && e.data.question.surveyTemplateId == templateId));
  }

  /** The loaded answers of a response: those that can be found, in table order. */
  function ResponseAnswers(t: Table, responseId: Guid): seq<AnswerEntity>
    requires t.WellFormed()
  {
    var keep := (e: Entity) => e.data.AnswerData? && e.data.answer.responseId == responseId;
    var all := Repository.Query(t, Answers, Some(keep));
    Repository.QueryMembership(t, Answers, Some(keep));
    assert forall i :: 0 <= i < |all| ==> all[i] in all;
    all
  }

  /** Exactly the response's answers that can be found are loaded, each as stored. */
  lemma ResponseAnswersMembers(t: Table, responseId: Guid)
    requires t.WellFormed()
    ensures var answers := ResponseAnswers(t, responseId);
      && (forall a :: a in answers ==>
            Visible(t, Answers, a.base.id) && t.rows[a.base.id] == a && a.data.answer.responseId == responseId)
      && (forall id :: Visible(t, Answers, id) && t.rows[id].data.answer.responseId == responseId ==> t.rows[id] in answers)
  {
    Repository.QueryMembership(t, Answers, Some((e: Entity) => e.data.AnswerData? && e.data.answer.responseId == responseId));
  }

  /**
   * The response, its assignment and the assignment's template can all be
   * found. The assignment is a required navigation, so loading it with its
   * template through the filtered sets drops the response when either
   * cannot be found.
   */
  predicate Submittable(t: Table, responseId: Guid) {
    && Visible(t, SurveyResponses, responseId)
    && var aid := t.rows[responseId].data.response.assignmentId;
    && Visible(t, SurveyAssignments, aid)
    && Visible(t, SurveyTemplates, t.rows[aid].data.assignment.surveyTemplateId)
  }

  function AssignmentOf(t: Table, responseId: Guid): Guid
    requires Submittable(t, responseId)
  {
    t.rows[responseId].data.response.assignmentId
  }

  /** The score of a response: its answers against every question of its assignment's template. */
  function SubmitScore(t: Table, responseId: Guid): real
    requires t.WellFormed() && Submittable(t, responseId)
  {
    var tid := t.rows[AssignmentOf(t, responseId)].data.assignment.surveyTemplateId;
    Scoring.Score(TemplateQuestions(t, tid), ResponseAnswers(t, responseId))
  }

  /** The response as `Submit` stores it: `score`, the request's comment and the submission time. */
  function SubmittedResponse(t: Table, responseId: Guid, score: real, dto: SubmitResponseDto, now: DateTime): Data
    requires Submittable(t, responseId)
  {
    ResponseData(t.rows[responseId].data.response.(
      score := score, overallComment := dto.overallComment, submittedAt := Some(now)))
  }

  function CompletedAssignment(t: Table, responseId: Guid): Data
    requires Submittable(t, responseId)
  {
    AssignmentData(t.rows[AssignmentOf(t, responseId)].data.assignment.(completed := true))
  }

  /** The response row as `Submit` leaves it before the save. */
  function ScoredResponse(t: Table, responseId: Guid, score: real, dto: SubmitResponseDto, now: DateTime): Entity
    requires Submittable(t, responseId)
  {
    Entity(t.rows[responseId].base, SubmittedResponse(t, responseId, score, dto, now))
  }

  /** The assignment row as `Submit` leaves it before the save: completed. */
  function CompletedAssignmentRow(t: Table, responseId: Guid): Entity
    requires Submittable(t, responseId)
  {
    Entity(t.rows[AssignmentOf(t, responseId)].base, CompletedAssignment(t, responseId))
  }

  /** The database after the save of a submit with `score`: both rows changed and stamped. */
  function SubmittedWith(t: Table, responseId: Guid, score: real, dto: SubmitResponseDto, now: DateTime, actor: Option<UserId>): Table
    requires t.WellFormed() && Submittable(t, responseId)
  {
    var aid := AssignmentOf(t, responseId);
    t.Put(Stamp(t.rows[responseId], SubmittedResponse(t, responseId, score, dto, now), now, actor))
     .Put(Stamp(t.rows[aid], CompletedAssignment(t, responseId), now, actor))
  }

  /** The database after a `Submit`: the response scored, commented and dated, its assignment completed. */
  function Submitted(t: Table, responseId: Guid, dto: SubmitResponseDto, now: DateTime, actor: Option<UserId>): Table
    requires t.WellFormed() && Submittable(t, responseId)
  {
    SubmittedWith(t, responseId, SubmitScore(t, responseId), dto, now, actor)
  }

  /**
   * The scoring loop of `Submit`: each question's weight is added to the
   * total, and its answer's partial value times the weight to the sum; the
   * sum is then scaled to 0..100 and rounded, or 0 when the total is 0.
   */
  method ComputeScore(qs: seq<QuestionEntity>, answers: seq<AnswerEntity>) returns (final: real)
    ensures final == Scoring.Score(qs, answers)
  {
    var score, totalWeight := 0.0, 0.0;
    var i := 0;
    while i < |qs|
      invariant 0 <= i <= |qs|
      invariant totalWeight == Scoring.TotalWeight(qs[..i])
      invariant score == Scoring.WeightedSum(qs[..i], answers)
    {
      var q := qs[i];
      assert qs[..i + 1][..i] == qs[..i];
      totalWeight := totalWeight + q.data.question.weight;
      var ans := Scoring.FindAnswer(answers, q.base.id);
      if ans.Some? {
        var partial := Scoring.PartialValue(q.data.question.qtype, ans.value);
        score := score + partial * q.data.question.weight;
      }
      i := i + 1;
    }
    assert qs[..|qs|] == qs;
    final := if totalWeight == 0.0 then 0.0 else Scoring.Round2(score / totalWeight * 100.0);
  }

  /** The score `Submit` computes: its template's questions and its answers loaded, then the scoring loop. */
  method ScoreResponse(t: Table, responseId: Guid) returns (final: real)
    requires t.WellFormed() && Submittable(t, responseId)
    ensures final == SubmitScore(t, responseId)
  {
    var asg := t.rows[t.rows[responseId].data.response.assignmentId];
    var qs := TemplateQuestions(t, asg.data.assignment.surveyTemplateId);
    var answers := ResponseAnswers(t, responseId);
    final := ComputeScore(qs, answers);
  }

  /** The two rows of a submit are distinct: a response and an assignment. */
  lemma SubmitRowsDistinct(t: Table, responseId: Guid, score: real, dto: SubmitResponseDto, now: DateTime)
    requires t.WellFormed() && Submittable(t, responseId)
    ensures ScoredResponse(t, responseId, score, dto, now).base.id == responseId
    ensures CompletedAssignmentRow(t, responseId).base.id == AssignmentOf(t, responseId) != responseId
  {
  }

  /** Both rows of a submit keep their foreign keys, so the database accepts them. */
  lemma SubmitCommits(t: Table, responseId: Guid, score: real, dto: SubmitResponseDto, now: DateTime)
    requires t.WellFormed() && Committable(t.rows) && Submittable(t, responseId)
    ensures var e1, e2 := ScoredResponse(t, responseId, score, dto, now), CompletedAssignmentRow(t, responseId);
      Committable(t.Put(e1).Put(e2).rows)
  {
    var e1, e2 := ScoredResponse(t, responseId, score, dto, now), CompletedAssignmentRow(t, responseId);
    var aid := AssignmentOf(t, responseId);
    SubmitRowsDistinct(t, responseId, score, dto, now);
    assert References(e1.data) == References(t.rows[responseId].data);
    assert References(e2.data) == References(t.rows[aid].data);
    CommitAfterPut(t, e1);
    CommitAfterPut(t.Put(e1), e2);
  }

  /** The save of a submit audits the two changed rows into `SubmittedWith`. */
  lemma SubmitAudited(t: Table, responseId: Guid, score: real, dto: SubmitResponseDto, now: DateTime, actor: Option<UserId>)
    requires t.WellFormed() && Submittable(t, responseId)
    ensures var e1, e2 := ScoredResponse(t, responseId, score, dto, now), CompletedAssignmentRow(t, responseId);
      Audited(t.Put(e1).Put(e2), Tracked(t.Put(e1), Tracked(t, map[], e1), e2), now, actor)
        == SubmittedWith(t, responseId, score, dto, now, actor)
  {
    var e1, e2 := ScoredResponse(t, responseId, score, dto, now), CompletedAssignmentRow(t, responseId);
    SubmitRowsDistinct(t, responseId, score, dto, now);
    AuditedNothing(t, now, actor);
    AuditedChange(t, map[], e1, now, actor);
    AuditedChange(t.Put(e1), Tracked(t, map[], e1), e2, now, actor);
  }

  /**
   * The writes of `Submit` once the score is known: the response takes the
   * score, the comment and the submission time, its assignment is marked
   * completed, and the save, which always succeeds here, stores both.
   */
  method SaveSubmission(ctx: AppDbContext, responseId: Guid, score: real, dto: SubmitResponseDto, now: DateTime)
    returns (row: Entity)
    requires ctx.Valid() && ctx.store.Valid() && ctx.entries == map[] && ctx.table == ctx.store.table
    requires Submittable(ctx.table, responseId)
    modifies ctx, ctx.store
    ensures ctx.store.Valid()
    ensures ctx.store.table == SubmittedWith(old(ctx.table), responseId, score, dto, now, ctx.user)
    ensures row == ctx.store.table.rows[responseId]
  {
    var t := ctx.table;
    var resp := t.rows[responseId];
    var asg := t.rows[resp.data.response.assignmentId];
    var resp' := Entity(resp.base, ResponseData(resp.data.response.(
      score := score, overallComment := dto.overallComment, submittedAt := Some(now))));
    var asg' := Entity(asg.base, AssignmentData(asg.data.assignment.(completed := true)));
    ctx.Change(resp');
    ctx.Change(asg');
    var ok := ctx.SaveChanges(now);
    assert resp' == ScoredResponse(t, responseId, score, dto, now) && asg' == CompletedAssignmentRow(t, responseId);
    SubmitCommits(t, responseId, score, dto, now);
    SubmitAudited(t, responseId, score, dto, now, ctx.user);
    assert ok;
    row := ctx.table.rows[responseId];
  }

  /**
   * `Submit`: a response that cannot be found with its assignment and
   * template is NotFound. Otherwise the score is summed over the template's
   * questions, scaled by their total weight and rounded, and stored with the
   * comment and the submission time; the assignment is marked completed.
   * Nothing stops a second submit, which scores again and overwrites.
   */
  method Submit(db: Database, p: Principal, responseId: Guid, dto: SubmitResponseDto, actor: Option<UserId>, now: DateTime)
    returns (r: ActionResult<Entity>)
    requires db.Valid()
    modifies db
    ensures db.Valid()
    ensures !Authorize(p, {Evaluator}) ==> r == Denied(p) && db.table == old(db.table)
    ensures Authorize(p, {Evaluator}) && !Submittable(old(db.table), responseId) ==> r == NotFound && db.table == old(db.table)
    ensures Authorize(p, {Evaluator}) && Submittable(old(db.table), responseId) ==>
      db.table == Submitted(old(db.table), responseId, dto, now, actor) && r == Ok(db.table.rows[responseId])
  {
    if !Authorize(p, {Evaluator}) {
      return Denied(p);
    }
    var ctx := new AppDbContext(db, actor);
    if !Submittable(ctx.table, responseId) {
      return NotFound;
    }
    var final := ScoreResponse(ctx.table, responseId);
    var row := SaveSubmission(ctx, responseId, final, dto, now);
    r := Ok(row);
  }

  /**
   * What a submitted response holds: the computed score, the request's
   * comment and the submission time, its assignment completed, every other
   * row as it was; both stay where lookups find them.
   */
  lemma SubmittedState(t: Table, responseId: Guid, dto: SubmitResponseDto, now: DateTime, actor: Option<UserId>)
    requires t.WellFormed() && Submittable(t, responseId)
    ensures var t' := Submitted(t, responseId, dto, now, actor);
      var aid := AssignmentOf(t, responseId);
      && t'.WellFormed() && t'.rows.Keys == t.rows.Keys
      && Submittable(t', responseId) && AssignmentOf(t', responseId) == aid
      && t'.rows[responseId].data.response.score == SubmitScore(t, responseId)
      && t'.rows[responseId].data.response.overallComment == dto.overallComment
      && t'.rows[responseId].data.response.submittedAt == Some(now)
      && t'.rows[responseId].data.response.startedAt == t.rows[responseId].data.response.startedAt
      && t'.rows[aid].data.assignment.completed
      && (forall id :: id in t.rows && id != responseId && id != aid ==> t'.rows[id] == t.rows[id])
  {
  }
}
