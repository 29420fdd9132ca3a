/**
 * The persistence layer: the committed store, the per-request unit of work
 * with its change tracker, the auditing pass that runs before every save,
 * the soft-delete query filter and the unique index on company names.
 */
module Persistence {
  import opened Wrappers
  import opened Clock
  import opened Entities

  /** Every row of the database keyed by id, with the order rows were inserted in. */
  datatype Table = Table(rows: map<Guid, Entity>, order: seq<Guid>)
  {
    ghost predicate WellFormed() {
      && NoDuplicates(order)
      && (forall id :: id in rows <==> id in order)
      && (forall id :: id in rows ==> rows[id].base.id == id)
    }

    /** A new row, placed after every existing one. */
    function Insert(e: Entity): (r: Table)
      requires e.base.id !in rows
      ensures r.rows.Keys == rows.Keys + {e.base.id}
      ensures r.rows[e.base.id] == e
      ensures forall id :: id in rows ==> r.rows[id] == rows[id]
      ensures WellFormed() ==> r.WellFormed()
    {
      Table(rows[e.base.id := e], order + [e.base.id])
    }

    /** An existing row replaced in its place. */
    function Put(e: Entity): (r: Table)
      requires e.base.id in rows
      ensures r.rows.Keys == rows.Keys && r.order == order
      ensures r.rows[e.base.id] == e
      ensures forall id :: id in rows && id != e.base.id ==> r.rows[id] == rows[id]
      ensures WellFormed() ==> r.WellFormed()
    {
      Table(rows[e.base.id := e], order)
    }

    /** The rows whose ids are in `gone` physically removed. */
    function Drop(gone: set<Guid>): (r: Table)
      ensures r.rows.Keys == rows.Keys - gone
      ensures forall id :: id in r.rows ==> r.rows[id] == rows[id]
      ensures WellFormed() ==> r.WellFormed()
      ensures gone * rows.Keys == {} && WellFormed() ==> r == this
    {
      WithoutNothing(order, gone);
      var r := Table(map id | id in rows && id !in gone :: rows[id], Without(order, gone));
      assert forall id :: id in rows && id in gone ==> id in gone * rows.Keys;
      assert gone * rows.Keys == {} ==> r.rows == rows;
      r
    }
  }

  const EmptyTable: Table := Table(map[], [])

  ghost predicate NoDuplicates(s: seq<Guid>) {
    forall i, j :: 0 <= i < j < |s| ==> s[i] != s[j]
  }

  /** `s` with the elements of `gone` taken out, order kept. */
  function Without(s: seq<Guid>, gone: set<Guid>): (r: seq<Guid>)
    ensures forall x :: x in r <==> x in s && x !in gone
    ensures NoDuplicates(s) ==> NoDuplicates(r)
  {
    if s == [] then []
    else
      var rest := Without(s[1..], gone);
      assert forall x :: x in s[1..] ==> x in s;
      if s[0] in gone then rest else [s[0]] + rest
  }

  lemma {:induction false} WithoutNothing(s: seq<Guid>, gone: set<Guid>)
    ensures (forall x :: x in s ==> x !in gone) ==> Without(s, gone) == s
  {
    if s != [] {
      WithoutNothing(s[1..], gone);
    }
  }

  /** The body of the global query filter installed on every entity type: `e => !e.IsDeleted`. */
  predicate NotDeleted(e: Entity) {
    !e.base.isDeleted
  }

  /** A row the filtered `DbSet` returns: present, of the right table, and not soft-deleted. */
  predicate Visible(t: Table, kind: Kind, id: Guid) {
    id in t.rows && KindOf(t.rows[id].data) == kind && NotDeleted(t.rows[id])
  }

  /**
   * The unique index on `Company.Name`. Database indexes ignore the query
   * filter, so soft-deleted companies keep their names reserved.
   */
  predicate UniqueCompanyNames(rows: map<Guid, Entity>) {
    forall a, b | a in rows && b in rows && rows[a].data.CompanyData? && rows[b].data.CompanyData? ::
      rows[a].data.company.name == rows[b].data.company.name ==> a == b
  }

  /** Some company row other than `except`, deleted or not, already has `name`. */
  predicate NameTaken(rows: map<Guid, Entity>, name: string, except: Option<Guid>) {
    exists id :: id in rows && rows[id].data.CompanyData? && rows[id].data.company.name == name && except != Some(id)
  }

  /** The rows an entity's foreign keys name, each with the table it must be in. */
  function References(d: Data): (r: set<(Kind, Guid)>)
    ensures forall ref :: ref in r ==> ref.0 != KindOf(d)
  {
    match d
    case CompanyData(_) => {}
    case AgencyData(a) => {(Companies, a.companyId)}
    case EmployeeData(e) => {(Agencies, e.agencyId)}
    case TemplateData(t) => {(Companies, t.companyId)}
    case QuestionData(q) => {(SurveyTemplates, q.surveyTemplateId)}
    case AssignmentData(a) =>
      {(SurveyTemplates, a.surveyTemplateId), (Agencies, a.agencyId)}
        + (if a.employeeId.Some? then {(Employees, a.employeeId.value)} else {})
    case ResponseData(r) => {(SurveyAssignments, r.assignmentId)}
    case AnswerData(a) => {(SurveyResponses, a.responseId), (Questions, a.questionId)}
    case MediaData(m) =>
      (if m.responseId.Some? then {(SurveyResponses, m.responseId.value)} else {})
        + (if m.answerId.Some? then {(Answers, m.answerId.value)} else {})
  }

  predicate Resolves(rows: map<Guid, Entity>, ref: (Kind, Guid)) {
    ref.1 in rows && KindOf(rows[ref.1].data) == ref.0
  }

  /**
   * Every foreign key names a row of the right table. The database checks
   * this on every write; it knows nothing of soft deletion, so a
   * soft-deleted row still satisfies a reference.
   */
  predicate ForeignKeysHold(rows: map<Guid, Entity>) {
    forall id, ref | id in rows && ref in References(rows[id].data) :: Resolves(rows, ref)
  }

  /** The entity's strings fit their `[MaxLength]` columns. */
  predicate FitsColumns(d: Data) {
    match d
    case CompanyData(c) => |c.name| <= CompanyNameLength
    case AgencyData(a) => |a.name| <= AgencyNameLength && (a.address.Some? ==> |a.address.value| <= AgencyAddressLength)
    case EmployeeData(e) => |e.fullName| <= EmployeeNameLength
    case TemplateData(t) => |t.title| <= TemplateTitleLength
    case QuestionData(q) => |q.text| <= QuestionTextLength
    case _ => true
  }

  predicate ColumnsFit(rows: map<Guid, Entity>) {
    forall id :: id in rows ==> FitsColumns(rows[id].data)
  }

  /** What the database accepts on commit: the column lengths, the unique index and every foreign key. */
  predicate Committable(rows: map<Guid, Entity>) {
    ColumnsFit(rows) && UniqueCompanyNames(rows) && ForeignKeysHold(rows)
  }

  /** Two maps with the same keys and the same entity data agree on every constraint. */
  lemma SameDataSameConstraints(r1: map<Guid, Entity>, r2: map<Guid, Entity>)
    requires r1.Keys == r2.Keys
    requires forall id :: id in r1 ==> r1[id].data == r2[id].data
    ensures Committable(r1) <==> Committable(r2)
  {
    assert forall ref :: Resolves(r1, ref) <==> Resolves(r2, ref);
    assert UniqueCompanyNames(r1) <==> UniqueCompanyNames(r2);
  }

  /**
   * A new row can be committed exactly when its name, if it is a company, is
   * not used by any company row, deleted or not, and its foreign keys name
   * existing rows.
   */
  lemma CommitAfterInsert(t: Table, e: Entity)
    requires e.base.id !in t.rows && Committable(t.rows)
    ensures Committable(t.Insert(e).rows) <==>
      && FitsColumns(e.data)
      && !(e.data.CompanyData? && NameTaken(t.rows, e.data.company.name, None))
      && forall ref :: ref in References(e.data) ==> Resolves(t.rows, ref)
  {
    var r := t.Insert(e).rows;
    assert r[e.base.id] == e;
    if e.data.CompanyData? && NameTaken(t.rows, e.data.company.name, None) {
      var id :| id in t.rows && t.rows[id].data.CompanyData? && t.rows[id].data.company.name == e.data.company.name;
      assert r[id].data.company.name == r[e.base.id].data.company.name && id != e.base.id;
    }
    if !forall ref :: ref in References(e.data) ==> Resolves(t.rows, ref) {
      var ref :| ref in References(e.data) && !Resolves(t.rows, ref);
      assert ref in References(r[e.base.id].data);
      assert !Resolves(r, ref);
    }
    if && FitsColumns(e.data)
       && !(e.data.CompanyData? && NameTaken(t.rows, e.data.company.name, None))
       && forall ref :: ref in References(e.data) ==> Resolves(t.rows, ref)
    {
      assert forall o :: o in t.rows ==> r[o] == t.rows[o];
      assert ColumnsFit(r);
      assert e.data.CompanyData? ==>
        forall o :: o in t.rows && t.rows[o].data.CompanyData? ==> t.rows[o].data.company.name != e.data.company.name;
      assert UniqueCompanyNames(r);
      forall id, ref | id in r && ref in References(r[id].data)
        ensures Resolves(r, ref)
      {
        assert Resolves(t.rows, ref);
      }
    }
  }

  /**
   * A row replaced by one of the same table can be committed exactly when
   * its name, if it is a company, is not used by another company row and its
   * foreign keys name existing rows.
   */
  lemma CommitAfterPut(t: Table, e: Entity)
    requires e.base.id in t.rows && KindOf(t.rows[e.base.id].data) == KindOf(e.data) && Committable(t.rows)
    ensures Committable(t.Put(e).rows) <==>
      && FitsColumns(e.data)
      && !(e.data.CompanyData? && NameTaken(t.rows, e.data.company.name, Some(e.base.id)))
      && forall ref :: ref in References(e.data) ==> Resolves(t.rows, ref)
  {
    var r := t.Put(e).rows;
    assert r[e.base.id] == e;
    if e.data.CompanyData? && NameTaken(t.rows, e.data.company.name, Some(e.base.id)) {
      var id :| id in t.rows && t.rows[id].data.CompanyData? && t.rows[id].data.company.name == e.data.company.name && id != e.base.id;
      assert r[id].data.company.name == r[e.base.id].data.company.name;
    }
    if !forall ref :: ref in References(e.data) ==> Resolves(t.rows, ref) {
      var ref :| ref in References(e.data) && !Resolves(t.rows, ref);
      assert ref in References(r[e.base.id].data);
      assert !Resolves(r, ref);
    }
    if && FitsColumns(e.data)
       && !(e.data.CompanyData? && NameTaken(t.rows, e.data.company.name, Some(e.base.id)))
       && forall ref :: ref in References(e.data) ==> Resolves(t.rows, ref)
    {
      assert forall o :: o in t.rows && o != e.base.id ==> r[o] == t.rows[o];
      assert ColumnsFit(r);
      assert e.data.CompanyData? ==>
        forall o :: o in t.rows && o != e.base.id && t.rows[o].data.CompanyData? ==> t.rows[o].data.company.name != e.data.company.name;
      assert UniqueCompanyNames(r);
      forall id, ref | id in r && ref in References(r[id].data)
        ensures Resolves(r, ref)
      {
        if id != e.base.id {
          assert Resolves(t.rows, ref);
        }
      }
    }
  }

  /** The states of a change-tracker entry that a save acts on. An untracked row is Unchanged. */
  datatype EntryState = Added | Modified | Deleted

  /**
   * The audit fields after the auditing pass. The three state tests run one
   * after another on the entry's current state; the Deleted test comes last,
   * so a row turned from Deleted into Modified is not stamped as updated.
   */
  function AuditBase(s: EntryState, b: BaseEntity, now: DateTime, user: Option<UserId>): (r: BaseEntity)
    ensures r.id == b.id
    ensures s == Added ==> r == b.(createdAt := now, createdBy := user)
    ensures s == Modified ==> r == b.(updatedAt := Some(now), updatedBy := user)
    ensures s == Deleted ==> r == b.(isDeleted := true, deletedAt := Some(now), deletedBy := user)
  {
    var b1 := if s == Added then b.(createdAt := now, createdBy := user) else b;
    var b2 := if s == Modified then b1.(updatedAt := Some(now), updatedBy := user) else b1;
    if s == Deleted then b2.(isDeleted := true, deletedAt := Some(now), deletedBy := user) else b2
  }

  /** The state an entry has after the auditing pass: deletes become updates. */
  function AuditState(s: EntryState): (r: EntryState)
    ensures r != Deleted
    ensures s != Deleted ==> r == s
  {
    if s == Deleted then Modified else s
  }

  /** The auditing pass's work on one entry: its new state and its stamped audit fields. */
  method StampEntry(state: EntryState, b: BaseEntity, now: DateTime, user: Option<UserId>)
    returns (state': EntryState, b': BaseEntity)
    ensures state' == AuditState(state) && b' == AuditBase(state, b, now, user)
  {
    state', b' := state, b;
    if state' == Added {
      b' := b'.(createdAt := now, createdBy := user);
    }
    if state' == Modified {
      b' := b'.(updatedAt := Some(now), updatedBy := user);
    }
    if state' == Deleted {
      state' := Modified;
      b' := b'.(isDeleted := true, deletedAt := Some(now), deletedBy := user);
    }
  }

  /** The table after auditing every tracked entry with one timestamp. */
  function Audited(t: Table, entries: map<Guid, EntryState>, now: DateTime, user: Option<UserId>): (r: Table)
  {
    Table(
      map id | id in t.rows ::
        if id in entries then Entity(AuditBase(entries[id], t.rows[id].base, now, user), t.rows[id].data)
        else t.rows[id],
      t.order)
  }

  function AuditedStates(entries: map<Guid, EntryState>): (r: map<Guid, EntryState>)
  {
    map id | id in entries :: AuditState(entries[id])
  }

  /** The rows of the auditing pass so far: every tracked row outside `pending` audited, every other row as loaded. */
  ghost predicate RowsAuditedExcept(rows: map<Guid, Entity>, t0: Table, e0: map<Guid, EntryState>, pending: set<Guid>,
                                    now: DateTime, user: Option<UserId>) {
    forall id :: id in rows && id in t0.rows ==>
      rows[id] == if id in e0 && id !in pending
                  then Entity(AuditBase(e0[id], t0.rows[id].base, now, user), t0.rows[id].data)
                  else t0.rows[id]
  }

  /** The entry states of the auditing pass so far: those outside `pending` moved on. */
  ghost predicate StatesAuditedExcept(states: map<Guid, EntryState>, e0: map<Guid, EntryState>, pending: set<Guid>) {
    forall id :: id in states && id in e0 ==> states[id] == if id in pending then e0[id] else AuditState(e0[id])
  }

  /** Overwriting a present key leaves the keys as they are. */
  lemma UpdateKeepsKeys<K, V>(m: map<K, V>, k: K, v: V)
    requires k in m
    ensures m[k := v].Keys == m.Keys
  {
  }

  /** One step of the auditing pass: auditing one pending entry keeps both descriptions. */
  lemma AuditStep(rows: map<Guid, Entity>, states: map<Guid, EntryState>, t0: Table, e0: map<Guid, EntryState>,
                  pending: set<Guid>, id: Guid, state: EntryState, b: BaseEntity, now: DateTime, user: Option<UserId>)
    requires id in pending && pending <= e0.Keys <= t0.rows.Keys && states.Keys == e0.Keys && rows.Keys == t0.rows.Keys
    requires RowsAuditedExcept(rows, t0, e0, pending, now, user) && StatesAuditedExcept(states, e0, pending)
    requires state == AuditState(states[id]) && b == AuditBase(states[id], rows[id].base, now, user)
    ensures RowsAuditedExcept(rows[id := Entity(b, rows[id].data)], t0, e0, pending - {id}, now, user)
    ensures StatesAuditedExcept(states[id := state], e0, pending - {id})
  {
  }

  /** A table whose every tracked row carries its audited fields is the audited table. */
  lemma AuditedFromRows(t: Table, entries: map<Guid, EntryState>, now: DateTime, user: Option<UserId>, rows: map<Guid, Entity>)
    requires rows.Keys == t.rows.Keys
    requires forall id :: id in rows ==>
      rows[id] == if id in entries then Entity(AuditBase(entries[id], t.rows[id].base, now, user), t.rows[id].data) else t.rows[id]
    ensures Table(rows, t.order) == Audited(t, entries, now, user)
  {
  }

  lemma AuditedStatesFrom(entries: map<Guid, EntryState>, states: map<Guid, EntryState>)
    requires states.Keys == entries.Keys
    requires forall id :: id in states ==> states[id] == AuditState(entries[id])
    ensures states == AuditedStates(entries)
  {
  }

  /**
   * Auditing touches audit fields only: rows, ids, data and order stay, an
   * untracked row is untouched, every tracked row gets the pass's single
   * timestamp, and the unique index is unaffected.
   */
  lemma AuditedTouchesOnlyAuditFields(t: Table, entries: map<Guid, EntryState>, now: DateTime, user: Option<UserId>)
    requires t.WellFormed()
    ensures var r := Audited(t, entries, now, user);
      && r.rows.Keys == t.rows.Keys && r.order == t.order && r.WellFormed()
      && (forall id :: id in t.rows ==> r.rows[id].data == t.rows[id].data && r.rows[id].base.id == id)
      && (forall id :: id in t.rows && id !in entries ==> r.rows[id] == t.rows[id])
      && (forall id :: id in t.rows && id in entries ==>
            r.rows[id].base.createdAt == now || r.rows[id].base.updatedAt == Some(now) || r.rows[id].base.deletedAt == Some(now))
      && (Committable(r.rows) <==> Committable(t.rows))
  {
    var r := Audited(t, entries, now, user);
    SameDataSameConstraints(r.rows, t.rows);
  }

  /** Auditing with one tracked entry rewrites that row alone. */
  lemma AuditedSingle(t: Table, id: Guid, s: EntryState, now: DateTime, user: Option<UserId>)
    requires t.WellFormed() && id in t.rows
    ensures Audited(t, map[id := s], now, user) == t.Put(Entity(AuditBase(s, t.rows[id].base, now, user), t.rows[id].data))
    ensures AuditedStates(map[id := s]) == map[id := AuditState(s)]
  {
    var a := Audited(t, map[id := s], now, user);
    var p := t.Put(Entity(AuditBase(s, t.rows[id].base, now, user), t.rows[id].data));
    assert a.rows == p.rows;
  }

  /** With nothing tracked, auditing changes nothing. */
  lemma AuditedNothing(t: Table, now: DateTime, user: Option<UserId>)
    ensures Audited(t, map[], now, user) == t
  {
    var a := Audited(t, map[], now, user);
    assert a.rows == t.rows;
  }

  /** No entry is left Deleted after auditing, so a save never removes a row. */
  lemma AuditedNeverDeletes(entries: map<Guid, EntryState>)
    ensures var a := AuditedStates(entries);
      a.Keys == entries.Keys && forall id :: id in a ==> a[id] != Deleted
  {
  }

  /**
   * The change tracker after property assignments gave `e`'s values to its
   * row, as change detection sees them: an untracked row whose values
   * differ becomes Modified; a tracked one keeps its state.
   */
  function Tracked(t: Table, entries: map<Guid, EntryState>, e: Entity): (r: map<Guid, EntryState>)
    requires e.base.id in t.rows
    ensures r.Keys == if e.base.id !in entries && t.rows[e.base.id] != e then entries.Keys + {e.base.id} else entries.Keys
    ensures forall id :: id in entries ==> r[id] == entries[id]
    ensures e.base.id in r && e.base.id !in entries ==> r[e.base.id] == Modified
  {
    if e.base.id !in entries && t.rows[e.base.id] != e then entries[e.base.id := Modified] else entries
  }

  /**
   * Every tracked entry that is not to be inserted names a stored row. The
   * commit updates such an entry's row by key, and an update that matches no
   * row is reported as a concurrency failure.
   */
  predicate RowsMatched(entries: map<Guid, EntryState>, rows: map<Guid, Entity>) {
    forall id :: id in entries && entries[id] != Added ==> id in rows
  }

  /** The committed database, shared by all requests. */
  class Database {
    var table: Table

    ghost predicate Valid()
      reads this
    {
      table.WellFormed() && Committable(table.rows)
    }

    constructor (t: Table)
      requires t.WellFormed() && Committable(t.rows)
      ensures Valid() && table == t
    {
      table := t;
    }
  }

  /**
   * One request's unit of work over the store: the rows as the request sees
   * them, including its own pending changes, and the change tracker.
   */
  class AppDbContext {
    const store: Database
    /** The current-user service's id, or None when the context has no such service. */
    const user: Option<UserId>
    var table: Table
    var entries: map<Guid, EntryState>

    ghost predicate Valid()
      reads this
    {
      table.WellFormed() && entries.Keys <= table.rows.Keys
    }

    constructor (store: Database, user: Option<UserId>)
      requires store.Valid()
      ensures Valid() && this.store == store && this.user == user
      ensures table == store.table && entries == map[]
    {
      this.store := store;
      this.user := user;
      table := store.table;
      entries := map[];
    }

    /** `DbSet.Add`: the entity is tracked as Added. */
    method Add(e: Entity)
      requires Valid() && e.base.id !in table.rows
      modifies this
      ensures Valid()
      ensures table == old(table).Insert(e) && entries == old(entries)[e.base.id := Added]
    {
      table := table.Insert(e);
      entries := entries[e.base.id := Added];
    }

    /** `DbSet.Update`: the entity's values are taken and it is marked Modified, unless it is still to be inserted. */
    method Update(e: Entity)
      requires Valid() && e.base.id in table.rows
      modifies this
      ensures Valid()
      ensures table == old(table).Put(e)
      ensures entries == old(entries)[e.base.id := if e.base.id in old(entries) && old(entries)[e.base.id] == Added then Added else Modified]
    {
      var state := if e.base.id in entries && entries[e.base.id] == Added then Added else Modified;
      table := table.Put(e);
      entries := entries[e.base.id := state];
    }

    /**
     * Property assignments on a tracked entity, as change detection sees
     * them: an Unchanged row whose values differ becomes Modified; a row
     * already Added, Modified or Deleted keeps its state.
     */
    method Change(e: Entity)
      requires Valid() && e.base.id in table.rows
      modifies this
      ensures Valid()
      ensures store.table == old(store.table)
      ensures table == old(table).Put(e)
      ensures entries == Tracked(old(table), old(entries), e)
    {
      if e.base.id !in entries && table.rows[e.base.id] != e {
        entries := entries[e.base.id := Modified];
      }
      table := table.Put(e);
    }

    /**
     * Change detection meeting a new entity through a navigation collection
     * of a tracked entity. Its key is generated by the store, and it already
     * has a value, so the entity is taken to exist and is marked Modified.
     */
    method AttachDiscovered(e: Entity)
      requires Valid() && e.base.id !in table.rows
      modifies this
      ensures Valid()
      ensures store.table == old(store.table)
      ensures table == old(table).Insert(e) && entries == old(entries)[e.base.id := Modified]
    {
      table := table.Insert(e);
      entries := entries[e.base.id := Modified];
    }

    /** `DbContext.Remove`: an Added entity is forgotten, any other is marked Deleted. */
    method Remove(id: Guid)
      requires Valid() && id in table.rows
      modifies this
      ensures Valid()
      ensures id in old(entries) && old(entries)[id] == Added ==>
        table == old(table).Drop({id}) && entries == old(entries) - {id}
      ensures !(id in old(entries) && old(entries)[id] == Added) ==>
        table == old(table) && entries == old(entries)[id := Deleted]
    {
      if id in entries && entries[id] == Added {
        table := table.Drop({id});
        entries := entries - {id};
      } else {
        entries := entries[id := Deleted];
      }
    }

    /** The auditing pass over every tracked entry, with one timestamp for all of them. */
    method ApplyAuditing(now: DateTime)
      requires Valid()
      modifies this
      ensures Valid()
      ensures table == Audited(old(table), old(entries), now, user)
      ensures entries == AuditedStates(old(entries))
    {
      var t0, e0 := table, entries;
      var rows, states, pending := t0.rows, e0, e0.Keys;
      while pending != {}
        invariant pending <= e0.Keys
        invariant states.Keys == e0.Keys && rows.Keys == t0.rows.Keys
        invariant RowsAuditedExcept(rows, t0, e0, pending, now, user)
        invariant StatesAuditedExcept(states, e0, pending)
        decreases pending
      {
        var id :| id in pending;
        var e := rows[id];
        var state, b := StampEntry(states[id], e.base, now, user);
        AuditStep(rows, states, t0, e0, pending, id, state, b, now, user);
        UpdateKeepsKeys(rows, id, Entity(b, e.data));
        UpdateKeepsKeys(states, id, state);
        states := states[id := state];
        rows := rows[id := Entity(b, e.data)];
        pending := pending - {id};
      }
      AuditedFromRows(t0, e0, now, user, rows);
      AuditedStatesFrom(e0, states);
      AuditedTouchesOnlyAuditFields(t0, e0, now, user);
      table, entries := Table(rows, t0.order), states;
    }

    /**
     * `SaveChanges` and `SaveChangesAsync`: audit, then commit. The commit
     * writes every row and removes the rows still marked Deleted, of which
     * auditing leaves none. A string longer than its column, a duplicate
     * company name, a dangling foreign key, or an update of a row that is not
     * stored makes the commit fail and leaves the store as it was.
     */
    method SaveChanges(now: DateTime) returns (ok: bool)
      requires Valid() && store.Valid()
      modifies this, store
      ensures Valid() && store.Valid()
      ensures table == Audited(old(table), old(entries), now, user)
      ensures ok <==> Committable(old(table).rows) && RowsMatched(old(entries), old(store.table).rows)
      ensures ok ==> store.table == table && entries == map[]
      ensures !ok ==> store.table == old(store.table) && entries == AuditedStates(old(entries))
    {
      ghost var t0 := table;
      var matched := RowsMatched(entries, store.table.rows);
      ApplyAuditing(now);
      AuditedTouchesOnlyAuditFields(t0, old(entries), now, user);
      if !Committable(table.rows) || !matched {
        return false;
      }
      var gone := set id | id in entries && entries[id] == Deleted;
      assert gone == {};
      store.table := table.Drop(gone);
      entries := map[];
      ok := true;
    }
  }
}
