/**
 * The persisted entities: every one extends the audited base shape
 * (identity, creation/update/deletion stamps, soft-delete flag).
 */
module Entities {
  import opened Wrappers
  import opened Clock

  /** A GUID, as the 128-bit number whose hexadecimal digits are its textual form. */
  const GuidLimit: nat := 0x1_0000_0000_0000_0000_0000_0000_0000_0000
  type Guid = g: nat | g < GuidLimit

  /** Identity user ids are strings (`ApplicationUser.Id`). */
  type UserId = string

  datatype BaseEntity = BaseEntity(
    id: Guid,
    createdAt: DateTime,
    updatedAt: Option<DateTime>,
    isDeleted: bool,
    deletedAt: Option<DateTime>,
    deletedBy: Option<UserId>,
    createdBy: Option<UserId>,
    updatedBy: Option<UserId>)

  /**
   * The base fields of a freshly constructed entity: `Id = Guid.NewGuid()`
   * (here the fresh `id`), `CreatedAt = DateTime.UtcNow` (here `now`), and
   * every other field at its default.
   */
  function NewBase(id: Guid, now: DateTime): (b: BaseEntity)
    ensures b.id == id && b.createdAt == now && !b.isDeleted
    ensures b.updatedAt.None? && b.deletedAt.None? && b.deletedBy.None?
    ensures b.createdBy.None? && b.updatedBy.None?
  {
    BaseEntity(id, now, None, false, None, None, None, None)
  }

  datatype QuestionType = Text | SingleChoice | MultipleChoice | Number | YesNo | Rating1to5

  /** The enum's underlying integer values. */
  function QuestionTypeOrdinal(t: QuestionType): (n: nat)
    ensures n < 6
  {
    match t
    case Text => 0
    case SingleChoice => 1
    case MultipleChoice => 2
    case Number => 3
    case YesNo => 4
    case Rating1to5 => 5
  }

  function QuestionTypeOf(n: int): Option<QuestionType> {
    if n == 0 then Some(Text)
    else if n == 1 then Some(SingleChoice)
    else if n == 2 then Some(MultipleChoice)
    else if n == 3 then Some(Number)
    else if n == 4 then Some(YesNo)
    else if n == 5 then Some(Rating1to5)
    else None
  }

  /** The ordinals are exactly 0 to 5, one per case. */
  lemma QuestionTypeOrdinals(t: QuestionType, n: int)
    ensures QuestionTypeOf(QuestionTypeOrdinal(t)) == Some(t)
    ensures QuestionTypeOf(n).Some? <==> 0 <= n < 6
    ensures QuestionTypeOf(n).Some? ==> QuestionTypeOrdinal(QuestionTypeOf(n).value) == n
  {
  }

  datatype MediaKind = Image | Video | Audio | Other

  function MediaKindOrdinal(k: MediaKind): (n: nat)
    ensures n < 4
  {
    match k
    case Image => 0
    case Video => 1
    case Audio => 2
    case Other => 3
  }

  /** The `[MaxLength]` limits of the string columns; a longer value is refused by the database. */
  const CompanyNameLength := 200
  const AgencyNameLength := 200
  const AgencyAddressLength := 300
  const EmployeeNameLength := 140
  const TemplateTitleLength := 200
  const QuestionTextLength := 500

  datatype Company = Company(name: string, notes: Option<string>)

  datatype Agency = Agency(companyId: Guid, name: string, address: Option<string>)

  datatype Employee = Employee(agencyId: Guid, fullName: string, position: Option<string>)

  datatype SurveyTemplate = SurveyTemplate(companyId: Guid, title: string, description: Option<string>)

  datatype Question = Question(
    surveyTemplateId: Guid,
    text: string,
    qtype: QuestionType,
    weight: real,
    optionsJson: Option<string>,
    allowComment: bool,
    allowMedia: bool)

  /** A question with the declared initialisers: weight 1, comments and media allowed. */
  function NewQuestion(surveyTemplateId: Guid, text: string, qtype: QuestionType): (q: Question)
    ensures q.surveyTemplateId == surveyTemplateId && q.text == text && q.qtype == qtype
    ensures q.weight == 1.0 && q.allowComment && q.allowMedia && q.optionsJson.None?
  {
    Question(surveyTemplateId, text, qtype, 1.0, None, true, true)
  }

  datatype SurveyAssignment = SurveyAssignment(
    surveyTemplateId: Guid,
    agencyId: Guid,
    employeeId: Option<Guid>,
    evaluatorUserId: UserId,
    dueDate: DateTime,
    completed: bool)

  datatype SurveyResponse = SurveyResponse(
    assignmentId: Guid,
    startedAt: DateTime,
    submittedAt: Option<DateTime>,
    overallComment: Option<string>,
    score: real)

  /** `new SurveyResponse { AssignmentId = a }`: started now, not submitted, score 0. */
  function NewResponse(assignmentId: Guid, now: DateTime): (r: SurveyResponse)
    ensures r.assignmentId == assignmentId && r.startedAt == now
    ensures r.submittedAt.None? && r.overallComment.None? && r.score == 0.0
  {
    SurveyResponse(assignmentId, now, None, None, 0.0)
  }

  /** Every value field is independently nullable. */
  datatype Answer = Answer(
    responseId: Guid,
    questionId: Guid,
    textValue: Option<string>,
    numberValue: Option<real>,
    boolValue: Option<bool>,
    selectedOptionsJson: Option<string>,
    comment: Option<string>)

  /** `new Answer { ResponseId = r, QuestionId = q }`: every value null. */
  function NewAnswer(responseId: Guid, questionId: Guid): (a: Answer)
    ensures a.responseId == responseId && a.questionId == questionId
    ensures a.textValue.None? && a.numberValue.None? && a.boolValue.None?
    ensures a.selectedOptionsJson.None? && a.comment.None?
  {
    Answer(responseId, questionId, None, None, None, None, None)
  }

  /** Both owners are optional; nothing in the type makes them exclusive. */
  datatype MediaFile = MediaFile(
    fileName: string,
    relativePath: string,
    kind: MediaKind,
    sizeBytes: int,
    responseId: Option<Guid>,
    answerId: Option<Guid>)

  datatype Data =
    | CompanyData(company: Company)
    | AgencyData(agency: Agency)
    | EmployeeData(employee: Employee)
    | TemplateData(template: SurveyTemplate)
    | QuestionData(question: Question)
    | AssignmentData(assignment: SurveyAssignment)
    | ResponseData(response: SurveyResponse)
    | AnswerData(answer: Answer)
    | MediaData(media: MediaFile)

  /** The table (DbSet) an entity lives in. */
  datatype Kind = Companies | Agencies | Employees | SurveyTemplates | Questions
                | SurveyAssignments | SurveyResponses | Answers | MediaFiles

  function KindOf(d: Data): Kind {
    match d
    case CompanyData(_) => Companies
    case AgencyData(_) => Agencies
    case EmployeeData(_) => Employees
    case TemplateData(_) => SurveyTemplates
    case QuestionData(_) => Questions
    case AssignmentData(_) => SurveyAssignments
    case ResponseData(_) => SurveyResponses
    case AnswerData(_) => Answers
    case MediaData(_) => MediaFiles
  }

  datatype Entity = Entity(base: BaseEntity, data: Data)

  type QuestionEntity = e: Entity | e.data.QuestionData?
    witness Entity(NewBase(0, 0), QuestionData(NewQuestion(0, "", Text)))

  type AnswerEntity = e: Entity | e.data.AnswerData?
    witness Entity(NewBase(0, 0), AnswerData(NewAnswer(0, 0)))
}
