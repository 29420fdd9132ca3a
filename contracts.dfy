/** Request and response bodies of the HTTP API. */
module Contracts {
  import opened Wrappers
  import opened Clock
  import opened Entities

  datatype RegisterRequest = RegisterRequest(email: string, password: string, role: string, companyId: Option<Guid>)
  datatype LoginRequest = LoginRequest(email: string, password: string)

  /** The company as the API shows it. */
  datatype CompanyDto = CompanyDto(id: Guid, name: string, notes: Option<string>, createdAt: DateTime, createdBy: Option<UserId>)

  function CompanyView(e: Entity): CompanyDto
    requires e.data.CompanyData?
  {
    CompanyDto(e.base.id, e.data.company.name, e.data.company.notes, e.base.createdAt, e.base.createdBy)
  }

  datatype CompanyCreateDto = CompanyCreateDto(name: string, notes: Option<string>)
  datatype CompanyUpdateDto = CompanyUpdateDto(name: string, notes: Option<string>)

  /** The agency as the API shows it. */
  datatype AgencyDto = AgencyDto(id: Guid, companyId: Guid, name: string, address: Option<string>)

  function AgencyView(e: Entity): AgencyDto
    requires e.data.AgencyData?
  {
    AgencyDto(e.base.id, e.data.agency.companyId, e.data.agency.name, e.data.agency.address)
  }

  datatype AgencyCreateDto = AgencyCreateDto(companyId: Guid, name: string, address: Option<string>)
  datatype AgencyUpdateDto = AgencyUpdateDto(name: string, address: Option<string>)

  datatype AssignmentCreateDto = AssignmentCreateDto(
    surveyTemplateId: Guid, agencyId: Guid, employeeId: Option<Guid>, evaluatorUserId: UserId, dueDate: DateTime)

  datatype StartResponseDto = StartResponseDto(assignmentId: Guid)
  datatype AnswerUpsertDto = AnswerUpsertDto(
    questionId: Guid,
    textValue: Option<string>,
    numberValue: Option<real>,
    boolValue: Option<bool>,
    selectedOptionsJson: Option<string>,
    comment: Option<string>)
  datatype SubmitResponseDto = SubmitResponseDto(responseId: Guid, overallComment: Option<string>)

  datatype UserCreateDto = UserCreateDto(email: string, password: string, role: string)
  datatype UserDto = UserDto(id: UserId, email: string, role: string, isActive: bool)
}
