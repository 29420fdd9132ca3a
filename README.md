# MysteryShopper API core, modelled in Dafny

The MysteryShopper API runs mystery-shopper survey campaigns. Companies own
agencies and survey templates. Clients assign a template to an evaluator for
one agency. The evaluator starts a response, answers the questions one by one,
attaches media and submits. Submitting computes a weighted score from 0 to 100.

This project models the rules of that API over an in-memory database:

- **Response lifecycle** (`responses.dfy`: `Start`, `UpsertAnswer`,
  `UploadForAnswer`, `UploadForResponse`, `Submit`).
  - The checks run in the source's order: role, existence, ownership and no duplicate.
  - The scoring loop is a method proved equal to a scoring function (`scoring.dfy`).
  - The function uses exact decimals and round-half-to-even to two places.
- **Persistence layer** (`dbcontext.dfy`, `repository.dfy`, `crud.dfy`).
  - The committed `Database` is a class, and so is the per-request
    `AppDbContext`, which holds the working copy and the change tracker.
  - The auditing pass runs before every save. It stamps created, updated and
    deleted fields with one timestamp and turns every delete into a soft delete.
  - The `!IsDeleted` query filter applies to every read.
  - The `[MaxLength]` string columns, the unique index on company names and
    the foreign keys decide whether a save commits. A refused save leaves the
    store unchanged and becomes an HTTP 500. The `decimal(18,2)` columns and
    the collation of the name index are not modelled (see "Left out").
  - The generic repository's five operations are modelled.
  - `Crud` holds the create, update and delete actions that the company and
    agency controllers share.
- **Role and tenant decisions** (`companies.dfy`, `agencies.dfy`, `users.dfy`,
  `auth.dfy`, `assignments.dfy`, `http.dfy`).
  - The `[Authorize(Roles = ...)]` gate.
  - The admin-first and client-by-company branching of the company and agency reads.
  - User provisioning.
  - Registration and login, with the token's claim list.
  - Creating and reading assignments.
- **Supporting pieces**.
  - Entities with their declared defaults (`entities.dfy`).
  - The identity store as a class (`identity.dfy`).
  - File storage's stored name, relative path and media row (`filestorage.dfy`).
  - The calendar arithmetic behind `yyyy/MM` in ticks (`clock.dfy`).
  - Fixed-width digit strings for GUIDs and dates (`text.dfy`).

Inputs that the running system takes from its environment are parameters here:

- the clock (`now`);
- fresh GUIDs (`id`, `freshId`, `name`);
- the current user's id (`actor`);
- the caller's principal;
- the configuration (`StorageConfig`).

The company and agency reads do not take the caller's user record as an
input. They read it from the identity store `um`, as `um.GetUser(p)`, which
is the source's `GetUserAsync(User)`.

Where the design description and the code disagree, the model follows the
code. There are two exceptions, each the corrected half of a "Findings" row:

- `UsersController.CreateUser` answers Forbid where the code as written
  faults.
- `ResponsesController.UpsertAnswer` inserts a first answer to a question.
  The code as written fails that save with `DbUpdateConcurrencyException`, a
  subclass of `DbUpdateException`, and stores nothing.
  `ResponsesController.UpsertAnswerAsWritten` models the code as written.

Where the code departs from the design:

- A "hard" delete (`_db.Remove`) is turned into a soft delete by the auditing
  pass. The row is never removed physically, and so media files are never
  cascaded.
- `Start` answers BadRequest for a duplicate, not Conflict.
- `UpsertAnswer` and `Submit` check neither the evaluator's ownership nor a
  previous submission. A repeated `Submit` scores the response again and
  overwrites it.
- Clients may create and update any company or agency. Reads by evaluators are
  not narrowed to their own rows.

## Model

| member | source | states |
|---|---|---|
| Entities.NewBase | MysteryShopper/MysteryShopper.API/Domain/Entities.cs:8-19 | a new entity has the fresh id, is created now, is not deleted, and every nullable audit field is null |
| Entities.QuestionTypeOrdinal | MysteryShopper/MysteryShopper.API/Domain/Entities.cs:56-64 | every question type's ordinal lies below 6 |
| Entities.QuestionTypeOrdinals | MysteryShopper/MysteryShopper.API/Domain/Entities.cs:56-64 | ordinal and case translate both ways, and exactly the integers 0 to 5 name a question type |
| Entities.MediaKindOrdinal | MysteryShopper/MysteryShopper.API/Domain/Entities.cs:131 | every media kind's ordinal lies below 4 |
| Entities.NewQuestion | MysteryShopper/MysteryShopper.API/Domain/Entities.cs:66-80 | a new question has weight 1, allows comments and media, and has no options |
| Entities.NewResponse | MysteryShopper/MysteryShopper.API/Domain/Entities.cs:99-108 | a new response is started now, not submitted, has no comment, and scores 0 |
| Entities.NewAnswer | MysteryShopper/MysteryShopper.API/Domain/Entities.cs:114-127 | a new answer names its response and question, and all five values are null |
| Http.Denied | MysteryShopper/MysteryShopper.API/Controllers/ResponsesController.cs:15 | the role gate answers 401 exactly for an anonymous caller and 403 exactly for an authenticated one |
| Persistence.Without | MysteryShopper/MysteryShopper.API/Data/AppDbContext.cs:176-186 | removing ids from the insertion order keeps exactly the other ids and no duplicates |
| Persistence.References | MysteryShopper/MysteryShopper.API/Data/AppDbContext.cs:106-167 | the foreign keys of an entity never name its own table |
| Persistence.SameDataSameConstraints | MysteryShopper/MysteryShopper.API/Data/AppDbContext.cs:101-167 | two row sets with equal keys and equal entity data are both accepted by the database or both refused, whatever their audit fields |
| Persistence.CommitAfterInsert | MysteryShopper/MysteryShopper.API/Data/AppDbContext.cs:101-167 | a new row commits if and only if its strings fit their `[MaxLength]` columns, its company name is unused by every company row, deleted or not, and every foreign key names an existing row |
| Persistence.CommitAfterPut | MysteryShopper/MysteryShopper.API/Data/AppDbContext.cs:101-167 | a replaced row commits if and only if its strings fit their `[MaxLength]` columns, its company name is unused by every other company row and every foreign key names an existing row |
| Persistence.AuditBase | MysteryShopper/MysteryShopper.API/Data/AppDbContext.cs:196-213 | Added stamps created-at and created-by; Modified stamps updated-at and updated-by; Deleted sets the flag and stamps deleted-at and deleted-by, without stamping it as updated |
| Persistence.AuditState | MysteryShopper/MysteryShopper.API/Data/AppDbContext.cs:206-209 | no entry is left Deleted, and every other state is kept |
| Persistence.StampEntry | MysteryShopper/MysteryShopper.API/Data/AppDbContext.cs:196-213 | the three state tests, run one after another, give the new state and fields that AuditState and AuditBase describe |
| Persistence.AuditStep | MysteryShopper/MysteryShopper.API/Data/AppDbContext.cs:194-214 | auditing one pending entry keeps the loop's two descriptions: rows outside the pending set are audited, and entry states outside it have moved on |
| Persistence.AuditedFromRows | MysteryShopper/MysteryShopper.API/Data/AppDbContext.cs:194-214 | once every tracked row carries its audited fields, the rows are the audited table |
| Persistence.AuditedStatesFrom | MysteryShopper/MysteryShopper.API/Data/AppDbContext.cs:206-209 | once every state has moved on, the tracker is the audited tracker |
| Persistence.AuditedTouchesOnlyAuditFields | MysteryShopper/MysteryShopper.API/Data/AppDbContext.cs:191-214 | auditing keeps the keys, the data, the order and untracked rows; it gives every tracked row the same timestamp; it never changes whether a save commits |
| Persistence.AuditedSingle | MysteryShopper/MysteryShopper.API/Data/AppDbContext.cs:194-214 | with one tracked entry, auditing rewrites that row alone |
| Persistence.AuditedNothing | MysteryShopper/MysteryShopper.API/Data/AppDbContext.cs:194 | with nothing tracked, auditing changes nothing |
| Persistence.AuditedNeverDeletes | MysteryShopper/MysteryShopper.API/Data/AppDbContext.cs:206-213 | after auditing no entry is Deleted, so a save never removes a row |
| Persistence.Tracked | MysteryShopper/MysteryShopper.API/Controllers/ResponsesController.cs:53-57 | property assignments mark an untracked row Modified only when its values differ, and a tracked row keeps its state |
| Persistence.AppDbContext.Add | MysteryShopper/MysteryShopper.API/Infrastructure/GenericRepository.cs:25 | the entity is inserted into the working copy and tracked as Added |
| Persistence.AppDbContext.Update | MysteryShopper/MysteryShopper.API/Infrastructure/GenericRepository.cs:41 | the entity replaces its row and is marked Modified, unless it is still to be inserted |
| Persistence.AppDbContext.Change | MysteryShopper/MysteryShopper.API/Controllers/ResponsesController.cs:53-57 | the row takes the entity's values, the store is untouched, and the tracker is as Tracked says |
| Persistence.AppDbContext.Remove | MysteryShopper/MysteryShopper.API/Controllers/CompanyController.cs:107 | an Added entity is forgotten, and any other is marked Deleted |
| Persistence.AppDbContext.ApplyAuditing | MysteryShopper/MysteryShopper.API/Data/AppDbContext.cs:188-215 | the loop over the tracked entries leaves exactly the audited table and the audited states |
| Persistence.AppDbContext.AttachDiscovered | MysteryShopper/MysteryShopper.API/Controllers/ResponsesController.cs:49-51 | a new entity met through a navigation collection, its key already set, joins the working copy tracked Modified, and the store is unchanged |
| Persistence.AppDbContext.SaveChanges | MysteryShopper/MysteryShopper.API/Data/AppDbContext.cs:176-186 | auditing comes first; the save succeeds if and only if the rows satisfy the `[MaxLength]` column limits, the unique index and the foreign keys, and every entry to be updated or deleted names a stored row; then the store is the audited working copy; otherwise the store is unchanged |
| Repository.Select | MysteryShopper/MysteryShopper.API/Infrastructure/GenericRepository.cs:36-37 | a selection is never longer than the ids it scans |
| Repository.Query | MysteryShopper/MysteryShopper.API/Infrastructure/GenericRepository.cs:36-37 | a query returns at most one entity per stored row |
| Repository.SelectMembers | MysteryShopper/MysteryShopper.API/Infrastructure/GenericRepository.cs:36-37 | the scan returns exactly the visible, kept rows named by the ids |
| Repository.QueryMembership | MysteryShopper/MysteryShopper.API/Infrastructure/GenericRepository.cs:36-37 | `Query(f)` returns exactly the rows that are not soft-deleted and satisfy `f`, and `Query(null)` returns every row that is not soft-deleted |
| Repository.QueryHidesDeleted | MysteryShopper/MysteryShopper.API/Data/AppDbContext.cs:170-174 | a soft-deleted row is never returned, whatever the filter |
| Repository.GetByIdFindsVisible | MysteryShopper/MysteryShopper.API/Infrastructure/GenericRepository.cs:29-34 | a row is found if and only if it is present, of the table and not soft-deleted, and then it is that row |
| Repository.GenericRepository.AddAsync | MysteryShopper/MysteryShopper.API/Infrastructure/GenericRepository.cs:23-27 | the entity is tracked as Added and returned unchanged |
| Repository.GenericRepository.GetByIdAsync | MysteryShopper/MysteryShopper.API/Infrastructure/GenericRepository.cs:29-34 | it returns the visible row with that id, or nothing when there is none |
| Repository.GenericRepository.UpdateAsync | MysteryShopper/MysteryShopper.API/Infrastructure/GenericRepository.cs:39-43 | the entity, unchanged, is marked modified |
| Repository.GenericRepository.SoftDeleteAsync | MysteryShopper/MysteryShopper.API/Infrastructure/GenericRepository.cs:45-54 | an unknown id changes nothing; a found row is flagged deleted at now and marked modified, and its deleted-by is left as it was |
| Crud.CreatedRow | MysteryShopper/MysteryShopper.API/Data/AppDbContext.cs:196-200 | a row created in a request keeps its id and table |
| Crud.UpdatedRow | MysteryShopper/MysteryShopper.API/Data/AppDbContext.cs:201-205 | a row updated in a request keeps its id |
| Crud.DeletedRow | MysteryShopper/MysteryShopper.API/Data/AppDbContext.cs:201-213 | a deleted row stays, with its data, flagged and dated now; the hard path records the deleting user, while the soft path is stamped as updated and keeps its deleted-by |
| Crud.DeleteKeepsRowHidden | MysteryShopper/MysteryShopper.API/Controllers/CompanyController.cs:101-114 | after a delete of either kind the row is still stored with its data, but no lookup finds it, and every other row is unchanged |
| Crud.Delete | MysteryShopper/MysteryShopper.API/Controllers/CompanyController.cs:101-114 | a row that cannot be found is NotFound and nothing is saved; otherwise the row is soft-deleted as DeletedRow says and the answer is NoContent |
| Crud.HardDeleteSaved | MysteryShopper/MysteryShopper.API/Controllers/CompanyController.cs:105-113 | the save of a `Remove` stores the row flagged as deleted by the actor, instead of removing it |
| Crud.SoftDeleteSaved | MysteryShopper/MysteryShopper.API/Controllers/CompanyController.cs:109-113 | the save of a soft delete stores the row stamped as updated, and the flag changes no database constraint |
| Crud.InsertThenPut | MysteryShopper/MysteryShopper.API/Data/AppDbContext.cs:196-200 | a row inserted and then overwritten is the same as the final row inserted |
| Crud.PutThenPut | MysteryShopper/MysteryShopper.API/Data/AppDbContext.cs:201-213 | a row overwritten twice is the same as the second row put once |
| Crud.Create | MysteryShopper/MysteryShopper.API/Controllers/CompanyController.cs:81-83 | the save succeeds if and only if the database accepts the new row (column lengths, unique name, foreign keys), and then stores it stamped as created by the actor; otherwise nothing changes |
| Crud.Update | MysteryShopper/MysteryShopper.API/Controllers/CompanyController.cs:91-95 | a row that cannot be found is NotFound; a refused save is a Fault and changes nothing; otherwise the new data is stored, stamped as updated |
| CompanyController.CompanyViews | MysteryShopper/MysteryShopper.API/Controllers/CompanyController.cs:36 | the view list maps each company to its view, in order |
| CompanyController.GetAll | MysteryShopper/MysteryShopper.API/Controllers/CompanyController.cs:29-50 | an admin gets the whole list first; a client gets its own company, NotFound when it is missing, or Forbid when it has no company; anyone else gets Forbid |
| CompanyController.AdminListsVisibleCompanies | MysteryShopper/MysteryShopper.API/Controllers/CompanyController.cs:33-37 | an admin's list holds exactly the views of the companies that are not soft-deleted |
| CompanyController.GetById | MysteryShopper/MysteryShopper.API/Controllers/CompanyController.cs:53-74 | an admin reads any company that can be found; a client is refused before the lookup unless the id is its own company's; anyone else gets Forbid |
| CompanyController.TenantSeesOwnCompanyOnly | MysteryShopper/MysteryShopper.API/Controllers/CompanyController.cs:38-71 | a caller that is not an admin never reads a company other than its own user's |
| CompanyController.Create | MysteryShopper/MysteryShopper.API/Controllers/CompanyController.cs:77-85 | a name over 200 characters, or one already used by any company row, even a deleted one, fails the save; otherwise the company is stored and shown |
| CompanyController.CreatedCompanyIsFound | MysteryShopper/MysteryShopper.API/Controllers/CompanyController.cs:79-85 | a created company is found by its id, with the request's name and notes and the actor as its creator |
| CompanyController.Update | MysteryShopper/MysteryShopper.API/Controllers/CompanyController.cs:87-97 | a missing company is NotFound; a name over 200 characters, or one another company has, fails the save; otherwise the new name and notes are stored, with no tenant check |
| CompanyController.Delete | MysteryShopper/MysteryShopper.API/Controllers/CompanyController.cs:99-115 | admins only: NotFound for a company that cannot be found, otherwise the hard or soft delete of Crud.Delete |
| AgencyController.AgencyViews | MysteryShopper/MysteryShopper.API/Controllers/AgencyController.cs:36 | the view list maps each agency to its view, in order |
| AgencyController.ViewsOfQuery | MysteryShopper/MysteryShopper.API/Controllers/AgencyController.cs:35-47 | the shown list of a query holds exactly the views of the visible agencies that pass the filter |
| AgencyController.GetAll | MysteryShopper/MysteryShopper.API/Controllers/AgencyController.cs:28-51 | an admin is served first; a client with no company gets Forbid, and otherwise its company's agencies; anyone else gets Forbid |
| AgencyController.ListedAgencies | MysteryShopper/MysteryShopper.API/Controllers/AgencyController.cs:33-48 | an admin's list holds every agency that is not soft-deleted; a client's holds exactly those whose company is its user's |
| AgencyController.GetById | MysteryShopper/MysteryShopper.API/Controllers/AgencyController.cs:53-72 | a missing agency is NotFound for every caller; an admin reads it; a client gets Forbid if and only if the agency's company is not its user's; anyone else gets Forbid |
| AgencyController.Create | MysteryShopper/MysteryShopper.API/Controllers/AgencyController.cs:75-83 | the save fails when the name is over 200 characters, the address over 300, or the company id names no company row (a deleted one will do); otherwise the agency is stored and shown |
| AgencyController.Relabel | MysteryShopper/MysteryShopper.API/Controllers/AgencyController.cs:91 | copying a new name and address keeps the agency's foreign keys |
| AgencyController.Update | MysteryShopper/MysteryShopper.API/Controllers/AgencyController.cs:85-95 | a missing agency is NotFound; a name over 200 characters or an address over 300 fails the save; otherwise the new name and address are stored, and no foreign key can fail since the company is kept |
| AgencyController.Delete | MysteryShopper/MysteryShopper.API/Controllers/AgencyController.cs:97-113 | admins only, with the same NotFound, hard and soft branching as companies |
| AssignmentsController.NewAssignment | MysteryShopper/MysteryShopper.API/Controllers/AssignmentsController.cs:21-28 | the five request fields are copied verbatim, and the assignment is not completed |
| AssignmentsController.AssignmentCommits | MysteryShopper/MysteryShopper.API/Controllers/AssignmentsController.cs:29-30 | a new assignment commits if and only if its template, its agency and its employee, when one is named, have rows |
| AssignmentsController.Create | MysteryShopper/MysteryShopper.API/Controllers/AssignmentsController.cs:19-32 | clients only; no template, agency or employee checks beyond the database's own; fails the save exactly when a named row is missing; otherwise returns Created with the stored assignment |
| AssignmentsController.Get | MysteryShopper/MysteryShopper.API/Controllers/AssignmentsController.cs:35-39 | an absent or soft-deleted assignment is NotFound, and otherwise it is returned |
| AssignmentsController.CreatedAssignmentIsFound | MysteryShopper/MysteryShopper.API/Controllers/AssignmentsController.cs:29-38 | a created assignment is found by its new id, with the request's fields, created by the actor at now |
| Identity.FirstUser | MysteryShopper/MysteryShopper.API/Controllers/AuthController.cs:38 | the first user satisfying the predicate, or none if and only if no user does |
| Identity.WithoutUser | MysteryShopper/MysteryShopper.API/Controllers/UsersController.cs:96 | exactly the users with another id remain |
| Identity.WithoutUserCovered | MysteryShopper/MysteryShopper.API/Controllers/UsersController.cs:96 | removing a user and its role entry keeps the role map covering exactly the stored users |
| Identity.UserManager.FindById | MysteryShopper/MysteryShopper.API/Controllers/UsersController.cs:93 | a stored user with that id, or none if and only if no user has it |
| Identity.UserManager.FindByEmail | MysteryShopper/MysteryShopper.API/Controllers/AuthController.cs:38 | a stored user with that email, or none if and only if no user has it |
| Identity.UserManager.CreateAsync | MysteryShopper/MysteryShopper.API/Controllers/UsersController.cs:47-49 | succeeds if and only if the validators and the unique user name allow it, and then appends the user with no roles; otherwise nothing changes |
| Identity.UserManager.AddToRoleAsync | MysteryShopper/MysteryShopper.API/Controllers/UsersController.cs:51 | an unknown role is an error; a held role is not added twice; otherwise the role is appended |
| Identity.UserManager.DeleteAsync | MysteryShopper/MysteryShopper.API/Controllers/UsersController.cs:96 | the user and its role entry are removed |
| AuthController.Register | MysteryShopper/MysteryShopper.API/Controllers/AuthController.cs:23-33 | a role outside the three system roles is BadRequest before any user is created; a refused creation is BadRequest with no role; otherwise the user, with the company copied verbatim, gets the role |
| AuthController.Login | MysteryShopper/MysteryShopper.API/Controllers/AuthController.cs:36-63 | an unknown email or a wrong password is Unauthorized; a user without roles, or an expiry past the calendar's end, throws; a token expires twelve hours after now |
| AuthController.FirstClaim | MysteryShopper/MysteryShopper.API/Controllers/ResponsesController.cs:28 | the value of the first claim of a kind, or none if and only if there is no such claim |
| AuthController.LoginToken | MysteryShopper/MysteryShopper.API/Controllers/AuthController.cs:43-49 | the claims are, in order, the subject (the user's id), the email, the name identifier (the user's id) and the user's first role; so there is exactly one role claim, and the bearer is the user holding only that role |
| AuthController.RegisteredUserLogsIn | MysteryShopper/MysteryShopper.API/Controllers/AuthController.cs:28-49 | a user registered with a role and an unshared email logs in with its password and becomes that role |
| UsersController.CreateUserPlan | MysteryShopper/MysteryShopper.API/Controllers/UsersController.cs:24-45 | in order: the role gate; an unknown role is BadRequest; a client may only ask for the evaluator role, even when it is also an admin; a client's user joins its company and an admin's joins none; the user name and email are the requested email, already confirmed |
| UsersController.ClientRefusalDiffers | MysteryShopper/MysteryShopper.API/Controllers/UsersController.cs:33-34 | a client asking for a role other than evaluator makes the code as written fault, where the corrected plan answers Forbid |
| UsersController.ClientRefusalOnlyDifference | MysteryShopper/MysteryShopper.API/Controllers/UsersController.cs:27-45 | on every other input the code as written and the corrected plan agree |
| UsersController.RefusalUsed | MysteryShopper/MysteryShopper.API/Controllers/UsersController.cs:33-34 | for a client asking for another role, the refusal is the answer |
| UsersController.RefusalUnused | MysteryShopper/MysteryShopper.API/Controllers/UsersController.cs:27-45 | for any other caller or role, the choice of refusal does not matter |
| UsersController.CreateUser | MysteryShopper/MysteryShopper.API/Controllers/UsersController.cs:25-60 | the corrected action of the first Findings row (a client asking for a role other than evaluator gets Forbid, where the code as written faults); once the guards pass, a refused creation is BadRequest with no role given; otherwise the user is stored with the requested role as its only role, and shown as active with that role |
| UsersController.ListedMembers | MysteryShopper/MysteryShopper.API/Controllers/UsersController.cs:67-85 | the list holds a user's entry if and only if the user holds the role, or every user's entry when no role is given, with one entry per user in that case |
| UsersController.ListedStep | MysteryShopper/MysteryShopper.API/Controllers/UsersController.cs:70-83 | one more user appends its entry exactly when it passes the filter |
| UsersController.GetUsers | MysteryShopper/MysteryShopper.API/Controllers/UsersController.cs:65-86 | the loop builds exactly the filtered list, in user order, each entry showing the user's first role or "" |
| UsersController.DeleteUser | MysteryShopper/MysteryShopper.API/Controllers/UsersController.cs:91-100 | an unknown id is NotFound and changes nothing; otherwise the user and its roles are removed and the answer is NoContent |
| Scoring.Clamp | MysteryShopper/MysteryShopper.API/Controllers/ResponsesController.cs:104 | the result lies in the bounds, equals the value inside them, and equals the crossed bound outside them |
| Scoring.RoundHalfEven | MysteryShopper/MysteryShopper.API/Controllers/ResponsesController.cs:110 | the result is an integer within one half of the value |
| Scoring.Round2 | MysteryShopper/MysteryShopper.API/Controllers/ResponsesController.cs:110 | the result lies within half a hundredth of the value |
| Scoring.Round2Exact | MysteryShopper/MysteryShopper.API/Controllers/ResponsesController.cs:110 | a value with two decimals is left as it is |
| Scoring.Round2Between | MysteryShopper/MysteryShopper.API/Controllers/ResponsesController.cs:110 | rounding keeps a value between two two-decimal bounds |
| Scoring.Round2Monotone | MysteryShopper/MysteryShopper.API/Controllers/ResponsesController.cs:110 | rounding is monotone |
| Scoring.Round2Midpoints | MysteryShopper/MysteryShopper.API/Controllers/ResponsesController.cs:110 | ties go to the even neighbour: 0.125 gives 0.12, 0.135 gives 0.14, and -0.125 gives -0.12 |
| Scoring.PartialValue | MysteryShopper/MysteryShopper.API/Controllers/ResponsesController.cs:101-107 | yes/no earns 1 if and only if true, else 0; a rating earns its clamped value over 5 and no answer earns 0; a number counts as given, null as 0; text and choice questions earn 0 |
| Scoring.FindAnswer | MysteryShopper/MysteryShopper.API/Controllers/ResponsesController.cs:98 | an answer to the question, or none if and only if no answer names it |
| Scoring.WeightedSumNoAnswers | MysteryShopper/MysteryShopper.API/Controllers/ResponsesController.cs:94-99 | with no answers every question is skipped, so the sum is 0 |
| Scoring.ScoreNoAnswers | MysteryShopper/MysteryShopper.API/Controllers/ResponsesController.cs:94-110 | a response with no answers scores 0 |
| Scoring.WeightedSumAtMaximum | MysteryShopper/MysteryShopper.API/Controllers/ResponsesController.cs:94-108 | every question answered at its maximum makes the sum equal to the total weight |
| Scoring.ScoreAllMaximal | MysteryShopper/MysteryShopper.API/Controllers/ResponsesController.cs:94-110 | every question answered at its maximum (true, 5 or 1) scores 100 |
| Scoring.FullRatio | MysteryShopper/MysteryShopper.API/Controllers/ResponsesController.cs:110 | a nonzero total over itself is 100 percent |
| Scoring.RatioBounds | MysteryShopper/MysteryShopper.API/Controllers/ResponsesController.cs:110 | a sum between 0 and its nonzero total is between 0 and 100 percent |
| Scoring.ContributionBounds | MysteryShopper/MysteryShopper.API/Controllers/ResponsesController.cs:101-108 | with a non-negative weight and a number answer on 0..1, a question adds between 0 and its weight |
| Scoring.WeightedSumBounds | MysteryShopper/MysteryShopper.API/Controllers/ResponsesController.cs:94-108 | under the same assumptions the sum lies between 0 and the total weight |
| Scoring.ScoreBounds | MysteryShopper/MysteryShopper.API/Controllers/ResponsesController.cs:110 | with no negative weight and number answers on 0..1, the score lies on 0..100, as the source's comment says |
| Scoring.RatingContribution | MysteryShopper/MysteryShopper.API/Controllers/ResponsesController.cs:104 | an answered rating question adds between a fifth of its weight and its whole weight |
| Scoring.SeedScore | MysteryShopper/MysteryShopper.API/Data/DbInitializer.cs:131-157 | example, not a property: on the seeded template, a yes, a rating of 3 and a text answer score 73.33 |
| ResponsesController.AnyResponse | MysteryShopper/MysteryShopper.API/Controllers/ResponsesController.cs:32 | `AnyAsync` on the assignment's responses is true if and only if a response of the assignment can be found |
| ResponsesController.NewResponseCommits | MysteryShopper/MysteryShopper.API/Controllers/ResponsesController.cs:35-37 | a new response commits if and only if its assignment has a row |
| ResponsesController.Start | MysteryShopper/MysteryShopper.API/Controllers/ResponsesController.cs:26-38 | evaluators only; NotFound for an assignment that cannot be found, then Forbid when it is another evaluator's, then BadRequest when it has a response, with nothing inserted; otherwise exactly one response, started now with score 0, is stored and returned |
| ResponsesController.StartLeavesOneResponse | MysteryShopper/MysteryShopper.API/Controllers/ResponsesController.cs:32-38 | after a start the assignment has a response, so a second start is refused, and no assignment has two responses |
| ResponsesController.AnswerFor | MysteryShopper/MysteryShopper.API/Controllers/ResponsesController.cs:47 | the response's answer to the question as stored, or none if and only if it has none that can be found |
| ResponsesController.Stamp | MysteryShopper/MysteryShopper.API/Data/AppDbContext.cs:201-205 | a row given new data is stored unchanged if the data is the same, and stamped as updated otherwise |
| ResponsesController.AuditedChange | MysteryShopper/MysteryShopper.API/Controllers/ResponsesController.cs:53-59 | after property assignments on a loaded row, the save stores that row as Stamp says and audits every other row as before |
| ResponsesController.Upserted | MysteryShopper/MysteryShopper.API/Controllers/ResponsesController.cs:47-59 | the table after an upsert is well formed |
| ResponsesController.NewAnswerCommits | MysteryShopper/MysteryShopper.API/Controllers/ResponsesController.cs:48-52 | a new answer of an existing response commits if and only if its question has a row |
| ResponsesController.UpsertSaveNew | MysteryShopper/MysteryShopper.API/Controllers/ResponsesController.cs:48-59 | for the corrected action, which tracks the new answer as Added: the save that adds an answer commits if and only if the question row exists, and stores Upserted |
| ResponsesController.UpsertSaveExisting | MysteryShopper/MysteryShopper.API/Controllers/ResponsesController.cs:53-59 | the save that overwrites an answer always commits and stores Upserted |
| ResponsesController.UpsertAnswer | MysteryShopper/MysteryShopper.API/Controllers/ResponsesController.cs:42-60 | the corrected action of the second Findings row (the new answer is added explicitly): NotFound for a response that cannot be found; a new answer to a question with no row fails the save; otherwise the database becomes Upserted and the answer is Ok; there is no ownership or submission check |
| ResponsesController.UpsertAnswerAsWritten | MysteryShopper/MysteryShopper.API/Controllers/ResponsesController.cs:42-60 | the code as written: NotFound for a response that cannot be found; a response with no answer to the question faults with `DbUpdateConcurrencyException` and the database is unchanged, whatever the question; overwriting an existing answer is Ok and the database becomes Upserted |
| ResponsesController.NewAnswerLostAsWritten | MysteryShopper/MysteryShopper.API/Controllers/ResponsesController.cs:48-51 | for a first answer whose question row exists, the entry tracked Modified names no stored row, so the as-written save fails; tracked Added it commits, and the response's answer to the question then holds the request's values |
| ResponsesController.UpsertedRows | MysteryShopper/MysteryShopper.API/Controllers/ResponsesController.cs:47-57 | for the corrected action: the written row is the response's answer to the question and holds exactly the request's values, and every other row is as it was |
| ResponsesController.UpsertedRowsFound | MysteryShopper/MysteryShopper.API/Controllers/ResponsesController.cs:53-57 | an existing answer is overwritten in place, and no row is added |
| ResponsesController.UpsertKeepsOneAnswer | MysteryShopper/MysteryShopper.API/Controllers/ResponsesController.cs:47-52 | for the corrected action: an upsert keeps at most one answer per question for every response |
| ResponsesController.OneAnswerAfterWrite | MysteryShopper/MysteryShopper.API/Controllers/ResponsesController.cs:47-52 | writing the question's only answer, or its first one, keeps at most one answer per question |
| ResponsesController.UpsertOverwrites | MysteryShopper/MysteryShopper.API/Controllers/ResponsesController.cs:47-57 | for the corrected action: afterwards the question's answer is found with exactly the request's five values, nulls included, and every other lookup finds what it found before |
| ResponsesController.AnswersAfterWrite | MysteryShopper/MysteryShopper.API/Controllers/ResponsesController.cs:47 | after the write, the question's lookup finds the written row and every other lookup is unchanged |
| ResponsesController.OtherAnswerUnchanged | MysteryShopper/MysteryShopper.API/Controllers/ResponsesController.cs:47 | the lookup for any other response and question pair is unchanged by the write |
| ResponsesController.UploadForAnswer | MysteryShopper/MysteryShopper.API/Controllers/ResponsesController.cs:65-71 | NotFound unless an answer of the response to the question can be found; otherwise the stored media row names both the response and that answer |
| ResponsesController.UploadForResponse | MysteryShopper/MysteryShopper.API/Controllers/ResponsesController.cs:75-81 | NotFound for a response that cannot be found; otherwise the stored media row names the response and no answer |
| ResponsesController.SaveMedia | MysteryShopper/MysteryShopper.API/Infrastructure/Files/IFileStorage.cs:42-44 | a media row whose owners exist is stored, stamped as created, and returned |
| ResponsesController.TemplateQuestionsMembers | MysteryShopper/MysteryShopper.API/Controllers/ResponsesController.cs:86-91 | the loaded questions are exactly those of the template that can be found, each as stored |
| ResponsesController.ResponseAnswersMembers | MysteryShopper/MysteryShopper.API/Controllers/ResponsesController.cs:86-87 | the loaded answers are exactly those of the response that can be found, each as stored |
| ResponsesController.ComputeScore | MysteryShopper/MysteryShopper.API/Controllers/ResponsesController.cs:94-110 | the accumulating loop returns exactly Scoring.Score of the questions and answers |
| ResponsesController.ScoreResponse | MysteryShopper/MysteryShopper.API/Controllers/ResponsesController.cs:86-110 | the score of the response's loaded questions and answers |
| ResponsesController.SubmitRowsDistinct | MysteryShopper/MysteryShopper.API/Controllers/ResponsesController.cs:111-113 | the response and its assignment are two different rows |
| ResponsesController.SubmitCommits | MysteryShopper/MysteryShopper.API/Controllers/ResponsesController.cs:115 | both changed rows keep their foreign keys, so the save commits |
| ResponsesController.SubmitAudited | MysteryShopper/MysteryShopper.API/Controllers/ResponsesController.cs:111-115 | the save audits the two changed rows into SubmittedWith |
| ResponsesController.SaveSubmission | MysteryShopper/MysteryShopper.API/Controllers/ResponsesController.cs:110-116 | the store becomes SubmittedWith the given score, and the returned row is the stored response |
| ResponsesController.Submit | MysteryShopper/MysteryShopper.API/Controllers/ResponsesController.cs:84-117 | NotFound when the response, its assignment or its template cannot be found; otherwise the database becomes Submitted and the stored response is returned |
| ResponsesController.SubmittedState | MysteryShopper/MysteryShopper.API/Controllers/ResponsesController.cs:110-115 | the response holds the computed score, the comment and submitted-at now, and keeps its start; its assignment is completed; every other row is unchanged; the response can be submitted again |
| FileStorage.Root | MysteryShopper/MysteryShopper.API/Infrastructure/Files/IFileStorage.cs:21 | the configured root, or "wwwroot" when the key is missing |
| FileStorage.UploadsFolder | MysteryShopper/MysteryShopper.API/Infrastructure/Files/IFileStorage.cs:22 | the configured folder, or "uploads" when the key is missing |
| FileStorage.ExtensionBeforeShape | MysteryShopper/MysteryShopper.API/Infrastructure/Files/IFileStorage.cs:28 | the backward scan yields a suffix made of a '.' and at least one character that is neither '.' nor '/', or nothing |
| FileStorage.GetExtensionShape | MysteryShopper/MysteryShopper.API/Infrastructure/Files/IFileStorage.cs:28 | `Path.GetExtension` is empty, or a suffix of the file name: a '.' after the last '/' and at least one more character |
| FileStorage.GuidN | MysteryShopper/MysteryShopper.API/Infrastructure/Files/IFileStorage.cs:28 | the "N" format has 32 lower-case hexadecimal digits |
| FileStorage.GuidFitsN | MysteryShopper/MysteryShopper.API/Infrastructure/Files/IFileStorage.cs:28 | 32 hexadecimal digits hold exactly a 128-bit GUID |
| FileStorage.GuidNRoundTrip | MysteryShopper/MysteryShopper.API/Infrastructure/Files/IFileStorage.cs:28 | the "N" form gives the GUID back |
| FileStorage.SafeNameParts | MysteryShopper/MysteryShopper.API/Infrastructure/Files/IFileStorage.cs:28 | a stored name takes apart into the GUID's 32 digits, which give the GUID back, and the client file's extension |
| FileStorage.SafeNamesDistinct | MysteryShopper/MysteryShopper.API/Infrastructure/Files/IFileStorage.cs:28 | two different GUIDs never give the same stored name, whatever the file names |
| FileStorage.ExtensionLacksSeparator | MysteryShopper/MysteryShopper.API/Infrastructure/Files/IFileStorage.cs:28 | an extension has no '/' |
| FileStorage.SafeNameHasNoSeparator | MysteryShopper/MysteryShopper.API/Infrastructure/Files/IFileStorage.cs:28-29 | a stored name has no '/' and so never leaves the dated folder |
| FileStorage.DatePathParts | MysteryShopper/MysteryShopper.API/Infrastructure/Files/IFileStorage.cs:23 | "yyyy/MM" takes apart into four digits that read back as the year of now, a '/', and two digits that read back as its month |
| FileStorage.MonthFolderParts | MysteryShopper/MysteryShopper.API/Infrastructure/Files/IFileStorage.cs:23 | the same for any year from 1 to 9999 and month from 1 to 12 |
| FileStorage.PadParses | MysteryShopper/MysteryShopper.API/Infrastructure/Files/IFileStorage.cs:23 | a number below 10^w reads back from its w padded digits |
| FileStorage.RelativePathParts | MysteryShopper/MysteryShopper.API/Infrastructure/Files/IFileStorage.cs:23-36 | the relative path is "/", the uploads folder, "/", the date folder, "/", and the stored name |
| FileStorage.MediaEntityRecordsUpload | MysteryShopper/MysteryShopper.API/Infrastructure/Files/IFileStorage.cs:33-41 | the media row keeps the client's file name and length, the kind and both owners verbatim, and its path ends in the stored name |
| FileStorage.MediaCommits | MysteryShopper/MysteryShopper.API/Infrastructure/Files/IFileStorage.cs:42-43 | a media row whose owners have rows can be committed |
| FileStorage.CommitOwned | MysteryShopper/MysteryShopper.API/Infrastructure/Files/IFileStorage.cs:42-43 | the same for any media row, whatever its path |
| FileStorage.LocalFileStorage.SaveAsync | MysteryShopper/MysteryShopper.API/Infrastructure/Files/IFileStorage.cs:19-45 | the media row is added and the whole unit of work is saved and audited; the audited row is returned, or none when the database refuses the save (a column, index or key violation, or a pending update of a row that is not stored) |
| Clock.DaysToMonth | MysteryShopper/MysteryShopper.API/Infrastructure/Files/IFileStorage.cs:23 | thirteen strictly increasing month starts, from 0 to 365 or 366 days |
| Clock.YearDayOf | MysteryShopper/MysteryShopper.API/Infrastructure/Files/IFileStorage.cs:23 | the year lies on 1..9999, and the day lies within that year |
| Clock.MonthFrom | MysteryShopper/MysteryShopper.API/Infrastructure/Files/IFileStorage.cs:23 | the month whose days contain the day of the year |
| Clock.DatePart | MysteryShopper/MysteryShopper.API/Infrastructure/Files/IFileStorage.cs:23 | the year and month of an instant, with the month on 1..12 and containing the day |
| Clock.DatePartOfFirstTick | MysteryShopper/MysteryShopper.API/Infrastructure/Files/IFileStorage.cs:23 | example, not a property: tick 0 is January of year 1 |
| Clock.DatePartOfSeptember2025 | MysteryShopper/MysteryShopper.API/Infrastructure/Files/IFileStorage.cs:23 | example, not a property: 2025-09-15 gives the folder 2025/09 |
| Clock.DatePartOfLastTick | MysteryShopper/MysteryShopper.API/Infrastructure/Files/IFileStorage.cs:23 | example, not a property: the last tick is December of 9999 |
| Text.Pow | MysteryShopper/MysteryShopper.API/Infrastructure/Files/IFileStorage.cs:28 | a power of a positive base is positive |
| Text.DigitChar | MysteryShopper/MysteryShopper.API/Infrastructure/Files/IFileStorage.cs:28 | a digit's character reads back as the digit |
| Text.Pad | MysteryShopper/MysteryShopper.API/Infrastructure/Files/IFileStorage.cs:23 | exactly w characters, each a digit of the base |
| Text.ParsePad | MysteryShopper/MysteryShopper.API/Infrastructure/Files/IFileStorage.cs:28 | padding loses nothing when the number fits in w digits |
| Text.ParseSnoc | MysteryShopper/MysteryShopper.API/Infrastructure/Files/IFileStorage.cs:28 | one more digit multiplies by the base and adds the digit |
| Text.PadInjective | MysteryShopper/MysteryShopper.API/Infrastructure/Files/IFileStorage.cs:28 | different numbers that fit in w digits have different padded forms |

## Left out

- Configuration, dependency injection, JWT validation, Swagger and the
  Identity password policy (`Program.cs`) are framework wiring. The password
  and user validators are the abstract `accepts` of `UserManager`.
- Seed data is not modelled, except the seeded template's three questions,
  which serve as a concrete scoring example (`Scoring.SeedScore`).
- The thin CRUD controllers are not modelled: the survey template, assignment,
  response, employee, question, answer, media and surveys controllers. Their
  delete copies `Crud.Delete`. Because they write rows without any checks,
  they can break the one-response-per-assignment and one-answer-per-question
  invariants, which this model proves only for `Start` and `UpsertAnswer`.
- AutoMapper and the unit-of-work factory are not modelled. A mapping is the
  explicit copy function each controller uses (`Rename`, `Relabel`,
  `NewCompany`, `NewAgency`, `CompanyView`, `AgencyView`).
- Password hashing is not modelled: a password is kept verbatim. Token
  signing, issuer and audience are left out, and a token is its claims and its
  expiry. E-mail and role-name normalisation are left out.
- The file write, the directory creation and the request size limit are I/O.
  The storage root is only used for the absolute path, which is not modelled;
  `FileStorage.Root` states its default.
- EF Core's `Include` loading is modelled by the filtered lookups it amounts
  to. Delete rules, Restrict and Cascade, are not modelled: no row is ever
  physically removed, so they cannot fire.
- The database's return order, which SQL does not fix, is taken to be
  insertion order. `FirstOrDefault` and the included collections follow it.
- Concurrency and async are left out: every action is atomic. The race
  between two concurrent `Start` calls is therefore not modelled.
- The clock and GUID generation are inputs. One `now` stands for every
  `DateTime.UtcNow` read in a request, within one request. The date
  separator is taken to be '/', whatever the culture.
- `Path.GetExtension` is modelled with '/' as the only directory separator.
- SaveChanges: the `decimal(18,2)` columns (the question weight, the answer's
  number value and the response's score, none given a precision) are not
  modelled. A value with more than two decimals is stored as the request
  gives it, and a value of 10^16 or more does not fail the save. How the
  database rounds or refuses such values is provider behaviour that the
  model does not fix.
- SaveChanges: the unique name index compares names with plain string
  equality. The database collation, which is usually case-insensitive, is
  not modelled. So "KFC" and "kfc" may both be stored in the model.
- Crud.Create: acceptance is Committable, which leaves out the decimal
  scale and the collation as SaveChanges does.
- Crud.Update: the same gap as Crud.Create.
- CompanyController.Create: two names that differ only in case are both
  accepted, because the collation is left out.
- CompanyController.Update: the same collation gap as CompanyController.Create.
- ResponsesController.UpsertAnswer: a number value is stored exactly, with
  no rounding to the column's two decimals and no overflow failure.
- ResponsesController.UpsertedRows: "exactly the request's values" holds for
  the number value only up to the column's scale, which is left out.
- ResponsesController.UpsertOverwrites: the same scale gap as UpsertedRows.
- ResponsesController.UploadForAnswer: the result is the value the action
  returns, before JSON serialisation. The returned media row and its
  answer refer to each other once the context fixes up the navigations.
  With the default serializer settings, serialising that graph throws after
  the save has committed, and this is not modelled.
- ResponsesController.UploadForResponse: the same serialisation gap, with the
  media row and its response.
- ResponsesController.Submit: it returns a response whose included answers
  point back to it, and the model ends at the returned value, before JSON
  serialisation. It also does not model a score too large for the
  `decimal(18,2)` score column, which would fail the save.
- ResponsesController.SaveSubmission: there is no score-overflow case, for the
  same reason as Submit.
- String lengths are counted in Dafny characters, not in UTF-16 code units.
- `decimal` is an exact real number. Its 28-digit precision limit and its
  overflow are left out.
- An exception escaping an action is `Fault` carrying the exception's type
  name. The message text and the HTTP 500 body are left out.
- The change tracker compares a row with its current stored value rather than
  with an original-values snapshot. This is the same for the single change
  of each request modelled here.
- A save that the database refuses throws `DbUpdateException`. The model
  leaves the store unchanged in that case, the transaction being rolled back.
  An update that matches no row throws its subclass
  `DbUpdateConcurrencyException`. The actions other than
  `UpsertAnswerAsWritten` report every refused save as `DbUpdateException`.
- Change detection over navigation collections is modelled only where the
  code relies on it, by `AppDbContext.AttachDiscovered` for
  `resp.Answers.Add`: an entity with a store-generated key that is already
  set is tracked Modified.
- `ResponsesController.Upserted`: its own contract only states
  well-formedness. What it stores is stated by `UpsertedRows`,
  `UpsertKeepsOneAnswer` and `UpsertOverwrites`.

## Findings

| source | as written | input that shows it | evidently intended | confidence | as-written member | corrected member |
|---|---|---|---|---|---|---|
| MysteryShopper/MysteryShopper.API/Controllers/UsersController.cs:33-34 | `Forbid("Clients can only create evaluators.")` passes the message as an authentication scheme name. No handler is registered under that name, so executing the result throws, and the client gets HTTP 500. | A caller in the CLIENTE role posts a user with role "CLIENTE", which is a role that exists. | HTTP 403, as the comment above the check says | not executed | UsersController.ClientRefusalDiffers | UsersController.CreateUserPlan |
| MysteryShopper/MysteryShopper.API/Controllers/ResponsesController.cs:50-51 | The new `Answer` is attached only through `resp.Answers.Add(ans)`. Its `[Key] Guid` is store-generated by convention and already set by the initializer (Entities.cs:8), so change detection tracks it Modified. `ApplyAuditing` stamps it updated, the save's UPDATE matches no row and throws `DbUpdateConcurrencyException`, and the caller gets HTTP 500 with nothing stored. | A visible response with no answer yet to the question, and the question's row present. | The answer inserted, as with `_db.Answers.Add(ans)`; `UpsertSaveNew` and `UpsertOverwrites` prove the corrected save commits and stores the request's values | not executed | ResponsesController.NewAnswerLostAsWritten | ResponsesController.UpsertAnswer |
