# School manager API: a verified model of its rules

This project models, in Dafny, the rule-bearing core of a multi-tenant
school administration backend written in PHP on Laravel. Each persistent
table is a map from id to record. Each controller action is one atomic
state transition. The caller's id and the current instant are parameters.
The model covers these parts:

- **Weekly reviews and alerts.** ISO 8601 week dates (ISO 8601:2004
  section 4.1.4) over integer day numbers: the current week, the previous
  week, and the Monday of a given week. Also the review record: its
  observation types, issue and pending-alert predicates, query scopes and
  `markResolved`. Finally the controller actions `summary`, `index`,
  `batchStore` (an upsert keyed by student, year and week), `update`,
  `resolve` and `destroy`.
- **Gradebook.**
  - Classes, the students of each class and their `sort_order` positions
    (`GradeClassController`, `GradeStudentController`).
  - Per-term grade and tracking rows that are fetched or created with fixed
    defaults.
  - Grade upserts, single and batched (`StudentGradeController`).
  - The pedagogical tracking flags and their timestamps.
  - Deleting a class or a student cascades to its grades, tracking rows
    and weekly reviews; the cascade to disciplinary reports is not modelled.
- **Authorization.**
  - The role predicates of `User`.
  - The user, lesson, lesson-preparation and institution policies, each
    with its super-admin bypass.
  - The suspended-user middleware.
  - The conditional rules of the profile update request, and the subject
    check and PATCH rewrite of the lesson preparation request.
- **Lesson planning.**
  - `formatArrayFields`, subject resolution, create and update data
    shaping, and status statistics (`LessonPreparationService`,
    `LessonService`).
  - The lesson repository's filters, listings and writes.
- **Institutions.** The location rule that a municipality must lie in its
  wilaya (`InstitutionService`). The repository with its filters, its soft
  deletes and its key/value cache, whose invalidation pattern is modelled
  as written.
- **Small guards.** System and in-use roles (`RoleController`), report
  numbering (`StudentReportController`), timetable replacement
  (`TimetableEntryController`) and the staff listing
  (`AdminUserController`).

Files follow the source: one module per controller, service, repository
or model, with shared modules for the gradebook tables (`gradebook_db.dfy`),
ownership checks (`access.dfy`), HTTP statuses (`http.dfy`), PHP string
helpers (`php.dfy`) and orderings (`listing.dfy`). Where the source updates
state step by step (loops over request items, fields assigned in place),
the model has classes whose methods are proved against recursive
specification functions.

## Model

| member | source | states |
|---|---|---|
| SuspendedMiddleware.Handle | app/Http/Middleware/CheckSuspendedUser.php:18-30 | a request is rejected with 403 and `ACCOUNT_SUSPENDED` exactly when an authenticated user's status is `suspended`; otherwise the next handler runs once |
| SuspendedMiddleware.OnlySuspendedStopped | app/Http/Middleware/CheckSuspendedUser.php:22-29 | guests and users of any other status, `inactive` included, are passed on |
| Users.StaffRoleCount | app/Models/User.php:91-122 | for the role predicates `IsSuperAdmin`, `IsAdmin`, `IsManager` and `IsTeacher`, at most one of the four role predicates holds, and one holds exactly for the four staff role names |
| Users.AtMostOneRole | app/Models/User.php:104-122 | no two role predicates hold together |
| Users.StudentsAndParentsHaveNoStaffRole | app/Models/User.php:99-122 | students and parents satisfy none of the role predicates |
| Users.ForInstitution | app/Models/User.php:160-163 | the scope keeps exactly the users whose `institution_id` equals the institution, rows unchanged; users without one never match |
| Users.ResolveSubject | app/Services/LessonService.php:65-82 | `Unknown` for a missing teacher, the first subject of a non-empty subject list, `General` otherwise |
| Policies.Gate | app/Policies/UserPolicy.php:10-16 | a non-null `before` answer decides, otherwise the ability method decides |
| Policies.SuperAdminBefore | app/Policies/UserPolicy.php:10-16 | the hook answers (with true) exactly for super admins |
| Policies.UserAllows | app/Policies/UserPolicy.php:10-76 | the gate over the ability methods `UserAbility`: super admins may do everything; `viewAny`/`create` need admin or manager; `view` needs self, admin or manager; one may always update oneself and never delete oneself; `restore` and `forceDelete` only for super admins |
| Policies.UserManagementByRole | app/Policies/UserPolicy.php:33-66 | on someone else, an admin may update or delete anyone but super admins and admins, a manager also no manager, other roles nobody |
| Policies.NoSelfDeletion | app/Policies/UserPolicy.php:50-55 | deleting oneself is allowed exactly for super admins |
| Policies.ManagerCannotRemoveAdmin | app/Policies/UserPolicy.php:43-45 | a manager may not delete an admin, and may update one only if it is the manager themself |
| Policies.LessonAllows | app/Policies/LessonPolicy.php:14-88 | the gate over the ability methods `LessonAbility`: super admins may do everything; `viewAny` for teachers, admins and managers; `create` for teachers; view, update, delete and restore only for the owner; force delete only for super admins |
| Policies.PreparationAllows | app/Policies/LessonPreparationPolicy.php:13-83 | the gate over the ability methods `PreparationAbility`: super admins may do everything; `viewAny` and `create` for teachers; every other ability, force delete included, only for the owner |
| Policies.ForceDeleteDiffers | app/Policies/LessonPreparationPolicy.php:80-83 | an owner who is not a super admin may force-delete their preparation but not their lesson |
| Policies.InstitutionAllows | app/Policies/InstitutionPolicy.php:13-76 | anyone may list and view; super admins and admins may create; super admins, or an admin of that institution, may update; only super admins may delete, restore or force delete |
| Policies.AdminConfinedToOwnInstitution | app/Policies/InstitutionPolicy.php:39-60 | an admin may update exactly their own institution and may never delete one |
| FormRequests.ProfileAuthorize | app/Http/Requests/User/UpdateUserProfileRequest.php:15-25 | the request is authorized exactly when there is a caller and the user policy lets the caller update the routed user; editing oneself is always authorized |
| FormRequests.ManagedRulesValues | app/Http/Requests/User/UpdateUserProfileRequest.php:89-90 | the added `status` rule admits exactly active, inactive and suspended, the `role` rule exactly the five listed roles |
| FormRequests.ProfileRules | app/Http/Requests/User/UpdateUserProfileRequest.php:32-94 | every base field keeps its rule; `status` and `role` are present exactly when an admin, manager or super admin edits someone else, and then admit exactly the listed values |
| FormRequests.SelfUpdateKeepsStatusAndRole | app/Http/Requests/User/UpdateUserProfileRequest.php:84-91 | editing one's own profile never admits `status` or `role`, whatever one's role |
| FormRequests.NoPromotionToSuperAdmin | app/Http/Requests/User/UpdateUserProfileRequest.php:90 | the role rule never admits `super_admin` and does admit `teacher` |
| FormRequests.GenderValues | app/Http/Requests/User/UpdateUserProfileRequest.php:51 | `gender` is always ruled and admits exactly male and female |
| FormRequests.PreparationAuthorize | app/Http/Requests/StoreLessonPreparationRequest.php:12-15 | authorized exactly for an authenticated teacher |
| FormRequests.SubjectAccepted | app/Http/Requests/StoreLessonPreparationRequest.php:32-42 | a subject passes exactly when the teacher's subjects form a list holding it; a missing or non-list value admits nothing |
| FormRequests.Sometimes | app/Http/Requests/StoreLessonPreparationRequest.php:94-101 | a list rule gets `sometimes` in front and is otherwise unchanged; a string rule gets the `sometimes\|` prefix |
| FormRequests.WithSometimes | app/Http/Requests/StoreLessonPreparationRequest.php:93-102 | the PATCH rules have the same fields, each rule made optional |
| FormRequests.SometimesKeepsChecks | app/Http/Requests/StoreLessonPreparationRequest.php:94-101 | making a rule optional keeps what its `in:`, `min:` and `max:` items admit |
| FormRequests.PreparationRules | app/Http/Requests/StoreLessonPreparationRequest.php:25-105 | the same fields for every method; the rules as written except for PATCH, where each is made optional |
| FormRequests.PatchKeepsChecks | app/Http/Requests/StoreLessonPreparationRequest.php:93-104 | for every field, POST and PATCH admit the same values and numbers |
| FormRequests.LessonNumberBound | app/Http/Requests/StoreLessonPreparationRequest.php:28 | `lesson_number` admits exactly the numbers from 1, for POST and PATCH |
| FormRequests.DurationBounds | app/Http/Requests/StoreLessonPreparationRequest.php:46 | `duration_minutes` admits exactly 15 to 480, for POST and PATCH |
| FormRequests.PreparationStatusValues | app/Http/Requests/StoreLessonPreparationRequest.php:58 | `status` admits exactly draft, ready and delivered, for POST and PATCH |
| FormRequests.PhaseTypeValues | app/Http/Requests/StoreLessonPreparationRequest.php:81 | a phase type is exactly departure, presentation or consolidation, for POST and PATCH |
| FormRequests.EvaluationTypeValues | app/Http/Requests/StoreLessonPreparationRequest.php:89 | `evaluation_type` is exactly assessment or homework, for POST and PATCH |
| Access.ClassAccess | app/Http/Controllers/Api/V1/GradeClassController.php:62-67 | 404 exactly for a missing class, 403 exactly for another teacher's class, success exactly when the caller owns it |
| Access.StudentAccess | app/Http/Controllers/Api/V1/StudentGradeController.php:17-22 | 404 exactly for a missing student, 403 exactly when the student's class is not the caller's, success otherwise |
| Access.ReviewAccess | app/Http/Controllers/Api/V1/StudentWeeklyReviewController.php:216-222 | 404 exactly for a missing review, 403 exactly when the review's class is not the caller's, success otherwise |
| AdminUserController.Index | app/Http/Controllers/Api/V1/AdminUserController.php:17-55 | 403 for an administrator without an institution and when the policy refuses `viewAny`; otherwise exactly the users of the administrator's institution with a staff role, narrowed by a known `role` and by the search on name or email, each once, newest first |
| AdminUserController.OnlyStaffListed | app/Http/Controllers/Api/V1/AdminUserController.php:29-36 | students, parents and super admins are never listed, whatever the parameters |
| AdminUserController.OwnInstitutionOnly | app/Http/Controllers/Api/V1/AdminUserController.php:29-30 | users of another institution are never listed |
| AdminUserController.UnknownRoleIgnored | app/Http/Controllers/Api/V1/AdminUserController.php:39-41 | a `role` outside admin, manager and teacher lists the same users as no `role` at all |
| AdminUserController.OnlyAdminsAndManagersList | app/Http/Controllers/Api/V1/AdminUserController.php:27 | a teacher, student or parent is refused with 403 |
| GradeClassController.Index | app/Http/Controllers/Api/V1/GradeClassController.php:16-34 | exactly the caller's classes, of the given year when a non-empty year is sent, each with exactly its students, each once, in `sort_order` order |
| GradeClassController.IndexWithoutYear | app/Http/Controllers/Api/V1/GradeClassController.php:25-27 | with no year, or the falsy year `"0"`, the listing holds every class the caller owns and no other |
| GradeClassController.Store | app/Http/Controllers/Api/V1/GradeClassController.php:39-57 | 422 and no change for an invalid body; otherwise 201 and one new class owned by the caller with the sent fields, nothing else changed |
| GradeClassController.Show | app/Http/Controllers/Api/V1/GradeClassController.php:62-74 | the access status, and for the owner the class, exactly its students, each once and in order, and exactly their grade rows |
| GradeClassController.ApplyPatch | app/Http/Controllers/Api/V1/GradeClassController.php:85-91 | sent fields replace the stored ones; owner and academic year never change |
| GradeClassController.ApplyPatchIdempotent | app/Http/Controllers/Api/V1/GradeClassController.php:91 | applying the same update twice gives the same class as once |
| GradeClassController.Update | app/Http/Controllers/Api/V1/GradeClassController.php:79-97 | 404/403 for a missing or foreign class and 422 for an invalid body, each changing nothing; otherwise only that class changes, to the patched class |
| GradeClassController.Destroy | app/Http/Controllers/Api/V1/GradeClassController.php:102-113 | a non-owner changes nothing; the owner removes the class with its students and their grades, tracking rows and reviews, and the database stays consistent (reports are not part of the gradebook) |
| RoleController.Index | app/Http/Controllers/Api/V1/RoleController.php:17-35 | by `SearchMatches`, exactly the roles whose name, display name or description contains the search term; every role without a search |
| RoleController.EmptySearchKeepsAll | app/Http/Controllers/Api/V1/RoleController.php:21-27 | an empty search term keeps every role |
| RoleController.Updated | app/Http/Controllers/Api/V1/RoleController.php:58-69 | the sent display name and description are written; the sent name only for a non-system role; the system flag never changes |
| RoleController.SystemNameFixed | app/Http/Controllers/Api/V1/RoleController.php:62-64 | a system role keeps its name whatever is sent |
| RoleController.RoleTable.Update | app/Http/Controllers/Api/V1/RoleController.php:58-69 | for a request that has passed `UpdateRoleRequest`: 404 and no change when no role is bound to the id; otherwise only that role changes, to its updated value (the request's 403 and 422 are not modelled, see below) |
| RoleController.RoleTable.Destroy | app/Http/Controllers/Api/V1/RoleController.php:74-93 | 404 when no role is bound to the id; otherwise the role is deleted exactly when it is neither a system role nor in use, and otherwise nothing changes and the status says why |
| RoleController.DestroyStatus | app/Http/Controllers/Api/V1/RoleController.php:76-92 | success exactly for a non-system role not in use; 403 for a system role; 422 for a non-system role in use |
| RoleController.SystemCheckFirst | app/Http/Controllers/Api/V1/RoleController.php:77-88 | a system role in use is refused with 403, not 422 |
| StudentReportController.DigitChar | app/Http/Controllers/StudentReportController.php:100 | the character of a decimal digit, whose code is `'0'` plus the digit |
| StudentReportController.DigitValue | app/Http/Controllers/StudentReportController.php:100 | a value below 10 |
| StudentReportController.Digits | app/Http/Controllers/StudentReportController.php:100 | a non-empty numeral with no leading zero |
| StudentReportController.ZeroPad | app/Http/Controllers/StudentReportController.php:100 | the numeral padded to at least the width, ending with the numeral itself |
| StudentReportController.ReportNumber | app/Http/Controllers/StudentReportController.php:100 | `R-` followed by at least four characters, ending with the numeral |
| StudentReportController.GenerateReportNumber | app/Http/Controllers/StudentReportController.php:95-101 | the report number reads back as the institution's count plus one |
| StudentReportController.ValueOfDigits | app/Http/Controllers/StudentReportController.php:100 | a numeral reads back as the number it was made from |
| StudentReportController.ValueOfZeros | app/Http/Controllers/StudentReportController.php:100 | a run of zeros reads as 0 |
| StudentReportController.ValueOfLeadingZeros | app/Http/Controllers/StudentReportController.php:100 | leading zeros do not change the value |
| StudentReportController.ReportNumberValue | app/Http/Controllers/StudentReportController.php:100 | the padded number reads back as the number it was made from |
| StudentReportController.ReportNumberInjective | app/Http/Controllers/StudentReportController.php:100 | different counts give different report numbers |
| StudentReportController.FirstNumber | app/Http/Controllers/StudentReportController.php:95-101 | an institution's first report is `R-0001` |
| StudentReportController.ReportInstitution | app/Http/Controllers/StudentReportController.php:45 | the class's institution when the class is found, institution 1 otherwise |
| StudentReportController.OfInstitution | app/Http/Controllers/StudentReportController.php:98 | exactly the reports of the institution |
| StudentReportController.NewReport | app/Http/Controllers/StudentReportController.php:29-64 | the institution with its fallback, a number one past the institution's count, status `finalized`, year `2024-2025`, the student's full name, the class name or `Unknown`, and the request's fields |
| StudentReportController.ReportTable.Store | app/Http/Controllers/StudentReportController.php:29-66 | 422 and no change when the student does not exist or the incident description or report date is missing; 500 and no change when the `sanctions` key is absent; otherwise 201 and one new row holding the derived report, nothing else changed |
| StudentReportController.ReportTable.Insert | app/Http/Controllers/StudentReportController.php:49-64 | the report is stored under an id not used before and no other row changes |
| StudentReportController.Validated | app/Http/Controllers/StudentReportController.php:31-37 | the validated data holds the request's description, date and sanctions, and the other sanction or null |
| StudentReportController.ReportTable.Destroy | app/Http/Controllers/StudentReportController.php:88-93 | 404 when no report is bound to the id, 204 after removing it; nothing else changes |
| StudentReportController.CountAfterInsert | app/Http/Controllers/StudentReportController.php:98 | a new report adds one to its own institution's count and leaves the others' |
| StudentReportController.ConsecutiveReports | app/Http/Controllers/StudentReportController.php:95-101 | two reports stored in a row for one institution get consecutive numbers |
| StudentReportController.StoreIntoEmpty | app/Http/Controllers/StudentReportController.php:88-101 | `store` into an empty table saves one report, numbered `R-0001` |
| StudentReportController.StoreBesideOne | app/Http/Controllers/StudentReportController.php:88-101 | `store` beside the one report of the same institution adds a second row, numbered from a count of one, and keeps the first row |
| StudentReportController.DeletionRepeatsNumber | app/Http/Controllers/StudentReportController.php:88-101 | on an empty table, two reports of one institution are numbered `R-0001` and `R-0002`; after deleting the first, the next report is numbered `R-0002` again |
| StudentReportController.MaxNumber | app/Http/Controllers/StudentReportController.php:98-100 | no report among the given ones has a larger number |
| StudentReportController.FreshReportNumber | app/Http/Controllers/StudentReportController.php:95-101 | a number one past the institution's largest number |
| StudentReportController.FreshReportNumberUnused | app/Http/Controllers/StudentReportController.php:95-101 | the fresh number is held by no report of the institution, whatever was deleted before |
| TimetableEntryController.MakeEntry | app/Http/Controllers/Api/V1/TimetableEntryController.php:35 | the row carries the caller's id and exactly the submitted fields |
| TimetableEntryController.OthersOnly | app/Http/Controllers/Api/V1/TimetableEntryController.php:31 | exactly the other users' entries, unchanged |
| TimetableEntryController.ReplacedContents | app/Http/Controllers/Api/V1/TimetableEntryController.php:29-36 | after the replacement the table holds exactly the other users' old entries and the submitted entries under fresh ids |
| TimetableEntryController.UserIds | app/Http/Controllers/Api/V1/TimetableEntryController.php:17 | exactly the ids of the user's entries, increasing |
| TimetableEntryController.Rows | app/Http/Controllers/Api/V1/TimetableEntryController.php:17 | the rows of the given ids, in that order |
| TimetableEntryController.Timetable.constructor | app/Http/Controllers/Api/V1/TimetableEntryController.php:10 | an empty timetable |
| TimetableEntryController.Timetable.Index | app/Http/Controllers/Api/V1/TimetableEntryController.php:15-20 | the caller's entries and no one else's |
| TimetableEntryController.Timetable.Store | app/Http/Controllers/Api/V1/TimetableEntryController.php:25-39 | 422 and no change for an empty list or when an entry breaks the rules (a weekday, a non-empty time slot and class, a known mode and group); otherwise the caller's entries become exactly the submitted ones in order, others' entries stay, and the created list is returned |
| TimetableEntryController.UserIdsBlock | app/Http/Controllers/Api/V1/TimetableEntryController.php:17 | a user whose entries hold a block of ids lists that block in order |
| TimetableEntryController.ReplacedIndex | app/Http/Controllers/Api/V1/TimetableEntryController.php:31-35 | after the replacement the user's ids are the fresh block |
| TimetableEntryController.RowsOfBlock | app/Http/Controllers/Api/V1/TimetableEntryController.php:35-38 | the rows of the fresh block are the submitted entries in order |
| TimetableEntryController.ReplacedRows | app/Http/Controllers/Api/V1/TimetableEntryController.php:31-38 | after the replacement the user's timetable lists the submitted entries in submission order |
| InstitutionService.RejectionMeansMismatch | app/Services/InstitutionService.php:125-138 | `LocationAccepted`: a rejection means both ids were given and the municipality is unknown or lies in another wilaya |
| InstitutionService.Create | app/Services/InstitutionService.php:55-61 | by `LocationAccepted`, the row is stored exactly when the location is accepted; a rejection stores nothing and clears no cache entry |
| InstitutionService.UpdateChecksMergedLocation | app/Services/InstitutionService.php:68-78 | `UpdateAccepted`: a patch moving only the wilaya is checked against the stored municipality; one clearing both fields is not checked |
| InstitutionService.Update | app/Services/InstitutionService.php:68-78 | by `UpdateAccepted`, the patch is stored exactly when it sets no location field or the merged location is accepted; a rejection changes nothing |
| InstitutionRepository.InactiveFilterApplies | app/Repositories/InstitutionRepository.php:126-140 | an `is_active` filter of false excludes an active institution, while a wilaya of 0, a type of `"0"` and an empty search filter nothing |
| InstitutionRepository.TrashedNeedsWithTrashed | app/Repositories/InstitutionRepository.php:124-154 | `Matches` with no filter holds exactly for live rows, and a trashed row matches only with `with_trashed` |
| InstitutionRepository.Query | app/Repositories/InstitutionRepository.php:124-154 | by `Matches`, exactly the rows passing every filter that is present and non-empty, trashed rows only with `with_trashed` |
| InstitutionRepository.ActiveInWilaya | app/Repositories/InstitutionRepository.php:101-105 | exactly the live, active institutions of the wilaya |
| InstitutionRepository.ActiveInMunicipality | app/Repositories/InstitutionRepository.php:114-117 | exactly the live, active institutions of the municipality |
| InstitutionRepository.ApplyPatch | app/Repositories/InstitutionRepository.php:62 | each sent field replaces the stored one, the others and the trashed flag stay |
| InstitutionRepository.Repository.constructor | app/Repositories/InstitutionRepository.php:11 | an empty table and an empty cache |
| InstitutionRepository.Repository.All | app/Repositories/InstitutionRepository.php:26-36 | a cached list for these filters is returned unchanged; otherwise the query's answer, which is then cached |
| InstitutionRepository.Repository.Find | app/Repositories/InstitutionRepository.php:38-45 | a cached instance is returned even if stale; otherwise the live row, which is then cached, or nothing for a missing or trashed row |
| InstitutionRepository.Repository.Create | app/Repositories/InstitutionRepository.php:52-58 | one new live row; only the unfiltered list is forgotten |
| InstitutionRepository.Repository.Update | app/Repositories/InstitutionRepository.php:60-67 | the row becomes the patched row; the unfiltered list and the instance entry are forgotten, every other entry stays |
| InstitutionRepository.Repository.Delete | app/Repositories/InstitutionRepository.php:69-76 | the row is soft-deleted; the unfiltered list and the instance entry are forgotten |
| InstitutionRepository.Repository.Restore | app/Repositories/InstitutionRepository.php:78-85 | an unknown id changes nothing; otherwise the row is live again and only the unfiltered list is forgotten, the instance entry stays |
| InstitutionRepository.Repository.ForceDelete | app/Repositories/InstitutionRepository.php:87-94 | the row is removed; the unfiltered list and the instance entry are forgotten |
| InstitutionRepository.Repository.GetByWilaya | app/Repositories/InstitutionRepository.php:96-107 | the cached list for the wilaya, or its active institutions, then cached |
| InstitutionRepository.Repository.GetByMunicipality | app/Repositories/InstitutionRepository.php:109-119 | the cached list for the municipality, or its active institutions, then cached |
| InstitutionRepository.StaleWilayaListing | app/Repositories/InstitutionRepository.php:60-64 | after deactivating an institution its cached wilaya listing still holds it, though the table no longer lists it as active |
| LessonRepository.BlankFiltersMatchAll | app/Repositories/LessonRepository.php:108-129 | `Matches`: filters that are absent, empty or `"0"`, with at most one date bound, select every lesson |
| LessonRepository.DateRangeInclusive | app/Repositories/LessonRepository.php:126-128 | `Matches` with both date bounds and no other filter holds exactly for lesson dates between them, both included |
| LessonRepository.ApplyPatch | app/Repositories/LessonRepository.php:74 | each sent column replaces the stored one, the others and the trashed flag stay |
| LessonRepository.Repository.constructor | app/Repositories/LessonRepository.php:9 | an empty table |
| LessonRepository.Repository.GetByTeacher | app/Repositories/LessonRepository.php:14-21 | exactly the teacher's live lessons passing the filters, each once, latest lesson date first |
| LessonRepository.Repository.GetByInstitution | app/Repositories/LessonRepository.php:26-33 | exactly the institution's live lessons passing the filters, each once, latest lesson date first |
| LessonRepository.Repository.FindById | app/Repositories/LessonRepository.php:38-41 | the lesson exactly when it exists and is not trashed |
| LessonRepository.Repository.FindByIdInInstitution | app/Repositories/LessonRepository.php:46-52 | the lesson exactly when it is found and belongs to the institution |
| LessonRepository.Repository.Create | app/Repositories/LessonRepository.php:57-61 | one new live row, nothing else changed |
| LessonRepository.Repository.Update | app/Repositories/LessonRepository.php:66-77 | an unknown or trashed id is an error and changes nothing; otherwise only that lesson changes, to the patched lesson |
| LessonRepository.Repository.Delete | app/Repositories/LessonRepository.php:82-91 | false and no change for an unknown or trashed id; otherwise only that lesson is soft-deleted; afterwards it is not found |
| LessonService.NewLesson | app/Services/LessonService.php:90-105 | teacher and institution are the caller's, the subject is resolved from the teacher's profile, the status defaults to draft, the other fields are the request's |
| LessonService.CreateIgnoresSentIdentity | app/Services/LessonService.php:92-97 | a teacher id, institution id or subject name in the request makes no difference to the stored row |
| LessonService.CreateLesson | app/Services/LessonService.php:90-105 | one new row holding the derived lesson, nothing else changed |
| LessonService.StripIdentity | app/Services/LessonService.php:114 | the patch loses teacher, institution and subject and keeps every other field |
| LessonService.UpdateLesson | app/Services/LessonService.php:110-117 | the lesson is updated with the stripped patch, so teacher, institution and subject never change; an unknown id changes nothing |
| LessonService.CountStatus | app/Services/LessonService.php:137-143 | at most the number of listed lessons |
| LessonService.DraftAndPublishedWithinTotal | app/Services/LessonService.php:137-149 | drafts plus published lessons are at most the total |
| LessonService.CountDraftAndPublished | app/Services/LessonService.php:134-143 | the loop's two counters are exactly the number of drafts and of published lessons |
| LessonService.GetStatistics | app/Services/LessonService.php:130-150 | the total is the number of the teacher's live lessons, the two counts are the drafts and the published ones among them, and together they do not exceed the total |
| LessonPreparationService.TrimLeft | app/Services/LessonPreparationService.php:169 | a suffix of the input that does not start with a stripped character, everything removed being stripped characters |
| LessonPreparationService.TrimRight | app/Services/LessonPreparationService.php:169 | a prefix of the input that does not end with a stripped character, everything removed being stripped characters |
| LessonPreparationService.Leading | app/Services/LessonPreparationService.php:169 | the number of characters the left trim removes |
| LessonPreparationService.Trim | app/Services/LessonPreparationService.php:169 | the middle part of the input that neither starts nor ends with a stripped character, everything around it being stripped characters |
| LessonPreparationService.DropBlank | app/Services/LessonPreparationService.php:169-171 | at most as many items, holding exactly the input's items whose trimmed value is not PHP-empty |
| LessonPreparationService.DropBlankAppend | app/Services/LessonPreparationService.php:169-171 | the filter distributes over concatenation, so kept items keep their order |
| LessonPreparationService.DropBlankIdempotent | app/Services/LessonPreparationService.php:169-171 | filtering twice is filtering once |
| LessonPreparationService.TrimLeftPadded | app/Services/LessonPreparationService.php:169 | the left trim removes exactly a stripped prefix |
| LessonPreparationService.TrimRightPadded | app/Services/LessonPreparationService.php:169 | the right trim removes exactly a stripped suffix |
| LessonPreparationService.TrimPadded | app/Services/LessonPreparationService.php:169 | the trim of an item padded with stripped characters is the item |
| LessonPreparationService.BlankAndZeroDropped | app/Services/LessonPreparationService.php:169 | whitespace-only items are dropped, and so is `"0"` however it is padded |
| LessonPreparationService.FormatField | app/Services/LessonPreparationService.php:167-172 | the same keys; the field, when it holds a list, holds its filtered list; every other key and a non-list value are unchanged |
| LessonPreparationService.Formatted | app/Services/LessonPreparationService.php:157-176 | the same keys; each of the four list fields holding a list holds its filtered list; everything else is unchanged |
| LessonPreparationService.FormattedIdempotent | app/Services/LessonPreparationService.php:157-176 | cleaning twice is cleaning once |
| LessonPreparationService.FormatFields | app/Services/LessonPreparationService.php:166-173 | the same keys as the input |
| LessonPreparationService.FormatFieldsAt | app/Services/LessonPreparationService.php:166-173 | after cleaning some fields in turn, a key holds its filtered list when it is one of them and holds a list, else its old value |
| LessonPreparationService.FormatFieldsIsFormatted | app/Services/LessonPreparationService.php:159-173 | cleaning the four fields in turn gives the cleaned array |
| LessonPreparationService.FormatArrayFields | app/Services/LessonPreparationService.php:157-176 | the loop returns the cleaned array |
| LessonPreparationService.FillableOnly | app/Services/LessonPreparationService.php:88 | exactly the fillable keys of the input, with their values |
| LessonPreparationService.PreparedForCreate | app/Services/LessonPreparationService.php:74-87 | the owner is the caller; a present non-empty subject is kept, otherwise the subject is resolved from the teacher; the lists are cleaned |
| LessonPreparationService.PreparedForUpdate | app/Services/LessonPreparationService.php:94-103 | every sent key except the owner, with the lists cleaned |
| LessonPreparationService.PreparationStore.constructor | app/Services/LessonPreparationService.php:74-89 | an empty table |
| LessonPreparationService.PreparationStore.CreatePreparation | app/Services/LessonPreparationService.php:74-89 | one new row holding the fillable part of the prepared attributes, owned by the caller |
| LessonPreparationService.PreparationStore.UpdatePreparation | app/Services/LessonPreparationService.php:94-105 | an unknown id changes nothing; otherwise the sent fillable attributes except the owner replace the stored ones, so the owner never changes |
| LessonPreparationService.Statistics | app/Services/LessonPreparationService.php:142-152 | the total and the draft, ready and delivered counts of the teacher's rows; the three counts together do not exceed the total |
| LessonPreparationService.DisjointWithin | app/Services/LessonPreparationService.php:146-151 | three disjoint subsets of a set are together no larger than it |
| GradeRecords.DefaultGrades | app/Models/GradeStudent.php:57-69 | a new grades row has behaviour, applications and notebook 5 and assignment and exam 0 (in hundredths) |
| GradeRecords.DefaultTracking | app/Models/GradeStudent.php:90-99 | a new tracking row has both flags false and no timestamps |
| GradeRecords.MarkInterrogated | app/Models/StudentPedagogicalTracking.php:40-46 | the interrogation flag is set and stamped now; the notebook flag and its stamp stay |
| GradeRecords.MarkNotebookChecked | app/Models/StudentPedagogicalTracking.php:51-57 | the notebook flag is set and stamped now; the interrogation flag and its stamp stay |
| GradeRecords.ToggleInterrogation | app/Models/StudentPedagogicalTracking.php:62-69 | the flag flips; its stamp becomes now only when the flag becomes true and stays otherwise; the notebook fields stay |
| GradeRecords.ToggleNotebookChecked | app/Models/StudentPedagogicalTracking.php:74-81 | the flag flips; its stamp becomes now only when the flag becomes true and stays otherwise; the interrogation fields stay |
| GradeRecords.ToggleTwice | app/Models/StudentPedagogicalTracking.php:62-81 | toggling twice restores the flag; the stamp is that of whichever toggle set the flag |
| GradeRecords.MarkIsToggleWhenOff | app/Models/StudentPedagogicalTracking.php:40-81 | marking a flag that is off is toggling it, and marking twice is marking once |
| GradebookDb.DropStudentRows | database/migrations/2026_01_02_150002_create_student_grades_table.php:25-28 | exactly the per-term rows of the students that remain, unchanged |
| GradebookDb.RowOr | app/Models/GradeStudent.php:57-69 | the stored row for (student, term) when there is one, the default otherwise |
| GradebookDb.UniqueKeysOfSubmap | database/migrations/2026_01_21_215335_create_student_weekly_reviews_table.php:50 | removing reviews keeps one review per (student, year, week) |
| GradebookDb.UniqueKeysAfterReplace | database/migrations/2026_01_21_215335_create_student_weekly_reviews_table.php:50 | overwriting a review with one of the same key keeps one review per key |
| GradebookDb.UniqueKeysAfterInsert | database/migrations/2026_01_21_215335_create_student_weekly_reviews_table.php:50 | inserting a review with a key no review has keeps one review per key |
| GradebookDb.Gradebook.constructor | database/migrations/2026_01_02_150000_create_grade_classes_table.php:14-24 | empty, consistent tables |
| GradebookDb.Gradebook.ClassStudents | app/Models/GradeClass.php:33-36 | exactly the students whose class is the given one |
| GradebookDb.Gradebook.MaxSortOrder | app/Http/Controllers/Api/V1/GradeStudentController.php:87 | 0 for an empty class; otherwise the largest `sort_order` of the class, held by one of its students |
| GradebookDb.Gradebook.GetOrCreateTermGrades | app/Models/GradeStudent.php:57-69 | an existing row is returned and nothing changes; otherwise the default row is inserted and returned; no other table changes |
| GradebookDb.Gradebook.GetOrCreateTermTracking | app/Models/GradeStudent.php:90-99 | an existing row is returned and nothing changes; otherwise a row with both flags false is inserted and returned |
| GradebookDb.Gradebook.SetTracking | app/Http/Controllers/Api/V1/StudentPedagogicalTrackingController.php:49-51 | only that tracking row changes |
| GradebookDb.Gradebook.PutGrades | app/Http/Controllers/Api/V1/StudentGradeController.php:36-39 | only the grades row of (student, term) changes, inserted if missing |
| GradebookDb.Gradebook.MarkInterrogatedRow | app/Models/StudentPedagogicalTracking.php:40-46 | the stored row becomes its marked version, nothing else changes |
| GradebookDb.Gradebook.MarkNotebookCheckedRow | app/Models/StudentPedagogicalTracking.php:51-57 | the stored row becomes its marked version, nothing else changes |
| GradebookDb.Gradebook.ToggleInterrogationRow | app/Models/StudentPedagogicalTracking.php:62-69 | the stored row becomes its toggled version, nothing else changes |
| GradebookDb.Gradebook.ToggleNotebookCheckedRow | app/Models/StudentPedagogicalTracking.php:74-81 | the stored row becomes its toggled version, nothing else changes |
| GradebookDb.Gradebook.UpsertReview | app/Http/Controllers/Api/V1/StudentWeeklyReviewController.php:187-199 | the review with the same (student, year, week) is overwritten, or a new one inserted when none has that key; one review per key remains |
| GradebookDb.Gradebook.SetReview | app/Http/Controllers/Api/V1/StudentWeeklyReviewController.php:236 | only that review changes, its key kept |
| GradebookDb.Gradebook.MarkResolvedRow | app/Models/StudentWeeklyReview.php:106-112 | the stored review becomes its resolved version, nothing else changes |
| GradebookDb.Gradebook.DeleteReview | app/Http/Controllers/Api/V1/StudentWeeklyReviewController.php:274 | only that review is removed |
| GradebookDb.Gradebook.InsertClass | app/Http/Controllers/Api/V1/GradeClassController.php:48-51 | one new class under a fresh id, nothing else changed |
| GradebookDb.Gradebook.SetClass | app/Http/Controllers/Api/V1/GradeClassController.php:91 | only that class changes |
| GradebookDb.Gradebook.InsertStudent | app/Http/Controllers/Api/V1/GradeStudentController.php:89-92 | one new student under a fresh id, nothing else changed |
| GradebookDb.Gradebook.SetSortOrder | app/Http/Controllers/Api/V1/GradeStudentController.php:226-228 | only that student's `sort_order` changes |
| GradebookDb.Gradebook.SetStudent | app/Http/Controllers/Api/V1/GradeStudentController.php:157 | only that student changes |
| GradebookDb.Gradebook.DeleteStudent | app/Http/Controllers/Api/V1/GradeStudentController.php:173 | the student goes with its grades, tracking rows and reviews, and the tables stay consistent (reports are not part of the gradebook) |
| GradebookDb.Gradebook.DeleteClass | app/Http/Controllers/Api/V1/GradeClassController.php:108 | the class goes with its students, their grades and tracking rows and the class's and students' reviews, and the tables stay consistent (reports are not part of the gradebook) |
| GradebookDb.RosterOf | app/Models/GradeClass.php:33-36 | exactly the class's students, each once, in non-decreasing `sort_order` |
| GradebookDb.StudentsOutside | database/migrations/2026_01_02_150001_create_grade_students_table.php:25-28 | exactly the students of other classes, unchanged |
| GradebookDb.ReviewsOutside | database/migrations/2026_01_21_215335_create_student_weekly_reviews_table.php:55-63 | exactly the reviews neither of the class nor of its students, unchanged |
| GradebookDb.ReviewsNotOf | database/migrations/2026_01_21_215335_create_student_weekly_reviews_table.php:55-58 | exactly the reviews of the remaining students, unchanged |
| GradebookDb.StudentCascadeConsistent | database/migrations/2026_01_02_150002_create_student_grades_table.php:25-30 | deleting a student with the rows that cascade from it keeps every reference and unique key valid |
| GradebookDb.ClassCascadeConsistent | database/migrations/2026_01_02_150001_create_grade_students_table.php:25-28 | deleting a class with the rows that cascade from it keeps every reference and unique key valid |
| GradeStudentController.ShownRowsIndex | app/Http/Controllers/Api/V1/GradeStudentController.php:37-63 | the i-th shown row is the i-th roster student with that term's stored grades and tracking, or the default rows when none is stored |
| GradeStudentController.LoadRows | app/Http/Controllers/Api/V1/GradeStudentController.php:37-63 | one row per roster student, in roster order, showing the term's stored rows or the defaults; exactly the students lacking a row for the term get a default grades row and a default tracking row, and nothing else changes |
| GradeStudentController.Index | app/Http/Controllers/Api/V1/GradeStudentController.php:18-68 | 403 or 404 from the class ownership check; otherwise the class's students in `sort_order` order with the grades and tracking of the requested term (term 1 when absent), the missing term rows being created |
| GradeStudentController.NewStudent | app/Http/Controllers/Api/V1/GradeStudentController.php:87-92 | the created student belongs to the class, sits at the given position and carries the validated names, number, birth date and special-case flag |
| GradeStudentController.Store | app/Http/Controllers/Api/V1/GradeStudentController.php:73-98 | ownership first, then 422 for input breaking the rules; on 201 a fresh id holding the new student, placed after every existing student of the class; every other table unchanged |
| GradeStudentController.CreateAll | app/Http/Controllers/Api/V1/GradeStudentController.php:118-128 | the i-th input becomes a new student with a fresh, distinct id and position max + i + 1; existing students unchanged, and no other row created |
| GradeStudentController.AddedRows | app/Http/Controllers/Api/V1/GradeStudentController.php:118-128 | the rows inserted one by one hold each input at its own fresh id, keep every old row and add nothing else |
| GradeStudentController.AddedContents | app/Http/Controllers/Api/V1/GradeStudentController.php:118-128 | inserting the inputs from a fresh id on yields exactly the old rows plus one new row per input at consecutive ids |
| GradeStudentController.BatchStore | app/Http/Controllers/Api/V1/GradeStudentController.php:103-135 | ownership first, then 422 unless at least one input is given and all follow the rules; on 201 the inputs become new students in submission order, after every existing student of the class, with nothing else changed |
| GradeStudentController.ApplyPatch | app/Http/Controllers/Api/V1/GradeStudentController.php:147-155 | an update keeps the student's class and position; each sent field replaces the stored one and an unsent field is kept |
| GradeStudentController.Update | app/Http/Controllers/Api/V1/GradeStudentController.php:140-161 | ownership first, then 422 for a patch breaking the name rules; on success only that student changes, to the patched row |
| GradeStudentController.Destroy | app/Http/Controllers/Api/V1/GradeStudentController.php:166-178 | ownership first; on success the student is removed together with their grades, tracking and weekly reviews, and no other gradebook table changes (reports are not part of the gradebook) |
| GradeStudentController.Move | app/Http/Controllers/Api/V1/GradeStudentController.php:183-210 | ownership first, then 422 for a missing target class and 404 for another teacher's; on success the student joins the target class after all of its students, with nothing else changed |
| GradeStudentController.LastIndex | app/Http/Controllers/Api/V1/GradeStudentController.php:226-229 | the position of the last occurrence of an id in the submitted order |
| GradeStudentController.Reordered | app/Http/Controllers/Api/V1/GradeStudentController.php:226-229 | every listed student, of whatever class, takes the position of its last listing plus one; unlisted students keep their rows |
| GradeStudentController.ReorderedStep | app/Http/Controllers/Api/V1/GradeStudentController.php:226-229 | each pass of the loop sets one more listed student's `sort_order` to its index plus one |
| GradeStudentController.ReorderedNone | app/Http/Controllers/Api/V1/GradeStudentController.php:226-229 | an empty order changes no student |
| GradeStudentController.ReorderNumbersPositions | app/Http/Controllers/Api/V1/GradeStudentController.php:221-229 | with no repeated ids the listed students are numbered 1, 2, 3, ... in the order given |
| GradeStudentController.Reorder | app/Http/Controllers/Api/V1/GradeStudentController.php:215-235 | class ownership first, then 422 unless the order is a non-empty list of existing student ids; on success the students are exactly the reordered ones, and nothing else changes |
| GradeStudentController.ApplyOrder | app/Http/Controllers/Api/V1/GradeStudentController.php:226-229 | after the loop the students are exactly the reordered ones |
| GradeStudentController.ReorderReachesOtherClasses | app/Http/Controllers/Api/V1/GradeStudentController.php:221-229 | as written, a reorder of class 1 renumbers a student of class 2 |
| GradeStudentController.ReorderedInClass | app/Http/Controllers/Api/V1/GradeStudentController.php:215-235 | the intended reorder renumbers only listed students of the class; every other student is unchanged |
| GradeStudentController.ReorderAgreesWithinClass | app/Http/Controllers/Api/V1/GradeStudentController.php:221-229 | when every listed student belongs to the class, the reorder as written and the intended one agree |
| StudentGradeController.ApplyGrades | app/Http/Controllers/Api/V1/StudentGradeController.php:35-38 | each sent grade replaces the stored one and each unsent grade is kept |
| StudentGradeController.ApplyGradesInRange | app/Http/Controllers/Api/V1/StudentGradeController.php:24-31 | a validated request keeps every grade of a stored or freshly created row within its scale (0-5 or 0-20) |
| StudentGradeController.ApplyGradesIdempotent | app/Http/Controllers/Api/V1/StudentGradeController.php:35-38 | sending the same grades twice leaves the row as one sending does |
| StudentGradeController.Upsert | app/Http/Controllers/Api/V1/StudentGradeController.php:35-38 | `updateOrCreate` adds the (student, term) row when it is missing and changes no other row; that row holds the sent grades over the stored row or the column defaults |
| StudentGradeController.Update | app/Http/Controllers/Api/V1/StudentGradeController.php:17-45 | 404/403 from the student ownership check, then 422 for a term outside 1-3 or a grade that is null or out of scale; on success only the grades table changes, by that one upsert |
| StudentGradeController.CountOwned | app/Http/Controllers/Api/V1/StudentGradeController.php:65-83 | the `updated` counter never exceeds the number of submitted items |
| StudentGradeController.BatchOnlyTouchesOwned | app/Http/Controllers/Api/V1/StudentGradeController.php:67-85 | the batch adds a row exactly for an owned student named in the request that lacked one for the term; rows of other terms and of other teachers' students are left as they were |
| StudentGradeController.ApplyItems | app/Http/Controllers/Api/V1/StudentGradeController.php:67-85 | the loop leaves the grades table as the items applied in order, skipping other teachers' students, and returns how many were applied |
| StudentGradeController.BatchUpdate | app/Http/Controllers/Api/V1/StudentGradeController.php:50-91 | 422 unless the term is 1-3 and a non-empty list of existing students with in-scale grades, none of them null, is given; then the owned items are applied in order and counted, nothing else changing |
| TrackingController.NullFlagRefused | app/Http/Requests/Tracking/UpdatePedagogicalTrackingRequest.php:26-28 | a flag sent as null fails `sometimes\|boolean` whatever else is sent, while a request without flags passes exactly for terms 1-3 |
| TrackingController.ApplyRequest | app/Http/Controllers/Api/V1/StudentPedagogicalTrackingController.php:31-47 | each sent flag is written and an unsent one kept; a flag's stamp becomes the current time only when it goes from false to true, and otherwise keeps its old value |
| TrackingController.ApplyRequestIdempotent | app/Http/Controllers/Api/V1/StudentPedagogicalTrackingController.php:33-47 | repeating a request later changes nothing more: stamps are not refreshed for a flag already set |
| TrackingController.EmptyRequestKeepsRow | app/Http/Controllers/Api/V1/StudentPedagogicalTrackingController.php:49-51 | a request with neither flag leaves the row untouched |
| TrackingController.ApplyRequestAgreesWithRecord | app/Models/StudentPedagogicalTracking.php:40-81 | sending the opposite of a flag has the same effect as the record's toggle, and sending true to a cleared flag the same effect as its mark |
| TrackingController.Update | app/Http/Controllers/Api/V1/StudentPedagogicalTrackingController.php:16-63 | 404 for an unknown student, then 422 for a term outside 1-3 or a flag sent as null, then 403 for another teacher's student; on success the term's row, fetched or created with the defaults, holds the applied request, and no other table changes |
| TrackingController.OwnStudentScenario | tests/Feature/PedagogicalTrackingTest.php:33-50 | the owner setting `oral_interrogation` for term 1 on a student without tracking gets 200 with the interrogation flag on and the notebook flag off, and the term 1 row is stored with the flag on |
| WeeklyReview.DayOf | app/Models/StudentWeeklyReview.php:167 | the day of an instant is the one whose 86400 seconds contain it |
| WeeklyReview.ObservationTypesComplete | app/Models/StudentWeeklyReview.php:24-32 | the list of valid observation types holds each of the seven types exactly once |
| WeeklyReview.ParseObservation | app/Models/StudentWeeklyReview.php:13-32 | a string is accepted exactly when it is the stored name of an observation type, and then yields that type |
| WeeklyReview.ObservationRoundTrip | app/Models/StudentWeeklyReview.php:13-32 | every type's stored name parses back to that type |
| WeeklyReview.HasIssueByName | app/Models/StudentWeeklyReview.php:90-93 | `HasIssue`: a review has an issue exactly when its stored observation string differs from "OK" |
| WeeklyReview.OkHasNoAlert | app/Models/StudentWeeklyReview.php:98-101 | `HasPendingAlert`: an OK review never has a pending alert |
| WeeklyReview.MarkResolved | app/Models/StudentWeeklyReview.php:106-112 | after resolving, the alert is closed and stamped with the current time, no alert is pending, and every other field is unchanged |
| WeeklyReview.PendingAlerts | app/Models/StudentWeeklyReview.php:157-160 | `Unresolved(WithIssues(..))`: the pending-alerts scope keeps exactly the reviews with an issue whose alert is unresolved, unchanged |
| WeeklyReview.ScopesOnlyFilter | app/Models/StudentWeeklyReview.php:117-152 | the scopes `ForClass`, `ForStudent`, `ForWeek`, `WithIssues` and `Unresolved` only drop rows and never alter the rows kept; `WithIssues` keeps only reviews with an issue |
| WeeklyReview.WeekOrdinalOrder | app/Models/GradeStudent.php:120-125 | for week numbers 1-53, ordering by the single ordinal is ordering by year and then week number |
| WeeklyReview.LatestReviewUnique | app/Models/GradeStudent.php:120-125 | under the unique (student, year, week) index at most one review is the student's latest |
| WeeklyReview.LatestReviewExists | app/Models/GradeStudent.php:120-125 | a student with any review has a latest one |
| WeeklyReviewController.FindWeekReview | app/Http/Controllers/Api/V1/StudentWeeklyReviewController.php:52-60 | finds a review of the student in the class for the given week whenever one exists, and reports none only when there is none |
| WeeklyReviewController.SummarizeStudent | app/Http/Controllers/Api/V1/StudentWeeklyReviewController.php:50-89 | under the unique (student, year, week) index the two flags are set exactly when a review exists for the current and for the previous week, the two views show those reviews, and the alert is pending exactly when last week's review has a pending alert and there is no review this week |
| WeeklyReviewController.Summary | app/Http/Controllers/Api/V1/StudentWeeklyReviewController.php:20-107 | 404 for an unknown class and 403 for another teacher's class; otherwise the current and previous ISO weeks of the day of `now`, and exactly one faithful summary line per student of the class |
| WeeklyReviewController.NewestFirst | app/Http/Controllers/Api/V1/StudentWeeklyReviewController.php:118-121 | the listing holds exactly the selected reviews, each once, ordered by year and then week number, newest first |
| WeeklyReviewController.Index | app/Http/Controllers/Api/V1/StudentWeeklyReviewController.php:112-141 | 404/403 from the class check; otherwise exactly the class's reviews passing the year-and-week, student and pending-only filters, each once, newest week first |
| WeeklyReviewController.ReviewFromInput | app/Http/Controllers/Api/V1/StudentWeeklyReviewController.php:181-200 | the upserted row carries the key, class, teacher and week start; omitted flags default to not-checked, written and done; omitted or null score and notes are null; an omitted observation is OK; the alert is reopened |
| ReviewUpserts.StepStored | app/Http/Controllers/Api/V1/StudentWeeklyReviewController.php:180-204 | after one more upsert every saved row is still stored under its (student, year, week) key |
| ReviewUpserts.StepLastWins | app/Http/Controllers/Api/V1/StudentWeeklyReviewController.php:180-204 | after one more upsert the table holds, for each key, the last row written to it |
| ReviewUpserts.StepOneRow | app/Http/Controllers/Api/V1/StudentWeeklyReviewController.php:180-204 | under the unique index, writes with the same key keep going to one row |
| ReviewUpserts.StepOnlyWrites | app/Http/Controllers/Api/V1/StudentWeeklyReviewController.php:180-204 | one more upsert removes no row, and leaves every row no item wrote unchanged |
| ReviewUpserts.SaveOne | app/Http/Controllers/Api/V1/StudentWeeklyReviewController.php:180-204 | one `updateOrCreate` inside the transaction: the row is recorded at the end of the saved list, the table stays the starting one with the recorded upserts applied in order, and only the reviews table changes |
| WeeklyReviewController.BatchRows | app/Http/Controllers/Api/V1/StudentWeeklyReviewController.php:179-200 | one row per item, in order, each built from its item with the Monday of the ISO week as week start |
| WeeklyReviewController.StoreAll | app/Http/Controllers/Api/V1/StudentWeeklyReviewController.php:179-205 | the saved list holds exactly the given rows, in order; the table is the old one with these upserts applied: one row per key, the last write to a key wins, other rows untouched; only the reviews table changes |
| WeeklyReviewController.BatchStore | app/Http/Controllers/Api/V1/StudentWeeklyReviewController.php:146-211 | 404, 403, then 422 for a year outside 2020-2100, a week outside 1-53, an empty list or an item breaking the rules, an explicit null flag or observation included; on 201 every item is upserted in order with the Monday of the ISO week as week start, and only the reviews table changes |
| WeeklyReviewController.ApplyPatch | app/Http/Controllers/Api/V1/StudentWeeklyReviewController.php:224-236 | each sent field replaces the stored one, a null score or note clearing it, and every other field, the key and the alert fields included, is kept |
| WeeklyReviewController.EmptyPatchIsIdentity | app/Http/Controllers/Api/V1/StudentWeeklyReviewController.php:236 | an update sending no field leaves the review unchanged |
| WeeklyReviewController.Update | app/Http/Controllers/Api/V1/StudentWeeklyReviewController.php:216-242 | 404/403 from the review's class check, then 422 for a patch breaking the rules, a null flag or observation included; on success only that review changes, to the patched row |
| WeeklyReviewController.Resolve | app/Http/Controllers/Api/V1/StudentWeeklyReviewController.php:247-261 | 404/403 from the review's class check; on success only that review changes, its alert closed at `now` |
| WeeklyReviewController.Destroy | app/Http/Controllers/Api/V1/StudentWeeklyReviewController.php:266-279 | 404/403 from the review's class check; on success that review is removed and nothing else changes |
| ReviewUpserts.UpsertStep | app/Http/Controllers/Api/V1/StudentWeeklyReviewController.php:180-204 | one more `updateOrCreate` keeps the table equal to the starting one with the upserts so far applied in order |
| IsoWeek.YearOf | app/Models/StudentWeeklyReview.php:170 | the calendar year of a day is the one whose 1 January is on or before it and whose next 1 January is after it |
| IsoWeek.YearOfUnique | app/Models/StudentWeeklyReview.php:170 | a day lies in exactly one calendar year |
| IsoWeek.IsoWeekday | app/Models/StudentWeeklyReview.php:171-172 | the ISO weekday lies between 1 (Monday) and 7 (Sunday) |
| IsoWeek.MondayOf | app/Models/StudentWeeklyReview.php:172 | `startOfWeek`: a Monday, on or at most six days before the day |
| IsoWeek.MondayOfUnique | app/Models/StudentWeeklyReview.php:172 | that Monday is the only Monday within the six days before the day |
| IsoWeek.MondayShift | app/Models/StudentWeeklyReview.php:186-187 | the week start of the day seven days earlier is seven days before the week start |
| IsoWeek.IsoWeekNumber | app/Models/StudentWeeklyReview.php:171 | format `W`: the ISO week number lies between 1 and 53 |
| IsoWeek.CalculateWeekStartDate | app/Models/StudentWeeklyReview.php:205-211 | `setISODate(year, week, 1)` always yields a Monday |
| IsoWeek.Week1Start | app/Models/StudentWeeklyReview.php:205-211 | week 1 of every ISO year starts between 29 December and 4 January |
| IsoWeek.WeekStartRoundTrip | app/Models/StudentWeeklyReview.php:205-211 | the ISO year and week of any day lead back, through the week start calculation, to the Monday of that day's week |
| IsoWeek.CurrentWeek | app/Models/StudentWeeklyReview.php:165-174 | the current week has a number from 1 to 53 and starts on the Monday of today's week, and that Monday is what the week start calculation gives for the year and week reported |
| IsoWeek.PreviousWeekSameYear | app/Models/StudentWeeklyReview.php:195-199 | past week 1, the day seven days earlier is in the same ISO year with the week number one less |
| IsoWeek.PreviousWeekRollsOver | app/Models/StudentWeeklyReview.php:183-192 | in week 1, the day seven days earlier is in week 52 or 53 of the previous ISO year |
| IsoWeek.LastWeek | app/Models/StudentWeeklyReview.php:179-200 | the previous week as the two branches compute it is exactly the ISO week of the day seven days earlier |
| IsoWeek.LastWeekStart | app/Models/StudentWeeklyReview.php:198 | the previous week starts seven days before the current one |
| IsoWeek.LastWeekSameYear | app/Models/StudentWeeklyReview.php:195-199 | past week 1, the previous week has the same ISO year and the number one less |
| IsoWeek.LastWeekRollsOver | app/Models/StudentWeeklyReview.php:183-192 | in week 1, the previous week is the last week, 52 or 53, of the previous ISO year |
| IsoWeek.NewYearInPreviousIsoYear | app/Models/StudentWeeklyReview.php:170-171 | a 1 January falling on Friday, Saturday or Sunday is in week 52 or 53 of the previous ISO year |
| IsoWeek.NewYear2021 | app/Models/StudentWeeklyReview.php:165-174 | Friday 1 January 2021 is in week 53 of ISO year 2020, which starts on 28 December 2020 |
| IsoWeek.SameWeek | app/Models/StudentWeeklyReview.php:165-174 | days with the same Monday share their ISO year, week and week start |
| IsoWeek.Week1Of2021 | app/Models/StudentWeeklyReview.php:165-174 | Monday 4 January 2021 starts week 1 of ISO year 2021 |
| IsoWeek.LastWeekAcross2021 | app/Models/StudentWeeklyReview.php:179-200 | on Monday 4 January 2021 the previous week is week 53 of 2020 |
| IsoWeek.WeekStartStep | app/Models/StudentWeeklyReview.php:205-211 | the start of week w is seven days after the start of week w - 1 of the same year |
| Listing.Max | app/Http/Controllers/Api/V1/GradeStudentController.php:87 | SQL `MAX` of a non-empty column is one of its values and no value exceeds it |
| Listing.SortBy | app/Http/Controllers/Api/V1/StudentWeeklyReviewController.php:120-121 | `ORDER BY` returns the same rows, as a multiset, ordered by the key |
| Listing.SelectSorted | app/Http/Controllers/Api/V1/AdminUserController.php:52 | a `WHERE` followed by an `ORDER BY` returns exactly the selected rows, each once, ordered by the key |
| Listing.SortIds | app/Http/Controllers/Api/V1/AdminUserController.php:52 | `ORDER BY` over a set of ids returns exactly those ids, each once, ordered by the key |
| Listing.DistinctPermutation | app/Http/Controllers/Api/V1/StudentWeeklyReviewController.php:120-121 | reordering rows that hold no repeat yields rows that hold no repeat |
| Listing.Ascending | app/Http/Controllers/Api/V1/TimetableEntryController.php:17 | the ids of a set in increasing order, each exactly once |

## Left out

- I/O, HTTP, JSON response shapes, routing and API resources are not modelled. Actions return a status and the rows they read or write.
- Authentication is not modelled: the caller id is a parameter. The clock is a parameter `now`, in seconds, read as a UTC day. Carbon's locale and timezone settings are not modelled.
- UUIDs and auto-increment ids are a `nextId` counter. An inserted row gets an id that no existing row has.
- Database transactions are single atomic transitions. Database failures, rollback and concurrent requests are not modelled.
- Decimal grades and scores are integers in hundredths. The grades table stores behaviour, applications and notebook as `decimal(3,1)`, rounding them to tenths; that rounding is not modelled, and those grades keep their hundredths. The float averages of `app/Models/StudentGrade.php` are not modelled.
- Pagination is not modelled: the `index` listings of weekly reviews and staff, and `paginate` in the repositories. Ordering by text columns (names) is not modelled; orderings by integer columns (`sort_order`, dates, `created_at`, week) are.
- SQL `LIKE` searches are case-sensitive substring tests. `%` and `_` are not treated as wildcards, and no collation is applied.
- InstitutionRepository cache keys are structured values instead of md5 hashes of JSON. Entries do not expire.
- InstitutionRepository.Repository.Restore keeps the stale instance cache entry, as the source does. This leak is modelled, not corrected.
- The `Role` model is not part of this model. Whether a role is still assigned to users is a parameter of `RoleController.RoleTable.Destroy`.
- StudentReportController reads a class relation that the student model does not define under that name. The class lookup is modelled as possibly absent, and then the institution falls back to 1 and the class name to `Unknown`.
- StudentReportController `index`, `show` and `update` only forward to the ORM and are not modelled. `store` and `destroy` are.
- RoleController `store` and `show` only forward to the ORM and are not modelled.
- LessonRepository `getFiltered` is `GetByTeacher` with filters, without its pagination.
- LessonService `getLessons`, `getLessonsByInstitution`, `getLessonsPaginated`, `getLesson`, `getLessonInInstitution` and `deleteLesson` only forward to the repository, which is modelled, and are not modelled themselves.
- LessonPreparationService `getPreparations`, `getPreparationsPaginated`, `getPreparation`, `deletePreparation` and the `getBy…` listings only forward to the lesson preparation repository, which is not part of this model.
- InstitutionService `list`, `all`, `find`, `findOrFail`, `delete`, `restore`, `forceDelete` and the `getBy…` listings only forward to the repository, which is modelled, and are not modelled themselves.
- InstitutionRepository `paginate` and `findOrFail` are not modelled; `Find` covers the cached lookup.
- The LessonPreparationRepository class filter calls a scope that the model class does not define, so that repository is not part of this model.
- The declarative request rule tables of the lesson, institution, role, timetable and tracking requests are modelled only as the range predicates their actions check.
- RoleController.RoleTable.Update: the `UpdateRoleRequest` form request (app/Http/Requests/Role/UpdateRoleRequest.php:10-29) runs before the action and is not modelled. Its `authorize` answers 403 to every caller who is not a super admin. Its rules answer 422 to a `name` that is not a string of at most 50 dash-alphanumeric characters or that another role already uses, and to an over-long display name or description. The member assumes a request that passed both.
- FormRequests.SubjectAccepted: compares subjects as exact strings, not with the loose comparison of `in_array`, which also accepts a numeric string equal in value to a listed one (`"1.0"` for `"1"`).
- GradebookDb.Gradebook.DeleteStudent: does not delete the student's disciplinary reports, which the `student_reports` foreign key removes on cascade (database/migrations/2026_01_10_202908_create_student_reports_table.php:18-20). Reports live in the separate `StudentReportController.ReportTable`.
- GradebookDb.Gradebook.DeleteClass: does not delete the disciplinary reports of the class's students, which the same cascade removes.
- GradeStudentController.Destroy: leaves the student's disciplinary reports in place, where the source's cascade deletes them.
- GradeClassController.Destroy: leaves the disciplinary reports of the class's students in place, where the source's cascade deletes them.
- StudentReportController.RequestValid: the report date is an integer day; the format check of the `date` rule is not modelled.
- WeeklyReviewController.StoreAll: the `foreach` of the transaction is written as recursion on the prefix of the rows (the earlier rows are saved first, then the last one), so the writes happen in the same order as in the loop.
- StudentGradeController.CountOwned: states only that the count is at most the number of items. That it equals the number of items applied is stated by `StudentGradeController.ApplyItems`.

## Findings

| source | as written | input that shows it | evidently intended | confidence | as-written member | corrected member |
|---|---|---|---|---|---|---|
| app/Http/Controllers/StudentReportController.php:95-101 | the next report number is the institution's current report count plus one, and `destroy` removes the row (as does the cascade from deleting the student) | reports R-0001 and R-0002 of one institution; delete R-0001; the next report is numbered R-0002 again | a number no report of the institution holds | not executed | StudentReportController.DeletionRepeatsNumber | StudentReportController.FreshReportNumberUnused |
| app/Http/Controllers/Api/V1/GradeStudentController.php:221-229 | `reorder` checks only that each listed student exists and renumbers it, whatever its class | a teacher reorders their class 1 with the id of a student of another teacher's class 2; that student's `sort_order` changes | only students of the reordered class are renumbered | not executed | GradeStudentController.ReorderReachesOtherClasses | GradeStudentController.ReorderedInClass |
