# Attendance store: a verified model

This project models the core of a role-based attendance application for an
academic institution: administrators manage departments, subjects, students
and teachers; teachers mark attendance for the subjects they own; students
read their own attendance figures.

The store is six auto-numbered tables. They hold users with a role tag,
departments, subjects, student profiles, attendance sessions (one per subject
and date) and attendance records (one per session and student, Present or
Absent). `Models.Valid` collects what the relational schema guarantees:
- every foreign key resolves;
- each unique column is unique;
- a user has at most one student profile;
- the two `unique_together` pairs are unique.

The model is laid out as follows:

- `models.dfy` (module `Models`): the schema, the role properties of a user,
  and the student's attendance percentage, as an exact rational.
- `access.dfy` (module `Access`): the three role gates (`admin_required`,
  `teacher_required`, `student_required`) and the `dashboard` dispatch. A
  request is reduced to the principal it carries.
- `orm.dfy` (module `Orm`): the two ORM calls the attendance form relies on,
  `get_or_create` of a session and `update_or_create` of a record. It also
  holds `MarkAll`, the upserts of one submission as a function, and
  `FirstUnknown`, the index at which `get_object_or_404` stops that loop.
- `marking.dfy` (module `Marking`): the attendance form. `MarkAttendanceRoster`
  is the GET branch; `MarkAttendancePost` describes the POST branch over a
  snapshot of the store. The lemmas state what a submission does to sessions
  and records.
- `student_views.dfy` (module `StudentViews`): the student dashboard, as a loop
  over the listed subjects, and the per-subject detail page.
- `cascades.dfy` (module `Cascades`): the `on_delete` rules as functions from
  the store before a delete to the store after it. Each is proved to keep
  `Valid`.
- `database.dfy` (module `Store`): the class `Database`, whose fields are the
  six tables. `MarkAttendance` performs the POST branch in place: it calls
  get-or-create, then runs the upsert loop (`Orm.UpsertAll`). It is proved equal
  to `MarkAttendancePost`. The four admin delete views apply the matching
  cascade.

Requests are modelled as follows:
- Identifiers are natural numbers.
- A request is the requester's user id, if any, and its already-parsed
  parameters. A date parameter is missing, unparsable or a date.
- A redirect or an error page is a tag in the result datatype.

Two behaviours of the code that a reader might not expect:

- The POST branch upserts a record for every id in the submitted
  `student_ids`. It does not upsert the computed roster. An id that names an
  existing student outside the roster is marked too.
- An unknown student id is not a validation error without effect. It stops the
  loop at that id with a not-found response. The upserts made for the ids
  before it stay, because the view runs without a transaction.

## Model

| member | source | states |
|---|---|---|
| Models.RolePropertiesExclusive | attendance/models.py:17-27 | no two of `is_admin_user`, `is_teacher`, `is_student_user` hold together; one of them holds exactly when the role is ADMIN, TEACHER or STUDENT |
| Models.Percentage | attendance/models.py:70-74 | 0 when the total is 0; between 0 and 100 when present <= total; 100 iff present equals total and 0 iff present is 0 (total > 0); percentage × total = 100 × present |
| Models.StudentRecords | attendance/models.py:66-69 | only records of the given student; without a subject every record of the student; with a subject a record of the student is included iff its session belongs to that subject |
| Models.PresentRecords | attendance/models.py:73 | a subset of the given records: exactly those whose status is Present |
| Models.AttendancePercentage | attendance/models.py:65-74 | between 0 and 100; 0 when the student has no records; otherwise 100 iff every record is Present; 0 iff every record is Absent |
| Models.User.IsAdminUser | attendance/models.py:17-19 | `is_admin_user`: holds iff the role tag is ADMIN |
| Models.User.IsTeacher | attendance/models.py:21-23 | `is_teacher`: holds iff the role tag is TEACHER |
| Models.User.IsStudentUser | attendance/models.py:25-27 | `is_student_user`: holds iff the role tag is STUDENT |
| Models.Table.Insert | attendance/views.py:271-287 | the auto-numbered insert that a create performs: the new row gets a key no existing row uses, every existing row is kept, and keys stay below the counter |
| Models.EmptyTables | attendance/models.py:5-104 | a store with no rows in any of the six tables is valid |
| Models.ReferencesResolve | attendance/models.py:42-46 | every foreign key of the schema names an existing row; the nullable teacher columns may be null |
| Models.SubjectRefs | attendance/models.py:42-46 | a subject's department exists, and its teacher, if any, is a stored user |
| Models.StudentRefs | attendance/models.py:55-57 | a profile's user and department exist |
| Models.SessionRefs | attendance/models.py:78-83 | a session's subject exists, and its teacher, if any, is a stored user |
| Models.RecordRefs | attendance/models.py:99-100 | a record's session and student exist |
| Models.SessionsUnique | attendance/models.py:86-87 | no two sessions share (subject, date) |
| Models.RecordsUnique | attendance/models.py:103-104 | no two records share (session, student) |
| Models.FieldsUnique | attendance/models.py:31-32 | department names and codes, subject codes and roll numbers are unique (lines 31-32, 41, 56), usernames too, and no two profiles share a user |
| Models.OneProfilePerUser | attendance/models.py:55 | the one-to-one link: no two profiles name the same user |
| Models.Valid | attendance/models.py:30-104 | the schema invariant: keys below each table's counter, every foreign key resolves, the unique columns and both unique_together pairs hold |
| Access.PrincipalOf | attendance/views.py:54 | the request is authenticated iff it carries the id of a stored user, and then its role is that user's role |
| Access.RoleRequired | attendance/views.py:52-58 | a gate grants iff the principal is authenticated and its role is the gate's role; otherwise it redirects to login |
| Access.AdminRequired | attendance/views.py:52-58 | grants iff authenticated with role ADMIN |
| Access.TeacherRequired | attendance/views.py:204-210 | grants iff authenticated with role TEACHER |
| Access.StudentRequired | attendance/views.py:326-332 | grants iff authenticated with role STUDENT |
| Access.GatesExclusive | attendance/views.py:52-58 | no principal passes two different gates; an anonymous one passes none |
| Access.Dashboard | attendance/views.py:36-45 | ADMIN, TEACHER and STUDENT go to their own dashboards (each iff); anonymous users and any other role go to login |
| Access.DashboardAgreesWithGates | attendance/views.py:36-45 | a principal is sent to a dashboard iff that dashboard's gate admits it; to login iff no gate admits it |
| Orm.FindSession | attendance/views.py:271-275 | finds the session stored for (subject, date) when there is one, and reports none only when no session has that pair |
| Orm.GetOrCreateSession | attendance/views.py:271-275 | the result's session has the requested subject and date; a session already stored for the pair is reused with the table unchanged; otherwise one new row is added under a fresh key with the requester as teacher; uniqueness of (subject, date) is kept |
| Orm.GetOrCreateSessionUnique | attendance/models.py:86-87 | after get-or-create, the returned session is the only one with that (subject, date) |
| Orm.FindRecord | attendance/views.py:283-287 | finds the record stored for (session, student) when there is one, and reports none only when there is none |
| Orm.UpdateOrCreate | attendance/models.py:103-104 | the record table stays valid and keeps (session, student) unique |
| Orm.UpdateOrCreateEffect | attendance/views.py:283-287 | afterwards (session, student) has a record with the given status; old rows keep their key, session and student; rows of other pairs are untouched; any new row is for the pair |
| Orm.StatusFor | attendance/views.py:282 | Present iff the id is among the present ids, Absent otherwise |
| Orm.MarkAll | attendance/views.py:280-287 | folding the upserts over a list of ids keeps the table valid and (session, student) unique |
| Orm.MarkAllMarks | attendance/views.py:280-287 | after the upserts, each listed id has a record in the session with its status from the present list |
| Orm.MarkAllRecordsOnce | attendance/models.py:103-104 | after the upserts, each listed id has exactly one record in the session, and it carries the id's status |
| Orm.MarkAllFrame | attendance/views.py:280-287 | the upserts change only records of the session for listed students; every other record is unchanged |
| Orm.FirstUnknown | attendance/views.py:280-281 | every id before the returned index names a student, and the id at the index (if any) does not |
| Marking.Roster | attendance/views.py:248-251 | a student is on the roster iff their department and semester equal the subject's |
| Marking.SubjectsOf | attendance/views.py:344-347 | a subject is on a student's dashboard iff its department and semester equal the student's |
| Marking.RosterMatchesDashboard | attendance/views.py:248-251 | a student is on a subject's roster iff that subject is among the student's dashboard subjects |
| Marking.Owns | attendance/views.py:241 | `Subject.objects.get(pk=..., teacher=request.user)` succeeds: the subject is given, is stored, and is taught by the requester; the same lookup guards the POST branch at line 264 |
| Marking.MarkAttendanceRoster | attendance/views.py:237-258 | denied iff the teacher gate fails; blank iff subject or date is missing; shows the roster iff the subject is the teacher's and the date parses; the shown students are exactly the roster, and "already marked" holds iff a session for (subject, date) exists |
| Marking.MarkAttendancePost | attendance/views.py:260-290 | denied iff the teacher gate fails; invalid data iff the subject is not the teacher's or the date does not parse; both leave the store unchanged; users, departments, subjects and students never change |
| Marking.MarkResolvesOneSession | attendance/views.py:271-275 | past the checks exactly one session has (subject, date); an existing one is kept as it was, teacher included; a created one carries the requester as teacher |
| Marking.MarkUpserts | attendance/views.py:277-287 | every id before the stopping point has a record in the session with status Present iff listed as present; records stay unique; nothing outside that slice changes; the outcome names the id that stopped the loop, or reports success |
| Marking.CompleteSubmission | attendance/views.py:280-287 | after a complete submission each submitted student has exactly one record in the session, Present iff among the present ids |
| Marking.OmittedStudentsKeepRecords | attendance/views.py:280-287 | a record of a student not submitted is unchanged, in any session; re-marking never clears omitted students |
| Marking.MarkKeepsValid | attendance/models.py:86-104 | every submission, accepted or not, leaves the store valid |
| Marking.MarkKeepsSessionRefs | attendance/models.py:77-83 | an accepted submission leaves every session naming a stored subject and, if any, a stored teacher |
| Marking.MarkKeepsRecordRefs | attendance/models.py:99-100 | an accepted submission leaves every record naming a stored session and a stored student |
| StudentViews.ProfileOf | attendance/views.py:338-342 | finds the user's student profile when there is one, and reports none only when no profile belongs to the user |
| StudentViews.SubjectRowOf | attendance/views.py:354-368 | a dashboard line: the total is the number of the student's records in the subject; present counts those that are Present; absent = total - present >= 0; the percentage is that of present over total, in [0, 100] |
| StudentViews.ListSubjects | attendance/views.py:344-347 | lists each subject of the student's department and semester exactly once |
| StudentViews.SumPresent | attendance/views.py:360 | the present counts of the lines added up, never more than the added totals (line 361) when no line counts more present than total |
| StudentViews.Tabulate | attendance/views.py:353-368 | one line per listed subject, in order; the running totals are the sums of the lines and the counts over all the student's records in the listed subjects |
| StudentViews.StudentDashboard | attendance/views.py:335-379 | denied iff the student gate fails; no profile iff the user has none; otherwise one correct line per subject of the student's department and semester; overall present and total are the sums of the lines and the counts over the student's records in those subjects; overall absent = total - present >= 0; overall percentage is their percentage |
| StudentViews.LineMatchesProfilePercentage | attendance/views.py:359 | a dashboard line shows the same figure as the profile's percentage for that subject |
| StudentViews.OverallMatchesProfilePercentage | attendance/views.py:370 | when every record of the student lies in a dashboard subject, the overall figure is the profile's overall percentage |
| StudentViews.StudentAttendanceDetail | attendance/views.py:384-406 | denied iff the student gate fails; no profile iff the user has none; not found iff the subject does not exist; otherwise exactly the student's records in that subject, their counts (absent >= 0), and the profile's percentage for the subject |
| Cascades.DeleteSubjectCascade | attendance/models.py:78 | the subject goes; a session survives iff its subject was not the deleted one; a record survives iff its session survives; surviving rows are unchanged and nothing else changes |
| Cascades.DeleteDepartmentCascade | attendance/models.py:42-57 | the department goes; a subject or student survives iff it was not in it; a session survives iff its subject does; a record survives iff its session and student do; users stay |
| Cascades.Unassign | attendance/models.py:43-46 | a teacher reference is nulled iff it named the deleted user, and never names it afterwards |
| Cascades.DeleteUserCascade | attendance/models.py:55 | the user goes; its profile goes and a record survives iff its student does; subjects and sessions keep their keys and only lose that teacher; departments stay |
| Cascades.UnassignSubjects | attendance/models.py:43-46 | every subject is kept, with the deleted teacher nulled |
| Cascades.UnassignSessions | attendance/models.py:80-83 | every session is kept, with the deleted teacher nulled |
| Cascades.DeleteSubjectKeepsValid | attendance/models.py:99 | deleting a subject with its cascade leaves the store valid |
| Cascades.DeleteDepartmentKeepsValid | attendance/models.py:57 | deleting a department with its cascade leaves the store valid |
| Cascades.DeleteUserKeepsValid | attendance/models.py:100 | deleting a user with its cascade and set-null rules leaves the store valid |
| Cascades.DeleteTeacherKeepsRecords | attendance/models.py:80-83 | deleting a user without a student profile changes no profile, no record and no department |
| Cascades.DeletedUserUnreferenced | attendance/models.py:43-46 | after a user is deleted, no subject, session or profile refers to it |
| Orm.UpsertAll | attendance/views.py:280-287 | runs the loop: processes exactly the ids before the first unknown one (`FirstUnknown`), and returns the record table equal to `MarkAll` over them |
| Store.Database.MarkAttendance | attendance/views.py:260-290 | after the call the store and the outcome are those of `MarkAttendancePost` on the store before it, and the store is valid |
| Store.Database.DeleteDepartment | attendance/views.py:94-100 | denied iff not an admin; not found iff no such department; otherwise the store becomes the department cascade; a refused request changes nothing; validity is kept |
| Store.Database.DeleteSubject | attendance/views.py:191-197 | denied iff not an admin; not found iff no such subject; otherwise the store becomes the subject cascade; a refused request changes nothing; validity is kept |
| Store.Database.DeleteStudent | attendance/views.py:135-141 | denied iff not an admin; not found iff no such profile; otherwise the profile's user is deleted with its cascade, so the profile, its user and its records are gone; validity is kept |
| Store.Database.DeleteTeacher | attendance/views.py:167-173 | denied iff not an admin; not found unless the id names a user with role TEACHER; otherwise that user is deleted with its cascade; a teacher without a student profile costs no records; validity is kept |

## Left out

- Login, logout, password hashing and `create_user`: these are authentication internals outside this source. A request is modelled as the id of an existing user, or none.
- Rendering, flash messages, and redirects as HTTP responses: each page or redirect is a tag of a result datatype.
- The `manage_*` views that list and add departments, subjects, students and teachers through forms. Their validation lives in `attendance/forms.py` and in the form framework, which are not part of this model.
- `admin_dashboard`, `teacher_dashboard` and `teacher_attendance_report`: these are read-only counts and listings.
- Result orderings (`-date`, `-session__date`, the order of subjects): the dashboard lists its subjects once each in some order, and the detail page returns a set.
- Models.Percentage: figures are exact rationals; the rounding to one or two digits (`round(..., 1)`, `round(..., 2)`) is not modelled.
- Ids are numbers. The form sends them as strings and tests `sid in present_ids` on strings, so "05" and "5" would differ. A non-numeric id raises an error on lookup. Neither case is modelled.
- A POST without a date field makes `fromisoformat(None)` raise an uncaught error rather than the invalid-data redirect. In both cases nothing is stored; the model reports `InvalidData`.
- The race between two simultaneous `get_or_create` calls: each request is atomic in the model, except for the part-way stop of the upsert loop.
- The delete views accept any HTTP method: the method is not modelled.
- Cascades into the authentication framework's own tables (groups, permissions, admin log) are not modelled.
- Timestamps (`created_at`) and the text fields that no rule reads (names, e-mail, phone) are not modelled.
