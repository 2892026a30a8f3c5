/**
 * The teacher's attendance form. Its GET branch shows the roster of a
 * subject the teacher owns; its POST branch resolves the session for
 * (subject, date) and update-or-creates one record per submitted student,
 * stopping at the first id that names no student.
 */
module Marking {
  import opened Models
  import opened Access
  import opened Orm

  /** A form date field: absent, present but not an ISO date, or a date. */
  datatype DateParam = Missing | Unparsable | Parsed(date: Date)

  /** The students a subject's attendance is taken for: same department and semester. */
  function Roster(students: map<StudentId, Student>, subject: Subject): (r: set<StudentId>)
    ensures forall s :: s in r <==>
              s in students && students[s].department == subject.department && students[s].semester == subject.semester
  {
    set s | s in students && students[s].department == subject.department && students[s].semester == subject.semester
  }

  /** The subjects shown on a student's dashboard: same department and semester. */
  function SubjectsOf(subjects: map<SubjectId, Subject>, student: Student): (r: set<SubjectId>)
    ensures forall s :: s in r <==>
              s in subjects && subjects[s].department == student.department && subjects[s].semester == student.semester
  {
    set s | s in subjects && subjects[s].department == student.department && subjects[s].semester == student.semester
  }

  /** A student is on a subject's roster exactly when the subject is on the student's dashboard. */
  lemma RosterMatchesDashboard(t: Tables, subject: SubjectId, student: StudentId)
    requires subject in t.subjects.rows && student in t.students.rows
    ensures student in Roster(t.students.rows, t.subjects.rows[subject]) <==>
            subject in SubjectsOf(t.subjects.rows, t.students.rows[student])
  {
  }

  /** Subject.objects.get(pk = id, teacher = user) succeeds. */
  predicate Owns(t: Tables, user: UserId, subject: Option<SubjectId>)
  {
    subject.Some? && subject.value in t.subjects.rows && t.subjects.rows[subject.value].teacher == Some(user)
  }

  datatype RosterPage =
    | RosterDenied                 // the teacher gate redirected to login
    | RosterBlank                  // no subject or no date was given: an empty form
    | RosterInvalid                // the subject is not the teacher's, or the date does not parse
    | RosterShown(students: set<StudentId>, alreadyMarked: bool)

  /** The GET branch of the attendance form. */
  function MarkAttendanceRoster(t: Tables, requester: Option<UserId>, subject: Option<SubjectId>, date: DateParam): (page: RosterPage)
    ensures page.RosterDenied? <==> TeacherRequired(PrincipalOf(t.users.rows, requester)) != Granted
    ensures page.RosterBlank? <==>
              TeacherRequired(PrincipalOf(t.users.rows, requester)) == Granted && (subject.None? || date.Missing?)
    ensures page.RosterShown? <==>
              TeacherRequired(PrincipalOf(t.users.rows, requester)) == Granted &&
              Owns(t, requester.value, subject) && date.Parsed?
    ensures page.RosterShown? ==>
              (forall s :: s in page.students <==>
                 s in t.students.rows &&
                 t.students.rows[s].department == t.subjects.rows[subject.value].department &&
                 t.students.rows[s].semester == t.subjects.rows[subject.value].semester) &&
              (page.alreadyMarked <==>
                 exists k :: k in t.sessions.rows &&
                   t.sessions.rows[k].subject == subject.value && t.sessions.rows[k].date == date.date)
  {
    if TeacherRequired(PrincipalOf(t.users.rows, requester)) != Granted then RosterDenied
    else if subject.None? || date.Missing? then RosterBlank
    else if !Owns(t, requester.value, subject) || !date.Parsed? then RosterInvalid
    else
      RosterShown(Roster(t.students.rows, t.subjects.rows[subject.value]),
                  exists k :: k in t.sessions.rows &&
                    t.sessions.rows[k].subject == subject.value && t.sessions.rows[k].date == date.date)
  }

  /** What a submission of the form leads to. */
  datatype MarkOutcome =
    | MarkDenied                   // the teacher gate redirected to login
    | InvalidData                  // subject not the teacher's, or the date unusable
    | StudentNotFound(id: StudentId) // the loop stopped at this id with a not-found error
    | Marked(session: SessionId)    // every submitted id was processed

  datatype MarkResult = MarkResult(tables: Tables, outcome: MarkOutcome)

  /**
   * The POST branch of the attendance form: the store after a submission
   * of (subject, date, student_ids, present_students), and its outcome.
   */
  function MarkAttendancePost(t: Tables, requester: Option<UserId>, subject: Option<SubjectId>, date: DateParam,
                              ids: seq<StudentId>, present: seq<StudentId>): (r: MarkResult)
    requires Valid(t)
    ensures r.outcome.MarkDenied? <==> TeacherRequired(PrincipalOf(t.users.rows, requester)) != Granted
    ensures r.outcome.InvalidData? <==>
              TeacherRequired(PrincipalOf(t.users.rows, requester)) == Granted &&
              !(Owns(t, requester.value, subject) && date.Parsed?)
    ensures r.outcome.MarkDenied? || r.outcome.InvalidData? ==> r.tables == t
    ensures r.tables.users == t.users && r.tables.departments == t.departments
    ensures r.tables.subjects == t.subjects && r.tables.students == t.students
  {
    var p := PrincipalOf(t.users.rows, requester);
    if TeacherRequired(p) != Granted then MarkResult(t, MarkDenied)
    else if !(Owns(t, requester.value, subject) && date.Parsed?) then MarkResult(t, InvalidData)
    else
      var look := GetOrCreateSession(t.sessions, subject.value, date.date, requester.value);
      var n := FirstUnknown(t.students.rows, ids);
      var records := MarkAll(t.records, look.id, ids[..n], present);
      MarkResult(t.(sessions := look.sessions, records := records),
                 if n < |ids| then StudentNotFound(ids[n]) else Marked(look.id))
  }

  /**
   * A submission that gets past the checks resolves exactly one session
   * for (subject, date); a session that already existed is reused as it
   * was, so its teacher is the one who first marked it.
   */
  lemma MarkResolvesOneSession(t: Tables, requester: Option<UserId>, subject: Option<SubjectId>, date: DateParam,
                                ids: seq<StudentId>, present: seq<StudentId>)
    requires Valid(t)
    requires TeacherRequired(PrincipalOf(t.users.rows, requester)) == Granted
    requires Owns(t, requester.value, subject) && date.Parsed?
    ensures var after := MarkAttendancePost(t, requester, subject, date, ids, present).tables.sessions.rows;
      && (exists k :: k in after && after[k].subject == subject.value && after[k].date == date.date)
      && (forall j, k | j in after && k in after && after[j].subject == after[k].subject == subject.value &&
                        after[j].date == after[k].date == date.date :: j == k)
      && (forall k | k in t.sessions.rows && t.sessions.rows[k].subject == subject.value &&
                     t.sessions.rows[k].date == date.date :: k in after && after[k] == t.sessions.rows[k])
      && (forall k | k in after && k !in t.sessions.rows :: after[k] == Session(subject.value, date.date, requester))
  {
    var look := GetOrCreateSession(t.sessions, subject.value, date.date, requester.value);
    assert MarkAttendancePost(t, requester, subject, date, ids, present).tables.sessions == look.sessions;
  }

  /**
   * After a submission past the checks, every id before the stopping point
   * has exactly one record in the session, Present iff it was listed as
   * present; records outside that session, and records of students not
   * processed, are unchanged; the outcome names the id that stopped the
   * loop, if any.
   */
  lemma {:induction false} MarkUpserts(t: Tables, requester: Option<UserId>, subject: Option<SubjectId>, date: DateParam,
                     ids: seq<StudentId>, present: seq<StudentId>)
    requires Valid(t)
    requires TeacherRequired(PrincipalOf(t.users.rows, requester)) == Granted
    requires Owns(t, requester.value, subject) && date.Parsed?
    ensures var r := MarkAttendancePost(t, requester, subject, date, ids, present);
      var n := FirstUnknown(t.students.rows, ids);
      var s := GetOrCreateSession(t.sessions, subject.value, date.date, requester.value).id;
      && MarkedAs(r.tables.records.rows, s, ids[..n], present)
      && RecordsUnique(r.tables.records.rows)
      && Frame(t.records.rows, r.tables.records.rows, s, ids[..n])
      && (forall j :: 0 <= j < n ==> ids[j] in t.students.rows)
      && (n < |ids| ==> ids[n] !in t.students.rows && r.outcome == StudentNotFound(ids[n]))
      && (n == |ids| ==> r.outcome == Marked(s))
  {
    var look := GetOrCreateSession(t.sessions, subject.value, date.date, requester.value);
    var n := FirstUnknown(t.students.rows, ids);
    MarkAllMarks(t.records, look.id, ids[..n], present);
    MarkAllFrame(t.records, look.id, ids[..n], present);
  }

  /**
   * A complete submission: each submitted id has exactly one record in the
   * session, with status Present iff the id is among the present ones.
   */
  lemma CompleteSubmission(t: Tables, requester: Option<UserId>, subject: Option<SubjectId>, date: DateParam,
                           ids: seq<StudentId>, present: seq<StudentId>, student: StudentId)
    requires Valid(t)
    requires MarkAttendancePost(t, requester, subject, date, ids, present).outcome.Marked?
    requires student in ids
    ensures var r := MarkAttendancePost(t, requester, subject, date, ids, present);
      var s := r.outcome.session;
      exists k :: k in r.tables.records.rows && r.tables.records.rows[k].session == s &&
        r.tables.records.rows[k].student == student &&
        (r.tables.records.rows[k].status == Present <==> student in present) &&
        (forall j | j in r.tables.records.rows && r.tables.records.rows[j].session == s &&
                    r.tables.records.rows[j].student == student :: j == k)
  {
    var look := GetOrCreateSession(t.sessions, subject.value, date.date, requester.value);
    var n := FirstUnknown(t.students.rows, ids);
    assert n == |ids| && ids[..n] == ids;
    MarkAllRecordsOnce(t.records, look.id, ids, present, student);
  }

  /**
   * Re-marking leaves alone every record of a student the submission did
   * not list, in this session or any other.
   */
  lemma OmittedStudentsKeepRecords(t: Tables, requester: Option<UserId>, subject: Option<SubjectId>, date: DateParam,
                                   ids: seq<StudentId>, present: seq<StudentId>, k: RecordId)
    requires Valid(t)
    requires k in t.records.rows && t.records.rows[k].student !in ids
    ensures var r := MarkAttendancePost(t, requester, subject, date, ids, present);
      k in r.tables.records.rows && r.tables.records.rows[k] == t.records.rows[k]
  {
    var r := MarkAttendancePost(t, requester, subject, date, ids, present);
    if !r.outcome.MarkDenied? && !r.outcome.InvalidData? {
      MarkUpserts(t, requester, subject, date, ids, present);
      var n := FirstUnknown(t.students.rows, ids);
      assert forall x :: x in ids[..n] ==> x in ids;
    }
  }

  /** Every submission, accepted or not, leaves the store valid. */
  lemma MarkKeepsValid(t: Tables, requester: Option<UserId>, subject: Option<SubjectId>, date: DateParam,
                       ids: seq<StudentId>, present: seq<StudentId>)
    requires Valid(t)
    ensures Valid(MarkAttendancePost(t, requester, subject, date, ids, present).tables)
  {
    var r := MarkAttendancePost(t, requester, subject, date, ids, present);
    if !r.outcome.MarkDenied? && !r.outcome.InvalidData? {
      MarkKeepsSessionRefs(t, requester, subject, date, ids, present);
      MarkKeepsRecordRefs(t, requester, subject, date, ids, present);
      assert ReferencesResolve(r.tables);
      assert FieldsUnique(r.tables);
    }
  }

  /** An accepted submission's sessions name stored subjects and teachers. */
  lemma MarkKeepsSessionRefs(t: Tables, requester: Option<UserId>, subject: Option<SubjectId>, date: DateParam,
                             ids: seq<StudentId>, present: seq<StudentId>)
    requires Valid(t)
    requires TeacherRequired(PrincipalOf(t.users.rows, requester)) == Granted
    requires Owns(t, requester.value, subject) && date.Parsed?
    ensures SessionRefs(MarkAttendancePost(t, requester, subject, date, ids, present).tables)
  {
    var u := MarkAttendancePost(t, requester, subject, date, ids, present).tables;
    var look := GetOrCreateSession(t.sessions, subject.value, date.date, requester.value);
    assert u.sessions == look.sessions;
    forall s | s in u.sessions.rows
      ensures u.sessions.rows[s].subject in u.subjects.rows
      ensures OptionalUser(u.users.rows, u.sessions.rows[s].teacher)
    {
      if s !in t.sessions.rows {
        assert s == look.id;
      }
    }
  }

  /** An accepted submission's records name stored sessions and students. */
  lemma MarkKeepsRecordRefs(t: Tables, requester: Option<UserId>, subject: Option<SubjectId>, date: DateParam,
                            ids: seq<StudentId>, present: seq<StudentId>)
    requires Valid(t)
    requires TeacherRequired(PrincipalOf(t.users.rows, requester)) == Granted
    requires Owns(t, requester.value, subject) && date.Parsed?
    ensures RecordRefs(MarkAttendancePost(t, requester, subject, date, ids, present).tables)
  {
    var u := MarkAttendancePost(t, requester, subject, date, ids, present).tables;
    var look := GetOrCreateSession(t.sessions, subject.value, date.date, requester.value);
    var n := FirstUnknown(t.students.rows, ids);
    MarkAllFrame(t.records, look.id, ids[..n], present);
    assert u.sessions == look.sessions;
    forall k | k in u.records.rows
      ensures u.records.rows[k].session in u.sessions.rows
      ensures u.records.rows[k].student in u.students.rows
    {
      if k !in t.records.rows {
        var st := u.records.rows[k].student;
        assert st in ids[..n];
        var j :| 0 <= j < n && ids[..n][j] == st;
      }
    }
  }
}
