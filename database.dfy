/**
 * The attendance store as the views change it: six keyed tables updated
 * in place by the POST branch of the attendance form and by the four
 * admin delete views. Each method is tied to the pure description of the
 * same request over a snapshot of the tables, and keeps the schema's
 * invariants.
 */
module Store {
  import opened Models
  import opened Access
  import opened Orm
  import opened Marking
  import opened Cascades

  /** What an admin delete view leads to. */
  datatype DeleteOutcome =
    | DeleteDenied                 // the admin gate redirected to login
    | NotFound                     // get_object_or_404 found no such row
    | Deleted                      // the row and everything depending on it are gone

  class Database {
    var users: Table<User>
    var departments: Table<Department>
    var subjects: Table<Subject>
    var students: Table<Student>
    var sessions: Table<Session>
    var records: Table<Record>

    /** The six tables as one value. */
    function Snapshot(): Tables
      reads this
    {
      Tables(users, departments, subjects, students, sessions, records)
    }

    ghost predicate Valid()
      reads this
    {
      Models.Valid(Snapshot())
    }

    /** A fresh database holds no rows. */
    constructor ()
      ensures Snapshot() == EmptyTables() && Valid()
    {
      users := Table(map[], 0);
      departments := Table(map[], 0);
      subjects := Table(map[], 0);
      students := Table(map[], 0);
      sessions := Table(map[], 0);
      records := Table(map[], 0);
    }

    /** Stores the six tables of `t`, as one delete does once its cascade is collected. */
    method Store(t: Tables)
      modifies this
      ensures Snapshot() == t
    {
      users, departments, subjects := t.users, t.departments, t.subjects;
      students, sessions, records := t.students, t.sessions, t.records;
    }

    /**
     * The POST branch of `mark_attendance`. After the gate and the
     * ownership and date checks, the session for (subject, date) is got or
     * created, then the submitted ids are upserted in turn; the first id
     * naming no student stops the loop, and the upserts done before it stay.
     */
    method MarkAttendance(requester: Option<UserId>, subject: Option<SubjectId>, date: DateParam,
                          ids: seq<StudentId>, present: seq<StudentId>) returns (outcome: MarkOutcome)
      requires Valid()
      modifies this
      ensures Valid()
      ensures MarkResult(Snapshot(), outcome) ==
                MarkAttendancePost(old(Snapshot()), requester, subject, date, ids, present)
    {
      ghost var t := Snapshot();
      if TeacherRequired(PrincipalOf(users.rows, requester)) != Granted {
        return MarkDenied;
      }
      if !(Owns(Snapshot(), requester.value, subject) && date.Parsed?) {
        return InvalidData;
      }
      var look := GetOrCreateSession(sessions, subject.value, date.date, requester.value);
      sessions := look.sessions;
      var upserted, n := UpsertAll(records, students.rows, look.id, ids, present);
      records := upserted;
      outcome := if n < |ids| then StudentNotFound(ids[n]) else Marked(look.id);
      assert Snapshot() == t.(sessions := look.sessions, records := upserted);
      MarkKeepsValid(t, requester, subject, date, ids, present);
    }

    /** `delete_department`: the department, with its subjects and students and what hangs off them. */
    method DeleteDepartment(requester: Option<UserId>, pk: DepartmentId) returns (outcome: DeleteOutcome)
      requires Valid()
      modifies this
      ensures Valid()
      ensures outcome == DeleteDenied <==> AdminRequired(PrincipalOf(old(users.rows), requester)) != Granted
      ensures outcome == NotFound <==>
                AdminRequired(PrincipalOf(old(users.rows), requester)) == Granted && pk !in old(departments.rows)
      ensures outcome == Deleted ==> Snapshot() == DeleteDepartmentCascade(old(Snapshot()), pk)
      ensures outcome != Deleted ==> Snapshot() == old(Snapshot())
    {
      if AdminRequired(PrincipalOf(users.rows, requester)) != Granted {
        return DeleteDenied;
      }
      if pk !in departments.rows {
        return NotFound;
      }
      DeleteDepartmentKeepsValid(Snapshot(), pk);
      Store(DeleteDepartmentCascade(Snapshot(), pk));
      outcome := Deleted;
    }

    /** `delete_subject`: the subject, its sessions and their records. */
    method DeleteSubject(requester: Option<UserId>, pk: SubjectId) returns (outcome: DeleteOutcome)
      requires Valid()
      modifies this
      ensures Valid()
      ensures outcome == DeleteDenied <==> AdminRequired(PrincipalOf(old(users.rows), requester)) != Granted
      ensures outcome == NotFound <==>
                AdminRequired(PrincipalOf(old(users.rows), requester)) == Granted && pk !in old(subjects.rows)
      ensures outcome == Deleted ==> Snapshot() == DeleteSubjectCascade(old(Snapshot()), pk)
      ensures outcome != Deleted ==> Snapshot() == old(Snapshot())
    {
      if AdminRequired(PrincipalOf(users.rows, requester)) != Granted {
        return DeleteDenied;
      }
      if pk !in subjects.rows {
        return NotFound;
      }
      DeleteSubjectKeepsValid(Snapshot(), pk);
      Store(DeleteSubjectCascade(Snapshot(), pk));
      outcome := Deleted;
    }

    /**
     * `delete_student`: deletes the profile's user, which takes the
     * profile and its records with it.
     */
    method DeleteStudent(requester: Option<UserId>, pk: StudentId) returns (outcome: DeleteOutcome)
      requires Valid()
      modifies this
      ensures Valid()
      ensures outcome == DeleteDenied <==> AdminRequired(PrincipalOf(old(users.rows), requester)) != Granted
      ensures outcome == NotFound <==>
                AdminRequired(PrincipalOf(old(users.rows), requester)) == Granted && pk !in old(students.rows)
      ensures outcome == Deleted ==>
                pk in old(students.rows) && Snapshot() == DeleteUserCascade(old(Snapshot()), old(students.rows[pk].user))
      ensures outcome == Deleted ==>
                pk !in students.rows && old(students.rows[pk].user) !in users.rows &&
                forall k :: k in records.rows ==> records.rows[k].student != pk
      ensures outcome != Deleted ==> Snapshot() == old(Snapshot())
    {
      if AdminRequired(PrincipalOf(users.rows, requester)) != Granted {
        return DeleteDenied;
      }
      if pk !in students.rows {
        return NotFound;
      }
      var user := students.rows[pk].user;
      DeleteUserKeepsValid(Snapshot(), user);
      Store(DeleteUserCascade(Snapshot(), user));
      outcome := Deleted;
    }

    /**
     * `delete_teacher`: a user with the teacher role only; its subjects
     * and sessions lose their teacher. A user without a student profile
     * loses no records.
     */
    method DeleteTeacher(requester: Option<UserId>, pk: UserId) returns (outcome: DeleteOutcome)
      requires Valid()
      modifies this
      ensures Valid()
      ensures outcome == DeleteDenied <==> AdminRequired(PrincipalOf(old(users.rows), requester)) != Granted
      ensures outcome == NotFound <==>
                AdminRequired(PrincipalOf(old(users.rows), requester)) == Granted &&
                !(pk in old(users.rows) && old(users.rows[pk].role) == TEACHER)
      ensures outcome == Deleted ==> Snapshot() == DeleteUserCascade(old(Snapshot()), pk)
      ensures outcome == Deleted && (forall s :: s in old(students.rows) ==> old(students.rows[s].user) != pk) ==>
                students == old(students) && records == old(records) && departments == old(departments)
      ensures outcome != Deleted ==> Snapshot() == old(Snapshot())
    {
      if AdminRequired(PrincipalOf(users.rows, requester)) != Granted {
        return DeleteDenied;
      }
      if !(pk in users.rows && users.rows[pk].role == TEACHER) {
        return NotFound;
      }
      ghost var t := Snapshot();
      DeleteUserKeepsValid(t, pk);
      if forall s :: s in t.students.rows ==> t.students.rows[s].user != pk {
        assert RecordRefs(t);
        DeleteTeacherKeepsRecords(t, pk);
      }
      Store(DeleteUserCascade(Snapshot(), pk));
      outcome := Deleted;
    }
  }
}
